/**
 * The cache file name `get_emote` derives for an emote id (the lines before
 * it looks at the disk or the network).
 */
module EmoteFiles {
  import opened Text

  /** `:` */
  const Colon: CodePoint := 0x3A

  /** "colon" */
  const ColonWord: seq<CodePoint> := [0x63, 0x6F, 0x6C, 0x6F, 0x6E]

  /** `f'-{EMOTE_SIZE}'` with size 1: "-1". */
  const SizeTag: seq<CodePoint> := [0x2D, 0x31]

  /** ".png" */
  const Png: seq<CodePoint> := [0x2E, 0x70, 0x6E, 0x67]

  /** ".gif" */
  const Gif: seq<CodePoint> := [0x2E, 0x67, 0x69, 0x66]

  /** "SourPls" */
  const SourPls: seq<CodePoint> := [0x53, 0x6F, 0x75, 0x72, 0x50, 0x6C, 0x73]

  /** "(chompy)" */
  const Chompy: seq<CodePoint> := [0x28, 0x63, 0x68, 0x6F, 0x6D, 0x70, 0x79, 0x29]

  /** The emotes whose image is animated: `('SourPls', '(chompy)')`. */
  predicate Animated(emoteId: seq<CodePoint>) {
    emoteId == SourPls || emoteId == Chompy
  }

  /** Line 412: every `:` of the id spelled out as "colon". */
  function SafeId(emoteId: seq<CodePoint>): seq<CodePoint> {
    ReplaceAll(emoteId, [Colon], ColonWord)
  }

  /** Lines 412-415: the path of the emote's file in the cache folder. */
  function EmoteFile(folder: seq<CodePoint>, emoteId: seq<CodePoint>): seq<CodePoint> {
    var id := SafeId(emoteId);
    var file := JoinPath(folder, id + SizeTag + Png);
    if Animated(id) then ReplaceAll(file, Png, Gif) else file
  }

  /** The file name holds no `:`, and an id without one is kept as it is. */
  lemma SafeIdRule(emoteId: seq<CodePoint>)
    ensures Colon !in SafeId(emoteId)
    ensures Colon !in emoteId ==> SafeId(emoteId) == emoteId
  {
    ReplaceRemoves(emoteId, Colon, ColonWord);
    if Colon !in emoteId {
      forall i | 0 <= i < |emoteId|
        ensures !OccursAt(emoteId, [Colon], i)
      {
        assert emoteId[i..i + 1][0] == emoteId[i];
      }
      ReplaceAbsent(emoteId, [Colon], ColonWord);
    }
  }

  /** A still emote is stored in the folder under the name `<id>-1.png`,
      its `:`s spelled out: the path ends with that name, holds no `:` when
      the folder holds none, and is the folder joined with `<id>-1.png`
      when the id holds no `:`. */
  lemma StillFile(folder: seq<CodePoint>, emoteId: seq<CodePoint>)
    requires !Animated(SafeId(emoteId))
    ensures var path := EmoteFile(folder, emoteId); var name := SafeId(emoteId) + SizeTag + Png;
      && |name| <= |path| && path[|path| - |name|..] == name
      && (Colon !in folder ==> Colon !in path)
      && (Colon !in emoteId ==> path == JoinPath(folder, emoteId + SizeTag + Png))
  {
    SafeIdRule(emoteId);
    var name := SafeId(emoteId) + SizeTag + Png;
    JoinPathEnds(folder, name);
    if Colon !in folder {
      assert Colon !in SizeTag + Png;
      JoinPathWithout(folder, name, Colon);
    }
  }

  /** `os.path.join(folder, name)` ends with `name`. */
  lemma JoinPathEnds(folder: seq<CodePoint>, name: seq<CodePoint>)
    ensures var path := JoinPath(folder, name); |name| <= |path| && path[|path| - |name|..] == name
  {
  }

  /** The prefix of `JoinPath(folder, name + suffix)` before `suffix`. */
  lemma JoinPathSuffix(folder: seq<CodePoint>, name: seq<CodePoint>, suffix: seq<CodePoint>)
    requires |name| > 0 && name[0] != Slash
    ensures JoinPath(folder, name + suffix) == JoinPath(folder, name) + suffix
  {
    assert (name + suffix)[0] == name[0];
    if folder == [] || folder[|folder| - 1] == Slash {
      assert folder + (name + suffix) == (folder + name) + suffix;
    } else {
      assert folder + [Slash] + (name + suffix) == (folder + [Slash] + name) + suffix;
    }
  }

  /** The ids of the animated emotes hold no `:`, and the names of their
      files hold no `.` and do not start with `/`. */
  lemma AnimatedNames(emoteId: seq<CodePoint>)
    requires Animated(emoteId)
    ensures Colon !in emoteId
    ensures |emoteId| > 0 && emoteId[0] != Slash
    ensures forall k :: 0 <= k < |emoteId + SizeTag| ==> (emoteId + SizeTag)[k] != Png[0]
  {
  }

  /** A character that is not `/` and occurs in neither part does not occur
      in the joined path. */
  lemma JoinPathWithout(folder: seq<CodePoint>, name: seq<CodePoint>, c: CodePoint)
    requires c != Slash && c !in folder && c !in name
    ensures c !in JoinPath(folder, name)
  {
  }

  /** The two animated emotes are stored as `<id>-1.gif`, when the folder's
      path holds no `.` (a folder path holding ".png" is rewritten too). */
  lemma AnimatedFile(folder: seq<CodePoint>, emoteId: seq<CodePoint>)
    requires Animated(emoteId)
    requires Png[0] !in folder
    ensures EmoteFile(folder, emoteId) == JoinPath(folder, emoteId + SizeTag + Gif)
  {
    AnimatedNames(emoteId);
    SafeIdRule(emoteId);
    var name := emoteId + SizeTag;
    var t := JoinPath(folder, name);
    JoinPathSuffix(folder, name, Png);
    JoinPathSuffix(folder, name, Gif);
    assert Png[0] !in name;
    JoinPathWithout(folder, name, Png[0]);
    forall j | 0 <= j < |t|
      ensures !OccursAt(t + Png, Png, j)
    {
      assert (t + Png)[j] == t[j];
    }
    ReplaceLast(t, Png, Gif);
    assert SafeId(emoteId) == emoteId;
    calc {
      EmoteFile(folder, emoteId);
      ReplaceAll(JoinPath(folder, name + Png), Png, Gif);
      ReplaceAll(t + Png, Png, Gif);
      t + Gif;
      JoinPath(folder, name + Gif);
    }
  }
}
