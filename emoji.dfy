/**
 * `process_emoji`: splitting single emoji characters, for which an image is
 * cached on disk, out of the text fragments of a message.
 */
module Emoji {
  import opened Wrappers
  import opened Text
  import opened Fragments

  /** The two inclusive code point ranges of `EMOJI_RANGES`; `EMOJI_MATCHER`
      is the character class of the same two ranges. */
  predicate InEmojiRange(c: CodePoint) {
    0x2139 <= c <= 0x3299 || 0x1F004 <= c <= 0x1F9E6
  }

  /** `EMOJI_MATCHER.search(text)` finds something. */
  predicate HasEmoji(text: seq<CodePoint>) {
    exists i :: 0 <= i < |text| && InEmojiRange(text[i])
  }

  /**
   * The emote image cache as `process_emoji` sees it: the folder
   * `EMOTES_FOLDER` and `os.path.exists` on the paths inside it, which the
   * pass only reads.
   */
  datatype AssetStore = AssetStore(folder: seq<CodePoint>, present: seq<CodePoint> -> bool)

  /** `f'{EMOTE_PREFIX}-'` with the prefix `'windows'`: "windows-". */
  const NamePrefix: seq<CodePoint> := [0x77, 0x69, 0x6E, 0x64, 0x6F, 0x77, 0x73, 0x2D]

  /** `f'-{EMOTE_SIZE}.png'` with size 1: "-1.png". */
  const ImageSuffix: seq<CodePoint> := [0x2D, 0x31, 0x2E, 0x70, 0x6E, 0x67]

  /** `f'{EMOTE_PREFIX}-{char}'` */
  function EmojiName(c: CodePoint): seq<CodePoint> {
    NamePrefix + [c]
  }

  /** `os.path.join(EMOTES_FOLDER, f'{emote_name}-{EMOTE_SIZE}.png')` with size 1. */
  function AssetPath(assets: AssetStore, c: CodePoint): seq<CodePoint> {
    JoinPath(assets.folder, EmojiName(c) + ImageSuffix)
  }

  /** The character is split out: it is in range and its image exists. */
  predicate Splits(assets: AssetStore, c: CodePoint) {
    InEmojiRange(c) && assets.present(AssetPath(assets, c))
  }

  /** No character of `text` is split out. */
  predicate NoSplit(assets: AssetStore, text: seq<CodePoint>) {
    forall i :: 0 <= i < |text| ==> !Splits(assets, text[i])
  }

  /** The emote fragment for one split character. */
  function EmojiFragment(c: CodePoint): Fragment {
    Emote([c], EmojiName(c))
  }

  /** The index of the first character from `k` on that is split out, or
      `|text|`; NextSplitIs says which index that is. */
  function NextSplit(assets: AssetStore, text: seq<CodePoint>, k: nat): (r: nat)
    requires k <= |text|
    ensures k <= r <= |text|
    decreases |text| - k
  {
    if k == |text| || Splits(assets, text[k]) then k else NextSplit(assets, text, k + 1)
  }

  /** `i` is the next split character's index exactly when the character
      there is split out and none between `k` and it is, or `i` is the end
      and no character from `k` on is split out. */
  lemma {:induction false} NextSplitIs(assets: AssetStore, text: seq<CodePoint>, k: nat, i: nat)
    requires k <= i <= |text|
    ensures NextSplit(assets, text, k) == i
            <==> (i < |text| ==> Splits(assets, text[i])) && forall j :: k <= j < i ==> !Splits(assets, text[j])
    decreases |text| - k
  {
    if k < i {
      NextSplitIs(assets, text, k + 1, i);
    }
  }

  /**
   * What the scan emits for `text[k..]`: every character that is split out
   * becomes its own emote fragment, and each maximal stretch of other
   * characters between them one text fragment.
   */
  function SplitFrom(assets: AssetStore, text: seq<CodePoint>, k: nat): seq<Fragment>
    requires k <= |text|
    decreases |text| - k
  {
    var i := NextSplit(assets, text, k);
    if i == |text| then TextIfAny(text[k..])
    else TextIfAny(text[k..i]) + [EmojiFragment(text[i])] + SplitFrom(assets, text, i + 1)
  }

  /** What the scan of one text fragment emits. */
  function EmojiSplit(assets: AssetStore, text: seq<CodePoint>): seq<Fragment> {
    SplitFrom(assets, text, 0)
  }

  /** What the pass emits for one input fragment. */
  function EmojiOne(assets: AssetStore, f: Fragment): seq<Fragment> {
    if f.emoticon.None? then EmojiSplit(assets, f.text) else [f]
  }

  /** What `process_emoji` returns. */
  function EmojiPass(assets: AssetStore, fs: seq<Fragment>): seq<Fragment> {
    if fs == [] then [] else EmojiPass(assets, fs[..|fs| - 1]) + EmojiOne(assets, fs[|fs| - 1])
  }

  lemma EmojiPassLast(assets: AssetStore, fs: seq<Fragment>, n: nat)
    requires n < |fs|
    ensures EmojiPass(assets, fs[..n + 1]) == EmojiPass(assets, fs[..n]) + EmojiOne(assets, fs[n])
  {
    assert fs[..n + 1][..n] == fs[..n];
  }

  /** Where the next split character is, the scan splits and goes on after it. */
  lemma SplitFromStep(assets: AssetStore, text: seq<CodePoint>, k: nat)
    requires k <= |text| && NextSplit(assets, text, k) < |text|
    ensures var i := NextSplit(assets, text, k);
      SplitFrom(assets, text, k) == TextIfAny(text[k..i]) + [EmojiFragment(text[i])] + SplitFrom(assets, text, i + 1)
  {
  }

  /** From `k` on no character is split out: the rest is one text fragment. */
  lemma SplitFromNone(assets: AssetStore, text: seq<CodePoint>, k: nat)
    requires k <= |text|
    requires forall j :: k <= j < |text| ==> !Splits(assets, text[j])
    ensures SplitFrom(assets, text, k) == TextIfAny(text[k..])
  {
    NextSplitIs(assets, text, k, |text|);
  }

  /** A text without split characters is emitted as it is. */
  lemma EmojiSplitNone(assets: AssetStore, text: seq<CodePoint>)
    requires NoSplit(assets, text)
    ensures EmojiSplit(assets, text) == TextIfAny(text)
  {
    SplitFromNone(assets, text, 0);
  }

  /**
   * The character at `i` is the first one from `k` on that is split out: the
   * scan of `text[k..]` splits there, and `text[k..].find(char)` lands there.
   */
  lemma SplitStep(assets: AssetStore, text: seq<CodePoint>, k: nat, i: nat)
    requires k <= i < |text| && Splits(assets, text[i])
    requires forall j :: k <= j < i ==> !Splits(assets, text[j])
    ensures SplitFrom(assets, text, k)
            == TextIfAny(text[k..i]) + [EmojiFragment(text[i])] + SplitFrom(assets, text, i + 1)
    ensures Find(text[k..], [text[i]]) == i - k
  {
    NextSplitIs(assets, text, k, i);
    SplitFromStep(assets, text, k);
    var t := text[k..];
    assert OccursAt(t, [text[i]], i - k);
    forall j | 0 <= j < i - k
      ensures !OccursAt(t, [text[i]], j)
    {
      assert t[j..j + 1] == [text[k + j]];
    }
    FindIs(t, [text[i]], i - k);
  }

  /**
   * Lines 346-357: cutting the split character `char`, at index `k` of the
   * snapshot `chars`, off the front of the current `text`, which is
   * `chars[p..]`: the text before it and its emote fragment are emitted.
   */
  method Cut(assets: AssetStore, text: seq<CodePoint>, ch: CodePoint, ghost chars: seq<CodePoint>, ghost p: nat, ghost k: nat)
    returns (cut: seq<Fragment>, rest: seq<CodePoint>)
    requires p <= k < |chars| && text == chars[p..] && chars[k] == ch && Splits(assets, ch)
    requires forall j :: p <= j < k ==> !Splits(assets, chars[j])
    ensures rest == chars[k + 1..]
    ensures SplitFrom(assets, chars, p) == cut + SplitFrom(assets, chars, k + 1)
  {
    SplitStep(assets, chars, p, k);
    var index := Find(text, [ch]);
    cut := [];
    if index > 0 {
      cut := [PlainText(text[..index])];
    }
    cut := cut + [Emote([ch], EmojiName(ch))];
    assert text[..index] == chars[p..k];
    rest := text[index + 1..];
  }

  /**
   * Lines 342-357: one run of `for char in text` over a snapshot `chars` of
   * the text. `text.find(char)` always lands on the character being visited,
   * because every character split out so far has been cut off the front,
   * and no character between them is one that would be split out.
   */
  method SplitRound(assets: AssetStore, chars: seq<CodePoint>) returns (pieces: seq<Fragment>, text: seq<CodePoint>, changed: bool)
    ensures pieces + EmojiSplit(assets, text) == EmojiSplit(assets, chars)
    ensures NoSplit(assets, text)
    ensures changed ==> |text| < |chars|
    ensures !changed ==> text == chars
  {
    pieces, text, changed := [], chars, false;
    ghost var p := 0;
    for k := 0 to |chars|
      invariant p <= k && text == chars[p..]
      invariant changed <==> p > 0
      invariant forall j :: p <= j < k ==> !Splits(assets, chars[j])
      invariant pieces + SplitFrom(assets, chars, p) == EmojiSplit(assets, chars)
    {
      var ch := chars[k];
      if InEmojiRange(ch) {
        var emoteFilename := EmojiName(ch) + ImageSuffix;
        if assets.present(JoinPath(assets.folder, emoteFilename)) {
          changed := true;
          var cut, rest := Cut(assets, text, ch, chars, p, k);
          Emit(pieces, cut, SplitFrom(assets, chars, p), SplitFrom(assets, chars, k + 1), EmojiSplit(assets, chars));
          pieces, text := pieces + cut, rest;
          p := k + 1;
        }
      }
    }
    SplitFromNone(assets, chars, p);
    EmojiSplitNone(assets, text);
  }

  /** Lines 338-361: the scan of one text fragment. */
  method ScanText(assets: AssetStore, fragmentText: seq<CodePoint>) returns (fragments: seq<Fragment>)
    ensures fragments == EmojiSplit(assets, fragmentText)
  {
    fragments := [];
    var text := fragmentText;
    var changed := true;
    while HasEmoji(text) && changed
      invariant fragments + EmojiSplit(assets, text) == EmojiSplit(assets, fragmentText)
      invariant changed || NoSplit(assets, text)
      decreases |text|, if changed then 1 else 0
    {
      var pieces, rest;
      pieces, rest, changed := SplitRound(assets, text);
      Emit(fragments, pieces, EmojiSplit(assets, text), EmojiSplit(assets, rest), EmojiSplit(assets, fragmentText));
      fragments, text := fragments + pieces, rest;
    }
    EmojiSplitNone(assets, text);
    if |text| > 0 {
      fragments := fragments + [PlainText(text)];
    }
  }

  /** Lines 332-365: `process_emoji`. */
  method ProcessEmoji(assets: AssetStore, oldFragments: seq<Fragment>) returns (fragments: seq<Fragment>)
    ensures fragments == EmojiPass(assets, oldFragments)
  {
    fragments := [];
    for n := 0 to |oldFragments|
      invariant fragments == EmojiPass(assets, oldFragments[..n])
    {
      EmojiPassLast(assets, oldFragments, n);
      var fragment := oldFragments[n];
      if fragment.emoticon.None? {
        var scanned := ScanText(assets, fragment.text);
        fragments := fragments + scanned;
      } else {
        fragments := fragments + [fragment];
      }
    }
    assert oldFragments[..|oldFragments|] == oldFragments;
  }

  /** A fragment the scan emits: a split character as its own emote fragment
      named `windows-<char>`, or non-empty text without split characters. */
  predicate ScannedFragment(assets: AssetStore, f: Fragment) {
    && f.tag.None?
    && (f.emoticon.Some? ==> |f.text| == 1 && Splits(assets, f.text[0]) && f.emoticon.value == EmojiName(f.text[0]))
    && (f.emoticon.None? ==> |f.text| > 0 && NoSplit(assets, f.text))
  }

  /** The scan spells its input exactly. */
  lemma {:induction false} SplitFromConcat(assets: AssetStore, text: seq<CodePoint>, k: nat)
    requires k <= |text|
    ensures Concat(SplitFrom(assets, text, k)) == text[k..]
    decreases |text| - k
  {
    var i := NextSplit(assets, text, k);
    if i == |text| {
      ConcatTextIfAny(text[k..]);
    } else {
      SplitFromConcat(assets, text, i + 1);
      ConcatStep(assets, text, k);
    }
  }

  lemma ConcatStep(assets: AssetStore, text: seq<CodePoint>, k: nat)
    requires k <= |text| && NextSplit(assets, text, k) < |text|
    requires var i := NextSplit(assets, text, k); Concat(SplitFrom(assets, text, i + 1)) == text[i + 1..]
    ensures Concat(SplitFrom(assets, text, k)) == text[k..]
  {
    var i := NextSplit(assets, text, k);
    SplitFromStep(assets, text, k);
    ConcatTextIfAny(text[k..i]);
    ConcatSplice(SplitFrom(assets, text, k), TextIfAny(text[k..i]), EmojiFragment(text[i]), SplitFrom(assets, text, i + 1),
                 text[k..i], [text[i]], text[i + 1..]);
    SliceAround(text, k, i);
  }

  /** The scan spells its input exactly. */
  lemma EmojiSplitConcat(assets: AssetStore, text: seq<CodePoint>)
    ensures Concat(EmojiSplit(assets, text)) == text
  {
    SplitFromConcat(assets, text, 0);
  }

  lemma {:induction false} SplitFromFragments(assets: AssetStore, text: seq<CodePoint>, k: nat)
    requires k <= |text|
    ensures forall f :: f in SplitFrom(assets, text, k) ==> ScannedFragment(assets, f)
    decreases |text| - k
  {
    var i := NextSplit(assets, text, k);
    NextSplitIs(assets, text, k, i);
    if i < |text| {
      SplitFromFragments(assets, text, i + 1);
    }
  }

  /** Every fragment the scan emits is well formed: together with
      EmojiSplitConcat, a character ends up in an emote fragment of its own
      exactly when it is split out. */
  lemma EmojiSplitFragments(assets: AssetStore, text: seq<CodePoint>)
    ensures forall f :: f in EmojiSplit(assets, text) ==> ScannedFragment(assets, f)
  {
    SplitFromFragments(assets, text, 0);
  }

  lemma EmojiOneConcat(assets: AssetStore, f: Fragment)
    ensures Concat(EmojiOne(assets, f)) == f.text
  {
    if f.emoticon.None? {
      EmojiSplitConcat(assets, f.text);
    } else {
      ConcatSingle(f);
    }
  }

  /** The pass keeps the message text. */
  lemma {:induction false} EmojiPassConcat(assets: AssetStore, fs: seq<Fragment>)
    ensures Concat(EmojiPass(assets, fs)) == Concat(fs)
    decreases |fs|
  {
    if fs != [] {
      var init, f := fs[..|fs| - 1], fs[|fs| - 1];
      EmojiPassConcat(assets, init);
      EmojiOneConcat(assets, f);
      ConcatAppend(EmojiPass(assets, init), EmojiOne(assets, f));
    }
  }

  /** Emote fragments pass through unchanged; every other output fragment is
      one the scan created, and well formed. */
  lemma {:induction false} EmojiPassFragments(assets: AssetStore, fs: seq<Fragment>)
    ensures forall f :: f in EmojiPass(assets, fs) ==> (f in fs && f.emoticon.Some?) || ScannedFragment(assets, f)
    decreases |fs|
  {
    if fs != [] {
      var init, f := fs[..|fs| - 1], fs[|fs| - 1];
      EmojiPassFragments(assets, init);
      if f.emoticon.None? {
        EmojiSplitFragments(assets, f.text);
      }
      forall g | g in EmojiPass(assets, fs)
        ensures (g in fs && g.emoticon.Some?) || ScannedFragment(assets, g)
      {
        if g in EmojiPass(assets, init) {
          assert g in init ==> g in fs;
        }
      }
    }
  }
}
