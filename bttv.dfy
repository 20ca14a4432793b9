/**
 * `process_bttv_emotes`: splitting known third-party emote names out of the
 * text fragments of a message.
 */
module Bttv {
  import opened Wrappers
  import opened Text
  import opened Fragments

  /** No entry is empty: an empty entry would be found at index 0 forever. */
  predicate ValidTable(table: seq<seq<CodePoint>>) {
    forall k :: 0 <= k < |table| ==> |table[k]| > 0
  }

  /** `any(emote in text for emote in table)` */
  predicate AnyEmote(text: seq<CodePoint>, table: seq<seq<CodePoint>>) {
    exists k :: 0 <= k < |table| && Contains(text, table[k])
  }

  /**
   * The scan over `table[..j]` that picks the emote to split out next. The
   * first component is the chosen entry's position in the table (`None` while
   * nothing is found), the second the index where it starts (`len(text)`
   * while nothing is found). LeftmostRule says which entry it picks.
   */
  function Leftmost(text: seq<CodePoint>, table: seq<seq<CodePoint>>, j: nat): (r: (Option<nat>, int))
    requires j <= |table|
  {
    if j == 0 then (None, |text|)
    else
      var (found, foundIndex) := Leftmost(text, table, j - 1);
      var index := Find(text, table[j - 1]);
      if -1 < index < foundIndex then (Some(j - 1), index) else (found, foundIndex)
  }

  /**
   * The scan finds an entry exactly when one of `table[..j]` occurs in the
   * text; it picks the entry whose first occurrence starts earliest and,
   * among entries starting there, the one that comes first in the table.
   */
  lemma {:induction false} LeftmostRule(text: seq<CodePoint>, table: seq<seq<CodePoint>>, j: nat)
    requires j <= |table| && ValidTable(table)
    ensures var r := Leftmost(text, table, j);
      && (r.0.None? <==> forall k :: 0 <= k < j ==> !Contains(text, table[k]))
      && (r.0.None? ==> r.1 == |text|)
      && (r.0.Some? ==> r.0.value < j && r.1 == Find(text, table[r.0.value]) && 0 <= r.1 < |text|)
      && (r.0.Some? ==> forall k :: 0 <= k < j && Contains(text, table[k]) ==> r.1 <= Find(text, table[k]))
      && (r.0.Some? ==> forall k :: 0 <= k < r.0.value ==> Find(text, table[k]) != r.1)
  {
    if j > 0 {
      LeftmostRule(text, table, j - 1);
      FindRule(text, table[j - 1]);
      forall k | 0 <= k < j - 1
        ensures Find(text, table[k]) == -1 <==> !Contains(text, table[k])
      {
        FindRule(text, table[k]);
      }
    }
  }

  /** When some entry occurs, the scan finds one, and where it first occurs. */
  lemma {:induction false} LeftmostFound(text: seq<CodePoint>, table: seq<seq<CodePoint>>, j: nat)
    requires j <= |table| && ValidTable(table)
    requires exists k :: 0 <= k < j && Contains(text, table[k])
    ensures var r := Leftmost(text, table, j);
      r.0.Some? && r.0.value < j && r.1 == Find(text, table[r.0.value]) && 0 <= r.1 < |text|
  {
    LeftmostRule(text, table, j);
  }

  /** What the scan of one text fragment's `text` emits. */
  function BttvSplit(text: seq<CodePoint>, table: seq<seq<CodePoint>>): seq<Fragment>
    requires ValidTable(table)
    decreases |text|
  {
    if |text| == 0 then []
    else if !AnyEmote(text, table) then [PlainText(text)]
    else
      LeftmostFound(text, table, |table|);
      var (found, i) := Leftmost(text, table, |table|);
      var k := found.value;
      TextIfAny(text[..i]) + [Emote(table[k], table[k])] + BttvSplit(text[i + |table[k]|..], table)
  }

  /** What the pass emits for one input fragment. */
  function BttvOne(f: Fragment, table: seq<seq<CodePoint>>): seq<Fragment>
    requires ValidTable(table)
  {
    if f.emoticon.None? then BttvSplit(f.text, table) else [f]
  }

  /** What `process_bttv_emotes` returns. */
  function BttvPass(fs: seq<Fragment>, table: seq<seq<CodePoint>>): seq<Fragment>
    requires ValidTable(table)
  {
    if fs == [] then [] else BttvPass(fs[..|fs| - 1], table) + BttvOne(fs[|fs| - 1], table)
  }

  lemma BttvPassLast(fs: seq<Fragment>, n: nat, table: seq<seq<CodePoint>>)
    requires n < |fs| && ValidTable(table)
    ensures BttvPass(fs[..n + 1], table) == BttvPass(fs[..n], table) + BttvOne(fs[n], table)
  {
    assert fs[..n + 1][..n] == fs[..n];
  }

  /** One step of the scan: the scan of the table finds an entry, the entry
      occurs where it says, and the scan continues after it. */
  lemma ScanStep(text: seq<CodePoint>, table: seq<seq<CodePoint>>)
    requires ValidTable(table) && AnyEmote(text, table)
    ensures var (found, i) := Leftmost(text, table, |table|);
      && found.Some? && found.value < |table| && 0 <= i && OccursAt(text, table[found.value], i)
      && BttvSplit(text, table)
         == TextIfAny(text[..i]) + [Emote(table[found.value], table[found.value])]
            + BttvSplit(text[i + |table[found.value]|..], table)
  {
    LeftmostFound(text, table, |table|);
    var (found, i) := Leftmost(text, table, |table|);
    FindRule(text, table[found.value]);
    BttvSplitStep(text, table, found.value, i);
  }

  lemma BttvSplitStep(text: seq<CodePoint>, table: seq<seq<CodePoint>>, k: nat, i: nat)
    requires ValidTable(table) && AnyEmote(text, table)
    requires Leftmost(text, table, |table|) == (Some(k), i)
    requires k < |table| && OccursAt(text, table[k], i)
    ensures BttvSplit(text, table) == TextIfAny(text[..i]) + [Emote(table[k], table[k])] + BttvSplit(text[i + |table[k]|..], table)
  {
    assert |table[k]| > 0;
    assert |text| > 0;
  }

  /** Lines 305-311: the scan of the table for the earliest emote in `text`. */
  method FindLeftmost(text: seq<CodePoint>, table: seq<seq<CodePoint>>) returns (emoteFound: Option<nat>, foundIndex: int)
    requires ValidTable(table)
    ensures (emoteFound, foundIndex) == Leftmost(text, table, |table|)
  {
    emoteFound, foundIndex := None, |text|;
    for k := 0 to |table|
      invariant (emoteFound, foundIndex) == Leftmost(text, table, k)
    {
      var index := Find(text, table[k]);
      if -1 < index < foundIndex {
        emoteFound := Some(k);
        foundIndex := index;
      }
    }
  }

  /** Lines 305-320: one round of the scan of a text fragment: the text
      before the emote found next, the emote, and the text left to scan. */
  method SplitNext(text: seq<CodePoint>, table: seq<seq<CodePoint>>) returns (pieces: seq<Fragment>, rest: seq<CodePoint>)
    requires ValidTable(table) && AnyEmote(text, table)
    ensures |rest| < |text|
    ensures pieces + BttvSplit(rest, table) == BttvSplit(text, table)
  {
    var emoteFound, foundIndex := FindLeftmost(text, table);
    ScanStep(text, table);
    var emote := table[emoteFound.value];
    pieces := [];
    if foundIndex > 0 {
      pieces := [PlainText(text[..foundIndex])];
    }
    pieces := pieces + [Emote(emote, emote)];
    rest := text[foundIndex + |emote|..];
  }

  /** Lines 303-326: the scan of one text fragment. */
  method ScanText(fragmentText: seq<CodePoint>, table: seq<seq<CodePoint>>) returns (fragments: seq<Fragment>)
    requires ValidTable(table)
    ensures fragments == BttvSplit(fragmentText, table)
  {
    fragments := [];
    var text := fragmentText;
    while |text| > 0 && AnyEmote(text, table)
      invariant fragments + BttvSplit(text, table) == BttvSplit(fragmentText, table)
      decreases |text|
    {
      var pieces, rest := SplitNext(text, table);
      Emit(fragments, pieces, BttvSplit(text, table), BttvSplit(rest, table), BttvSplit(fragmentText, table));
      fragments, text := fragments + pieces, rest;
    }
    if |text| > 0 {
      fragments := fragments + [PlainText(text)];
    }
  }

  method ProcessBttvEmotes(oldFragments: seq<Fragment>, table: seq<seq<CodePoint>>) returns (fragments: seq<Fragment>)
    requires ValidTable(table)
    ensures fragments == BttvPass(oldFragments, table)
  {
    fragments := [];
    for n := 0 to |oldFragments|
      invariant fragments == BttvPass(oldFragments[..n], table)
    {
      BttvPassLast(oldFragments, n, table);
      var fragment := oldFragments[n];
      if fragment.emoticon.None? {
        var scanned := ScanText(fragment.text, table);
        fragments := fragments + scanned;
      } else {
        fragments := fragments + [fragment];
      }
    }
    assert oldFragments[..|oldFragments|] == oldFragments;
  }

  /** A fragment the scan emits: not empty, no tag, and either an emote named
      by a table entry or plain text in which no table entry occurs. */
  predicate ScannedFragment(f: Fragment, table: seq<seq<CodePoint>>) {
    && |f.text| > 0
    && f.tag.None?
    && (f.emoticon.Some? ==> f.emoticon.value == f.text && f.text in table)
    && (f.emoticon.None? ==> !AnyEmote(f.text, table))
  }

  lemma OccursInPrefix(text: seq<CodePoint>, pat: seq<CodePoint>, i: nat, j: int)
    requires i <= |text| && OccursAt(text[..i], pat, j)
    ensures OccursAt(text, pat, j)
  {
    assert text[..i][j..j + |pat|] == text[j..j + |pat|];
  }

  lemma Around(text: seq<CodePoint>, pat: seq<CodePoint>, i: nat)
    requires OccursAt(text, pat, i)
    ensures text == text[..i] + pat + text[i + |pat|..]
  {
  }

  /** The scan spells its input exactly. */
  lemma {:induction false} BttvSplitConcat(text: seq<CodePoint>, table: seq<seq<CodePoint>>)
    requires ValidTable(table)
    ensures Concat(BttvSplit(text, table)) == text
    decreases |text|
  {
    if |text| == 0 {
    } else if !AnyEmote(text, table) {
      ConcatSingle(PlainText(text));
    } else {
      ScanStep(text, table);
      var (found, i) := Leftmost(text, table, |table|);
      var k := found.value;
      var emote := Emote(table[k], table[k]);
      var rest := text[i + |table[k]|..];
      BttvSplitConcat(rest, table);
      ConcatAppend(TextIfAny(text[..i]) + [emote], BttvSplit(rest, table));
      ConcatAppend(TextIfAny(text[..i]), [emote]);
      ConcatTextIfAny(text[..i]);
      ConcatSingle(emote);
      Around(text, table[k], i);
    }
  }

  /** No table entry occurs in the text before the emote the scan picks. */
  lemma PrefixClean(text: seq<CodePoint>, table: seq<seq<CodePoint>>)
    requires ValidTable(table) && AnyEmote(text, table)
    ensures var (found, i) := Leftmost(text, table, |table|);
      0 <= i <= |text| && !AnyEmote(text[..i], table)
  {
    LeftmostRule(text, table, |table|);
    var (found, i) := Leftmost(text, table, |table|);
    var prefix := text[..i];
    forall k | 0 <= k < |table|
      ensures !Contains(prefix, table[k])
    {
      if Contains(prefix, table[k]) {
        var j :| 0 <= j <= |prefix| && OccursAt(prefix, table[k], j);
        OccursInPrefix(text, table[k], i, j);
        FindRule(text, table[k]);
      }
    }
  }

  /** The fragments `before + [f] + after` are all scanned fragments. */
  lemma ScannedSplice(fs: seq<Fragment>, before: seq<Fragment>, f: Fragment, after: seq<Fragment>, table: seq<seq<CodePoint>>)
    requires fs == before + [f] + after
    requires forall g :: g in before ==> ScannedFragment(g, table)
    requires ScannedFragment(f, table)
    requires forall g :: g in after ==> ScannedFragment(g, table)
    ensures forall g :: g in fs ==> ScannedFragment(g, table)
  {
  }

  /** Every fragment the scan emits is well formed; in particular no plain-text
      piece still contains a table entry. */
  lemma {:induction false} BttvSplitFragments(text: seq<CodePoint>, table: seq<seq<CodePoint>>)
    requires ValidTable(table)
    ensures forall f :: f in BttvSplit(text, table) ==> ScannedFragment(f, table)
    decreases |text|
  {
    if |text| > 0 && AnyEmote(text, table) {
      ScanStep(text, table);
      PrefixClean(text, table);
      var (found, i) := Leftmost(text, table, |table|);
      var emote := table[found.value];
      var rest := text[i + |emote|..];
      BttvSplitFragments(rest, table);
      assert emote in table;
      ScannedSplice(BttvSplit(text, table), TextIfAny(text[..i]), Emote(emote, emote), BttvSplit(rest, table), table);
    }
  }

  lemma BttvOneConcat(f: Fragment, table: seq<seq<CodePoint>>)
    requires ValidTable(table)
    ensures Concat(BttvOne(f, table)) == f.text
  {
    if f.emoticon.None? {
      BttvSplitConcat(f.text, table);
    } else {
      ConcatSingle(f);
    }
  }

  /** The pass keeps the message text. */
  lemma {:induction false} BttvPassConcat(fs: seq<Fragment>, table: seq<seq<CodePoint>>)
    requires ValidTable(table)
    ensures Concat(BttvPass(fs, table)) == Concat(fs)
    decreases |fs|
  {
    if fs != [] {
      var init, f := fs[..|fs| - 1], fs[|fs| - 1];
      BttvPassConcat(init, table);
      BttvOneConcat(f, table);
      ConcatAppend(BttvPass(init, table), BttvOne(f, table));
    }
  }

  /** Emote fragments pass through unchanged; every other output fragment is
      one the scan created, and well formed. Empty text fragments disappear. */
  lemma {:induction false} BttvPassFragments(fs: seq<Fragment>, table: seq<seq<CodePoint>>)
    requires ValidTable(table)
    ensures forall f :: f in BttvPass(fs, table) ==> (f in fs && f.emoticon.Some?) || ScannedFragment(f, table)
    decreases |fs|
  {
    if fs != [] {
      var init, f := fs[..|fs| - 1], fs[|fs| - 1];
      BttvPassFragments(init, table);
      if f.emoticon.None? {
        BttvSplitFragments(f.text, table);
      }
      forall g | g in BttvPass(fs, table)
        ensures (g in fs && g.emoticon.Some?) || ScannedFragment(g, table)
      {
        if g in BttvPass(init, table) {
          assert g in init ==> g in fs;
        }
      }
    }
  }

  /** Where `find` puts the first letters of two words in the text. */
  lemma FindsAt(text: seq<CodePoint>, pat: seq<CodePoint>, i: nat)
    requires OccursAt(text, pat, i) && |pat| > 0
    requires forall j :: 0 <= j < i ==> text[j] != pat[0]
    ensures Find(text, pat) == i
  {
    forall j | 0 <= j < i
      ensures !OccursAt(text, pat, j)
    {
      assert text[j] != pat[0];
    }
    FindIs(text, pat, i);
  }

  /** "xx", "yy", "Goodness" and "OhMyGoodness" */
  const XX: seq<CodePoint> := [0x78, 0x78]
  const YY: seq<CodePoint> := [0x79, 0x79]
  const Goodness: seq<CodePoint> := [0x47, 0x6F, 0x6F, 0x64, 0x6E, 0x65, 0x73, 0x73]
  const OhMyGoodness: seq<CodePoint> := [0x4F, 0x68, 0x4D, 0x79, 0x47, 0x6F, 0x6F, 0x64, 0x6E, 0x65, 0x73, 0x73]

  /** The scan of a two-entry table, given where each entry is first found. */
  lemma LeftmostOfTwo(text: seq<CodePoint>, table: seq<seq<CodePoint>>, i0: int, i1: int)
    requires |table| == 2 && Find(text, table[0]) == i0 && Find(text, table[1]) == i1
    requires 0 <= i0 < |text|
    ensures Leftmost(text, table, 2) == if 0 <= i1 < i0 then (Some(1), i1) else (Some(0), i0)
  {
    assert Leftmost(text, table, 1) == (Some(0), i0);
  }

  /** Where the two entries first occur in "xxOhMyGoodnessyy". */
  lemma GoodnessFinds(text: seq<CodePoint>)
    requires text == XX + OhMyGoodness + YY
    ensures Find(text, Goodness) == 6 && Find(text, OhMyGoodness) == 2
    ensures OccursAt(text, OhMyGoodness, 2) && text[..2] == XX && text[14..] == YY
  {
    assert text[6..14] == Goodness;
    FindsAt(text, Goodness, 6);
    assert text[2..14] == OhMyGoodness;
    FindsAt(text, OhMyGoodness, 2);
  }

  /** With the table ["Goodness", "OhMyGoodness"], "xxOhMyGoodnessyy" is
      split at the entry that starts first, although it comes second in the
      table. */
  lemma LeftmostWins(text: seq<CodePoint>, table: seq<seq<CodePoint>>)
    requires text == XX + OhMyGoodness + YY && table == [Goodness, OhMyGoodness]
    requires ValidTable(table)
    ensures BttvSplit(text, table) == [PlainText(XX), Emote(OhMyGoodness, OhMyGoodness), PlainText(YY)]
  {
    GoodnessFinds(text);
    LeftmostOfTwo(text, table, 6, 2);
    assert Contains(text, table[1]);
    BttvSplitStep(text, table, 1, 2);
    assert !Contains(YY, table[0]) && !Contains(YY, table[1]);
  }

  /** With the table ["ab", "abc"], both entries start at index 0 of "abcd";
      the one earlier in the table wins and "cd" stays text. */
  lemma TableOrderWins(text: seq<CodePoint>, table: seq<seq<CodePoint>>)
    requires text == [0x61, 0x62, 0x63, 0x64] && table == [[0x61, 0x62], [0x61, 0x62, 0x63]]
    requires ValidTable(table)
    ensures BttvSplit(text, table) == [Emote(table[0], table[0]), PlainText([0x63, 0x64])]
  {
    assert Find(text, table[0]) == 0 by {
      assert text[0..2] == table[0];
      FindsAt(text, table[0], 0);
    }
    assert Find(text, table[1]) == 0 by {
      assert text[0..3] == table[1];
      FindsAt(text, table[1], 0);
    }
    LeftmostOfTwo(text, table, 0, 0);
    assert AnyEmote(text, table) by { assert OccursAt(text, table[0], 0); }
    BttvSplitStep(text, table, 0, 0);
    var rest := text[2..];
    assert rest == [0x63, 0x64];
    assert !Contains(rest, table[0]) by {
      assert !OccursAt(rest, table[0], 0) by { assert rest[0] != table[0][0]; }
    }
    assert !AnyEmote(rest, table);
    assert text[..0] == [];
  }
}
