/**
 * `process_usernames`: splitting `@name` mentions out of the text fragments
 * of a message. The text is cut into the tokens of `re.findall(r'\S+|\s+')`,
 * and each token that starts with `@` and is longer than one character
 * becomes a fragment tagged with the name after the `@`.
 */
module Mentions {
  import opened Wrappers
  import opened Text
  import opened Fragments

  /** `@` */
  const At: CodePoint := 0x40

  /** The characters `\s` matches in a `str` pattern: those for which
      Python's `str.isspace()` holds. */
  predicate IsSpace(c: CodePoint) {
    || 0x09 <= c <= 0x0D || 0x1C <= c <= 0x20 || c == 0x85 || c == 0xA0 || c == 0x1680
    || 0x2000 <= c <= 0x200A || c == 0x2028 || c == 0x2029 || c == 0x202F || c == 0x205F || c == 0x3000
  }

  /** The end of the run of characters of the same kind (white space or not)
      as `t[i]` that starts at `i`. */
  function RunEnd(t: seq<CodePoint>, i: nat): (j: nat)
    requires i < |t|
    ensures i < j <= |t|
    decreases |t| - i
  {
    if i + 1 == |t| || IsSpace(t[i + 1]) != IsSpace(t[i]) then i + 1 else RunEnd(t, i + 1)
  }

  /** The run is uniform and maximal: the next character is of the other kind. */
  lemma {:induction false} RunEndRule(t: seq<CodePoint>, i: nat)
    requires i < |t|
    ensures var j := RunEnd(t, i);
      && (forall k :: i <= k < j ==> IsSpace(t[k]) == IsSpace(t[i]))
      && (j < |t| ==> IsSpace(t[j]) != IsSpace(t[i]))
    decreases |t| - i
  {
    if !(i + 1 == |t| || IsSpace(t[i + 1]) != IsSpace(t[i])) {
      RunEndRule(t, i + 1);
    }
  }

  /** The tokens of `t[i..]`. */
  function TokensFrom(t: seq<CodePoint>, i: nat): seq<seq<CodePoint>>
    requires i <= |t|
    decreases |t| - i
  {
    if i == |t| then [] else [t[i..RunEnd(t, i)]] + TokensFrom(t, RunEnd(t, i))
  }

  /** `re.findall(r'\S+|\s+', t)`: the maximal runs of white space and of
      other characters, in order. */
  function Tokens(t: seq<CodePoint>): seq<seq<CodePoint>> {
    TokensFrom(t, 0)
  }

  /** A token is a non-empty run of characters of one kind. */
  predicate Uniform(tok: seq<CodePoint>) {
    |tok| > 0 && forall k :: 0 <= k < |tok| ==> IsSpace(tok[k]) == IsSpace(tok[0])
  }

  /** Each token is a run of one kind, and two tokens in a row are of
      different kinds, so each run is maximal. */
  predicate Runs(ts: seq<seq<CodePoint>>) {
    && (forall n :: 0 <= n < |ts| ==> Uniform(ts[n]))
    && (forall n :: 0 <= n < |ts| - 1 ==> IsSpace(ts[n][0]) != IsSpace(ts[n + 1][0]))
  }

  /** The tokens of `t[i..]` spell it. */
  lemma {:induction false} TokensFromJoin(t: seq<CodePoint>, i: nat)
    requires i <= |t|
    ensures Join(TokensFrom(t, i)) == t[i..]
    decreases |t| - i
  {
    if i < |t| {
      var j := RunEnd(t, i);
      TokensFromJoin(t, j);
      JoinCons(t[i..j], TokensFrom(t, j));
      assert t[i..] == t[i..j] + t[j..];
    }
  }

  /** Prepending a run to runs of the other kind keeps them runs. */
  lemma RunsCons(tok: seq<CodePoint>, rest: seq<seq<CodePoint>>)
    requires Uniform(tok) && Runs(rest)
    requires |rest| > 0 ==> IsSpace(rest[0][0]) != IsSpace(tok[0])
    ensures Runs([tok] + rest)
  {
    var ts := [tok] + rest;
    assert forall n :: 0 < n < |ts| ==> ts[n] == rest[n - 1];
  }

  /** The tokens of `t[i..]` are maximal runs. */
  lemma {:induction false} TokensFromRuns(t: seq<CodePoint>, i: nat)
    requires i <= |t|
    ensures Runs(TokensFrom(t, i))
    decreases |t| - i
  {
    if i < |t| {
      var j := RunEnd(t, i);
      RunEndRule(t, i);
      TokensFromRuns(t, j);
      if j < |t| {
        assert TokensFrom(t, j)[0][0] == t[j];
      }
      RunsCons(t[i..j], TokensFrom(t, j));
    }
  }

  /** `re.findall(r'\S+|\s+', t)` spells `t` as a sequence of maximal runs. */
  lemma TokensRule(t: seq<CodePoint>)
    ensures Join(Tokens(t)) == t
    ensures Runs(Tokens(t))
  {
    TokensFromJoin(t, 0);
    TokensFromRuns(t, 0);
  }

  /** `token.startswith('@') and len(token) > 1` */
  predicate IsMention(tok: seq<CodePoint>) {
    |tok| > 1 && tok[0] == At
  }

  /** `{'text': token, 'tag': token[1:]}` */
  function Mention(tok: seq<CodePoint>): Fragment
    requires |tok| > 0
  {
    Fragment(tok, None, Some(tok[1..]))
  }

  /**
   * The loop of lines 395-403 from its state: the tokens `tokens[prev..index]`
   * are pending text, and `tokens[index..]` are still to be visited.
   */
  function MentionScan(tokens: seq<seq<CodePoint>>, prev: nat, index: nat): seq<Fragment>
    requires prev <= index <= |tokens|
    decreases |tokens| - index
  {
    if index == |tokens| then TextIfAny(Join(tokens[prev..]))
    else if IsMention(tokens[index]) then
      TextIfAny(Join(tokens[prev..index])) + [Mention(tokens[index])] + MentionScan(tokens, index + 1, index + 1)
    else MentionScan(tokens, prev, index + 1)
  }

  /** The fragment is scanned for mentions: it has no emote and holds an `@`. */
  predicate Scanned(f: Fragment) {
    f.emoticon.None? && At in f.text
  }

  /** What the pass emits for one input fragment. */
  function UsernamesOne(f: Fragment): seq<Fragment> {
    if Scanned(f) then MentionScan(Tokens(f.text), 0, 0) else [f]
  }

  /** What `process_usernames` returns. */
  function UsernamesPass(fs: seq<Fragment>): seq<Fragment> {
    if fs == [] then [] else UsernamesPass(fs[..|fs| - 1]) + UsernamesOne(fs[|fs| - 1])
  }

  lemma UsernamesPassLast(fs: seq<Fragment>, n: nat)
    requires n < |fs|
    ensures UsernamesPass(fs[..n + 1]) == UsernamesPass(fs[..n]) + UsernamesOne(fs[n])
  {
    assert fs[..n + 1][..n] == fs[..n];
  }

  lemma MentionStep(tokens: seq<seq<CodePoint>>, prev: nat, index: nat)
    requires prev <= index < |tokens| && IsMention(tokens[index])
    ensures MentionScan(tokens, prev, index)
            == TextIfAny(Join(tokens[prev..index])) + [Mention(tokens[index])] + MentionScan(tokens, index + 1, index + 1)
  {
  }

  /** Lines 393-406: the scan of one fragment's tokens. */
  method ScanMentions(text: seq<CodePoint>) returns (fragments: seq<Fragment>)
    ensures fragments == MentionScan(Tokens(text), 0, 0)
  {
    var tokens := Tokens(text);
    fragments := [];
    var prevIndex := 0;
    for index := 0 to |tokens|
      invariant prevIndex <= index
      invariant fragments + MentionScan(tokens, prevIndex, index) == MentionScan(tokens, 0, 0)
    {
      var token := tokens[index];
      if |token| > 0 && token[0] == At && |token| > 1 {
        MentionStep(tokens, prevIndex, index);
        var pieces := [];
        var pending := Join(tokens[prevIndex..index]);
        if |pending| > 0 {
          pieces := [PlainText(pending)];
        }
        pieces := pieces + [Fragment(token, None, Some(token[1..]))];
        Emit(fragments, pieces, MentionScan(tokens, prevIndex, index), MentionScan(tokens, index + 1, index + 1),
             MentionScan(tokens, 0, 0));
        fragments := fragments + pieces;
        prevIndex := index + 1;
      }
    }
    var rest := Join(tokens[prevIndex..]);
    if |rest| > 0 {
      fragments := fragments + [PlainText(rest)];
    }
  }

  /** Lines 390-408: `process_usernames`. */
  method ProcessUsernames(oldFragments: seq<Fragment>) returns (fragments: seq<Fragment>)
    ensures fragments == UsernamesPass(oldFragments)
  {
    fragments := [];
    for n := 0 to |oldFragments|
      invariant fragments == UsernamesPass(oldFragments[..n])
    {
      UsernamesPassLast(oldFragments, n);
      var fragment := oldFragments[n];
      if fragment.emoticon.None? && At in fragment.text {
        var scanned := ScanMentions(fragment.text);
        fragments := fragments + scanned;
      } else {
        fragments := fragments + [fragment];
      }
    }
    assert oldFragments[..|oldFragments|] == oldFragments;
  }

  /** `tokens[prev..]` is the pending text, the mention token, and the rest. */
  lemma JoinAround(tokens: seq<seq<CodePoint>>, prev: nat, index: nat)
    requires prev <= index < |tokens|
    ensures Join(tokens[prev..]) == Join(tokens[prev..index]) + tokens[index] + Join(tokens[index + 1..])
  {
    assert tokens[prev..] == tokens[prev..index] + ([tokens[index]] + tokens[index + 1..]);
    JoinAppend(tokens[prev..index], [tokens[index]] + tokens[index + 1..]);
    JoinCons(tokens[index], tokens[index + 1..]);
  }

  lemma MentionConcatStep(tokens: seq<seq<CodePoint>>, prev: nat, index: nat)
    requires prev <= index < |tokens| && IsMention(tokens[index])
    requires Concat(MentionScan(tokens, index + 1, index + 1)) == Join(tokens[index + 1..])
    ensures Concat(MentionScan(tokens, prev, index)) == Join(tokens[prev..])
  {
    var pending := Join(tokens[prev..index]);
    MentionStep(tokens, prev, index);
    ConcatTextIfAny(pending);
    ConcatSplice(MentionScan(tokens, prev, index), TextIfAny(pending), Mention(tokens[index]),
                 MentionScan(tokens, index + 1, index + 1), pending, tokens[index], Join(tokens[index + 1..]));
    JoinAround(tokens, prev, index);
  }

  /** The scan spells the tokens it visits. */
  lemma {:induction false} MentionScanConcat(tokens: seq<seq<CodePoint>>, prev: nat, index: nat)
    requires prev <= index <= |tokens|
    ensures Concat(MentionScan(tokens, prev, index)) == Join(tokens[prev..])
    decreases |tokens| - index
  {
    if index == |tokens| {
      ConcatTextIfAny(Join(tokens[prev..]));
    } else if IsMention(tokens[index]) {
      MentionScanConcat(tokens, index + 1, index + 1);
      MentionConcatStep(tokens, prev, index);
    } else {
      MentionScanConcat(tokens, prev, index + 1);
    }
  }

  /** A fragment the scan emits: a mention `@name` of one non-blank token,
      tagged with `name`, or non-empty untagged text. */
  predicate ScannedFragment(f: Fragment) {
    && f.emoticon.None?
    && |f.text| > 0
    && (f.tag.Some? ==>
          && |f.text| >= 2 && f.text[0] == At && f.tag.value == f.text[1..]
          && forall k :: 0 <= k < |f.text| ==> !IsSpace(f.text[k]))
  }

  /** The fragments `before + [f] + after` are all scanned fragments. */
  lemma ScannedSplice(fs: seq<Fragment>, before: seq<Fragment>, f: Fragment, after: seq<Fragment>)
    requires fs == before + [f] + after
    requires forall g :: g in before ==> ScannedFragment(g)
    requires ScannedFragment(f)
    requires forall g :: g in after ==> ScannedFragment(g)
    ensures forall g :: g in fs ==> ScannedFragment(g)
  {
  }

  /** Every fragment the scan of uniform tokens emits is well formed. */
  lemma {:induction false} MentionScanFragments(tokens: seq<seq<CodePoint>>, prev: nat, index: nat)
    requires prev <= index <= |tokens|
    requires forall n :: 0 <= n < |tokens| ==> Uniform(tokens[n])
    ensures forall f :: f in MentionScan(tokens, prev, index) ==> ScannedFragment(f)
    decreases |tokens| - index
  {
    if index < |tokens| {
      if IsMention(tokens[index]) {
        MentionScanFragments(tokens, index + 1, index + 1);
        MentionStep(tokens, prev, index);
        var tok := tokens[index];
        assert Uniform(tok) && !IsSpace(tok[0]);
        ScannedSplice(MentionScan(tokens, prev, index), TextIfAny(Join(tokens[prev..index])), Mention(tok),
                      MentionScan(tokens, index + 1, index + 1));
      } else {
        MentionScanFragments(tokens, prev, index + 1);
      }
    }
  }

  lemma UsernamesOneConcat(f: Fragment)
    ensures Concat(UsernamesOne(f)) == f.text
  {
    if Scanned(f) {
      MentionScanConcat(Tokens(f.text), 0, 0);
      TokensRule(f.text);
    } else {
      ConcatSingle(f);
    }
  }

  /** The pass keeps the message text. */
  lemma {:induction false} UsernamesPassConcat(fs: seq<Fragment>)
    ensures Concat(UsernamesPass(fs)) == Concat(fs)
    decreases |fs|
  {
    if fs != [] {
      var init, f := fs[..|fs| - 1], fs[|fs| - 1];
      UsernamesPassConcat(init);
      UsernamesOneConcat(f);
      ConcatAppend(UsernamesPass(init), UsernamesOne(f));
    }
  }

  /** Fragments with an emote or without `@` pass through unchanged; every
      other output fragment is one the scan created, and well formed. */
  lemma {:induction false} UsernamesPassFragments(fs: seq<Fragment>)
    ensures forall f :: f in UsernamesPass(fs) ==> (f in fs && !Scanned(f)) || ScannedFragment(f)
    decreases |fs|
  {
    if fs != [] {
      var init, f := fs[..|fs| - 1], fs[|fs| - 1];
      UsernamesPassFragments(init);
      if Scanned(f) {
        TokensRule(f.text);
        MentionScanFragments(Tokens(f.text), 0, 0);
      }
      forall g | g in UsernamesPass(fs)
        ensures (g in fs && !Scanned(g)) || ScannedFragment(g)
      {
        if g in UsernamesPass(init) {
          assert g in init ==> g in fs;
        }
      }
    }
  }

  /** The scan skips tokens that are not mentions. */
  lemma {:induction false} SkipPlain(tokens: seq<seq<CodePoint>>, prev: nat, index: nat, m: nat)
    requires prev <= index <= m <= |tokens|
    requires forall n :: index <= n < m ==> !IsMention(tokens[n])
    ensures MentionScan(tokens, prev, index) == MentionScan(tokens, prev, m)
    decreases m - index
  {
    if index < m {
      SkipPlain(tokens, prev, index + 1, m);
    }
  }

  /** Without a mention left, the pending tokens become one text fragment. */
  lemma {:induction false} ScanPlain(tokens: seq<seq<CodePoint>>, prev: nat, index: nat)
    requires prev <= index <= |tokens|
    requires forall n :: index <= n < |tokens| ==> !IsMention(tokens[n])
    ensures MentionScan(tokens, prev, index) == TextIfAny(Join(tokens[prev..]))
    decreases |tokens| - index
  {
    if index < |tokens| {
      ScanPlain(tokens, prev, index + 1);
    }
  }

  /** A scan over tokens of which only `tok` is a mention. */
  lemma OneMention(before: seq<seq<CodePoint>>, tok: seq<CodePoint>, after: seq<seq<CodePoint>>)
    requires IsMention(tok)
    requires forall n :: 0 <= n < |before| ==> !IsMention(before[n])
    requires forall n :: 0 <= n < |after| ==> !IsMention(after[n])
    ensures MentionScan(before + [tok] + after, 0, 0)
            == TextIfAny(Join(before)) + [Mention(tok)] + TextIfAny(Join(after))
  {
    var ts := before + [tok] + after;
    var m := |before|;
    assert ts[m + 1..] == after;
    assert ts[..m] == before;
    ScanPlain(ts, m + 1, m + 1);
    SkipPlain(ts, 0, 0, m);
    MentionStep(ts, 0, m);
  }

  /** Without an `@` in `t[i..]`, none of its tokens is a mention. */
  lemma {:induction false} NoAtNoMention(t: seq<CodePoint>, i: nat)
    requires i <= |t|
    requires forall k :: i <= k < |t| ==> t[k] != At
    ensures forall n :: 0 <= n < |TokensFrom(t, i)| ==> !IsMention(TokensFrom(t, i)[n])
    decreases |t| - i
  {
    if i < |t| {
      var j := RunEnd(t, i);
      NoAtNoMention(t, j);
      assert t[i..j][0] == t[i];
      assert forall n :: 0 < n < |TokensFrom(t, i)| ==> TokensFrom(t, i)[n] == TokensFrom(t, j)[n - 1];
    }
  }

  /** A lone `@` is not a mention: the fragment stays as it is. */
  lemma LoneAt(t: seq<CodePoint>)
    requires t == [At]
    ensures UsernamesOne(PlainText(t)) == [PlainText(t)]
  {
    assert At in t && !IsMention(t);
    assert TokensFrom(t, 1) == [] && t[0..1] == t;
    assert Tokens(t) == [t];
    ScanPlain([t], 0, 0);
    assert [t][0..] == [t] + [];
    JoinCons(t, []);
    assert t + Join([]) == t;
  }

  /** "hello @bob how are you" */
  const Hello: seq<CodePoint> := [0x68, 0x65, 0x6C, 0x6C, 0x6F, 0x20, 0x40, 0x62, 0x6F, 0x62, 0x20,
                                  0x68, 0x6F, 0x77, 0x20, 0x61, 0x72, 0x65, 0x20, 0x79, 0x6F, 0x75]

  lemma HelloFacts(t: seq<CodePoint>)
    requires t == Hello
    ensures |t| == 22 && At in t
    ensures IsMention(t[6..10]) && !IsMention(t[0..5]) && !IsMention(t[5..6])
    ensures forall k :: 10 <= k < |t| ==> t[k] != At
    ensures t[0..5] + t[5..6] == t[..6] && t[6..10][1..] == t[7..10]
  {
    assert t[6] == At;
  }

  lemma HelloKinds(t: seq<CodePoint>)
    requires t == Hello
    ensures forall k :: 0 <= k < |t| ==> (IsSpace(t[k]) <==> k in {5, 10, 14, 18})
  {
  }

  /** The runs of the example: "hello" ends at 5, " " at 6 and "@bob" at 10. */
  lemma HelloRuns(t: seq<CodePoint>)
    requires t == Hello
    ensures |t| == 22 && RunEnd(t, 0) == 5 && RunEnd(t, 5) == 6 && RunEnd(t, 6) == 10
  {
    HelloKinds(t);
    assert RunEnd(t, 9) == 10 && RunEnd(t, 8) == 10 && RunEnd(t, 7) == 10;
    assert RunEnd(t, 4) == 5 && RunEnd(t, 3) == 5 && RunEnd(t, 2) == 5 && RunEnd(t, 1) == 5;
  }

  /** The first three tokens of a text whose first runs end at `a`, `b`
      and `c`. */
  lemma FirstTokens(t: seq<CodePoint>, a: nat, b: nat, c: nat)
    requires 0 < a < b < c <= |t| && b < |t|
    requires RunEnd(t, 0) == a && RunEnd(t, a) == b && RunEnd(t, b) == c
    ensures Tokens(t) == [t[0..a], t[a..b]] + [t[b..c]] + TokensFrom(t, c)
  {
    assert TokensFrom(t, b) == [t[b..c]] + TokensFrom(t, c);
    assert TokensFrom(t, a) == [t[a..b]] + TokensFrom(t, b);
    assert TokensFrom(t, 0) == [t[0..a]] + TokensFrom(t, a);
  }

  /** The first three tokens of the example: "hello", " " and "@bob". */
  lemma HelloTokens(t: seq<CodePoint>)
    requires t == Hello
    ensures Tokens(t) == [t[0..5], t[5..6]] + [t[6..10]] + TokensFrom(t, 10)
  {
    HelloRuns(t);
    FirstTokens(t, 5, 6, 10);
  }

  lemma JoinPair(a: seq<CodePoint>, b: seq<CodePoint>)
    ensures Join([a, b]) == a + b
  {
    JoinCons(b, []);
    JoinCons(a, [b]);
    assert [a, b] == [a] + [b];
  }

  /** The scan of a text whose third token is its only mention. */
  lemma ThirdTokenMention(t: seq<CodePoint>, a: seq<CodePoint>, b: seq<CodePoint>, tok: seq<CodePoint>,
                          rest: seq<seq<CodePoint>>)
    requires Tokens(t) == [a, b] + [tok] + rest
    requires IsMention(tok) && !IsMention(a) && !IsMention(b)
    requires forall n :: 0 <= n < |rest| ==> !IsMention(rest[n])
    requires |a| > 0 && |Join(rest)| > 0
    ensures MentionScan(Tokens(t), 0, 0) == [PlainText(a + b), Mention(tok), PlainText(Join(rest))]
  {
    JoinPair(a, b);
    OneMention([a, b], tok, rest);
  }

  /** "hello @bob how are you" gives "hello ", "@bob" tagged "bob", and " how are you". */
  lemma HelloBob(t: seq<CodePoint>)
    requires t == Hello
    ensures UsernamesOne(PlainText(t))
            == [PlainText(t[..6]), Fragment(t[6..10], None, Some(t[7..10])), PlainText(t[10..])]
  {
    HelloFacts(t);
    NoAtNoMention(t, 10);
    HelloTokens(t);
    TokensFromJoin(t, 10);
    ThirdTokenMention(t, t[0..5], t[5..6], t[6..10], TokensFrom(t, 10));
  }
}
