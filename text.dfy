/**
 * Text primitives the source takes from Python's `str` and `os.path`:
 * code points, `pat in text`, `text.find(pat)`, `''.join`, `str.replace`
 * and `os.path.join`.
 */
module Text {
  /** One character of a Python `str`: a code point, possibly a lone surrogate. */
  type CodePoint = c: int | 0 <= c < 0x11_0000

  /** An ASCII decimal digit, as `[0-9]` and `int` accept it. */
  predicate IsDigit(ch: char) {
    '0' <= ch <= '9'
  }

  predicate AllDigits(s: string) {
    forall k :: 0 <= k < |s| ==> IsDigit(s[k])
  }

  /** `pat` occurs in `text` starting at index `i`. */
  predicate OccursAt<T(==)>(text: seq<T>, pat: seq<T>, i: int) {
    0 <= i && i + |pat| <= |text| && text[i..i + |pat|] == pat
  }

  /** Python's `pat in text`. */
  predicate Contains<T(==)>(text: seq<T>, pat: seq<T>) {
    exists i :: 0 <= i <= |text| && OccursAt(text, pat, i)
  }

  function FindFrom<T(==)>(text: seq<T>, pat: seq<T>, i: nat): (r: int)
    requires i <= |text|
    ensures r == -1 || (i <= r && r + |pat| <= |text|)
    decreases |text| - i
  {
    if i + |pat| > |text| then -1
    else if text[i..i + |pat|] == pat then i
    else if i == |text| then -1
    else FindFrom(text, pat, i + 1)
  }

  /** The search from `i` finds the first occurrence at or after `i`, or none. */
  lemma {:induction false} FindFromRule<T>(text: seq<T>, pat: seq<T>, i: nat)
    requires i <= |text|
    ensures var r := FindFrom(text, pat, i);
      && (r >= 0 ==> OccursAt(text, pat, r) && forall j :: i <= j < r ==> !OccursAt(text, pat, j))
      && (r == -1 ==> forall j :: i <= j ==> !OccursAt(text, pat, j))
    decreases |text| - i
  {
    if i + |pat| <= |text| && text[i..i + |pat|] != pat && i < |text| {
      FindFromRule(text, pat, i + 1);
    }
  }

  /** Python's `text.find(pat)`: the first index where `pat` starts, or -1;
      FindRule says which index that is. */
  function Find<T(==)>(text: seq<T>, pat: seq<T>): (r: int)
    ensures r == -1 || (0 <= r && r + |pat| <= |text|)
  {
    FindFrom(text, pat, 0)
  }

  /** `find` returns -1 exactly when `pat` does not occur, and otherwise the
      index of its first occurrence. */
  lemma FindRule<T>(text: seq<T>, pat: seq<T>)
    ensures var r := Find(text, pat);
      && (r == -1 <==> !Contains(text, pat))
      && (r >= 0 ==> OccursAt(text, pat, r))
      && (r >= 0 ==> forall j :: 0 <= j < r ==> !OccursAt(text, pat, j))
  {
    FindFromRule(text, pat, 0);
  }

  /** A first occurrence is the index `Find` returns. */
  lemma FindIs<T>(text: seq<T>, pat: seq<T>, i: int)
    requires OccursAt(text, pat, i)
    requires forall j :: 0 <= j < i ==> !OccursAt(text, pat, j)
    ensures Find(text, pat) == i
  {
    FindRule(text, pat);
  }

  /** For a single element, `find` returns -1 exactly when the element is
      absent, and otherwise an index holding it with none before. */
  lemma FindElement<T>(text: seq<T>, c: T)
    ensures var r := Find(text, [c]);
      && (r == -1 <==> c !in text)
      && (r >= 0 ==> r < |text| && text[r] == c && c !in text[..r])
  {
    var r := Find(text, [c]);
    FindRule(text, [c]);
    if r >= 0 {
      assert text[r..r + 1] == [c];
      assert text[r] == c;
      forall j | 0 <= j < r
        ensures text[j] != c
      {
        assert !OccursAt(text, [c], j);
        assert text[j..j + 1] == [text[j]];
      }
    } else {
      forall j | 0 <= j < |text|
        ensures text[j] != c
      {
        assert !OccursAt(text, [c], j);
        assert text[j..j + 1] == [text[j]];
      }
    }
  }

  /** The first `c` of `before + [c] + after`, when `before` has none, is
      at `|before|`. */
  lemma FindFirstElement<T>(before: seq<T>, c: T, after: seq<T>)
    requires c !in before
    ensures Find(before + [c] + after, [c]) == |before|
  {
    var text := before + [c] + after;
    assert text[|before|..|before| + 1] == [c];
    forall j | 0 <= j < |before|
      ensures !OccursAt(text, [c], j)
    {
      assert text[j] == before[j];
    }
    FindIs(text, [c], |before|);
  }

  /** `text[k..]` is the text before index `i`, the element at `i`, and the rest. */
  lemma SliceAround<T>(text: seq<T>, k: nat, i: nat)
    requires k <= i < |text|
    ensures text[k..] == text[k..i] + [text[i]] + text[i + 1..]
  {
  }

  /** Python's `''.join(parts)`. */
  function Join<T>(parts: seq<seq<T>>): seq<T> {
    if parts == [] then [] else Join(parts[..|parts| - 1]) + parts[|parts| - 1]
  }

  lemma {:induction false} JoinAppend<T>(a: seq<seq<T>>, b: seq<seq<T>>)
    ensures Join(a + b) == Join(a) + Join(b)
    decreases |b|
  {
    if b == [] {
      assert a + b == a;
    } else {
      var b' := b[..|b| - 1];
      assert (a + b)[..|a + b| - 1] == a + b';
      assert (a + b)[|a + b| - 1] == b[|b| - 1];
      JoinAppend(a, b');
      calc {
        Join(a + b);
        Join(a + b') + b[|b| - 1];
        (Join(a) + Join(b')) + b[|b| - 1];
        Join(a) + (Join(b') + b[|b| - 1]);
        Join(a) + Join(b);
      }
    }
  }

  lemma JoinCons<T>(x: seq<T>, rest: seq<seq<T>>)
    ensures Join([x] + rest) == x + Join(rest)
  {
    JoinAppend([x], rest);
    assert Join([x]) == Join([x][..0]) + x;
  }

  /** Python's `s.replace(pat, sub)`: every non-overlapping occurrence, left to right. */
  function ReplaceAll<T(==)>(s: seq<T>, pat: seq<T>, sub: seq<T>): seq<T>
    requires |pat| > 0
    decreases |s|
  {
    var i := Find(s, pat);
    if i < 0 then s else s[..i] + sub + ReplaceAll(s[i + |pat|..], pat, sub)
  }

  /** Without an occurrence of `pat`, `replace` leaves the text as it is. */
  lemma ReplaceAbsent<T>(s: seq<T>, pat: seq<T>, sub: seq<T>)
    requires |pat| > 0 && !Contains(s, pat)
    ensures ReplaceAll(s, pat, sub) == s
  {
    FindRule(s, pat);
  }

  /** A single-element pattern that the replacement does not contain is
      gone from the result. */
  lemma {:induction false} ReplaceRemoves<T>(s: seq<T>, c: T, sub: seq<T>)
    requires c !in sub
    ensures c !in ReplaceAll(s, [c], sub)
    decreases |s|
  {
    var i := Find(s, [c]);
    FindRule(s, [c]);
    if i >= 0 {
      ReplaceRemoves(s[i + 1..], c, sub);
      forall j | 0 <= j < i
        ensures s[j] != c
      {
        assert !OccursAt(s, [c], j);
        assert s[j..j + 1] == [s[j]];
      }
    } else {
      forall j | 0 <= j < |s|
        ensures s[j] != c
      {
        assert !OccursAt(s, [c], j);
        assert s[j..j + 1] == [s[j]];
      }
    }
  }

  /** When the only occurrence of `pat` in `t + pat` is the final one,
      `replace` swaps just that one. */
  lemma ReplaceLast<T>(t: seq<T>, pat: seq<T>, sub: seq<T>)
    requires |pat| > 0
    requires forall j :: 0 <= j < |t| ==> !OccursAt(t + pat, pat, j)
    ensures ReplaceAll(t + pat, pat, sub) == t + sub
  {
    var s := t + pat;
    assert OccursAt(s, pat, |t|) by { assert s[|t|..|t| + |pat|] == pat; }
    FindIs(s, pat, |t|);
    assert s[..|t|] == t && s[|t| + |pat|..] == [];
    assert ReplaceAll([], pat, sub) == [] by { FindRule([], pat); }
  }

  /** The path separator of `os.path.join` on POSIX. */
  const Slash: CodePoint := '/' as int

  /** `os.path.join(dir, name)` on POSIX. */
  function JoinPath(dir: seq<CodePoint>, name: seq<CodePoint>): seq<CodePoint>
  {
    if |name| > 0 && name[0] == Slash then name
    else if dir == [] || dir[|dir| - 1] == Slash then dir + name
    else dir + [Slash] + name
  }
}
