/**
 * `parse_url`: the video id in a VOD link, found the way `re.search` finds
 * `v?([0-9]{5,})` (or `video=v?([0-9]{5,})` in a player link), written out
 * as a scan over the positions of the URL.
 */
module Urls {
  import opened Wrappers
  import opened Text

  /** "player.twitch.tv" */
  const PlayerHost: string := "player.twitch.tv"

  /** "video=" */
  const VideoKey: string := "video="

  /** The number of digits from index `i` on. */
  function DigitRun(s: string, i: nat): (n: nat)
    requires i <= |s|
    ensures i + n <= |s|
    ensures AllDigits(s[i..i + n])
    ensures i + n == |s| || !IsDigit(s[i + n])
    decreases |s| - i
  {
    if i < |s| && IsDigit(s[i]) then
      var n := DigitRun(s, i + 1);
      assert s[i..i + 1 + n] == [s[i]] + s[i + 1..i + 1 + n];
      1 + n
    else 0
  }

  /** The digits from index `i` on. */
  function RunAt(s: string, i: nat): string
    requires i <= |s|
  {
    s[i..i + DigitRun(s, i)]
  }

  /** The group `([0-9]{5,})` of `v?([0-9]{5,})` matched at index `i`: the
      greedy `v?` first takes a `v`, and gives it back when the digits after
      it are too few. */
  function MatchAt(s: string, i: nat): Option<string>
    requires i <= |s|
  {
    if i < |s| && s[i] == 'v' && DigitRun(s, i + 1) >= 5 then Some(RunAt(s, i + 1))
    else if DigitRun(s, i) >= 5 then Some(RunAt(s, i))
    else None
  }

  /** The same for `prefix` followed by `v?([0-9]{5,})`. */
  function PrefixedMatchAt(s: string, prefix: string, i: nat): Option<string>
    requires i <= |s|
  {
    if OccursAt(s, prefix, i) then MatchAt(s, i + |prefix|) else None
  }

  /** `re.search(prefix + 'v?([0-9]{5,})', s[i:])[1]` where the search
      starts at index `i`: the group of the leftmost match, or `None`
      where the source's `[1]` on no match raises TypeError. */
  function Search(s: string, prefix: string, i: nat): Option<string>
    requires i <= |s|
    decreases |s| - i
  {
    match PrefixedMatchAt(s, prefix, i)
    case Some(d) => Some(d)
    case None => if i == |s| then None else Search(s, prefix, i + 1)
  }

  /** Lines 451-456: `parse_url`. */
  function ParseUrl(url: string): Option<string> {
    if Contains(url, PlayerHost) then Search(url, VideoKey, 0) else Search(url, "", 0)
  }

  /** A match is a maximal run of at least five digits. */
  lemma MatchAtRule(s: string, i: nat)
    requires i <= |s|
    ensures MatchAt(s, i).Some? ==> exists q :: i <= q <= i + 1 && q <= |s| && LongRunAt(s, q) && MatchAt(s, i).value == RunAt(s, q)
  {
    if i < |s| && s[i] == 'v' && DigitRun(s, i + 1) >= 5 {
      assert LongRunAt(s, i + 1);
    } else if DigitRun(s, i) >= 5 {
      assert LongRunAt(s, i);
    }
  }

  /** At least five digits start at `q`. */
  predicate LongRunAt(s: string, q: nat)
    requires q <= |s|
  {
    DigitRun(s, q) >= 5
  }

  /** When `q` is the first index from `i` on where five digits start, the
      search from `i` returns the digits from `q`. */
  lemma {:induction false} SearchFinds(s: string, i: nat, q: nat)
    requires i <= q <= |s| && LongRunAt(s, q)
    requires forall p :: i <= p < q ==> !LongRunAt(s, p)
    ensures Search(s, "", i) == Some(RunAt(s, q))
    decreases q - i
  {
    assert OccursAt(s, "", i);
    if i < q {
      if s[i] == 'v' && DigitRun(s, i + 1) >= 5 {
        assert LongRunAt(s, i + 1);
      } else {
        assert !LongRunAt(s, i);
        SearchFinds(s, i + 1, q);
      }
    } else {
      assert IsDigit(s[q]);
    }
  }

  /** Without five digits in a row from `i` on, the search finds nothing. */
  lemma {:induction false} SearchMisses(s: string, i: nat)
    requires i <= |s|
    requires forall p :: i <= p <= |s| ==> !LongRunAt(s, p)
    ensures Search(s, "", i) == None
    decreases |s| - i
  {
    assert OccursAt(s, "", i);
    assert !LongRunAt(s, i);
    if i < |s| {
      assert !LongRunAt(s, i + 1);
      SearchMisses(s, i + 1);
    }
  }

  /** The first index where five digits start begins a run: the digit
      before it, if any, would start five digits too. */
  lemma FirstRunStarts(s: string, q: nat)
    requires 0 < q <= |s| && LongRunAt(s, q) && !LongRunAt(s, q - 1)
    ensures !IsDigit(s[q - 1])
  {
  }

  /** Away from player links, `parse_url` returns the first maximal run of
      at least five digits (a `v` before it is skipped), and fails exactly
      when there is none. */
  lemma ParseUrlFirstRun(url: string)
    requires !Contains(url, PlayerHost)
    ensures ParseUrl(url).None? <==> forall p :: 0 <= p <= |url| ==> !LongRunAt(url, p)
    ensures ParseUrl(url).Some? ==> exists q ::
      && 0 <= q <= |url| && LongRunAt(url, q) && ParseUrl(url).value == RunAt(url, q)
      && (q == 0 || !IsDigit(url[q - 1]))
      && forall p :: 0 <= p < q ==> !LongRunAt(url, p)
  {
    if q :| 0 <= q <= |url| && LongRunAt(url, q) {
      var first := FirstLongRun(url, q);
      SearchFinds(url, 0, first);
      if first > 0 {
        FirstRunStarts(url, first);
      }
    } else {
      SearchMisses(url, 0);
    }
  }

  /** The least index at or below `q` where five digits start. */
  lemma {:induction false} FirstLongRun(s: string, q: nat) returns (first: nat)
    requires q <= |s| && LongRunAt(s, q)
    ensures first <= q && LongRunAt(s, first)
    ensures forall p :: 0 <= p < first ==> !LongRunAt(s, p)
    decreases q
  {
    if p :| 0 <= p < q && LongRunAt(s, p) {
      first := FirstLongRun(s, p);
    } else {
      first := q;
    }
  }

  /** The search from `i` returns the group of the leftmost index from `i`
      on where the pattern matches, and nothing when it matches nowhere. */
  lemma {:induction false} SearchRule(s: string, prefix: string, i: nat) returns (p: nat)
    requires i <= |s|
    ensures Search(s, prefix, i).None? ==> forall k :: i <= k <= |s| ==> PrefixedMatchAt(s, prefix, k).None?
    ensures Search(s, prefix, i).Some? ==>
      && i <= p <= |s| && PrefixedMatchAt(s, prefix, p) == Search(s, prefix, i)
      && forall k :: i <= k < p ==> PrefixedMatchAt(s, prefix, k).None?
    decreases |s| - i
  {
    p := i;
    if PrefixedMatchAt(s, prefix, i).Some? {
      assert Search(s, prefix, i) == PrefixedMatchAt(s, prefix, i);
    } else if i < |s| {
      assert Search(s, prefix, i) == Search(s, prefix, i + 1);
      p := SearchRule(s, prefix, i + 1);
    } else {
      assert Search(s, prefix, i).None?;
    }
  }

  /** In a player link the id is the group of the first `video=` followed by
      an optional `v` and at least five digits: all digits, at least five,
      and not followed by another digit. Without such a `video=`,
      `parse_url` fails. */
  lemma PlayerLink(url: string)
    requires Contains(url, PlayerHost)
    ensures ParseUrl(url).None? <==> forall k :: 0 <= k <= |url| ==> PrefixedMatchAt(url, VideoKey, k).None?
    ensures ParseUrl(url).Some? ==> exists p, q ::
      && 0 <= p && p + |VideoKey| <= q <= p + |VideoKey| + 1 && q <= |url|
      && OccursAt(url, VideoKey, p) && LongRunAt(url, q) && ParseUrl(url).value == RunAt(url, q)
      && forall k :: 0 <= k < p ==> PrefixedMatchAt(url, VideoKey, k).None?
  {
    var p := SearchRule(url, VideoKey, 0);
    if ParseUrl(url).Some? {
      MatchAtRule(url, p + |VideoKey|);
    }
  }

  /** A non-digit less than five places on stops five digits from starting. */
  lemma NoLongRunAcross(s: string, p: nat, j: nat)
    requires p <= j < p + 5 && j < |s| && !IsDigit(s[j])
    ensures !LongRunAt(s, p)
  {
    assert DigitRun(s, p) >= 5 ==> s[p..p + DigitRun(s, p)][j - p] == s[j];
  }

  /** In "ab1234v56789" the run "1234" is too short, and the `v` before
      "56789" is skipped. */
  lemma ShortRunSkipped(url: string)
    requires url == "ab1234v56789"
    ensures ParseUrl(url) == Some("56789")
  {
    assert !Contains(url, PlayerHost);
    assert DigitRun(url, 7) == 5;
    assert RunAt(url, 7) == "56789";
    forall p | 0 <= p < 7
      ensures !LongRunAt(url, p)
    {
      NoLongRunAcross(url, p, if p < 2 then p else 6);
    }
    SearchFinds(url, 0, 7);
  }
}
