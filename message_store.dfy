/**
 * `MessageStore`: the downloaded messages in playback order and a pointer
 * that `get` moves to the window of messages the player shows next.
 */
module Store {
  import opened Wrappers
  import opened Messages

  /** Offsets never decrease along the list, as the chat API returns them. */
  predicate Sorted(ms: seq<Message>) {
    forall i, j :: 0 <= i < j < |ms| ==> ms[i].offset <= ms[j].offset
  }

  /** Where the first loop of `get` leaves the pointer: moved back over the
      messages at or after `start`; RewindRule says where that is. */
  function Rewind(ms: seq<Message>, p: nat, start: real): (q: nat)
    requires p <= |ms|
    ensures q <= p
    decreases p
  {
    if p > 0 && ms[p - 1].offset >= start then Rewind(ms, p - 1, start) else p
  }

  /** The rewound pointer is preceded by a message before `start`, or by
      nothing, and every message it passed is at or after `start`. */
  lemma {:induction false} RewindRule(ms: seq<Message>, p: nat, start: real)
    requires p <= |ms|
    ensures var q := Rewind(ms, p, start);
      && (q == 0 || ms[q - 1].offset < start)
      && forall k :: q <= k < p ==> ms[k].offset >= start
    decreases p
  {
    if p > 0 && ms[p - 1].offset >= start {
      RewindRule(ms, p - 1, start);
    }
  }

  /** Where the second loop leaves it: moved forward while the next message
      is before `start`, stopping at the last message; AdvanceRule says
      where that is. */
  function Advance(ms: seq<Message>, p: nat, start: real): (q: nat)
    requires p <= |ms|
    ensures p <= q <= |ms|
    ensures q == p || q < |ms|
    decreases |ms| - p
  {
    if p + 1 < |ms| && ms[p + 1].offset < start then Advance(ms, p + 1, start) else p
  }

  /** The advanced pointer is the last message, or the next one is not
      before `start`; every message it passed is before `start`. */
  lemma {:induction false} AdvanceRule(ms: seq<Message>, p: nat, start: real)
    requires p <= |ms|
    ensures var q := Advance(ms, p, start);
      && (q + 1 >= |ms| || ms[q + 1].offset >= start)
      && forall k :: p < k <= q ==> ms[k].offset < start
    decreases |ms| - p
  {
    if p + 1 < |ms| && ms[p + 1].offset < start {
      AdvanceRule(ms, p + 1, start);
    }
  }

  /** `earlier_messages` steps back, clamped at 0. */
  function Back(p: nat, earlier: nat): (q: nat)
    ensures earlier == 0 ==> q == p
    ensures earlier != 0 ==> q == if p >= earlier then p - earlier else 0
  {
    if earlier != 0 then (if p - earlier < 0 then 0 else p - earlier) else p
  }

  /** Where the collecting loop stops; CollectEndRule says where that is. */
  function CollectEnd(ms: seq<Message>, p: nat, end: real): (q: nat)
    requires p <= |ms|
    ensures p <= q <= |ms|
    decreases |ms| - p
  {
    if p < |ms| && ms[p].offset < end then CollectEnd(ms, p + 1, end) else p
  }

  /** Collecting stops at the first message from `p` on that is not before
      `end`, or at the end of the list. */
  lemma {:induction false} CollectEndRule(ms: seq<Message>, p: nat, end: real)
    requires p <= |ms|
    ensures var q := CollectEnd(ms, p, end);
      && (forall k :: p <= k < q ==> ms[k].offset < end)
      && (q == |ms| || ms[q].offset >= end)
    decreases |ms| - p
  {
    if p < |ms| && ms[p].offset < end {
      CollectEndRule(ms, p + 1, end);
    }
  }

  /** The first and the one-past-last index of what `get(start, end,
      earlier)` returns from pointer `p`; the second is the new pointer. */
  function Window(ms: seq<Message>, p: nat, start: real, end: real, earlier: nat): (w: (nat, nat))
    requires p <= |ms|
    ensures w.0 <= w.1 <= |ms|
  {
    var from := Back(Advance(ms, Rewind(ms, p, start), start), earlier);
    (from, CollectEnd(ms, from, end))
  }

  class MessageStore {
    var messages: seq<Message>
    var pointer: int

    /** The pointer is an index into the list or just past it. */
    ghost predicate Valid()
      reads this
    {
      0 <= pointer <= |messages|
    }

    /** Lines 2-4. */
    constructor(messages: seq<Message>)
      ensures Valid()
      ensures this.messages == messages && pointer == 0
    {
      this.messages := messages;
      pointer := 0;
    }

    /** Lines 6-29: `get`. A negative start gives `None` and changes
        nothing; otherwise the messages of the window, in list order, and the
        pointer is left at the window's end. */
    method Get(start: real, end: real, earlier: nat) returns (r: Option<seq<Message>>)
      requires Valid()
      modifies this`pointer
      ensures Valid() && messages == old(messages)
      ensures start < 0.0 ==> r == None && pointer == old(pointer)
      ensures start >= 0.0 ==>
        var w := Window(messages, old(pointer), start, end, earlier);
        r == Some(messages[w.0..w.1]) && pointer == w.1
    {
      if start < 0.0 {
        return None;
      }
      RewindPointer(start);
      AdvancePointer(start);
      if earlier != 0 {
        pointer := pointer - earlier;
        if pointer < 0 {
          pointer := 0;
        }
      }
      var results := CollectUntil(end);
      return Some(results);
    }

    /** Lines 11-12: move the pointer back over the messages at or after
        `start`. */
    method RewindPointer(start: real)
      requires Valid()
      modifies this`pointer
      ensures Valid() && pointer == Rewind(messages, old(pointer), start)
    {
      while pointer > 0 && messages[pointer - 1].offset >= start
        invariant 0 <= pointer <= |messages|
        invariant Rewind(messages, pointer, start) == Rewind(messages, old(pointer), start)
        decreases pointer
      {
        pointer := pointer - 1;
      }
    }

    /** Lines 15-16: move the pointer forward while the next message is
        before `start`. */
    method AdvancePointer(start: real)
      requires Valid()
      modifies this`pointer
      ensures Valid() && pointer == Advance(messages, old(pointer), start)
    {
      while pointer < |messages| - 1 && messages[pointer + 1].offset < start
        invariant old(pointer) <= pointer <= |messages|
        invariant Advance(messages, pointer, start) == Advance(messages, old(pointer), start)
        decreases |messages| - pointer
      {
        pointer := pointer + 1;
      }
    }

    /** Lines 24-29: collect the messages before `end` from the pointer on. */
    method CollectUntil(end: real) returns (results: seq<Message>)
      requires Valid()
      modifies this`pointer
      ensures Valid() && pointer == CollectEnd(messages, old(pointer), end)
      ensures results == messages[old(pointer)..pointer]
    {
      results := [];
      while pointer < |messages| && messages[pointer].offset < end
        invariant old(pointer) <= pointer <= |messages|
        invariant results == messages[old(pointer)..pointer]
        invariant CollectEnd(messages, pointer, end) == CollectEnd(messages, old(pointer), end)
        decreases |messages| - pointer
      {
        results := results + [messages[pointer]];
        pointer := pointer + 1;
      }
    }

    /** Lines 31-33: `set_messages` replaces the list and resets the pointer. */
    method SetMessages(messages: seq<Message>)
      modifies this
      ensures Valid()
      ensures this.messages == messages && pointer == 0
    {
      this.messages := messages;
      pointer := 0;
    }

    /** Lines 35-36: `store[item]`, a negative index counting from the end;
        `None` where the list raises IndexError. */
    function At(item: int): (r: Option<Message>)
      reads this
      ensures r.Some? <==> -|messages| <= item < |messages|
      ensures 0 <= item < |messages| ==> r == Some(messages[item])
      ensures -|messages| <= item < 0 ==> r == Some(messages[|messages| + item])
    {
      if 0 <= item < |messages| then Some(messages[item])
      else if -|messages| <= item < 0 then Some(messages[|messages| + item])
      else None
    }
  }

  /** With sorted offsets, the two loops leave the pointer `q` where every
      message before it is before `start` and every message after it is not. */
  lemma PointerBrackets(ms: seq<Message>, p: nat, start: real)
    requires Sorted(ms) && p <= |ms|
    ensures var q := Advance(ms, Rewind(ms, p, start), start);
      && (forall k :: 0 <= k < q ==> ms[k].offset < start)
      && (forall k :: q < k < |ms| ==> ms[k].offset >= start)
  {
    var r := Rewind(ms, p, start);
    var q := Advance(ms, r, start);
    RewindRule(ms, p, start);
    AdvanceRule(ms, r, start);
    if r > 0 {
      assert forall k :: 0 <= k < r ==> ms[k].offset <= ms[r - 1].offset;
    }
    if q > r {
      assert ms[r].offset <= ms[r + 1].offset;
    }
    if q + 1 < |ms| {
      assert forall k :: q < k < |ms| ==> ms[q + 1].offset <= ms[k].offset;
    }
  }

  /** Every message `get` returns is before `end`, and the new pointer is at
      the end of the list or at a message not before `end`. */
  lemma WindowRule(ms: seq<Message>, p: nat, start: real, end: real, earlier: nat)
    requires p <= |ms|
    ensures var w := Window(ms, p, start, end, earlier);
      && (forall k :: w.0 <= k < w.1 ==> ms[k].offset < end)
      && (w.1 == |ms| || ms[w.1].offset >= end)
  {
    CollectEndRule(ms, Window(ms, p, start, end, earlier).0, end);
  }

  /** Without `earlier_messages`, only the first returned message can lie
      before `start`. */
  lemma OnlyFirstEarly(ms: seq<Message>, p: nat, start: real, end: real)
    requires Sorted(ms) && p <= |ms|
    ensures var w := Window(ms, p, start, end, 0);
      forall k :: w.0 < k < w.1 ==> start <= ms[k].offset < end
  {
    PointerBrackets(ms, p, start);
    WindowRule(ms, p, start, end, 0);
  }

  /** When the pointer already sits at `start` (every message before it is
      earlier, the one at it is not), neither loop moves it, and `get(start,
      end)` returns exactly the messages with `start <= offset < end`. */
  lemma ExactWindow(ms: seq<Message>, p: nat, start: real, end: real)
    requires Sorted(ms) && p <= |ms|
    requires p == 0 || ms[p - 1].offset < start
    requires p == |ms| || ms[p].offset >= start
    ensures Window(ms, p, start, end, 0).0 == p
    ensures var w := Window(ms, p, start, end, 0);
      forall k :: 0 <= k < |ms| ==> (start <= ms[k].offset < end <==> w.0 <= k < w.1)
  {
    assert Rewind(ms, p, start) == p;
    assert Advance(ms, p, start) == p by {
      if p + 1 < |ms| {
        assert ms[p].offset <= ms[p + 1].offset;
      }
    }
    var q := CollectEnd(ms, p, end);
    CollectEndRule(ms, p, end);
    forall k | 0 <= k < |ms|
      ensures start <= ms[k].offset < end <==> p <= k < q
    {
      if k < p {
        assert ms[k].offset <= ms[p - 1].offset;
      } else if k >= q && q < |ms| {
        assert ms[q].offset <= ms[k].offset;
      } else if k >= p && p < |ms| {
        assert ms[p].offset <= ms[k].offset;
      }
    }
  }

  /** A `get(start, end)` with `start <= end` leaves the pointer where the
      next `get(end, _)` finds it already in place. */
  lemma ConsecutiveWindows(ms: seq<Message>, p: nat, start: real, end: real)
    requires Sorted(ms) && p <= |ms| && start <= end
    ensures var q := Window(ms, p, start, end, 0).1;
      && (q == 0 || ms[q - 1].offset < end)
      && (q == |ms| || ms[q].offset >= end)
  {
    PointerBrackets(ms, p, start);
    WindowRule(ms, p, start, end, 0);
  }

  /** `get(t, t, k)` returns at most `k + 1` messages, all before `t`. */
  lemma EarlierBound(ms: seq<Message>, p: nat, t: real, k: nat)
    requires Sorted(ms) && p <= |ms|
    ensures var w := Window(ms, p, t, t, k);
      && w.1 - w.0 <= k + 1
      && forall i :: w.0 <= i < w.1 ==> ms[i].offset < t
  {
    PointerBrackets(ms, p, t);
    WindowRule(ms, p, t, t, k);
    var q := Advance(ms, Rewind(ms, p, t), t);
    var w := Window(ms, p, t, t, k);
    assert w.0 + k >= q;
    assert q + 1 < |ms| ==> ms[q + 1].offset >= t;
  }

  /** A message at `offset` with no text. */
  function At0(offset: real): Message {
    Message([], "", "", offset, [])
  }

  /** The offsets of `ms`, in order. */
  function Offsets(ms: seq<Message>): (r: seq<real>)
    ensures |r| == |ms| && forall i :: 0 <= i < |ms| ==> r[i] == ms[i].offset
  {
    seq(|ms|, i requires 0 <= i < |ms| => ms[i].offset)
  }

  /** Messages at offsets 0, 1, 2, 3, 5 and 8. */
  const Sample: seq<Message> := [At0(0.0), At0(1.0), At0(2.0), At0(3.0), At0(5.0), At0(8.0)]

  /** The windows of the three queries of `Playback`. */
  lemma SampleWindows(ms: seq<Message>)
    requires ms == Sample
    ensures Window(ms, 0, 2.0, 5.0, 0) == (1, 4) && Offsets(ms[1..4]) == [1.0, 2.0, 3.0]
    ensures Window(ms, 4, 5.0, 8.0, 0) == (4, 5) && Offsets(ms[4..5]) == [5.0]
    ensures Window(ms, 5, 0.0, 2.0, 0) == (0, 2) && Offsets(ms[0..2]) == [0.0, 1.0]
  {
    assert Advance(ms, 0, 2.0) == 1;
    assert CollectEnd(ms, 2, 5.0) == 4;
    assert Rewind(ms, 3, 0.0) == 0;
    assert ms[1..4] == [At0(1.0), At0(2.0), At0(3.0)];
    assert ms[4..5] == [At0(5.0)];
    assert ms[0..2] == [At0(0.0), At0(1.0)];
  }

  /** A fresh store over offsets 0, 1, 2, 3, 5, 8: `get(2, 5)` gives 1, 2,
      3; then `get(5, 8)` gives 5; then the backward `get(0, 2)` gives 0, 1. */
  method Playback() returns (a: Option<seq<Message>>, b: Option<seq<Message>>, c: Option<seq<Message>>)
    ensures a.Some? && Offsets(a.value) == [1.0, 2.0, 3.0]
    ensures b.Some? && Offsets(b.value) == [5.0]
    ensures c.Some? && Offsets(c.value) == [0.0, 1.0]
  {
    SampleWindows(Sample);
    var store := new MessageStore(Sample);
    a := store.Get(2.0, 5.0, 0);
    b := store.Get(5.0, 8.0, 0);
    c := store.Get(0.0, 2.0, 0);
  }
}
