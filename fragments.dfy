/**
 * The fragment dictionaries of a chat message: `{'text': ...}` with an
 * optional `'emoticon': {'emoticon_id': ...}` and an optional `'tag'`.
 */
module Fragments {
  import opened Wrappers
  import opened Text

  /** `emoticon` holds the `emoticon_id`; `tag` the mentioned user name. */
  datatype Fragment = Fragment(text: seq<CodePoint>, emoticon: Option<seq<CodePoint>>, tag: Option<seq<CodePoint>>)

  /** `{'text': t}` */
  function PlainText(t: seq<CodePoint>): Fragment {
    Fragment(t, None, None)
  }

  /** `{'text': t, 'emoticon': {'emoticon_id': id}}` */
  function Emote(t: seq<CodePoint>, id: seq<CodePoint>): Fragment {
    Fragment(t, Some(id), None)
  }

  /** `[{'text': t}]` when `t` is not empty, else nothing (the `if text:` guards). */
  function TextIfAny(t: seq<CodePoint>): (r: seq<Fragment>)
    ensures |t| == 0 ==> r == []
    ensures |t| > 0 ==> r == [PlainText(t)]
  {
    if |t| > 0 then [PlainText(t)] else []
  }

  /** The message text the fragments spell: `''.join(f['text'] for f in fs)`. */
  function Concat(fs: seq<Fragment>): seq<CodePoint> {
    if fs == [] then [] else Concat(fs[..|fs| - 1]) + fs[|fs| - 1].text
  }

  lemma {:induction false} ConcatAppend(a: seq<Fragment>, b: seq<Fragment>)
    ensures Concat(a + b) == Concat(a) + Concat(b)
    decreases |b|
  {
    if b == [] {
      assert a + b == a;
    } else {
      var b' := b[..|b| - 1];
      assert (a + b)[..|a + b| - 1] == a + b';
      assert (a + b)[|a + b| - 1] == b[|b| - 1];
      ConcatAppend(a, b');
      calc {
        Concat(a + b);
        Concat(a + b') + b[|b| - 1].text;
        (Concat(a) + Concat(b')) + b[|b| - 1].text;
        Concat(a) + (Concat(b') + b[|b| - 1].text);
        Concat(a) + Concat(b);
      }
    }
  }

  lemma ConcatTextIfAny(t: seq<CodePoint>)
    ensures Concat(TextIfAny(t)) == t
  {
    if |t| > 0 {
      assert Concat([PlainText(t)]) == Concat([]) + t;
    }
  }

  lemma ConcatSingle(f: Fragment)
    ensures Concat([f]) == f.text
  {
    assert [f][..0] == [];
  }

  /** Emitting `cut` moves it from the pending output to the emitted one. */
  lemma Emit(emitted: seq<Fragment>, cut: seq<Fragment>, pending: seq<Fragment>, rest: seq<Fragment>, whole: seq<Fragment>)
    requires emitted + pending == whole && pending == cut + rest
    ensures (emitted + cut) + rest == whole
  {
  }

  /** The text of `before + [f] + after`, given the texts of its parts. */
  lemma ConcatSplice(fs: seq<Fragment>, before: seq<Fragment>, f: Fragment, after: seq<Fragment>,
                     a: seq<CodePoint>, b: seq<CodePoint>, c: seq<CodePoint>)
    requires fs == before + [f] + after
    requires Concat(before) == a && f.text == b && Concat(after) == c
    ensures Concat(fs) == a + b + c
  {
    ConcatAppend(before + [f], after);
    ConcatAppend(before, [f]);
    ConcatSingle(f);
  }
}
