/**
 * `process_unicode` and `replace_unicode`: every code point above 0xFFFF is
 * replaced by its UTF-16 surrogate pair (section 2.1 of RFC 2781), taken from
 * the two 16-bit little-endian units of `char.encode('utf-16-le')`.
 */
module Surrogates {
  import opened Text
  import opened Fragments

  /** A code point outside the Basic Multilingual Plane:
      `UNICODE_MATCHER`'s class `[\U00010000-\U0010FFFF]`. */
  predicate Astral(c: CodePoint) {
    c > 0xFFFF
  }

  /** A unit of UTF-16: what `int.from_bytes(..., 'little')` makes of two bytes. */
  type Unit = u: int | 0 <= u < 0x1_0000

  /** `char.encode('utf-16-le')` for a code point above 0xFFFF, as its two
      16-bit units in order. */
  function Utf16Units(c: CodePoint): (Unit, Unit)
    requires Astral(c)
  {
    var v := c - 0x1_0000;
    (0xD800 + v / 0x400, 0xDC00 + v % 0x400)
  }

  /** The four bytes of `char.encode('utf-16-le')`: each unit, low byte first. */
  function Utf16LeBytes(c: CodePoint): (r: seq<int>)
    requires Astral(c)
    ensures |r| == 4 && forall b :: b in r ==> 0 <= b < 0x100
  {
    var (hi, lo) := Utf16Units(c);
    [hi % 0x100, hi / 0x100, lo % 0x100, lo / 0x100]
  }

  /** `int.from_bytes(bs, 'little')` for two bytes. */
  function FromBytesLittle(bs: seq<int>): int
    requires |bs| == 2
  {
    bs[0] + 0x100 * bs[1]
  }

  /**
   * `replace_unicode`: the two code points read back from the first two and
   * the last two bytes of the UTF-16-LE encoding. They are a high surrogate
   * and a low surrogate that together decode to `c`.
   */
  function ReplaceUnicode(c: CodePoint): (r: seq<CodePoint>)
    requires Astral(c)
    ensures |r| == 2
    ensures 0xD800 <= r[0] <= 0xDBFF && 0xDC00 <= r[1] <= 0xDFFF
    ensures 0x1_0000 + (r[0] - 0xD800) * 0x400 + (r[1] - 0xDC00) == c
  {
    var encoded := Utf16LeBytes(c);
    [FromBytesLittle(encoded[..2]), FromBytesLittle(encoded[2..])]
  }

  /** `UNICODE_MATCHER.sub(replace_unicode, text)`: each astral code point
      replaced in place, every other code point kept. */
  function ReEncode(text: seq<CodePoint>): seq<CodePoint> {
    if text == [] then []
    else
      var last := text[|text| - 1];
      ReEncode(text[..|text| - 1]) + (if Astral(last) then ReplaceUnicode(last) else [last])
  }

  /** The substitution works code point by code point. */
  lemma {:induction false} ReEncodeAppend(a: seq<CodePoint>, b: seq<CodePoint>)
    ensures ReEncode(a + b) == ReEncode(a) + ReEncode(b)
    decreases |b|
  {
    if b == [] {
      assert a + b == a;
    } else {
      var b' := b[..|b| - 1];
      assert (a + b)[..|a + b| - 1] == a + b';
      ReEncodeAppend(a, b');
    }
  }

  /** After the substitution no astral code point is left. */
  lemma {:induction false} ReEncodeBmp(text: seq<CodePoint>)
    ensures forall i :: 0 <= i < |ReEncode(text)| ==> !Astral(ReEncode(text)[i])
    decreases |text|
  {
    if text != [] {
      ReEncodeBmp(text[..|text| - 1]);
    }
  }

  /** Text without astral code points is left as it is. */
  lemma {:induction false} ReEncodeIdentity(text: seq<CodePoint>)
    requires forall i :: 0 <= i < |text| ==> !Astral(text[i])
    ensures ReEncode(text) == text
    decreases |text|
  {
    if text != [] {
      ReEncodeIdentity(text[..|text| - 1]);
      assert text == text[..|text| - 1] + [text[|text| - 1]];
    }
  }

  /** A UTF-16 decoder: a high surrogate followed by a low surrogate is
      one code point, every other unit stands for itself. */
  function DecodeUtf16(units: seq<CodePoint>): seq<CodePoint>
    decreases |units|
  {
    if units == [] then []
    else if |units| >= 2 && 0xD800 <= units[0] <= 0xDBFF && 0xDC00 <= units[1] <= 0xDFFF then
      [0x1_0000 + (units[0] - 0xD800) * 0x400 + (units[1] - 0xDC00)] + DecodeUtf16(units[2..])
    else [units[0]] + DecodeUtf16(units[1..])
  }

  /** No surrogate code point (0xD800 to 0xDFFF) in the text. */
  predicate NoSurrogates(text: seq<CodePoint>) {
    forall i :: 0 <= i < |text| ==> !(0xD800 <= text[i] <= 0xDFFF)
  }

  /** The re-encoding loses nothing: decoding its output as UTF-16 gives
      back the text, when the text held no surrogates to begin with. */
  lemma {:induction false} DecodeReEncode(text: seq<CodePoint>)
    requires NoSurrogates(text)
    ensures DecodeUtf16(ReEncode(text)) == text
    decreases |text|
  {
    if text != [] {
      var c := text[0];
      var rest := text[1..];
      assert text == [c] + rest;
      ReEncodeAppend([c], rest);
      assert ReEncode([c]) == (if Astral(c) then ReplaceUnicode(c) else [c]) by {
        assert [c][..0] == [];
      }
      DecodeReEncode(rest);
      var out := ReEncode([c]) + ReEncode(rest);
      if Astral(c) {
        assert out[2..] == ReEncode(rest);
      } else {
        assert out[1..] == ReEncode(rest);
      }
    }
  }

  /** What `process_unicode` does to one fragment: the text re-encoded, every
      other key copied. */
  function ReEncodeFragment(f: Fragment): (r: Fragment)
    ensures r.emoticon == f.emoticon && r.tag == f.tag
  {
    f.(text := ReEncode(f.text))
  }

  /**
   * What `process_unicode` returns. Line 371 tests `'emoticon' not in
   * fragments`, the output list, which holds no such key, so the test is
   * always true and emote fragments are re-encoded as well.
   */
  function UnicodePass(fs: seq<Fragment>): (r: seq<Fragment>)
    ensures |r| == |fs|
    ensures forall i :: 0 <= i < |fs| ==>
      r[i].text == ReEncode(fs[i].text) && r[i].emoticon == fs[i].emoticon && r[i].tag == fs[i].tag
  {
    seq(|fs|, i requires 0 <= i < |fs| => ReEncodeFragment(fs[i]))
  }

  /** Lines 368-379: `process_unicode`. */
  method ProcessUnicode(oldFragments: seq<Fragment>) returns (fragments: seq<Fragment>)
    ensures fragments == UnicodePass(oldFragments)
  {
    fragments := [];
    for n := 0 to |oldFragments|
      invariant fragments == UnicodePass(oldFragments[..n])
    {
      // The test of line 371 always holds; see UnicodePass.
      var fragment := oldFragments[n];
      var newFragment := fragment.(text := ReEncode(fragment.text));
      fragments := fragments + [newFragment];
    }
    assert oldFragments[..|oldFragments|] == oldFragments;
  }

  /** The text the pass leaves is the re-encoded text of its input. */
  lemma {:induction false} UnicodePassConcat(fs: seq<Fragment>)
    ensures Concat(UnicodePass(fs)) == ReEncode(Concat(fs))
    decreases |fs|
  {
    if fs != [] {
      var init, f := fs[..|fs| - 1], fs[|fs| - 1];
      UnicodePassConcat(init);
      assert UnicodePass(fs)[..|fs| - 1] == UnicodePass(init);
      ReEncodeAppend(Concat(init), f.text);
    }
  }
}
