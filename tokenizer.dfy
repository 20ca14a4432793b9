/**
 * `process_fragments`: the four passes over a message's fragments, in the
 * order the source applies them.
 */
module Tokenizer {
  import opened Text
  import opened Fragments
  import Bttv
  import BttvTable
  import Emoji
  import Surrogates
  import Mentions

  /** What `process_fragments` returns, for the emote table `table`
      (the source's is `BttvTable.BttvEmotes`). */
  function Tokenize(assets: Emoji.AssetStore, table: seq<seq<CodePoint>>, fs: seq<Fragment>): seq<Fragment>
    requires Bttv.ValidTable(table)
  {
    Mentions.UsernamesPass(Surrogates.UnicodePass(Emoji.EmojiPass(assets, Bttv.BttvPass(fs, table))))
  }

  /** Lines 291-296: `process_fragments`. */
  method ProcessFragments(assets: Emoji.AssetStore, oldFragments: seq<Fragment>) returns (fragments: seq<Fragment>)
    ensures (BttvTable.BttvEmotesValid(); fragments == Tokenize(assets, BttvTable.BttvEmotes, oldFragments))
    ensures Concat(fragments) == Surrogates.ReEncode(Concat(oldFragments))
  {
    BttvTable.BttvEmotesValid();
    fragments := Bttv.ProcessBttvEmotes(oldFragments, BttvTable.BttvEmotes);
    fragments := Emoji.ProcessEmoji(assets, fragments);
    fragments := Surrogates.ProcessUnicode(fragments);
    fragments := Mentions.ProcessUsernames(fragments);
    TokenizeConcat(assets, BttvTable.BttvEmotes, oldFragments);
  }

  /** End to end, the text of the message is kept, with every code point
      above 0xFFFF replaced by its surrogate pair. */
  lemma TokenizeConcat(assets: Emoji.AssetStore, table: seq<seq<CodePoint>>, fs: seq<Fragment>)
    requires Bttv.ValidTable(table)
    ensures Concat(Tokenize(assets, table, fs)) == Surrogates.ReEncode(Concat(fs))
  {
    var bttv := Bttv.BttvPass(fs, table);
    var emoji := Emoji.EmojiPass(assets, bttv);
    var unicode := Surrogates.UnicodePass(emoji);
    Bttv.BttvPassConcat(fs, table);
    Emoji.EmojiPassConcat(assets, bttv);
    Surrogates.UnicodePassConcat(emoji);
    Mentions.UsernamesPassConcat(unicode);
  }

  /** No code point above 0xFFFF is left in the output. */
  lemma TokenizeBmp(assets: Emoji.AssetStore, table: seq<seq<CodePoint>>, fs: seq<Fragment>)
    requires Bttv.ValidTable(table)
    ensures var out := Concat(Tokenize(assets, table, fs)); forall i :: 0 <= i < |out| ==> !Surrogates.Astral(out[i])
  {
    TokenizeConcat(assets, table, fs);
    Surrogates.ReEncodeBmp(Concat(fs));
  }

  /** A fragment the last three passes leave as it is: code points up to
      0xFFFF only and, unless it is an emote, untagged non-empty text with no
      emoji to cut and no `@`. */
  predicate Settled(assets: Emoji.AssetStore, f: Fragment) {
    && (forall i :: 0 <= i < |f.text| ==> !Surrogates.Astral(f.text[i]))
    && (f.emoticon.None? ==> f.tag.None? && |f.text| > 0 && Emoji.NoSplit(assets, f.text) && Mentions.At !in f.text)
  }

  lemma {:induction false} EmojiKeeps(assets: Emoji.AssetStore, fs: seq<Fragment>)
    requires forall k :: 0 <= k < |fs| ==> Settled(assets, fs[k])
    ensures Emoji.EmojiPass(assets, fs) == fs
    decreases |fs|
  {
    if fs != [] {
      var init, f := fs[..|fs| - 1], fs[|fs| - 1];
      assert init + [f] == fs;
      EmojiKeeps(assets, init);
      EmojiOneKeeps(assets, f);
    }
  }

  lemma EmojiOneKeeps(assets: Emoji.AssetStore, f: Fragment)
    requires Settled(assets, f)
    ensures Emoji.EmojiOne(assets, f) == [f]
  {
    if f.emoticon.None? {
      Emoji.EmojiSplitNone(assets, f.text);
      assert f == PlainText(f.text);
    }
  }

  lemma UnicodeKeeps(fs: seq<Fragment>)
    requires forall k :: 0 <= k < |fs| ==> forall i :: 0 <= i < |fs[k].text| ==> !Surrogates.Astral(fs[k].text[i])
    ensures Surrogates.UnicodePass(fs) == fs
  {
    var out := Surrogates.UnicodePass(fs);
    forall k | 0 <= k < |fs|
      ensures out[k] == fs[k]
    {
      Surrogates.ReEncodeIdentity(fs[k].text);
    }
  }

  lemma {:induction false} UsernamesKeeps(fs: seq<Fragment>)
    requires forall k :: 0 <= k < |fs| ==> fs[k].emoticon.Some? || Mentions.At !in fs[k].text
    ensures Mentions.UsernamesPass(fs) == fs
    decreases |fs|
  {
    if fs != [] {
      var init, f := fs[..|fs| - 1], fs[|fs| - 1];
      assert init + [f] == fs;
      UsernamesKeeps(init);
      assert Mentions.UsernamesOne(f) == [f];
    }
  }

  /** Settled fragments come through the emoji, surrogate and mention passes
      unchanged. */
  lemma LaterPassesKeep(assets: Emoji.AssetStore, fs: seq<Fragment>)
    requires forall k :: 0 <= k < |fs| ==> Settled(assets, fs[k])
    ensures Mentions.UsernamesPass(Surrogates.UnicodePass(Emoji.EmojiPass(assets, fs))) == fs
  {
    EmojiKeeps(assets, fs);
    UnicodeKeeps(fs);
    UsernamesKeeps(fs);
  }

  /** A text fragment holding no emote of the table, no emoji with an image,
      no `@` and no code point above 0xFFFF comes out of `process_fragments`
      as it went in. */
  lemma TokenizePlain(assets: Emoji.AssetStore, table: seq<seq<CodePoint>>, t: seq<CodePoint>)
    requires Bttv.ValidTable(table)
    requires |t| > 0 && !Bttv.AnyEmote(t, table) && Emoji.NoSplit(assets, t) && Mentions.At !in t
    requires forall i :: 0 <= i < |t| ==> !Surrogates.Astral(t[i])
    ensures Tokenize(assets, table, [PlainText(t)]) == [PlainText(t)]
  {
    assert [PlainText(t)][..0] == [];
    assert Bttv.BttvPass([PlainText(t)], table) == [PlainText(t)];
    LaterPassesKeep(assets, [PlainText(t)]);
  }

  /** Untagged non-empty text of ASCII letters is settled. */
  lemma LettersSettled(assets: Emoji.AssetStore, t: seq<CodePoint>)
    requires |t| > 0 && forall i :: 0 <= i < |t| ==> 0x41 <= t[i] <= 0x7A
    ensures Settled(assets, PlainText(t))
  {
    assert Mentions.At !in t by {
      forall i | 0 <= i < |t|
        ensures t[i] != Mentions.At
      {
      }
    }
  }

  /** With the table ["Goodness", "OhMyGoodness"], `process_fragments` turns
      the text "xxOhMyGoodnessyy" into "xx", the emote OhMyGoodness and
      "yy", whatever images are cached. */
  lemma TokenizeGoodness(assets: Emoji.AssetStore, text: seq<CodePoint>, table: seq<seq<CodePoint>>)
    requires text == Bttv.XX + Bttv.OhMyGoodness + Bttv.YY && table == [Bttv.Goodness, Bttv.OhMyGoodness]
    requires Bttv.ValidTable(table)
    ensures Tokenize(assets, table, [PlainText(text)])
            == [PlainText(Bttv.XX), Emote(Bttv.OhMyGoodness, Bttv.OhMyGoodness), PlainText(Bttv.YY)]
  {
    Bttv.LeftmostWins(text, table);
    var out := [PlainText(Bttv.XX), Emote(Bttv.OhMyGoodness, Bttv.OhMyGoodness), PlainText(Bttv.YY)];
    assert [PlainText(text)][..0] == [];
    assert Bttv.BttvPass([PlainText(text)], table) == out;
    LettersSettled(assets, Bttv.XX);
    LettersSettled(assets, Bttv.YY);
    assert Settled(assets, out[1]);
    LaterPassesKeep(assets, out);
  }
}
