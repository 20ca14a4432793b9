/**
 * `process_messages`: turning the comments of the chat API into the
 * messages the player shows, with a fallback colour for authors who never
 * chose one. The global `color_cache` is threaded through as a map.
 */
module Messages {
  import opened Wrappers
  import opened Text
  import opened Fragments
  import Emoji
  import Tokenizer
  import Surrogates
  import Bttv
  import BttvTable

  /** `default_colors`, in order. */
  const DefaultColors: seq<string> := [
    "#FF0000", "#0000FF", "#00FF00", "#B22222", "#FF7F50", "#9ACD32", "#FF4500", "#2E8B57",
    "#DAA520", "#D2691E", "#5F9EA0", "#1E90FF", "#FF69B4", "#8A2BE2", "#00FF7F"
  ]

  /** The keys of one comment that `process_messages` reads. */
  datatype RawMessage = RawMessage(
    displayName: seq<CodePoint>,   // commenter.display_name
    id: string,                    // _id
    userColor: Option<string>,     // message.user_color
    offset: real,                  // content_offset_seconds
    fragments: seq<Fragment>)      // message.fragments

  /** The message dictionary the function builds. */
  datatype Message = Message(name: seq<CodePoint>, id: string, color: string, offset: real, fragments: seq<Fragment>)

  /** `color_cache`: the colour chosen for each display name so far. */
  type ColorCache = map<seq<CodePoint>, string>

  /** `not message.get('color')`: no colour, or the empty string. */
  predicate NoColor(c: Option<string>) {
    c.None? || c.value == ""
  }

  /** `default_colors[(ord(name[0]) + ord(name[-1])) % len(default_colors)]` */
  function DefaultColor(name: seq<CodePoint>): (r: string)
    requires |name| > 0
    ensures r in DefaultColors
  {
    DefaultColors[(name[0] + name[|name| - 1]) % |DefaultColors|]
  }

  /** The comment can be processed: a comment without a colour has a
      non-empty name (an empty one makes `name[0]` raise IndexError). */
  predicate Processable(raw: RawMessage) {
    NoColor(raw.userColor) ==> |raw.displayName| > 0
  }

  /** Lines 276-283: the colour of a message and the cache after it. */
  function ColorStep(raw: RawMessage, cache: ColorCache): (string, ColorCache)
    requires Processable(raw)
  {
    if !NoColor(raw.userColor) then (raw.userColor.value, cache)
    else
      var name := raw.displayName;
      var cache' := if name in cache then cache else cache[name := DefaultColor(name)];
      (cache'[name], cache')
  }

  /** Lines 270-286 for one comment. */
  function ProcessOne(assets: Emoji.AssetStore, table: seq<seq<CodePoint>>, raw: RawMessage, cache: ColorCache): (Message, ColorCache)
    requires Bttv.ValidTable(table)
    requires Processable(raw)
  {
    var (color, cache') := ColorStep(raw, cache);
    (Message(raw.displayName, raw.id, color, raw.offset, Tokenizer.Tokenize(assets, table, raw.fragments)), cache')
  }

  /** The messages made from `raws`, in order, and the cache after them. */
  function ProcessAll(assets: Emoji.AssetStore, table: seq<seq<CodePoint>>, raws: seq<RawMessage>, cache: ColorCache): (r: (seq<Message>, ColorCache))
    requires Bttv.ValidTable(table)
    requires forall i :: 0 <= i < |raws| ==> Processable(raws[i])
    ensures |r.0| == |raws|
  {
    if raws == [] then ([], cache)
    else
      var (ms, c) := ProcessAll(assets, table, raws[..|raws| - 1], cache);
      var (m, c') := ProcessOne(assets, table, raws[|raws| - 1], c);
      (ms + [m], c')
  }

  lemma ProcessAllLast(assets: Emoji.AssetStore, table: seq<seq<CodePoint>>, raws: seq<RawMessage>, cache: ColorCache, n: nat)
    requires Bttv.ValidTable(table)
    requires forall i :: 0 <= i < |raws| ==> Processable(raws[i])
    requires n < |raws|
    ensures var (ms, c) := ProcessAll(assets, table, raws[..n], cache);
      ProcessAll(assets, table, raws[..n + 1], cache) == (ms + [ProcessOne(assets, table, raws[n], c).0], ProcessOne(assets, table, raws[n], c).1)
  {
    assert raws[..n + 1][..n] == raws[..n];
  }

  /** Lines 273-283: the colour of a message, looked up in or added to the
      cache when the comment has none. */
  method MessageColor(raw: RawMessage, colorCache: ColorCache) returns (color: string, colorCache': ColorCache)
    requires Processable(raw)
    ensures (color, colorCache') == ColorStep(raw, colorCache)
  {
    colorCache' := colorCache;
    color := raw.userColor.GetOr("");
    if color == "" {
      var name := raw.displayName;
      if name !in colorCache' {
        color := DefaultColor(name);
        colorCache' := colorCache'[name := color];
      }
      color := colorCache'[name];
    }
  }

  /** Lines 269-286: `process_messages`, which appends to `messages`. */
  method ProcessMessages(assets: Emoji.AssetStore, rawMessages: seq<RawMessage>, messages: seq<Message>, colorCache: ColorCache)
    returns (messages': seq<Message>, colorCache': ColorCache)
    requires forall i :: 0 <= i < |rawMessages| ==> Processable(rawMessages[i])
    ensures (BttvTable.BttvEmotesValid(); messages' == messages + ProcessAll(assets, BttvTable.BttvEmotes, rawMessages, colorCache).0)
    ensures (BttvTable.BttvEmotesValid(); colorCache' == ProcessAll(assets, BttvTable.BttvEmotes, rawMessages, colorCache).1)
  {
    BttvTable.BttvEmotesValid();
    messages', colorCache' := messages, colorCache;
    for n := 0 to |rawMessages|
      invariant messages' == messages + ProcessAll(assets, BttvTable.BttvEmotes, rawMessages[..n], colorCache).0
      invariant colorCache' == ProcessAll(assets, BttvTable.BttvEmotes, rawMessages[..n], colorCache).1
    {
      ProcessAllLast(assets, BttvTable.BttvEmotes, rawMessages, colorCache, n);
      var raw := rawMessages[n];
      var color;
      color, colorCache' := MessageColor(raw, colorCache');
      var fragments := Tokenizer.ProcessFragments(assets, raw.fragments);
      messages' := messages' + [Message(raw.displayName, raw.id, color, raw.offset, fragments)];
    }
    assert rawMessages[..|rawMessages|] == rawMessages;
  }

  /** Every cached colour is the fallback colour of its name. */
  predicate CacheFallback(cache: ColorCache) {
    forall name :: name in cache ==> |name| > 0 && cache[name] == DefaultColor(name)
  }

  /** Every entry of `small` is kept in `big`. */
  predicate Extends(big: ColorCache, small: ColorCache) {
    forall name :: name in small ==> name in big && big[name] == small[name]
  }

  /** A comment's own colour wins; otherwise the colour comes from the cache,
      which keeps every colour it held and, when it held only fallback
      colours, still does. */
  lemma ColorStepRule(raw: RawMessage, cache: ColorCache)
    requires Processable(raw)
    ensures var (color, cache') := ColorStep(raw, cache);
      && Extends(cache', cache)
      && (!NoColor(raw.userColor) ==> color == raw.userColor.value && cache' == cache)
      && (NoColor(raw.userColor) ==> raw.displayName in cache' && color == cache'[raw.displayName])
      && (CacheFallback(cache) ==> CacheFallback(cache') && (NoColor(raw.userColor) ==> color == DefaultColor(raw.displayName)))
  {
  }

  /** The messages `ms` keep the order and the keys of the comments `raws`;
      their fragments are the tokenized fragments; and a message's colour
      is its author's own colour or, without one, the colour `cache` holds
      for the name. */
  predicate Describes(assets: Emoji.AssetStore, table: seq<seq<CodePoint>>, raws: seq<RawMessage>, ms: seq<Message>, cache: ColorCache)
    requires Bttv.ValidTable(table)
  {
    && |ms| == |raws|
    && forall i :: 0 <= i < |raws| ==>
         && ms[i].name == raws[i].displayName && ms[i].id == raws[i].id && ms[i].offset == raws[i].offset
         && ms[i].fragments == Tokenizer.Tokenize(assets, table, raws[i].fragments)
         && (!NoColor(raws[i].userColor) ==> ms[i].color == raws[i].userColor.value)
         && (NoColor(raws[i].userColor) ==> raws[i].displayName in cache && ms[i].color == cache[raws[i].displayName])
  }

  lemma DescribesStep(assets: Emoji.AssetStore, table: seq<seq<CodePoint>>, raws: seq<RawMessage>, ms: seq<Message>,
                      c: ColorCache, raw: RawMessage)
    requires Bttv.ValidTable(table)
    requires Processable(raw) && Describes(assets, table, raws, ms, c)
    ensures var (m, c') := ProcessOne(assets, table, raw, c);
      Describes(assets, table, raws + [raw], ms + [m], c') && Extends(c', c)
  {
    ColorStepRule(raw, c);
  }

  /** The messages `process_messages` appends are described by its
      comments and the final cache, and the cache only grows. */
  lemma {:induction false} ProcessAllRule(assets: Emoji.AssetStore, table: seq<seq<CodePoint>>, raws: seq<RawMessage>, cache: ColorCache)
    requires Bttv.ValidTable(table)
    requires forall i :: 0 <= i < |raws| ==> Processable(raws[i])
    ensures var (ms, cache') := ProcessAll(assets, table, raws, cache);
      Describes(assets, table, raws, ms, cache') && Extends(cache', cache)
    decreases |raws|
  {
    if raws != [] {
      var init, raw := raws[..|raws| - 1], raws[|raws| - 1];
      assert init + [raw] == raws;
      ProcessAllRule(assets, table, init, cache);
      var (ms, c) := ProcessAll(assets, table, init, cache);
      DescribesStep(assets, table, init, ms, c, raw);
    }
  }

  /** Two comments by the same author without a colour of their own get the
      same colour. */
  lemma SameNameSameColor(assets: Emoji.AssetStore, table: seq<seq<CodePoint>>, raws: seq<RawMessage>, cache: ColorCache, i: nat, j: nat)
    requires Bttv.ValidTable(table)
    requires forall k :: 0 <= k < |raws| ==> Processable(raws[k])
    requires i < |raws| && j < |raws| && raws[i].displayName == raws[j].displayName
    requires NoColor(raws[i].userColor) && NoColor(raws[j].userColor)
    ensures ProcessAll(assets, table, raws, cache).0[i].color == ProcessAll(assets, table, raws, cache).0[j].color
  {
    ProcessAllRule(assets, table, raws, cache);
  }

  /** From a cache of fallback colours (the empty cache at start-up), an
      author without a colour of their own gets `DefaultColor` of the name. */
  lemma {:induction false} FallbackColor(assets: Emoji.AssetStore, table: seq<seq<CodePoint>>, raws: seq<RawMessage>, cache: ColorCache)
    requires Bttv.ValidTable(table)
    requires forall k :: 0 <= k < |raws| ==> Processable(raws[k])
    requires CacheFallback(cache)
    ensures var (ms, cache') := ProcessAll(assets, table, raws, cache);
      && CacheFallback(cache')
      && |ms| == |raws|
      && forall i :: 0 <= i < |raws| && NoColor(raws[i].userColor) ==> ms[i].color == DefaultColor(raws[i].displayName)
    decreases |raws|
  {
    ProcessAllRule(assets, table, raws, cache);
    if raws != [] {
      var init, raw := raws[..|raws| - 1], raws[|raws| - 1];
      FallbackColor(assets, table, init, cache);
      ProcessAllRule(assets, table, init, cache);
      var (ms, c) := ProcessAll(assets, table, init, cache);
      ColorStepRule(raw, c);
    }
  }

  /** The text of each message is its comment's text with every code point
      above 0xFFFF re-encoded. */
  lemma MessageText(assets: Emoji.AssetStore, table: seq<seq<CodePoint>>, raws: seq<RawMessage>, cache: ColorCache, i: nat)
    requires Bttv.ValidTable(table)
    requires forall k :: 0 <= k < |raws| ==> Processable(raws[k])
    requires i < |raws|
    ensures |ProcessAll(assets, table, raws, cache).0| == |raws|
    ensures Concat(ProcessAll(assets, table, raws, cache).0[i].fragments) == Surrogates.ReEncode(Concat(raws[i].fragments))
  {
    ProcessAllRule(assets, table, raws, cache);
    Tokenizer.TokenizeConcat(assets, table, raws[i].fragments);
  }
}
