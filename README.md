# Twitch VOD chat: fragment tokenizer and message store

This project models the part of a Twitch VOD chat player that is not I/O:

- **Turning a chat comment into display fragments.** A comment is a list of
  fragments `{text, emoticon?, tag?}`. `process_fragments` runs four passes
  over it, in order:
  1. `process_bttv_emotes` cuts the names of known third-party emotes out of
     the text fragments.
  2. `process_emoji` cuts out emoji characters whose image is in the local
     cache.
  3. `process_unicode` rewrites every code point above U+FFFF as its UTF-16
     surrogate pair, as section 2.1 of RFC 2781 describes.
  4. `process_usernames` cuts `@name` mentions out of the runs of white space
     and non-white space.
- **`process_messages`.** This turns the downloaded comments into messages.
  A commenter with no colour of their own gets a palette colour, and a cache
  keeps the colour for each name.
- **Small helpers.** `get_emote` names the file of an emote image,
  `format_seconds` prints `h:mm:ss`, `parse_duration` reads `1h2m3s`, and
  `parse_url` takes the video id out of a VOD link.
- **`MessageStore`.** This class holds the messages in playback order and a
  pointer. `get(start, end, earlier)` moves the pointer to the messages the
  player shows next and returns them.

## How the model is organised

- **Text.** Text is a sequence of code points (`Text.CodePoint`). A Python
  `str` can hold lone surrogates, and the surrogate pass produces them.
- **Functions and methods.** Each pass is a recursive function that states
  what it returns, such as `Bttv.BttvPass`. Beside it is a method with the
  loops of the source, proved to return the function's value, such as
  `Bttv.ProcessBttvEmotes`.
- **Lemmas.** The lemmas say what the passes promise. The text of the
  message is kept (or re-encoded), every fragment a pass creates is well
  formed, and the tie-breaking rules hold.
- **`MessageStore`.** This is a class whose methods move `pointer` with the
  loops of `get`. The functions `Store.Rewind`, `Store.Advance` and
  `Store.CollectEnd` say where each loop stops.
- **Parameters.** The emote table is a parameter of the passes.
  `BttvTable.BttvEmotes` is the table the program uses. The image cache is
  an `Emoji.AssetStore`, a folder together with an existence test for paths
  in it.

## Model

| member | source | states |
|---|---|---|
| Text.FindRule | chat_downloader.py:308 | `text.find(pat)` is -1 exactly when `pat` does not occur, and otherwise the first index where it occurs |
| Text.FindElement | chat_downloader.py:347 | `text.find(char)` is -1 exactly when the character is absent, and otherwise an index holding it with no earlier copy |
| Text.JoinAppend | chat_downloader.py:398-403 | `''.join` of two token lists put together is the join of the first followed by the join of the second |
| Text.ReplaceRemoves | chat_downloader.py:412 | after `replace(c, sub)`, where `sub` does not hold `c`, no `c` is left |
| Text.ReplaceLast | chat_downloader.py:414-415 | when the only `.png` of `t + ".png"` is the last one, `replace` swaps that one alone |
| Fragments.ConcatAppend | chat_downloader.py:291-296 | the text spelled by two fragment lists put together is the first text followed by the second |
| Bttv.LeftmostRule | chat_downloader.py:305-311 | the scan of the table finds an entry exactly when one occurs in the text; it picks the entry whose first occurrence starts earliest, and on a tie the one earlier in the table |
| Bttv.FindLeftmost | chat_downloader.py:305-311 | the loop over the table returns the entry and the index that `Bttv.LeftmostRule` describes |
| Bttv.ScanStep | chat_downloader.py:304-322 | each round cuts the text before the chosen emote, the emote itself, and carries on scanning after it |
| Bttv.SplitNext | chat_downloader.py:305-322 | one round of the while loop emits the pieces before the rest of the scan and leaves a strictly shorter text |
| Bttv.ScanText | chat_downloader.py:303-326 | the while loop over one text fragment emits exactly the fragments of the recursive scan |
| Bttv.ProcessBttvEmotes | chat_downloader.py:299-329 | `process_bttv_emotes` returns, for each input fragment in order, its scan if it has no emoticon and the fragment itself if it does |
| Bttv.BttvSplitConcat | chat_downloader.py:304-326 | the fragments cut from a text spell that text exactly |
| Bttv.PrefixClean | chat_downloader.py:309-315 | no table entry occurs in the text cut off before the chosen emote |
| Bttv.BttvSplitFragments | chat_downloader.py:304-326 | every fragment cut from a text is non-empty and untagged; it is either an emote whose text and id are one table entry, or plain text holding no table entry |
| Bttv.BttvPassConcat | chat_downloader.py:299-329 | the pass keeps the message text |
| Bttv.BttvPassFragments | chat_downloader.py:299-329 | each output fragment is an input emote fragment passed through, or a well-formed fragment cut by the scan; empty text fragments disappear |
| Bttv.LeftmostWins | chat_downloader.py:304-326 | with the table ["Goodness", "OhMyGoodness"], "xxOhMyGoodnessyy" gives "xx", the emote OhMyGoodness and "yy": the earliest start wins over table order |
| Bttv.TableOrderWins | chat_downloader.py:309 | with the table ["ab", "abc"], "abcd" gives the emote "ab" and then "cd": on a tie the earlier table entry wins |
| BttvTable.BttvEmotesValid | chat_downloader.py:45 | no entry of `bttv_emotes` is empty, so every round of the scan shortens the text |
| Emoji.NextSplitIs | chat_downloader.py:341-345 | the next character cut out is the first one from the current position that is in `EMOJI_RANGES` and has its image |
| Emoji.SplitStep | chat_downloader.py:346-358 | cutting out a character emits the text before it and its emote fragment; `text.find(char)` lands on that very character |
| Emoji.Cut | chat_downloader.py:346-358 | one cut emits the pieces that come before the rest of the scan, and the text after the character is what is left |
| Emoji.SplitRound | chat_downloader.py:339-358 | one round of the `for char in text` loop cuts every character with an image; what is left holds none, and `changed` is set exactly when the text shrank |
| Emoji.ScanText | chat_downloader.py:337-362 | the while loop over one text fragment emits exactly the fragments of the recursive scan |
| Emoji.ProcessEmoji | chat_downloader.py:332-365 | `process_emoji` returns, for each input fragment in order, its scan if it has no emoticon and the fragment itself if it does |
| Emoji.EmojiSplitNone | chat_downloader.py:339-362 | a text with no character to cut stays one text fragment, or none if it is empty |
| Emoji.EmojiSplitConcat | chat_downloader.py:337-362 | the fragments cut from a text spell that text exactly |
| Emoji.EmojiSplitFragments | chat_downloader.py:341-362 | every emote cut out is one character in the ranges whose image exists, with id `windows-` plus that character; every text piece is non-empty and holds no such character |
| Emoji.EmojiPassConcat | chat_downloader.py:332-365 | the pass keeps the message text |
| Emoji.EmojiPassFragments | chat_downloader.py:332-365 | each output fragment is an input emote fragment passed through, or a well-formed fragment cut by the scan |
| Surrogates.Utf16LeBytes | chat_downloader.py:384 | the UTF-16-LE encoding of an astral character is four bytes |
| Surrogates.ReplaceUnicode | chat_downloader.py:382-387 | an astral code point becomes two code points, a high surrogate in D800-DBFF and a low one in DC00-DFFF, with 0x10000 + (hi - 0xD800) * 0x400 + (lo - 0xDC00) equal to the code point |
| Surrogates.ReEncodeAppend | chat_downloader.py:374 | the substitution works code point by code point, so it commutes with putting texts together |
| Surrogates.ReEncodeBmp | chat_downloader.py:374 | no code point above U+FFFF is left after the substitution |
| Surrogates.ReEncodeIdentity | chat_downloader.py:374 | a text with no code point above U+FFFF is left unchanged |
| Surrogates.DecodeReEncode | chat_downloader.py:382-387 | decoding the output as UTF-16 gives back the original text when it held no surrogates |
| Surrogates.ReEncodeFragment | chat_downloader.py:372-375 | the copy of a fragment keeps its emoticon and tag |
| Surrogates.UnicodePass | chat_downloader.py:368-379 | `process_unicode` keeps the number and order of fragments and changes only their text, which it re-encodes; emote fragments are re-encoded too, because the test at line 371 is always true |
| Surrogates.ProcessUnicode | chat_downloader.py:368-379 | the loop returns what `Surrogates.UnicodePass` describes |
| Surrogates.UnicodePassConcat | chat_downloader.py:368-379 | the message text after the pass is the re-encoded message text |
| Mentions.RunEndRule | chat_downloader.py:394 | a run of `\S+` or `\s+` ends at the first character of the other kind, or at the end of the text |
| Mentions.TokensRule | chat_downloader.py:394 | `re.findall` with the pattern "`\S+` or `\s+`" gives tokens that spell the text; each is a non-empty run of one kind, and tokens in a row alternate kinds |
| Mentions.ScanMentions | chat_downloader.py:394-405 | the loop over the tokens emits exactly the fragments of the recursive scan |
| Mentions.ProcessUsernames | chat_downloader.py:390-408 | `process_usernames` scans each fragment that has no emoticon and holds `@`, and passes every other fragment through |
| Mentions.MentionScanConcat | chat_downloader.py:396-405 | the fragments from the tokens spell the tokens joined |
| Mentions.MentionScanFragments | chat_downloader.py:396-405 | every fragment from the scan is non-empty text without an emoticon; a tagged one starts with `@`, is at least two characters long, holds no white space, and its tag is the text without the `@` |
| Mentions.UsernamesPassConcat | chat_downloader.py:390-408 | the pass keeps the message text |
| Mentions.UsernamesPassFragments | chat_downloader.py:390-408 | each output fragment is an input fragment passed through (an emote, or text without `@`) or a well-formed fragment from the scan |
| Mentions.ScanPlain | chat_downloader.py:403-405 | with no mention among the remaining tokens, the rest is joined into one text fragment, or none if it is empty |
| Mentions.OneMention | chat_downloader.py:396-405 | one mention among plain tokens gives the text before it, the mention, and the text after it |
| Mentions.NoAtNoMention | chat_downloader.py:397 | text without `@` has no token that is a mention |
| Mentions.LoneAt | chat_downloader.py:397 | a lone `@` stays plain text |
| Mentions.HelloBob | chat_downloader.py:390-408 | "hello @bob how are you" gives "hello ", the mention "@bob" tagged "bob", and " how are you" |
| Tokenizer.ProcessFragments | chat_downloader.py:291-296 | `process_fragments` runs the four passes in order with the program's emote table, and its output spells the input text with every code point above U+FFFF replaced by its surrogate pair |
| Tokenizer.TokenizeConcat | chat_downloader.py:291-296 | for any table with no empty entry, the text after all four passes is the re-encoded input text |
| Tokenizer.TokenizeBmp | chat_downloader.py:291-296 | no code point above U+FFFF is left in the text after all four passes |
| Tokenizer.LaterPassesKeep | chat_downloader.py:293-295 | the emoji, surrogate and mention passes leave as they are the fragments with only code points up to U+FFFF that are emotes, or untagged non-empty text with no emoji to cut and no `@` |
| Tokenizer.TokenizePlain | chat_downloader.py:291-296 | a text fragment holding no emote of the table, no emoji with an image, no `@` and no code point above U+FFFF comes out of `process_fragments` as the one fragment it was |
| Tokenizer.TokenizeGoodness | chat_downloader.py:291-296 | with the table ["Goodness", "OhMyGoodness"], `process_fragments` turns "xxOhMyGoodnessyy" into "xx", the emote OhMyGoodness and "yy", whatever images are cached |
| Messages.DefaultColor | chat_downloader.py:281 | the fallback colour of a name is one of `default_colors` |
| Messages.MessageColor | chat_downloader.py:277-283 | the colour code of the loop body computes the colour and cache that `Messages.ColorStepRule` describes |
| Messages.ColorStepRule | chat_downloader.py:277-283 | a comment's own colour wins and leaves the cache alone; otherwise the colour is the cached one for the name, added on first sight; the cache keeps every entry it had, and a cache of fallback colours stays one |
| Messages.ProcessMessages | chat_downloader.py:269-286 | `process_messages` appends one message per comment, in order, to the caller's list and returns the updated colour cache |
| Messages.ProcessAllRule | chat_downloader.py:269-286 | the messages follow the comments in order. Each takes its comment's name, id and offset, and its comment's fragments after `process_fragments`. Its colour is the comment's own colour, or else the colour the final cache holds for the name. The cache only gains entries |
| Messages.SameNameSameColor | chat_downloader.py:277-283 | two comments by the same name, neither with its own colour, get the same colour |
| Messages.FallbackColor | chat_downloader.py:277-283 | starting from an empty cache (or any cache of fallback colours), every comment without its own colour gets the palette colour of its name |
| Messages.MessageText | chat_downloader.py:285 | each message's text is its comment's text with astral code points re-encoded |
| EmoteFiles.SafeIdRule | chat_downloader.py:412 | the id in the file name holds no `:`, and an id without one is kept as it is |
| EmoteFiles.StillFile | chat_downloader.py:412-413 | a still emote's path ends with `<id>-1.png`, where the id has its `:` spelled out; the path holds no `:` when the folder holds none; for an id without `:` the path is the folder joined with `<id>-1.png` |
| EmoteFiles.AnimatedFile | chat_downloader.py:412-415 | SourPls and (chompy) are stored as `<id>-1.gif` in the cache folder |
| TimeFormat.NatToStringValue | chat_downloader.py:429 | the decimal numeral of `n` reads back as `n` |
| TimeFormat.Pad2Value | chat_downloader.py:429 | `{n:0>2}` of a number below 100 is two digits that read back as the number |
| TimeFormat.ClockSplit | chat_downloader.py:426-429 | the hours, minutes and seconds `format_seconds` prints have minutes and seconds below 60 and add back up to the total |
| TimeFormat.FormatSecondsFields | chat_downloader.py:425-429 | `format_seconds(t)` is `h:mm:ss`: minutes and seconds two digits each below 60, and 3600h + 60m + s == t |
| TimeFormat.ClockOf | chat_downloader.py:425-429 | 3723 seconds print as "1:02:03" |
| TimeFormat.FirstIndex | chat_downloader.py:435 | `duration.find(unit)` is the index of the first `unit` |
| TimeFormat.TakeStep | chat_downloader.py:434-447 | one `if unit in duration` block reads the number before the first `unit` and the text after it; without the unit it reads 0 and keeps the text |
| TimeFormat.ParseDuration | chat_downloader.py:432-448 | `parse_duration` returns what `TimeFormat.Duration` gives, `None` where `int` raises ValueError |
| TimeFormat.TakeUnitAt | chat_downloader.py:434-447 | a block whose unit first occurs at `i` reads the text between the previous part and `i`, and leaves the text after `i`; it fails when that text is not a number |
| TimeFormat.NoUnitsZero | chat_downloader.py:432-448 | a text holding none of `h`, `m`, `s` parses as 0, whatever else it holds |
| TimeFormat.UnreadableHours | chat_downloader.py:434-438 | when the text before the first `h` is not a number, the parse fails |
| TimeFormat.UnreadableMinutes | chat_downloader.py:434-443 | when the text between the `h` part (or the start) and the first `m` after it is not a number, the parse fails |
| TimeFormat.UnreadableSeconds | chat_downloader.py:434-447 | when the text between the `m` part (or the `h` part, or the start) and the first `s` after it is not a number, the parse fails |
| TimeFormat.ParseNumeral | chat_downloader.py:436 | `int` reads a decimal numeral back |
| TimeFormat.TakePart | chat_downloader.py:434-447 | a block reads back the part `N<unit>` written before the rest, and reads 0 when the part is missing |
| TimeFormat.DurationOfRender | chat_downloader.py:432-448 | `[Nh][Nm][Ns]` written out parses back to 3600h + 60m + s, with missing parts counting as 0 |
| TimeFormat.FullDuration | chat_downloader.py:432-448 | "1h2m3s" parses as 3723 |
| TimeFormat.SecondsBeforeMinutes | chat_downloader.py:439-443 | "3s2m" fails, because `int("3s2")` raises ValueError |
| Urls.DigitRun | chat_downloader.py:453-455 | the run of digits from an index is all digits and is not followed by a digit |
| Urls.MatchAtRule | chat_downloader.py:455 | a match of `v?([0-9]{5,})` at an index is a maximal run of at least five digits starting there or one place on |
| Urls.SearchRule | chat_downloader.py:453-455 | `re.search` returns the group of the leftmost index where the pattern matches, and nothing when it matches nowhere |
| Urls.ParseUrlFirstRun | chat_downloader.py:451-456 | for a link not on player.twitch.tv, `parse_url` returns the first maximal run of at least five digits, and fails exactly when there is none |
| Urls.PlayerLink | chat_downloader.py:451-456 | for a player link, the id is the digits after the first `video=` that is followed by an optional `v` and at least five digits, and the parse fails without one |
| Urls.ShortRunSkipped | chat_downloader.py:455 | in "ab1234v56789" the four-digit run is skipped, and so is the `v`: the id is "56789" |
| Store.RewindRule | message_store.py:11-12 | the first loop stops after the last message before `start`, or at 0, having passed only messages at or after `start` |
| Store.AdvanceRule | message_store.py:15-16 | the second loop stops at the last message, or where the next one is not before `start`, having passed only messages before `start` |
| Store.Back | message_store.py:19-22 | `earlier_messages` steps the pointer back that many places, clamped at 0 |
| Store.CollectEndRule | message_store.py:24-29 | collecting stops at the first message not before `end`, or at the end of the list |
| Store.MessageStore.constructor | message_store.py:2-4 | a new store holds the given messages with the pointer at 0 |
| Store.MessageStore.Get | message_store.py:6-29 | a negative start returns `None` and changes nothing; otherwise `get` returns the contiguous slice between the pointer after the loops and the new pointer, in list order, and never changes the list |
| Store.MessageStore.RewindPointer | message_store.py:11-12 | the loop leaves the pointer where `Store.RewindRule` says |
| Store.MessageStore.AdvancePointer | message_store.py:15-16 | the loop leaves the pointer where `Store.AdvanceRule` says |
| Store.MessageStore.CollectUntil | message_store.py:24-29 | the loop returns the messages from the old pointer to the new one, and stops where `Store.CollectEndRule` says |
| Store.MessageStore.SetMessages | message_store.py:31-33 | the list is replaced and the pointer reset to 0 |
| Store.MessageStore.At | message_store.py:35-36 | `store[item]` is `messages[item]`, where a negative index counts from the end, and fails outside the list |
| Store.PointerBrackets | message_store.py:11-16 | with sorted offsets, after the two loops every message before the pointer is before `start`, and every message after it is not |
| Store.WindowRule | message_store.py:24-29 | every returned message is before `end`, and the new pointer is at the end of the list or at a message not before `end` |
| Store.OnlyFirstEarly | message_store.py:11-29 | with sorted offsets and no `earlier_messages`, only the first returned message can lie before `start` |
| Store.ExactWindow | message_store.py:11-29 | when the pointer already sits at `start`, neither loop moves it, and `get(start, end)` returns exactly the messages with start <= offset < end |
| Store.ConsecutiveWindows | message_store.py:11-29 | `get(start, end)` leaves the pointer where the next `get(end, _)` finds it already in place |
| Store.EarlierBound | message_store.py:19-29 | with sorted offsets, `get(t, t, k)` returns at most k + 1 messages, all before `t` |
| Store.SampleWindows | message_store.py:6-29 | over offsets 0, 1, 2, 3, 5, 8, a fresh `get(2, 5)` gives 1, 2, 3; then `get(5, 8)` gives 5; then `get(0, 2)` rewinds and gives 0, 1 |
| Store.Playback | message_store.py:2-29 | the same three queries run on a `MessageStore` object return offsets 1, 2, 3, then 5, then 0, 1 |

## Left out

- The network, disk and threads: fetching chat pages, downloading emote images, the JSON cache, `ChatDownloader.run` and `kill`, `video_exists`, the progress and ETA arithmetic, `main`, the clock thread and the Tk interface. They are I/O, wall-clock time or concurrency.
- `os.path.exists` in `process_emoji` is the `present` test of an `Emoji.AssetStore`, a parameter; the filesystem itself is not modelled.
- The `bttv_emotes` table is written out as code points in `BttvTable.BttvEmotes`. The lemmas about the pass hold for any table without an empty entry; the concrete examples (`Bttv.LeftmostWins`, `Bttv.TableOrderWins`, `Tokenizer.TokenizeGoodness`) use small tables of their own.
- The `\s` class of `re` is modelled by `Mentions.IsSpace`, the Unicode white-space code points Python's `str` matching uses; the regular expressions themselves are written as explicit scans.
- `process_messages` appends to the caller's list and updates the global `color_cache`. The model takes the list and the cache as inputs and returns the new list and the new cache.
- Messages.ProcessMessages: requires that every comment without its own colour has a non-empty display name, because the source then raises IndexError on `name[0]`; that error path is not modelled.
- Messages.ProcessMessages: the comment id and the offset are copied as given; missing keys in the raw JSON (where `.get` returns `None`) are not modelled.
- Surrogates.UnicodePass: emote fragments are re-encoded like text fragments. This follows the code, whose test `'emoticon' not in fragments` looks at the output list and is always true, rather than the evident intent of skipping emotes.
- TimeFormat.ParseDuration: `int()` is modelled for an optional sign followed by ASCII digits. Its other accepted forms (surrounding white space, `_` between digits, non-ASCII digits) read as failures here.
- TimeFormat.FormatSecondsFields: `format_seconds` is modelled for whole non-negative seconds; float input and negative values are left out.
- Urls.ParseUrl: a link without a match gives `None` where the source raises TypeError on `None[1]`.
- EmoteFiles.AnimatedFile: requires that the cache folder path holds no `.`. That ensures the only `.png` in the path is the one the file name ends with. A folder path that does contain `.png` would have that occurrence turned into `.gif` as well, and that case is not stated.
- Store.MessageStore.Get: `earlier` is a natural number. A negative count in the source would move the pointer forward, possibly past the end of the list; the program only passes 0 or a positive count.
- Store.MessageStore.Get: offsets are `real`; float NaN and rounding are left out, since offsets are only compared.
- The fetch half of `get_emote` (lines 416-422) is I/O. The model covers only the file-name derivation of lines 412-415.
- The copies of `format_seconds` and `replace_unicode` in gui_controller.py, gui.py and unused_classes.py are not part of this model.
