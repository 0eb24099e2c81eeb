# headline-widget, modelled in Dafny

headline-widget is a small page for designing a headline. Its settings record holds:

- the text and its font, size, letter spacing and line height;
- an optional gradient and its direction;
- per-letter animation, hover glow and an outline;
- a sparse map from word index to word style.

The page does three things with these settings:

- It renders the headline either letter by letter, or word by word with the chosen word styles.
- It edits the settings through a controls panel.
- It shares a configuration as a token in the `config` query value and as an iframe snippet.

The token is `btoa` of the UTF-8 bytes of `JSON.stringify(settings)`. Decoding runs `atob`, then a strict UTF-8 decode, then `JSON.parse`. Any failure gives "no value".

The model covers the following, one module each:

- `Wrappers`: an `Option` type.
- `Numbers`: JavaScript numbers, carried as exact canonical decimals. They are written in positional notation and read with the JSON number grammar.
- `Unicode`: UTF-8 as in RFC 3629, and the UTF-16 code units JavaScript strings are made of.
- `Base64`: `btoa` as in section 4 of RFC 4648, and `atob` as the forgiving-base64 decode of the WHATWG Infra standard.
- `Json`: JSON values (RFC 8259), the text `JSON.stringify` writes and the reading `JSON.parse` does.
- `JsonRoundTrip`: the proof that `JSON.parse(JSON.stringify(j))` gives back `j`.
- `Types`, `Defaults`: the settings record, its enumerations and the default settings.
- `SettingsJson`: the JSON object written for a record, and the shape check that reads a record back.
- `Embed`: the token codec and the embed snippet.
- `TextSplit`: `text.split(/\s+/)` and how it relates to joining with a space.
- `Widget`: the renderer's rules. These are the gradient angle, the word classes, the base style, the hover glow, the letter animation, and the per-letter and per-word units.
- `Controls`: the panel's `update` merge and `setSegment`.
- `App`: the initial settings chosen from the query value, the address the page writes back, and the snippet it offers.

Decoding does not check the shape of what it reads. `fromBase64Config` (src/utils/embed.ts:10-17) returns whatever `JSON.parse` yields, and `init` (src/App.tsx:12-20) uses any truthy value. Yet the renderer and the panel call `text.split` on the initial settings (src/components/HeadlineWidget.tsx:40, src/components/ControlsPanel.tsx:18), so the code evidently relies on a settings record. The model keeps both readings:

- `Embed.FromBase64Config` and `App.InitAsWritten` follow the code.
- `Embed.DecodeSettings` and `App.InitialSettings` add the shape check. The rest of the model uses these.

## Model

| member | source | states |
|---|---|---|
| Types.ParseDirection | src/lib/types.ts:1 | Reading a direction name gives the direction with that name. It fails exactly when no direction has that name. |
| Types.ParseStyle | src/lib/types.ts:4 | Reading a word-style name gives the style with that name. It fails exactly when no style has that name. |
| Types.ParseFamily | src/lib/types.ts:10 | Reading a font-family name gives the family with that name. It fails exactly when no family has that name. |
| Types.WeightNumber | src/lib/types.ts:11 | The number written for a weight is its value 300, 400, 600 or 800, as a decimal in canonical form. |
| Types.ParseWeight | src/lib/types.ts:11 | Reading a number gives the weight with that value. It fails exactly when the number is none of the four weights. |
| Defaults.DefaultWords | src/lib/defaults.ts:5 | The default text splits into the five words "Design", "bold", "headlines", "in", "seconds". |
| Defaults.DefaultWordsJoin | src/lib/defaults.ts:5 | Joining the five default words with single spaces gives the default text. |
| Defaults.DefaultSegments | src/lib/defaults.ts:18 | The default word styles style only word 2, with highlight. Word 2, the third word, exists in the default text. |
| Defaults.DefaultNumbers | src/lib/defaults.ts:6-10 | The default numbers are written as "64", "0", "1.05" and "800". |
| Numbers.NatText | src/utils/embed.ts:5 | The decimal digits written for a natural number denote that number. |
| Numbers.Normalize | src/utils/embed.ts:5 | Normalising a mantissa and exponent keeps the value they denote. Zero becomes the canonical zero. |
| Numbers.NumberText | src/utils/embed.ts:5 | A number's JSON text is nonempty and starts with a minus sign or a digit. |
| Numbers.NumberRoundTrip | src/utils/embed.ts:13 | Reading the JSON number grammar from a number's text, followed by any text that ends a number, gives back the number and exactly that following text. |
| Unicode.EncodeChar | src/utils/embed.ts:6 | A character becomes 1 to 4 UTF-8 bytes. It becomes exactly one byte when it is below U+0080. |
| Unicode.Utf8Encode | src/utils/embed.ts:6 | `unescape(encodeURIComponent(json))`: a text of n characters becomes between n and 4n bytes. |
| Unicode.Utf8Decode | src/utils/embed.ts:12 | `decodeURIComponent(escape(bytes))`: a decoded text never has more characters than there were bytes. |
| Unicode.Utf8RoundTrip | src/utils/embed.ts:6-12 | Strict UTF-8 decoding of the encoding of any text gives back that text. |
| Unicode.Utf8DecodeIsEncoding | src/utils/embed.ts:12 | Whatever strict UTF-8 decoding accepts is exactly the encoding of the text it returns. |
| Unicode.Utf8DecodeIff | src/utils/embed.ts:6-12 | Decoding bytes gives a text exactly when those bytes are that text's encoding. |
| Unicode.DecodeFirstIsEncoding | src/utils/embed.ts:12 | The bytes the decoder consumes for one character are that character's encoding. |
| Unicode.CodeUnits | src/components/HeadlineWidget.tsx:84 | A character is one UTF-16 code unit below U+10000 and two otherwise. Each unit is below 0x10000. |
| Unicode.Utf16 | src/components/HeadlineWidget.tsx:84 | A text of n characters has between n and 2n UTF-16 code units. |
| Unicode.Utf16Length | src/components/HeadlineWidget.tsx:84 | A text's UTF-16 length is its character count plus the number of characters above U+FFFF. |
| Unicode.Utf16OfBmp | src/components/HeadlineWidget.tsx:84 | When every character is below U+10000, the code units are the characters themselves. |
| Base64.SextetValue | src/utils/embed.ts:12 | An alphabet character's value is below 64. |
| Base64.SextetBijection | src/utils/embed.ts:6-12 | The base64 alphabet and the values 0 to 63 correspond one to one. |
| Base64.BtoaShape | src/utils/embed.ts:6 | `btoa` of n bytes has 4*((n+2)/3) characters. They are alphabet characters followed by exactly the needed '=' padding. |
| Base64.SextetsRoundTrip | src/utils/embed.ts:6-12 | Decoding the unpadded alphabet characters of any byte sequence gives back the bytes. |
| Base64.Btoa | src/utils/embed.ts:6 | The output's length is a multiple of 4, and every character is in the alphabet or is '='. |
| Base64.AtobBtoa | src/utils/embed.ts:6-12 | `atob(btoa(b))` is `b` for every byte sequence. |
| Base64.Atob | src/utils/embed.ts:12 | The forgiving-base64 decode: whitespace removed, at most two '=' of padding removed, then groups of four characters decoded. Its partner lemmas are `AtobBtoa` (it inverts `btoa`), `AtobUnpadded`, and the three `AtobRejects…` lemmas (the inputs on which it throws). |
| Base64.AtobUnpadded | src/utils/embed.ts:12 | `atob` also accepts the encoding with its padding left off, and gives back the bytes. |
| Base64.AtobRejectsForeignChar | src/utils/embed.ts:12 | `atob` throws on any input that holds a character that is not whitespace, '=' or in the alphabet. |
| Base64.AtobRejectsInnerPadding | src/utils/embed.ts:12 | `atob` throws when '=' stands before the last two characters. |
| Base64.AtobRejectsLength | src/utils/embed.ts:12 | `atob` throws when the input without whitespace has length 1 modulo 4. |
| Json.Truthy | src/App.tsx:17 | JavaScript truthiness of a parsed value. null, false, 0 and "" are falsy. Every array and every object, `{}` included, is truthy, which is what lets `e30=` through (`App.ShapelessTokenAccepted`). |
| Json.Get | src/components/HeadlineWidget.tsx:118 | A property read on a parsed object: the last member with the key, as `JSON.parse` keeps the last duplicate. Its partners are `GetAbsent` and `GetUnique`. |
| Json.GetAbsent | src/components/HeadlineWidget.tsx:118 | A key no member has is absent from the object. |
| Json.GetUnique | src/components/HeadlineWidget.tsx:118 | A member whose key no later member repeats gives the value read for that key. |
| Json.EscapeChar | src/utils/embed.ts:5 | A character's JSON escape is nonempty and never starts with a quote. |
| Json.Stringify | src/utils/embed.ts:5 | The JSON text of any value is nonempty and starts with a character that can start a value. |
| Json.Parse | src/utils/embed.ts:13 | `JSON.parse`: exactly one value with optional whitespace around it, and null where it throws. Its partners are `ParseStringify` (it inverts `JSON.stringify`) and `ParseRejectsTrailing`. |
| JsonRoundTrip.EscapedParses | src/utils/embed.ts:5-13 | An escaped string body followed by a quote reads back as the string, then whatever follows. |
| JsonRoundTrip.ValueRoundTrip | src/utils/embed.ts:5-13 | Any value's text, then the end or a separator or closing bracket, reads back as the value. The reader stops right there. |
| JsonRoundTrip.ItemsRoundTrip | src/utils/embed.ts:5-13 | A nonempty array's items text followed by "]" reads back as those items. |
| JsonRoundTrip.MembersRoundTrip | src/utils/embed.ts:5-13 | A nonempty object's members text followed by "}" reads back as those members, in order. |
| JsonRoundTrip.ParseStringify | src/utils/embed.ts:5-13 | `JSON.parse(JSON.stringify(j))` is `j` for every value. |
| JsonRoundTrip.ParseRejectsTrailing | src/utils/embed.ts:13 | A value's text followed by a stray ',', ']' or '}' is rejected. |
| SettingsJson.ToJson | src/utils/embed.ts:5 | The object `JSON.stringify` is given for a record the page made: the fourteen fields in declaration order (`KeysOfToJson`), with the word styles as an object keyed by index. |
| SettingsJson.FromJson | src/lib/types.ts:7-22 | The shape check: an object whose fourteen fields have the declared types and values. Its partner `FromJsonToJson` shows that it reads back every record `ToJson` writes. |
| SettingsJson.SortedKeys | src/utils/embed.ts:5 | The word-style keys are written in ascending order, each key exactly once. |
| SettingsJson.ParseIndex | src/lib/types.ts:21 | A word-style key reads as index n only when the key is n's canonical decimal text, the property name `segmentStyles[n]` looks up. |
| SettingsJson.SegmentMapOf | src/lib/types.ts:21 | The object written for the word styles at given keys reads back as the map restricted to those keys. |
| SettingsJson.SegmentsRoundTrip | src/lib/types.ts:21 | The word-style map is read back from the member written for it. |
| SettingsJson.FieldNamesDistinct | src/lib/types.ts:7-22 | The fourteen field names are distinct. |
| SettingsJson.KeysOfToJson | src/lib/types.ts:7-22 | The object written for a record has exactly the fourteen fields, in declaration order. |
| SettingsJson.FromJsonToJson | src/lib/types.ts:7-22 | The shape check reads every record back from the object written for it. |
| Embed.ToBase64Config | src/utils/embed.ts:4-7 | The token is `btoa` of the UTF-8 bytes of the settings' JSON text. `atob` of the token gives back exactly those bytes. |
| Embed.FromBase64Config | src/utils/embed.ts:10-17 | As written, with no shape check. Whatever value it returns is the parse of some text whose UTF-8 bytes `atob` gives. Whenever `atob` gives the UTF-8 bytes of a text, the result is that text's parse, whatever the parsed value's shape. When `atob` throws, the result is null. |
| Embed.DecodeSettings | src/utils/embed.ts:10-17 | With the shape check. It fails wherever the unchecked decoding fails. Wherever the unchecked decoding gives a value, the result is exactly the shape-checked reading of that value, so it gives settings exactly when that value has the settings' shape. |
| Embed.FromBase64ConfigRoundTrip | src/utils/embed.ts:4-17 | Decoding a record's token gives the JSON value written for that record, whatever characters its text holds. |
| Embed.DecodeSettingsRoundTrip | src/utils/embed.ts:4-17 | Decoding a record's token, with the shape check, gives back the record. |
| Embed.TokenShape | src/utils/embed.ts:4-7 | A token's length is 4*((n+2)/3) for n UTF-8 bytes of the JSON text. Each of its characters is in the base64 alphabet or is '='. |
| Embed.FromBase64ConfigIff | src/utils/embed.ts:10-17 | A token decodes to a value exactly when `atob` gives the UTF-8 encoding of some text and that text parses to the value. |
| Embed.RejectsForeignChar | src/utils/embed.ts:11-16 | A token holding a character outside whitespace, '=' and the alphabet decodes to nothing. |
| Embed.RejectsLength | src/utils/embed.ts:11-16 | A token whose length without whitespace is 1 modulo 4 decodes to nothing. |
| Embed.RejectsMalformedUtf8 | src/utils/embed.ts:11-16 | Bytes that are no text's UTF-8 encoding make the token decode to nothing. |
| Embed.RejectsMalformedJson | src/utils/embed.ts:11-16 | Text that is not one JSON value makes the token decode to nothing. |
| Embed.StripSlash | src/utils/embed.ts:22 | The result is the host, or the host less one final '/'. It differs from the host exactly when the host ends with '/'. |
| Embed.EmbedSrc | src/utils/embed.ts:22 | The iframe address holds no double quote when the host holds none. |
| Embed.EmbedSnippet | src/utils/embed.ts:20-24 | For a host without a double quote, the snippet's `src` attribute reads back as the iframe address. |
| Embed.StripSlashOnce | src/utils/embed.ts:22 | One trailing '/' is removed from the host. |
| Embed.TokenHasNoQuote | src/utils/embed.ts:21-23 | A token never holds a double quote, so it cannot end the `src` attribute early. |
| Embed.SnippetSrc | src/utils/embed.ts:20-24 | When the host holds no quote, the snippet's `src` attribute is the host without its trailing '/', then "/?config=", then the token. |
| Embed.SnippetIgnoresTrailingSlash | src/utils/embed.ts:22 | A host with one trailing '/' gives the same snippet as the host without it. |
| TextSplit.Split | src/components/HeadlineWidget.tsx:40 | Splitting always gives at least one word. The first word is empty only when the text is empty or starts with whitespace. |
| TextSplit.SplitSplittable | src/components/HeadlineWidget.tsx:40 | Split words hold no whitespace, and only the first and last can be empty. |
| TextSplit.JoinSplit | src/components/HeadlineWidget.tsx:40 | Joining the words with single spaces gives the text with each whitespace run collapsed to one space. |
| TextSplit.SplitJoin | src/components/HeadlineWidget.tsx:40 | Splitting words joined with single spaces gives back the words. |
| TextSplit.SplitLeading | src/components/HeadlineWidget.tsx:40 | A text starting with whitespace has an empty first word. |
| TextSplit.SplitTrailing | src/components/HeadlineWidget.tsx:40 | A text ending with whitespace has an empty last word. |
| TextSplit.SplitEmpty | src/components/HeadlineWidget.tsx:40 | The empty text splits into one empty word. |
| Widget.DirToDeg | src/components/HeadlineWidget.tsx:11-19 | right gives 90deg, left 270deg and down 180deg. Every other name, 'up' included, gives 0deg. Each holds in both directions. |
| Widget.SegmentClass | src/components/HeadlineWidget.tsx:22-29 | Each of highlight, underline and block has its own class list. Every other name gets the empty list. Each holds in both directions. |
| Widget.StyleClasses | src/components/HeadlineWidget.tsx:22-29 | Only `none` gets no classes, and no two word styles share a class list. |
| Widget.BaseStyle | src/components/HeadlineWidget.tsx:43-58 | The font fields are copied over. A gradient gives transparent glyphs clipped to the text under `linear-gradient(angle, from, to)`, and no gradient gives white. The outline stroke is present exactly when the outline is on. |
| Widget.OutlineOnlyStroke | src/components/HeadlineWidget.tsx:57 | Toggling the outline changes nothing in the style but the stroke. |
| Widget.GradientKeepsStroke | src/components/HeadlineWidget.tsx:49-57 | The stroke does not depend on the gradient. |
| Widget.HoverFilter | src/components/HeadlineWidget.tsx:77-79 | The hover variant has the glow filter exactly when hover glow is on. |
| Widget.LetterAnimation | src/components/HeadlineWidget.tsx:61-73 | Letter i rises from y 12 and opacity 0 to y 0 and opacity 1, on a spring with stiffness 300 and damping 20, with a delay of i stagger steps. |
| Widget.PerLetter | src/components/HeadlineWidget.tsx:84-103 | There is one unit per UTF-16 code unit of the text, as `split('')` gives. A space becomes a no-break unit. Every other unit is a span holding that code unit, with its position as the custom index. A character above U+FFFF therefore gives two spans, each holding one surrogate. |
| Widget.ShownIsNbspText | src/components/HeadlineWidget.tsx:94-103 | The spans show, code unit by code unit, the UTF-16 form of the text with each space replaced by a no-break space. |
| Widget.PerLetterAgreesOnBmp | src/components/HeadlineWidget.tsx:84 | When no character is above U+FFFF, the code-unit spans are exactly the spans of a split into characters. |
| Widget.SplitsSurrogatePair | src/components/HeadlineWidget.tsx:84-103 | "😀a" is two characters, but `split('')` gives three spans: two lone surrogates at 0 and 1, then 'a' at 2. A split into characters would give '😀' at 0 and 'a' at 1. |
| Widget.PerCharacter | src/components/HeadlineWidget.tsx:84 | The contrast the renderer does not use: one unit per character, with a space as a no-break unit and every other character a span at its character index. |
| Widget.PerWord | src/components/HeadlineWidget.tsx:109-121 | There is one unit per split word. It holds the word and the class of `segmentStyles[i] ?? 'none'`. |
| Widget.StyleAt | src/components/HeadlineWidget.tsx:118 | `segmentStyles[i] ?? 'none'`: the stored style when index i has one. The result is a real style exactly when i holds a style other than `none`. |
| Widget.WordClass | src/components/HeadlineWidget.tsx:118 | The word's class list is the bare "inline  mr-2" exactly when the style is `none`. |
| Widget.PerWordIgnoresFarIndex | src/components/HeadlineWidget.tsx:117-118 | A word style at an index past the last word changes nothing. |
| Widget.UnstyledWordClass | src/components/HeadlineWidget.tsx:118 | A word without a style, or styled `none`, gets the class "inline  mr-2". |
| Widget.Render | src/components/HeadlineWidget.tsx:83-121 | Per-letter animation on gives the code-unit spans of `split('')`, and off gives word units. Both carry the base style and the hover filter. |
| Widget.LettersIgnoreSegments | src/components/HeadlineWidget.tsx:83-106 | With per-letter animation on, the word styles change nothing. |
| Widget.DefaultRender | src/components/HeadlineWidget.tsx:43-106 | The default settings render per letter, under "linear-gradient(90deg, #22d3ee, #a78bfa)", with the glow. |
| Controls.Update | src/components/ControlsPanel.tsx:9 | Each field of the result is the patch's value where the patch gives one, and otherwise the settings' own value. |
| Controls.UpdateIdempotent | src/components/ControlsPanel.tsx:9 | Applying the same patch twice is applying it once. |
| Controls.UpdateCompose | src/components/ControlsPanel.tsx:9 | Two patches in a row are one merged patch in which the later one wins. |
| Controls.EditSegments | src/components/ControlsPanel.tsx:12-14 | `none` deletes the index, and any other style stores it there. Every other index keeps its presence and its style. |
| Controls.SetSegment | src/components/ControlsPanel.tsx:11-16 | The next settings are the update with the edited word styles, and nothing but the word styles changes. |
| Controls.EditNeverStoresNone | src/components/ControlsPanel.tsx:13-14 | Editing keeps the word-style map free of `none` values. |
| Controls.EditIdempotent | src/components/ControlsPanel.tsx:11-16 | Setting the same style twice is setting it once. |
| Controls.EditOverrides | src/components/ControlsPanel.tsx:11-16 | A second choice for the same word replaces the first. |
| Controls.EditTextKeepsSegments | src/components/ControlsPanel.tsx:28 | Editing the text changes only the text and keeps the word styles. |
| Controls.Selectors | src/components/ControlsPanel.tsx:143-155 | There is one selector per split word, numbered from 1. Each holds its word and shows `segmentStyles[i] ?? 'none'`. |
| Controls.SelectorsMatchWords | src/components/ControlsPanel.tsx:18 | The panel's selectors and the renderer's word units have the same words, and each selector's choice gives the word's class. |
| Controls.SelectorShowsChoice | src/components/ControlsPanel.tsx:147-148 | After a word's style is chosen, that selector shows the choice and the other selectors are unchanged. |
| App.InitAsWritten | src/App.tsx:12-20 | As written. A missing or empty value gives the defaults' JSON. A nonempty value that decodes, unchecked, to a truthy value gives exactly that value. Anything else the page starts with came from such a decoding. |
| App.InitialSettings | src/App.tsx:12-20 | With the shape check. A missing or empty value gives the defaults. A nonempty value that decodes to settings gives exactly those settings. Anything else the page starts with is what the value decodes to under the shape check. |
| App.InitWithoutToken | src/App.tsx:12-20 | A missing or empty `config` value gives the defaults. |
| App.TokenNotEmpty | src/App.tsx:15 | A token is never empty, so the page never ignores its own token. |
| App.InitFromToken | src/App.tsx:12-20 | A record's token gives back that record, and as written it gives the record's JSON value. |
| App.InitRejected | src/App.tsx:12-20 | A value that does not decode gives the defaults. |
| App.InitAgrees | src/App.tsx:12-20 | Whenever the value taken as written has the settings' shape, it is the value the shape-checked initialisation picks. |
| App.AddressOf | src/App.tsx:27-33 | The address the page writes back: its path, then "?config=", then the token computed in place. `AddressToken` shows that this is `toBase64Config`'s token and that it brings the settings back. |
| App.AppSnippet | src/App.tsx:37 | The snippet for the fixed public host. `AppSnippetSrc` gives its `src`. |
| App.EmptyObjectToken | src/utils/embed.ts:10-17 | The token "e30=" decodes to the empty object. |
| App.ShapelessTokenAccepted | src/App.tsx:15-17 | As written, the token "e30=" gives the empty object, which is not a settings record. The shape-checked initialisation gives the defaults. |
| App.AddressToken | src/App.tsx:27-33 | The address written back is the path, then "?config=", then the token. That token gives back the current settings. |
| App.AppSnippetSrc | src/App.tsx:37 | The offered snippet's `src` is the fixed public host, then "/?config=", then the token. |

## Left out

- Rendering itself is not modelled. The model stops at the units and styles handed to React, framer-motion and Tailwind. It does not cover the DOM, the keys, what the class names look like or the animation runtime.
- The 0.015 s letter delay is floating point. The model keeps the letter's index, so the delay is that index times 0.015 s.
- Reading `location.search` is I/O, and so is `URLSearchParams`. `App.InitialSettings` takes the `config` value as a parameter. `URLSearchParams` also turns '+' into a space, which corrupts tokens that hold '+'. That is not modelled.
- `history.replaceState` and the clipboard copies are I/O. The model keeps the address the page writes (`App.AddressOf`) and nothing else.
- The pretty-printed JSON shown for export (src/App.tsx:36) is not modelled. Only the compact `JSON.stringify` text is.
- NaN, the infinities and negative zero are not modelled. `Numbers.NumberText` writes every number positionally. JavaScript uses exponent notation below 1e-6 and from 1e21 up, so the text differs there, though it reads back as the same value.
- `JSON.parse` rounds each number literal to a double: `1e400` becomes Infinity, and digits beyond the 17th significant one are lost. `Numbers.ParseNumber` keeps the exact decimal. The round trips are unaffected, because every number the model writes is read back as the same decimal.
- Text is a sequence of Unicode scalar values. Lone surrogates cannot occur: `encodeURIComponent` throws on them and this model has none. A JSON `\u` escape that names a lone surrogate is rejected by the model's parser, whereas `JSON.parse` accepts it.
- Json.Get: returns the last member with a key, as `JSON.parse` keeps the last duplicate. The JavaScript property order for objects with integer-like keys is not modelled. Members keep their text order.
- SettingsJson.FromJson, App.AddressOf: a token made elsewhere can carry keys beyond the fourteen fields, or the fields in another order. The page keeps such an object as it is: `update`'s spread (src/components/ControlsPanel.tsx:9) keeps the extra keys and the key order, and the address (src/App.tsx:30-32) and the snippet (src/App.tsx:37) write them back. The model reads a record with `FromJson`, which drops the extra keys, so `AddressOf` and `AppSnippet` write the fourteen fields in declaration order. The model does not promise that such a token survives a reload unchanged. It does promise this for tokens the page made itself (`App.AddressToken`).
- SettingsJson.SortedKeys: writes every word-style key in ascending order. JavaScript does so only for array-index keys, which are below 2^32 - 1. Larger keys keep insertion order, but the model sorts them too.
- The other controls (font, size, spacing, gradient, toggles) are `update` with a one-field patch. Only `Controls.Update` models them. The numeric inputs' `Number(e.target.value)` conversion is not modelled.
- The `min`/`max` bounds of the size input are browser hints that the code does not enforce. They are not modelled.
- tailwind.config.ts is not part of this model.

## Findings

| source | as written | input that shows it | evidently intended | confidence | as-written member | corrected member |
|---|---|---|---|---|---|---|
| src/utils/embed.ts:13, src/App.tsx:15-17 | `fromBase64Config` returns whatever `JSON.parse` yields, and `init` uses any truthy value as the settings | `?config=e30=`, the token of `{}`: the page starts with an object that has no `text`, so `text.split` fails while rendering | a value that is not a settings record falls back to the defaults, like any other bad token | high (not executed) | App.ShapelessTokenAccepted | App.InitialSettings |
