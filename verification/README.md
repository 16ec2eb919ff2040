# gimp-repaint, modelled in Dafny

`gimp-repaint` recolours named layers of a GIMP document and flattens the
result into one image. Its own logic is in `main.py`:

- a colour-list parser: `split_str` cuts a `:`-separated argument into
  non-empty tokens, and `hex2rgba` turns one token into an RGBA 4-tuple. It
  strips every leading `#`. It then accepts 3, 6 or 8 hex digits and rejects
  any other length. `hexs2rgba` maps `hex2rgba` over the tokens;
- `recolor_layer`, which sets every pixel of a layer's surface to one colour;
- the main pass. It rejects an empty colour list. It then walks the document's
  layers in order and recolours those named `Repaint`, `Repaint BLU` or
  `Repaint RED` (`LAYER_NAMES`), drawing colours from an endless cycle over
  the parsed list.

The Dafny modules follow those parts:

| file | module | models |
|---|---|---|
| wrappers.dfy | `Wrappers` | `Option`/`Result`. `MapAll` converts a list in order and stops at the first failure, as `tuple(map(f, xs))` does when `f` raises |
| hex.dfy | `Hex` | `int(text, 16)` on ASCII hex digits, plus a formatter (`ToHex`) as its inverse |
| tokens.dfy | `Tokens` | `str.split(':')`, `':'.join`, and `split_str` |
| colors.dfy | `Colors` | `RGBA`, `lstrip('#')`, `hex2rgba`, `hexs2rgba`, and formatters that are the parser's inverse |
| surface.dfy | `Surface` | a layer's pixel surface and `recolor_layer`, both as a pure function and as a fill of an `array2` |
| cycle.dfy | `Cycle` | `itertools.cycle`, seen through the first `k` values it yields |
| repaint.dfy | `Repaint` | `LAYER_NAMES`, the empty-list check and the select-and-cycle pass, both as intended and as written |

Errors are values, not exceptions:

- `ParseError.BadLength(digits)` is the `ValueError(hex)` for an unsupported
  length. It carries the digits left after the hashes.
- `ParseError.NotHex(literal)` is the `ValueError` from `int` on the first
  channel literal that is not hex. Literals are tried left to right.
- `RunError.NoColors` is the empty-list check at main.py line 66.
- `RunError.NotAnIterator` is the `TypeError` discussed under Findings.

Parsing happens before the empty check, because the argument parser calls
`hexs2rgba`. So a malformed token wins over an empty list.

Two details of the code decide edge cases:

- `hex2rgba` strips every leading `#` (main.py line 21), not just one. The
  help text at line 55 says the same: "optional preceding "#"s".
- `hexs2rgba` itself accepts an argument with no tokens and returns no
  colours. The run rejects that empty list afterwards, at line 66.

## Model

| member | source | states |
|---|---|---|
| Wrappers.MapAll | main.py:34-35 | Converting a list succeeds exactly when every element converts. Then it yields one converted value per element, in order. Otherwise the error is that of the first element that fails, and all elements before it convert |
| Hex.DigitsValue | main.py:24-29 | The value of a string of hex digits is below 16 to the power of its length |
| Hex.ParseInt16 | main.py:24-29 | `int(s, 16)` succeeds exactly on non-empty strings of hex digits, and the value is below 16 to the power of the length |
| Hex.ParseToHex | main.py:24-29 | Parsing a number formatted in `width` hex digits gives the number back |
| Tokens.Split | main.py:17 | `s.split(':')` gives at least one piece, no piece contains `:`, and joining the pieces with `:` rebuilds `s` exactly |
| Tokens.SplitJoin | main.py:17 | Joining separator-free pieces with `:` and splitting again gives the same pieces |
| Tokens.SplitStr | main.py:16-17 | No token of `split_str` is empty or contains `:` |
| Tokens.SplitStrKeepsCharacters | main.py:16-17 | The tokens, concatenated, are the input with every `:` removed, so `split_str` loses only separators and keeps the order |
| Tokens.SplitStrJoin | main.py:16-17 | For non-empty, separator-free tokens, `split_str` of their `:`-join gives the same tokens back |
| Tokens.SplitStrOnlySeps | main.py:16-17 | An argument made only of `:`, or the empty one, has no tokens |
| Tokens.SplitStrExamples | main.py:16-17 | `""` and `":::"` have no tokens; leading, doubled and trailing separators around two tokens are dropped |
| Tokens.SplitStrAppend | main.py:16-17 | For every `a` and `b`, the tokens of `a + ":" + b` are the tokens of `a` followed by those of `b`. So a separator only ends a token, and doubled, leading or trailing separators add no token |
| Tokens.SplitStrSingle | main.py:16-17 | A non-empty string without `:` is exactly one token, itself |
| Tokens.SplitStrCases | main.py:16-17 | `split_str` on every string: no `:` gives no token (empty input) or the input itself; otherwise, for any `:` at index i, the tokens are those before i followed by those after it |
| Colors.StripHashesSpec | main.py:21 | `StripHashes`, the model of `lstrip('#')`, returns a suffix of the token. Every character cut off is `#`, and the result does not start with `#`, so all leading hashes go |
| Colors.StripHashesPrefix | main.py:21 | Any number of hashes in front of digits not starting with `#` is removed, and nothing else |
| Colors.Hex2Rgba | main.py:20-31 | `hex2rgba` succeeds exactly when the digits after the hashes are 3, 6 or 8 hex digits. Any other length is `BadLength` carrying those digits. Every colour it returns has channels below 256 |
| Colors.Hex2RgbaShort | main.py:24-25 | For three hex digits, each colour channel is the value of one digit, in [0, 15], not scaled. Alpha is 255 |
| Colors.Hex2RgbaSix | main.py:26-27 | For six hex digits, the channels are the values of the three digit pairs (sixteen times the first digit plus the second). Alpha is 255. Every channel is below 256 |
| Colors.Hex2RgbaEight | main.py:28-29 | For eight hex digits, the four channels are the four digit pairs in order, so alpha comes from digits 6 and 7. Every channel is below 256 |
| Colors.Hex2RgbaOutcome | main.py:24-29 | Adds to `Colors.Hex2Rgba` which error a rejected token gets. For 3, 6 or 8 digits with a non-hex character, the error names the first channel literal `int` rejects, in the tuple's left-to-right order, and every literal before it is hex |
| Colors.Hexs2Rgba | main.py:34-35 | `hexs2rgba` succeeds exactly when `hex2rgba` accepts every token of `split_str`. Then the i-th colour is the i-th token's colour, with channels below 256, one colour per token |
| Colors.ShortFormExample | main.py:24-27 | `#fff` is (15, 15, 15, 255), not white; `##ffffff` is white; the two spellings differ |
| Colors.AlphaExample | main.py:28-29 | `ff000080` is (255, 0, 0, 128) |
| Colors.BadLengthExamples | main.py:30-31 | `12345`, `#1` and `#` are rejected as `BadLength` with `12345`, `1` and the empty string |
| Colors.NotHexExample | main.py:26-27 | `xyz123` is rejected on its first literal, `xy` |
| Colors.ParseFormatRgba | main.py:20-31 | Parsing the eight-digit spelling of a byte-sized colour gives the colour back, with any number of leading hashes |
| Colors.ParseFormatShort | main.py:24-25 | Parsing the three-digit spelling of an opaque colour with channels below 16 gives the colour back |
| Colors.Hexs2RgbaOutcome | main.py:34-35 | Adds to `Colors.Hexs2Rgba` the acceptance condition in terms of each token's digits: 3, 6 or 8 hex digits after the hashes. On failure, the error is that of the first failing token, and every token before it parses |
| Colors.Hexs2RgbaEmpty | main.py:34-35 | `""` and `":::"` parse to an empty list, not an error |
| Colors.ParseFormatList | main.py:34-35 | Formatting a list of byte-sized colours as `:`-separated tokens and parsing it gives the same list back |
| Colors.TwoColorsExample | main.py:34-35 | `#ff0000:#00ff00` parses to red, then green |
| Surface.Filled | main.py:38-43 | The surface `recolor_layer` leaves behind is well formed, has the original's width and height, and every pixel in it is the colour |
| Surface.RecolorLayer | main.py:38-43 | After the row-by-row fill of the pixel array, every pixel (x, y) with x below the width and y below the height is the colour. The array's contents equal the pure filled surface of its former contents |
| Cycle.CycleTake | main.py:73 | Drawing `k` values from `cycle(xs)` gives exactly `k` values. Which values they are is `Cycle.CycleTakeAt` |
| Cycle.CycleTakeAt | main.py:73 | The j-th value drawn from `cycle(xs)` is `xs[j mod len(xs)]` |
| Cycle.CycleTakePrefix | main.py:73 | Drawing more values from the cycle only extends the values drawn before |
| Cycle.CycleExample | main.py:73 | Two colours drawn five times come out as c0, c1, c0, c1, c0 |
| Repaint.LayerNamesExact | main.py:13 | The test `layer.name in LAYER_NAMES` at line 75 is exact, case-sensitive equality with `Repaint`, `Repaint BLU` or `Repaint RED`. `repaint`, `Repaint `, `Repaint red`, `Repaint GREEN` and the empty name do not match |
| Repaint.RecolorFrom | main.py:74-76 | The layer pass keeps every layer's name and position and leaves layers whose name is not in `LAYER_NAMES` untouched. It fills the layer at index i, if its name is in the list, with `colors[(matches before i) mod n]` |
| Repaint.RecolorFollowsCycle | main.py:73-76 | The k-th matching layer, counting from 0 in document order, is filled with the k-th colour the cycle yields |
| Repaint.AllMatchingFollowCycle | main.py:73-76 | When every layer matches, layer i gets the i-th colour drawn from the cycle |
| Repaint.Run | main.py:66-76 | A run succeeds exactly when the argument parses to a non-empty list. Then only listed layers change, and the k-th of them is filled with `colors[k mod n]` |
| Repaint.RunErrors | main.py:66-67 | A malformed token is reported before the empty check, and an argument with no tokens (`""`, `":::"`) is rejected as `NoColors` |
| Repaint.PassAsWritten | main.py:73-76 | The loop as written succeeds exactly when no layer's name is in `LAYER_NAMES`, and then returns the layers unchanged. Otherwise it fails with `NotAnIterator`, the `TypeError` of `next` on a tuple |
| Repaint.RunAsWritten | main.py:66-76 | The run as written reports a malformed token as `InvalidColor` with that token's error, and an argument without colours as `NoColors`. It succeeds exactly when the argument parses to a non-empty list and no layer matches, and then changes nothing. When the argument parses to a non-empty list and some layer matches, it fails with `NotAnIterator` |
| Repaint.PassAsWrittenNeverRecolors | main.py:74-76 | The loop as written gets through a document exactly when the intended pass would draw no colour for it (`MatchCount` is 0) |
| Repaint.AsWrittenVersusIntended | main.py:66-76 | On every input, the code as written and the intended run fail alike on a bad token or an empty list, and agree when no layer matches. When the intended run succeeds and a layer matches, the code as written raises `TypeError` instead |
| Repaint.DocumentExample | main.py:66-76 | For layers `Background`, `Repaint`, `Other`, `Repaint RED` and argument `#ff0000:#00ff00`, only the second and fourth layers change, to red and to green. The code as written fails |

## Findings

| source | as written | input that shows it | evidently intended | confidence | as-written member | corrected member |
|---|---|---|---|---|---|---|
| main.py:73-76 | `colors = cycle(args.colors)` is built, but the loop calls `next(args.colors)` on the tuple of parsed colours. A tuple is not an iterator, so Python raises `TypeError` at the first matching layer, and no layer is ever recoloured | layers `Background`, `Repaint`, `Other`, `Repaint RED` with colours `#ff0000:#00ff00` (`Repaint.DocumentExample`). In general, any document with a matching layer (`Repaint.PassAsWrittenNeverRecolors`) | `next(colors)`: the k-th matching layer gets `colors[k mod n]` | not executed | Repaint.RunAsWritten | Repaint.Run |

## Left out

- Command-line parsing with `argparse` (main.py:47-64): library glue with no logic of its own. The model takes the colour argument as a string.
- The default output path from `pathlib` `parent`/`stem` (main.py:69): its behaviour rests on pathlib's suffix rules, which are not part of this model.
- Loading the GIMP document, its `_layers` collection, `walkTree` and `render` (main.py:71, 74, 78): an external binary-format library. A layer is modelled as a name and a pixel surface, and a document as the sequence of its layers.
- PIL's pixel-access object and `image.save` (main.py:39, 79): foreign calls and file I/O. The surface is an `array2` in `Surface.RecolorLayer` and a pure `Image` elsewhere.
- Python `int(x, 16)` quirks: a sign, surrounding whitespace, underscores, a `0x` prefix and non-ASCII digits. Here only ASCII hex digits, in either case, are accepted. Anything else is a `NotHex` error, although Python would accept, for example, `+f` (15) or `-f` (-15) as a two-character channel, so the token `-fffff` would give a negative channel.
- Tokens.SplitStr: its own contract states only what each token looks like: non-empty and free of `:`. Which tokens it returns, and in what order, is stated by `Tokens.SplitStrAppend`, `Tokens.SplitStrSingle`, `Tokens.SplitStrCases` and `Tokens.SplitStrOnlySeps`, because a contract relating two calls cannot sit on one call.
- Channel values are natural numbers with no upper bound in the type. They are never negative because only ASCII hex digits are accepted: Python's `int('-f', 16)` is -15, and that case is left out, as above. The byte range is a proved property (`IsByteColor`), not a type.
