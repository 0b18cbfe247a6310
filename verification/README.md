# pixelflut.rs in Dafny

A model of the text side of the `pixelflut-rs` server, a Pixelflut server where
clients draw on a shared canvas by sending lines such as `PX 10 20 ff0000`.
The modelled parts are:

- the colour and pixel codec of `src/pixel.rs`:
  - `Display` for `Color` and `Pixel`;
  - `FromStr` for `Color` and `Pixel`;
  - the error variants `ParseColorError` and `ParsePixelError`;
- the command loop of `process` in `src/server.rs`, written as a pure fold over the
  lines of one connection, together with `HELP`, `ServerError::UnknownCommand` and
  `Display for Size`;
- the `Size` value of `src/grid.rs`;
- the in-memory `VecGrid` of `examples/vec_grid.rs`.

Modules, one per source concept:

| file | module | models |
|---|---|---|
| `wrappers.dfy` | `Wrappers` | `Option` and `Result` |
| `numeric.dfy` | `Numeric` | `u8`, `u32`, Rust's `from_str_radix` for unsigned types, and `{}` / `{:02x}` formatting |
| `text.dfy` | `Text` | `str::split_whitespace` over Rust's Unicode `char::is_whitespace`, and space-joined words |
| `pixel.dfy` | `Pixels` | `Color`, `Coordinate`, `Pixel`, their display and their parsers |
| `grid.dfy` | `Grid` | `Size` |
| `server.dfy` | `Server` | the per-line decision of `process` and the loop over lines |
| `vec_grid.dfy` | `VecGrids` | `VecGrid::new`, `size`, `draw`, `fetch`, and the drawing task as a fold of `draw` |
| `unit_cases.dfy` | `UnitCases` | the `#[test]` functions of `src/pixel.rs` and `src/server.rs` |

One connection is modelled as `Process(lines, size)`. Its result is an
`Outcome`, which holds:

- the effects the loop performed, in order:
  - `Forward(px)` is a send on the drawing channel;
  - `Reply(text)` is a socket write;
- the loop's `Result`.

`Process` is `Run(Decide(lines, size))`. `Decide` makes one `Dispatch` decision per
line. `Run` performs the decisions in order and stops at the first `Stop`.

Integers are unbounded in Dafny. The Rust widths appear as the subset types `u8` and
`u32`, and the overflow check of `from_str_radix` is written out. Parsing follows
Rust's `from_str_radix` for unsigned types:

- an empty string is `Empty`;
- a lone `+` or `-` is `InvalidDigit`;
- one leading `+` is accepted;
- digits are read left to right;
- the first bad digit gives `InvalidDigit`, and the first step past the maximum gives
  `PosOverflow`.

Because each colour channel goes through `from_str_radix`, a colour such as
`+f+f+f` is accepted (`Pixels.PlusSignAccepted`).

The program's own help text and its code disagree in two places; the model
follows the code:

- The `HELP` text (src/server.rs:16-21) advertises `PX <x> <y>` as a query that
  answers with the pixel's colour. The code has only a `todo` comment for it
  (src/server.rs:96), and such a line ends the connection with `UnknownCommand`
  (`Server.QueryIsUnknown`).
- The `HELP` text lists `SIZE` and `HELP` without arguments. The code ignores any
  tokens after them.

The drawing task (src/server.rs:54-58) draws each received pixel as it arrives;
nothing reads the grid back to a connection.

## Model

| member | source | states |
|---|---|---|
| Numeric.Accumulate | src/pixel.rs:95-103 | the digit loop accepts exactly the all-digit strings whose value fits, with that value; it reports `InvalidDigit` exactly when some character is not a digit while every digit before it is and their value fits (`BadDigitAt`), and `PosOverflow` exactly when some all-digit prefix already exceeds the maximum (`OverflowAt`); it never reports `Empty` |
| Numeric.WitnessesExclusive | src/pixel.rs:95-103 | the digit loop has one way to end: a bad digit rules out an overflowing prefix and a complete digit string, and an in-range digit string rules out an overflowing prefix |
| Numeric.FromStrRadix | src/pixel.rs:95-103 | `Empty` exactly for the empty string; `Ok` exactly when the text after one optional `+` is a non-empty digit string whose value fits, and then the value is that number; `InvalidDigit` exactly for a lone `+` or a bad digit (after the optional `+`) reached while in range, so a lone `+` or `-` is `InvalidDigit`; `PosOverflow` exactly when a digit prefix after the optional `+` exceeds the maximum |
| Numeric.ParseU32 | src/pixel.rs:39-40 | a coordinate parses as a `u32` exactly when, after one optional `+`, it is a non-empty decimal digit string of value at most 4294967295, and gives that value; the error is `Empty` exactly for empty text, `PosOverflow` exactly for an overflowing digit prefix, `InvalidDigit` otherwise |
| Numeric.ParseHexU8 | src/pixel.rs:94-104 | a channel group parses as a `u8` exactly when, after one optional `+`, it is a non-empty hex digit string (either case) of value at most 0xff, and gives that value; the errors are split as for `ParseU32` |
| Numeric.Decimal | src/pixel.rs:23 | `{}` of a number is a non-empty decimal digit string whose value is the number, without a leading zero unless it is `0` |
| Numeric.Hex2 | src/pixel.rs:84-85 | `{:02x}` of a byte is exactly two lower-case hex digits whose value is the byte |
| Numeric.DecimalRoundTrip | src/pixel.rs:38-40 | parsing the decimal display of any `u32` as a `u32` gives it back |
| Numeric.Hex2RoundTrip | src/pixel.rs:94-98 | parsing the two-digit hex display of any byte with `u8::from_str_radix(_, 16)` gives it back |
| Numeric.TwoHexDigitsFit | src/pixel.rs:95-103 | a two-character channel group can fail only with `InvalidDigit`, never with an overflow |
| Text.Tokens | src/pixel.rs:31 | `split_whitespace` yields non-empty tokens that contain no whitespace; the tokens of ASCII text are ASCII (that each token is a whole whitespace-free run is `Text.TokensOfSpread`) |
| Text.TokensKeepText | src/pixel.rs:31 | the tokens, concatenated, are exactly the text with its whitespace removed |
| Text.TokensOfJoin | src/pixel.rs:21-31 | splitting whitespace-free words joined by single spaces, followed by any whitespace, gives back exactly those words |
| Text.TokensAfterBlank | src/pixel.rs:31 | whitespace in front of a text produces no token |
| Text.TokensOfSpread | src/pixel.rs:31 | whitespace-free words separated by any non-empty runs of whitespace, with any whitespace before and after, split back into exactly those words: a token is a maximal whitespace-free run, never a piece of one |
| Pixels.FormatColor | src/pixel.rs:81-88 | the display of a colour is 6 characters without alpha and 8 with alpha, all lower-case hex digits |
| Pixels.HexPair | src/pixel.rs:94-104 | `u8::from_str_radix(_, 16)` on two characters succeeds exactly when they are a hex digit or `+` followed by a hex digit, fails only with `InvalidDigit`, and gives the two-digit value, or the one digit's value after `+` |
| Pixels.Channel | src/pixel.rs:94-104 | one channel group of two characters is accepted exactly when it is a hex digit or `+` followed by a hex digit; its value is the two digits' value, or the one digit's after `+`; a rejected group is `ParseInt(InvalidDigit)` |
| Pixels.ColorGroups | src/pixel.rs:92-106 | a six- or eight-character colour is accepted exactly when each of its groups is, its channels are those groups' values in order, alpha present exactly for eight characters, and a rejected colour is `ParseInt(InvalidDigit)` |
| Pixels.GroupsCover | src/pixel.rs:92-106 | every group of a colour is accepted exactly when each character is accepted at its place: `+` or a hex digit at an even index, a hex digit at an odd one |
| Pixels.ParseColor | src/pixel.rs:90-108 | `WrongSize` exactly when the length is neither 6 nor 8; at length 6 or 8 the text is accepted exactly when every even-index character is `+` or a hex digit and every odd-index one a hex digit, and the only error is `ParseInt(InvalidDigit)`; each channel is its group's `u8::from_str_radix(_, 16)` value; alpha is present exactly when the length is 8 |
| Pixels.ColorRoundTrip | src/pixel.rs:81-108 | parsing the display of any colour returns that colour, alpha presence included |
| Pixels.ColorCanonical | src/pixel.rs:81-108 | any all-hex colour text of length 6 or 8, in either case, parses, and displaying the result gives the same text in lower case |
| Pixels.PlusSignAccepted | src/pixel.rs:94-98 | the colour `+f+f+f` parses as `rgb(0x0f, 0x0f, 0x0f)` |
| Pixels.Rgb | src/pixel.rs:67-69 | `Color::rgb` keeps the three channels, has no alpha, and displays as the three channels' hex pairs |
| Pixels.Rgba | src/pixel.rs:71-78 | `Color::rgba` keeps the four channels and displays as their four hex pairs, alpha last |
| Pixels.NewPixel | src/pixel.rs:16-18 | `Pixel::new` keeps the coordinates and colour, and its display splits into `PX`, the decimal x, the decimal y and the colour display |
| Pixels.DoubleSignRejected | src/pixel.rs:94-98 | a group may carry only one sign: `ff++ff` is `ParseInt(InvalidDigit)` |
| Pixels.FormatPixel | src/pixel.rs:21-25 | the display of a pixel is ASCII text |
| Pixels.PixelTokens | src/pixel.rs:21-25 | the display of a pixel splits into exactly `PX`, the decimal x, the decimal y and the colour display |
| Pixels.ParsePixel | src/pixel.rs:27-50 | fewer than two tokens is `WrongFormat`; a bad x is reported before any missing token, so two tokens give `WrongFormat` exactly when x is good; then a bad y, then a missing colour (`WrongFormat`), then a bad colour; with good fields, exactly four tokens give the pixel they spell and more give `WrongFormat`; success implies four tokens whose fields parse to the pixel; no `ParseInt` error is `Empty` |
| Pixels.PixelRoundTrip | src/pixel.rs:21-50 | parsing the display of any pixel returns that pixel |
| Pixels.TrailingWordRejected | src/pixel.rs:44-45 | a fifth word after a well-formed pixel gives `WrongFormat` |
| Pixels.MissingColorRejected | src/pixel.rs:38-41 | `PX x y` with valid coordinates and no colour gives `WrongFormat` |
| Pixels.FirstTokenIgnored | src/pixel.rs:33-36 | two lines whose tokens agree after the first parse the same way: the first token is never read |
| Grid.Xy | src/grid.rs:13-15 | `xy` returns the pair that builds the same size again |
| Grid.NewSize | src/grid.rs:9-11 | `Size::new` keeps any width and height as given, zero included |
| Grid.XyOfNewSize | src/grid.rs:9-15 | `Size::new(x, y).xy()` is exactly `(x, y)` |
| Server.FormatSize | src/server.rs:110-115 | the size display is ASCII, ends with a newline, and splits into exactly `SIZE`, the decimal width and the decimal height |
| Server.SizeReplyReadable | src/server.rs:110-115 | reading the size display back gives `SIZE` and the width and height as `u32` values |
| Server.HelpText | src/server.rs:16-21 | the help reply is five lines, each tagged `HELP ` at the start and ended by a newline |
| Server.Dispatch | src/server.rs:92-104 | a line is an unknown command exactly when it is blank, or a `PX` line without exactly three more tokens, or its verb is none of `PX`, `SIZE`, `HELP`; a `PX` line with three more tokens forwards the pixel the whole line parses to, or stops with that parse error, which is never `WrongFormat`; a `SIZE` or `HELP` line, whatever follows the verb, replies with the size text or the help text; only `PX` lines forward and never reply |
| Server.PixelLineForwards | src/server.rs:94-97 | a `PX` line continues exactly when the pixel parser accepts it, and then forwards the parsed pixel, however the line is spaced or spelled |
| Server.QueryIsUnknown | src/server.rs:95-98 | any three-token `PX` line (the query form) stops the connection with `UnknownCommand` |
| Server.DrawLineForwards | src/server.rs:94-97 | the display of any pixel, sent as a line, forwards exactly that pixel |
| Server.Run | src/server.rs:90-107 | the loop performs the effects of the decisions in order until the first `Stop`; with no `Stop` every decision contributes its effect and the result is `Ok`; otherwise the error is that of the first `Stop`, after the effects of all decisions before it |
| Server.Process | src/server.rs:81-108 | the same, stated over the lines of one connection and the per-line decision |
| Server.ProcessAppend | src/server.rs:90-105 | after a prefix of lines handled without error, the remaining lines are handled as if the connection had started there, and the effects are appended |
| Server.NothingAfterFailure | src/server.rs:90-105 | once a line is rejected, nothing that follows changes the outcome |
| Server.DrawingSession | src/server.rs:90-107 | a connection that sends only pixel displays ends with `Ok`, forwards every pixel in order, and is sent no text |
| VecGrids.New | examples/vec_grid.rs:23-30 | a new grid has `x` columns of `y` cells each, all black |
| VecGrids.GridSize | examples/vec_grid.rs:34-36 | the reported size is the shape of the frame: as many columns as its width, each as long as its height |
| VecGrids.Draw | examples/vec_grid.rs:38-45 | an in-bounds draw sets exactly its own cell and keeps the size and shape; an out-of-bounds draw changes nothing |
| VecGrids.Fetch | examples/vec_grid.rs:47-57 | `fetch` returns a pixel exactly for in-bounds coordinates, and the pixel holds the stored colour |
| VecGrids.FetchAfterNew | examples/vec_grid.rs:23-57 | a new grid reports its construction size and fetches black inside it and nothing outside |
| VecGrids.FetchAfterDraw | examples/vec_grid.rs:34-57 | after a draw the size is unchanged, the drawn in-bounds coordinate fetches the new colour, and every other coordinate fetches what it did before |
| VecGrids.DrawAll | src/server.rs:54-58 | drawing a sequence of pixels keeps the grid well-shaped and its size unchanged |
| VecGrids.FetchAfterDrawAll | src/server.rs:54-58 | after drawing a sequence of pixels, each in-bounds cell holds the colour of the last pixel drawn there, or its old colour if none was |
| UnitCases.DisplaySize | src/server.rs:121-125 | `Size::new(1024, 768)` displays as `SIZE 1024 768\n` |
| UnitCases.DisplayColorRgb | src/pixel.rs:135-143 | the three RGB display cases of the tests |
| UnitCases.DisplayColorRgba | src/pixel.rs:145-153 | the three RGBA display cases of the tests |
| UnitCases.FromStrRgb | src/pixel.rs:157-158 | `ff0f00` parses as `rgb(0xff, 0x0f, 0x00)` |
| UnitCases.FromStrRgba | src/pixel.rs:159-160 | `ff0f00f0` parses as `rgba(0xff, 0x0f, 0x00, 0xf0)` |
| UnitCases.FromStrWrongSize | src/pixel.rs:161-162 | `000000f` is `WrongSize` |
| UnitCases.DisplayPixel | src/pixel.rs:120-123 | `Pixel::new(1024, 768, rgb(0x00, 0xff, 0x00))` displays as `PX 1024 768 00ff00` |
| UnitCases.FromStrPixel | src/pixel.rs:127-128 | `PX 1024 768 ff0f00` parses as that pixel |
| UnitCases.FromStrPixelTrailing | src/pixel.rs:129-130 | `PX 1024 768 ff0f00 hallo` is `WrongFormat` |
| UnitCases.FromStrPixelShort | src/pixel.rs:131-132 | `PX 1024 768` is `WrongFormat` |

## Left out

- The TCP listener, the accept loop, task spawning and logging (src/server.rs:46-78) are network and runtime plumbing. `Process` models one connection.
- The `mpsc` channel and the spawned drawing task (src/server.rs:52-58) are concurrency. A send is a `Forward` effect. The task is `VecGrids.DrawAll` over the forwarded pixels. Interleaving between connections is not modelled.
- I/O errors are not modelled:
  - reading a line (`next_line().await?`);
  - writing a reply;
  - sending on the channel.
- `write` (not `write_all`) may write only part of a reply. A `Reply` effect stands for the whole text.
- The size text is computed once when the server starts. `Process` takes the `Size` and formats it for each reply, which gives the same text.
- `Server::new` and `Server::start` hold only configuration (address, port, grid).
- The `Grid` trait (src/grid.rs:18-21) declares behaviour without defining any. The model keeps the one implementation, `VecGrid`, with its own signatures.
- `examples/println_grid.rs` only prints, and `src/lib.rs` holds documentation only. Neither is part of this model.
- The `Display` messages of the error types are not modelled. Errors are values of `ColorError`, `PixelError` and `ServerError`.
- Pixels.ParseColor: requires ASCII text. The source measures and slices a colour by UTF-8 bytes, and `&s[0..2]` panics when a boundary falls inside a character. The behaviour on non-ASCII colour text is not modelled.
- Pixels.ParsePixel, Server.Dispatch, Server.Process: these require the whole line to be ASCII, though only the colour token needs it for `ParseColor`. A line whose tokens are separated by non-ASCII whitespace, such as `PX\u{3000}1 2 ff0000`, is outside these contracts. `Text.Tokens` itself follows Rust's full Unicode whitespace set.
- `ParseIntError` has more kinds in Rust (`NegOverflow`, `Zero`). They cannot arise for the unsigned, non-`NonZero` types parsed here, so `IntErrorKind` has only `Empty`, `InvalidDigit` and `PosOverflow`.
