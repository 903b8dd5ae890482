# MIDI header parser of virtual-piano-elm, in Dafny

The web application virtual-piano-elm shows an on-screen piano keyboard that
plays a note per key press, and has a file input that hands the selected MIDI
file's bytes to a parser. Its TypeScript side has a small binary parser for
the first chunk of a Standard MIDI File, which is the 14-byte `MThd` header chunk described in the
"Header Chunks" section of the Standard MIDI Files 1.0 specification. The
parser has two parts, each modelled here as pure functions with lemmas about
them:

- `parseStringFromRawChars` turns bytes into a string, one character per byte.
- `parseByteArrayToNumber` folds a byte slice into a number, in one of two
  modes:
  - big-endian mode uses 8 bits per byte;
  - variable-length mode uses 7 bits per byte, with bit 7 masked off.
- `parseHeader` checks three things: the chunk id `MThd`, a chunk length of
  6, and the format. It chains the checks with `Either.chain`, so the first
  failure is reported. It then builds a `MidiHeader` from the format, the
  track count and the time division. These are the big-endian 16-bit fields
  at bytes 8, 10 and 12.
- The application's own `Result` (`Err`/`Ok`) and `Maybe` (`Just`/`Nothing`)
  types come with `map`, `flatMap`, `flatMapTo`, `withDefault`, `fromNull` and
  `fromUndefined`.

Modules:

- `JsRuntime` (`js_runtime.dfy`): the JavaScript semantics the code relies on.
  - `ToInt32` and the `<<` operator on integral Numbers, including 32-bit
    wrap-around and a shift count taken modulo 32.
  - `Uint8Array.prototype.slice`, with both ends clamped to the length.
  - The decimal rendering of a Number concatenated to a string, and reading
    it back.
- `ByteBits` (`byte_bits.dfy`): the `byte` type and `oneByte & HIGHBIT_MASK`.
  JavaScript's `&` on operands in [0, 2^31) is the bitwise AND of their
  binary expansions, written out digit by digit as `BitAnd`.
- `ParserUtils` (`parser_utils.dfy`): the byte helpers.
  - The `reduce` is modelled literally, as `Reduce`/`Reducer`. Each byte is
    shifted by its distance from the end of the array.
  - `Reduce` is proved equal to a positional sum and to a Horner form.
- `Parser` (`parser.dfy`): `MidiHeader` and `isFormatInRange`.
  - `parseHeader` is written as `ParseHeaderWith`, with the format check as a
    parameter.
  - `ParseHeader` uses the check as written. `ParseHeaderIntended` uses the
    check the type guard and the error message describe.
- `EitherMonad` (`either.dfy`): the `Left`/`Right` type of the fp-ts library,
  with `chain` and `map`. These are related to `Result.flatMap` and
  `Result.map`.
- `ResultMonad` (`result.dfy`) and `MaybeMonad` (`maybe.dfy`). The curried
  helpers are uncurried: `map(f)(r)` is `Map(f, r)`. A JavaScript value of type
  `A | null` is a `Nullable<A>`, and one of type `A | undefined` is an
  `Undefinable<A>`.

`parseByteArrayToNumber` is total in this model. The shift is modelled exactly
as JavaScript evaluates it, so the function needs no precondition. The lemmas
that compare it with positional arithmetic carry the length condition under
which no shift wraps (`ValidLength`):

- at most 4 bytes;
- in big-endian mode with exactly 4 bytes, a first byte below 0x80.

The header parser therefore needs no precondition either. Short input and
wrapped chunk lengths take the paths the code gives them.

## Model

| member | source | states |
|---|---|---|
| ParserUtils.ParseStringFromRawChars | src/parser/utils.ts:1-3 | the string has one character per byte, and character i has code byte i |
| ParserUtils.RawCharsRoundTrip | src/parser/utils.ts:1-3 | reading the character codes back gives the bytes, so distinct byte arrays give distinct strings |
| ParserUtils.RawByteValue | src/parser/utils.ts:5-11 | in variable-length mode, `oneByte & 0x7f` is the byte modulo 128; in big-endian mode the byte is used unchanged |
| ByteBits.MaskIsLowSevenBits | src/parser/utils.ts:5-11 | `oneByte & 0x7f` is the byte modulo 128 |
| ByteBits.LowMask | src/parser/utils.ts:11 | AND with k one-bits leaves a value below 2^k that, with the bits above position k, makes up the operand |
| ParserUtils.ParseByteArrayToNumber | src/parser/utils.ts:7-15 | on lengths where no shift wraps, the literal fold from seed 0 equals the Horner value of the digits, in both modes |
| ParserUtils.FoldIsHorner | src/parser/utils.ts:10-14 | the fold with index-dependent shifts equals the Horner form |
| ParserUtils.ReduceIsPositionalSum | src/parser/utils.ts:10-14 | from any index, the fold adds byte j times Radix^(n-1-j) for every later j |
| ParserUtils.PositionalSumIsHorner | src/parser/utils.ts:10-14 | the positional sum equals the Horner form |
| ParserUtils.ParseIsPositional | src/parser/utils.ts:10-14 | on valid lengths the result is the sum of b[i]·256^(n-1-i) (big-endian) or (b[i] mod 128)·128^(n-1-i) (variable-length) |
| ParserUtils.EmptyIsZero | src/parser/utils.ts:10-14 | the empty array decodes to 0 in both modes |
| ParserUtils.AppendStep | src/parser/utils.ts:11-12 | appending a byte multiplies by 256 and adds the byte, or multiplies by 128 and adds the byte's low seven bits |
| ParserUtils.HornerBounds | src/parser/utils.ts:11-12 | the Horner value of n digits lies in [0, Radix^n) |
| ParserUtils.ParseBounds | src/parser/utils.ts:11-12 | on valid lengths the result is below 256^n (big-endian) or 128^n (variable-length), and non-negative |
| ParserUtils.ReduceDependsOnRawBits | src/parser/utils.ts:10-13 | the fold reads each byte only through its masked value |
| ParserUtils.VlqIgnoresHighBit | src/parser/utils.ts:5-11 | in variable-length mode, flipping bit 7 of any byte leaves the result unchanged, at any length |
| ParserUtils.ReduceSkipsLeadingZero | src/parser/utils.ts:10-14 | the fold after a leading zero byte equals the fold of the rest |
| ParserUtils.LeadingZeroIgnored | src/parser/utils.ts:12 | a leading zero byte does not change the result, in either mode, at any length |
| ParserUtils.BigEndianExample6 | src/parser/utils.ts:10-14 | `[0x00, 0x06]` decodes to 6 |
| ParserUtils.BigEndianExample1 | src/parser/utils.ts:10-14 | `[0x00, 0x01]` decodes to 1 |
| ParserUtils.VlqExample0 | src/parser/utils.ts:10-14 | `[0x00]` decodes to 0 in variable-length mode |
| ParserUtils.VlqExample64 | src/parser/utils.ts:10-14 | `[0x40]` decodes to 64 in variable-length mode |
| ParserUtils.VlqExample128 | src/parser/utils.ts:5-14 | `[0x81, 0x00]` decodes to 128 in variable-length mode |
| ParserUtils.VlqExample8192 | src/parser/utils.ts:5-14 | `[0xC0, 0x00]` decodes to 8192 in variable-length mode |
| ParserUtils.VlqExample16383 | src/parser/utils.ts:5-14 | `[0xFF, 0x7F]` decodes to 16383 in variable-length mode |
| ParserUtils.ReduceOverZeros | src/parser/utils.ts:10-14 | zero bytes add nothing to the running number, whatever their shift |
| ParserUtils.ShiftIntoSignBit | src/parser/utils.ts:12 | a byte with bit 7 set, shifted left by 24, sets bit 31 and reads back as its value times 2^24 less 2^32 |
| ParserUtils.WrapAroundNegative | src/parser/utils.ts:12 | outside the valid lengths the shift wraps: a 4-byte big-endian array whose first byte is at least 0x80 and whose other bytes are 0 decodes to a negative number, its value less 2^32 |
| ParserUtils.WrapAroundFifthByte | src/parser/utils.ts:12 | in a 5-byte array the first byte is shifted by 32, which JavaScript reduces to 0: with four zero bytes after it, the array decodes to the first byte itself |
| JsRuntime.ToInt32 | src/parser/utils.ts:12 | the result is the value in [-2^31, 2^31) congruent to the input modulo 2^32, and is the input itself when the input is in range |
| JsRuntime.ShiftLeft | src/parser/utils.ts:12 | `x << k` is a signed 32-bit value, and equals x·2^k when that product fits |
| JsRuntime.Slice | src/parser/parser.ts:27-43 | `slice(start, end)` clamps both ends to the length; its elements are those from `start` on |
| JsRuntime.NumberToStringRoundTrip | src/parser/parser.ts:35-40 | the decimal text concatenated into a message reads back as the number |
| JsRuntime.NumberToStringInjective | src/parser/parser.ts:35-40 | distinct numbers render to distinct text |
| Parser.ChunkIdMatches | src/parser/parser.ts:27-28 | the decoded id equals "MThd" exactly when bytes 0..3 are 0x4D 0x54 0x68 0x64 |
| Parser.FieldDecodes | src/parser/parser.ts:37-43 | a two-byte field decodes big-endian to a value below 65536 |
| Parser.HeaderOutcome | src/parser/parser.ts:26-49 | the chain gives the chunk-id message, else the size message with the decoded length, else the format message with the decoded format, else the header built from the three fields |
| Parser.HeaderReadsFirst14Bytes | src/parser/parser.ts:27-43 | with either format check, the result depends only on the first 14 bytes |
| Parser.ParseHeaderReadsFirst14Bytes | src/parser/parser.ts:27-43 | `parseHeader(b)` equals `parseHeader` of the first min(14, length) bytes |
| Parser.BadChunkIdRejected | src/parser/parser.ts:27-45 | a wrong chunk id gives the chunk-id message, whatever follows it |
| Parser.BadSizeRejected | src/parser/parser.ts:32-46 | with the right id, a chunk length other than 6 gives the size message carrying that length |
| Parser.FormatCheckInverted | src/parser/parser.ts:22-24 | `isFormatInRange(f)` holds exactly when f is not 0, 1 or 2 |
| Parser.SupportedFormatRejected | src/parser/parser.ts:22-47 | with the right id and length, formats 0, 1 and 2 give the format message |
| Parser.ParseHeaderSucceeds | src/parser/parser.ts:42-48 | the result is `Right` exactly when the id is right, the length is 6 and the format is above 2; the header then holds the three big-endian fields, each below 65536 |
| Parser.MissingFieldIsZero | src/parser/parser.ts:37-43 | a field that starts past the end of the input decodes from an empty slice, to 0 |
| Parser.ShortInputNotRejectedForLength | src/parser/parser.ts:27-43 | there is no length check: input of at most 8 bytes is never accepted; once its id and size pass, it fails the format check with format 0; and an accepted short input has zero track count or division where those bytes are missing |
| Parser.BigEndianPair | src/parser/parser.ts:37-43 | a two-byte field is its first byte times 256 plus its second |
| Parser.LowByteOnly | src/parser/utils.ts:10-14 | four big-endian digits whose first three are zero decode to the last digit |
| Parser.SmallHeaderSize | src/parser/parser.ts:32 | a chunk length whose three high bytes are zero is its low byte |
| Parser.TenByteHeaderAccepted | src/parser/parser.ts:26-49 | a 10-byte input with id "MThd", length 6 and format 3 is accepted, with track count and division 0 |
| Parser.Format0HeaderFields | src/parser/parser.ts:27-43 | the well-formed format-0 header with one track and division 96 has the right id, length 6 and those fields |
| Parser.Format0HeaderRejected | src/parser/parser.ts:22-40 | as written, that header is rejected with the message saying 0 is a valid format |
| Parser.ParseHeaderIntendedSucceeds | src/parser/parser.ts:22-48 | with the intended check, parsing succeeds exactly for formats 0, 1 and 2 with the right id and length, the header then holds the three fields, and a larger format gives the format message |
| Parser.Format0HeaderAcceptedIntended | src/parser/parser.ts:22-40 | with the intended check, that header is accepted as format 0, one track, division 96 |
| Parser.MessagesDistinct | src/parser/parser.ts:30-40 | the chunk-id, size and format messages never coincide, whatever numbers they carry |
| Parser.MessagesCarryTheValue | src/parser/parser.ts:35-40 | the text between the parentheses of the size or format message reads back as the offending value |
| EitherMonad.ChainIsFlatMap | src/parser/parser.ts:45-47 | `chain` is `Result.flatMap` with `Left` read as `Err` |
| EitherMonad.MapIsResultMap | src/parser/parser.ts:48 | `map` is `Result.map` with `Left` read as `Err` |
| EitherMonad.ChainLeftWins | src/parser/parser.ts:45-47 | a `Left` passes through `chain` unchanged, so the first failure is what the chain reports |
| EitherMonad.ChainAssociative | src/parser/parser.ts:45-47 | chaining twice equals chaining once with the composed continuation |
| ResultMonad.MapCases | src/monads/Result.ts:11-13 | `map(f)(Err e) == Err e` and `map(f)(Ok v) == Ok(f(v))` |
| ResultMonad.MapIdentity | src/monads/Result.ts:11-13 | mapping the identity changes nothing |
| ResultMonad.MapComposition | src/monads/Result.ts:11-13 | mapping g after f equals mapping their composition |
| ResultMonad.FlatMapLeftIdentity | src/monads/Result.ts:15-17 | `flatMap(f)(Ok a) == f(a)` |
| ResultMonad.FlatMapRightIdentity | src/monads/Result.ts:15-17 | `flatMap(Ok)(r) == r` |
| ResultMonad.FlatMapAssociative | src/monads/Result.ts:15-17 | `flatMap` is associative |
| ResultMonad.FlatMapErr | src/monads/Result.ts:15-17 | `flatMap(f)(Err e) == Err e` |
| ResultMonad.MapIsFlatMapOk | src/monads/Result.ts:11-17 | `map(f)` equals `flatMap` of `Ok` after `f` |
| ResultMonad.FlatMapToCases | src/monads/Result.ts:19 | `flatMapTo(next)(Ok a) == next` and `flatMapTo(next)(Err e) == Err e` |
| ResultMonad.WithDefaultRecovers | src/monads/Result.ts:21-23 | on an `Ok`, wrapping the extracted value in `Ok` gives the result back, so `withDefault` loses nothing of a success |
| ResultMonad.WithDefaultCases | src/monads/Result.ts:21-23 | `withDefault(d)(Err e) == d` and `withDefault(d)(Ok v) == v` |
| MaybeMonad.FromNullCases | src/monads/Maybe.ts:12-14 | `fromNull(null)` is `Nothing`, and a non-null value is wrapped in `Just` |
| MaybeMonad.FromUndefinedCases | src/monads/Maybe.ts:16-18 | `fromUndefined(undefined)` is `Nothing`, and any other value is wrapped in `Just` |
| MaybeMonad.FromNullRoundTrip | src/monads/Maybe.ts:12-14 | `fromNull` and reading `Nothing` as `null` are inverse to each other |
| MaybeMonad.FromUndefinedRoundTrip | src/monads/Maybe.ts:16-18 | `fromUndefined` and reading `Nothing` as `undefined` are inverse to each other |
| MaybeMonad.MapCases | src/monads/Maybe.ts:24-26 | `Nothing` maps to `Nothing`, and `Just v` maps to `Just f(v)` |
| MaybeMonad.MapIdentity | src/monads/Maybe.ts:24-26 | mapping the identity changes nothing |
| MaybeMonad.MapComposition | src/monads/Maybe.ts:24-26 | mapping g after f equals mapping their composition |
| MaybeMonad.FlatMapLeftIdentity | src/monads/Maybe.ts:28-30 | `flatMap(f)(Just a) == f(a)` |
| MaybeMonad.FlatMapRightIdentity | src/monads/Maybe.ts:28-30 | `flatMap(Just)(m) == m` |
| MaybeMonad.FlatMapAssociative | src/monads/Maybe.ts:28-30 | `flatMap` is associative |
| MaybeMonad.FlatMapNothing | src/monads/Maybe.ts:28-30 | `Nothing` stays `Nothing` under `flatMap` |
| MaybeMonad.WithDefaultFromNull | src/monads/Maybe.ts:12-34 | `withDefault(d)(fromNull(x))` is d when x is null and x otherwise |
| MaybeMonad.WithDefaultCases | src/monads/Maybe.ts:32-34 | `withDefault(d)(Nothing) == d` and `withDefault(d)(Just v) == v` |

## Left out

- `parse` (src/parser/parser.ts:51-55) is a placeholder. It uses `Result` and `Ok` without importing them, and calls the `MidiHeader` constructor with no arguments, so it has no behaviour to model. The `Midi` and `MidiTrack` classes it builds (src/parser/parser.ts:13-20) are left out with it.
- `fromNaN` (src/monads/Maybe.ts:20-22) depends on IEEE 754 NaN, and the model has no floating-point numbers.
- The TypeScript type guard `format is 0 | 1 | 2` on `isFormatInRange` is not enforced by the language, so `MidiHeader.format` is an `int` here. `Parser.ParseHeaderSucceeds` shows which values it can actually hold.
- Numbers are modelled as mathematical integers, and `ParserUtils.ParseByteArrayToNumber` adds exactly at every length. JavaScript's double addition agrees while the running sum stays below 2^53, which holds for every array of fewer than 2^22 bytes. Every value the header parser computes is an integer below 2^32, which an IEEE 754 double holds exactly. `JsRuntime.NumberToString` gives the decimal spelling only; the exponent notation JavaScript uses from 10^21 up does not arise.
- `String.fromCharCode(...charArray)` is modelled on its result. The engine's limit on the number of spread arguments is not modelled.
- The fp-ts `Either` library and ramda are not part of this model. Only the `chain` and `map` that `parseHeader` calls are modelled, as the library documents them. The unused `compose` import has no counterpart.
- The curried form of the monad helpers is uncurried. JavaScript object identity (`instanceof`, the shared `NOTHING` instance) becomes constructor matching.
- The variable-length mode does not find the terminating byte of a quantity, and neither does the model. Its caller passes an already delimited slice.
- The user interface, audio playback, routing, file reading, the Elm parser and its ports, and the build configuration are not part of this model.

## Findings

| source | as written | input that shows it | evidently intended | confidence | as-written member | corrected member |
|---|---|---|---|---|---|---|
| src/parser/parser.ts:22-24 | `isFormatInRange` returns `format < 0 \|\| format > 2`, which holds exactly outside 0..2, so `parseHeader` accepts only formats 3 to 65535 | the format-0 header `4D 54 68 64 00 00 00 06 00 00 00 01 00 60` is rejected with "got unknown MIDI file format (0). The only valid formats are 0, 1 and 2." | accept exactly formats 0, 1 and 2, as the type guard `format is 0 \| 1 \| 2` and the error message say | high (not executed) | Parser.Format0HeaderRejected | Parser.ParseHeaderIntendedSucceeds |
