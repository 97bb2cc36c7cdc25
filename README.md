# fastsnbt core in Dafny

This project models the two sequential halves of fastsnbt's sNBT
(stringified NBT) text codec and proves properties of them.

- **The literal parser** (`fastsnbt/src/parser.rs`) is a set of nom
  recognizers. Each maps an input to `Ok(rest, value)`, to a recoverable
  `Error`, or to a hard `Failure` that comes from `cut`. The model has the
  same three-way result (`Parser.IResult`) and the same `alt`/`opt`
  behaviour: only an `Error` lets the next alternative run.
  - Every combinator composition is a pure function over `string`: the
    booleans, `decimal`, the suffixed integers, the float grammar, the bare
    string and `parse_str`.
  - The hand-written `parse_escaped` loop is a `method` with a `while` loop.
    It is proved equal to a recursive reference decoder, `Parser.Unescape`.
    It returns a borrowed slice or an owned buffer, as Rust's `Cow` does.
- **The serializer** (`fastsnbt/src/ser/mod.rs`) writes into a sink and
  keeps an optional depth: `None` is compact output, `Some(n)` is pretty
  output at depth n.
  - `Ser.Serializer` is a class with the sink (`out`) and the depth
    (`indent`) as fields.
  - `Ser.ArraySerializer` and `Ser.CompoundSerializer` are the per-sequence
    and per-map state machines, with the source's `first`, `is_compound`,
    `has_first` and pending `key` fields.
  - Serde's generic dispatch becomes a closed `Ser.Value` datatype.
  - Each method is proved against a specification function (`Ser.Emit` and
    the functions below it). That function gives the exact text written for
    a value at a given depth, and whether serialization succeeded.

Four more modules hold properties that span both halves:
- `Numerals` has `itoa` and Rust's `str::parse` for signed integers.
- `RoundTrip` has the string and integer round trips from the serializer's
  output back through the parser.
- `Layout` covers which values serialize at all, and the exact compact and
  pretty layout of sequences, byte arrays and maps.
- `PrettyLayout` gives the exact pretty layout of sequences and maps of any
  length, and proves that for every value the pretty text is the compact
  text with line breaks and indentation inserted and each key's `:`
  widened to `: `.

## Model

| member | source | states |
|---|---|---|
| Numerals.Itoa | fastsnbt/src/ser/mod.rs:93-98 | `itoa` formatting: a leading `-` exactly for negative numbers, then only decimal digits, with no leading zero unless the number is 0, whose value is the magnitude |
| Numerals.DigitsValueOfNatText | fastsnbt/src/ser/mod.rs:93-98 | reading back the decimal digits that `itoa` writes for n gives n |
| Numerals.ParseSigned | fastsnbt/src/parser.rs:73 | Rust's `str::parse` for a signed width accepts exactly the texts of at most one sign followed by at least one digit whose value lies in [lo, hi], and returns that value (the sign applied to the digits' value) |
| Numerals.ParseSignedLenient | fastsnbt/src/parser.rs:73 | `str::parse` itself takes `+5`, `-0` and `007` (as 5, 0 and 7) and refuses `-` and `+-5`; the `decimal` recognizer, not the conversion, rules out such texts |
| Numerals.ParseSignedItoa | fastsnbt/src/parser.rs:73 | parsing `itoa(x)` gives back x exactly when x fits the width, and an error otherwise |
| Parser.Alt | fastsnbt/src/parser.rs:15-19 | nom's `alt`: a success of the first alternative is returned unchanged, a Failure stays a Failure, and only a recoverable Error lets the second alternative run, whose result is returned |
| Parser.TagNoCase | fastsnbt/src/parser.rs:127-131 | `tag_no_case` succeeds exactly when the input starts with the tag up to ASCII case; it then consumes exactly the tag's length and leaves the rest; it never fails hard |
| Parser.DigitRun | fastsnbt/src/parser.rs:136 | `digit1`/`digit0` take the longest run of ASCII digits |
| Parser.DigitRunPrefix | fastsnbt/src/parser.rs:136 | the digit run is exactly k long when the first k characters are digits and the next one is not |
| Parser.DigitRunAtLeast | fastsnbt/src/parser.rs:136 | the digit run is at least as long as any all-digit prefix |
| Parser.Decimal | fastsnbt/src/parser.rs:163-169 | `decimal` succeeds exactly when a digit follows the optional sign; what it consumes is a well-formed decimal lexeme and no longer prefix of the input is one; it never gives a Failure |
| Parser.SuffixedInt | fastsnbt/src/parser.rs:66-75 | what it consumes is a decimal, then one of the suffix letters, with a value `str::parse` accepts within range; never a Failure (acceptance: `ParserLemmas.SuffixedIntOfLexeme`) |
| Parser.ParseI8 | fastsnbt/src/parser.rs:66-75 | what it consumes is a decimal within [-128, 127] followed by `b` or `B` |
| Parser.ParseI16 | fastsnbt/src/parser.rs:77-86 | what it consumes is a decimal within the i16 range followed by `s` or `S` |
| Parser.ParseI32 | fastsnbt/src/parser.rs:88-90 | what it consumes is a decimal within the i32 range, with no suffix letter |
| Parser.ParseI64 | fastsnbt/src/parser.rs:92-101 | what it consumes is a decimal within the i64 range followed by `l` or `L` |
| Parser.Exp | fastsnbt/src/parser.rs:155-161 | an Error exactly when no `e`/`E` comes first; a Failure (from `cut`) exactly when no digits follow the `e` and its optional sign; otherwise it consumes a whole exponent |
| Parser.FloatNum | fastsnbt/src/parser.rs:145-153 | `float_num` never fails hard; what it consumes is a fractional mantissa (optional sign, then digits `.` optional digits, or `.` digits) and no longer prefix of the input is one; it is an Error exactly when no prefix of the input is one |
| Parser.ExpForm | fastsnbt/src/parser.rs:133-139 | the form optional sign, digits, exponent: what it consumes is such a lexeme and no longer prefix is one; a Failure exactly when an integer mantissa is followed by a dangling `e`/`E`; an Error only when no prefix is such a lexeme |
| Parser.FracForm | fastsnbt/src/parser.rs:140 | the form `float_num` then an optional exponent: what it consumes is such a lexeme and no longer prefix is one; a Failure exactly when a fractional mantissa is followed by a dangling `e`/`E`; an Error exactly when no prefix is such a lexeme |
| Parser.Float | fastsnbt/src/parser.rs:125-143 | `float` accepts only float lexemes (a special token in any case, or a numeric form); `inf`, `nan` and `-inf` are tried first, so on `infinity` and `-infinity` only the short token is consumed; otherwise the longest numeric lexeme is taken; a Failure exactly when a mantissa is followed by a dangling `e`/`E`, and an Error exactly when no special token, no dangling exponent and no numeric lexeme starts the input |
| Parser.ParseF32 | fastsnbt/src/parser.rs:103-112 | succeeds exactly when `float` succeeds and an `f`/`F` follows, which is consumed and the float lexeme returned; a Failure exactly when `float` fails hard, so an Error of `float` gives an Error |
| Parser.ParseF64 | fastsnbt/src/parser.rs:114-123 | succeeds exactly when `float` does, with the same lexeme; a following `d`/`D` is consumed when present; fails hard exactly when `float` does, so its Error and Failure are `float`'s |
| Parser.ParseBool | fastsnbt/src/parser.rs:62-64 | `true` or `false` exactly, case-sensitively, with no word-boundary check; an Error exactly when neither prefix is present |
| Parser.ClassRun | fastsnbt/src/parser.rs:59 | `alphanumeric1`/`is_a("_-.+")` take the longest run of their class |
| Parser.SimpleRun | fastsnbt/src/parser.rs:59 | `many1(alt(...))` takes the longest run of bare-string characters |
| Parser.ParseSimpleString | fastsnbt/src/parser.rs:58-60 | succeeds exactly when a bare-string character comes first; it consumes the maximal non-empty run of ASCII alphanumerics and `_-.+` |
| Parser.Unescape | fastsnbt/src/parser.rs:22-56 | the reference decoder: when it finds a closing quote, that quote is at the position it reports |
| Parser.EscapedResult | fastsnbt/src/parser.rs:22-56 | `parse_escaped` never fails hard, and on success its remainder starts at the closing quote |
| Parser.ParseEscaped | fastsnbt/src/parser.rs:22-56 | the imperative loop over `owned`, `start` and `skip` gives exactly the reference decoder's result: the owned or borrowed text and the remainder, or Error |
| Parser.Quoted | fastsnbt/src/parser.rs:16-17 | `delimited(char(q), parse_escaped(q), char(q))` succeeds exactly when the input opens with q and the body is closed by an unescaped q; the result is then the `Unescape` decoding (owned) or the body slice (borrowed) and the rest after the closing quote; never a Failure |
| Parser.ParseStr | fastsnbt/src/parser.rs:14-20 | a leading `"` or `'` decides the quoted alternative with that quote; a leading bare-string character gives the maximal simple run, borrowed; any other input is an Error; never a Failure, and owned only for a quoted form |
| ParserLemmas.UnescapeEscapedIffBackslash | fastsnbt/src/parser.rs:30-48 | the decoder reports an escape exactly when a `\` occurs before the closing quote; without one the text is the input up to the quote |
| ParserLemmas.EscapedBorrowsIffNoBackslash | fastsnbt/src/parser.rs:41-48 | `parse_escaped` borrows exactly when no `\` precedes the closing quote, and the borrowed text is the input up to that quote |
| ParserLemmas.SingleQuotedBorrowed | fastsnbt/src/parser.rs:14-20 | `'ab'` is read by the single-quoted alternative and borrowed |
| ParserLemmas.EscapedLetterDecodes | fastsnbt/src/parser.rs:14-56 | in `"a\nb"` the escape stands for the letter `n`, giving `anb`, owned |
| ParserLemmas.BareWord | fastsnbt/src/parser.rs:14-20 | for every non-empty word of bare-string characters and every tail that does not continue it, `parse_str` returns the word, borrowed, and leaves the tail |
| ParserLemmas.BareWordStops | fastsnbt/src/parser.rs:58-60 | `abc def` gives `abc`, borrowed, leaving ` def` |
| ParserLemmas.UnterminatedQuoteIsError | fastsnbt/src/parser.rs:51-54 | an unterminated quoted string is a recoverable Error of the whole `parse_str`, not a Failure |
| ParserLemmas.TrailingBackslashUnterminated | fastsnbt/src/parser.rs:31-38 | a trailing lone `\` never closes a quoted body |
| ParserLemmas.DecimalLeadingZero | fastsnbt/src/parser.rs:163-169 | on `0` followed by anything, `decimal` consumes only the `0` (so `007` leaves `07`) |
| ParserLemmas.DecimalTakesLexeme | fastsnbt/src/parser.rs:163-169 | `decimal` consumes a whole decimal lexeme when no digit follows it |
| ParserLemmas.I32LeavesSuffix | fastsnbt/src/parser.rs:88-90 | `parse_i32` leaves a suffix letter unconsumed (`5b` gives 5 and leaves `b`) |
| ParserLemmas.DecimalLexemeIsSignedDigits | fastsnbt/src/parser.rs:164-169 | every lexeme `decimal` recognizes is in the domain `str::parse` reads |
| ParserLemmas.SuffixedIntOfLexeme | fastsnbt/src/parser.rs:66-75 | every decimal lexeme, signed or not, followed by a suffix letter gives its value when in range and an Error otherwise, for every tail |
| ParserLemmas.I32OfLexeme | fastsnbt/src/parser.rs:88-90 | every decimal lexeme not followed by a digit gives its value when in the i32 range and an Error otherwise |
| ParserLemmas.PlusSignAccepted | fastsnbt/src/parser.rs:66-75 | `+5b` is 5 |
| ParserLemmas.NegativeZeroAccepted | fastsnbt/src/parser.rs:66-75 | `-0B` is 0 |
| ParserLemmas.PlusOutOfRange | fastsnbt/src/parser.rs:66-75 | `+128b` is an Error |
| ParserLemmas.I8OutOfRange | fastsnbt/src/parser.rs:66-75 | an out-of-range value (`128b`) is rejected through `map_res`, not clipped |
| ParserLemmas.DigitStartsNoToken | fastsnbt/src/parser.rs:127-131 | no special float token matches an input that starts with a digit |
| ParserLemmas.InfinityConsumesInf | fastsnbt/src/parser.rs:127-128 | `inf` is tried before `infinity`, so on `infinity`, in any case, `float` and `parse_f64` consume only three characters |
| ParserLemmas.PlainIntegerIsNotFloat | fastsnbt/src/parser.rs:132-141 | a plain digit run with no `.` and no exponent is not a float |
| ParserLemmas.MinusInfinityConsumesMinusInf | fastsnbt/src/parser.rs:130-131 | `-inf` is tried before `-infinity`, so on `-infinity` in any case only four characters are consumed, and `parse_f32` then finds no `f` |
| ParserLemmas.MantissaNotSpecial | fastsnbt/src/parser.rs:127-131 | no special token matches an input that starts with a numeric mantissa |
| ParserLemmas.DanglingExponentFails | fastsnbt/src/parser.rs:155-161 | any mantissa followed by `e`/`E`, an optional sign and no digit is a Failure of `float`, `parse_f32` and `parse_f64`, which no `alt`/`opt` recovers from |
| ParserLemmas.SignedDanglingExponentFails | fastsnbt/src/parser.rs:158-159 | `1e+x`: the sign is taken, then `cut(digit1)` fails hard |
| ParserLemmas.FractionDanglingExponentFails | fastsnbt/src/parser.rs:140 | `1.5e`: the fractional form with a dangling exponent fails hard too |
| ParserLemmas.TrailingPointIsFloat | fastsnbt/src/parser.rs:149 | digits followed by `.` with no fraction digits are a float |
| Ser.EscapeAppend | fastsnbt/src/ser/mod.rs:33-46 | escaping works character by character: it distributes over concatenation |
| Ser.EscapePlain | fastsnbt/src/ser/mod.rs:47-49 | a text with no `"` and no `\` is written unchanged |
| Ser.Serializer.Newline | fastsnbt/src/ser/mod.rs:59-67 | `newline` appends nothing in compact mode, and otherwise a line break and four spaces per level; the depth is unchanged |
| Ser.Serializer.PushIndent | fastsnbt/src/ser/mod.rs:69-71 | compact stays compact, and a pretty depth goes up by one; nothing is written |
| Ser.Serializer.PopIndent | fastsnbt/src/ser/mod.rs:73-75 | compact stays compact, and a pretty depth goes down by one, saturating at 0; nothing is written |
| Ser.Serializer.WriteEscapedStr | fastsnbt/src/ser/mod.rs:29-51 | the byte loop that copies runs between special characters appends `"`, the input with each `"` and `\` preceded by `\`, and `"` |
| Ser.Serializer.WriteInteger | fastsnbt/src/ser/mod.rs:93-145 | appends the decimal digits of the integer, then its suffix letter |
| Ser.Serializer.Serialize | fastsnbt/src/ser/mod.rs:89-283 | the dispatch over the value's shape appends exactly the specified text and returns the specified outcome; on success the depth is restored |
| Ser.Serializer.SerializePrimitive | fastsnbt/src/ser/mod.rs:89-205 | scalars get their fixed suffixes (`b`, `s`, none, `l`); chars, strings and unit variants take the quoted-string path; none, unit and unit struct are errors |
| Ser.Serializer.SerializeArray | fastsnbt/src/ser/mod.rs:169-175 | a sequence (or a byte buffer, with prefix `""`) driven through `ArraySerializer` appends the specified array text; on success the depth is the one from before the first element |
| Ser.Serializer.SerializeTypedArray | fastsnbt/src/ser/mod.rs:435-449 | a sentinel key's value is written through the model's stand-in for the typed-array emitter: the sequence emitter with the kind's prefix, accepting only a sequence or a byte buffer (the stand-in's rule, not the source's) |
| Ser.Serializer.SerializeCompound | fastsnbt/src/ser/mod.rs:261-271 | a map or struct driven through `CompoundSerializer` (key, value, ..., end) appends the specified compound text |
| Ser.ArraySerializer.constructor | fastsnbt/src/ser/mod.rs:292-303 | a new emitter has not written its first element |
| Ser.ArraySerializer.SerializeElement | fastsnbt/src/ser/mod.rs:309-325 | the first element writes `[`, goes one level deeper, then writes a newline, the prefix, a newline and the element; later ones write `,`, a newline and the element |
| Ser.ArraySerializer.End | fastsnbt/src/ser/mod.rs:327-336 | with no element it writes `[` + prefix + `]` at an unchanged depth; otherwise it goes one level back, then writes a newline and `]` |
| Ser.CompoundSerializer.constructor | fastsnbt/src/ser/mod.rs:394-403 | a new compound has no brace open, no entry and no pending key |
| Ser.CompoundSerializer.SerializeKey | fastsnbt/src/ser/mod.rs:409-417 | the key becomes the pending key; nothing is written |
| Ser.CompoundSerializer.SerializeValue | fastsnbt/src/ser/mod.rs:419-467 | without a pending key it fails with "value before key" and writes nothing; otherwise it consumes the key, writes `,` and a newline before every entry but the first (before the sentinel check), then either the typed array or the named value |
| Ser.CompoundSerializer.WriteNamedValue | fastsnbt/src/ser/mod.rs:450-465 | an ordinary key opens `{` and goes one level deeper only on first use, then writes the key verbatim, `: ` in pretty mode or `:` in compact mode, and the value |
| Ser.CompoundSerializer.End | fastsnbt/src/ser/mod.rs:469-478 | an open compound goes one level back, then writes a newline and `}`; with no entries it writes `{}`; with only sentinel entries it writes nothing |
| RoundTrip.HasSpecialIffQuoteOrBackslash | fastsnbt/src/ser/mod.rs:34 | a string needs escaping exactly when it contains `"` or `\` |
| RoundTrip.UnescapeOfEscape | fastsnbt/src/parser.rs:22-50 | decoding the escaped form of x up to a `"` gives back x, closes at the end of the escaped form, and reports an escape exactly when x needed one |
| RoundTrip.NoSpecialEscapesToItself | fastsnbt/src/ser/mod.rs:29-51 | a string with nothing to escape is written verbatim between the quotes |
| RoundTrip.StrRoundTrip | fastsnbt/src/parser.rs:14-20 | `parse_str` applied to `write_escaped_str(x)` and any trailing text returns x and leaves that trailing text; x is borrowed exactly when it holds no `"` and no `\` |
| RoundTrip.SerializedStrRoundTrip | fastsnbt/src/ser/mod.rs:165-167 | a serialized string parses back to itself with nothing left over, at any depth |
| RoundTrip.SerializedCharRoundTrip | fastsnbt/src/ser/mod.rs:160-163 | a serialized char parses back to the one-character string |
| RoundTrip.ItoaIsDecimalLexeme | fastsnbt/src/parser.rs:163-169 | every `itoa` output is a lexeme that `decimal` accepts, ending in a digit |
| RoundTrip.SuffixedIntOfItoa | fastsnbt/src/parser.rs:66-101 | `itoa(x)` plus a suffix letter parses back to x when x is within range, and is an Error otherwise |
| RoundTrip.I8RoundTrip | fastsnbt/src/ser/mod.rs:93-98 | every i8 serialized as digits plus `b` parses back with `parse_i8` to the same value, leaving any trailing text |
| RoundTrip.I16RoundTrip | fastsnbt/src/ser/mod.rs:100-105 | every i16 serialized as digits plus `s` parses back with `parse_i16` |
| RoundTrip.I32RoundTrip | fastsnbt/src/ser/mod.rs:107-111 | every i32 serialized as plain digits parses back with `parse_i32`, when no digit follows |
| RoundTrip.I64RoundTrip | fastsnbt/src/ser/mod.rs:113-118 | every i64 serialized as digits plus `l` parses back with `parse_i64` |
| RoundTrip.U8ReadBack | fastsnbt/src/ser/mod.rs:120-125 | a u8 parses back with `parse_i8` exactly when it is below 128; above that it is an Error |
| RoundTrip.U16ReadBack | fastsnbt/src/ser/mod.rs:127-132 | a u16 parses back with `parse_i16` exactly when it is below 2^15 |
| RoundTrip.U32ReadBack | fastsnbt/src/ser/mod.rs:134-138 | a u32 parses back with `parse_i32` exactly when it is below 2^31 |
| RoundTrip.U64ReadBack | fastsnbt/src/ser/mod.rs:140-145 | a u64 parses back with `parse_i64` exactly when it is below 2^63 |
| RoundTrip.U8MaxRefused | fastsnbt/src/ser/mod.rs:120-125 | u8 255 is written as `255b`, which `parse_i8` rejects |
| Layout.EmitOutcome | fastsnbt/src/ser/mod.rs:177-283 | serialization succeeds exactly on the serializable values (no none, unit, unit struct or data-carrying enum variant anywhere, and under sentinel keys only the shapes the stand-in for the typed-array emitter accepts), at every depth; the only failure is the unsupported-shape error |
| Layout.ArrayOutcome | fastsnbt/src/ser/mod.rs:309-336 | the sequence emitter succeeds exactly when every element is serializable |
| Layout.OpenedOutcome | fastsnbt/src/ser/mod.rs:309-325 | the elements written so far succeed exactly when each of them is serializable |
| Layout.CompoundOutcome | fastsnbt/src/ser/mod.rs:419-478 | a map or struct succeeds exactly when every entry is serializable |
| Layout.EntriesOutcome | fastsnbt/src/ser/mod.rs:419-467 | the entries written so far succeed exactly when each of them is serializable |
| Layout.EntryOutcome | fastsnbt/src/ser/mod.rs:434-466 | one entry succeeds exactly when it is serializable, through either the sentinel branch (judged by the typed-array stand-in) or the named branch |
| Layout.TypedOutcome | fastsnbt/src/ser/mod.rs:435-449 | under the model's stand-in for the typed-array emitter, a typed array succeeds exactly on a sequence of serializable values or a byte buffer |
| Layout.SameOutcomeInBothModes | fastsnbt/src/ser/mod.rs:53-56 | compact and pretty output agree on whether a value can be written |
| Layout.WrappersTransparent | fastsnbt/src/ser/mod.rs:181-216 | `Some` and newtype structs write their inner value unchanged; a unit variant writes its variant name as a quoted string |
| Layout.CompactOpened | fastsnbt/src/ser/mod.rs:309-325 | in compact mode the elements are `[`, the prefix and the element texts joined by `,` |
| Layout.CompactArray | fastsnbt/src/ser/mod.rs:309-336 | in compact mode a sequence is `[` + prefix + elements joined by `,` + `]`, and an empty one is `[` + prefix + `]` |
| Layout.EmptyArray | fastsnbt/src/ser/mod.rs:327-336 | an empty sequence is `[` + prefix + `]` at every depth |
| Layout.ByteValuesJoin | fastsnbt/src/ser/mod.rs:169-175 | each byte is written as a `u8`: its digits and `b` |
| Layout.CompactBytes | fastsnbt/src/ser/mod.rs:169-175 | in compact mode a byte buffer is `[`, the bytes as `Nb` joined by `,`, and `]` |
| Layout.PrettySingleton | fastsnbt/src/ser/mod.rs:313-336 | in pretty mode the first element is preceded by two newlines one level deeper, one before the prefix and one before the element, and `]` comes on a new line at the original depth |
| Layout.CompactNamedStep | fastsnbt/src/ser/mod.rs:427-465 | in compact mode an ordinary entry writes its separator, then `{` only if the compound is not open yet, then `key:value` |
| Layout.CompactRun | fastsnbt/src/ser/mod.rs:419-467 | in compact mode ordinary entries are `{` followed by the `key:value` pairs joined by `,` |
| Layout.CompactMap | fastsnbt/src/ser/mod.rs:419-478 | in compact mode a map of ordinary keys is `{`, the pairs joined by `,`, and `}` |
| Layout.EmptyMap | fastsnbt/src/ser/mod.rs:474-476 | an empty map or struct is `{}` at every depth |
| Layout.PrettySingleEntry | fastsnbt/src/ser/mod.rs:450-478 | in pretty mode a one-field struct is `{`, a newline one level deeper, the key, `: `, the value, a newline at the original depth and `}` |
| Layout.SentinelRun | fastsnbt/src/ser/mod.rs:427-449 | entries that are all typed arrays are the arrays joined by `,` and a newline at the unchanged depth, and open no brace |
| Layout.SentinelOnlyNoBraces | fastsnbt/src/ser/mod.rs:434-478 | a compound whose keys are all sentinels writes no braces, only its typed arrays |
| Layout.IndentationIsSpaces | fastsnbt/src/ser/mod.rs:62-64 | the indentation at depth n is exactly 4n spaces |
| Layout.NewlineShape | fastsnbt/src/ser/mod.rs:59-67 | `newline` writes nothing in compact mode; at depth n it writes a line break followed by exactly 4n spaces |
| Layout.DepthMoves | fastsnbt/src/ser/mod.rs:69-75 | compact stays compact, a pop at depth 0 stays at 0, and a push followed by a pop restores the depth |
| PrettyLayout.PrettyOpened | fastsnbt/src/ser/mod.rs:309-325 | in pretty mode at depth k the elements written so far are `[`, a line break, the prefix, a line break and the element texts joined by `,` and a line break |
| PrettyLayout.PrettyArray | fastsnbt/src/ser/mod.rs:309-336 | in pretty mode at depth n a non-empty sequence of serializable values is `[`, a line break at depth n+1, the prefix, a line break, the elements at depth n+1 joined by `,` and a line break, then a line break at depth n and `]` |
| PrettyLayout.PrettyFirstEntry | fastsnbt/src/ser/mod.rs:450-465 | the first ordinary entry at depth n writes `{`, a line break at depth n+1 and `key: value` |
| PrettyLayout.PrettyLaterEntry | fastsnbt/src/ser/mod.rs:427-465 | a later ordinary entry writes `,`, a line break and `key: value` at the same depth, with no second brace |
| PrettyLayout.PrettyRun | fastsnbt/src/ser/mod.rs:419-467 | in pretty mode ordinary entries are `{`, a line break one level deeper and the `key: value` pairs joined by `,` and a line break |
| PrettyLayout.PrettyMap | fastsnbt/src/ser/mod.rs:419-478 | in pretty mode at depth n a non-empty map of ordinary keys is `{`, the `key: value` pairs at depth n+1 each after a line break and all but the first after `,`, then a line break at depth n and `}` |
| PrettyLayout.RenderAppend | fastsnbt/src/ser/mod.rs:59-67 | the pretty rendering of pieces distributes over concatenation |
| PrettyLayout.EraseAppend | fastsnbt/src/ser/mod.rs:59-67 | erasing line breaks and the space after `:` distributes over concatenation |
| PrettyLayout.LineBreak | fastsnbt/src/ser/mod.rs:59-67 | a pretty `newline` is a line break that compact mode leaves out |
| PrettyLayout.KeySeparator | fastsnbt/src/ser/mod.rs:457-461 | the pretty key separator `: ` is the compact `:` widened |
| PrettyLayout.EmitLaidOut | fastsnbt/src/ser/mod.rs:53-478 | for every value and depth the pretty text is the compact text with line breaks and indentation inserted and each key's `:` widened to `: `, the same tokens in the same order, and both modes have the same outcome |
| PrettyLayout.PrimitiveLaidOut | fastsnbt/src/ser/mod.rs:89-205 | a value without nesting is written identically in both modes |
| PrettyLayout.ArrayLaidOut | fastsnbt/src/ser/mod.rs:309-336 | a sequence's pretty text is its compact text laid out, with the same outcome |
| PrettyLayout.CompoundLaidOut | fastsnbt/src/ser/mod.rs:419-478 | a map's pretty text is its compact text laid out, with the same outcome |

## Left out

- Float formatting with `ryu` (`fastsnbt/src/ser/mod.rs:147-158`) and the conversion of a float lexeme to `f32`/`f64` are floating-point numerics. `Parser.ParseF32` and `Parser.ParseF64` return the recognized lexeme, and the model has no float `Value`.
- Parser.ParseF32, Parser.ParseF64: the `map_res` step that converts the lexeme is not modelled, so a lexeme that Rust's float parser would refuse is not turned into an Error here.
- `fastsnbt/src/ser/array_serializer.rs` is not part of this model: `ArraySerializer { stride, prefix }`, to which a sentinel key's value is handed, is replaced by a stand-in. Under a sentinel key, `Ser.TypedArrayEmission` uses the sequence emitter with the kind's prefix (`B;`, `I;`, `L;`), and only a sequence or a byte buffer is accepted. The element stride and the typed emitter's own element rules are not modelled.
- Ser.Serializer.SerializeTypedArray: which shapes it accepts and the text of each element (a byte is written as `Nb` even under `I;` and `L;`) come from the stand-in, not from the source; the stride is ignored.
- Layout.TypedOutcome: it states the stand-in's acceptance rule (a sequence of serializable values or a byte buffer); the real typed-array emitter's rule is unknown here, and so is the sentinel clause of Layout.EmitOutcome and Layout.EntryOutcome.
- `fastsnbt/src/ser/name_serializer.rs` is not part of this model: each key reaches the compound emitter already rendered to its name.
- `fastsnbt/src/lib.rs` is not part of this model. The three sentinel key strings are placeholder constants in `Ser`; only their distinctness matters.
- `std::io::Write` errors: the sink is an infallible append, so no I/O error is ever propagated.
- The depth is an unbounded `nat`, so `saturating_add` at `usize::MAX` is not modelled. `saturating_sub` at 0 is modelled.
- Strings are sequences of `char`, not UTF-8 bytes. `write_escaped_str` looks only for the ASCII bytes `"` and `\`, which never occur inside a multi-byte UTF-8 sequence, so its byte loop is modelled over characters.
- nom's error positions and kinds, and the text of `Error::bespoke` messages, are not modelled. A parser returns a bare `Error` or `Failure`, and the serializer returns `Unsupported` or `ValueBeforeKey`.
- Serde's traits, lifetimes and generics, plus `serialize_tuple`, `serialize_tuple_struct` and `serialize_struct` as separate entry points: they are covered by the `Seq` and `Map` shapes of `Ser.Value`.
- Behaviour that differs from the documented format: `serialize_bytes` (`fastsnbt/src/ser/mod.rs:169-175`) uses the plain sequence emitter with the empty prefix, not the `B;` typed-array prefix. The model follows the code.
- Behaviour that differs from the documented format: `CompoundSerializer::end` (`fastsnbt/src/ser/mod.rs:469-478`) does not check for a pending key left without a value. The model follows the code (`Ser.CompoundSerializer.End`).
- RoundTrip.U8ReadBack, RoundTrip.U16ReadBack, RoundTrip.U32ReadBack, RoundTrip.U64ReadBack: unsigned values are written with the signed suffixes, so only values below the signed maximum parse back. These lemmas state that asymmetry rather than a round trip.
