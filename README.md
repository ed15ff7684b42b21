# real_c_string: the literal encoder, modelled in Dafny

`real_c_string!` and `real_c_wstring!` are procedural macros. They expand a
Rust string literal into a null-terminated array of `i8` or `i16` units,
shaped like a C string constant. Tools that scan binaries for such
constants can then find it. Each Unicode code point becomes exactly one
unit, as in Latin-1 or UCS-2. This is not always what a C compiler stores:
see "## Left out".

This project models the encoder inside `transform` (src/lib.rs) and proves
properties of it:

- `WidthPolicy` covers `TransformType`. For each target it gives the largest
  accepted character (`max_char`) and the two's-complement truncation that
  `as i8` / `as i16` performs. Reading the unit back as unsigned is also
  modelled.
- `Encoder` covers the walk `chars().enumerate().map(...)`. Each character
  becomes either a signed unit or an "unsupported character" marker holding
  the character and its zero-based offset. One `0` terminator is appended.
  From that array the module derives two views: the finished literal
  (`Built`) and the diagnostics (`Failed`). A model of how a C consumer
  reads the literal back (`Decode`) gives the round trip.
- `DocExamples` covers the documented expansions and the edges of the
  accepted range.

The input is a Dafny `string`. In Dafny 4 a `char` is a Unicode scalar
value, the same thing a Rust `char` is. Offsets therefore count characters,
not UTF-8 bytes.

In the source, a failed expansion still emits the array. It puts one
`compile_error!` at each rejected position, so compilation fails once for
each offending character. The model keeps these positions as `Unsupported`
entries (`Encoder.Transform`). `Encoder.Encode` then reports either the
literal or the complete list of diagnostics in offset order, never both.

## Model

| member | source | states |
|---|---|---|
| `WidthPolicy.MaxChar` | src/lib.rs:34-39 | `max_char` plus one is the number of values of a unit, so it is the largest unsigned unit value: 0xFF for `CString` and 0xFFFF for `CWString` |
| `WidthPolicy.MaxCharValues` | src/lib.rs:34-39 | `max_char` is 0xFF for `CString` and 0xFFFF for `CWString` |
| `WidthPolicy.ModulusIsPow2` | src/lib.rs:63-71 | the narrow target has 2^8 unit values and the wide target 2^16 |
| `WidthPolicy.AsSigned` | src/lib.rs:63-71 | `as i8` / `as i16` gives the one value in the signed range of the width that is congruent to the character modulo 2^bits |
| `WidthPolicy.AsUnsigned` | src/lib.rs:63-71 | reading a signed unit as unsigned gives the one value in [0, 2^bits) congruent to it |
| `WidthPolicy.AsSignedOfAccepted` | src/lib.rs:52-71 | an accepted character c becomes c below the sign limit and c - 2^bits from there up, and reading it as unsigned gives c back |
| `WidthPolicy.AsSignedOfUnsigned` | src/lib.rs:63-71 | the other direction: every signed unit is the truncation of its unsigned reading, which is accepted |
| `WidthPolicy.AsSignedZero` | src/lib.rs:63-81 | an accepted character truncates to the terminator value 0 exactly when it is NUL |
| `Encoder.EncodeChar` | src/lib.rs:52-72 | a character gives a unit exactly when its value is at most `max_char`; the unit is in the signed range and reads back as the character; otherwise the marker holds the character and the given offset |
| `Encoder.EncodeFrom` | src/lib.rs:47-74 | the walk yields one entry per character, in input order, entry i being the encoding of character i at offset start + i |
| `Encoder.Transform` | src/lib.rs:46-82 | the emitted array has length \|s\| + 1, entry i encodes character i at offset i, and the last entry is the terminator `0` |
| `Encoder.TerminatorPlacement` | src/lib.rs:75-82 | a position holds unit 0 exactly when it is the last one or the input has NUL there: no terminator is added besides the final one |
| `Encoder.Errors` | src/lib.rs:55-61 | the error markers collected from an array: no more of them than entries, and none exactly when every entry is a unit |
| `Encoder.ErrorsAreMarkers` | src/lib.rs:55-61 | every collected diagnostic is the content of a marker of the array |
| `Encoder.ErrorsSound` | src/lib.rs:49-61 | every diagnostic of a walk names a rejected character together with that character's own offset |
| `Encoder.ErrorsComplete` | src/lib.rs:49-61 | every rejected character of a walk is reported with its offset, so the walk does not stop at the first error |
| `Encoder.ErrorsAscending` | src/lib.rs:47-74 | diagnostics come out in strictly ascending offset order |
| `Encoder.ErrorsOfTransform` | src/lib.rs:75-82 | the appended terminator adds no diagnostic |
| `Encoder.Diagnostics` | src/lib.rs:47-74 | the diagnostics of an expansion are exactly the rejected characters with their zero-based offsets, in ascending offset order; they are empty exactly when every character fits |
| `Encoder.AllRejected` | src/lib.rs:52-61 | when no character fits, there is one diagnostic per character, at offsets 0, 1, 2, ... |
| `Encoder.Encode` | src/lib.rs:43-85 | an expansion succeeds exactly when every character is at most `max_char`; it then yields an array tagged with the width, of length \|s\| + 1, holding the truncation of each character and a final 0; otherwise it fails with the non-empty diagnostics |
| `Encoder.EncodeBelowSignLimit` | src/lib.rs:63-71 | when every character is below 0x80 / 0x8000 the literal is the code points followed by 0, with no sign change |
| `Encoder.RealCString` | src/lib.rs:106-112 | `real_c_string!` builds a narrow (`*const i8`) literal of length \|s\| + 1, and the empty string gives `[0]` |
| `Encoder.RealCWString` | src/lib.rs:142-148 | `real_c_wstring!` builds a wide (`*const i16`) literal of length \|s\| + 1, and the empty string gives `[0]` |
| `Encoder.Decode` | src/lib.rs:87-90 | a model of the C consumer of the `*const i8` / `*const i16` result (not code of the crate): the units before the first 0, read as unsigned; no result exactly when there is no 0 unit |
| `Encoder.UnitsReadBack` | src/lib.rs:52-71 | in every built literal, unit i read as unsigned is character i, embedded NUL characters included |
| `Encoder.RoundTrip` | src/lib.rs:63-82 | reading a built literal back gives the code points of the input up to its first NUL, so the whole input when it contains no NUL |
| `Encoder.DecodeEncoded` | src/lib.rs:63-82 | any units that hold the truncations of accepted characters, followed by 0, read back as the code points before the first NUL |
| `DocExamples.EmptyLiteral` | src/lib.rs:94 | the empty string expands to `[0]` at both widths |
| `DocExamples.HelloWorld` | src/lib.rs:96-104 | "Hello world!" expands to its 12 ASCII codes and then 0, identically at both widths |
| `DocExamples.PrivetWorldWide` | src/lib.rs:132-140 | "Привет world!" in the wide width expands to 1055, 1088, 1080, 1074, 1077, 1090, 32, ..., 33, 0 |
| `DocExamples.PrivetNarrow` | src/lib.rs:52-61 | "Привет" in the narrow width fails with six diagnostics, one per letter, at offsets 0 to 5 |
| `DocExamples.AcceptsMaxChar` | src/lib.rs:52 | a character equal to `max_char` (0xFF, 0xFFFF) is accepted and becomes -1 |
| `DocExamples.RejectsAboveMaxChar` | src/lib.rs:52-61 | a character at `max_char` + 1 (0x100, 0x10000) is rejected and reported at offset 0 |
| `DocExamples.SignLimit` | src/lib.rs:63-71 | 0x80 and 0x8000 are the first values that turn negative: -128 and -32768 |

## Left out

- Parsing of the macro's token input into a string (`RealCString` and its `Parse` impl, src/lib.rs:10-24) is left out. It is done by the `syn` library, together with escape resolution. The model takes the already-decoded string.
- The decoding of a Rust `String` into `char`s is left out. Dafny's `string` is already a sequence of Unicode scalar values.
- Token-stream construction with `quote!` is left out, as are the text of the `compile_error!`/`concat!` messages and the `as *const i8` / `as *const i16` pointer casts. The literal is modelled as its sequence of units tagged with its width, and the pointer as index 0 of that sequence. A diagnostic carries the character and its offset, which are the two values the message prints.
- The model promises the crate's one-unit-per-code-point encoding, not byte-for-byte agreement with a C compiler. Three cases differ. A UTF-8 C compiler stores "é" as the two bytes 0xC3 0xA9, where the macro emits the single unit -23. A compiler with a 16-bit `wchar_t` stores U+10000 and above as a surrogate pair, where the macro rejects them. On most non-Windows targets `wchar_t` is 32 bits, not 16.
- Reading the literal back as a C string (`Encoder.Decode`) is not part of the source. It is a model of the consumer, used to state the round trip.
- Determinism of the expansion needs no lemma: every member is a mathematical function.
