# SQLite database header decoder, modelled in Dafny

This project models the decoder for the 100-byte database header at the start of every
SQLite database file (section 1.3, "The Database Header", of the SQLite Database File
Format document) as the Rust crate `sqlite_parser` implements it. It also proves
properties of that model.

- `wrappers.dfy` (module `Wrappers`): `Option` and a failure-compatible `Result`. Dafny's
  `:-` plays the part of Rust's `?`.
- `lib.dfy` (module `Lib`) models `src/lib.rs`. It holds the integer types `u8`, `u16`,
  `u32` and `i32`, the big-endian readers (`u16::from_be_bytes`, `u32::from_be_bytes`,
  `try_parse_u32`, `try_parse_i32`) and the writer-side encoders. The readers are proved
  against `BeValue`, a reference big-endian value, and the round-trip lemmas prove the
  u32 and i32 readers inverse to their encoders.
- `error.dfy` (module `Errors`): one `Error` datatype covering every error kind that
  `src/header.rs` constructs.
- `header.dfy` (module `Header`) models `src/header.rs`:
  - the header record and its enumerations;
  - the field validators (magic string, page size, payload fractions, reserved zeros);
  - the raw-integer converters;
  - the assembler `ParseHeader`, which reads the fixed offsets in order and stops at the
    first fatal error.

`ParseHeader` and `ValidateReservedZeros` are methods, because the source writes them as
step-by-step code: a chain of `let … ?` early exits, and a loop with an early return. The
validators and converters are functions, because the source writes them as single
`match`/`if` expressions.

Modelling decisions, where the code differs from the SQLite file format or from what a
caller might expect. In each case the model follows the code.

- **Short input.** A short input might be expected to give an error, but the code
  slices its input without checking the length, so a short input panics. An `Err` from an
  earlier check returns before the later slices are reached. `ParseHeader` therefore
  requires `StaysInBounds(bytes)`, the exact condition for no out-of-range slice.
  `FullHeaderStaysInBounds` shows that 100 bytes always meet it.
  `TruncatedValidPrefixPanics` shows that an input of 48..99 bytes whose checks all pass
  does not.
- **Offsets.** The file format puts the incremental-vacuum flag at offset 64, the
  application ID at 68 and 20 reserved bytes at 72..92. The code reads the application ID
  from 64..68 and checks all 24 bytes of 68..92 for zeros. The model keeps the code's
  offsets. As a result, a file with a non-zero application ID gets a reserved-zero
  finding.
- **Vacuum setting.** `VacuumSetting` has only the `Full` variant, and the
  incremental-vacuum flag is never read.
- **Reserved zeros.** A non-zero reserved byte is never fatal. The source prints it to
  stderr; the model returns it as the second out-parameter `reserved` of `ParseHeader`.
- **Parser signatures.** `src/header.rs` calls `try_parse_u32` with a field name, and
  calls `try_parse_i32`. Neither signature exists in `src/lib.rs`, and their `String`
  errors have no conversion into `Error`. The model uses the one-argument `try_parse_u32`
  of `src/lib.rs`. Its error carries the slice length that the message prints. Every call
  in `parse_header` passes a 4-byte slice, so the `?` after it never fires.
- **`try_parse_i32` (an assumption).** `src/lib.rs` does not define it. It is
  taken to be the 4-byte big-endian two's-complement read, with the same length error as
  `try_parse_u32`.
- **Error kinds.** `src/error.rs` defines only `MagicString` and `InvalidPageSize`. The
  `Error` datatype instead holds the variants that `src/header.rs` constructs:
  `HeaderString`, `InvalidPageSize`, `InvalidFraction`, `UnexpectedZero` and
  `UnexpectedNonZero`. Each variant carries the data its message text prints, not the
  text:
  - `HeaderString`: the offending bytes;
  - `InvalidPageSize`: which of the three page-size messages applies, with the slice or
    the raw value;
  - `InvalidFraction`: the field, its target and the byte found;
  - `UnexpectedNonZero`: the index of the first non-zero byte.

## Model

| member | source | states |
|---|---|---|
| `Lib.U16FromBeBytes` | src/header.rs:119-123 | Reading two bytes as a big-endian u16 gives their reference big-endian value. |
| `Lib.U32FromBeBytes` | src/lib.rs:26 | Reading four bytes as a big-endian u32 gives their reference big-endian value. |
| `Lib.BeValueOfFour` | src/lib.rs:26 | The big-endian value of four bytes is b0·2^24 + b1·2^16 + b2·2^8 + b3. |
| `Lib.TryParseU32` | src/lib.rs:12-27 | Fails exactly when the slice length is not 4, and then reports that length. Otherwise returns the big-endian value of the four bytes, which lies in [0, 2^32). |
| `Lib.U32RoundTrip` | src/lib.rs:19-26 | Parsing the four big-endian bytes of any u32 gives back that u32. |
| `Lib.U32BytesRoundTrip` | src/lib.rs:19-26 | Encoding the parsed value of any 4-byte slice gives back the same four bytes. |
| `Lib.U32AsI32` | src/header.rs:67 | The reinterpreted i32 is congruent to the u32 bit pattern modulo 2^32. |
| `Lib.TryParseI32` | src/header.rs:67 | Fails exactly when the slice length is not 4. Otherwise returns the i32 whose value is congruent to the slice's big-endian value modulo 2^32. |
| `Lib.I32Congruent` | src/header.rs:67 | Two i32 values congruent modulo 2^32 are equal, so the contract of TryParseI32 fixes its result. |
| `Lib.I32RoundTrip` | src/header.rs:67 | Parsing the four two's-complement bytes of any i32 gives back that i32. |
| `Header.HeaderStringSpellsFormat3` | src/header.rs:12-17 | The 16-byte magic constant is the ASCII text "SQLite format 3" followed by a zero byte. |
| `Header.NonZeroNew` | src/header.rs:52-55 | Gives no value exactly for 0, and otherwise keeps the value. |
| `Header.ValidateHeaderString` | src/header.rs:97-111 | Succeeds exactly when the first 16 bytes equal the magic constant. Otherwise it is the magic-string error carrying the bytes given. |
| `Header.PageSizeTryFrom` | src/header.rs:138-167 | Accepts exactly raw 1 and powers of two of 512 or more. Raw 1 gives 65536; any other accepted raw value is kept. Raw 0 and 2..511 get the below-minimum error; other rejected values get the not-a-power-of-two error. |
| `Header.AcceptedPageSizeIsPowerOfTwo` | src/header.rs:141-165 | Every accepted page size is 2^k for some k in 9..16, so it is a power of two in [512, 65536]. |
| `Header.PowerOfTwoIffPow2` | src/header.rs:155 | The power-of-two test holds exactly for the numbers 2^k. |
| `Header.ParsePageSize` | src/header.rs:114-127 | A slice whose length is not 2 gets the wrong-length page-size error. A 2-byte slice is validated by its big-endian u16 value b0·256 + b1. |
| `Header.ValidateFraction` | src/header.rs:172-181 | Succeeds exactly when the byte equals its target. Otherwise the error carries the field, the target and the byte found. |
| `Header.ValidateReservedZeros` | src/header.rs:183-193 | Succeeds exactly when every byte is 0. Otherwise it reports an index whose byte is non-zero and before which every byte is 0. |
| `Header.FormatVersionFrom` | src/header.rs:208-216 | Total, and keeps the raw byte: 1 and 2 are the named modes, and every other byte v becomes `Unknown(v)`. |
| `Header.FormatVersionRoundTrip` | src/header.rs:208-216 | Every version the converter can produce is recovered from its stored byte. |
| `Header.SchemaVersionTryFrom` | src/header.rs:257-270 | Fails, with the unexpected-zero error, exactly for 0. Otherwise keeps the raw value, and gives `Unknown` exactly for values above 4. |
| `Header.SchemaVersionRoundTrip` | src/header.rs:257-270 | Every schema version the converter can produce is recovered from its stored value. |
| `Header.TextEncodingTryFrom` | src/header.rs:299-306 | Never fails, and keeps the raw value: 1, 2 and 3 are the named encodings, and every other value is `Unknown`. |
| `Header.TextEncodingRoundTrip` | src/header.rs:299-306 | Every encoding the converter can produce is recovered from its stored value. |
| `Header.FreePageListInfoNew` | src/header.rs:233-237 | Gives no list exactly when the first free page is 0. Otherwise keeps both the start page and the length. |
| `Header.VacuumSettingFull` | src/header.rs:282-285 | Gives no setting exactly when the raw value is 0. Otherwise gives `Full` with that value. |
| `Header.FullHeaderStaysInBounds` | src/header.rs:43-74 | On 100 or more bytes, no slice or index that the decoder reaches is out of bounds. |
| `Header.TruncatedValidPrefixPanics` | src/header.rs:43-74 | An input of 48..99 bytes that passes every check reaches a slice past its end. |
| `Header.ParseHeader` | src/header.rs:42-93 | Returns the error of the first failing check, in this order: magic, page size, fractions at 21, 22 and 23 (64, 32, 32), then a zero schema version. It succeeds exactly when all of these pass, so bytes 68..92 never cause a failure. On success every field is the big-endian decode at its fixed offset (change counter at 24..28, application ID at 64..68, library write version at 96..100, and so on) or the converter applied to it. On success, the reserved finding is absent exactly when 68..92 are all zero, and otherwise gives the first non-zero index; on an error it is always absent. |

## Left out

- Reading the file, `unwrap` and printing the header (`src/main.rs`): I/O plumbing for the
  decoder.
- The floating-point power-of-two benchmark (`benches/detect_pow2.rs`): benchmark code on
  `f32`; the model uses an integer power-of-two predicate instead.
- Error message text (`Display` for `Error` and every `format!` in `src/header.rs`):
  string formatting. Each error carries the data its message prints instead.
- The lossy UTF-8 rendering in the magic-string error (`String::from_utf8_lossy`): a
  library call. The error carries the raw bytes.
- The `eprintln!` of a reserved-zero finding: console output, returned as
  `ParseHeader`'s `reserved` out-parameter instead.
- The field-name argument of `try_parse_u32` and `try_parse_i32` at the call sites in
  `src/header.rs`: it only feeds an error message, and no 4-byte read can fail.
- The `MagicString` variant of `src/error.rs`: `src/header.rs` never constructs it; it
  constructs `HeaderString` instead.
- ParseHeader: the panic on an input too short for a slice is a precondition
  (`StaysInBounds`), not a modelled outcome.
