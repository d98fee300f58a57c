# four_cc in Dafny

A model of the `four_cc` crate: the `FourCC` value type, a newtype over exactly
four raw bytes used to tag records in binary container formats. The model
covers:

- construction from a `[u8; 4]`, from the front of a byte slice and from a
  `u32`;
- conversion back to a `u32`;
- the `Display` rendering, which writes the bytes verbatim when they are
  well-formed UTF-8 and otherwise writes `std::ascii::escape_default` of every
  byte;
- the `Debug` rendering `FourCC{…}`;
- the `FromStr` parser of the serde feature.

Files:

- `four_cc.dfy` (module `FourCc`): the type and its operations.
- `utf8.dfy` (module `Utf8`): well-formed UTF-8 per section 4 of RFC 3629,
  which is what `std::str::from_utf8` accepts. It also holds an encoder of
  Unicode scalar values that serves as an independent reference for the
  validity predicate, and `String::from_utf8_lossy`.
- `ascii_escape.dfy` (module `AsciiEscape`): `std::ascii::escape_default`,
  its concatenation over the bytes, and an inverse that reads escapes back.
- `four_cc_examples.dfy` (module `FourCcExamples`): the crate's doc examples
  and unit tests, stated as lemmas.
- `wrappers.dfy` (module `Wrappers`): `Option` and `Result`.

Representation choices:

- Rust's `u8` is `bv8` and `u32` is `bv32`. The shifts and masks are written
  as in the source. Dafny gives `<<` and `>>` lower precedence than `&`, so
  the model adds parentheses that Rust does not need.
- `[u8; 4]` is the subset type `Bytes4` (a `seq<bv8>` of length 4).
- `&str` is the subset type `Str`: byte sequences that are well-formed UTF-8.
- Rendered text is the sequence of UTF-8 bytes written to the formatter.
  Well-formed bytes are therefore emitted without decoding.
- A slice index that would panic becomes a `requires |buf| >= 4`.

## Model

| member | source | states |
|---|---|---|
| `FourCc.EqualityIsStructural` | src/lib.rs:90 | two codes are equal iff their four bytes agree position by position (the derived `PartialEq`) |
| `FourCc.FromArray` | src/lib.rs:96-100 | the code holds the four array bytes verbatim, in order |
| `FourCc.FromSlice` | src/lib.rs:101-105 | given at least four bytes, the code holds exactly the first four |
| `FourCc.FromSliceIgnoresTail` | src/lib.rs:101-105 | two slices give the same code iff their first four bytes agree, and slice construction equals array construction from those bytes |
| `FourCc.FromU32` | src/lib.rs:106-115 | the code's bytes are the big-endian base-256 digits of the `u32` |
| `FourCc.ToU32` | src/lib.rs:116-123 | the shift/mask/or composition equals the big-endian value of the bytes |
| `FourCc.BigEndianInjective` | src/lib.rs:116-123 | distinct byte arrays have distinct big-endian values |
| `FourCc.ToU32FromU32` | src/lib.rs:106-123 | every `u32` converted to a code and back is unchanged |
| `FourCc.FromU32ToU32` | src/lib.rs:106-123 | every code converted to a `u32` and back is unchanged |
| `FourCc.ByteOrder` | src/lib.rs:116-123 | byte 0 is bits 31–24, byte 1 bits 23–16, byte 2 bits 15–8 and byte 3 bits 7–0 of the `u32` |
| `Utf8.Valid` | src/lib.rs:126 | bytes are a sequence of well-formed RFC 3629 characters (what `from_utf8` accepts, built from `Width`, `SecondOk` and `CharLen`); a well-formed text never starts with a continuation byte or an impossible lead byte |
| `Utf8.CharLen` | src/lib.rs:126 | the well-formed character at the front is at most 4 bytes, its length is what its lead byte announces, and an ASCII byte is a character on its own |
| `Utf8.AsciiIsValid` | src/lib.rs:126 | all-ASCII bytes are well-formed UTF-8 |
| `Utf8.ValidConcat` | src/lib.rs:126 | the concatenation of two well-formed texts is well-formed |
| `Utf8.EncodeScalar` | src/lib.rs:126 | the RFC 3629 encoding of a scalar value is 1 to 4 bytes and one well-formed character |
| `Utf8.DecodeChar` | src/lib.rs:126 | the well-formed character at the front encodes some scalar value |
| `Utf8.Decode` | src/lib.rs:126 | well-formed bytes are the encoding of the scalar values decoded from them |
| `Utf8.EncodeIsValid` | src/lib.rs:126 | the encoding of any sequence of scalar values is well-formed |
| `Utf8.ValidIffEncoding` | src/lib.rs:126 | bytes are accepted by the validity check iff they encode some sequence of scalar values |
| `Utf8.InvalidLen` | src/lib.rs:135 | the ill-formed sequence replaced by one U+FFFD is 1 to 3 bytes long |
| `Utf8.Lossy` | src/lib.rs:135 | lossy conversion always yields well-formed UTF-8 |
| `Utf8.LossyOfValid` | src/lib.rs:135 | lossy conversion leaves well-formed input unchanged |
| `AsciiEscape.HexDigit` | src/lib.rs:133 | a nibble maps to a lower-case hexadecimal digit |
| `AsciiEscape.HexValue` | src/lib.rs:133 | reading a hexadecimal digit gives back the nibble it was written from |
| `AsciiEscape.EscapeDefault` | src/lib.rs:133 | one byte escapes to 1, 2 or 4 printable ASCII bytes: 1 iff printable other than `\`, `'`, `"`; 4 iff neither printable nor tab, CR or LF |
| `AsciiEscape.EscapeAll` | src/lib.rs:131-134 | the escaped bytes are all printable ASCII, between 1 and 4 characters per input byte |
| `AsciiEscape.EscapeAllLonger` | src/lib.rs:131-134 | a non-printable byte lengthens the escaped text, and a non-ASCII byte lengthens it by at least three |
| `AsciiEscape.UnescapeOne` | src/lib.rs:133 | the escape of a byte reads back as that byte, whatever follows it |
| `AsciiEscape.UnescapeEscapeAll` | src/lib.rs:131-134 | the escaped bytes read back to exactly the original bytes |
| `FourCc.EscapeOfInvalid` | src/lib.rs:126-134 | bytes that fail UTF-8 validation escape to at least three more characters than they have |
| `FourCc.Display` | src/lib.rs:124-139 | output is always well-formed UTF-8; well-formed bytes are emitted unchanged; otherwise the output is exactly `EscapeAll` of the bytes (the lossy conversion leaves it unchanged), 7 to 16 printable ASCII bytes that read back to the code's bytes |
| `FourCc.DisplayInjective` | src/lib.rs:124-139 | two codes that display alike are equal |
| `FourCc.Debug` | src/lib.rs:140-146 | output is well-formed, 8 bytes longer than `Display`, and is `FourCC{` then the `Display` text then `}` |
| `FourCc.DebugInjective` | src/lib.rs:140-146 | two codes that debug-print alike are equal |
| `FourCc.FromStr` | src/lib.rs:185-190 | given a string of at least four bytes, parsing always succeeds with the first four bytes |
| `FourCcExamples.FromStrTruncates` | src/lib.rs:185-190 | `moofftyp` parses to `moof`, which renders as `moof`: a longer string does not round-trip |
| `FourCcExamples.SerdeRoundTripChangesFallback` | src/lib.rs:162-190 | the code `u`, 0xFF, `i`, 0x00 serializes as its `Display` text and parses back as the different code `u\xf` |
| `FourCc.Parse` | src/lib.rs:185-190 | parsing succeeds iff the string is four bytes long, and then yields them; otherwise the error carries the length |
| `FourCc.ParseThenDisplay` | src/lib.rs:185-190 | every four-byte string parses to a code that displays as that string |
| `FourCc.DisplayThenParse` | src/lib.rs:185-190 | every code whose bytes are well-formed UTF-8 displays as text that parses back to it |
| `FourCcExamples.EqualityExample` | src/lib.rs:225-226 | `uuid` equals `b"uuid".into()` and differs from `b"diuu".into()` |
| `FourCcExamples.U32Example` | src/lib.rs:231-232 | `ABCD` converts to `0x41424344` and back |
| `FourCcExamples.SliceExample` | src/lib.rs:19-21 | the first four bytes of `moofftyp` give `moof` |
| `FourCcExamples.DisplayTextExample` | src/lib.rs:66-67 | `uuid` displays as `uuid` and debug-prints as `FourCC{uuid}` |
| `FourCcExamples.DisplayFallbackExample` | src/lib.rs:77-78 | the bytes `u`, 0xFF, `i`, 0x00 display as `u\xffi\x00` |
| `FourCcExamples.DebugFallbackExample` | src/lib.rs:77-78 | the same bytes debug-print as `FourCC{u\xffi\x00}` |

## Left out

- The `schemars::JsonSchema` impl (src/lib.rs:148-159) is left out. It is a schema hook for an external library and has no logic.
- The serde `Serialize`, `FromStrVisitor`, `Visitor` and `Deserialize` adapters (src/lib.rs:161-183, 192-217) are left out. They only forward to `Display` and `FromStr`, which are modelled.
- The `zerocopy` derives and the `#[repr(C, packed)]` layout (src/lib.rs:91-92) are left out. They describe memory layout, not behaviour.
- The derived `Hash` is left out because the compiler generates it. It would hash `bytes`, so equal codes hash alike, since equality is structural (`FourCc.EqualityIsStructural`).
- `fmt::Formatter` write errors and their `?` propagation (src/lib.rs:142-144) are left out. Rendering is modelled as a function that returns the bytes written.
- The panics of slice indexing in `FourCc.FromSlice` and `FourCc.FromStr` are modelled as preconditions, not as a failure outcome.
- `FourCc.FromStr` keeps the code's behaviour: `from_str` declares `type Err = u32` (src/lib.rs:186) but returns `Ok(s.as_bytes().into())` (src/lib.rs:188), which panics below four bytes and drops the tail of longer input. The model states this and adds a corrected `FourCc.Parse`; see Findings.

## Findings

| source | as written | input that shows it | evidently intended | confidence | as-written member | corrected member |
|---|---|---|---|---|---|---|
| src/lib.rs:185-190 | `from_str` hands any string to `From<&[u8]>`, so its declared `Err = u32` is never produced: a string under four bytes panics, and a longer one is silently cut to its first four bytes | `"moofftyp"` parses to `moof`, which serializes back as `"moof"`; the code `u`,0xFF,`i`,0x00 serializes as `u\xffi\x00` and deserializes as `u\xf` (`FourCcExamples.SerdeRoundTripChangesFallback`); `"moo"` panics inside deserialization | strings whose length is not four are rejected with an error value | medium, not executed | `FourCcExamples.FromStrTruncates` | `FourCc.Parse` |
