/**
 * The `FourCC` value type: exactly four raw bytes, built from a byte array,
 * from the front of a byte slice or from a big-endian `u32`, converted back
 * to a `u32`, and rendered as text.
 *
 * Rust's `u8` is `bv8` and `u32` is `bv32`. Rendered text is the sequence of
 * UTF-8 bytes written to the formatter.
 */
module FourCc {
  import opened Wrappers
  import Utf8
  import AsciiEscape

  /** Rust's `[u8; 4]`. */
  type Bytes4 = s: seq<bv8> | |s| == 4 witness [0, 0, 0, 0]

  /** Rust's `&str`: bytes that are well-formed UTF-8. */
  type Str = s: seq<bv8> | Utf8.Valid(s)

  /** A four-character code. Equality is the datatype's: the four bytes, in order. */
  datatype FourCC = FourCC(bytes: Bytes4)

  /** Two codes are equal exactly when their bytes agree position by position. */
  lemma EqualityIsStructural(a: FourCC, b: FourCC)
    ensures a == b <==> forall i :: 0 <= i < 4 ==> a.bytes[i] == b.bytes[i]
  {
  }

  // ---------------------------------------------------------------------------
  // Construction
  // ---------------------------------------------------------------------------

  /** `From<&[u8; 4]>`: copies the four bytes verbatim. */
  function FromArray(buf: Bytes4): (c: FourCC)
    ensures c.bytes == buf
  {
    FourCC([buf[0], buf[1], buf[2], buf[3]])
  }

  /** `From<&[u8]>`: the first four bytes of the slice; indexing panics on a shorter slice. */
  function FromSlice(buf: seq<bv8>): (c: FourCC)
    requires |buf| >= 4
    ensures c.bytes == buf[..4]
  {
    FourCC([buf[0], buf[1], buf[2], buf[3]])
  }

  /** Bytes after the fourth take no part in construction from a slice. */
  lemma FromSliceIgnoresTail(buf: seq<bv8>, other: seq<bv8>)
    requires |buf| >= 4 && |other| >= 4
    ensures FromSlice(buf) == FromSlice(other) <==> buf[..4] == other[..4]
    ensures FromSlice(buf) == FromArray(buf[..4])
  {
  }

  // ---------------------------------------------------------------------------
  // Conversion to and from u32
  // ---------------------------------------------------------------------------

  /** The number whose base-256 digits, most significant first, are the four bytes. */
  function BigEndian(b: Bytes4): bv32 {
    (b[0] as bv32) * 0x100_0000 + (b[1] as bv32) * 0x1_0000 + (b[2] as bv32) * 0x100 + (b[3] as bv32)
  }

  /** `From<u32>`: byte 0 is bits 31..24, byte 3 is bits 7..0. */
  function FromU32(val: bv32): (c: FourCC)
    ensures BigEndian(c.bytes) == val
  {
    FourCC([
      ((val >> 24) & 0xff) as bv8,
      ((val >> 16) & 0xff) as bv8,
      ((val >> 8) & 0xff) as bv8,
      (val & 0xff) as bv8
    ])
  }

  /** `From<FourCC> for u32`: byte 0 becomes the most significant byte. */
  function ToU32(c: FourCC): (v: bv32)
    ensures v == BigEndian(c.bytes)
  {
    (((c.bytes[0] as bv32) << 24) & 0xff000000) |
    (((c.bytes[1] as bv32) << 16) & 0x00ff0000) |
    (((c.bytes[2] as bv32) << 8) & 0x0000ff00) |
    ((c.bytes[3] as bv32) & 0x000000ff)
  }

  /** Distinct byte arrays have distinct big-endian values. */
  lemma BigEndianInjective(a: Bytes4, b: Bytes4)
    requires BigEndian(a) == BigEndian(b)
    ensures a == b
  {
    assert a[0] == b[0] && a[1] == b[1] && a[2] == b[2] && a[3] == b[3];
  }

  /** Every `u32` survives the trip through a `FourCC`. */
  lemma ToU32FromU32(v: bv32)
    ensures ToU32(FromU32(v)) == v
  {
  }

  /** Every `FourCC` survives the trip through a `u32`. */
  lemma FromU32ToU32(c: FourCC)
    ensures FromU32(ToU32(c)) == c
  {
    BigEndianInjective(FromU32(ToU32(c)).bytes, c.bytes);
  }

  /** Each byte sits in its own eight bits of the `u32`, byte 0 highest. */
  lemma ByteOrder(c: FourCC)
    ensures ToU32(c) >> 24 == c.bytes[0] as bv32
    ensures (ToU32(c) >> 16) & 0xff == c.bytes[1] as bv32
    ensures (ToU32(c) >> 8) & 0xff == c.bytes[2] as bv32
    ensures ToU32(c) & 0xff == c.bytes[3] as bv32
  {
  }

  // ---------------------------------------------------------------------------
  // Rendering
  // ---------------------------------------------------------------------------

  /** Text that is not well-formed UTF-8 holds a byte outside ASCII, which escapes to four characters. */
  lemma EscapeOfInvalid(s: seq<bv8>)
    requires !Utf8.Valid(s)
    ensures |AsciiEscape.EscapeAll(s)| >= |s| + 3
  {
    if Utf8.IsAscii(s) {
      Utf8.AsciiIsValid(s);
    }
    var i :| 0 <= i < |s| && s[i] >= 0x80;
    AsciiEscape.EscapeAllLonger(s, i);
  }

  /** Printable ASCII is well-formed UTF-8. */
  lemma PrintableIsValid(s: seq<bv8>)
    requires AsciiEscape.AllPrintable(s)
    ensures Utf8.Valid(s)
  {
    Utf8.AsciiIsValid(s);
  }

  /**
   * `Display`: the bytes themselves when they are well-formed UTF-8; otherwise
   * every byte through `escape_default`, passed through `from_utf8_lossy`.
   * Never fails, always yields well-formed text, and the fallback keeps every
   * byte recoverable.
   */
  function Display(c: FourCC): (out: seq<bv8>)
    ensures Utf8.Valid(out)
    ensures Utf8.Valid(c.bytes) ==> out == c.bytes
    ensures !Utf8.Valid(c.bytes) ==>
      && out == AsciiEscape.EscapeAll(c.bytes)
      && 7 <= |out| <= 16
      && AsciiEscape.AllPrintable(out)
      && AsciiEscape.Unescape(out) == Some(c.bytes)
  {
    if Utf8.Valid(c.bytes) then
      c.bytes
    else
      var s := AsciiEscape.EscapeAll(c.bytes);
      PrintableIsValid(s);
      Utf8.LossyOfValid(s);
      EscapeOfInvalid(c.bytes);
      AsciiEscape.UnescapeEscapeAll(c.bytes);
      Utf8.Lossy(s)
  }

  /** Different codes never render alike. */
  lemma DisplayInjective(a: FourCC, b: FourCC)
    requires Display(a) == Display(b)
    ensures a == b
  {
  }

  /** `"FourCC{"` as bytes. */
  const DebugPrefix: seq<bv8> := [0x46, 0x6F, 0x75, 0x72, 0x43, 0x43, 0x7B]

  /** `"}"` as bytes. */
  const DebugSuffix: seq<bv8> := [0x7D]

  /** `Debug`: the `Display` text between `FourCC{` and `}`. */
  function Debug(c: FourCC): (out: seq<bv8>)
    ensures Utf8.Valid(out)
    ensures |out| == |Display(c)| + 8
    ensures out[..7] == DebugPrefix && out[|out| - 1..] == DebugSuffix
    ensures out[7..|out| - 1] == Display(c)
  {
    var out := DebugPrefix + Display(c) + DebugSuffix;
    PrintableIsValid(DebugPrefix);
    PrintableIsValid(DebugSuffix);
    Utf8.ValidConcat(DebugPrefix, Display(c));
    Utf8.ValidConcat(DebugPrefix + Display(c), DebugSuffix);
    out
  }

  /** Different codes never debug-render alike. */
  lemma DebugInjective(a: FourCC, b: FourCC)
    requires Debug(a) == Debug(b)
    ensures a == b
  {
    var d := Debug(a);
    assert Display(a) == d[7..|d| - 1] == Display(b);
    DisplayInjective(a, b);
  }

  // ---------------------------------------------------------------------------
  // Parsing
  // ---------------------------------------------------------------------------

  /**
   * `FromStr::from_str` (serde feature): the string's bytes through
   * `From<&[u8]>`. Never returns `Err`; panics on fewer than four bytes.
   */
  function FromStr(s: Str): (r: Result<FourCC, bv32>)
    requires |s| >= 4
    ensures r.Ok? && r.value.bytes == s[..4]
  {
    Ok(FromSlice(s))
  }

  /** Parsing that accepts exactly four bytes and reports the length of anything else. */
  function Parse(s: Str): (r: Result<FourCC, nat>)
    ensures r.Ok? <==> |s| == 4
    ensures r.Ok? ==> r.value.bytes == s
    ensures r.Err? ==> r.error == |s|
  {
    if |s| == 4 then Ok(FromArray(s)) else Err(|s|)
  }

  /** Parse then render gives back the text, for every four-byte string. */
  lemma ParseThenDisplay(s: Str)
    requires |s| == 4
    ensures Parse(s).Ok? && Display(Parse(s).value) == s
  {
  }

  /** Render then parse gives back the code, whenever its bytes are text. */
  lemma DisplayThenParse(c: FourCC)
    requires Utf8.Valid(c.bytes)
    ensures Parse(Display(c)) == Ok(c)
  {
  }
}
