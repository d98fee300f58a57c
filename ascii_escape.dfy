/**
 * Rust's `std::ascii::escape_default`, applied byte by byte and concatenated
 * (the `flat_map` in the fallback of `Display`), together with an inverse
 * that reads the escapes back.
 */
module AsciiEscape {
  import opened Wrappers

  const Backslash: bv8 := 0x5C
  const SingleQuote: bv8 := 0x27
  const DoubleQuote: bv8 := 0x22
  const Tab: bv8 := 0x09
  const CarriageReturn: bv8 := 0x0D
  const LineFeed: bv8 := 0x0A

  /** A printable ASCII byte, space to tilde. */
  predicate IsPrintable(b: bv8) {
    0x20 <= b <= 0x7E
  }

  /** Every byte of `s` is printable ASCII. */
  predicate AllPrintable(s: seq<bv8>) {
    forall i :: 0 <= i < |s| ==> IsPrintable(s[i])
  }

  /** Lower-case hexadecimal digit for a nibble. */
  function HexDigit(n: bv8): (d: bv8)
    requires n < 16
    ensures IsHexDigit(d)
  {
    if n < 10 then 0x30 + n else 0x61 + (n - 10)
  }

  /** `0`..`9` or `a`..`f`. */
  predicate IsHexDigit(d: bv8) {
    (0x30 <= d <= 0x39) || (0x61 <= d <= 0x66)
  }

  /** The nibble a lower-case hexadecimal digit stands for. */
  function HexValue(d: bv8): (n: bv8)
    requires IsHexDigit(d)
    ensures n < 16 && HexDigit(n) == d
  {
    if d <= 0x39 then d - 0x30 else d - 0x61 + 10
  }

  /** A byte is its two hexadecimal digits read back. */
  lemma HexRoundTrip(b: bv8)
    ensures (HexValue(HexDigit(b >> 4)) << 4) | HexValue(HexDigit(b & 0xF)) == b
  {
  }

  /**
   * `std::ascii::escape_default(b)`: `\t`, `\r`, `\n`, `\\`, `\'` and `\"` for
   * the six special bytes, the byte itself for other printable ASCII, and
   * `\xHH` with lower-case hex digits for everything else.
   */
  function EscapeDefault(b: bv8): (r: seq<bv8>)
    ensures |r| == 1 || |r| == 2 || |r| == 4
    ensures AllPrintable(r)
    ensures |r| == 1 <==> IsPrintable(b) && b != Backslash && b != SingleQuote && b != DoubleQuote
    ensures |r| == 4 <==> !IsPrintable(b) && b != Tab && b != CarriageReturn && b != LineFeed
  {
    if b == Tab then [Backslash, 0x74]
    else if b == CarriageReturn then [Backslash, 0x72]
    else if b == LineFeed then [Backslash, 0x6E]
    else if b == Backslash then [Backslash, Backslash]
    else if b == SingleQuote then [Backslash, SingleQuote]
    else if b == DoubleQuote then [Backslash, DoubleQuote]
    else if IsPrintable(b) then [b]
    else [Backslash, 0x78, HexDigit(b >> 4), HexDigit(b & 0xF)]
  }

  /** `bs.iter().flat_map(escape_default).collect()`: the escapes of the bytes, in order. */
  function EscapeAll(bs: seq<bv8>): (r: seq<bv8>)
    ensures AllPrintable(r)
    ensures |bs| <= |r| <= 4 * |bs|
  {
    if bs == [] then [] else EscapeDefault(bs[0]) + EscapeAll(bs[1..])
  }

  /** A non-printable or non-ASCII byte anywhere costs three extra characters. */
  lemma {:induction false} EscapeAllLonger(bs: seq<bv8>, i: nat)
    requires i < |bs| && !IsPrintable(bs[i])
    ensures |EscapeAll(bs)| >= |bs| + 1
    ensures bs[i] >= 0x80 ==> |EscapeAll(bs)| >= |bs| + 3
  {
    if i > 0 {
      assert bs[1..][i - 1] == bs[i];
      EscapeAllLonger(bs[1..], i - 1);
    }
  }

  /** The byte a two-character escape `\c` stands for, if `c` names one. */
  function SimpleEscape(c: bv8): Option<bv8> {
    if c == 0x74 then Some(Tab)
    else if c == 0x72 then Some(CarriageReturn)
    else if c == 0x6E then Some(LineFeed)
    else if c == Backslash || c == SingleQuote || c == DoubleQuote then Some(c)
    else None
  }

  /** Prepends a byte to a successful result. */
  function Cons(b: bv8, r: Option<seq<bv8>>): Option<seq<bv8>> {
    if r.Some? then Some([b] + r.value) else None
  }

  /** Reads escaped text back into the bytes it stands for; `None` if it is not escaped text. */
  function Unescape(s: seq<bv8>): Option<seq<bv8>>
    decreases |s|
  {
    if s == [] then Some([])
    else if s[0] == Backslash then
      if |s| >= 2 && SimpleEscape(s[1]).Some? then
        Cons(SimpleEscape(s[1]).value, Unescape(s[2..]))
      else if |s| >= 4 && s[1] == 0x78 && IsHexDigit(s[2]) && IsHexDigit(s[3]) then
        Cons((HexValue(s[2]) << 4) | HexValue(s[3]), Unescape(s[4..]))
      else None
    else if IsPrintable(s[0]) then Cons(s[0], Unescape(s[1..]))
    else None
  }

  /** The escape of one byte is read back as that byte, whatever follows it. */
  lemma UnescapeOne(b: bv8, rest: seq<bv8>)
    ensures Unescape(EscapeDefault(b) + rest) == Cons(b, Unescape(rest))
  {
    var e := EscapeDefault(b);
    var s := e + rest;
    assert s[|e|..] == rest;
    if |e| == 1 {
      assert s[0] == b;
    } else if |e| == 2 {
      assert s[0] == Backslash && s[1] == e[1];
      assert SimpleEscape(e[1]) == Some(b);
    } else {
      var hi, lo := HexDigit(b >> 4), HexDigit(b & 0xF);
      assert e == [Backslash, 0x78, hi, lo];
      assert s[0] == Backslash && s[1] == 0x78 && s[2] == hi && s[3] == lo;
      assert SimpleEscape(0x78) == None;
      HexRoundTrip(b);
    }
  }

  /** Escaping loses nothing: the escaped text determines the bytes. */
  lemma {:induction false} UnescapeEscapeAll(bs: seq<bv8>)
    ensures Unescape(EscapeAll(bs)) == Some(bs)
  {
    if bs != [] {
      UnescapeEscapeAll(bs[1..]);
      UnescapeOne(bs[0], EscapeAll(bs[1..]));
      assert [bs[0]] + bs[1..] == bs;
    }
  }
}
