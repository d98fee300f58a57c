/**
 * Well-formed UTF-8 as defined by section 4 of RFC 3629, which is what
 * Rust's `std::str::from_utf8` accepts, and the lossy conversion
 * `String::from_utf8_lossy` that replaces ill-formed sequences by U+FFFD.
 *
 * Bytes are `bv8`. Rendered text is modelled as the UTF-8 bytes that make it up.
 */
module Utf8 {

  /** A continuation byte: 0x80..=0xBF, the `UTF8-tail` of RFC 3629. */
  predicate IsContinuation(b: bv8) {
    b & 0xC0 == 0x80
  }

  /** Width of the character a lead byte announces; 0 for a byte that cannot start one. */
  function Width(b: bv8): (w: nat)
    ensures w <= 4
    ensures w == 1 <==> b < 0x80
  {
    if b < 0x80 then 1
    else if 0xC2 <= b <= 0xDF then 2
    else if 0xE0 <= b <= 0xEF then 3
    else if 0xF0 <= b <= 0xF4 then 4
    else 0
  }

  /**
   * Whether the second byte is allowed after a three- or four-byte lead byte.
   * These ranges exclude overlong forms, the surrogates U+D800..U+DFFF and
   * values above U+10FFFF.
   */
  predicate SecondOk(b0: bv8, b1: bv8) {
    || (b0 == 0xE0 && 0xA0 <= b1 <= 0xBF)
    || (0xE1 <= b0 <= 0xEC && IsContinuation(b1))
    || (b0 == 0xED && 0x80 <= b1 <= 0x9F)
    || (0xEE <= b0 <= 0xEF && IsContinuation(b1))
    || (b0 == 0xF0 && 0x90 <= b1 <= 0xBF)
    || (0xF1 <= b0 <= 0xF3 && IsContinuation(b1))
    || (b0 == 0xF4 && 0x80 <= b1 <= 0x8F)
  }

  /** Length of the well-formed character at the start of `s`, or 0 if `s` does not start with one. */
  function CharLen(s: seq<bv8>): (n: nat)
    ensures n <= |s| && n <= 4
    ensures n > 0 ==> n == Width(s[0])
    ensures |s| > 0 && s[0] < 0x80 ==> n == 1
  {
    if |s| == 0 then 0
    else
      var w := Width(s[0]);
      if w == 1 then 1
      else if w == 2 then (if |s| >= 2 && IsContinuation(s[1]) then 2 else 0)
      else if w == 3 then (if |s| >= 3 && SecondOk(s[0], s[1]) && IsContinuation(s[2]) then 3 else 0)
      else if w == 4 then
        (if |s| >= 4 && SecondOk(s[0], s[1]) && IsContinuation(s[2]) && IsContinuation(s[3]) then 4 else 0)
      else 0
  }

  /** `s` is a sequence of well-formed UTF-8 characters: `std::str::from_utf8(s)` is `Ok`. */
  predicate Valid(s: seq<bv8>)
    ensures Valid(s) && s != [] ==> !IsContinuation(s[0]) && Width(s[0]) > 0
    decreases |s|
  {
    s == [] || (CharLen(s) > 0 && Valid(s[CharLen(s)..]))
  }

  /** Every byte is ASCII. */
  predicate IsAscii(s: seq<bv8>) {
    forall i :: 0 <= i < |s| ==> s[i] < 0x80
  }

  /** ASCII text is well-formed UTF-8. */
  lemma {:induction false} AsciiIsValid(s: seq<bv8>)
    requires IsAscii(s)
    ensures Valid(s)
    decreases |s|
  {
    if s != [] {
      assert CharLen(s) == 1;
      assert IsAscii(s[1..]) by {
        forall i | 0 <= i < |s[1..]| ensures s[1..][i] < 0x80 {
          assert s[1..][i] == s[i + 1];
        }
      }
      AsciiIsValid(s[1..]);
    }
  }

  /** A character only looks at its own bytes: appending does not change where it ends. */
  lemma CharLenAppend(a: seq<bv8>, rest: seq<bv8>)
    requires CharLen(a) == |a| > 0
    ensures CharLen(a + rest) == |a|
  {
    var s := a + rest;
    assert s[0] == a[0];
    assert |a| >= 2 ==> s[1] == a[1];
    assert |a| >= 3 ==> s[2] == a[2];
    assert |a| >= 4 ==> s[3] == a[3];
  }

  /** Concatenating two well-formed texts gives well-formed text. */
  lemma {:induction false} ValidConcat(a: seq<bv8>, b: seq<bv8>)
    requires Valid(a) && Valid(b)
    ensures Valid(a + b)
    decreases |a|
  {
    if a != [] {
      var n := CharLen(a);
      CharLenPrefix(a);
      CharLenAppend(a[..n], a[n..] + b);
      assert a + b == a[..n] + (a[n..] + b);
      assert CharLen(a + b) == n;
      ValidConcat(a[n..], b);
      assert (a + b)[n..] == a[n..] + b;
      assert Valid((a + b)[n..]);
    } else {
      assert a + b == b;
    }
  }

  /** The bytes of the first character on their own are that character. */
  lemma CharLenPrefix(s: seq<bv8>)
    requires CharLen(s) > 0
    ensures CharLen(s[..CharLen(s)]) == CharLen(s)
  {
    var n := CharLen(s);
    var p := s[..n];
    assert p[0] == s[0];
    assert n >= 2 ==> p[1] == s[1];
    assert n >= 3 ==> p[2] == s[2];
    assert n >= 4 ==> p[3] == s[3];
  }

  // ---------------------------------------------------------------------------
  // An independent reference: the UTF-8 encoding of Unicode scalar values.
  // ---------------------------------------------------------------------------

  /** A Unicode scalar value: a code point that is not a surrogate. */
  type Scalar = c: bv32 | c < 0xD800 || (0xE000 <= c < 0x11_0000)

  /** The UTF-8 encoding of one scalar value, from the table in section 3 of RFC 3629. */
  function EncodeScalar(c: Scalar): (r: seq<bv8>)
    ensures 1 <= |r| <= 4
    ensures CharLen(r) == |r|
  {
    if c < 0x80 then
      [c as bv8]
    else if c < 0x800 then
      [(0xC0 | (c >> 6)) as bv8, (0x80 | (c & 0x3F)) as bv8]
    else if c < 0x1_0000 then
      [(0xE0 | (c >> 12)) as bv8, (0x80 | ((c >> 6) & 0x3F)) as bv8, (0x80 | (c & 0x3F)) as bv8]
    else
      [(0xF0 | (c >> 18)) as bv8, (0x80 | ((c >> 12) & 0x3F)) as bv8,
       (0x80 | ((c >> 6) & 0x3F)) as bv8, (0x80 | (c & 0x3F)) as bv8]
  }

  /** The UTF-8 encoding of a sequence of scalar values. */
  function Encode(cs: seq<Scalar>): seq<bv8>
  {
    if cs == [] then [] else EncodeScalar(cs[0]) + Encode(cs[1..])
  }

  /** Two-byte character: the scalar value it encodes. */
  lemma DecodeTwo(b0: bv8, b1: bv8)
    requires Width(b0) == 2 && IsContinuation(b1)
    ensures var c := ((b0 as bv32 & 0x1F) << 6) | (b1 as bv32 & 0x3F);
      0x80 <= c < 0x800 && EncodeScalar(c) == [b0, b1]
  {
  }

  /** Three-byte character: the scalar value it encodes. */
  lemma DecodeThree(b0: bv8, b1: bv8, b2: bv8)
    requires Width(b0) == 3 && SecondOk(b0, b1) && IsContinuation(b2)
    ensures var c := ((b0 as bv32 & 0x0F) << 12) | ((b1 as bv32 & 0x3F) << 6) | (b2 as bv32 & 0x3F);
      0x800 <= c < 0x1_0000 && (c < 0xD800 || 0xE000 <= c) && EncodeScalar(c) == [b0, b1, b2]
  {
  }

  /** Four-byte character: the scalar value it encodes. */
  lemma DecodeFour(b0: bv8, b1: bv8, b2: bv8, b3: bv8)
    requires Width(b0) == 4 && SecondOk(b0, b1) && IsContinuation(b2) && IsContinuation(b3)
    ensures var c := ((b0 as bv32 & 0x07) << 18) | ((b1 as bv32 & 0x3F) << 12) | ((b2 as bv32 & 0x3F) << 6) | (b3 as bv32 & 0x3F);
      0x1_0000 <= c < 0x11_0000 && EncodeScalar(c) == [b0, b1, b2, b3]
  {
  }

  /** The scalar value whose encoding is the well-formed character at the start of `s`. */
  function DecodeChar(s: seq<bv8>): (c: Scalar)
    requires CharLen(s) > 0
    ensures EncodeScalar(c) == s[..CharLen(s)]
  {
    var n := CharLen(s);
    if n == 1 then
      assert s[..1] == [s[0]];
      s[0] as bv32
    else if n == 2 then
      DecodeTwo(s[0], s[1]);
      assert s[..2] == [s[0], s[1]];
      ((s[0] as bv32 & 0x1F) << 6) | (s[1] as bv32 & 0x3F)
    else if n == 3 then
      DecodeThree(s[0], s[1], s[2]);
      assert s[..3] == [s[0], s[1], s[2]];
      ((s[0] as bv32 & 0x0F) << 12) | ((s[1] as bv32 & 0x3F) << 6) | (s[2] as bv32 & 0x3F)
    else
      DecodeFour(s[0], s[1], s[2], s[3]);
      assert s[..4] == [s[0], s[1], s[2], s[3]];
      ((s[0] as bv32 & 0x07) << 18) | ((s[1] as bv32 & 0x3F) << 12) | ((s[2] as bv32 & 0x3F) << 6) | (s[3] as bv32 & 0x3F)
  }

  /** Encoding distributes over prepending one scalar value. */
  lemma EncodeCons(c: Scalar, cs: seq<Scalar>)
    ensures Encode([c] + cs) == EncodeScalar(c) + Encode(cs)
  {
    assert ([c] + cs)[1..] == cs;
  }

  /** The scalar values a well-formed text encodes. */
  function Decode(s: seq<bv8>): (cs: seq<Scalar>)
    requires Valid(s)
    ensures Encode(cs) == s
    decreases |s|
  {
    if s == [] then []
    else
      var n := CharLen(s);
      assert Valid(s[n..]);
      var c := DecodeChar(s);
      var rest := Decode(s[n..]);
      EncodeCons(c, rest);
      assert s[..n] + s[n..] == s;
      [c] + rest
  }

  /** Every encoding of scalar values is well-formed. */
  lemma {:induction false} EncodeIsValid(cs: seq<Scalar>)
    ensures Valid(Encode(cs))
  {
    if cs != [] {
      var e := EncodeScalar(cs[0]);
      EncodeIsValid(cs[1..]);
      CharLenAppend(e, Encode(cs[1..]));
      assert (e + Encode(cs[1..]))[|e|..] == Encode(cs[1..]);
    }
  }

  /** Well-formed UTF-8 is exactly the set of encodings of scalar-value sequences. */
  lemma ValidIffEncoding(s: seq<bv8>)
    ensures Valid(s) <==> exists cs :: Encode(cs) == s
  {
    if Valid(s) {
      var cs := Decode(s);
      assert Encode(cs) == s;
    }
    if cs :| Encode(cs) == s {
      EncodeIsValid(cs);
    }
  }

  // ---------------------------------------------------------------------------
  // String::from_utf8_lossy
  // ---------------------------------------------------------------------------

  /** U+FFFD REPLACEMENT CHARACTER, encoded. */
  const Replacement: seq<bv8> := [0xEF, 0xBF, 0xBD]

  /**
   * Number of bytes the lossy decoder takes as one ill-formed sequence at the
   * start of `s`: the lead byte and the continuation bytes that still fit the
   * beginning of a well-formed character (the "maximal subpart").
   */
  function InvalidLen(s: seq<bv8>): (n: nat)
    requires |s| > 0 && CharLen(s) == 0
    ensures 1 <= n <= |s| && n <= 3
  {
    if |s| >= 2 && SecondOk(s[0], s[1]) then
      if |s| >= 3 && Width(s[0]) == 4 && IsContinuation(s[2]) then 3 else 2
    else 1
  }

  /** `String::from_utf8_lossy`: well-formed characters are kept, each ill-formed sequence becomes U+FFFD. */
  function Lossy(s: seq<bv8>): (r: seq<bv8>)
    ensures Valid(r)
    decreases |s|
  {
    if s == [] then []
    else if CharLen(s) > 0 then
      var n := CharLen(s);
      CharLenPrefix(s);
      assert Valid(s[..n]) by { assert s[..n][n..] == []; }
      ValidConcat(s[..n], Lossy(s[n..]));
      s[..n] + Lossy(s[n..])
    else
      assert Valid(Replacement) by {
        assert CharLen(Replacement) == 3;
        assert Replacement[3..] == [];
      }
      ValidConcat(Replacement, Lossy(s[InvalidLen(s)..]));
      Replacement + Lossy(s[InvalidLen(s)..])
  }

  /** On well-formed input the lossy conversion changes nothing. */
  lemma {:induction false} LossyOfValid(s: seq<bv8>)
    requires Valid(s)
    ensures Lossy(s) == s
    decreases |s|
  {
    if s != [] {
      LossyOfValid(s[CharLen(s)..]);
    }
  }
}
