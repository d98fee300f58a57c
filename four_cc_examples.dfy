/** The crate's documented examples and unit tests, as lemmas about the model. */
module FourCcExamples {
  import opened Wrappers
  import Utf8
  import AsciiEscape
  import opened FourCc

  const Uuid: Bytes4 := [0x75, 0x75, 0x69, 0x64]   // "uuid"
  const Diuu: Bytes4 := [0x64, 0x69, 0x75, 0x75]   // "diuu"
  const Abcd: Bytes4 := [0x41, 0x42, 0x43, 0x44]   // "ABCD"

  /** Equality is structural: `uuid` equals `b"uuid".into()` and differs from `diuu`. */
  lemma EqualityExample()
    ensures FourCC(Uuid) == FromArray(Uuid)
    ensures FourCC(Uuid) != FromArray(Diuu)
  {
  }

  /** `ABCD` is `0x41424344` in both directions. */
  lemma U32Example()
    ensures ToU32(FourCC(Abcd)) == 0x41424344
    ensures FromU32(0x41424344) == FourCC(Abcd)
  {
  }

  /** The first four bytes of `moofftyp` make `moof`. */
  lemma SliceExample()
    ensures FromSlice(MoofFtyp()) == FourCC(Moof())
  {
  }

  /** `uuid` displays as `uuid` and debug-prints as `FourCC{uuid}`. */
  lemma DisplayTextExample()
    ensures Display(FourCC(Uuid)) == Uuid
    ensures Debug(FourCC(Uuid)) == DebugPrefix + Uuid + DebugSuffix
  {
    assert Utf8.Valid(Uuid) by { PrintableIsValid(Uuid); }
  }

  /** The bytes `u`, 0xFF, `i`, 0x00 display as `u\xffi\x00`. */
  lemma DisplayFallbackExample()
    ensures Display(FourCC([0x75, 0xFF, 0x69, 0x00])) == [0x75, 0x5C, 0x78, 0x66, 0x66, 0x69, 0x5C, 0x78, 0x30, 0x30]
  {
    var b: seq<bv8> := [0x75, 0xFF, 0x69, 0x00];
    assert Utf8.CharLen(b[1..]) == 0;
    assert !Utf8.Valid(b);
    var e := EscapeExample(b);
    PrintableIsValid(e);
    Utf8.LossyOfValid(e);
  }

  /** The escapes of `u`, 0xFF, `i`, 0x00, in order. */
  lemma EscapeExample(b: seq<bv8>) returns (e: seq<bv8>)
    requires b == [0x75, 0xFF, 0x69, 0x00]
    ensures e == AsciiEscape.EscapeAll(b)
    ensures e == [0x75, 0x5C, 0x78, 0x66, 0x66, 0x69, 0x5C, 0x78, 0x30, 0x30]
  {
    var e3 := AsciiEscape.EscapeAll(b[3..]);
    assert b[3..][1..] == [];
    assert e3 == [0x5C, 0x78, 0x30, 0x30];
    var e2 := AsciiEscape.EscapeAll(b[2..]);
    assert b[2..][1..] == b[3..];
    assert e2 == [0x69] + e3;
    var e1 := AsciiEscape.EscapeAll(b[1..]);
    assert b[1..][1..] == b[2..];
    assert AsciiEscape.EscapeDefault(0xFF) == [0x5C, 0x78, 0x66, 0x66];
    assert e1 == [0x5C, 0x78, 0x66, 0x66] + e2;
    e := AsciiEscape.EscapeAll(b);
    assert e == [0x75] + e1;
  }

  /** ... and debug-print as `FourCC{u\xffi\x00}`. */
  lemma DebugFallbackExample()
    ensures Debug(FourCC([0x75, 0xFF, 0x69, 0x00]))
      == DebugPrefix + [0x75, 0x5C, 0x78, 0x66, 0x66, 0x69, 0x5C, 0x78, 0x30, 0x30] + DebugSuffix
  {
    DisplayFallbackExample();
  }

  /**
   * A code whose bytes are not text does not survive serialization: `Serialize`
   * writes its `Display` text and `Deserialize` parses that text with `FromStr`,
   * which keeps the first four escaped bytes `u\xf`.
   */
  lemma SerdeRoundTripChangesFallback()
    ensures var c := FourCC([0x75, 0xFF, 0x69, 0x00]);
      && FromStr(Display(c)) == Ok(FourCC([0x75, 0x5C, 0x78, 0x66]))
      && FromStr(Display(c)).value != c
  {
    DisplayFallbackExample();
  }

  /** Parsing accepts longer strings and drops their tail, so the text does not round-trip. */
  lemma FromStrTruncates()
    ensures var s: Str := MoofFtyp();
      FromStr(s) == Ok(FourCC(Moof())) && Display(FromStr(s).value) != s
  {
    var s := MoofFtyp();
    assert Utf8.Valid(Moof()) by { PrintableIsValid(Moof()); }
    assert Display(FromStr(s).value) == Moof();
    assert |Moof()| != |s|;
  }

  /** `moof` as bytes. */
  function Moof(): (s: seq<bv8>)
    ensures AsciiEscape.AllPrintable(s) && |s| == 4
  {
    [0x6D, 0x6F, 0x6F, 0x66]
  }

  /** `moofftyp` as text. */
  function MoofFtyp(): (s: Str)
    ensures |s| == 8 && s[..4] == Moof()
  {
    var s: seq<bv8> := [0x6D, 0x6F, 0x6F, 0x66, 0x66, 0x74, 0x79, 0x70];
    assert AsciiEscape.AllPrintable(s);
    PrintableIsValid(s);
    s
  }
}
