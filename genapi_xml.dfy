/**
 * The pure helpers of the GenICam XML loader: the data model of node
 * metadata (byte order, bitfields, addressing) and the small parsers the
 * element handlers call, plus the two builders that collect an element's
 * children and resolve them into addressing and bitfield metadata.
 */
module GenApiXml {
  import opened Bytes
  import opened Wrappers
  import opened Text

  /** Byte order used to interpret a multi-byte register payload. */
  datatype ByteOrder = Little | Big

  /** A sub-range of a register payload. */
  datatype BitField = BitField(bitOffset: u16, bitLength: u16, byteOrder: ByteOrder)

  /** `XmlError`, each variant with its message. */
  datatype XmlError = Xml(message: string) | Invalid(message: string) | Transport(message: string)
                    | Unsupported(message: string)

  const I64_MIN: int := -0x8000_0000_0000_0000
  const I64_MAX: int := 0x7FFF_FFFF_FFFF_FFFF

  // -------------------------------------------------------------------
  // Integers.

  /** `str::replace(c, "")`. */
  function RemoveChar(s: string, c: char): (r: string)
    ensures |r| <= |s| && forall i :: 0 <= i < |r| ==> r[i] != c
    ensures (forall i :: 0 <= i < |s| ==> s[i] != c) ==> r == s
  {
    if |s| == 0 then [] else (if s[0] == c then [] else [s[0]]) + RemoveChar(s[1..], c)
  }

  /**
   * `parse_u64`: the trimmed text is hexadecimal after a `0x` prefix and
   * decimal otherwise; underscores are ignored in both.
   */
  function ParseU64(value: string): (r: Result<u64, XmlError>)
    ensures r.Err? ==> r.error.Invalid?
  {
    var trimmed := Trim(value);
    if StartsWith(trimmed, "0x") then
      match ParseUnsigned(RemoveChar(trimmed[2..], '_'), 16, U64_MAX)
      case Ok(n) => Ok(n as u64)
      case Err(e) => Err(Invalid("invalid hex value: " + e))
    else
      match ParseUnsigned(RemoveChar(trimmed, '_'), 10, U64_MAX)
      case Ok(n) => Ok(n as u64)
      case Err(e) => Err(Invalid("invalid integer: " + e))
  }

  /** `parse_i64`: as `parse_u64`, into the range of `i64`, with an optional sign. */
  function ParseI64(value: string): (r: Result<int, XmlError>)
    ensures r.Ok? ==> I64_MIN <= r.value <= I64_MAX
    ensures r.Err? ==> r.error.Invalid?
  {
    var trimmed := Trim(value);
    if StartsWith(trimmed, "0x") then
      match ParseSigned(RemoveChar(trimmed[2..], '_'), 16, I64_MIN, I64_MAX)
      case Ok(n) => Ok(n)
      case Err(e) => Err(Invalid("invalid hex value: " + e))
    else
      match ParseSigned(RemoveChar(trimmed, '_'), 10, I64_MIN, I64_MAX)
      case Ok(n) => Ok(n)
      case Err(e) => Err(Invalid("invalid integer: " + e))
  }

  /** A number made of digits and minus signs is its own trim, holds no underscore and has no `0x` prefix. */
  lemma PlainNumber(s: string)
    requires forall i :: 0 <= i < |s| ==> s[i] == '-' || '0' <= s[i] <= '9'
    ensures Trim(s) == s && RemoveChar(s, '_') == s && !StartsWith(s, "0x")
  {
    PlainTrim(s);
    PlainNoUnderscore(s);
    PlainNotHex(s);
  }

  lemma PlainTrim(s: string)
    requires forall i :: 0 <= i < |s| ==> s[i] == '-' || '0' <= s[i] <= '9'
    ensures Trim(s) == s
  {
    TrimNoWhitespace(s);
  }

  lemma PlainNoUnderscore(s: string)
    requires forall i :: 0 <= i < |s| ==> s[i] == '-' || '0' <= s[i] <= '9'
    ensures RemoveChar(s, '_') == s
  {
  }

  lemma PlainNotHex(s: string)
    requires forall i :: 0 <= i < |s| ==> s[i] == '-' || '0' <= s[i] <= '9'
    ensures !StartsWith(s, "0x")
  {
    if |s| >= 2 {
      assert s[..2][1] == s[1];
    }
  }

  /** Decimal digits are digits of radix 10. */
  lemma DecimalShape(d: string)
    requires |d| >= 1 && forall i :: 0 <= i < |d| ==> '0' <= d[i] <= '9'
    ensures Trim(d) == d && RemoveChar(d, '_') == d && !StartsWith(d, "0x") && AllDigits(d, 10)
    ensures Unsigned(d, false) == d && Unsigned(d, true) == d && SignedValue(d, 10) == DigitsValue(d, 10)
  {
    PlainNumber(d);
    DecimalDigits(d);
    UnsignedDecimal(d);
  }

  lemma DecimalDigits(d: string)
    requires forall i :: 0 <= i < |d| ==> '0' <= d[i] <= '9'
    ensures AllDigits(d, 10)
  {
    forall i | 0 <= i < |d|
      ensures IsDigitOf(d[i], 10)
    {
    }
  }

  lemma UnsignedDecimal(d: string)
    requires |d| >= 1 && '0' <= d[0] <= '9'
    ensures Unsigned(d, false) == d && Unsigned(d, true) == d && SignedValue(d, 10) == DigitsValue(d, 10)
  {
  }

  /** Every `u64` written in decimal parses back to itself. */
  lemma ParseU64Decimal(n: nat)
    requires n <= U64_MAX
    ensures ParseU64(NatToDecimal(n)) == Ok(n)
  {
    DecimalShape(NatToDecimal(n));
    DecimalRoundTrip(n);
  }

  /** Every byte written as `0x` and two hexadecimal digits parses back to itself. */
  lemma ParseU64Hex(b: u8)
    ensures ParseU64("0x" + HexByte(b)) == Ok(b)
  {
    var s := "0x" + HexByte(b);
    var h := HexByte(b);
    assert forall i :: 0 <= i < |h| ==> DigitValue(h[i]) < 16;
    assert forall i :: 0 <= i < |s| ==> !IsWhitespace(s[i]);
    TrimNoWhitespace(s);
    assert s[2..] == h;
    assert '_' !in h;
  }

  function Abs(n: int): nat { if n < 0 then -n else n }

  /** `format!("{n}")` for an integer. */
  function IntToDecimal(n: int): string
  {
    (if n < 0 then "-" else "") + NatToDecimal(Abs(n))
  }

  /** Every value of `i64` written in decimal parses back to itself. */
  lemma ParseI64Decimal(n: int)
    requires I64_MIN <= n <= I64_MAX
    ensures ParseI64(IntToDecimal(n)) == Ok(n)
  {
    var d := NatToDecimal(Abs(n));
    DecimalRoundTrip(Abs(n));
    if n < 0 {
      NegativeShape(d);
      assert IntToDecimal(n) == "-" + d;
      ParseI64Plain("-" + d);
    } else {
      DecimalShape(d);
      assert IntToDecimal(n) == d;
      ParseI64Plain(d);
    }
  }

  /** A text that needs no trimming, has no underscore and no `0x` is parsed as a decimal `i64`. */
  lemma ParseI64Plain(s: string)
    requires Trim(s) == s && RemoveChar(s, '_') == s && !StartsWith(s, "0x")
    requires ParseSigned(s, 10, I64_MIN, I64_MAX).Ok?
    ensures ParseI64(s) == Ok(ParseSigned(s, 10, I64_MIN, I64_MAX).value)
  {
  }

  lemma NegativeShape(d: string)
    requires |d| >= 1 && forall i :: 0 <= i < |d| ==> '0' <= d[i] <= '9'
    ensures Trim("-" + d) == "-" + d && RemoveChar("-" + d, '_') == "-" + d && !StartsWith("-" + d, "0x")
    ensures Unsigned("-" + d, true) == d && SignedValue("-" + d, 10) + DigitsValue(d, 10) == 0
  {
    var s := "-" + d;
    assert forall i :: 1 <= i < |s| ==> s[i] == d[i - 1];
    PlainNumber(s);
    NegativeValue(d);
  }

  lemma NegativeValue(d: string)
    ensures Unsigned("-" + d, true) == d && SignedValue("-" + d, 10) + DigitsValue(d, 10) == 0
  {
    assert ("-" + d)[1..] == d;
  }

  lemma {:induction false} RemoveCharAppend(a: string, b: string, c: char)
    ensures RemoveChar(a + b, c) == RemoveChar(a, c) + RemoveChar(b, c)
  {
    if |a| > 0 {
      var h := if a[0] == c then [] else [a[0]];
      assert (a + b)[0] == a[0] && (a + b)[1..] == a[1..] + b;
      assert RemoveChar(a + b, c) == h + RemoveChar(a[1..] + b, c);
      assert RemoveChar(a, c) == h + RemoveChar(a[1..], c);
      RemoveCharAppend(a[1..], b, c);
    } else {
      assert a + b == b;
    }
  }

  /** Hexadecimal digits are neither whitespace nor underscores. */
  lemma HexDigitChars(h: string)
    requires AllDigits(h, 16)
    ensures forall i :: 0 <= i < |h| ==> ('0' <= h[i] <= '9') || ('a' <= h[i] <= 'f') || ('A' <= h[i] <= 'F')
  {
  }

  lemma HexTextTrim(s: string)
    requires forall i :: 0 <= i < |s| ==> s[i] == '_' || s[i] == 'x' || ('0' <= s[i] <= '9') || ('a' <= s[i] <= 'f') || ('A' <= s[i] <= 'F')
    ensures Trim(s) == s
  {
    TrimNoWhitespace(s);
  }

  lemma DigitsValueAppendPair(x: string, y: string)
    requires |y| == 2
    ensures DigitsValue(x + y, 16) == DigitsValue(x, 16) * 0x100 + DigitsValue(y, 16)
  {
    var xy := x + y;
    assert xy[..|xy| - 1] == x + [y[0]];
    assert (x + [y[0]])[..|x|] == x;
    assert DigitsValue(x + [y[0]], 16) == DigitsValue(x, 16) * 16 + DigitValue(y[0]);
    assert y[..1] == [y[0]] && [y[0]][..0] == [];
    assert DigitsValue([y[0]], 16) == DigitValue(y[0]);
    assert DigitsValue(y, 16) == DigitValue(y[0]) * 16 + DigitValue(y[1]);
  }

  /** Underscores group hexadecimal digits: `0xAA_BB` is the two bytes read as one number. */
  lemma ParseU64GroupedHex(a: u8, b: u8)
    ensures ParseU64("0x" + HexByte(a) + "_" + HexByte(b)) == Ok(a * 0x100 + b)
  {
    var ha := HexByte(a);
    var hb := HexByte(b);
    var s := "0x" + HexByte(a) + "_" + HexByte(b);
    GroupedHexText(ha, hb);
    GroupedHexValue(a, b);
    ParseU64HexPlain(s);
  }

  lemma GroupedHexText(ha: string, hb: string)
    requires AllDigits(ha, 16) && AllDigits(hb, 16)
    ensures var s := "0x" + ha + "_" + hb;
      Trim(s) == s && StartsWith(s, "0x") && RemoveChar(s[2..], '_') == ha + hb
  {
    var s := "0x" + ha + "_" + hb;
    GroupedHexTrim(ha, hb);
    assert s[..2] == "0x" && s[2..] == ha + "_" + hb;
    GroupedHexRemove(ha, hb);
  }

  lemma GroupedHexTrim(ha: string, hb: string)
    requires AllDigits(ha, 16) && AllDigits(hb, 16)
    ensures Trim("0x" + ha + "_" + hb) == "0x" + ha + "_" + hb
  {
    var s := "0x" + ha + "_" + hb;
    HexDigitChars(ha);
    HexDigitChars(hb);
    assert forall i :: 0 <= i < |s| ==> s[i] == '_' || s[i] == 'x' || ('0' <= s[i] <= '9') || ('a' <= s[i] <= 'f') || ('A' <= s[i] <= 'F');
    HexTextTrim(s);
  }

  lemma GroupedHexRemove(ha: string, hb: string)
    requires AllDigits(ha, 16) && AllDigits(hb, 16)
    ensures RemoveChar(ha + "_" + hb, '_') == ha + hb
  {
    HexDigitChars(ha);
    HexDigitChars(hb);
    RemoveCharAppend(ha + "_", hb, '_');
    RemoveCharAppend(ha, "_", '_');
    assert RemoveChar(ha, '_') == ha;
    assert RemoveChar(hb, '_') == hb;
    assert RemoveChar("_", '_') == "";
  }

  lemma GroupedHexValue(a: u8, b: u8)
    ensures ParseUnsigned(HexByte(a) + HexByte(b), 16, U64_MAX) == Ok(a * 0x100 + b)
  {
    var ha := HexByte(a);
    var hb := HexByte(b);
    DigitsValueAppendPair(ha, hb);
    assert Unsigned(ha + hb, false) == ha + hb;
    assert AllDigits(ha + hb, 16);
  }

  /** A trimmed text after `0x` is parsed as hexadecimal. */
  lemma ParseU64HexPlain(s: string)
    requires Trim(s) == s && StartsWith(s, "0x")
    requires ParseUnsigned(RemoveChar(s[2..], '_'), 16, U64_MAX).Ok?
    ensures ParseU64(s) == Ok(ParseUnsigned(RemoveChar(s[2..], '_'), 16, U64_MAX).value)
  {
  }

  /** An unsigned value takes no minus sign. */
  lemma ParseU64RejectsMinus(d: string)
    requires |d| >= 1 && forall i :: 0 <= i < |d| ==> '0' <= d[i] <= '9'
    ensures ParseU64("-" + d) == Err(Invalid("invalid integer: " + "invalid digit found in string"))
  {
    NegativeShape(d);
    var s := "-" + d;
    assert Unsigned(s, false) == s;
    assert !IsDigitOf(s[0], 10);
    assert ParseUnsigned(s, 10, U64_MAX) == Err("invalid digit found in string");
  }

  // -------------------------------------------------------------------
  // Access modes and byte orders.

  /** Access privileges of a node. */
  datatype AccessMode = RO | WO | RW

  function AccessModeName(m: AccessMode): string
  {
    match m
    case RO => "RO"
    case WO => "WO"
    case RW => "RW"
  }

  /** The mode an upper-case name stands for. */
  function AccessModeNamed(upper: string): (m: Option<AccessMode>)
    ensures m.Some? ==> AccessModeName(m.value) == upper
  {
    if upper == "RO" then Some(RO)
    else if upper == "WO" then Some(WO)
    else if upper == "RW" then Some(RW)
    else None
  }

  /** `AccessMode::parse`: the trimmed text, upper-cased, names the mode. */
  function ParseAccessMode(value: string): (r: Result<AccessMode, XmlError>)
    ensures r.Err? ==> r.error == Invalid("unknown access mode: " + ToAsciiUpper(Trim(value)))
  {
    var upper := ToAsciiUpper(Trim(value));
    match AccessModeNamed(upper)
    case Some(m) => Ok(m)
    case None => Err(Invalid("unknown access mode: " + upper))
  }

  /** A mode is parsed from exactly the texts that trim and upper-case to its name. */
  lemma ParseAccessModeExactly(value: string, m: AccessMode)
    ensures ParseAccessMode(value) == Ok(m) <==> ToAsciiUpper(Trim(value)) == AccessModeName(m)
  {
    var upper := ToAsciiUpper(Trim(value));
    if upper == AccessModeName(m) {
      match m
      case RO =>
      case WO => assert upper != "RO" by { assert upper[0] == 'W'; }
      case RW =>
        assert upper != "RO" by { assert upper[1] == 'W'; }
        assert upper != "WO" by { assert upper[0] == 'R'; }
    }
  }

  /** Parsing ignores the case of the text. */
  lemma AccessModeCaseInsensitive(value: string)
    ensures ParseAccessMode(ToAsciiLower(value)) == ParseAccessMode(value)
  {
    TrimCase(value);
    CaseOfCase(Trim(value));
  }

  function ByteOrderName(o: ByteOrder): string
  {
    match o
    case Little => "littleendian"
    case Big => "bigendian"
  }

  /** The order a lower-case name stands for. */
  function ByteOrderNamed(lower: string): (o: Option<ByteOrder>)
    ensures o.Some? ==> ByteOrderName(o.value) == lower
  {
    if lower == "littleendian" then Some(Little)
    else if lower == "bigendian" then Some(Big)
    else None
  }

  /** `ByteOrder::parse`: the trimmed text, lower-cased, names the order. */
  function ParseByteOrder(tag: string): (r: Option<ByteOrder>)
    ensures r.Some? ==> ToAsciiLower(Trim(tag)) == ByteOrderName(r.value)
    ensures r.None? <==> ToAsciiLower(Trim(tag)) != ByteOrderName(Big) && ToAsciiLower(Trim(tag)) != ByteOrderName(Little)
  {
    var lower := ToAsciiLower(Trim(tag));
    if lower == ByteOrderName(Big) then
      assert lower != "littleendian" by { assert lower[0] == 'b'; }
      ByteOrderNamed(lower)
    else ByteOrderNamed(lower)
  }

  /** Parsing ignores the case of the text. */
  lemma ByteOrderCaseInsensitive(tag: string)
    ensures ParseByteOrder(ToAsciiUpper(tag)) == ParseByteOrder(tag)
  {
    TrimCase(tag);
    CaseOfCase(Trim(tag));
  }

  // -------------------------------------------------------------------
  // Enumeration entries.

  /** Where an enumeration entry's value comes from. */
  datatype EnumValueSrc = Literal(value: int) | FromNode(node: string)

  datatype EnumEntryDecl = EnumEntryDecl(name: string, value: EnumValueSrc, displayName: Option<string>)

  /** An attribute that is absent or blank is `None`; otherwise its trimmed text. */
  function NonBlank(v: Option<string>): (r: Option<string>)
    ensures r.Some? <==> v.Some? && Trim(v.value) != []
    ensures r.Some? ==> r.value == Trim(v.value)
  {
    match v
    case None => None
    case Some(s) => if Trim(s) == [] then None else Some(Trim(s))
  }

  /**
   * `build_enum_entry`: a `pValue` provider wins over a literal `Value`;
   * without either the entry is invalid.
   */
  function BuildEnumEntry(name: string, literal: Option<string>, provider: Option<string>,
                          displayName: Option<string>): (r: Result<EnumEntryDecl, XmlError>)
    ensures r.Ok? ==> r.value.name == name && r.value.displayName == displayName
    ensures r.Err? <==> NonBlank(provider).None? && (NonBlank(literal).None? || ParseI64(NonBlank(literal).value).Err?)
    ensures NonBlank(provider).None? && NonBlank(literal).None? ==>
      r == Err(Invalid("EnumEntry " + name + " is missing <Value> or <pValue>"))
  {
    match NonBlank(provider)
    case Some(node) => Ok(EnumEntryDecl(name, FromNode(node), displayName))
    case None =>
      match NonBlank(literal)
      case Some(value) =>
        (match ParseI64(value)
         case Ok(n) => Ok(EnumEntryDecl(name, Literal(n), displayName))
         case Err(e) => Err(e))
      case None => Err(Invalid("EnumEntry " + name + " is missing <Value> or <pValue>"))
  }

  /** A provider that is not blank is used whatever the literal says. */
  lemma EnumProviderPreferred(name: string, literal: Option<string>, node: string, displayName: Option<string>)
    requires Trim(node) != []
    ensures BuildEnumEntry(name, literal, Some(node), displayName) == Ok(EnumEntryDecl(name, FromNode(Trim(node)), displayName))
  {
  }

  /** A blank attribute behaves exactly as a missing one. */
  lemma EnumBlankIsAbsent(name: string, literal: Option<string>, provider: Option<string>,
                          displayName: Option<string>, blank: string)
    requires forall i :: 0 <= i < |blank| ==> IsWhitespace(blank[i])
    ensures BuildEnumEntry(name, Some(blank), provider, displayName) == BuildEnumEntry(name, None, provider, displayName)
    ensures BuildEnumEntry(name, literal, Some(blank), displayName) == BuildEnumEntry(name, literal, None, displayName)
  {
    TrimEmpty(blank);
  }

  /** A decimal literal is the entry's value when no provider is given. */
  lemma EnumLiteralDecimal(name: string, n: nat, displayName: Option<string>)
    requires n <= I64_MAX
    ensures BuildEnumEntry(name, Some(NatToDecimal(n)), None, displayName) == Ok(EnumEntryDecl(name, Literal(n), displayName))
  {
    NatLiteral(n);
    EnumLiteralOf(name, NatToDecimal(n), n, displayName);
  }

  /** A natural number written in decimal needs no trimming and parses back as an `i64`. */
  lemma NatLiteral(n: nat)
    requires n <= I64_MAX
    ensures Trim(NatToDecimal(n)) == NatToDecimal(n) && ParseI64(NatToDecimal(n)) == Ok(n)
  {
    ParseI64Decimal(n);
    assert IntToDecimal(n) == NatToDecimal(n);
    DecimalShape(NatToDecimal(n));
  }

  lemma EnumLiteralOf(name: string, d: string, n: int, displayName: Option<string>)
    requires Trim(d) == d && d != [] && ParseI64(d) == Ok(n)
    ensures BuildEnumEntry(name, Some(d), None, displayName) == Ok(EnumEntryDecl(name, Literal(n), displayName))
  {
  }

  // -------------------------------------------------------------------
  // Float scales.

  /** A `<Scale>` value: a ratio `num/den`, or a decimal whose conversion is not modelled. */
  datatype Scale = Ratio(num: int, den: int) | DecimalText(text: string)

  /** `parse_scale`: `num/den` as two `i64`s with a non-zero denominator. */
  function ParseScale(text: string): (r: Result<Scale, XmlError>)
    ensures Trim(text) == [] ==> r == Err(Invalid("empty scale value"))
    ensures r.Ok? && r.value.Ratio? ==> r.value.den != 0 && I64_MIN <= r.value.num <= I64_MAX
    ensures r.Ok? ==> (r.value.Ratio? <==> '/' in Trim(text))
  {
    var trimmed := Trim(text);
    if trimmed == [] then Err(Invalid("empty scale value"))
    else match SplitOnce(trimmed, '/')
      case Some((num, den)) =>
        (match ParseI64(num)
         case Err(e) => Err(e)
         case Ok(n) =>
           match ParseI64(den)
           case Err(e) => Err(e)
           case Ok(d) => if d == 0 then Err(Invalid("scale denominator is zero")) else Ok(Ratio(n, d)))
      case None => Ok(DecimalText(trimmed))
  }

  lemma {:induction false} SplitOnceAt(before: string, c: char, after: string)
    requires c !in before
    ensures SplitOnce(before + [c] + after, c) == Some((before, after))
  {
    if |before| > 0 {
      assert (before + [c] + after)[1..] == before[1..] + [c] + after;
      SplitOnceAt(before[1..], c, after);
      assert before == [before[0]] + before[1..];
    }
  }

  /** A ratio of two decimal numbers reads back as that ratio. */
  lemma ScaleRatioRoundTrip(num: nat, den: nat)
    requires num <= I64_MAX && 0 < den <= I64_MAX
    ensures ParseScale(NatToDecimal(num) + "/" + NatToDecimal(den)) == Ok(Ratio(num, den))
  {
    var a := NatToDecimal(num);
    var b := NatToDecimal(den);
    RatioText(a, b);
    ParseI64Decimal(num);
    ParseI64Decimal(den);
    assert IntToDecimal(num) == a && IntToDecimal(den) == b;
    ParseScaleRatio(a + "/" + b, a, b, num, den);
  }

  lemma ParseScaleRatio(s: string, a: string, b: string, n: int, d: int)
    requires s != [] && Trim(s) == s && SplitOnce(s, '/') == Some((a, b))
    requires ParseI64(a) == Ok(n) && ParseI64(b) == Ok(d) && d != 0
    ensures ParseScale(s) == Ok(Ratio(n, d))
  {
  }

  lemma RatioText(a: string, b: string)
    requires |a| >= 1 && forall i :: 0 <= i < |a| ==> '0' <= a[i] <= '9'
    requires forall i :: 0 <= i < |b| ==> '0' <= b[i] <= '9'
    ensures Trim(a + "/" + b) == a + "/" + b && SplitOnce(a + "/" + b, '/') == Some((a, b))
  {
    var s := a + "/" + b;
    assert forall i :: 0 <= i < |s| ==> s[i] == '/' || '0' <= s[i] <= '9';
    assert forall i :: 0 <= i < |s| ==> !IsWhitespace(s[i]);
    TrimNoWhitespace(s);
    assert '/' !in a;
    SplitOnceAt(a, '/', b);
  }

  /**
   * The scale of a Float node from its `<Numerator>` and `<Denominator>`:
   * a lone numerator is over 1; a zero or lone denominator leaves no scale.
   */
  function ResolveScale(num: Option<int>, den: Option<int>): (r: Option<(int, int)>)
    ensures r.Some? ==> r.value.1 != 0
    ensures r.Some? <==> num.Some? && (den.None? || den.value != 0)
    ensures r.Some? ==> r.value.0 == num.value && (den.None? ==> r.value.1 == 1) && (den.Some? ==> r.value.1 == den.value)
  {
    match (num, den)
    case (Some(n), Some(d)) => if d != 0 then Some((n, d)) else None
    case (None, None) => None
    case (Some(n), None) => Some((n, 1))
    case _ => None
  }

  // -------------------------------------------------------------------
  // The FirstURL register.

  /** Where the device description lives. */
  datatype UrlLocation = Local(address: u64, length: u64) | LocalNamed(name: string) | Http(url: string)
                       | File(url: string)

  /** What a `local:` URL key sets. */
  datatype LocalKey = AddressKey | LengthKey | OtherKey

  /** The key a lower-case name stands for. */
  function LocalKeyNamed(lower: string): LocalKey
  {
    if lower == "address" || lower == "addr" || lower == "offset" then AddressKey
    else if lower == "length" || lower == "size" then LengthKey
    else OtherKey
  }

  /** Keys are trimmed and compared without regard to case. */
  function LocalKeyOf(key: string): LocalKey
  {
    LocalKeyNamed(ToAsciiLower(Trim(key)))
  }

  lemma LocalKeyCaseInsensitive(key: string)
    ensures LocalKeyOf(ToAsciiUpper(key)) == LocalKeyOf(key)
  {
    TrimCase(key);
    CaseOfCase(Trim(key));
  }

  /** What one `;`- or `,`-separated token of a local URL does. */
  datatype TokenEffect = Skip | SetAddress(parsed: Result<u64, XmlError>) | SetLength(parsed: Result<u64, XmlError>)
                       | Named(name: string)

  function TokenEffectOf(part: string): TokenEffect
  {
    var token := Trim(part);
    if token == [] then Skip
    else match SplitOnce(token, '=')
      case Some((key, value)) =>
        (match LocalKeyOf(key)
         case AddressKey => SetAddress(ParseU64(Trim(value)))
         case LengthKey => SetLength(ParseU64(Trim(value)))
         case OtherKey => Skip)
      case None => if StartsWith(token, "0x") then SetAddress(ParseU64(token)) else Named(token)
  }

  /** A token that lets the scan go on. */
  predicate Passes(e: TokenEffect)
  {
    e.Skip? || (e.SetAddress? && e.parsed.Ok?) || (e.SetLength? && e.parsed.Ok?)
  }

  /** The effect of every token, in order. */
  function Effects(parts: seq<string>): (r: seq<TokenEffect>)
    ensures |r| == |parts|
  {
    if parts == [] then [] else [TokenEffectOf(parts[0])] + Effects(parts[1..])
  }

  lemma {:induction false} EffectAt(parts: seq<string>, k: nat)
    requires k < |parts|
    ensures Effects(parts)[k] == TokenEffectOf(parts[k])
  {
    if k > 0 {
      EffectAt(parts[1..], k - 1);
    }
  }

  /**
   * The outcome of the token effects from the current one on, given the
   * address and length set so far: the first failing number or bare name
   * ends the scan; at the end both the address and the length must be known.
   */
  function LocalFrom(effects: seq<TokenEffect>, address: Option<u64>, length: Option<u64>, rest: string): Result<UrlLocation, XmlError>
    decreases |effects|
  {
    if effects == [] then
      if address.Some? && length.Some? then Ok(Local(address.value, length.value))
      else Err(Invalid("unsupported local URL: " + rest))
    else match effects[0]
      case Skip => LocalFrom(effects[1..], address, length, rest)
      case SetAddress(parsed) =>
        (match parsed
         case Err(e) => Err(e)
         case Ok(a) => LocalFrom(effects[1..], Some(a), length, rest))
      case SetLength(parsed) =>
        (match parsed
         case Err(e) => Err(e)
         case Ok(n) => LocalFrom(effects[1..], address, Some(n), rest))
      case Named(token) => Ok(LocalNamed(token))
  }

  const LOCAL_SEPARATORS: set<char> := {';', ','}

  /** The location a `local:` URL names, `rest` being the text after the scheme. */
  function LocalUrl(rest: string): (r: Result<UrlLocation, XmlError>)
    ensures Trim(rest) == [] ==> r == Err(Invalid("empty local URL"))
  {
    var trimmed := Trim(rest);
    if trimmed == [] then Err(Invalid("empty local URL"))
    else LocalFrom(Effects(Split(trimmed, LOCAL_SEPARATORS)), None, None, rest)
  }

  /**
   * `parse_local_url`: one pass over the tokens with early returns; each
   * token is classified by `TokenEffectOf` and the scan acts on the outcome.
   */
  method ParseLocalUrl(rest: string) returns (r: Result<UrlLocation, XmlError>)
    ensures r == LocalUrl(rest)
  {
    var trimmed := Trim(rest);
    if trimmed == [] {
      return Err(Invalid("empty local URL"));
    }
    var parts := Split(trimmed, LOCAL_SEPARATORS);
    var address: Option<u64> := None;
    var length: Option<u64> := None;
    var i := 0;
    while i < |parts|
      invariant 0 <= i <= |parts|
      invariant LocalUrl(rest) == LocalFrom(Effects(parts)[i..], address, length, rest)
    {
      EffectsAt(parts, i);
      ghost var more := Effects(parts)[i + 1..];
      assert ([TokenEffectOf(parts[i])] + more)[1..] == more;
      match TokenEffectOf(parts[i]) {
        case Skip =>
        case SetAddress(parsed) =>
          if parsed.Err? {
            return Err(parsed.error);
          }
          address := Some(parsed.value);
        case SetLength(parsed) =>
          if parsed.Err? {
            return Err(parsed.error);
          }
          length := Some(parsed.value);
        case Named(token) =>
          return Ok(LocalNamed(token));
      }
      i := i + 1;
    }
    if address.Some? && length.Some? {
      r := Ok(Local(address.value, length.value));
    } else {
      r := Err(Invalid("unsupported local URL: " + rest));
    }
  }

  /** The effects from token `i` on are token `i`'s followed by the rest. */
  lemma EffectsAt(parts: seq<string>, i: nat)
    requires i < |parts|
    ensures Effects(parts)[i..] == [TokenEffectOf(parts[i])] + Effects(parts)[i + 1..]
  {
    EffectAt(parts, i);
    SliceAt(Effects(parts), i);
  }

  lemma SliceAt<T>(s: seq<T>, i: nat)
    requires i < |s|
    ensures s[i..] == [s[i]] + s[i + 1..]
  {
  }

  /** `UrlLocation::parse`: the scheme decides; only `local:` is looked into. */
  method ParseUrl(url: string) returns (r: Result<UrlLocation, XmlError>)
    ensures StartsWith(url, "local:") ==> r == LocalUrl(url[6..])
    ensures !StartsWith(url, "local:") && (StartsWith(url, "http://") || StartsWith(url, "https://")) ==> r == Ok(Http(url))
    ensures !StartsWith(url, "local:") && !StartsWith(url, "http://") && !StartsWith(url, "https://") ==>
      r == if StartsWith(url, "file://") then Ok(File(url)) else Err(Unsupported("unknown URL scheme: " + url))
  {
    if StartsWith(url, "local:") {
      r := ParseLocalUrl(url[6..]);
    } else if StartsWith(url, "http://") || StartsWith(url, "https://") {
      r := Ok(Http(url));
    } else if StartsWith(url, "file://") {
      r := Ok(File(url));
    } else {
      r := Err(Unsupported("unknown URL scheme: " + url));
    }
  }

  /**
   * A `Local` location needs both numbers: its address was set by some
   * address token (or before the scan) and its length by some length token,
   * and every token passed.
   */
  lemma {:induction false} LocalNeedsBoth(effects: seq<TokenEffect>, address: Option<u64>, length: Option<u64>, rest: string,
                                          x: u64, y: u64)
    requires LocalFrom(effects, address, length, rest) == Ok(Local(x, y))
    ensures address == Some(x) || exists k :: 0 <= k < |effects| && effects[k] == SetAddress(Ok(x))
    ensures length == Some(y) || exists k :: 0 <= k < |effects| && effects[k] == SetLength(Ok(y))
    ensures forall k :: 0 <= k < |effects| ==> Passes(effects[k])
    decreases |effects|
  {
    if effects != [] {
      var tail := effects[1..];
      assert forall k :: 0 <= k < |tail| ==> tail[k] == effects[k + 1];
      match effects[0]
      case Skip => LocalNeedsBoth(tail, address, length, rest, x, y);
      case SetAddress(parsed) => LocalNeedsBoth(tail, Some(parsed.value), length, rest, x, y);
      case SetLength(parsed) => LocalNeedsBoth(tail, address, Some(parsed.value), rest, x, y);
    }
  }

  /** A URL without both an address token and a length token is never `Local`: here are the two tokens. */
  lemma LocalUrlNeedsBoth(rest: string, x: u64, y: u64) returns (i: nat, j: nat)
    requires LocalUrl(rest) == Ok(Local(x, y))
    ensures i < |Split(Trim(rest), LOCAL_SEPARATORS)| && TokenEffectOf(Split(Trim(rest), LOCAL_SEPARATORS)[i]) == SetAddress(Ok(x))
    ensures j < |Split(Trim(rest), LOCAL_SEPARATORS)| && TokenEffectOf(Split(Trim(rest), LOCAL_SEPARATORS)[j]) == SetLength(Ok(y))
  {
    var trimmed := Trim(rest);
    assert trimmed != [];
    var parts := Split(trimmed, LOCAL_SEPARATORS);
    var e := Effects(parts);
    assert LocalFrom(e, None, None, rest) == Ok(Local(x, y));
    LocalNeedsBoth(e, None, None, rest, x, y);
    i :| 0 <= i < |e| && e[i] == SetAddress(Ok(x));
    j :| 0 <= j < |e| && e[j] == SetLength(Ok(y));
    EffectAt(parts, i);
    EffectAt(parts, j);
  }

  /** A bare name ends the scan once every token before it has passed. */
  lemma {:induction false} LocalNamedReached(effects: seq<TokenEffect>, address: Option<u64>, length: Option<u64>,
                                             rest: string, k: nat)
    requires k < |effects| && effects[k].Named?
    requires forall j :: 0 <= j < k ==> Passes(effects[j])
    ensures LocalFrom(effects, address, length, rest) == Ok(LocalNamed(effects[k].name))
    decreases k
  {
    if k > 0 {
      var tail := effects[1..];
      assert forall j :: 0 <= j < |tail| ==> tail[j] == effects[j + 1];
      assert Passes(effects[0]);
      var e := effects[0];
      var a := if e.SetAddress? then Some(e.parsed.value) else address;
      var l := if e.SetLength? then Some(e.parsed.value) else length;
      LocalNamedReached(tail, a, l, rest, k - 1);
    }
  }

  /** A `LocalNamed` result comes from the first token that does not pass, which is a bare name. */
  lemma {:induction false} LocalNamedFound(effects: seq<TokenEffect>, address: Option<u64>, length: Option<u64>,
                                           rest: string, name: string) returns (k: nat)
    requires LocalFrom(effects, address, length, rest) == Ok(LocalNamed(name))
    ensures k < |effects| && effects[k] == Named(name)
    ensures forall j :: 0 <= j < k ==> Passes(effects[j])
    decreases |effects|
  {
    var e := effects[0];
    if e.Named? {
      k := 0;
    } else {
      var tail := effects[1..];
      assert forall j :: 0 <= j < |tail| ==> tail[j] == effects[j + 1];
      var a := if e.SetAddress? then Some(e.parsed.value) else address;
      var l := if e.SetLength? then Some(e.parsed.value) else length;
      var k' := LocalNamedFound(tail, a, l, rest, name);
      k := k' + 1;
    }
  }
}
