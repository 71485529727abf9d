/**
 * Bitfield extraction and insertion on register payloads of 1 to 8 bytes.
 * The payload is read as one integer (byte 0 least significant in little
 * endian, most significant in big endian); the field is `bit_length` bits
 * starting `bit_offset` bits from the least significant end (little endian)
 * or from the most significant end (big endian).
 *
 * Bit operations are written on natural numbers: `x >> k` is `x / Pow2(k)`,
 * `x & (2^n - 1)` is `x % Pow2(n)`, and OR-ing bytes or fields into
 * disjoint bit ranges is addition.
 */
module BitOps {
  import opened Bytes
  import opened Wrappers
  import opened GenApiXml

  datatype BitOpsError =
    | UnsupportedWidth(len: nat)
    | UnsupportedLength(bitLength: u16)
    | OutOfRange(len: nat, bitOffset: u16, bitLength: u16)
    | ValueTooWide(bitLength: u16, value: u64)

  /** The configurations `validate_range` accepts for a payload of n bytes. */
  predicate InRange(n: nat, bf: BitField)
  {
    1 <= n <= 8 && 1 <= bf.bitLength <= 64 && bf.bitOffset + bf.bitLength <= 8 * n
  }

  /** Checks the payload width, then the field length, then the field's extent, in that order. */
  function ValidateRange(bits: seq<u8>, bf: BitField): (r: Result<(), BitOpsError>)
    ensures r.Ok? <==> InRange(|bits|, bf)
    ensures r == Err(UnsupportedWidth(|bits|)) <==> |bits| == 0 || |bits| > 8
    ensures r == Err(UnsupportedLength(bf.bitLength)) <==>
      1 <= |bits| <= 8 && (bf.bitLength == 0 || bf.bitLength > 64)
    ensures r == Err(OutOfRange(|bits|, bf.bitOffset, bf.bitLength)) <==>
      1 <= |bits| <= 8 && 1 <= bf.bitLength <= 64 && bf.bitOffset + bf.bitLength > 8 * |bits|
  {
    if |bits| == 0 || |bits| > 8 then Err(UnsupportedWidth(|bits|))
    else if bf.bitLength == 0 || bf.bitLength > 64 then Err(UnsupportedLength(bf.bitLength))
    else if bf.bitOffset + bf.bitLength > |bits| * 8 then Err(OutOfRange(|bits|, bf.bitOffset, bf.bitLength))
    else Ok(())
  }

  /** The all-ones mask of `length` bits; `u64::MAX` for 64. */
  function MaskFor(length: u16): (r: nat)
    requires length < 128
    ensures r + 1 == Pow2(length)
  {
    if length == 64 then
      Pow2Constants();
      U64_MAX
    else
      Pow2(length) - 1
  }

  /** The register payload read as one integer in the given byte order. */
  function RegisterValue(bits: seq<u8>, order: ByteOrder): (r: nat)
    ensures r < Pow2(8 * |bits|)
  {
    match order
    case Little => LeValueBound(bits); LeValue(bits)
    case Big => BeValueBound(bits); BeValue(bits)
  }

  /** The n-byte payload holding integer x in the given byte order. */
  function Encode(x: nat, n: nat, order: ByteOrder): (r: seq<u8>)
    ensures |r| == n
  {
    match order
    case Little => LeBytes(x, n)
    case Big => BeBytes(x, n)
  }

  /** How far the field's least significant bit lies from bit 0 of the register value. */
  function FieldShift(n: nat, bf: BitField): nat
    requires bf.bitOffset + bf.bitLength <= 8 * n
  {
    match bf.byteOrder
    case Little => bf.bitOffset
    case Big => 8 * n - bf.bitOffset - bf.bitLength
  }

  /** x >> k. */
  function Shr(x: nat, k: nat): (r: nat)
    ensures r == x / Pow2(k)
  {
    DivBounds(x, Pow2(k));
    x / Pow2(k)
  }

  /** x & (2^k - 1). */
  function Low(x: nat, k: nat): (r: nat)
    ensures r == x % Pow2(k) && r < Pow2(k)
  {
    ModBounds(x, Pow2(k));
    x % Pow2(k)
  }

  lemma DivBounds(x: nat, p: int)
    requires p > 0
    ensures 0 <= x / p <= x
  {
    var q, r := x / p, x % p;
    assert x == q * p + r && 0 <= r < p;
    if q < 0 {
      MulLe(q, -1, p);
    } else {
      MulLe(1, p, q);
    }
  }

  lemma ModBounds(x: nat, p: int)
    requires p > 0
    ensures 0 <= x % p < p
  {
  }

  /** Bits [shift, shift + len) of x. */
  function FieldOf(x: nat, shift: nat, len: nat): (r: nat)
    ensures r < Pow2(len)
  {
    Low(Shr(x, shift), len)
  }

  /** Bit k of x. */
  function Bit(x: nat, k: nat): nat
  {
    Low(Shr(x, k), 1)
  }

  /** x with bits [shift, shift + len) replaced by v and every other bit kept. */
  function ClearAndSet(x: nat, shift: nat, len: nat, v: nat): nat
  {
    var high := Shr(x, shift + len);
    var p, q := Pow2(shift + len), Pow2(shift);
    MulNat(high, p);
    MulNat(v, q);
    high * p + v * q + Low(x, shift)
  }

  /** What `extract` returns. */
  function ExtractSpec(bits: seq<u8>, bf: BitField): (r: Result<u64, BitOpsError>)
  {
    match ValidateRange(bits, bf)
    case Err(e) => Err(e)
    case Ok(_) =>
      var f := FieldOf(RegisterValue(bits, bf.byteOrder), FieldShift(|bits|, bf), bf.bitLength);
      Pow2Monotone(bf.bitLength, 64);
      Pow2Constants();
      Ok(f)
  }

  /** The payload `insert` leaves behind, or its error. */
  function InsertSpec(bits: seq<u8>, bf: BitField, value: u64): (r: Result<seq<u8>, BitOpsError>)
    ensures r.Ok? ==> |r.value| == |bits|
  {
    match ValidateRange(bits, bf)
    case Err(e) => Err(e)
    case Ok(_) =>
      if value > MaskFor(bf.bitLength) then Err(ValueTooWide(bf.bitLength, value))
      else
        var n := |bits|;
        Ok(Encode(ClearAndSet(RegisterValue(bits, bf.byteOrder), FieldShift(n, bf), bf.bitLength, value), n, bf.byteOrder))
  }

  /** The byte loop both `extract` and `insert` start with: OR each byte into place. */
  method ReadRegister(bits: seq<u8>, order: ByteOrder) returns (value: nat)
    ensures value == RegisterValue(bits, order)
  {
    value := 0;
    var i := 0;
    match order {
      case Little =>
        while i < |bits|
          invariant 0 <= i <= |bits|
          invariant value == LeValue(bits[..i])
        {
          LeValueSnoc(bits[..i], bits[i]);
          assert bits[..i + 1] == bits[..i] + [bits[i]];
          value := value + bits[i] * Pow2(i * 8);
          i := i + 1;
        }
      case Big =>
        while i < |bits|
          invariant 0 <= i <= |bits|
          invariant value == BeValue(bits[..i])
        {
          BeValueSnoc(bits[..i], bits[i]);
          assert bits[..i + 1] == bits[..i] + [bits[i]];
          value := value * 0x100 + bits[i];
          i := i + 1;
        }
    }
    assert bits[..i] == bits;
  }

  /** The byte loop `insert` ends with: store byte i of `full` at its place for the byte order. */
  method WriteRegister(dst: array<u8>, full: nat, order: ByteOrder)
    modifies dst
    ensures dst[..] == Encode(full, dst.Length, order)
  {
    var n := dst.Length;
    var i := 0;
    match order {
      case Little =>
        while i < n
          invariant 0 <= i <= n
          invariant forall k :: 0 <= k < i ==> dst[k] == full / Pow2(8 * k) % 0x100
        {
          dst[i] := full / Pow2(i * 8) % 0x100;
          i := i + 1;
        }
        forall k | 0 <= k < n
          ensures dst[k] == LeBytes(full, n)[k]
        {
          LeBytesAt(full, n, k);
        }
      case Big =>
        while i < n
          invariant 0 <= i <= n
          invariant forall k :: 0 <= k < i ==> dst[k] == full / Pow2(8 * (n - 1 - k)) % 0x100
        {
          dst[i] := full / Pow2((n - 1 - i) * 8) % 0x100;
          i := i + 1;
        }
        forall k | 0 <= k < n
          ensures dst[k] == BeBytes(full, n)[k]
        {
          BeBytesAt(full, n, k);
        }
    }
  }

  /** `extract`: accumulate the payload into one integer, then shift and mask. */
  method Extract(bits: seq<u8>, bf: BitField) returns (r: Result<u64, BitOpsError>)
    ensures r == ExtractSpec(bits, bf)
    ensures r.Ok? ==> r.value <= MaskFor(bf.bitLength)
  {
    var check := ValidateRange(bits, bf);
    if check.Err? {
      return Err(check.error);
    }
    var mask := MaskFor(bf.bitLength);
    var value := ReadRegister(bits, bf.byteOrder);
    var shift := match bf.byteOrder
      case Little => bf.bitOffset
      case Big => |bits| * 8 - bf.bitOffset - bf.bitLength;
    // the value divided by 2^shift, reduced modulo 2^bitLength
    value := Low(Shr(value, shift), bf.bitLength);
    Pow2Monotone(bf.bitLength, 64);
    Pow2Constants();
    r := Ok(value);
  }

  /** `insert`: rewrite the payload in place so that the field holds `value`. */
  method Insert(dst: array<u8>, bf: BitField, value: u64) returns (r: Result<(), BitOpsError>)
    modifies dst
    ensures r.Ok? <==> InsertSpec(old(dst[..]), bf, value).Ok?
    ensures r.Ok? ==> dst[..] == InsertSpec(old(dst[..]), bf, value).value
    ensures r.Err? ==> r.error == InsertSpec(old(dst[..]), bf, value).error && dst[..] == old(dst[..])
  {
    var check := ValidateRange(dst[..], bf);
    if check.Err? {
      return Err(check.error);
    }
    var mask := MaskFor(bf.bitLength);
    if value > mask {
      return Err(ValueTooWide(bf.bitLength, value));
    }
    var n := dst.Length;
    var len := bf.bitLength;
    var full := ReadRegister(dst[..], bf.byteOrder);
    var shift := match bf.byteOrder
      case Little => bf.bitOffset
      case Big => n * 8 - bf.bitOffset - len;
    assert shift == FieldShift(n, bf);
    ClearThenSet(full, shift, len, value);
    // the old field's bits are taken out and value * 2^shift is put in their place
    full := full - FieldOf(full, shift, len) * Pow2(shift) + value * Pow2(shift);
    WriteRegister(dst, full, bf.byteOrder);
    r := Ok(());
  }

  // ---------------------------------------------------------------------
  // Arithmetic of the clear-then-set step.

  /** Clearing the field by subtraction leaves exactly the bits above and below it. */
  lemma ClearFieldSplit(x: nat, shift: nat, len: nat)
    ensures FieldOf(x, shift, len) * Pow2(shift) <= x
    ensures x - FieldOf(x, shift, len) * Pow2(shift) == x / Pow2(shift + len) * Pow2(shift + len) + x % Pow2(shift)
  {
    Pow2Add(shift, len);
    ClearMiddle(x, Pow2(shift), Pow2(len));
  }

  /** The source's clear-then-set computes the splice. */
  lemma ClearThenSet(x: nat, shift: nat, len: nat, v: nat)
    ensures FieldOf(x, shift, len) * Pow2(shift) <= x
    ensures x - FieldOf(x, shift, len) * Pow2(shift) + v * Pow2(shift) == ClearAndSet(x, shift, len, v)
  {
    ClearFieldSplit(x, shift, len);
  }

  lemma SpliceParts(x: nat, shift: nat, len: nat, v: nat)
    requires v < Pow2(len)
    ensures ClearAndSet(x, shift, len, v) / Pow2(shift) == x / Pow2(shift + len) * Pow2(len) + v
    ensures ClearAndSet(x, shift, len, v) % Pow2(shift) == x % Pow2(shift)
    ensures ClearAndSet(x, shift, len, v) / Pow2(shift + len) == x / Pow2(shift + len)
    ensures (x / Pow2(shift + len) * Pow2(len) + v) % Pow2(len) == v
  {
    var ps, pl := Pow2(shift), Pow2(len);
    Pow2Add(shift, len);
    MixedDigits(Shr(x, shift + len), v, Low(x, shift), ps, pl);
  }

  /** After the splice the field holds v. */
  lemma SpliceField(x: nat, shift: nat, len: nat, v: nat)
    requires v < Pow2(len)
    ensures FieldOf(ClearAndSet(x, shift, len, v), shift, len) == v
  {
    SpliceParts(x, shift, len, v);
  }

  /** The splice of a value that fits T bits still fits T bits. */
  lemma SpliceBound(x: nat, shift: nat, len: nat, v: nat, t: nat)
    requires v < Pow2(len) && x < Pow2(t) && shift + len <= t
    ensures ClearAndSet(x, shift, len, v) < Pow2(t)
  {
    var m := shift + len;
    Pow2Add(m, t - m);
    QuotientBelow(x, Pow2(m), Pow2(t - m));
    SpliceParts(x, shift, len, v);
    QuotientBound(ClearAndSet(x, shift, len, v), Pow2(m), Pow2(t - m));
  }

  /** Bit k of x depends only on x modulo any higher power of two. */
  lemma BitBelow(x: nat, k: nat, m: nat)
    requires k < m
    ensures Bit(Low(x, m), k) == Bit(x, k)
  {
    Pow2Add(k, m - k);
    assert Pow2(m - k) == 2 * Pow2(m - k - 1);
    ParityOfQuotient(x, Pow2(k), Pow2(m - k - 1));
  }

  /** Bit k of x is bit k - m of x >> m. */
  lemma BitAbove(x: nat, k: nat, m: nat)
    requires m <= k
    ensures Bit(Shr(x, m), k - m) == Bit(x, k)
  {
    Pow2Add(m, k - m);
    DivDiv(x, Pow2(m), Pow2(k - m));
  }

  /** Every bit outside [shift, shift + len) survives the splice. */
  lemma SpliceKeepsBit(x: nat, shift: nat, len: nat, v: nat, k: nat)
    requires v < Pow2(len)
    requires k < shift || shift + len <= k
    ensures Bit(ClearAndSet(x, shift, len, v), k) == Bit(x, k)
  {
    var y := ClearAndSet(x, shift, len, v);
    SpliceParts(x, shift, len, v);
    if k < shift {
      BitBelow(y, k, shift);
      BitBelow(x, k, shift);
    } else {
      BitAbove(y, k, shift + len);
      BitAbove(x, k, shift + len);
    }
  }

  lemma RegisterValueOfEncode(x: nat, n: nat, order: ByteOrder)
    requires x < Pow2(8 * n)
    ensures RegisterValue(Encode(x, n, order), order) == x
  {
    DivModUnique(x, Pow2(8 * n), 0, x);
    match order
    case Little => LeValueOfBytes(x, n);
    case Big => BeValueOfBytes(x, n);
  }

  // ---------------------------------------------------------------------
  // Properties of extract and insert.

  /** An extracted value always fits the field's mask. */
  lemma ExtractFitsMask(bits: seq<u8>, bf: BitField)
    requires ExtractSpec(bits, bf).Ok?
    ensures ExtractSpec(bits, bf).value <= MaskFor(bf.bitLength)
    ensures ExtractSpec(bits, bf).value < Pow2(bf.bitLength)
  {
  }

  /** A value that fits is accepted exactly when the range is valid; a wider one is `ValueTooWide`. */
  lemma InsertOutcome(bits: seq<u8>, bf: BitField, value: u64)
    requires InRange(|bits|, bf)
    ensures InsertSpec(bits, bf, value).Ok? <==> value < Pow2(bf.bitLength)
    ensures value >= Pow2(bf.bitLength) ==> InsertSpec(bits, bf, value) == Err(ValueTooWide(bf.bitLength, value))
  {
  }

  /** Extracting right after inserting gives back the inserted value, in both byte orders. */
  lemma InsertExtractRoundTrip(bits: seq<u8>, bf: BitField, value: u64)
    requires InRange(|bits|, bf) && value <= MaskFor(bf.bitLength)
    ensures InsertSpec(bits, bf, value).Ok?
    ensures ExtractSpec(InsertSpec(bits, bf, value).value, bf) == Ok(value)
  {
    var n := |bits|;
    var x := RegisterValue(bits, bf.byteOrder);
    var shift := FieldShift(n, bf);
    SpliceBound(x, shift, bf.bitLength, value, 8 * n);
    var y := ClearAndSet(x, shift, bf.bitLength, value);
    RegisterValueOfEncode(y, n, bf.byteOrder);
    SpliceField(x, shift, bf.bitLength, value);
  }

  /** Every register bit outside the field is the same before and after `insert`. */
  lemma InsertKeepsOtherBits(bits: seq<u8>, bf: BitField, value: u64, k: nat)
    requires InsertSpec(bits, bf, value).Ok?
    requires k < FieldShift(|bits|, bf) || FieldShift(|bits|, bf) + bf.bitLength <= k
    ensures Bit(RegisterValue(InsertSpec(bits, bf, value).value, bf.byteOrder), k)
         == Bit(RegisterValue(bits, bf.byteOrder), k)
  {
    var n := |bits|;
    var x := RegisterValue(bits, bf.byteOrder);
    var shift := FieldShift(n, bf);
    SpliceBound(x, shift, bf.bitLength, value, 8 * n);
    var y := ClearAndSet(x, shift, bf.bitLength, value);
    RegisterValueOfEncode(y, n, bf.byteOrder);
    SpliceKeepsBit(x, shift, bf.bitLength, value, k);
  }

  // ---------------------------------------------------------------------
  // The examples the module's unit tests check.

  lemma ExtractLittleExample()
    ensures ExtractSpec([0x12, 0x34, 0x56, 0x78], BitField(8, 8, Little)) == Ok(0x34)
  {
    Pow2Of32();
    assert LeValue([0x12, 0x34, 0x56, 0x78]) == 0x7856_3412;
    assert Shr(0x7856_3412, 8) == 0x78_5634;
    assert Low(0x78_5634, 8) == 0x34;
  }

  lemma ExtractBigExample()
    ensures ExtractSpec([0xA0, 0xF0], BitField(0, 3, Big)) == Ok(0x5)
  {
    assert Pow2(3) == 8 && Pow2(13) == 0x2000;
    assert BeValue([0xA0, 0xF0]) == 0xA0F0;
    assert Shr(0xA0F0, 13) == 5;
    assert Low(5, 3) == 5;
  }

  lemma InsertLittleExample()
    ensures InsertSpec([0, 0, 0, 0], BitField(8, 8, Little), 0xAB) == Ok([0x00, 0xAB, 0x00, 0x00])
  {
    Pow2Of16();
    assert LeValue([0, 0, 0, 0]) == 0;
    assert Shr(0, 16) == 0 && Low(0, 8) == 0;
    assert ClearAndSet(0, 8, 8, 0xAB) == 0xAB00;
    assert LeBytes(0xAB00, 4) == [0x00, 0xAB, 0x00, 0x00];
  }

  lemma InsertBigExample()
    ensures InsertSpec([0x80, 0x00], BitField(0, 3, Big), 0x2) == Ok([0x40, 0x00])
  {
    Pow2Of16();
    assert Pow2(3) == 8 && Pow2(13) == 0x2000;
    assert BeValue([0x80, 0x00]) == 0x8000;
    assert Shr(0x8000, 16) == 0 && Low(0x8000, 13) == 0;
    assert ClearAndSet(0x8000, 13, 3, 0x2) == 0x4000;
    assert BeBytes(0x4000, 2) == [0x40, 0x00];
  }

  lemma InsertTooWideExample()
    ensures InsertSpec([0, 0], BitField(4, 4, Little), 0x20) == Err(ValueTooWide(4, 0x20))
  {
    assert Pow2(4) == 16;
  }
}
