/**
 * Fixed-width unsigned integers and the big- and little-endian byte codecs
 * that the wire formats are built from. Rust's `u8`..`u64` are subset types
 * of `int`; a shift is a multiplication or division by a power of two.
 */
module Bytes {
  type u8 = x: int | 0 <= x < 0x100
  type u16 = x: int | 0 <= x < 0x1_0000
  type u32 = x: int | 0 <= x < 0x1_0000_0000
  type u64 = x: int | 0 <= x < 0x1_0000_0000_0000_0000

  const U16_MAX: int := 0xFFFF
  const U32_MAX: int := 0xFFFF_FFFF
  const U64_MAX: int := 0xFFFF_FFFF_FFFF_FFFF

  function MinNat(a: nat, b: nat): nat { if a < b then a else b }

  function Pow2(n: nat): (r: nat)
    ensures r >= 1
  {
    if n == 0 then 1 else 2 * Pow2(n - 1)
  }

  lemma {:induction false} Pow2Add(a: nat, b: nat)
    ensures Pow2(a + b) == Pow2(a) * Pow2(b)
  {
    if b > 0 {
      Pow2Add(a, b - 1);
      assert Pow2(a + b) == 2 * Pow2(a + b - 1);
    }
  }

  lemma {:induction false} Pow2Monotone(a: nat, b: nat)
    requires a <= b
    ensures Pow2(a) <= Pow2(b)
  {
    if a < b {
      Pow2Monotone(a, b - 1);
    }
  }

  lemma Pow2Constants()
    ensures Pow2(8) == 0x100 && Pow2(16) == 0x1_0000 && Pow2(32) == 0x1_0000_0000
    ensures Pow2(64) == 0x1_0000_0000_0000_0000
  {
    Pow2Of64();
  }

  lemma Pow2Of8()
    ensures Pow2(8) == 0x100
  {
  }

  lemma Pow2Of16()
    ensures Pow2(8) == 0x100 && Pow2(16) == 0x1_0000
  {
    Pow2Of8();
    Pow2Add(8, 8);
  }

  lemma Pow2Of32()
    ensures Pow2(8) == 0x100 && Pow2(16) == 0x1_0000 && Pow2(32) == 0x1_0000_0000
  {
    Pow2Of16();
    Pow2Add(16, 16);
  }

  lemma Pow2Of64()
    ensures Pow2(8) == 0x100 && Pow2(16) == 0x1_0000 && Pow2(32) == 0x1_0000_0000
    ensures Pow2(64) == 0x1_0000_0000_0000_0000
  {
    Pow2Of32();
    Pow2Add(32, 32);
  }

  /** Euclidean division is unique: the quotient and remainder are pinned down by x == q * d + r. */
  lemma DivModUnique(x: int, d: int, q: int, r: int)
    requires d > 0 && 0 <= r < d && x == q * d + r
    ensures x / d == q && x % d == r
  {
    var q', r' := x / d, x % d;
    assert x == q' * d + r';
    if q' > q {
      assert (q' - q) * d == r - r';
      MulAtLeast(q' - q, d);
    } else if q' < q {
      assert (q - q') * d == r' - r;
      MulAtLeast(q - q', d);
    }
  }

  lemma {:induction false} MulAtLeast(k: int, d: int)
    requires k >= 1 && d > 0
    ensures k * d >= d
  {
    if k > 1 {
      MulAtLeast(k - 1, d);
      assert k * d == (k - 1) * d + d;
    }
  }

  lemma MulAssoc(a: int, b: int, c: int)
    ensures a * b * c == a * (b * c) == b * (a * c)
  {
  }

  lemma Distrib(a: int, b: int, c: int)
    ensures (a + b) * c == a * c + b * c
  {
  }

  lemma MulLe(a: int, b: int, c: nat)
    requires a <= b
    ensures a * c <= b * c
  {
    Distrib(a, b - a, c);
    MulNat(b - a, c);
  }

  lemma MulNat(a: nat, b: nat)
    ensures a * b >= 0
  {
  }

  lemma DivDiv(x: nat, a: nat, b: nat)
    requires a > 0 && b > 0
    ensures x / a / b == x / (a * b)
    ensures x % (a * b) == (x / a % b) * a + x % a
  {
    var q1, r1 := x / a, x % a;
    var q2, r2 := q1 / b, q1 % b;
    assert x == q2 * (a * b) + (r2 * a + r1) by {
      assert x == q1 * a + r1;
      assert q1 == q2 * b + r2;
    }
    assert r2 * a + r1 < a * b by {
      assert r2 <= b - 1;
      assert r2 * a <= (b - 1) * a;
    }
    DivModUnique(x, a * b, q2, r2 * a + r1);
  }

  // Division facts stated over plain positive divisors, so that callers can
  // instantiate them with powers of two without unfolding Pow2.

  lemma Regroup(x: int, q: int, ps: int, r: int, h: int, pl: int, f: int)
    requires x == q * ps + r && q == h * pl + f
    ensures x - f * ps == h * (ps * pl) + r
  {
    assert (h * pl + f) * ps == h * pl * ps + f * ps;
    assert h * pl * ps == h * (ps * pl);
  }

  /** Removing the middle digit f of x = (h * pl + f) * ps + r in mixed radix leaves h and r. */
  lemma ClearMiddle(x: nat, ps: int, pl: int)
    requires ps > 0 && pl > 0
    ensures x / ps % pl * ps <= x
    ensures x - x / ps % pl * ps == x / (ps * pl) * (ps * pl) + x % ps
  {
    var q, r := x / ps, x % ps;
    var h, f := q / pl, q % pl;
    DivDiv(x, ps, pl);
    Regroup(x, q, ps, r, h, pl, f);
    MulNat(h, ps * pl);
  }

  lemma Compose(h: int, v: int, ps: int, pl: int, r: int)
    ensures h * (ps * pl) + v * ps + r == (h * pl + v) * ps + r
  {
    assert (h * pl + v) * ps == h * pl * ps + v * ps;
    assert h * pl * ps == h * (ps * pl);
  }

  lemma LowLimit(v: int, ps: int, pl: int, r: int)
    requires 0 <= v < pl && 0 <= r < ps
    ensures 0 <= v * ps + r < ps * pl
  {
    MulLe(v, pl - 1, ps);
    assert (pl - 1) * ps == pl * ps - ps;
    MulNat(v, ps);
  }

  /** The mixed-radix digits of y = h * (ps * pl) + v * ps + r. */
  lemma MixedDigits(h: nat, v: nat, r: nat, ps: int, pl: int)
    requires ps > 0 && pl > 0 && v < pl && r < ps
    ensures (h * (ps * pl) + v * ps + r) / ps == h * pl + v
    ensures (h * (ps * pl) + v * ps + r) % ps == r
    ensures (h * pl + v) % pl == v && (h * pl + v) / pl == h
    ensures (h * (ps * pl) + v * ps + r) / (ps * pl) == h
  {
    Compose(h, v, ps, pl, r);
    MulNat(h, pl);
    DivModUnique(h * (ps * pl) + v * ps + r, ps, h * pl + v, r);
    DivModUnique(h * pl + v, pl, h, v);
    LowLimit(v, ps, pl, r);
    DivModUnique(h * (ps * pl) + v * ps + r, ps * pl, h, v * ps + r);
  }

  /** A number whose quotient by pm is below pr is below pm * pr. */
  lemma QuotientBound(y: nat, pm: int, pr: int)
    requires pm > 0 && pr > 0 && y / pm < pr
    ensures y < pm * pr
  {
    var h := y / pm;
    assert y == h * pm + y % pm;
    assert (h + 1) * pm == h * pm + pm;
    MulLe(h + 1, pr, pm);
  }

  /** The quotient of x < pm * pr by pm is below pr. */
  lemma QuotientBelow(x: nat, pm: int, pr: int)
    requires pm > 0 && pr > 0 && x < pm * pr
    ensures x / pm < pr
  {
    var h := x / pm;
    assert x == h * pm + x % pm;
    if h >= pr {
      MulLe(pr, h, pm);
    }
  }

  /** The low digit (mod 2) of x / pk is unaffected by reducing x modulo pk * 2 * half. */
  lemma ParityOfQuotient(x: nat, pk: int, half: int)
    requires pk > 0 && half > 0
    ensures x % (pk * (2 * half)) / pk % 2 == x / pk % 2
  {
    var y := x / pk;
    DivDiv(x, pk, 2 * half);
    DivModUnique(x % (pk * (2 * half)), pk, y % (2 * half), x % pk);
    ModEvenParity(y, half);
  }

  /** Reducing modulo an even number keeps the parity. */
  lemma ModEvenParity(y: nat, half: int)
    requires half > 0
    ensures y % (2 * half) % 2 == y % 2
  {
    var q, r := y / (2 * half), y % (2 * half);
    assert q * (2 * half) == (q * half) * 2;
    DivModUnique(y, 2, q * half + r / 2, r % 2);
  }

  /** Big-endian value of a byte string: the first byte is the most significant. */
  function BeValue(s: seq<u8>): nat
  {
    if |s| == 0 then 0 else BeValue(s[..|s| - 1]) * 0x100 + s[|s| - 1]
  }

  /** The n low bytes of x, most significant first. */
  function BeBytes(x: nat, n: nat): (r: seq<u8>)
    ensures |r| == n
  {
    if n == 0 then [] else BeBytes(x / 0x100, n - 1) + [x % 0x100]
  }

  /** Little-endian value of a byte string: the first byte is the least significant. */
  function LeValue(s: seq<u8>): nat
  {
    if |s| == 0 then 0 else s[0] + 0x100 * LeValue(s[1..])
  }

  /** The n low bytes of x, least significant first. */
  function LeBytes(x: nat, n: nat): (r: seq<u8>)
    ensures |r| == n
  {
    if n == 0 then [] else [x % 0x100] + LeBytes(x / 0x100, n - 1)
  }

  lemma {:induction false} BeValueBound(s: seq<u8>)
    ensures BeValue(s) < Pow2(8 * |s|)
  {
    if |s| > 0 {
      var p := s[..|s| - 1];
      BeValueBound(p);
      Pow2Add(8 * |p|, 8);
      assert Pow2(8) == 0x100;
      assert BeValue(s) <= (Pow2(8 * |p|) - 1) * 0x100 + 0xFF;
    }
  }

  lemma {:induction false} LeValueBound(s: seq<u8>)
    ensures LeValue(s) < Pow2(8 * |s|)
  {
    if |s| > 0 {
      LeValueBound(s[1..]);
      Pow2Add(8, 8 * (|s| - 1));
      assert Pow2(8) == 0x100;
      assert LeValue(s) <= 0xFF + 0x100 * (Pow2(8 * (|s| - 1)) - 1);
    }
  }

  /** Decoding what was encoded gives back x reduced to n bytes. */
  lemma {:induction false} BeValueOfBytes(x: nat, n: nat)
    ensures BeValue(BeBytes(x, n)) == x % Pow2(8 * n)
  {
    if n > 0 {
      var b := BeBytes(x, n);
      assert b[..n - 1] == BeBytes(x / 0x100, n - 1);
      BeValueOfBytes(x / 0x100, n - 1);
      Pow2Add(8, 8 * (n - 1));
      assert Pow2(8) == 0x100;
      DivDiv(x, 0x100, Pow2(8 * (n - 1)));
    }
  }

  lemma {:induction false} LeValueOfBytes(x: nat, n: nat)
    ensures LeValue(LeBytes(x, n)) == x % Pow2(8 * n)
  {
    if n > 0 {
      var b := LeBytes(x, n);
      assert b[1..] == LeBytes(x / 0x100, n - 1);
      LeValueOfBytes(x / 0x100, n - 1);
      Pow2Add(8, 8 * (n - 1));
      assert Pow2(8) == 0x100;
      DivDiv(x, 0x100, Pow2(8 * (n - 1)));
    }
  }

  /** Encoding what was decoded gives back the same bytes. */
  lemma {:induction false} BeBytesOfValue(s: seq<u8>)
    ensures BeBytes(BeValue(s), |s|) == s
  {
    if |s| > 0 {
      var p := s[..|s| - 1];
      BeBytesOfValue(p);
      DivModUnique(BeValue(s), 0x100, BeValue(p), s[|s| - 1]);
      assert s == p + [s[|s| - 1]];
    }
  }

  lemma {:induction false} LeBytesOfValue(s: seq<u8>)
    ensures LeBytes(LeValue(s), |s|) == s
  {
    if |s| > 0 {
      LeBytesOfValue(s[1..]);
      DivModUnique(LeValue(s), 0x100, LeValue(s[1..]), s[0]);
      assert s == [s[0]] + s[1..];
    }
  }

  /** Byte i of the little-endian encoding is (x >> 8i) & 0xFF. */
  lemma {:induction false} LeBytesAt(x: nat, n: nat, i: nat)
    requires i < n
    ensures LeBytes(x, n)[i] == x / Pow2(8 * i) % 0x100
  {
    if i > 0 {
      LeBytesAt(x / 0x100, n - 1, i - 1);
      Pow2Add(8, 8 * (i - 1));
      assert Pow2(8) == 0x100;
      DivDiv(x, 0x100, Pow2(8 * (i - 1)));
    }
  }

  /** Byte i of the big-endian encoding is (x >> 8(n-1-i)) & 0xFF. */
  lemma {:induction false} BeBytesAt(x: nat, n: nat, i: nat)
    requires i < n
    ensures BeBytes(x, n)[i] == x / Pow2(8 * (n - 1 - i)) % 0x100
  {
    if i < n - 1 {
      BeBytesAt(x / 0x100, n - 1, i);
      Pow2Add(8, 8 * (n - 2 - i));
      assert Pow2(8) == 0x100;
      DivDiv(x, 0x100, Pow2(8 * (n - 2 - i)));
    }
  }

  /** Appending a byte at the most significant end of a little-endian string. */
  lemma {:induction false} LeValueSnoc(s: seq<u8>, b: u8)
    ensures LeValue(s + [b]) == LeValue(s) + b * Pow2(8 * |s|)
  {
    if |s| == 0 {
      assert s + [b] == [b];
      assert LeValue([b]) == b + 0x100 * LeValue([]);
    } else {
      var u := s + [b];
      assert u[0] == s[0];
      assert u[1..] == s[1..] + [b];
      LeValueSnoc(s[1..], b);
      var t, p := LeValue(s[1..]), Pow2(8 * (|s| - 1));
      assert LeValue(u) == s[0] + 0x100 * (t + b * p);
      Pow2Add(8, 8 * (|s| - 1));
      assert Pow2(8) == 0x100;
      assert Pow2(8 * |s|) == 0x100 * p;
      ScaleSum(t, b, p);
    }
  }

  lemma ScaleSum(t: int, b: int, p: int)
    ensures 0x100 * (t + b * p) == 0x100 * t + b * (0x100 * p)
  {
  }

  lemma BeValueSnoc(s: seq<u8>, b: u8)
    ensures BeValue(s + [b]) == BeValue(s) * 0x100 + b
  {
    assert (s + [b])[..|s|] == s;
  }

  /** Big-endian value of a concatenation. */
  lemma {:induction false} BeValueAppend(a: seq<u8>, b: seq<u8>)
    ensures BeValue(a + b) == BeValue(a) * Pow2(8 * |b|) + BeValue(b)
  {
    if |b| > 0 {
      var p := b[..|b| - 1];
      var last := b[|b| - 1];
      assert (a + b)[..|a + b| - 1] == a + p;
      assert (a + b)[|a + b| - 1] == last;
      BeValueAppend(a, p);
      Pow2Add(8 * |p|, 8);
      assert Pow2(8) == 0x100;
      ShiftByte(BeValue(a), Pow2(8 * |p|), BeValue(p), last);
    } else {
      assert a + b == a;
    }
  }

  lemma ShiftByte(x: int, p: int, y: int, z: int)
    ensures (x * p + y) * 0x100 + z == x * (p * 0x100) + (y * 0x100 + z)
  {
  }

  /** Big-endian encodings of the fixed widths used on the wire. */
  function U16Be(v: u16): (r: seq<u8>)
    ensures |r| == 2
  {
    BeBytes(v, 2)
  }

  function U32Be(v: u32): (r: seq<u8>)
    ensures |r| == 4
  {
    BeBytes(v, 4)
  }

  function U64Be(v: u64): (r: seq<u8>)
    ensures |r| == 8
  {
    BeBytes(v, 8)
  }

  /** The two bytes of a u16, high byte first. */
  lemma U16BeBytes(v: u16)
    ensures U16Be(v) == [v / 0x100, v % 0x100]
  {
    assert BeBytes(v / 0x100, 1) == BeBytes(v / 0x100 / 0x100, 0) + [v / 0x100 % 0x100];
  }

  /** The four bytes of a u32, most significant first. */
  lemma U32BeBytes(v: u32)
    ensures U32Be(v) == [v / 0x100_0000, v / 0x1_0000 % 0x100, v / 0x100 % 0x100, v % 0x100]
  {
    assert v / 0x100 / 0x100 == v / 0x1_0000;
    assert v / 0x1_0000 / 0x100 == v / 0x100_0000;
    assert BeBytes(v / 0x100_0000, 1) == BeBytes(v / 0x100_0000 / 0x100, 0) + [v / 0x100_0000 % 0x100];
    assert BeBytes(v / 0x1_0000, 2) == BeBytes(v / 0x100_0000, 1) + [v / 0x1_0000 % 0x100];
    assert BeBytes(v / 0x100, 3) == BeBytes(v / 0x1_0000, 2) + [v / 0x100 % 0x100];
  }

  /** The big-endian field of n bytes at offset i; the decoder's `get_u16`/`get_u32`/`get_u64`. */
  function ReadBe(s: seq<u8>, i: nat, n: nat): (r: nat)
    requires i + n <= |s|
    ensures r < Pow2(8 * n)
  {
    BeValueBound(s[i..i + n]);
    BeValue(s[i..i + n])
  }

  function ReadU16(s: seq<u8>, i: nat): (r: u16)
    requires i + 2 <= |s|
  {
    Pow2Of16();
    ReadBe(s, i, 2)
  }

  function ReadU32(s: seq<u8>, i: nat): (r: u32)
    requires i + 4 <= |s|
  {
    Pow2Of32();
    ReadBe(s, i, 4)
  }

  function ReadU64(s: seq<u8>, i: nat): (r: u64)
    requires i + 8 <= |s|
  {
    Pow2Of64();
    ReadBe(s, i, 8)
  }

  /** A field whose bytes are the encoding of v reads back as v. */
  lemma ReadU16Of(s: seq<u8>, i: nat, v: u16)
    requires i + 2 <= |s| && s[i..i + 2] == U16Be(v)
    ensures ReadU16(s, i) == v
  {
    BeValueOfBytes(v, 2);
    Pow2Of16();
    DivModUnique(v, Pow2(16), 0, v);
  }

  lemma ReadU32Of(s: seq<u8>, i: nat, v: u32)
    requires i + 4 <= |s| && s[i..i + 4] == U32Be(v)
    ensures ReadU32(s, i) == v
  {
    BeValueOfBytes(v, 4);
    Pow2Of32();
    DivModUnique(v, Pow2(32), 0, v);
  }

  lemma ReadU64Of(s: seq<u8>, i: nat, v: u64)
    requires i + 8 <= |s| && s[i..i + 8] == U64Be(v)
    ensures ReadU64(s, i) == v
  {
    BeValueOfBytes(v, 8);
    Pow2Of64();
    DivModUnique(v, Pow2(64), 0, v);
  }

  /** Reading inside a suffix is reading at the shifted position. */
  lemma ReadU16Shift(s: seq<u8>, off: nat, i: nat)
    requires off + i + 2 <= |s|
    ensures ReadU16(s[off..], i) == ReadU16(s, off + i)
  {
    assert s[off..][i..i + 2] == s[off + i..off + i + 2];
  }

  lemma ReadU32Shift(s: seq<u8>, off: nat, i: nat)
    requires off + i + 4 <= |s|
    ensures ReadU32(s[off..], i) == ReadU32(s, off + i)
  {
    assert s[off..][i..i + 4] == s[off + i..off + i + 4];
  }

  /** A u64 field is its high u32 shifted up 32 bits, or-ed with its low u32. */
  lemma ReadU64Split(s: seq<u8>, i: nat)
    requires i + 8 <= |s|
    ensures ReadU64(s, i) == ReadU32(s, i) * 0x1_0000_0000 + ReadU32(s, i + 4)
  {
    assert s[i..i + 8] == s[i..i + 4] + s[i + 4..i + 8];
    BeValueAppend(s[i..i + 4], s[i + 4..i + 8]);
    Pow2Of32();
  }

  /** Reading a field that lies inside the middle part of a concatenation. */
  lemma ReadU16Within(a: seq<u8>, b: seq<u8>, c: seq<u8>, i: nat)
    requires i + 2 <= |b|
    ensures ReadU16(a + b + c, |a| + i) == ReadU16(b, i)
  {
    assert (a + b + c)[|a| + i..|a| + i + 2] == b[i..i + 2];
  }

  lemma ReadU64Within(a: seq<u8>, b: seq<u8>, c: seq<u8>, i: nat)
    requires i + 8 <= |b|
    ensures ReadU64(a + b + c, |a| + i) == ReadU64(b, i)
  {
    assert (a + b + c)[|a| + i..|a| + i + 8] == b[i..i + 8];
  }

  /** Reading a field that lies inside the first part of a concatenation. */
  lemma ReadU16Front(a: seq<u8>, b: seq<u8>, i: nat)
    requires i + 2 <= |a|
    ensures ReadU16(a + b, i) == ReadU16(a, i)
  {
    assert (a + b)[i..i + 2] == a[i..i + 2];
  }

  lemma ReadU32Front(a: seq<u8>, b: seq<u8>, i: nat)
    requires i + 4 <= |a|
    ensures ReadU32(a + b, i) == ReadU32(a, i)
  {
    assert (a + b)[i..i + 4] == a[i..i + 4];
  }

  /** Reading a field that lies inside the second part of a concatenation. */
  lemma ReadU16Back(a: seq<u8>, b: seq<u8>, i: nat, at: nat)
    requires i + 2 <= |b| && at == |a| + i
    ensures ReadU16(a + b, at) == ReadU16(b, i)
  {
    assert (a + b)[at..at + 2] == b[i..i + 2];
  }

  lemma ReadU32Back(a: seq<u8>, b: seq<u8>, i: nat, at: nat)
    requires i + 4 <= |b| && at == |a| + i
    ensures ReadU32(a + b, at) == ReadU32(b, i)
  {
    assert (a + b)[at..at + 4] == b[i..i + 4];
  }

  /** Reading an encoded value back from its own bytes. */
  lemma ReadU16Whole(v: u16)
    ensures ReadU16(U16Be(v), 0) == v
  {
    assert U16Be(v)[0..2] == U16Be(v);
    ReadU16Of(U16Be(v), 0, v);
  }

  lemma ReadU32Whole(v: u32)
    ensures ReadU32(U32Be(v), 0) == v
  {
    assert U32Be(v)[0..4] == U32Be(v);
    ReadU32Of(U32Be(v), 0, v);
  }

  /** Reading back a fixed-width value at the position it was written. */
  lemma ReadWriteU16(pre: seq<u8>, v: u16, post: seq<u8>)
    ensures ReadU16(pre + U16Be(v) + post, |pre|) == v
  {
    var s := pre + U16Be(v) + post;
    assert s[|pre|..|pre| + 2] == U16Be(v);
    ReadU16Of(s, |pre|, v);
  }

  lemma ReadWriteU32(pre: seq<u8>, v: u32, post: seq<u8>)
    ensures ReadU32(pre + U32Be(v) + post, |pre|) == v
  {
    var s := pre + U32Be(v) + post;
    assert s[|pre|..|pre| + 4] == U32Be(v);
    ReadU32Of(s, |pre|, v);
  }

  lemma ReadWriteU64(pre: seq<u8>, v: u64, post: seq<u8>)
    ensures ReadU64(pre + U64Be(v) + post, |pre|) == v
  {
    var s := pre + U64Be(v) + post;
    assert s[|pre|..|pre| + 8] == U64Be(v);
    ReadU64Of(s, |pre|, v);
  }

  /** Writing back a field that was read reproduces the bytes. */
  lemma WriteReadU16(s: seq<u8>, i: nat)
    requires i + 2 <= |s|
    ensures U16Be(ReadU16(s, i)) == s[i..i + 2]
  {
    BeBytesOfValue(s[i..i + 2]);
  }

  lemma WriteReadU32(s: seq<u8>, i: nat)
    requires i + 4 <= |s|
    ensures U32Be(ReadU32(s, i)) == s[i..i + 4]
  {
    BeBytesOfValue(s[i..i + 4]);
  }

  lemma WriteReadU64(s: seq<u8>, i: nat)
    requires i + 8 <= |s|
    ensures U64Be(ReadU64(s, i)) == s[i..i + 8]
  {
    BeBytesOfValue(s[i..i + 8]);
  }
}
