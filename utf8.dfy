// Lossy UTF-8 decoding, as Rust's `String::from_utf8_lossy` performs it:
// well-formed sequences (Table 3-7 of the Unicode Standard) become their
// characters, and every maximal ill-formed subpart becomes one U+FFFD.

module Utf8 {
  import opened Bytes

  const REPLACEMENT: char := '\U{FFFD}'

  predicate IsContinuation(b: u8)
  {
    0x80 <= b <= 0xBF
  }

  /** The length of the sequence a lead byte announces; 0 for a byte that cannot start one. */
  function LeadWidth(b: u8): nat
  {
    if b < 0x80 then 1
    else if 0xC2 <= b <= 0xDF then 2
    else if 0xE0 <= b <= 0xEF then 3
    else if 0xF0 <= b <= 0xF4 then 4
    else 0
  }

  /**
   * The range the second byte must lie in after a lead of three or four
   * bytes; it excludes overlong forms, surrogates and values past U+10FFFF.
   */
  predicate SecondOk(lead: u8, b: u8)
  {
    if lead == 0xE0 then 0xA0 <= b <= 0xBF
    else if lead == 0xED then 0x80 <= b <= 0x9F
    else if lead == 0xF0 then 0x90 <= b <= 0xBF
    else if lead == 0xF4 then 0x80 <= b <= 0x8F
    else IsContinuation(b)
  }

  function Char2(b0: u8, b1: u8): (c: char)
    requires 0xC2 <= b0 <= 0xDF && IsContinuation(b1)
    ensures 0x80 <= c as int < 0x800
  {
    ((b0 - 0xC0) * 0x40 + (b1 - 0x80)) as char
  }

  function Char3(b0: u8, b1: u8, b2: u8): (c: char)
    requires 0xE0 <= b0 <= 0xEF && SecondOk(b0, b1) && IsContinuation(b2)
    ensures 0x800 <= c as int < 0x1_0000
  {
    ((b0 - 0xE0) * 0x1000 + (b1 - 0x80) * 0x40 + (b2 - 0x80)) as char
  }

  function Char4(b0: u8, b1: u8, b2: u8, b3: u8): (c: char)
    requires 0xF0 <= b0 <= 0xF4 && SecondOk(b0, b1) && IsContinuation(b2) && IsContinuation(b3)
    ensures 0x1_0000 <= c as int < 0x11_0000
  {
    ((b0 - 0xF0) * 0x4_0000 + (b1 - 0x80) * 0x1000 + (b2 - 0x80) * 0x40 + (b3 - 0x80)) as char
  }

  /**
   * One step of the decoder: the character at the front and the number of
   * bytes it takes. A sequence that breaks off, at the end of the input or
   * at a byte out of range, gives U+FFFD for the bytes accepted so far.
   */
  function DecodeStep(bytes: seq<u8>): (r: (char, nat))
    requires |bytes| > 0
    ensures 1 <= r.1 <= |bytes| && r.1 <= 4
    ensures bytes[0] < 0x80 <==> r == (bytes[0] as char, 1)
    ensures LeadWidth(bytes[0]) == 0 ==> r == (REPLACEMENT, 1)
  {
    var b0 := bytes[0];
    var width := LeadWidth(b0);
    if width == 1 then (b0 as char, 1)
    else if width == 0 then (REPLACEMENT, 1)
    else if |bytes| < 2 || !(if width == 2 then IsContinuation(bytes[1]) else SecondOk(b0, bytes[1])) then (REPLACEMENT, 1)
    else if width == 2 then (Char2(b0, bytes[1]), 2)
    else if |bytes| < 3 || !IsContinuation(bytes[2]) then (REPLACEMENT, 2)
    else if width == 3 then (Char3(b0, bytes[1], bytes[2]), 3)
    else if |bytes| < 4 || !IsContinuation(bytes[3]) then (REPLACEMENT, 3)
    else (Char4(b0, bytes[1], bytes[2], bytes[3]), 4)
  }

  /** `String::from_utf8_lossy`: decode step by step until the bytes run out. */
  function Utf8Lossy(bytes: seq<u8>): (r: string)
    ensures |r| <= |bytes|
    ensures |bytes| > 0 ==> |r| > 0
    decreases |bytes|
  {
    if |bytes| == 0 then ""
    else
      var step := DecodeStep(bytes);
      [step.0] + Utf8Lossy(bytes[step.1..])
  }

  predicate IsAscii(bytes: seq<u8>)
  {
    forall i :: 0 <= i < |bytes| ==> bytes[i] < 0x80
  }

  /** ASCII bytes decode to the characters of the same code, one each. */
  lemma {:induction false} AsciiDecodes(bytes: seq<u8>)
    requires IsAscii(bytes)
    ensures |Utf8Lossy(bytes)| == |bytes|
    ensures forall i :: 0 <= i < |bytes| ==> Utf8Lossy(bytes)[i] == bytes[i] as char
    decreases |bytes|
  {
    if |bytes| > 0 {
      AsciiDecodes(bytes[1..]);
      var r := Utf8Lossy(bytes);
      assert r == [bytes[0] as char] + Utf8Lossy(bytes[1..]);
      forall i | 0 <= i < |bytes| ensures r[i] == bytes[i] as char {
        if i > 0 {
          assert r[i] == Utf8Lossy(bytes[1..])[i - 1];
          assert bytes[i] == bytes[1..][i - 1];
        }
      }
    }
  }

  // -------------------------------------------------------------------
  // The encoder the decoder inverts.

  /** The UTF-8 encoding of one character: one to four bytes. */
  function EncodeChar(c: char): (r: seq<u8>)
    ensures 1 <= |r| <= 4
  {
    var v := c as int;
    var q1 := v / 0x40;
    var q2 := q1 / 0x40;
    var q3 := q2 / 0x40;
    if v < 0x80 then [v]
    else if v < 0x800 then [0xC0 + q1, 0x80 + v % 0x40]
    else if v < 0x1_0000 then [0xE0 + q2, 0x80 + q1 % 0x40, 0x80 + v % 0x40]
    else [0xF0 + q3, 0x80 + q2 % 0x40, 0x80 + q1 % 0x40, 0x80 + v % 0x40]
  }

  function Encode(s: string): (r: seq<u8>)
    ensures |s| <= |r| <= 4 * |s|
  {
    if |s| == 0 then [] else EncodeChar(s[0]) + Encode(s[1..])
  }

  lemma DecodeTwo(v: int, rest: seq<u8>)
    requires 0x80 <= v < 0x800
    ensures DecodeStep([0xC0 + v / 0x40, 0x80 + v % 0x40] + rest) == (v as char, 2)
  {
    var bytes: seq<u8> := [0xC0 + v / 0x40, 0x80 + v % 0x40] + rest;
    assert bytes[0] == 0xC0 + v / 0x40 && bytes[1] == 0x80 + v % 0x40;
    assert v == v / 0x40 * 0x40 + v % 0x40;
  }

  lemma DecodeThree(v: int, rest: seq<u8>)
    requires 0x800 <= v < 0x1_0000 && (v < 0xD800 || 0xE000 <= v)
    ensures DecodeStep([0xE0 + v / 0x40 / 0x40, 0x80 + v / 0x40 % 0x40, 0x80 + v % 0x40] + rest) == (v as char, 3)
  {
    var q1 := v / 0x40;
    var q2 := q1 / 0x40;
    var bytes: seq<u8> := [0xE0 + q2, 0x80 + q1 % 0x40, 0x80 + v % 0x40] + rest;
    assert bytes[0] == 0xE0 + q2 && bytes[1] == 0x80 + q1 % 0x40 && bytes[2] == 0x80 + v % 0x40;
    assert v == q1 * 0x40 + v % 0x40;
    assert q1 == q2 * 0x40 + q1 % 0x40;
    assert SecondOk(bytes[0], bytes[1]);
  }

  lemma DecodeFour(v: int, rest: seq<u8>)
    requires 0x1_0000 <= v < 0x11_0000
    ensures DecodeStep([0xF0 + v / 0x40 / 0x40 / 0x40, 0x80 + v / 0x40 / 0x40 % 0x40, 0x80 + v / 0x40 % 0x40, 0x80 + v % 0x40] + rest)
      == (v as char, 4)
  {
    var q1 := v / 0x40;
    var q2 := q1 / 0x40;
    var q3 := q2 / 0x40;
    var bytes: seq<u8> := [0xF0 + q3, 0x80 + q2 % 0x40, 0x80 + q1 % 0x40, 0x80 + v % 0x40] + rest;
    assert bytes[0] == 0xF0 + q3 && bytes[1] == 0x80 + q2 % 0x40;
    assert bytes[2] == 0x80 + q1 % 0x40 && bytes[3] == 0x80 + v % 0x40;
    assert v == q1 * 0x40 + v % 0x40;
    assert q1 == q2 * 0x40 + q1 % 0x40;
    assert q2 == q3 * 0x40 + q2 % 0x40;
    assert SecondOk(bytes[0], bytes[1]);
  }

  /** The decoder reads back exactly the encoded character, whatever follows it. */
  lemma DecodeEncodedChar(c: char, rest: seq<u8>)
    ensures DecodeStep(EncodeChar(c) + rest) == (c, |EncodeChar(c)|)
  {
    var v := c as int;
    if v < 0x80 {
      assert (EncodeChar(c) + rest)[0] == v;
    } else if v < 0x800 {
      DecodeTwo(v, rest);
    } else if v < 0x1_0000 {
      DecodeThree(v, rest);
    } else {
      DecodeFour(v, rest);
    }
  }

  /** When a step reads exactly `head`, the rest is decoded on its own. */
  lemma DecodeFront(head: seq<u8>, tail: seq<u8>, c: char)
    requires |head| > 0 && DecodeStep(head + tail) == (c, |head|)
    ensures Utf8Lossy(head + tail) == [c] + Utf8Lossy(tail)
  {
    assert (head + tail)[|head|..] == tail;
  }

  /** Taking off the first character and putting it back. */
  lemma SplitFirst(s: string, t: string)
    requires |s| > 0
    ensures [s[0]] + (s[1..] + t) == s + t
  {
    assert s == [s[0]] + s[1..];
  }

  /** Decoding an encoded string gives it back, and what follows decodes on its own. */
  lemma {:induction false} DecodeEncoded(s: string, rest: seq<u8>)
    ensures Utf8Lossy(Encode(s) + rest) == s + Utf8Lossy(rest)
  {
    if |s| > 0 {
      var head := EncodeChar(s[0]);
      var tail := Encode(s[1..]) + rest;
      assert Encode(s) + rest == head + tail;
      DecodeEncodedChar(s[0], tail);
      DecodeFront(head, tail, s[0]);
      DecodeEncoded(s[1..], rest);
      SplitFirst(s, Utf8Lossy(rest));
    } else {
      assert Encode(s) + rest == rest;
    }
  }

  /** In particular every string is the lossy decoding of its own encoding. */
  lemma RoundTrip(s: string)
    ensures Utf8Lossy(Encode(s)) == s
  {
    DecodeEncoded(s, []);
    assert Encode(s) + [] == Encode(s);
  }

  // -------------------------------------------------------------------
  // How ill-formed input is replaced.

  /** "é" is the two bytes C3 A9. */
  lemma TwoByteExample()
    ensures Utf8Lossy([0xC3, 0xA9]) == "é"
  {
    assert DecodeStep([0xC3, 0xA9]) == ('é', 2);
    assert [0xC3, 0xA9][2..] == [];
  }

  /**
   * A three-byte sequence cut short before an ASCII letter: its two
   * accepted bytes make one U+FFFD, and the letter survives.
   */
  lemma TruncatedExample()
    ensures Utf8Lossy([0xE2, 0x82, 0x41]) == [REPLACEMENT, 'A']
  {
    var bytes: seq<u8> := [0xE2, 0x82, 0x41];
    assert DecodeStep(bytes) == (REPLACEMENT, 2);
    assert bytes[2..] == [0x41];
    assert DecodeStep([0x41]) == ('A', 1);
    assert [0x41][1..] == [];
  }

  /**
   * F0 80 is not the start of any character (the second byte of an F0
   * sequence starts at 90), so each byte becomes its own U+FFFD.
   */
  lemma OverlongExample()
    ensures Utf8Lossy([0xF0, 0x80]) == [REPLACEMENT, REPLACEMENT]
  {
    var bytes: seq<u8> := [0xF0, 0x80];
    assert DecodeStep(bytes) == (REPLACEMENT, 1);
    assert bytes[1..] == [0x80];
    assert [0x80][1..] == [];
  }

  /** A byte that cannot start a character is replaced on its own; decoding resumes after it. */
  lemma {:induction false} StrayByte(b: u8, rest: seq<u8>)
    requires LeadWidth(b) == 0
    ensures Utf8Lossy([b] + rest) == [REPLACEMENT] + Utf8Lossy(rest)
  {
    assert ([b] + rest)[0] == b;
    assert ([b] + rest)[1..] == rest;
  }
}
