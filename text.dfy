/**
 * String helpers with Rust's semantics: `trim` (Unicode White_Space),
 * ASCII case mapping, `split`, decimal and hexadecimal integer parsing as
 * `str::parse`/`from_str_radix` do it, and the formatting the tools use.
 */
module Text {
  import opened Bytes
  import opened Wrappers

  /** Rust's `char::is_whitespace`: the Unicode White_Space property. */
  predicate IsWhitespace(c: char)
  {
    || ('\t' <= c <= '\r') || c == ' ' || c == '\U{85}' || c == '\U{A0}' || c == '\U{1680}'
    || ('\U{2000}' <= c <= '\U{200A}') || c == '\U{2028}' || c == '\U{2029}' || c == '\U{202F}'
    || c == '\U{205F}' || c == '\U{3000}'
  }

  /** Rust's `str::trim_start`. */
  function TrimStart(s: string): (r: string)
    ensures |r| <= |s| && r == s[|s| - |r|..]
    ensures forall i :: 0 <= i < |s| - |r| ==> IsWhitespace(s[i])
    ensures r == [] || !IsWhitespace(r[0])
  {
    if |s| > 0 && IsWhitespace(s[0]) then TrimStart(s[1..]) else s
  }

  /** Rust's `str::trim_end`. */
  function TrimEnd(s: string): (r: string)
    ensures |r| <= |s| && r == s[..|r|]
    ensures forall i :: |r| <= i < |s| ==> IsWhitespace(s[i])
    ensures r == [] || !IsWhitespace(r[|r| - 1])
  {
    if |s| > 0 && IsWhitespace(s[|s| - 1]) then TrimEnd(s[..|s| - 1]) else s
  }

  /** How many characters `TrimStart` drops from the front of the text. */
  function LeadingWhitespace(s: string): nat
  {
    |s| - |TrimStart(s)|
  }

  /** Rust's `str::trim`: the infix left after dropping whitespace at both ends. */
  function Trim(s: string): (r: string)
    ensures |r| <= |s|
    ensures r == [] || (!IsWhitespace(r[0]) && !IsWhitespace(r[|r| - 1]))
  {
    TrimEnd(TrimStart(s))
  }

  /**
   * What `str::trim` keeps is the infix of the text that starts after its
   * leading whitespace and is followed by whitespace only.
   */
  lemma TrimInfix(s: string)
    ensures var r := Trim(s); var k := LeadingWhitespace(s);
      && k + |r| <= |s| && r == s[k..k + |r|]
      && (forall i :: 0 <= i < k ==> IsWhitespace(s[i]))
      && (forall i :: k + |r| <= i < |s| ==> IsWhitespace(s[i]))
  {
    var t := TrimStart(s);
    var r := TrimEnd(t);
    assert Trim(s) == r && LeadingWhitespace(s) == |s| - |t|;
    InfixBeforeWhitespace(s, t, r);
  }

  /**
   * A prefix `r` of a suffix `t` of `s`, where `t` continues after `r` with
   * whitespace only, is the infix of `s` at `|s| - |t|`, and `s` continues
   * after it with whitespace only.
   */
  lemma InfixBeforeWhitespace(s: string, t: string, r: string)
    requires |t| <= |s| && t == s[|s| - |t|..]
    requires |r| <= |t| && r == t[..|r|]
    requires forall i :: |r| <= i < |t| ==> IsWhitespace(t[i])
    ensures var k := |s| - |t|; r == s[k..k + |r|]
    ensures forall i :: |s| - |t| + |r| <= i < |s| ==> IsWhitespace(s[i])
  {
    var k := |s| - |t|;
    forall i | k + |r| <= i < |s|
      ensures IsWhitespace(s[i])
    {
      assert s[i] == t[i - k];
    }
  }

  /** Trimming leaves nothing exactly when the string is all whitespace. */
  lemma {:induction false} TrimEmpty(s: string)
    ensures Trim(s) == [] <==> forall i :: 0 <= i < |s| ==> IsWhitespace(s[i])
  {
    var t := TrimStart(s);
    if t != [] {
      assert !IsWhitespace(s[|s| - |t|]);
    }
  }

  /** Trimming twice is trimming once. */
  lemma TrimIdempotent(s: string)
    ensures Trim(Trim(s)) == Trim(s)
  {
    var r := Trim(s);
    assert TrimStart(r) == r;
    assert TrimEnd(r) == r;
  }

  function AsciiLowerChar(c: char): char
  {
    if 'A' <= c <= 'Z' then (c as int + 32) as char else c
  }

  function AsciiUpperChar(c: char): char
  {
    if 'a' <= c <= 'z' then (c as int - 32) as char else c
  }

  /** Rust's `str::to_ascii_lowercase`. */
  function ToAsciiLower(s: string): (r: string)
    ensures |r| == |s| && forall i :: 0 <= i < |s| ==> r[i] == AsciiLowerChar(s[i])
  {
    if |s| == 0 then [] else [AsciiLowerChar(s[0])] + ToAsciiLower(s[1..])
  }

  /** Rust's `str::to_ascii_uppercase`. */
  function ToAsciiUpper(s: string): (r: string)
    ensures |r| == |s| && forall i :: 0 <= i < |s| ==> r[i] == AsciiUpperChar(s[i])
  {
    if |s| == 0 then [] else [AsciiUpperChar(s[0])] + ToAsciiUpper(s[1..])
  }

  /** A string with no whitespace is its own trim. */
  lemma TrimNoWhitespace(s: string)
    requires forall i :: 0 <= i < |s| ==> !IsWhitespace(s[i])
    ensures Trim(s) == s
  {
    assert TrimStart(s) == s;
    assert TrimEnd(s) == s;
  }

  /** ASCII case mapping sends whitespace to whitespace and nothing else to whitespace. */
  lemma CaseKeepsWhitespace(c: char)
    ensures IsWhitespace(AsciiUpperChar(c)) == IsWhitespace(c)
    ensures IsWhitespace(AsciiLowerChar(c)) == IsWhitespace(c)
  {
  }

  /** Dropping k leading whitespace characters that stop before a non-whitespace one is `trim_start`. */
  lemma {:induction false} TrimStartUnique(s: string, k: nat)
    requires k <= |s| && forall i :: 0 <= i < k ==> IsWhitespace(s[i])
    requires k == |s| || !IsWhitespace(s[k])
    ensures TrimStart(s) == s[k..]
  {
    if k > 0 {
      assert s[1..][k - 1..] == s[k..];
      TrimStartUnique(s[1..], k - 1);
    }
  }

  /** Upper-casing commutes with dropping leading whitespace. */
  lemma TrimStartUpper(s: string)
    ensures TrimStart(ToAsciiUpper(s)) == ToAsciiUpper(TrimStart(s))
  {
    var k := |s| - |TrimStart(s)|;
    var u := ToAsciiUpper(s);
    forall i | 0 <= i < |s| ensures IsWhitespace(u[i]) == IsWhitespace(s[i]) {
      CaseKeepsWhitespace(s[i]);
    }
    TrimStartUnique(u, k);
    assert u[k..] == ToAsciiUpper(s[k..]);
  }

  lemma {:induction false} TrimEndUpper(s: string)
    ensures TrimEnd(ToAsciiUpper(s)) == ToAsciiUpper(TrimEnd(s))
  {
    if |s| > 0 {
      var n := |s| - 1;
      var u := ToAsciiUpper(s);
      CaseKeepsWhitespace(s[n]);
      assert u[n] == AsciiUpperChar(s[n]);
      if IsWhitespace(s[n]) {
        assert u[..n] == ToAsciiUpper(s[..n]);
        TrimEndUpper(s[..n]);
        assert TrimEnd(u) == TrimEnd(u[..n]);
      } else {
        assert TrimEnd(u) == u;
      }
    }
  }

  lemma TrimStartLower(s: string)
    ensures TrimStart(ToAsciiLower(s)) == ToAsciiLower(TrimStart(s))
  {
    var k := |s| - |TrimStart(s)|;
    var u := ToAsciiLower(s);
    forall i | 0 <= i < |s| ensures IsWhitespace(u[i]) == IsWhitespace(s[i]) {
      CaseKeepsWhitespace(s[i]);
    }
    TrimStartUnique(u, k);
    assert u[k..] == ToAsciiLower(s[k..]);
  }

  lemma {:induction false} TrimEndLower(s: string)
    ensures TrimEnd(ToAsciiLower(s)) == ToAsciiLower(TrimEnd(s))
  {
    if |s| > 0 {
      var n := |s| - 1;
      var u := ToAsciiLower(s);
      CaseKeepsWhitespace(s[n]);
      assert u[n] == AsciiLowerChar(s[n]);
      if IsWhitespace(s[n]) {
        assert u[..n] == ToAsciiLower(s[..n]);
        TrimEndLower(s[..n]);
        assert TrimEnd(u) == TrimEnd(u[..n]);
      } else {
        assert TrimEnd(u) == u;
      }
    }
  }

  /** Trimming commutes with ASCII case mapping. */
  lemma TrimCase(s: string)
    ensures Trim(ToAsciiUpper(s)) == ToAsciiUpper(Trim(s))
    ensures Trim(ToAsciiLower(s)) == ToAsciiLower(Trim(s))
  {
    TrimStartUpper(s);
    TrimEndUpper(TrimStart(s));
    TrimStartLower(s);
    TrimEndLower(TrimStart(s));
  }

  /** Case mapping forgets the case it started from. */
  lemma CaseOfCase(s: string)
    ensures ToAsciiLower(ToAsciiUpper(s)) == ToAsciiLower(s)
    ensures ToAsciiUpper(ToAsciiLower(s)) == ToAsciiUpper(s)
  {
  }

  /** Rust's `str::split_once` on a character: the text before and after its first occurrence. */
  function SplitOnce(s: string, c: char): (r: Option<(string, string)>)
    ensures r.None? <==> c !in s
    ensures r.Some? ==> s == r.value.0 + [c] + r.value.1 && c !in r.value.0
  {
    if |s| == 0 then None
    else if s[0] == c then Some(([], s[1..]))
    else match SplitOnce(s[1..], c)
      case None => None
      case Some((before, after)) => Some(([s[0]] + before, after))
  }

  predicate NoneIn(s: string, seps: set<char>)
  {
    forall i :: 0 <= i < |s| ==> s[i] !in seps
  }

  /** Rust's `str::split` on any of the separator characters; always at least one piece. */
  function Split(s: string, seps: set<char>): (r: seq<string>)
    ensures |r| >= 1
    ensures forall i :: 0 <= i < |r| ==> NoneIn(r[i], seps)
  {
    if |s| == 0 then [""]
    else if s[0] in seps then [""] + Split(s[1..], seps)
    else
      var rest := Split(s[1..], seps);
      [[s[0]] + rest[0]] + rest[1..]
  }

  /** Rust's `join`: the pieces with `sep` between consecutive ones. */
  function Join(parts: seq<string>, sep: string): string
  {
    if |parts| == 0 then ""
    else if |parts| == 1 then parts[0]
    else parts[0] + sep + Join(parts[1..], sep)
  }

  /** Splitting on one character and joining with it gives back the input. */
  lemma {:induction false} JoinSplit(s: string, c: char)
    ensures Join(Split(s, {c}), [c]) == s
  {
    if |s| > 0 {
      JoinSplit(s[1..], c);
      var rest := Split(s[1..], {c});
      if s[0] == c {
        assert Split(s, {c}) == [""] + rest;
        assert Join([""] + rest, [c]) == "" + [c] + Join(rest, [c]);
        assert s == [s[0]] + s[1..];
      } else {
        var r := Split(s, {c});
        assert r == [[s[0]] + rest[0]] + rest[1..];
        if |rest| == 1 {
          assert Join(r, [c]) == [s[0]] + rest[0];
        } else {
          assert Join(r, [c]) == [s[0]] + rest[0] + [c] + Join(rest[1..], [c]);
          assert Join(rest, [c]) == rest[0] + [c] + Join(rest[1..], [c]);
        }
        assert s == [s[0]] + s[1..];
      }
    }
  }

  /** A piece without separators splits into itself. */
  lemma {:induction false} SplitNoSeparator(s: string, seps: set<char>)
    requires NoneIn(s, seps)
    ensures Split(s, seps) == [s]
  {
    if |s| > 0 {
      assert NoneIn(s[1..], seps) by {
        assert forall i :: 0 <= i < |s| - 1 ==> s[1..][i] == s[i + 1];
      }
      SplitNoSeparator(s[1..], seps);
      assert s == [s[0]] + s[1..];
    }
  }

  /** Text without separators in front of `b` joins the first piece of `b`. */
  lemma {:induction false} SplitPrefix(a: string, b: string, seps: set<char>)
    requires NoneIn(a, seps)
    ensures Split(a + b, seps) == [a + Split(b, seps)[0]] + Split(b, seps)[1..]
  {
    if |a| > 0 {
      assert NoneIn(a[1..], seps) by {
        assert forall i :: 0 <= i < |a| - 1 ==> a[1..][i] == a[i + 1];
      }
      assert (a + b)[1..] == a[1..] + b;
      SplitPrefix(a[1..], b, seps);
      assert (a + b)[0] == a[0] && a[0] !in seps;
      var rest := Split(a[1..] + b, seps);
      assert rest[0] == a[1..] + Split(b, seps)[0] && rest[1..] == Split(b, seps)[1..];
      assert Split(a + b, seps) == [[a[0]] + rest[0]] + rest[1..];
      assert [a[0]] + rest[0] == a + Split(b, seps)[0];
    } else {
      assert a + b == b;
      var r := Split(b, seps);
      assert r == [r[0]] + r[1..];
      assert a + r[0] == r[0];
    }
  }

  lemma ConsAppend<T>(x: T, p: seq<T>, q: seq<T>)
    ensures [x] + p + q == [x] + (p + q)
  {
  }

  /** Splitting at a separator splits the two sides independently. */
  lemma {:induction false} SplitAppend(a: string, b: string, c: char, seps: set<char>)
    requires c in seps
    ensures Split(a + [c] + b, seps) == Split(a, seps) + Split(b, seps)
  {
    if |a| == 0 {
      assert a + [c] + b == [c] + b;
      assert ([c] + b)[1..] == b;
    } else {
      var s := a + [c] + b;
      assert s[1..] == a[1..] + [c] + b;
      SplitAppend(a[1..], b, c, seps);
      var ra := Split(a[1..], seps);
      var rest := Split(s[1..], seps);
      assert rest == ra + Split(b, seps);
      if a[0] in seps {
        assert Split(s, seps) == [""] + rest;
        assert Split(a, seps) == [""] + ra;
        ConsAppend("", ra, Split(b, seps));
      } else {
        assert rest[0] == ra[0];
        assert rest[1..] == ra[1..] + Split(b, seps);
        assert Split(s, seps) == [[a[0]] + ra[0]] + rest[1..];
        assert Split(a, seps) == [[a[0]] + ra[0]] + ra[1..];
        ConsAppend([a[0]] + ra[0], ra[1..], Split(b, seps));
      }
    }
  }

  /** Every character of a trimmed string is a character of the string. */
  lemma TrimChars(s: string)
    ensures forall i :: 0 <= i < |Trim(s)| ==> Trim(s)[i] in s
  {
    var r := Trim(s);
    var k := LeadingWhitespace(s);
    TrimInfix(s);
    forall i | 0 <= i < |r| ensures r[i] in s {
      assert r[i] == s[k + i];
    }
  }

  /** Leading whitespace does not change the trim. */
  lemma {:induction false} TrimStartPadded(pad: string, s: string)
    requires forall i :: 0 <= i < |pad| ==> IsWhitespace(pad[i])
    ensures TrimStart(pad + s) == TrimStart(s)
    ensures Trim(pad + s) == Trim(s)
  {
    if |pad| > 0 {
      assert (pad + s)[1..] == pad[1..] + s;
      TrimStartPadded(pad[1..], s);
    } else {
      assert pad + s == s;
    }
  }

  // -------------------------------------------------------------------
  // Integer parsing as Rust's `from_str_radix` does it.

  function DigitValue(c: char): (r: nat)
  {
    if '0' <= c <= '9' then c as int - '0' as int
    else if 'a' <= c <= 'z' then c as int - 'a' as int + 10
    else if 'A' <= c <= 'Z' then c as int - 'A' as int + 10
    else 36
  }

  predicate IsDigitOf(c: char, radix: nat)
  {
    DigitValue(c) < radix
  }

  predicate AllDigits(s: string, radix: nat)
  {
    forall i :: 0 <= i < |s| ==> IsDigitOf(s[i], radix)
  }

  /** The value of a digit string, most significant digit first. */
  function DigitsValue(s: string, radix: nat): nat
  {
    if |s| == 0 then 0 else DigitsValue(s[..|s| - 1], radix) * radix + DigitValue(s[|s| - 1])
  }

  /** The digits after an optional sign: `+` always, `-` only when `signed`. */
  function Unsigned(s: string, signed: bool): string
  {
    if |s| > 0 && (s[0] == '+' || (signed && s[0] == '-')) then s[1..] else s
  }

  /** The value of `acc` followed by the digits of `d`, most significant first. */
  function DigitsFrom(acc: nat, d: string, radix: nat): nat
    decreases |d|
  {
    if |d| == 0 then acc else DigitsFrom(acc * radix + DigitValue(d[0]), d[1..], radix)
  }

  /** Reading from the front and from the back give the same value. */
  lemma {:induction false} DigitsFromSnoc(acc: nat, d: string, c: char, radix: nat)
    ensures DigitsFrom(acc, d + [c], radix) == DigitsFrom(acc, d, radix) * radix + DigitValue(c)
    decreases |d|
  {
    if |d| > 0 {
      assert (d + [c])[1..] == d[1..] + [c];
      DigitsFromSnoc(acc * radix + DigitValue(d[0]), d[1..], c, radix);
    }
  }

  lemma {:induction false} DigitsFromZero(d: string, radix: nat)
    ensures DigitsFrom(0, d, radix) == DigitsValue(d, radix)
  {
    if |d| > 0 {
      DigitsFromZero(d[..|d| - 1], radix);
      DigitsFromSnoc(0, d[..|d| - 1], d[|d| - 1], radix);
      assert d[..|d| - 1] + [d[|d| - 1]] == d;
    }
  }

  lemma {:induction false} DigitsFromGrows(acc: nat, d: string, radix: nat)
    requires radix >= 1
    ensures DigitsFrom(acc, d, radix) >= acc
    decreases |d|
  {
    if |d| > 0 {
      assert acc * radix >= acc by {
        MulLe(1, radix, acc);
      }
      DigitsFromGrows(acc * radix + DigitValue(d[0]), d[1..], radix);
    }
  }

  /**
   * The digit loop of `from_str_radix`: left to right, each character must
   * be a digit of the radix, and the value so far times the radix plus the
   * digit must stay within `bound`; the first character that breaks either
   * rule decides the error.
   */
  function ScanDigits(d: string, radix: nat, bound: nat, acc: nat, overflow: string): (r: Result<nat, string>)
    ensures r.Ok? || r == Err("invalid digit found in string") || r == Err(overflow)
    decreases |d|
  {
    if |d| == 0 then Ok(acc)
    else if !IsDigitOf(d[0], radix) then Err("invalid digit found in string")
    else if acc * radix + DigitValue(d[0]) > bound then Err(overflow)
    else ScanDigits(d[1..], radix, bound, acc * radix + DigitValue(d[0]), overflow)
  }

  /** The scan succeeds exactly on a digit string whose whole value is within the bound. */
  lemma {:induction false} ScanDigitsMeaning(d: string, radix: nat, bound: nat, acc: nat, overflow: string)
    requires 2 <= radix && acc <= bound
    ensures ScanDigits(d, radix, bound, acc, overflow).Ok? <==> AllDigits(d, radix) && DigitsFrom(acc, d, radix) <= bound
    ensures ScanDigits(d, radix, bound, acc, overflow).Ok? ==> ScanDigits(d, radix, bound, acc, overflow).value == DigitsFrom(acc, d, radix)
    decreases |d|
  {
    if |d| > 0 && IsDigitOf(d[0], radix) {
      var next := acc * radix + DigitValue(d[0]);
      DigitsFromGrows(next, d[1..], radix);
      assert AllDigits(d, radix) <==> AllDigits(d[1..], radix) by {
        if AllDigits(d[1..], radix) {
          forall i | 0 <= i < |d| ensures IsDigitOf(d[i], radix) {
            if i > 0 { assert d[i] == d[1..][i - 1]; }
          }
        }
      }
      if next <= bound {
        ScanDigitsMeaning(d[1..], radix, bound, next, overflow);
      }
    }
  }

  /** A run of digits whose value is already too large reports overflow, whatever follows it. */
  lemma {:induction false} ScanOverflowFirst(p: string, rest: string, radix: nat, bound: nat, acc: nat, overflow: string)
    requires 2 <= radix && acc <= bound
    requires AllDigits(p, radix) && DigitsFrom(acc, p, radix) > bound
    ensures ScanDigits(p + rest, radix, bound, acc, overflow) == Err(overflow)
    decreases |p|
  {
    assert |p| > 0;
    assert (p + rest)[0] == p[0] && (p + rest)[1..] == p[1..] + rest;
    assert IsDigitOf(p[0], radix);
    var next := acc * radix + DigitValue(p[0]);
    if next <= bound {
      assert AllDigits(p[1..], radix) by {
        forall i | 0 <= i < |p[1..]| ensures IsDigitOf(p[1..][i], radix) {
          assert p[1..][i] == p[i + 1];
        }
      }
      ScanOverflowFirst(p[1..], rest, radix, bound, next, overflow);
    }
  }

  /** A non-digit reached before the value overflows reports an invalid digit, whatever follows it. */
  lemma {:induction false} ScanInvalidFirst(p: string, c: char, rest: string, radix: nat, bound: nat, acc: nat, overflow: string)
    requires 2 <= radix && acc <= bound
    requires AllDigits(p, radix) && DigitsFrom(acc, p, radix) <= bound && !IsDigitOf(c, radix)
    ensures ScanDigits(p + [c] + rest, radix, bound, acc, overflow) == Err("invalid digit found in string")
    decreases |p|
  {
    var s := p + [c] + rest;
    if |p| == 0 {
      assert s[0] == c;
    } else {
      assert s[0] == p[0] && s[1..] == p[1..] + [c] + rest;
      assert IsDigitOf(p[0], radix);
      var next := acc * radix + DigitValue(p[0]);
      DigitsFromGrows(next, p[1..], radix);
      assert AllDigits(p[1..], radix) by {
        forall i | 0 <= i < |p[1..]| ensures IsDigitOf(p[1..][i], radix) {
          assert p[1..][i] == p[i + 1];
        }
      }
      ScanInvalidFirst(p[1..], c, rest, radix, bound, next, overflow);
    }
  }

  /**
   * Rust's `from_str_radix` for an unsigned type whose maximum is `max`:
   * an optional `+`, then at least one digit of the radix, and the value
   * must not exceed `max`. The messages are those of `ParseIntError`; the
   * digits are read left to right, so the first bad character or the first
   * overflow, whichever comes first, decides the error.
   */
  function ParseUnsigned(s: string, radix: nat, max: nat): (r: Result<nat, string>)
    requires 2 <= radix <= 36
    ensures r.Ok? <==>
      |Unsigned(s, false)| > 0 && AllDigits(Unsigned(s, false), radix) && DigitsValue(Unsigned(s, false), radix) <= max
    ensures r.Ok? ==> r.value == DigitsValue(Unsigned(s, false), radix) && r.value <= max
    ensures |s| == 0 ==> r == Err("cannot parse integer from empty string")
    ensures r.Err? && |s| > 0 ==> r == Err("invalid digit found in string") || r == Err("number too large to fit in target type")
  {
    var d := Unsigned(s, false);
    if |s| == 0 then Err("cannot parse integer from empty string")
    else if |d| == 0 then Err("invalid digit found in string")
    else
      ScanDigitsMeaning(d, radix, max, 0, "number too large to fit in target type");
      DigitsFromZero(d, radix);
      ScanDigits(d, radix, max, 0, "number too large to fit in target type")
  }

  /** Digits worth more than `max` give the overflow error even when a bad character follows. */
  lemma ParseUnsignedOverflowFirst(p: string, rest: string, radix: nat, max: nat)
    requires 2 <= radix <= 36 && |p| > 0 && AllDigits(p, radix) && DigitsValue(p, radix) > max
    ensures ParseUnsigned(p + rest, radix, max) == Err("number too large to fit in target type")
  {
    assert IsDigitOf(p[0], radix);
    assert (p + rest)[0] == p[0];
    assert Unsigned(p + rest, false) == p + rest;
    DigitsFromZero(p, radix);
    ScanOverflowFirst(p, rest, radix, max, 0, "number too large to fit in target type");
  }

  /** A bad character met while the value still fits gives the invalid-digit error, whatever follows. */
  lemma ParseUnsignedInvalidFirst(p: string, c: char, rest: string, radix: nat, max: nat)
    requires 2 <= radix <= 36 && |p| > 0 && AllDigits(p, radix) && DigitsValue(p, radix) <= max && !IsDigitOf(c, radix)
    ensures ParseUnsigned(p + [c] + rest, radix, max) == Err("invalid digit found in string")
  {
    assert IsDigitOf(p[0], radix);
    assert (p + [c] + rest)[0] == p[0];
    assert Unsigned(p + [c] + rest, false) == p + [c] + rest;
    DigitsFromZero(p, radix);
    ScanInvalidFirst(p, c, rest, radix, max, 0, "number too large to fit in target type");
  }

  /** "70000x" does not fit a u16: the fifth digit overflows before the `x` is read. */
  lemma OverflowBeforeBadDigitExample()
    ensures ParseUnsigned("70000x", 10, 0xFFFF) == Err("number too large to fit in target type")
  {
    assert DigitsValue("70000", 10) == 70000 by {
      DigitsFromZero("70000", 10);
    }
    assert "70000x" == "70000" + "x";
    ParseUnsignedOverflowFirst("70000", "x", 10, 0xFFFF);
  }

  /** The value of the digits, negated after a leading `-`. */
  function SignedValue(s: string, radix: nat): int
  {
    var magnitude: int := DigitsValue(Unsigned(s, true), radix);
    if |s| > 0 && s[0] == '-' then -magnitude else magnitude
  }

  /**
   * Rust's `from_str_radix` for a signed type with range [min, max]: an
   * optional `+` or `-`, then at least one digit. After a `-` the digits
   * are subtracted and must not pass `min`, otherwise added and must not
   * pass `max`, checked digit by digit as for the unsigned types.
   */
  function ParseSigned(s: string, radix: nat, min: int, max: int): (r: Result<int, string>)
    requires 2 <= radix <= 36 && min <= 0 <= max
    ensures r.Ok? <==>
      && |Unsigned(s, true)| > 0 && AllDigits(Unsigned(s, true), radix)
      && min <= SignedValue(s, radix) <= max
    ensures r.Ok? ==> r.value == SignedValue(s, radix)
    ensures |s| == 0 ==> r == Err("cannot parse integer from empty string")
    ensures r == Err("number too small to fit in target type") ==> s[0] == '-'
    ensures r == Err("number too large to fit in target type") ==> |s| > 0 && s[0] != '-'
  {
    var d := Unsigned(s, true);
    if |s| == 0 then Err("cannot parse integer from empty string")
    else if |d| == 0 then Err("invalid digit found in string")
    else
      DigitsFromZero(d, radix);
      if s[0] == '-' then
        ScanDigitsMeaning(d, radix, -min, 0, "number too small to fit in target type");
        match ScanDigits(d, radix, -min, 0, "number too small to fit in target type")
        case Ok(magnitude) => Ok(-(magnitude as int))
        case Err(e) => Err(e)
      else
        ScanDigitsMeaning(d, radix, max, 0, "number too large to fit in target type");
        match ScanDigits(d, radix, max, 0, "number too large to fit in target type")
        case Ok(magnitude) => Ok(magnitude)
        case Err(e) => Err(e)
  }

  // -------------------------------------------------------------------
  // Formatting.

  function DigitChar(d: nat): (c: char)
    requires d < 16
    ensures DigitValue(c) == d
  {
    if d < 10 then ('0' as int + d) as char else ('A' as int + d - 10) as char
  }

  function LowerDigitChar(d: nat): (c: char)
    requires d < 16
    ensures DigitValue(c) == d && !('A' <= c <= 'Z')
  {
    if d < 10 then ('0' as int + d) as char else ('a' as int + d - 10) as char
  }

  function Pow16(n: nat): nat
  {
    if n == 0 then 1 else 16 * Pow16(n - 1)
  }

  /** The lowest `width` hexadecimal digits of `v`, lower case, zero-padded. */
  function LowerHex(v: nat, width: nat): (r: string)
    ensures |r| == width && AllDigits(r, 16)
    ensures forall i :: 0 <= i < |r| ==> !('A' <= r[i] <= 'Z')
    ensures v < Pow16(width) ==> DigitsValue(r, 16) == v
  {
    if width == 0 then ""
    else
      var r := LowerHex(v / 16, width - 1) + [LowerDigitChar(v % 16)];
      assert r[..width - 1] == LowerHex(v / 16, width - 1);
      r
  }

  /** `format!("{v:#06x}")` for a 16-bit value: `0x` and four lower-case hexadecimal digits. */
  function HexWord(v: nat): (r: string)
    requires v < 0x10000
    ensures |r| == 6 && r[..2] == "0x"
    ensures AllDigits(r[2..], 16) && DigitsValue(r[2..], 16) == v
    ensures forall i :: 2 <= i < 6 ==> !('A' <= r[i] <= 'Z')
  {
    assert Pow16(4) == 0x10000;
    var r := "0x" + LowerHex(v, 4);
    assert r[2..] == LowerHex(v, 4);
    r
  }

  /** `format!("{n}")` for a natural number. */
  function NatToDecimal(n: nat): (r: string)
    ensures |r| >= 1 && forall i :: 0 <= i < |r| ==> '0' <= r[i] <= '9'
    ensures AllDigits(r, 10)
    decreases n
  {
    if n < 10 then [DigitChar(n)] else NatToDecimal(n / 10) + [DigitChar(n % 10)]
  }

  /** Parsing what was formatted gives back the number. */
  lemma {:induction false} DecimalRoundTrip(n: nat)
    ensures DigitsValue(NatToDecimal(n), 10) == n
    decreases n
  {
    if n >= 10 {
      DecimalRoundTrip(n / 10);
      var s := NatToDecimal(n);
      assert s[..|s| - 1] == NatToDecimal(n / 10);
    }
  }

  /** `format!("{b:02X}")`: two upper-case hexadecimal digits. */
  function HexByte(b: u8): (r: string)
    ensures |r| == 2 && AllDigits(r, 16)
    ensures DigitsValue(r, 16) == b
  {
    var r := [DigitChar(b / 16), DigitChar(b % 16)];
    assert r[..1] == [DigitChar(b / 16)];
    assert r[..1][..0] == [];
    assert DigitsValue(r[..1], 16) == b / 16;
    r
  }

  /** The bytes before the first NUL, or all of them. */
  function UntilNul(bytes: seq<u8>): (r: seq<u8>)
    ensures |r| <= |bytes| && r == bytes[..|r|]
    ensures forall i :: 0 <= i < |r| ==> r[i] != 0
    ensures |r| < |bytes| ==> bytes[|r|] == 0
  {
    if |bytes| == 0 || bytes[0] == 0 then [] else [bytes[0]] + UntilNul(bytes[1..])
  }

  /** Whatever follows the first NUL is cut off. */
  lemma {:induction false} UntilNulTerminated(text: seq<u8>, rest: seq<u8>)
    requires forall i :: 0 <= i < |text| ==> text[i] != 0
    ensures UntilNul(text + [0] + rest) == text
    ensures UntilNul(text) == text
  {
    if |text| > 0 {
      assert (text + [0] + rest)[1..] == text[1..] + [0] + rest;
      UntilNulTerminated(text[1..], rest);
      assert text == [text[0]] + text[1..];
    }
  }

  predicate StartsWith(s: string, prefix: string)
  {
    |prefix| <= |s| && s[..|prefix|] == prefix
  }
}
