/** The decimal printing of charconv.cpp: digits are written in groups of up to four, without leading zeros. */
module Charconv {

  // ----- decimal numerals

  function Digit(d: nat): char
    requires d < 10
  {
    '0' + d as char
  }

  /** The numeral of v without leading zeros. */
  function Decimal(v: nat): (s: string)
    ensures s != []
  {
    if v < 10 then [Digit(v)] else Decimal(v / 10) + [Digit(v % 10)]
  }

  /** The last n digits of v. */
  function Padded(v: nat, n: nat): (s: string)
    ensures |s| == n
  {
    if n == 0 then [] else Padded(v / 10, n - 1) + [Digit(v % 10)]
  }

  function Pow10(n: nat): (p: nat)
    ensures p > 0
  {
    if n == 0 then 1 else 10 * Pow10(n - 1)
  }

  predicate IsDigit(c: char) {
    '0' <= c <= '9'
  }

  function DigitValue(c: char): (d: nat)
    requires IsDigit(c)
    ensures d < 10 && Digit(d) == c
  {
    c as int - '0' as int
  }

  function Parse(s: string): nat
    requires forall c | c in s :: IsDigit(c)
  {
    if s == [] then 0
    else Parse(s[..|s| - 1]) * 10 + DigitValue(s[|s| - 1])
  }

  /** A numeral: digits, and no leading zero unless it is the only digit. */
  predicate Numeral(s: string) {
    s != [] && (forall c | c in s :: IsDigit(c)) && (s[0] == '0' ==> |s| == 1)
  }

  lemma {:induction false} DecimalIsNumeral(v: nat)
    ensures Numeral(Decimal(v)) && Parse(Decimal(v)) == v
    ensures Decimal(v)[0] == '0' ==> v == 0
  {
    if v >= 10 {
      DecimalIsNumeral(v / 10);
      var s := Decimal(v);
      assert s[..|s| - 1] == Decimal(v / 10) && s[0] == Decimal(v / 10)[0];
    }
  }

  /** Printing and parsing are inverse: the numeral of a value is the only one. */
  lemma {:induction false} NumeralUnique(s: string)
    requires Numeral(s)
    ensures Decimal(Parse(s)) == s
    ensures s[0] != '0' ==> Parse(s) > 0
  {
    var n := |s| - 1;
    assert s == s[..n] + [s[n]];
    assert s[n] in s;
    var d := DigitValue(s[n]);
    if n == 0 {
      assert Parse(s[..0]) == 0;
    } else {
      assert s[..n][0] == s[0];
      NumeralUnique(s[..n]);
      assert Parse(s) / 10 == Parse(s[..n]) && Parse(s) % 10 == d;
    }
  }

  // ----- putting groups of digits together

  lemma {:induction false} PaddedJoin(a: nat, b: nat, m: nat, n: nat)
    requires b < Pow10(n)
    ensures Padded(a, m) + Padded(b, n) == Padded(a * Pow10(n) + b, m + n)
  {
    if n == 0 {
      assert a * 1 + b == a;
      assert Padded(a, m) + [] == Padded(a, m);
    } else {
      var p := Pow10(n - 1);
      PaddedJoin(a, b / 10, m, n - 1);
      Shifted(a, p, b);
      assert (Padded(a, m) + Padded(b / 10, n - 1)) + [Digit(b % 10)] == Padded(a, m) + Padded(b, n);
    }
  }

  lemma Shifted(a: nat, p: nat, b: nat)
    ensures (a * (10 * p) + b) / 10 == a * p + b / 10 && (a * (10 * p) + b) % 10 == b % 10
  {
    assert a * (10 * p) == 10 * (a * p);
  }

  lemma {:induction false} DecimalJoin(a: nat, b: nat, n: nat)
    requires a > 0 && b < Pow10(n)
    ensures Decimal(a) + Padded(b, n) == Decimal(a * Pow10(n) + b)
  {
    if n == 0 {
      assert a * 1 + b == a;
      assert Decimal(a) + [] == Decimal(a);
    } else {
      var p := Pow10(n - 1);
      DecimalJoin(a, b / 10, n - 1);
      Shifted(a, p, b);
      assert a * (10 * p) >= 10 by {
        assert a * p >= 1;
        assert a * (10 * p) == 10 * (a * p);
      }
      assert (Decimal(a) + Padded(b / 10, n - 1)) + [Digit(b % 10)] == Decimal(a) + Padded(b, n);
    }
  }

  // ----- cDigitsLut

  /** The twenty characters of the table for the numbers that begin with t. */
  function Row(t: nat): (s: string)
    requires t < 10
    ensures |s| == 20
  {
    match t
    case 0 => "00010203040506070809"
    case 1 => "10111213141516171819"
    case 2 => "20212223242526272829"
    case 3 => "30313233343536373839"
    case 4 => "40414243444546474849"
    case 5 => "50515253545556575859"
    case 6 => "60616263646566676869"
    case 7 => "70717273747576777879"
    case 8 => "80818283848586878889"
    case _ => "90919293949596979899"
  }

  function Lut(k: nat): char
    requires k < 200
  {
    Row(k / 20)[k % 20]
  }

  ghost predicate RowOk(t: nat, u: nat)
    requires t < 10 && u < 10
  {
    Row(t)[2 * u] == Digit(t) && Row(t)[2 * u + 1] == Digit(u)
  }

  lemma Row0(u: nat)
    requires u < 10
    ensures RowOk(0, u)
  {
  }

  lemma Row1(u: nat)
    requires u < 10
    ensures RowOk(1, u)
  {
  }

  lemma Row2(u: nat)
    requires u < 10
    ensures RowOk(2, u)
  {
  }

  lemma Row3(u: nat)
    requires u < 10
    ensures RowOk(3, u)
  {
  }

  lemma Row4(u: nat)
    requires u < 10
    ensures RowOk(4, u)
  {
  }

  lemma Row5(u: nat)
    requires u < 10
    ensures RowOk(5, u)
  {
  }

  lemma Row6(u: nat)
    requires u < 10
    ensures RowOk(6, u)
  {
  }

  lemma Row7(u: nat)
    requires u < 10
    ensures RowOk(7, u)
  {
  }

  lemma Row8(u: nat)
    requires u < 10
    ensures RowOk(8, u)
  {
  }

  lemma Row9(u: nat)
    requires u < 10
    ensures RowOk(9, u)
  {
  }

  lemma RowExact(t: nat, u: nat)
    requires t < 10 && u < 10
    ensures RowOk(t, u)
  {
    hide RowOk;
    match t
    case 0 => Row0(u);
    case 1 => Row1(u);
    case 2 => Row2(u);
    case 3 => Row3(u);
    case 4 => Row4(u);
    case 5 => Row5(u);
    case 6 => Row6(u);
    case 7 => Row7(u);
    case 8 => Row8(u);
    case _ => Row9(u);
  }

  /** The two characters at 2 * i are the two digits of i. */
  lemma LutExact(i: nat)
    requires i < 100
    ensures [Lut(2 * i), Lut(2 * i + 1)] == Padded(i, 2)
  {
    hide Row;
    RowExact(i / 10, i % 10);
    assert 2 * i / 20 == i / 10 && 2 * i % 20 == 2 * (i % 10);
    assert (2 * i + 1) / 20 == i / 10 && (2 * i + 1) % 20 == 2 * (i % 10) + 1;
    assert Padded(i, 2) == Padded(i / 10, 1) + [Digit(i % 10)];
    assert Padded(i / 10, 1) == Padded(i / 10 / 10, 0) + [Digit(i / 10 % 10)];
  }

  // ----- writing to the buffer

  /** after is before with text written at position at. */
  predicate Wrote(before: string, after: string, at: nat, text: string) {
    at + |text| <= |before| && after == before[..at] + text + before[at + |text|..]
  }

  /** Two pieces written one after the other are their concatenation written at once. */
  lemma WroteBoth(a: string, b: string, c: string, at: nat, s: string, t: string)
    requires Wrote(a, b, at, s) && Wrote(b, c, at + |s|, t)
    ensures Wrote(a, c, at, s + t)
  {
    assert b[..at + |s|] == a[..at] + s;
    assert b[at + |s| + |t|..] == a[at + |s| + |t|..];
    assert a[..at] + s + t == a[..at] + (s + t);
  }

  method Append1(buffer: array<char>, at: nat, i: nat) returns (next: nat)
    requires i < 10 && at + 1 <= buffer.Length
    modifies buffer
    ensures next == at + 1 && Wrote(old(buffer[..]), buffer[..], at, Decimal(i))
    ensures Decimal(i) == Padded(i, 1)
  {
    buffer[at] := '0' + i as char;
    next := at + 1;
    assert Padded(i, 1) == Padded(i / 10, 0) + [Digit(i)];
  }

  method Append2(buffer: array<char>, at: nat, i: nat) returns (next: nat)
    requires i < 100 && at + 2 <= buffer.Length
    modifies buffer
    ensures next == at + 2 && Wrote(old(buffer[..]), buffer[..], at, Padded(i, 2))
  {
    hide Lut, Padded;
    LutExact(i);
    buffer[at], buffer[at + 1] := Lut(2 * i), Lut(2 * i + 1);
    next := at + 2;
  }

  method Append3(buffer: array<char>, at: nat, i: nat) returns (next: nat)
    requires 100 <= i < 1000 && at + 3 <= buffer.Length
    modifies buffer
    ensures next == at + 3 && Wrote(old(buffer[..]), buffer[..], at, Decimal(i))
  {
    hide Wrote, Padded, Decimal;
    Powers();
    ghost var a := buffer[..];
    next := Append1(buffer, at, i / 100);
    ghost var b := buffer[..];
    next := Append2(buffer, next, i % 100);
    DecimalJoin(i / 100, i % 100, 2);
    WroteBoth(a, b, buffer[..], at, Decimal(i / 100), Padded(i % 100, 2));
  }

  lemma Powers()
    ensures Pow10(2) == 100 && Pow10(4) == 10000 && Pow10(8) == 100000000
  {
    assert Pow10(0) == 1 && Pow10(1) == 10;
    assert Pow10(3) == 1000 && Pow10(5) == 100000 && Pow10(6) == 1000000 && Pow10(7) == 10000000;
  }

  method Append4(buffer: array<char>, at: nat, i: nat) returns (next: nat)
    requires i < 10000 && at + 4 <= buffer.Length
    modifies buffer
    ensures next == at + 4 && Wrote(old(buffer[..]), buffer[..], at, Padded(i, 4))
  {
    hide Wrote, Padded, Decimal;
    Powers();
    ghost var a := buffer[..];
    next := Append2(buffer, at, i / 100);
    ghost var b := buffer[..];
    next := Append2(buffer, next, i % 100);
    PaddedJoin(i / 100, i % 100, 2, 2);
    WroteBoth(a, b, buffer[..], at, Padded(i / 100, 2), Padded(i % 100, 2));
  }

  method Append2NoZeros(buffer: array<char>, at: nat, v: nat) returns (next: nat)
    requires v < 100 && at + |Decimal(v)| <= buffer.Length
    modifies buffer
    ensures next == at + |Decimal(v)| && Wrote(old(buffer[..]), buffer[..], at, Decimal(v))
  {
    hide Wrote, Padded;
    if v < 10 {
      next := Append1(buffer, at, v);
    } else {
      TwoDigits(v);
      next := Append2(buffer, at, v);
    }
  }

  lemma TwoDigits(v: nat)
    requires 10 <= v < 100
    ensures Decimal(v) == Padded(v, 2)
  {
    assert Padded(v, 2) == Padded(v / 10, 1) + [Digit(v % 10)];
    assert Padded(v / 10, 1) == Padded(v / 10 / 10, 0) + [Digit(v / 10)];
  }

  method Append4NoZeros(buffer: array<char>, at: nat, v: nat) returns (next: nat)
    requires v < 10000 && at + |Decimal(v)| <= buffer.Length
    modifies buffer
    ensures next == at + |Decimal(v)| && Wrote(old(buffer[..]), buffer[..], at, Decimal(v))
  {
    hide Wrote, Padded, Decimal;
    if v < 100 {
      next := Append2NoZeros(buffer, at, v);
    } else if v < 1000 {
      Lengths(v);
      next := Append3(buffer, at, v);
    } else {
      FourDigits(v);
      next := Append4(buffer, at, v);
    }
  }

  lemma Lengths(v: nat)
    requires 100 <= v < 1000
    ensures |Decimal(v)| == 3
  {
    Powers();
    DecimalJoin(v / 100, v % 100, 2);
  }

  lemma FourDigits(v: nat)
    requires 1000 <= v < 10000
    ensures Decimal(v) == Padded(v, 4)
  {
    Powers();
    DecimalJoin(v / 100, v % 100, 2);
    TwoDigits(v / 100);
    PaddedJoin(v / 100, v % 100, 2, 2);
  }

  method Append8NoZeros(buffer: array<char>, at: nat, v: nat) returns (next: nat)
    requires v < 100000000 && at + |Decimal(v)| <= buffer.Length
    modifies buffer
    ensures next == at + |Decimal(v)| && Wrote(old(buffer[..]), buffer[..], at, Decimal(v))
  {
    hide Wrote, Padded, Decimal;
    if v < 10000 {
      next := Append4NoZeros(buffer, at, v);
    } else {
      Powers();
      DecimalJoin(v / 10000, v % 10000, 4);
      ghost var a := buffer[..];
      next := Append4NoZeros(buffer, at, v / 10000);
      ghost var b := buffer[..];
      next := Append4(buffer, next, v % 10000);
      WroteBoth(a, b, buffer[..], at, Decimal(v / 10000), Padded(v % 10000, 4));
    }
  }

  /** Two groups of four. */
  method Append44(buffer: array<char>, at: nat, v: nat) returns (next: nat)
    requires v < 100000000 && at + 8 <= buffer.Length
    modifies buffer
    ensures next == at + 8 && Wrote(old(buffer[..]), buffer[..], at, Padded(v, 8))
  {
    hide Wrote, Padded, Decimal;
    Powers();
    PaddedJoin(v / 10000, v % 10000, 4, 4);
    ghost var a := buffer[..];
    next := Append4(buffer, at, v / 10000);
    ghost var b := buffer[..];
    next := Append4(buffer, next, v % 10000);
    WroteBoth(a, b, buffer[..], at, Padded(v / 10000, 4), Padded(v % 10000, 4));
  }

  /** The numeral of every 32-bit value. */
  method U32toa(value: nat, buffer: array<char>, at: nat) returns (next: nat)
    requires value < 0x1_0000_0000 && at + |Decimal(value)| <= buffer.Length
    modifies buffer
    ensures next == at + |Decimal(value)| && Wrote(old(buffer[..]), buffer[..], at, Decimal(value))
  {
    hide Wrote, Padded, Decimal;
    if value < 100000000 {
      next := Append8NoZeros(buffer, at, value);
    } else {
      var a, rest := value / 100000000, value % 100000000;
      Powers();
      DecimalJoin(a, rest, 8);
      ghost var s := buffer[..];
      next := Append2NoZeros(buffer, at, a);
      ghost var t := buffer[..];
      next := Append44(buffer, next, rest);
      WroteBoth(s, t, buffer[..], at, Decimal(a), Padded(rest, 8));
    }
  }

  /** A value of more than sixteen digits in three groups. */
  lemma Groups(value: nat, a: nat, v0: nat, v1: nat)
    requires 0 < a && v0 < 100000000 && v1 < 100000000 && value == (a * 100000000 + v0) * 100000000 + v1
    ensures Decimal(a * 100000000 + v0) == Decimal(a) + Padded(v0, 8)
    ensures Decimal(value) == Decimal(a) + Padded(v0, 8) + Padded(v1, 8)
  {
    hide Decimal, Padded, Pow10;
    Powers();
    DecimalJoin(a, v0, 8);
    DecimalJoin(a * 100000000 + v0, v1, 8);
  }

  /** The numeral of every 64-bit value. */
  method U64toa(value: nat, buffer: array<char>, at: nat) returns (next: nat)
    requires value < 0x1_0000_0000_0000_0000 && at + |Decimal(value)| <= buffer.Length
    modifies buffer
    ensures next == at + |Decimal(value)| && Wrote(old(buffer[..]), buffer[..], at, Decimal(value))
  {
    hide Wrote, Padded, Decimal, Pow10;
    Powers();
    ghost var s := buffer[..];
    if value < 100000000 {
      next := Append8NoZeros(buffer, at, value);
    } else if value < 10000000000000000 {
      var v0, v1 := value / 100000000, value % 100000000;
      DecimalJoin(v0, v1, 8);
      next := Append8NoZeros(buffer, at, v0);
      ghost var t := buffer[..];
      next := Append44(buffer, next, v1);
      WroteBoth(s, t, buffer[..], at, Decimal(v0), Padded(v1, 8));
    } else {
      var a, rest := value / 10000000000000000, value % 10000000000000000;
      var v0, v1 := rest / 100000000, rest % 100000000;
      Groups(value, a, v0, v1);
      next := Append4NoZeros(buffer, at, a);
      ghost var t := buffer[..];
      next := Append44(buffer, next, v0);
      ghost var u := buffer[..];
      WroteBoth(s, t, u, at, Decimal(a), Padded(v0, 8));
      next := Append44(buffer, next, v1);
      WroteBoth(s, u, buffer[..], at, Decimal(a * 100000000 + v0), Padded(v1, 8));
    }
  }
}
