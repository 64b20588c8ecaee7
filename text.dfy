/** Character and string helpers shared by the order-number rule, the date
    renderings and the SQL pattern matcher: decimal digits, PHP's int-to-string
    and string-to-int conversions, `str_pad` to the left, substring tests and
    the byte-wise order in which the database sorts `order_no`. */
module Text {

  predicate IsDigit(c: char) { '0' <= c <= '9' }

  predicate AllDigits(s: string) { forall i :: 0 <= i < |s| ==> IsDigit(s[i]) }

  lemma AllDigitsAppend(a: string, b: string)
    requires AllDigits(a) && AllDigits(b)
    ensures AllDigits(a + b)
  {
    forall i | 0 <= i < |a + b|
      ensures IsDigit((a + b)[i])
    {
      if i < |a| { assert (a + b)[i] == a[i]; } else { assert (a + b)[i] == b[i - |a|]; }
    }
  }

  function DigitOf(c: char): nat
    requires IsDigit(c)
  {
    c as int - '0' as int
  }

  function DigitChar(d: nat): (c: char)
    requires d < 10
    ensures IsDigit(c) && DigitOf(c) == d
  {
    ('0' as int + d) as char
  }

  function Pow10(n: nat): (r: nat)
    ensures r >= 1
  {
    if n == 0 then 1 else 10 * Pow10(n - 1)
  }

  /** The widths the date renderings use. */
  lemma Pow10Widths()
    ensures Pow10(2) == 100 && Pow10(4) == 10000
  {
    assert Pow10(1) == 10;
    assert Pow10(3) == 1000;
  }

  /** The value of a string of decimal digits, most significant digit first. */
  function Value(s: string): nat
    requires AllDigits(s)
  {
    if s == [] then 0 else Value(s[..|s| - 1]) * 10 + DigitOf(s[|s| - 1])
  }

  lemma {:induction false} ValueBound(s: string)
    requires AllDigits(s)
    ensures Value(s) < Pow10(|s|)
  {
    if s != [] {
      ValueBound(s[..|s| - 1]);
    }
  }

  /** The same value, read from the most significant digit. */
  lemma {:induction false} ValueFront(s: string)
    requires AllDigits(s) && s != []
    ensures Value(s) == DigitOf(s[0]) * Pow10(|s| - 1) + Value(s[1..])
  {
    var n := |s|;
    if n == 1 {
      assert s[..0] == [] && s[1..] == [];
    } else {
      var init := s[..n - 1];
      ValueFront(init);
      assert init[0] == s[0];
      assert init[1..] == s[1..][..n - 2];
      assert s[1..][n - 2] == s[n - 1];
      var d0, p, v, last := DigitOf(s[0]), Pow10(n - 2), Value(init[1..]), DigitOf(s[n - 1]);
      assert Value(s) == (d0 * p + v) * 10 + last;
      assert Value(s[1..]) == v * 10 + last;
      ShiftDigit(d0, p, v, last);
    }
  }

  lemma ShiftDigit(d0: nat, p: nat, v: nat, last: nat)
    ensures (d0 * p + v) * 10 + last == d0 * (10 * p) + (v * 10 + last)
  {
  }

  /** Leading zeros do not change the value. */
  lemma {:induction false} ValueLeadingZeros(z: string, s: string)
    requires forall i :: 0 <= i < |z| ==> z[i] == '0'
    requires AllDigits(s)
    ensures AllDigits(z + s) && Value(z + s) == Value(s)
  {
    if s == [] {
      assert z + s == z;
      if z != [] {
        ValueLeadingZeros(z[..|z| - 1], []);
        assert z[..|z| - 1] + [] == z[..|z| - 1];
      }
    } else {
      ValueLeadingZeros(z, s[..|s| - 1]);
      assert (z + s)[..|z + s| - 1] == z + s[..|s| - 1];
    }
  }

  /** PHP's decimal rendering of a non-negative integer (no leading zeros). */
  function NatToStr(n: nat): (r: string)
    ensures AllDigits(r) && r != []
  {
    if n < 10 then [DigitChar(n)] else NatToStr(n / 10) + [DigitChar(n % 10)]
  }

  lemma {:induction false} NatToStrValue(n: nat)
    ensures Value(NatToStr(n)) == n
  {
    if n >= 10 {
      var r := NatToStr(n);
      assert r[..|r| - 1] == NatToStr(n / 10);
      NatToStrValue(n / 10);
    }
  }

  lemma {:induction false} NatToStrLength(n: nat, w: nat)
    requires 1 <= w && n < Pow10(w)
    ensures |NatToStr(n)| <= w
  {
    if n >= 10 {
      assert w >= 2;
      NatToStrLength(n / 10, w - 1);
    }
  }

  /** PHP's conversion of an int to a string, as `str_pad` performs it. */
  function IntToStr(n: int): string
  {
    if n < 0 then "-" + NatToStr(-n) else NatToStr(n)
  }

  /** `n` copies of `c`. */
  function Repeat(c: char, n: nat): (r: string)
    ensures |r| == n && forall i :: 0 <= i < n ==> r[i] == c
  {
    if n == 0 then [] else [c] + Repeat(c, n - 1)
  }

  /** `str_pad(s, width, c, STR_PAD_LEFT)`: pads on the left up to `width`
      characters, leaves a string that is already long enough alone. */
  function PadLeft(s: string, width: nat, c: char): string
  {
    if |s| < width then Repeat(c, width - |s|) + s else s
  }

  lemma ZeroPadFacts(n: nat, w: nat)
    requires 1 <= w && n < Pow10(w)
    ensures var r := PadLeft(NatToStr(n), w, '0'); |r| == w && AllDigits(r) && Value(r) == n
  {
    var s := NatToStr(n);
    NatToStrLength(n, w);
    NatToStrValue(n);
    var z := Repeat('0', w - |s|);
    assert PadLeft(s, w, '0') == z + s;
    ValueLeadingZeros(z, s);
  }

  /** Fixed-width zero-padded decimal rendering (PHP date letters 'Y', 'm',
      'd', 'H', 'i', 's'); it reads back as the number it renders. */
  function ZeroPad(n: nat, w: nat): (r: string)
    requires 1 <= w && n < Pow10(w)
    ensures |r| == w && AllDigits(r) && Value(r) == n
  {
    ZeroPadFacts(n, w);
    PadLeft(NatToStr(n), w, '0')
  }

  predicate IsPrefix(t: string, s: string) { |t| <= |s| && s[..|t|] == t }

  /** `t` occurs in `s` as a contiguous substring. */
  predicate Contains(s: string, t: string)
  {
    exists k :: 0 <= k <= |s| && IsPrefix(t, s[k..])
  }

  /** Byte-wise order on strings (a binary collation): `a` is a prefix of `b`,
      or the first character where they differ is smaller in `a`. */
  predicate LexLe(a: string, b: string)
  {
    a == [] || (b != [] && (a[0] < b[0] || (a[0] == b[0] && LexLe(a[1..], b[1..]))))
  }

  predicate LexLt(a: string, b: string) { LexLe(a, b) && a != b }

  lemma {:induction false} LexLeTotal(a: string, b: string)
    ensures LexLe(a, b) || LexLe(b, a)
  {
    if a != [] && b != [] && a[0] == b[0] {
      LexLeTotal(a[1..], b[1..]);
    }
  }

  lemma {:induction false} LexLeAntisymmetric(a: string, b: string)
    requires LexLe(a, b) && LexLe(b, a)
    ensures a == b
  {
    if a != [] && b != [] {
      LexLeAntisymmetric(a[1..], b[1..]);
      assert a == [a[0]] + a[1..] && b == [b[0]] + b[1..];
    }
  }

  lemma {:induction false} LexLeTransitive(a: string, b: string, c: string)
    requires LexLe(a, b) && LexLe(b, c)
    ensures LexLe(a, c)
  {
    if a != [] && b != [] && c != [] && a[0] == b[0] && b[0] == c[0] {
      LexLeTransitive(a[1..], b[1..], c[1..]);
    }
  }

  lemma {:induction false} LexLeCommonPrefix(p: string, x: string, y: string)
    ensures LexLe(p + x, p + y) <==> LexLe(x, y)
  {
    if p != [] {
      assert (p + x)[1..] == p[1..] + x && (p + y)[1..] == p[1..] + y;
      LexLeCommonPrefix(p[1..], x, y);
    } else {
      assert p + x == x && p + y == y;
    }
  }

  /** Comparing two strings that start with pieces of one width: the first
      pieces decide unless they are equal, then the rests do. */
  lemma {:induction false} LexLeAppend(a: string, x: string, b: string, y: string)
    requires |a| == |b|
    ensures LexLe(a + x, b + y) <==> LexLt(a, b) || (a == b && LexLe(x, y))
  {
    if a == [] {
      assert a + x == x && b + y == y;
    } else {
      assert (a + x)[1..] == a[1..] + x && (b + y)[1..] == b[1..] + y;
      LexLeAppend(a[1..], x, b[1..], y);
      if a[0] == b[0] {
        assert a == [a[0]] + a[1..] && b == [b[0]] + b[1..];
      }
    }
  }

  lemma MulMonotone(x: nat, y: nat, p: nat)
    requires x <= y
    ensures x * p <= y * p
  {
  }

  /** A digit string whose leading digit is smaller is numerically smaller. */
  lemma LeadingDigitDecides(a: string, b: string)
    requires |a| == |b| && a != [] && AllDigits(a) && AllDigits(b)
    requires DigitOf(a[0]) < DigitOf(b[0])
    ensures Value(a) < Value(b)
  {
    var p := Pow10(|a| - 1);
    ValueFront(a);
    ValueFront(b);
    ValueBound(a[1..]);
    MulMonotone(DigitOf(a[0]) + 1, DigitOf(b[0]), p);
    assert (DigitOf(a[0]) + 1) * p == DigitOf(a[0]) * p + p;
  }

  /** On digit strings of one width the byte order is the numeric order. */
  lemma {:induction false} LexLeDigits(a: string, b: string)
    requires |a| == |b| && AllDigits(a) && AllDigits(b)
    ensures LexLe(a, b) <==> Value(a) <= Value(b)
  {
    if a != [] {
      if a[0] < b[0] {
        LeadingDigitDecides(a, b);
      } else if b[0] < a[0] {
        LeadingDigitDecides(b, a);
      } else {
        LexLeDigits(a[1..], b[1..]);
        ValueFront(a);
        ValueFront(b);
      }
    }
  }

  predicate IsPhpSpace(c: char)
  {
    c == ' ' || c == '\t' || c == '\n' || c == '\r' || c as int == 11 || c as int == 12
  }

  function TrimLeadingSpace(s: string): (r: string)
    ensures r == [] || !IsPhpSpace(r[0])
  {
    if s != [] && IsPhpSpace(s[0]) then TrimLeadingSpace(s[1..]) else s
  }

  /** The longest run of digits at the start of `s`. */
  function LeadingDigits(s: string): (r: string)
    ensures AllDigits(r) && IsPrefix(r, s)
    ensures |r| < |s| ==> !IsDigit(s[|r|])
  {
    if s != [] && IsDigit(s[0]) then [s[0]] + LeadingDigits(s[1..]) else []
  }

  /** The exponent that starts `s`: `e` or `E`, an optional sign and at
      least one digit; anything else is no exponent, 0. */
  function ExponentOf(s: string): int
  {
    if s != [] && (s[0] == 'e' || s[0] == 'E') then
      var t := s[1..];
      if t != [] && (t[0] == '+' || t[0] == '-') && LeadingDigits(t[1..]) != [] then
        (if t[0] == '-' then 0 - Value(LeadingDigits(t[1..])) else Value(LeadingDigits(t[1..])))
      else Value(LeadingDigits(t))
    else 0
  }

  /** The unsigned number that starts `u`, truncated toward zero: digits, an
      optional '.' and more digits (at least one digit in all), then an
      optional exponent. No digits gives 0. */
  function UnsignedNumber(u: string): nat
  {
    var whole := LeadingDigits(u);
    var rest := u[|whole|..];
    var frac := FractionDigits(rest);
    if whole == [] && frac == [] then 0
    else Scaled(whole, frac, ExponentOf(AfterFraction(rest)))
  }

  /** The digits after a '.' that starts `rest`. */
  function FractionDigits(rest: string): (r: string)
    ensures AllDigits(r)
  {
    if rest != [] && rest[0] == '.' then LeadingDigits(rest[1..]) else []
  }

  /** What follows the '.' and its digits, when `rest` starts with '.'. */
  function AfterFraction(rest: string): string
  {
    if rest != [] && rest[0] == '.' then rest[1 + |FractionDigits(rest)|..] else rest
  }

  /** `whole.frac` times ten to the `e`, truncated toward zero. */
  function Scaled(whole: string, frac: string, e: int): nat
    requires AllDigits(whole) && AllDigits(frac)
  {
    AllDigitsAppend(whole, frac);
    var m := Value(whole + frac);
    var d := e - |frac|;
    if d >= 0 then m * Pow10(d) else DropDigits(m, -d)
  }

  /** `m` divided by ten `k` times: the division by `10^k` truncated. */
  function DropDigits(m: nat, k: nat): nat
  {
    if k == 0 then m else DropDigits(m / 10, k - 1)
  }

  /** PHP's `(int)` cast of a string: leading white space, an optional sign,
      then the longest prefix that reads as a decimal number, with a
      fraction and an exponent allowed, truncated toward zero; no digits
      gives 0. */
  function PhpToInt(s: string): int
  {
    var u := TrimLeadingSpace(s);
    if u != [] && u[0] == '-' then 0 - UnsignedNumber(u[1..])
    else if u != [] && u[0] == '+' then UnsignedNumber(u[1..])
    else UnsignedNumber(u)
  }

  lemma {:induction false} LeadingDigitsOfDigits(s: string)
    requires AllDigits(s)
    ensures LeadingDigits(s) == s
  {
    if s != [] {
      LeadingDigitsOfDigits(s[1..]);
    }
  }

  lemma PhpToIntOfDigits(s: string)
    requires AllDigits(s)
    ensures PhpToInt(s) == Value(s)
  {
    LeadingDigitsOfDigits(s);
    assert s + [] == s;
  }

  /** The digits of `a` followed by something that is not a digit. */
  lemma {:induction false} LeadingDigitsStop(a: string, rest: string)
    requires AllDigits(a) && (rest == [] || !IsDigit(rest[0]))
    ensures LeadingDigits(a + rest) == a
  {
    if a != [] {
      assert (a + rest)[1..] == a[1..] + rest;
      LeadingDigitsStop(a[1..], rest);
    } else {
      assert a + rest == rest;
    }
  }

  /** A string that starts with a digit is cast as the unsigned number it starts with. */
  lemma CastOfDigitStart(s: string)
    requires s != [] && IsDigit(s[0])
    ensures PhpToInt(s) == UnsignedNumber(s)
  {
    assert TrimLeadingSpace(s) == s;
  }

  /** The parts `UnsignedNumber` reads from digits `a`, then `rest`
      starting with no digit. */
  lemma UnsignedParts(a: string, rest: string)
    requires AllDigits(a) && a != [] && (rest == [] || !IsDigit(rest[0]))
    ensures LeadingDigits(a + rest) == a && (a + rest)[|a|..] == rest
  {
    LeadingDigitsStop(a, rest);
    assert (a + rest)[|a|..] == rest;
  }

  /** Digits with a fraction read as their whole part: the cast truncates. */
  lemma PhpToIntTruncates(a: string, f: string)
    requires AllDigits(a) && a != [] && AllDigits(f)
    ensures PhpToInt(a + "." + f) == Value(a)
  {
    var s := a + "." + f;
    assert s[0] == a[0];
    CastOfDigitStart(s);
    UnsignedFraction(a, f);
    FractionDropped(a, f);
  }

  /** Dropping as many digits as `f` has leaves the value of `a`. */
  lemma {:induction false} FractionDropped(a: string, f: string)
    requires AllDigits(a) && AllDigits(f)
    ensures AllDigits(a + f) && DropDigits(Value(a + f), |f|) == Value(a)
  {
    AllDigitsAppend(a, f);
    if f == [] {
      assert a + f == a;
    } else {
      var g := f[..|f| - 1];
      assert (a + f)[..|a + f| - 1] == a + g;
      FractionDropped(a, g);
      assert Value(a + f) / 10 == Value(a + g);
    }
  }

  lemma UnsignedFraction(a: string, f: string)
    requires AllDigits(a) && a != [] && AllDigits(f)
    ensures AllDigits(a + f) && UnsignedNumber(a + "." + f) == DropDigits(Value(a + f), |f|)
  {
    var rest := "." + f;
    var s := a + rest;
    assert a + "." + f == s;
    UnsignedParts(a, rest);
    assert rest[1..] == f && rest[1 + |f|..] == [];
    LeadingDigitsOfDigits(f);
    assert FractionDigits(rest) == f;
    assert AfterFraction(rest) == [];
    AllDigitsAppend(a, f);
    assert Scaled(a, f, 0) == DropDigits(Value(a + f), |f|);
  }

  /** Digits with an exponent read as the scaled number. */
  lemma PhpToIntExponent(a: string, b: string)
    requires AllDigits(a) && a != [] && AllDigits(b) && b != []
    ensures PhpToInt(a + "e" + b) == Value(a) * Pow10(Value(b))
  {
    var s := a + "e" + b;
    assert s[0] == a[0];
    CastOfDigitStart(s);
    UnsignedExponent(a, b);
  }

  /** A minus sign negates the number that follows, so a negative fraction
      is truncated toward zero as well. */
  lemma PhpToIntNegative(s: string)
    requires s != [] && IsDigit(s[0])
    ensures PhpToInt("-" + s) == 0 - PhpToInt(s)
  {
    CastOfDigitStart(s);
    assert TrimLeadingSpace("-" + s) == "-" + s;
    assert ("-" + s)[1..] == s;
  }

  lemma UnsignedExponent(a: string, b: string)
    requires AllDigits(a) && a != [] && AllDigits(b) && b != []
    ensures UnsignedNumber(a + "e" + b) == Value(a) * Pow10(Value(b))
  {
    var rest := "e" + b;
    var s := a + rest;
    assert a + "e" + b == s;
    UnsignedParts(a, rest);
    assert FractionDigits(rest) == [] && AfterFraction(rest) == rest;
    ExponentOfDigits(b);
    assert a + [] == a;
    assert Scaled(a, [], Value(b)) == Value(a) * Pow10(Value(b));
  }

  lemma ExponentOfDigits(b: string)
    requires AllDigits(b) && b != []
    ensures ExponentOf("e" + b) == Value(b)
  {
    assert ("e" + b)[1..] == b;
    LeadingDigitsOfDigits(b);
  }
}
