/** Numbers as the table shows them: `truncateDecimals` (Table.tsx:319-325)
    and JavaScript's `String(number)`. A JavaScript number is modelled as an
    exact finite decimal, which every IEEE double is. */
module Numbers {

  /** `Math.pow(10, n)` for a natural exponent. */
  function Pow10(n: nat): (p: real)
    ensures p >= 1.0
  {
    if n == 0 then 1.0 else 10.0 * Pow10(n - 1)
  }

  /** `Math[y < 0 ? 'ceil' : 'floor'](y)`: rounding toward zero. */
  function TruncTowardZero(y: real): int
  {
    if y < 0.0 then -((-y).Floor) else y.Floor
  }

  /** `truncateDecimals(x, digits)`: scale by 10^digits, drop the fraction
      toward zero, scale back. */
  function TruncateDecimals(x: real, digits: nat): real
  {
    TruncateScaled(x, Pow10(digits))
  }

  /** The body of `truncateDecimals` once `multiplier = Math.pow(10, digits)` is known. */
  function TruncateScaled(x: real, multiplier: real): real
    requires multiplier > 0.0
  {
    TruncTowardZero(x * multiplier) as real / multiplier
  }

  lemma TruncateScaledUnfold(x: real, p: real)
    requires p > 0.0
    ensures TruncateScaled(x, p) == TruncTowardZero(x * p) as real / p
  {
  }

  lemma TruncateDecimalsUnfold(x: real, digits: nat)
    ensures TruncateDecimals(x, digits) == TruncateScaled(x, Pow10(digits))
  {
  }

  lemma TruncTowardZeroBounds(y: real)
    ensures var n := TruncTowardZero(y);
      && (y >= 0.0 ==> 0 <= n && n as real <= y < n as real + 1.0)
      && (y < 0.0 ==> n <= 0 && n as real - 1.0 < y <= n as real)
  {
  }

  lemma TruncInt(n: int)
    ensures TruncTowardZero(n as real) == n
  {
  }

  lemma MulDivCancel(a: real, p: real)
    requires p > 0.0
    ensures (a / p) * p == a
  {
  }

  lemma ScaledSign(a: real, p: real)
    requires p > 0.0
    ensures a * p >= 0.0 ==> a >= 0.0
    ensures a * p <= 0.0 ==> a <= 0.0
  {
  }

  lemma TruncOfMultiple(n: int, p: real, r: real)
    requires p > 0.0
    requires r == n as real / p
    ensures TruncTowardZero(r * p) == n
  {
    MulDivCancel(n as real, p);
    TruncInt(n);
  }

  /** r is x cut toward zero to a multiple of 1/p: same sign, no larger in
      magnitude, less than 1/p away, and r * p a whole number. */
  predicate IsTruncation(r: real, x: real, p: real)
  {
    && (x >= 0.0 ==> 0.0 <= r <= x)
    && (x < 0.0 ==> x <= r <= 0.0)
    && -1.0 < (x - r) * p < 1.0
    && r * p == TruncTowardZero(x * p) as real
  }

  lemma {:induction false} TruncateScaledBounds(x: real, p: real)
    requires p > 0.0
    ensures IsTruncation(TruncateScaled(x, p), x, p)
  {
    TruncateScaledUnfold(x, p);
    var n := TruncTowardZero(x * p);
    var r := n as real / p;
    TruncTowardZeroBounds(x * p);
    MulDivCancel(n as real, p);
    var a := x - r;
    assert a * p == x * p - n as real;
    ScaledSign(a, p);
    ScaledSign(r, p);
    ScaledSign(x, p);
  }

  /** Truncation keeps the sign, never grows the magnitude, loses less than
      one unit of the last kept digit, and lands on a multiple of 10^-digits. */
  lemma TruncateDecimalsBounds(x: real, digits: nat)
    ensures IsTruncation(TruncateDecimals(x, digits), x, Pow10(digits))
  {
    TruncateDecimalsUnfold(x, digits);
    TruncateScaledBounds(x, Pow10(digits));
  }

  lemma TruncateScaledIdempotent(x: real, p: real)
    requires p > 0.0
    ensures TruncateScaled(TruncateScaled(x, p), p) == TruncateScaled(x, p)
  {
    var n := TruncTowardZero(x * p);
    var r := n as real / p;
    TruncateScaledUnfold(x, p);
    TruncateScaledUnfold(r, p);
    TruncOfMultiple(n, p, r);
  }

  /** Truncating an already truncated number changes nothing. */
  lemma TruncateDecimalsIdempotent(x: real, digits: nat)
    ensures TruncateDecimals(TruncateDecimals(x, digits), digits) == TruncateDecimals(x, digits)
  {
    TruncateDecimalsUnfold(x, digits);
    TruncateDecimalsUnfold(TruncateDecimals(x, digits), digits);
    TruncateScaledIdempotent(x, Pow10(digits));
  }

  lemma TruncateDecimalsExamples()
    ensures TruncateDecimals(1.2789, 2) == 1.27
    ensures TruncateDecimals(-1.2789, 2) == -1.27
    ensures TruncateDecimals(1.999, 0) == 1.0
  {
    assert Pow10(2) == 100.0;
    assert (127.89).Floor == 127;
    assert (1.999).Floor == 1;
  }

  /** A finite decimal `mantissa × 10^exponent`. */
  datatype Decimal = Decimal(mantissa: int, exponent: int)
  {
    function Value(): real
    {
      if exponent >= 0 then mantissa as real * Pow10(exponent)
      else mantissa as real / Pow10(-exponent)
    }
  }

  /** The result of `truncateDecimals(x, digits)` as an exact decimal, which
      is what `String` then prints. */
  function TruncateDecimalsExact(x: real, digits: nat): (t: Decimal)
    ensures t.Value() == TruncateDecimals(x, digits)
    ensures t.exponent == -(digits as int)
  {
    var p := Pow10(digits);
    var n := TruncTowardZero(x * p);
    TruncateDecimalsUnfold(x, digits);
    TruncateScaledUnfold(x, p);
    assert Decimal(n, -(digits as int)).Value() == n as real / p by {
      if digits == 0 {
        assert p == 1.0;
      }
    }
    Decimal(n, -(digits as int))
  }

  function DigitChar(n: nat): char
    requires n < 10
  {
    ('0' as int + n) as char
  }

  predicate IsDigit(c: char) { '0' <= c <= '9' }

  /** The decimal digits of n, without leading zeros. */
  function DigitString(n: nat): (s: string)
    ensures |s| >= 1
    ensures forall c :: c in s ==> IsDigit(c)
  {
    if n < 10 then [DigitChar(n)] else DigitString(n / 10) + [DigitChar(n % 10)]
  }

  function Zeros(n: nat): (s: string)
    ensures |s| == n
    ensures forall c :: c in s ==> c == '0'
  {
    seq(n, _ => '0')
  }

  /** Writes m × 10^e as s × 10^p with s not a multiple of ten. */
  function StripTrailingZeros(m: nat, e: int): (r: (nat, int))
    requires m > 0
    ensures r.0 > 0 && r.0 % 10 != 0
    decreases m
  {
    if m % 10 == 0 then StripTrailingZeros(m / 10, e + 1) else (m, e)
  }

  /** The characters `String(number)` can produce for a finite number. */
  predicate IsNumberChar(c: char)
  {
    IsDigit(c) || c == '-' || c == '.' || c == 'e' || c == '+'
  }

  /** ECMAScript Number::toString of the positive value m × 10^e: with
      value = s × 10^(n-k), s of k digits, fixed notation for -6 < n <= 21
      and exponential notation otherwise. */
  function PositiveToString(m: nat, e: int): (r: string)
    requires m > 0
    ensures forall c :: c in r ==> IsNumberChar(c)
  {
    var (s, p) := StripTrailingZeros(m, e);
    var digits := DigitString(s);
    var k := |digits|;
    var n := p + k;
    if k <= n <= 21 then digits + Zeros(n - k)
    else if 0 < n <= 21 then digits[..n] + "." + digits[n..]
    else if -6 < n <= 0 then "0." + Zeros(-n) + digits
    else
      var exp := n - 1;
      var exponentPart := "e" + (if exp >= 0 then "+" else "-") + DigitString(if exp >= 0 then exp else -exp);
      if k == 1 then digits + exponentPart else digits[..1] + "." + digits[1..] + exponentPart
  }

  /** `String(x)` for a finite number x. Its output never holds a comma, so a
      numeric cell is always one field of the exported CSV. */
  function NumberToString(d: Decimal): (r: string)
    ensures forall c :: c in r ==> IsNumberChar(c)
    ensures ',' !in r
  {
    if d.mantissa == 0 then "0"
    else if d.mantissa < 0 then "-" + PositiveToString(-d.mantissa, d.exponent)
    else PositiveToString(d.mantissa, d.exponent)
  }

  /** The value a string of decimal digits denotes. */
  function DigitsValue(s: string): nat
    requires forall c :: c in s ==> IsDigit(c)
  {
    if s == [] then 0
    else
      assert forall c :: c in s[..|s| - 1] ==> c in s;
      var last := s[|s| - 1];
      assert last in s;
      assert IsDigit(last);
      DigitsValue(s[..|s| - 1]) * 10 + (last as int - '0' as int)
  }

  /** Reading the printed digits of n back gives n. */
  lemma {:induction false} DigitStringValue(n: nat)
    ensures DigitsValue(DigitString(n)) == n
  {
    var s := DigitString(n);
    if n < 10 {
      assert s[..0] == [];
    } else {
      DigitStringValue(n / 10);
      assert s[..|s| - 1] == DigitString(n / 10);
    }
  }

  /** 10^n as a natural number. */
  function Pow10Nat(n: nat): (p: nat)
    ensures p as real == Pow10(n)
  {
    if n == 0 then 1 else 10 * Pow10Nat(n - 1)
  }

  lemma TimesTen(x: nat, y: nat)
    ensures x * (10 * y) == 10 * (x * y)
  {
  }

  lemma MulAssociates(x: nat, y: nat, z: nat)
    ensures x * (y * z) == (x * y) * z
  {
  }

  lemma {:induction false} Pow10NatAdd(a: nat, b: nat)
    ensures Pow10Nat(a + b) == Pow10Nat(a) * Pow10Nat(b)
  {
    if a > 0 {
      Pow10NatAdd(a - 1, b);
      assert Pow10Nat(a + b) == 10 * Pow10Nat((a - 1) + b);
      MulAssociates(10, Pow10Nat(a - 1), Pow10Nat(b));
    }
  }

  /** Stripping trailing zeros keeps the value: s × 10^(p-e) = m. */
  lemma {:induction false} StripKeepsValue(m: nat, e: int)
    requires m > 0
    ensures StripTrailingZeros(m, e).1 >= e
    ensures StripTrailingZeros(m, e).0 * Pow10Nat(StripTrailingZeros(m, e).1 - e) == m
    decreases m
  {
    if m % 10 == 0 {
      var (s, p) := StripTrailingZeros(m / 10, e + 1);
      StripKeepsValue(m / 10, e + 1);
      assert Pow10Nat(p - e) == 10 * Pow10Nat(p - (e + 1));
      TimesTen(s, Pow10Nat(p - (e + 1)));
    }
  }

  lemma DigitsOfZeros(a: string, z: nat)
    requires forall c :: c in a ==> IsDigit(c)
    ensures forall c :: c in a + Zeros(z) ==> IsDigit(c)
  {
  }

  /** Appending z zeros multiplies the value of a digit string by 10^z. */
  lemma {:induction false} DigitsValueZeros(a: string, z: nat)
    requires forall c :: c in a ==> IsDigit(c)
    requires forall c :: c in a + Zeros(z) ==> IsDigit(c)
    ensures DigitsValue(a + Zeros(z)) == DigitsValue(a) * Pow10Nat(z)
  {
    if z > 0 {
      var t := a + Zeros(z);
      assert t[..|t| - 1] == a + Zeros(z - 1);
      assert t[|t| - 1] == '0';
      DigitsOfZeros(a, z - 1);
      DigitsValueZeros(a, z - 1);
      TimesTen(DigitsValue(a), Pow10Nat(z - 1));
    } else {
      assert a + Zeros(0) == a;
    }
  }

  /** A natural x is the value of a decimal with a non-negative exponent
      when x = mantissa × b and b is 10^exponent. */
  lemma IntegerValue(x: nat, d: Decimal, b: nat)
    requires d.exponent >= 0 && d.mantissa >= 0
    requires x == d.mantissa * b && b as real == Pow10(d.exponent)
    ensures x as real == d.Value()
  {
  }

  /** The arithmetic step of IntegerToStringValue: s × 10^p is m × 10^e
      when s × 10^(p-e) is m. */
  lemma ScaledValue(s: nat, p: nat, e: nat, m: nat)
    requires p >= e && s * Pow10Nat(p - e) == m
    ensures s * Pow10Nat(p) == m * Pow10Nat(e)
  {
    Pow10NatAdd(p - e, e);
    MulAssociates(s, Pow10Nat(p - e), Pow10Nat(e));
  }

  /** Below 10^21 the point position falls after the last significant digit,
      so an integer prints as its digits followed by zeros. */
  lemma IntegerToStringShape(m: nat, e: nat)
    requires m > 0 && PointPosition(m, e) <= 21
    ensures StripTrailingZeros(m, e).1 >= 0
    ensures PositiveToString(m, e)
      == DigitString(StripTrailingZeros(m, e).0) + Zeros(StripTrailingZeros(m, e).1)
  {
    StripKeepsValue(m, e);
  }

  /** An integer below 10^21 prints as plain digits that read back as its
      value. */
  lemma IntegerToStringValue(m: nat, e: nat)
    requires m > 0 && PointPosition(m, e) <= 21
    ensures forall c :: c in PositiveToString(m, e) ==> IsDigit(c)
    ensures DigitsValue(PositiveToString(m, e)) as real == Decimal(m, e).Value()
  {
    var stripped := StripTrailingZeros(m, e);
    var s, p := stripped.0, stripped.1;
    var digits := DigitString(s);
    StripKeepsValue(m, e);
    assert forall c :: c in PositiveToString(m, e) ==> IsDigit(c) by {
      IntegerToStringShape(m, e);
      DigitsOfZeros(digits, p);
    }
    assert DigitsValue(PositiveToString(m, e)) == s * Pow10Nat(p) by {
      IntegerToStringShape(m, e);
      DigitStringValue(s);
      DigitsOfZeros(digits, p);
      DigitsValueZeros(digits, p);
    }
    ScaledValue(s, p, e, m);
    IntegerValue(DigitsValue(PositiveToString(m, e)), Decimal(m, e), Pow10Nat(e));
  }

  /** The point position n of Number::toString for the positive value
      m × 10^e, written s × 10^(n-k) with s of k digits and no trailing zero. */
  function PointPosition(m: nat, e: int): int
    requires m > 0
  {
    var (s, p) := StripTrailingZeros(m, e);
    p + |DigitString(s)|
  }

  /** Over all numbers: the text is never empty, starts with a minus sign
      exactly for a negative number, and uses exponent notation exactly when
      the point position is above 21 or at most -6. */
  lemma NumberToStringNotation(d: Decimal)
    ensures |NumberToString(d)| > 0
    ensures NumberToString(d)[0] == '-' <==> d.mantissa < 0
    ensures 'e' in NumberToString(d) <==>
      d.mantissa != 0 &&
      var n := PointPosition(if d.mantissa < 0 then -d.mantissa else d.mantissa, d.exponent);
      n > 21 || n <= -6
  {
    if d.mantissa != 0 {
      var m := if d.mantissa < 0 then -d.mantissa else d.mantissa;
      PositiveNotation(m, d.exponent);
    }
  }

  lemma PositiveNotation(m: nat, e: int)
    requires m > 0
    ensures |PositiveToString(m, e)| > 0 && IsDigit(PositiveToString(m, e)[0])
    ensures 'e' in PositiveToString(m, e) <==> PointPosition(m, e) > 21 || PointPosition(m, e) <= -6
  {
    var (s, p) := StripTrailingZeros(m, e);
    var digits := DigitString(s);
    var k := |digits|;
    var n := p + k;
    var r := PositiveToString(m, e);
    assert 'e' !in digits && IsDigit(digits[0]) by {
      assert digits[0] in digits;
    }
    if k <= n <= 21 {
      assert r == digits + Zeros(n - k);
    } else if 0 < n <= 21 {
      assert r == digits[..n] + "." + digits[n..];
      assert forall c :: c in digits[..n] || c in digits[n..] ==> c in digits;
      assert r[0] == digits[0];
    } else if -6 < n <= 0 {
      assert r == "0." + Zeros(-n) + digits;
    } else {
      var exp := n - 1;
      var exponentPart := "e" + (if exp >= 0 then "+" else "-") + DigitString(if exp >= 0 then exp else -exp);
      assert exponentPart[0] == 'e';
      if k == 1 {
        assert r == digits + exponentPart;
        assert r[k] == 'e';
      } else {
        assert r == digits[..1] + "." + digits[1..] + exponentPart;
        assert r[|r| - |exponentPart|] == 'e';
      }
    }
  }

  /** Two-decimal results print without padding; the sign goes in front. */
  lemma NumberToStringTruncated()
    ensures NumberToString(Decimal(127, -2)) == "1.27"
    ensures NumberToString(Decimal(-127, -2)) == "-1.27"
  {
    assert StripTrailingZeros(127, -2) == (127, -2);
    assert DigitString(1) == "1";
    assert DigitString(12) == DigitString(1) + "2";
    assert DigitString(127) == "127";
    assert PositiveToString(127, -2) == "127"[..1] + "." + "127"[1..];
  }

  /** Trailing zeros of the fraction are not printed. */
  lemma NumberToStringTrailingZeros()
    ensures NumberToString(Decimal(120, -2)) == "1.2"
    ensures NumberToString(Decimal(500, -2)) == "5"
  {
    assert StripTrailingZeros(12, -1) == (12, -1);
    assert StripTrailingZeros(120, -2) == (12, -1);
    assert DigitString(12) == "12";
    assert PositiveToString(120, -2) == "12"[..1] + "." + "12"[1..];
    assert StripTrailingZeros(5, 0) == (5, 0);
    assert StripTrailingZeros(50, -1) == (5, 0);
    assert StripTrailingZeros(500, -2) == (5, 0);
    assert PositiveToString(500, -2) == DigitString(5) + Zeros(0);
  }

  /** From 10^21 on, exponential notation is used. */
  lemma NumberToStringExponent()
    ensures NumberToString(Decimal(1, 21)) == "1e+21"
  {
    assert StripTrailingZeros(1, 21) == (1, 21);
    assert DigitString(21) == "21";
    assert PositiveToString(1, 21) == "1" + "e" + "+" + DigitString(21);
  }
}
