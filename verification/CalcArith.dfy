// The calculator's 64-bit arithmetic: every operation tested before it happens
// (kernel/src/calc.c:137-244).
module CalcArith {
  import opened Common

  /** The answer when 64 bits hold it. */
  function Checked(v: int): Option<int> { if Fits(v) then Some(v) else None }

  /** Division as C does it: toward zero. */
  function Quotient(a: int, b: int): int
    requires b != 0
  {
    if a >= 0 then (if b > 0 then a / b else -(a / -b)) else (if b > 0 then -(-a / b) else -a / -b)
  }

  /** What division toward zero means: the remainder is smaller than the divisor
      and has the sign of the dividend. */
  lemma QuotientTowardZero(a: int, b: int)
    requires b != 0
    ensures var r := a - b * Quotient(a, b);
            && -(if b > 0 then b else -b) < r < (if b > 0 then b else -b)
            && (a >= 0 ==> r >= 0) && (a <= 0 ==> r <= 0)
  {
    var p, q := if a >= 0 then a else -a, if b > 0 then b else -b;
    RemainderBounds(p, q);
    Signs(q, p / q);
  }

  lemma RemainderBounds(p: int, q: int)
    requires p >= 0 && q > 0
    ensures 0 <= p - q * (p / q) < q
  {
  }

  lemma Signs(q: int, k: int)
    ensures -q * -k == q * k && -q * k == -(q * k) && q * -k == -(q * k)
  {
  }

  function AddChecked(a: int, b: int): (r: Option<int>)
    requires Fits(a) && Fits(b)
    ensures r == Checked(a + b)
  {
    assert b > 0 ==> Fits(INT64_MAX - b);
    assert b < 0 ==> Fits(INT64_MIN - b);
    if (b > 0 && a > INT64_MAX - b) || (b < 0 && a < INT64_MIN - b) then None else Some(a + b)
  }

  function SubChecked(a: int, b: int): (r: Option<int>)
    requires Fits(a) && Fits(b)
    ensures r == Checked(a - b)
  {
    assert b < 0 ==> Fits(INT64_MAX + b);
    assert b > 0 ==> Fits(INT64_MIN + b);
    if (b < 0 && a > INT64_MAX + b) || (b > 0 && a < INT64_MIN + b) then None else Some(a - b)
  }

  function MulChecked(a: int, b: int): (r: Option<int>)
    requires Fits(a) && Fits(b)
    ensures r == Checked(a * b)
  {
    if a == 0 || b == 0 then Some(0)
    else if a == -1 then (if b == INT64_MIN then None else Some(-b))
    else if b == -1 then (if a == INT64_MIN then None else Some(-a))
    else
      var fits :=
        if a > 0 then (if b > 0 then a <= Quotient(INT64_MAX, b) else b >= Quotient(INT64_MIN, a))
        else (if b > 0 then a >= Quotient(INT64_MIN, b) else a >= Quotient(INT64_MAX, b));
      MulFits(a, b);
      if !fits then None else Some(a * b)
  }

  /** The quotient test is the product test. */
  lemma MulFits(a: int, b: int)
    requires a != 0 && b != 0 && a != -1 && b != -1
    ensures Fits(a * b) <==>
            if a > 0 then (if b > 0 then a <= Quotient(INT64_MAX, b) else b >= Quotient(INT64_MIN, a))
            else (if b > 0 then a >= Quotient(INT64_MIN, b) else a >= Quotient(INT64_MAX, b))
  {
    var p, q := if a > 0 then a else -a, if b > 0 then b else -b;
    AtMost(p, q, INT64_MAX);
    AtMost(p, q, -INT64_MIN);
    AtMost(q, p, -INT64_MIN);
    if (a > 0) == (b > 0) {
      assert a * b == p * q;
      Positive(p, q);
    } else {
      assert a * b == -(p * q);
      Positive(p, q);
    }
  }

  lemma Positive(p: int, q: int)
    requires p > 0 && q > 0
    ensures p * q > 0
  {
  }

  lemma AtMost(p: int, q: int, m: int)
    requires p > 0 && q > 0 && m > 0
    ensures p * q <= m <==> p <= m / q
  {
    if p <= m / q {
      assert p * q <= m / q * q <= m;
    } else {
      assert p * q >= (m / q + 1) * q > m;
    }
  }

  function DivChecked(a: int, b: int): (r: Option<int>)
    requires Fits(a) && Fits(b)
    ensures r == if b == 0 then None else Checked(Quotient(a, b))
  {
    if b == 0 then None
    else if a == INT64_MIN && b == -1 then None
    else
      QuotientFits(a, b);
      Some(Quotient(a, b))
  }

  /** The one quotient of two 64-bit numbers that is not one. */
  lemma QuotientFits(a: int, b: int)
    requires Fits(a) && b != 0
    ensures Fits(Quotient(a, b)) <==> !(a == INT64_MIN && b == -1)
  {
    var p, q := if a >= 0 then a else -a, if b > 0 then b else -b;
    QuotientMagnitude(a, b);
    Smaller(p, q);
  }

  lemma QuotientMagnitude(a: int, b: int)
    requires b != 0
    ensures var p, q := if a >= 0 then a else -a, if b > 0 then b else -b;
            Quotient(a, b) == if (a >= 0) == (b > 0) then p / q else -(p / q)
  {
  }

  lemma Smaller(p: int, q: int)
    requires p >= 0 && q > 0
    ensures 0 <= p / q <= p && (q == 1 ==> p / q == p) && (q > 1 && p > 0 ==> p / q < p)
  {
    var k := p / q;
    RemainderBounds(p, q);
    NamedQuotient(p, q, k);
  }

  lemma NamedQuotient(p: int, q: int, k: int)
    requires p >= 0 && q > 0 && 0 <= p - q * k < q
    ensures 0 <= k <= p && (q == 1 ==> k == p) && (q > 1 && p > 0 ==> k < p)
  {
    if k < 0 {
      Signs(q, k);
      NotPositive(q, k);
    } else {
      AtLeast(q, k);
    }
  }

  lemma NotPositive(q: int, k: int)
    requires q > 0 && k < 0
    ensures q * k <= -q
  {
  }

  lemma AtLeast(q: int, k: int)
    requires q > 0 && k >= 0
    ensures q * k >= k && (q > 1 ==> q * k >= 2 * k)
  {
  }

  // ----- powers

  function Pow(base: int, n: nat): int { if n == 0 then 1 else Pow(base, n - 1) * base }

  /** Zero, one and minus one never grow. */
  lemma {:induction false} SmallBases(n: nat)
    ensures Pow(0, n) == if n == 0 then 1 else 0
    ensures Pow(1, n) == 1
    ensures Pow(-1, n) == if n % 2 == 0 then 1 else -1
  {
    if n > 0 { SmallBases(n - 1); }
  }

  function Magnitude(v: int): nat { if v >= 0 then v else -v }

  /** Any other base at least doubles every turn. */
  lemma {:induction false} Doubles(base: int, n: nat)
    requires Magnitude(base) >= 2
    ensures Magnitude(Pow(base, n)) >= Pow(2, n) >= 1
  {
    if n > 0 {
      Doubles(base, n - 1);
      GrowsTwice(base, n);
      assert Pow(2, n) == Pow(2, n - 1) * 2;
    }
  }

  lemma GrowsTwice(base: int, n: nat)
    requires Magnitude(base) >= 2 && n > 0
    ensures Magnitude(Pow(base, n)) >= Magnitude(Pow(base, n - 1)) * 2
  {
    ProductMagnitude(Pow(base, n - 1), base);
    AtLeastTwice(Magnitude(Pow(base, n - 1)), Magnitude(base));
  }

  lemma AtLeastTwice(m: nat, k: nat)
    requires k >= 2
    ensures m * k >= m * 2
  {
  }

  lemma ProductMagnitude(a: int, b: int)
    ensures Magnitude(a * b) == Magnitude(a) * Magnitude(b)
  {
    if a >= 0 && b >= 0 { }
    else if a < 0 && b < 0 { assert a * b == (-a) * (-b); NotNegative(-a, -b); }
    else if a < 0 { assert a * b == -((-a) * b); NotNegative(-a, b); }
    else { assert a * b == -(a * (-b)); NotNegative(a, -b); }
  }

  lemma NotNegative(a: int, b: int)
    requires a >= 0 && b >= 0
    ensures a * b >= 0
  {
  }

  /** Powers only grow away from zero: once one does not fit, none after it does. */
  lemma {:induction false} NeverFitsAgain(base: int, i: nat, n: nat)
    requires Magnitude(base) >= 2 && i <= n && !Fits(Pow(base, i))
    ensures !Fits(Pow(base, n))
    decreases n
  {
    if i < n {
      NeverFitsAgain(base, i, n - 1);
      GrowsTwice(base, n);
      assert Magnitude(Pow(base, n - 1)) >= 0x8000_0000_0000_0000;
    }
  }

  lemma {:induction false} TwoToThe(n: nat)
    requires n >= 64
    ensures Pow(2, n) >= 0x1_0000_0000_0000_0000
    decreases n
  {
    if n == 64 {
      assert Pow(2, 8) == 0x100;
      PowSum(2, 8, 8);
      PowSum(2, 16, 16);
      PowSum(2, 32, 32);
    } else {
      TwoToThe(n - 1);
    }
  }

  lemma {:induction false} PowSum(base: int, a: nat, b: nat)
    ensures Pow(base, a + b) == Pow(base, a) * Pow(base, b)
    decreases b
  {
    if b > 0 {
      PowSum(base, a, b - 1);
      var x, y := Pow(base, a), Pow(base, b - 1);
      assert x * y * base == x * (y * base);
    }
  }

  /** `pow_checked`: the exact power, or refused when it is a fraction or does not
      fit; and never more than 64 multiplications, whatever the exponent. */
  method PowChecked(base: int, exponent: int) returns (r: Option<int>, ghost turns: nat)
    requires Fits(base) && Fits(exponent)
    ensures r == if exponent < 0 then None else Checked(Pow(base, exponent))
    ensures turns <= 64
  {
    turns := 0;
    if exponent < 0 { return None, turns; }
    SmallBases(exponent);
    if base == 0 { return Some(if exponent == 0 then 1 else 0), turns; }
    if base == 1 { return Some(1), turns; }
    if base == -1 { return Some(if exponent % 2 == 0 then 1 else -1), turns; }
    var result := 1;
    var i := 0;
    while i < exponent
      invariant 0 <= i <= exponent && result == Pow(base, i) && Fits(result) && turns == i
    {
      if i >= 64 {
        Doubles(base, i);
        TwoToThe(i);
        assert false;
      }
      var next := MulChecked(result, base);
      turns := turns + 1;
      assert Pow(base, i + 1) == result * base;
      if next.None? {
        NeverFitsAgain(base, i + 1, exponent);
        return None, turns;
      }
      result := next.value;
      i := i + 1;
    }
    if i > 64 {
      Doubles(base, i);
      TwoToThe(i);
      assert false;
    }
    return Some(result), turns;
  }
}
