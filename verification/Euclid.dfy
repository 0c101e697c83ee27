/** Common factors of integers of any sign, with Python's floored division, from rad_util.py. */
module Euclid {
  import opened Lists

  function FloorDiv(x: int, y: int): int
    requires y != 0
  {
    if y > 0 then x / y else (-x) / (-y)
  }

  // The remainder takes the sign of the divisor.
  function FloorMod(x: int, y: int): (r: int)
    requires y != 0
    ensures r == x - y * FloorDiv(x, y)
    ensures if y > 0 then 0 <= r < y else y < r <= 0
  {
    if y > 0 then x % y else -((-x) % (-y))
  }

  ghost predicate Divides(d: int, a: int) {
    exists k: int :: a == d * k
  }

  // The greatest common divisor in the order of divisibility; zero for two zeros.
  ghost predicate IsGcd(g: int, a: int, b: int) {
    && g >= 0 && Divides(g, a) && Divides(g, b)
    && forall d :: Divides(d, a) && Divides(d, b) ==> Divides(d, g)
  }

  // Up to sign, the least common multiple in the order of divisibility.
  ghost predicate IsLcm(l: int, a: int, b: int) {
    && Divides(a, l) && Divides(b, l)
    && forall m :: Divides(a, m) && Divides(b, m) ==> Divides(l, m)
  }

  ghost predicate Combines(g: int, a: int, b: int, x: int, y: int) {
    g == a * x + b * y
  }

  lemma DividesCombination(d: int, a: int, b: int, x: int, y: int)
    requires Divides(d, a) && Divides(d, b)
    ensures Divides(d, a * x + b * y)
  {
    var i :| a == d * i;
    var j :| b == d * j;
    assert d * i * x + d * j * y == d * (i * x + j * y);
  }

  // One round of the division leaves both descriptions of the pair intact.
  lemma CombinesStep(result: int, remainder: int, q: int, a: int, x: int, y: int)
    requires Combines(a, result, remainder, x, y)
    ensures Combines(a, remainder, result - remainder * q, y + q * x, x)
  {
    assert result * x + remainder * y == remainder * (y + q * x) + (result - remainder * q) * x;
  }

  lemma RemainderStep(a: int, b: int, result: int, remainder: int, q: int, x1: int, y1: int, x2: int, y2: int)
    requires Combines(result, a, b, x1, y1) && Combines(remainder, a, b, x2, y2)
    ensures Combines(result - remainder * q, a, b, x1 - x2 * q, y1 - y2 * q)
  {
    assert a * (x1 - x2 * q) + b * (y1 - y2 * q) == (a * x1 + b * y1) - (a * x2 + b * y2) * q;
  }

  method Gcf(a: int, b: int) returns (g: int, ghost x: int, ghost y: int)
    ensures IsGcd(g, a, b)
    ensures Combines(g, a, b, x, y)
  {
    var result, remainder := if a >= b then a else b, if a >= b then b else a;
    ghost var x2, y2, u1, u2, v1, v2;
    x, y, x2, y2 := if a >= b then 1 else 0, if a >= b then 0 else 1, if a >= b then 0 else 1, if a >= b then 1 else 0;
    u1, u2, v1, v2 := x, x2, y, y2;
    hide FloorDiv, Divides, IsGcd;
    while remainder != 0
      invariant Combines(result, a, b, x, y) && Combines(remainder, a, b, x2, y2)
      invariant Combines(a, result, remainder, u1, u2) && Combines(b, result, remainder, v1, v2)
      decreases if remainder < 0 then -remainder else remainder
    {
      hide Combines;
      ghost var q := FloorDiv(result, remainder);
      CombinesStep(result, remainder, q, a, u1, u2);
      CombinesStep(result, remainder, q, b, v1, v2);
      RemainderStep(a, b, result, remainder, q, x, y, x2, y2);
      x, y, x2, y2 := x2, y2, x - x2 * q, y - y2 * q;
      u1, u2, v1, v2 := u2 + q * u1, u1, v2 + q * v1, v1;
      var newRemainder := FloorMod(result, remainder);
      result := remainder;
      remainder := newRemainder;
    }
    g := if result < 0 then -result else result;
    x, y := if result < 0 then -x else x, if result < 0 then -y else y;
    LastRemainderIsGcd(result, a, b, if result < 0 then -x else x, if result < 0 then -y else y, u1, u2, v1, v2);
  }

  lemma LastRemainderIsGcd(result: int, a: int, b: int, x: int, y: int, u1: int, u2: int, v1: int, v2: int)
    requires Combines(result, a, b, x, y)
    requires Combines(a, result, 0, u1, u2) && Combines(b, result, 0, v1, v2)
    ensures var g := if result < 0 then -result else result;
      IsGcd(g, a, b) && if result < 0 then Combines(g, a, b, -x, -y) else Combines(g, a, b, x, y)
  {
    var g := if result < 0 then -result else result;
    assert a == result * u1 == (-result) * (-u1);
    assert b == result * v1 == (-result) * (-v1);
    assert a * (-x) + b * (-y) == -(a * x + b * y);
    forall d | Divides(d, a) && Divides(d, b) ensures Divides(d, g) {
      DividesCombination(d, a, b, x, y);
      DividesCombination(d, a, b, -x, -y);
    }
  }

  lemma FloorDivExact(g: int, k: int)
    requires g != 0
    ensures FloorDiv(g * k, g) == k
  {
    var r := FloorMod(g * k, g);
    var q := FloorDiv(g * k, g);
    assert r == g * (k - q);
    LargeMultiple(g, k - q);
  }

  lemma LargeMultiple(g: int, t: int)
    ensures t != 0 && g > 0 ==> g * t >= g || g * t <= -g
    ensures t != 0 && g < 0 ==> g * t <= g || g * t >= -g
  {
    var p, s := if g < 0 then -g else g, if t < 0 then -t else t;
    if p > 0 && s > 0 {
      AtLeast(p, s);
      assert g * t == if (g < 0) == (t < 0) then p * s else -(p * s);
    }
  }

  lemma AtLeast(p: int, s: int)
    requires p > 0 && s > 0
    ensures p * s >= p
  {
    assert p * (s - 1) >= 0;
  }

  // A common multiple, times the common factor, is a multiple of the product.
  lemma CommonMultiple(a: int, b: int, g: int, x: int, y: int, l: int, m: int)
    requires g != 0 && Combines(g, a, b, x, y) && g * l == a * b
    requires Divides(a, m) && Divides(b, m)
    ensures Divides(l, m)
  {
    var p :| m == a * p;
    var q :| m == b * q;
    var t := x * q + y * p;
    TimesCombination(a, b, x, y, p, q, m);
    assert g * m == (g * l) * t == g * (l * t);
    Cancel(g, m, l * t);
  }

  lemma TimesCombination(a: int, b: int, x: int, y: int, p: int, q: int, m: int)
    requires m == a * p && m == b * q
    ensures (a * x + b * y) * m == (a * b) * (x * q + y * p)
  {
    assert (a * x) * m == (a * x) * (b * q) == (a * b) * (x * q);
    assert (b * y) * m == (b * y) * (a * p) == (a * b) * (y * p);
    assert (a * x + b * y) * m == (a * x) * m + (b * y) * m;
  }

  lemma Cancel(g: int, m: int, n: int)
    requires g != 0 && g * m == g * n
    ensures m == n
  {
    assert g * (m - n) == 0;
  }

  method Lcm(a: int, b: int) returns (l: int)
    ensures IsLcm(l, a, b)
    ensures forall g :: IsGcd(g, a, b) ==> g * l == a * b
  {
    ghost var x, y;
    var denom;
    denom, x, y := Gcf(a, b);
    if denom == 0 {
      l := 0;
      assert a == 0 && b == 0;
      assert Divides(0, 0) by { assert 0 == 0 * 0; }
    } else {
      ghost var i :| a == denom * i;
      ghost var k :| b == denom * k;
      FloorDivExact(denom, k);
      l := a * FloorDiv(b, denom);
      assert denom * l == a * b by { assert denom * (a * k) == a * (denom * k); }
      assert l == b * i by { assert (denom * i) * k == (denom * k) * i; }
      forall m | Divides(a, m) && Divides(b, m) ensures Divides(l, m) {
        CommonMultiple(a, b, denom, x, y, l, m);
      }
    }
    forall g | IsGcd(g, a, b) ensures g * l == a * b {
      GcdUnique(g, denom, a, b);
    }
  }

  lemma GcdUnique(g: int, h: int, a: int, b: int)
    requires IsGcd(g, a, b) && IsGcd(h, a, b)
    ensures g == h
  {
    var i :| h == g * i;
    var j :| g == h * j;
    if g > 0 && h > 0 {
      assert i > 0 && j > 0;
      assert h >= g && g >= h;
    }
  }

  // None stands for the ZeroDivisionError that the fraction 0/0 provokes.
  method ReduceFraction(numerator: int, denominator: int) returns (r: Option<(int, int)>)
    ensures r.None? <==> numerator == 0 && denominator == 0
    ensures r.Some? ==> IsGcd(1, r.value.0, r.value.1)
    ensures r.Some? ==> exists g :: g > 0 && numerator == g * r.value.0 && denominator == g * r.value.1
  {
    ghost var x, y;
    var commonFactor;
    commonFactor, x, y := Gcf(numerator, denominator);
    if commonFactor == 0 {
      return None;
    }
    ghost var i :| numerator == commonFactor * i;
    ghost var k :| denominator == commonFactor * k;
    FloorDivExact(commonFactor, i);
    FloorDivExact(commonFactor, k);
    r := Some((FloorDiv(numerator, commonFactor), FloorDiv(denominator, commonFactor)));
    Coprime(commonFactor, i, k, x, y);
  }

  lemma Coprime(g: int, i: int, k: int, x: int, y: int)
    requires g > 0 && Combines(g, g * i, g * k, x, y)
    ensures IsGcd(1, i, k)
  {
    assert g * 1 == g * (i * x + k * y);
    Cancel(g, 1, i * x + k * y);
    assert i == 1 * i && k == 1 * k;
    forall d | Divides(d, i) && Divides(d, k) ensures Divides(d, 1) {
      DividesCombination(d, i, k, x, y);
    }
  }
}
