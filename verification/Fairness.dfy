/** The flow counters of dctcp-example.cc and Jain's fairness index over them. */
module Fairness {

  const WORD: int := 0x1_0000_0000_0000_0000

  newtype uint64 = x: int | 0 <= x < 0x1_0000_0000_0000_0000
  newtype uint32 = x: int | 0 <= x < 0x1_0000_0000

  // Unsigned 64-bit arithmetic keeps the low 64 bits.
  function Low(x: int): uint64 {
    (x % WORD) as uint64
  }

  ghost function Sum(s: seq<nat>): nat {
    if s == [] then 0 else Sum(s[..|s| - 1]) + s[|s| - 1]
  }

  ghost function SumSquares(s: seq<nat>): nat {
    if s == [] then 0 else SumSquares(s[..|s| - 1]) + s[|s| - 1] * s[|s| - 1]
  }

  // The sum of the squared distances from x.
  ghost function Spread(s: seq<nat>, x: int): nat {
    if s == [] then 0 else Spread(s[..|s| - 1], x) + (s[|s| - 1] - x) * (s[|s| - 1] - x)
  }

  ghost predicate AllEqual(s: seq<nat>) {
    forall i, j :: 0 <= i < |s| && 0 <= j < |s| ==> s[i] == s[j]
  }

  ghost predicate AtMostOneActive(s: seq<nat>) {
    forall i, j :: 0 <= i < j < |s| ==> s[i] == 0 || s[j] == 0
  }

  // ---- the inequalities behind the index

  ghost function Gap(s: seq<nat>): int {
    |s| * SumSquares(s) - Sum(s) * Sum(s)
  }

  lemma {:induction false} SpreadExpands(s: seq<nat>, x: int)
    ensures Spread(s, x) == SumSquares(s) - 2 * x * Sum(s) + |s| * x * x
  {
    if s != [] {
      var n := |s| - 1;
      var front, y := s[..n], s[n];
      SpreadExpands(front, x);
      ExpandSquare(SumSquares(front), Sum(front), n, x, y);
    }
  }

  lemma ExpandSquare(Q: int, S: int, n: int, x: int, y: int)
    ensures Q - 2 * x * S + n * x * x + (y - x) * (y - x) == Q + y * y - 2 * x * (S + y) + (n + 1) * x * x
  {
  }

  lemma ExpandGap(Q: int, S: int, n: int, x: int)
    ensures (n + 1) * (Q + x * x) - (S + x) * (S + x) == n * Q - S * S + (Q - 2 * x * S + n * x * x)
  {
  }

  lemma {:induction false} SpreadZero(s: seq<nat>, x: int)
    ensures Spread(s, x) == 0 <==> forall i :: 0 <= i < |s| ==> s[i] == x
  {
    if s != [] {
      var n := |s| - 1;
      SpreadZero(s[..n], x);
      SquareZero(s[n] - x);
      assert forall i :: 0 <= i < n ==> s[..n][i] == s[i];
    }
  }

  lemma SquareZero(d: int)
    ensures d * d >= 0 && (d * d == 0 <==> d == 0)
  {
  }

  lemma GapStep(s: seq<nat>)
    requires s != []
    ensures Gap(s) == Gap(s[..|s| - 1]) + Spread(s[..|s| - 1], s[|s| - 1])
  {
    var n := |s| - 1;
    SpreadExpands(s[..n], s[n]);
    ExpandGap(SumSquares(s[..n]), Sum(s[..n]), n, s[n]);
  }

  // The inequality of Cauchy and Schwarz against the constant one, with its case of equality.
  lemma {:induction false} GapSign(s: seq<nat>)
    ensures Gap(s) >= 0 && (Gap(s) == 0 <==> AllEqual(s))
  {
    if s != [] {
      var n := |s| - 1;
      GapSign(s[..n]);
      GapStep(s);
      SpreadZero(s[..n], s[n]);
      hide Gap, Spread;
      assert forall i :: 0 <= i < n ==> s[..n][i] == s[i];
      assert AllEqual(s) ==> AllEqual(s[..n]);
    }
  }

  lemma {:induction false} SquaresBelow(s: seq<nat>)
    ensures SumSquares(s) <= Sum(s) * Sum(s)
    ensures SumSquares(s) == Sum(s) * Sum(s) <==> AtMostOneActive(s)
  {
    if s != [] {
      var n := |s| - 1;
      var x, S, Q := s[n], Sum(s[..n]), SumSquares(s[..n]);
      SquaresBelow(s[..n]);
      SumZero(s[..n]);
      assert (S + x) * (S + x) == S * S + 2 * x * S + x * x;
      assert x * S >= 0 && (x * S == 0 <==> x == 0 || S == 0) by { ProductZero(x, S); }
      hide Sum, SumSquares;
      assert forall i :: 0 <= i < n ==> s[..n][i] == s[i];
      ActiveStep(s);
    }
  }

  lemma ProductZero(a: nat, b: nat)
    ensures a * b >= 0 && (a * b == 0 <==> a == 0 || b == 0)
  {
  }

  lemma {:induction false} SumZero(s: seq<nat>)
    ensures Sum(s) == 0 <==> forall i :: 0 <= i < |s| ==> s[i] == 0
  {
    if s != [] {
      SumZero(s[..|s| - 1]);
      assert forall i :: 0 <= i < |s| - 1 ==> s[..|s| - 1][i] == s[i];
    }
  }

  lemma ActiveStep(s: seq<nat>)
    requires s != []
    ensures AtMostOneActive(s) <==>
              AtMostOneActive(s[..|s| - 1]) && (s[|s| - 1] == 0 || forall i :: 0 <= i < |s| - 1 ==> s[i] == 0)
  {
    var n := |s| - 1;
    assert forall i :: 0 <= i < n ==> s[..n][i] == s[i];
  }

  // ---- the index

  // What the division of two doubles gives: 0/0, a positive number over 0, or a quotient.
  datatype Index = NotANumber | Infinite | Ratio(value: real)

  function Divide(a: nat, b: nat): Index {
    if b != 0 then Ratio(a as real / b as real) else if a == 0 then NotANumber else Infinite
  }

  // Jain's index, without any rounding or wrap-around.
  ghost function Jain(s: seq<nat>): Index {
    Divide(Sum(s) * Sum(s), |s| * SumSquares(s))
  }

  // The index exists unless nothing was received; it lies between 1/n and 1, reaches 1 exactly when
  // all flows received the same, and 1/n exactly when a single flow received everything.
  lemma JainBounds(s: seq<nat>)
    ensures Jain(s).Ratio? <==> exists i :: 0 <= i < |s| && s[i] > 0
    ensures Jain(s).Ratio? ==> 1.0 / |s| as real <= Jain(s).value <= 1.0
    ensures Jain(s).Ratio? ==> (Jain(s).value == 1.0 <==> AllEqual(s))
    ensures Jain(s).Ratio? ==> (Jain(s).value == 1.0 / |s| as real <==> AtMostOneActive(s))
  {
    GapSign(s);
    SquaresBelow(s);
    SumZero(s);
    var n, S, Q := |s|, Sum(s), SumSquares(s);
    ProductZero(S, S);
    ProductZero(n, Q);
    hide Sum, SumSquares, AllEqual, AtMostOneActive;
    if n > 0 && Q > 0 {
      QuotientBounds(S * S, n, Q);
    }
  }

  lemma QuotientBounds(p: nat, n: nat, q: nat)
    requires n > 0 && q > 0 && n * q > 0 && q <= p <= n * q
    ensures var r := p as real / (n * q) as real;
      && 1.0 / n as real <= r <= 1.0
      && (r == 1.0 <==> p == n * q)
      && (r == 1.0 / n as real <==> p == q)
  {
    RealProduct(n, q);
    RealQuotient(p as real, n as real, q as real);
    assert (p as real <= (n * q) as real <==> p <= n * q) && (p as real == (n * q) as real <==> p == n * q);
    assert (q as real <= p as real <==> q <= p) && (p as real == q as real <==> p == q);
  }

  lemma RealQuotient(p: real, n: real, q: real)
    requires n > 0.0 && q > 0.0 && n * q > 0.0
    ensures var r := p / (n * q);
      && (r <= 1.0 <==> p <= n * q) && (r == 1.0 <==> p == n * q)
      && (1.0 / n <= r <==> q <= p) && (r == 1.0 / n <==> p == q)
  {
    var d := n * q;
    var r := p / d;
    assert r * d == p;
    InverseTimes(n, q);
    RealOrder(r, 1.0, d);
    RealOrder(1.0 / n, r, d);
  }

  lemma InverseTimes(n: real, q: real)
    requires n > 0.0
    ensures (1.0 / n) * (n * q) == q
  {
    var inverse := 1.0 / n;
    assert inverse * n == 1.0;
    assert inverse * (n * q) == (inverse * n) * q;
  }

  lemma RealProduct(n: nat, q: nat)
    ensures (n * q) as real == n as real * q as real
  {
  }

  lemma RealOrder(x: real, y: real, d: real)
    requires d > 0.0
    ensures x <= y <==> x * d <= y * d
    ensures x == y <==> x * d == y * d
  {
    if x < y {
      assert (y - x) * d > 0.0;
    } else if x > y {
      assert (x - y) * d > 0.0;
    }
  }

  // ---- wrap-around

  lemma LowOfSum(a: int, b: int)
    ensures Low(Low(a) as int + b) == Low(a + b)
  {
    var q := a / WORD;
    assert Low(a) as int == a - WORD * q;
    Shift(Low(a) as int + b, q);
  }

  lemma LowOfProduct(a: int, b: int)
    ensures Low(Low(a) as int * b) == Low(a * b)
  {
    var q := a / WORD;
    assert Low(a) as int == a - WORD * q;
    assert (a - WORD * q) * b + WORD * (q * b) == a * b;
    Shift(Low(a) as int * b, q * b);
  }

  lemma Shift(x: int, q: int)
    ensures (x + WORD * q) % WORD == x % WORD
  {
  }

  function Values(counters: seq<uint64>): (s: seq<nat>)
    ensures |s| == |counters|
  {
    seq(|counters|, i requires 0 <= i < |counters| => counters[i] as nat)
  }

  lemma ValuesStep(counters: seq<uint64>, i: nat)
    requires i < |counters|
    ensures Sum(Values(counters)[..i + 1]) == Sum(Values(counters)[..i]) + counters[i] as nat
    ensures SumSquares(Values(counters)[..i + 1])
         == SumSquares(Values(counters)[..i]) + counters[i] as nat * counters[i] as nat
  {
    assert Values(counters)[..i + 1][..i] == Values(counters)[..i];
  }

  lemma {:induction false} BoundedSums(s: seq<nat>, bound: nat)
    requires forall i :: 0 <= i < |s| ==> s[i] <= bound
    ensures Sum(s) <= |s| * bound && SumSquares(s) <= |s| * (bound * bound)
  {
    if s != [] {
      var n := |s| - 1;
      assert forall i :: 0 <= i < n ==> s[..n][i] == s[i];
      BoundedSums(s[..n], bound);
      MulMonotone(s[n], bound, s[n], bound);
      assert (n + 1) * bound == n * bound + bound;
      assert (n + 1) * (bound * bound) == n * (bound * bound) + bound * bound;
    }
  }

  lemma MulMonotone(a: nat, b: nat, c: nat, d: nat)
    requires a <= b && c <= d
    ensures a * c <= b * d
  {
  }

  // The bound under which neither product leaves the 64-bit range.
  ghost predicate Moderate(s: seq<nat>) {
    forall i :: 0 <= i < |s| ==> s[i] <= 0xFFFF_FFFF / |s|
  }

  lemma ModerateFits(s: seq<nat>)
    requires Moderate(s)
    ensures Sum(s) * Sum(s) < WORD && |s| * SumSquares(s) < WORD
  {
    if s != [] {
      var n := |s|;
      var bound := 0xFFFF_FFFF / n;
      BoundedSums(s, bound);
      hide Sum, SumSquares;
      BoundFits(n, bound, Sum(s), SumSquares(s));
    }
  }

  lemma BoundFits(n: nat, bound: nat, sum: nat, squares: nat)
    requires n * bound <= 0xFFFF_FFFF && sum <= n * bound && squares <= n * (bound * bound)
    ensures sum * sum < WORD && n * squares < WORD
  {
    var top := n * bound;
    MulMonotone(sum, 0xFFFF_FFFF, sum, 0xFFFF_FFFF);
    MulMonotone(top, 0xFFFF_FFFF, top, 0xFFFF_FFFF);
    MulMonotone(n, n, squares, n * (bound * bound));
    Regroup(n, bound);
  }

  lemma Regroup(n: int, b: int)
    ensures n * (n * (b * b)) == (n * b) * (n * b)
  {
  }

  // The products lose nothing that the quotient needs: what is carried out of the word is in the
  // same proportion for both, and the divisor does not become zero.
  ghost predicate CarriesAgree(s: seq<nat>) {
    var a, b := Sum(s) * Sum(s), |s| * SumSquares(s);
    b == 0 || (Low(b) != 0 && (a / WORD) * b == (b / WORD) * a)
  }

  // The quotient of the wrapped products is Jain's index exactly when the carries agree.
  lemma WrappedIndexIff(s: seq<nat>)
    ensures Divide(Low(Sum(s) * Sum(s)) as nat, Low(|s| * SumSquares(s)) as nat) == Jain(s) <==> CarriesAgree(s)
  {
    GapSign(s);
    ProductZero(Sum(s), Sum(s));
    var a, b := Sum(s) * Sum(s), |s| * SumSquares(s);
    hide Sum, SumSquares, AllEqual;
    if b > 0 && Low(b) != 0 {
      CrossMultiply(Low(a) as nat, Low(b) as nat, a, b);
      CarriesCancel(a, b);
    }
    LowOfSmall(0);
  }

  lemma CrossMultiply(a: nat, b: nat, c: nat, d: nat)
    requires b > 0 && d > 0
    ensures a as real / b as real == c as real / d as real <==> a * d == c * b
  {
    RealProduct(a, d);
    RealProduct(c, b);
    RealProduct(b, d);
    var x, y, p := a as real / b as real, c as real / d as real, b as real * d as real;
    assert x * b as real == a as real && y * d as real == c as real;
    assert x * p == (x * b as real) * d as real && y * p == (y * d as real) * b as real;
    assert (b * d) as real == p && b * d > 0;
    RealOrder(x, y, p);
    assert (a * d) as real == (c * b) as real <==> a * d == c * b;
  }

  lemma CarriesCancel(a: nat, b: nat)
    ensures Low(a) as int * b == a * Low(b) as int <==> (a / WORD) * b == (b / WORD) * a
  {
    var p, q := a / WORD, b / WORD;
    assert Low(a) as int == a - WORD * p && Low(b) as int == b - WORD * q;
    assert (a - WORD * p) * b == a * b - WORD * (p * b);
    assert a * (b - WORD * q) == a * b - WORD * (q * a);
  }

  // When only the divisor overflows, the index is always wrong.
  lemma DivisorOverflows(s: seq<nat>)
    requires Sum(s) * Sum(s) < WORD <= |s| * SumSquares(s) && Sum(s) > 0
    ensures !CarriesAgree(s)
  {
    var a, b := Sum(s) * Sum(s), |s| * SumSquares(s);
    ProductZero(Sum(s), Sum(s));
    hide Sum, SumSquares;
    assert a / WORD == 0 && b / WORD >= 1;
    MulMonotone(1, b / WORD, a, a);
  }

  // A second, idle flow is enough for that below 2^32 bytes.
  lemma IdleFlowOverflows()
    ensures !CarriesAgree([0xFFFF_FFFF, 0])
  {
    var s: seq<nat> := [0xFFFF_FFFF, 0];
    assert s[..1] == [0xFFFF_FFFF] && s[..1][..0] == [];
    assert Sum(s) == 0xFFFF_FFFF && SumSquares(s) == 0xFFFF_FFFF * 0xFFFF_FFFF;
    DivisorOverflows(s);
  }

  // A single flow that has received 2^32 bytes has the index one, but 0/0 is computed.
  lemma OverflowLosesIndex()
    ensures var s := [0x1_0000_0000];
      Jain(s) == Ratio(1.0) && Divide(Low(Sum(s) * Sum(s)) as nat, Low(|s| * SumSquares(s)) as nat) == NotANumber
  {
    var s: seq<nat> := [0x1_0000_0000];
    assert s[..0] == [];
    assert Sum(s) == 0x1_0000_0000 && SumSquares(s) == WORD;
  }

  // ---- the counters

  // One group of flows; the program has groups of 10, 20 and 10.
  class FlowGroup {
    const rxBytes: array<uint64>
    // What each flow has received since the counters were last cleared.
    ghost var received: seq<nat>

    ghost predicate Valid()
      reads this, rxBytes
    {
      |received| == rxBytes.Length && forall i :: 0 <= i < rxBytes.Length ==> rxBytes[i] == Low(received[i])
    }

    constructor (n: nat)
      ensures Valid() && fresh(rxBytes) && rxBytes.Length == n && received == seq(n, _ => 0)
    {
      rxBytes := new uint64[n](_ => 0);
      received := seq(n, _ => 0);
    }

    method InitializeCounters()
      requires |received| == rxBytes.Length
      modifies this, rxBytes
      ensures Valid() && received == seq(rxBytes.Length, _ => 0)
    {
      for i := 0 to rxBytes.Length
        invariant forall k :: 0 <= k < i ==> rxBytes[k] == 0
      {
        rxBytes[i] := 0;
      }
      received := seq(rxBytes.Length, _ => 0);
    }

    method TraceSink(index: nat, size: uint32)
      requires Valid() && index < rxBytes.Length
      modifies this, rxBytes
      ensures Valid() && received == old(received)[index := old(received)[index] + size as nat]
    {
      LowOfSum(received[index], size as int);
      rxBytes[index] := Low(rxBytes[index] as int + size as int);
      received := received[index := received[index] + size as nat];
    }

    // The sum, the sum of squares and the index that are printed for the group.
    method Fairness() returns (sum: uint64, sumSquares: uint64, fairness: Index)
      ensures var s := Values(rxBytes[..]);
        && sum == Low(Sum(s)) && sumSquares == Low(SumSquares(s))
        && fairness == Divide(Low(Sum(s) * Sum(s)) as nat, Low(|s| * SumSquares(s)) as nat)
        && (fairness == Jain(s) <==> CarriesAgree(s))
        && (|s| * SumSquares(s) < WORD ==> fairness == Jain(s))
        && (Moderate(s) ==> fairness == Jain(s))
    {
      sum, sumSquares := 0, 0;
      ghost var s := Values(rxBytes[..]);
      hide Sum, SumSquares, Low, Moderate, CarriesAgree;
      SumsOfNone(s);
      for i := 0 to rxBytes.Length
        invariant sum == Low(Sum(s[..i])) && sumSquares == Low(SumSquares(s[..i]))
      {
        var x := rxBytes[i];
        ValuesStep(rxBytes[..], i);
        LowOfSum(Sum(s[..i]), x as int);
        LowOfSum(SumSquares(s[..i]), x as int * x as int);
        LowOfSum(x as int * x as int, sumSquares as int);
        sum := Low(sum as int + x as int);
        sumSquares := Low(sumSquares as int + Low(x as int * x as int) as int);
      }
      assert s[..rxBytes.Length] == s;
      fairness := Divide(Low(sum as int * sum as int) as nat, Low(rxBytes.Length * sumSquares as int) as nat);
      IndexComputed(s, sum, sumSquares);
      WrappedIndexIff(s);
    }
  }

  lemma LowOfProducts(S: nat, sum: uint64, n: nat, Q: nat, sumSquares: uint64)
    requires sum == Low(S) && sumSquares == Low(Q)
    ensures Low(sum as int * sum as int) == Low(S * S)
    ensures Low(n * sumSquares as int) == Low(n * Q)
  {
    hide Low;
    LowOfProduct(S, sum as int);
    LowOfProduct(S, S);
    LowOfProduct(Q, n);
    assert S * sum as int == sum as int * S && n * sumSquares as int == sumSquares as int * n && n * Q == Q * n;
  }

  // Only the two products at the end can lose anything.
  lemma IndexComputed(s: seq<nat>, sum: uint64, sumSquares: uint64)
    requires sum == Low(Sum(s)) && sumSquares == Low(SumSquares(s))
    ensures Low(sum as int * sum as int) == Low(Sum(s) * Sum(s))
    ensures Low(|s| * sumSquares as int) == Low(|s| * SumSquares(s))
    ensures |s| * SumSquares(s) < WORD ==>
              Divide(Low(Sum(s) * Sum(s)) as nat, Low(|s| * SumSquares(s)) as nat) == Jain(s)
    ensures Moderate(s) ==> Sum(s) * Sum(s) < WORD && |s| * SumSquares(s) < WORD
  {
    GapSign(s);
    hide Low, Sum, SumSquares, Moderate, AllEqual;
    LowOfProducts(Sum(s), sum, |s|, SumSquares(s), sumSquares);
    LowOfSmall(Sum(s) * Sum(s));
    LowOfSmall(|s| * SumSquares(s));
    if Moderate(s) {
      ModerateFits(s);
    }
  }

  lemma SumsOfNone(s: seq<nat>)
    ensures Sum(s[..0]) == 0 && SumSquares(s[..0]) == 0 && Low(0) == 0
  {
  }

  lemma LowOfSmall(x: nat)
    ensures x < WORD ==> Low(x) as nat == x
  {
  }
}
