/** Quantiles and the trimming of outliers, from rad_util.py, over the real numbers. */
module Quantiles {
  import opened Lists
  import opened Sorting

  function Sorted(l: seq<real>): seq<real> {
    Sort(l, (x: real) => x)
  }

  ghost predicate Ascending(s: seq<real>) {
    forall i, j :: 0 <= i <= j < |s| ==> s[i] <= s[j]
  }

  lemma SortedAscends(l: seq<real>)
    ensures Ascending(Sorted(l)) && |Sorted(l)| == |l| && multiset(Sorted(l)) == multiset(l)
  {
    var key := (x: real) => x;
    SortSorts(l, key);
    assert forall i, j :: 0 <= i < j < |l| ==> key(Sorted(l)[i]) <= key(Sorted(l)[j]);
  }

  // The value at place r of an ascending list, counted from 1.
  function ItemAt(lSort: seq<real>, r: real): real
    requires 1.0 <= r <= |lSort| as real
  {
    var i := r.Floor;
    var f := r - i as real;
    if i < |lSort| then (1.0 - f) * lSort[i - 1] + f * lSort[i] else lSort[i - 1]
  }

  // Where the p quantile of n items lies, counted from 0.
  function Place(n: nat, p: real): (x: real)
    requires n > 0 && 0.0 <= p <= 1.0
    ensures 0.0 <= x <= (n - 1) as real
  {
    Between(n - 1, p);
    (n - 1) as real * p
  }

  lemma Between(n: nat, p: real)
    requires 0.0 <= p <= 1.0
    ensures 0.0 <= n as real * p <= n as real
  {
    NonNegative(n as real, p);
    NonNegative(n as real, 1.0 - p);
  }

  // The p quantile, for p between 0 and 1. None stands for the IndexError of an empty list.
  function Quantile(l: seq<real>, p: real): Option<real>
    requires 0.0 <= p <= 1.0
  {
    var lSort := Sorted(l);
    var n := |lSort|;
    if n == 0 then None
    else Some(ItemAt(lSort, 1.0 + Place(n, p)))
  }

  // The value a fraction f of the way from a to b.
  ghost function Mix(a: real, b: real, f: real): real {
    a + f * (b - a)
  }

  // The value at a place between the items of an ascending list, by linear interpolation.
  ghost function At(s: seq<real>, x: real): real
    requires 0.0 <= x <= (|s| - 1) as real
  {
    var i := x.Floor;
    if i + 1 < |s| then Mix(s[i], s[i + 1], x - i as real) else s[i]
  }

  lemma QuantileAtPlace(l: seq<real>, p: real)
    requires l != [] && 0.0 <= p <= 1.0
    ensures |Sorted(l)| == |l|
    ensures Quantile(l, p) == Some(At(Sorted(l), Place(|l|, p)))
  {
    SortedAscends(l);
    hide Sorted, ItemAt, At, Place;
    ItemIsAt(Sorted(l), Place(|l|, p));
  }

  // The quantile is the value at the place (n - 1) * p of the sorted list, between its items as well.
  lemma QuantileIsAt(l: seq<real>, p: real)
    requires l != [] && 0.0 <= p <= 1.0
    ensures |Sorted(l)| == |l| && 0.0 <= (|l| - 1) as real * p <= (|l| - 1) as real
    ensures Quantile(l, p) == Some(At(Sorted(l), (|l| - 1) as real * p))
  {
    hide Quantile, Sorted, At;
    QuantileAtPlace(l, p);
    assert Place(|l|, p) == (|l| - 1) as real * p;
  }

  lemma ItemIsAt(s: seq<real>, x: real)
    requires 0.0 <= x <= (|s| - 1) as real
    ensures ItemAt(s, 1.0 + x) == At(s, x)
  {
    FloorShift(x);
    var i := x.Floor;
    if i + 1 < |s| {
      MixIs(s[i], s[i + 1], x - i as real);
    }
  }

  lemma FloorShift(x: real)
    ensures (1.0 + x).Floor == 1 + x.Floor
  {
  }

  lemma MixIs(a: real, b: real, f: real)
    ensures (1.0 - f) * a + f * b == Mix(a, b, f)
  {
  }

  lemma NonNegative(x: real, y: real)
    requires x >= 0.0 && y >= 0.0
    ensures x * y >= 0.0
  {
  }

  lemma Scale(f: real, g: real, d: real)
    requires f <= g && d >= 0.0
    ensures f * d <= g * d && d * f <= d * g
  {
    NonNegative(g - f, d);
  }

  lemma MixMonotone(a: real, b: real, f: real, g: real)
    requires a <= b && 0.0 <= f <= g <= 1.0
    ensures a <= Mix(a, b, f) <= Mix(a, b, g) <= b
  {
    Scale(0.0, f, b - a);
    Scale(f, g, b - a);
    Scale(g, 1.0, b - a);
  }

  lemma AtBetweenItems(s: seq<real>, x: real)
    requires Ascending(s) && 0.0 <= x <= (|s| - 1) as real
    ensures var i := x.Floor; s[i] <= At(s, x) <= s[if i + 1 < |s| then i + 1 else i]
  {
    hide Mix;
    var i := x.Floor;
    if i + 1 < |s| {
      MixMonotone(s[i], s[i + 1], x - i as real, x - i as real);
    }
  }

  lemma AtMonotone(s: seq<real>, x: real, y: real)
    requires Ascending(s) && 0.0 <= x <= y <= (|s| - 1) as real
    ensures At(s, x) <= At(s, y)
  {
    hide Mix;
    var i, j := x.Floor, y.Floor;
    if i == j {
      if i + 1 < |s| {
        MixMonotone(s[i], s[i + 1], x - i as real, y - i as real);
      }
    } else {
      AtBetweenItems(s, x);
      AtBetweenItems(s, y);
      assert i + 1 <= j && s[i + 1] <= s[j];
    }
  }

  lemma QuantileMonotone(l: seq<real>, p: real, q: real)
    requires l != [] && 0.0 <= p <= q <= 1.0
    ensures Quantile(l, p).Some? && Quantile(l, q).Some?
    ensures Quantile(l, p).value <= Quantile(l, q).value
  {
    hide Quantile, At, Sorted, Place;
    SortedAscends(l);
    QuantileAtPlace(l, p);
    QuantileAtPlace(l, q);
    PlaceMonotone(|l|, p, q);
    AtMonotone(Sorted(l), Place(|l|, p), Place(|l|, q));
  }

  lemma PlaceMonotone(n: nat, p: real, q: real)
    requires n > 0 && 0.0 <= p <= q <= 1.0
    ensures Place(n, p) <= Place(n, q)
  {
    Scale(p, q, (n - 1) as real);
  }

  // Between two neighbours the quantile moves in proportion: at (k + f) / (n - 1) it is the fraction
  // f of the way from the k-th item to the next. A single item is every quantile.
  lemma QuantileInterpolates(l: seq<real>, k: nat, f: real)
    requires k + 1 < |l| && 0.0 <= f <= 1.0
    ensures |Sorted(l)| == |l| && 0.0 <= (k as real + f) / (|l| - 1) as real <= 1.0
    ensures Quantile(l, (k as real + f) / (|l| - 1) as real) == Some((1.0 - f) * Sorted(l)[k] + f * Sorted(l)[k + 1])
  {
    hide *;
    PlaceOfFraction(|l|, k, f);
    QuantileInto(l, (k as real + f) / (|l| - 1) as real, k, f);
  }

  lemma QuantileInto(l: seq<real>, p: real, k: nat, f: real)
    requires k + 1 < |l| && 0.0 <= f <= 1.0 && 0.0 <= p <= 1.0 && Place(|l|, p) == k as real + f
    ensures |Sorted(l)| == |l|
    ensures Quantile(l, p) == Some((1.0 - f) * Sorted(l)[k] + f * Sorted(l)[k + 1])
  {
    hide *;
    QuantileAtPlace(l, p);
    AtFraction(Sorted(l), Place(|l|, p), k, f);
    assert Quantile(l, p).value == (1.0 - f) * Sorted(l)[k] + f * Sorted(l)[k + 1];
  }

  lemma PlaceOfFraction(n: nat, k: nat, f: real)
    requires k + 1 < n && 0.0 <= f <= 1.0
    ensures 0.0 <= (k as real + f) / (n - 1) as real <= 1.0
    ensures Place(n, (k as real + f) / (n - 1) as real) == k as real + f
  {
    var d := (n - 1) as real;
    var p := (k as real + f) / d;
    assert p * d == k as real + f;
    DivideOut(0.0, p, d);
    DivideOut(p, 1.0, d);
  }

  lemma AtFraction(s: seq<real>, x: real, k: nat, f: real)
    requires k + 1 < |s| && 0.0 <= f <= 1.0 && x == k as real + f
    ensures At(s, x) == (1.0 - f) * s[k] + f * s[k + 1]
  {
    if f == 1.0 {
      assert x == (k + 1) as real;
      hide At;
      AtItem(s, k + 1);
    } else {
      assert x.Floor == k;
      MixIs(s[k], s[k + 1], f);
    }
  }

  lemma QuantileOfOne(x: real, p: real)
    requires 0.0 <= p <= 1.0
    ensures Quantile([x], p) == Some(x)
  {
    QuantileAtPlace([x], p);
    SortOfSorted([x]);
    hide Quantile, Sorted;
  }

  // The quantile at k / (n - 1) is the k-th item in order.
  lemma QuantileHitsItems(l: seq<real>, k: nat)
    requires k < |l| && |l| > 1
    ensures |Sorted(l)| == |l| && 0.0 <= k as real / (|l| - 1) as real <= 1.0
    ensures Quantile(l, k as real / (|l| - 1) as real) == Some(Sorted(l)[k])
  {
    PlaceOfItem(|l|, k);
    hide Quantile, Sorted, Place;
    QuantileAtPlace(l, k as real / (|l| - 1) as real);
    AtItem(Sorted(l), k);
  }

  lemma AtItem(s: seq<real>, k: nat)
    requires k < |s|
    ensures At(s, k as real) == s[k]
  {
    assert (k as real).Floor == k;
    if k + 1 < |s| {
      assert Mix(s[k], s[k + 1], 0.0) == s[k];
    }
  }

  lemma PlaceOfItem(n: nat, k: nat)
    requires k < n && n > 1
    ensures 0.0 <= k as real / (n - 1) as real <= 1.0
    ensures Place(n, k as real / (n - 1) as real) == k as real
  {
    var d := (n - 1) as real;
    var p := k as real / d;
    assert p * d == k as real;
    DivideOut(0.0, p, d);
    DivideOut(p, 1.0, d);
  }

  // ---- trim

  function Keep(s: seq<real>, lo: real, hi: real): seq<real> {
    if s == [] then []
    else Keep(s[..|s| - 1], lo, hi) + if lo <= s[|s| - 1] <= hi then [s[|s| - 1]] else []
  }

  // None stands for the IndexError of an empty list.
  function Trim(l: seq<real>): Option<seq<real>> {
    if l == [] then None
    else
      var lSort := Sorted(l);
      var q1, q3 := Quantile(lSort, 0.25), Quantile(lSort, 0.75);
      if q1.None? || q3.None? then None
      else
        var iqrExtra := (q3.value - q1.value) * 1.5;
        Some(Keep(lSort, q1.value - iqrExtra, q3.value + iqrExtra))
  }

  lemma {:induction false} KeepIsSlice(s: seq<real>, lo: real, hi: real) returns (a: nat, b: nat)
    requires Ascending(s)
    ensures a <= b <= |s| && Keep(s, lo, hi) == s[a..b]
    ensures forall i :: 0 <= i < |s| ==> (lo <= s[i] <= hi <==> a <= i < b)
  {
    if s == [] {
      a, b := 0, 0;
    } else {
      var front := s[..|s| - 1];
      var c, d := KeepIsSlice(front, lo, hi);
      a, b := OneMoreItem(front, s[|s| - 1], lo, hi, c, d);
      assert s == front + [s[|s| - 1]];
    }
  }

  lemma OneMoreItem(front: seq<real>, x: real, lo: real, hi: real, c: nat, d: nat) returns (a: nat, b: nat)
    requires Ascending(front + [x]) && c <= d <= |front|
    requires forall i :: 0 <= i < |front| ==> (lo <= front[i] <= hi <==> c <= i < d)
    ensures var s := front + [x];
      && a <= b <= |s|
      && front[c..d] + (if lo <= x <= hi then [x] else []) == s[a..b]
      && forall i :: 0 <= i < |s| ==> (lo <= s[i] <= hi <==> a <= i < b)
  {
    var s, n := front + [x], |front|;
    if lo <= x <= hi {
      if c < d {
        assert s[c] <= s[if d < n then d else n] <= s[n];
      }
      a, b := if c == d then n else c, n + 1;
    } else {
      a, b := c, d;
      assert s[c..d] == front[c..d];
    }
  }

  // Sorting what is sorted changes nothing.
  lemma {:induction false} SortOfSorted(s: seq<real>)
    requires Ascending(s)
    ensures Sorted(s) == s
  {
    if s != [] {
      var n := |s| - 1;
      SortOfSorted(s[..n]);
      assert n > 0 ==> s[n - 1] <= s[n];
      assert s == s[..n] + [s[n]];
    }
  }

  // Some item lies within the interval that trim keeps.
  lemma SomethingKept(s: seq<real>) returns (k: nat)
    requires Ascending(s) && Sorted(s) == s && s != []
    ensures Quantile(s, 0.25).Some? && Quantile(s, 0.75).Some?
    ensures var q1, q3 := Quantile(s, 0.25).value, Quantile(s, 0.75).value;
      && q1 <= q3 && k < |s|
      && q1 - (q3 - q1) * 1.5 <= s[k] <= q3 + (q3 - q1) * 1.5
  {
    QuantileMonotone(s, 0.25, 0.75);
    QuantileAtPlace(s, 0.25);
    QuantileAtPlace(s, 0.75);
    hide Quantile, Sorted, ItemAt, At;
    var n := |s|;
    if n >= 3 {
      k := (n - 1) / 2;
      assert 4 * k >= n - 1 && 4 * k <= 3 * (n - 1);
      AtItem(s, k);
      AtMonotone(s, Place(n, 0.25), k as real);
      AtMonotone(s, k as real, Place(n, 0.75));
    } else {
      k := 0;
      SmallQuartiles(s);
    }
  }

  lemma SmallQuartiles(s: seq<real>)
    requires Ascending(s) && 1 <= |s| <= 2
    ensures var q1, q3 := At(s, Place(|s|, 0.25)), At(s, Place(|s|, 0.75));
      q1 - (q3 - q1) * 1.5 <= s[0] <= q3 + (q3 - q1) * 1.5
  {
    if |s| == 2 {
      assert Place(2, 0.25) == 0.25 && Place(2, 0.75) == 0.75;
      assert (0.25 as real).Floor == 0 && (0.75 as real).Floor == 0;
      assert s[0] <= s[1];
    } else {
      assert Place(1, 0.25) == 0.0 && Place(1, 0.75) == 0.0;
      assert (0.0 as real).Floor == 0;
    }
  }

  lemma DivideOut(a: real, b: real, d: real)
    requires d > 0.0 && a * d <= b * d
    ensures a <= b
  {
    if a > b {
      Positive(a - b, d);
    }
  }

  lemma Positive(x: real, y: real)
    requires x > 0.0 && y > 0.0
    ensures x * y > 0.0
  {
  }

  lemma QuantileOfSorted(l: seq<real>, p: real)
    requires l != [] && 0.0 <= p <= 1.0
    ensures Quantile(Sorted(l), p) == Quantile(l, p)
  {
    SortedAscends(l);
    SortOfSorted(Sorted(l));
    hide Sorted;
  }

  ghost function LowEnd(q1: real, q3: real): real {
    q1 - (q3 - q1) * 1.5
  }

  ghost function HighEnd(q1: real, q3: real): real {
    q3 + (q3 - q1) * 1.5
  }

  lemma TrimIsKeep(l: seq<real>)
    requires l != []
    ensures Quantile(l, 0.25).Some? && Quantile(l, 0.75).Some?
    ensures var q1, q3 := Quantile(l, 0.25).value, Quantile(l, 0.75).value;
      Trim(l) == Some(Keep(Sorted(l), LowEnd(q1, q3), HighEnd(q1, q3)))
  {
    QuantileOfSorted(l, 0.25);
    QuantileOfSorted(l, 0.75);
    QuantileAtPlace(l, 0.25);
    QuantileAtPlace(l, 0.75);
    hide Quantile, Sorted, Keep;
  }

  // Nothing is computed for an empty list, and only for one.
  lemma EmptyListIff(l: seq<real>, p: real)
    requires 0.0 <= p <= 1.0
    ensures (Quantile(l, p).None? <==> l == []) && (Trim(l).None? <==> l == [])
  {
    SortedAscends(l);
    if l != [] {
      TrimIsKeep(l);
    }
    hide Sorted, Keep;
  }

  // A non-empty run of the sorted items that holds every item between the quartiles, and of the
  // others exactly those within one and a half times the distance of the quartiles.
  lemma TrimKeepsTheMiddle(l: seq<real>) returns (a: nat, b: nat)
    requires l != []
    ensures |Sorted(l)| == |l| && a < b <= |l| && Trim(l) == Some(Sorted(l)[a..b])
    ensures Quantile(l, 0.25).Some? && Quantile(l, 0.75).Some?
    ensures var q1, q3 := Quantile(l, 0.25).value, Quantile(l, 0.75).value;
      && (forall i :: 0 <= i < |l| && q1 <= Sorted(l)[i] <= q3 ==> a <= i < b)
      && (forall i :: 0 <= i < |l| ==>
            (q1 - 1.5 * (q3 - q1) <= Sorted(l)[i] <= q3 + 1.5 * (q3 - q1) <==> a <= i < b))
  {
    var s := Sorted(l);
    SortedAscends(l);
    SortOfSorted(s);
    TrimIsKeep(l);
    QuantileOfSorted(l, 0.25);
    QuantileOfSorted(l, 0.75);
    hide Quantile, Sorted, Keep, Trim, Ascending;
    var k := SomethingKept(s);
    var q1, q3 := Quantile(l, 0.25).value, Quantile(l, 0.75).value;
    a, b := KeepIsSlice(s, LowEnd(q1, q3), HighEnd(q1, q3));
  }
}
