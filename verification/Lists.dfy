/** Facts about finite sequences shared by the models. */
module Lists {

  datatype Option<+T> = None | Some(value: T)

  ghost predicate NoDup<T>(s: seq<T>) {
    forall i, j :: 0 <= i < j < |s| ==> s[i] != s[j]
  }

  ghost function Elems<T>(s: seq<T>): set<T> {
    set x | x in s
  }

  // The sequence s lists the set S, each member once.
  ghost predicate Enumerates<T(!new)>(s: seq<T>, S: set<T>) {
    NoDup(s) && forall x :: x in s <==> x in S
  }

  // The places idx are those of a set, in ascending order.
  ghost predicate Ascends(idx: seq<nat>, places: set<nat>) {
    (forall a, b :: 0 <= a < b < |idx| ==> idx[a] < idx[b]) && forall i: nat :: i in idx <==> i in places
  }

  lemma AscendsTo(idx: seq<nat>, places: set<nat>, n: nat)
    requires Ascends(idx, places) && forall i :: i in places ==> i < n
    ensures Ascends(idx + [n], places + {n})
  {
    forall a | 0 <= a < |idx| ensures idx[a] < n {
      assert idx[a] in idx;
    }
  }

  lemma AscendsCount(idx: seq<nat>, places: set<nat>)
    requires Ascends(idx, places)
    ensures |idx| == |places|
  {
    NoDupCardinality(idx);
    assert Elems(idx) == places;
  }

  lemma NoDupCardinality<T>(s: seq<T>)
    requires NoDup(s)
    ensures |Elems(s)| == |s|
  {
    if s != [] {
      var n := |s| - 1;
      NoDupCardinality(s[..n]);
      assert Elems(s) == Elems(s[..n]) + {s[n]};
    }
  }

  // A sequence longer than the set it draws from repeats a member.
  lemma Pigeonhole<T>(s: seq<T>, bound: set<T>)
    requires forall x :: x in s ==> x in bound
    requires |s| > |bound|
    ensures !NoDup(s)
  {
    if NoDup(s) {
      NoDupCardinality(s);
      SubsetCardinality(Elems(s), bound);
    }
  }

  lemma SubsetCardinality<T>(a: set<T>, b: set<T>)
    requires a <= b
    ensures |a| <= |b|
  {
    assert b == a + (b - a);
  }

  // One more item of a list, counted.
  lemma TakeOne<T>(s: seq<T>, j: nat)
    requires j < |s|
    ensures s[..j + 1] == s[..j] + [s[j]]
    ensures multiset(s[..j + 1]) == multiset(s[..j]) + multiset{s[j]}
    ensures multiset(s[..j])[s[j]] < multiset(s)[s[j]]
  {
    assert s[..j + 1] == s[..j] + [s[j]];
    assert s == s[..j] + [s[j]] + s[j + 1..];
  }

  lemma NoDupAppend<T>(s: seq<T>, x: T)
    requires NoDup(s) && x !in s
    ensures NoDup(s + [x])
  {
  }

  // Two duplicate-free lists of one set are rearrangements of each other.
  lemma SameSetSameBag<T>(a: seq<T>, b: seq<T>)
    requires NoDup(a) && NoDup(b) && Elems(a) == Elems(b)
    ensures multiset(a) == multiset(b)
  {
    forall x ensures multiset(a)[x] == multiset(b)[x] {
      NoDupMultiplicity(a, x);
      NoDupMultiplicity(b, x);
      assert x in Elems(a) <==> x in Elems(b);
    }
  }

  lemma NoDupMultiplicity<T>(s: seq<T>, x: T)
    requires NoDup(s)
    ensures multiset(s)[x] == if x in s then 1 else 0
  {
    if s != [] {
      var n := |s| - 1;
      NoDupMultiplicity(s[..n], x);
      assert s == s[..n] + [s[n]];
    }
  }
}
