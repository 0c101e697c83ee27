/**
  The graphs that the dependency sorts work on, and the two notions that explain their results:
  the depth of an element (the length of its longest chain of ancestors) and the part of the graph
  that lies on or below a cycle.
 */
module Dependencies {
  import opened Lists

  // Pairs are (parent, child); a pair may occur several times and may join an element to itself.
  datatype Graph<T> = Graph(nodes: set<T>, pairs: seq<(T, T)>)

  ghost function FromPairs<T>(pairlist: seq<(T, T)>): (g: Graph<T>)
    ensures Closed(g) && g.pairs == pairlist
  {
    Graph((set p | p in pairlist :: p.0) + (set p | p in pairlist :: p.1), pairlist)
  }

  ghost predicate Closed<T>(g: Graph<T>) {
    forall p :: p in g.pairs ==> p.0 in g.nodes && p.1 in g.nodes
  }

  ghost predicate Chain<T>(g: Graph<T>, c: seq<T>) {
    && |c| > 0
    && (forall i :: 0 <= i < |c| ==> c[i] in g.nodes)
    && (forall i :: 0 <= i < |c| - 1 ==> (c[i], c[i + 1]) in g.pairs)
  }

  ghost predicate Connects<T>(g: Graph<T>, a: T, c: seq<T>, b: T) {
    Chain(g, c) && c[0] == a && c[|c| - 1] == b
  }

  ghost predicate Reaches<T(!new)>(g: Graph<T>, a: T, b: T) {
    exists c :: Connects(g, a, c, b)
  }

  ghost predicate OnCycle<T(!new)>(g: Graph<T>, x: T) {
    exists c :: |c| >= 2 && Connects(g, x, c, x)
  }

  ghost predicate Acyclic<T(!new)>(g: Graph<T>) {
    forall x :: x in g.nodes ==> !OnCycle(g, x)
  }

  // The elements that lie on a cycle or are reachable from one.
  ghost function BelowCycles<T(!new)>(g: Graph<T>): (s: set<T>)
    ensures s <= g.nodes
  {
    set x | x in g.nodes && exists y :: y in g.nodes && OnCycle(g, y) && Reaches(g, y, x)
  }

  ghost predicate HasParentIn<T>(g: Graph<T>, S: set<T>, x: T) {
    exists p :: p in S && (p, x) in g.pairs
  }

  // The elements with at least k generations of ancestors above them.
  ghost function Deep<T>(g: Graph<T>, k: nat): set<T> {
    if k == 0 then g.nodes else set x | x in g.nodes && HasParentIn(g, Deep(g, k - 1), x)
  }

  ghost function Level<T>(g: Graph<T>, k: nat): set<T> {
    Deep(g, k) - Deep(g, k + 1)
  }

  // ---- chains and generations

  lemma {:induction false} DeepIffChain<T(!new)>(g: Graph<T>, k: nat, x: T)
    ensures x in Deep(g, k) <==> exists c :: |c| == k + 1 && Chain(g, c) && c[k] == x
  {
    if k == 0 {
      if x in g.nodes {
        assert Chain(g, [x]);
      }
    } else {
      if x in Deep(g, k) {
        var p :| p in Deep(g, k - 1) && (p, x) in g.pairs;
        DeepIffChain(g, k - 1, p);
        var c :| |c| == k && Chain(g, c) && c[k - 1] == p;
        assert Chain(g, c + [x]);
      }
      if c :| |c| == k + 1 && Chain(g, c) && c[k] == x {
        DeepIffChain(g, k - 1, c[k - 1]);
        assert Chain(g, c[..k]);
        assert (c[k - 1], c[k]) in g.pairs;
      }
    }
  }

  lemma {:induction false} DeepShrinks<T>(g: Graph<T>, j: nat, k: nat)
    requires j <= k
    ensures Deep(g, k) <= Deep(g, j)
    decreases k
  {
    if j < k {
      if j == 0 {
      } else {
        DeepShrinks(g, j - 1, k - 1);
      }
    }
  }

  lemma LevelUnique<T>(g: Graph<T>, x: T, j: nat, k: nat)
    requires x in Level(g, j) && x in Level(g, k)
    ensures j == k
  {
    if j < k {
      DeepShrinks(g, j + 1, k);
    } else if k < j {
      DeepShrinks(g, k + 1, j);
    }
  }

  // An element all of whose parents have depth at most d, one of them exactly d, has depth d + 1.
  lemma LevelStep<T>(g: Graph<T>, x: T, p: T, d: nat)
    requires Closed(g) && (p, x) in g.pairs && p in Level(g, d)
    requires forall q :: (q, x) in g.pairs ==> exists e :: 0 <= e <= d && q in Level(g, e)
    ensures x in Level(g, d + 1)
  {
    assert x in g.nodes;
    assert x in Deep(g, d + 1);
    if x in Deep(g, d + 2) {
      var q :| q in Deep(g, d + 1) && (q, x) in g.pairs;
      var e :| 0 <= e <= d && q in Level(g, e);
      DeepShrinks(g, e + 1, d + 1);
    }
  }

  // ---- the part on or below a cycle

  lemma {:induction false} CycleIsBottomless<T>(g: Graph<T>, c: seq<T>, k: nat)
    requires Chain(g, c) && |c| >= 2 && c[0] == c[|c| - 1]
    ensures forall i :: 0 <= i < |c| ==> c[i] in Deep(g, k)
  {
    if k > 0 {
      CycleIsBottomless(g, c, k - 1);
      forall i | 0 <= i < |c| ensures c[i] in Deep(g, k) {
        var j := if i == 0 then |c| - 1 else i;
        assert (c[j - 1], c[j]) in g.pairs;
      }
    }
  }

  lemma {:induction false} BelowBottomless<T>(g: Graph<T>, c: seq<T>, k: nat)
    requires Chain(g, c) && forall j: nat :: c[0] in Deep(g, j)
    ensures c[|c| - 1] in Deep(g, k)
    decreases |c|, k
  {
    var n := |c| - 1;
    if n > 0 {
      if k > 0 {
        BelowBottomless(g, c[..n], k - 1);
        assert (c[n - 1], c[n]) in g.pairs;
      }
    }
  }

  // Going up from a member of a set whose members all have parents in it.
  lemma {:induction false} ClimbWithin<T>(g: Graph<T>, S: set<T>, x: T, n: nat) returns (c: seq<T>)
    requires x in S && S <= g.nodes
    requires forall y :: y in S ==> HasParentIn(g, S, y)
    ensures Chain(g, c) && |c| == n + 1 && c[n] == x
    ensures forall y :: y in c ==> y in S
  {
    c := [x];
    if n > 0 {
      var p :| p in S && (p, x) in g.pairs;
      var up := ClimbWithin(g, S, p, n - 1);
      c := up + [x];
    }
  }

  // A chain that repeats an element ends on or below a cycle.
  lemma RepeatingChain<T(!new)>(g: Graph<T>, c: seq<T>)
    requires Chain(g, c) && !NoDup(c)
    ensures c[|c| - 1] in BelowCycles(g)
  {
    var i, j :| 0 <= i < j < |c| && c[i] == c[j];
    var loop, tail := c[i..j + 1], c[j..];
    assert Connects(g, c[i], loop, c[i]) && |loop| >= 2;
    assert Connects(g, c[j], tail, c[|c| - 1]);
  }

  lemma TooDeepIsBelowCycle<T(!new)>(g: Graph<T>, x: T)
    requires x in Deep(g, |g.nodes|)
    ensures x in BelowCycles(g)
  {
    DeepIffChain(g, |g.nodes|, x);
    var c :| |c| == |g.nodes| + 1 && Chain(g, c) && c[|g.nodes|] == x;
    Pigeonhole(c, g.nodes);
    RepeatingChain(g, c);
  }

  lemma BelowCycleIsBottomless<T(!new)>(g: Graph<T>, x: T, k: nat)
    requires x in BelowCycles(g)
    ensures x in Deep(g, k)
  {
    var y :| y in g.nodes && OnCycle(g, y) && Reaches(g, y, x);
    var loop :| |loop| >= 2 && Connects(g, y, loop, y);
    var tail :| Connects(g, y, tail, x);
    forall j: nat ensures tail[0] in Deep(g, j) {
      CycleIsBottomless(g, loop, j);
    }
    BelowBottomless(g, tail, k);
  }

  // If every element outside L has a depth and every member of L has a parent in L, then L is
  // exactly what lies on or below a cycle.
  lemma ResidueIsBelowCycles<T(!new)>(g: Graph<T>, L: set<T>)
    requires L <= g.nodes
    requires forall x :: x in L ==> HasParentIn(g, L, x)
    requires forall x :: x in g.nodes - L ==> exists k: nat :: x in Level(g, k)
    ensures L == BelowCycles(g)
  {
    forall x | x in L ensures x in BelowCycles(g) {
      var c := ClimbWithin(g, L, x, |g.nodes|);
      Pigeonhole(c, g.nodes);
      RepeatingChain(g, c);
    }
    forall x | x in BelowCycles(g) ensures x in L {
      if x !in L {
        assert x in g.nodes - L;
        var k: nat :| x in Level(g, k);
        BelowCycleIsBottomless(g, x, k + 1);
      }
    }
  }

  lemma AcyclicIff<T(!new)>(g: Graph<T>)
    ensures Acyclic(g) <==> BelowCycles(g) == {}
  {
    forall x | x in g.nodes && OnCycle(g, x) ensures x in BelowCycles(g) {
      assert Connects(g, x, [x], x);
    }
    if x :| x in BelowCycles(g) {
      assert !Acyclic(g);
    }
  }

  // ---- the way down

  ghost predicate HasChildIn<T>(g: Graph<T>, S: set<T>, x: T) {
    exists c :: c in S && (x, c) in g.pairs
  }

  ghost predicate ReachesCycle<T(!new)>(g: Graph<T>, x: T) {
    exists y :: y in g.nodes && OnCycle(g, y) && Reaches(g, x, y)
  }

  lemma {:induction false} DescendWithin<T>(g: Graph<T>, S: set<T>, x: T, n: nat) returns (c: seq<T>)
    requires x in S && S <= g.nodes
    requires forall y :: y in S ==> HasChildIn(g, S, y)
    ensures Chain(g, c) && |c| == n + 1 && c[0] == x
    ensures forall y :: y in c ==> y in S
  {
    c := [x];
    if n > 0 {
      var child :| child in S && (x, child) in g.pairs;
      var down := DescendWithin(g, S, child, n - 1);
      c := [x] + down;
    }
  }

  lemma ChildBelowCycle<T(!new)>(g: Graph<T>, x: T, child: T)
    requires Closed(g) && x in BelowCycles(g) && (x, child) in g.pairs
    ensures child in BelowCycles(g)
  {
    var y :| y in g.nodes && OnCycle(g, y) && Reaches(g, y, x);
    var c :| Connects(g, y, c, x);
    assert Connects(g, y, c + [child], child);
  }

  lemma CycleBelow<T(!new)>(g: Graph<T>, x: T)
    requires x in g.nodes && forall y :: y in BelowCycles(g) ==> HasChildIn(g, BelowCycles(g), y)
    requires x in BelowCycles(g)
    ensures ReachesCycle(g, x)
  {
    hide BelowCycles;
    var c := DescendWithin(g, BelowCycles(g), x, |g.nodes|);
    Pigeonhole(c, g.nodes);
    var i, j :| 0 <= i < j < |c| && c[i] == c[j];
    assert Connects(g, c[i], c[i..j + 1], c[i]) && |c[i..j + 1]| >= 2;
    assert Connects(g, x, c[..i + 1], c[i]);
  }

  lemma ChildTowardsCycle<T(!new)>(g: Graph<T>, x: T)
    requires ReachesCycle(g, x)
    ensures exists child :: (x, child) in g.pairs
  {
    var y :| y in g.nodes && OnCycle(g, y) && Reaches(g, x, y);
    var c :| Connects(g, x, c, y);
    var loop :| |loop| >= 2 && Connects(g, y, loop, y);
    if |c| > 1 {
      assert (c[0], c[1]) in g.pairs;
    } else {
      assert (loop[0], loop[1]) in g.pairs;
    }
  }

  // Everything on or below a cycle has a child there exactly when a cycle can be reached from all of it.
  lemma ChildrenBelowCyclesIff<T(!new)>(g: Graph<T>)
    requires Closed(g)
    ensures (forall x :: x in BelowCycles(g) ==> HasChildIn(g, BelowCycles(g), x))
       <==> (forall x :: x in BelowCycles(g) ==> ReachesCycle(g, x))
  {
    hide BelowCycles, ReachesCycle;
    if forall x :: x in BelowCycles(g) ==> HasChildIn(g, BelowCycles(g), x) {
      forall x | x in BelowCycles(g) ensures ReachesCycle(g, x) {
        CycleBelow(g, x);
      }
    }
    if forall x :: x in BelowCycles(g) ==> ReachesCycle(g, x) {
      forall x | x in BelowCycles(g) ensures HasChildIn(g, BelowCycles(g), x) {
        ChildTowardsCycle(g, x);
        var child :| (x, child) in g.pairs;
        ChildBelowCycle(g, x, child);
      }
    }
  }

  // ---- depth

  lemma {:induction false} DepthSearch<T>(g: Graph<T>, x: T, n: nat) returns (k: nat)
    requires x in g.nodes && x !in Deep(g, n)
    ensures x in Level(g, k)
  {
    if x in Deep(g, n - 1) {
      k := n - 1;
    } else {
      k := DepthSearch(g, x, n - 1);
    }
  }

  lemma DepthExists<T(!new)>(g: Graph<T>, x: T)
    requires x in g.nodes && x !in BelowCycles(g)
    ensures exists k: nat :: x in Level(g, k)
  {
    if x in Deep(g, |g.nodes|) {
      TooDeepIsBelowCycle(g, x);
    }
    var k := DepthSearch(g, x, |g.nodes|);
  }

  // Elements on or below a cycle have no depth; zero stands in for it.
  ghost function Depth<T(!new)>(g: Graph<T>, x: T): (k: nat)
    ensures x in g.nodes && x !in BelowCycles(g) ==> x in Level(g, k)
  {
    if x in g.nodes && x !in BelowCycles(g) then
      DepthExists(g, x);
      var k: nat :| x in Level(g, k);
      k
    else 0
  }

  // The depth of an element is the length of its longest chain of ancestors.
  lemma DepthIsLongestChain<T(!new)>(g: Graph<T>, x: T)
    requires x in g.nodes && x !in BelowCycles(g)
    ensures exists c :: Chain(g, c) && c[|c| - 1] == x && |c| == Depth(g, x) + 1
    ensures forall c :: Chain(g, c) && c[|c| - 1] == x ==> |c| <= Depth(g, x) + 1
  {
    var k := Depth(g, x);
    DeepIffChain(g, k, x);
    var c0 :| |c0| == k + 1 && Chain(g, c0) && c0[k] == x;
    forall c | Chain(g, c) && c[|c| - 1] == x ensures |c| <= k + 1 {
      if |c| > k + 1 {
        DeepIffChain(g, |c| - 1, x);
        DeepShrinks(g, k + 1, |c| - 1);
      }
    }
  }

  // ---- counting pairs

  // The number of pairs that lead from a member of S to x.
  ghost function CountFrom<T>(pairs: seq<(T, T)>, S: set<T>, x: T): nat {
    if pairs == [] then 0
    else
      var n := |pairs| - 1;
      CountFrom(pairs[..n], S, x) + if pairs[n].0 in S && pairs[n].1 == x then 1 else 0
  }

  // The children that the pairs give to p, in pair order.
  ghost function ChildrenOf<T>(pairs: seq<(T, T)>, p: T): seq<T> {
    if pairs == [] then []
    else
      var n := |pairs| - 1;
      ChildrenOf(pairs[..n], p) + if pairs[n].0 == p then [pairs[n].1] else []
  }

  // The places of the pairs with parent p.
  ghost function PlacesOf<T>(pairs: seq<(T, T)>, p: T): set<nat> {
    set i | 0 <= i < |pairs| && pairs[i].0 == p
  }

  lemma PlacesStep<T>(pairs: seq<(T, T)>, p: T)
    requires pairs != []
    ensures var n := |pairs| - 1;
      && (forall i :: i in PlacesOf(pairs[..n], p) ==> i < n)
      && PlacesOf(pairs, p)
           == if pairs[n].0 == p then PlacesOf(pairs[..n], p) + {n} else PlacesOf(pairs[..n], p)
  {
    var n := |pairs| - 1;
    assert forall i :: 0 <= i < n ==> pairs[..n][i] == pairs[i];
  }

  // The children that the pairs give to p are those of its pairs, in order.
  lemma {:induction false} ChildrenInOrder<T>(pairs: seq<(T, T)>, p: T) returns (idx: seq<nat>)
    ensures Ascends(idx, PlacesOf(pairs, p)) && |ChildrenOf(pairs, p)| == |idx|
    ensures forall k :: 0 <= k < |idx| ==> idx[k] < |pairs| && ChildrenOf(pairs, p)[k] == pairs[idx[k]].1
  {
    if pairs == [] {
      idx := [];
    } else {
      hide Ascends, PlacesOf;
      var n := |pairs| - 1;
      idx := ChildrenInOrder(pairs[..n], p);
      PlacesStep(pairs, p);
      if pairs[n].0 == p {
        AscendsTo(idx, PlacesOf(pairs[..n], p), n);
        idx := idx + [n];
      }
    }
  }

  // The count is the number of pairs that lead from S to x.
  lemma {:induction false} CountIsNumber<T>(pairs: seq<(T, T)>, S: set<T>, x: T)
    ensures CountFrom(pairs, S, x) == |set i | 0 <= i < |pairs| && pairs[i].0 in S && pairs[i].1 == x|
  {
    var now := set i | 0 <= i < |pairs| && pairs[i].0 in S && pairs[i].1 == x;
    if pairs == [] {
      assert now == {};
    } else {
      var n := |pairs| - 1;
      CountIsNumber(pairs[..n], S, x);
      var before := set i | 0 <= i < n && pairs[..n][i].0 in S && pairs[..n][i].1 == x;
      assert forall i :: 0 <= i < n ==> pairs[..n][i] == pairs[i];
      if pairs[n].0 in S && pairs[n].1 == x {
        assert now == before + {n};
      } else {
        assert now == before;
      }
    }
  }

  lemma {:induction false} CountSplit<T>(pairs: seq<(T, T)>, S: set<T>, p: T, x: T)
    requires p in S
    ensures CountFrom(pairs, S, x) == CountFrom(pairs, S - {p}, x) + multiset(ChildrenOf(pairs, p))[x]
  {
    if pairs != [] {
      CountSplit(pairs[..|pairs| - 1], S, p, x);
    }
  }

  lemma {:induction false} CountZeroIff<T>(g: Graph<T>, S: set<T>, x: T)
    ensures CountFrom(g.pairs, S, x) == 0 <==> !HasParentIn(g, S, x)
    decreases |g.pairs|
  {
    if g.pairs != [] {
      var n := |g.pairs| - 1;
      var h := Graph(g.nodes, g.pairs[..n]);
      CountZeroIff(h, S, x);
      assert g.pairs == g.pairs[..n] + [g.pairs[n]];
      if HasParentIn(h, S, x) {
        var p :| p in S && (p, x) in h.pairs;
        assert (p, x) in g.pairs;
      }
    }
  }

  lemma {:induction false} ChildrenAreEdges<T>(g: Graph<T>, p: T, x: T)
    ensures x in ChildrenOf(g.pairs, p) <==> (p, x) in g.pairs
    decreases |g.pairs|
  {
    if g.pairs != [] {
      var n := |g.pairs| - 1;
      ChildrenAreEdges(Graph(g.nodes, g.pairs[..n]), p, x);
      assert g.pairs == g.pairs[..n] + [g.pairs[n]];
    }
  }
}
