/**
  The two dependency sorts of topsort.py. Both build a table of parent counts and child lists from
  (parent, child) pairs and release elements whose count has dropped to zero: Topsort through a
  list that grows while it is walked, TopsortLevels one generation at a time.
 */
module Topsort {
  import opened Lists
  import opened Dependencies

  // The tables describe the subgraph of the elements that are still live, that is, those that
  // have not been released yet. A released element has no live parent.
  ghost predicate Tally<T>(g: Graph<T>, live: set<T>, numParents: map<T, int>, children: map<T, seq<T>>)
    ensures Tally(g, live, numParents, children) ==> numParents.Keys == live && live <= g.nodes
  {
    && Closed(g) && live <= g.nodes
    && numParents.Keys == live && children.Keys <= live
    && (forall x :: x in live ==> numParents[x] == CountFrom(g.pairs, live, x))
    && (forall x :: x in live ==> ChildList(children, x) == ChildrenOf(g.pairs, x))
    && (forall x :: x in g.nodes && x !in live ==> !HasParentIn(g, live, x))
  }

  function ChildList<T(==)>(children: map<T, seq<T>>, p: T): seq<T> {
    if p in children then children[p] else []
  }

  class Tables<T(==,!new)> {
    var numParents: map<T, int>
    var children: map<T, seq<T>>

    constructor (pairlist: seq<(T, T)>)
      ensures Tally(FromPairs(pairlist), FromPairs(pairlist).nodes, numParents, children)
    {
      numParents, children := map[], map[];
      new;
      hide Tally, FromPairs;
      TallyEmpty<T>();
      assert pairlist[..0] == [];
      for i := 0 to |pairlist|
        invariant Tally(FromPairs(pairlist[..i]), FromPairs(pairlist[..i]).nodes, numParents, children)
      {
        var (parent, child) := pairlist[i];
        ghost var np, ch := numParents, children;
        if parent !in numParents {
          numParents := numParents[parent := 0];
        }
        if child !in numParents {
          numParents := numParents[child := 0];
        }
        numParents := numParents[child := numParents[child] + 1];
        children := children[parent := ChildList(children, parent) + [child]];
        TallyAddPair(pairlist[..i], parent, child, np, ch, numParents);
        assert pairlist[..i + 1] == pairlist[..i] + [(parent, child)];
      }
      assert pairlist[..|pairlist|] == pairlist;
    }

    // The elements without live parents, in the order in which the dictionary happens to give them.
    method Parentless() returns (roots: seq<T>)
      ensures Enumerates(roots, set x | x in numParents && numParents[x] == 0)
    {
      roots := [];
      var rest := numParents.Keys;
      while rest != {}
        invariant rest <= numParents.Keys
        invariant NoDup(roots)
        invariant forall x :: x in roots <==> x in numParents && x !in rest && numParents[x] == 0
        decreases |rest|
      {
        var x :| x in rest;
        rest := rest - {x};
        if numParents[x] == 0 {
          roots := roots + [x];
        }
      }
    }

    // Lowers the count of every listed child; those whose count reaches zero are collected in the
    // order in which that happens.
    method LowerCounts(list: seq<T>) returns (freed: seq<T>)
      requires Covers(numParents, list)
      modifies this`numParents
      ensures Lowered(old(numParents), multiset(list), numParents, freed)
      ensures ByLastMention(list, |list|, freed)
    {
      hide Lowered, Covers, ByLastMention;
      NoneMentioned(list);
      ghost var before := numParents;
      ghost var done: multiset<T> := multiset{};
      freed := [];
      LoweredNone(before);
      for j := 0 to |list|
        invariant done == multiset(list[..j])
        invariant Lowered(before, done, numParents, freed) && ByLastMention(list, j, freed)
      {
        CoversAt(before, list, j);
        NextMention(before, list, j, numParents, freed);
        LowerOne(before, done, numParents, freed, list[j]);
        done := done + multiset{list[j]};
        var child := list[j];
        numParents := numParents[child := numParents[child] - 1];
        if numParents[child] == 0 {
          freed := freed + [child];
        }
      }
      assert list[..|list|] == list;
    }

    // Removes a parentless element and lowers the counts of its children, returning those that
    // have thereby lost their last live parent.
    method Release(parent: T, ghost g: Graph<T>, ghost live: set<T>) returns (freed: seq<T>)
      requires Tally(g, live, numParents, children)
      requires parent in live && numParents[parent] == 0
      modifies this
      ensures Tally(g, live - {parent}, numParents, children)
      ensures NoDup(freed)
      ensures forall x :: x in freed <==> x in live - {parent} && (parent, x) in g.pairs && numParents[x] == 0
      ensures forall x :: x in live - {parent} && x !in freed ==>
                (numParents[x] == 0 <==> old(numParents)[x] == 0)
      ensures ByLastMention(ChildrenOf(g.pairs, parent), |ChildrenOf(g.pairs, parent)|, freed)
    {
      ghost var np, ch := numParents, children;
      freed := [];
      NoneMentioned(ChildrenOf(g.pairs, parent));
      assert ChildList(children, parent) == ChildrenOf(g.pairs, parent);
      ReleaseBounds(g, live, np, ch, parent);
      numParents := numParents - {parent};
      if parent in children {
        freed := LowerCounts(children[parent]);
        LoweredAll(np - {parent}, children[parent], numParents, freed);
        children := children - {parent};
      }
      TallyRelease(g, live, np, ch, parent, numParents);
    }

    // One generation after the other. The tables keep what could not be sorted.
    method TopsortLevelsCore(ghost g: Graph<T>) returns (levels: seq<seq<T>>)
      requires Tally(g, g.nodes, numParents, children)
      modifies this
      ensures IsLevelling(g, levels)
      ensures Tally(g, BelowCycles(g), numParents, children)
    {
      hide Tally, Deep, BelowCycles;
      levels := [];
      assert Deep(g, 0) == g.nodes by { DeepZero(g); }
      while true
        invariant Tally(g, Deep(g, |levels|), numParents, children)
        invariant forall k :: 0 <= k < |levels| ==> Level(g, k) != {} && Enumerates(levels[k], Level(g, k))
        decreases |Deep(g, |levels|)|
      {
        ghost var n := |levels|;
        var levelParents := Parentless();
        ParentlessIsLevel(g, n, numParents, children);
        if levelParents == [] {
          ResidueAfterLevels(g, n);
          break;
        }
        levels := levels + [levelParents];
        ReleaseAll(levelParents, g, Deep(g, n));
        LevelsProgress(g, n, levelParents);
      }
    }

    // Releases every element of a generation.
    method ReleaseAll(levelParents: seq<T>, ghost g: Graph<T>, ghost live: set<T>)
      requires Tally(g, live, numParents, children)
      requires NoDup(levelParents)
      requires forall x :: x in levelParents ==> x in live && numParents[x] == 0
      modifies this
      ensures Tally(g, live - Elems(levelParents), numParents, children)
    {
      hide Tally;
      ghost var now := live;
      for j := 0 to |levelParents|
        invariant Tally(g, now, numParents, children)
        invariant now == live - Elems(levelParents[..j])
        invariant forall k :: j <= k < |levelParents| ==> levelParents[k] in now && numParents[levelParents[k]] == 0
      {
        ghost var np := numParents;
        assert levelParents[..j + 1] == levelParents[..j] + [levelParents[j]];
        var freed := Release(levelParents[j], g, now);
        forall k | j + 1 <= k < |levelParents|
          ensures levelParents[k] in now - {levelParents[j]} && numParents[levelParents[k]] == 0
        {
          assert np[levelParents[k]] == 0;
          if levelParents[k] in freed {
          }
        }
        now := now - {levelParents[j]};
      }
      assert levelParents[..|levelParents|] == levelParents;
    }
  }

  // ---- tables that a caller fills in

  lemma {:induction false} ChildrenOfConcat<T>(a: seq<(T, T)>, b: seq<(T, T)>, p: T)
    ensures ChildrenOf(a + b, p) == ChildrenOf(a, p) + ChildrenOf(b, p)
  {
    if b == [] {
      assert a + b == a;
    } else {
      ChildrenOfConcat(a, b[..|b| - 1], p);
      assert (a + b)[..|a + b| - 1] == a + b[..|b| - 1];
    }
  }

  ghost function PairsFrom<T>(p: T, list: seq<T>): (pairs: seq<(T, T)>)
    ensures |pairs| == |list|
  {
    seq(|list|, i requires 0 <= i < |list| => (p, list[i]))
  }

  lemma {:induction false} ChildrenFrom<T>(p: T, list: seq<T>, x: T)
    ensures ChildrenOf(PairsFrom(p, list), x) == if x == p then list else []
  {
    if list != [] {
      var n := |list| - 1;
      ChildrenFrom(p, list[..n], x);
      assert PairsFrom(p, list)[..n] == PairsFrom(p, list[..n]);
    }
  }

  lemma {:induction false} PairsOf<T(!new)>(nodes: set<T>, children: map<T, seq<T>>, keys: set<T>)
    returns (pairs: seq<(T, T)>)
    requires keys <= children.Keys <= nodes && forall p, x :: p in children && x in children[p] ==> x in nodes
    ensures Closed(Graph(nodes, pairs))
    ensures forall p :: ChildrenOf(pairs, p) == if p in keys then children[p] else []
    decreases keys
  {
    NoPairs(nodes);
    hide *;
    if keys == {} {
      pairs := [];
    } else {
      var k :| k in keys;
      var rest := PairsOf(nodes, children, keys - {k});
      pairs := rest + PairsFrom(k, children[k]);
      ClosedWith(nodes, rest, k, children[k]);
      forall p ensures ChildrenOf(pairs, p) == if p in keys then children[p] else [] {
        ChildrenOfConcat(rest, PairsFrom(k, children[k]), p);
        ChildrenFrom(k, children[k], p);
      }
    }
  }

  lemma NoPairs<T(!new)>(nodes: set<T>)
    ensures Closed(Graph(nodes, [])) && forall p :: ChildrenOf<T>([], p) == []
  {
  }

  lemma ClosedWith<T>(nodes: set<T>, rest: seq<(T, T)>, k: T, list: seq<T>)
    requires Closed(Graph(nodes, rest)) && k in nodes && forall x :: x in list ==> x in nodes
    ensures Closed(Graph(nodes, rest + PairsFrom(k, list)))
  {
    forall p | p in rest + PairsFrom(k, list) ensures p.0 in nodes && p.1 in nodes {
      if p !in rest {
        var i :| 0 <= i < |list| && PairsFrom(k, list)[i] == p;
        assert list[i] in list;
      }
    }
  }

  // Child lists over some elements are those of a graph; the tables describe it when the numbers
  // are those of the parents, each mention counted.
  lemma TablesDescribeGraph<T(!new)>(numParents: map<T, int>, children: map<T, seq<T>>) returns (g: Graph<T>)
    requires children.Keys <= numParents.Keys
    requires forall p, x :: p in children && x in children[p] ==> x in numParents
    ensures g.nodes == numParents.Keys && forall p :: ChildrenOf(g.pairs, p) == ChildList(children, p)
    ensures Tally(g, g.nodes, numParents, children)
       <==> forall x :: x in numParents ==> numParents[x] == CountFrom(g.pairs, g.nodes, x)
  {
    var pairs := PairsOf(numParents.Keys, children, children.Keys);
    g := Graph(numParents.Keys, pairs);
    hide ChildrenOf, CountFrom;
  }

  // ---- steps on the tables

  // The children in done have been taken off their counts, and freed lists those that reached zero.
  ghost predicate Lowered<T(!new)>(before: map<T, int>, done: multiset<T>, now: map<T, int>, freed: seq<T>)
    ensures Lowered(before, done, now, freed) ==> now.Keys == before.Keys
  {
    && now.Keys == before.Keys
    && (forall x :: x in now ==> now[x] == before[x] - done[x])
    && NoDup(freed)
    && (forall x :: x in freed <==> x in done && x in now && now[x] == 0)
  }

  // Every listed child has a count that is at least the number of times it is listed.
  ghost predicate Covers<T(!new)>(np: map<T, int>, list: seq<T>) {
    forall x :: x in list ==> x in np && np[x] >= multiset(list)[x]
  }

  lemma CoversAt<T(!new)>(np: map<T, int>, list: seq<T>, j: nat)
    requires Covers(np, list) && j < |list|
    ensures multiset(list[..j + 1]) == multiset(list[..j]) + multiset{list[j]}
    ensures list[j] in np && np[list[j]] > multiset(list[..j])[list[j]]
  {
    TakeOne(list, j);
    assert list[j] in list;
  }

  lemma LoweredNone<T(!new)>(before: map<T, int>)
    ensures Lowered(before, multiset{}, before, [])
  {
  }

  lemma LowerOne<T(!new)>(before: map<T, int>, done: multiset<T>, now: map<T, int>, freed: seq<T>, child: T)
    requires Lowered(before, done, now, freed)
    requires child in before && before[child] > done[child]
    ensures child in now && now[child] > 0
    ensures Lowered(before, done + multiset{child}, now[child := now[child] - 1],
                    if now[child] == 1 then freed + [child] else freed)
  {
    if now[child] == 1 {
      NoDupAppend(freed, child);
    }
    hide NoDup;
    assert forall x :: x in done + multiset{child} <==> x in done || x == child;
  }

  // The place at which x is mentioned last.
  ghost function LastMention<T>(list: seq<T>, x: T): (k: nat)
    requires x in list
    ensures k < |list| && list[k] == x && x !in list[k + 1..]
  {
    var n := |list| - 1;
    if list[n] == x then n
    else
      assert x in list[..n];
      var k := LastMention(list[..n], x);
      assert list[k + 1..] == list[..n][k + 1..] + [list[n]];
      k
  }

  // The freed children are mentioned last before place j, one after the other.
  ghost predicate ByLastMention<T>(list: seq<T>, j: nat, freed: seq<T>) {
    && (forall x :: x in freed ==> x in list && LastMention(list, x) < j)
    && (forall a, b :: 0 <= a < b < |freed| ==> LastMention(list, freed[a]) < LastMention(list, freed[b]))
  }

  lemma NoneMentioned<T>(list: seq<T>)
    ensures ByLastMention(list, 0, []) && ByLastMention(list, |list|, [])
  {
  }

  // A child whose count reaches zero is not mentioned again.
  lemma NextMention<T(!new)>(before: map<T, int>, list: seq<T>, j: nat, now: map<T, int>, freed: seq<T>)
    requires Covers(before, list) && j < |list| && ByLastMention(list, j, freed)
    requires Lowered(before, multiset(list[..j]), now, freed)
    ensures list[j] in now
    ensures ByLastMention(list, j + 1, if now[list[j]] == 1 then freed + [list[j]] else freed)
  {
    CoversAt(before, list, j);
    var x := list[j];
    assert now[x] == before[x] - multiset(list[..j])[x];
    if now[x] == 1 {
      NotAgain(list, j);
      hide Covers, Lowered, LastMention;
      forall a | 0 <= a < |freed| ensures LastMention(list, freed[a]) < j {
        assert freed[a] in freed;
      }
    }
  }

  lemma NotAgain<T>(list: seq<T>, j: nat)
    requires j < |list| && multiset(list)[list[j]] <= multiset(list[..j])[list[j]] + 1
    ensures LastMention(list, list[j]) == j
  {
    assert list == list[..j] + [list[j]] + list[j + 1..];
    assert multiset(list) == multiset(list[..j]) + multiset{list[j]} + multiset(list[j + 1..]);
  }

  lemma LoweredAll<T(!new)>(before: map<T, int>, list: seq<T>, now: map<T, int>, freed: seq<T>)
    requires Lowered(before, multiset(list), now, freed) && forall x :: x in list ==> x in before
    ensures forall x :: x in now ==> now[x] == before[x] - multiset(list)[x]
    ensures NoDup(freed)
    ensures forall x :: x in freed <==> x in list && now[x] == 0
  {
    hide NoDup;
  }

  lemma NodesOfExtended<T>(pairs: seq<(T, T)>, parent: T, child: T)
    ensures FromPairs(pairs + [(parent, child)]).nodes == FromPairs(pairs).nodes + {parent, child}
  {
    var more := pairs + [(parent, child)];
    forall x | x in FromPairs(pairs).nodes + {parent, child} ensures x in FromPairs(more).nodes {
      if x in FromPairs(pairs).nodes {
        var p :| p in pairs && (p.0 == x || p.1 == x);
        assert p in more;
      } else {
        assert (parent, child) in more;
      }
    }
  }

  lemma {:induction false} CountWider<T>(pairs: seq<(T, T)>, S: set<T>, S': set<T>, x: T)
    requires S <= S' && forall p :: p in pairs ==> p.0 in S
    ensures CountFrom(pairs, S, x) == CountFrom(pairs, S', x)
  {
    if pairs != [] {
      CountWider(pairs[..|pairs| - 1], S, S', x);
    }
  }

  lemma TallyEmpty<T>()
    ensures Tally<T>(FromPairs([]), FromPairs([]).nodes, map[], map[])
  {
  }

  lemma TallyAddPair<T>(pairs: seq<(T, T)>, parent: T, child: T,
                        np: map<T, int>, ch: map<T, seq<T>>, np': map<T, int>)
    requires Tally(FromPairs(pairs), FromPairs(pairs).nodes, np, ch)
    requires np'.Keys == np.Keys + {parent, child}
    requires forall x :: x in np' ==> np'[x] == (if x in np then np[x] else 0) + if x == child then 1 else 0
    ensures Tally(FromPairs(pairs + [(parent, child)]), FromPairs(pairs + [(parent, child)]).nodes,
                  np', ch[parent := ChildList(ch, parent) + [child]])
  {
    var g, g' := FromPairs(pairs), FromPairs(pairs + [(parent, child)]);
    var ch' := ch[parent := ChildList(ch, parent) + [child]];
    NodesOfExtended(pairs, parent, child);
    hide FromPairs;
    assert g'.pairs[..|g'.pairs| - 1] == pairs;
    forall x | x in g'.nodes
      ensures np'[x] == CountFrom(g'.pairs, g'.nodes, x)
      ensures ChildList(ch', x) == ChildrenOf(g'.pairs, x)
    {
      CountWider(pairs, g.nodes, g'.nodes, x);
      CountZeroIff(g, g.nodes, x);
      if x !in g.nodes && ChildrenOf(pairs, x) != [] {
        ChildrenAreEdges(g, x, ChildrenOf(pairs, x)[0]);
      }
    }
  }

  // A child of a live element is live, and its count covers every mention in the child list.
  lemma ReleaseBounds<T>(g: Graph<T>, live: set<T>, np: map<T, int>, ch: map<T, seq<T>>, parent: T)
    requires Tally(g, live, np, ch) && parent in live && np[parent] == 0
    ensures forall x :: x in ChildList(ch, parent) ==>
              x in live - {parent} && np[x] >= multiset(ChildList(ch, parent))[x]
    ensures forall x :: x in ChildList(ch, parent) <==> (parent, x) in g.pairs
  {
    CountZeroIff(g, live, parent);
    forall x
      ensures x in ChildList(ch, parent) <==> (parent, x) in g.pairs
      ensures x in ChildList(ch, parent) ==>
                x in live - {parent} && np[x] >= multiset(ChildList(ch, parent))[x]
    {
      ChildrenAreEdges(g, parent, x);
      CountSplit(g.pairs, live, parent, x);
      if (parent, x) in g.pairs {
        assert HasParentIn(g, live, x);
      }
    }
  }

  lemma TallyRelease<T>(g: Graph<T>, live: set<T>, np: map<T, int>, ch: map<T, seq<T>>, parent: T, np': map<T, int>)
    requires Tally(g, live, np, ch) && parent in live && np[parent] == 0
    requires np'.Keys == live - {parent}
    requires forall x :: x in np' ==> np'[x] == np[x] - multiset(ChildList(ch, parent))[x]
    ensures Tally(g, live - {parent}, np', ch - {parent})
  {
    var live' := live - {parent};
    forall x | x in live' ensures np'[x] == CountFrom(g.pairs, live', x) {
      CountSplit(g.pairs, live, parent, x);
    }
    CountZeroIff(g, live, parent);
    hide CountFrom, ChildrenOf;
    forall x | x in g.nodes && x !in live' ensures !HasParentIn(g, live', x) {
      FewerParents(g, live, parent, x);
    }
  }

  lemma FewerParents<T>(g: Graph<T>, live: set<T>, parent: T, x: T)
    requires !HasParentIn(g, live, x)
    ensures !HasParentIn(g, live - {parent}, x)
  {
  }

  lemma ParentlessIsLevel<T>(g: Graph<T>, k: nat, np: map<T, int>, ch: map<T, seq<T>>)
    requires Tally(g, Deep(g, k), np, ch)
    ensures (set x | x in np && np[x] == 0) == Level(g, k)
  {
    DeepShrinks(g, k, k + 1);
    forall x | x in Deep(g, k) ensures np[x] == 0 <==> x !in Deep(g, k + 1) {
      CountZeroIff(g, Deep(g, k), x);
    }
  }

  lemma DeepZero<T>(g: Graph<T>)
    ensures Deep(g, 0) == g.nodes
  {
  }

  lemma LevelsProgress<T(!new)>(g: Graph<T>, n: nat, level: seq<T>)
    requires Enumerates(level, Level(g, n)) && level != []
    ensures Deep(g, n) - Elems(level) == Deep(g, n + 1)
    ensures |Deep(g, n + 1)| < |Deep(g, n)|
    ensures Level(g, n) != {}
  {
    DeepShrinks(g, n, n + 1);
    assert level[0] in level;
    SubsetCardinality(Deep(g, n + 1), Deep(g, n) - {level[0]});
  }

  lemma ResidueAfterLevels<T(!new)>(g: Graph<T>, n: nat)
    requires Level(g, n) == {}
    ensures Deep(g, n) == BelowCycles(g)
  {
    var L := Deep(g, n);
    DeepShrinks(g, 0, n);
    forall x | x in L ensures HasParentIn(g, L, x) {
      assert x !in Level(g, n);
    }
    forall x | x in g.nodes - L ensures exists k: nat :: x in Level(g, k) {
      var k := DepthSearch(g, x, n);
    }
    ResidueIsBelowCycles(g, L);
  }

  // ---- what the sorts return

  // Every generation in turn, each listed once and none empty, until none is left.
  ghost predicate IsLevelling<T(!new)>(g: Graph<T>, levels: seq<seq<T>>) {
    && (forall k :: 0 <= k < |levels| ==> Level(g, k) != {} && Enumerates(levels[k], Level(g, k)))
    && Level(g, |levels|) == {}
  }

  // Everything that is not on or below a cycle, each once, parents before children, and by
  // non-decreasing depth.
  ghost predicate IsSorting<T(!new)>(g: Graph<T>, answer: seq<T>) {
    && Enumerates(answer, g.nodes - BelowCycles(g))
    && (forall i, p :: 0 <= i < |answer| && (p, answer[i]) in g.pairs ==> p in answer[..i])
    && (forall i, j :: 0 <= i < j < |answer| ==> Depth(g, answer[i]) <= Depth(g, answer[j]))
  }

  // The dictionaries that a CycleError carries: the stuck elements with the number of pairs that
  // reach them from stuck parents, and the child lists of the stuck elements.
  ghost predicate IsResidue<T(!new)>(g: Graph<T>, numParents: map<T, int>, children: map<T, seq<T>>) {
    && numParents.Keys == BelowCycles(g)
    && (forall x :: x in numParents ==> numParents[x] == CountFrom(g.pairs, BelowCycles(g), x) && numParents[x] > 0)
    && children.Keys <= numParents.Keys
    && (forall x :: x in numParents ==> ChildList(children, x) == ChildrenOf(g.pairs, x))
  }

  datatype SortResult<T> =
    | Sorted(answer: seq<T>)
    | CycleError(answer: seq<T>, numParents: map<T, int>, children: map<T, seq<T>>)

  datatype LevelsResult<T> =
    | Levels(levels: seq<seq<T>>)
    | LevelsCycleError(levels: seq<seq<T>>, numParents: map<T, int>, children: map<T, seq<T>>)

  lemma ResidueHasParents<T(!new)>(g: Graph<T>, np: map<T, int>, ch: map<T, seq<T>>)
    requires Tally(g, BelowCycles(g), np, ch)
    ensures IsResidue(g, np, ch)
    ensures np == map[] <==> Acyclic(g)
  {
    hide BelowCycles, Acyclic, OnCycle, Reaches;
    forall x | x in np ensures CountFrom(g.pairs, BelowCycles(g), x) > 0 {
      StuckHasParent(g, x);
      CountZeroIff(g, BelowCycles(g), x);
    }
    AcyclicIff(g);
    assert np == map[] <==> np.Keys == {};
  }

  // The comment in the source, that every leftover element has a child, holds exactly when every
  // leftover element reaches a cycle.
  lemma LeftoversHaveChildrenIff<T(!new)>(g: Graph<T>, np: map<T, int>, ch: map<T, seq<T>>)
    requires Closed(g) && IsResidue(g, np, ch)
    ensures (forall x :: x in np ==> ChildList(ch, x) != []) <==> (forall x :: x in np ==> ReachesCycle(g, x))
  {
    hide *;
    ChildrenBelowCyclesIff(g);
    ResidueKeys(g, np, ch);
    forall x | x in np ensures ChildList(ch, x) != [] <==> HasChildIn(g, BelowCycles(g), x) {
      LeftoverChild(g, np, ch, x);
    }
    assert forall x :: x in np <==> x in BelowCycles(g);
  }

  lemma ResidueKeys<T(!new)>(g: Graph<T>, np: map<T, int>, ch: map<T, seq<T>>)
    requires IsResidue(g, np, ch)
    ensures np.Keys == BelowCycles(g)
    ensures forall x :: x in np ==> ChildList(ch, x) == ChildrenOf(g.pairs, x)
  {
  }

  lemma LeftoverChild<T(!new)>(g: Graph<T>, np: map<T, int>, ch: map<T, seq<T>>, x: T)
    requires Closed(g) && IsResidue(g, np, ch) && x in np
    ensures ChildList(ch, x) != [] <==> HasChildIn(g, BelowCycles(g), x)
  {
    assert x in BelowCycles(g) && ChildList(ch, x) == ChildrenOf(g.pairs, x);
    hide IsResidue, BelowCycles, ChildList;
    if ChildrenOf(g.pairs, x) != [] {
      var child := ChildrenOf(g.pairs, x)[0];
      ChildrenAreEdges(g, x, child);
      ChildBelowCycle(g, x, child);
    }
    if child :| child in BelowCycles(g) && (x, child) in g.pairs {
      ChildrenAreEdges(g, x, child);
    }
  }

  // For the pairs (1, 2), (2, 1) and (2, 3) the sort fails, and 3 is left over without a child.
  lemma LeftoverWithoutChild(np: map<int, int>, ch: map<int, seq<int>>)
    requires IsResidue(FromPairs([(1, 2), (2, 1), (2, 3)]), np, ch)
    ensures !Acyclic(FromPairs([(1, 2), (2, 1), (2, 3)])) && 3 in np && ChildList(ch, 3) == []
  {
    var pairs := [(1, 2), (2, 1), (2, 3)];
    assert (1, 2) == pairs[0] && (2, 1) == pairs[1] && (2, 3) == pairs[2];
    hide *;
    assert forall p :: p in pairs ==> p.0 != 3;
    ChildlessLeftover(FromPairs(pairs), 1, 2, 3, np, ch);
  }

  lemma ChildlessLeftover<T(!new)>(g: Graph<T>, a: T, b: T, c: T, np: map<T, int>, ch: map<T, seq<T>>)
    requires Closed(g) && (a, b) in g.pairs && (b, a) in g.pairs && (b, c) in g.pairs
    requires IsResidue(g, np, ch) && forall p :: p in g.pairs ==> p.0 != c
    ensures !Acyclic(g) && c in np && ChildList(ch, c) == []
  {
    hide *;
    TailOfCycle(g, a, b, c);
    AcyclicIff(g);
    ResidueKeys(g, np, ch);
    if ChildrenOf(g.pairs, c) != [] {
      ChildrenAreEdges(g, c, ChildrenOf(g.pairs, c)[0]);
    }
  }

  lemma TailOfCycle<T(!new)>(g: Graph<T>, a: T, b: T, c: T)
    requires Closed(g) && (a, b) in g.pairs && (b, a) in g.pairs && (b, c) in g.pairs
    ensures c in BelowCycles(g)
  {
    assert (a, b).1 in g.nodes && (b, a).1 in g.nodes && (b, c).1 in g.nodes;
    assert Connects(g, b, [b, a, b], b) && |[b, a, b]| >= 2;
    assert Connects(g, b, [b, c], c);
  }

  lemma StuckHasParent<T(!new)>(g: Graph<T>, x: T)
    requires x in BelowCycles(g)
    ensures HasParentIn(g, BelowCycles(g), x)
  {
    var y :| y in g.nodes && OnCycle(g, y) && Reaches(g, y, x);
    var tail :| Connects(g, y, tail, x);
    var loop :| |loop| >= 2 && Connects(g, y, loop, y);
    hide OnCycle, BelowCycles;
    LastParentStuck(g, y, if |tail| == 1 then loop else tail);
  }

  lemma LastParentStuck<T(!new)>(g: Graph<T>, y: T, c: seq<T>)
    requires |c| >= 2 && OnCycle(g, y) && Connects(g, y, c, c[|c| - 1])
    ensures HasParentIn(g, BelowCycles(g), c[|c| - 1])
  {
    hide OnCycle;
    var n := |c| - 1;
    assert Connects(g, y, c[..n], c[n - 1]);
    assert Reaches(g, y, c[n - 1]);
    assert c[n - 1] in BelowCycles(g) && (c[n - 1], c[n]) in g.pairs;
  }

  // What holds of the growing answer when its first i elements have been released.
  ghost predicate Growing<T(!new)>(g: Graph<T>, answer: seq<T>, depths: seq<nat>, i: nat)
    ensures Growing(g, answer, depths, i) ==> i <= |answer| == |depths| && NoDup(answer)
  {
    && i <= |answer| == |depths|
    && NoDup(answer)
    && (forall j :: 0 <= j < |answer| ==> answer[j] in Level(g, depths[j]))
    && (forall j, p :: 0 <= j < |answer| && (p, answer[j]) in g.pairs ==> p in answer[..i] && p in answer[..j])
    && (forall j, k :: 0 <= j < k < |answer| ==> depths[j] <= depths[k])
    && (forall j, k :: i <= j < k < |answer| ==> depths[k] <= depths[j] + 1)
  }

  // The elements not yet released, with their counts; those in the answer wait for their release.
  ghost predicate Pending<T(!new)>(g: Graph<T>, answer: seq<T>, i: nat, live: set<T>, np: map<T, int>)
    requires i <= |answer| && live == np.Keys
  {
    && (forall x :: x in live <==> x in g.nodes && x !in answer[..i])
    && (forall x :: x in live ==> (np[x] == 0 <==> x in answer))
    && (forall x :: x in answer ==> x in g.nodes)
  }

  method Topsort<T(==,!new)>(pairlist: seq<(T, T)>) returns (r: SortResult<T>)
    ensures r.Sorted? <==> Acyclic(FromPairs(pairlist))
    ensures IsSorting(FromPairs(pairlist), r.answer)
    ensures ByRelease(FromPairs(pairlist), r.answer)
    ensures r.CycleError? ==> IsResidue(FromPairs(pairlist), r.numParents, r.children)
  {
    hide Tally, Growing, Pending, Acyclic, IsSorting, IsResidue, FromPairs, Enumerates, ByRelease, ByLastMention;
    ghost var g := FromPairs(pairlist);
    var t := new Tables<T>(pairlist);
    var answer := t.Parentless();
    ghost var depths := Repeat(0, |answer|);
    ghost var live := g.nodes;
    RootsStart(g, answer, depths, t.numParents, t.children);
    var i := 0;
    while i < |answer|
      invariant fresh(t)
      invariant i <= |answer|
      invariant Tally(g, live, t.numParents, t.children)
      invariant Growing(g, answer, depths, i) && ByRelease(g, answer)
      invariant live == t.numParents.Keys && Pending(g, answer, i, live, t.numParents)
      decreases |live|
    {
      ghost var np := t.numParents;
      var parent := answer[i];
      NextToRelease(g, answer, depths, i, live, np);
      var freed := t.Release(parent, g, live);
      PendingStep(g, answer, i, live, np, freed, t.numParents);
      ReleaseStep(g, answer, depths, i, live, np, freed, t.numParents, t.children);
      GrowingStep(g, answer, depths, i, live, np, freed, t.numParents, t.children);
      answer, depths := answer + freed, depths + Repeat(depths[i] + 1, |freed|);
      live := live - {parent};
      i := i + 1;
    }
    assert answer[..i] == answer;
    SortingDone(g, answer, depths, live, t.numParents, t.children);
    ResidueHasParents(g, t.numParents, t.children);
    if t.numParents != map[] {
      r := CycleError(answer, t.numParents, t.children);
    } else {
      r := Sorted(answer);
    }
  }

  ghost function Repeat(d: nat, n: nat): (s: seq<nat>)
    ensures |s| == n && forall j :: 0 <= j < n ==> s[j] == d
  {
    seq(n, _ => d)
  }

  lemma NextToRelease<T(!new)>(g: Graph<T>, answer: seq<T>, depths: seq<nat>, i: nat, live: set<T>, np: map<T, int>)
    requires i < |answer| && live == np.Keys && Growing(g, answer, depths, i) && Pending(g, answer, i, live, np)
    ensures answer[i] in live && np[answer[i]] == 0
  {
    assert answer[i] in answer && answer[i] !in answer[..i];
  }

  lemma RootsStart<T(!new)>(g: Graph<T>, answer: seq<T>, depths: seq<nat>, np: map<T, int>, ch: map<T, seq<T>>)
    requires Tally(g, g.nodes, np, ch)
    requires Enumerates(answer, set x | x in np && np[x] == 0)
    requires depths == Repeat(0, |answer|)
    ensures Growing(g, answer, depths, 0) && Pending(g, answer, 0, g.nodes, np) && ByRelease(g, answer)
  {
    forall j | 0 <= j < |answer|
      ensures answer[j] in Level(g, 0) && forall p :: (p, answer[j]) !in g.pairs
    {
      var x := answer[j];
      assert x in answer;
      CountZeroIff(g, g.nodes, x);
      forall p ensures (p, x) !in g.pairs {
        assert (p, x) in g.pairs ==> HasParentIn(g, g.nodes, x);
      }
    }
  }

  lemma PendingStep<T(!new)>(g: Graph<T>, answer: seq<T>, i: nat, live: set<T>, np: map<T, int>,
                             freed: seq<T>, np': map<T, int>)
    requires i < |answer| && live == np.Keys && Pending(g, answer, i, live, np)
    requires answer[i] in live && np'.Keys == live - {answer[i]}
    requires forall x :: x in freed ==> x in np' && np'[x] == 0
    requires forall x :: x in np' && x !in freed ==> (np'[x] == 0 <==> np[x] == 0)
    ensures Pending(g, answer + freed, i + 1, live - {answer[i]}, np')
  {
    assert (answer + freed)[..i + 1] == answer[..i] + [answer[i]];
  }

  lemma GrowingStep<T(!new)>(g: Graph<T>, answer: seq<T>, depths: seq<nat>, i: nat, live: set<T>, np: map<T, int>,
                             freed: seq<T>, np': map<T, int>, ch': map<T, seq<T>>)
    requires Closed(g) && i < |answer| && Growing(g, answer, depths, i)
    requires live == np.Keys && Pending(g, answer, i, live, np)
    requires Tally(g, live - {answer[i]}, np', ch') && NoDup(freed)
    requires forall x :: x in freed ==> x in np' && (answer[i], x) in g.pairs && np'[x] == 0
    ensures Growing(g, answer + freed, depths + Repeat(depths[i] + 1, |freed|), i + 1)
  {
    hide Level, Tally;
    forall x | x in freed
      ensures x in Level(g, depths[i] + 1) && x !in answer
      ensures forall p :: (p, x) in g.pairs ==> p in answer[..i + 1]
    {
      FreedDepth(g, answer, depths, i, live, x, np', ch');
    }
    GrowingAppend(g, answer, depths, i, freed);
  }

  lemma GrowingAppend<T(!new)>(g: Graph<T>, answer: seq<T>, depths: seq<nat>, i: nat, freed: seq<T>)
    requires i < |answer| && Growing(g, answer, depths, i) && NoDup(freed)
    requires forall x :: x in freed ==> x in Level(g, depths[i] + 1) && x !in answer
    requires forall x, p :: x in freed && (p, x) in g.pairs ==> p in answer[..i + 1]
    ensures Growing(g, answer + freed, depths + Repeat(depths[i] + 1, |freed|), i + 1)
  {
    hide Level;
    var all, all' := answer + freed, depths + Repeat(depths[i] + 1, |freed|);
    assert all[..i + 1] == answer[..i + 1] == answer[..i] + [answer[i]];
    forall j, p | 0 <= j < |all| && (p, all[j]) in g.pairs ensures p in all[..i + 1] && p in all[..j] {
      if j < |answer| {
        assert all[..j] == answer[..j];
      } else {
        assert all[j] in freed;
        var k :| 0 <= k < i + 1 && answer[k] == p;
        assert all[..j][k] == p;
      }
    }
    forall j | |answer| <= j < |all| ensures all[j] in freed {
    }
    forall j, k | 0 <= j < k < |all| ensures all[j] != all[k] {
    }
  }

  ghost predicate HasParent<T(!new)>(g: Graph<T>, x: T) {
    exists p :: (p, x) in g.pairs
  }

  // The parent of answer[j] that comes last in the answer is at place a.
  ghost predicate LatestParent<T>(g: Graph<T>, answer: seq<T>, j: nat, a: nat)
    requires j < |answer|
  {
    && a < |answer| && (answer[a], answer[j]) in g.pairs
    && forall b :: a < b < |answer| ==> (answer[b], answer[j]) !in g.pairs
  }

  // Where the pairs mention x last among the children of p.
  ghost function Mention<T>(g: Graph<T>, p: T, x: T): (k: nat)
    requires (p, x) in g.pairs
  {
    ChildrenAreEdges(g, p, x);
    LastMention(ChildrenOf(g.pairs, p), x)
  }

  // First what has no parents; then each element in turn when its latest parent is released, and
  // among those with the same latest parent in the order in which the pairs mention them last.
  ghost predicate ByRelease<T(!new)>(g: Graph<T>, answer: seq<T>) {
    && (forall i, j :: 0 <= i < j < |answer| && HasParent(g, answer[i]) ==> HasParent(g, answer[j]))
    && (forall i, j :: 0 <= i < j < |answer| ==> ReleasedFirst(g, answer, i, j))
  }

  ghost predicate ReleasedFirst<T>(g: Graph<T>, answer: seq<T>, i: nat, j: nat)
    requires i < |answer| && j < |answer|
  {
    forall a: nat, b: nat :: LatestParent(g, answer, i, a) && LatestParent(g, answer, j, b) ==>
      a < b || (a == b && Mention(g, answer[a], answer[i]) < Mention(g, answer[a], answer[j]))
  }

  lemma ReleaseStep<T(!new)>(g: Graph<T>, answer: seq<T>, depths: seq<nat>, i: nat, live: set<T>, np: map<T, int>,
                             freed: seq<T>, np': map<T, int>, ch': map<T, seq<T>>)
    requires Closed(g) && i < |answer| && Growing(g, answer, depths, i) && ByRelease(g, answer)
    requires live == np.Keys && Pending(g, answer, i, live, np)
    requires Tally(g, live - {answer[i]}, np', ch') && NoDup(freed)
    requires forall x :: x in freed ==> x in np' && (answer[i], x) in g.pairs && np'[x] == 0
    requires ByLastMention(ChildrenOf(g.pairs, answer[i]), |ChildrenOf(g.pairs, answer[i])|, freed)
    ensures ByRelease(g, answer + freed)
  {
    hide Level, Tally, ByRelease, ByLastMention;
    forall x | x in freed
      ensures x !in answer
      ensures forall p :: (p, x) in g.pairs ==> p in answer[..i + 1]
    {
      FreedDepth(g, answer, depths, i, live, x, np', ch');
    }
    ReleaseAppend(g, answer, i, freed);
  }

  lemma ReleaseAppend<T(!new)>(g: Graph<T>, answer: seq<T>, i: nat, freed: seq<T>)
    requires Closed(g) && i < |answer| && NoDup(answer) && ByRelease(g, answer)
    requires forall j, p :: 0 <= j < |answer| && (p, answer[j]) in g.pairs ==> p in answer[..i]
    requires forall x :: x in freed ==> x !in answer && (answer[i], x) in g.pairs
    requires forall x, p :: x in freed && (p, x) in g.pairs ==> p in answer[..i + 1]
    requires ByLastMention(ChildrenOf(g.pairs, answer[i]), |ChildrenOf(g.pairs, answer[i])|, freed)
    ensures ByRelease(g, answer + freed)
  {
    var all := answer + freed;
    forall j, k | 0 <= j < k < |all| && HasParent(g, all[j]) ensures HasParent(g, all[k]) {
      if k >= |answer| {
        assert all[k] in freed;
      }
    }
    forall j, k | 0 <= j < k < |all| ensures ReleasedFirst(g, all, j, k) {
      forall a: nat, b: nat | LatestParent(g, all, j, a) && LatestParent(g, all, k, b)
        ensures a < b || (a == b && Mention(g, all[a], all[j]) < Mention(g, all[a], all[k]))
      {
        LatestBefore(g, answer, i, freed, j, a);
        LatestBefore(g, answer, i, freed, k, b);
        if k < |answer| {
          assert ReleasedFirst(g, answer, j, k);
        } else if j >= |answer| {
          hide ByRelease, LatestParent;
          assert freed[j - |answer|] == all[j] && freed[k - |answer|] == all[k];
        }
      }
    }
  }

  // What has been released before answer[i] has its latest parent before it; what is freed now has it there.
  lemma LatestBefore<T(!new)>(g: Graph<T>, answer: seq<T>, i: nat, freed: seq<T>, j: nat, a: nat)
    requires i < |answer| && NoDup(answer) && j < |answer + freed| && LatestParent(g, answer + freed, j, a)
    requires forall j, p :: 0 <= j < |answer| && (p, answer[j]) in g.pairs ==> p in answer[..i]
    requires forall x :: x in freed ==> x !in answer && (answer[i], x) in g.pairs
    requires forall x, p :: x in freed && (p, x) in g.pairs ==> p in answer[..i + 1]
    ensures if j < |answer| then a < i && LatestParent(g, answer, j, a) else a == i
  {
    var all := answer + freed;
    if j < |answer| {
      assert all[a] in answer[..i];
      PlaceOf(answer, freed, a, i);
      assert forall b :: 0 <= b < |answer| ==> all[b] == answer[b];
    } else {
      assert all[j] in freed && all[a] in answer[..i + 1];
      PlaceOf(answer, freed, a, i + 1);
      assert (all[i], all[j]) in g.pairs;
    }
  }

  lemma PlaceOf<T(!new)>(answer: seq<T>, freed: seq<T>, a: nat, i: nat)
    requires i <= |answer| && NoDup(answer) && a < |answer + freed| && (answer + freed)[a] in answer[..i]
    requires forall x :: x in freed ==> x !in answer
    ensures a < i
  {
    var k :| 0 <= k < i && answer[k] == (answer + freed)[a];
    var all := answer + freed;
    forall b | |answer| <= b < |all| ensures all[b] !in answer {
      assert all[b] in freed;
    }
  }

  // A child freed by releasing answer[i] lies one deeper, and all its parents have been released.
  lemma FreedDepth<T(!new)>(g: Graph<T>, answer: seq<T>, depths: seq<nat>, i: nat, live: set<T>, x: T,
                            np': map<T, int>, ch': map<T, seq<T>>)
    requires Closed(g) && i < |answer| && Growing(g, answer, depths, i)
    requires forall y :: y in live <==> y in g.nodes && y !in answer[..i]
    requires Tally(g, live - {answer[i]}, np', ch')
    requires x in np' && (answer[i], x) in g.pairs && np'[x] == 0
    ensures x in Level(g, depths[i] + 1) && x !in answer
    ensures forall p :: (p, x) in g.pairs ==> p in answer[..i + 1]
  {
    hide Level;
    var live' := live - {answer[i]};
    CountZeroIff(g, live', x);
    forall p | (p, x) in g.pairs
      ensures p in answer[..i + 1]
      ensures exists e :: 0 <= e <= depths[i] && p in Level(g, e)
    {
      assert p !in live' by {
        assert p in live' ==> HasParentIn(g, live', x);
      }
      assert answer[..i + 1] == answer[..i] + [answer[i]];
      var k :| 0 <= k < i + 1 && answer[k] == p;
      assert p in Level(g, depths[k]);
    }
    LevelStep(g, x, answer[i], depths[i]);
    NotYetListed(g, answer, depths, i, x);
  }

  // The answer holds no child of an element that is still to be released.
  lemma NotYetListed<T(!new)>(g: Graph<T>, answer: seq<T>, depths: seq<nat>, i: nat, x: T)
    requires i < |answer| && Growing(g, answer, depths, i) && (answer[i], x) in g.pairs
    ensures x !in answer
  {
    var a, released := answer[i], answer[..i];
    forall j | 0 <= j < |answer| ensures answer[j] != x {
      assert (a, answer[j]) in g.pairs ==> a in released;
    }
  }

  lemma SortingDone<T(!new)>(g: Graph<T>, answer: seq<T>, depths: seq<nat>, live: set<T>,
                             np: map<T, int>, ch: map<T, seq<T>>)
    requires Tally(g, live, np, ch)
    requires Growing(g, answer, depths, |answer|) && Pending(g, answer, |answer|, live, np)
    ensures live == BelowCycles(g) && IsSorting(g, answer)
  {
    hide Level, BelowCycles, Depth;
    assert answer[..|answer|] == answer;
    forall x | x in live ensures HasParentIn(g, live, x) {
      CountZeroIff(g, live, x);
    }
    forall x | x in g.nodes - live ensures exists k: nat :: x in Level(g, k) {
      var j :| 0 <= j < |answer| && answer[j] == x;
      assert x in Level(g, depths[j]);
    }
    ResidueIsBelowCycles(g, live);
    forall j | 0 <= j < |answer| ensures depths[j] == Depth(g, answer[j]) {
      assert answer[j] in answer;
      LevelUnique(g, answer[j], depths[j], Depth(g, answer[j]));
    }
  }

  method TopsortLevels<T(==,!new)>(pairlist: seq<(T, T)>) returns (r: LevelsResult<T>)
    ensures r.Levels? <==> Acyclic(FromPairs(pairlist))
    ensures IsLevelling(FromPairs(pairlist), r.levels)
    ensures r.LevelsCycleError? ==> IsResidue(FromPairs(pairlist), r.numParents, r.children)
  {
    var t := new Tables<T>(pairlist);
    var levels := t.TopsortLevelsCore(FromPairs(pairlist));
    ResidueHasParents(FromPairs(pairlist), t.numParents, t.children);
    if t.numParents != map[] {
      r := LevelsCycleError(levels, t.numParents, t.children);
    } else {
      r := Levels(levels);
    }
  }

  // ---- the two sorts agree

  // Cuts a list of sorted elements wherever the depth changes.
  ghost function CutByDepth<T(!new)>(g: Graph<T>, s: seq<T>): seq<seq<T>>
  {
    if s == [] then []
    else
      var n := |s| - 1;
      var cut := CutByDepth(g, s[..n]);
      if n > 0 && Depth(g, s[n - 1]) == Depth(g, s[n]) && cut != []
      then cut[..|cut| - 1] + [cut[|cut| - 1] + [s[n]]]
      else cut + [[s[n]]]
  }

  // The pieces hold the elements of s by depth: piece k those of depth k.
  ghost predicate PiecesByDepth<T(!new)>(g: Graph<T>, s: seq<T>, cut: seq<seq<T>>) {
    && |cut| == (if s == [] then 0 else Depth(g, s[|s| - 1]) + 1)
    && forall k, y :: 0 <= k < |cut| ==> (y in cut[k] <==> y in s && Depth(g, y) == k)
  }

  lemma {:induction false} CutOfPrefix<T(!new)>(g: Graph<T>, answer: seq<T>, n: nat)
    requires Closed(g) && IsSorting(g, answer) && n <= |answer|
    ensures PiecesByDepth(g, answer[..n], CutByDepth(g, answer[..n]))
  {
    hide IsSorting, Depth, Closed;
    if n > 0 {
      var s := answer[..n];
      assert s[..n - 1] == answer[..n - 1];
      CutOfPrefix(g, answer, n - 1);
      NextDepth(g, answer, n - 1);
      var d := if n == 1 then 0 else Depth(g, s[n - 2]) + 1;
      forall y | y in s[..n - 1] ensures Depth(g, y) < d {
        var i :| 0 <= i < n - 1 && s[i] == y;
        SortedByDepth(g, answer, i, n - 2);
      }
      if n > 1 { SortedByDepth(g, answer, n - 2, n - 1); }
      PiecesStep(g, s, CutByDepth(g, s[..n - 1]), d);
    }
  }

  lemma PiecesStep<T(!new)>(g: Graph<T>, s: seq<T>, cut: seq<seq<T>>, d: nat)
    requires s != [] && PiecesByDepth(g, s[..|s| - 1], cut) && cut == CutByDepth(g, s[..|s| - 1])
    requires d == if |s| == 1 then 0 else Depth(g, s[|s| - 2]) + 1
    requires forall y :: y in s[..|s| - 1] ==> Depth(g, y) < d
    requires Depth(g, s[|s| - 1]) == d || (|s| > 1 && Depth(g, s[|s| - 1]) == d - 1)
    ensures PiecesByDepth(g, s, CutByDepth(g, s))
  {
    hide Depth;
    var n := |s| - 1;
    var front, x := s[..n], s[n];
    assert s == front + [x];
    if n > 0 && Depth(g, s[n - 1]) == Depth(g, x) {
      assert CutByDepth(g, s) == cut[..|cut| - 1] + [cut[|cut| - 1] + [x]];
      hide CutByDepth;
      SamePiece(g, front, x, cut);
    } else {
      assert CutByDepth(g, s) == cut + [[x]];
      hide CutByDepth;
      NewPiece(g, front, x, cut);
    }
  }

  lemma SamePiece<T(!new)>(g: Graph<T>, front: seq<T>, x: T, cut: seq<seq<T>>)
    requires PiecesByDepth(g, front, cut) && front != [] && Depth(g, x) == Depth(g, front[|front| - 1])
    ensures PiecesByDepth(g, front + [x], cut[..|cut| - 1] + [cut[|cut| - 1] + [x]])
  {
    hide Depth;
  }

  lemma NewPiece<T(!new)>(g: Graph<T>, front: seq<T>, x: T, cut: seq<seq<T>>)
    requires PiecesByDepth(g, front, cut) && Depth(g, x) == |cut|
    requires forall y :: y in front ==> Depth(g, y) < |cut|
    ensures PiecesByDepth(g, front + [x], cut + [[x]])
  {
    hide Depth;
  }

  lemma SortedByDepth<T(!new)>(g: Graph<T>, answer: seq<T>, i: nat, j: nat)
    requires IsSorting(g, answer) && i <= j < |answer|
    ensures Depth(g, answer[i]) <= Depth(g, answer[j])
  {
  }

  lemma DepthBelowLevels<T(!new)>(g: Graph<T>, levels: seq<seq<T>>, x: T)
    requires IsLevelling(g, levels) && x in g.nodes - BelowCycles(g)
    ensures Depth(g, x) < |levels|
  {
    var d, n := Depth(g, x), |levels|;
    if n <= d {
      DeepShrinks(g, n, d);
      ResidueAfterLevels(g, n);
    }
  }

  // Depths in a sorted list start at zero and grow by at most one.
  lemma NextDepth<T(!new)>(g: Graph<T>, answer: seq<T>, n: nat)
    requires Closed(g) && IsSorting(g, answer) && n < |answer|
    ensures Depth(g, answer[n]) <= if n == 0 then 0 else Depth(g, answer[n - 1]) + 1
  {
    hide IsSorting, Depth, Level;
    var x := answer[n];
    var d := Depth(g, x);
    SortedHasDepth(g, answer, n);
    if d > 0 {
      var p := ParentAbove(g, x, d);
      var j := ParentEarlier(g, answer, n, p);
      SortedHasDepth(g, answer, j);
      LevelUnique(g, p, d - 1, Depth(g, p));
      SortedByDepth(g, answer, j, n - 1);
    }
  }

  lemma SortedHasDepth<T(!new)>(g: Graph<T>, answer: seq<T>, n: nat)
    requires IsSorting(g, answer) && n < |answer|
    ensures answer[n] in Level(g, Depth(g, answer[n]))
  {
    assert answer[n] in answer;
  }

  lemma ParentEarlier<T(!new)>(g: Graph<T>, answer: seq<T>, n: nat, p: T) returns (j: nat)
    requires IsSorting(g, answer) && n < |answer| && (p, answer[n]) in g.pairs
    ensures j < n && answer[j] == p
  {
    j :| 0 <= j < n && answer[j] == p;
  }

  lemma ParentAbove<T(!new)>(g: Graph<T>, x: T, d: nat) returns (p: T)
    requires Closed(g) && x in Level(g, d) && d > 0
    ensures (p, x) in g.pairs && p in Level(g, d - 1)
  {
    p :| p in Deep(g, d - 1) && (p, x) in g.pairs;
    assert x in g.nodes;
    assert p in Deep(g, d) ==> HasParentIn(g, Deep(g, d), x);
  }

  // Cut where the depth changes, the answer of Topsort has the element sets of the levels of
  // TopsortLevels, in the same order.
  lemma SortsAgree<T(!new)>(g: Graph<T>, answer: seq<T>, levels: seq<seq<T>>)
    requires Closed(g) && IsSorting(g, answer) && IsLevelling(g, levels)
    ensures var cut := CutByDepth(g, answer);
      |cut| == |levels| && forall k :: 0 <= k < |levels| ==> Elems(cut[k]) == Elems(levels[k])
  {
    hide *;
    CutOfPrefix(g, answer, |answer|);
    assert answer[..|answer|] == answer;
    var cut := CutByDepth(g, answer);
    PieceCount(g, answer, levels, cut);
    forall k | 0 <= k < |levels| ensures Elems(cut[k]) == Elems(levels[k]) {
      PieceIsLevel(g, answer, levels, cut, k);
    }
  }

  lemma PieceCount<T(!new)>(g: Graph<T>, answer: seq<T>, levels: seq<seq<T>>, cut: seq<seq<T>>)
    requires Closed(g) && IsSorting(g, answer) && IsLevelling(g, levels) && PiecesByDepth(g, answer, cut)
    ensures |cut| == |levels|
  {
    hide IsSorting, Depth, Level, BelowCycles;
    if |levels| > 0 {
      var x :| x in Level(g, |levels| - 1);
      LevelByDepth(g, answer, |levels| - 1);
      LastIsDeepest(g, answer, x);
    }
    if |answer| > 0 {
      LastBelowLevels(g, answer, levels);
    }
  }

  lemma PieceIsLevel<T(!new)>(g: Graph<T>, answer: seq<T>, levels: seq<seq<T>>, cut: seq<seq<T>>, k: nat)
    requires IsSorting(g, answer) && IsLevelling(g, levels) && PiecesByDepth(g, answer, cut)
    requires k < |levels| == |cut|
    ensures Elems(cut[k]) == Elems(levels[k])
  {
    hide IsSorting, Depth, Level, BelowCycles;
    LevelByDepth(g, answer, k);
  }

  lemma LastBelowLevels<T(!new)>(g: Graph<T>, answer: seq<T>, levels: seq<seq<T>>)
    requires IsSorting(g, answer) && IsLevelling(g, levels) && answer != []
    ensures Depth(g, answer[|answer| - 1]) < |levels|
  {
    assert answer[|answer| - 1] in answer;
    DepthBelowLevels(g, levels, answer[|answer| - 1]);
  }

  lemma LastIsDeepest<T(!new)>(g: Graph<T>, answer: seq<T>, x: T)
    requires IsSorting(g, answer) && x in answer
    ensures Depth(g, x) <= Depth(g, answer[|answer| - 1])
  {
    var j :| 0 <= j < |answer| && answer[j] == x;
  }

  lemma LevelByDepth<T(!new)>(g: Graph<T>, answer: seq<T>, k: nat)
    requires IsSorting(g, answer)
    ensures Level(g, k) == set x | x in answer && Depth(g, x) == k
  {
    forall x | x in Level(g, k) ensures x in answer && Depth(g, x) == k {
      DeepShrinks(g, 0, k);
      if x in BelowCycles(g) {
        BelowCycleIsBottomless(g, x, k + 1);
      }
      assert x in Elems(answer);
      LevelUnique(g, x, k, Depth(g, x));
    }
  }
}
