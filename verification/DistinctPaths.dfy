/**
  When the configuration paths that are gathered are distinct. The program sorts a copy of its
  output and removes repeated entries from that copy only, so that nothing else removes them.
 */
module DistinctPaths {
  import opened Lists
  import opened ConfigPaths

  // The type at which a walk ends.
  ghost function End(g: TypeGraph, tid: TypeId, w: seq<nat>): TypeId
    requires IsWalk(g, tid, w)
    decreases |w|
  {
    if w == [] then tid else End(g, g.Steps(tid)[w[0]].target, w[1..])
  }

  // After the walk w, the steps i and j are the same, and lead to a type that was not met before.
  ghost predicate Doubled(g: TypeGraph, tid: TypeId, w: seq<nat>, i: nat, j: nat) {
    && IsWalk(g, tid, w)
    && i < j < |g.Steps(End(g, tid, w))| && g.Steps(End(g, tid, w))[i] == g.Steps(End(g, tid, w))[j]
    && RepeatFree(g, tid, w + [i])
  }

  // The first path element, with the slash that ends it, begins the second one.
  ghost predicate Overlap(a: string, b: string) {
    a + "/" <= b + "/"
  }

  // A path tells which step was taken, unless two steps of a type are the same.
  ghost predicate Readable(g: TypeGraph) {
    forall tid, i, j :: tid in g.types && 0 <= i < |g.Steps(tid)| && 0 <= j < |g.Steps(tid)| ==>
      Overlap(g.Steps(tid)[i].element, g.Steps(tid)[j].element) ==> g.Steps(tid)[i] == g.Steps(tid)[j]
  }

  // ---- walks and their paths

  lemma {:induction false} WalkOnward(g: TypeGraph, tid: TypeId, w: seq<nat>, i: nat)
    requires IsWalk(g, tid, w) && i < |g.Steps(End(g, tid, w))|
    ensures IsWalk(g, tid, w + [i])
    ensures Visits(g, tid, w + [i]) == Visits(g, tid, w) + [g.Steps(End(g, tid, w))[i].target]
    ensures Elements(g, tid, w + [i]) == Elements(g, tid, w) + [g.Steps(End(g, tid, w))[i].element]
    decreases |w|
  {
    hide TypeGraph.Steps, Visits, Elements;
    var v := w + [i];
    if w == [] {
      EmptyWalk(g, tid);
      EmptyWalk(g, g.Steps(tid)[i].target);
      assert v[1..] == [];
      StepElements(g, tid, v);
      assert [tid] + [g.Steps(tid)[i].target] == Visits(g, tid, []) + [g.Steps(tid)[i].target];
      assert [g.Steps(tid)[i].element] + [] == [] + [g.Steps(tid)[i].element];
    } else {
      WalkOnward(g, g.Steps(tid)[w[0]].target, w[1..], i);
      assert v[1..] == w[1..] + [i] && v[0] == w[0];
      StepElements(g, tid, v);
      StepElements(g, tid, w);
    }
  }

  lemma EmptyWalk(g: TypeGraph, tid: TypeId)
    ensures IsWalk(g, tid, []) && Visits(g, tid, []) == [tid] && Elements(g, tid, []) == []
  {
  }

  lemma {:induction false} PrefixOfWalk(g: TypeGraph, tid: TypeId, w: seq<nat>, v: seq<nat>)
    requires IsWalk(g, tid, v) && w <= v
    ensures IsWalk(g, tid, w) && Visits(g, tid, w) <= Visits(g, tid, v)
    decreases |w|
  {
    hide TypeGraph.Steps;
    if w != [] {
      PrefixOfWalk(g, g.Steps(tid)[w[0]].target, w[1..], v[1..]);
    }
  }

  lemma RepeatFreePrefix(g: TypeGraph, tid: TypeId, w: seq<nat>, v: seq<nat>)
    requires RepeatFree(g, tid, v) && w <= v
    ensures RepeatFree(g, tid, w)
  {
    hide TypeGraph.Steps, IsWalk, Visits;
    PrefixOfWalk(g, tid, w, v);
    var short, long := Visits(g, tid, w), Visits(g, tid, v);
    assert forall i :: 0 <= i < |short| ==> short[i] == long[i];
  }

  lemma PathStringSlash(path: seq<string>)
    ensures path == [] ==> PathString(path) == ""
    ensures path != [] ==> PathString(path) != "" && PathString(path)[0] == '/'
  {
    if path != [] {
      PathStringCons(path[0], path[1..]);
      assert path == [path[0]] + path[1..];
    }
  }

  // Two elements that are followed by nothing or by a slash in the same text.
  lemma SameText(a: string, after: string, b: string, after': string)
    requires a + after == b + after'
    requires (after == "" || after[0] == '/') && (after' == "" || after'[0] == '/')
    ensures Overlap(a, b) || Overlap(b, a)
    ensures a == b ==> after == after'
  {
    var text := a + after;
    if |a| <= |b| {
      assert a == text[..|a|] && b == text[..|b|];
      assert |a| < |b| ==> b[|a|] == after[0];
      assert Overlap(a, b);
    } else {
      assert a == text[..|a|] && b == text[..|b|];
      assert a[|b|] == after'[0];
      assert Overlap(b, a);
    }
    assert text[|a|..] == after && (a + after)[|a|..] == after;
    assert a == b ==> (b + after')[|a|..] == after';
  }

  // Different walks with the same path part at two steps that are the same.
  lemma {:induction false} PartingSteps(g: TypeGraph, tid: TypeId, a: seq<nat>, b: seq<nat>)
    returns (w: seq<nat>, i: nat, j: nat)
    requires g.Closed() && Readable(g) && tid in g.types
    requires IsWalk(g, tid, a) && IsWalk(g, tid, b) && a != b
    requires PathString(Elements(g, tid, a)) == PathString(Elements(g, tid, b))
    ensures IsWalk(g, tid, w) && i < j < |g.Steps(End(g, tid, w))|
    ensures g.Steps(End(g, tid, w))[i] == g.Steps(End(g, tid, w))[j]
    ensures w + [i] <= a || w + [i] <= b
    decreases |a|
  {
    hide TypeGraph.Steps, PathString, Overlap, Visits;
    PathStringSlash(Elements(g, tid, a));
    PathStringSlash(Elements(g, tid, b));
    assert a != [] && b != [];
    var p, q := g.Steps(tid)[a[0]], g.Steps(tid)[b[0]];
    var pathA, pathB := Elements(g, p.target, a[1..]), Elements(g, q.target, b[1..]);
    PathStringCons(p.element, pathA);
    PathStringCons(q.element, pathB);
    PathStringSlash(pathA);
    PathStringSlash(pathB);
    Unslash(p.element, PathString(pathA), q.element, PathString(pathB));
    SameText(p.element, PathString(pathA), q.element, PathString(pathB));
    assert p == q;
    if a[0] == b[0] {
      assert a == [a[0]] + a[1..] && b == [b[0]] + b[1..];
      var v;
      v, i, j := PartingSteps(g, p.target, a[1..], b[1..]);
      w := [a[0]] + v;
      assert w[1..] == v && w[0] == a[0];
      assert w + [i] == [a[0]] + (v + [i]);
    } else {
      w := [];
      i, j := if a[0] < b[0] then a[0] else b[0], if a[0] < b[0] then b[0] else a[0];
      assert w + [i] == [i];
    }
  }

  lemma Unslash(a: string, after: string, b: string, after': string)
    requires "/" + a + after == "/" + b + after'
    ensures a + after == b + after'
  {
    assert ("/" + a + after)[1..] == a + after && ("/" + b + after')[1..] == b + after';
  }

  // ---- distinct entries

  lemma DoubledWalks(g: TypeGraph, tid: TypeId, w: seq<nat>, i: nat, j: nat)
    requires Doubled(g, tid, w, i, j)
    ensures RepeatFree(g, tid, w + [i]) && RepeatFree(g, tid, w + [j]) && w + [i] != w + [j]
    ensures Entry(g, [], tid, w + [i]) == Entry(g, [], tid, w + [j])
  {
    hide TypeGraph.Steps, PathString;
    WalkOnward(g, tid, w, i);
    WalkOnward(g, tid, w, j);
    assert (w + [i])[|w|] != (w + [j])[|w|];
  }

  // With readable paths, no entry is gathered twice exactly when no walk comes to a doubled step.
  lemma DistinctIff(g: TypeGraph, tid: TypeId)
    requires g.Closed() && tid in g.types && Readable(g)
    ensures NoDup(Gathered(g, [], [], tid)) <==> forall w, i, j :: !Doubled(g, tid, w, i, j)
  {
    var entries := Gathered(g, [], [], tid);
    var walks := GatheredListsWalks(g, [], [], tid);
    hide Gathered, Doubled, Entry, RepeatFree, Visits, IsWalk, TypeGraph.Steps, Readable;
    PreorderIsDistinct(walks);
    if w, i, j :| Doubled(g, tid, w, i, j) {
      DoubledWalks(g, tid, w, i, j);
      TwiceGathered(g, tid, entries, walks, w + [i], w + [j]);
    }
    if !NoDup(entries) {
      var m, n :| 0 <= m < n < |entries| && entries[m] == entries[n];
      assert walks[m] in walks && walks[n] in walks;
      var w, i, j := PartsDoubled(g, tid, walks[m], walks[n]);
    }
  }

  lemma TwiceGathered(g: TypeGraph, tid: TypeId, entries: seq<(TypeId, string)>, walks: seq<seq<nat>>,
                      a: seq<nat>, b: seq<nat>)
    requires ListsWalks(g, [], [], tid, entries, walks)
    requires RepeatFree(g, tid, a) && RepeatFree(g, tid, b) && a != b
    requires Entry(g, [], tid, a) == Entry(g, [], tid, b)
    ensures !NoDup(entries)
  {
    hide RepeatFree, Entry, Before;
    assert a in walks && b in walks;
    var m :| 0 <= m < |walks| && walks[m] == a;
    var n :| 0 <= n < |walks| && walks[n] == b;
    assert entries[m] == entries[n];
  }

  lemma PartsDoubled(g: TypeGraph, tid: TypeId, a: seq<nat>, b: seq<nat>) returns (w: seq<nat>, i: nat, j: nat)
    requires g.Closed() && Readable(g) && tid in g.types
    requires RepeatFree(g, tid, a) && RepeatFree(g, tid, b) && a != b
    requires Entry(g, [], tid, a) == Entry(g, [], tid, b)
    ensures Doubled(g, tid, w, i, j)
  {
    hide TypeGraph.Steps, PathString, Visits, Elements, Readable, TypeGraph.Closed;
    assert [] + Elements(g, tid, a) == Elements(g, tid, a) && [] + Elements(g, tid, b) == Elements(g, tid, b);
    w, i, j := PartingSteps(g, tid, a, b);
    RepeatFreePrefix(g, tid, w + [i], if w + [i] <= a then a else b);
  }

  // An aggregation that was recorded twice puts an entry twice into the output.
  lemma AggregatedTwice(reg: Registry)
    requires reg.attributes(0) == reg.attributes(1) == [] && reg.registered == []
    ensures var g := TypeGraph(reg, [(0, 1), (0, 1)], {0, 1});
      g.Closed() && !NoDup(Gathered(g, [], [], 0))
  {
    var g := TypeGraph(reg, [(0, 1), (0, 1)], {0, 1});
    TwoSteps(g, 0);
    TwoSteps(g, 1);
    assert g.Closed();
    hide TypeGraph.Steps;
    assert IsWalk(g, 0, []) && End(g, 0, []) == 0;
    WalkOnward(g, 0, [], 0);
    assert Doubled(g, 0, [], 0, 1);
    var walks := GatheredListsWalks(g, [], [], 0);
    DoubledWalks(g, 0, [], 0, 1);
    TwiceGathered(g, 0, Gathered(g, [], [], 0), walks, [] + [0], [] + [1]);
  }

  lemma TwoSteps(g: TypeGraph, tid: TypeId)
    requires g.reg.attributes(tid) == [] && g.reg.registered == []
    requires g.aggregates == [(0, 1), (0, 1)] && (tid == 0 || tid == 1)
    ensures g.Steps(tid) == [Step("$" + g.reg.name(1 - tid), 1 - tid), Step("$" + g.reg.name(1 - tid), 1 - tid)]
  {
    var step := Step("$" + g.reg.name(1 - tid), 1 - tid);
    assert Other((0, 1), tid) == 1 - tid;
    assert [(0, 1)][..0] == [] && [(0, 1), (0, 1)][..1] == [(0, 1)];
    assert AggregateSteps(g.reg, [(0, 1)], tid) == [step];
    assert AggregateSteps(g.reg, [(0, 1), (0, 1)], tid) == [step] + [step];
  }
}
