/**
  The gathering of configuration paths in print-introspected-doxygen.cc. DoGather explores the
  registered types with two stacks; it is proved to list the repeat-free walks of the type graph.
 */
module ConfigPaths {
  import opened Lists

  type TypeId = nat

  datatype Attribute =
    | PointerTo(name: string, pointee: TypeId)
    | ContainerOf(name: string, item: TypeId)
    | Plain(name: string)

  // What the type registry answers.
  datatype Registry = Registry(
    attributes: TypeId -> seq<Attribute>,
    registered: seq<TypeId>,
    isChildOf: (TypeId, TypeId) -> bool,
    name: TypeId -> string,
    objectTypeId: TypeId)

  // A step of the exploration: the path element it adds and the type it leads to.
  datatype Step = Step(element: string, target: TypeId)

  ghost function AttributeSteps(reg: Registry, attributes: seq<Attribute>): seq<Step> {
    if attributes == [] then []
    else
      var n := |attributes| - 1;
      AttributeSteps(reg, attributes[..n]) +
      match attributes[n]
      case PointerTo(name, pointee) => if pointee == reg.objectTypeId then [] else [Step(name, pointee)]
      case ContainerOf(name, item) => [Step(name + "/[i]", item)]
      case Plain(_) => []
  }

  ghost function ChildSteps(reg: Registry, registered: seq<TypeId>, tid: TypeId): seq<Step> {
    if registered == [] then []
    else
      var n := |registered| - 1;
      ChildSteps(reg, registered[..n], tid) +
      if reg.isChildOf(registered[n], tid) then [Step("$" + reg.name(registered[n]), registered[n])] else []
  }

  // The other end of an aggregation; of an aggregation with itself, the type itself.
  function Other(pair: (TypeId, TypeId), tid: TypeId): TypeId {
    if pair.1 == tid then pair.0 else pair.1
  }

  ghost function AggregateSteps(reg: Registry, aggregates: seq<(TypeId, TypeId)>, tid: TypeId): seq<Step> {
    if aggregates == [] then []
    else
      var n := |aggregates| - 1;
      AggregateSteps(reg, aggregates[..n], tid) +
      if aggregates[n].0 == tid || aggregates[n].1 == tid
      then [Step("$" + reg.name(Other(aggregates[n], tid)), Other(aggregates[n], tid))]
      else []
  }

  // The type graph: the registry with the recorded aggregations, over a finite set of types.
  datatype TypeGraph = TypeGraph(reg: Registry, aggregates: seq<(TypeId, TypeId)>, types: set<TypeId>) {
    ghost function Steps(tid: TypeId): seq<Step> {
      AttributeSteps(reg, reg.attributes(tid))
      + ChildSteps(reg, reg.registered, tid)
      + AggregateSteps(reg, aggregates, tid)
    }

    ghost predicate Closed() {
      forall tid, i :: tid in types && 0 <= i < |Steps(tid)| ==> Steps(tid)[i].target in types
    }
  }

  function PathString(path: seq<string>): string {
    if path == [] then "" else PathString(path[..|path| - 1]) + "/" + path[|path| - 1]
  }

  // ---- walks: sequences of step numbers

  ghost predicate IsWalk(g: TypeGraph, tid: TypeId, w: seq<nat>)
    decreases |w|
  {
    w == [] || (w[0] < |g.Steps(tid)| && IsWalk(g, g.Steps(tid)[w[0]].target, w[1..]))
  }

  // The types met on a walk, its start and end included.
  ghost function Visits(g: TypeGraph, tid: TypeId, w: seq<nat>): seq<TypeId>
    requires IsWalk(g, tid, w)
    decreases |w|
  {
    [tid] + if w == [] then [] else Visits(g, g.Steps(tid)[w[0]].target, w[1..])
  }

  ghost function Elements(g: TypeGraph, tid: TypeId, w: seq<nat>): seq<string>
    requires IsWalk(g, tid, w)
    decreases |w|
  {
    if w == [] then [] else
      var step := g.Steps(tid)[w[0]];
      [step.element] + Elements(g, step.target, w[1..])
  }

  ghost predicate RepeatFree(g: TypeGraph, tid: TypeId, w: seq<nat>) {
    IsWalk(g, tid, w) && NoDup(Visits(g, tid, w))
  }

  // Depth-first preorder: a walk comes before its continuations, and lower steps before higher.
  ghost predicate Before(a: seq<nat>, b: seq<nat>)
    decreases |a|
  {
    b != [] && (a == [] || a[0] < b[0] || (a[0] == b[0] && Before(a[1..], b[1..])))
  }

  // The entry that a walk from tid leaves in the output.
  ghost function Entry(g: TypeGraph, path: seq<string>, tid: TypeId, w: seq<nat>): (TypeId, string)
    requires IsWalk(g, tid, w)
  {
    var visits := Visits(g, tid, w);
    (visits[|visits| - 1], PathString(path + Elements(g, tid, w)))
  }

  // The entries are those of all repeat-free walks from tid that avoid the processed types, each
  // walk once, in preorder.
  ghost predicate ListsWalks(g: TypeGraph, path: seq<string>, processed: seq<TypeId>, tid: TypeId,
                             entries: seq<(TypeId, string)>, walks: seq<seq<nat>>)
  {
    && |entries| == |walks|
    && (forall i, j :: 0 <= i < j < |walks| ==> Before(walks[i], walks[j]))
    && (forall w :: w in walks <==> RepeatFree(g, tid, w) && forall t :: t in Visits(g, tid, w) ==> t !in processed)
    && (forall i :: 0 <= i < |walks| ==> IsWalk(g, tid, walks[i]) && entries[i] == Entry(g, path, tid, walks[i]))
  }

  // ---- what the recursion lists

  ghost function Gathered(g: TypeGraph, path: seq<string>, processed: seq<TypeId>, tid: TypeId): seq<(TypeId, string)>
    requires g.Closed() && tid in g.types
    decreases |g.types - Elems(processed)|, 1, 0
  {
    if tid in processed then []
    else
      Shrinks(g.types, processed, tid);
      [(tid, PathString(path))] + GatheredSteps(g, path, processed + [tid], tid, g.Steps(tid))
  }

  ghost function GatheredSteps(g: TypeGraph, path: seq<string>, processed: seq<TypeId>,
                              tid: TypeId, steps: seq<Step>)
    : seq<(TypeId, string)>
    requires g.Closed() && tid in g.types
    requires steps <= g.Steps(tid)
    decreases |g.types - Elems(processed)|, 2, |steps|
  {
    if steps == [] then []
    else
      var n := |steps| - 1;
      GatheredSteps(g, path, processed, tid, steps[..n])
      + Gathered(g, path + [steps[n].element], processed, steps[n].target)
  }

  lemma Shrinks(types: set<TypeId>, processed: seq<TypeId>, tid: TypeId)
    requires tid in types && tid !in processed
    ensures |types - Elems(processed + [tid])| < |types - Elems(processed)|
  {
    assert types - Elems(processed + [tid]) == types - Elems(processed) - {tid};
  }

  // ---- the recursion lists the repeat-free walks

  // A walk through one of the first k steps of tid, repeat-free from then on and off the processed types.
  ghost predicate FreeThrough(g: TypeGraph, processed: seq<TypeId>, tid: TypeId, k: nat, w: seq<nat>)
    requires k <= |g.Steps(tid)|
  {
    && w != [] && w[0] < k
    && RepeatFree(g, g.Steps(tid)[w[0]].target, w[1..])
    && forall t :: t in Visits(g, g.Steps(tid)[w[0]].target, w[1..]) ==> t !in processed
  }

  ghost predicate ListsThrough(g: TypeGraph, path: seq<string>, processed: seq<TypeId>, tid: TypeId, k: nat,
                               entries: seq<(TypeId, string)>, walks: seq<seq<nat>>)
    requires k <= |g.Steps(tid)|
  {
    && |entries| == |walks|
    && (forall i, j :: 0 <= i < j < |walks| ==> Before(walks[i], walks[j]))
    && (forall w :: w in walks <==> FreeThrough(g, processed, tid, k, w))
    && (forall i :: 0 <= i < |walks| ==> IsWalk(g, tid, walks[i]) && entries[i] == Entry(g, path, tid, walks[i]))
  }

  ghost function Prepend(k: nat, walks: seq<seq<nat>>): seq<seq<nat>> {
    seq(|walks|, i requires 0 <= i < |walks| => [k] + walks[i])
  }

  lemma StepEntry(g: TypeGraph, path: seq<string>, tid: TypeId, k: nat, w: seq<nat>)
    requires k < |g.Steps(tid)| && IsWalk(g, g.Steps(tid)[k].target, w)
    ensures IsWalk(g, tid, [k] + w)
    ensures Visits(g, tid, [k] + w) == [tid] + Visits(g, g.Steps(tid)[k].target, w)
    ensures Entry(g, path, tid, [k] + w) == Entry(g, path + [g.Steps(tid)[k].element], g.Steps(tid)[k].target, w)
  {
    hide TypeGraph.Steps, PathString;
    var step, v := g.Steps(tid)[k], [k] + w;
    assert v[0] == k && v[1..] == w;
    StepElements(g, tid, v);
    hide Visits, Elements;
    assert path + ([step.element] + Elements(g, step.target, w)) == path + [step.element] + Elements(g, step.target, w);
  }

  lemma StepElements(g: TypeGraph, tid: TypeId, v: seq<nat>)
    requires v != [] && v[0] < |g.Steps(tid)| && IsWalk(g, g.Steps(tid)[v[0]].target, v[1..])
    ensures IsWalk(g, tid, v)
    ensures Visits(g, tid, v) == [tid] + Visits(g, g.Steps(tid)[v[0]].target, v[1..])
    ensures Elements(g, tid, v) == [g.Steps(tid)[v[0]].element] + Elements(g, g.Steps(tid)[v[0]].target, v[1..])
  {
    hide TypeGraph.Steps;
  }

  // The walks through the first k steps, extended by those through step k.
  lemma NextStep(g: TypeGraph, path: seq<string>, processed: seq<TypeId>, tid: TypeId, k: nat,
                 entries: seq<(TypeId, string)>, walks: seq<seq<nat>>,
                 entries': seq<(TypeId, string)>, walks': seq<seq<nat>>)
    requires k < |g.Steps(tid)|
    requires ListsThrough(g, path, processed, tid, k, entries, walks)
    requires ListsWalks(g, path + [g.Steps(tid)[k].element], processed, g.Steps(tid)[k].target, entries', walks')
    ensures ListsThrough(g, path, processed, tid, k + 1, entries + entries', walks + Prepend(k, walks'))
  {
    hide Entry, RepeatFree;
    var step := g.Steps(tid)[k];
    var more := Prepend(k, walks');
    var all, listed := walks + more, entries + entries';
    forall i | 0 <= i < |all|
      ensures IsWalk(g, tid, all[i]) && listed[i] == Entry(g, path, tid, all[i])
    {
      if i >= |walks| {
        StepEntry(g, path, tid, k, walks'[i - |walks|]);
      }
    }
    forall i, j | 0 <= i < j < |all| ensures Before(all[i], all[j]) {
      if i >= |walks| {
        BeforePrepend(k, walks'[i - |walks|], walks'[j - |walks|]);
      } else if j >= |walks| {
        assert walks[i] in walks;
      }
    }
    forall w ensures w in all <==> FreeThrough(g, processed, tid, k + 1, w) {
      InPrepend(k, walks', w);
    }
  }

  lemma BeforePrepend(k: nat, a: seq<nat>, b: seq<nat>)
    requires Before(a, b)
    ensures Before([k] + a, [k] + b)
  {
    assert ([k] + a)[1..] == a && ([k] + b)[1..] == b;
  }

  lemma InPrepend(k: nat, walks: seq<seq<nat>>, w: seq<nat>)
    ensures w in Prepend(k, walks) <==> w != [] && w[0] == k && w[1..] in walks
  {
    var more := Prepend(k, walks);
    if w in more {
      var i :| 0 <= i < |more| && more[i] == w;
      assert w[1..] == walks[i];
    }
    if w != [] && w[0] == k && w[1..] in walks {
      var i :| 0 <= i < |walks| && walks[i] == w[1..];
      assert more[i] == [w[0]] + w[1..] == w;
    }
  }

  // The walks from tid: the empty one, and those through one of its steps.
  lemma StartHere(g: TypeGraph, path: seq<string>, processed: seq<TypeId>, tid: TypeId,
                  entries: seq<(TypeId, string)>, walks: seq<seq<nat>>)
    requires tid !in processed
    requires ListsThrough(g, path, processed + [tid], tid, |g.Steps(tid)|, entries, walks)
    ensures ListsWalks(g, path, processed, tid, [(tid, PathString(path))] + entries, [[]] + walks)
  {
    var all, listed := [[]] + walks, [(tid, PathString(path))] + entries;
    EmptyEntry(g, path, tid);
    hide Entry, FreeThrough, PathString, NoDup;
    forall i, j | 0 <= i < j < |all| ensures Before(all[i], all[j]) {
      StartsBefore(g, path, processed + [tid], tid, |g.Steps(tid)|, entries, walks, j - 1);
    }
    forall w ensures w in all <==> RepeatFree(g, tid, w) && forall t :: t in Visits(g, tid, w) ==> t !in processed {
      FreeFrom(g, processed, tid, w);
      assert w in all <==> w == [] || w in walks;
    }
  }

  lemma EmptyEntry(g: TypeGraph, path: seq<string>, tid: TypeId)
    ensures IsWalk(g, tid, []) && Entry(g, path, tid, []) == (tid, PathString(path))
  {
    assert path + [] == path;
  }

  lemma StartsBefore(g: TypeGraph, path: seq<string>, processed: seq<TypeId>, tid: TypeId, k: nat,
                     entries: seq<(TypeId, string)>, walks: seq<seq<nat>>, j: nat)
    requires k <= |g.Steps(tid)| && ListsThrough(g, path, processed, tid, k, entries, walks) && j < |walks|
    ensures Before([], walks[j])
  {
    assert walks[j] in walks;
  }

  lemma FreeFrom(g: TypeGraph, processed: seq<TypeId>, tid: TypeId, w: seq<nat>)
    requires tid !in processed
    ensures (RepeatFree(g, tid, w) && forall t :: t in Visits(g, tid, w) ==> t !in processed)
       <==> w == [] || FreeThrough(g, processed + [tid], tid, |g.Steps(tid)|, w)
  {
    if w != [] && IsWalk(g, tid, w) {
      var rest := Visits(g, g.Steps(tid)[w[0]].target, w[1..]);
      assert Visits(g, tid, w) == [tid] + rest;
      NoDupCons(tid, rest);
      assert forall t :: t in [tid] + rest <==> t == tid || t in rest;
      assert forall t :: t in processed + [tid] <==> t == tid || t in processed;
    }
  }

  lemma NoDupCons<T>(x: T, s: seq<T>)
    ensures NoDup([x] + s) <==> x !in s && NoDup(s)
  {
    if NoDup([x] + s) {
      forall i, j | 0 <= i < j < |s| ensures s[i] != s[j] {
        assert ([x] + s)[i + 1] != ([x] + s)[j + 1];
      }
      forall i | 0 <= i < |s| ensures s[i] != x {
        assert ([x] + s)[0] != ([x] + s)[i + 1];
      }
    }
  }

  lemma {:induction false} GatheredListsWalks(g: TypeGraph, path: seq<string>, processed: seq<TypeId>, tid: TypeId)
    returns (walks: seq<seq<nat>>)
    requires g.Closed() && tid in g.types
    ensures ListsWalks(g, path, processed, tid, Gathered(g, path, processed, tid), walks)
    decreases |g.types - Elems(processed)|, 1, 0
  {
    if tid in processed {
      walks := [];
      NothingFrom(g, path, processed, tid);
    } else {
      Shrinks(g.types, processed, tid);
      var through := GatheredThrough(g, path, processed + [tid], tid, |g.Steps(tid)|);
      assert g.Steps(tid)[..|g.Steps(tid)|] == g.Steps(tid);
      hide ListsWalks, ListsThrough, GatheredSteps;
      StartHere(g, path, processed, tid, GatheredSteps(g, path, processed + [tid], tid, g.Steps(tid)), through);
      walks := [[]] + through;
    }
  }

  lemma NothingFrom(g: TypeGraph, path: seq<string>, processed: seq<TypeId>, tid: TypeId)
    requires tid in processed
    ensures ListsWalks(g, path, processed, tid, [], [])
  {
    forall w ensures !(RepeatFree(g, tid, w) && forall t :: t in Visits(g, tid, w) ==> t !in processed) {
      if IsWalk(g, tid, w) {
        assert Visits(g, tid, w)[0] == tid;
      }
    }
  }

  lemma {:induction false} GatheredThrough(g: TypeGraph, path: seq<string>, processed: seq<TypeId>, tid: TypeId, k: nat)
    returns (walks: seq<seq<nat>>)
    requires g.Closed() && tid in g.types && k <= |g.Steps(tid)|
    ensures ListsThrough(g, path, processed, tid, k, GatheredSteps(g, path, processed, tid, g.Steps(tid)[..k]), walks)
    decreases |g.types - Elems(processed)|, 2, k
  {
    NothingThrough(g, path, processed, tid);
    hide *;
    if k == 0 {
      walks := [];
    } else {
      var steps := g.Steps(tid);
      assert steps[..k] == steps[..k - 1] + [steps[k - 1]];
      OneMoreStep(g, path, processed, tid, steps[..k - 1], steps[k - 1]);
      var walks0 := GatheredThrough(g, path, processed, tid, k - 1);
      var walks1 := GatheredListsWalks(g, path + [steps[k - 1].element], processed, steps[k - 1].target);
      NextStep(g, path, processed, tid, k - 1, GatheredSteps(g, path, processed, tid, steps[..k - 1]), walks0,
               Gathered(g, path + [steps[k - 1].element], processed, steps[k - 1].target), walks1);
      walks := walks0 + Prepend(k - 1, walks1);
    }
  }

  lemma NothingThrough(g: TypeGraph, path: seq<string>, processed: seq<TypeId>, tid: TypeId)
    requires g.Closed() && tid in g.types
    ensures g.Steps(tid)[..0] == []
    ensures ListsThrough(g, path, processed, tid, 0, GatheredSteps(g, path, processed, tid, []), [])
  {
  }

  // ---- what the steps are

  // A pointer, but not to any object, or a container of objects.
  ghost predicate AttributeLeads(reg: Registry, attribute: Attribute, s: Step) {
    || (attribute.PointerTo? && attribute.pointee != reg.objectTypeId && s == Step(attribute.name, attribute.pointee))
    || (attribute.ContainerOf? && s == Step(attribute.name + "/[i]", attribute.item))
  }

  // A type derived from tid.
  ghost predicate ChildLeads(reg: Registry, child: TypeId, tid: TypeId, s: Step) {
    reg.isChildOf(child, tid) && s == Step("$" + reg.name(child), child)
  }

  // The other end of an aggregation.
  ghost predicate AggregateLeads(reg: Registry, pair: (TypeId, TypeId), tid: TypeId, s: Step) {
    || (pair.0 == tid && s == Step("$" + reg.name(pair.1), pair.1))
    || (pair.1 == tid && s == Step("$" + reg.name(pair.0), pair.0))
  }

  ghost function LeadingAttributes(reg: Registry, attributes: seq<Attribute>): set<nat> {
    set i | 0 <= i < |attributes|
    && (attributes[i].ContainerOf?
          || (attributes[i].PointerTo? && attributes[i].pointee != reg.objectTypeId))
  }

  ghost function ChildPlaces(reg: Registry, registered: seq<TypeId>, tid: TypeId): set<nat> {
    set i | 0 <= i < |registered| && reg.isChildOf(registered[i], tid)
  }

  ghost function AggregatePlaces(aggregates: seq<(TypeId, TypeId)>, tid: TypeId): set<nat> {
    set i | 0 <= i < |aggregates| && (aggregates[i].0 == tid || aggregates[i].1 == tid)
  }

  ghost predicate Leads(reg: Registry, aggregates: seq<(TypeId, TypeId)>, tid: TypeId, s: Step) {
    || (exists i :: 0 <= i < |reg.attributes(tid)| && AttributeLeads(reg, reg.attributes(tid)[i], s))
    || (exists i :: 0 <= i < |reg.registered| && ChildLeads(reg, reg.registered[i], tid, s))
    || (exists i :: 0 <= i < |aggregates| && AggregateLeads(reg, aggregates[i], tid, s))
  }

  lemma {:induction false} AttributesInOrder(reg: Registry, attributes: seq<Attribute>) returns (idx: seq<nat>)
    ensures Ascends(idx, LeadingAttributes(reg, attributes)) && |AttributeSteps(reg, attributes)| == |idx|
    ensures forall k :: 0 <= k < |idx| ==>
              idx[k] < |attributes| && AttributeLeads(reg, attributes[idx[k]], AttributeSteps(reg, attributes)[k])
  {
    if attributes == [] {
      idx := [];
    } else {
      var n := |attributes| - 1;
      idx := AttributesInOrder(reg, attributes[..n]);
      LeadingAttributesStep(reg, attributes);
      if n in LeadingAttributes(reg, attributes) {
        AscendsTo(idx, LeadingAttributes(reg, attributes[..n]), n);
        idx := idx + [n];
      }
    }
  }

  lemma LeadingAttributesStep(reg: Registry, attributes: seq<Attribute>)
    requires attributes != []
    ensures var n := |attributes| - 1;
      var places, before := LeadingAttributes(reg, attributes), LeadingAttributes(reg, attributes[..n]);
      && (forall i :: i in before ==> i < n)
      && places == (if n in places then before + {n} else before)
  {
    var n := |attributes| - 1;
    assert forall i :: 0 <= i < n ==> attributes[..n][i] == attributes[i];
  }

  lemma {:induction false} ChildrenInOrder(reg: Registry, registered: seq<TypeId>, tid: TypeId) returns (idx: seq<nat>)
    ensures Ascends(idx, ChildPlaces(reg, registered, tid)) && |ChildSteps(reg, registered, tid)| == |idx|
    ensures forall k :: 0 <= k < |idx| ==>
              idx[k] < |registered| && ChildLeads(reg, registered[idx[k]], tid, ChildSteps(reg, registered, tid)[k])
  {
    if registered == [] {
      idx := [];
    } else {
      var n := |registered| - 1;
      idx := ChildrenInOrder(reg, registered[..n], tid);
      ChildPlacesStep(reg, registered, tid);
      if reg.isChildOf(registered[n], tid) {
        AscendsTo(idx, ChildPlaces(reg, registered[..n], tid), n);
        idx := idx + [n];
      }
    }
  }

  lemma ChildPlacesStep(reg: Registry, registered: seq<TypeId>, tid: TypeId)
    requires registered != []
    ensures var n := |registered| - 1;
      var places, before := ChildPlaces(reg, registered, tid), ChildPlaces(reg, registered[..n], tid);
      && (forall i :: i in before ==> i < n)
      && places == (if reg.isChildOf(registered[n], tid) then before + {n} else before)
  {
    var n := |registered| - 1;
    assert forall i :: 0 <= i < n ==> registered[..n][i] == registered[i];
  }

  lemma {:induction false} AggregatesInOrder(reg: Registry, aggregates: seq<(TypeId, TypeId)>, tid: TypeId)
    returns (idx: seq<nat>)
    ensures Ascends(idx, AggregatePlaces(aggregates, tid)) && |AggregateSteps(reg, aggregates, tid)| == |idx|
    ensures forall k :: 0 <= k < |idx| ==>
              idx[k] < |aggregates|
              && AggregateLeads(reg, aggregates[idx[k]], tid, AggregateSteps(reg, aggregates, tid)[k])
  {
    if aggregates == [] {
      idx := [];
    } else {
      var n := |aggregates| - 1;
      idx := AggregatesInOrder(reg, aggregates[..n], tid);
      AggregatePlacesStep(aggregates, tid);
      if aggregates[n].0 == tid || aggregates[n].1 == tid {
        AscendsTo(idx, AggregatePlaces(aggregates[..n], tid), n);
        idx := idx + [n];
      }
    }
  }

  lemma AggregatePlacesStep(aggregates: seq<(TypeId, TypeId)>, tid: TypeId)
    requires aggregates != []
    ensures var n := |aggregates| - 1;
      var places, before := AggregatePlaces(aggregates, tid), AggregatePlaces(aggregates[..n], tid);
      && (forall i :: i in before ==> i < n)
      && places == (if aggregates[n].0 == tid || aggregates[n].1 == tid then before + {n} else before)
  {
    var n := |aggregates| - 1;
    assert forall i :: 0 <= i < n ==> aggregates[..n][i] == aggregates[i];
  }

  // The steps from a type: one for each pointer and container among its attributes, then one for
  // each type derived from it, then one for each aggregation that it takes part in, in order.
  lemma StepsInOrder(g: TypeGraph, tid: TypeId) returns (a: seq<nat>, c: seq<nat>, o: seq<nat>)
    ensures Ascends(a, LeadingAttributes(g.reg, g.reg.attributes(tid)))
    ensures Ascends(c, ChildPlaces(g.reg, g.reg.registered, tid))
    ensures Ascends(o, AggregatePlaces(g.aggregates, tid))
    ensures |g.Steps(tid)| == |a| + |c| + |o|
    ensures forall k :: 0 <= k < |a| ==>
              a[k] < |g.reg.attributes(tid)| && AttributeLeads(g.reg, g.reg.attributes(tid)[a[k]], g.Steps(tid)[k])
    ensures forall k :: 0 <= k < |c| ==>
              c[k] < |g.reg.registered| && ChildLeads(g.reg, g.reg.registered[c[k]], tid, g.Steps(tid)[|a| + k])
    ensures forall k :: 0 <= k < |o| ==>
              o[k] < |g.aggregates| && AggregateLeads(g.reg, g.aggregates[o[k]], tid, g.Steps(tid)[|a| + |c| + k])
  {
    hide AttributeSteps, ChildSteps, AggregateSteps, LeadingAttributes, ChildPlaces, AggregatePlaces, Ascends;
    hide AttributeLeads, ChildLeads, AggregateLeads;
    a := AttributesInOrder(g.reg, g.reg.attributes(tid));
    c := ChildrenInOrder(g.reg, g.reg.registered, tid);
    o := AggregatesInOrder(g.reg, g.aggregates, tid);
  }

  // What leads from a type is exactly a step from it.
  lemma LeadsIff(g: TypeGraph, tid: TypeId, s: Step)
    ensures s in g.Steps(tid) <==> Leads(g.reg, g.aggregates, tid, s)
  {
    var a, c, o := StepsInOrder(g, tid);
    hide TypeGraph.Steps;
    StepLeads(g, tid, s, a, c, o);
    if i :| 0 <= i < |g.reg.attributes(tid)| && AttributeLeads(g.reg, g.reg.attributes(tid)[i], s) {
      assert i in LeadingAttributes(g.reg, g.reg.attributes(tid));
      var k :| 0 <= k < |a| && a[k] == i;
      assert g.Steps(tid)[k] == s;
    }
    if i :| 0 <= i < |g.reg.registered| && ChildLeads(g.reg, g.reg.registered[i], tid, s) {
      assert i in ChildPlaces(g.reg, g.reg.registered, tid);
      var k :| 0 <= k < |c| && c[k] == i;
      assert g.Steps(tid)[|a| + k] == s;
    }
    if i :| 0 <= i < |g.aggregates| && AggregateLeads(g.reg, g.aggregates[i], tid, s) {
      assert i in AggregatePlaces(g.aggregates, tid);
      var k :| 0 <= k < |o| && o[k] == i;
      assert g.Steps(tid)[|a| + |c| + k] == s;
    }
  }

  lemma StepLeads(g: TypeGraph, tid: TypeId, s: Step, a: seq<nat>, c: seq<nat>, o: seq<nat>)
    requires Ascends(c, ChildPlaces(g.reg, g.reg.registered, tid)) && |g.Steps(tid)| == |a| + |c| + |o|
    requires forall k :: 0 <= k < |a| ==>
               a[k] < |g.reg.attributes(tid)| && AttributeLeads(g.reg, g.reg.attributes(tid)[a[k]], g.Steps(tid)[k])
    requires forall k :: 0 <= k < |c| ==>
               c[k] < |g.reg.registered| && ChildLeads(g.reg, g.reg.registered[c[k]], tid, g.Steps(tid)[|a| + k])
    requires forall k :: 0 <= k < |o| ==>
               o[k] < |g.aggregates| && AggregateLeads(g.reg, g.aggregates[o[k]], tid, g.Steps(tid)[|a| + |c| + k])
    ensures s in g.Steps(tid) ==> Leads(g.reg, g.aggregates, tid, s)
  {
    hide TypeGraph.Steps, AttributeLeads, ChildLeads, AggregateLeads;
    if m :| 0 <= m < |g.Steps(tid)| && g.Steps(tid)[m] == s {
      if m < |a| {
        assert AttributeLeads(g.reg, g.reg.attributes(tid)[a[m]], s);
      } else if m < |a| + |c| {
        var k := m - |a|;
        assert c[k] in c && g.Steps(tid)[|a| + k] == s && ChildLeads(g.reg, g.reg.registered[c[k]], tid, s);
      } else {
        var k := m - |a| - |c|;
        assert g.Steps(tid)[|a| + |c| + k] == s && AggregateLeads(g.reg, g.aggregates[o[k]], tid, s);
      }
    }
  }

  // ---- the paths, without steps or walks

  // Each step leads on from the type before it.
  ghost predicate Route(g: TypeGraph, tid: TypeId, steps: seq<Step>)
    decreases |steps|
  {
    steps == [] || (Leads(g.reg, g.aggregates, tid, steps[0]) && Route(g, steps[0].target, steps[1..]))
  }

  ghost function Targets(steps: seq<Step>): seq<TypeId> {
    seq(|steps|, i requires 0 <= i < |steps| => steps[i].target)
  }

  ghost function SlashText(steps: seq<Step>): string {
    if steps == [] then "" else "/" + steps[0].element + SlashText(steps[1..])
  }

  // A route from tid that meets no type twice ends at t and spells the path.
  ghost predicate IsPath(g: TypeGraph, tid: TypeId, t: TypeId, path: string) {
    exists steps :: Spells(g, tid, steps, t, path)
  }

  ghost predicate Spells(g: TypeGraph, tid: TypeId, steps: seq<Step>, t: TypeId, path: string) {
    var types := [tid] + Targets(steps);
    Route(g, tid, steps) && NoDup(types) && types[|types| - 1] == t && SlashText(steps) == path
  }

  lemma {:induction false} PathStringCons(element: string, path: seq<string>)
    ensures PathString([element] + path) == "/" + element + PathString(path)
    decreases |path|
  {
    var whole := [element] + path;
    assert PathString([]) == "";
    if path == [] {
      assert whole[..0] == [];
      assert "" + "/" + element == "/" + element + "";
    } else {
      var n := |path| - 1;
      PathStringCons(element, path[..n]);
      assert whole[..n + 1] == [element] + path[..n] && whole[n + 1] == path[n];
      assert "/" + element + (PathString(path[..n]) + "/" + path[n])
          == "/" + element + PathString(path[..n]) + "/" + path[n];
    }
  }

  lemma {:induction false} WalkIsRoute(g: TypeGraph, tid: TypeId, w: seq<nat>) returns (steps: seq<Step>)
    requires IsWalk(g, tid, w)
    ensures Route(g, tid, steps) && Visits(g, tid, w) == [tid] + Targets(steps)
    ensures PathString(Elements(g, tid, w)) == SlashText(steps)
    decreases |w|
  {
    hide TypeGraph.Steps, PathString, Leads;
    if w == [] {
      steps := [];
      assert PathString([]) == SlashText([]) by { EmptyEntry(g, [], tid); EmptyText(); }
      assert [tid] + [] == [tid];
    } else {
      var step := g.Steps(tid)[w[0]];
      var rest := WalkIsRoute(g, step.target, w[1..]);
      steps := [step] + rest;
      LeadsIff(g, tid, step);
      assert steps[1..] == rest;
      PathStringCons(step.element, Elements(g, step.target, w[1..]));
      assert Targets(steps) == [step.target] + Targets(rest);
    }
  }

  lemma EmptyText()
    ensures PathString([]) == "" && SlashText([]) == ""
  {
  }

  lemma {:induction false} RouteIsWalk(g: TypeGraph, tid: TypeId, steps: seq<Step>) returns (w: seq<nat>)
    requires Route(g, tid, steps)
    ensures IsWalk(g, tid, w) && Visits(g, tid, w) == [tid] + Targets(steps)
    ensures PathString(Elements(g, tid, w)) == SlashText(steps)
    decreases |steps|
  {
    hide TypeGraph.Steps, PathString, Leads;
    if steps == [] {
      w := [];
      EmptyText();
      assert [tid] + [] == [tid];
    } else {
      var step, rest := steps[0], steps[1..];
      LeadsIff(g, tid, step);
      var i :| 0 <= i < |g.Steps(tid)| && g.Steps(tid)[i] == step;
      var v := RouteIsWalk(g, step.target, rest);
      w := [i] + v;
      assert w[1..] == v;
      PathStringCons(step.element, Elements(g, step.target, v));
      assert Targets(steps) == [step.target] + Targets(rest);
    }
  }

  // A type is gathered with a path exactly when a route that meets no type twice spells the path.
  lemma GatheredIffPath(g: TypeGraph, tid: TypeId, entries: seq<(TypeId, string)>, walks: seq<seq<nat>>,
                        t: TypeId, path: string)
    requires ListsWalks(g, [], [], tid, entries, walks)
    ensures (t, path) in entries <==> IsPath(g, tid, t, path)
  {
    hide TypeGraph.Steps, PathString, Route, SlashText, Targets, Before, NoDup;
    if i :| 0 <= i < |entries| && entries[i] == (t, path) {
      assert walks[i] in walks;
      var steps := WalkIsRoute(g, tid, walks[i]);
      assert [] + Elements(g, tid, walks[i]) == Elements(g, tid, walks[i]);
      assert Spells(g, tid, steps, t, path);
    }
    if steps :| Spells(g, tid, steps, t, path) {
      var w := RouteIsWalk(g, tid, steps);
      assert [] + Elements(g, tid, w) == Elements(g, tid, w);
      assert w in walks;
      var i :| 0 <= i < |walks| && walks[i] == w;
      assert entries[i] == (t, path);
    }
  }

  // ---- the class

  class StaticInformation {
    const reg: Registry
    var output: seq<(TypeId, string)>
    var currentPath: seq<string>
    var alreadyProcessed: seq<TypeId>
    var aggregates: seq<(TypeId, TypeId)>

    constructor (reg: Registry, aggregates: seq<(TypeId, TypeId)>)
      ensures this.reg == reg && this.aggregates == aggregates
      ensures output == [] && currentPath == [] && alreadyProcessed == []
    {
      this.reg, this.aggregates := reg, aggregates;
      output, currentPath, alreadyProcessed := [], [], [];
    }

    method GetCurrentPath() returns (s: string)
      ensures s == PathString(currentPath)
    {
      s := "";
      for i := 0 to |currentPath|
        invariant s == PathString(currentPath[..i])
      {
        s := s + "/" + currentPath[i];
        assert currentPath[..i + 1][..i] == currentPath[..i];
      }
      assert currentPath[..|currentPath|] == currentPath;
    }

    method RecordOutput(tid: TypeId)
      modifies this`output
      ensures output == old(output) + [(tid, PathString(currentPath))]
    {
      var path := GetCurrentPath();
      output := output + [(tid, path)];
    }

    method HasAlreadyBeenProcessed(tid: TypeId) returns (r: bool)
      ensures r <==> tid in alreadyProcessed
    {
      for i := 0 to |alreadyProcessed|
        invariant tid !in alreadyProcessed[..i]
      {
        if alreadyProcessed[i] == tid {
          return true;
        }
      }
      return false;
    }

    // Appends the entries of all walks that can still be made from tid; the stacks are left as found.
    method DoGather(tid: TypeId, ghost g: TypeGraph)
      requires g.reg == reg && g.aggregates == aggregates && g.Closed() && tid in g.types
      modifies this`output, this`currentPath, this`alreadyProcessed
      ensures output == old(output) + Gathered(g, old(currentPath), old(alreadyProcessed), tid)
      ensures currentPath == old(currentPath) && alreadyProcessed == old(alreadyProcessed)
      decreases |g.types - Elems(alreadyProcessed)|, 2
    {
      var processed := HasAlreadyBeenProcessed(tid);
      if processed {
        return;
      }
      ghost var before, path, done := output, currentPath, alreadyProcessed;
      RecordOutput(tid);
      Shrinks(g.types, done, tid);
      ghost var start := before + [(tid, PathString(path))];
      assert SoFar(g, path, done + [tid], tid, start, output, []);
      GatherAttributes(tid, g, start);
      GatherChildren(tid, g, start);
      GatherAggregates(tid, g, start);
    }

    method GatherAttributes(tid: TypeId, ghost g: TypeGraph, ghost start: seq<(TypeId, string)>)
      requires g.reg == reg && g.aggregates == aggregates && g.Closed() && tid in g.types
      requires tid !in alreadyProcessed
      requires SoFar(g, currentPath, alreadyProcessed + [tid], tid, start, output, [])
      modifies this`output, this`currentPath, this`alreadyProcessed
      ensures currentPath == old(currentPath) && alreadyProcessed == old(alreadyProcessed)
      ensures SoFar(g, currentPath, alreadyProcessed + [tid], tid, start, output,
                     AttributeSteps(reg, reg.attributes(tid)))
      decreases |g.types - Elems(alreadyProcessed)|, 1
    {
      hide SoFar;
      ghost var path, done := currentPath, alreadyProcessed;
      var attributes := reg.attributes(tid);
      for i := 0 to |attributes|
        invariant currentPath == path && alreadyProcessed == done
        invariant SoFar(g, path, done + [tid], tid, start, output, AttributeSteps(reg, attributes[..i]))
      {
        AttributePrefix(g, tid, i);
        ghost var steps := AttributeSteps(reg, attributes[..i]);
        assert attributes[..i + 1][..i] == attributes[..i] && steps + [] == steps;
        match attributes[i]
        case PointerTo(name, pointee) =>
          if pointee == reg.objectTypeId {
            // any object can be there, which would give too many spurious paths
            continue;
          }
          Descend(tid, name, pointee, g, steps, start);
        case ContainerOf(name, item) =>
          Descend(tid, name + "/[i]", item, g, steps, start);
        case Plain(_) =>
      }
      assert attributes[..|attributes|] == attributes;
    }

    method GatherChildren(tid: TypeId, ghost g: TypeGraph, ghost start: seq<(TypeId, string)>)
      requires g.reg == reg && g.aggregates == aggregates && g.Closed() && tid in g.types
      requires tid !in alreadyProcessed
      requires SoFar(g, currentPath, alreadyProcessed + [tid], tid, start, output,
                     AttributeSteps(reg, reg.attributes(tid)))
      modifies this`output, this`currentPath, this`alreadyProcessed
      ensures currentPath == old(currentPath) && alreadyProcessed == old(alreadyProcessed)
      ensures SoFar(g, currentPath, alreadyProcessed + [tid], tid, start, output,
                     AttributeSteps(reg, reg.attributes(tid)) + ChildSteps(reg, reg.registered, tid))
      decreases |g.types - Elems(alreadyProcessed)|, 1
    {
      hide SoFar;
      ghost var path, done, aSteps := currentPath, alreadyProcessed, AttributeSteps(reg, reg.attributes(tid));
      assert aSteps + ChildSteps(reg, reg.registered[..0], tid) == aSteps;
      for j := 0 to |reg.registered|
        invariant currentPath == path && alreadyProcessed == done
        invariant SoFar(g, path, done + [tid], tid, start, output, aSteps + ChildSteps(reg, reg.registered[..j], tid))
      {
        ChildPrefix(g, tid, j);
        ghost var steps := aSteps + ChildSteps(reg, reg.registered[..j], tid);
        assert steps + [] == steps;
        var child := reg.registered[j];
        assert aSteps + ChildSteps(reg, reg.registered[..j + 1], tid)
            == steps + if reg.isChildOf(child, tid) then [Step("$" + reg.name(child), child)] else [];
        if reg.isChildOf(child, tid) {
          Descend(tid, "$" + reg.name(child), child, g, steps, start);
        }
      }
      assert reg.registered[..|reg.registered|] == reg.registered;
    }

    method GatherAggregates(tid: TypeId, ghost g: TypeGraph, ghost start: seq<(TypeId, string)>)
      requires g.reg == reg && g.aggregates == aggregates && g.Closed() && tid in g.types
      requires tid !in alreadyProcessed
      requires SoFar(g, currentPath, alreadyProcessed + [tid], tid, start, output,
                     AttributeSteps(reg, reg.attributes(tid)) + ChildSteps(reg, reg.registered, tid))
      modifies this`output, this`currentPath, this`alreadyProcessed
      ensures currentPath == old(currentPath) && alreadyProcessed == old(alreadyProcessed)
      ensures SoFar(g, currentPath, alreadyProcessed + [tid], tid, start, output, g.Steps(tid))
      decreases |g.types - Elems(alreadyProcessed)|, 1
    {
      hide SoFar;
      ghost var path, done := currentPath, alreadyProcessed;
      ghost var front := AttributeSteps(reg, reg.attributes(tid)) + ChildSteps(reg, reg.registered, tid);
      assert front + AggregateSteps(reg, aggregates[..0], tid) == front;
      for j := 0 to |aggregates|
        invariant currentPath == path && alreadyProcessed == done
        invariant SoFar(g, path, done + [tid], tid, start, output, front + AggregateSteps(reg, aggregates[..j], tid))
      {
        AggregatePrefix(g, tid, j);
        ghost var steps := front + AggregateSteps(reg, aggregates[..j], tid);
        assert steps + [] == steps;
        var item := aggregates[j];
        assert aggregates[..j + 1][..j] == aggregates[..j];
        assert front + AggregateSteps(reg, aggregates[..j + 1], tid)
            == steps + if item.0 == tid || item.1 == tid then [Step("$" + reg.name(Other(item, tid)), Other(item, tid))]
               else [];
        if item.0 == tid || item.1 == tid {
          var other := 0;
          if item.0 == tid {
            other := item.1;
          }
          if item.1 == tid {
            other := item.0;
          }
          Descend(tid, "$" + reg.name(other), other, g, steps, start);
        }
      }
      assert aggregates[..|aggregates|] == aggregates;
    }

    // Follows one step and comes back.
    method Descend(tid: TypeId, element: string, target: TypeId,
                   ghost g: TypeGraph, ghost steps: seq<Step>, ghost start: seq<(TypeId, string)>)
      requires g.reg == reg && g.aggregates == aggregates && g.Closed() && tid in g.types
      requires tid !in alreadyProcessed && steps + [Step(element, target)] <= g.Steps(tid)
      requires SoFar(g, currentPath, alreadyProcessed + [tid], tid, start, output, steps)
      modifies this`output, this`currentPath, this`alreadyProcessed
      ensures currentPath == old(currentPath) && alreadyProcessed == old(alreadyProcessed)
      ensures SoFar(g, currentPath, alreadyProcessed + [tid], tid, start, output, steps + [Step(element, target)])
      decreases |g.types - Elems(alreadyProcessed)|, 0
    {
      hide Gathered, GatheredSteps, AttributeSteps, ChildSteps, AggregateSteps;
      ghost var path, done := currentPath, alreadyProcessed;
      OneMoreStep(g, path, done + [tid], tid, steps, Step(element, target));
      Shrinks(g.types, alreadyProcessed, tid);
      currentPath := currentPath + [element];
      alreadyProcessed := alreadyProcessed + [tid];
      DoGather(target, g);
      alreadyProcessed := alreadyProcessed[..|alreadyProcessed| - 1];
      currentPath := currentPath[..|currentPath| - 1];
      assert currentPath == path && alreadyProcessed == done;
    }

    // The paths of a root type, from clean stacks.
    method Gather(tid: TypeId, ghost g: TypeGraph) returns (ghost walks: seq<seq<nat>>)
      requires g.reg == reg && g.aggregates == aggregates && g.Closed() && tid in g.types
      requires currentPath == [] && alreadyProcessed == []
      modifies this`output, this`currentPath, this`alreadyProcessed
      ensures currentPath == [] && alreadyProcessed == []
      ensures exists entries :: && output == old(output) + entries && ListsAllWalks(g, tid, entries, walks)
                                && ListsPaths(g, tid, entries)
    {
      DoGather(tid, g);
      walks := GatheredListsWalks(g, [], [], tid);
      PreorderIsDistinct(walks);
      GatheredPaths(g, tid, walks);
      // the output is then sorted and made unique in a copy, which leaves it as it is
    }
  }

  // The entries are the ends and the texts of the routes that meet no type twice.
  ghost predicate ListsPaths(g: TypeGraph, tid: TypeId, entries: seq<(TypeId, string)>) {
    forall t: TypeId, path :: (t, path) in entries <==> IsPath(g, tid, t, path)
  }

  lemma GatheredPaths(g: TypeGraph, tid: TypeId, walks: seq<seq<nat>>)
    requires g.Closed() && tid in g.types && ListsWalks(g, [], [], tid, Gathered(g, [], [], tid), walks)
    ensures ListsPaths(g, tid, Gathered(g, [], [], tid))
  {
    hide ListsWalks, Gathered, IsPath;
    forall t: TypeId, path ensures (t, path) in Gathered(g, [], [], tid) <==> IsPath(g, tid, t, path) {
      GatheredIffPath(g, tid, Gathered(g, [], [], tid), walks, t, path);
    }
  }

  lemma PreorderIsDistinct(walks: seq<seq<nat>>)
    requires forall i, j :: 0 <= i < j < |walks| ==> Before(walks[i], walks[j])
    ensures NoDup(walks)
  {
    forall i, j | 0 <= i < j < |walks| ensures walks[i] != walks[j] {
      BeforeIsStrict(walks[i]);
    }
  }

  lemma {:induction false} BeforeIsStrict(w: seq<nat>)
    ensures !Before(w, w)
  {
    if w != [] {
      BeforeIsStrict(w[1..]);
    }
  }

  // One entry per repeat-free walk from tid, in preorder.
  ghost predicate ListsAllWalks(g: TypeGraph, tid: TypeId, entries: seq<(TypeId, string)>, walks: seq<seq<nat>>) {
    && |entries| == |walks| && NoDup(walks)
    && (forall i, j :: 0 <= i < j < |walks| ==> Before(walks[i], walks[j]))
    && (forall w :: w in walks <==> RepeatFree(g, tid, w))
    && (forall i :: 0 <= i < |walks| ==> IsWalk(g, tid, walks[i]) && entries[i] == Entry(g, [], tid, walks[i]))
  }

  // The output holds, after `start`, the entries of the steps taken so far.
  ghost predicate SoFar(g: TypeGraph, path: seq<string>, processed: seq<TypeId>, tid: TypeId,
                        start: seq<(TypeId, string)>, output: seq<(TypeId, string)>, steps: seq<Step>)
    requires g.Closed() && tid in g.types
  {
    steps <= g.Steps(tid) && output == start + GatheredSteps(g, path, processed, tid, steps)
  }

  lemma OneMoreStep(g: TypeGraph, path: seq<string>, processed: seq<TypeId>, tid: TypeId, steps: seq<Step>, step: Step)
    requires g.Closed() && tid in g.types && steps + [step] <= g.Steps(tid)
    ensures step.target in g.types && steps <= g.Steps(tid)
    ensures GatheredSteps(g, path, processed, tid, steps + [step])
         == GatheredSteps(g, path, processed, tid, steps) + Gathered(g, path + [step.element], processed, step.target)
  {
    assert g.Steps(tid)[|steps|] == (steps + [step])[|steps|];
    assert (steps + [step])[..|steps|] == steps;
  }

  lemma {:induction false} AttributesPrefix(reg: Registry, attributes: seq<Attribute>, i: nat)
    requires i <= |attributes|
    ensures AttributeSteps(reg, attributes[..i]) <= AttributeSteps(reg, attributes)
  {
    var n := |attributes|;
    if i < n {
      AttributesPrefix(reg, attributes[..n - 1], i);
      assert attributes[..n - 1][..i] == attributes[..i];
    } else {
      assert attributes[..i] == attributes;
    }
  }

  lemma AttributePrefix(g: TypeGraph, tid: TypeId, i: nat)
    requires i < |g.reg.attributes(tid)|
    ensures AttributeSteps(g.reg, g.reg.attributes(tid)[..i + 1]) <= g.Steps(tid)
  {
    AttributesPrefix(g.reg, g.reg.attributes(tid), i + 1);
  }

  lemma {:induction false} ChildrenPrefix(reg: Registry, registered: seq<TypeId>, tid: TypeId, i: nat)
    requires i <= |registered|
    ensures ChildSteps(reg, registered[..i], tid) <= ChildSteps(reg, registered, tid)
  {
    var n := |registered|;
    if i < n {
      ChildrenPrefix(reg, registered[..n - 1], tid, i);
      assert registered[..n - 1][..i] == registered[..i];
    } else {
      assert registered[..i] == registered;
    }
  }

  lemma ChildPrefix(g: TypeGraph, tid: TypeId, j: nat)
    requires j < |g.reg.registered|
    ensures var aSteps := AttributeSteps(g.reg, g.reg.attributes(tid));
      && aSteps + ChildSteps(g.reg, g.reg.registered[..j + 1], tid) <= g.Steps(tid)
      && ChildSteps(g.reg, g.reg.registered[..j + 1], tid) == ChildSteps(g.reg, g.reg.registered[..j], tid)
           + if g.reg.isChildOf(g.reg.registered[j], tid)
             then [Step("$" + g.reg.name(g.reg.registered[j]), g.reg.registered[j])]
             else []
  {
    ChildrenPrefix(g.reg, g.reg.registered, tid, j + 1);
    assert g.reg.registered[..j + 1][..j] == g.reg.registered[..j];
  }

  lemma {:induction false} AggregatesPrefix(reg: Registry, aggregates: seq<(TypeId, TypeId)>, tid: TypeId, i: nat)
    requires i <= |aggregates|
    ensures AggregateSteps(reg, aggregates[..i], tid) <= AggregateSteps(reg, aggregates, tid)
  {
    var n := |aggregates|;
    if i < n {
      AggregatesPrefix(reg, aggregates[..n - 1], tid, i);
      assert aggregates[..n - 1][..i] == aggregates[..i];
    } else {
      assert aggregates[..i] == aggregates;
    }
  }

  lemma AggregatePrefix(g: TypeGraph, tid: TypeId, j: nat)
    requires j < |g.aggregates|
    ensures var steps := AttributeSteps(g.reg, g.reg.attributes(tid)) + ChildSteps(g.reg, g.reg.registered, tid);
      steps + AggregateSteps(g.reg, g.aggregates[..j + 1], tid) <= g.Steps(tid)
  {
    AggregatesPrefix(g.reg, g.aggregates, tid, j + 1);
  }
}
