/** The stack-based enumeration of the simple cycles of a graph in topsort.py. */
module FindCycles {
  import opened Lists
  import opened Rotation

  ghost predicate Edge<T>(g: map<T, seq<T>>, a: T, b: T) {
    a in g && b in g[a]
  }

  ghost predicate Walk<T>(g: map<T, seq<T>>, p: seq<T>) {
    |p| > 0 && forall i :: 0 <= i < |p| - 1 ==> Edge(g, p[i], p[i + 1])
  }

  // A walk without repeats that starts at s.
  ghost predicate SimplePath<T>(g: map<T, seq<T>>, s: T, p: seq<T>) {
    Walk(g, p) && p[0] == s && NoDup(p)
  }

  // The last item is a parent of the first.
  ghost predicate SimpleCycle<T>(g: map<T, seq<T>>, z: seq<T>) {
    Walk(g, z) && NoDup(z) && Edge(g, z[|z| - 1], z[0])
  }

  ghost predicate Listed<T>(cycles: seq<seq<T>>, z: seq<T>) {
    exists i :: 0 <= i < |cycles| && IsRotation(cycles[i], z)
  }

  // Simple cycles, no two of which are rotations of each other.
  ghost predicate Distinct<T>(g: map<T, seq<T>>, cycles: seq<seq<T>>) {
    && (forall i :: 0 <= i < |cycles| ==> SimpleCycle(g, cycles[i]))
    && (forall i, j :: 0 <= i < j < |cycles| ==> !IsRotation(cycles[i], cycles[j]))
  }

  ghost predicate Reaches<T(!new)>(g: map<T, seq<T>>, a: T, b: T) {
    exists p :: Walk(g, p) && p[0] == a && p[|p| - 1] == b
  }

  // Every simple cycle that can be reached from s is listed.
  ghost predicate Covered<T(!new)>(g: map<T, seq<T>>, cycles: seq<seq<T>>, s: T) {
    forall z :: SimpleCycle(g, z) && Reaches(g, s, z[0]) ==> Listed(cycles, z)
  }

  // The cycles closed by an edge from the end of p back into p are listed.
  ghost predicate Handled<T>(g: map<T, seq<T>>, cycles: seq<seq<T>>, p: seq<T>) {
    forall k :: 0 <= k < |p| && Edge(g, p[|p| - 1], p[k]) ==> Listed(cycles, p[k..])
  }

  ghost predicate HasPrefix<T>(paths: seq<seq<T>>, p: seq<T>) {
    exists i :: 0 <= i < |paths| && paths[i] <= p
  }

  // Every simple path from s has been handled or will still be built from one on the stack.
  ghost predicate Exploring<T(!new)>(g: map<T, seq<T>>, cycles: seq<seq<T>>, s: T, paths: seq<seq<T>>) {
    && (forall i :: 0 <= i < |paths| ==> SimplePath(g, s, paths[i]))
    && (forall p :: SimplePath(g, s, p) ==> Handled(g, cycles, p) || HasPrefix(paths, p))
  }

  // The same while the first j children of the end of the popped path are done.
  ghost predicate Extending<T(!new)>(g: map<T, seq<T>>, cycles: seq<seq<T>>, s: T, paths: seq<seq<T>>,
                                     path: seq<T>, children: seq<T>, j: nat)
    requires j <= |children|
  {
    && (forall i :: 0 <= i < |paths| ==> SimplePath(g, s, paths[i]))
    && (forall k :: 0 <= k < |path| && path[k] in children[..j] ==> Listed(cycles, path[k..]))
    && (forall p :: SimplePath(g, s, p) ==>
          Handled(g, cycles, p) || HasPrefix(paths, p) || p == path
          || (|path| < |p| && path <= p && p[|path|] in children[j..]))
  }

  function IndexOf<T(==)>(s: seq<T>, x: T): (i: nat)
    requires x in s
    ensures i < |s| && s[i] == x && x !in s[..i]
  {
    if s[0] == x then 0 else
      assert x in s[1..];
      var i := IndexOf(s[1..], x);
      assert s[..i + 1] == [s[0]] + s[1..][..i];
      1 + i
  }

  // ---- termination: how many paths a stacked path can still give rise to

  ghost function Nodes<T>(g: map<T, seq<T>>): set<T> {
    g.Keys + set a, b | a in g && b in g[a] :: b
  }

  // With room for n more nodes and at most d children per node.
  ghost function Extensions(n: nat, d: nat): nat {
    if n == 0 then 1 else 1 + d * Extensions(n - 1, d)
  }

  ghost function Weight<T>(paths: seq<seq<T>>, size: nat, d: nat): nat {
    if paths == [] then 0
    else
      var top := paths[|paths| - 1];
      Weight(paths[..|paths| - 1], size, d) + Extensions(if |top| <= size then size - |top| else 0, d)
  }

  lemma {:induction false} DegreeBound<T>(g: map<T, seq<T>>, keys: set<T>) returns (d: nat)
    requires keys <= g.Keys
    ensures forall a :: a in keys ==> |g[a]| <= d
    decreases keys
  {
    if keys == {} {
      d := 0;
    } else {
      var a :| a in keys;
      d := DegreeBound(g, keys - {a});
      d := if |g[a]| > d then |g[a]| else d;
    }
  }

  lemma SimplePathFits<T>(g: map<T, seq<T>>, s: T, p: seq<T>)
    requires SimplePath(g, s, p) && s in g
    ensures |p| <= |Nodes(g)|
  {
    forall x | x in p ensures x in Nodes(g) {
      var i :| 0 <= i < |p| && p[i] == x;
      if i > 0 {
        assert Edge(g, p[i - 1], p[i]);
      }
    }
    if |p| > |Nodes(g)| {
      Pigeonhole(p, Nodes(g));
    }
  }

  // The room that j children of the end of path can take up on the stack.
  ghost function Room<T>(path: seq<T>, size: nat, d: nat, j: nat): nat {
    if j == 0 || |path| >= size then 0
    else Room(path, size, d, j - 1) + Extensions(size - |path| - 1, d)
  }

  lemma RoomGrows<T>(path: seq<T>, size: nat, d: nat, j: nat)
    ensures Room(path, size, d, j) <= Room(path, size, d, j + 1)
  {
  }

  lemma {:induction false} RoomIsProduct<T>(path: seq<T>, size: nat, d: nat, j: nat)
    requires |path| < size
    ensures Room(path, size, d, j) == j * Extensions(size - |path| - 1, d)
  {
    if j > 0 {
      RoomIsProduct(path, size, d, j - 1);
    }
  }

  // What the children of a popped path take up is less than what the path itself did.
  lemma RoomBound<T>(path: seq<T>, size: nat, d: nat, j: nat)
    requires j <= d && |path| <= size
    ensures Room(path, size, d, j) < Extensions(size - |path|, d)
  {
    if |path| < size {
      RoomIsProduct(path, size, d, j);
      var e := Extensions(size - |path| - 1, d);
      assert j * e <= d * e;
    }
  }

  lemma PopWeight<T>(stacked: seq<seq<T>>, size: nat, d: nat)
    requires stacked != [] && |stacked[|stacked| - 1]| <= size
    ensures Weight(stacked, size, d)
         == Weight(stacked[..|stacked| - 1], size, d) + Extensions(size - |stacked[|stacked| - 1]|, d)
    ensures Weight(stacked[..|stacked| - 1], size, d) < Weight(stacked, size, d)
  {
  }

  lemma PushWeight<T>(paths: seq<seq<T>>, path: seq<T>, child: T, size: nat, d: nat, j: nat)
    requires |path| < size
    ensures Weight(paths + [path + [child]], size, d) + Room(path, size, d, j)
         == Weight(paths, size, d) + Room(path, size, d, j + 1)
  {
    assert (paths + [path + [child]])[..|paths|] == paths;
  }

  // ---- listing cycles

  lemma ListedGrows<T>(known: seq<seq<T>>, cycles: seq<seq<T>>, z: seq<T>)
    requires known <= cycles && Listed(known, z)
    ensures Listed(cycles, z)
  {
    var i :| 0 <= i < |known| && IsRotation(known[i], z);
    assert IsRotation(cycles[i], z);
  }

  lemma HandledGrows<T>(g: map<T, seq<T>>, known: seq<seq<T>>, cycles: seq<seq<T>>, p: seq<T>)
    requires known <= cycles && Handled(g, known, p)
    ensures Handled(g, cycles, p)
  {
    forall k | 0 <= k < |p| && Edge(g, p[|p| - 1], p[k]) ensures Listed(cycles, p[k..]) {
      ListedGrows(known, cycles, p[k..]);
    }
  }

  lemma CoveredGrows<T(!new)>(g: map<T, seq<T>>, known: seq<seq<T>>, cycles: seq<seq<T>>, s: T)
    requires known <= cycles && Covered(g, known, s)
    ensures Covered(g, cycles, s)
  {
    forall z | SimpleCycle(g, z) && Reaches(g, s, z[0]) ensures Listed(cycles, z) {
      ListedGrows(known, cycles, z);
    }
  }

  lemma NowListed<T>(known: seq<seq<T>>, cycle: seq<T>, cycles: seq<seq<T>>)
    requires (Listed(known, cycle) && cycles == known) || cycles == known + [cycle]
    ensures Listed(cycles, cycle)
  {
    if cycles == known + [cycle] {
      RotationReflexive(cycle);
      assert IsRotation(cycles[|known|], cycle);
    }
  }

  lemma DistinctAppend<T>(g: map<T, seq<T>>, known: seq<seq<T>>, cycle: seq<T>)
    requires Distinct(g, known) && SimpleCycle(g, cycle) && !Listed(known, cycle)
    ensures Distinct(g, known + [cycle])
  {
  }

  // Exactly one entry is a rotation of z.
  ghost predicate ListedOnce<T>(cycles: seq<seq<T>>, z: seq<T>) {
    exists i :: && 0 <= i < |cycles| && IsRotation(cycles[i], z)
                && forall j :: 0 <= j < |cycles| && IsRotation(cycles[j], z) ==> j == i
  }

  lemma DistinctListsOnce<T>(g: map<T, seq<T>>, cycles: seq<seq<T>>, z: seq<T>)
    requires Distinct(g, cycles)
    ensures Listed(cycles, z) <==> ListedOnce(cycles, z)
    ensures Listed(cycles, z) ==> SimpleCycle(g, z)
  {
    hide SimpleCycle;
    if i :| 0 <= i < |cycles| && IsRotation(cycles[i], z) {
      RotationOfCycle(g, cycles[i], z);
      forall j | 0 <= j < |cycles| && IsRotation(cycles[j], z) ensures j == i {
        RotationSymmetric(cycles[i], z);
        RotationSymmetric(cycles[j], z);
        RotationTransitive(cycles[i], z, cycles[j]);
        RotationTransitive(cycles[j], z, cycles[i]);
      }
    }
  }

  lemma RotationOfCycle<T>(g: map<T, seq<T>>, z: seq<T>, z': seq<T>)
    requires SimpleCycle(g, z) && IsRotation(z, z')
    ensures SimpleCycle(g, z')
  {
    var i :| 0 <= i <= |z| && z' == Rotate(z, i);
    if i == |z| {
      assert z' == z;
    } else {
      RotatedCycle(g, z, i);
    }
  }

  lemma RotatedListed<T>(cycles: seq<seq<T>>, z: seq<T>, z': seq<T>)
    requires Listed(cycles, z) && IsRotation(z, z')
    ensures Listed(cycles, z')
  {
    var i :| 0 <= i < |cycles| && IsRotation(cycles[i], z);
    RotationTransitive(cycles[i], z, z');
  }

  // ---- the stack

  lemma ExploringStarts<T(!new)>(g: map<T, seq<T>>, cycles: seq<seq<T>>, s: T)
    ensures Exploring(g, cycles, s, [[s]])
  {
    forall p | SimplePath(g, s, p) ensures HasPrefix([[s]], p) {
      assert [[s]][0] <= p;
    }
  }

  lemma Popped<T(!new)>(g: map<T, seq<T>>, cycles: seq<seq<T>>, s: T, stacked: seq<seq<T>>)
    requires Exploring(g, cycles, s, stacked) && stacked != [] && s in g
    ensures SimplePath(g, s, stacked[|stacked| - 1])
    ensures 0 < |stacked[|stacked| - 1]| <= |Nodes(g)|
  {
    SimplePathFits(g, s, stacked[|stacked| - 1]);
  }

  lemma PrefixOfPopped<T>(stacked: seq<seq<T>>, p: seq<T>)
    requires stacked != [] && HasPrefix(stacked, p)
    ensures HasPrefix(stacked[..|stacked| - 1], p) || stacked[|stacked| - 1] <= p
  {
    var i :| 0 <= i < |stacked| && stacked[i] <= p;
    if i < |stacked| - 1 {
      assert stacked[..|stacked| - 1][i] <= p;
    }
  }

  // A path whose end has no entry in the dictionary has no extensions and closes no cycle.
  lemma Barren<T(!new)>(g: map<T, seq<T>>, cycles: seq<seq<T>>, s: T, stacked: seq<seq<T>>)
    requires Exploring(g, cycles, s, stacked) && stacked != []
    requires stacked[|stacked| - 1] != [] && stacked[|stacked| - 1][|stacked[|stacked| - 1]| - 1] !in g
    ensures Exploring(g, cycles, s, stacked[..|stacked| - 1])
  {
    var path, paths := stacked[|stacked| - 1], stacked[..|stacked| - 1];
    forall p | SimplePath(g, s, p) ensures Handled(g, cycles, p) || HasPrefix(paths, p) {
      if HasPrefix(stacked, p) {
        PrefixOfPopped(stacked, p);
        assert path <= p && |path| < |p| ==> Edge(g, p[|path| - 1], p[|path|]);
      }
    }
  }

  lemma ExtendingStarts<T(!new)>(g: map<T, seq<T>>, cycles: seq<seq<T>>, s: T, stacked: seq<seq<T>>, children: seq<T>)
    requires Exploring(g, cycles, s, stacked) && stacked != [] && stacked[|stacked| - 1] != []
    requires var path := stacked[|stacked| - 1]; path[|path| - 1] in g && children == g[path[|path| - 1]]
    ensures Extending(g, cycles, s, stacked[..|stacked| - 1], stacked[|stacked| - 1], children, 0)
  {
    var path, paths := stacked[|stacked| - 1], stacked[..|stacked| - 1];
    assert children[0..] == children;
    forall p | SimplePath(g, s, p)
      ensures Handled(g, cycles, p) || HasPrefix(paths, p) || p == path
           || (|path| < |p| && path <= p && p[|path|] in children[0..])
    {
      if HasPrefix(stacked, p) {
        PrefixOfPopped(stacked, p);
        if path <= p && |path| < |p| {
          assert Edge(g, p[|path| - 1], p[|path|]);
        }
      }
    }
  }

  lemma ClosesCycle<T>(g: map<T, seq<T>>, s: T, path: seq<T>, child: T)
    requires SimplePath(g, s, path) && child in path && Edge(g, path[|path| - 1], child)
    ensures SimpleCycle(g, path[IndexOf(path, child)..])
  {
    var z := path[IndexOf(path, child)..];
    forall i | 0 <= i < |z| - 1 ensures Edge(g, z[i], z[i + 1]) {
      assert Edge(g, path[IndexOf(path, child) + i], path[IndexOf(path, child) + i + 1]);
    }
  }

  lemma ExtendingCycle<T(!new)>(g: map<T, seq<T>>, known: seq<seq<T>>, cycles: seq<seq<T>>, s: T,
                                paths: seq<seq<T>>, path: seq<T>, children: seq<T>, j: nat)
    requires j < |children| && Extending(g, known, s, paths, path, children, j)
    requires known <= cycles && NoDup(path) && children[j] in path
    requires Listed(cycles, path[IndexOf(path, children[j])..])
    ensures Extending(g, cycles, s, paths, path, children, j + 1)
  {
    hide SimplePath, HasPrefix, Handled, Listed;
    forall k | 0 <= k < |path| && path[k] in children[..j + 1] ensures Listed(cycles, path[k..]) {
      assert children[..j + 1] == children[..j] + [children[j]];
      if path[k] in children[..j] {
        ListedGrows(known, cycles, path[k..]);
      } else {
        assert k == IndexOf(path, children[j]);
      }
    }
    forall p | SimplePath(g, s, p)
      ensures Handled(g, cycles, p) || HasPrefix(paths, p) || p == path
           || (|path| < |p| && path <= p && p[|path|] in children[j + 1..])
    {
      CycleBuildsNothing(g, known, cycles, s, paths, path, children, j, p);
    }
  }

  lemma CycleBuildsNothing<T(!new)>(g: map<T, seq<T>>, known: seq<seq<T>>, cycles: seq<seq<T>>, s: T,
                                    paths: seq<seq<T>>, path: seq<T>, children: seq<T>, j: nat, p: seq<T>)
    requires j < |children| && Extending(g, known, s, paths, path, children, j) && SimplePath(g, s, p)
    requires known <= cycles && children[j] in path
    ensures Handled(g, cycles, p) || HasPrefix(paths, p) || p == path
         || (|path| < |p| && path <= p && p[|path|] in children[j + 1..])
  {
    hide SimplePath, HasPrefix, Handled, Listed;
    assert children[j..] == [children[j]] + children[j + 1..];
    if Handled(g, known, p) {
      HandledGrows(g, known, cycles, p);
    } else if |path| < |p| && path <= p && p[|path|] == children[j] {
      RepeatedOnPath(g, s, p, path);
    }
  }

  lemma RepeatedOnPath<T>(g: map<T, seq<T>>, s: T, p: seq<T>, path: seq<T>)
    requires SimplePath(g, s, p) && path <= p && |path| < |p|
    ensures p[|path|] !in path
  {
  }

  lemma ExtendingPush<T(!new)>(g: map<T, seq<T>>, cycles: seq<seq<T>>, s: T, paths: seq<seq<T>>,
                               path: seq<T>, children: seq<T>, j: nat)
    requires j < |children| && Extending(g, cycles, s, paths, path, children, j)
    requires SimplePath(g, s, path) && Edge(g, path[|path| - 1], children[j]) && children[j] !in path
    ensures Extending(g, cycles, s, paths + [path + [children[j]]], path, children, j + 1)
    ensures SimplePath(g, s, path + [children[j]])
  {
    hide HasPrefix, Handled, Listed;
    var longer := path + [children[j]];
    var paths' := paths + [longer];
    assert SimplePath(g, s, longer);
    hide SimplePath;
    assert children[..j + 1] == children[..j] + [children[j]];
    assert children[j..] == [children[j]] + children[j + 1..];
    forall p | SimplePath(g, s, p)
      ensures Handled(g, cycles, p) || HasPrefix(paths', p) || p == path
           || (|path| < |p| && path <= p && p[|path|] in children[j + 1..])
    {
      if HasPrefix(paths, p) || (|path| < |p| && path <= p && p[|path|] == children[j]) {
        PrefixPush(paths, longer, p);
      }
    }
  }

  lemma PrefixPush<T>(paths: seq<seq<T>>, longer: seq<T>, p: seq<T>)
    requires HasPrefix(paths, p) || longer <= p
    ensures HasPrefix(paths + [longer], p)
  {
    if longer <= p {
      assert (paths + [longer])[|paths|] <= p;
    } else {
      var i :| 0 <= i < |paths| && paths[i] <= p;
      assert (paths + [longer])[i] <= p;
    }
  }

  lemma ExtendingEnds<T(!new)>(g: map<T, seq<T>>, cycles: seq<seq<T>>, s: T, paths: seq<seq<T>>,
                               path: seq<T>, children: seq<T>)
    requires Extending(g, cycles, s, paths, path, children, |children|)
    requires path != [] && path[|path| - 1] in g && children == g[path[|path| - 1]]
    ensures Exploring(g, cycles, s, paths)
  {
    hide SimplePath, HasPrefix, Listed;
    assert children[..|children|] == children;
    assert Handled(g, cycles, path);
    assert children[|children|..] == [];
  }

  lemma SearchReaches<T(!new)>(g: map<T, seq<T>>, s: T, p: seq<T>)
    requires SimplePath(g, s, p)
    ensures Reaches(g, s, p[|p| - 1])
  {
  }

  // ---- an explored start lists every cycle that can be reached from it

  // The walk, cut down to a simple path that meets the cycle z only at its end.
  lemma {:induction false} FirstMeeting<T>(g: map<T, seq<T>>, w: seq<T>, z: seq<T>) returns (p: seq<T>)
    requires Walk(g, w) && w[|w| - 1] in z
    ensures SimplePath(g, w[0], p) && p[|p| - 1] in z
    ensures forall i :: 0 <= i < |p| - 1 ==> p[i] !in z
    decreases |w|
  {
    if i :| 0 <= i < |w| - 1 && w[i] in z {
      p := FirstMeeting(g, w[..i + 1], z);
    } else if i, j :| 0 <= i < j < |w| && w[i] == w[j] {
      var shorter := w[..i] + w[j..];
      forall k | 0 <= k < |shorter| - 1 ensures Edge(g, shorter[k], shorter[k + 1]) {
        if k < i {
          assert Edge(g, w[k], w[k + 1]);
        } else {
          assert Edge(g, w[j + k - i], w[j + k - i + 1]);
        }
      }
      p := FirstMeeting(g, shorter, z);
    } else {
      p := w;
    }
  }

  lemma RotatedCycle<T>(g: map<T, seq<T>>, z: seq<T>, i: nat)
    requires SimpleCycle(g, z) && i < |z|
    ensures SimpleCycle(g, Rotate(z, i)) && Rotate(z, i)[0] == z[i]
  {
    var r, n := Rotate(z, i), |z|;
    forall k | 0 <= k < n - 1 ensures Edge(g, r[k], r[k + 1]) {
      if i + k + 1 < n {
        assert Edge(g, z[i + k], z[i + k + 1]);
      } else if i + k + 1 > n {
        assert Edge(g, z[i + k - n], z[i + k - n + 1]);
      }
    }
    if i > 0 {
      assert Edge(g, z[i - 1], z[i]);
    }
  }

  // A simple path to a cycle followed by one round of the cycle.
  lemma PathThenCycle<T>(g: map<T, seq<T>>, s: T, p: seq<T>, r: seq<T>)
    requires SimplePath(g, s, p) && SimpleCycle(g, r) && p[|p| - 1] == r[0]
    requires forall i :: 0 <= i < |p| - 1 ==> p[i] !in r
    ensures SimplePath(g, s, p[..|p| - 1] + r)
  {
    var m := |p| - 1;
    var q := p[..m] + r;
    forall k | 0 <= k < |q| - 1 ensures Edge(g, q[k], q[k + 1]) {
      if k < m {
        assert Edge(g, p[k], p[k + 1]);
      } else {
        assert Edge(g, r[k - m], r[k - m + 1]);
      }
    }
    forall i, j | 0 <= i < j < |q| ensures q[i] != q[j] {
      if i < m <= j {
        assert q[j] in r;
      }
    }
  }

  lemma ExploredCovers<T(!new)>(g: map<T, seq<T>>, cycles: seq<seq<T>>, s: T)
    requires Exploring(g, cycles, s, [])
    ensures Covered(g, cycles, s)
  {
    forall z | SimpleCycle(g, z) && Reaches(g, s, z[0]) ensures Listed(cycles, z) {
      var w :| Walk(g, w) && w[0] == s && w[|w| - 1] == z[0];
      var p := FirstMeeting(g, w, z);
      var i :| 0 <= i < |z| && z[i] == p[|p| - 1];
      RotatedCycle(g, z, i);
      var r, m := Rotate(z, i), |p| - 1;
      forall k | 0 <= k < m ensures p[k] !in r {
        assert p[k] !in z;
      }
      PathThenCycle(g, s, p, r);
      var q := p[..m] + r;
      assert !HasPrefix([], q);
      assert Handled(g, cycles, q);
      assert q[m..] == r && Edge(g, q[|q| - 1], q[m]);
      assert IsRotation(z, r);
      RotationSymmetric(z, r);
      RotatedListed(cycles, r, z);
    }
  }

  // Explored starts cover all cycles, because each key is one or was met while exploring one.
  lemma AllCovered<T(!new)>(g: map<T, seq<T>>, cycles: seq<seq<T>>, explored: set<T>, visited: set<T>, z: seq<T>)
    requires SimpleCycle(g, z)
    requires forall k :: k in g ==> k in explored || k in visited
    requires forall s :: s in explored ==> Covered(g, cycles, s)
    requires Met(g, explored, visited)
    ensures Listed(cycles, z)
  {
    hide Listed;
    assert z[0] in g by {
      if |z| > 1 {
        assert Edge(g, z[0], z[1]);
      }
    }
    assert Walk(g, [z[0]]);
    assert Reaches(g, z[0], z[0]);
  }

  // ---- the enumeration

  // Each node that has been met is reachable from an explored start.
  ghost predicate Met<T(!new)>(g: map<T, seq<T>>, explored: set<T>, visited: set<T>) {
    forall v :: v in visited ==> exists s :: s in explored && Reaches(g, s, v)
  }

  method FindCycles<T(==,!new)>(parentChildren: map<T, seq<T>>) returns (cycles: seq<seq<T>>)
    ensures Distinct(parentChildren, cycles)
    ensures forall z :: SimpleCycle(parentChildren, z) <==> ListedOnce(cycles, z)
  {
    ghost var g := parentChildren;
    cycles := [];
    assert Distinct(g, []);
    var visited: set<T> := {};
    ghost var explored: set<T> := {};
    assert Met(g, {}, {});
    hide Covered, Reaches, Distinct, Listed, ListedOnce, SimpleCycle, Met;
    var rest := parentChildren.Keys;
    while rest != {}
      invariant rest <= g.Keys
      invariant Distinct(g, cycles)
      invariant forall k :: k in g && k !in rest ==> k in explored || k in visited
      invariant forall s :: s in explored ==> Covered(g, cycles, s)
      invariant Met(g, explored, visited)
      decreases |rest|
    {
      var parent :| parent in rest;
      rest := rest - {parent};
      if parent in visited {
        // parent lies on a path that has already been traversed
        continue;
      }
      ghost var before := cycles;
      MetGrows(g, explored, visited, parent);
      explored := explored + {parent};
      cycles, visited := Explore(parentChildren, parent, cycles, visited, explored);
      forall s | s in explored ensures Covered(g, cycles, s) {
        if s != parent {
          CoveredGrows(g, before, cycles, s);
        }
      }
    }
    forall z ensures SimpleCycle(g, z) <==> ListedOnce(cycles, z) {
      DistinctListsOnce(g, cycles, z);
      if SimpleCycle(g, z) {
        AllCovered(g, cycles, explored, visited, z);
      }
    }
  }

  lemma MetGrows<T(!new)>(g: map<T, seq<T>>, explored: set<T>, visited: set<T>, s: T)
    requires Met(g, explored, visited)
    ensures Met(g, explored + {s}, visited)
  {
  }

  lemma MetAlso<T(!new)>(g: map<T, seq<T>>, explored: set<T>, visited: set<T>, s: T, v: T)
    requires Met(g, explored, visited) && s in explored && Reaches(g, s, v)
    ensures Met(g, explored, visited + {v})
  {
  }

  // Builds all simple paths from start on a stack, collecting the cycles they close.
  method Explore<T(==,!new)>(parentChildren: map<T, seq<T>>, start: T, known: seq<seq<T>>, seen: set<T>,
                             ghost explored: set<T>)
    returns (cycles: seq<seq<T>>, visited: set<T>)
    requires start in parentChildren && start in explored
    requires Distinct(parentChildren, known) && Met(parentChildren, explored, seen)
    ensures Distinct(parentChildren, cycles) && known <= cycles
    ensures Met(parentChildren, explored, visited) && seen <= visited
    ensures Covered(parentChildren, cycles, start)
  {
    ghost var g := parentChildren;
    cycles, visited := known, seen;
    ghost var size := |Nodes(g)|;
    ghost var d := DegreeBound(g, g.Keys);
    var paths := [[start]];
    hide Covered, Reaches, Exploring, Extending, Distinct, Listed, SimplePath, SimpleCycle, Nodes, Met;
    ExploringStarts(g, cycles, start);
    while paths != []
      invariant Distinct(g, cycles) && known <= cycles
      invariant Exploring(g, cycles, start, paths)
      invariant Met(g, explored, visited) && seen <= visited
      decreases Weight(paths, size, d)
    {
      ghost var stacked := paths;
      var path := paths[|paths| - 1];
      paths := paths[..|paths| - 1];
      Popped(g, cycles, start, stacked);
      PopWeight(stacked, size, d);
      var parent := path[|path| - 1];
      if parent !in parentChildren {
        Barren(g, cycles, start, stacked);
        continue;
      }
      var children := parentChildren[parent];
      ExtendingStarts(g, cycles, start, stacked, children);
      ghost var s := Search(g, start, explored, path, children, d, Weight(paths, size, d));
      paths, cycles, visited := Extend(path, children, paths, cycles, visited, s);
      ExtendingEnds(g, cycles, start, paths, path, children);
      RoomBound(path, size, d, |children|);
    }
    ExploredCovers(g, cycles, start);
  }

  // The path that is being extended, from an explored start, with the children of its end and the
  // weight that the stack may have.
  datatype Search<T> = Search(g: map<T, seq<T>>, start: T, explored: set<T>, path: seq<T>, children: seq<T>,
                              d: nat, budget: nat)
  {
    ghost predicate Valid() {
      && start in g && start in explored
      && path != [] && SimplePath(g, start, path)
      && path[|path| - 1] in g && children == g[path[|path| - 1]]
    }
  }

  // What holds when the first j children have been followed.
  ghost predicate Followed<T(!new)>(s: Search<T>, j: nat, paths: seq<seq<T>>, cycles: seq<seq<T>>, visited: set<T>)
    requires j <= |s.children|
  {
    && Distinct(s.g, cycles)
    && Met(s.g, s.explored, visited)
    && Extending(s.g, cycles, s.start, paths, s.path, s.children, j)
    && Weight(paths, |Nodes(s.g)|, s.d) <= s.budget + Room(s.path, |Nodes(s.g)|, s.d, j)
  }

  lemma PushStep<T(!new)>(s: Search<T>, j: nat, paths: seq<seq<T>>, cycles: seq<seq<T>>, visited: set<T>)
    requires s.Valid() && j < |s.children| && s.children[j] !in s.path
    requires Followed(s, j, paths, cycles, visited)
    ensures Followed(s, j + 1, paths + [s.path + [s.children[j]]], cycles, visited + {s.children[j]})
  {
    var g, child := s.g, s.children[j];
    ChildIsEdge(g, s.path, s.children, j);
    hide Extending, SimplePath, Weight, Room, Nodes, Distinct, Met, Reaches, Edge, Extensions;
    ExtendingPush(g, cycles, s.start, paths, s.path, s.children, j);
    SimplePathFits(g, s.start, s.path + [child]);
    PushWeight(paths, s.path, child, |Nodes(g)|, s.d, j);
    SearchReaches(g, s.start, s.path + [child]);
    MetAlso(g, s.explored, visited, s.start, child);
  }

  lemma CycleStep<T(!new)>(s: Search<T>, j: nat, paths: seq<seq<T>>, known: seq<seq<T>>, visited: set<T>,
                           cycle: seq<T>, cycles: seq<seq<T>>)
    requires s.Valid() && j < |s.children| && s.children[j] in s.path
    requires Followed(s, j, paths, known, visited)
    requires cycle == s.path[IndexOf(s.path, s.children[j])..]
    requires cycles == if Listed(known, cycle) then known else known + [cycle]
    ensures known <= cycles && Followed(s, j + 1, paths, cycles, visited)
  {
    var g := s.g;
    ChildIsEdge(g, s.path, s.children, j);
    hide Extending, SimplePath, Weight, Room, Nodes, Distinct, Met, Edge, Listed, SimpleCycle, IndexOf, Extensions;
    PathHasNoDup(g, s.start, s.path);
    ClosesCycle(g, s.start, s.path, s.children[j]);
    if !Listed(known, cycle) {
      DistinctAppend(g, known, cycle);
    }
    NowListed(known, cycle, cycles);
    ExtendingCycle(g, known, cycles, s.start, paths, s.path, s.children, j);
    RoomGrows(s.path, |Nodes(g)|, s.d, j);
  }

  lemma ChildIsEdge<T>(g: map<T, seq<T>>, path: seq<T>, children: seq<T>, j: nat)
    requires path != [] && path[|path| - 1] in g && children == g[path[|path| - 1]] && j < |children|
    ensures Edge(g, path[|path| - 1], children[j])
  {
  }

  // Follows each child of the end of a path: back into the path, which closes a cycle, or onwards.
  method Extend<T(==,!new)>(path: seq<T>, children: seq<T>, stack: seq<seq<T>>, known: seq<seq<T>>, seen: set<T>,
                            ghost s: Search<T>)
    returns (paths: seq<seq<T>>, cycles: seq<seq<T>>, visited: set<T>)
    requires s.Valid() && s.path == path && s.children == children
    requires Followed(s, 0, stack, known, seen)
    ensures known <= cycles && seen <= visited
    ensures Followed(s, |children|, paths, cycles, visited)
  {
    hide *;
    paths, cycles, visited := stack, known, seen;
    for j := 0 to |children|
      invariant known <= cycles && seen <= visited
      invariant Followed(s, j, paths, cycles, visited)
    {
      paths, cycles, visited := Follow(path, children[j], paths, cycles, visited, s, j);
    }
  }

  // Follows one child.
  method Follow<T(==,!new)>(path: seq<T>, child: T, stack: seq<seq<T>>, known: seq<seq<T>>, seen: set<T>,
                            ghost s: Search<T>, ghost j: nat)
    returns (paths: seq<seq<T>>, cycles: seq<seq<T>>, visited: set<T>)
    requires s.Valid() && s.path == path && j < |s.children| && s.children[j] == child
    requires Followed(s, j, stack, known, seen)
    ensures known <= cycles && seen <= visited
    ensures Followed(s, j + 1, paths, cycles, visited)
  {
    hide *;
    paths, cycles, visited := stack, known, seen;
    if child in path {
      var cycle := path[IndexOf(path, child)..];
      var isDup := IsDuplicate(cycles, cycle);
      if !isDup {
        cycles := cycles + [cycle];
      }
      CycleStep(s, j, stack, known, seen, cycle, cycles);
    } else {
      PushStep(s, j, stack, known, seen);
      paths := paths + [path + [child]];
      visited := visited + {child};
    }
  }

  lemma PathHasNoDup<T>(g: map<T, seq<T>>, s: T, path: seq<T>)
    requires SimplePath(g, s, path)
    ensures NoDup(path) && path != []
  {
  }

  // Whether a rotation of the cycle has been found before.
  method IsDuplicate<T(==)>(cycles: seq<seq<T>>, cycle: seq<T>) returns (isDup: bool)
    requires cycle != []
    ensures isDup <==> Listed(cycles, cycle)
  {
    isDup := false;
    for i := 0 to |cycles|
      invariant !isDup
      invariant forall k :: 0 <= k < i ==> !IsRotation(cycles[k], cycle)
    {
      var rotated := IsRotated(cycles[i], cycle);
      if rotated.value {
        isDup := true;
        break;
      }
    }
  }
}
