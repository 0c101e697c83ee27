/** Rotations of lists, and the test for them in rad_util.py. */
module Rotation {
  import opened Lists

  function Rotate<T>(s: seq<T>, i: nat): seq<T>
    requires i <= |s|
  {
    s[i..] + s[..i]
  }

  ghost predicate IsRotation<T>(a: seq<T>, b: seq<T>) {
    exists i :: 0 <= i <= |a| && b == Rotate(a, i)
  }

  // None stands for the IndexError that two empty lists provoke.
  method IsRotated<T(==)>(seq1: seq<T>, seq2: seq<T>) returns (r: Option<bool>)
    ensures r.None? <==> seq1 == [] && seq2 == []
    ensures r.Some? ==> (r.value <==> IsRotation(seq1, seq2))
  {
    if |seq1| != |seq2| {
      return Some(false);
    }
    if seq2 == [] {
      return None;
    }
    var startIndexes: seq<nat> := [];
    var headItem := seq2[0];
    for index1 := 0 to |seq1|
      invariant forall i :: i in startIndexes <==> 0 <= i < index1 && seq1[i] == headItem
    {
      if seq1[index1] == headItem {
        startIndexes := startIndexes + [index1];
      }
    }
    var doubleSeq1 := seq1 + seq1;
    for k := 0 to |startIndexes|
      invariant forall j :: 0 <= j < k ==> 0 <= startIndexes[j] < |seq1| && Rotate(seq1, startIndexes[j]) != seq2
    {
      var i := startIndexes[k];
      assert i in startIndexes;
      assert doubleSeq1[i..i + |seq1|] == Rotate(seq1, i);
      if doubleSeq1[i..i + |seq1|] == seq2 {
        return Some(true);
      }
    }
    assert forall i :: 0 <= i < |seq1| && seq1[i] == headItem ==> i in startIndexes;
    RotationHead(seq1, seq2);
    return Some(false);
  }

  lemma RotationHead<T>(a: seq<T>, b: seq<T>)
    requires b != []
    ensures IsRotation(a, b) ==> exists i :: 0 <= i < |a| && a[i] == b[0] && b == Rotate(a, i)
  {
    if IsRotation(a, b) {
      var i :| 0 <= i <= |a| && b == Rotate(a, i);
      if i == |a| {
        assert b == Rotate(a, 0);
      }
    }
  }

  lemma RotationReflexive<T>(a: seq<T>)
    ensures IsRotation(a, a)
  {
    assert a == Rotate(a, 0);
  }

  lemma RotationSymmetric<T>(a: seq<T>, b: seq<T>)
    requires IsRotation(a, b)
    ensures IsRotation(b, a)
  {
    var i :| 0 <= i <= |a| && b == Rotate(a, i);
    assert a == Rotate(b, |a| - i);
  }

  // Rotating x + y + z past x and then past y, and past x + y and then past z + x.
  lemma RotateTwice<T>(x: seq<T>, y: seq<T>, z: seq<T>)
    ensures Rotate(x + y + z, |x|) == y + z + x
    ensures Rotate(x + y + z, |x| + |y|) == z + x + y
  {
    var s := x + y + z;
    assert s[..|x|] == x && s[|x|..] == y + z;
    assert s[..|x| + |y|] == x + y && s[|x| + |y|..] == z;
  }

  lemma RotationTransitive<T>(a: seq<T>, b: seq<T>, c: seq<T>)
    requires IsRotation(a, b) && IsRotation(b, c)
    ensures IsRotation(a, c)
  {
    hide Rotate;
    var i :| 0 <= i <= |a| && b == Rotate(a, i);
    assert |b| == |a| && b == a[i..] + a[..i] by { RotateIs(a, i); }
    var j :| 0 <= j <= |b| && c == Rotate(b, j);
    if i + j <= |a| {
      var x, y, z := a[..i], a[i..i + j], a[i + j..];
      assert a == x + y + z && b == y + z + x;
      RotateTwice(x, y, z);
      RotateTwice(y, z, x);
      assert c == Rotate(a, i + j);
    } else {
      var k := i + j - |a|;
      var x, y, z := a[..k], a[k..i], a[i..];
      assert a == x + y + z && b == z + x + y;
      RotateTwice(x, y, z);
      RotateTwice(z, x, y);
      assert c == Rotate(a, k);
    }
  }

  lemma RotateIs<T>(a: seq<T>, i: nat)
    requires i <= |a|
    ensures Rotate(a, i) == a[i..] + a[..i]
  {
  }
}
