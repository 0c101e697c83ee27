/** The searches and windows over sorted timelines in grid.py. */
module Timeline {
  import opened Sorting

  datatype Range = Range(start: int, end: int)

  // What Python's slice s[lo:hi] gives for bounds that are not negative.
  function Slice<T>(s: seq<T>, lo: nat, hi: nat): seq<T> {
    var top := if hi < |s| then hi else |s|;
    if lo <= top then s[lo..top] else []
  }

  ghost predicate Contains(r: Range, key: int) {
    r.start <= key <= r.end
  }

  ghost predicate Meets(r: Range, start: int, end: int) {
    r.start <= end && start <= r.end
  }

  ghost predicate SortedDisjoint(ranges: seq<Range>) {
    && (forall i :: 0 <= i < |ranges| ==> ranges[i].start <= ranges[i].end)
    && (forall i, j :: 0 <= i < j < |ranges| ==> ranges[i].end < ranges[j].start)
  }

  ghost predicate Hit(ranges: seq<Range>, key: int) {
    exists i :: 0 <= i < |ranges| && Contains(ranges[i], key)
  }

  // The bounds leave out no range that meets the window.
  ghost predicate Covers(ranges: seq<Range>, start: int, end: int, lo: nat, hi: nat) {
    forall i :: 0 <= i < |ranges| && Meets(ranges[i], start, end) ==> lo <= i < hi
  }

  // The bounds hold exactly the ranges that meet the window.
  ghost predicate Exact(ranges: seq<Range>, start: int, end: int, lo: nat, hi: nat) {
    forall i :: 0 <= i < |ranges| ==> (Meets(ranges[i], start, end) <==> lo <= i < hi)
  }

  // When the bounds are exact, by which ends of the window fall in a range.
  ghost predicate ExactCase(ranges: seq<Range>, start: int, end: int) {
    if Hit(ranges, start) && Hit(ranges, end) then true
    else if Hit(ranges, start) then ranges[|ranges| - 1].start <= end
    else if Hit(ranges, end) then start <= ranges[0].end
    else forall i :: 0 <= i < |ranges| ==> !Meets(ranges[i], start, end)
  }

  // From the range that the start falls in, or the first, up to the range that the end falls in, or
  // the last; nothing when neither falls in a range.
  ghost predicate BoundsAt(ranges: seq<Range>, start: int, end: int, lo: nat, hi: nat) {
    && (forall s :: 0 <= s < |ranges| && Contains(ranges[s], start) ==> lo == s)
    && (!Hit(ranges, start) ==> lo == 0)
    && (forall e :: 0 <= e < |ranges| && Contains(ranges[e], end) ==> hi == e + 1)
    && (!Hit(ranges, end) ==> hi == if Hit(ranges, start) then |ranges| else 0)
  }

  // The ranges between such bounds.
  ghost predicate CutAtBounds(ranges: seq<Range>, start: int, end: int, r: seq<Range>) {
    exists lo: nat, hi: nat :: hi <= |ranges| && BoundsAt(ranges, start, end, lo, hi)
                               && r == if lo <= hi then ranges[lo..hi] else []
  }

  class TimelineDataRange {
    var ranges: seq<Range>

    constructor ()
      ensures ranges == []
    {
      ranges := [];
    }

    method AddRange(range: Range)
      modifies this
      ensures ranges == old(ranges) + [range]
    {
      ranges := ranges + [range];
    }

    method Sort()
      modifies this
      ensures ranges == Sorting.Sort(old(ranges), (r: Range) => r.start as real)
      ensures multiset(ranges) == multiset(old(ranges))
      ensures forall i, j :: 0 <= i < j < |ranges| ==> ranges[i].start <= ranges[j].start
    {
      var key := (r: Range) => r.start as real;
      SortSorts(ranges, key);
      ranges := Sorting.Sort(ranges, key);
      assert forall i, j :: 0 <= i < j < |ranges| ==> key(ranges[i]) <= key(ranges[j]);
    }

    // The index of a range that contains the key, or -1.
    method Search(key: int) returns (r: int)
      ensures -1 <= r < |ranges|
      ensures r >= 0 ==> Contains(ranges[r], key)
      ensures SortedDisjoint(ranges) && r == -1 ==> !Hit(ranges, key)
    {
      var l, u := 0, |ranges| - 1;
      while l <= u
        invariant 0 <= l <= u + 1 <= |ranges|
        invariant SortedDisjoint(ranges) ==>
          forall i :: 0 <= i < |ranges| && Contains(ranges[i], key) ==> l <= i <= u
      {
        var i := (l + u) / 2;
        if key >= ranges[i].start && key <= ranges[i].end {
          return i;
        } else if key < ranges[i].start {
          u := i - 1;
        } else {
          l := i + 1;
        }
      }
      return -1;
    }

    method GetRangesBounds(start: int, end: int) returns (lo: nat, hi: nat)
      ensures hi <= |ranges|
      ensures SortedDisjoint(ranges) ==> BoundsAt(ranges, start, end, lo, hi)
      ensures SortedDisjoint(ranges) && start <= end ==>
        (Covers(ranges, start, end, lo, hi) <==>
           Hit(ranges, start) || Hit(ranges, end) || forall i :: 0 <= i < |ranges| ==> !Meets(ranges[i], start, end))
      ensures SortedDisjoint(ranges) && start <= end ==>
        (Exact(ranges, start, end, lo, hi) <==> ExactCase(ranges, start, end))
    {
      var s := Search(start);
      var e := Search(end);
      if s == -1 && e == -1 {
        return 0, 0;
      } else if s == -1 {
        lo, hi := 0, e + 1;
      } else if e == -1 {
        lo, hi := s, |ranges|;
      } else {
        lo, hi := s, e + 1;
      }
    }

    // The same bounds, applied.
    method GetRanges(start: int, end: int) returns (r: seq<Range>)
      ensures SortedDisjoint(ranges) ==> CutAtBounds(ranges, start, end, r)
      ensures SortedDisjoint(ranges) && start <= end && Hit(ranges, start) && Hit(ranges, end) ==>
        forall x :: x in r <==> x in ranges && Meets(x, start, end)
      ensures SortedDisjoint(ranges) && start <= end && (Hit(ranges, start) || Hit(ranges, end)) ==>
        forall x :: x in ranges && Meets(x, start, end) ==> x in r
      ensures !Hit(ranges, start) && !Hit(ranges, end) ==> r == []
      ensures exists lo, hi :: 0 <= lo && 0 <= hi && r == Slice(ranges, lo, hi)
    {
      var s := Search(start);
      var e := Search(end);
      ghost var lo, hi: nat;
      if s == -1 && e == -1 {
        r := [];
        lo, hi := 0, 0;
      } else if s == -1 {
        r := Slice(ranges, 0, e + 1);
        lo, hi := 0, e + 1;
      } else if e == -1 {
        r := Slice(ranges, s, |ranges|);
        lo, hi := s, |ranges|;
      } else {
        r := Slice(ranges, s, e + 1);
        lo, hi := s, e + 1;
      }
      assert r == Slice(ranges, lo, hi);
      if SortedDisjoint(ranges) {
        FoundBounds(ranges, start, end, s, e, lo, hi);
      }
    }
  }

  lemma FoundBounds(ranges: seq<Range>, start: int, end: int, s: int, e: int, lo: nat, hi: nat)
    requires SortedDisjoint(ranges) && -1 <= s < |ranges| && -1 <= e < |ranges|
    requires if s >= 0 then Contains(ranges[s], start) else !Hit(ranges, start)
    requires if e >= 0 then Contains(ranges[e], end) else !Hit(ranges, end)
    requires lo == if s >= 0 then s else 0
    requires hi == if e >= 0 then e + 1 else if s >= 0 then |ranges| else 0
    ensures BoundsAt(ranges, start, end, lo, hi)
  {
  }

  // ---- events

  datatype Event<V> = Event(at: int, value: V)

  ghost predicate InOrder<V>(events: seq<Event<V>>) {
    forall i, j :: 0 <= i < j < |events| ==> events[i].at <= events[j].at
  }

  ghost predicate AtMostOneAt<V>(events: seq<Event<V>>, time: int) {
    forall i, j :: 0 <= i < j < |events| ==> !(events[i].at == time && events[j].at == time)
  }

  // The path of the binary search between l and u.
  ghost function Find<V>(events: seq<Event<V>>, key: int, l: nat, u: int): nat
    requires u < |events|
    decreases u - l + 1
  {
    if l > u then l
    else
      var i := (l + u) / 2;
      if key == events[i].at then i
      else if key < events[i].at then Find(events, key, l, i - 1)
      else Find(events, key, i + 1, u)
  }

  ghost predicate Below<V>(events: seq<Event<V>>, key: int, l: nat) {
    l <= |events| && forall i :: 0 <= i < l ==> events[i].at < key
  }

  ghost predicate Above<V>(events: seq<Event<V>>, key: int, u: int) {
    u < |events| && forall i :: 0 <= i < |events| && u < i ==> key < events[i].at
  }

  // At an event with the key, if there is one, and otherwise between the events before and after it.
  ghost predicate Splits<V>(events: seq<Event<V>>, key: int, f: nat) {
    && f <= |events|
    && (forall i :: 0 <= i < f ==> events[i].at <= key)
    && (forall i :: f <= i < |events| ==> key <= events[i].at)
    && (forall i :: 0 <= i < |events| && events[i].at == key ==> f < |events| && events[f].at == key)
  }

  lemma {:induction false} FindSplits<V>(events: seq<Event<V>>, key: int, l: nat, u: int)
    requires InOrder(events) && l <= u + 1 && Below(events, key, l) && Above(events, key, u)
    ensures Splits(events, key, Find(events, key, l, u))
    decreases u - l + 1
  {
    if l <= u {
      var i := (l + u) / 2;
      BeforeAndAfter(events, i);
      if key < events[i].at {
        FindSplits(events, key, l, i - 1);
      } else if key > events[i].at {
        FindSplits(events, key, i + 1, u);
      }
    }
  }

  lemma BeforeAndAfter<V>(events: seq<Event<V>>, i: nat)
    requires InOrder(events) && i < |events|
    ensures forall j :: 0 <= j <= i ==> events[j].at <= events[i].at
    ensures forall j :: i <= j < |events| ==> events[i].at <= events[j].at
  {
  }

  // The events of a window, as the two searches delimit them.
  ghost function Window<V>(events: seq<Event<V>>, start: int, end: int): seq<Event<V>> {
    Slice(events, Find(events, start, 0, |events| - 1), Find(events, end, 0, |events| - 1) + 1)
  }

  // The list r is cut out at the events of the window, and holds, when there is one and none lies on
  // the end of the window, the first event after it as well.
  ghost predicate HoldsWindow<V>(events: seq<Event<V>>, start: int, end: int, r: seq<Event<V>>) {
    exists lo, hi :: IsWindow(events, start, end, r, lo, hi)
  }

  ghost predicate IsWindow<V>(events: seq<Event<V>>, start: int, end: int, r: seq<Event<V>>, lo: nat, hi: nat) {
    && lo <= hi <= |events|
    && (forall i :: 0 <= i < |events| ==> (start <= events[i].at <= end <==> lo <= i < hi))
    && r == if hi < |events| && (forall i :: 0 <= i < |events| ==> events[i].at != end) then events[lo..hi + 1]
            else events[lo..hi]
  }

  // What a window holds when there is at most one event at either end of it.
  lemma WindowIsComplete<V>(events: seq<Event<V>>, start: int, end: int)
    requires InOrder(events) && start <= end
    requires AtMostOneAt(events, start) && AtMostOneAt(events, end)
    ensures HoldsWindow(events, start, end, Window(events, start, end))
  {
    var lo := FromStart(events, start);
    var e, hi := UpToEnd(events, end);
    hide Find, HoldsWindow;
    assert hi < |events| ==> events[hi].at > end;
    assert hi == e + 1 <==> exists i :: 0 <= i < |events| && events[i].at == end;
    assert IsWindow(events, start, end, Window(events, start, end), lo, hi);
    WindowHeld(events, start, end, Window(events, start, end), lo, hi);
  }

  lemma WindowHeld<V>(events: seq<Event<V>>, start: int, end: int, r: seq<Event<V>>, lo: nat, hi: nat)
    requires IsWindow(events, start, end, r, lo, hi)
    ensures HoldsWindow(events, start, end, r)
  {
  }

  lemma FromStart<V>(events: seq<Event<V>>, start: int) returns (lo: nat)
    requires InOrder(events) && AtMostOneAt(events, start)
    ensures lo == Find(events, start, 0, |events| - 1) <= |events|
    ensures forall i :: 0 <= i < |events| ==> (start <= events[i].at <==> lo <= i)
  {
    FindSplits(events, start, 0, |events| - 1);
    hide Find;
    lo := Find(events, start, 0, |events| - 1);
  }

  lemma UpToEnd<V>(events: seq<Event<V>>, end: int) returns (e: nat, hi: nat)
    requires InOrder(events) && AtMostOneAt(events, end)
    ensures e == Find(events, end, 0, |events| - 1) <= hi <= |events|
    ensures forall i :: 0 <= i < |events| ==> (events[i].at <= end <==> i < hi)
    ensures hi == if exists i :: 0 <= i < |events| && events[i].at == end then e + 1 else e
  {
    FindSplits(events, end, 0, |events| - 1);
    hide Find;
    e := Find(events, end, 0, |events| - 1);
    if i :| 0 <= i < |events| && events[i].at == end {
      assert events[e].at == end;
      hi := e + 1;
    } else {
      hi := e;
    }
  }

  ghost predicate Strict<V>(events: seq<Event<V>>) {
    forall i, j :: 0 <= i < j < |events| ==> events[i].at < events[j].at
  }

  // The two searches delimit every event of the window.
  ghost predicate HoldsAll<V>(events: seq<Event<V>>, start: int, end: int) {
    forall i :: 0 <= i < |events| && start <= events[i].at <= end ==>
      Find(events, start, 0, |events| - 1) <= i <= Find(events, end, 0, |events| - 1)
  }

  // No window loses an event exactly when no two events have the same time.
  lemma CompleteIffStrict<V>(events: seq<Event<V>>)
    requires InOrder(events)
    ensures (forall start, end :: start <= end ==> HoldsAll(events, start, end)) <==> Strict(events)
  {
    hide Find;
    if Strict(events) {
      forall start, end | start <= end ensures HoldsAll(events, start, end) {
        var _ := FromStart(events, start);
        var _, _ := UpToEnd(events, end);
      }
    } else {
      var i, j :| 0 <= i < j < |events| && events[i].at == events[j].at;
      assert !HoldsAll(events, events[i].at, events[i].at);
    }
  }

  // With two events at one time, the search can stop at either, and the window can lose the other.
  lemma WindowLosesDuplicates()
    ensures var events := [Event(1, 'a'), Event(1, 'b')];
      InOrder(events) && Window(events, 1, 1) == [Event(1, 'a')]
  {
    var events := [Event(1, 'a'), Event(1, 'b')];
    assert Find(events, 1, 0, 1) == 0;
  }

  class TimelineEvent<V> {
    var events: seq<Event<V>>

    constructor ()
      ensures events == []
    {
      events := [];
    }

    method AddEvent(event: Event<V>)
      modifies this
      ensures events == old(events) + [event]
    {
      events := events + [event];
    }

    method Sort()
      modifies this
      ensures events == Sorting.Sort(old(events), (e: Event<V>) => e.at as real)
      ensures multiset(events) == multiset(old(events)) && InOrder(events)
    {
      var key := (e: Event<V>) => e.at as real;
      SortSorts(events, key);
      events := Sorting.Sort(events, key);
      assert forall i, j :: 0 <= i < j < |events| ==> key(events[i]) <= key(events[j]);
    }

    method Search(key: int) returns (r: nat)
      ensures r == Find(events, key, 0, |events| - 1)
    {
      var l, u := 0, |events| - 1;
      while l <= u
        invariant 0 <= l <= u + 1 <= |events|
        invariant Find(events, key, l, u) == Find(events, key, 0, |events| - 1)
      {
        var i := (l + u) / 2;
        if key == events[i].at {
          return i;
        } else if key < events[i].at {
          u := i - 1;
        } else {
          l := i + 1;
        }
      }
      return l;
    }

    method GetEvents(start: int, end: int) returns (r: seq<Event<V>>)
      ensures r == Window(events, start, end)
      ensures InOrder(events) && start <= end && AtMostOneAt(events, start) && AtMostOneAt(events, end) ==>
        HoldsWindow(events, start, end, r)
    {
      hide InOrder, AtMostOneAt, HoldsWindow, Find;
      var s := Search(start);
      var e := Search(end);
      r := Slice(events, s, e + 1);
      if InOrder(events) && start <= end && AtMostOneAt(events, start) && AtMostOneAt(events, end) {
        WindowIsComplete(events, start, end);
      }
    }
  }
}
