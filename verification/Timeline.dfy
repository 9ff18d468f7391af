/** TimelineDataRange and TimelineEvent of utils/grid.py: the binary searches and
    the window selections. Times are real numbers. */
module Timeline {

  datatype Range = Range(start: real, end: real)

  /** The ranges are sorted and strictly disjoint. */
  ghost predicate Ordered(ranges: seq<Range>) {
    && (forall i :: 0 <= i < |ranges| ==> ranges[i].start <= ranges[i].end)
    && (forall i, j :: 0 <= i < j < |ranges| ==> ranges[i].end < ranges[j].start)
  }

  ghost predicate Holds(r: Range, key: real) { r.start <= key <= r.end }

  ghost predicate Covered(ranges: seq<Range>, key: real) {
    exists i :: 0 <= i < |ranges| && Holds(ranges[i], key)
  }

  /** The range and the window [start, end] have a point in common. */
  ghost predicate Meets(r: Range, start: real, end: real) { r.start <= end && start <= r.end }

  /** lo..hi are exactly the ranges that meet the window. */
  ghost predicate SelectsExactly(ranges: seq<Range>, start: real, end: real, lo: int, hi: int) {
    forall i :: 0 <= i < |ranges| ==> (lo <= i < hi <==> Meets(ranges[i], start, end))
  }

  /** lo..hi contain all the ranges that meet the window. */
  ghost predicate SelectsAll(ranges: seq<Range>, start: real, end: real, lo: int, hi: int) {
    forall i :: 0 <= i < |ranges| && Meets(ranges[i], start, end) ==> lo <= i < hi
  }

  class TimelineDataRange {
    var ranges: seq<Range>

    constructor ()
      ensures ranges == []
    {
      ranges := [];
    }

    method AddRange(r: Range)
      modifies this`ranges
      ensures ranges == old(ranges) + [r]
    {
      ranges := ranges + [r];
    }

    method Search(key: real) returns (index: int)
      ensures -1 <= index < |ranges| && (index >= 0 ==> Holds(ranges[index], key))
      ensures Ordered(ranges) ==> (index == -1 <==> !Covered(ranges, key))
    {
      var l, u := 0, |ranges| - 1;
      while l <= u
        invariant 0 <= l <= u + 1 <= |ranges|
        invariant Ordered(ranges) ==> forall i :: 0 <= i < |ranges| && !(l <= i <= u) ==> !Holds(ranges[i], key)
      {
        var i := (l + u) / 2;
        if ranges[i].start <= key && key <= ranges[i].end {
          return i;
        } else if key < ranges[i].start {
          u := i - 1;
        } else {
          l := i + 1;
        }
      }
      index := -1;
    }

    /** With both ends of the window covered the selection is exact; it is complete
        exactly when an end is covered or no range lies inside; and each of the four
        cases is exact exactly when nothing lies beyond the uncovered end. */
    method GetRangesBounds(start: real, end: real) returns (lo: int, hi: int)
      ensures 0 <= lo <= |ranges| && 0 <= hi <= |ranges|
      ensures Ordered(ranges) && start <= end ==>
        && (Covered(ranges, start) && Covered(ranges, end) ==> SelectsExactly(ranges, start, end, lo, hi))
        && IsBounds(ranges, start, end, lo, hi)
        && (SelectsAll(ranges, start, end, lo, hi) <==>
              Covered(ranges, start) || Covered(ranges, end) || NothingInside(ranges, start, end))
        && (SelectsExactly(ranges, start, end, lo, hi) <==> NothingBeyond(ranges, start, end))
    {
      var s := Search(start);
      var e := Search(end);
      if s == -1 && e == -1 {
        lo, hi := 0, 0;
      } else if s == -1 {
        lo, hi := 0, e + 1;
      } else if e == -1 {
        lo, hi := s, |ranges|;
      } else {
        lo, hi := s, e + 1;
      }
      if Ordered(ranges) && start <= end {
        assert Finds(ranges, start, s) && Finds(ranges, end, e);
        BoundsSelect(ranges, start, end, s, e, lo, hi);
      }
    }
  }

  /** No range lies strictly inside the window. */
  ghost predicate NothingInside(ranges: seq<Range>, start: real, end: real) {
    forall i :: 0 <= i < |ranges| ==> !(start < ranges[i].start && ranges[i].end < end)
  }

  /** What searching for the key comes to on ordered ranges. */
  ghost predicate Finds(ranges: seq<Range>, key: real, index: int) {
    && -1 <= index < |ranges|
    && (if index == -1 then !Covered(ranges, key) else Holds(ranges[index], key))
  }

  /** The bounds that the two searches lead to. */
  ghost predicate IsBounds(ranges: seq<Range>, start: real, end: real, lo: int, hi: int) {
    exists s, e ::
      && Finds(ranges, start, s) && Finds(ranges, end, e)
      && lo == (if s == -1 then 0 else s)
      && hi == (if s == -1 && e == -1 then 0 else if e == -1 then |ranges| else e + 1)
  }

  /** When the selection is exact: an end that no range covers may have no range
      on its far side, and if neither end is covered no range may lie in between. */
  ghost predicate NothingBeyond(ranges: seq<Range>, start: real, end: real) {
    if !Covered(ranges, start) && !Covered(ranges, end) then
      NothingInside(ranges, start, end)
    else
      && (!Covered(ranges, start) ==> forall i :: 0 <= i < |ranges| ==> start <= ranges[i].end)
      && (!Covered(ranges, end) ==> forall i :: 0 <= i < |ranges| ==> ranges[i].start <= end)
  }

  lemma BoundsSelect(ranges: seq<Range>, start: real, end: real, s: int, e: int, lo: int, hi: int)
    requires Ordered(ranges) && start <= end
    requires Finds(ranges, start, s) && Finds(ranges, end, e)
    requires lo == (if s == -1 then 0 else s)
    requires hi == (if s == -1 && e == -1 then 0 else if e == -1 then |ranges| else e + 1)
    ensures s >= 0 && e >= 0 ==> SelectsExactly(ranges, start, end, lo, hi)
    ensures SelectsAll(ranges, start, end, lo, hi) <==> s >= 0 || e >= 0 || NothingInside(ranges, start, end)
    ensures SelectsExactly(ranges, start, end, lo, hi) <==> NothingBeyond(ranges, start, end)
  {
    if s >= 0 {
      forall i | 0 <= i < |ranges| ensures i < s <==> ranges[i].end < start {}
    }
    if e >= 0 {
      forall i | 0 <= i < |ranges| ensures i > e <==> ranges[i].start > end {}
    }
  }

  /** A window that starts between two ranges also selects the range before it. */
  lemma SelectsTooMuch(lo: int, hi: int)
    ensures var ranges := [Range(0.0, 1.0), Range(2.0, 3.0)];
            Ordered(ranges) && !Meets(ranges[0], 1.5, 2.5) && (IsBounds(ranges, 1.5, 2.5, lo, hi) <==> lo == 0 && hi == 2)
  {
    var ranges := [Range(0.0, 1.0), Range(2.0, 3.0)];
    assert Holds(ranges[1], 2.5);
    assert Finds(ranges, 1.5, -1) && Finds(ranges, 2.5, 1);
  }

  /** A window that reaches beyond a range on both sides selects nothing. */
  lemma SelectsNothing(lo: int, hi: int)
    ensures var ranges := [Range(0.0, 1.0)];
            Ordered(ranges) && Meets(ranges[0], -1.0, 2.0) && (IsBounds(ranges, -1.0, 2.0, lo, hi) <==> lo == 0 && hi == 0)
  {
    var ranges := [Range(0.0, 1.0)];
    assert Finds(ranges, -1.0, -1) && Finds(ranges, 2.0, -1);
  }

  // ---------- Events ----------

  datatype Event = Event(at: real, value: string)

  ghost predicate Increasing(events: seq<Event>) {
    forall i, j :: 0 <= i < j < |events| ==> events[i].at < events[j].at
  }

  class TimelineEvent {
    var events: seq<Event>

    constructor ()
      ensures events == []
    {
      events := [];
    }

    method AddEvent(e: Event)
      modifies this`events
      ensures events == old(events) + [e]
    {
      events := events + [e];
    }

    /** The first event that is not before the key. */
    method Search(key: real) returns (index: int)
      ensures 0 <= index <= |events|
      ensures Increasing(events) ==> forall i :: 0 <= i < |events| ==> (i < index <==> events[i].at < key)
    {
      var l, u := 0, |events| - 1;
      while l <= u
        invariant 0 <= l <= u + 1 <= |events|
        invariant Increasing(events) ==> forall i :: 0 <= i < l ==> events[i].at < key
        invariant Increasing(events) ==> forall i :: u < i < |events| ==> key < events[i].at
      {
        var i := (l + u) / 2;
        if key == events[i].at {
          return i;
        } else if key < events[i].at {
          u := i - 1;
        } else {
          l := i + 1;
        }
      }
      index := l;
    }

    /** All the events in the window and, when no event is exactly at its end, the
        next event after it. */
    method GetEventsBounds(start: real, end: real) returns (lo: int, hi: int)
      ensures 0 <= lo <= |events| && 1 <= hi <= |events| + 1
      ensures Increasing(events) && start <= end ==>
        forall i :: 0 <= i < |events| ==>
          (lo <= i < hi <==> start <= events[i].at && (events[i].at <= end || FirstAfter(events, i, end)))
    {
      var s := Search(start);
      var e := Search(end);
      lo, hi := s, e + 1;
      if Increasing(events) && start <= end {
        forall i | 0 <= i < |events|
          ensures lo <= i < hi <==> start <= events[i].at && (events[i].at <= end || FirstAfter(events, i, end))
        {
          EventSelected(events, end, e, i);
        }
      }
    }
  }

  lemma EventSelected(events: seq<Event>, end: real, e: nat, i: nat)
    requires Increasing(events) && e <= |events| && i < |events|
    requires forall k :: 0 <= k < |events| ==> (k < e <==> events[k].at < end)
    ensures i <= e <==> events[i].at <= end || FirstAfter(events, i, end)
  {
    if e < i { assert events[e].at < events[i].at; }
  }

  /** Event i is the first one at or after the key. */
  ghost predicate FirstAfter(events: seq<Event>, i: nat, key: real)
    requires i < |events|
  {
    key <= events[i].at && forall j :: 0 <= j < i ==> events[j].at < key
  }
}
