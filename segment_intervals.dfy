/** The per-host segment of the transmission tree likelihood
    (`TransmissionTreeLikelihood.SegmentIntervalList`): a time-ordered list of
    sample and coalescent events of one colour, the host's birth (infection)
    time, and the classic coalescent interval bookkeeping derived from the
    events: interval widths and the number of lineages in each interval. */
module SegmentIntervals {
  import opened Outcomes
  import opened Scans

  datatype IntervalType = Sample | Coalescent | Nothing

  ghost predicate Sorted(a: seq<real>) {
    forall i, j :: 0 <= i < j < |a| ==> a[i] <= a[j]
  }

  ghost predicate StrictlyIncreasing(c: seq<nat>) {
    forall i, j :: 0 <= i < j < |c| ==> c[i] < c[j]
  }

  /** The probes `Collections.binarySearch` makes in a[low..high]: the
      midpoint it hits, or -(low)-1 once the range is empty. */
  function SearchRange(a: seq<real>, key: real, low: int, high: int): (r: int)
    requires 0 <= low <= high + 1 <= |a|
    ensures r >= 0 ==> low <= r <= high && a[r] == key
    ensures r < 0 ==> low <= -r - 1 <= high + 1
    decreases high - low + 1
  {
    if low > high then -(low + 1)
    else
      var mid := (low + high) / 2;
      if a[mid] < key then SearchRange(a, key, mid + 1, high)
      else if a[mid] > key then SearchRange(a, key, low, mid - 1)
      else mid
  }

  /** The index `addEvent` inserts at when it does not append: the index
      `Collections.binarySearch` finds, or its insertion point. */
  function InsertionIndex(a: seq<real>, key: real): (at: nat)
    ensures at <= |a|
  {
    var r := SearchRange(a, key, 0, |a| - 1);
    if r >= 0 then r else -r - 1
  }

  /** On a sorted list, when everything below low is smaller than the key
      and everything above high larger, a missing key's insertion point
      splits the list into the smaller and the larger elements. */
  lemma {:induction false} SearchRangeSplits(a: seq<real>, key: real, low: int, high: int)
    requires 0 <= low <= high + 1 <= |a| && Sorted(a)
    requires forall j :: 0 <= j < low ==> a[j] < key
    requires forall j :: high < j < |a| ==> a[j] > key
    ensures var r := SearchRange(a, key, low, high);
      r < 0 ==>
        && (forall j :: 0 <= j < -r - 1 ==> a[j] < key)
        && (forall j :: -r - 1 <= j < |a| ==> a[j] > key)
    decreases high - low + 1
  {
    if low <= high {
      var mid := (low + high) / 2;
      if a[mid] < key {
        SearchRangeSplits(a, key, mid + 1, high);
      } else if a[mid] > key {
        SearchRangeSplits(a, key, low, mid - 1);
      }
    }
  }

  /** `Collections.binarySearch` on a list of doubles: the index of an element
      equal to key, or -(insertion point)-1 when there is none. */
  method BinarySearch(a: seq<real>, key: real) returns (r: int)
    ensures r == SearchRange(a, key, 0, |a| - 1)
    ensures r >= 0 ==> r < |a| && a[r] == key
    ensures r < 0 ==> -r - 1 <= |a|
    ensures Sorted(a) && r < 0 ==>
      && (forall j :: 0 <= j < -r - 1 ==> a[j] < key)
      && (forall j :: -r - 1 <= j < |a| ==> a[j] > key)
  {
    if Sorted(a) {
      SearchRangeSplits(a, key, 0, |a| - 1);
    }
    var low, high := 0, |a| - 1;
    while low <= high
      invariant 0 <= low <= high + 1 <= |a|
      invariant SearchRange(a, key, low, high) == SearchRange(a, key, 0, |a| - 1)
    {
      var mid := (low + high) / 2;
      if a[mid] < key {
        low := mid + 1;
      } else if a[mid] > key {
        high := mid - 1;
      } else {
        return mid;
      }
    }
    r := -(low + 1);
  }

  /** The net number of lineages an event prefix leaves: one more per
      SAMPLE, one fewer per any other event. */
  function Net(events: seq<IntervalType>): int
  {
    if events == [] then 0
    else Net(events[..|events| - 1]) + (if events[|events| - 1] == Sample then 1 else -1)
  }

  lemma NetStep(events: seq<IntervalType>, i: nat)
    requires i < |events|
    ensures Net(events[..i + 1]) == Net(events[..i]) + (if events[i] == Sample then 1 else -1)
  {
    assert events[..i + 1][..i] == events[..i];
  }

  /** Net counts add up over a split of the events. */
  lemma {:induction false} NetSplit(events: seq<IntervalType>, a: nat, b: nat)
    requires a <= b <= |events|
    ensures Net(events[..b]) == Net(events[..a]) + Net(events[a..b])
    decreases b - a
  {
    if a < b {
      NetSplit(events, a, b - 1);
      NetStep(events, b - 1);
      assert events[a..b][..b - 1 - a] == events[a..b - 1];
    } else {
      assert events[a..b] == [];
    }
  }

  /** One pass of the inner do-loop of `calculateIntervals` with
      multifurcationLimit = 0: the events that share the time of the group's
      first event, up to and including the first non-SAMPLE event. */
  datatype Group = Group(end: nat, added: nat, removed: nat)

  ghost function GroupFrom(times: seq<real>, events: seq<IntervalType>, finish: real, q: nat, added: nat): (g: Group)
    requires |times| == |events| && q < |events|
    ensures q < g.end <= |events| && g.removed <= 1
    ensures g.added + g.removed == added + (g.end - q)
    decreases |events| - q
  {
    if events[q] != Sample then Group(q + 1, added, 1)
    else if q + 1 < |events| && times[q + 1] == finish then GroupFrom(times, events, finish, q + 1, added + 1)
    else Group(q + 1, added + 1, 0)
  }

  /** What the sweep has recorded so far: interval widths, the lineage count
      of each interval, and (for the proofs) the index of the event that
      closes each interval. */
  datatype Sweep = Sweep(widths: seq<real>, lineages: seq<int>, closers: seq<nat>) {
    function Record(w: real, lines: int, closer: nat): Sweep {
      Sweep(widths + [w], lineages + [lines], closers + [closer])
    }
  }

  /** The state of the outer loop of `calculateIntervals` between two groups:
      the next event, the start time of the open interval, the number of
      lineages, and what has been recorded. */
  datatype SweepState = State(next: nat, start: real, numLines: int, acc: Sweep)

  /** The first half of a pass of the outer loop: if the group adds
      lineages, close the open interval at the group's time (unless it would
      be the first interval and empty) and add the lineages. */
  ghost function AfterAdded(s: SweepState, finish: real, grp: Group): SweepState
  {
    if grp.added > 0 && (|s.acc.widths| > 0 || finish - s.start > 0.0) then
      State(s.next, finish, s.numLines + grp.added, s.acc.Record(finish - s.start, s.numLines, s.next))
    else if grp.added > 0 then
      State(s.next, finish, s.numLines + grp.added, s.acc)
    else s
  }

  /** The second half: if the group removes a lineage, close the interval
      again at the group's time and remove the lineage; the next pass starts
      after the group. */
  ghost function AfterRemoved(s: SweepState, finish: real, grp: Group): SweepState
    requires grp.end >= 1
  {
    if grp.removed > 0 then
      State(grp.end, finish, s.numLines - grp.removed, s.acc.Record(finish - s.start, s.numLines, grp.end - 1))
    else State(grp.end, s.start, s.numLines, s.acc)
  }

  /** One pass of the outer loop over the group starting at the next event. */
  ghost function GroupStep(times: seq<real>, events: seq<IntervalType>, s: SweepState): (s': SweepState)
    requires |times| == |events| && s.next < |events|
    ensures s.next < s'.next <= |events|
  {
    var finish := times[s.next];
    var grp := GroupFrom(times, events, finish, s.next, 0);
    AfterRemoved(AfterAdded(s, finish, grp), finish, grp)
  }

  /** The outer loop of `calculateIntervals` from state s to the end. */
  ghost function SweepFrom(times: seq<real>, events: seq<IntervalType>, s: SweepState): Sweep
    requires |times| == |events| && s.next <= |events|
    decreases |events| - s.next
  {
    if s.next == |events| then s.acc else SweepFrom(times, events, GroupStep(times, events, s))
  }

  /** The intervals `calculateIntervals` derives from a non-empty event list. */
  ghost function Intervals(times: seq<real>, events: seq<IntervalType>): Sweep
    requires |times| == |events| && |events| > 0
  {
    SweepFrom(times, events, State(0, times[0], 0, Sweep([], [], [])))
  }

  /** Every event of a group has the group's time, all but the last are
      SAMPLE events, and the last is a non-SAMPLE event exactly when the group
      removes a lineage. */
  lemma {:induction false} GroupShape(times: seq<real>, events: seq<IntervalType>, finish: real, q: nat, added: nat)
    requires |times| == |events| && q < |events| && times[q] == finish
    ensures var g := GroupFrom(times, events, finish, q, added);
      && (forall j :: q <= j < g.end ==> times[j] == finish)
      && (forall j :: q <= j < g.end - 1 ==> events[j] == Sample)
      && (g.removed == 1 <==> events[g.end - 1] != Sample)
      && g.added == added + (g.end - q) - g.removed
    decreases |events| - q
  {
    if events[q] == Sample && q + 1 < |events| && times[q + 1] == finish {
      GroupShape(times, events, finish, q + 1, added + 1);
    }
  }

  /** Groups are maximal: a group of SAMPLE events only stops at the end of
      the list or at an event of another time, so all SAMPLE events at one
      time that follow each other are merged into one group. */
  lemma {:induction false} GroupMaximal(times: seq<real>, events: seq<IntervalType>, finish: real, q: nat, added: nat)
    requires |times| == |events| && q < |events|
    ensures var g := GroupFrom(times, events, finish, q, added);
      g.removed == 0 && g.end < |events| ==> times[g.end] != finish
    decreases |events| - q
  {
    if events[q] == Sample && q + 1 < |events| && times[q + 1] == finish {
      GroupMaximal(times, events, finish, q + 1, added + 1);
    }
  }

  /** A run of SAMPLE events adds one lineage each. */
  lemma {:induction false} NetSamples(events: seq<IntervalType>, a: nat, b: nat)
    requires a <= b <= |events|
    requires forall j :: a <= j < b ==> events[j] == Sample
    ensures Net(events[..b]) == Net(events[..a]) + (b - a)
    decreases b - a
  {
    if a < b {
      NetSamples(events, a, b - 1);
      NetStep(events, b - 1);
    }
  }

  /** Closing events are recorded in increasing order, below `bound`, and
      each interval's lineage count is the net count of the events before
      its closer. */
  ghost predicate Closers(events: seq<IntervalType>, acc: Sweep, bound: nat)
    requires bound <= |events|
  {
    && |acc.widths| == |acc.closers| && |acc.lineages| == |acc.closers|
    && StrictlyIncreasing(acc.closers)
    && (forall i :: 0 <= i < |acc.closers| ==> acc.closers[i] < bound)
    && (forall i {:trigger acc.lineages[i]} :: 0 <= i < |acc.closers| ==> acc.lineages[i] == Net(events[..acc.closers[i]]))
  }

  /** Every non-SAMPLE event before `covered` closes an interval. */
  ghost predicate Covers(events: seq<IntervalType>, acc: Sweep, covered: nat)
    requires covered <= |events|
  {
    forall j :: 0 <= j < covered && events[j] != Sample ==> j in acc.closers
  }

  /** For time-ordered events, each width is the time from the previous
      closing event (or the first event) to the interval's own closer. */
  ghost predicate Spans(times: seq<real>, acc: Sweep)
  {
    && |acc.widths| == |acc.closers|
    && (forall i :: 0 <= i < |acc.closers| ==> acc.closers[i] < |times|)
    && (Sorted(times) ==> forall i {:trigger acc.widths[i]} :: 0 <= i < |acc.closers| ==>
          acc.widths[i] == times[acc.closers[i]] - (if i == 0 then times[0] else times[acc.closers[i - 1]]))
  }

  /** For time-ordered events the open interval starts at the last closing
      event (or the first event), and the widths so far add up to the time
      from the first event to that start. */
  ghost predicate StartsAtLastCloser(times: seq<real>, acc: Sweep, start: real)
  {
    && |acc.widths| == |acc.closers|
    && (0 < |acc.closers| ==> acc.closers[|acc.closers| - 1] < |times|)
    && (Sorted(times) && 0 < |times| ==>
          && (|acc.closers| == 0 ==> start == times[0])
          && (0 < |acc.closers| ==> start == times[acc.closers[|acc.closers| - 1]])
          && SumReal(acc.widths) == start - times[0])
  }

  /** What the sweep has recorded after the events before p. */
  ghost predicate Recorded(times: seq<real>, events: seq<IntervalType>, p: nat, acc: Sweep)
    requires |times| == |events| && p <= |events|
  {
    Closers(events, acc, p) && Covers(events, acc, p) && Spans(times, acc) && |acc.closers| <= p
  }

  /** The invariant of the outer loop. */
  ghost predicate SweepInv(times: seq<real>, events: seq<IntervalType>, s: SweepState)
    requires |times| == |events|
  {
    && 0 < |events| && s.next <= |events|
    && Recorded(times, events, s.next, s.acc)
    && StartsAtLastCloser(times, s.acc, s.start)
    && s.numLines == Net(events[..s.next])
    && (Sorted(times) ==> s.start == times[if s.next == 0 then 0 else s.next - 1])
  }

  lemma SumRealAppend(w: seq<real>, x: real)
    ensures SumReal(w + [x]) == SumReal(w) + x
  {
    assert (w + [x])[..|w|] == w;
  }

  /** Closing the open interval at event c keeps the recorded facts. */
  lemma RecordKeeps(times: seq<real>, events: seq<IntervalType>, acc: Sweep, start: real, c: nat, covered: nat)
    requires |times| == |events| && c < |events| && covered <= |events|
    requires Closers(events, acc, c) && Covers(events, acc, covered)
    requires Spans(times, acc) && StartsAtLastCloser(times, acc, start)
    ensures var acc' := acc.Record(times[c] - start, Net(events[..c]), c);
      && Closers(events, acc', c + 1) && Covers(events, acc', covered)
      && Spans(times, acc') && StartsAtLastCloser(times, acc', times[c])
      && |acc'.closers| == |acc.closers| + 1
  {
    var acc' := acc.Record(times[c] - start, Net(events[..c]), c);
    SumRealAppend(acc.widths, times[c] - start);
    forall j | 0 <= j < covered && events[j] != Sample
      ensures j in acc'.closers
    {
      assert j in acc.closers;
    }
  }

  /** grp is a group of events starting at p: they share p's time, all but
      the last are SAMPLE events, and the last is a non-SAMPLE event exactly
      when the group removes a lineage. */
  ghost predicate IsGroup(times: seq<real>, events: seq<IntervalType>, p: nat, grp: Group)
    requires |times| == |events|
  {
    && p < grp.end <= |events| && grp.removed <= 1
    && (forall j :: p <= j < grp.end ==> times[j] == times[p])
    && (forall j :: p <= j < grp.end - 1 ==> events[j] == Sample)
    && (grp.removed == 1 <==> events[grp.end - 1] != Sample)
    && grp.added == grp.end - p - grp.removed
  }

  lemma GroupFromIsGroup(times: seq<real>, events: seq<IntervalType>, p: nat)
    requires |times| == |events| && p < |events|
    ensures IsGroup(times, events, p, GroupFrom(times, events, times[p], p, 0))
  {
    GroupShape(times, events, times[p], p, 0);
  }

  /** The state of the outer loop between the two halves of a pass over
      the group grp that starts at event p. */
  ghost predicate MidInv(times: seq<real>, events: seq<IntervalType>, p: nat, grp: Group, s: SweepState)
    requires |times| == |events| && IsGroup(times, events, p, grp)
  {
    && Closers(events, s.acc, if grp.added > 0 then p + 1 else p)
    && Covers(events, s.acc, p)
    && Spans(times, s.acc) && StartsAtLastCloser(times, s.acc, s.start)
    && |s.acc.closers| <= p + (if grp.added > 0 then 1 else 0)
    && s.numLines == Net(events[..grp.end - grp.removed])
    && (Sorted(times) ==> s.start == times[if p == 0 && grp.added == 0 then 0 else if grp.added > 0 then p else p - 1])
  }

  /** The group adds lineages and closes the open interval. */
  lemma AddedRecords(times: seq<real>, events: seq<IntervalType>, s: SweepState, grp: Group)
    requires |times| == |events| && s.next < |events|
    requires SweepInv(times, events, s) && IsGroup(times, events, s.next, grp)
    requires grp.added > 0 && (|s.acc.widths| > 0 || times[s.next] - s.start > 0.0)
    ensures MidInv(times, events, s.next, grp, AfterAdded(s, times[s.next], grp))
  {
    var p := s.next;
    NetSamples(events, p, grp.end - grp.removed);
    RecordKeeps(times, events, s.acc, s.start, p, p);
    assert AfterAdded(s, times[p], grp)
        == State(p, times[p], s.numLines + grp.added, s.acc.Record(times[p] - s.start, s.numLines, p));
  }

  /** The group adds lineages but the first interval would be empty. */
  lemma AddedSkips(times: seq<real>, events: seq<IntervalType>, s: SweepState, grp: Group)
    requires |times| == |events| && s.next < |events|
    requires SweepInv(times, events, s) && IsGroup(times, events, s.next, grp)
    requires grp.added > 0 && !(|s.acc.widths| > 0 || times[s.next] - s.start > 0.0)
    ensures MidInv(times, events, s.next, grp, AfterAdded(s, times[s.next], grp))
  {
    NetSamples(events, s.next, grp.end - grp.removed);
    if Sorted(times) {
      assert times[s.next] >= times[0];
    }
  }

  /** The group adds no lineage. */
  lemma AddedNothing(times: seq<real>, events: seq<IntervalType>, s: SweepState, grp: Group)
    requires |times| == |events| && s.next < |events|
    requires SweepInv(times, events, s) && IsGroup(times, events, s.next, grp)
    requires grp.added == 0
    ensures MidInv(times, events, s.next, grp, AfterAdded(s, times[s.next], grp))
  {
  }

  /** The group removes a lineage and closes an interval at its last event. */
  lemma RemovedRecords(times: seq<real>, events: seq<IntervalType>, p: nat, s: SweepState, grp: Group)
    requires |times| == |events| && IsGroup(times, events, p, grp)
    requires MidInv(times, events, p, grp, s)
    requires grp.removed > 0
    ensures SweepInv(times, events, AfterRemoved(s, times[p], grp))
  {
    var e := grp.end;
    NetStep(events, e - 1);
    assert times[e - 1] == times[p];
    RecordKeeps(times, events, s.acc, s.start, e - 1, p);
    var acc2 := s.acc.Record(times[p] - s.start, s.numLines, e - 1);
    assert AfterRemoved(s, times[p], grp) == State(e, times[p], s.numLines - 1, acc2);
    assert s.numLines - 1 == Net(events[..e]);
    assert Covers(events, acc2, e) by {
      forall j | 0 <= j < e && events[j] != Sample
        ensures j in acc2.closers
      {
        if j < p {
          assert j in s.acc.closers;
        } else {
          assert j == e - 1;
        }
      }
    }
  }

  /** The group only adds lineages. */
  lemma RemovedNothing(times: seq<real>, events: seq<IntervalType>, p: nat, s: SweepState, grp: Group)
    requires |times| == |events| && IsGroup(times, events, p, grp)
    requires MidInv(times, events, p, grp, s)
    requires grp.removed == 0
    ensures SweepInv(times, events, AfterRemoved(s, times[p], grp))
  {
    var e := grp.end;
    assert Covers(events, s.acc, e) by {
      forall j | 0 <= j < e && events[j] != Sample
        ensures j in s.acc.closers
      {
        assert j < p;
      }
    }
  }

  /** One group of the sweep keeps the loop invariant. */
  lemma GroupStepKeeps(times: seq<real>, events: seq<IntervalType>, s: SweepState)
    requires |times| == |events| && s.next < |events|
    requires SweepInv(times, events, s)
    ensures SweepInv(times, events, GroupStep(times, events, s))
  {
    var p := s.next;
    var grp := GroupFrom(times, events, times[p], p, 0);
    GroupFromIsGroup(times, events, p);
    if grp.added > 0 {
      if |s.acc.widths| > 0 || times[p] - s.start > 0.0 {
        AddedRecords(times, events, s, grp);
      } else {
        AddedSkips(times, events, s, grp);
      }
    } else {
      AddedNothing(times, events, s, grp);
    }
    var s1 := AfterAdded(s, times[p], grp);
    if grp.removed > 0 {
      RemovedRecords(times, events, p, s1, grp);
    } else {
      RemovedNothing(times, events, p, s1, grp);
    }
  }

  /** The loop invariant holds of what the sweep finally returns. */
  lemma {:induction false} SweepResult(times: seq<real>, events: seq<IntervalType>, s: SweepState)
    requires |times| == |events| && s.next <= |events|
    requires SweepInv(times, events, s)
    ensures var sw := SweepFrom(times, events, s);
      && Recorded(times, events, |events|, sw)
      && (Sorted(times) ==> SumReal(sw.widths) == times[|times| - 1] - times[0])
    decreases |events| - s.next
  {
    if s.next < |events| {
      GroupStepKeeps(times, events, s);
      SweepResult(times, events, GroupStep(times, events, s));
    }
  }

  /** Everything `calculateIntervals` derives, stated on its result. */
  lemma IntervalsRecorded(times: seq<real>, events: seq<IntervalType>)
    requires |times| == |events| && |events| > 0
    ensures Recorded(times, events, |events|, Intervals(times, events))
    ensures Sorted(times) ==> SumReal(Intervals(times, events).widths) == times[|times| - 1] - times[0]
  {
    SweepResult(times, events, State(0, times[0], 0, Sweep([], [], [])));
  }

  /** There are at most as many intervals as events. */
  lemma IntervalCountBound(times: seq<real>, events: seq<IntervalType>)
    requires |times| == |events| && |events| > 0
    ensures var sw := Intervals(times, events);
      |sw.widths| == |sw.closers| && |sw.lineages| == |sw.closers| && |sw.closers| <= |events|
  {
    IntervalsRecorded(times, events);
  }

  /** The lineage count of interval i is the number of SAMPLE events minus
      the number of other events before the event that closes it. */
  lemma IntervalLineages(times: seq<real>, events: seq<IntervalType>, i: nat)
    requires |times| == |events| && |events| > 0
    requires i < |Intervals(times, events).closers|
    ensures var sw := Intervals(times, events);
      && sw.closers[i] < |events| && |sw.lineages| == |sw.closers|
      && sw.lineages[i] == Net(events[..sw.closers[i]])
  {
    IntervalsRecorded(times, events);
  }

  /** Every non-SAMPLE event closes an interval, and the closers are in
      event order. */
  lemma CoalescenceCloses(times: seq<real>, events: seq<IntervalType>, j: nat)
    requires |times| == |events| && j < |events| && events[j] != Sample
    ensures j in Intervals(times, events).closers
    ensures StrictlyIncreasing(Intervals(times, events).closers)
  {
    IntervalsRecorded(times, events);
  }

  /** For time-ordered events the intervals are non-negative, each one spans
      the time between two consecutive closing events, and together they
      span the time from the first to the last event. */
  lemma IntervalWidths(times: seq<real>, events: seq<IntervalType>, i: nat)
    requires |times| == |events| && |events| > 0 && Sorted(times)
    requires i < |Intervals(times, events).closers|
    ensures var sw := Intervals(times, events);
      && |sw.widths| == |sw.closers| && sw.closers[i] < |times|
      && (i > 0 ==> sw.closers[i - 1] < sw.closers[i])
      && sw.widths[i] == times[sw.closers[i]] - (if i == 0 then times[0] else times[sw.closers[i - 1]])
      && sw.widths[i] >= 0.0
      && SumReal(sw.widths) == times[|times| - 1] - times[0]
  {
    IntervalsRecorded(times, events);
  }

  /** The else-branch of `addEvent` up to the insert: the binary-search
      result, turned into its insertion point when the key is missing. On a
      sorted list everything before the point is no larger than the key and
      everything from it on no smaller. */
  method InsertionPoint(a: seq<real>, key: real) returns (at: nat)
    ensures at == InsertionIndex(a, key)
    ensures Sorted(a) ==>
      && (forall j :: 0 <= j < at ==> a[j] <= key)
      && (forall j :: at <= j < |a| ==> a[j] >= key)
  {
    var r := BinarySearch(a, key);
    if r < 0 {
      at := -r - 1;
    } else {
      at := r;
      if Sorted(a) {
        assert forall j :: 0 <= j < at ==> a[j] <= a[at];
      }
    }
  }

  /** Inserting x where everything before is no larger and everything after
      no smaller keeps a sequence sorted. */
  lemma InsertSorted(s: seq<real>, at: nat, x: real)
    requires Sorted(s) && at <= |s|
    requires forall j :: 0 <= j < at ==> s[j] <= x
    requires forall j :: at <= j < |s| ==> s[j] >= x
    ensures Sorted(s[..at] + [x] + s[at..])
  {
    var t := s[..at] + [x] + s[at..];
    assert forall j :: 0 <= j < |t| ==> t[j] == (if j < at then s[j] else if j == at then x else s[j - 1]);
  }

  /** The inner do-loop of `calculateIntervals` (multifurcationLimit = 0):
      from event `first`, count SAMPLE events that share its time until a
      non-SAMPLE event (which is counted and ends the group), an event at
      another time, or the end of the list. */
  method ScanGroup(times: seq<real>, events: seq<IntervalType>, first: nat)
      returns (nodeNo: nat, lineagesAdded: nat, lineagesRemoved: nat)
    requires |times| == |events| && first < |events|
    ensures Group(nodeNo, lineagesAdded, lineagesRemoved) == GroupFrom(times, events, times[first], first, 0)
  {
    var nodeCount := |events|;
    var finish := times[first];
    nodeNo := first;
    lineagesAdded, lineagesRemoved := 0, 0;
    while true
      invariant first <= nodeNo < nodeCount
      invariant lineagesRemoved == 0
      invariant GroupFrom(times, events, finish, nodeNo, lineagesAdded) == GroupFrom(times, events, finish, first, 0)
      decreases nodeCount - nodeNo
    {
      var kind := events[nodeNo];
      nodeNo := nodeNo + 1;
      if kind == Sample {
        lineagesAdded := lineagesAdded + 1;
      } else {
        lineagesRemoved := lineagesRemoved + 1;
        break;
      }
      if nodeNo < nodeCount {
        var next := times[nodeNo];
        if next != finish {
          break;
        }
      } else {
        break;
      }
    }
  }

  /** The body of the outer loop of `calculateIntervals` after the inner
      do-loop has scanned the group of events first .. nodeNo-1: record the
      interval the group's SAMPLE events close (unless it would be the first
      interval and empty), add their lineages, record the interval a
      coalescence closes and remove its lineage. */
  method CloseGroup(ivs: array<real>, lcs: array<int>, count0: nat, start0: real, numLines0: int, finish: real,
                    first: nat, nodeNo: nat, lineagesAdded: nat, lineagesRemoved: nat, ghost acc0: Sweep)
      returns (count: nat, start: real, numLines: int, ghost acc: Sweep)
    requires ivs.Length == lcs.Length && count0 <= first < nodeNo <= ivs.Length
    requires lineagesAdded + lineagesRemoved == nodeNo - first && lineagesRemoved <= 1
    requires |acc0.widths| == count0 && |acc0.lineages| == count0
    requires forall k :: 0 <= k < count0 ==> ivs[k] == acc0.widths[k] && lcs[k] == acc0.lineages[k]
    modifies ivs, lcs
    ensures var grp := Group(nodeNo, lineagesAdded, lineagesRemoved);
      State(nodeNo, start, numLines, acc)
      == AfterRemoved(AfterAdded(State(first, start0, numLines0, acc0), finish, grp), finish, grp)
    ensures count <= nodeNo && |acc.widths| == count && |acc.lineages| == count
    ensures forall k :: 0 <= k < count ==> ivs[k] == acc.widths[k] && lcs[k] == acc.lineages[k]
  {
    count, start, numLines, acc := count0, start0, numLines0, acc0;
    if lineagesAdded > 0 {
      if count > 0 || finish - start > 0.0 {
        ivs[count] := finish - start;
        lcs[count] := numLines;
        acc := acc.Record(finish - start, numLines, first);
        count := count + 1;
      }
      start := finish;
    }
    numLines := numLines + lineagesAdded;
    if lineagesRemoved > 0 {
      ivs[count] := finish - start;
      lcs[count] := numLines;
      acc := acc.Record(finish - start, numLines, nodeNo - 1);
      count := count + 1;
      start := finish;
    }
    numLines := numLines - lineagesRemoved;
  }

  /** The loop of `calculateIntervals` (multifurcationLimit = 0), which
      fills the width and lineage-count arrays from the start and returns the
      number of intervals. */
  method FillIntervals(times: seq<real>, events: seq<IntervalType>, ivs: array<real>, lcs: array<int>)
      returns (count: nat)
    requires |times| == |events| && |events| > 0
    requires ivs.Length == |events| && lcs.Length == |events|
    modifies ivs, lcs
    ensures var sw := Intervals(times, events);
      && count == |sw.widths| && count <= ivs.Length
      && ivs[..count] == sw.widths && lcs[..count] == sw.lineages
  {
    var nodeCount := |events|;
    var start := times[0];
    var numLines: int := 0;
    var nodeNo := 0;
    count := 0;
    ghost var acc := Sweep([], [], []);
    ghost var target := Intervals(times, events);
    while nodeNo < nodeCount
      invariant 0 <= count <= nodeNo <= nodeCount
      invariant |acc.widths| == count && |acc.lineages| == count
      invariant forall k :: 0 <= k < count ==> ivs[k] == acc.widths[k] && lcs[k] == acc.lineages[k]
      invariant SweepFrom(times, events, State(nodeNo, start, numLines, acc)) == target
      decreases nodeCount - nodeNo
    {
      var first := nodeNo;
      var finish := times[nodeNo];
      var lineagesAdded, lineagesRemoved;
      nodeNo, lineagesAdded, lineagesRemoved := ScanGroup(times, events, first);
      count, start, numLines, acc :=
        CloseGroup(ivs, lcs, count, start, numLines, finish, first, nodeNo, lineagesAdded, lineagesRemoved, acc);
    }
    assert ivs[..count] == acc.widths;
    assert lcs[..count] == acc.lineages;
  }

  class SegmentIntervalList {
    var birthTime: real
    var times: seq<real>
    var events: seq<IntervalType>
    var intervalCount: nat
    var intervals: array?<real>
    var lineageCounts: array?<int>

    /** The events are kept in time order and the two interval arrays exist
        together, with equal lengths. */
    ghost predicate Valid()
      reads this, intervals, lineageCounts
    {
      && |times| == |events|
      && Sorted(times)
      && (intervals == null <==> lineageCounts == null)
      && (intervals == null ==> intervalCount == 0)
      && (intervals != null ==> intervals.Length == lineageCounts.Length)
    }

    /** The arrays hold the intervals of the current events. */
    ghost predicate Computed()
      reads this, intervals, lineageCounts
    {
      && Valid()
      && |events| > 0 && intervals != null && intervalCount <= intervals.Length
      && var sw := Intervals(times, events);
         && intervalCount == |sw.widths|
         && intervals[..intervalCount] == sw.widths
         && lineageCounts[..intervalCount] == sw.lineages
    }

    /** `getInterval(i)`: the source admits i == intervalCount (one more
        interval than counted); a missing array or an index past its end is
        an error of the array access. */
    function GetInterval(i: int): (r: Result<real>)
      reads this, intervals
      ensures r.Ok? <==> 0 <= i <= intervalCount && intervals != null && i < intervals.Length
      ensures (i < 0 || i > intervalCount) ==> r == Err(IllegalArgument)
    {
      if i < 0 || i >= intervalCount + 1 then Err(IllegalArgument)
      else if intervals == null then Err(NullPointer)
      else if i >= intervals.Length then Err(IndexOutOfBounds)
      else Ok(intervals[i])
    }

    /** `getLineageCount(i)`. */
    function GetLineageCount(i: int): (r: Result<int>)
      reads this, lineageCounts
      ensures r.Ok? <==> 0 <= i < intervalCount && lineageCounts != null && i < lineageCounts.Length
      ensures i >= intervalCount ==> r == Err(IllegalArgument)
    {
      if i >= intervalCount then Err(IllegalArgument)
      else if lineageCounts == null then Err(NullPointer)
      else if i < 0 || i >= lineageCounts.Length then Err(IndexOutOfBounds)
      else Ok(lineageCounts[i])
    }

    /** `getCoalescentEvents(i)`: the drop in lineages to the next interval,
        or to a single lineage after the last one. */
    function GetCoalescentEvents(i: int): (r: Result<int>)
      reads this, lineageCounts
      ensures r.Ok? <==> 0 <= i < intervalCount && lineageCounts != null && i < lineageCounts.Length
                          && (i < intervalCount - 1 ==> i + 1 < lineageCounts.Length)
      ensures i >= intervalCount ==> r == Err(IllegalArgument)
    {
      if i >= intervalCount then Err(IllegalArgument)
      else if lineageCounts == null then Err(NullPointer)
      else if i < 0 || i >= lineageCounts.Length then Err(IndexOutOfBounds)
      else if i < intervalCount - 1 then
        if i + 1 >= lineageCounts.Length then Err(IndexOutOfBounds)
        else Ok(lineageCounts[i] - lineageCounts[i + 1])
      else Ok(lineageCounts[i] - 1)
    }

    /** `getIntervalType(i)`: by the sign of the coalescent events. */
    function GetIntervalType(i: int): (r: Result<IntervalType>)
      reads this, lineageCounts
      ensures r.Ok? <==> GetCoalescentEvents(i).Ok?
      ensures r.Ok? ==> (r.value == Coalescent <==> GetCoalescentEvents(i).value > 0)
      ensures r.Ok? ==> (r.value == Sample <==> GetCoalescentEvents(i).value < 0)
    {
      if i >= intervalCount then Err(IllegalArgument)
      else
        match GetCoalescentEvents(i)
        case Err(f) => Err(f)
        case Ok(n) => if n > 0 then Ok(Coalescent) else if n < 0 then Ok(Sample) else Ok(Nothing)
    }

    /** `getTotalDuration()`: the time from the first to the last event. */
    function GetTotalDuration(): (r: Result<real>)
      reads this
      ensures r.Ok? <==> |times| > 0
    {
      if |times| == 0 then Err(IndexOutOfBounds) else Ok(times[|times| - 1] - times[0])
    }

    constructor ()
      ensures Valid()
      ensures times == [] && events == [] && intervalCount == 0 && birthTime == 0.0
      ensures intervals == null && lineageCounts == null
    {
      birthTime := 0.0;
      times := [];
      events := [];
      intervalCount := 0;
      intervals := null;
      lineageCounts := null;
    }

    /** `addEvent`: append when the list is empty or the time is later than
        the last one, otherwise insert at the binary-search position, which
        keeps the events in time order. The position is returned as a ghost
        out-parameter for the proofs. */
    method AddEvent(time: real, kind: IntervalType) returns (ghost index: nat)
      requires Valid()
      modifies this
      ensures Valid()
      ensures intervals == old(intervals) && lineageCounts == old(lineageCounts)
      ensures intervalCount == old(intervalCount) && birthTime == old(birthTime)
      ensures index <= |old(times)|
      ensures times == old(times)[..index] + [time] + old(times)[index..]
      ensures events == old(events)[..index] + [kind] + old(events)[index..]
      ensures (|old(times)| == 0 || old(times)[|old(times)| - 1] < time) ==> index == |old(times)|
      ensures !(|old(times)| == 0 || old(times)[|old(times)| - 1] < time) ==> index == InsertionIndex(old(times), time)
    {
      if |times| == 0 || times[|times| - 1] < time {
        index := |times|;
        InsertSorted(times, index, time);
        assert times[..index] == times && times[index..] == [];
        assert events[..index] == events && events[index..] == [];
        times := times + [time];
        events := events + [kind];
      } else {
        var at := InsertionPoint(times, time);
        index := at;
        InsertSorted(times, at, time);
        times := times[..at] + [time] + times[at..];
        events := events[..at] + [kind] + events[at..];
      }
    }

    /** `calculateIntervals` with multifurcationLimit = 0. The source throws
        on an empty event list (`times.get(0)`), after it has (re)allocated
        the arrays; that outcome is `ok == false`. */
    method CalculateIntervals() returns (ok: bool)
      requires Valid()
      modifies this, intervals, lineageCounts
      ensures Valid()
      ensures times == old(times) && events == old(events) && birthTime == old(birthTime)
      ensures intervals != null && intervals.Length == |events|
      ensures old(intervals) == null || old(intervals).Length != |events| ==>
                fresh(intervals) && fresh(lineageCounts)
      ensures old(intervals) != null && old(intervals).Length == |events| ==>
                intervals == old(intervals) && lineageCounts == old(lineageCounts)
      ensures ok <==> |events| > 0
      ensures !ok ==> intervalCount == old(intervalCount)
      ensures ok ==> Computed()
    {
      var nodeCount := |events|;
      if intervals == null || intervals.Length != nodeCount {
        intervals := new real[nodeCount];
        lineageCounts := new int[nodeCount];
      }
      if nodeCount == 0 {
        return false;
      }
      var count := FillIntervals(times, events, intervals, lineageCounts);
      intervalCount := count;
      return true;
    }
  }

  /** After `calculateIntervals`, `getLineageCount(i)` answers exactly for
      the recorded intervals, with the net number of lineages the events
      before the interval's closing event leave. */
  lemma LineageCountMeaning(l: SegmentIntervalList, i: int)
    requires l.Computed()
    ensures var sw := Intervals(l.times, l.events);
      && (l.GetLineageCount(i).Ok? <==> 0 <= i < |sw.closers|)
      && (0 <= i < |sw.closers| ==>
            sw.closers[i] < |l.events| && l.GetLineageCount(i) == Ok(Net(l.events[..sw.closers[i]])))
  {
    var sw := Intervals(l.times, l.events);
    IntervalCountBound(l.times, l.events);
    if 0 <= i < |sw.closers| {
      IntervalLineages(l.times, l.events, i);
      assert l.lineageCounts[i] == l.lineageCounts[..l.intervalCount][i];
    }
  }

  /** After `calculateIntervals`, `getInterval(i)` of a recorded interval is
      the (non-negative) time between its closing event and the previous
      one. */
  lemma IntervalMeaning(l: SegmentIntervalList, i: int)
    requires l.Computed() && 0 <= i < l.intervalCount
    ensures var sw := Intervals(l.times, l.events);
      && i < |sw.closers| && sw.closers[i] < |l.times|
      && (i > 0 ==> sw.closers[i - 1] < sw.closers[i])
      && l.GetInterval(i) == Ok(l.times[sw.closers[i]] - (if i == 0 then l.times[0] else l.times[sw.closers[i - 1]]))
      && l.GetInterval(i).value >= 0.0
  {
    IntervalCountBound(l.times, l.events);
    IntervalWidths(l.times, l.events, i);
    assert l.intervals[i] == l.intervals[..l.intervalCount][i];
  }

  /** After `calculateIntervals`, the recorded intervals add up to
      `getTotalDuration()`. */
  lemma TotalDurationMeaning(l: SegmentIntervalList)
    requires l.Computed()
    ensures l.GetTotalDuration() == Ok(SumReal(l.intervals[..l.intervalCount]))
  {
    IntervalsRecorded(l.times, l.events);
  }

  /** After `calculateIntervals`, `getCoalescentEvents(i)` of an interval
      other than the last is the number of non-SAMPLE events minus the number
      of SAMPLE events from its closer up to the next interval's closer. */
  lemma CoalescentEventsMeaning(l: SegmentIntervalList, i: int)
    requires l.Computed() && 0 <= i < l.intervalCount - 1
    ensures var sw := Intervals(l.times, l.events);
      && i + 1 < |sw.closers| && sw.closers[i] < sw.closers[i + 1] <= |l.events|
      && l.GetCoalescentEvents(i) == Ok(-Net(l.events[sw.closers[i]..sw.closers[i + 1]]))
  {
    var sw := Intervals(l.times, l.events);
    IntervalCountBound(l.times, l.events);
    IntervalLineages(l.times, l.events, i);
    IntervalLineages(l.times, l.events, i + 1);
    IntervalsRecorded(l.times, l.events);
    assert l.lineageCounts[i] == l.lineageCounts[..l.intervalCount][i];
    assert l.lineageCounts[i + 1] == l.lineageCounts[..l.intervalCount][i + 1];
    NetSplit(l.events, sw.closers[i], sw.closers[i + 1]);
  }
}
