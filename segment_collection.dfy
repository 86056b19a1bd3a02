/** `collectSegments` of the transmission tree likelihood: one segment per
    colour (host) that occurs in the colouring, holding a SAMPLE or
    COALESCENT event for every node of that colour, a SAMPLE event at the top
    of every block where a child colour starts, and the host's birth
    (infection) time. The colouring itself comes from the colour provider,
    which is not part of this model, and is an input here. */
module SegmentCollection {
  import opened Outcomes
  import opened TreeArena
  import opened SegmentIntervals

  /** The (time, type) pairs of an event list. */
  function Zip(times: seq<real>, events: seq<IntervalType>): (z: seq<(real, IntervalType)>)
    requires |times| == |events|
    ensures |z| == |times|
    ensures forall k :: 0 <= k < |z| ==> z[k] == (times[k], events[k])
  {
    seq(|times|, k requires 0 <= k < |times| => (times[k], events[k]))
  }

  /** Inserting one event at any position adds exactly its pair to the
      multiset of events. */
  lemma ZipInsert(times: seq<real>, events: seq<IntervalType>, i: nat, x: real, y: IntervalType)
    requires |times| == |events| && i <= |times|
    ensures |times[..i] + [x] + times[i..]| == |events[..i] + [y] + events[i..]|
    ensures multiset(Zip(times[..i] + [x] + times[i..], events[..i] + [y] + events[i..]))
         == multiset(Zip(times, events)) + multiset{(x, y)}
  {
    var z := Zip(times, events);
    var z' := Zip(times[..i] + [x] + times[i..], events[..i] + [y] + events[i..]);
    assert z' == z[..i] + [(x, y)] + z[i..];
    assert z == z[..i] + z[i..];
  }

  /** The event a node adds to its own colour's segment. */
  function NodeKind(t: Tree, i: nat): IntervalType
    requires i < |t.parent|
  {
    if IsLeaf(t, i) then Sample else Coalescent
  }

  /** Height of a fraction f along the branch above node i. */
  function OnBranch(t: Tree, i: nat, f: real): real
    requires Shaped(t) && i < |t.parent|
  {
    t.height[i] + f * Length(t, i)
  }

  /** Node i's branch is where a new colour starts: i is not the root and
      its colour differs from its parent's. */
  predicate StartsColour(t: Tree, colours: seq<int>, i: nat)
    requires Shaped(t) && |colours| == |t.parent| && i < |t.parent|
  {
    t.parent[i] != -1 && colours[i] != colours[t.parent[i]]
  }

  /** The events node i contributes to the segment of colour c: its own
      event if it has colour c, and the SAMPLE at the top of its block if a
      new colour starts on its branch below a node of colour c. */
  ghost function NodeEvents(t: Tree, colours: seq<int>, ends: seq<real>, i: nat, c: int): multiset<(real, IntervalType)>
    requires Rooted(t) && |colours| == |t.parent| && |ends| == |t.parent| - 1 && i < |t.parent|
  {
    (if colours[i] == c then multiset{(t.height[i], NodeKind(t, i))} else multiset{})
    + (if StartsColour(t, colours, i) && colours[t.parent[i]] == c
       then multiset{(OnBranch(t, i, ends[i]), Sample)} else multiset{})
  }

  /** The events nodes 0 .. k-1 contribute to the segment of colour c. */
  ghost function SegmentEvents(t: Tree, colours: seq<int>, ends: seq<real>, k: nat, c: int): multiset<(real, IntervalType)>
    requires Rooted(t) && |colours| == |t.parent| && |ends| == |t.parent| - 1 && k <= |t.parent|
  {
    if k == 0 then multiset{}
    else SegmentEvents(t, colours, ends, k - 1, c) + NodeEvents(t, colours, ends, k - 1, c)
  }

  /** The birth time node i writes, and into which colour's segment: the
      root writes its own height, a node where a colour starts writes the
      bottom of its block. */
  function BirthWrite(t: Tree, colours: seq<int>, starts: seq<real>, i: nat): Option<(int, real)>
    requires Rooted(t) && |colours| == |t.parent| && |starts| == |t.parent| - 1 && i < |t.parent|
  {
    if IsRoot(t, i) then Some((colours[i], t.height[i]))
    else if StartsColour(t, colours, i) then Some((colours[i], OnBranch(t, i, starts[i])))
    else None
  }

  /** The birth time of colour c's segment after nodes 0 .. k-1: the last
      write into it, or the fresh segment's 0. */
  function BirthSoFar(t: Tree, colours: seq<int>, starts: seq<real>, k: nat, c: int): real
    requires Rooted(t) && |colours| == |t.parent| && |starts| == |t.parent| - 1 && k <= |t.parent|
  {
    if k == 0 then 0.0
    else match BirthWrite(t, colours, starts, k - 1)
      case Some((d, h)) => if d == c then h else BirthSoFar(t, colours, starts, k - 1, c)
      case None => BirthSoFar(t, colours, starts, k - 1, c)
  }

  /** The birth time after the root colour's entry is replaced by the origin,
      or by the root height when there is no origin. */
  function FinalBirth(t: Tree, colours: seq<int>, starts: seq<real>, origin: Option<real>, c: int): real
    requires Rooted(t) && |colours| == |t.parent| && |starts| == |t.parent| - 1
  {
    if c == colours[Root(t)] then
      (match origin case Some(o) => o case None => t.height[Root(t)])
    else BirthSoFar(t, colours, starts, |t.parent|, c)
  }


  ghost predicate Colouring(t: Tree, colours: seq<int>) {
    |colours| == |t.parent| && forall i :: 0 <= i < |colours| ==> 0 <= colours[i] < |colours|
  }

  /** A segment list before its intervals are calculated, holding the
      events evs and birth time birth. */
  ghost predicate Holds(s: SegmentIntervalList, evs: multiset<(real, IntervalType)>, birth: real)
    reads s
  {
    && |s.times| == |s.events| && Sorted(s.times)
    && s.intervals == null && s.lineageCounts == null && s.intervalCount == 0
    && multiset(Zip(s.times, s.events)) == evs && s.birthTime == birth
  }

  /** No segment list occurs twice. */
  ghost predicate Distinct(segs: array<SegmentIntervalList?>)
    reads segs
  {
    forall c, d :: 0 <= c < d < segs.Length && segs[c] != null && segs[d] != null ==> segs[c] != segs[d]
  }

  ghost function Lists(segs: array<SegmentIntervalList?>): set<SegmentIntervalList>
    reads segs
  {
    set c | 0 <= c < segs.Length && segs[c] != null :: segs[c]
  }

  /** Every present segment list holds the events and birth time its
      colour's entries give. */
  ghost predicate AllHold(segs: array<SegmentIntervalList?>, evs: seq<multiset<(real, IntervalType)>>, births: seq<real>)
    reads segs, Lists(segs)
  {
    && |evs| == segs.Length && |births| == segs.Length
    && forall c :: 0 <= c < segs.Length && segs[c] != null ==> Holds(segs[c], evs[c], births[c])
  }

  ghost function EventsAt(t: Tree, colours: seq<int>, ends: seq<real>, k: nat): (evs: seq<multiset<(real, IntervalType)>>)
    requires Rooted(t) && Colouring(t, colours) && |ends| == |t.parent| - 1 && k <= |t.parent|
    ensures |evs| == |t.parent|
  {
    seq(|t.parent|, c requires 0 <= c < |t.parent| => SegmentEvents(t, colours, ends, k, c))
  }

  ghost function BirthsAt(t: Tree, colours: seq<int>, starts: seq<real>, k: nat): (bs: seq<real>)
    requires Rooted(t) && Colouring(t, colours) && |starts| == |t.parent| - 1 && k <= |t.parent|
    ensures |bs| == |t.parent|
  {
    seq(|t.parent|, c requires 0 <= c < |t.parent| => BirthSoFar(t, colours, starts, k, c))
  }

  /** The state of every segment list after nodes 0 .. k-1 were added. */
  ghost predicate AddedUpTo(t: Tree, colours: seq<int>, starts: seq<real>, ends: seq<real>,
                            segs: array<SegmentIntervalList?>, k: nat)
    requires Rooted(t) && Colouring(t, colours) && |starts| == |ends| == |t.parent| - 1
    requires k <= |t.parent|
    reads segs, Lists(segs)
  {
    AllHold(segs, EventsAt(t, colours, ends, k), BirthsAt(t, colours, starts, k))
  }

  /** The first two loops of `collectSegments`: a list of N empty slots,
      then a fresh segment list for every colour that occurs. */
  method NewSegments(t: Tree, colours: seq<int>) returns (segs: array<SegmentIntervalList?>)
    requires Rooted(t) && Colouring(t, colours)
    ensures fresh(segs) && segs.Length == |t.parent| && Distinct(segs)
    ensures forall c :: 0 <= c < segs.Length ==> (segs[c] != null <==> c in colours)
    ensures forall c :: 0 <= c < segs.Length && segs[c] != null ==>
              fresh(segs[c]) && Holds(segs[c], multiset{}, 0.0)
  {
    var n := |t.parent|;
    segs := new SegmentIntervalList?[n](_ => null);
    for i := 0 to n
      invariant forall c :: 0 <= c < n ==> (segs[c] != null <==> c in colours[..i])
      invariant forall c :: 0 <= c < n && segs[c] != null ==>
                  fresh(segs[c]) && Holds(segs[c], multiset{}, 0.0)
      invariant Distinct(segs)
    {
      var colour := colours[i];
      assert colours[..i + 1] == colours[..i] + [colour];
      if segs[colour] == null {
        var list := new SegmentIntervalList();
        segs[colour] := list;
      }
    }
    assert colours[..n] == colours;
  }

  /** `addEvent` on the segment list of colour c, followed by setting its
      birth time; no other list changes. */
  method AddTo(segs: array<SegmentIntervalList?>, c: nat, ghost evs: seq<multiset<(real, IntervalType)>>,
               ghost births: seq<real>, time: real, kind: IntervalType, newBirth: real)
    requires c < segs.Length && segs[c] != null && Distinct(segs) && AllHold(segs, evs, births)
    modifies segs[c]
    ensures AllHold(segs, evs[c := evs[c] + multiset{(time, kind)}], births[c := newBirth])
  {
    var list := segs[c];
    ghost var times, events := list.times, list.events;
    ghost var at := list.AddEvent(time, kind);
    ZipInsert(times, events, at, time, kind);
    list.birthTime := newBirth;
    ghost var evs' := evs[c := evs[c] + multiset{(time, kind)}];
    ghost var births' := births[c := newBirth];
    forall d | 0 <= d < segs.Length && segs[d] != null
      ensures Holds(segs[d], evs'[d], births'[d])
    {
      if d != c {
        assert segs[d] != list;
        assert old(Holds(segs[d], evs[d], births[d]));
      }
    }
  }

  /** The events node i adds to the segment of colour c: its own event to
      its own colour, the SAMPLE at the top of its block to its parent's
      colour when a colour starts on its branch, nothing to any other. */
  lemma NodeEventsCases(t: Tree, colours: seq<int>, ends: seq<real>, i: nat, c: int)
    requires Rooted(t) && Colouring(t, colours) && |ends| == |t.parent| - 1
    requires i < |t.parent|
    ensures c == colours[i] ==>
              SegmentEvents(t, colours, ends, i + 1, c)
              == SegmentEvents(t, colours, ends, i, c) + multiset{(t.height[i], NodeKind(t, i))}
    ensures c != colours[i] && StartsColour(t, colours, i) && colours[t.parent[i]] == c ==>
              SegmentEvents(t, colours, ends, i + 1, c)
              == SegmentEvents(t, colours, ends, i, c) + multiset{(OnBranch(t, i, ends[i]), Sample)}
    ensures c != colours[i] && !(StartsColour(t, colours, i) && colours[t.parent[i]] == c) ==>
              SegmentEvents(t, colours, ends, i + 1, c) == SegmentEvents(t, colours, ends, i, c)
  {
  }

  /** Which segment's birth time node i writes. */
  lemma BirthCases(t: Tree, colours: seq<int>, starts: seq<real>, i: nat, c: int)
    requires Rooted(t) && Colouring(t, colours) && |starts| == |t.parent| - 1
    requires i < |t.parent|
    ensures c != colours[i] ==> BirthSoFar(t, colours, starts, i + 1, c) == BirthSoFar(t, colours, starts, i, c)
    ensures c == colours[i] && IsRoot(t, i) ==> BirthSoFar(t, colours, starts, i + 1, c) == t.height[i]
    ensures c == colours[i] && StartsColour(t, colours, i) ==>
              BirthSoFar(t, colours, starts, i + 1, c) == OnBranch(t, i, starts[i])
    ensures c == colours[i] && !IsRoot(t, i) && !StartsColour(t, colours, i) ==>
              BirthSoFar(t, colours, starts, i + 1, c) == BirthSoFar(t, colours, starts, i, c)
  {
  }

  /** The per-colour events and birth times after node i, as updates of
      those before it: the root adds its event to its colour and writes its
      height there. */
  lemma RootStep(t: Tree, colours: seq<int>, starts: seq<real>, ends: seq<real>, i: nat)
    requires Rooted(t) && Colouring(t, colours) && |starts| == |ends| == |t.parent| - 1
    requires i < |t.parent| && IsRoot(t, i)
    ensures var evs, c := EventsAt(t, colours, ends, i), colours[i];
      EventsAt(t, colours, ends, i + 1) == evs[c := evs[c] + multiset{(t.height[i], NodeKind(t, i))}]
    ensures BirthsAt(t, colours, starts, i + 1) == BirthsAt(t, colours, starts, i)[colours[i] := t.height[i]]
  {
    var evs, c0 := EventsAt(t, colours, ends, i), colours[i];
    var evs' := evs[c0 := evs[c0] + multiset{(t.height[i], NodeKind(t, i))}];
    var births' := BirthsAt(t, colours, starts, i)[c0 := t.height[i]];
    forall c | 0 <= c < |t.parent|
      ensures EventsAt(t, colours, ends, i + 1)[c] == evs'[c]
      ensures BirthsAt(t, colours, starts, i + 1)[c] == births'[c]
    {
      NodeEventsCases(t, colours, ends, i, c);
      BirthCases(t, colours, starts, i, c);
    }
  }

  /** A node of its parent's colour adds its event to that colour and
      writes no birth time. */
  lemma SameColourStep(t: Tree, colours: seq<int>, starts: seq<real>, ends: seq<real>, i: nat)
    requires Rooted(t) && Colouring(t, colours) && |starts| == |ends| == |t.parent| - 1
    requires i < |t.parent| && !IsRoot(t, i) && !StartsColour(t, colours, i)
    ensures var evs, c := EventsAt(t, colours, ends, i), colours[i];
      EventsAt(t, colours, ends, i + 1) == evs[c := evs[c] + multiset{(t.height[i], NodeKind(t, i))}]
    ensures BirthsAt(t, colours, starts, i + 1) == BirthsAt(t, colours, starts, i)
  {
    var evs, c0 := EventsAt(t, colours, ends, i), colours[i];
    var evs' := evs[c0 := evs[c0] + multiset{(t.height[i], NodeKind(t, i))}];
    forall c | 0 <= c < |t.parent|
      ensures EventsAt(t, colours, ends, i + 1)[c] == evs'[c]
      ensures BirthsAt(t, colours, starts, i + 1)[c] == BirthsAt(t, colours, starts, i)[c]
    {
      NodeEventsCases(t, colours, ends, i, c);
      BirthCases(t, colours, starts, i, c);
    }
  }

  /** A node whose branch starts a colour adds its event to its own colour,
      the SAMPLE at the top of its block to its parent's colour, and writes
      the bottom of its block as its colour's birth time. */
  lemma ColourStartStep(t: Tree, colours: seq<int>, starts: seq<real>, ends: seq<real>, i: nat)
    requires Rooted(t) && Colouring(t, colours) && |starts| == |ends| == |t.parent| - 1
    requires i < |t.parent| && StartsColour(t, colours, i)
    ensures var evs, c, pc := EventsAt(t, colours, ends, i), colours[i], colours[t.parent[i]];
      var evs1 := evs[c := evs[c] + multiset{(t.height[i], NodeKind(t, i))}];
      EventsAt(t, colours, ends, i + 1) == evs1[pc := evs1[pc] + multiset{(OnBranch(t, i, ends[i]), Sample)}]
    ensures BirthsAt(t, colours, starts, i + 1) == BirthsAt(t, colours, starts, i)[colours[i] := OnBranch(t, i, starts[i])]
  {
    ColourStartEvents(t, colours, ends, i);
    var births' := BirthsAt(t, colours, starts, i)[colours[i] := OnBranch(t, i, starts[i])];
    forall c | 0 <= c < |t.parent|
      ensures BirthsAt(t, colours, starts, i + 1)[c] == births'[c]
    {
      BirthCases(t, colours, starts, i, c);
    }
  }

  lemma ColourStartEvents(t: Tree, colours: seq<int>, ends: seq<real>, i: nat)
    requires Rooted(t) && Colouring(t, colours) && |ends| == |t.parent| - 1
    requires i < |t.parent| && StartsColour(t, colours, i)
    ensures var evs, c, pc := EventsAt(t, colours, ends, i), colours[i], colours[t.parent[i]];
      var evs1 := evs[c := evs[c] + multiset{(t.height[i], NodeKind(t, i))}];
      EventsAt(t, colours, ends, i + 1) == evs1[pc := evs1[pc] + multiset{(OnBranch(t, i, ends[i]), Sample)}]
  {
    var evs, c0, pc := EventsAt(t, colours, ends, i), colours[i], colours[t.parent[i]];
    var evs1 := evs[c0 := evs[c0] + multiset{(t.height[i], NodeKind(t, i))}];
    var evs' := evs1[pc := evs1[pc] + multiset{(OnBranch(t, i, ends[i]), Sample)}];
    forall c | 0 <= c < |t.parent|
      ensures EventsAt(t, colours, ends, i + 1)[c] == evs'[c]
    {
      NodeEventsCases(t, colours, ends, i, c);
      if c == c0 {
        assert evs'[c] == evs[c] + multiset{(t.height[i], NodeKind(t, i))};
      } else if c == pc {
        assert evs'[c] == evs[c] + multiset{(OnBranch(t, i, ends[i]), Sample)};
      } else {
        assert evs'[c] == evs[c];
      }
    }
  }

  /** One pass of the third loop of `collectSegments`: node i's own event
      goes to its colour's segment; where a colour starts on its branch, a
      SAMPLE at the top of the block goes to the parent colour's segment and
      the bottom of the block becomes the birth time of node i's colour; the
      root writes its height as the birth time of its colour. */
  method AddNode(t: Tree, colours: seq<int>, starts: seq<real>, ends: seq<real>,
                 segs: array<SegmentIntervalList?>, i: nat)
    requires Rooted(t) && Colouring(t, colours) && |starts| == |ends| == |t.parent| - 1
    requires i < |t.parent| && segs.Length == |t.parent| && Distinct(segs)
    requires forall c :: 0 <= c < segs.Length ==> (segs[c] != null <==> c in colours)
    requires AddedUpTo(t, colours, starts, ends, segs, i)
    modifies Lists(segs)
    ensures AddedUpTo(t, colours, starts, ends, segs, i + 1)
  {
    if IsRoot(t, i) {
      AddRoot(t, colours, starts, ends, segs, i);
    } else if colours[i] != colours[t.parent[i]] {
      AddColourStart(t, colours, starts, ends, segs, i);
    } else {
      AddSameColour(t, colours, starts, ends, segs, i);
    }
  }

  /** AddNode at the root. */
  method AddRoot(t: Tree, colours: seq<int>, starts: seq<real>, ends: seq<real>,
                 segs: array<SegmentIntervalList?>, i: nat)
    requires Rooted(t) && Colouring(t, colours) && |starts| == |ends| == |t.parent| - 1
    requires i < |t.parent| && segs.Length == |t.parent| && Distinct(segs)
    requires forall c :: 0 <= c < segs.Length ==> (segs[c] != null <==> c in colours)
    requires AddedUpTo(t, colours, starts, ends, segs, i) && IsRoot(t, i)
    modifies Lists(segs)
    ensures AddedUpTo(t, colours, starts, ends, segs, i + 1)
  {
    var colour := colours[i];
    ghost var evs, births := EventsAt(t, colours, ends, i), BirthsAt(t, colours, starts, i);
    RootStep(t, colours, starts, ends, i);
    AddTo(segs, colour, evs, births, t.height[i], NodeKind(t, i), t.height[i]);
  }

  /** AddNode where a colour starts on node i's branch. */
  method AddColourStart(t: Tree, colours: seq<int>, starts: seq<real>, ends: seq<real>,
                        segs: array<SegmentIntervalList?>, i: nat)
    requires Rooted(t) && Colouring(t, colours) && |starts| == |ends| == |t.parent| - 1
    requires i < |t.parent| && segs.Length == |t.parent| && Distinct(segs)
    requires forall c :: 0 <= c < segs.Length ==> (segs[c] != null <==> c in colours)
    requires AddedUpTo(t, colours, starts, ends, segs, i) && StartsColour(t, colours, i)
    modifies Lists(segs)
    ensures AddedUpTo(t, colours, starts, ends, segs, i + 1)
  {
    var colour := colours[i];
    var parentColour := colours[t.parent[i]];
    ghost var evs, births := EventsAt(t, colours, ends, i), BirthsAt(t, colours, starts, i);
    ColourStartStep(t, colours, starts, ends, i);
    var h := OnBranch(t, i, ends[i]);
    AddTo(segs, colour, evs, births, t.height[i], NodeKind(t, i), OnBranch(t, i, starts[i]));
    ghost var evs1 := evs[colour := evs[colour] + multiset{(t.height[i], NodeKind(t, i))}];
    ghost var births1 := births[colour := OnBranch(t, i, starts[i])];
    var parentList := segs[parentColour];
    AddTo(segs, parentColour, evs1, births1, h, Sample, parentList.birthTime);
    assert births1[parentColour := births1[parentColour]] == births1;
  }

  /** AddNode for a node of its parent's colour. */
  method AddSameColour(t: Tree, colours: seq<int>, starts: seq<real>, ends: seq<real>,
                       segs: array<SegmentIntervalList?>, i: nat)
    requires Rooted(t) && Colouring(t, colours) && |starts| == |ends| == |t.parent| - 1
    requires i < |t.parent| && segs.Length == |t.parent| && Distinct(segs)
    requires forall c :: 0 <= c < segs.Length ==> (segs[c] != null <==> c in colours)
    requires AddedUpTo(t, colours, starts, ends, segs, i)
    requires !IsRoot(t, i) && !StartsColour(t, colours, i)
    modifies Lists(segs)
    ensures AddedUpTo(t, colours, starts, ends, segs, i + 1)
  {
    var colour := colours[i];
    ghost var evs, births := EventsAt(t, colours, ends, i), BirthsAt(t, colours, starts, i);
    var list := segs[colour];
    SameColourStep(t, colours, starts, ends, i);
    AddTo(segs, colour, evs, births, t.height[i], NodeKind(t, i), list.birthTime);
    assert births[colour := births[colour]] == births;
  }

  /** The third loop of `collectSegments`, over all nodes in number order. */
  method AddAllNodes(t: Tree, colours: seq<int>, starts: seq<real>, ends: seq<real>,
                     segs: array<SegmentIntervalList?>)
    requires Rooted(t) && Colouring(t, colours) && |starts| == |ends| == |t.parent| - 1
    requires segs.Length == |t.parent| && Distinct(segs)
    requires forall c :: 0 <= c < segs.Length ==> (segs[c] != null <==> c in colours)
    requires AddedUpTo(t, colours, starts, ends, segs, 0)
    modifies Lists(segs)
    ensures AddedUpTo(t, colours, starts, ends, segs, |t.parent|)
  {
    for i := 0 to |t.parent|
      invariant Distinct(segs)
      invariant forall c :: 0 <= c < segs.Length ==> (segs[c] != null <==> c in colours)
      invariant AddedUpTo(t, colours, starts, ends, segs, i)
    {
      AddNode(t, colours, starts, ends, segs, i);
    }
  }

  /** The own event of every node is collected into its colour's segment,
      so no segment of a colour that occurs is empty. */
  lemma {:induction false} OwnEventCollected(t: Tree, colours: seq<int>, ends: seq<real>, i: nat, k: nat)
    requires Rooted(t) && Colouring(t, colours) && |ends| == |t.parent| - 1
    requires i < k <= |t.parent|
    ensures (t.height[i], NodeKind(t, i)) in SegmentEvents(t, colours, ends, k, colours[i])
    decreases k
  {
    var c := colours[i];
    var x := (t.height[i], NodeKind(t, i));
    if i < k - 1 {
      OwnEventCollected(t, colours, ends, i, k - 1);
    } else {
      assert x in NodeEvents(t, colours, ends, i, c);
    }
  }

  /** Where a colour starts on node i's branch, the SAMPLE at the top of the
      block is collected into the parent colour's segment. */
  lemma {:induction false} BlockTopCollected(t: Tree, colours: seq<int>, ends: seq<real>, i: nat, k: nat)
    requires Rooted(t) && Colouring(t, colours) && |ends| == |t.parent| - 1
    requires i < k <= |t.parent| && StartsColour(t, colours, i)
    ensures (OnBranch(t, i, ends[i]), Sample) in SegmentEvents(t, colours, ends, k, colours[t.parent[i]])
    decreases k
  {
    var c := colours[t.parent[i]];
    var x := (OnBranch(t, i, ends[i]), Sample);
    assert SegmentEvents(t, colours, ends, k, c)
        == SegmentEvents(t, colours, ends, k - 1, c) + NodeEvents(t, colours, ends, k - 1, c);
    if i < k - 1 {
      BlockTopCollected(t, colours, ends, i, k - 1);
      assert x in SegmentEvents(t, colours, ends, k - 1, c);
    } else {
      assert colours[i] != c;
      assert x in NodeEvents(t, colours, ends, i, c);
    }
  }

  predicate WritesBirth(t: Tree, colours: seq<int>, starts: seq<real>, j: nat, c: int)
    requires Rooted(t) && Colouring(t, colours) && |starts| == |t.parent| - 1 && j < |t.parent|
  {
    BirthWrite(t, colours, starts, j).Some? && BirthWrite(t, colours, starts, j).value.0 == c
  }

  /** The last write wins: if node i writes birth time h into colour c and
      no later node writes into c, the birth time after nodes 0 .. k-1 is h. */
  lemma {:induction false} LastBirthWins(t: Tree, colours: seq<int>, starts: seq<real>, c: int, i: nat, h: real, k: nat)
    requires Rooted(t) && Colouring(t, colours) && |starts| == |t.parent| - 1
    requires i < k <= |t.parent| && BirthWrite(t, colours, starts, i) == Some((c, h))
    requires forall j :: i < j < k ==> !WritesBirth(t, colours, starts, j, c)
    ensures BirthSoFar(t, colours, starts, k, c) == h
    decreases k
  {
    if i < k - 1 {
      assert !WritesBirth(t, colours, starts, k - 1, c);
      LastBirthWins(t, colours, starts, c, i, h, k - 1);
    }
  }

  /** A colour nobody writes a birth time into keeps the fresh list's 0. */
  lemma {:induction false} UnwrittenBirth(t: Tree, colours: seq<int>, starts: seq<real>, c: int, k: nat)
    requires Rooted(t) && Colouring(t, colours) && |starts| == |t.parent| - 1 && k <= |t.parent|
    requires forall j :: 0 <= j < k ==> !WritesBirth(t, colours, starts, j, c)
    ensures BirthSoFar(t, colours, starts, k, c) == 0.0
    decreases k
  {
    if k > 0 {
      assert !WritesBirth(t, colours, starts, k - 1, c);
      UnwrittenBirth(t, colours, starts, c, k - 1);
    }
  }

  /** In a well-formed tree only the root, and the nodes where a colour
      starts, write a birth time, each into its own colour; so the birth
      time of a colour other than the root's is the bottom of the block on
      the last branch (in node order) where it starts. */
  lemma StartedColourBirth(t: Tree, colours: seq<int>, starts: seq<real>, origin: Option<real>, i: nat)
    requires WellFormed(t) && Colouring(t, colours) && |starts| == |t.parent| - 1
    requires i < |t.parent| && StartsColour(t, colours, i) && colours[i] != colours[Root(t)]
    requires forall j :: i < j < |t.parent| && StartsColour(t, colours, j) ==> colours[j] != colours[i]
    ensures FinalBirth(t, colours, starts, origin, colours[i]) == OnBranch(t, i, starts[i])
  {
    var c := colours[i];
    forall j | i < j < |t.parent|
      ensures !WritesBirth(t, colours, starts, j, c)
    {
      RootIsLast(t, j);
    }
    LastBirthWins(t, colours, starts, c, i, OnBranch(t, i, starts[i]), |t.parent|);
  }

  /** A segment list whose intervals are calculated, holding the events
      evs and birth time birth. */
  ghost predicate Finished(s: SegmentIntervalList, evs: multiset<(real, IntervalType)>, birth: real)
    reads s, s.intervals, s.lineageCounts
  {
    s.Computed() && multiset(Zip(s.times, s.events)) == evs && s.birthTime == birth
  }

  ghost function Arrays(segs: array<SegmentIntervalList?>): set<object>
    reads segs, Lists(segs)
  {
    (set c | 0 <= c < segs.Length && segs[c] != null && segs[c].intervals != null :: segs[c].intervals as object)
    + (set c | 0 <= c < segs.Length && segs[c] != null && segs[c].lineageCounts != null :: segs[c].lineageCounts as object)
  }

  /** The lists of colours below k are finished, the others still hold
      their events uncalculated. */
  ghost predicate FinishedBelow(segs: array<SegmentIntervalList?>, evs: seq<multiset<(real, IntervalType)>>,
                                births: seq<real>, k: nat)
    reads segs, Lists(segs), Arrays(segs)
  {
    && |evs| == segs.Length && |births| == segs.Length
    && (forall c :: 0 <= c < k && c < segs.Length && segs[c] != null ==> Finished(segs[c], evs[c], births[c]))
    && (forall c :: k <= c < segs.Length && segs[c] != null ==> Holds(segs[c], evs[c], births[c]))
  }

  /** `calculateIntervals` on the list of colour c, which holds at least one event. */
  method CalculateOne(segs: array<SegmentIntervalList?>, c: nat, ghost evs: seq<multiset<(real, IntervalType)>>,
                      ghost births: seq<real>)
    requires c < segs.Length && Distinct(segs) && FinishedBelow(segs, evs, births, c)
    requires segs[c] != null ==> evs[c] != multiset{}
    modifies Lists(segs)
    ensures FinishedBelow(segs, evs, births, c + 1)
  {
    if segs[c] != null {
      var list := segs[c];
      assert list.Valid();
      assert |list.events| > 0;
      var ok := list.CalculateIntervals();
      forall d | 0 <= d < segs.Length && d != c && segs[d] != null
        ensures d < c ==> Finished(segs[d], evs[d], births[d])
        ensures c < d ==> Holds(segs[d], evs[d], births[d])
      {
        assert segs[d] != list;
        if d < c {
          assert old(Finished(segs[d], evs[d], births[d]));
        } else {
          assert old(Holds(segs[d], evs[d], births[d]));
        }
      }
    }
  }

  /** Sets the birth time of the list of colour c. */
  method SetBirth(segs: array<SegmentIntervalList?>, c: nat, ghost evs: seq<multiset<(real, IntervalType)>>,
                  ghost births: seq<real>, birth: real)
    requires c < segs.Length && segs[c] != null && Distinct(segs) && AllHold(segs, evs, births)
    modifies segs[c]
    ensures AllHold(segs, evs, births[c := birth])
  {
    var list := segs[c];
    list.birthTime := birth;
    forall d | 0 <= d < segs.Length && d != c && segs[d] != null
      ensures Holds(segs[d], evs[d], births[d])
    {
      assert segs[d] != list;
      assert old(Holds(segs[d], evs[d], births[d]));
    }
  }

  ghost function FinalBirths(t: Tree, colours: seq<int>, starts: seq<real>, origin: Option<real>): (bs: seq<real>)
    requires Rooted(t) && Colouring(t, colours) && |starts| == |t.parent| - 1
    ensures |bs| == |t.parent|
  {
    seq(|t.parent|, c requires 0 <= c < |t.parent| => FinalBirth(t, colours, starts, origin, c))
  }

  /** The end of `collectSegments`: the root colour's birth time becomes the
      origin (or the root height when there is none), then every segment's
      intervals are calculated. */
  method FinishSegments(t: Tree, colours: seq<int>, starts: seq<real>, ends: seq<real>, origin: Option<real>,
                        segs: array<SegmentIntervalList?>)
    requires Rooted(t) && Colouring(t, colours) && |starts| == |ends| == |t.parent| - 1
    requires segs.Length == |t.parent| && Distinct(segs)
    requires forall c :: 0 <= c < segs.Length ==> (segs[c] != null <==> c in colours)
    requires AddedUpTo(t, colours, starts, ends, segs, |t.parent|)
    modifies Lists(segs)
    ensures forall c :: 0 <= c < segs.Length && segs[c] != null ==>
              Finished(segs[c], SegmentEvents(t, colours, ends, |t.parent|, c), FinalBirth(t, colours, starts, origin, c))
  {
    var n := |t.parent|;
    var rootColour := colours[n - 1];
    ghost var evs := EventsAt(t, colours, ends, n);
    ghost var births := FinalBirths(t, colours, starts, origin);
    assert BirthsAt(t, colours, starts, n)[rootColour := match origin case Some(o) => o case None => t.height[n - 1]]
        == births;
    SetBirth(segs, rootColour, evs, BirthsAt(t, colours, starts, n),
             match origin case Some(o) => o case None => t.height[n - 1]);
    forall c | 0 <= c < n && segs[c] != null
      ensures evs[c] != multiset{}
    {
      var j :| 0 <= j < n && colours[j] == c;
      OwnEventCollected(t, colours, ends, j, n);
    }
    for c := 0 to n
      invariant FinishedBelow(segs, evs, births, c)
    {
      CalculateOne(segs, c, evs, births);
    }
  }

  /** `collectSegments`: a segment list exactly for the colours that occur,
      each holding the events of its colour, its birth time, and the
      intervals calculated from its events. */
  method CollectSegments(t: Tree, colours: seq<int>, starts: seq<real>, ends: seq<real>, origin: Option<real>)
      returns (segs: array<SegmentIntervalList?>)
    requires Rooted(t) && Colouring(t, colours) && |starts| == |ends| == |t.parent| - 1
    ensures fresh(segs) && segs.Length == |t.parent| && Distinct(segs)
    ensures forall c :: 0 <= c < segs.Length ==> (segs[c] != null <==> c in colours)
    ensures forall c :: 0 <= c < segs.Length && segs[c] != null ==>
              && fresh(segs[c])
              && Finished(segs[c], SegmentEvents(t, colours, ends, |t.parent|, c), FinalBirth(t, colours, starts, origin, c))
  {
    segs := NewSegments(t, colours);
    assert AddedUpTo(t, colours, starts, ends, segs, 0);
    AddAllNodes(t, colours, starts, ends, segs);
    FinishSegments(t, colours, starts, ends, origin, segs);
  }
}
