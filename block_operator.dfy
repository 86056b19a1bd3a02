/** BREATH's BlockOperator: the proposal that moves block boundaries on one
    branch, removes an infection that can go without breaking the colouring,
    or inserts an infection at a point chosen proportionally to branch
    length. Every Randomizer draw is a parameter; the colouring that the
    operator asks ColourProvider for is a parameter too. The log Hastings ratios
    the Java methods return are not part of this model: a proposal reports
    only whether it was rejected outright. */
module BlockOperators {
  import opened Outcomes
  import opened TreeArena
  import opened Parameters
  import opened Scans
  import opened Blocks

  /** The clamped fraction bounds initAndValidate keeps. */
  datatype Bounds = Bounds(lowerStart: real, upperStart: real, lowerEnd: real, upperEnd: real)

  function AtLeastZero(x: real): (r: real)
    ensures r >= 0.0 && (x >= 0.0 ==> r == x)
  {
    if x < 0.0 then 0.0 else x
  }

  /** Bounds that satisfy every check of initAndValidate. */
  ghost predicate OrderedBounds(b: Bounds) {
    && 0.0 <= b.lowerStart <= b.upperStart <= b.upperEnd <= 1.0
    && b.lowerStart <= b.lowerEnd <= b.upperEnd
  }

  /** initAndValidate's bound checks: each bound of the two fraction
      parameters is raised to 0 when negative, and the operator refuses bounds
      above 1, an upper bound below its lower bound, and a start bound above
      the matching end bound. */
  function CheckBounds(startLower: real, startUpper: real, endLower: real, endUpper: real): (r: Result<Bounds>)
    ensures r.Ok? <==>
      OrderedBounds(Bounds(AtLeastZero(startLower), AtLeastZero(startUpper),
                           AtLeastZero(endLower), AtLeastZero(endUpper)))
    ensures r.Ok? ==> r.value == Bounds(AtLeastZero(startLower), AtLeastZero(startUpper),
                                        AtLeastZero(endLower), AtLeastZero(endUpper))
    ensures r.Err? ==> r.fault == IllegalArgument
  {
    var ls := AtLeastZero(startLower);
    var us := AtLeastZero(startUpper);
    var le := AtLeastZero(endLower);
    var ue := AtLeastZero(endUpper);
    if ls > 1.0 then Err(IllegalArgument)
    else if us > 1.0 then Err(IllegalArgument)
    else if us < ls then Err(IllegalArgument)
    else if le > 1.0 then Err(IllegalArgument)
    else if ue > 1.0 then Err(IllegalArgument)
    else if ue < le then Err(IllegalArgument)
    else if ls > le then Err(IllegalArgument)
    else if us > ue then Err(IllegalArgument)
    else Ok(Bounds(ls, us, le, ue))
  }

  /** The fraction a boundary move gives a single-infection branch: a point
      drawn between the lowest start and the highest end. */
  function SharedFraction(b: Bounds, u: real): (f: real)
    requires OrderedBounds(b) && 0.0 <= u < 1.0
    ensures b.lowerStart <= f <= b.upperEnd
    ensures b.lowerStart < b.upperEnd ==> f < b.upperEnd
  {
    var d := b.upperEnd - b.lowerStart;
    ScaledBelow(u, d);
    b.lowerStart + u * d
  }

  /** The evenly spaced boundaries insertInfection0 and removeInfection0
      write for a new count c: 1/k and (k-1)/k with k = c + 2. */
  function EvenBlock(c: int): (p: (real, real))
    requires c >= -1
    ensures c >= 0 ==> BlockRule(c, p.0, p.1) && 0.0 < p.0 && p.1 < 1.0
    ensures c == 0 ==> p.0 == p.1 == 0.5
  {
    var k := (c + 2) as real;
    (1.0 / k, (k - 1.0) / k)
  }

  /** The weight calcEligibleInfectionCount gives branch i: two infections
      can be removed from a branch with count > 0, one from a branch with
      count 0 unless the node and its parent both carry sampled colours
      (below the leaf count), none otherwise. */
  function RemovalWeight(t: Tree, counts: seq<int>, colours: seq<int>, i: nat): (w: int)
    requires Rooted(t) && |counts| == |t.parent| && |colours| == |t.parent| && i < |t.parent|
    ensures 0 <= w <= 2
    ensures w > 0 ==> counts[i] >= 0
  {
    if counts[i] == 0 then
      (if colours[i] < t.leafCount && !IsRoot(t, i) && colours[t.parent[i]] < t.leafCount then 0 else 1)
    else if counts[i] > 0 then 2
    else 0
  }

  function RemovalWeights(t: Tree, counts: seq<int>, colours: seq<int>): (w: seq<int>)
    requires Rooted(t) && |counts| == |t.parent| && |colours| == |t.parent|
    ensures |w| == |t.parent| && NonNegative(w)
    ensures forall i :: 0 <= i < |w| ==> w[i] == RemovalWeight(t, counts, colours, i)
  {
    seq(|t.parent|, i requires 0 <= i < |t.parent| => RemovalWeight(t, counts, colours, i))
  }

  /** The number of infections that can be removed safely. */
  function EligibleCount(t: Tree, counts: seq<int>, colours: seq<int>): int
    requires Rooted(t) && |counts| == |t.parent| && |colours| == |t.parent|
  {
    Sum(RemovalWeights(t, counts, colours))
  }

  /** No infection is eligible exactly when every branch either has none or
      carries a single infection between two sampled colours. */
  lemma EligibleCountZero(t: Tree, counts: seq<int>, colours: seq<int>)
    requires Rooted(t) && |counts| == |t.parent| && |colours| == |t.parent|
    requires Domain(counts)
    ensures EligibleCount(t, counts, colours) == 0 <==>
      forall i :: 0 <= i < |t.parent| ==>
        counts[i] == -1 ||
        (counts[i] == 0 && colours[i] < t.leafCount && !IsRoot(t, i) && colours[t.parent[i]] < t.leafCount)
  {
    var w := RemovalWeights(t, counts, colours);
    SumZeroIff(w);
    assert forall i :: 0 <= i < |t.parent| ==> (w[i] == 0 <==>
      counts[i] == -1 ||
      (counts[i] == 0 && colours[i] < t.leafCount && !IsRoot(t, i) && colours[t.parent[i]] < t.leafCount));
  }

  /** The branch the boundary move works on: the first of the drawn branches
      from position a on that carries a block, or the last one drawn. */
  function Picked(counts: seq<int>, picks: seq<nat>, a: nat): (r: nat)
    requires a < |picks|
    requires forall j :: 0 <= j < |picks| ==> picks[j] < |counts|
    ensures exists j ::
              && a <= j < |picks| && picks[j] == r
              && (forall l :: a <= l < j ==> counts[picks[l]] == -1)
              && (counts[r] == -1 ==> j == |picks| - 1)
    decreases |picks| - a
  {
    if counts[picks[a]] != -1 || a == |picks| - 1 then picks[a]
    else Picked(counts, picks, a + 1)
  }

  /** The state after insertInfection on branch i: a branch without infection
      gets its first at f, a branch with one gets a block between the two
      draws in order, a larger block only counts one more. */
  function Inserted(b: BlockState, i: nat, f: real, u1: real, u2: real): (a: BlockState)
    requires i < |b.counts| && i < |b.starts| && i < |b.ends|
    ensures a.counts == b.counts[i := b.counts[i] + 1]
    ensures FractionsFramed(b, a, i, i)
    ensures Consistent(b.counts, b.starts, b.ends) ==> Consistent(a.counts, a.starts, a.ends)
  {
    var c := b.counts[i];
    if c == -1 then BlockState(b.counts[i := 0], b.starts[i := f], b.ends[i := f])
    else if c == 0 then
      BlockState(b.counts[i := 1], b.starts[i := Ordered(u1, u2).0], b.ends[i := Ordered(u1, u2).1])
    else BlockState(b.counts[i := c + 1], b.starts, b.ends)
  }

  /** The state after removeInfection on branch i: nothing changes without
      infection; the last infection of a block of two leaves one, and the
      coin decides which fraction is copied onto the other; otherwise only
      the count drops. On the root, which has no fractions, only the count
      drops. */
  function Removed(b: BlockState, i: nat, coin: bool): (a: BlockState)
    requires i < |b.counts|
    ensures b.counts[i] != -1 ==> a.counts == b.counts[i := b.counts[i] - 1]
    ensures b.counts[i] == -1 ==> a == b
    ensures FractionsFramed(b, a, i, i)
    ensures Consistent(b.counts, b.starts, b.ends) ==> Consistent(a.counts, a.starts, a.ends)
  {
    var c := b.counts[i];
    if c == -1 then b
    else if c == 1 && i < |b.starts| && i < |b.ends| then
      if coin then BlockState(b.counts[i := 0], b.starts[i := b.ends[i]], b.ends)
      else BlockState(b.counts[i := 0], b.starts, b.ends[i := b.starts[i]])
    else BlockState(b.counts[i := c - 1], b.starts, b.ends)
  }

  /** The state after the boundary move on branch i: a single infection sits
      at the shared fraction, a block lies between the two draws in order, a
      branch without infection keeps its fractions; no count changes. */
  function MovedBoundaries(b: BlockState, i: nat, bounds: Bounds, u: real, u1: real, u2: real): (a: BlockState)
    requires i < |b.counts| && i < |b.starts| && i < |b.ends|
    requires OrderedBounds(bounds) && 0.0 <= u < 1.0
    ensures a.counts == b.counts
    ensures FractionsFramed(b, a, i, i)
    ensures Consistent(b.counts, b.starts, b.ends) ==> Consistent(a.counts, a.starts, a.ends)
  {
    var c := b.counts[i];
    if c == 0 then BlockState(b.counts, b.starts[i := SharedFraction(bounds, u)], b.ends[i := SharedFraction(bounds, u)])
    else if c != -1 then BlockState(b.counts, b.starts[i := Ordered(u1, u2).0], b.ends[i := Ordered(u1, u2).1])
    else b
  }

  /** The Randomizer draws one proposal may consume, in the order the Java
      code makes them: the choice of a boundary move, the branches drawn for
      it and its fractions; the choice of removal over insertion, the
      eligible infection k, the coin of removeInfection; the point on the
      tree for an insertion and insertInfection's fractions. */
  datatype Draws = Draws(
    moveBoundaries: bool, picks: seq<nat>, shared: real, u1: real, u2: real,
    remove: bool, k: nat, coin: bool,
    point: real, f: real, v1: real, v2: real)

  class BlockOperator {
    const tree: Tree
    const blockStartFraction: RealParameter
    const blockEndFraction: RealParameter
    const blockCount: IntegerParameter
    const keepConstantCount: bool
    const bounds: Bounds
    var eligibleInfectionCount: int

    ghost predicate Valid()
      reads blockStartFraction, blockEndFraction, blockCount
    {
      && Timed(tree)
      && blockStartFraction != blockEndFraction
      && |blockCount.values| == |tree.parent|
      && |blockStartFraction.values| == |tree.parent| - 1
      && |blockEndFraction.values| == |tree.parent| - 1
      && Domain(blockCount.values)
      && OrderedBounds(bounds)
    }

    ghost predicate Kept()
      reads blockStartFraction, blockEndFraction, blockCount
    {
      Consistent(blockCount.values, blockStartFraction.values, blockEndFraction.values)
    }

    /** The three block parameters as one value. */
    ghost function State(): BlockState
      reads blockStartFraction, blockEndFraction, blockCount
    {
      BlockState(blockCount.values, blockStartFraction.values, blockEndFraction.values)
    }

    constructor (tree: Tree, blockStartFraction: RealParameter, blockEndFraction: RealParameter,
                 blockCount: IntegerParameter, keepConstantCount: bool, bounds: Bounds)
      ensures this.tree == tree && this.bounds == bounds && this.keepConstantCount == keepConstantCount
      ensures this.blockStartFraction == blockStartFraction && this.blockEndFraction == blockEndFraction
      ensures this.blockCount == blockCount
      ensures eligibleInfectionCount == 0
    {
      this.tree := tree;
      this.blockStartFraction := blockStartFraction;
      this.blockEndFraction := blockEndFraction;
      this.blockCount := blockCount;
      this.keepConstantCount := keepConstantCount;
      this.bounds := bounds;
      eligibleInfectionCount := 0;
    }

    /** initAndValidate: an operator exists only when the fraction bounds pass
        the checks, and it keeps their clamped values. */
    static method InitAndValidate(tree: Tree, blockStartFraction: RealParameter, blockEndFraction: RealParameter,
                                  blockCount: IntegerParameter, keepConstantCount: bool)
      returns (r: Result<BlockOperator>)
      ensures var b := CheckBounds(blockStartFraction.lower, blockStartFraction.upper,
                                   blockEndFraction.lower, blockEndFraction.upper);
        && (r.Ok? <==> b.Ok?)
        && (r.Err? ==> r.fault == IllegalArgument)
        && (r.Ok? ==>
              && fresh(r.value) && r.value.bounds == b.value && r.value.tree == tree
              && r.value.blockStartFraction == blockStartFraction
              && r.value.blockEndFraction == blockEndFraction
              && r.value.blockCount == blockCount
              && r.value.keepConstantCount == keepConstantCount)
    {
      var b := CheckBounds(blockStartFraction.lower, blockStartFraction.upper,
                           blockEndFraction.lower, blockEndFraction.upper);
      if b.Err? {
        return Err(b.fault);
      }
      var op := new BlockOperator(tree, blockStartFraction, blockEndFraction, blockCount, keepConstantCount, b.value);
      return Ok(op);
    }

    /** calcEligibleInfectionCount, given the colouring at the base of each
        branch. */
    method CalcEligibleInfectionCount(colours: seq<int>)
      requires Valid() && |colours| == |tree.parent|
      modifies this
      ensures eligibleInfectionCount == EligibleCount(tree, blockCount.values, colours)
    {
      ghost var w := RemovalWeights(tree, blockCount.values, colours);
      var n := tree.leafCount;
      eligibleInfectionCount := 0;
      for i := 0 to |blockCount.values|
        invariant eligibleInfectionCount == Sum(w[..i])
      {
        SumStep(w, i);
        if blockCount.values[i] == 0 {
          if !(colours[i] < n && tree.parent[i] != -1 && colours[tree.parent[i]] < n) {
            eligibleInfectionCount := eligibleInfectionCount + 1;
          }
        } else if blockCount.values[i] > 0 {
          eligibleInfectionCount := eligibleInfectionCount + 2;
        }
      }
      assert w[..|w|] == w;
    }

    /** chooseInfectionToRemove: nothing when no infection is eligible,
        otherwise the branch holding the k-th eligible infection (k drawn
        below the eligible count) and what is left of k there. */
    method ChooseInfectionToRemove(colours: seq<int>, k: nat) returns (r: Option<(nat, int)>)
      requires Valid() && |colours| == |tree.parent|
      requires EligibleCount(tree, blockCount.values, colours) == 0
               || k < EligibleCount(tree, blockCount.values, colours)
      modifies this
      ensures eligibleInfectionCount == EligibleCount(tree, blockCount.values, colours)
      ensures r.None? <==> eligibleInfectionCount == 0
      ensures r.Some? ==>
        && IsKth(RemovalWeights(tree, blockCount.values, colours), k, r.value.0)
        && RemovalWeight(tree, blockCount.values, colours, r.value.0) > 0
        && r.value.1 == k - Sum(RemovalWeights(tree, blockCount.values, colours)[..r.value.0 + 1])
    {
      CalcEligibleInfectionCount(colours);
      var n := tree.leafCount;
      if eligibleInfectionCount == 0 {
        return None;
      }
      ghost var w := RemovalWeights(tree, blockCount.values, colours);
      assert w[..|w|] == w;
      var rest: int := k;
      for i := 0 to |blockCount.values|
        invariant rest == k - Sum(w[..i]) && rest >= 0
        modifies {}
      {
        SumStep(w, i);
        if blockCount.values[i] == 0 {
          if !(colours[i] < n && tree.parent[i] != -1 && colours[tree.parent[i]] < n) {
            rest := rest - 1;
          }
        } else if blockCount.values[i] > 0 {
          rest := rest - 2;
        }
        if rest < 0 {
          return Some((i, rest));
        }
      }
      assert false;
    }

    /** chooseBlockToInsert: the point u * length on the concatenated
        branches picks the branch strictly containing it. A point at a branch
        boundary (or on an empty tree) finds none, where the Java code throws.
        The branch found always has positive length, so it is never the root. */
    method ChooseBlockToInsert(u: real) returns (r: Result<nat>)
      requires Valid() && 0.0 <= u < 1.0
      ensures var ls := Lengths(tree);
        && (r.Ok? <==> Covered(ls, u * SumReal(ls)))
        && (r.Ok? ==> StrictlyInside(ls, u * SumReal(ls), r.value) && r.value < |tree.parent| - 1)
        && (r.Err? ==> r.fault == ProgrammerError)
    {
      var length := TreeLength(tree);
      var ls := Lengths(tree);
      var point := u * length;
      PointOnTree(tree, u, length);
      var found, _ := FirstStrictlyInside(ls, point);
      assert ls == Lengths(tree) && point == u * SumReal(Lengths(tree));
      if found.None? {
        return Err(ProgrammerError);
      }
      SumRealStep(ls, found.value);
      assert ls[|ls| - 1] == 0.0;
      return Ok(found.value);
    }
  
    /** The boundary move of proposal. Up to 100 further branches are drawn
        while the drawn branch carries no block; the block count of the
        branch kept never changes. A single infection gets start = end at a
        shared fraction, a block of several gets two ordered draws, and a
        branch without infection is left alone. */
    method MoveBoundaries(picks: seq<nat>, u: real, u1: real, u2: real) returns (i: nat)
      requires Valid() && |picks| == 101
      requires forall j :: 0 <= j < |picks| ==> picks[j] < |blockStartFraction.values|
      requires 0.0 <= u < 1.0
      modifies blockStartFraction, blockEndFraction
      ensures Valid()
      ensures i == Picked(blockCount.values, picks, 0) && i < |blockStartFraction.values|
      ensures blockCount.values[i] == -1 ==>
        && blockStartFraction.values == old(blockStartFraction.values)
        && blockEndFraction.values == old(blockEndFraction.values)
      ensures blockCount.values[i] == 0 ==>
        && blockStartFraction.values == old(blockStartFraction.values)[i := SharedFraction(bounds, u)]
        && blockEndFraction.values == old(blockEndFraction.values)[i := SharedFraction(bounds, u)]
      ensures blockCount.values[i] > 0 ==>
        && blockStartFraction.values == old(blockStartFraction.values)[i := Ordered(u1, u2).0]
        && blockEndFraction.values == old(blockEndFraction.values)[i := Ordered(u1, u2).1]
      ensures State() == MovedBoundaries(old(State()), i, bounds, u, u1, u2)
      ensures old(Kept()) ==> Kept()
    {
      var attempts := 0;
      i := picks[0];
      while blockCount.values[i] == -1 && attempts < 100
        invariant 0 <= attempts <= 100 && i == picks[attempts]
        invariant Picked(blockCount.values, picks, attempts) == Picked(blockCount.values, picks, 0)
      {
        attempts := attempts + 1;
        i := picks[attempts];
      }
      if blockCount.values[i] == 0 {
        var f := SharedFraction(bounds, u);
        blockStartFraction.SetValue(i, f);
        blockEndFraction.SetValue(i, f);
      } else if blockCount.values[i] != -1 {
        var blockStart := u1;
        var blockEnd := u2;
        if blockEnd < blockStart {
          var tmp := blockEnd;
          blockEnd := blockStart;
          blockStart := tmp;
        }
        blockStartFraction.SetValue(i, blockStart);
        blockEndFraction.SetValue(i, blockEnd);
      }
    }

    /** insertInfection: one more infection on branch i. A branch without
        infection gets its first at fraction f (start = end = f); a branch with
        one gets a block between two ordered draws; a larger block takes the
        new infection inside, fractions unchanged. No other branch changes.
        The eligible count is then recomputed for `after`, the colouring
        ColourProvider gives the new block counts. */
    method InsertInfection(i: nat, f: real, u1: real, u2: real, after: seq<int>)
      requires Valid() && i < |blockStartFraction.values| && |after| == |tree.parent|
      modifies this, blockCount, blockStartFraction, blockEndFraction
      ensures Valid()
      ensures eligibleInfectionCount == EligibleCount(tree, blockCount.values, after)
      ensures blockCount.values == old(blockCount.values)[i := old(blockCount.values[i]) + 1]
      ensures old(blockCount.values[i]) == -1 ==>
        && blockStartFraction.values == old(blockStartFraction.values)[i := f]
        && blockEndFraction.values == old(blockEndFraction.values)[i := f]
      ensures old(blockCount.values[i]) == 0 ==>
        && blockStartFraction.values == old(blockStartFraction.values)[i := Ordered(u1, u2).0]
        && blockEndFraction.values == old(blockEndFraction.values)[i := Ordered(u1, u2).1]
      ensures old(blockCount.values[i]) > 0 ==>
        && blockStartFraction.values == old(blockStartFraction.values)
        && blockEndFraction.values == old(blockEndFraction.values)
      ensures State() == Inserted(old(State()), i, f, u1, u2)
      ensures old(Kept()) ==> Kept()
    {
      var c := blockCount.values[i];
      if c == -1 {
        blockCount.SetValue(i, 0);
        blockStartFraction.SetValue(i, f);
        blockEndFraction.SetValue(i, f);
      } else if c == 0 {
        blockCount.SetValue(i, 1);
        var blockStart := u1;
        var blockEnd := u2;
        if blockEnd < blockStart {
          var tmp := blockEnd;
          blockEnd := blockStart;
          blockStart := tmp;
        }
        blockStartFraction.SetValue(i, blockStart);
        blockEndFraction.SetValue(i, blockEnd);
      } else {
        blockCount.SetValue(i, c + 1);
      }
      CalcEligibleInfectionCount(after);
    }

    /** removeInfection: one infection fewer on branch i. A count of 0 drops to
        -1; a count of 1 drops to 0 and one fraction is copied onto the other
        (the end onto the start when coin is true); larger counts drop by one
        with the fractions unchanged; a count of -1 changes nothing. The root
        has no fractions, so a count of 1 there fails after the count is
        written. */
    method RemoveInfection(i: nat, coin: bool) returns (r: Result<()>)
      requires Valid() && i < |blockCount.values|
      modifies blockCount, blockStartFraction, blockEndFraction
      ensures Valid()
      ensures old(blockCount.values[i]) == -1 ==>
        && r.Ok? && blockCount.values == old(blockCount.values)
        && blockStartFraction.values == old(blockStartFraction.values)
        && blockEndFraction.values == old(blockEndFraction.values)
      ensures old(blockCount.values[i]) != -1 ==>
        blockCount.values == old(blockCount.values)[i := old(blockCount.values[i]) - 1]
      ensures old(blockCount.values[i]) == 1 && i < |blockStartFraction.values| ==>
        && r.Ok?
        && (coin ==> blockStartFraction.values == old(blockStartFraction.values)[i := old(blockEndFraction.values[i])]
                     && blockEndFraction.values == old(blockEndFraction.values))
        && (!coin ==> blockEndFraction.values == old(blockEndFraction.values)[i := old(blockStartFraction.values[i])]
                      && blockStartFraction.values == old(blockStartFraction.values))
      ensures old(blockCount.values[i]) != 1 || i == |blockStartFraction.values| ==>
        && blockStartFraction.values == old(blockStartFraction.values)
        && blockEndFraction.values == old(blockEndFraction.values)
      ensures r.Err? <==> old(blockCount.values[i]) == 1 && i == |blockStartFraction.values|
      ensures r.Err? ==> r.fault == IndexOutOfBounds
      ensures State() == Removed(old(State()), i, coin)
      ensures r.Ok? && old(Kept()) ==> Kept()
    {
      var c := blockCount.values[i];
      if c == -1 {
        return Ok(());
      } else if c == 0 {
        blockCount.SetValue(i, -1);
      } else if c == 1 {
        blockCount.SetValue(i, 0);
        if i == |blockStartFraction.values| {
          return Err(IndexOutOfBounds);
        }
        if coin {
          blockStartFraction.SetValue(i, blockEndFraction.values[i]);
        } else {
          blockEndFraction.SetValue(i, blockStartFraction.values[i]);
        }
      } else {
        blockCount.SetValue(i, c - 1);
      }
      return Ok(());
    }

    /** insertInfection0: one more infection on branch i, with the block
        boundaries spaced evenly for the new count. */
    method InsertInfection0(i: nat)
      requires Valid() && i < |blockStartFraction.values|
      modifies blockCount, blockStartFraction, blockEndFraction
      ensures Valid()
      ensures blockCount.values == old(blockCount.values)[i := old(blockCount.values[i]) + 1]
      ensures blockStartFraction.values == old(blockStartFraction.values)[i := EvenBlock(blockCount.values[i]).0]
      ensures blockEndFraction.values == old(blockEndFraction.values)[i := EvenBlock(blockCount.values[i]).1]
      ensures old(Kept()) ==> Kept()
    {
      blockCount.SetValue(i, blockCount.values[i] + 1);
      var k := (blockCount.values[i] + 2) as real;
      blockStartFraction.SetValue(i, 1.0 / k);
      blockEndFraction.SetValue(i, (k - 1.0) / k);
    }

    /** removeInfection0: one infection fewer on branch i, with evenly spaced
        boundaries for the new count; a branch without infection is a
        programming error, and the root, which has no fractions, fails after
        its count is written. */
    method RemoveInfection0(i: nat) returns (r: Result<()>)
      requires Valid() && i < |blockCount.values|
      modifies blockCount, blockStartFraction, blockEndFraction
      ensures Valid()
      ensures old(blockCount.values[i]) == -1 ==>
        && r == Err(ProgrammerError) && blockCount.values == old(blockCount.values)
      ensures old(blockCount.values[i]) != -1 ==>
        blockCount.values == old(blockCount.values)[i := old(blockCount.values[i]) - 1]
      ensures old(blockCount.values[i]) != -1 && i < |blockStartFraction.values| ==>
        && r.Ok?
        && blockStartFraction.values == old(blockStartFraction.values)[i := EvenBlock(blockCount.values[i]).0]
        && blockEndFraction.values == old(blockEndFraction.values)[i := EvenBlock(blockCount.values[i]).1]
      ensures old(blockCount.values[i]) == -1 || i == |blockStartFraction.values| ==>
        && blockStartFraction.values == old(blockStartFraction.values)
        && blockEndFraction.values == old(blockEndFraction.values)
      ensures old(blockCount.values[i]) != -1 && i == |blockStartFraction.values| ==>
        r == Err(IndexOutOfBounds)
      ensures r.Ok? && old(Kept()) ==> Kept()
    {
      var bc := blockCount.values[i];
      if bc == -1 {
        return Err(ProgrammerError);
      }
      blockCount.SetValue(i, blockCount.values[i] - 1);
      var k := (blockCount.values[i] + 2) as real;
      if i == |blockStartFraction.values| {
        return Err(IndexOutOfBounds);
      }
      blockStartFraction.SetValue(i, 1.0 / k);
      blockEndFraction.SetValue(i, (k - 1.0) / k);
      return Ok(());
    }
  
    /** The removal half of proposal: an eligible infection is removed, or
        the proposal is rejected when there is none. */
    method RemoveOne(colours: seq<int>, k: nat, coin: bool) returns (r: Result<Move>)
      requires Valid() && |colours| == |tree.parent|
      requires EligibleCount(tree, blockCount.values, colours) == 0
               || k < EligibleCount(tree, blockCount.values, colours)
      modifies this, blockCount, blockStartFraction, blockEndFraction
      ensures Valid()
      ensures r == Ok(Rejected) <==> EligibleCount(tree, old(blockCount.values), colours) == 0
      ensures r == Ok(Rejected) ==>
        && blockCount.values == old(blockCount.values)
        && blockStartFraction.values == old(blockStartFraction.values)
        && blockEndFraction.values == old(blockEndFraction.values)
      ensures r == Ok(Proposed) ==> Sum(blockCount.values) == Sum(old(blockCount.values)) - 1
      ensures r != Ok(Rejected) ==> exists i ::
        && IsKth(RemovalWeights(tree, old(blockCount.values), colours), k, i) && i < |blockCount.values|
        && old(blockCount.values[i]) >= 0
        && State() == Removed(old(State()), i, coin)
        && (r.Err? <==> old(blockCount.values[i]) == 1 && i == |blockStartFraction.values|)
        && (r.Err? ==> r.fault == IndexOutOfBounds)
      ensures eligibleInfectionCount == EligibleCount(tree, old(blockCount.values), colours)
      ensures r.Ok? && old(Kept()) ==> Kept()
    {
      var infection := ChooseInfectionToRemove(colours, k);
      if infection.None? {
        return Ok(Rejected);
      }
      ghost var before := blockCount.values;
      ghost var s0 := State();
      var removed := RemoveInfection(infection.value.0, coin);
      assert State() == Removed(s0, infection.value.0, coin);
      if removed.Err? {
        return Err(removed.fault);
      }
      SumUpdate(before, infection.value.0, before[infection.value.0] - 1);
      return Ok(Proposed);
    }

    /** The insertion half of proposal: an infection is inserted at the drawn
        point of the tree, which fails only where chooseBlockToInsert throws;
        after an insertion the eligible count is that of the colouring
        `after`. */
    method InsertOne(point: real, f: real, v1: real, v2: real, after: seq<int>) returns (r: Result<Move>)
      requires Valid() && 0.0 <= point < 1.0 && |after| == |tree.parent|
      modifies this, blockCount, blockStartFraction, blockEndFraction
      ensures Valid()
      ensures r != Ok(Rejected)
      ensures r.Ok? ==> eligibleInfectionCount == EligibleCount(tree, blockCount.values, after)
      ensures r.Err? ==> eligibleInfectionCount == old(eligibleInfectionCount)
      ensures r == Ok(Proposed) ==> Sum(blockCount.values) == Sum(old(blockCount.values)) + 1
      ensures r.Err? ==>
        && blockCount.values == old(blockCount.values)
        && blockStartFraction.values == old(blockStartFraction.values)
        && blockEndFraction.values == old(blockEndFraction.values)
      ensures r.Err? <==> !Covered(Lengths(tree), Drawn(tree, point))
      ensures r.Err? ==> r.fault == ProgrammerError
      ensures r.Ok? ==> exists i ::
        && StrictlyInside(Lengths(tree), Drawn(tree, point), i) && i < |blockStartFraction.values|
        && State() == Inserted(old(State()), i, f, v1, v2)
      ensures r.Ok? && old(Kept()) ==> Kept()
    {
      var k := ChooseBlockToInsert(point);
      assert Drawn(tree, point) == point * SumReal(Lengths(tree));
      if k.Err? {
        return Err(k.fault);
      }
      ghost var before := blockCount.values;
      ghost var s0 := State();
      InsertInfection(k.value, f, v1, v2, after);
      assert State() == Inserted(s0, k.value, f, v1, v2);
      SumUpdate(before, k.value, before[k.value] + 1);
      return Ok(Proposed);
    }

    /** proposal: the boundary move on a drawn branch; otherwise the removal
        of an eligible infection (rejected when there is none), the insertion
        of one, or, when the total count is kept constant, a removal followed by
        an insertion. A successful proposal keeps the block rule, and the
        total number of infections changes by exactly the one removed or
        inserted. `colours` is the colouring of the current block counts,
        `after` the one of the counts after an insertion. */
    method Proposal(colours: seq<int>, after: seq<int>, d: Draws) returns (r: Result<Move>)
      requires Valid() && |colours| == |tree.parent| && |after| == |tree.parent|
      requires |d.picks| == 101
      requires forall j :: 0 <= j < |d.picks| ==> d.picks[j] < |blockStartFraction.values|
      requires 0.0 <= d.shared < 1.0 && 0.0 <= d.point < 1.0
      requires EligibleCount(tree, blockCount.values, colours) == 0
               || d.k < EligibleCount(tree, blockCount.values, colours)
      modifies this, blockCount, blockStartFraction, blockEndFraction
      ensures Valid()
      ensures d.moveBoundaries ==> r == Ok(Proposed) && blockCount.values == old(blockCount.values)
      ensures r == Ok(Rejected) <==>
        && !d.moveBoundaries && (keepConstantCount || d.remove)
        && EligibleCount(tree, old(blockCount.values), colours) == 0
      ensures r == Ok(Rejected) ==>
        && blockCount.values == old(blockCount.values)
        && blockStartFraction.values == old(blockStartFraction.values)
        && blockEndFraction.values == old(blockEndFraction.values)
      ensures r == Ok(Proposed) && !d.moveBoundaries ==>
        Sum(blockCount.values) == Sum(old(blockCount.values))
          + (if keepConstantCount then 0 else if d.remove then -1 else 1)
      ensures r == Ok(Proposed) && !d.moveBoundaries && (keepConstantCount || !d.remove) ==>
        eligibleInfectionCount == EligibleCount(tree, blockCount.values, after)
      ensures r.Ok? && !d.moveBoundaries && !keepConstantCount && d.remove ==>
        eligibleInfectionCount == EligibleCount(tree, old(blockCount.values), colours)
      ensures d.moveBoundaries ==>
        State() == MovedBoundaries(old(State()), Picked(old(blockCount.values), d.picks, 0),
                                   bounds, d.shared, d.u1, d.u2)
      ensures !d.moveBoundaries && !keepConstantCount && d.remove && r != Ok(Rejected) ==> exists i ::
        && IsKth(RemovalWeights(tree, old(blockCount.values), colours), d.k, i) && i < |blockCount.values|
        && State() == Removed(old(State()), i, d.coin)
        && (r.Err? <==> old(blockCount.values[i]) == 1 && i == |blockStartFraction.values|)
      ensures !d.moveBoundaries && !keepConstantCount && !d.remove ==>
        && (r.Err? <==> !Covered(Lengths(tree), Drawn(tree, d.point)))
        && (r.Ok? ==> exists j ::
              && StrictlyInside(Lengths(tree), Drawn(tree, d.point), j) && j < |blockStartFraction.values|
              && State() == Inserted(old(State()), j, d.f, d.v1, d.v2))
      ensures !d.moveBoundaries && keepConstantCount && r == Ok(Proposed) ==> exists i, j ::
        && IsKth(RemovalWeights(tree, old(blockCount.values), colours), d.k, i) && i < |blockCount.values|
        && StrictlyInside(Lengths(tree), Drawn(tree, d.point), j) && j < |blockStartFraction.values|
        && State() == Inserted(Removed(old(State()), i, d.coin), j, d.f, d.v1, d.v2)
      ensures !d.moveBoundaries && keepConstantCount && r.Err? ==> exists i ::
        && IsKth(RemovalWeights(tree, old(blockCount.values), colours), d.k, i) && i < |blockCount.values|
        && State() == Removed(old(State()), i, d.coin)
      ensures r.Ok? && old(Kept()) ==> Kept()
    {
      if d.moveBoundaries {
        var _ := MoveBoundaries(d.picks, d.shared, d.u1, d.u2);
        return Ok(Proposed);
      }
      if keepConstantCount {
        r := RemoveOne(colours, d.k, d.coin);
        if r == Ok(Proposed) {
          r := InsertOne(d.point, d.f, d.v1, d.v2, after);
        }
      } else if d.remove {
        r := RemoveOne(colours, d.k, d.coin);
      } else {
        r := InsertOne(d.point, d.f, d.v1, d.v2, after);
      }
    }
  }
}
