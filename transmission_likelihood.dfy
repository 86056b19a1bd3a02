/** The discrete bookkeeping of the transmission tree likelihood: the
    repair of the block parameters when the likelihood is initialised, the
    colour cache and its dirty flag, and the control skeleton of
    `calculateLogP` with its short-branch penalty. The colouring (the colour
    provider), its validation and the coalescent and transmission log
    likelihoods are computed by code this model does not contain: their
    results are inputs. */
module TransmissionLikelihood {
  import opened Outcomes
  import opened Doubles
  import opened TreeArena
  import opened Parameters
  import opened SegmentIntervals
  import opened SegmentCollection

  /** `sanityCheck`: a block fraction parameter gets n entries and its
      bounds are clamped into [0, 1]. `fill` is what `setDimension` puts
      in the entries it adds. */
  method SanityCheck(p: RealParameter, n: nat, fill: seq<real>)
    requires |fill| >= FillSize(|p.values|, n)
    modifies p
    ensures p.values == Resized(old(p.values), n, fill)
    ensures p.lower == if old(p.lower) < 0.0 then 0.0 else old(p.lower)
    ensures p.upper == if old(p.upper) > 1.0 then 1.0 else old(p.upper)
    ensures |p.values| == n && 0.0 <= p.lower && p.upper <= 1.0
  {
    if |p.values| != n {
      p.SetDimension(n, fill);
    }
    if p.lower < 0.0 {
      p.SetLower(0.0);
    }
    if p.upper > 1.0 {
      p.SetUpper(1.0);
    }
  }

  /** The block count repair of `initAndValidate`: a parameter of the wrong
      dimension is resized to one entry per node with -1 (no transmission)
      at the root, and a lower bound below -1 is raised to -1. */
  method RepairBlockCount(bc: IntegerParameter, n: nat, fill: seq<int>)
    requires n >= 1 && |fill| >= FillSize(|bc.values|, n)
    modifies bc
    ensures bc.values == if |old(bc.values)| == n then old(bc.values) else Resized(old(bc.values), n, fill)[n - 1 := -1]
    ensures bc.lower == if old(bc.lower) < -1 then -1 else old(bc.lower)
    ensures bc.upper == old(bc.upper)
    ensures |bc.values| == n && bc.lower >= -1
  {
    if |bc.values| != n {
      bc.SetDimension(n, fill);
      bc.SetValue(n - 1, -1);
    }
    if bc.lower < -1 {
      bc.SetBounds(-1, bc.upper);
    }
  }

  /** The number of non-root nodes among 0 .. k-1 whose branch is shorter
      than the threshold. */
  function ShortBranches(t: Tree, threshold: real, k: nat): (r: nat)
    requires Shaped(t) && k <= |t.parent|
    ensures r <= k
  {
    if k == 0 then 0
    else ShortBranches(t, threshold, k - 1)
         + (if Length(t, k - 1) < threshold && !IsRoot(t, k - 1) then 1 else 0)
  }

  /** In a well-formed tree the root is never counted, and a threshold of
      at most 0 counts nothing, since no branch is shorter than 0: the
      source's guard on a positive threshold does not change the penalty. */
  lemma {:induction false} ShortBranchesBound(t: Tree, threshold: real, k: nat)
    requires WellFormed(t) && k <= |t.parent|
    ensures ShortBranches(t, threshold, k) <= if k == |t.parent| then k - 1 else k
    ensures threshold <= 0.0 ==> ShortBranches(t, threshold, k) == 0
    decreases k
  {
    if k > 0 {
      ShortBranchesBound(t, threshold, k - 1);
      RootIsLast(t, k - 1);
    }
  }

  /** The short-branch loop of `calculateLogP`: -10000 for every non-root
      node whose branch is shorter than the threshold. */
  method BranchPenalty(t: Tree, threshold: real) returns (logP: Double)
    requires Shaped(t)
    ensures logP == Finite(-10000.0 * ShortBranches(t, threshold, |t.parent|) as real)
  {
    logP := Finite(0.0);
    for i := 0 to |t.parent|
      invariant logP == Finite(-10000.0 * ShortBranches(t, threshold, i) as real)
    {
      if Length(t, i) < threshold && !IsRoot(t, i) {
        logP := Add(logP, Finite(-10000.0));
      }
    }
  }

  /** The end of `calculateLogP`: the coalescent term if it is included and
      the transmission term are added to the penalty, and an infinite total
      becomes minus infinity. */
  function AddTerms(penalty: Double, includeCoalescent: bool, coalescent: Double, transmission: Double): Double
  {
    var total := Add(if includeCoalescent then Add(penalty, coalescent) else penalty, transmission);
    if total.IsInfinite() then NegInf else total
  }

  /** The short-branch penalty `calculateLogP` charges when the threshold
      is positive. */
  function Penalty(t: Tree, threshold: real): Double
    requires Shaped(t)
  {
    if threshold > 0.0 then Finite(-10000.0 * ShortBranches(t, threshold, |t.parent|) as real) else Finite(0.0)
  }

  /** What `calculateLogP` returns for an accepted colouring: the penalty
      alone when only the colouring is wanted, the penalty with the two
      likelihood terms otherwise. */
  function Score(t: Tree, threshold: real, colourOnly: bool, includeCoalescent: bool,
                 coalescent: Double, transmission: Double): Double
    requires Shaped(t)
  {
    if colourOnly then Penalty(t, threshold)
    else AddTerms(Penalty(t, threshold), includeCoalescent, coalescent, transmission)
  }

  /** What `calculateLogP` returns once the origin exists: minus infinity
      when the origin lies below the root, the colouring fails or the
      validator rejects it, the score otherwise. */
  function LogPOutcome(t: Tree, origin: real, coloured: bool, valid: bool, threshold: real,
                       colourOnly: bool, includeCoalescent: bool, coalescent: Double, transmission: Double): Double
    requires Shaped(t) && |t.parent| > 0
  {
    if origin < t.height[Root(t)] || !coloured || !valid then NegInf
    else Score(t, threshold, colourOnly, includeCoalescent, coalescent, transmission)
  }

  /** The log likelihood is never plus infinity, and it is minus infinity
      whenever the origin lies below the root, the colouring fails or the
      validator rejects; with finite terms it is finite. */
  lemma LogPRange(t: Tree, origin: real, coloured: bool, valid: bool, threshold: real,
                  colourOnly: bool, includeCoalescent: bool, coalescent: Double, transmission: Double)
    requires Shaped(t) && |t.parent| > 0
    ensures var r := LogPOutcome(t, origin, coloured, valid, threshold, colourOnly, includeCoalescent,
                                 coalescent, transmission);
      && !r.PosInf?
      && ((origin < t.height[Root(t)] || !coloured || !valid) ==> r.NegInf?)
      && (origin >= t.height[Root(t)] && coloured && valid && coalescent.Finite? && transmission.Finite? ==> r.Finite?)
      && (r.NaN? ==> coalescent.NaN? || transmission.NaN? || (coalescent.PosInf? && transmission.NegInf?)
                     || (coalescent.NegInf? && transmission.PosInf?))
  {
  }

  /** With only the colouring wanted, an accepted colouring scores the
      penalty alone: -10000 per short non-root branch. */
  lemma ColourOnlyPenalty(t: Tree, origin: real, threshold: real, includeCoalescent: bool,
                          coalescent: Double, transmission: Double)
    requires WellFormed(t) && origin >= t.height[Root(t)]
    ensures LogPOutcome(t, origin, true, true, threshold, true, includeCoalescent, coalescent, transmission)
         == Finite(-10000.0 * ShortBranches(t, threshold, |t.parent|) as real)
  {
    ShortBranchesBound(t, threshold, |t.parent|);
  }

  /** The segments were just collected from the given colouring: a fresh
      list for exactly the colours that occur, each finished with its
      colour's events and birth time. */
  twostate predicate JustCollected(new segs: array?<SegmentIntervalList?>, t: Tree, colouring: seq<int>,
                                   starts: seq<real>, ends: seq<real>, origin: Option<real>)
    reads segs, if segs == null then {} else Lists(segs), if segs == null then {} else Arrays(segs)
  {
    && Rooted(t) && Colouring(t, colouring) && |starts| == |ends| == |t.parent| - 1
    && segs != null && fresh(segs) && segs.Length == |t.parent|
    && Distinct(segs)
    && (forall c :: 0 <= c < segs.Length ==> (segs[c] != null <==> c in colouring))
    && (forall c :: 0 <= c < segs.Length && segs[c] != null ==>
          && fresh(segs[c])
          && Finished(segs[c], SegmentEvents(t, colouring, ends, |t.parent|, c),
                      FinalBirth(t, colouring, starts, origin, c)))
  }

  class TransmissionTreeLikelihood {
    var tree: Tree
    var colourAtBase: array<int>
    var updateColours: bool
    var initialCalculation: bool
    var origin: Option<real>
    var blockStartFraction: RealParameter
    var blockEndFraction: RealParameter
    var blockCount: IntegerParameter
    var branchLengthThreshold: real
    var colourOnly: bool
    var includeCoalescent: bool
    var logP: Double
    /** BEAST's Distribution keeps the logP of the last accepted state here:
        store() copies logP into it and restore() copies it back. */
    var storedLogP: Double
    var segments: array?<SegmentIntervalList?>

    /** A tree rooted at node N-1, one colour per node and one block
        fraction per non-root node. */
    ghost predicate Valid()
      reads this, blockStartFraction, blockEndFraction
    {
      && Rooted(tree) && colourAtBase.Length == |tree.parent|
      && |blockStartFraction.values| == |tree.parent| - 1
      && |blockEndFraction.values| == |tree.parent| - 1
    }

    /** `initAndValidate` as far as the model goes: a fresh colour array,
        both flags set, and the block parameters repaired. `startFill`,
        `endFill` and `countFill` are what `setDimension` puts in the
        entries it adds. */
    constructor (tree: Tree, origin: Option<real>, blockStart: RealParameter, blockEnd: RealParameter,
                 count: IntegerParameter, threshold: real, colourOnly: bool, includeCoalescent: bool,
                 startFill: seq<real>, endFill: seq<real>, countFill: seq<int>)
      requires WellFormed(tree)
      requires |startFill| >= FillSize(|blockStart.values|, |tree.parent| - 1)
      requires |endFill| >= FillSize(|blockEnd.values|, |tree.parent| - 1)
      requires |countFill| >= FillSize(|count.values|, |tree.parent|)
      modifies blockStart, blockEnd, count
      ensures Valid() && fresh(colourAtBase)
      ensures this.tree == tree && this.origin == origin && branchLengthThreshold == threshold
      ensures this.colourOnly == colourOnly && this.includeCoalescent == includeCoalescent
      ensures blockStartFraction == blockStart && blockEndFraction == blockEnd && blockCount == count
      ensures updateColours && initialCalculation && segments == null
      ensures logP == Finite(0.0) && storedLogP == Finite(0.0)
      ensures blockStart.values == Resized(old(blockStart.values), |tree.parent| - 1, startFill)
      ensures blockEnd.values ==
        Resized(old(blockEnd.values), |tree.parent| - 1, if blockEnd == blockStart then startFill else endFill)
      ensures blockStart.lower == if old(blockStart.lower) < 0.0 then 0.0 else old(blockStart.lower)
      ensures blockStart.upper == if old(blockStart.upper) > 1.0 then 1.0 else old(blockStart.upper)
      ensures blockEnd.lower == if old(blockEnd.lower) < 0.0 then 0.0 else old(blockEnd.lower)
      ensures blockEnd.upper == if old(blockEnd.upper) > 1.0 then 1.0 else old(blockEnd.upper)
      ensures 0.0 <= blockStart.lower && blockStart.upper <= 1.0
      ensures 0.0 <= blockEnd.lower && blockEnd.upper <= 1.0
      ensures count.values == if |old(count.values)| == |tree.parent| then old(count.values)
                              else Resized(old(count.values), |tree.parent|, countFill)[|tree.parent| - 1 := -1]
      ensures count.lower == if old(count.lower) < -1 then -1 else old(count.lower)
      ensures count.upper == old(count.upper)
      ensures |count.values| == |tree.parent| && count.lower >= -1
    {
      var n := |tree.parent|;
      this.tree := tree;
      colourAtBase := new int[n];
      updateColours := true;
      initialCalculation := true;
      this.origin := origin;
      blockStartFraction := blockStart;
      blockEndFraction := blockEnd;
      blockCount := count;
      branchLengthThreshold := threshold;
      this.colourOnly := colourOnly;
      this.includeCoalescent := includeCoalescent;
      logP := Finite(0.0);
      storedLogP := Finite(0.0);
      segments := null;
      new;
      SanityCheck(blockStart, n - 1, startFill);
      SanityCheck(blockEnd, n - 1, endFill);
      RepairBlockCount(count, n, countFill);
    }

    /** `calcColourAtBase`: the colour provider fills the colour array and
        reports whether a valid colouring exists; the report is stored in
        the dirty flag. */
    method CalcColourAtBase(found: bool, colouring: seq<int>) returns (r: bool)
      requires |colouring| == colourAtBase.Length
      modifies this, colourAtBase
      ensures r == found && updateColours == found && colourAtBase[..] == colouring
      ensures tree == old(tree) && colourAtBase == old(colourAtBase) && origin == old(origin)
      ensures initialCalculation == old(initialCalculation) && segments == old(segments)
      ensures logP == old(logP) && storedLogP == old(storedLogP)
      ensures blockStartFraction == old(blockStartFraction) && blockEndFraction == old(blockEndFraction)
      ensures blockCount == old(blockCount) && branchLengthThreshold == old(branchLengthThreshold)
      ensures colourOnly == old(colourOnly) && includeCoalescent == old(includeCoalescent)
    {
      forall k | 0 <= k < colourAtBase.Length {
        colourAtBase[k] := colouring[k];
      }
      updateColours := found;
      r := updateColours;
    }

    /** `getColour(i)`: the colouring is recomputed first whenever the flag
        is set; otherwise the cached colours are read. An index outside
        the array is the array access's error. */
    method GetColour(i: int, found: bool, colouring: seq<int>) returns (r: Result<int>)
      requires |colouring| == colourAtBase.Length
      modifies this, colourAtBase
      ensures old(updateColours) ==> colourAtBase[..] == colouring && updateColours == found
      ensures !old(updateColours) ==> colourAtBase[..] == old(colourAtBase[..]) && !updateColours
      ensures r == if 0 <= i < colourAtBase.Length then Ok(colourAtBase[i]) else Err(IndexOutOfBounds)
      ensures tree == old(tree) && colourAtBase == old(colourAtBase) && origin == old(origin)
      ensures initialCalculation == old(initialCalculation) && segments == old(segments)
      ensures logP == old(logP) && storedLogP == old(storedLogP)
      ensures blockStartFraction == old(blockStartFraction) && blockEndFraction == old(blockEndFraction)
      ensures blockCount == old(blockCount) && branchLengthThreshold == old(branchLengthThreshold)
      ensures colourOnly == old(colourOnly) && includeCoalescent == old(includeCoalescent)
    {
      if updateColours {
        var _ := CalcColourAtBase(found, colouring);
      }
      if 0 <= i < colourAtBase.Length {
        r := Ok(colourAtBase[i]);
      } else {
        r := Err(IndexOutOfBounds);
      }
    }

    /** `getColouring()`: the colour array itself (not a copy), recomputed
        first whenever the flag is set. */
    method GetColouring(found: bool, colouring: seq<int>) returns (c: array<int>)
      requires |colouring| == colourAtBase.Length
      modifies this, colourAtBase
      ensures c == colourAtBase && colourAtBase == old(colourAtBase)
      ensures old(updateColours) ==> c[..] == colouring && updateColours == found
      ensures !old(updateColours) ==> c[..] == old(colourAtBase[..]) && !updateColours
      ensures tree == old(tree) && origin == old(origin)
      ensures initialCalculation == old(initialCalculation) && segments == old(segments)
      ensures logP == old(logP) && storedLogP == old(storedLogP)
      ensures blockStartFraction == old(blockStartFraction) && blockEndFraction == old(blockEndFraction)
      ensures blockCount == old(blockCount) && branchLengthThreshold == old(branchLengthThreshold)
      ensures colourOnly == old(colourOnly) && includeCoalescent == old(includeCoalescent)
    {
      if updateColours {
        var _ := CalcColourAtBase(found, colouring);
      }
      c := colourAtBase;
    }

    /** Distribution's `store()`: the current logP is saved for a later
        restore. */
    method Store()
      modifies this
      ensures storedLogP == old(logP)
      ensures tree == old(tree) && colourAtBase == old(colourAtBase) && origin == old(origin)
      ensures initialCalculation == old(initialCalculation) && updateColours == old(updateColours)
      ensures logP == old(logP) && segments == old(segments)
      ensures blockStartFraction == old(blockStartFraction) && blockEndFraction == old(blockEndFraction)
      ensures blockCount == old(blockCount) && branchLengthThreshold == old(branchLengthThreshold)
      ensures colourOnly == old(colourOnly) && includeCoalescent == old(includeCoalescent)
    {
      storedLogP := logP;
    }

    /** `restore()`: the cached colouring can no longer be trusted, and
        Distribution's `restore()` puts back the logP saved by `store()`. */
    method Restore()
      modifies this
      ensures updateColours
      ensures logP == old(storedLogP) && storedLogP == old(storedLogP)
      ensures tree == old(tree) && colourAtBase == old(colourAtBase) && origin == old(origin)
      ensures initialCalculation == old(initialCalculation) && segments == old(segments)
      ensures blockStartFraction == old(blockStartFraction) && blockEndFraction == old(blockEndFraction)
      ensures blockCount == old(blockCount) && branchLengthThreshold == old(branchLengthThreshold)
      ensures colourOnly == old(colourOnly) && includeCoalescent == old(includeCoalescent)
    {
      updateColours := true;
      logP := storedLogP;
    }

    /** `requiresRecalculation()`: always recalculate, and recolour. */
    method RequiresRecalculation() returns (r: bool)
      modifies this
      ensures r && updateColours
      ensures tree == old(tree) && colourAtBase == old(colourAtBase) && origin == old(origin)
      ensures initialCalculation == old(initialCalculation) && segments == old(segments)
      ensures logP == old(logP) && storedLogP == old(storedLogP)
      ensures blockStartFraction == old(blockStartFraction) && blockEndFraction == old(blockEndFraction)
      ensures blockCount == old(blockCount) && branchLengthThreshold == old(branchLengthThreshold)
      ensures colourOnly == old(colourOnly) && includeCoalescent == old(includeCoalescent)
    {
      updateColours := true;
      r := true;
    }

    /** The part of `calculateLogP()` after the colouring is accepted: the
        penalty, the early return when only the colouring is wanted, the
        segments of the current colouring, and the two likelihood terms. */
    method ScoreColouring(coalescent: Double, transmission: Double)
      requires Valid() && Colouring(tree, colourAtBase[..])
      modifies this
      ensures origin == old(origin) && tree == old(tree) && colourAtBase == old(colourAtBase)
      ensures blockStartFraction == old(blockStartFraction) && blockEndFraction == old(blockEndFraction)
      ensures blockCount == old(blockCount) && branchLengthThreshold == old(branchLengthThreshold)
      ensures colourOnly == old(colourOnly) && includeCoalescent == old(includeCoalescent)
      ensures initialCalculation == old(initialCalculation) && updateColours == old(updateColours)
      ensures Valid()
      ensures logP == Score(tree, branchLengthThreshold, colourOnly, includeCoalescent, coalescent, transmission)
      ensures storedLogP == old(storedLogP)
      ensures colourOnly ==> segments == old(segments)
      ensures !colourOnly ==> JustCollected(segments, tree, colourAtBase[..], blockStartFraction.values, blockEndFraction.values, origin)
    {
      var penalty := Finite(0.0);
      if branchLengthThreshold > 0.0 {
        penalty := BranchPenalty(tree, branchLengthThreshold);
      }
      logP := penalty;
      if colourOnly {
        return;
      }
      Collect();
      logP := AddTerms(penalty, includeCoalescent, coalescent, transmission);
    }

    /** `segments = collectSegments()`. */
    method Collect()
      requires Valid() && Colouring(tree, colourAtBase[..])
      modifies this
      ensures origin == old(origin) && tree == old(tree) && colourAtBase == old(colourAtBase)
      ensures blockStartFraction == old(blockStartFraction) && blockEndFraction == old(blockEndFraction)
      ensures blockCount == old(blockCount) && branchLengthThreshold == old(branchLengthThreshold)
      ensures colourOnly == old(colourOnly) && includeCoalescent == old(includeCoalescent)
      ensures initialCalculation == old(initialCalculation) && updateColours == old(updateColours)
      ensures logP == old(logP) && storedLogP == old(storedLogP)
      ensures JustCollected(segments, tree, colourAtBase[..], blockStartFraction.values, blockEndFraction.values, origin)
    {
      segments := CollectSegments(tree, colourAtBase[..], blockStartFraction.values, blockEndFraction.values, origin);
    }

    /** `calculateLogP()`. The colour provider's answer (`found`,
        `colouring`), the validator's verdict and the coalescent and
        transmission log likelihoods are inputs. Without an origin the
        source dereferences a missing parameter. */
    method CalculateLogP(found: bool, colouring: seq<int>, valid: bool, coalescent: Double, transmission: Double)
        returns (r: Result<Double>)
      requires Valid() && |colouring| == colourAtBase.Length
      requires found ==> Colouring(tree, colouring)
      modifies this, colourAtBase
      ensures origin == old(origin) && tree == old(tree) && colourAtBase == old(colourAtBase)
      ensures blockStartFraction == old(blockStartFraction) && blockEndFraction == old(blockEndFraction)
      ensures blockCount == old(blockCount) && branchLengthThreshold == old(branchLengthThreshold)
      ensures colourOnly == old(colourOnly) && includeCoalescent == old(includeCoalescent)
      ensures origin.None? ==>
                r == Err(NullPointer) && initialCalculation == old(initialCalculation)
                && updateColours == old(updateColours) && colourAtBase[..] == old(colourAtBase[..])
                && logP == old(logP) && storedLogP == old(storedLogP) && segments == old(segments)
      ensures origin.Some? ==>
                && !initialCalculation
                && r == Ok(LogPOutcome(tree, origin.value, found, valid, branchLengthThreshold,
                                       colourOnly, includeCoalescent, coalescent, transmission))
                && logP == r.value
      ensures origin.Some? && origin.value >= tree.height[Root(tree)] ==>
                colourAtBase[..] == colouring && updateColours == found
      ensures origin.Some? && origin.value >= tree.height[Root(tree)] && found && valid && !colourOnly ==>
                JustCollected(segments, tree, colouring, blockStartFraction.values, blockEndFraction.values, origin)
      ensures !(origin.Some? && origin.value >= tree.height[Root(tree)] && found && valid && !colourOnly) ==>
                segments == old(segments)
      ensures storedLogP == old(storedLogP)
    {
      if origin.None? {
        return Err(NullPointer);
      }
      initialCalculation := false;
      logP := Finite(0.0);
      if origin.value < tree.height[Root(tree)] {
        logP := NegInf;
        return Ok(logP);
      }
      var coloured := CalcColourAtBase(found, colouring);
      if !coloured || !valid {
        logP := NegInf;
        return Ok(logP);
      }
      ScoreColouring(coalescent, transmission);
      r := Ok(logP);
    }
  }
}
