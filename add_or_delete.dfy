/** AddOrDeleteInfectionOperator of the transmission2 package: transmissions
    are kept as two parallel vectors, the node whose branch carries each one
    (nodeNrs) and where on the branch it sits (branchFraction). The proposal
    either adds a transmission at a point drawn proportionally to length, or
    removes one from a branch drawn among the eligible infections.
    TransmissionSet, which counts the infections on each branch and colours
    the tree, is not part of this model: its counts and colouring are
    inputs. Randomizer draws are parameters; the log Hastings ratio is not
    modelled. */
module AddOrDelete {
  import opened Outcomes
  import opened TreeArena
  import opened Parameters
  import opened Scans
  import opened Blocks

  /** The colouring and infection counts TransmissionSet supplies: one
      count and one colour per node, counts non-negative. */
  ghost predicate Inputs(t: Tree, counts: seq<int>, colours: seq<int>) {
    Shaped(t) && |counts| == |t.parent| && |colours| == |t.parent| && NonNegative(counts)
  }

  /** calcEligableInfectionCount dereferences a missing parent here: node i
      has one infection and a sampled colour (< n), so the parent's colour
      is looked up, and node i is the root. */
  predicate ThrowsAt(t: Tree, counts: seq<int>, colours: seq<int>, i: nat)
    requires Inputs(t, counts, colours) && i < |t.parent|
  {
    counts[i] == 1 && colours[i] < t.leafCount && t.parent[i] == -1
  }

  ghost predicate Throws(t: Tree, counts: seq<int>, colours: seq<int>)
    requires Inputs(t, counts, colours)
  {
    exists i :: 0 <= i < |t.parent| && ThrowsAt(t, counts, colours, i)
  }

  /** The eligible infections of branch i: a branch with one infection
      counts 1 unless its colour and its parent's colour are both sampled
      ones (< n); any other branch counts its infections. */
  function EligibleWeight(t: Tree, counts: seq<int>, colours: seq<int>, i: nat): (w: int)
    requires Inputs(t, counts, colours) && i < |t.parent|
  {
    if counts[i] == 1 then
      (if colours[i] < t.leafCount && t.parent[i] != -1 && colours[t.parent[i]] < t.leafCount then 0 else 1)
    else counts[i]
  }

  function EligibleWeights(t: Tree, counts: seq<int>, colours: seq<int>): (w: seq<int>)
    requires Inputs(t, counts, colours)
    ensures |w| == |t.parent| && NonNegative(w)
    ensures forall i :: 0 <= i < |w| ==> w[i] == EligibleWeight(t, counts, colours, i)
  {
    seq(|t.parent|, i requires 0 <= i < |t.parent| => EligibleWeight(t, counts, colours, i))
  }

  /** The number of infections the delete move may remove. */
  function Eligible(t: Tree, counts: seq<int>, colours: seq<int>): (e: int)
    requires Inputs(t, counts, colours)
    ensures e >= 0
  {
    var w := EligibleWeights(t, counts, colours);
    assert w[..|w|] == w && w[..0] == [];
    SumMonotone(w, 0, |w|);
    Sum(w)
  }

  /** Branch i offers nothing to remove: it has no infection, or a single
      one between two sampled colours. */
  predicate NothingEligibleAt(t: Tree, counts: seq<int>, colours: seq<int>, i: nat)
    requires Inputs(t, counts, colours) && i < |t.parent|
  {
    || counts[i] == 0
    || (counts[i] == 1 && colours[i] < t.leafCount && t.parent[i] != -1
        && colours[t.parent[i]] < t.leafCount)
  }

  /** No infection is eligible exactly when no branch offers one. */
  lemma EligibleZero(t: Tree, counts: seq<int>, colours: seq<int>)
    requires Inputs(t, counts, colours)
    ensures Eligible(t, counts, colours) == 0 <==>
      forall i :: 0 <= i < |t.parent| ==> NothingEligibleAt(t, counts, colours, i)
  {
    var w := EligibleWeights(t, counts, colours);
    SumZeroIff(w);
    assert Eligible(t, counts, colours) == Sum(w);
    forall i | 0 <= i < |t.parent|
      ensures w[i] == 0 <==> NothingEligibleAt(t, counts, colours, i)
    {
    }
  }

  /** The counting loop of calcEligableInfectionCount: it stops with the
      missing parent of a root that throws, and otherwise sums the eligible
      infections of every branch. */
  method CountEligible(t: Tree, counts: seq<int>, colours: seq<int>) returns (res: Result<int>)
    requires Inputs(t, counts, colours)
    ensures res.Err? <==> Throws(t, counts, colours)
    ensures res.Err? ==> res.fault == NullPointer
    ensures res.Ok? ==> res.value == Eligible(t, counts, colours)
  {
    ghost var w := EligibleWeights(t, counts, colours);
    var n := t.leafCount;
    var count := 0;
    for i := 0 to |colours|
      invariant count == Sum(w[..i])
      invariant forall j :: 0 <= j < i ==> !ThrowsAt(t, counts, colours, j)
    {
      SumStep(w, i);
      if counts[i] == 1 {
        if colours[i] < n && t.parent[i] == -1 {
          assert ThrowsAt(t, counts, colours, i);
          return Err(NullPointer);
        }
        if !(colours[i] < n && colours[t.parent[i]] < n) {
          count := count + 1;
        }
      } else {
        count := count + counts[i];
      }
    }
    assert w[..|w|] == w;
    return Ok(count);
  }

  /** The search loop of chooseInfectionToRemove: k is decreased by each
      branch's eligible infections, and the branch that takes it below zero
      holds the k-th one. */
  method KthEligible(t: Tree, counts: seq<int>, colours: seq<int>, k: nat) returns (i: nat)
    requires Inputs(t, counts, colours) && !Throws(t, counts, colours)
    requires k < Eligible(t, counts, colours)
    ensures IsKth(EligibleWeights(t, counts, colours), k, i)
  {
    ghost var w := EligibleWeights(t, counts, colours);
    assert w[..|w|] == w && w[..0] == [];
    var n := t.leafCount;
    var left: int := k;
    i := 0;
    while i < |colours|
      invariant i <= |colours|
      invariant left == k - Sum(w[..i]) && left >= 0
    {
      SumStep(w, i);
      assert !ThrowsAt(t, counts, colours, i);
      if counts[i] == 1 {
        if !(colours[i] < n && colours[t.parent[i]] < n) {
          left := left - 1;
        }
      } else {
        left := left - counts[i];
      }
      if left < 0 {
        return;
      }
      i := i + 1;
    }
    assert false;
  }

  /** `for (j = i; j < n - 1; j++) v[j] = v[j + 1]; setDimension(n - 1)`:
      entry j is dropped, or the last entry when j is past the end. */
  function Dropped<T>(s: seq<T>, j: nat): (r: seq<T>)
    requires |s| > 0
    ensures |r| == |s| - 1
    ensures forall k :: 0 <= k < |r| ==> r[k] == if k < j then s[k] else s[k + 1]
  {
    if j < |s| then s[..j] + s[j + 1..] else s[..|s| - 1]
  }

  /** The vector after the shift loop has copied entries j+1 .. k one
      place down. */
  ghost function Shifted<T>(s: seq<T>, j: nat, k: nat): (r: seq<T>)
    requires k == j || k < |s|
  {
    seq(|s|, m requires 0 <= m < |s| => if j <= m < k then s[m + 1] else s[m])
  }

  /** One more iteration of the shift loop. */
  lemma ShiftedStep<T>(s: seq<T>, j: nat, k: nat)
    requires j <= k && k + 1 < |s|
    ensures Shifted(s, j, k)[k := Shifted(s, j, k)[k + 1]] == Shifted(s, j, k + 1)
  {
  }

  /** When the shift loop ends, cutting the last entry leaves the vector
      with entry j dropped. */
  lemma ShiftedCut<T>(s: seq<T>, j: nat, k: nat)
    requires |s| > 0 && j <= k && (k == j || k < |s|) && (k >= |s| - 1)
    requires k > j ==> k == |s| - 1
    ensures Resized(Shifted(s, j, k), |s| - 1, []) == Dropped(s, j)
  {
  }

  /** Dropping an entry inside the vector removes exactly that entry, and
      keeps the order of the others. */
  lemma DroppedEntry<T>(s: seq<T>, j: nat)
    requires j < |s|
    ensures multiset(Dropped(s, j)) == multiset(s) - multiset{s[j]}
  {
    assert s == s[..j] + [s[j]] + s[j + 1..];
    assert multiset(s) == multiset(s[..j]) + multiset{s[j]} + multiset(s[j + 1..]);
  }

  /** The first entry naming node i. */
  ghost predicate FirstNaming(nodes: seq<int>, i: int, j: nat) {
    j < |nodes| && nodes[j] == i && forall k :: 0 <= k < j ==> nodes[k] != i
  }

  /** The delete move as written shifts the vectors from position i, where
      i is a node number, not a position: with nodeNrs [3, 0] and node 0
      chosen, the transmission on node 3 is removed and the one on node 0
      stays. */
  lemma DeleteByNodeNumberRemovesWrongEntry()
    ensures var after := Dropped([3, 0], 0);
      after == [0] && 0 in after && 3 !in after
  {
  }

  /** A product with a positive factor is positive only if the other
      factor is: a step of nonlinear real arithmetic the solver needs spelled
      out for FractionInside. */
  lemma PositiveFactor(a: real, b: real)
    requires b > 0.0 && a * b > 0.0
    ensures a > 0.0
  {
  }

  /** What is left of the point on a branch, as a fraction of the branch. */
  lemma FractionInside(r: real, l: real)
    requires 0.0 < r < l
    ensures 0.0 < r / l < 1.0
  {
    var h := r / l;
    assert h * l == r;
    assert (1.0 - h) * l == l - r;
    PositiveFactor(1.0 - h, l);
    PositiveFactor(h, l);
  }

  /** The draws of one proposal: add or delete, the point on the tree of
      the add move, and the index among the eligible infections of the
      delete move. */
  datatype Draws = Draws(add: bool, u: real, k: nat)

  class AddOrDeleteInfectionOperator {
    const tree: Tree
    const nodeNrs: IntegerParameter
    const branchFraction: RealParameter
    var length: real
    var r: real
    var eligibleInfectionCount: int
    var colourAtBase: seq<int>

    /** A timed tree and one fraction per transmission. */
    ghost predicate Valid()
      reads nodeNrs, branchFraction
    {
      Timed(tree) && |branchFraction.values| == |nodeNrs.values|
    }

    constructor (tree: Tree, nodeNrs: IntegerParameter, branchFraction: RealParameter)
      ensures this.tree == tree && this.nodeNrs == nodeNrs && this.branchFraction == branchFraction
    {
      this.tree := tree;
      this.nodeNrs := nodeNrs;
      this.branchFraction := branchFraction;
    }

    /** calcEligableInfectionCount: the colouring is stored in colourAtBase
        and the eligible infections are counted. */
    method CalcEligableInfectionCount(counts: seq<int>, colours: seq<int>) returns (res: Result<int>)
      requires Inputs(tree, counts, colours)
      modifies this
      ensures colourAtBase == colours
      ensures res.Err? <==> Throws(tree, counts, colours)
      ensures res.Err? ==> res.fault == NullPointer
      ensures res.Ok? ==> res.value == Eligible(tree, counts, colours)
      ensures length == old(length) && r == old(r) && eligibleInfectionCount == old(eligibleInfectionCount)
    {
      colourAtBase := colours;
      res := CountEligible(tree, counts, colourAtBase);
    }

    /** chooseInfectionToRemove: -1 when no infection is eligible, otherwise
        the branch holding the k-th eligible infection (k is the draw in
        [0, eligbleInfectionCount)). */
    method ChooseInfectionToRemove(counts: seq<int>, colours: seq<int>, k: nat) returns (res: Result<int>)
      requires Inputs(tree, counts, colours)
      requires !Throws(tree, counts, colours) && Eligible(tree, counts, colours) > 0 ==>
        k < Eligible(tree, counts, colours)
      modifies this
      ensures colourAtBase == colours && length == old(length) && r == old(r)
      ensures res.Err? <==> Throws(tree, counts, colours)
      ensures res.Err? ==> res.fault == NullPointer
      ensures res.Ok? ==>
        && eligibleInfectionCount == Eligible(tree, counts, colours)
        && (res.value == -1 <==> Eligible(tree, counts, colours) == 0)
        && (res.value != -1 ==> IsKth(EligibleWeights(tree, counts, colours), k, res.value))
    {
      var eligible := CalcEligableInfectionCount(counts, colours);
      if eligible.Err? {
        return Err(eligible.fault);
      }
      eligibleInfectionCount := eligible.value;
      if eligibleInfectionCount == 0 {
        return Ok(-1);
      }
      var i := KthEligible(tree, counts, colourAtBase, k);
      return Ok(i);
    }

    /** chooseBlockToInsert: the point u * length picks the branch strictly
        containing it, and r keeps what is left of the point on that branch,
        which lies strictly inside it; the Java code throws when no branch
        has the point strictly inside it. */
    method ChooseBlockToInsert(u: real) returns (res: Result<nat>)
      requires Valid() && 0.0 <= u < 1.0 && length == SumReal(Lengths(tree))
      modifies this
      ensures length == old(length) && colourAtBase == old(colourAtBase)
      ensures eligibleInfectionCount == old(eligibleInfectionCount)
      ensures res.Ok? <==> Covered(Lengths(tree), Drawn(tree, u))
      ensures res.Err? ==> res.fault == ProgrammerError
      ensures res.Ok? ==>
        && StrictlyInside(Lengths(tree), Drawn(tree, u), res.value) && res.value < |tree.parent| - 1
        && r == Drawn(tree, u) - SumReal(Lengths(tree)[..res.value])
        && 0.0 < r < Length(tree, res.value)
    {
      var ls := Lengths(tree);
      var point := u * length;
      PointOnTree(tree, u, length);
      var found, rest := FirstStrictlyInside(ls, point);
      assert ls == Lengths(tree) && point == Drawn(tree, u);
      r := rest;
      if found.None? {
        return Err(ProgrammerError);
      }
      SumRealStep(ls, found.value);
      assert ls[found.value] == Length(tree, found.value) && 0.0 < rest < ls[found.value];
      assert ls[|ls| - 1] == 0.0;
      return Ok(found.value);
    }

    /** The vectors shifted down from position j and cut by one; a vector
        with no entries cannot shrink (setDimension(-1)). */
    method ShiftDown(j: nat) returns (res: Result<()>)
      requires Valid()
      modifies nodeNrs, branchFraction
      ensures Valid()
      ensures res.Err? <==> |old(nodeNrs.values)| == 0
      ensures res.Err? ==>
        && res.fault == NegativeArraySize
        && nodeNrs.values == old(nodeNrs.values) && branchFraction.values == old(branchFraction.values)
      ensures res.Ok? ==>
        && nodeNrs.values == Dropped(old(nodeNrs.values), j)
        && branchFraction.values == Dropped(old(branchFraction.values), j)
    {
      var n := |nodeNrs.values|;
      if n == 0 {
        return Err(NegativeArraySize);
      }
      ghost var nodes, fractions := nodeNrs.values, branchFraction.values;
      var k := j;
      while k < n - 1
        invariant j <= k && (k == j || k <= n - 1)
        invariant nodeNrs.values == Shifted(nodes, j, k)
        invariant branchFraction.values == Shifted(fractions, j, k)
      {
        nodeNrs.SetValue(k, nodeNrs.values[k + 1]);
        branchFraction.SetValue(k, branchFraction.values[k + 1]);
        ShiftedStep(nodes, j, k);
        ShiftedStep(fractions, j, k);
        k := k + 1;
      }
      ShiftedCut(nodes, j, k);
      ShiftedCut(fractions, j, k);
      nodeNrs.SetDimension(n - 1, []);
      branchFraction.SetDimension(n - 1, []);
      return Ok(());
    }

    /** The delete move as written: the vectors are shifted from position i,
        where i is the node number chooseInfectionToRemove returned. */
    method DeleteAtNodeNumber(i: nat) returns (res: Result<()>)
      requires Valid()
      modifies nodeNrs, branchFraction
      ensures Valid()
      ensures res.Err? <==> |old(nodeNrs.values)| == 0
      ensures res.Err? ==>
        && res.fault == NegativeArraySize
        && nodeNrs.values == old(nodeNrs.values) && branchFraction.values == old(branchFraction.values)
      ensures res.Ok? ==>
        && nodeNrs.values == Dropped(old(nodeNrs.values), i)
        && branchFraction.values == Dropped(old(branchFraction.values), i)
    {
      res := ShiftDown(i);
    }

    /** The delete move as intended: the first transmission on node i is
        removed, node number and fraction together, and every other
        transmission stays in order. */
    method DeleteTransmissionOn(i: nat) returns (res: Result<()>)
      requires Valid()
      modifies nodeNrs, branchFraction
      ensures Valid()
      ensures res.Err? <==> i !in old(nodeNrs.values)
      ensures res.Err? ==>
        && res.fault == ProgrammerError
        && nodeNrs.values == old(nodeNrs.values) && branchFraction.values == old(branchFraction.values)
      ensures res.Ok? ==> exists j ::
        && FirstNaming(old(nodeNrs.values), i, j)
        && nodeNrs.values == Dropped(old(nodeNrs.values), j)
        && branchFraction.values == Dropped(old(branchFraction.values), j)
      ensures res.Ok? ==> multiset(nodeNrs.values) == multiset(old(nodeNrs.values)) - multiset{i as int}
    {
      var j := 0;
      while j < |nodeNrs.values| && nodeNrs.values[j] != i
        invariant j <= |nodeNrs.values|
        invariant forall k :: 0 <= k < j ==> nodeNrs.values[k] != i
      {
        j := j + 1;
      }
      if j == |nodeNrs.values| {
        return Err(ProgrammerError);
      }
      DroppedEntry(nodeNrs.values, j);
      res := ShiftDown(j);
    }

    /** The add move of proposal: both vectors grow by one and a branch is
        drawn (the Java code throws when the point hits no branch, after the
        vectors grew); the new last entries are the branch's node and the
        fraction r / length(i), which lies strictly between 0 and 1; the
        eligible count is then refreshed. */
    method AddTransmission(u: real, counts: seq<int>, colours: seq<int>) returns (res: Result<Move>)
      requires Valid() && Inputs(tree, counts, colours) && 0.0 <= u < 1.0
      requires length == SumReal(Lengths(tree))
      modifies this, nodeNrs, branchFraction
      ensures Valid() && length == old(length)
      ensures |nodeNrs.values| == |old(nodeNrs.values)| + 1
      ensures nodeNrs.values[..|old(nodeNrs.values)|] == old(nodeNrs.values)
      ensures branchFraction.values[..|old(branchFraction.values)|] == old(branchFraction.values)
      ensures res.Ok? <==> Covered(Lengths(tree), Drawn(tree, u)) && !Throws(tree, counts, colours)
      ensures Covered(Lengths(tree), Drawn(tree, u)) ==>
        var i := nodeNrs.values[|old(nodeNrs.values)|];
        var h := branchFraction.values[|old(branchFraction.values)|];
        && 0 <= i < |tree.parent| - 1
        && StrictlyInside(Lengths(tree), Drawn(tree, u), i)
        && 0.0 < r < Length(tree, i)
        && h == r / Length(tree, i) && 0.0 < h < 1.0
      ensures res.Ok? ==> res.value == Proposed
      ensures res.Ok? ==> eligibleInfectionCount == Eligible(tree, counts, colours)
      ensures res.Err? ==> eligibleInfectionCount == old(eligibleInfectionCount)
    {
      var n := |nodeNrs.values|;
      nodeNrs.SetDimension(n + 1, [0]);
      branchFraction.SetDimension(n + 1, [0.0]);
      var i := ChooseBlockToInsert(u);
      if i.Err? {
        return Err(i.fault);
      }
      var h := r / Length(tree, i.value);
      FractionInside(r, Length(tree, i.value));
      nodeNrs.SetValue(n, i.value);
      branchFraction.SetValue(n, h);
      var eligible := CalcEligableInfectionCount(counts, colours);
      if eligible.Err? {
        return Err(eligible.fault);
      }
      eligibleInfectionCount := eligible.value;
      return Ok(Proposed);
    }

    /** The delete move of proposal as written: rejected when no infection
        is eligible; otherwise the vectors are shifted down from position i,
        the node number chooseInfectionToRemove returned, and cut by one,
        which fails only on vectors without entries. */
    method DeleteTransmission(k: nat, counts: seq<int>, colours: seq<int>) returns (res: Result<Move>)
      requires Valid() && Inputs(tree, counts, colours)
      requires !Throws(tree, counts, colours) && Eligible(tree, counts, colours) > 0 ==>
        k < Eligible(tree, counts, colours)
      modifies this, nodeNrs, branchFraction
      ensures Valid() && length == old(length)
      ensures Throws(tree, counts, colours) ==> res == Err(NullPointer)
      ensures !Throws(tree, counts, colours) && Eligible(tree, counts, colours) == 0 ==>
        && res == Ok(Rejected)
        && nodeNrs.values == old(nodeNrs.values) && branchFraction.values == old(branchFraction.values)
      ensures !Throws(tree, counts, colours) && Eligible(tree, counts, colours) > 0 ==>
        exists i: nat ::
          && IsKth(EligibleWeights(tree, counts, colours), k, i)
          && (res.Err? <==> |old(nodeNrs.values)| == 0)
          && (res.Err? ==>
                && res.fault == NegativeArraySize
                && nodeNrs.values == old(nodeNrs.values)
                && branchFraction.values == old(branchFraction.values))
          && (res.Ok? ==>
                && res.value == Proposed
                && nodeNrs.values == Dropped(old(nodeNrs.values), i)
                && branchFraction.values == Dropped(old(branchFraction.values), i))
    {
      var i := ChooseInfectionToRemove(counts, colours, k);
      if i.Err? {
        return Err(i.fault);
      }
      if i.value < 0 {
        return Ok(Rejected);
      }
      var deleted := DeleteAtNodeNumber(i.value as nat);
      if deleted.Err? {
        res := Err(deleted.fault);
      } else {
        res := Ok(Proposed);
      }
      ghost var chosen: nat := i.value as nat;
      assert IsKth(EligibleWeights(tree, counts, colours), k, chosen);
    }

    /** proposal: the tree length is summed first, then the coin chooses
        between the add move and the delete move. */
    method Proposal(d: Draws, counts: seq<int>, colours: seq<int>) returns (res: Result<Move>)
      requires Valid() && Inputs(tree, counts, colours) && 0.0 <= d.u < 1.0
      requires !d.add && !Throws(tree, counts, colours) && Eligible(tree, counts, colours) > 0 ==>
        d.k < Eligible(tree, counts, colours)
      modifies this, nodeNrs, branchFraction
      ensures Valid()
      ensures length == SumReal(Lengths(tree))
      ensures d.add ==>
        && |nodeNrs.values| == |old(nodeNrs.values)| + 1
        && nodeNrs.values[..|old(nodeNrs.values)|] == old(nodeNrs.values)
        && branchFraction.values[..|old(branchFraction.values)|] == old(branchFraction.values)
        && (res.Ok? <==> Covered(Lengths(tree), Drawn(tree, d.u)) && !Throws(tree, counts, colours))
        && (Covered(Lengths(tree), Drawn(tree, d.u)) ==>
              var i := nodeNrs.values[|old(nodeNrs.values)|];
              var h := branchFraction.values[|old(branchFraction.values)|];
              && 0 <= i < |tree.parent| - 1
              && StrictlyInside(Lengths(tree), Drawn(tree, d.u), i)
              && 0.0 < r < Length(tree, i)
              && h == r / Length(tree, i) && 0.0 < h < 1.0)
      ensures !d.add ==>
        && (Throws(tree, counts, colours) ==> res == Err(NullPointer))
        && (!Throws(tree, counts, colours) && Eligible(tree, counts, colours) == 0 ==>
              && res == Ok(Rejected)
              && nodeNrs.values == old(nodeNrs.values)
              && branchFraction.values == old(branchFraction.values))
        && (res.Ok? && res.value == Proposed ==>
              |nodeNrs.values| == |old(nodeNrs.values)| - 1
              && |branchFraction.values| == |nodeNrs.values|)
        && (!Throws(tree, counts, colours) && Eligible(tree, counts, colours) > 0 ==>
              (res.Err? <==> |old(nodeNrs.values)| == 0))
      ensures !d.add && !Throws(tree, counts, colours) && Eligible(tree, counts, colours) > 0 ==>
        exists i: nat ::
          && IsKth(EligibleWeights(tree, counts, colours), d.k, i)
          && (res.Err? ==>
                && res.fault == NegativeArraySize
                && nodeNrs.values == old(nodeNrs.values)
                && branchFraction.values == old(branchFraction.values))
          && (res.Ok? ==>
                && res.value == Proposed
                && nodeNrs.values == Dropped(old(nodeNrs.values), i)
                && branchFraction.values == Dropped(old(branchFraction.values), i))
    {
      length := TreeLength(tree);
      if d.add {
        res := AddTransmission(d.u, counts, colours);
      } else {
        res := DeleteTransmission(d.k, counts, colours);
      }
    }

    /** The delete move as intended: rejected when no infection is eligible,
        and otherwise the first transmission on the chosen branch is
        removed. */
    method IntendedDeleteTransmission(k: nat, counts: seq<int>, colours: seq<int>) returns (res: Result<Move>)
      requires Valid() && Inputs(tree, counts, colours)
      requires !Throws(tree, counts, colours) && Eligible(tree, counts, colours) > 0 ==>
        k < Eligible(tree, counts, colours)
      modifies this, nodeNrs, branchFraction
      ensures Valid() && length == old(length)
      ensures Throws(tree, counts, colours) ==> res == Err(NullPointer)
      ensures !Throws(tree, counts, colours) && Eligible(tree, counts, colours) == 0 ==>
        && res == Ok(Rejected)
        && nodeNrs.values == old(nodeNrs.values) && branchFraction.values == old(branchFraction.values)
      ensures !Throws(tree, counts, colours) && Eligible(tree, counts, colours) > 0 ==>
        exists i: nat ::
          && IsKth(EligibleWeights(tree, counts, colours), k, i)
          && (res.Ok? <==> i in old(nodeNrs.values))
          && (res.Err? ==>
                && res.fault == ProgrammerError
                && nodeNrs.values == old(nodeNrs.values)
                && branchFraction.values == old(branchFraction.values))
          && (res.Ok? ==>
                && res.value == Proposed
                && multiset(nodeNrs.values) == multiset(old(nodeNrs.values)) - multiset{i as int}
                && exists j ::
                     && FirstNaming(old(nodeNrs.values), i, j)
                     && nodeNrs.values == Dropped(old(nodeNrs.values), j)
                     && branchFraction.values == Dropped(old(branchFraction.values), j))
    {
      var i := ChooseInfectionToRemove(counts, colours, k);
      if i.Err? {
        return Err(i.fault);
      }
      if i.value < 0 {
        return Ok(Rejected);
      }
      var deleted := DeleteTransmissionOn(i.value as nat);
      if deleted.Err? {
        res := Err(deleted.fault);
      } else {
        res := Ok(Proposed);
      }
      ghost var chosen: nat := i.value as nat;
      assert IsKth(EligibleWeights(tree, counts, colours), k, chosen);
    }

    /** proposal with the intended delete move. */
    method IntendedProposal(d: Draws, counts: seq<int>, colours: seq<int>) returns (res: Result<Move>)
      requires Valid() && Inputs(tree, counts, colours) && 0.0 <= d.u < 1.0
      requires !d.add && !Throws(tree, counts, colours) && Eligible(tree, counts, colours) > 0 ==>
        d.k < Eligible(tree, counts, colours)
      modifies this, nodeNrs, branchFraction
      ensures Valid()
      ensures length == SumReal(Lengths(tree))
      ensures d.add ==>
        && |nodeNrs.values| == |old(nodeNrs.values)| + 1
        && nodeNrs.values[..|old(nodeNrs.values)|] == old(nodeNrs.values)
        && branchFraction.values[..|old(branchFraction.values)|] == old(branchFraction.values)
        && (res.Ok? <==> Covered(Lengths(tree), Drawn(tree, d.u)) && !Throws(tree, counts, colours))
        && (Covered(Lengths(tree), Drawn(tree, d.u)) ==>
              var i := nodeNrs.values[|old(nodeNrs.values)|];
              var h := branchFraction.values[|old(branchFraction.values)|];
              && 0 <= i < |tree.parent| - 1
              && StrictlyInside(Lengths(tree), Drawn(tree, d.u), i)
              && 0.0 < r < Length(tree, i)
              && h == r / Length(tree, i) && 0.0 < h < 1.0)
      ensures !d.add ==>
        && (Throws(tree, counts, colours) ==> res == Err(NullPointer))
        && (!Throws(tree, counts, colours) && Eligible(tree, counts, colours) == 0 ==>
              && res == Ok(Rejected)
              && nodeNrs.values == old(nodeNrs.values)
              && branchFraction.values == old(branchFraction.values))
        && (res.Ok? && res.value == Proposed ==>
              |nodeNrs.values| == |old(nodeNrs.values)| - 1
              && |branchFraction.values| == |nodeNrs.values|)
        && (!Throws(tree, counts, colours) && Eligible(tree, counts, colours) > 0 ==>
              (res.Err? ==> res.fault == ProgrammerError))
      ensures !d.add && !Throws(tree, counts, colours) && Eligible(tree, counts, colours) > 0 ==>
        exists i: nat ::
          && IsKth(EligibleWeights(tree, counts, colours), d.k, i)
          && (res.Ok? <==> i in old(nodeNrs.values))
          && (res.Err? ==>
                && nodeNrs.values == old(nodeNrs.values)
                && branchFraction.values == old(branchFraction.values))
          && (res.Ok? ==>
                && res.value == Proposed
                && multiset(nodeNrs.values) == multiset(old(nodeNrs.values)) - multiset{i as int}
                && exists j ::
                     && FirstNaming(old(nodeNrs.values), i, j)
                     && nodeNrs.values == Dropped(old(nodeNrs.values), j)
                     && branchFraction.values == Dropped(old(branchFraction.values), j))
    {
      length := TreeLength(tree);
      if d.add {
        res := AddTransmission(d.u, counts, colours);
      } else {
        res := IntendedDeleteTransmission(d.k, counts, colours);
      }
    }
  }
}
