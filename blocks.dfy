/** The per-branch block configuration the operators edit. Every branch
    (node other than the root) carries a block count and two fractions of
    its length, the start and the end of the block. A count of -1 means no
    infection on the branch (the fractions are ignored), 0 means one
    infection (start and end coincide), and c > 0 means c + 1 infections
    spread between start and end. */
module Blocks {
  import opened Outcomes
  import opened TreeArena
  import opened Scans

  /** What an operator's proposal reports: rejected outright (BEAST's
      log Hastings ratio of minus infinity) or proposed for the MCMC step to
      accept or not. */
  datatype Move = Rejected | Proposed

  /** The rule the operators keep for one branch. */
  ghost predicate BlockRule(count: int, start: real, end: real) {
    && (count == 0 ==> start == end)
    && (count > 0 ==> start <= end)
  }

  /** Every block count lies in the domain {-1, 0, 1, ...}. */
  ghost predicate Domain(counts: seq<int>) {
    forall i :: 0 <= i < |counts| ==> counts[i] >= -1
  }

  /** The rule holds on every branch that has fractions. */
  ghost predicate Consistent(counts: seq<int>, starts: seq<real>, ends: seq<real>) {
    && |starts| == |ends| <= |counts|
    && forall i :: 0 <= i < |starts| ==> BlockRule(counts[i], starts[i], ends[i])
  }

  /** The three block parameters together: the count of every node and the
      start and end fractions of every branch. */
  datatype BlockState = BlockState(counts: seq<int>, starts: seq<real>, ends: seq<real>)

  /** From `before` to `after` no fraction changes except those of branches
      i and j. */
  ghost predicate FractionsFramed(before: BlockState, after: BlockState, i: nat, j: nat) {
    && |after.starts| == |before.starts| && |after.ends| == |before.ends|
    && (forall k :: 0 <= k < |before.starts| && k != i && k != j ==> after.starts[k] == before.starts[k])
    && (forall k :: 0 <= k < |before.ends| && k != i && k != j ==> after.ends[k] == before.ends[k])
  }

  /** Two edits framed to one branch each leave the other branches alone. */
  lemma FramedTwice(a: BlockState, b: BlockState, c: BlockState, i: nat, j: nat)
    requires FractionsFramed(a, b, i, i) && FractionsFramed(b, c, j, j)
    ensures FractionsFramed(a, c, i, j)
  {
  }

  /** Two uniform draws put in order by the swap every operator performs. */
  function Ordered(u1: real, u2: real): (p: (real, real))
    ensures p.0 <= p.1
    ensures (p.0 == u1 && p.1 == u2) || (p.0 == u2 && p.1 == u1)
  {
    if u2 < u1 then (u2, u1) else (u1, u2)
  }

  /** Writing one branch's entries keeps the rule everywhere when the new
      entries keep it on that branch. */
  lemma ConsistentUpdate(counts: seq<int>, starts: seq<real>, ends: seq<real>,
                         i: nat, c: int, s: real, e: real)
    requires Consistent(counts, starts, ends) && i < |starts|
    requires BlockRule(c, s, e)
    ensures Consistent(counts[i := c], starts[i := s], ends[i := e])
  {
  }

  /** The branch lengths of a timed tree are non-negative, and so is their sum. */
  lemma TimedLengths(t: Tree)
    requires Timed(t)
    ensures NonNegativeReal(Lengths(t)) && SumReal(Lengths(t)) >= 0.0
  {
    var ls := Lengths(t);
    assert ls[..|ls|] == ls && ls[..0] == [];
    SumRealMonotone(ls, 0, |ls|);
  }

  /** The point `Randomizer.nextDouble() * length` at which the operators
      insert an infection, for the draw u and the total length of the tree. */
  function Drawn(t: Tree, u: real): real
    requires Shaped(t)
  {
    u * SumReal(Lengths(t))
  }

  /** The total length of the tree, summed node by node as the operators do
      over tree.getNodesAsArray(). */
  method TreeLength(t: Tree) returns (length: real)
    requires Shaped(t)
    ensures length == SumReal(Lengths(t))
  {
    ghost var ls := Lengths(t);
    length := 0.0;
    for i := 0 to |t.parent|
      invariant length == SumReal(ls[..i])
    {
      SumRealStep(ls, i);
      length := length + Length(t, i);
    }
    assert ls[..|ls|] == ls;
  }

  /** A fraction u of the total length of a timed tree is a point on it. */
  lemma PointOnTree(t: Tree, u: real, length: real)
    requires Timed(t) && 0.0 <= u < 1.0 && length == SumReal(Lengths(t))
    ensures NonNegativeReal(Lengths(t)) && 0.0 <= u * length <= SumReal(Lengths(t))
  {
    TimedLengths(t);
    ScaledBelow(u, length);
  }

  /** The scan of chooseBlockToInsert (BlockOperator and
      AddOrDeleteInfectionOperator): subtract branch lengths from the
      point while it stays positive; the branch whose length exceeds what is
      left is the one the point falls strictly inside. Nothing is found
      exactly when no branch has the point strictly inside it (the point is
      0, or it falls on a branch boundary). */
  method FirstStrictlyInside(ls: seq<real>, point: real) returns (r: Option<nat>, rest: real)
    requires NonNegativeReal(ls) && 0.0 <= point <= SumReal(ls)
    ensures r.Some? <==> Covered(ls, point)
    ensures r.Some? ==> StrictlyInside(ls, point, r.value) && rest == point - SumReal(ls[..r.value])
  {
    assert ls[..|ls|] == ls && ls[..0] == [];
    rest := point;
    var i := 0;
    while rest > 0.0
      invariant 0 <= i <= |ls|
      invariant rest == point - SumReal(ls[..i])
      invariant SumReal(ls[..i]) <= point <= SumReal(ls[..|ls|])
      decreases |ls| - i
    {
      if i == |ls| {
        assert false;
      }
      SumRealStep(ls, i);
      if rest < ls[i] {
        assert StrictlyInside(ls, point, i);
        return Some(i), rest;
      }
      rest := rest - ls[i];
      i := i + 1;
    }
    forall j | 0 <= j < |ls| ensures !StrictlyInside(ls, point, j) {
      if j < i {
        SumRealMonotone(ls, j + 1, i);
      } else {
        SumRealMonotone(ls, i, j);
      }
    }
    return None, rest;
  }
}
