/** BREATH's InfectionMover3: a proposal that draws an internal node and
    moves one infection between the branches adjacent to it, the branch above
    the node (never the root's own branch) and the branches above its two
    children. Whether the new colouring is valid is decided by the
    likelihood's colouring and the Validator, which are not part of this
    model: their verdict is a parameter. Randomizer draws are parameters; the
    log Hastings ratio is not modelled. */
module AdjacentMovers {
  import opened TreeArena
  import opened Parameters
  import opened Scans
  import opened Blocks
  import opened BranchEdits

  /** The branch above node n carries at least one infection. */
  predicate HasInfections(counts: seq<int>, n: nat)
    requires n < |counts|
  {
    counts[n] + 1 > 0
  }

  /** The branch above internal node i counts as adjacent unless i is the
      root. */
  predicate OwnHasInfections(t: Tree, counts: seq<int>, i: nat)
    requires |counts| == |t.parent| && i < |t.parent|
  {
    !IsRoot(t, i) && HasInfections(counts, i)
  }

  /** An internal node of a well-formed tree, with its two children. */
  ghost predicate Internal(t: Tree, i: nat) {
    WellFormed(t) && t.leafCount <= i < |t.parent|
  }

  /** numBranchesWithInfections: how many of the adjacent branches carry an
      infection. At the root only the two child branches count. */
  function BranchesWithInfections(t: Tree, counts: seq<int>, i: nat): (n: nat)
    requires Internal(t, i) && |counts| == |t.parent|
    ensures n <= 3 && (i == Root(t) ==> n <= 2)
    ensures n == 0 <==>
      && !OwnHasInfections(t, counts, i)
      && !HasInfections(counts, t.left[i]) && !HasInfections(counts, t.right[i])
  {
    (if OwnHasInfections(t, counts, i) then 1 else 0)
    + (if HasInfections(counts, t.left[i]) then 1 else 0)
    + (if HasInfections(counts, t.right[i]) then 1 else 0)
  }

  /** The branches adjacent to internal node i that proposal may use. */
  ghost predicate Adjacent(t: Tree, i: nat, b: nat)
    requires Internal(t, i)
  {
    (b == i && i != Root(t)) || b == t.left[i] || b == t.right[i]
  }

  /** The branch proposal takes an infection from and the branch it puts it
      on, for the draws infection (in [0, numBranchesWithInfections)) and
      coin: the infection-th adjacent branch with infections, in the order
      own, left, right; from the own branch to a child chosen by the coin,
      from a child to the own branch on heads (unless i is the root) and to
      the other child otherwise. */
  function Choice(t: Tree, counts: seq<int>, i: nat, infection: nat, coin: bool): (p: (nat, nat))
    requires Internal(t, i) && |counts| == |t.parent|
  {
    var own := OwnHasInfections(t, counts, i);
    var l, r := t.left[i], t.right[i];
    if own && infection == 0 then (i, if coin then l else r)
    else
      var k := infection - (if own then 1 else 0);
      if HasInfections(counts, l) && k == 0 then (l, if coin && !IsRoot(t, i) then i else r)
      else (r, if coin && !IsRoot(t, i) then i else l)
  }

  /** The move is always between two different adjacent branches, neither of
      them the root's branch, and the source carries an infection. */
  lemma ChoiceAdjacent(t: Tree, counts: seq<int>, i: nat, infection: nat, coin: bool)
    requires Internal(t, i) && |counts| == |t.parent|
    requires infection < BranchesWithInfections(t, counts, i)
    ensures var (s, d) := Choice(t, counts, i, infection, coin);
      && Adjacent(t, i, s) && Adjacent(t, i, d) && s != d
      && s < |t.parent| - 1 && d < |t.parent| - 1
      && counts[s] >= 0
  {
    RootIsLast(t, i);
    RootIsLast(t, t.left[i]);
    RootIsLast(t, t.right[i]);
  }

  /** Every adjacent branch with infections is the source for exactly the
      draws that pick it: each is reached by some draw in
      [0, numBranchesWithInfections). */
  lemma {:induction false} ChoiceCoversSources(t: Tree, counts: seq<int>, i: nat, b: nat, coin: bool)
    requires Internal(t, i) && |counts| == |t.parent|
    requires Adjacent(t, i, b) && b < |counts| && HasInfections(counts, b)
    ensures exists infection: nat :: infection < BranchesWithInfections(t, counts, i)
                             && Choice(t, counts, i, infection, coin).0 == b
  {
    var own := OwnHasInfections(t, counts, i);
    var l, r := t.left[i], t.right[i];
    var o := if own then 1 else 0;
    RootIsLast(t, l);
    RootIsLast(t, r);
    if b == i && i != Root(t) {
      assert Choice(t, counts, i, 0, coin).0 == b;
    } else if b == l {
      assert Choice(t, counts, i, o, coin).0 == b;
    } else {
      var n := o + (if HasInfections(counts, l) then 1 else 0);
      assert Choice(t, counts, i, n, coin).0 == b;
    }
  }

  /** Moving one infection from branch s to branch d keeps the total number
      of block counts. */
  lemma MoveKeepsSum(counts: seq<int>, s: nat, d: nat)
    requires s < |counts| && d < |counts| && s != d
    ensures var moved := counts[s := counts[s] - 1];
      Sum(moved[d := moved[d] + 1]) == Sum(counts)
  {
    var moved := counts[s := counts[s] - 1];
    SumUpdate(counts, s, counts[s] - 1);
    SumUpdate(moved, d, moved[d] + 1);
  }

  /** The block parameters after one infection moves from branch s to
      branch e: taken from s with the removal's coin and draws, put on e with
      the insertion's fraction and draws. The counts move by one, their sum
      is kept, and only the two branches' fractions change. */
  function Moved(b: BlockState, s: nat, e: nat, d: Draws): (a: BlockState)
    requires s != e
    requires s < |b.counts| && s < |b.starts| && s < |b.ends|
    requires e < |b.counts| && e < |b.starts| && e < |b.ends|
    ensures a.counts == b.counts[s := b.counts[s] - 1][e := b.counts[e] + 1]
    ensures Sum(a.counts) == Sum(b.counts)
    ensures FractionsFramed(b, a, s, e)
    ensures Consistent(b.counts, b.starts, b.ends) && b.counts[s] >= 0 ==>
      Consistent(a.counts, a.starts, a.ends)
  {
    var taken := Taken(b, s, d.removeCoin, d.u1, d.u2);
    var a := Put(taken, e, d.f, d.v1, d.v2);
    FramedTwice(b, taken, a, s, e);
    MoveKeepsSum(b.counts, s, e);
    a
  }

  /** What Moved does to the two branches it touches: the source keeps its
      fractions when it has no infection left, gets start = end copied from
      one side (the end on heads, the start on tails) when it has one left,
      and the two removal draws in order when more are left; the destination
      gets start = end = f when it has its first infection and the two
      insertion draws in order otherwise. */
  lemma MovedBranches(b: BlockState, s: nat, e: nat, d: Draws)
    requires s != e
    requires s < |b.counts| && s < |b.starts| && s < |b.ends|
    requires e < |b.counts| && e < |b.starts| && e < |b.ends|
    ensures var a := Moved(b, s, e, d);
      && (a.counts[s] == -1 ==> a.starts[s] == b.starts[s] && a.ends[s] == b.ends[s])
      && (a.counts[s] == 0 && d.removeCoin ==> a.starts[s] == a.ends[s] == b.ends[s])
      && (a.counts[s] == 0 && !d.removeCoin ==> a.starts[s] == a.ends[s] == b.starts[s])
      && (a.counts[s] > 0 ==> a.starts[s] == Ordered(d.u1, d.u2).0 && a.ends[s] == Ordered(d.u1, d.u2).1)
      && (a.counts[e] == 0 ==> a.starts[e] == a.ends[e] == d.f)
      && (a.counts[e] > 0 ==> a.starts[e] == Ordered(d.v1, d.v2).0 && a.ends[e] == Ordered(d.v1, d.v2).1)
  {
    var taken := Taken(b, s, d.removeCoin, d.u1, d.u2);
    var a := Put(taken, e, d.f, d.v1, d.v2);
    assert a.starts[s] == taken.starts[s] && a.ends[s] == taken.ends[s];
  }

  /** The block parameters after proposal at internal node i: the move
      between the branches Choice names. */
  function MovedAdjacent(t: Tree, b: BlockState, i: nat, d: Draws): BlockState
    requires Internal(t, i) && |b.counts| == |t.parent|
    requires |b.starts| == |t.parent| - 1 && |b.ends| == |t.parent| - 1
    requires d.infection < BranchesWithInfections(t, b.counts, i)
  {
    ChoiceAdjacent(t, b.counts, i, d.infection, d.destination);
    var p := Choice(t, b.counts, i, d.infection, d.destination);
    Moved(b, p.0, p.1, d)
  }

  /** The draws of one proposal: the internal node (an index among the
      internal nodes), which adjacent branch with infections gives one up,
      the coins and fractions of the removal, the coin choosing the
      destination, and the fractions of the insertion. */
  datatype Draws = Draws(
    pick: nat, infection: nat, removeCoin: bool, u1: real, u2: real,
    destination: bool, f: real, v1: real, v2: real)

  class InfectionMover3 {
    const tree: Tree
    const blockStartFraction: RealParameter
    const blockEndFraction: RealParameter
    const blockCount: IntegerParameter

    ghost predicate Valid()
      reads blockStartFraction, blockEndFraction, blockCount
    {
      && Rooted(tree)
      && blockStartFraction != blockEndFraction
      && |blockCount.values| == |tree.parent|
      && |blockStartFraction.values| == |tree.parent| - 1
      && |blockEndFraction.values| == |tree.parent| - 1
      && Domain(blockCount.values)
    }

    ghost predicate Kept()
      reads blockStartFraction, blockEndFraction, blockCount
    {
      Consistent(blockCount.values, blockStartFraction.values, blockEndFraction.values)
    }

    /** The three block parameters as one value. */
    ghost function State(): BlockState
      reads blockStartFraction, blockEndFraction, blockCount
    {
      BlockState(blockCount.values, blockStartFraction.values, blockEndFraction.values)
    }

    constructor (tree: Tree, blockStartFraction: RealParameter, blockEndFraction: RealParameter,
                 blockCount: IntegerParameter)
      ensures this.tree == tree && this.blockCount == blockCount
      ensures this.blockStartFraction == blockStartFraction && this.blockEndFraction == blockEndFraction
    {
      this.tree := tree;
      this.blockStartFraction := blockStartFraction;
      this.blockEndFraction := blockEndFraction;
      this.blockCount := blockCount;
    }

    /** removeInfection on branch s followed by insertInfection on branch d:
        one infection moves from s to d, with the block fractions of both
        redrawn as their new counts require (MovedBetween spells the two
        branches out), and nothing else changes. */
    method MoveOne(s: nat, d: nat, d0: Draws)
      requires Valid() && s != d && s < |tree.parent| - 1 && d < |tree.parent| - 1
      requires blockCount.values[s] >= 0
      modifies blockCount, blockStartFraction, blockEndFraction
      ensures Valid()
      ensures State() == Moved(old(State()), s, d, d0)
      ensures Sum(blockCount.values) == Sum(old(blockCount.values))
      ensures old(Kept()) ==> Kept()
    {
      ghost var s0 := State();
      MoveKeepsSum(blockCount.values, s, d);
      TakeOne(blockCount, blockStartFraction, blockEndFraction, s, d0.removeCoin, d0.u1, d0.u2);
      assert State() == Taken(s0, s, d0.removeCoin, d0.u1, d0.u2);
      ghost var s1 := State();
      PutOne(blockCount, blockStartFraction, blockEndFraction, d, d0.f, d0.v1, d0.v2);
      assert State() == Put(s1, d, d0.f, d0.v1, d0.v2);
    }

    /** The choice of source and destination in proposal, made on the
        current block counts. */
    method PickBranches(i: nat, infection: nat, destination: bool) returns (source: nat, target: nat)
      requires Valid() && Internal(tree, i)
      requires infection < BranchesWithInfections(tree, blockCount.values, i)
      ensures (source, target) == Choice(tree, blockCount.values, i, infection, destination)
      ensures source != target && source < |tree.parent| - 1 && target < |tree.parent| - 1
      ensures blockCount.values[source] >= 0
    {
      ChoiceAdjacent(tree, blockCount.values, i, infection, destination);
      var left := tree.left[i];
      var right := tree.right[i];
      var nodeHasInfections := if IsRoot(tree, i) then false else blockCount.values[i] + 1 > 0;
      var leftHasInfections := blockCount.values[left] + 1 > 0;
      var k: int := infection;
      if nodeHasInfections && k == 0 {
        source := i;
        target := if destination then left else right;
      } else {
        k := k - if nodeHasInfections then 1 else 0;
        if leftHasInfections && k == 0 {
          source := left;
          target := if destination && !IsRoot(tree, i) then i else right;
        } else {
          source := right;
          target := if destination && !IsRoot(tree, i) then i else left;
        }
      }
    }

    /** proposal: node leafCount + pick; with no adjacent infections the move
        fails before anything changes. Otherwise one infection moves from
        the source to the destination Choice names, and the result is
        rejected when the new colouring is invalid (the edited parameters are
        left for the framework to restore). */
    method Proposal(d: Draws, colouringValid: bool) returns (r: Move)
      requires Valid() && WellFormed(tree)
      requires tree.leafCount + d.pick < |tree.parent|
      requires var i := tree.leafCount + d.pick;
        BranchesWithInfections(tree, blockCount.values, i) > 0 ==>
        d.infection < BranchesWithInfections(tree, blockCount.values, i)
      modifies blockCount, blockStartFraction, blockEndFraction
      ensures Valid()
      ensures var i := tree.leafCount + d.pick;
        BranchesWithInfections(tree, old(blockCount.values), i) == 0 ==>
          && r == Rejected
          && blockCount.values == old(blockCount.values)
          && blockStartFraction.values == old(blockStartFraction.values)
          && blockEndFraction.values == old(blockEndFraction.values)
      ensures var i := tree.leafCount + d.pick;
        BranchesWithInfections(tree, old(blockCount.values), i) > 0 ==>
          && (r == Proposed <==> colouringValid)
          && State() == MovedAdjacent(tree, old(State()), i, d)
      ensures Sum(blockCount.values) == Sum(old(blockCount.values))
      ensures blockCount.values[|tree.parent| - 1] == old(blockCount.values[|tree.parent| - 1])
      ensures old(Kept()) ==> Kept()
    {
      var i := tree.leafCount + d.pick;
      var numBranchesWithInfections := BranchesWithInfections(tree, blockCount.values, i);
      if numBranchesWithInfections == 0 {
        return Rejected;
      }
      var source, target := PickBranches(i, d.infection, d.destination);
      ghost var s0 := State();
      MoveOne(source, target, d);
      assert State() == MovedAdjacent(tree, s0, i, d);
      if !colouringValid {
        return Rejected;
      }
      return Proposed;
    }
  }
}
