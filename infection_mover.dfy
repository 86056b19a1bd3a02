/** BREATH's InfectionMover: a proposal that takes one infection off a
    drawn branch and puts it back either on the sibling branch or anywhere on
    the tree, chosen proportionally to length. Whether the new colouring is
    valid is decided by the likelihood's colouring and the Validator, which
    are not part of this model: their verdict is a parameter. Randomizer draws
    are parameters; the log Hastings ratio is not modelled. The path helper
    getPathExcludingMRCA is modelled on the tree arena. */
module InfectionMovers {
  import opened Outcomes
  import opened TreeArena
  import opened Parameters
  import opened Scans
  import opened Blocks
  import opened BranchEdits

  /** How many infections the path scan may take from a branch with count c:
      min(c + 1, 2), the ends of its block. */
  function MoveWeight(c: int): (w: int)
    requires c >= -1
    ensures 0 <= w <= 2
    ensures w > 0 <==> c >= 0
    ensures c >= 1 ==> w == 2
  {
    var bc := c + 1;
    if bc > 2 then 2 else bc
  }

  function PathWeights(counts: seq<int>, path: seq<nat>): (w: seq<int>)
    requires Domain(counts)
    requires forall j :: 0 <= j < |path| ==> path[j] < |counts|
    ensures |w| == |path| && NonNegative(w)
    ensures forall j :: 0 <= j < |path| ==> w[j] == MoveWeight(counts[path[j]])
  {
    seq(|path|, j requires 0 <= j < |path| => MoveWeight(counts[path[j]]))
  }

  /** The scan of removeInfectionFromPath: walking the path, k loses each
      node's move weight, and the scan stops at the node where k drops below
      zero. It runs off the end exactly when k is at least the path's total
      weight; the node it stops at holds the k-th unit of weight and so has
      an infection. */
  method KthOnPath(counts: seq<int>, path: seq<nat>, k: nat) returns (j: nat)
    requires Domain(counts)
    requires forall j :: 0 <= j < |path| ==> path[j] < |counts|
    ensures j <= |path|
    ensures j == |path| <==> k >= Sum(PathWeights(counts, path))
    ensures j < |path| ==> IsKth(PathWeights(counts, path), k, j) && counts[path[j]] >= 0
  {
    ghost var w := PathWeights(counts, path);
    assert w[..|w|] == w;
    var rest: int := k;
    j := 0;
    while j < |path|
      invariant 0 <= j <= |path| && rest == k - Sum(w[..j]) && rest >= 0
    {
      SumStep(w, j);
      var bc := counts[path[j]] + 1;
      rest := rest - (if bc > 2 then 2 else bc);
      if rest < 0 {
        break;
      }
      j := j + 1;
    }
    if j < |path| {
      assert IsKth(w, k, j);
      SumMonotone(w, j + 1, |w|);
    }
  }

  function PathLengths(t: Tree, path: seq<nat>): (ls: seq<real>)
    requires Shaped(t)
    requires forall j :: 0 <= j < |path| ==> path[j] < |t.parent|
    ensures |ls| == |path|
    ensures forall j :: 0 <= j < |path| ==> ls[j] == Length(t, path[j])
  {
    seq(|path|, j requires 0 <= j < |path| => Length(t, path[j]))
  }

  /** z lies on the way up from x to y. */
  ghost predicate Between(t: Tree, x: nat, y: nat, z: nat)
    requires WellFormed(t) && x < |t.parent| && z < |t.parent|
  {
    AncestorOrSelf(t, z, x) && AncestorOrSelf(t, y, z)
  }

  /** a is an ancestor-or-self of both nodes. */
  ghost predicate CommonAncestor(t: Tree, a: nat, x: nat, y: nat)
    requires WellFormed(t) && x < |t.parent| && y < |t.parent|
  {
    AncestorOrSelf(t, a, x) && AncestorOrSelf(t, a, y)
  }

  /** m is the most recent common ancestor of x and y: a common ancestor
      below every other one. */
  ghost predicate IsMrca(t: Tree, x: nat, y: nat, m: nat)
    requires WellFormed(t) && x < |t.parent| && y < |t.parent|
  {
    && m < |t.parent| && CommonAncestor(t, m, x, y)
    && forall c :: 0 <= c < |t.parent| && CommonAncestor(t, c, x, y) ==> AncestorOrSelf(t, c, m)
  }

  /** A strict ancestor of x is an ancestor-or-self of x's parent. */
  lemma StrictAncestor(t: Tree, a: nat, x: nat)
    requires WellFormed(t) && x < |t.parent| && AncestorOrSelf(t, a, x) && a != x
    ensures x != Root(t) && AncestorOrSelf(t, a, t.parent[x])
  {
  }

  /** The parent of a non-root node is one of its ancestors. */
  lemma ParentAncestor(t: Tree, x: nat)
    requires WellFormed(t) && x < |t.parent| - 1
    ensures AncestorOrSelf(t, t.parent[x], x)
  {
    assert AncestorOrSelf(t, t.parent[x], t.parent[x]);
  }

  /** Ancestor-or-self is antisymmetric. */
  lemma AncestorAntisymmetric(t: Tree, a: nat, b: nat)
    requires WellFormed(t) && a < |t.parent| && b < |t.parent|
    requires AncestorOrSelf(t, a, b) && AncestorOrSelf(t, b, a)
    ensures a == b
  {
    AncestorHigher(t, a, b);
    AncestorHigher(t, b, a);
  }

  /** The ancestors of a node form a chain: of two of them, one is above the
      other. */
  lemma {:induction false} AncestorsChain(t: Tree, a: nat, b: nat, x: nat)
    requires WellFormed(t) && x < |t.parent| && a < |t.parent| && b < |t.parent|
    requires AncestorOrSelf(t, a, x) && AncestorOrSelf(t, b, x)
    ensures AncestorOrSelf(t, a, b) || AncestorOrSelf(t, b, a)
    decreases t.depth[x]
  {
    if a != x && b != x {
      StrictAncestor(t, a, x);
      StrictAncestor(t, b, x);
      AncestorsChain(t, a, b, t.parent[x]);
    }
  }

  /** Climbing y one step extends the way up from x by exactly y's parent. */
  lemma ClimbBetween(t: Tree, x: nat, y: nat, z: nat)
    requires WellFormed(t) && x < |t.parent| && y < |t.parent| - 1 && z < |t.parent|
    requires AncestorOrSelf(t, y, x)
    ensures Between(t, x, t.parent[y], z) <==> Between(t, x, y, z) || z == t.parent[y]
  {
    var p := t.parent[y];
    ParentAncestor(t, y);
    if Between(t, x, y, z) {
      AncestorTrans(t, p, y, z);
    }
    if z == p {
      AncestorTrans(t, p, y, x);
    }
    if Between(t, x, p, z) && z != p && !AncestorOrSelf(t, y, z) {
      AncestorsChain(t, y, z, x);
      StrictAncestor(t, z, y);
      AncestorAntisymmetric(t, z, p);
    }
  }

  /** The entries of s other than x, in order. */
  function Without(s: seq<nat>, x: nat): (r: seq<nat>)
    ensures forall z :: z in r <==> z in s && z != x
  {
    if s == [] then [] else (if s[0] == x then [] else [s[0]]) + Without(s[1..], x)
  }

  /** List.remove(Object): drop the first occurrence of x, if any. */
  function RemoveFirst(s: seq<nat>, x: nat): (r: seq<nat>)
    ensures x in s ==> |r| == |s| - 1
    ensures x !in s ==> r == s
    ensures Without(r, x) == Without(s, x)
  {
    if s == [] then []
    else if s[0] == x then s[1..]
    else [s[0]] + RemoveFirst(s[1..], x)
  }

  lemma WithoutAbsent(s: seq<nat>, x: nat)
    requires x !in s
    ensures Without(s, x) == s
  {
  }

  /** `while (path.remove(x)) {}`: drop every occurrence of x. */
  method RemoveAll(s: seq<nat>, x: nat) returns (r: seq<nat>)
    ensures r == Without(s, x)
  {
    r := s;
    while x in r
      invariant Without(r, x) == Without(s, x)
      decreases |r|
    {
      r := RemoveFirst(r, x);
    }
    WithoutAbsent(r, x);
  }

  /** Every node number, as tree.getNodesAsArray() lists them. */
  function AllNodes(n: nat): (s: seq<nat>)
    ensures |s| == n && forall i :: 0 <= i < n ==> s[i] == i
  {
    seq(n, i requires 0 <= i < n => i)
  }

  /** On a one-branch path the drawn point u * l lies in the branch exactly
      when the branch has positive length. */
  lemma OneBranchHolds(ls: seq<real>, l: real, u: real)
    requires ls == [l] && l >= 0.0 && 0.0 <= u < 1.0
    ensures CoveredFromBelow(ls, u * l) <==> l > 0.0
    ensures l > 0.0 ==> InsideFromBelow(ls, u * l, 0)
  {
    assert ls[..0] == [] && ls[..1] == ls;
    SumRealStep(ls, 0);
    ScaledBelow(u, l);
    if l > 0.0 {
      assert InsideFromBelow(ls, u * l, 0);
    }
  }

  /** The scan of insertInfectionToPath: the lengths of the path's nodes are
      subtracted from the point until one exceeds what is left. The scan
      stops at the node holding the point, and runs off the end exactly when
      no node holds it. */
  method FirstFromBelow(ls: seq<real>, point: real) returns (j: nat)
    requires NonNegativeReal(ls) && point >= 0.0
    ensures j <= |ls|
    ensures j < |ls| <==> CoveredFromBelow(ls, point)
    ensures j < |ls| ==> InsideFromBelow(ls, point, j)
  {
    assert ls[..0] == [];
    var rest := point;
    j := 0;
    while j < |ls|
      invariant 0 <= j <= |ls| && rest == point - SumReal(ls[..j]) && rest >= 0.0
    {
      SumRealStep(ls, j);
      if ls[j] > rest {
        assert InsideFromBelow(ls, point, j);
        return;
      }
      rest := rest - ls[j];
      j := j + 1;
    }
    assert ls[..|ls|] == ls;
    forall l | 0 <= l < |ls| ensures !InsideFromBelow(ls, point, l) {
      SumRealMonotone(ls, l + 1, |ls|);
    }
  }

  /** A scan that finds the branch holding u * length, on branches of total
      length `length`, finds one exactly when that total is positive. */
  lemma ScanLands(ls: seq<real>, u: real, length: real, r: Result<nat>)
    requires NonNegativeReal(ls) && length == SumReal(ls) >= 0.0 && 0.0 <= u < 1.0
    requires r.Ok? <==> CoveredFromBelow(ls, u * length)
    ensures r.Err? <==> length == 0.0
  {
    if length > 0.0 {
      ScaledBelow(u, length);
      CoveredBelowTotal(ls, u * length);
    } else {
      NothingCoveredInEmpty(ls, u * length);
    }
  }

  /** The scan over all nodes with the whole tree length finds a branch
      exactly when the tree has positive length, and the node it stops at
      is the branch holding the drawn point. */
  lemma AnywhereLands(t: Tree, u: real, length: real, r: Result<nat>)
    requires Timed(t) && length == SumReal(Lengths(t)) && 0.0 <= u < 1.0
    requires r.Ok? <==> CoveredFromBelow(PathLengths(t, AllNodes(|t.parent|)), u * length)
    requires r.Ok? ==> exists j :: InsideFromBelow(PathLengths(t, AllNodes(|t.parent|)), u * length, j)
                                   && AllNodes(|t.parent|)[j] == r.value
    ensures r.Err? <==> length == 0.0
    ensures r.Ok? ==> InsideFromBelow(Lengths(t), Drawn(t, u), r.value)
  {
    AllNodesLengths(t);
    var ls := Lengths(t);
    assert PathLengths(t, AllNodes(|t.parent|)) == ls;
    assert Drawn(t, u) == u * length;
    ScanLands(ls, u, length, r);
    if r.Ok? {
      var j :| InsideFromBelow(ls, u * length, j) && AllNodes(|t.parent|)[j] == r.value;
      assert j == r.value;
    }
  }

  /** The path of all nodes has the tree's branch lengths, which are
      non-negative in a timed tree, as is their total. */
  lemma AllNodesLengths(t: Tree)
    requires Timed(t)
    ensures PathLengths(t, AllNodes(|t.parent|)) == Lengths(t)
    ensures NonNegativeReal(Lengths(t)) && SumReal(Lengths(t)) >= 0.0
  {
    TimedLengths(t);
  }

  /** The climbing state of getPathExcludingMRCA: n1 and n2 are on the way up
      from x and y, every common ancestor of x and y is above both, and the
      path holds exactly the nodes climbed so far from either side. */
  ghost predicate Climbing(t: Tree, x: nat, y: nat, n1: nat, n2: nat, path: seq<nat>)
    requires WellFormed(t) && x < |t.parent| && y < |t.parent|
  {
    && n1 < |t.parent| && n2 < |t.parent|
    && AncestorOrSelf(t, n1, x) && AncestorOrSelf(t, n2, y)
    && (forall c :: 0 <= c < |t.parent| && CommonAncestor(t, c, x, y) ==>
          AncestorOrSelf(t, c, n1) && AncestorOrSelf(t, c, n2))
    && (forall z :: z in path ==> z < |t.parent|)
    && (forall z :: 0 <= z < |t.parent| ==> (z in path <==> Between(t, x, n1, z) || Between(t, y, n2, z)))
  }

  /** The climb starts with both endpoints on the path. */
  lemma ClimbStart(t: Tree, x: nat, y: nat)
    requires WellFormed(t) && x < |t.parent| && y < |t.parent|
    ensures Climbing(t, x, y, x, y, [x, y])
  {
    forall z | 0 <= z < |t.parent|
      ensures z in [x, y] <==> Between(t, x, x, z) || Between(t, y, y, z)
    {
      if Between(t, x, x, z) {
        AncestorAntisymmetric(t, x, z);
      }
      if Between(t, y, y, z) {
        AncestorAntisymmetric(t, y, z);
      }
    }
  }

  /** Climbing from n1 is safe while n1 is not above n2: n1 is not the root,
      no common ancestor is passed, and the path grows by n1's parent. */
  lemma ClimbFirst(t: Tree, x: nat, y: nat, n1: nat, n2: nat, path: seq<nat>)
    requires WellFormed(t) && x < |t.parent| && y < |t.parent|
    requires Climbing(t, x, y, n1, n2, path) && !AncestorOrSelf(t, n1, n2)
    ensures n1 < |t.parent| - 1
    ensures Climbing(t, x, y, t.parent[n1], n2, path + [t.parent[n1]])
  {
    if n1 == Root(t) {
      RootAbove(t, n2);
    }
    var p := t.parent[n1];
    ParentAncestor(t, n1);
    AncestorTrans(t, p, n1, x);
    forall c | 0 <= c < |t.parent| && CommonAncestor(t, c, x, y)
      ensures AncestorOrSelf(t, c, p)
    {
      StrictAncestor(t, c, n1);
    }
    forall z | 0 <= z < |t.parent|
      ensures z in path + [p] <==> Between(t, x, p, z) || Between(t, y, n2, z)
    {
      ClimbBetween(t, x, n1, z);
    }
  }

  /** The same step from the other side. */
  lemma ClimbSecond(t: Tree, x: nat, y: nat, n1: nat, n2: nat, path: seq<nat>)
    requires WellFormed(t) && x < |t.parent| && y < |t.parent|
    requires Climbing(t, x, y, n1, n2, path) && !AncestorOrSelf(t, n2, n1)
    ensures n2 < |t.parent| - 1
    ensures Climbing(t, x, y, n1, t.parent[n2], path + [t.parent[n2]])
  {
    if n2 == Root(t) {
      RootAbove(t, n1);
    }
    var p := t.parent[n2];
    ParentAncestor(t, n2);
    AncestorTrans(t, p, n2, y);
    forall c | 0 <= c < |t.parent| && CommonAncestor(t, c, x, y)
      ensures AncestorOrSelf(t, c, p)
    {
      StrictAncestor(t, c, n2);
    }
    forall z | 0 <= z < |t.parent|
      ensures z in path + [p] <==> Between(t, x, n1, z) || Between(t, y, p, z)
    {
      ClimbBetween(t, y, n2, z);
    }
  }

  /** A node strictly below another is not above it. */
  lemma LowerNotAbove(t: Tree, a: nat, b: nat)
    requires WellFormed(t) && a < |t.parent| && b < |t.parent|
    requires t.height[a] < t.height[b]
    ensures !AncestorOrSelf(t, a, b)
  {
    if AncestorOrSelf(t, a, b) {
      AncestorHigher(t, a, b);
    }
  }

  /** A node whose branch has positive length is not above a node of the
      same height. */
  lemma LongBranchNotAbove(t: Tree, a: nat, b: nat)
    requires WellFormed(t) && a < |t.parent| && b < |t.parent| && a != b
    requires t.height[a] == t.height[b] && Length(t, b) > 0.0
    ensures !AncestorOrSelf(t, a, b)
  {
    if AncestorOrSelf(t, a, b) {
      StrictAncestor(t, a, b);
      AncestorHigher(t, a, t.parent[b]);
    }
  }

  /** The draws of one proposal: sibling move or anywhere move, the branch to
      take from, the coin and fractions of the removal, the point on the path
      and the fractions of the insertion. */
  datatype Draws = Draws(
    sibling: bool, nodeNr: nat,
    coin: bool, u1: real, u2: real,
    point: real, f: real, v1: real, v2: real)

  class InfectionMover {
    const tree: Tree
    const blockStartFraction: RealParameter
    const blockEndFraction: RealParameter
    const blockCount: IntegerParameter

    ghost predicate Valid()
      reads blockStartFraction, blockEndFraction, blockCount
    {
      && Timed(tree)
      && blockStartFraction != blockEndFraction
      && |blockCount.values| == |tree.parent|
      && |blockStartFraction.values| == |tree.parent| - 1
      && |blockEndFraction.values| == |tree.parent| - 1
      && Domain(blockCount.values)
    }

    ghost predicate Kept()
      reads blockStartFraction, blockEndFraction, blockCount
    {
      Consistent(blockCount.values, blockStartFraction.values, blockEndFraction.values)
    }

    /** The three block parameters as one value. */
    ghost function State(): BlockState
      reads blockStartFraction, blockEndFraction, blockCount
    {
      BlockState(blockCount.values, blockStartFraction.values, blockEndFraction.values)
    }

    constructor (tree: Tree, blockStartFraction: RealParameter, blockEndFraction: RealParameter,
                 blockCount: IntegerParameter)
      ensures this.tree == tree && this.blockCount == blockCount
      ensures this.blockStartFraction == blockStartFraction && this.blockEndFraction == blockEndFraction
    {
      this.tree := tree;
      this.blockStartFraction := blockStartFraction;
      this.blockEndFraction := blockEndFraction;
      this.blockCount := blockCount;
    }

    /** removeInfectionFromPath: walking the path, k loses each node's
        move weight; the node where k drops below zero loses one infection.
        When k is at least the total weight of the path the Java code throws. */
    method RemoveInfectionFromPath(path: seq<nat>, k: nat, coin: bool, u1: real, u2: real)
      returns (r: Result<nat>)
      requires Valid()
      requires forall j :: 0 <= j < |path| ==> path[j] < |blockStartFraction.values|
      modifies blockCount, blockStartFraction, blockEndFraction
      ensures Valid()
      ensures r.Err? <==> k >= Sum(PathWeights(old(blockCount.values), path))
      ensures r.Err? ==>
        && r.fault == ProgrammerError && blockCount.values == old(blockCount.values)
        && blockStartFraction.values == old(blockStartFraction.values)
        && blockEndFraction.values == old(blockEndFraction.values)
      ensures r.Ok? ==>
        && (exists j :: IsKth(PathWeights(old(blockCount.values), path), k, j) && path[j] == r.value)
        && r.value < |blockStartFraction.values| && old(blockCount.values[r.value]) >= 0
        && blockCount.values == old(blockCount.values)[r.value := old(blockCount.values[r.value]) - 1]
        && State() == Taken(old(State()), r.value, coin, u1, u2)
      ensures old(Kept()) ==> Kept()
    {
      var j := KthOnPath(blockCount.values, path, k);
      if j == |path| {
        return Err(ProgrammerError);
      }
      ghost var s0 := State();
      TakeOne(blockCount, blockStartFraction, blockEndFraction, path[j], coin, u1, u2);
      assert State() == Taken(s0, path[j], coin, u1, u2);
      return Ok(path[j]);
    }

    /** insertInfectionToPath: the point u * pathLength on the concatenated
        path picks the first node whose length exceeds what is left of the
        point, which gains one infection; the Java code throws when no node
        qualifies. The node found has positive length, so it is never the
        root. */
    method InsertInfectionToPath(path: seq<nat>, pathLength: real, u: real, f: real, v1: real, v2: real)
      returns (r: Result<nat>)
      requires Valid() && 0.0 <= u < 1.0 && pathLength >= 0.0
      requires forall j :: 0 <= j < |path| ==> path[j] < |tree.parent|
      modifies blockCount, blockStartFraction, blockEndFraction
      ensures Valid()
      ensures var ls := PathLengths(tree, path);
        && (r.Ok? <==> CoveredFromBelow(ls, u * pathLength))
        && (r.Ok? ==> exists j :: InsideFromBelow(ls, u * pathLength, j) && path[j] == r.value)
      ensures r.Err? ==>
        && r.fault == ProgrammerError && blockCount.values == old(blockCount.values)
        && blockStartFraction.values == old(blockStartFraction.values)
        && blockEndFraction.values == old(blockEndFraction.values)
      ensures r.Ok? ==>
        && r.value < |blockStartFraction.values|
        && blockCount.values == old(blockCount.values)[r.value := old(blockCount.values[r.value]) + 1]
        && State() == Put(old(State()), r.value, f, v1, v2)
      ensures old(Kept()) ==> Kept()
    {
      var ls := PathLengths(tree, path);
      ScaledBelow(u, pathLength);
      assert NonNegativeReal(ls);
      var j := FirstFromBelow(ls, u * pathLength);
      if j == |path| {
        return Err(ProgrammerError);
      }
      SumRealStep(ls, j);
      assert Length(tree, |tree.parent| - 1) == 0.0;
      ghost var s0 := State();
      PutOne(blockCount, blockStartFraction, blockEndFraction, path[j], f, v1, v2);
      assert State() == Put(s0, path[j], f, v1, v2);
      return Ok(path[j]);
    }
  
    /** The removal of the live proposal branches: removeInfectionFromPath on
        the one-node path [i] with k = 0 always takes an infection off i. */
    method TakeFrom(i: nat, coin: bool, u1: real, u2: real)
      requires Valid() && i < |blockStartFraction.values| && blockCount.values[i] >= 0
      modifies blockCount, blockStartFraction, blockEndFraction
      ensures Valid()
      ensures blockCount.values == old(blockCount.values)[i := old(blockCount.values[i]) - 1]
      ensures Sum(blockCount.values) == Sum(old(blockCount.values)) - 1
      ensures State() == Taken(old(State()), i, coin, u1, u2)
      ensures old(Kept()) ==> Kept()
    {
      ghost var before := blockCount.values;
      assert Sum(PathWeights(before, [i])) == MoveWeight(before[i]) by {
        assert PathWeights(before, [i])[..0] == [];
        assert PathWeights(before, [i])[..1] == PathWeights(before, [i]);
      }
      var node := RemoveInfectionFromPath([i], 0, coin, u1, u2);
      SumUpdate(before, i, before[i] - 1);
    }

    /** The sibling move's insertion: insertInfectionToPath on the one-node
        path [sibling] with the sibling's own length, which fails exactly when
        that length is 0. */
    method PutOnSibling(sibling: nat, point: real, f: real, v1: real, v2: real) returns (r: Result<nat>)
      requires Valid() && sibling < |tree.parent| && 0.0 <= point < 1.0
      modifies blockCount, blockStartFraction, blockEndFraction
      ensures Valid()
      ensures r.Err? <==> Length(tree, sibling) == 0.0
      ensures r.Err? ==> r.fault == ProgrammerError
      ensures r.Err? ==> State() == old(State())
      ensures r.Ok? ==>
        && r.value == sibling && sibling < |blockStartFraction.values|
        && blockCount.values == old(blockCount.values)[sibling := old(blockCount.values[sibling]) + 1]
        && Sum(blockCount.values) == Sum(old(blockCount.values)) + 1
        && State() == Put(old(State()), sibling, f, v1, v2)
      ensures old(Kept()) ==> Kept()
    {
      ghost var ls := PathLengths(tree, [sibling]);
      ghost var before := blockCount.values;
      r := InsertInfectionToPath([sibling], Length(tree, sibling), point, f, v1, v2);
      assert ls == [Length(tree, sibling)];
      OneBranchHolds(ls, Length(tree, sibling), point);
      if r.Ok? {
        SumUpdate(before, r.value, before[r.value] + 1);
      }
    }

    /** The anywhere move's insertion: insertInfectionToPath over all nodes
        with the total tree length, which fails exactly when the tree has
        length 0. */
    method PutAnywhere(point: real, f: real, v1: real, v2: real) returns (r: Result<nat>)
      requires Valid() && 0.0 <= point < 1.0
      modifies blockCount, blockStartFraction, blockEndFraction
      ensures Valid()
      ensures r.Err? <==> SumReal(Lengths(tree)) == 0.0
      ensures r.Err? ==> r.fault == ProgrammerError
      ensures r.Ok? ==>
        && r.value < |tree.parent| - 1
        && InsideFromBelow(Lengths(tree), Drawn(tree, point), r.value)
        && blockCount.values == old(blockCount.values)[r.value := old(blockCount.values[r.value]) + 1]
        && Sum(blockCount.values) == Sum(old(blockCount.values)) + 1
        && State() == Put(old(State()), r.value, f, v1, v2)
      ensures r.Err? ==> State() == old(State())
      ensures old(Kept()) ==> Kept()
    {
      var pathLength := TreeLength(tree);
      AllNodesLengths(tree);
      ghost var before := blockCount.values;
      r := InsertInfectionToPath(AllNodes(|tree.parent|), pathLength, point, f, v1, v2);
      AnywhereLands(tree, point, pathLength, r);
      if r.Ok? {
        SumUpdate(before, r.value, before[r.value] + 1);
      }
    }

    /** The move of the sibling branch of proposal: one infection is taken
        off the drawn branch and put on its sibling. */
    method SiblingMove(d: Draws) returns (target: Result<nat>)
      requires Valid() && WellFormed(tree)
      requires d.nodeNr < |tree.parent| - 1 && 0.0 <= d.point < 1.0 && blockCount.values[d.nodeNr] >= 0
      modifies blockCount, blockStartFraction, blockEndFraction
      ensures Valid()
      ensures target.Err? <==> Length(tree, Sibling(tree, d.nodeNr)) == 0.0
      ensures target.Err? ==> target.fault == ProgrammerError
      ensures target.Ok? ==>
        && Sum(blockCount.values) == Sum(old(blockCount.values))
        && blockCount.values == old(blockCount.values)[d.nodeNr := old(blockCount.values[d.nodeNr]) - 1]
             [Sibling(tree, d.nodeNr) := old(blockCount.values[Sibling(tree, d.nodeNr)]) + 1]
      ensures target.Err? ==> State() == Taken(old(State()), d.nodeNr, d.coin, d.u1, d.u2)
      ensures target.Ok? ==>
        && target.value == Sibling(tree, d.nodeNr) && target.value < |blockStartFraction.values|
        && State() == Put(Taken(old(State()), d.nodeNr, d.coin, d.u1, d.u2), target.value, d.f, d.v1, d.v2)
        && FractionsFramed(old(State()), State(), d.nodeNr, target.value)
      ensures old(Kept()) ==> Kept()
    {
      ghost var s0 := State();
      TakeFrom(d.nodeNr, d.coin, d.u1, d.u2);
      ghost var s1 := State();
      ghost var moved := blockCount.values;
      assert moved == old(blockCount.values)[d.nodeNr := old(blockCount.values[d.nodeNr]) - 1];
      assert s1 == Taken(s0, d.nodeNr, d.coin, d.u1, d.u2);
      var p := tree.parent[d.nodeNr];
      var sibling := if tree.left[p] == d.nodeNr then tree.right[p] else tree.left[p];
      assert sibling == Sibling(tree, d.nodeNr);
      target := PutOnSibling(sibling, d.point, d.f, d.v1, d.v2);
      if target.Err? {
        assert State() == s1;
      } else {
        assert blockCount.values == moved[sibling := moved[sibling] + 1];
        assert State() == Put(s1, sibling, d.f, d.v1, d.v2);
        FramedTwice(s0, s1, State(), d.nodeNr, sibling);
      }
    }

    /** The move of the anywhere branch of proposal: one infection is taken
        off the drawn branch and put at the drawn point of the whole tree,
        which may be the same branch. */
    method AnywhereMove(d: Draws) returns (target: Result<nat>)
      requires Valid()
      requires d.nodeNr < |tree.parent| - 1 && 0.0 <= d.point < 1.0 && blockCount.values[d.nodeNr] >= 0
      modifies blockCount, blockStartFraction, blockEndFraction
      ensures Valid()
      ensures target.Err? <==> SumReal(Lengths(tree)) == 0.0
      ensures target.Err? ==> target.fault == ProgrammerError
      ensures target.Ok? ==>
        var moved := old(blockCount.values)[d.nodeNr := old(blockCount.values[d.nodeNr]) - 1];
        && Sum(blockCount.values) == Sum(old(blockCount.values))
        && InsideFromBelow(Lengths(tree), Drawn(tree, d.point), target.value)
        && blockCount.values == moved[target.value := moved[target.value] + 1]
      ensures target.Err? ==> State() == Taken(old(State()), d.nodeNr, d.coin, d.u1, d.u2)
      ensures target.Ok? ==>
        && target.value < |blockStartFraction.values|
        && State() == Put(Taken(old(State()), d.nodeNr, d.coin, d.u1, d.u2), target.value, d.f, d.v1, d.v2)
        && FractionsFramed(old(State()), State(), d.nodeNr, target.value)
      ensures old(Kept()) ==> Kept()
    {
      ghost var s0 := State();
      TakeFrom(d.nodeNr, d.coin, d.u1, d.u2);
      ghost var s1 := State();
      ghost var moved := blockCount.values;
      assert moved == old(blockCount.values)[d.nodeNr := old(blockCount.values[d.nodeNr]) - 1];
      assert s1 == Taken(s0, d.nodeNr, d.coin, d.u1, d.u2);
      target := PutAnywhere(d.point, d.f, d.v1, d.v2);
      if target.Err? {
        assert State() == s1;
      } else {
        assert blockCount.values == moved[target.value := moved[target.value] + 1];
        assert State() == Put(s1, target.value, d.f, d.v1, d.v2);
        FramedTwice(s0, s1, State(), d.nodeNr, target.value);
      }
    }

    /** The live branches of proposal. A drawn branch without infection is
        rejected before anything changes. Otherwise one infection is taken off
        it and put back on its sibling (sibling move) or at a point of the
        whole tree (anywhere move); the result is rejected when the new
        colouring is invalid, and the edited parameters are left for the
        framework to restore. The Java code throws when the insertion finds no
        branch: a sibling of length 0, or a tree of length 0. */
    method Proposal(d: Draws, colouringValid: bool) returns (r: Result<Move>)
      requires Valid() && WellFormed(tree)
      requires d.nodeNr < |tree.parent| - 1 && 0.0 <= d.point < 1.0
      modifies blockCount, blockStartFraction, blockEndFraction
      ensures Valid()
      ensures old(blockCount.values[d.nodeNr]) < 0 ==>
        && r == Ok(Rejected) && blockCount.values == old(blockCount.values)
        && blockStartFraction.values == old(blockStartFraction.values)
        && blockEndFraction.values == old(blockEndFraction.values)
      ensures old(blockCount.values[d.nodeNr]) >= 0 ==>
        && (r.Err? <==> if d.sibling then Length(tree, Sibling(tree, d.nodeNr)) == 0.0
                        else SumReal(Lengths(tree)) == 0.0)
        && (r.Err? ==> r.fault == ProgrammerError)
        && (r.Ok? ==> (r == Ok(Proposed) <==> colouringValid))
        && (r.Ok? ==> Sum(blockCount.values) == Sum(old(blockCount.values)))
      ensures old(blockCount.values[d.nodeNr]) >= 0 && r.Err? ==>
        State() == Taken(old(State()), d.nodeNr, d.coin, d.u1, d.u2)
      ensures old(blockCount.values[d.nodeNr]) >= 0 && d.sibling && r.Ok? ==>
        && blockCount.values == old(blockCount.values)[d.nodeNr := old(blockCount.values[d.nodeNr]) - 1]
             [Sibling(tree, d.nodeNr) := old(blockCount.values[Sibling(tree, d.nodeNr)]) + 1]
        && Sibling(tree, d.nodeNr) < |blockStartFraction.values|
        && State() == Put(Taken(old(State()), d.nodeNr, d.coin, d.u1, d.u2),
                          Sibling(tree, d.nodeNr), d.f, d.v1, d.v2)
        && FractionsFramed(old(State()), State(), d.nodeNr, Sibling(tree, d.nodeNr))
      ensures old(blockCount.values[d.nodeNr]) >= 0 && !d.sibling && r.Ok? ==>
        var moved := old(blockCount.values)[d.nodeNr := old(blockCount.values[d.nodeNr]) - 1];
        exists t :: && InsideFromBelow(Lengths(tree), Drawn(tree, d.point), t)
                    && blockCount.values == moved[t := moved[t] + 1]
                    && t < |blockStartFraction.values|
                    && State() == Put(Taken(old(State()), d.nodeNr, d.coin, d.u1, d.u2), t, d.f, d.v1, d.v2)
                    && FractionsFramed(old(State()), State(), d.nodeNr, t)
      ensures r.Ok? && old(Kept()) ==> Kept()
    {
      if blockCount.values[d.nodeNr] < 0 {
        return Ok(Rejected);
      }
      var target: Result<nat>;
      if d.sibling {
        target := SiblingMove(d);
      } else {
        target := AnywhereMove(d);
      }
      if target.Err? {
        return Err(target.fault);
      }
      if !colouringValid {
        return Ok(Rejected);
      }
      return Ok(Proposed);
    }

    /** The side getPathExcludingMRCA climbs next: the lower endpoint; on
        equal heights the one whose branch has length 0 while the other's is
        positive, and when both are 0 the first exactly when the second is
        its ancestor. The side chosen is never above the other, so the climb
        cannot pass the meeting point. */
    method ClimbSide(n1: nat, n2: nat) returns (first: bool)
      requires WellFormed(tree) && n1 < |tree.parent| && n2 < |tree.parent| && n1 != n2
      ensures first <==>
        || tree.height[n1] < tree.height[n2]
        || (&& tree.height[n1] == tree.height[n2] && Length(tree, n1) <= 0.0
            && (Length(tree, n2) > 0.0 || AncestorOrSelf(tree, n2, n1)))
      ensures first ==> !AncestorOrSelf(tree, n1, n2)
      ensures !first ==> !AncestorOrSelf(tree, n2, n1)
    {
      var h1 := tree.height[n1];
      var h2 := tree.height[n2];
      if h1 < h2 {
        LowerNotAbove(tree, n1, n2);
        first := true;
      } else if h2 < h1 {
        LowerNotAbove(tree, n2, n1);
        first := false;
      } else {
        var b1 := Length(tree, n1);
        var b2 := Length(tree, n2);
        if b1 > 0.0 {
          LongBranchNotAbove(tree, n2, n1);
          first := false;
        } else if b2 > 0.0 {
          LongBranchNotAbove(tree, n1, n2);
          first := true;
        } else {
          var n: int := n1;
          while n != -1 && n != n2
            invariant -1 <= n < |tree.parent|
            invariant AncestorOrSelf(tree, n2, n1) <==> n != -1 && AncestorOrSelf(tree, n2, n)
            decreases if n == -1 then 0 else tree.depth[n] + 1
          {
            n := tree.parent[n];
          }
          first := n == n2;
          if first && AncestorOrSelf(tree, n1, n2) {
            AncestorAntisymmetric(tree, n1, n2);
          }
        }
      }
    }

    /** getPathExcludingMRCA: climbing one side at a time (ClimbSide) until
        the two ends meet, the nodes strictly between x and y through their
        most recent common ancestor m, which is itself removed from the path
        (every occurrence of it). The climb never leaves the root. */
    method GetPathExcludingMRCA(x: nat, y: nat) returns (path: seq<nat>, ghost m: nat)
      requires WellFormed(tree) && x < |tree.parent| && y < |tree.parent|
      ensures IsMrca(tree, x, y, m)
      ensures m !in path
      ensures forall z :: z in path ==> z < |tree.parent|
      ensures forall z :: 0 <= z < |tree.parent| ==>
        (z in path <==> z != m && (Between(tree, x, m, z) || Between(tree, y, m, z)))
    {
      var n1: nat := x;
      var n2: nat := y;
      path := [n1, n2];
      ClimbStart(tree, x, y);
      while n1 != n2
        invariant Climbing(tree, x, y, n1, n2, path)
        decreases tree.depth[n1] + tree.depth[n2]
      {
        var first := ClimbSide(n1, n2);
        if first {
          ClimbFirst(tree, x, y, n1, n2, path);
          n1 := tree.parent[n1];
          path := path + [n1];
        } else {
          ClimbSecond(tree, x, y, n1, n2, path);
          n2 := tree.parent[n2];
          path := path + [n2];
        }
      }
      m := n1;
      path := RemoveAll(path, n1);
    }
  }
}
