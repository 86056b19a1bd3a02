/** The time tree the likelihood and the operators read, as an arena of
    parallel sequences indexed by node number (BEAST's `Node.getNr()`).
    Leaves are numbered 0 .. leafCount-1, internal nodes leafCount .. N-1, and
    the root is node N-1, as the likelihood's colouring and segment code
    assume. -1 stands for an absent parent or child. `depth` records each
    node's number of edges to the root; BEAST does not store it, the arena
    carries it so that climbing from a node to the root provably ends. */
module TreeArena {

  datatype Tree = Tree(
    parent: seq<int>,
    left: seq<int>,
    right: seq<int>,
    height: seq<real>,
    depth: seq<nat>,
    leafCount: nat)
  {
    function NodeCount(): nat { |parent| }
  }

  /** The sequences have one entry per node and every parent index names a node. */
  ghost predicate Shaped(t: Tree) {
    && |t.left| == |t.parent| && |t.right| == |t.parent|
    && |t.height| == |t.parent| && |t.depth| == |t.parent|
    && (forall i :: 0 <= i < |t.parent| ==> -1 <= t.parent[i] < |t.parent|)
  }

  /** A rooted binary tree with heights that never decrease towards the root. */
  ghost predicate WellFormed(t: Tree) {
    var n := |t.parent|;
    && Shaped(t)
    && t.leafCount >= 1 && n == 2 * t.leafCount - 1
    && t.parent[n - 1] == -1 && t.depth[n - 1] == 0
    && (forall i :: 0 <= i < n - 1 ==>
          && 0 <= t.parent[i]
          && t.depth[i] == t.depth[t.parent[i]] + 1
          && t.height[t.parent[i]] >= t.height[i]
          && (t.left[t.parent[i]] == i || t.right[t.parent[i]] == i))
    && (forall i :: 0 <= i < t.leafCount ==> t.left[i] == -1 && t.right[i] == -1)
    && (forall i :: t.leafCount <= i < n ==>
          && 0 <= t.left[i] < n && 0 <= t.right[i] < n && t.left[i] != t.right[i]
          && t.parent[t.left[i]] == i && t.parent[t.right[i]] == i)
  }

  function Root(t: Tree): int { |t.parent| - 1 }

  /** What most of the core needs of the tree: the node sequences fit and
      node N-1 is the root (every well-formed tree is rooted). */
  ghost predicate Rooted(t: Tree) {
    Shaped(t) && |t.parent| > 0 && t.parent[|t.parent| - 1] == -1
  }

  /** A rooted tree whose branch lengths are non-negative, which is what the
      length-proportional choices of the operators rely on. */
  ghost predicate Timed(t: Tree) {
    Rooted(t) && forall i :: 0 <= i < |t.parent| ==> Length(t, i) >= 0.0
  }


  predicate IsRoot(t: Tree, i: nat)
    requires i < |t.parent|
  {
    t.parent[i] == -1
  }

  predicate IsLeaf(t: Tree, i: nat)
    requires i < |t.parent|
  {
    i < t.leafCount
  }

  /** `Node.getLength()`: parent height minus own height, 0 at the root. */
  function Length(t: Tree, i: nat): (r: real)
    requires Shaped(t) && i < |t.parent|
    ensures IsRoot(t, i) ==> r == 0.0
  {
    if t.parent[i] == -1 then 0.0 else t.height[t.parent[i]] - t.height[i]
  }

  /** The branch lengths of all nodes, in node-number order (`getNodesAsArray`). */
  function Lengths(t: Tree): (ls: seq<real>)
    requires Shaped(t)
    ensures |ls| == |t.parent|
    ensures forall i :: 0 <= i < |ls| ==> ls[i] == Length(t, i)
  {
    seq(|t.parent|, i requires 0 <= i < |t.parent| => Length(t, i))
  }

  /** Heights never decrease towards the root, so every branch of a
      well-formed tree has a non-negative length. */
  lemma WellFormedTimed(t: Tree)
    requires WellFormed(t)
    ensures Timed(t)
  {
  }

  /** In a well-formed tree the root is node N-1 and no other node is a root. */
  lemma RootIsLast(t: Tree, i: nat)
    requires WellFormed(t) && i < |t.parent|
    ensures IsRoot(t, i) <==> i == Root(t)
  {
  }

  /** The other child of a non-root node's parent. */
  function Sibling(t: Tree, i: nat): (s: nat)
    requires WellFormed(t) && i < |t.parent| - 1
    ensures s < |t.parent| && s != i && t.parent[s] == t.parent[i]
  {
    var p := t.parent[i];
    if t.left[p] == i then t.right[p] else t.left[p]
  }

  /** a is x itself or one of x's ancestors. */
  ghost predicate AncestorOrSelf(t: Tree, a: nat, x: nat)
    requires WellFormed(t) && x < |t.parent|
    decreases t.depth[x]
  {
    x == a || (x != Root(t) && AncestorOrSelf(t, a, t.parent[x]))
  }

  /** The root is an ancestor of every node and no node is higher than it. */
  lemma {:induction false} RootAbove(t: Tree, x: nat)
    requires WellFormed(t) && x < |t.parent|
    ensures AncestorOrSelf(t, Root(t), x)
    ensures t.height[x] <= t.height[Root(t)]
    decreases t.depth[x]
  {
    if x != Root(t) {
      RootAbove(t, t.parent[x]);
    }
  }

  /** Heights never decrease from a node to any of its ancestors. */
  lemma {:induction false} AncestorHigher(t: Tree, a: nat, x: nat)
    requires WellFormed(t) && x < |t.parent| && a < |t.parent|
    requires AncestorOrSelf(t, a, x)
    ensures t.height[x] <= t.height[a]
    ensures t.depth[a] <= t.depth[x]
    ensures t.depth[a] == t.depth[x] ==> a == x
    decreases t.depth[x]
  {
    if x != a {
      AncestorHigher(t, a, t.parent[x]);
    }
  }

  /** Ancestry is transitive. */
  lemma {:induction false} AncestorTrans(t: Tree, a: nat, b: nat, x: nat)
    requires WellFormed(t) && x < |t.parent| && b < |t.parent|
    requires AncestorOrSelf(t, a, b) && AncestorOrSelf(t, b, x)
    ensures AncestorOrSelf(t, a, x)
    decreases t.depth[x]
  {
    if x != b {
      AncestorTrans(t, a, b, t.parent[x]);
    }
  }
}
