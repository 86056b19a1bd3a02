/** BREATH's OriginAndRootHeightMover: a scale move on the root height that
    shifts the origin (the start of the study, above the root) by the same
    amount, so the time between origin and root is kept. The scale comes
    from BEAST's KernelDistribution, which is not part of this model: it is
    a parameter of the proposal. The log Hastings ratio, `optimize` and the
    formatting of the suggestion text are not modelled. */
module RootMovers {
  import opened Outcomes
  import opened TreeArena
  import opened Parameters
  import opened Blocks

  function Max(a: real, b: real): (m: real)
    ensures m >= a && m >= b && (m == a || m == b)
  {
    if a >= b then a else b
  }

  /** The acceptance rate the scale factor is tuned towards. */
  const TargetAcceptance: real := 0.3

  /** The factor getPerformanceSuggestion applies to the scale factor: the
      ratio of the acceptance rate to its target, clamped to [0.5, 2]. */
  function Ratio(prob: real): (r: real)
    ensures 0.5 <= r <= 2.0
    ensures 0.5 < r < 2.0 ==> r * TargetAcceptance == prob
  {
    var ratio := prob / TargetAcceptance;
    var high := if ratio > 2.0 then 2.0 else ratio;
    if high < 0.5 then 0.5 else high
  }

  /** getPerformanceSuggestion: no suggestion (the empty string) while the
      acceptance rate lies in [0.10, 0.40], otherwise the scale factor
      times Ratio. With no proposals made the rate is 0/0, a NaN, which
      fails both comparisons, so there is no suggestion either. */
  function PerformanceSuggestion(accepted: nat, rejected: nat, scaleFactor: real): (s: Option<real>)
    ensures accepted + rejected == 0 ==> s.None?
    ensures accepted + rejected > 0 ==>
      var prob := accepted as real / (accepted + rejected) as real;
      && (s.None? <==> 0.10 <= prob <= 0.40)
      && (s.Some? ==> s.value == scaleFactor * Ratio(prob))
  {
    if accepted + rejected == 0 then None
    else
      var prob := accepted as real / (accepted + rejected) as real;
      if prob < 0.10 || prob > 0.40 then Some(scaleFactor * Ratio(prob)) else None
  }

  /** A suggestion never asks for more than twice or less than half the
      current (non-negative) scale factor. Too few acceptances halve it
      (larger jumps); too many make it larger (smaller jumps). */
  lemma SuggestionBounds(accepted: nat, rejected: nat, scaleFactor: real)
    requires scaleFactor >= 0.0
    ensures var s := PerformanceSuggestion(accepted, rejected, scaleFactor);
      s.Some? ==>
        var prob := accepted as real / (accepted + rejected) as real;
        && 0.5 * scaleFactor <= s.value <= 2.0 * scaleFactor
        && (prob < 0.10 ==> s.value == 0.5 * scaleFactor)
        && (prob > 0.40 && scaleFactor > 0.0 ==> s.value > scaleFactor)
  {
    var s := PerformanceSuggestion(accepted, rejected, scaleFactor);
    if s.Some? {
      var prob := accepted as real / (accepted + rejected) as real;
      var ratio := Ratio(prob);
      assert s.value == scaleFactor * ratio;
      assert prob > 0.40 ==> ratio > 1.0;
      assert prob < 0.10 ==> ratio == 0.5;
      ScaledBetween(scaleFactor, ratio, s.value);
    }
  }

  /** Scaling a non-negative value by a factor in [0.5, 2]. */
  lemma ScaledBetween(x: real, f: real, v: real)
    requires x >= 0.0 && 0.5 <= f <= 2.0 && v == x * f
    ensures 0.5 * x <= v <= 2.0 * x
    ensures x > 0.0 && f > 1.0 ==> v > x
  {
    ProductSign(x, f - 0.5);
    ProductSign(x, 2.0 - f);
    ProductSign(x, f - 1.0);
  }

  /** The sign of a product of a non-negative and another factor: a step
      of nonlinear real arithmetic the solver needs spelled out for
      ScaledBetween. */
  lemma ProductSign(a: real, b: real)
    requires a >= 0.0
    ensures b >= 0.0 ==> a * b >= 0.0
    ensures a > 0.0 && b > 0.0 ==> a * b > 0.0
  {
  }

  class OriginAndRootHeightMover {
    var tree: Tree
    /** The origin parameter; the input is optional in BEAST, so it may be
        absent. */
    const origin: RealParameter?
    var scaleFactor: real

    /** initAndValidate: the scale factor starts at the scaleFactor input
        (0.75 unless given). */
    constructor (tree: Tree, origin: RealParameter?, scaleFactorInput: real)
      ensures this.tree == tree && this.origin == origin && scaleFactor == scaleFactorInput
    {
      this.tree := tree;
      this.origin := origin;
      scaleFactor := scaleFactorInput;
    }

    /** getCoercableParameterValue. */
    method GetCoercableParameterValue() returns (v: real)
      ensures v == scaleFactor
    {
      v := scaleFactor;
    }

    /** setCoercableParameterValue: stored as given (no clamping). */
    method SetCoercableParameterValue(value: real)
      modifies this
      ensures scaleFactor == value && tree == old(tree)
    {
      scaleFactor := value;
    }

    /** proposal with the kernel's scale. A tree whose root is a leaf has
        no children to compare with, and a missing or empty origin cannot be
        read: those throw, the latter after the root was moved. A rejected
        move changes nothing; otherwise the root takes its new height, and
        the origin is shifted by the same amount, so the span from root to
        origin is unchanged. */
    method Proposal(scale: real) returns (res: Result<Move>)
      requires WellFormed(tree)
      modifies this, origin
      ensures scaleFactor == old(scaleFactor)
      ensures WellFormed(tree)
      ensures old(tree).leafCount == 1 ==> res == Err(NullPointer) && tree == old(tree)
      ensures old(tree).leafCount > 1 ==>
        var moved := MovedRoot(old(tree), ScaledHeight(old(tree), scale));
        var root := Root(old(tree));
        && (moved.None? ==>
              && res == Ok(Rejected) && tree == old(tree)
              && (origin != null ==> origin.values == old(origin.values)))
        && (moved.Some? ==>
              && tree == moved.value
              && (origin == null ==> res == Err(NullPointer))
              && (origin != null && |old(origin.values)| == 0 ==>
                    res == Err(IndexOutOfBounds) && origin.values == old(origin.values))
              && (origin != null && |old(origin.values)| > 0 ==>
                    && res == Ok(Proposed)
                    && |origin.values| == |old(origin.values)|
                    && (forall j :: 1 <= j < |origin.values| ==> origin.values[j] == old(origin.values[j]))
                    && origin.values[0] - tree.height[root] == old(origin.values[0]) - old(tree).height[root]))
    {
      if tree.leafCount == 1 {
        return Err(NullPointer);
      }
      var root := Root(tree);
      var height := tree.height[root];
      var moved := MovedRoot(tree, ScaledHeight(tree, scale));
      if moved.None? {
        return Ok(Rejected);
      }
      var delta := moved.value.height[root] - height;
      tree := moved.value;
      if origin == null {
        return Err(NullPointer);
      }
      if |origin.values| == 0 {
        return Err(IndexOutOfBounds);
      }
      var oldOrigin := origin.values[0];
      origin.SetValue(0, oldOrigin + delta);
      return Ok(Proposed);
    }
  }

  /** The tree after the root-height part of proposal, for the proposed
      new root height: rejected when that is below the taller of the
      root's children. An accepted move changes the root's height alone and
      keeps the tree well formed. */
  function MovedRoot(t: Tree, newHeight: real): (r: Option<Tree>)
    requires WellFormed(t) && t.leafCount > 1
    ensures r.None? <==> newHeight < Max(t.height[t.left[Root(t)]], t.height[t.right[Root(t)]])
    ensures r.Some? ==> r.value == WithRootHeight(t, newHeight) && WellFormed(r.value)
  {
    var root := Root(t);
    if newHeight < Max(t.height[t.left[root]], t.height[t.right[root]]) then None
    else
      RaisedRootWellFormed(t, newHeight);
      Some(WithRootHeight(t, newHeight))
  }

  /** The root height times the kernel's scale. */
  function ScaledHeight(t: Tree, scale: real): real
    requires Shaped(t) && |t.parent| > 0
  {
    t.height[Root(t)] * scale
  }

  /** The tree with the root moved to height h. */
  function WithRootHeight(t: Tree, h: real): (u: Tree)
    requires Shaped(t) && |t.parent| > 0
  {
    t.(height := t.height[Root(t) := h])
  }

  /** Giving the root of a well-formed tree any height at least that of
      both its children keeps the tree well formed. */
  lemma RaisedRootWellFormed(t: Tree, h: real)
    requires WellFormed(t) && t.leafCount > 1
    requires h >= t.height[t.left[Root(t)]] && h >= t.height[t.right[Root(t)]]
    ensures WellFormed(WithRootHeight(t, h))
  {
    var root := Root(t);
    var u := WithRootHeight(t, h);
    forall i | 0 <= i < |t.parent| - 1
      ensures u.height[u.parent[i]] >= u.height[i]
    {
      var p := t.parent[i];
      if p == root {
        assert t.left[p] == i || t.right[p] == i;
      }
    }
  }
}
