/** Reference definitions for the two kinds of scan the operators run:
    the weighted k-th-element scan (subtract each branch's weight from k and
    stop at the first branch where k drops below zero) and the prefix-sum
    search over branch lengths (subtract each branch length from a point r
    drawn on the whole tree). Both are stated here by prefix sums; each
    operator's loop is proved against them. */
module Scans {

  /** Sum of integer weights, peeled from the right so that
      Sum(w[..i+1]) == Sum(w[..i]) + w[i] unfolds directly. */
  function Sum(w: seq<int>): int
  {
    if w == [] then 0 else Sum(w[..|w| - 1]) + w[|w| - 1]
  }

  /** Sum of real lengths, peeled the same way. */
  function SumReal(w: seq<real>): real
  {
    if w == [] then 0.0 else SumReal(w[..|w| - 1]) + w[|w| - 1]
  }

  ghost predicate NonNegative(w: seq<int>) {
    forall i :: 0 <= i < |w| ==> w[i] >= 0
  }

  ghost predicate NonNegativeReal(w: seq<real>) {
    forall i :: 0 <= i < |w| ==> w[i] >= 0.0
  }

  lemma SumStep(w: seq<int>, i: nat)
    requires i < |w|
    ensures Sum(w[..i + 1]) == Sum(w[..i]) + w[i]
  {
    assert w[..i + 1][..i] == w[..i];
  }

  lemma SumRealStep(w: seq<real>, i: nat)
    requires i < |w|
    ensures SumReal(w[..i + 1]) == SumReal(w[..i]) + w[i]
  {
    assert w[..i + 1][..i] == w[..i];
  }

  /** Prefix sums of non-negative weights never decrease. */
  lemma {:induction false} SumMonotone(w: seq<int>, i: nat, j: nat)
    requires NonNegative(w) && i <= j <= |w|
    ensures Sum(w[..i]) <= Sum(w[..j])
    decreases j - i
  {
    if i < j {
      SumStep(w, j - 1);
      SumMonotone(w, i, j - 1);
    }
  }

  lemma {:induction false} SumRealMonotone(w: seq<real>, i: nat, j: nat)
    requires NonNegativeReal(w) && i <= j <= |w|
    ensures SumReal(w[..i]) <= SumReal(w[..j])
    decreases j - i
  {
    if i < j {
      SumRealStep(w, j - 1);
      SumRealMonotone(w, i, j - 1);
    }
  }

  /** Replacing one entry changes the sum by the difference. */
  lemma {:induction false} SumUpdate(w: seq<int>, i: nat, v: int)
    requires i < |w|
    ensures Sum(w[i := v]) == Sum(w) - w[i] + v
  {
    var m := |w| - 1;
    var u := w[i := v];
    assert u[..m] == if i == m then w[..m] else w[..m][i := v];
    if i < m {
      SumUpdate(w[..m], i, v);
    }
  }

  /** Non-negative weights sum to zero exactly when every weight is zero. */
  lemma {:induction false} SumZeroIff(w: seq<int>)
    requires NonNegative(w)
    ensures Sum(w) == 0 <==> forall i :: 0 <= i < |w| ==> w[i] == 0
  {
    if w != [] {
      var m := |w| - 1;
      SumStep(w, m);
      assert w[..m + 1] == w;
      SumZeroIff(w[..m]);
      SumMonotone(w, 0, m);
      assert w[..0] == [];
      if Sum(w) == 0 {
        forall i | 0 <= i < |w| ensures w[i] == 0 {
          if i < m { assert w[..m][i] == w[i]; }
        }
      } else {
        assert exists i :: 0 <= i < |w| && w[i] != 0 by {
          if w[m] == 0 {
            var j :| 0 <= j < m && w[..m][j] != 0;
            assert w[j] != 0;
          }
        }
      }
    }
  }

  /** Branch i holds the k-th unit of weight: the cumulative weight first
      exceeds k at i. */
  ghost predicate IsKth(w: seq<int>, k: int, i: int) {
    0 <= i < |w| && Sum(w[..i]) <= k < Sum(w[..i + 1])
  }

  /** The branch holding the k-th unit carries positive weight, and it is the
      only such branch when weights are non-negative. */
  lemma KthUnique(w: seq<int>, k: int, i: int, j: int)
    requires NonNegative(w) && IsKth(w, k, i) && IsKth(w, k, j)
    ensures i == j && w[i] > 0
  {
    SumStep(w, i);
    if i < j {
      SumMonotone(w, i + 1, j);
    } else if j < i {
      SumMonotone(w, j + 1, i);
    }
  }

  /** Point r lies strictly inside branch i of the concatenated lengths. */
  ghost predicate StrictlyInside(ls: seq<real>, r: real, i: int) {
    0 <= i < |ls| && SumReal(ls[..i]) < r < SumReal(ls[..i + 1])
  }

  /** Point r lies in branch i, counting the branch's lower end. */
  ghost predicate InsideFromBelow(ls: seq<real>, r: real, i: int) {
    0 <= i < |ls| && SumReal(ls[..i]) <= r < SumReal(ls[..i + 1])
  }

  /** Some branch contains point r strictly inside it. */
  ghost predicate Covered(ls: seq<real>, r: real) {
    exists i :: StrictlyInside(ls, r, i)
  }

  /** Some branch contains point r, counting lower ends. */
  ghost predicate CoveredFromBelow(ls: seq<real>, r: real) {
    exists i :: InsideFromBelow(ls, r, i)
  }

  /** Every point from 0 up to (not including) the total length lies in
      some branch. */
  lemma {:induction false} CoveredBelowTotal(ls: seq<real>, r: real)
    requires NonNegativeReal(ls) && 0.0 <= r < SumReal(ls)
    ensures CoveredFromBelow(ls, r)
  {
    var m := |ls| - 1;
    SumRealStep(ls, m);
    assert ls[..m + 1] == ls;
    if r < SumReal(ls[..m]) {
      CoveredBelowTotal(ls[..m], r);
      var i :| InsideFromBelow(ls[..m], r, i);
      assert ls[..m][..i] == ls[..i] && ls[..m][..i + 1] == ls[..i + 1];
      assert InsideFromBelow(ls, r, i);
    } else {
      assert InsideFromBelow(ls, r, m);
    }
  }

  /** When all lengths are zero no point lies in any branch. */
  lemma NothingCoveredInEmpty(ls: seq<real>, r: real)
    requires NonNegativeReal(ls) && SumReal(ls) == 0.0
    ensures !CoveredFromBelow(ls, r)
  {
    if i :| InsideFromBelow(ls, r, i) {
      assert ls[..|ls|] == ls && ls[..0] == [];
      SumRealMonotone(ls, i + 1, |ls|);
      SumRealMonotone(ls, 0, i);
    }
  }

  /** A fraction u in [0, 1) of a non-negative length d lies in [0, d],
      strictly below d when d is positive. */
  lemma ScaledBelow(u: real, d: real)
    requires 0.0 <= u < 1.0 && d >= 0.0
    ensures 0.0 <= u * d <= d
    ensures d > 0.0 ==> u * d < d
  {
    assert d - u * d == (1.0 - u) * d;
  }

  /** At most one branch contains a given point. */
  lemma InsideUnique(ls: seq<real>, r: real, i: int, j: int)
    requires NonNegativeReal(ls) && InsideFromBelow(ls, r, i) && InsideFromBelow(ls, r, j)
    ensures i == j && ls[i] > 0.0
  {
    SumRealStep(ls, i);
    if i < j {
      SumRealMonotone(ls, i + 1, j);
    } else if j < i {
      SumRealMonotone(ls, j + 1, i);
    }
  }
}
