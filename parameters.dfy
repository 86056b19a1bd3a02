/** BEAST's parameter containers, through which the likelihood and the
    operators share the block configuration: a resizable vector of values with
    a lower and an upper bound. Only the operations the core calls are
    modelled. `setDimension` keeps the entries that still fit; what it puts
    in the new entries is BEAST's business and is passed in. */
module Parameters {

  /** How many entries `setDimension(n)` adds to a vector of dimension dim. */
  function FillSize(dim: nat, n: nat): nat {
    if n > dim then n - dim else 0
  }

  /** A vector resized to n entries: the entries that fit are kept, a
      shorter vector is cut, a longer one ends with the first entries of
      fill. */
  function Resized<T>(before: seq<T>, n: nat, fill: seq<T>): (r: seq<T>)
    requires |fill| >= FillSize(|before|, n)
    ensures |r| == n
    ensures forall j :: 0 <= j < n && j < |before| ==> r[j] == before[j]
    ensures forall j :: |before| <= j < n ==> r[j] == fill[j - |before|]
  {
    if n <= |before| then before[..n] else before + fill[..n - |before|]
  }

  class RealParameter {
    var values: seq<real>
    var lower: real
    var upper: real

    constructor (values: seq<real>, lower: real, upper: real)
      ensures this.values == values && this.lower == lower && this.upper == upper
    {
      this.values := values;
      this.lower := lower;
      this.upper := upper;
    }

    /** `setValue(i, v)`. */
    method SetValue(i: nat, v: real)
      requires i < |values|
      modifies this
      ensures values == old(values)[i := v]
      ensures lower == old(lower) && upper == old(upper)
    {
      values := values[i := v];
    }

    /** `setDimension(n)`: a no-op when the dimension is already n; otherwise
        the entries that fit are kept and the new ones are BEAST's fill. */
    method SetDimension(n: nat, fill: seq<real>)
      requires |fill| >= FillSize(|values|, n)
      modifies this
      ensures values == Resized(old(values), n, fill)
      ensures lower == old(lower) && upper == old(upper)
    {
      if |values| != n {
        values := Resized(values, n, fill);
      }
    }

    method SetLower(v: real)
      modifies this
      ensures lower == v && upper == old(upper) && values == old(values)
    {
      lower := v;
    }

    method SetUpper(v: real)
      modifies this
      ensures upper == v && lower == old(lower) && values == old(values)
    {
      upper := v;
    }
  }

  class IntegerParameter {
    var values: seq<int>
    var lower: int
    var upper: int

    constructor (values: seq<int>, lower: int, upper: int)
      ensures this.values == values && this.lower == lower && this.upper == upper
    {
      this.values := values;
      this.lower := lower;
      this.upper := upper;
    }

    method SetValue(i: nat, v: int)
      requires i < |values|
      modifies this
      ensures values == old(values)[i := v]
      ensures lower == old(lower) && upper == old(upper)
    {
      values := values[i := v];
    }

    method SetDimension(n: nat, fill: seq<int>)
      requires |fill| >= FillSize(|values|, n)
      modifies this
      ensures values == Resized(old(values), n, fill)
      ensures lower == old(lower) && upper == old(upper)
    {
      if |values| != n {
        values := Resized(values, n, fill);
      }
    }

    /** `setBounds(lower, upper)`. */
    method SetBounds(lo: int, up: int)
      modifies this
      ensures lower == lo && upper == up && values == old(values)
    {
      lower := lo;
      upper := up;
    }
  }
}
