/** BREATH's LinearGrowth population function: a population that grows
    linearly from size 0 at time 0, with all events at negative times. The
    rate is cached in a field that starts at 1.0; getRate refreshes it from
    the rate input, setRate overwrites it. */
module Growth {
  import opened Outcomes
  import opened Parameters

  class LinearGrowth {
    /** The rate input (a BEAST Function; its first value is the rate). */
    const rateParameter: RealParameter
    var rate: real

    constructor (rateParameter: RealParameter)
      ensures this.rateParameter == rateParameter && rate == 1.0
    {
      this.rateParameter := rateParameter;
      rate := 1.0;
    }

    /** getRate: reads the first value of the rate input into the cache;
        an input without values has nothing to read. */
    method GetRate() returns (res: Result<real>)
      modifies this
      ensures |rateParameter.values| == 0 ==> res == Err(IndexOutOfBounds) && rate == old(rate)
      ensures |rateParameter.values| > 0 ==>
        res == Ok(rateParameter.values[0]) && rate == rateParameter.values[0]
    {
      if |rateParameter.values| == 0 {
        return Err(IndexOutOfBounds);
      }
      rate := rateParameter.values[0];
      return Ok(rate);
    }

    /** setRate. */
    method SetRate(r: real)
      modifies this
      ensures rate == r
    {
      rate := r;
    }

    /** getPopSize(t): positive times are refused; otherwise the
        population is the cached rate times the time before 0. */
    function PopSize(t: real): (res: Result<real>)
      reads this
      ensures res.Err? <==> t > 0.0
      ensures res.Err? ==> res.fault == IllegalArgument
      ensures res.Ok? && rate >= 0.0 ==> res.value >= 0.0
      ensures t == 0.0 ==> res == Ok(0.0)
    {
      if t > 0.0 then Err(IllegalArgument) else Ok(-t * rate)
    }

    /** getIntensity is not implemented and always throws. */
    function Intensity(t: real): (res: Result<real>)
      ensures res == Err(NotImplemented)
    {
      Err(NotImplemented)
    }

    /** getInverseIntensity is not implemented and always throws. */
    function InverseIntensity(x: real): (res: Result<real>)
      ensures res == Err(NotImplemented)
    {
      Err(NotImplemented)
    }

    /** The population is linear in time: going back by d from any time at
        or before 0 adds d times the rate, so with a non-negative rate it
        never shrinks going back in time. */
    lemma PopSizeLinear(t: real, d: real)
      requires t <= 0.0 && d >= 0.0
      ensures PopSize(t - d).Ok? && PopSize(t).Ok?
      ensures PopSize(t - d).value == PopSize(t).value + d * rate
      ensures rate >= 0.0 ==> PopSize(t - d).value >= PopSize(t).value
    {
      assert -(t - d) * rate == -t * rate + d * rate;
      if rate >= 0.0 {
        assert d * rate >= 0.0;
      }
    }
  }
}
