/** The process capability index Cpk of `compute_cpk` (app.py:14-30): the
    distance from the mean to the nearer specification limit, in units of
    three standard deviations. Either limit may be absent; the index is
    None (the source's NaN) when it cannot be computed. */
module Capability {
  import opened Numbers

  /** A standard deviation the index can divide by: present and positive
      (app.py:20-21 rejects None, NaN and anything not above zero). */
  predicate UsableSpread(sigma: Num) {
    sigma.Some? && 0.0 < sigma.value
  }

  /** The upper one-sided index (usl - mean) / (3 sigma); NaN in the mean
      propagates. */
  function UpperIndex(mean: Num, sigma: real, usl: real): (r: Num)
    requires 0.0 < sigma
    ensures r.Some? <==> mean.Some?
    ensures r.Some? ==> (0.0 <= r.value <==> mean.value <= usl)
  {
    if mean.None? then None
    else
      DivideAtLeast(usl - mean.value, 3.0 * sigma, 0.0);
      Some((usl - mean.value) / (3.0 * sigma))
  }

  /** The lower one-sided index (mean - lsl) / (3 sigma); NaN in the mean
      propagates. */
  function LowerIndex(mean: Num, sigma: real, lsl: real): (r: Num)
    requires 0.0 < sigma
    ensures r.Some? <==> mean.Some?
    ensures r.Some? ==> (0.0 <= r.value <==> lsl <= mean.value)
  {
    if mean.None? then None
    else
      DivideAtLeast(mean.value - lsl, 3.0 * sigma, 0.0);
      Some((mean.value - lsl) / (3.0 * sigma))
  }

  /** `np.min` over a non-empty list: the least entry, or NaN as soon as any
      entry is NaN. */
  function NanMin(vals: seq<Num>): (r: Num)
    requires |vals| > 0
    ensures r.Some? <==> forall i :: 0 <= i < |vals| ==> vals[i].Some?
    ensures r.Some? ==> r in vals && forall i :: 0 <= i < |vals| ==> r.value <= vals[i].value
  {
    if |vals| == 1 then vals[0]
    else
      var rest := NanMin(vals[1..]);
      assert forall i :: 1 <= i < |vals| ==> vals[i] == vals[1..][i - 1];
      if vals[0].None? || rest.None? then None
      else if vals[0].value <= rest.value then vals[0]
      else rest
  }

  function Min(a: real, b: real): (m: real)
    ensures m <= a && m <= b
    ensures m == a || m == b
  {
    if a <= b then a else b
  }

  /** How far the mean lies inside the nearer of the given limits (negative
      when it lies outside). */
  function NearestLimitDistance(mean: real, usl: Num, lsl: Num): real
    requires usl.Some? || lsl.Some?
  {
    if usl.Some? && lsl.Some? then Min(usl.value - mean, mean - lsl.value)
    else if usl.Some? then usl.value - mean
    else mean - lsl.value
  }

  /** The textbook definition of Cpk, independent of how `compute_cpk`
      arranges the computation: the distance to the nearer limit over
      three sigma, defined when the spread is usable, the mean is known and
      at least one limit is given. Three sigma times the index fits inside
      every given limit and reaches one of them exactly. */
  function CapabilityIndex(mean: Num, sigma: Num, usl: Num, lsl: Num): (r: Num)
    ensures r.Some? <==> UsableSpread(sigma) && mean.Some? && (usl.Some? || lsl.Some?)
    ensures r.Some? ==>
              var k := 3.0 * sigma.value;
              && (usl.Some? ==> r.value * k <= usl.value - mean.value)
              && (lsl.Some? ==> r.value * k <= mean.value - lsl.value)
              && ((usl.Some? && r.value * k == usl.value - mean.value) ||
                  (lsl.Some? && r.value * k == mean.value - lsl.value))
  {
    if UsableSpread(sigma) && mean.Some? && (usl.Some? || lsl.Some?) then
      Some(NearestLimitDistance(mean.value, usl, lsl) / (3.0 * sigma.value))
    else None
  }

  /** `compute_cpk(mean, sigma, usl, lsl)`: collects the one-sided index of
      every present limit in a list, then takes `np.min` of the list. */
  method ComputeCpk(mean: Num, sigma: Num, usl: Num, lsl: Num) returns (cpk: Num)
    ensures !UsableSpread(sigma) ==> cpk.None?
    ensures usl.None? && lsl.None? ==> cpk.None?
    ensures UsableSpread(sigma) && usl.Some? && lsl.None? ==>
              cpk == UpperIndex(mean, sigma.value, usl.value)
    ensures UsableSpread(sigma) && usl.None? && lsl.Some? ==>
              cpk == LowerIndex(mean, sigma.value, lsl.value)
    ensures UsableSpread(sigma) && usl.Some? && lsl.Some? ==>
              var up, low := UpperIndex(mean, sigma.value, usl.value), LowerIndex(mean, sigma.value, lsl.value);
              && (cpk.Some? <==> mean.Some?)
              && (cpk.Some? ==> cpk.value <= up.value && cpk.value <= low.value && (cpk == up || cpk == low))
    ensures cpk == CapabilityIndex(mean, sigma, usl, lsl)
  {
    if sigma.None? || sigma.value <= 0.0 {
      return None;
    }
    var s := sigma.value;
    var vals: seq<Num> := [];
    if usl.Some? {
      vals := vals + [UpperIndex(mean, s, usl.value)];
    }
    if lsl.Some? {
      vals := vals + [LowerIndex(mean, s, lsl.value)];
    }
    if vals == [] {
      return None;
    }
    cpk := NanMin(vals);
    if mean.Some? && usl.Some? && lsl.Some? {
      OneSidedMinimum(mean.value, s, usl, lsl);
    }
  }

  /** Taking the minimum of the one-sided indices is dividing the distance to
      the nearer limit by three sigma. */
  lemma OneSidedMinimum(mean: real, sigma: real, usl: Num, lsl: Num)
    requires 0.0 < sigma
    requires usl.Some? && lsl.Some?
    ensures var a, b := (usl.value - mean) / (3.0 * sigma), (mean - lsl.value) / (3.0 * sigma);
            Min(a, b) == NearestLimitDistance(mean, usl, lsl) / (3.0 * sigma)
  {
    var k := 3.0 * sigma;
    var up, low := usl.value - mean, mean - lsl.value;
    if up <= low {
      DivideMonotone(up, low, k);
    } else {
      DivideMonotone(low, up, k);
    }
  }

  // ---------------------------------------------------------------------
  // Properties of the index
  // ---------------------------------------------------------------------

  /** Cpk is at least c exactly when every given limit lies at least
      c * 3 sigma away from the mean on its own side; with c = 0 this reads
      "the mean is within the limits", with c = 1 "three sigma fit inside". */
  lemma CapabilityAtLeast(mean: Num, sigma: Num, usl: Num, lsl: Num, c: real)
    requires CapabilityIndex(mean, sigma, usl, lsl).Some?
    ensures var k := 3.0 * sigma.value;
            c <= CapabilityIndex(mean, sigma, usl, lsl).value <==>
              && (usl.Some? ==> c * k <= usl.value - mean.value)
              && (lsl.Some? ==> c * k <= mean.value - lsl.value)
  {
    var k := 3.0 * sigma.value;
    DivideAtLeast(NearestLimitDistance(mean.value, usl, lsl), k, c);
  }

  /** Cpk is non-negative exactly when the mean lies within every given
      limit. */
  lemma CapabilityNonNegative(mean: Num, sigma: Num, usl: Num, lsl: Num)
    requires CapabilityIndex(mean, sigma, usl, lsl).Some?
    ensures 0.0 <= CapabilityIndex(mean, sigma, usl, lsl).value <==>
              && (usl.Some? ==> mean.value <= usl.value)
              && (lsl.Some? ==> lsl.value <= mean.value)
  {
    CapabilityAtLeast(mean, sigma, usl, lsl, 0.0);
  }

  /** The worked example: mean 0, sigma 0.1 and limits -0.3 and 0.3 give
      Cpk 1, both one-sided indices being 1. */
  lemma CapabilityExample()
    ensures CapabilityIndex(Some(0.0), Some(0.1), Some(0.3), Some(-0.3)) == Some(1.0)
  {
    assert NearestLimitDistance(0.0, Some(0.3), Some(-0.3)) == 0.3;
  }
}
