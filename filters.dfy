/** The component filters run after `ComponentAnalysis` over the first
    `count` records. Each test compares floating-point statistics of a
    record; these are reals here, so the comparisons are exact.

    `TextDetectionFilter1` accepts every record. `DefaultFilter` accepts a
    record whose stroke widths vary little, whose box is not elongated and
    whose diameter is small against its median stroke width, and writes
    `Validity = -1` into the others. `PassiveFilter` rejects nothing itself:
    it sets one validity bit per failed test and counts the records left
    valid. */
module Filters {
  import opened Numerics
  import opened ComponentRecord

  /** The stroke-width variance is below `varianceTolerance` times the average. */
  predicate LowVariance(c: Component, varianceTolerance: real)
  {
    c.SwtVariance < varianceTolerance * c.SwtAverage
  }

  /** The box's longer side over its shorter is below `sizeRatioTolerance`. */
  predicate SizeProportional(c: Component, sizeRatioTolerance: real)
  {
    c.SizeRatio < sizeRatioTolerance
  }

  /** The diameter over the median stroke width is below `limit`. */
  predicate DiameterSmall(c: Component, limit: real)
  {
    c.DiameterToSwtMedianRatio < limit
  }

  // ---------------------------------------------------------------------------
  // TextDetectionFilter1
  // ---------------------------------------------------------------------------

  /** Every one of the first `count` records is accepted (the source's test
      is the constant `true`, so its rejecting branch never runs) and
      nothing is written. */
  method TextDetectionFilter1(count: int, componentList: array<Component>,
                              varianceTolerance: real := 0.5, sizeRatioTolerance: real := 10.0)
      returns (valid: int)
    requires count <= componentList.Length
    ensures valid == Max(count, 0)
  {
    valid := 0;
    var ci := 0;
    while ci < count
      invariant 0 <= ci && valid == ci
      invariant ci <= Max(count, 0)
    {
      var c := componentList[ci];
      valid := valid + 1;
      ci := ci + 1;
    }
  }

  // ---------------------------------------------------------------------------
  // DefaultFilter
  // ---------------------------------------------------------------------------

  /** The test of `DefaultFilter`: low variance, proportional, and a
      diameter below 10 median stroke widths. */
  predicate PassesDefault(c: Component, varianceTolerance: real, sizeRatioTolerance: real)
  {
    LowVariance(c, varianceTolerance) && SizeProportional(c, sizeRatioTolerance) && DiameterSmall(c, 10.0)
  }

  /** A record after `DefaultFilter`: kept as it is, or marked invalid. */
  function DefaultMark(c: Component, varianceTolerance: real, sizeRatioTolerance: real): Component
  {
    if PassesDefault(c, varianceTolerance, sizeRatioTolerance) then c else c.(Validity := -1)
  }

  function DefaultMarked(s: seq<Component>, varianceTolerance: real, sizeRatioTolerance: real): (r: seq<Component>)
    ensures |r| == |s|
    ensures forall k :: 0 <= k < |s| ==> r[k] == DefaultMark(s[k], varianceTolerance, sizeRatioTolerance)
  {
    if s == [] then []
    else DefaultMarked(s[..|s| - 1], varianceTolerance, sizeRatioTolerance) +
         [DefaultMark(s[|s| - 1], varianceTolerance, sizeRatioTolerance)]
  }

  /** The number of records of `s` that pass `DefaultFilter`'s test. */
  function CountDefault(s: seq<Component>, varianceTolerance: real, sizeRatioTolerance: real): nat
  {
    if s == [] then 0
    else CountDefault(s[..|s| - 1], varianceTolerance, sizeRatioTolerance) +
         (if PassesDefault(s[|s| - 1], varianceTolerance, sizeRatioTolerance) then 1 else 0)
  }

  /** `DefaultFilter` returns the number of the first `count` records that
      pass its test, marks each failing one with `Validity = -1`, and leaves
      every other record as it was. */
  method DefaultFilter(count: int, componentList: array<Component>,
                       varianceTolerance: real := 0.5, sizeRatioTolerance: real := 10.0)
      returns (valid: int)
    requires count <= componentList.Length
    modifies componentList
    ensures var n := Max(count, 0);
      valid == CountDefault(old(componentList[..n]), varianceTolerance, sizeRatioTolerance) &&
      componentList[..n] == DefaultMarked(old(componentList[..n]), varianceTolerance, sizeRatioTolerance) &&
      componentList[n..] == old(componentList[n..])
  {
    ghost var s := componentList[..];
    valid := 0;
    var ci := 0;
    while ci < count
      invariant 0 <= ci <= Max(count, 0)
      invariant valid == CountDefault(s[..ci], varianceTolerance, sizeRatioTolerance)
      invariant forall k :: 0 <= k < componentList.Length ==>
        componentList[k] == if k < ci then DefaultMark(s[k], varianceTolerance, sizeRatioTolerance) else s[k]
    {
      assert s[..ci + 1][..ci] == s[..ci];
      var c := componentList[ci];
      var hasLowVariance := c.SwtVariance < varianceTolerance * c.SwtAverage;
      var isSizeProportional := c.SizeRatio < sizeRatioTolerance;
      var isDiameterSmall := c.DiameterToSwtMedianRatio < 10.0;
      if hasLowVariance && isSizeProportional && isDiameterSmall {
        valid := valid + 1;
      } else {
        componentList[ci] := c.(Validity := -1);
      }
      ci := ci + 1;
    }
  }

  /** Filtering twice marks no more than filtering once, and the second
      pass accepts what the first accepted. */
  lemma {:induction false} DefaultFilterTwice(s: seq<Component>, varianceTolerance: real, sizeRatioTolerance: real)
    ensures DefaultMarked(DefaultMarked(s, varianceTolerance, sizeRatioTolerance), varianceTolerance, sizeRatioTolerance) ==
            DefaultMarked(s, varianceTolerance, sizeRatioTolerance)
    ensures CountDefault(DefaultMarked(s, varianceTolerance, sizeRatioTolerance), varianceTolerance, sizeRatioTolerance) ==
            CountDefault(s, varianceTolerance, sizeRatioTolerance)
  {
    if s != [] {
      var r := DefaultMarked(s, varianceTolerance, sizeRatioTolerance);
      DefaultFilterTwice(s[..|s| - 1], varianceTolerance, sizeRatioTolerance);
      assert r[..|r| - 1] == DefaultMarked(s[..|s| - 1], varianceTolerance, sizeRatioTolerance);
    }
  }

  /** At most all records pass, and all pass exactly when each does. */
  lemma {:induction false} CountDefaultAll(s: seq<Component>, varianceTolerance: real, sizeRatioTolerance: real)
    ensures CountDefault(s, varianceTolerance, sizeRatioTolerance) <= |s|
    ensures CountDefault(s, varianceTolerance, sizeRatioTolerance) == |s| <==>
      forall k :: 0 <= k < |s| ==> PassesDefault(s[k], varianceTolerance, sizeRatioTolerance)
  {
    if s != [] {
      var u := s[..|s| - 1];
      CountDefaultAll(u, varianceTolerance, sizeRatioTolerance);
      assert forall k :: 0 <= k < |u| ==> u[k] == s[k];
    }
  }

  // ---------------------------------------------------------------------------
  // PassiveFilter
  // ---------------------------------------------------------------------------

  /** The three tests of `PassiveFilter`, with a diameter limit of 15. */
  predicate PassesPassive(c: Component, varianceTolerance: real, sizeRatioTolerance: real)
  {
    LowVariance(c, varianceTolerance) && SizeProportional(c, sizeRatioTolerance) && DiameterSmall(c, 15.0)
  }

  /** A record after `PassiveFilter`: the bit of each failed test set. */
  function PassiveMark(c: Component, varianceTolerance: real, sizeRatioTolerance: real): Component
  {
    var v1 := if !LowVariance(c, varianceTolerance) then SetBit(c.Validity, HasLowVariance) else c.Validity;
    var v2 := if !SizeProportional(c, sizeRatioTolerance) then SetBit(v1, IsSizeProportional) else v1;
    var v3 := if !DiameterSmall(c, 15.0) then SetBit(v2, IsDiameterSmall) else v2;
    c.(Validity := v3)
  }

  function PassiveMarked(s: seq<Component>, varianceTolerance: real, sizeRatioTolerance: real): (r: seq<Component>)
    ensures |r| == |s|
    ensures forall k :: 0 <= k < |s| ==> r[k] == PassiveMark(s[k], varianceTolerance, sizeRatioTolerance)
  {
    if s == [] then []
    else PassiveMarked(s[..|s| - 1], varianceTolerance, sizeRatioTolerance) +
         [PassiveMark(s[|s| - 1], varianceTolerance, sizeRatioTolerance)]
  }

  /** The number of valid records of `s`. */
  function CountValid(s: seq<Component>): nat
  {
    if s == [] then 0 else CountValid(s[..|s| - 1]) + (if IsValid(s[|s| - 1]) then 1 else 0)
  }

  /** The number of records of `s` that pass the three tests of `PassiveFilter`. */
  function CountPassive(s: seq<Component>, varianceTolerance: real, sizeRatioTolerance: real): nat
  {
    if s == [] then 0
    else CountPassive(s[..|s| - 1], varianceTolerance, sizeRatioTolerance) +
         (if PassesPassive(s[|s| - 1], varianceTolerance, sizeRatioTolerance) then 1 else 0)
  }

  /** The bit of each test that `c` fails set. */
  method MarkFailures(c: Component, varianceTolerance: real, sizeRatioTolerance: real) returns (r: Component)
    ensures r == PassiveMark(c, varianceTolerance, sizeRatioTolerance)
  {
    var hasLowVariance := c.SwtVariance < varianceTolerance * c.SwtAverage;
    var isSizeProportional := c.SizeRatio < sizeRatioTolerance;
    var isDiameterSmall := c.DiameterToSwtMedianRatio < 15.0;
    r := c;
    if !hasLowVariance {
      r := r.(Validity := SetBit(r.Validity, HasLowVariance));
    }
    if !isSizeProportional {
      r := r.(Validity := SetBit(r.Validity, IsSizeProportional));
    }
    if !isDiameterSmall {
      r := r.(Validity := SetBit(r.Validity, IsDiameterSmall));
    }
  }

  /** `PassiveFilter` sets, in each of the first `count` records, the bit of
      every test it fails, leaves the other records as they were, and returns
      the number of the first `count` records that are then valid. */
  method PassiveFilter(count: int, componentList: array<Component>,
                       varianceTolerance: real := 2.0, sizeRatioTolerance: real := 10.0)
      returns (valid: int)
    requires count <= componentList.Length
    modifies componentList
    ensures var n := Max(count, 0);
      componentList[..n] == PassiveMarked(old(componentList[..n]), varianceTolerance, sizeRatioTolerance) &&
      componentList[n..] == old(componentList[n..]) &&
      valid == CountValid(componentList[..n])
  {
    ghost var s := componentList[..];
    valid := 0;
    var ci := 0;
    while ci < count
      invariant 0 <= ci <= Max(count, 0)
      invariant forall k :: 0 <= k < componentList.Length ==>
        componentList[k] == if k < ci then PassiveMark(s[k], varianceTolerance, sizeRatioTolerance) else s[k]
      invariant valid == CountValid(componentList[..ci])
    {
      var c := MarkFailures(componentList[ci], varianceTolerance, sizeRatioTolerance);
      componentList[ci] := c;
      assert componentList[..ci + 1][..ci] == componentList[..ci];
      if IsValid(c) {
        valid := valid + 1;
      }
      ci := ci + 1;
    }
  }

  /** A record is valid after `PassiveFilter` exactly when it was valid
      before and passes all three tests. */
  lemma PassiveValid(c: Component, varianceTolerance: real, sizeRatioTolerance: real)
    ensures IsValid(PassiveMark(c, varianceTolerance, sizeRatioTolerance)) <==>
      IsValid(c) && PassesPassive(c, varianceTolerance, sizeRatioTolerance)
  {
  }

  /** On records that all start valid, `PassiveFilter` counts the records
      passing its three tests. */
  lemma {:induction false} PassiveCount(s: seq<Component>, varianceTolerance: real, sizeRatioTolerance: real)
    requires forall k :: 0 <= k < |s| ==> IsValid(s[k])
    ensures CountValid(PassiveMarked(s, varianceTolerance, sizeRatioTolerance)) ==
            CountPassive(s, varianceTolerance, sizeRatioTolerance)
  {
    if s != [] {
      var r := PassiveMarked(s, varianceTolerance, sizeRatioTolerance);
      PassiveCount(s[..|s| - 1], varianceTolerance, sizeRatioTolerance);
      assert r[..|r| - 1] == PassiveMarked(s[..|s| - 1], varianceTolerance, sizeRatioTolerance);
      PassiveValid(s[|s| - 1], varianceTolerance, sizeRatioTolerance);
    }
  }

  /** The bits are sticky: a second `PassiveFilter` changes nothing. */
  lemma PassiveFilterTwice(c: Component, varianceTolerance: real, sizeRatioTolerance: real)
    ensures PassiveMark(PassiveMark(c, varianceTolerance, sizeRatioTolerance), varianceTolerance, sizeRatioTolerance) ==
            PassiveMark(c, varianceTolerance, sizeRatioTolerance)
  {
  }
}
