/** The `Component` record that the labelling, the analysis and the filters
    read and update. It is a C# struct kept in a `Component[]`, so it is a
    value here, stored in an `array<Component>` and updated with `.(f := v)`.

    The struct itself (its `Initialize`, `IsValid` and validity bits) lives
    in a part of the library that is not part of this model: the initial
    field values, the bit values and the validity test below are stated as
    explicit assumptions of the model. */
module ComponentRecord {
  import opened Numerics

  /** Number of slots of the fixed `ChannelSum` / `ChannelAverage` buffers. */
  const ChannelSlots: nat := 4

  datatype Component = Component(
    Coloring: int32,
    Size: int32,
    SwtSize: int32,
    SwtSum: int32,
    X0: int32, X1: int32, Y0: int32, Y1: int32,
    Width: int32, Height: int32,
    MinDimension: int32, MaxDimension: int32,
    SwtMedian: int32,
    ChannelSum: seq<int32>,
    ChannelAverage: seq<int32>,
    ParentColoring: int32,
    Validity: int32,
    // floating-point statistics, as reals
    SizeRatio: real,
    Diameter: real,
    SwtAverage: real,
    SwtVariance: real,
    DiameterToSwtMedianRatio: real
  )

  /** Assumed result of `Initialize()`: counters and sums zero, an empty
      bounding box (`X0`, `Y0` at `int.MaxValue`, `X1`, `Y1` at
      `int.MinValue`), no parent, valid. */
  function Initialized(): (c: Component)
    ensures c.Size == 0 && c.SwtSize == 0 && c.SwtSum == 0
    ensures |c.ChannelSum| == ChannelSlots && |c.ChannelAverage| == ChannelSlots
    ensures forall k :: 0 <= k < ChannelSlots ==> c.ChannelSum[k] == 0
  {
    Component(-1, 0, 0, 0, IntMax, IntMin, IntMax, IntMin, 0, 0, 0, 0, 0,
              [0, 0, 0, 0], [0, 0, 0, 0], IntMax, 0, 0.0, 0.0, 0.0, 0.0, 0.0)
  }

  /** Assumed validity bits. */
  const HasLowVariance: int32 := 1
  const IsSizeProportional: int32 := 2
  const IsDiameterSmall: int32 := 4

  /** Assumed `IsValid()`: no validity bit is set. */
  predicate IsValid(c: Component)
  {
    c.Validity == 0
  }

  // ---------------------------------------------------------------------------
  // `Validity |= bit` for the three single-bit flags, on the 32-bit
  // two's-complement value: bit `b` of `v` is `(v / b) % 2` (`/` rounds
  // down here, as an arithmetic shift does), and setting a clear bit adds it.
  // ---------------------------------------------------------------------------

  predicate IsFlag(bit: int)
  {
    bit == HasLowVariance || bit == IsSizeProportional || bit == IsDiameterSmall
  }

  predicate HasBit(v: int, bit: int)
    requires IsFlag(bit)
  {
    if bit == 1 then v % 2 == 1
    else if bit == 2 then (v / 2) % 2 == 1
    else (v / 4) % 2 == 1
  }

  /** `v | bit`. */
  function SetBit(v: int32, bit: int32): (r: int32)
    requires IsFlag(bit)
    ensures HasBit(r, bit)
    ensures HasBit(v, bit) ==> r == v
    ensures forall other :: IsFlag(other) && other != bit ==> (HasBit(r, other) <==> HasBit(v, other))
    ensures r != 0
  {
    SetBitFacts(v, bit);
    if HasBit(v, bit) then v else v + bit
  }

  lemma Halve(v: int, q: int, m: int)
    requires v == 2 * q + m && 0 <= m < 2
    ensures v / 2 == q && v % 2 == m
  {
  }

  lemma Quarter(v: int, q: int, m: int)
    requires v == 4 * q + m && 0 <= m < 4
    ensures v / 4 == q
  {
  }

  /** The three flag bits of `v` are those of its low three bits `r`. */
  lemma LowBits(v: int, q: int, r: int)
    requires v == 8 * q + r && 0 <= r < 8
    ensures HasBit(v, 1) == HasBit(r, 1) && HasBit(v, 2) == HasBit(r, 2) && HasBit(v, 4) == HasBit(r, 4)
  {
    var r1, r2, r4 := r % 2, (r / 2) % 2, r / 4;
    assert r == 4 * r4 + 2 * r2 + r1 && 0 <= r1 < 2 && 0 <= r2 < 2 && 0 <= r4 < 2 by {
      assert r == 0 || r == 1 || r == 2 || r == 3 || r == 4 || r == 5 || r == 6 || r == 7;
    }
    Halve(v, 4 * q + 2 * r4 + r2, r1);
    Halve(4 * q + 2 * r4 + r2, 2 * q + r4, r2);
    Quarter(v, 2 * q + r4, 2 * r2 + r1);
    Halve(2 * q + r4, q, r4);
  }

  /** Setting a clear bit of a three-bit value keeps the other bits. */
  lemma SetLowBit(r: int, bit: int)
    requires 0 <= r < 8 && IsFlag(bit) && !HasBit(r, bit)
    ensures r + bit < 8 && HasBit(r + bit, bit)
    ensures (bit != 1 ==> (HasBit(r + bit, 1) <==> HasBit(r, 1))) &&
            (bit != 2 ==> (HasBit(r + bit, 2) <==> HasBit(r, 2))) &&
            (bit != 4 ==> (HasBit(r + bit, 4) <==> HasBit(r, 4)))
  {
    assert r == 0 || r == 1 || r == 2 || r == 3 || r == 4 || r == 5 || r == 6 || r == 7;
  }

  lemma SetBitFacts(v: int, bit: int)
    requires IsFlag(bit)
    ensures !HasBit(v, bit) ==> v + bit <= 8 * (v / 8) + 7
    ensures var r := if HasBit(v, bit) then v else v + bit;
      HasBit(r, bit) && r != 0 &&
      (bit != 1 ==> (HasBit(r, 1) <==> HasBit(v, 1))) &&
      (bit != 2 ==> (HasBit(r, 2) <==> HasBit(v, 2))) &&
      (bit != 4 ==> (HasBit(r, 4) <==> HasBit(v, 4)))
  {
    var q, r := v / 8, v % 8;
    LowBits(v, q, r);
    if !HasBit(v, bit) {
      SetLowBit(r, bit);
      LowBits(v + bit, q, r + bit);
    }
  }
}
