/** The small index, colour and atomic helpers shared by every stage of the
    detector: modular label reduction, border clamps, the per-channel colour
    tolerance tests, single-pixel copies and the atomic min/max updates. */
module PixelOps {
  import opened Numerics
  import opened Raster

  /** Reduces a label in `[0, 2*mod)` to a pixel index: labels `n + i` of
      unassigned pixels map back to `i`. */
  function ModOverflow(i: int32, mod: int32): (r: int32)
    ensures 0 <= i < 2 * mod ==> 0 <= r < mod && r == i % mod
    ensures i < mod ==> r == i
  {
    ReduceOnce(i, mod);
    if i >= mod then Wrap32(i - mod) else i
  }

  lemma ReduceOnce(i: int, mod: int)
    ensures 0 <= i < mod ==> i % mod == i
    ensures 0 < mod <= i < 2 * mod ==> i % mod == i - mod
  {
    if 0 <= i < mod {
      ModUnique(i, 0, i, mod);
    } else if 0 < mod <= i < 2 * mod {
      ModUnique(i, 1, i - mod, mod);
    }
  }

  /** Moves the first and last index of `[0, max)` one step inward, so that a
      3x3 stencil centred on the result stays inside the image. `max - 1` and
      `max - 2` are 32-bit: at `max == int.MinValue + 1` the value
      `int.MinValue` is taken for the last index and moved to `int.MaxValue`. */
  function Clamp(value: int32, max: int32): (r: int32)
    ensures !(max == IntMin + 1 && value == IntMin) ==> Abs(r - value) <= 1
    ensures max == IntMin + 1 && value == IntMin ==> r == IntMax
    ensures max >= 3 && 0 <= value < max ==> 1 <= r <= max - 2
    ensures 1 <= value < max - 1 ==> r == value
  {
    WrapClosed(max - 1);
    WrapClosed(max - 2);
    if value == 0 then 1
    else if value == Wrap32(max - 1) then Wrap32(max - 2)
    else value
  }

  /** The index of `[0, length)` nearest to `i`. An empty range has no
      index: a non-negative `i` then gives `length - 1` (wrapped), which for
      `length > int.MinValue` is negative. */
  function ClampToEdge(i: int32, length: int32): (r: int32)
    ensures length >= 1 ==> 0 <= r < length
    ensures 0 <= i < length ==> r == i
    ensures IntMin < length <= 0 && 0 <= i ==> r == length - 1 < 0
  {
    if i < 0 then 0
    else if i >= length then Wrap32(length - 1)
    else i
  }

  /** No index of `[0, length)` is nearer to `i` than the clamped one. */
  lemma ClampToEdgeNearest(i: int32, length: int32, j: int)
    requires 0 <= j < length
    ensures Abs(ClampToEdge(i, length) - i) <= Abs(j - i)
  {
  }

  // ---------------------------------------------------------------------------
  // Atomic updates. In the source these are compare-and-swap retry loops on a
  // `ref int`; run by one thread the first compare-and-swap always succeeds, so
  // each call stores `min` (or `max`) of the old value and the proposal. The
  // `ref` location is modelled as the value passed in and the value returned
  // to be stored back.
  // ---------------------------------------------------------------------------

  method AtomicMin(location: int32, next: int32) returns (stored: int32)
    ensures stored <= location && stored <= next
    ensures stored == location || stored == next
    ensures next >= location ==> stored == location
  {
    var current := location;
    var proposed := Min(current, next);
    if current == proposed {
      return current;
    }
    // Interlocked.CompareExchange: no other writer, so the exchange succeeds.
    stored := proposed;
  }

  method AtomicMax(location: int32, next: int32) returns (stored: int32)
    ensures stored >= location && stored >= next
    ensures stored == location || stored == next
    ensures next <= location ==> stored == location
  {
    var current := location;
    var proposed := Max(current, next);
    if current == proposed {
      return current;
    }
    stored := proposed;
  }

  // ---------------------------------------------------------------------------
  // Colour tolerance tests. Every overload walks the channels in order and
  // stops at the first channel whose absolute difference exceeds the tolerance.
  // ---------------------------------------------------------------------------

  /** Every one of the first `channels` channels differs by at most `tolerance`. */
  ghost predicate WithinTolerance(p0: seq<int>, p1: seq<int>, channels: nat, tolerance: int)
    requires channels <= |p0| && channels <= |p1|
  {
    forall c :: 0 <= c < channels ==> Abs(p0[c] - p1[c]) <= tolerance
  }

  /** All channels from `c` on agree within `tolerance`; the early-exit walk. */
  function ChannelsAgreeFrom(p0: seq<int>, p1: seq<int>, tolerance: int, c: nat): bool
    requires |p0| == |p1| && c <= |p0|
    decreases |p0| - c
  {
    if c == |p0| then true
    else if Abs(p0[c] - p1[c]) > tolerance then false
    else ChannelsAgreeFrom(p0, p1, tolerance, c + 1)
  }

  lemma {:induction false} ChannelsAgreeFromSpec(p0: seq<int>, p1: seq<int>, tolerance: int, c: nat)
    requires |p0| == |p1| && c <= |p0|
    ensures ChannelsAgreeFrom(p0, p1, tolerance, c) <==>
            forall k :: c <= k < |p0| ==> Abs(p0[k] - p1[k]) <= tolerance
    decreases |p0| - c
  {
    if c < |p0| {
      ChannelsAgreeFromSpec(p0, p1, tolerance, c + 1);
    }
  }

  /** Two pixels of `channels` channels agree within the tolerance. */
  function SameColor(p0: seq<int>, p1: seq<int>, channels: nat, tolerance: int): (r: bool)
    requires channels <= |p0| && channels <= |p1|
    ensures r <==> WithinTolerance(p0, p1, channels, tolerance)
  {
    ChannelsAgreeFromSpec(p0[..channels], p1[..channels], tolerance, 0);
    assert forall c :: 0 <= c < channels ==> p0[..channels][c] == p0[c] && p1[..channels][c] == p1[c];
    ChannelsAgreeFrom(p0[..channels], p1[..channels], tolerance, 0)
  }

  /** `IsSameColor(byte[] source, channels, i1, i2, tolerance)`: two pixels of
      one buffer, compared channel by channel in place; its meaning is
      `IsSameColorInBufferSpec`. */
  function IsSameColorInBuffer(source: seq<byte>, channels: nat, i1: nat, i2: nat, tolerance: int): bool
    requires i1 + channels <= |source| && i2 + channels <= |source|
  {
    BufferAgreeFrom(source, channels, i1, i2, tolerance, 0)
  }

  /** Channels `c` and on of the pixels at `i1` and `i2` agree; the early-exit walk. */
  function BufferAgreeFrom(source: seq<byte>, channels: nat, i1: nat, i2: nat, tolerance: int, c: nat): bool
    requires i1 + channels <= |source| && i2 + channels <= |source| && c <= channels
    decreases channels - c
  {
    if c == channels then true
    else if Abs(source[i1 + c] as int - source[i2 + c] as int) > tolerance then false
    else BufferAgreeFrom(source, channels, i1, i2, tolerance, c + 1)
  }

  /** The in-place walk is the walk over the two pixels cut out of the buffer. */
  lemma {:induction false} BufferAgreeFromSlices(source: seq<byte>, channels: nat, i1: nat, i2: nat, tolerance: int, c: nat)
    requires i1 + channels <= |source| && i2 + channels <= |source| && c <= channels
    ensures BufferAgreeFrom(source, channels, i1, i2, tolerance, c) ==
            ChannelsAgreeFrom(source[i1..i1 + channels], source[i2..i2 + channels], tolerance, c)
    decreases channels - c
  {
    if c < channels {
      BufferAgreeFromSlices(source, channels, i1, i2, tolerance, c + 1);
      assert source[i1..i1 + channels][c] == source[i1 + c] && source[i2..i2 + channels][c] == source[i2 + c];
    }
  }

  /** The two pixels of the buffer agree within the tolerance on every channel. */
  lemma IsSameColorInBufferSpec(source: seq<byte>, channels: nat, i1: nat, i2: nat, tolerance: int)
    requires i1 + channels <= |source| && i2 + channels <= |source|
    ensures IsSameColorInBuffer(source, channels, i1, i2, tolerance) <==>
            WithinTolerance(source[i1..i1 + channels], source[i2..i2 + channels], channels, tolerance)
  {
    var p0, p1 := source[i1..i1 + channels], source[i2..i2 + channels];
    BufferAgreeFromSlices(source, channels, i1, i2, tolerance, 0);
    assert p0[..channels] == p0 && p1[..channels] == p1;
    assert SameColor(p0, p1, channels, tolerance) == ChannelsAgreeFrom(p0, p1, tolerance, 0);
  }

  /** `IsSameColor(Span<byte> pixel, byte[] other, channels, i1, tolerance)`. */
  function IsSameColorAt(pixel: seq<byte>, other: seq<byte>, channels: nat, i1: nat, tolerance: int): (r: bool)
    requires channels <= |pixel| && i1 + channels <= |other|
    ensures r <==> WithinTolerance(pixel, other[i1..i1 + channels], channels, tolerance)
  {
    SameColor(pixel, other[i1..i1 + channels], channels, tolerance)
  }

  /** `IsSameColor(Span<byte> p0, Span<byte> p1, channels, tolerance)`. */
  function IsSameColorPixels(p0: seq<byte>, p1: seq<byte>, channels: nat, tolerance: int): (r: bool)
    requires channels <= |p0| && channels <= |p1|
    ensures r <==> WithinTolerance(p0, p1, channels, tolerance)
  {
    SameColor(p0, p1, channels, tolerance)
  }

  /** `IsSameColor(Span<byte> pixel, int[] other, channels, i1, tolerance)`. The
      difference of a byte and an `int` is formed in 32 bits, so it wraps for
      values of `other` near `int.MinValue`; the model requires values far
      enough from it that neither the subtraction nor `Math.Abs` overflows. */
  function IsSameColorInts(pixel: seq<byte>, other: seq<int32>, channels: nat, i1: nat, tolerance: int): (r: bool)
    requires channels <= |pixel| && i1 + channels <= |other|
    requires forall k :: i1 <= k < i1 + channels ==> other[k] > IntMin + 0xFF
    ensures r <==> WithinTolerance(pixel, other[i1..i1 + channels], channels, tolerance)
  {
    SameColor(pixel, other[i1..i1 + channels], channels, tolerance)
  }

  /** Channel `j` is the first channel from `c` on whose difference exceeds the tolerance. */
  ghost predicate FirstOverTolerance(p0: seq<int>, p1: seq<int>, c: nat, j: nat, tolerance: int)
    requires c <= j < |p0| && j < |p1|
  {
    Abs(p0[j] - p1[j]) > tolerance && forall k :: c <= k < j ==> Abs(p0[k] - p1[k]) <= tolerance
  }

  /** Sum of the channel differences over channels `[0, k)`. */
  function DifferenceSum(p0: seq<int>, p1: seq<int>, k: nat): (r: nat)
    requires k <= |p0| && k <= |p1|
  {
    if k == 0 then 0 else DifferenceSum(p0, p1, k - 1) + Abs(p0[k - 1] - p1[k - 1])
  }

  /** The difference-accumulating walk from channel `c`, with `acc` the sum over `[0, c)`. */
  function AgreeWithDifferenceFrom(p0: seq<int>, p1: seq<int>, channels: nat, tolerance: int, c: nat, acc: int): (bool, int)
    requires channels <= |p0| && channels <= |p1| && c <= channels
    decreases channels - c
  {
    if c == channels then (true, acc)
    else
      var diff := Abs(p0[c] - p1[c]);
      if diff > tolerance then (false, acc)
      else AgreeWithDifferenceFrom(p0, p1, channels, tolerance, c + 1, acc + diff)
  }

  lemma {:induction false} AgreeWithDifferenceFromSpec(p0: seq<int>, p1: seq<int>, channels: nat, tolerance: int, c: nat)
    requires channels <= |p0| && channels <= |p1| && c <= channels
    ensures var (same, difference) := AgreeWithDifferenceFrom(p0, p1, channels, tolerance, c, DifferenceSum(p0, p1, c));
      (same <==> forall k :: c <= k < channels ==> Abs(p0[k] - p1[k]) <= tolerance) &&
      (same ==> difference == DifferenceSum(p0, p1, channels)) &&
      (!same ==> exists j :: c <= j < channels && FirstOverTolerance(p0, p1, c, j, tolerance) &&
                   difference == DifferenceSum(p0, p1, j))
    decreases channels - c
  {
    if c < channels && Abs(p0[c] - p1[c]) <= tolerance {
      AgreeWithDifferenceFromSpec(p0, p1, channels, tolerance, c + 1);
    }
  }

  /** `IsSameColor(p0, p1, channels, tolerance, out colorDifference)`: the
      verdict, and the sum of the absolute channel differences up to (not
      including) the first channel over the tolerance, or over all channels
      when every channel agrees. */
  function IsSameColorWithDifference(p0: seq<byte>, p1: seq<byte>, channels: nat, tolerance: int): (r: (bool, int))
    requires channels <= |p0| && channels <= |p1|
    ensures r.0 <==> WithinTolerance(p0, p1, channels, tolerance)
    ensures r.0 ==> r.1 == DifferenceSum(p0, p1, channels)
    ensures !r.0 ==> exists j :: 0 <= j < channels && FirstOverTolerance(p0, p1, 0, j, tolerance) &&
                       r.1 == DifferenceSum(p0, p1, j)
  {
    AgreeWithDifferenceFromSpec(p0, p1, channels, tolerance, 0);
    AgreeWithDifferenceFrom(p0, p1, channels, tolerance, 0, 0)
  }

  /** When the pixels agree, the accumulated difference is at most
      `channels * tolerance`. */
  lemma {:induction false} DifferenceBound(p0: seq<int>, p1: seq<int>, k: nat, tolerance: int)
    requires k <= |p0| && k <= |p1|
    requires WithinTolerance(p0, p1, k, tolerance)
    ensures DifferenceSum(p0, p1, k) <= k * tolerance
  {
    if k > 0 {
      assert WithinTolerance(p0, p1, k - 1, tolerance);
      DifferenceBound(p0, p1, k - 1, tolerance);
      assert k * tolerance == (k - 1) * tolerance + tolerance;
    }
  }

  /** `PixelAt`: copies the `channels` bytes of pixel `(x, y)` of a row-major
      interleaved buffer into `pixel`. */
  method PixelAt(pixel: array<byte>, source: array<byte>, channels: nat, width: nat, x: nat, y: nat)
    requires channels <= pixel.Length
    requires Offset(y, x, channels, width, channels) <= source.Length
    requires pixel != source
    modifies pixel
    ensures var d := Offset(y, x, 0, width, channels);
      pixel[..channels] == source[d..d + channels]
    ensures pixel[channels..] == old(pixel[channels..])
  {
    var d := Offset(y, x, 0, width, channels);
    var c := 0;
    while c < channels
      invariant 0 <= c <= channels
      invariant forall k :: 0 <= k < c ==> pixel[k] == source[d + k]
      invariant forall k :: channels <= k < pixel.Length ==> pixel[k] == old(pixel[k])
    {
      pixel[c] := source[d + c];
      c := c + 1;
    }
    assert pixel[..channels] == source[d..d + channels];
    assert pixel[channels..] == old(pixel[channels..]);
  }
}
