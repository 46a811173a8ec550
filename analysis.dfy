/** The integer part of `ComponentAnalysis`: the pixels of a labelling are
    gathered into component records, in scan order.

    Pixel `i` takes part when its label `l = coloring[i]` is below the pixel
    count `n` and is not `i` itself (a pixel labelled with its own index is
    the root of its component; it is added when the records are finished).
    The first taking pixel with a new label opens the next component, so the
    components are numbered 0, 1, ... in first-seen order, and the scan gives
    up as soon as a component would be numbered `componentsLimit`. Every
    taking pixel counts towards its component's `Size`; only pixels that
    leave `Size` below `componentSizeLimit` are kept: a kept pixel with a
    stroke width is a sample (stored at `ci * componentSizeLimit + SwtSize`),
    and every kept pixel widens the bounding box and adds to the channel sums.

    The functions below give the records in closed form for the pixels before
    a scan position, `Visit` is one step of the scan, and `Summarises` ties a
    state of the buffers to the closed forms. */
module Analysis {
  import opened Numerics
  import opened Raster
  import opened ComponentRecord
  import opened Labelling

  /** What the analysis reads: image size, colour source, stroke widths,
      labelling, source channel count, `componentsLimit` and
      `componentSizeLimit`. */
  datatype Frame = Frame(w: nat, h: nat, source: seq<byte>, swt: seq<int32>, coloring: seq<int32>,
                         channels: nat, limit: nat, sizeLimit: nat)

  /** The buffers cover the image, an array has fewer than `int.MaxValue`
      entries, labels index `componentIndexByColoring` (they are not negative),
      the channel sums have a slot per source channel, and the sample slots of
      a component hold at least the root; the limits are `int` values. */
  predicate Fits(F: Frame)
  {
    |F.coloring| == Times(F.h, F.w) < IntMax && |F.swt| == |F.coloring| &&
    Offset(F.h, 0, 0, F.w, F.channels) <= |F.source| && F.channels <= ChannelSlots &&
    F.limit <= IntMax && 1 <= F.sizeLimit <= IntMax &&
    forall k :: 0 <= k < |F.coloring| ==> 0 <= F.coloring[k]
  }

  /** A scan position: just before pixel (x, y), with (w, y) the end of row
      `y`, or (0, h) after the last row. */
  predicate Pos(F: Frame, y: nat, x: nat)
  {
    (y < F.h && x <= F.w) || (y == F.h && x == 0)
  }

  function Label(F: Frame, y: nat, x: nat): (l: int32)
    requires Fits(F) && y < F.h && x < F.w
    ensures 0 <= l
  {
    FlatBound(y, x, F.w, F.h);
    F.coloring[Flat(y, x, F.w)]
  }

  function StrokeAt(F: Frame, y: nat, x: nat): int32
    requires Fits(F) && y < F.h && x < F.w
  {
    FlatBound(y, x, F.w, F.h);
    F.swt[Flat(y, x, F.w)]
  }

  /** The pixel takes part: its label names a pixel other than itself. */
  predicate Takes(F: Frame, y: nat, x: nat)
    requires Fits(F) && y < F.h && x < F.w
  {
    Label(F, y, x) < |F.coloring| && Label(F, y, x) != Flat(y, x, F.w)
  }

  lemma {:induction false} TimesAtLeast(a: nat, b: nat)
    requires b >= 1
    ensures Times(a, b) >= a
  {
    if a > 0 {
      TimesAtLeast(a - 1, b);
    }
  }

  /** The coordinates of a pixel are below the pixel count, so they fit `int`. */
  lemma CoordsFit(F: Frame, y: nat, x: nat)
    requires Fits(F) && y < F.h && x < F.w
    ensures x < |F.coloring| && y < |F.coloring| && Flat(y, x, F.w) < |F.coloring|
  {
    FlatBound(y, x, F.w, F.h);
    TimesAtLeast(F.h, F.w);
  }

  /** Channel `ch` of pixel (x, y) of the source. */
  function PixelByte(F: Frame, y: nat, x: nat, ch: nat): byte
    requires Fits(F) && y < F.h && x < F.w && ch < F.channels
  {
    PixelInImage(y, x, F.w, F.h, F.channels);
    F.source[Offset(y, x, ch, F.w, F.channels)]
  }

  // ---------------------------------------------------------------------------
  // The records in closed form, for the pixels before scan position (x, y).
  // ---------------------------------------------------------------------------

  /** Labels of the taking pixels, each once, in the order they first appear. */
  function FirstSeen(F: Frame, y: nat, x: nat): seq<int32>
    requires Fits(F) && Pos(F, y, x)
    decreases y, x
  {
    if x > 0 then
      var f := FirstSeen(F, y, x - 1);
      if Takes(F, y, x - 1) && Label(F, y, x - 1) !in f then f + [Label(F, y, x - 1)] else f
    else if y == 0 then []
    else FirstSeen(F, y - 1, F.w)
  }

  /** The number of taking pixels with label `l`. */
  function Occ(F: Frame, y: nat, x: nat, l: int): nat
    requires Fits(F) && Pos(F, y, x)
    decreases y, x
  {
    if x > 0 then Occ(F, y, x - 1, l) + (if Takes(F, y, x - 1) && Label(F, y, x - 1) == l then 1 else 0)
    else if y == 0 then 0
    else Occ(F, y - 1, F.w, l)
  }

  /** The pixel is kept: it takes part and leaves its component's size below
      `componentSizeLimit`. */
  predicate Kept(F: Frame, y: nat, x: nat)
    requires Fits(F) && y < F.h && x < F.w
  {
    Takes(F, y, x) && Occ(F, y, x + 1, Label(F, y, x)) < F.sizeLimit
  }

  /** A kept pixel of label `l` with a stroke width: a sample of `l`. */
  predicate Sampled(F: Frame, y: nat, x: nat, l: int)
    requires Fits(F) && y < F.h && x < F.w
  {
    Kept(F, y, x) && Label(F, y, x) == l && StrokeAt(F, y, x) < IntMax
  }

  /** The pixel indices of the samples of `l`, in scan order. */
  function Samples(F: Frame, y: nat, x: nat, l: int): seq<int>
    requires Fits(F) && Pos(F, y, x)
    decreases y, x
  {
    if x > 0 then Samples(F, y, x - 1, l) + (if Sampled(F, y, x - 1, l) then [Flat(y, x - 1, F.w)] else [])
    else if y == 0 then []
    else Samples(F, y - 1, F.w, l)
  }

  /** The stroke widths of the samples of `l`, in scan order. */
  function SampleWidths(F: Frame, y: nat, x: nat, l: int): seq<int32>
    requires Fits(F) && Pos(F, y, x)
    decreases y, x
  {
    if x > 0 then SampleWidths(F, y, x - 1, l) + (if Sampled(F, y, x - 1, l) then [StrokeAt(F, y, x - 1)] else [])
    else if y == 0 then []
    else SampleWidths(F, y - 1, F.w, l)
  }

  /** The exact sum of the sample widths of `l`. */
  function SwtTotal(F: Frame, y: nat, x: nat, l: int): int
    requires Fits(F) && Pos(F, y, x)
    decreases y, x
  {
    if x > 0 then SwtTotal(F, y, x - 1, l) + (if Sampled(F, y, x - 1, l) then StrokeAt(F, y, x - 1) as int else 0)
    else if y == 0 then 0
    else SwtTotal(F, y - 1, F.w, l)
  }

  /** A bounding box `X0..X1` by `Y0..Y1`; the empty box has `X0`, `Y0` at
      `int.MaxValue` and `X1`, `Y1` at `int.MinValue`. */
  datatype Box = Box(x0: int32, x1: int32, y0: int32, y1: int32)

  const NoBox: Box := Box(IntMax, IntMin, IntMax, IntMin)

  /** The bounding box of the kept pixels of `l`. */
  function BoxOf(F: Frame, y: nat, x: nat, l: int): Box
    requires Fits(F) && Pos(F, y, x)
    decreases y, x
  {
    if x > 0 then
      var b := BoxOf(F, y, x - 1, l);
      if Kept(F, y, x - 1) && Label(F, y, x - 1) == l then
        CoordsFit(F, y, x - 1);
        Box(Min(b.x0, x - 1), Max(b.x1, x - 1), Min(b.y0, y), Max(b.y1, y))
      else b
    else if y == 0 then NoBox
    else BoxOf(F, y - 1, F.w, l)
  }

  /** The exact sum of channel `ch` over the kept pixels of `l`. */
  function ChannelTotal(F: Frame, y: nat, x: nat, l: int, ch: nat): int
    requires Fits(F) && Pos(F, y, x) && ch < F.channels
    decreases y, x
  {
    if x > 0 then
      ChannelTotal(F, y, x - 1, l, ch) +
        (if Kept(F, y, x - 1) && Label(F, y, x - 1) == l then PixelByte(F, y, x - 1, ch) as int else 0)
    else if y == 0 then 0
    else ChannelTotal(F, y - 1, F.w, l, ch)
  }

  /** Slot `ch` of the channel sums of `l`: the wrapped total for a source
      channel, 0 for an unused slot. */
  function ChannelSumAt(F: Frame, y: nat, x: nat, l: int, ch: nat): int32
    requires Fits(F) && Pos(F, y, x)
  {
    if ch < F.channels then Wrap32(ChannelTotal(F, y, x, l, ch)) else 0
  }

  function ChannelSums(F: Frame, y: nat, x: nat, l: int): (r: seq<int32>)
    requires Fits(F) && Pos(F, y, x)
    ensures |r| == ChannelSlots
  {
    [ChannelSumAt(F, y, x, l, 0), ChannelSumAt(F, y, x, l, 1), ChannelSumAt(F, y, x, l, 2), ChannelSumAt(F, y, x, l, 3)]
  }

  /** The record of the component of label `l`. */
  function Expected(F: Frame, y: nat, x: nat, l: int32): Component
    requires Fits(F) && Pos(F, y, x)
  {
    PositionsFit(F, y, x);
    OccBound(F, y, x, l);
    SamplesBound(F, y, x, l);
    var b := BoxOf(F, y, x, l);
    Initialized().(Coloring := l, Size := Occ(F, y, x, l), SwtSize := |Samples(F, y, x, l)|,
                   SwtSum := Wrap32(SwtTotal(F, y, x, l)), X0 := b.x0, X1 := b.x1, Y0 := b.y0, Y1 := b.y1,
                   ChannelSum := ChannelSums(F, y, x, l))
  }

  /** Scan positions count at most the pixels. */
  lemma PositionsFit(F: Frame, y: nat, x: nat)
    requires Fits(F) && Pos(F, y, x)
    ensures Flat(y, x, F.w) <= |F.coloring|
  {
    if y < F.h {
      TimesMonotone(y + 1, F.h, F.w);
    }
  }

  lemma {:induction false} OccBound(F: Frame, y: nat, x: nat, l: int)
    requires Fits(F) && Pos(F, y, x)
    ensures Occ(F, y, x, l) <= Flat(y, x, F.w)
    decreases y, x
  {
    if x > 0 {
      OccBound(F, y, x - 1, l);
    } else if y > 0 {
      OccBound(F, y - 1, F.w, l);
    }
  }

  /** There are as many sample widths as samples, and no more samples than
      pixels of the label, and those below the size limit. */
  lemma {:induction false} SamplesBound(F: Frame, y: nat, x: nat, l: int)
    requires Fits(F) && Pos(F, y, x)
    ensures |SampleWidths(F, y, x, l)| == |Samples(F, y, x, l)| <= Occ(F, y, x, l)
    ensures |Samples(F, y, x, l)| < F.sizeLimit
    decreases y, x
  {
    if x > 0 {
      SamplesBound(F, y, x - 1, l);
      if Sampled(F, y, x - 1, l) {
        SampleBelowLimit(F, y, x - 1, l);
      }
    } else if y > 0 {
      SamplesBound(F, y - 1, F.w, l);
    }
  }

  /** The samples of a label before a kept pixel of it are fewer than the
      pixels before it. */
  lemma SampleBelowLimit(F: Frame, y: nat, x: nat, l: int)
    requires Fits(F) && y < F.h && x < F.w && Kept(F, y, x) && Label(F, y, x) == l
    requires |Samples(F, y, x, l)| <= Occ(F, y, x, l)
    ensures |Samples(F, y, x, l)| + 1 < F.sizeLimit
  {
  }

  /** The samples are pixels before (x, y), in increasing scan order. */
  lemma {:induction false} SamplesInOrder(F: Frame, y: nat, x: nat, l: int)
    requires Fits(F) && Pos(F, y, x)
    ensures forall k :: 0 <= k < |Samples(F, y, x, l)| ==> 0 <= Samples(F, y, x, l)[k] < Flat(y, x, F.w)
    ensures forall i, k :: 0 <= i < k < |Samples(F, y, x, l)| ==> Samples(F, y, x, l)[i] < Samples(F, y, x, l)[k]
    decreases y, x
  {
    if x > 0 {
      SamplesInOrder(F, y, x - 1, l);
    } else if y > 0 {
      SamplesInOrder(F, y - 1, F.w, l);
    }
  }

  // ---------------------------------------------------------------------------
  // One step of the scan.
  // ---------------------------------------------------------------------------

  /** The buffers of the scan: `componentIndexByColoring`, the components,
      `componentItems`, `componentSwtItems`, and the counter `count` (the
      number of components opened, less one). */
  datatype Tally = Tally(index: seq<int32>, comps: seq<Component>, items: seq<int32>, swtItems: seq<int32>, count: int)

  /** Entry `m` of the sample slots of component `j`: `j * sizeLimit + m`. */
  function Slot(j: nat, m: nat, L: nat, limit: nat): (p: nat)
    requires j < limit && m < L
    ensures p < Times(limit, L)
  {
    TimesMonotone(j + 1, limit, L);
    Times(j, L) + m
  }

  /** The component the pixel with label `l` goes to: its own or the next. */
  function Target(t: Tally, l: int): int
    requires 0 <= l < |t.index|
  {
    if t.index[l] == -1 then t.count + 1 else t.index[l]
  }

  /** The buffers are large enough for the scan. */
  predicate Shaped(F: Frame, t: Tally)
  {
    |t.index| >= |F.coloring| && F.limit <= |t.comps| &&
    Times(F.limit, F.sizeLimit) <= |t.items| && Times(F.limit, F.sizeLimit) <= |t.swtItems|
  }

  /** A component's counters have room for one more pixel. */
  predicate Roomy(c: Component)
  {
    0 <= c.SwtSize <= c.Size < IntMax && |c.ChannelSum| == ChannelSlots
  }

  /** The scan stops at the pixel: it would open component `componentsLimit`. */
  predicate Stopping(F: Frame, t: Tally, y: nat, x: nat)
    requires Fits(F) && y < F.h && x < F.w && Shaped(F, t)
  {
    Takes(F, y, x) && t.index[Label(F, y, x)] == -1 && t.count + 1 >= F.limit
  }

  /** The scan goes on at the pixel: its component exists or can be opened,
      and has room. */
  predicate Ready(F: Frame, t: Tally, y: nat, x: nat)
    requires Fits(F) && y < F.h && x < F.w
  {
    Shaped(F, t) &&
    (Takes(F, y, x) ==>
      -1 <= t.index[Label(F, y, x)] && 0 <= Target(t, Label(F, y, x)) < F.limit &&
      Roomy(t.comps[Target(t, Label(F, y, x))]) &&
      (t.index[Label(F, y, x)] == -1 ==> t.comps[t.count + 1] == Initialized()))
  }

  /** Channel slot `ch` after adding pixel (x, y). */
  function AddChannel(F: Frame, sums: seq<int32>, y: nat, x: nat, ch: nat): int32
    requires Fits(F) && y < F.h && x < F.w && ch < |sums|
  {
    if ch < F.channels then Wrap32(sums[ch] + PixelByte(F, y, x, ch)) else sums[ch]
  }

  function AddPixel(F: Frame, sums: seq<int32>, y: nat, x: nat): (r: seq<int32>)
    requires Fits(F) && y < F.h && x < F.w && |sums| == ChannelSlots
    ensures |r| == ChannelSlots
  {
    [AddChannel(F, sums, y, x, 0), AddChannel(F, sums, y, x, 1), AddChannel(F, sums, y, x, 2), AddChannel(F, sums, y, x, 3)]
  }

  /** The pixel goes in as a sample: it is below the size limit and has a
      stroke width. */
  predicate TakesSample(F: Frame, c: Component, y: nat, x: nat)
    requires Fits(F) && y < F.h && x < F.w
  {
    c.Size + 1 < F.sizeLimit && StrokeAt(F, y, x) < IntMax
  }

  /** The record of the pixel's component after the pixel: `Size` counts it;
      below the size limit it widens the box, adds to the channel sums and,
      with a stroke width, to `SwtSize` and `SwtSum`. */
  function Bump(F: Frame, c: Component, y: nat, x: nat): Component
    requires Fits(F) && y < F.h && x < F.w && Roomy(c)
  {
    var size := c.Size + 1;
    if size >= F.sizeLimit then c.(Size := size)
    else
      CoordsFit(F, y, x);
      var c1 := c.(Size := size, X0 := Min(c.X0, x), X1 := Max(c.X1, x), Y0 := Min(c.Y0, y), Y1 := Max(c.Y1, y),
                   ChannelSum := AddPixel(F, c.ChannelSum, y, x));
      if StrokeAt(F, y, x) < IntMax then
        c1.(SwtSize := c.SwtSize + 1, SwtSum := Wrap32(c.SwtSum + StrokeAt(F, y, x)))
      else c1
  }

  /** A new component for label `l`. */
  function Open(t: Tally, l: int32): Tally
    requires 0 <= l < |t.index| && 0 <= t.count + 1 < |t.comps| && t.count < IntMax
  {
    t.(count := t.count + 1, index := t.index[l := t.count + 1],
       comps := t.comps[t.count + 1 := t.comps[t.count + 1].(Coloring := l)])
  }

  /** Pixel (x, y) added to component `ci`: its record is bumped and a sample
      goes to slot `SwtSize` of the component. */
  function Count(F: Frame, t: Tally, ci: nat, y: nat, x: nat): Tally
    requires Fits(F) && y < F.h && x < F.w && Shaped(F, t) && ci < F.limit && Roomy(t.comps[ci])
  {
    var c := t.comps[ci];
    var t1 := t.(comps := t.comps[ci := Bump(F, c, y, x)]);
    if TakesSample(F, c, y, x) then
      CoordsFit(F, y, x);
      var p := Slot(ci, c.SwtSize + 1, F.sizeLimit, F.limit);
      t1.(items := t.items[p := Flat(y, x, F.w)], swtItems := t.swtItems[p := StrokeAt(F, y, x)])
    else t1
  }

  /** The scan's visit of pixel (x, y). */
  function Visit(F: Frame, t: Tally, y: nat, x: nat): Tally
    requires Fits(F) && y < F.h && x < F.w && Ready(F, t, y, x)
  {
    if !Takes(F, y, x) then t
    else
      var l := Label(F, y, x);
      var ci := Target(t, l);
      var t1 := if t.index[l] == -1 then Open(t, l) else t;
      Count(F, t1, ci, y, x)
  }

  // ---------------------------------------------------------------------------
  // Dense first-seen numbering.
  // ---------------------------------------------------------------------------

  /** Position of `l` in `f`, or -1 when `l` is not in `f`. */
  function Position(f: seq<int32>, l: int): int
  {
    if f == [] then -1
    else
      var p := Position(f[..|f| - 1], l);
      if p == -1 && f[|f| - 1] == l then |f| - 1 else p
  }

  lemma {:induction false} PositionSpec(f: seq<int32>, l: int)
    ensures -1 <= Position(f, l) < |f|
    ensures Position(f, l) == -1 <==> l !in f
    ensures Position(f, l) >= 0 ==> f[Position(f, l)] == l && l !in f[..Position(f, l)]
  {
    if f != [] {
      var g := f[..|f| - 1];
      PositionSpec(g, l);
      assert f == g + [f[|f| - 1]];
      var p := Position(g, l);
      if p >= 0 {
        assert f[..p] == g[..p];
      }
    }
  }

  lemma PositionAppend(f: seq<int32>, a: int32, l: int)
    ensures Position(f + [a], l) == if l in f then Position(f, l) else if l == a then |f| else -1
  {
    assert (f + [a])[..|f|] == f;
    PositionSpec(f, l);
  }

  predicate Distinct(f: seq<int32>)
  {
    forall i, j :: 0 <= i < j < |f| ==> f[i] != f[j]
  }

  /** In a list without repeats, each entry's position is its index. */
  lemma PositionOfDistinct(f: seq<int32>, j: nat)
    requires Distinct(f) && j < |f|
    ensures Position(f, f[j]) == j
  {
    PositionSpec(f, f[j]);
  }

  /** The labels seen are exactly those of the taking pixels so far. */
  lemma {:induction false} SeenIffTaken(F: Frame, y: nat, x: nat, l: int)
    requires Fits(F) && Pos(F, y, x)
    ensures l in FirstSeen(F, y, x) <==> Occ(F, y, x, l) > 0
    decreases y, x
  {
    if x > 0 {
      SeenIffTaken(F, y, x - 1, l);
    } else if y > 0 {
      SeenIffTaken(F, y - 1, F.w, l);
    }
  }

  /** Each label is seen once, and it names a pixel. */
  lemma {:induction false} FirstSeenDistinct(F: Frame, y: nat, x: nat)
    requires Fits(F) && Pos(F, y, x)
    ensures Distinct(FirstSeen(F, y, x))
    ensures forall k :: 0 <= k < |FirstSeen(F, y, x)| ==> 0 <= FirstSeen(F, y, x)[k] < |F.coloring|
    decreases y, x
  {
    if x > 0 {
      FirstSeenDistinct(F, y, x - 1);
    } else if y > 0 {
      FirstSeenDistinct(F, y - 1, F.w);
    }
  }

  /** Scan position (x1, y1) is not after (x2, y2). */
  predicate NotAfter(y1: nat, x1: nat, y2: nat, x2: nat)
  {
    y1 < y2 || (y1 == y2 && x1 <= x2)
  }

  /** Numbers once given are kept: the labels seen at a position are a
      prefix of those seen at any later position. */
  lemma {:induction false} FirstSeenPrefix(F: Frame, y1: nat, x1: nat, y2: nat, x2: nat)
    requires Fits(F) && Pos(F, y1, x1) && Pos(F, y2, x2) && NotAfter(y1, x1, y2, x2)
    ensures FirstSeen(F, y1, x1) <= FirstSeen(F, y2, x2)
    decreases y2, x2
  {
    if y1 == y2 && x1 == x2 {
    } else if x2 > 0 {
      FirstSeenPrefix(F, y1, x1, y2, x2 - 1);
    } else {
      FirstSeenPrefix(F, y1, x1, y2 - 1, F.w);
    }
  }

  // ---------------------------------------------------------------------------
  // The records, one pixel at a time.
  // ---------------------------------------------------------------------------

  /** A label without a taking pixel has an empty record. */
  lemma {:induction false} UnseenForms(F: Frame, y: nat, x: nat, l: int)
    requires Fits(F) && Pos(F, y, x) && Occ(F, y, x, l) == 0
    ensures Samples(F, y, x, l) == [] && SampleWidths(F, y, x, l) == [] && SwtTotal(F, y, x, l) == 0
    ensures BoxOf(F, y, x, l) == NoBox
    decreases y, x
  {
    if x > 0 {
      UnseenForms(F, y, x - 1, l);
    } else if y > 0 {
      UnseenForms(F, y - 1, F.w, l);
    }
  }

  lemma {:induction false} UnseenChannel(F: Frame, y: nat, x: nat, l: int, ch: nat)
    requires Fits(F) && Pos(F, y, x) && ch < F.channels && Occ(F, y, x, l) == 0
    ensures ChannelTotal(F, y, x, l, ch) == 0
    decreases y, x
  {
    if x > 0 {
      UnseenChannel(F, y, x - 1, l, ch);
    } else if y > 0 {
      UnseenChannel(F, y - 1, F.w, l, ch);
    }
  }

  /** The record of a label not seen yet is the initial record with the label. */
  lemma UnseenExpected(F: Frame, y: nat, x: nat, l: int32)
    requires Fits(F) && Pos(F, y, x) && Occ(F, y, x, l) == 0
    ensures Expected(F, y, x, l) == Initialized().(Coloring := l)
  {
    UnseenForms(F, y, x, l);
    UnseenSum(F, y, x, l, 0);
    UnseenSum(F, y, x, l, 1);
    UnseenSum(F, y, x, l, 2);
    UnseenSum(F, y, x, l, 3);
    assert ChannelSums(F, y, x, l) == [0, 0, 0, 0];
    assert Wrap32(SwtTotal(F, y, x, l)) == 0;
  }

  lemma UnseenSum(F: Frame, y: nat, x: nat, l: int32, ch: nat)
    requires Fits(F) && Pos(F, y, x) && Occ(F, y, x, l) == 0
    ensures ChannelSumAt(F, y, x, l, ch) == 0
  {
    if ch < F.channels {
      UnseenChannel(F, y, x, l, ch);
    }
  }

  lemma ExpectedRoomy(F: Frame, y: nat, x: nat, l: int32)
    requires Fits(F) && y < F.h && x < F.w
    ensures Roomy(Expected(F, y, x, l))
  {
    PositionsFit(F, y, x);
    FlatBound(y, x, F.w, F.h);
    OccBound(F, y, x, l);
    SamplesBound(F, y, x, l);
  }

  lemma ChannelSlotStep(F: Frame, y: nat, x: nat, l: int32, ch: nat)
    requires Fits(F) && y < F.h && x < F.w && Kept(F, y, x) && Label(F, y, x) == l && ch < ChannelSlots
    ensures ChannelSumAt(F, y, x + 1, l, ch) == AddChannel(F, ChannelSums(F, y, x, l), y, x, ch)
  {
    if ch < F.channels {
      WrapAdd(ChannelTotal(F, y, x, l, ch), PixelByte(F, y, x, ch));
    }
  }

  /** The channel sums after a kept pixel are the sums before it, bumped. */
  lemma ChannelStep(F: Frame, y: nat, x: nat, l: int32)
    requires Fits(F) && y < F.h && x < F.w && Kept(F, y, x) && Label(F, y, x) == l
    ensures ChannelSums(F, y, x + 1, l) == AddPixel(F, ChannelSums(F, y, x, l), y, x)
  {
    ChannelSlotStep(F, y, x, l, 0);
    ChannelSlotStep(F, y, x, l, 1);
    ChannelSlotStep(F, y, x, l, 2);
    ChannelSlotStep(F, y, x, l, 3);
  }

  /** The record of label `l` after pixel (x, y) is the record before it,
      bumped when the pixel takes part with label `l`, and unchanged
      otherwise. */
  lemma ExpectedStep(F: Frame, y: nat, x: nat, l: int32)
    requires Fits(F) && y < F.h && x < F.w
    ensures Roomy(Expected(F, y, x, l))
    ensures Expected(F, y, x + 1, l) ==
      if Takes(F, y, x) && Label(F, y, x) == l then Bump(F, Expected(F, y, x, l), y, x) else Expected(F, y, x, l)
  {
    ExpectedRoomy(F, y, x, l);
    if !(Takes(F, y, x) && Label(F, y, x) == l) {
      ExpectedOther(F, y, x, l);
    } else if Kept(F, y, x) {
      ExpectedKept(F, y, x, l);
    } else {
      ExpectedPast(F, y, x, l);
    }
  }

  lemma ExpectedOther(F: Frame, y: nat, x: nat, l: int32)
    requires Fits(F) && y < F.h && x < F.w && !(Takes(F, y, x) && Label(F, y, x) == l)
    ensures Expected(F, y, x + 1, l) == Expected(F, y, x, l)
  {
    assert ChannelSums(F, y, x + 1, l) == ChannelSums(F, y, x, l);
  }

  lemma ExpectedPast(F: Frame, y: nat, x: nat, l: int32)
    requires Fits(F) && y < F.h && x < F.w && Takes(F, y, x) && Label(F, y, x) == l && !Kept(F, y, x)
    ensures Roomy(Expected(F, y, x, l))
    ensures Expected(F, y, x + 1, l) == Bump(F, Expected(F, y, x, l), y, x)
  {
    ExpectedRoomy(F, y, x, l);
    assert ChannelSums(F, y, x + 1, l) == ChannelSums(F, y, x, l);
  }

  lemma ExpectedKept(F: Frame, y: nat, x: nat, l: int32)
    requires Fits(F) && y < F.h && x < F.w && Kept(F, y, x) && Label(F, y, x) == l
    ensures Roomy(Expected(F, y, x, l))
    ensures Expected(F, y, x + 1, l) == Bump(F, Expected(F, y, x, l), y, x)
  {
    ExpectedRoomy(F, y, x, l);
    ChannelStep(F, y, x, l);
    var c := Expected(F, y, x, l);
    if StrokeAt(F, y, x) < IntMax {
      WrapAdd(SwtTotal(F, y, x, l), StrokeAt(F, y, x));
      assert Wrap32(SwtTotal(F, y, x + 1, l)) == Wrap32(c.SwtSum + StrokeAt(F, y, x));
    }
  }



  /** At the end of a row the records are those at the start of the next. */
  lemma RowEnd(F: Frame, y: nat, l: int32)
    requires Fits(F) && y < F.h
    ensures FirstSeen(F, y + 1, 0) == FirstSeen(F, y, F.w)
    ensures Expected(F, y + 1, 0, l) == Expected(F, y, F.w, l)
    ensures Samples(F, y + 1, 0, l) == Samples(F, y, F.w, l)
    ensures SampleWidths(F, y + 1, 0, l) == SampleWidths(F, y, F.w, l)
  {
    assert forall ch: nat :: ch < F.channels ==> ChannelTotal(F, y + 1, 0, l, ch) == ChannelTotal(F, y, F.w, l, ch);
  }

  // ---------------------------------------------------------------------------
  // What the buffers hold after the pixels before (x, y).
  // ---------------------------------------------------------------------------

  /** Sample slot `m` of component `j`: the flat index of its `m`-th sample,
      or what the slot held before the scan. Slot 0 is left for the root. */
  ghost function ItemAt(F: Frame, t0: Tally, y: nat, x: nat, j: nat, m: nat): int32
    requires Fits(F) && Pos(F, y, x) && Shaped(F, t0) && j < F.limit && m < F.sizeLimit
  {
    var f := FirstSeen(F, y, x);
    if j < |f| && 1 <= m <= |Samples(F, y, x, f[j])| then
      PositionsFit(F, y, x);
      SamplesInOrder(F, y, x, f[j]);
      Samples(F, y, x, f[j])[m - 1] as int32
    else t0.items[Slot(j, m, F.sizeLimit, F.limit)]
  }

  /** The same slot of `componentSwtItems`: the sample's stroke width. */
  ghost function SwtItemAt(F: Frame, t0: Tally, y: nat, x: nat, j: nat, m: nat): int32
    requires Fits(F) && Pos(F, y, x) && Shaped(F, t0) && j < F.limit && m < F.sizeLimit
  {
    var f := FirstSeen(F, y, x);
    SamplesBound(F, y, x, if j < |f| then f[j] else 0);
    if j < |f| && 1 <= m <= |Samples(F, y, x, f[j])| then SampleWidths(F, y, x, f[j])[m - 1]
    else t0.swtItems[Slot(j, m, F.sizeLimit, F.limit)]
  }

  /** The index gives each label seen its first-seen number, and -1 to the
      others; `count` is the number of labels seen, less one. */
  ghost predicate IndexSummary(F: Frame, t: Tally, t0: Tally, y: nat, x: nat)
    requires Fits(F) && Pos(F, y, x)
  {
    var f := FirstSeen(F, y, x);
    Shaped(F, t) && |t.index| == |t0.index| && t.count == |f| - 1 && |f| <= F.limit &&
    (forall l :: 0 <= l < |F.coloring| ==> t.index[l] == Position(f, l)) &&
    (forall l :: |F.coloring| <= l < |t.index| ==> t.index[l] == -1)
  }

  /** Component `j` holds the record of the `j`-th label seen; the other
      components are initial up to the limit and untouched beyond it. */
  ghost predicate CompsSummary(F: Frame, t: Tally, t0: Tally, y: nat, x: nat)
    requires Fits(F) && Pos(F, y, x)
  {
    var f := FirstSeen(F, y, x);
    |f| <= F.limit <= |t.comps| == |t0.comps| &&
    (forall j :: 0 <= j < |f| ==> t.comps[j] == Expected(F, y, x, f[j])) &&
    (forall j :: |f| <= j < F.limit ==> t.comps[j] == Initialized()) &&
    (forall j :: F.limit <= j < |t.comps| ==> t.comps[j] == t0.comps[j])
  }

  /** The sample slots hold the samples so far; nothing past the slots of
      the last component is written. */
  ghost predicate ItemsSummary(F: Frame, t: Tally, t0: Tally, y: nat, x: nat)
    requires Fits(F) && Pos(F, y, x) && Shaped(F, t) && Shaped(F, t0)
  {
    |t.items| == |t0.items| && |t.swtItems| == |t0.swtItems| &&
    (forall j, m :: 0 <= j < F.limit && 0 <= m < F.sizeLimit ==>
      t.items[Slot(j, m, F.sizeLimit, F.limit)] == ItemAt(F, t0, y, x, j, m) &&
      t.swtItems[Slot(j, m, F.sizeLimit, F.limit)] == SwtItemAt(F, t0, y, x, j, m)) &&
    (forall p :: Times(F.limit, F.sizeLimit) <= p < |t.items| ==> t.items[p] == t0.items[p]) &&
    (forall p :: Times(F.limit, F.sizeLimit) <= p < |t.swtItems| ==> t.swtItems[p] == t0.swtItems[p])
  }

  /** The buffers `t` hold the scan's result for the pixels before (x, y),
      starting from the buffers `t0`. */
  ghost predicate Summarises(F: Frame, t: Tally, t0: Tally, y: nat, x: nat)
    requires Fits(F) && Pos(F, y, x)
  {
    Shaped(F, t) && Shaped(F, t0) &&
    IndexSummary(F, t, t0, y, x) && CompsSummary(F, t, t0, y, x) && ItemsSummary(F, t, t0, y, x)
  }

  /** The scan stops at pixel (x, y): it takes part with a label not seen
      before, and `componentsLimit` labels have been seen already. */
  ghost predicate Stops(F: Frame, y: nat, x: nat)
    requires Fits(F) && y < F.h && x < F.w
  {
    Takes(F, y, x) && Label(F, y, x) !in FirstSeen(F, y, x) && |FirstSeen(F, y, x)| >= F.limit
  }

  /** Under the summary, the scan either stops at the pixel exactly when the
      closed form says so, or can visit it. */
  lemma SummaryReady(F: Frame, t: Tally, t0: Tally, y: nat, x: nat)
    requires Fits(F) && y < F.h && x < F.w && Summarises(F, t, t0, y, x)
    ensures Stopping(F, t, y, x) <==> Stops(F, y, x)
    ensures Stopping(F, t, y, x) || Ready(F, t, y, x)
  {
    var f := FirstSeen(F, y, x);
    if Takes(F, y, x) {
      var l := Label(F, y, x);
      PositionSpec(f, l);
      if t.index[l] != -1 {
        ExpectedRoomy(F, y, x, f[t.index[l]]);
      }
    }
  }

  /** Distinct (component, entry) pairs have distinct slots. */
  lemma SlotInjective(j1: nat, m1: nat, j2: nat, m2: nat, L: nat, limit: nat)
    requires j1 < limit && m1 < L && j2 < limit && m2 < L
    ensures Slot(j1, m1, L, limit) == Slot(j2, m2, L, limit) <==> j1 == j2 && m1 == m2
  {
    if j1 < j2 {
      TimesMonotone(j1 + 1, j2, L);
    } else if j2 < j1 {
      TimesMonotone(j2 + 1, j1, L);
    }
  }

  /** Where the visit of a taking pixel goes: the index says -1 exactly for
      a label not seen before, which then gets the next number; the label is
      seen from the pixel on, at the target's number; and the target's
      record, opened if need be, is the label's record before the pixel. */
  ghost predicate Aimed(F: Frame, t: Tally, y: nat, x: nat)
    requires Fits(F) && y < F.h && x < F.w && Ready(F, t, y, x)
  {
    |FirstSeen(F, y, x + 1)| <= F.limit &&
    (Takes(F, y, x) ==>
      var f, l := FirstSeen(F, y, x), Label(F, y, x);
      (t.index[l] == -1 <==> l !in f) &&
      FirstSeen(F, y, x + 1) == (if l in f then f else f + [l]) &&
      Target(t, l) < |FirstSeen(F, y, x + 1)| && FirstSeen(F, y, x + 1)[Target(t, l)] == l &&
      (if l in f then t.comps[Target(t, l)] else t.comps[Target(t, l)].(Coloring := l)) == Expected(F, y, x, l))
  }

  lemma VisitTarget(F: Frame, t: Tally, t0: Tally, y: nat, x: nat)
    requires Fits(F) && y < F.h && x < F.w && Ready(F, t, y, x)
    requires IndexSummary(F, t, t0, y, x) && CompsSummary(F, t, t0, y, x)
    ensures Aimed(F, t, y, x)
  {
    if Takes(F, y, x) {
      var f, l := FirstSeen(F, y, x), Label(F, y, x);
      PositionSpec(f, l);
      if l !in f {
        SeenIffTaken(F, y, x, l);
        UnseenExpected(F, y, x, l);
      }
    }
  }

  /** The visit changes the index and the counter only to open a component. */
  lemma VisitKeepsIndex(F: Frame, t: Tally, y: nat, x: nat)
    requires Fits(F) && y < F.h && x < F.w && Ready(F, t, y, x)
    ensures Visit(F, t, y, x).index ==
      if Takes(F, y, x) && t.index[Label(F, y, x)] == -1 then t.index[Label(F, y, x) := t.count + 1] else t.index
    ensures Visit(F, t, y, x).count ==
      if Takes(F, y, x) && t.index[Label(F, y, x)] == -1 then t.count + 1 else t.count
    ensures |Visit(F, t, y, x).comps| == |t.comps| && |Visit(F, t, y, x).items| == |t.items| &&
            |Visit(F, t, y, x).swtItems| == |t.swtItems|
  {
  }

  /** A visit keeps the index summary. */
  lemma VisitIndex(F: Frame, t: Tally, t0: Tally, y: nat, x: nat)
    requires Fits(F) && y < F.h && x < F.w && Ready(F, t, y, x)
    requires IndexSummary(F, t, t0, y, x) && CompsSummary(F, t, t0, y, x)
    ensures IndexSummary(F, Visit(F, t, y, x), t0, y, x + 1)
  {
    VisitKeepsIndex(F, t, y, x);
    VisitTarget(F, t, t0, y, x);
    if Takes(F, y, x) {
      var f, l := FirstSeen(F, y, x), Label(F, y, x);
      if l !in f {
        forall k | 0 <= k < |F.coloring|
          ensures t.index[l := t.count + 1][k] == Position(f + [l], k)
        {
          PositionAppend(f, l, k);
        }
      }
    }
  }

  /** A visit gives the `j`-th label seen its record after the pixel. */
  lemma VisitComp(F: Frame, t: Tally, y: nat, x: nat, j: nat)
    requires Fits(F) && y < F.h && x < F.w && Ready(F, t, y, x) && Aimed(F, t, y, x)
    requires Distinct(FirstSeen(F, y, x)) && j < |FirstSeen(F, y, x + 1)|
    requires j < |FirstSeen(F, y, x)| ==> t.comps[j] == Expected(F, y, x, FirstSeen(F, y, x)[j])
    ensures Visit(F, t, y, x).comps[j] == Expected(F, y, x + 1, FirstSeen(F, y, x + 1)[j])
  {
    var f, f1 := FirstSeen(F, y, x), FirstSeen(F, y, x + 1);
    ExpectedStep(F, y, x, f1[j]);
  }

  /** The visit writes no component at or past the number of labels seen
      after the pixel. */
  lemma VisitKeepsRest(F: Frame, t: Tally, y: nat, x: nat, j: nat)
    requires Fits(F) && y < F.h && x < F.w && Ready(F, t, y, x) && Aimed(F, t, y, x)
    requires |FirstSeen(F, y, x + 1)| <= j < |t.comps|
    ensures Visit(F, t, y, x).comps[j] == t.comps[j]
  {
  }

  /** A visit keeps the component summary. */
  lemma VisitComps(F: Frame, t: Tally, t0: Tally, y: nat, x: nat)
    requires Fits(F) && y < F.h && x < F.w && Ready(F, t, y, x)
    requires IndexSummary(F, t, t0, y, x) && CompsSummary(F, t, t0, y, x)
    ensures CompsSummary(F, Visit(F, t, y, x), t0, y, x + 1)
  {
    var t1 := Visit(F, t, y, x);
    var f, f1 := FirstSeen(F, y, x), FirstSeen(F, y, x + 1);
    FirstSeenDistinct(F, y, x);
    VisitTarget(F, t, t0, y, x);
    VisitKeepsIndex(F, t, y, x);
    forall j | 0 <= j < |f1|
      ensures t1.comps[j] == Expected(F, y, x + 1, f1[j])
    {
      VisitComp(F, t, y, x, j);
    }
    forall j | |f1| <= j < |t.comps|
      ensures t1.comps[j] == t.comps[j]
    {
      VisitKeepsRest(F, t, y, x, j);
    }
  }

  /** The samples of each label after the pixel: those before it, and the
      pixel itself when it is a sample of the label. */
  lemma SamplesStep(F: Frame, y: nat, x: nat, g: int)
    requires Fits(F) && y < F.h && x < F.w
    ensures Samples(F, y, x + 1, g) == Samples(F, y, x, g) + (if Sampled(F, y, x, g) then [Flat(y, x, F.w)] else [])
    ensures SampleWidths(F, y, x + 1, g) == SampleWidths(F, y, x, g) + (if Sampled(F, y, x, g) then [StrokeAt(F, y, x)] else [])
  {
  }

  /** The pixel is the next sample of the `j`-th label seen. */
  ghost predicate NextSample(F: Frame, y: nat, x: nat, j: nat, m: nat)
    requires Fits(F) && y < F.h && x < F.w
  {
    var f1 := FirstSeen(F, y, x + 1);
    j < |f1| && Sampled(F, y, x, f1[j]) && m == |Samples(F, y, x, f1[j])| + 1
  }

  /** A sample slot's summary after the pixel: the pixel when it is the slot's
      next sample, the summary before it otherwise. */
  lemma ItemAtStep(F: Frame, t0: Tally, y: nat, x: nat, j: nat, m: nat)
    requires Fits(F) && y < F.h && x < F.w && Shaped(F, t0) && j < F.limit && m < F.sizeLimit
    ensures ItemAt(F, t0, y, x + 1, j, m) == if NextSample(F, y, x, j, m) then Flat(y, x, F.w) as int else ItemAt(F, t0, y, x, j, m) as int
    ensures SwtItemAt(F, t0, y, x + 1, j, m) == if NextSample(F, y, x, j, m) then StrokeAt(F, y, x) else SwtItemAt(F, t0, y, x, j, m)
  {
    var f, f1 := FirstSeen(F, y, x), FirstSeen(F, y, x + 1);
    if j < |f1| {
      SamplesStep(F, y, x, f1[j]);
      SamplesBound(F, y, x, f1[j]);
      SamplesBound(F, y, x + 1, f1[j]);
      if j >= |f| {
        assert f1 == f + [f1[j]];
        SeenIffTaken(F, y, x, f1[j]);
        UnseenForms(F, y, x, f1[j]);
      }
    }
  }

  /** The visit writes the slot exactly when the pixel is its next sample. */
  lemma VisitWrite(F: Frame, t: Tally, y: nat, x: nat, j: nat, m: nat)
    requires Fits(F) && y < F.h && x < F.w && Ready(F, t, y, x) && Aimed(F, t, y, x)
    requires j < F.limit && m < F.sizeLimit
    ensures Visit(F, t, y, x).items[Slot(j, m, F.sizeLimit, F.limit)] ==
      if NextSample(F, y, x, j, m) then Flat(y, x, F.w) as int else t.items[Slot(j, m, F.sizeLimit, F.limit)] as int
    ensures Visit(F, t, y, x).swtItems[Slot(j, m, F.sizeLimit, F.limit)] ==
      if NextSample(F, y, x, j, m) then StrokeAt(F, y, x) else t.swtItems[Slot(j, m, F.sizeLimit, F.limit)]
  {
    FirstSeenDistinct(F, y, x + 1);
    if Takes(F, y, x) {
      var l := Label(F, y, x);
      var ci := Target(t, l);
      var c := Expected(F, y, x, l);
      SamplesBound(F, y, x, l);
      if Sampled(F, y, x, l) {
        SlotInjective(j, m, ci, c.SwtSize + 1, F.sizeLimit, F.limit);
      }
    }
  }

  /** A visit keeps the sample summary. */
  lemma VisitItems(F: Frame, t: Tally, t0: Tally, y: nat, x: nat)
    requires Fits(F) && y < F.h && x < F.w && Summarises(F, t, t0, y, x) && Ready(F, t, y, x)
    ensures ItemsSummary(F, Visit(F, t, y, x), t0, y, x + 1)
  {
    var t1 := Visit(F, t, y, x);
    var L := F.sizeLimit;
    VisitTarget(F, t, t0, y, x);
    forall j, m | 0 <= j < F.limit && 0 <= m < L
      ensures t1.items[Slot(j, m, L, F.limit)] == ItemAt(F, t0, y, x + 1, j, m)
      ensures t1.swtItems[Slot(j, m, L, F.limit)] == SwtItemAt(F, t0, y, x + 1, j, m)
    {
      ItemAtStep(F, t0, y, x, j, m);
      VisitWrite(F, t, y, x, j, m);
    }
  }

  // ---------------------------------------------------------------------------
  // The scan as a whole.
  // ---------------------------------------------------------------------------

  /** The state after filling the index with -1 and initializing the first
      `componentsLimit` records summarises the empty prefix of the scan. */
  lemma StartSummary(F: Frame, t: Tally, t0: Tally)
    requires Fits(F) && Shaped(F, t0) && Shaped(F, t)
    requires |t.index| == |t0.index| && |t.comps| == |t0.comps| && t.items == t0.items && t.swtItems == t0.swtItems
    requires t.count == -1 && forall k :: 0 <= k < |t.index| ==> t.index[k] == -1
    requires forall j :: 0 <= j < F.limit ==> t.comps[j] == Initialized()
    requires forall j :: F.limit <= j < |t.comps| ==> t.comps[j] == t0.comps[j]
    ensures Summarises(F, t, t0, 0, 0)
  {
  }

  /** A visit keeps the summary, one pixel further on. */
  lemma VisitSummarises(F: Frame, t: Tally, t0: Tally, y: nat, x: nat)
    requires Fits(F) && y < F.h && x < F.w && Summarises(F, t, t0, y, x) && Ready(F, t, y, x)
    ensures Summarises(F, Visit(F, t, y, x), t0, y, x + 1)
  {
    VisitKeepsIndex(F, t, y, x);
    VisitIndex(F, t, t0, y, x);
    VisitComps(F, t, t0, y, x);
    VisitItems(F, t, t0, y, x);
  }

  /** The summary at the end of a row is the summary at the start of the next. */
  lemma NextRow(F: Frame, t: Tally, t0: Tally, y: nat)
    requires Fits(F) && y < F.h && Summarises(F, t, t0, y, F.w)
    ensures Summarises(F, t, t0, y + 1, 0)
  {
    var f := FirstSeen(F, y, F.w);
    RowEnd(F, y, 0);
    forall j | 0 <= j < |f|
      ensures t.comps[j] == Expected(F, y + 1, 0, f[j])
    {
      RowEnd(F, y, f[j]);
    }
    forall j, m | 0 <= j < F.limit && 0 <= m < F.sizeLimit
      ensures ItemAt(F, t0, y + 1, 0, j, m) == ItemAt(F, t0, y, F.w, j, m)
      ensures SwtItemAt(F, t0, y + 1, 0, j, m) == SwtItemAt(F, t0, y, F.w, j, m)
    {
      if j < |f| {
        RowEnd(F, y, f[j]);
      }
    }
  }

  /** A scan that stops sees more than `componentsLimit` labels in all. */
  lemma StopsOverflow(F: Frame, y: nat, x: nat)
    requires Fits(F) && y < F.h && x < F.w && Stops(F, y, x)
    ensures |FirstSeen(F, F.h, 0)| > F.limit
  {
    FirstSeenPrefix(F, y, x + 1, F.h, 0);
  }

  /** A summary gives at most `componentsLimit` labels. */
  lemma SummaryWithin(F: Frame, t: Tally, t0: Tally, y: nat, x: nat)
    requires Fits(F) && Pos(F, y, x) && Summarises(F, t, t0, y, x)
    ensures t.count + 1 == |FirstSeen(F, y, x)| <= F.limit
  {
  }
}
