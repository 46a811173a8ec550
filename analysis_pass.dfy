/** `ComponentAnalysis` as the source runs it: the index is filled with -1
    and the first `componentsLimit` records are initialized, the pixels are
    scanned row by row into the arrays, and the opened components are
    finished one by one. Each step is proved to do what `Visit` and
    `FinishAt` say, so the loops keep `Summarises` and `Finished`, and the
    result is `Analysed` (or the scan's state at the pixel where it gives up). */
module AnalysisPass {
  import opened Numerics
  import opened Raster
  import opened ComponentRecord
  import opened Labelling
  import opened PixelOps
  import opened Analysis
  import opened AnalysisFinish
  import MedianOf

  /** The buffers of the analysis as a value. */
  ghost function Buffers(index: array<int32>, components: array<Component>, items: array<int32>,
                         swtItems: array<int32>, count: int): Tally
    reads index, components, items, swtItems
  {
    Tally(index[..], components[..], items[..], swtItems[..], count)
  }

  /** What the analysis reads, as a value. */
  ghost function Inputs(width: nat, height: nat, source: array<byte>, swt: array<int32>, coloring: array<int32>,
                        sourceChannels: nat, componentsLimit: nat, componentSizeLimit: nat): Frame
    reads source, swt, coloring
  {
    Frame(width, height, source[..], swt[..], coloring[..], sourceChannels, componentsLimit, componentSizeLimit)
  }

  /** The three `int` buffers the analysis writes are distinct arrays. */
  predicate Separate(index: array<int32>, items: array<int32>, swtItems: array<int32>)
  {
    index != items && index != swtItems && items != swtItems
  }

  /** Adds pixel (x, y) to the channel sums of component `ci`. */
  method AddChannels(F: Frame, components: array<Component>, ci: nat, y: nat, x: nat)
    requires Fits(F) && y < F.h && x < F.w
    requires ci < components.Length && |components[ci].ChannelSum| == ChannelSlots
    modifies components
    ensures components[..] ==
      old(components[..])[ci := old(components[ci]).(ChannelSum := AddPixel(F, old(components[ci]).ChannelSum, y, x))]
  {
    ghost var c := components[ci];
    var channel := 0;
    while channel < F.channels
      invariant 0 <= channel <= F.channels
      invariant components[..] == old(components[..])[ci := components[ci]]
      invariant components[ci] == c.(ChannelSum := components[ci].ChannelSum)
      invariant |components[ci].ChannelSum| == ChannelSlots
      invariant forall k :: 0 <= k < ChannelSlots ==>
        components[ci].ChannelSum[k] == if k < channel then AddChannel(F, c.ChannelSum, y, x, k) else c.ChannelSum[k]
    {
      PixelInImage(y, x, F.w, F.h, F.channels);
      OffsetValue(y, x, channel, F.w, F.channels);
      var srcColor := F.source[y * F.w * F.channels + x * F.channels + channel];
      assert srcColor == PixelByte(F, y, x, channel);
      var sums := components[ci].ChannelSum;
      components[ci] := components[ci].(ChannelSum := sums[channel := Wrap32(sums[channel] + srcColor)]);
      channel := channel + 1;
    }
    assert components[ci].ChannelSum == AddPixel(F, c.ChannelSum, y, x);
  }

  /** Pixel (x, y), at flat index `i`, counted in component `ci`: the body of
      the scan after the component is found. */
  method CountPixel(F: Frame, index: array<int32>, components: array<Component>, items: array<int32>,
                    swtItems: array<int32>, ghost count: int, ci: nat, y: nat, x: nat, i: nat)
    requires Fits(F) && y < F.h && x < F.w && i == Flat(y, x, F.w) && Separate(index, items, swtItems)
    requires Shaped(F, Buffers(index, components, items, swtItems, count))
    requires ci < F.limit && Roomy(components[ci])
    modifies components, items, swtItems
    ensures Buffers(index, components, items, swtItems, count) ==
      Count(F, old(Buffers(index, components, items, swtItems, count)), ci, y, x)
  {
    ghost var t := Buffers(index, components, items, swtItems, count);
    ghost var c := components[ci];
    FlatBound(y, x, F.w, F.h);
    CoordsFit(F, y, x);
    var size := components[ci].Size + 1;
    components[ci] := components[ci].(Size := size);
    if size >= F.sizeLimit {
      return;
    }
    TimesIsProduct(ci, F.sizeLimit);
    TimesMonotone(ci + 1, F.limit, F.sizeLimit);
    var offset := ci * F.sizeLimit;
    var s := F.swt[i];
    if s < IntMax {
      var swtSize := components[ci].SwtSize + 1;
      components[ci] := components[ci].(SwtSize := swtSize);
      items[offset + swtSize] := i as int32;
      swtItems[offset + swtSize] := s;
      components[ci] := components[ci].(SwtSum := Wrap32(components[ci].SwtSum + s));
    }
    Widen(F, components, ci, y, x);
    assert components[ci] == Bump(F, c, y, x);
  }

  /** The kept pixel (x, y) widens the bounding box of component `ci` and
      adds to its channel sums. */
  method Widen(F: Frame, components: array<Component>, ci: nat, y: nat, x: nat)
    requires Fits(F) && y < F.h && x < F.w && y <= IntMax && x <= IntMax
    requires ci < components.Length && |components[ci].ChannelSum| == ChannelSlots
    modifies components
    ensures var c := old(components[ci]);
      components[..] == old(components[..])[ci := c.(X0 := Min(c.X0, x), X1 := Max(c.X1, x), Y0 := Min(c.Y0, y),
                                                     Y1 := Max(c.Y1, y), ChannelSum := AddPixel(F, c.ChannelSum, y, x))]
  {
    var x0 := AtomicMin(components[ci].X0, x as int32);
    components[ci] := components[ci].(X0 := x0);
    var x1 := AtomicMax(components[ci].X1, x as int32);
    components[ci] := components[ci].(X1 := x1);
    var y0 := AtomicMin(components[ci].Y0, y as int32);
    components[ci] := components[ci].(Y0 := y0);
    var y1 := AtomicMax(components[ci].Y1, y as int32);
    components[ci] := components[ci].(Y1 := y1);
    AddChannels(F, components, ci, y, x);
  }

  /** The scan's visit of pixel (x, y), at flat index `i`, with `count` the
      components opened so far less one. When the pixel would open component
      `componentsLimit`, the analysis gives up with the incremented counter
      and nothing written; otherwise the buffers become `Visit`'s. */
  method AnalysePixel(F: Frame, index: array<int32>, components: array<Component>, items: array<int32>,
                      swtItems: array<int32>, count: int, y: nat, x: nat, i: nat) returns (stop: bool, next: int)
    requires Fits(F) && y < F.h && x < F.w && i == Flat(y, x, F.w) && Separate(index, items, swtItems)
    requires Shaped(F, Buffers(index, components, items, swtItems, count))
    requires Stopping(F, Buffers(index, components, items, swtItems, count), y, x) ||
             Ready(F, Buffers(index, components, items, swtItems, count), y, x)
    modifies index, components, items, swtItems
    ensures stop == Stopping(F, old(Buffers(index, components, items, swtItems, count)), y, x)
    ensures stop ==>
      next == count + 1 && Buffers(index, components, items, swtItems, count) == old(Buffers(index, components, items, swtItems, count))
    ensures !stop ==>
      Buffers(index, components, items, swtItems, next) == Visit(F, old(Buffers(index, components, items, swtItems, count)), y, x)
  {
    ghost var t := Buffers(index, components, items, swtItems, count);
    FlatBound(y, x, F.w, F.h);
    var color := F.coloring[i];
    if color >= |F.coloring| as int32 {
      return false, count;
    }
    if color == i as int32 {
      return false, count;
    }
    var ci := index[color];
    next := count;
    if ci == -1 {
      next := count + 1;
      if next >= F.limit {
        return true, next;
      }
      ci := next as int32;
      index[color] := ci;
      components[ci] := components[ci].(Coloring := color);
      assert Buffers(index, components, items, swtItems, next) == Open(t, color);
    }
    CountPixel(F, index, components, items, swtItems, next, ci as nat, y, x, i);
    stop := false;
  }

  /** No pixel before (x, y) stops the scan. */
  ghost predicate NoStopBefore(F: Frame, y: nat, x: nat)
    requires Fits(F)
  {
    forall yy, xx :: 0 <= yy < F.h && 0 <= xx < F.w && (yy < y || (yy == y && xx < x)) ==> !Stops(F, yy, xx)
  }

  /** Pixel (x, y) of the scan, at flat index `i`, from the summary of the
      pixels before it: the scan gives up there, or the summary grows by
      the pixel. */
  method ScanPixel(F: Frame, index: array<int32>, components: array<Component>, items: array<int32>,
                   swtItems: array<int32>, ghost t0: Tally, count: int, y: nat, x: nat, i: nat)
      returns (stop: bool, next: int)
    requires Fits(F) && y < F.h && x < F.w && i == Flat(y, x, F.w) && Separate(index, items, swtItems)
    requires Summarises(F, Buffers(index, components, items, swtItems, count), t0, y, x) && NoStopBefore(F, y, x)
    modifies index, components, items, swtItems
    ensures stop ==> GaveUp(F, t0, Buffers(index, components, items, swtItems, next - 1), next, y, x)
    ensures !stop ==>
      Summarises(F, Buffers(index, components, items, swtItems, next), t0, y, x + 1) && NoStopBefore(F, y, x + 1)
  {
    ghost var t := Buffers(index, components, items, swtItems, count);
    SummaryReady(F, t, t0, y, x);
    SummaryWithin(F, t, t0, y, x);
    stop, next := AnalysePixel(F, index, components, items, swtItems, count, y, x, i);
    if !stop {
      VisitSummarises(F, t, t0, y, x);
    }
  }

  /** Row `y` of the scan, from flat index `i` on. It either gives up at some
      pixel (x, y), the first that stops the scan, with `componentsLimit`
      returned and the buffers as they were after the pixels before it, or
      runs to the end of the row. */
  method AnalyseRow(F: Frame, index: array<int32>, components: array<Component>, items: array<int32>,
                    swtItems: array<int32>, ghost t0: Tally, count: int, y: nat, i: nat)
      returns (stop: bool, next: int, ghost stopX: nat)
    requires Fits(F) && y < F.h && i == Flat(y, 0, F.w) && Separate(index, items, swtItems)
    requires Summarises(F, Buffers(index, components, items, swtItems, count), t0, y, 0) && NoStopBefore(F, y, 0)
    modifies index, components, items, swtItems
    ensures stop ==> GaveUp(F, t0, Buffers(index, components, items, swtItems, next - 1), next, y, stopX)
    ensures !stop ==>
      Summarises(F, Buffers(index, components, items, swtItems, next), t0, y + 1, 0) && NoStopBefore(F, y + 1, 0)
  {
    var j, x := i, 0;
    next := count;
    while x < F.w
      invariant 0 <= x <= F.w && j == Flat(y, x, F.w)
      invariant Summarises(F, Buffers(index, components, items, swtItems, next), t0, y, x) && NoStopBefore(F, y, x)
    {
      stop, next := ScanPixel(F, index, components, items, swtItems, t0, next, y, x, j);
      if stop {
        stopX := x;
        return;
      }
      x, j := x + 1, j + 1;
    }
    NextRow(F, Buffers(index, components, items, swtItems, next), t0, y);
    stop, stopX := false, 0;
  }

  /** `Array.Sort(a, at, n)`: the `n` entries from `at` on are replaced by
      their sorted list. */
  method SortSlots(a: array<int32>, at: nat, n: nat)
    requires at + n <= a.Length
    modifies a
    ensures a[..] == SortRange(old(a[..]), at, n)
  {
    var sorted := MedianOf.SortedList(a[at..at + n]);
    ghost var r := SortRange(a[..], at, n);
    assert sorted == r[at..at + n];
    for k := 0 to n
      invariant forall q :: 0 <= q < a.Length ==> a[q] == if at <= q < at + k then sorted[q - at] else old(a[q])
    {
      a[at + k] := sorted[k];
    }
    forall q | 0 <= q < a.Length
      ensures a[q] == r[q]
    {
      if at <= q < at + n {
        assert r[q] == r[at..at + n][q - at];
      }
    }
  }

  /** The channel averages of record `c` with `size` pixels. */
  method Averages(F: Frame, c: Component, size: int) returns (averages: seq<int32>)
    requires |c.ChannelSum| == ChannelSlots && |c.ChannelAverage| == ChannelSlots && size > 0
    ensures averages == [AverageAt(F, c, size, 0), AverageAt(F, c, size, 1), AverageAt(F, c, size, 2), AverageAt(F, c, size, 3)]
  {
    averages := c.ChannelAverage;
    var channel := 0;
    while channel < F.channels && channel < ChannelSlots
      invariant 0 <= channel <= ChannelSlots && |averages| == ChannelSlots
      invariant forall k :: 0 <= k < ChannelSlots ==>
        averages[k] == if k < channel then AverageAt(F, c, size, k) else c.ChannelAverage[k]
    {
      DivTruncWithin(c.ChannelSum[channel], size);
      averages := averages[channel := DivTrunc(c.ChannelSum[channel], size)];
      channel := channel + 1;
    }
  }

  /** The record of turn `ci` of the second loop: `c` with its root, of
      stroke width `s`, added, its dimensions set, the median read from the
      sorted widths `cs` and the channel sums averaged. */
  method FinishRecord(F: Frame, c: Component, s: int32, cs: seq<int32>) returns (r: Component)
    requires Roomy(c) && |c.ChannelAverage| == ChannelSlots && |cs| == c.SwtSize + 1
    ensures r == Finish(F, c, s, cs)
  {
    var size := c.Size + 1;
    var swtSize := c.SwtSize + 1;
    var w, h := Wrap32(c.X1 - c.X0), Wrap32(c.Y1 - c.Y0);
    var averages := Averages(F, c, size);
    r := c.(Size := size, SwtSize := swtSize, SwtSum := Wrap32(c.SwtSum + s),
            Width := w, Height := h, MinDimension := Min(w, h), MaxDimension := Max(w, h),
            SwtMedian := cs[swtSize / 2], ChannelAverage := averages);
  }

  /** Turn `ci` of the second loop: the root goes to slot 0 of both sample
      buffers, the used stroke-width slots are sorted, and the record is
      finished with them. */
  method FinishComponent(F: Frame, index: array<int32>, components: array<Component>, items: array<int32>,
                         swtItems: array<int32>, ghost count: int, ci: nat)
    requires Fits(F) && Separate(index, items, swtItems)
    requires Finishable(F, Buffers(index, components, items, swtItems, count), ci)
    modifies components, items, swtItems
    ensures Buffers(index, components, items, swtItems, count) ==
      FinishAt(F, old(Buffers(index, components, items, swtItems, count)), ci)
  {
    ghost var t := Buffers(index, components, items, swtItems, count);
    var c := components[ci];
    var swtSize := c.SwtSize + 1;
    TimesIsProduct(ci, F.sizeLimit);
    var offset := ci * F.sizeLimit;
    assert offset == Base(F, ci);
    var color := c.Coloring;
    items[offset] := color;
    var s := F.swt[color];
    swtItems[offset] := s;
    ghost var segment := swtItems[offset..offset + swtSize];
    assert segment == Segment(F, t, ci);
    SortSlots(swtItems, offset, swtSize);
    SortRangeSlice(t.swtItems[offset := s], offset, swtSize, segment);
    c := FinishRecord(F, c, s, swtItems[offset..offset + swtSize]);
    components[ci] := c;
  }

  /** The scan gave up at pixel (x, y), the first that stops it, returning
      `count`, with the buffers `t` as the pixels before it left them. */
  ghost predicate GaveUp(F: Frame, t0: Tally, t: Tally, count: int, y: nat, x: nat)
    requires Fits(F)
  {
    count == F.limit && y < F.h && x < F.w && Stops(F, y, x) && NoStopBefore(F, y, x) && Summarises(F, t, t0, y, x)
  }

  /** Some pixel stops the scan. */
  ghost predicate Stopped(F: Frame)
    requires Fits(F)
  {
    exists y, x :: 0 <= y < F.h && 0 <= x < F.w && Stops(F, y, x)
  }

  /** `ComponentAnalysis`. It returns the number of labels found, but at
      most `componentsLimit`. When some pixel would open component
      `componentsLimit`, it returns `componentsLimit` at the first such pixel
      (y, x), with the buffers as the scan left them before that pixel and no
      component finished. Otherwise it returns the number of labels, and the
      buffers hold the closed form `Analysed`. */
  method ComponentAnalysis(width: nat, height: nat, source: array<byte>, swt: array<int32>, coloring: array<int32>,
                           componentIndexByColoring: array<int32>, componentItems: array<int32>,
                           componentSwtItems: array<int32>, components: array<Component>,
                           componentsLimit: nat, componentSizeLimit: nat, sourceChannels: nat)
      returns (count: int, ghost stopY: nat, ghost stopX: nat)
    requires Fits(Inputs(width, height, source, swt, coloring, sourceChannels, componentsLimit, componentSizeLimit))
    requires Separate(componentIndexByColoring, componentItems, componentSwtItems)
    requires swt != componentIndexByColoring && swt != componentItems && swt != componentSwtItems
    requires coloring != componentIndexByColoring && coloring != componentItems && coloring != componentSwtItems
    requires Shaped(Inputs(width, height, source, swt, coloring, sourceChannels, componentsLimit, componentSizeLimit),
                    Buffers(componentIndexByColoring, components, componentItems, componentSwtItems, -1))
    modifies componentIndexByColoring, componentItems, componentSwtItems, components
    ensures var F := Inputs(width, height, source, swt, coloring, sourceChannels, componentsLimit, componentSizeLimit);
      count == Min(|FirstSeen(F, height, 0)|, componentsLimit)
    ensures var F := Inputs(width, height, source, swt, coloring, sourceChannels, componentsLimit, componentSizeLimit);
      Stopped(F) ==> GaveUp(F, old(Buffers(componentIndexByColoring, components, componentItems, componentSwtItems, -1)),
                   Buffers(componentIndexByColoring, components, componentItems, componentSwtItems, count - 1), count, stopY, stopX)
    ensures var F := Inputs(width, height, source, swt, coloring, sourceChannels, componentsLimit, componentSizeLimit);
      !Stopped(F) ==>
        count == |FirstSeen(F, height, 0)| &&
        Analysed(F, old(Buffers(componentIndexByColoring, components, componentItems, componentSwtItems, -1)),
                 Buffers(componentIndexByColoring, components, componentItems, componentSwtItems, count - 1))
  {
    var F := Frame(width, height, source[..], swt[..], coloring[..], sourceChannels, componentsLimit, componentSizeLimit);
    ghost var t0 := Buffers(componentIndexByColoring, components, componentItems, componentSwtItems, -1);
    Prepare(F, componentIndexByColoring, components, componentItems, componentSwtItems);
    var stop;
    stop, count, stopY, stopX := Scan(F, componentIndexByColoring, components, componentItems, componentSwtItems, t0);
    assert F == Inputs(width, height, source, swt, coloring, sourceChannels, componentsLimit, componentSizeLimit);
    if stop {
      StopsOverflow(F, stopY, stopX);
      return;
    }
    ghost var tS := Buffers(componentIndexByColoring, components, componentItems, componentSwtItems, count);
    SummaryWithin(F, tS, t0, height, 0);
    count := count + 1;
    FinishAll(F, componentIndexByColoring, components, componentItems, componentSwtItems, t0, count);
    assert F == Inputs(width, height, source, swt, coloring, sourceChannels, componentsLimit, componentSizeLimit);
  }

  /** The prelude: the index filled with -1 and the first `componentsLimit`
      records initialized, which summarises the empty prefix of the scan. */
  method Prepare(F: Frame, index: array<int32>, components: array<Component>, items: array<int32>, swtItems: array<int32>)
    requires Fits(F) && Separate(index, items, swtItems) && Shaped(F, Buffers(index, components, items, swtItems, -1))
    modifies index, components
    ensures Summarises(F, Buffers(index, components, items, swtItems, -1), old(Buffers(index, components, items, swtItems, -1)), 0, 0)
  {
    ghost var t0 := Buffers(index, components, items, swtItems, -1);
    // Array.Fill(componentIndexByColoring, -1)
    for k := 0 to index.Length
      invariant forall q :: 0 <= q < k ==> index[q] == -1
      invariant components[..] == t0.comps && items[..] == t0.items && swtItems[..] == t0.swtItems
    {
      index[k] := -1;
    }
    for ci := 0 to F.limit
      invariant forall q :: 0 <= q < index.Length ==> index[q] == -1
      invariant forall j :: 0 <= j < ci ==> components[j] == Initialized()
      invariant forall j :: ci <= j < components.Length ==> components[j] == t0.comps[j]
      invariant items[..] == t0.items && swtItems[..] == t0.swtItems
    {
      components[ci] := Initialized();
    }
    StartSummary(F, Buffers(index, components, items, swtItems, -1), t0);
  }

  /** The scan, row by row from the summary of the empty prefix. */
  method Scan(F: Frame, index: array<int32>, components: array<Component>, items: array<int32>, swtItems: array<int32>,
              ghost t0: Tally)
      returns (stop: bool, count: int, ghost stopY: nat, ghost stopX: nat)
    requires Fits(F) && Separate(index, items, swtItems) && Summarises(F, Buffers(index, components, items, swtItems, -1), t0, 0, 0)
    modifies index, components, items, swtItems
    ensures stop ==> GaveUp(F, t0, Buffers(index, components, items, swtItems, count - 1), count, stopY, stopX)
    ensures !stop ==>
      !Stopped(F) && Summarises(F, Buffers(index, components, items, swtItems, count), t0, F.h, 0)
  {
    count := -1;
    stopY, stopX := 0, 0;
    var y, i := 0, 0;
    while y < F.h
      invariant i == Flat(y, 0, F.w) && RowsScanned(F, Buffers(index, components, items, swtItems, count), t0, y)
    {
      ghost var x;
      stop, count, x := AnalyseRow(F, index, components, items, swtItems, t0, count, y, i);
      if stop {
        stopY, stopX := y, x;
        return;
      }
      y, i := y + 1, i + F.w;
    }
    NoneStops(F);
    stop := false;
  }

  /** The scan has summarised the rows before `y`, and no pixel there
      stops it. */
  ghost predicate RowsScanned(F: Frame, t: Tally, t0: Tally, y: nat)
    requires Fits(F)
  {
    y <= F.h && Summarises(F, t, t0, y, 0) && NoStopBefore(F, y, 0)
  }

  /** A scan that passed every row without giving up met no stopping pixel. */
  lemma NoneStops(F: Frame)
    requires Fits(F) && NoStopBefore(F, F.h, 0)
    ensures !Stopped(F)
  {
  }

  /** The second loop, over the `count` labels of a scan that ran to the end. */
  method FinishAll(F: Frame, index: array<int32>, components: array<Component>, items: array<int32>,
                   swtItems: array<int32>, ghost t0: Tally, count: int)
    requires Fits(F) && Separate(index, items, swtItems)
    requires Summarises(F, Buffers(index, components, items, swtItems, count - 1), t0, F.h, 0)
    modifies components, items, swtItems
    ensures Analysed(F, t0, Buffers(index, components, items, swtItems, count - 1))
  {
    ghost var tS := Buffers(index, components, items, swtItems, count - 1);
    SummaryWithin(F, tS, t0, F.h, 0);
    NoneFinished(F, tS);
    for ci := 0 to count
      invariant Finished(F, tS, Buffers(index, components, items, swtItems, count - 1), ci)
    {
      FinishNext(F, index, components, items, swtItems, t0, tS, count, ci);
    }
    FinishedAnalysed(F, tS, t0, Buffers(index, components, items, swtItems, count - 1));
  }

  /** One turn of the second loop keeps `Finished`. */
  method FinishNext(F: Frame, index: array<int32>, components: array<Component>, items: array<int32>,
                    swtItems: array<int32>, ghost t0: Tally, ghost tS: Tally, count: int, ci: nat)
    requires Fits(F) && Separate(index, items, swtItems)
    requires Summarises(F, tS, t0, F.h, 0) && ci < count == |FirstSeen(F, F.h, 0)|
    requires Finished(F, tS, Buffers(index, components, items, swtItems, count - 1), ci)
    modifies components, items, swtItems
    ensures Finished(F, tS, Buffers(index, components, items, swtItems, count - 1), ci + 1)
  {
    ScanFinishable(F, tS, t0, ci);
    FinishedStep(F, tS, Buffers(index, components, items, swtItems, count - 1), ci);
    FinishComponent(F, index, components, items, swtItems, count - 1, ci);
  }
}
