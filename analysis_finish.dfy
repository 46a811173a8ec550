/** The second loop of `ComponentAnalysis`: once the scan is over, each
    opened component gets its root pixel (the pixel whose index is the
    label, which the scan skips) added to `Size`, `SwtSize`, the first sample
    slot and `SwtSum`; its box gives `Width`, `Height` and the dimensions; its
    sample widths are sorted in place and the middle one is `SwtMedian`; and
    the channel sums divided by the size give `ChannelAverage`. */
module AnalysisFinish {
  import opened Numerics
  import opened Raster
  import opened ComponentRecord
  import opened Labelling
  import opened Analysis
  import MedianOf
  import PairSort

  /** `s` with the entries from `at` on replaced by `u`. */
  function Splice(s: seq<int32>, at: nat, u: seq<int32>): (r: seq<int32>)
    requires at + |u| <= |s|
    ensures |r| == |s|
    ensures forall k :: 0 <= k < |s| ==> r[k] == if at <= k < at + |u| then u[k - at] else s[k]
  {
    s[..at] + u + s[at + |u|..]
  }

  /** `Array.Sort(s, at, n)`: the `n` entries from `at` on sorted. */
  function SortRange(s: seq<int32>, at: nat, n: nat): (r: seq<int32>)
    requires at + n <= |s|
    ensures |r| == |s|
    ensures r[at..at + n] == MedianOf.SortedList(s[at..at + n])
    ensures forall k :: 0 <= k < |s| && !(at <= k < at + n) ==> r[k] == s[k]
  {
    var r := Splice(s, at, MedianOf.SortedList(s[at..at + n]));
    assert r[at..at + n] == MedianOf.SortedList(s[at..at + n]);
    r
  }

  lemma SortRangeSlice(s: seq<int32>, at: nat, n: nat, u: seq<int32>)
    requires at + n <= |s| && s[at..at + n] == u
    ensures SortRange(s, at, n)[at..at + n] == MedianOf.SortedList(u)
  {
  }

  lemma SortRangeAt(s: seq<int32>, at: nat, n: nat, u: seq<int32>, m: nat)
    requires at + n <= |s| && s[at..at + n] == u && m < n
    ensures SortRange(s, at, n)[at + m] == MedianOf.SortedList(u)[m]
  {
    assert SortRange(s, at, n)[at + m] == SortRange(s, at, n)[at..at + n][m];
  }

  /** `a / size` with C#'s truncating division stays an `int`. */
  lemma DivTruncWithin(a: int32, size: int)
    requires size > 0
    ensures IntMin <= DivTrunc(a, size) <= IntMax
    ensures 0 <= a ==> 0 <= DivTrunc(a, size) <= a
  {
    var b: int := if a < 0 then -(a as int) else a;
    QuotientWithin(b, size);
  }

  lemma QuotientWithin(b: int, size: int)
    requires b >= 0 && size > 0
    ensures 0 <= b / size <= b
  {
    MulLe(1, size, b);
    DivWithin(b, size, 0, b);
  }

  /** Slot `ch` of `ChannelAverage`: the channel's sum divided by the size. */
  function AverageAt(F: Frame, c: Component, size: int, ch: nat): int32
    requires |c.ChannelSum| == ChannelSlots && |c.ChannelAverage| == ChannelSlots && size > 0 && ch < ChannelSlots
  {
    if ch < F.channels then
      DivTruncWithin(c.ChannelSum[ch], size);
      DivTrunc(c.ChannelSum[ch], size)
    else c.ChannelAverage[ch]
  }

  /** The finished record: `c` after its root, with stroke width `s`, and the
      sorted stroke widths `cs` of the component. The floating-point fields
      are not modelled and keep their values. */
  function Finish(F: Frame, c: Component, s: int32, cs: seq<int32>): Component
    requires Roomy(c) && |c.ChannelAverage| == ChannelSlots && |cs| == c.SwtSize + 1
  {
    var size := c.Size + 1;
    var w, h := Wrap32(c.X1 - c.X0), Wrap32(c.Y1 - c.Y0);
    c.(Size := size, SwtSize := c.SwtSize + 1, SwtSum := Wrap32(c.SwtSum + s),
       Width := w, Height := h, MinDimension := Min(w, h), MaxDimension := Max(w, h),
       SwtMedian := cs[(c.SwtSize + 1) / 2],
       ChannelAverage := [AverageAt(F, c, size, 0), AverageAt(F, c, size, 1),
                          AverageAt(F, c, size, 2), AverageAt(F, c, size, 3)])
  }

  /** Slot 0 of component `j` in a sample buffer. */
  function Base(F: Frame, j: nat): (p: nat)
    requires j < F.limit && 1 <= F.sizeLimit
    ensures p + F.sizeLimit <= Times(F.limit, F.sizeLimit)
  {
    TimesMonotone(j + 1, F.limit, F.sizeLimit);
    Slot(j, 0, F.sizeLimit, F.limit)
  }

  /** `componentItems` after finishing component `j` of label `l`: the label
      in its slot 0. */
  function FinishItems(F: Frame, items: seq<int32>, j: nat, l: int32): seq<int32>
    requires Fits(F) && j < F.limit && Times(F.limit, F.sizeLimit) <= |items|
  {
    items[Base(F, j) := l]
  }

  /** `componentSwtItems` after finishing component `j` of label `l` with `n`
      widths: the root's width in slot 0, then the first `n` slots sorted. */
  function FinishSwt(F: Frame, sw: seq<int32>, j: nat, l: int32, n: nat): seq<int32>
    requires Fits(F) && j < F.limit && Times(F.limit, F.sizeLimit) <= |sw|
    requires 0 <= l < |F.swt| && n <= F.sizeLimit
  {
    SortRange(sw[Base(F, j) := F.swt[l]], Base(F, j), n)
  }

  /** Component `j` can be finished: its record has room for the root, and
      its label names a pixel. */
  predicate Finishable(F: Frame, t: Tally, j: nat)
  {
    Shaped(F, t) && j < F.limit && j < |t.comps| &&
    Roomy(t.comps[j]) && |t.comps[j].ChannelAverage| == ChannelSlots &&
    0 <= t.comps[j].Coloring < |F.swt| && t.comps[j].SwtSize < F.sizeLimit
  }

  /** The widths that the turn of component `j` sorts: the root's, then
      those in the component's sample slots. */
  function Segment(F: Frame, t: Tally, j: nat): (r: seq<int32>)
    requires Fits(F) && Finishable(F, t, j)
    ensures |r| == t.comps[j].SwtSize + 1
  {
    var c := t.comps[j];
    t.swtItems[Base(F, j) := F.swt[c.Coloring]][Base(F, j)..Base(F, j) + c.SwtSize + 1]
  }

  /** The record the turn of component `j` leaves. */
  function FinishedRecord(F: Frame, t: Tally, j: nat): Component
    requires Fits(F) && Finishable(F, t, j)
  {
    var c := t.comps[j];
    Finish(F, c, F.swt[c.Coloring], MedianOf.SortedList(Segment(F, t, j)))
  }

  /** The buffers after finishing component `j`, as the second loop does it:
      the root's label goes to slot 0 of `componentItems` and its stroke width
      to slot 0 of `componentSwtItems`, then the first `SwtSize + 1` slots of
      `componentSwtItems` are sorted (`componentItems` is not), and the
      record is finished, its median read from the sorted slots. */
  function FinishAt(F: Frame, t: Tally, j: nat): Tally
    requires Fits(F) && Finishable(F, t, j)
  {
    var c := t.comps[j];
    t.(items := FinishItems(F, t.items, j, c.Coloring), swtItems := FinishSwt(F, t.swtItems, j, c.Coloring, c.SwtSize + 1),
       comps := t.comps[j := FinishedRecord(F, t, j)])
  }

  /** A slot in the first `n <= sizeLimit` slots of component `k` is one of
      component `k`'s. */
  lemma SlotRange(j: nat, m: nat, k: nat, n: nat, L: nat, limit: nat)
    requires j < limit && m < L && k < limit && n <= L
    requires Slot(k, 0, L, limit) <= Slot(j, m, L, limit) < Slot(k, 0, L, limit) + n
    ensures j == k && m < n
  {
    if j < k {
      TimesMonotone(j + 1, k, L);
    } else if k < j {
      TimesMonotone(k + 1, j, L);
    }
  }

  /** A turn writes the record as `FinishedRecord` says and keeps the
      index and the counter. */
  lemma FinishAtComps(F: Frame, t: Tally, j: nat)
    requires Fits(F) && Finishable(F, t, j)
    ensures var t1 := FinishAt(F, t, j);
      t1.index == t.index && t1.count == t.count && t1.comps == t.comps[j := FinishedRecord(F, t, j)]
  {
  }

  /** A turn writes the root's label to slot 0 of `componentItems` only. */
  lemma FinishAtItems(F: Frame, t: Tally, j: nat)
    requires Fits(F) && Finishable(F, t, j)
    ensures var t1 := FinishAt(F, t, j);
      |t1.items| == |t.items| &&
      forall p :: 0 <= p < |t.items| ==> t1.items[p] == if p == Base(F, j) then t.comps[j].Coloring else t.items[p]
  {
    assert FinishAt(F, t, j).items == FinishItems(F, t.items, j, t.comps[j].Coloring);
  }

  /** A turn sorts the component's segment of `componentSwtItems`, after
      writing the root's width to its slot 0, and changes nothing else. */
  lemma FinishAtSwt(F: Frame, t: Tally, j: nat)
    requires Fits(F) && Finishable(F, t, j)
    ensures var t1 := FinishAt(F, t, j);
      |t1.swtItems| == |t.swtItems| &&
      (forall p :: 0 <= p < |t.swtItems| && !(Base(F, j) <= p < Base(F, j) + t.comps[j].SwtSize + 1) ==>
        t1.swtItems[p] == t.swtItems[p]) &&
      (forall m :: 0 <= m <= t.comps[j].SwtSize ==>
        t1.swtItems[Base(F, j) + m] == MedianOf.SortedList(Segment(F, t, j))[m])
  {
    var c, n := t.comps[j], t.comps[j].SwtSize + 1;
    FinishSwtSpec(F, t.swtItems, j, c.Coloring, n, Segment(F, t, j));
    assert FinishAt(F, t, j).swtItems == FinishSwt(F, t.swtItems, j, c.Coloring, n);
  }

  /** `FinishSwt` sorts the segment and changes nothing else. */
  lemma FinishSwtSpec(F: Frame, sw: seq<int32>, j: nat, l: int32, n: nat, seg: seq<int32>)
    requires Fits(F) && j < F.limit && Times(F.limit, F.sizeLimit) <= |sw|
    requires 0 <= l < |F.swt| && 1 <= n <= F.sizeLimit
    requires seg == sw[Base(F, j) := F.swt[l]][Base(F, j)..Base(F, j) + n]
    ensures var r := FinishSwt(F, sw, j, l, n);
      |r| == |sw| && r[Base(F, j)..Base(F, j) + n] == MedianOf.SortedList(seg) &&
      (forall p :: 0 <= p < |sw| && !(Base(F, j) <= p < Base(F, j) + n) ==> r[p] == sw[p]) &&
      (forall m :: 0 <= m < n ==> r[Base(F, j) + m] == MedianOf.SortedList(seg)[m])
  {
    var s := sw[Base(F, j) := F.swt[l]];
    forall m | 0 <= m < n
      ensures FinishSwt(F, sw, j, l, n)[Base(F, j) + m] == MedianOf.SortedList(seg)[m]
    {
      SortRangeAt(s, Base(F, j), n, seg, m);
    }
  }

  // ---------------------------------------------------------------------------
  // The second loop as a whole: the first `k` components of the buffers
  // `tS` left by the scan finished, one by one.
  // ---------------------------------------------------------------------------

  ghost predicate Finished(F: Frame, tS: Tally, t: Tally, k: nat)
    requires Fits(F)
  {
    var L := F.sizeLimit;
    Shaped(F, tS) && k <= F.limit && |t.comps| == |tS.comps| &&
    t.index == tS.index && t.count == tS.count &&
    (forall j :: 0 <= j < k ==> Finishable(F, tS, j)) &&
    (forall j :: 0 <= j < |t.comps| ==> t.comps[j] == if j < k then FinishedRecord(F, tS, j) else tS.comps[j]) &&
    ItemsFinished(F, tS, t.items, k) && SwtFinished(F, tS, t.swtItems, k)
  }

  /** The `componentItems` part of `Finished`: the first slot of each of the
      first `k` components holds its root. */
  ghost predicate ItemsFinished(F: Frame, tS: Tally, items: seq<int32>, k: nat)
    requires Fits(F) && Shaped(F, tS) && k <= F.limit
  {
    var L := F.sizeLimit;
    |items| == |tS.items| &&
    (forall j, m :: 0 <= j < F.limit && 0 <= m < L ==>
      items[Slot(j, m, L, F.limit)] ==
        if j < k && m == 0 then tS.comps[j].Coloring else tS.items[Slot(j, m, L, F.limit)]) &&
    (forall p :: Times(F.limit, L) <= p < |items| ==> items[p] == tS.items[p])
  }

  /** The `componentSwtItems` part of `Finished`: the used slots of each of
      the first `k` components hold its widths, sorted. */
  ghost predicate SwtFinished(F: Frame, tS: Tally, sw: seq<int32>, k: nat)
    requires Fits(F) && Shaped(F, tS) && k <= F.limit
    requires forall j :: 0 <= j < k ==> Finishable(F, tS, j)
  {
    var L := F.sizeLimit;
    |sw| == |tS.swtItems| &&
    (forall j, m :: 0 <= j < F.limit && 0 <= m < L ==>
      sw[Slot(j, m, L, F.limit)] ==
        if j < k && m <= tS.comps[j].SwtSize then MedianOf.SortedList(Segment(F, tS, j))[m]
        else tS.swtItems[Slot(j, m, L, F.limit)]) &&
    (forall p :: Times(F.limit, L) <= p < |sw| ==> sw[p] == tS.swtItems[p])
  }

  lemma NoneFinished(F: Frame, tS: Tally)
    requires Fits(F) && Shaped(F, tS)
    ensures Finished(F, tS, tS, 0)
  {
  }

  /** The turn of component `k` sees what the scan left for it. */
  lemma FinishedSees(F: Frame, tS: Tally, t: Tally, k: nat)
    requires Fits(F) && Finished(F, tS, t, k) && k < F.limit && Finishable(F, tS, k)
    ensures Finishable(F, t, k) && t.comps[k] == tS.comps[k] && Segment(F, t, k) == Segment(F, tS, k)
  {
    var L, n := F.sizeLimit, tS.comps[k].SwtSize + 1;
    forall m | 0 <= m < n
      ensures Segment(F, t, k)[m] == Segment(F, tS, k)[m]
    {
      if m > 0 {
        assert Slot(k, m, L, F.limit) == Base(F, k) + m;
      }
    }
  }

  /** One turn of the second loop finishes one more component. */
  lemma FinishedStep(F: Frame, tS: Tally, t: Tally, k: nat)
    requires Fits(F) && Finished(F, tS, t, k) && k < F.limit && Finishable(F, tS, k)
    ensures Finishable(F, t, k) && Finished(F, tS, FinishAt(F, t, k), k + 1)
  {
    FinishedSees(F, tS, t, k);
    FinishAtComps(F, t, k);
    FinishAtItems(F, t, k);
    FinishAtSwt(F, t, k);
    var t1 := FinishAt(F, t, k);
    FinishedItems(F, tS, t, k, t1.items);
    FinishedSwt(F, tS, t, k, t1.swtItems);
  }

  lemma FinishedItems(F: Frame, tS: Tally, t: Tally, k: nat, items: seq<int32>)
    requires Fits(F) && Shaped(F, tS) && k < F.limit && Finishable(F, tS, k) && ItemsFinished(F, tS, t.items, k)
    requires k < |t.comps| && t.comps[k] == tS.comps[k] && |items| == |t.items|
    requires forall p :: 0 <= p < |t.items| ==> items[p] == if p == Base(F, k) then t.comps[k].Coloring else t.items[p]
    ensures ItemsFinished(F, tS, items, k + 1)
  {
    var L := F.sizeLimit;
    forall j, m | 0 <= j < F.limit && 0 <= m < L
      ensures items[Slot(j, m, L, F.limit)] ==
        if j < k + 1 && m == 0 then tS.comps[j].Coloring else tS.items[Slot(j, m, L, F.limit)]
    {
      SlotInjective(j, m, k, 0, L, F.limit);
    }
  }

  lemma FinishedSwt(F: Frame, tS: Tally, t: Tally, k: nat, sw: seq<int32>)
    requires Fits(F) && Shaped(F, tS) && k < F.limit && forall j :: 0 <= j <= k ==> Finishable(F, tS, j)
    requires SwtFinished(F, tS, t.swtItems, k)
    requires Finishable(F, t, k) && t.comps[k] == tS.comps[k] && Segment(F, t, k) == Segment(F, tS, k)
    requires |sw| == |t.swtItems|
    requires forall p :: 0 <= p < |t.swtItems| && !(Base(F, k) <= p < Base(F, k) + t.comps[k].SwtSize + 1) ==>
        sw[p] == t.swtItems[p]
    requires forall m :: 0 <= m <= t.comps[k].SwtSize ==>
        sw[Base(F, k) + m] == MedianOf.SortedList(Segment(F, t, k))[m]
    ensures SwtFinished(F, tS, sw, k + 1)
  {
    var L := F.sizeLimit;
    forall j, m | 0 <= j < F.limit && 0 <= m < L
      ensures sw[Slot(j, m, L, F.limit)] ==
        if j < k + 1 && m <= tS.comps[j].SwtSize then MedianOf.SortedList(Segment(F, tS, j))[m]
        else tS.swtItems[Slot(j, m, L, F.limit)]
    {
      SwtSlotStep(F, tS, t, k, sw, j, m);
    }
  }

  /** One slot of `FinishedSwt`. */
  lemma SwtSlotStep(F: Frame, tS: Tally, t: Tally, k: nat, sw: seq<int32>, j: nat, m: nat)
    requires Fits(F) && Shaped(F, tS) && k < F.limit && j < F.limit && m < F.sizeLimit
    requires forall i :: 0 <= i <= k ==> Finishable(F, tS, i)
    requires Finishable(F, t, k) && t.comps[k] == tS.comps[k] && Segment(F, t, k) == Segment(F, tS, k)
    requires |sw| == |t.swtItems| == |tS.swtItems|
    requires t.swtItems[Slot(j, m, F.sizeLimit, F.limit)] ==
        if j < k && m <= tS.comps[j].SwtSize then MedianOf.SortedList(Segment(F, tS, j))[m]
        else tS.swtItems[Slot(j, m, F.sizeLimit, F.limit)]
    requires forall p :: 0 <= p < |t.swtItems| && !(Base(F, k) <= p < Base(F, k) + t.comps[k].SwtSize + 1) ==>
        sw[p] == t.swtItems[p]
    requires forall m :: 0 <= m <= t.comps[k].SwtSize ==>
        sw[Base(F, k) + m] == MedianOf.SortedList(Segment(F, t, k))[m]
    ensures sw[Slot(j, m, F.sizeLimit, F.limit)] ==
        if j < k + 1 && m <= tS.comps[j].SwtSize then MedianOf.SortedList(Segment(F, tS, j))[m]
        else tS.swtItems[Slot(j, m, F.sizeLimit, F.limit)]
  {
    var L, n := F.sizeLimit, tS.comps[k].SwtSize + 1;
    var p := Slot(j, m, L, F.limit);
    if Base(F, k) <= p < Base(F, k) + n {
      SlotRange(j, m, k, n, L, F.limit);
      assert p == Base(F, k) + m;
    } else {
      SlotInjective(j, m, k, 0, L, F.limit);
    }
  }

  // ---------------------------------------------------------------------------
  // The finished records in closed form.
  // ---------------------------------------------------------------------------

  /** The stroke widths of the component of label `l`: the root's, then the
      samples', in scan order. */
  function Widths(F: Frame, l: int32): seq<int32>
    requires Fits(F) && 0 <= l < |F.coloring|
  {
    [F.swt[l]] + SampleWidths(F, F.h, 0, l)
  }

  lemma ExpectedRoomyAt(F: Frame, y: nat, x: nat, l: int32)
    requires Fits(F) && Pos(F, y, x)
    ensures Roomy(Expected(F, y, x, l)) && |Expected(F, y, x, l).ChannelAverage| == ChannelSlots
    ensures Expected(F, y, x, l).SwtSize < F.sizeLimit && Expected(F, y, x, l).Coloring == l
  {
    PositionsFit(F, y, x);
    OccBound(F, y, x, l);
    SamplesBound(F, y, x, l);
  }

  /** The finished record of the component of label `l`. */
  function Final(F: Frame, l: int32): Component
    requires Fits(F) && 0 <= l < |F.coloring|
  {
    ExpectedRoomyAt(F, F.h, 0, l);
    SamplesBound(F, F.h, 0, l);
    Finish(F, Expected(F, F.h, 0, l), F.swt[l], MedianOf.SortedList(Widths(F, l)))
  }

  /** After the scan, component `j` can be finished, and its segment holds
      the root's width and the sample widths of the `j`-th label seen. */
  lemma ScanFinishable(F: Frame, tS: Tally, t0: Tally, j: nat)
    requires Fits(F) && Summarises(F, tS, t0, F.h, 0) && j < |FirstSeen(F, F.h, 0)|
    ensures var l := FirstSeen(F, F.h, 0)[j];
      0 <= l < |F.coloring| && Finishable(F, tS, j) && tS.comps[j] == Expected(F, F.h, 0, l) &&
      tS.comps[j].Coloring == l && Segment(F, tS, j) == Widths(F, l)
  {
    var f := FirstSeen(F, F.h, 0);
    FirstSeenDistinct(F, F.h, 0);
    var l, L := f[j], F.sizeLimit;
    ExpectedRoomyAt(F, F.h, 0, l);
    SamplesBound(F, F.h, 0, l);
    var n := tS.comps[j].SwtSize + 1;
    forall m | 0 <= m < n
      ensures Segment(F, tS, j)[m] == Widths(F, l)[m]
    {
      if m > 0 {
        assert Slot(j, m, L, F.limit) == Base(F, j) + m;
        assert tS.swtItems[Slot(j, m, L, F.limit)] == SwtItemAt(F, t0, F.h, 0, j, m);
      }
    }
  }

  /** The turn of component `j` leaves the final record of its label. */
  lemma ScanFinal(F: Frame, tS: Tally, t0: Tally, j: nat)
    requires Fits(F) && Summarises(F, tS, t0, F.h, 0) && j < |FirstSeen(F, F.h, 0)|
    ensures Finishable(F, tS, j) && 0 <= FirstSeen(F, F.h, 0)[j] < |F.coloring|
    ensures FinishedRecord(F, tS, j) == Final(F, FirstSeen(F, F.h, 0)[j])
  {
    ScanFinishable(F, tS, t0, j);
  }

  /** What `ComponentAnalysis` leaves for component `j` when the scan runs to
      the end: the final record of the `j`-th label seen, the root's label in
      slot 0 of `componentItems` and the scan's samples after it, and the
      sorted widths of the component at the front of its `componentSwtItems`
      slots. */
  lemma FinishedComponent(F: Frame, tS: Tally, t0: Tally, t: Tally, j: nat)
    requires Fits(F) && Summarises(F, tS, t0, F.h, 0) && Finished(F, tS, t, |FirstSeen(F, F.h, 0)|)
    requires j < |FirstSeen(F, F.h, 0)|
    ensures var l := FirstSeen(F, F.h, 0)[j];
      j < F.limit && 0 <= l < |F.coloring| && t.comps[j] == Final(F, l) && t.items[Base(F, j)] == l
    ensures var l := FirstSeen(F, F.h, 0)[j];
      forall m :: 1 <= m < F.sizeLimit ==> t.items[Slot(j, m, F.sizeLimit, F.limit)] == ItemAt(F, t0, F.h, 0, j, m)
    ensures var l := FirstSeen(F, F.h, 0)[j];
      forall m :: 0 <= m <= |SampleWidths(F, F.h, 0, l)| && m < F.sizeLimit ==>
        t.swtItems[Slot(j, m, F.sizeLimit, F.limit)] == MedianOf.SortedList(Widths(F, l))[m]
  {
    ScanFinishable(F, tS, t0, j);
    ScanFinal(F, tS, t0, j);
    assert Slot(j, 0, F.sizeLimit, F.limit) == Base(F, j);
  }

  /** What `ComponentAnalysis` leaves when the scan runs to the end, in
      closed form over `t0`, the buffers it was given: the index numbers the
      labels in first-seen order, `count` is the number of labels (less one),
      each numbered component holds the final record of its label and the
      others are initial up to `componentsLimit`, slot 0 of each component's
      `componentItems` holds its root after the scan's samples, and the front
      of its `componentSwtItems` slots holds its widths, sorted. Nothing else
      is written. */
  ghost predicate Analysed(F: Frame, t0: Tally, t: Tally)
    requires Fits(F) && Shaped(F, t0)
  {
    var f := FirstSeen(F, F.h, 0);
    var L := F.sizeLimit;
    |f| <= F.limit && t.count + 1 == |f| &&
    |t.index| == |t0.index| && |t.comps| == |t0.comps| && |t.items| == |t0.items| && |t.swtItems| == |t0.swtItems| &&
    (forall l :: 0 <= l < |F.coloring| ==> t.index[l] == Position(f, l)) &&
    (forall l :: |F.coloring| <= l < |t.index| ==> t.index[l] == -1) &&
    (forall j :: 0 <= j < |f| ==> 0 <= f[j] < |F.coloring| && t.comps[j] == Final(F, f[j])) &&
    (forall j :: |f| <= j < F.limit ==> t.comps[j] == Initialized()) &&
    (forall j :: F.limit <= j < |t.comps| ==> t.comps[j] == t0.comps[j]) &&
    (forall j, m :: 0 <= j < F.limit && 0 <= m < L ==>
      t.items[Slot(j, m, L, F.limit)] ==
        if j < |f| && m == 0 then f[j] else ItemAt(F, t0, F.h, 0, j, m)) &&
    (forall j, m :: 0 <= j < F.limit && 0 <= m < L ==>
      t.swtItems[Slot(j, m, L, F.limit)] ==
        if j < |f| && m <= |SampleWidths(F, F.h, 0, f[j])| then MedianOf.SortedList(Widths(F, f[j]))[m]
        else SwtItemAt(F, t0, F.h, 0, j, m)) &&
    (forall p :: Times(F.limit, L) <= p < |t.items| ==> t.items[p] == t0.items[p]) &&
    (forall p :: Times(F.limit, L) <= p < |t.swtItems| ==> t.swtItems[p] == t0.swtItems[p])
  }

  /** The second loop run over all the labels of a finished scan leaves the
      closed form. */
  lemma FinishedAnalysed(F: Frame, tS: Tally, t0: Tally, t: Tally)
    requires Fits(F) && Summarises(F, tS, t0, F.h, 0) && Finished(F, tS, t, |FirstSeen(F, F.h, 0)|)
    ensures Analysed(F, t0, t)
  {
    var f := FirstSeen(F, F.h, 0);
    forall j | 0 <= j < |f|
      ensures 0 <= f[j] < |F.coloring| && t.comps[j] == Final(F, f[j])
    {
      ScanFinal(F, tS, t0, j);
    }
    forall j, m | 0 <= j < F.limit && 0 <= m < F.sizeLimit
      ensures t.items[Slot(j, m, F.sizeLimit, F.limit)] ==
        if j < |f| && m == 0 then f[j] else ItemAt(F, t0, F.h, 0, j, m)
    {
      if j < |f| {
        ScanFinishable(F, tS, t0, j);
      }
    }
    forall j, m | 0 <= j < F.limit && 0 <= m < F.sizeLimit
      ensures t.swtItems[Slot(j, m, F.sizeLimit, F.limit)] ==
        if j < |f| && m <= |SampleWidths(F, F.h, 0, f[j])| then MedianOf.SortedList(Widths(F, f[j]))[m]
        else SwtItemAt(F, t0, F.h, 0, j, m)
    {
      if j < |f| {
        ScanFinishable(F, tS, t0, j);
        SamplesBound(F, F.h, 0, f[j]);
      }
    }
  }
}
