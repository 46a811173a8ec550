/** `ColorComponentByColorSimilarity` and its driver
    `ColorComponentsFixedPointByColorSimilarity`.

    The rule widens the stroke labelling by colour: a pixel takes the least of
    its own label and the labels of those 8-neighbours that are either joined
    to it by stroke width (as in `Labelling`) or, when the pixel does not match
    the background colour, agree with it in colour. Of the colour matches only
    those are taken whose colour difference is at most the least difference
    seen so far, in scan order; so the scan is a left fold over the nine
    offsets, `ScanUpTo`. A lower label found by the last colour match also
    lowers the `ParentColoring` of the pixel's component. */
module Similarity {
  import opened Numerics
  import opened Raster
  import opened PixelOps
  import opened ComponentRecord
  import opened Labelling
  import opened Chains

  /** What the rule reads besides the labels: image size, stroke widths, the
      colour source and background images, channel count, per-channel
      tolerance, and whether the source is the 2x enlargement of the
      background. */
  datatype Scene = Scene(w: nat, h: nat, swt: seq<int32>, source: seq<byte>, background: seq<byte>,
                         channels: nat, tolerance: int, enlarged: bool)

  /** Start of the background pixel compared with source pixel (x, y):
      `(x >> 1, y >> 1)` in a background of width `width >> 1` when the
      source is enlarged. */
  function BackgroundStart(w: nat, ch: nat, enlarged: bool, x: nat, y: nat): int
  {
    if enlarged then Offset(y / 2, x / 2, 0, w / 2, ch) else Offset(y, x, 0, w, ch)
  }

  /** The buffers hold every pixel the rule reads. */
  predicate Fits(g: Scene)
  {
    |g.swt| == Times(g.h, g.w) <= IntMax &&
    Offset(g.h, 0, 0, g.w, g.channels) <= |g.source| &&
    forall y: nat, x: nat :: 0 <= y < g.h && 0 <= x < g.w ==>
      BackgroundStart(g.w, g.channels, g.enlarged, x, y) + g.channels <= |g.background|
  }

  /** A labelling `s` of the scene and a pixel (x0, y0) inside it. */
  predicate At(g: Scene, s: seq<int32>, x0: nat, y0: nat)
  {
    Fits(g) && |s| == |g.swt| && x0 < g.w && y0 < g.h
  }

  function SourcePixel(g: Scene, x: nat, y: nat): (p: seq<byte>)
    requires Fits(g) && x < g.w && y < g.h
    ensures |p| == g.channels
  {
    PixelInImage(y, x, g.w, g.h, g.channels);
    var o := Offset(y, x, 0, g.w, g.channels);
    g.source[o..o + g.channels]
  }

  function BackgroundPixel(g: Scene, x: nat, y: nat): (p: seq<byte>)
    requires Fits(g) && x < g.w && y < g.h
    ensures |p| == g.channels
  {
    var o := BackgroundStart(g.w, g.channels, g.enlarged, x, y);
    OffsetNonneg(y / 2, x / 2, 0, g.w / 2, g.channels);
    OffsetNonneg(y, x, 0, g.w, g.channels);
    g.background[o..o + g.channels]
  }

  /** The pixel matches the background colour; such a pixel is joined by
      stroke width only. */
  function IsBackground(g: Scene, x0: nat, y0: nat): bool
    requires Fits(g) && x0 < g.w && y0 < g.h
  {
    IsSameColorPixels(SourcePixel(g, x0, y0), BackgroundPixel(g, x0, y0), g.channels, g.tolerance)
  }

  function Own(g: Scene, s: seq<int32>, x0: nat, y0: nat): (r: int32)
    requires At(g, s, x0, y0)
    ensures Rooted(s, Times(g.h, g.w)) ==> 0 <= r
  {
    FlatBound(y0, x0, g.w, g.h);
    s[Flat(y0, x0, g.w)]
  }

  function OwnWidth(g: Scene, x0: nat, y0: nat): int32
    requires Fits(g) && x0 < g.w && y0 < g.h
  {
    FlatBound(y0, x0, g.w, g.h);
    g.swt[Flat(y0, x0, g.w)]
  }

  function NeighbourLabel(g: Scene, s: seq<int32>, x0: nat, y0: nat, yi: int, xi: int): int32
    requires At(g, s, x0, y0) && IsNeighbour(g.w, g.h, x0, y0, yi, xi)
  {
    s[NeighbourIndex(g.w, g.h, x0, y0, yi, xi)]
  }

  function NeighbourWidth(g: Scene, x0: nat, y0: nat, yi: int, xi: int): int32
    requires Fits(g) && IsNeighbour(g.w, g.h, x0, y0, yi, xi)
  {
    g.swt[NeighbourIndex(g.w, g.h, x0, y0, yi, xi)]
  }

  /** A neighbour the rule considers: inside the image, with another label,
      and that label names a pixel (it is below `n`). */
  predicate Candidate(g: Scene, s: seq<int32>, x0: nat, y0: nat, yi: int, xi: int)
    requires At(g, s, x0, y0)
  {
    IsNeighbour(g.w, g.h, x0, y0, yi, xi) &&
    NeighbourLabel(g, s, x0, y0, yi, xi) != Own(g, s, x0, y0) &&
    NeighbourLabel(g, s, x0, y0, yi, xi) < Times(g.h, g.w)
  }

  /** A candidate joined by stroke width. */
  predicate StrokeJoin(g: Scene, s: seq<int32>, x0: nat, y0: nat, yi: int, xi: int)
    requires At(g, s, x0, y0)
  {
    Candidate(g, s, x0, y0, yi, xi) && Linked(OwnWidth(g, x0, y0), NeighbourWidth(g, x0, y0, yi, xi))
  }

  /** The colour verdict and difference of the neighbour against the pixel. */
  function Similarity(g: Scene, x0: nat, y0: nat, yi: int, xi: int): (bool, int)
    requires Fits(g) && x0 < g.w && y0 < g.h && IsNeighbour(g.w, g.h, x0, y0, yi, xi)
  {
    IsSameColorWithDifference(SourcePixel(g, x0, y0), SourcePixel(g, x0 + xi, y0 + yi), g.channels, g.tolerance)
  }

  /** A candidate not joined by stroke width, of a non-background pixel, that
      agrees in colour: the rule compares its difference. */
  predicate ColourMatch(g: Scene, s: seq<int32>, x0: nat, y0: nat, yi: int, xi: int)
    requires At(g, s, x0, y0)
  {
    Candidate(g, s, x0, y0, yi, xi) && !StrokeJoin(g, s, x0, y0, yi, xi) &&
    !IsBackground(g, x0, y0) && Similarity(g, x0, y0, yi, xi).0
  }

  /** The state of the scan: least label taken `c`, label of the last colour
      match taken `cn`, least colour difference taken `difference`. */
  datatype Scan = Scan(c: int32, cn: int32, difference: int)

  const Start: Scan := Scan(IntMax, IntMax, IntMax)

  /** The scan's visit of offset (xi, yi). */
  function Step(g: Scene, s: seq<int32>, x0: nat, y0: nat, st: Scan, yi: int, xi: int): Scan
    requires At(g, s, x0, y0)
  {
    if !Candidate(g, s, x0, y0, yi, xi) then st
    else
      var c1 := NeighbourLabel(g, s, x0, y0, yi, xi);
      if Linked(OwnWidth(g, x0, y0), NeighbourWidth(g, x0, y0, yi, xi)) then st.(c := Min(st.c, c1))
      else if IsBackground(g, x0, y0) then st
      else
        var sim := Similarity(g, x0, y0, yi, xi);
        if !sim.0 || st.difference < sim.1 then st
        else Scan(Min(st.c, c1), c1, sim.1)
  }

  /** Offset number `k` of the scan: rows `yi = -1, 0, 1`, and in each row
      `xi = -1, 0, 1`. */
  function DY(k: nat): int { if k < 3 then -1 else if k < 6 then 0 else 1 }
  function DX(k: nat): int { k - 3 * (DY(k) + 1) - 1 }

  lemma OffsetNumber(yi: int, xi: int)
    requires -1 <= yi <= 1 && -1 <= xi <= 1
    ensures DY(3 * (yi + 1) + (xi + 1)) == yi && DX(3 * (yi + 1) + (xi + 1)) == xi
  {
  }

  /** The scan after the first `k` offsets. */
  function ScanUpTo(g: Scene, s: seq<int32>, x0: nat, y0: nat, k: nat): Scan
    requires At(g, s, x0, y0) && k <= 9
  {
    if k == 0 then Start else Step(g, s, x0, y0, ScanUpTo(g, s, x0, y0, k - 1), DY(k - 1), DX(k - 1))
  }

  /** What `ColorComponentByColorSimilarity` returns. */
  function SimilarityMin(g: Scene, s: seq<int32>, x0: nat, y0: nat): int32
    requires At(g, s, x0, y0)
  {
    Min(ScanUpTo(g, s, x0, y0, 9).c, Own(g, s, x0, y0))
  }

  /** The least colour difference among the colour matches of the first `k`
      offsets (`int.MaxValue` for none). */
  function LeastDifference(g: Scene, s: seq<int32>, x0: nat, y0: nat, k: nat): int
    requires At(g, s, x0, y0) && k <= 9
  {
    if k == 0 then IntMax
    else if ColourMatch(g, s, x0, y0, DY(k - 1), DX(k - 1)) then
      Min(LeastDifference(g, s, x0, y0, k - 1), Similarity(g, x0, y0, DY(k - 1), DX(k - 1)).1)
    else LeastDifference(g, s, x0, y0, k - 1)
  }

  // ---------------------------------------------------------------------------
  // What the scan computes.
  // ---------------------------------------------------------------------------

  /** The scan's difference is the least difference of the colour matches so
      far: a match is taken exactly when it is no worse than every earlier one. */
  lemma {:induction false} ScanDifference(g: Scene, s: seq<int32>, x0: nat, y0: nat, k: nat)
    requires At(g, s, x0, y0) && k <= 9
    ensures ScanUpTo(g, s, x0, y0, k).difference == LeastDifference(g, s, x0, y0, k)
  {
    if k > 0 {
      ScanDifference(g, s, x0, y0, k - 1);
    }
  }

  /** Later in the scan the label taken and the least difference are no higher. */
  lemma {:induction false} ScanMonotone(g: Scene, s: seq<int32>, x0: nat, y0: nat, j: nat, k: nat)
    requires At(g, s, x0, y0) && j <= k <= 9
    ensures ScanUpTo(g, s, x0, y0, k).c <= ScanUpTo(g, s, x0, y0, j).c
    ensures LeastDifference(g, s, x0, y0, k) <= LeastDifference(g, s, x0, y0, j)
    decreases k - j
  {
    if j < k {
      ScanMonotone(g, s, x0, y0, j + 1, k);
      StepTakes(g, s, x0, y0, ScanUpTo(g, s, x0, y0, j), DY(j), DX(j));
    }
  }

  /** Every stroke-joined candidate's label bounds the result. */
  lemma StrokeJoinBound(g: Scene, s: seq<int32>, x0: nat, y0: nat, k: nat)
    requires At(g, s, x0, y0) && k < 9
    requires StrokeJoin(g, s, x0, y0, DY(k), DX(k))
    ensures SimilarityMin(g, s, x0, y0) <= NeighbourLabel(g, s, x0, y0, DY(k), DX(k))
  {
    ScanMonotone(g, s, x0, y0, k + 1, 9);
  }

  /** The colour match with the least difference of the whole neighbourhood
      is always taken, so its label bounds the result. */
  lemma MostSimilarBound(g: Scene, s: seq<int32>, x0: nat, y0: nat, k: nat)
    requires At(g, s, x0, y0) && k < 9
    requires ColourMatch(g, s, x0, y0, DY(k), DX(k))
    requires Similarity(g, x0, y0, DY(k), DX(k)).1 == LeastDifference(g, s, x0, y0, 9)
    ensures SimilarityMin(g, s, x0, y0) <= NeighbourLabel(g, s, x0, y0, DY(k), DX(k))
  {
    ScanDifference(g, s, x0, y0, k);
    ScanMonotone(g, s, x0, y0, k, 9);
    ScanMonotone(g, s, x0, y0, k + 1, 9);
  }

  /** One visit lowers the label taken and the difference, or keeps them;
      a new label is the label of a stroke join or a colour match. */
  lemma StepTakes(g: Scene, s: seq<int32>, x0: nat, y0: nat, st: Scan, yi: int, xi: int)
    requires At(g, s, x0, y0)
    ensures Step(g, s, x0, y0, st, yi, xi).c <= st.c
    ensures Step(g, s, x0, y0, st, yi, xi).c == st.c ||
      ((StrokeJoin(g, s, x0, y0, yi, xi) || ColourMatch(g, s, x0, y0, yi, xi)) &&
       Step(g, s, x0, y0, st, yi, xi).c == NeighbourLabel(g, s, x0, y0, yi, xi))
  {
  }

  /** The label taken is `int.MaxValue` or the label of a stroke-joined
      candidate or a colour match among the first `k` offsets. */
  lemma {:induction false} ScanWitness(g: Scene, s: seq<int32>, x0: nat, y0: nat, k: nat) returns (j: nat)
    requires At(g, s, x0, y0) && k <= 9
    ensures ScanUpTo(g, s, x0, y0, k).c == IntMax ||
      (j < k && (StrokeJoin(g, s, x0, y0, DY(j), DX(j)) || ColourMatch(g, s, x0, y0, DY(j), DX(j))) &&
       ScanUpTo(g, s, x0, y0, k).c == NeighbourLabel(g, s, x0, y0, DY(j), DX(j)))
  {
    if k == 0 {
      j := 0;
    } else {
      j := ScanWitness(g, s, x0, y0, k - 1);
      var st := ScanUpTo(g, s, x0, y0, k - 1);
      StepTakes(g, s, x0, y0, st, DY(k - 1), DX(k - 1));
      if ScanUpTo(g, s, x0, y0, k).c != st.c {
        j := k - 1;
      }
    }
  }

  /** The result never exceeds the pixel's label; it is that label or the
      label of a stroke-joined candidate or colour match, and for a
      background pixel only a stroke join can lower it. */
  lemma SimilarityMinSpec(g: Scene, s: seq<int32>, x0: nat, y0: nat) returns (j: nat)
    requires At(g, s, x0, y0)
    ensures SimilarityMin(g, s, x0, y0) <= Own(g, s, x0, y0)
    ensures SimilarityMin(g, s, x0, y0) == Own(g, s, x0, y0) ||
      (j < 9 && (StrokeJoin(g, s, x0, y0, DY(j), DX(j)) || ColourMatch(g, s, x0, y0, DY(j), DX(j))) &&
       SimilarityMin(g, s, x0, y0) == NeighbourLabel(g, s, x0, y0, DY(j), DX(j)))
    ensures SimilarityMin(g, s, x0, y0) < Own(g, s, x0, y0) && IsBackground(g, x0, y0) ==>
      StrokeJoin(g, s, x0, y0, DY(j), DX(j))
  {
    j := ScanWitness(g, s, x0, y0, 9);
  }

  /** Under `Rooted`, a label below the pixel's own is in range and its own
      pixel is at most it. */
  lemma SimilarityOfferIsLabel(g: Scene, s: seq<int32>, x0: nat, y0: nat)
    requires At(g, s, x0, y0)
    ensures SimilarityMin(g, s, x0, y0) <= Own(g, s, x0, y0)
    ensures Rooted(s, Times(g.h, g.w)) && SimilarityMin(g, s, x0, y0) < Own(g, s, x0, y0) ==>
      var r := SimilarityMin(g, s, x0, y0);
      0 <= r < Times(g.h, g.w) && s[r] <= r
  {
    var j := SimilarityMinSpec(g, s, x0, y0);
    if Rooted(s, Times(g.h, g.w)) && SimilarityMin(g, s, x0, y0) < Own(g, s, x0, y0) {
      assert 0 <= s[NeighbourIndex(g.w, g.h, x0, y0, DY(j), DX(j))];
    }
  }

  // ---------------------------------------------------------------------------
  // The component merge: `AtomicMin(ref components[ci0].ParentColoring, c)`.
  // ---------------------------------------------------------------------------

  /** `componentIndexByColoring` covers every label below `n` and names
      components inside the array. */
  predicate IndexFits(index: seq<int32>, count: nat, n: nat)
  {
    n <= |index| && forall i :: 0 <= i < n ==> index[i] < count
  }

  /** The pass lowers its component's parent: the pixel's label names a
      pixel, the scan found a lower label, and it came from the last colour
      match. */
  predicate MergeWanted(g: Scene, s: seq<int32>, x0: nat, y0: nat)
    requires At(g, s, x0, y0)
  {
    Own(g, s, x0, y0) < Times(g.h, g.w) &&
    ScanUpTo(g, s, x0, y0, 9).c < Own(g, s, x0, y0) &&
    ScanUpTo(g, s, x0, y0, 9).c == ScanUpTo(g, s, x0, y0, 9).cn
  }

  /** The components after the pass, as written: only a component index
      above 0 is merged. */
  function MergeParents(comps: seq<Component>, index: seq<int32>, g: Scene, s: seq<int32>, x0: nat, y0: nat): seq<Component>
    requires At(g, s, x0, y0) && IndexFits(index, |comps|, Times(g.h, g.w)) && 0 <= Own(g, s, x0, y0)
  {
    if MergeWanted(g, s, x0, y0) && index[Own(g, s, x0, y0)] > 0 then
      var ci0 := index[Own(g, s, x0, y0)];
      comps[ci0 := comps[ci0].(ParentColoring := Min(comps[ci0].ParentColoring, ScanUpTo(g, s, x0, y0, 9).c))]
    else comps
  }

  /** The merge with the evidently intended test `ci0 >= 0`: `-1` marks a
      label without a component, and component indices start at 0. */
  function MergeParentsIntended(comps: seq<Component>, index: seq<int32>, g: Scene, s: seq<int32>, x0: nat, y0: nat): seq<Component>
    requires At(g, s, x0, y0) && IndexFits(index, |comps|, Times(g.h, g.w)) && 0 <= Own(g, s, x0, y0)
  {
    if MergeWanted(g, s, x0, y0) && index[Own(g, s, x0, y0)] >= 0 then
      var ci0 := index[Own(g, s, x0, y0)];
      comps[ci0 := comps[ci0].(ParentColoring := Min(comps[ci0].ParentColoring, ScanUpTo(g, s, x0, y0, 9).c))]
    else comps
  }

  /** Only `ParentColoring` fields change, and none goes up. */
  ghost predicate ParentsLowered(a: seq<Component>, b: seq<Component>)
  {
    |a| == |b| &&
    forall i :: 0 <= i < |a| ==>
      b[i] == a[i].(ParentColoring := b[i].ParentColoring) && b[i].ParentColoring <= a[i].ParentColoring
  }

  /** Both merges change at most the parent of the pixel's component, and
      never raise it. */
  lemma MergeLowers(comps: seq<Component>, index: seq<int32>, g: Scene, s: seq<int32>, x0: nat, y0: nat)
    requires At(g, s, x0, y0) && IndexFits(index, |comps|, Times(g.h, g.w)) && 0 <= Own(g, s, x0, y0)
    ensures ParentsLowered(comps, MergeParents(comps, index, g, s, x0, y0))
    ensures ParentsLowered(comps, MergeParentsIntended(comps, index, g, s, x0, y0))
  {
  }

  /** The intended merge gives every existing component of a pixel whose
      label drops through a colour match a parent no higher than the new
      label, and it is the as-written merge except for component 0. */
  lemma MergeIntendedSpec(comps: seq<Component>, index: seq<int32>, g: Scene, s: seq<int32>, x0: nat, y0: nat)
    requires At(g, s, x0, y0) && IndexFits(index, |comps|, Times(g.h, g.w)) && 0 <= Own(g, s, x0, y0)
    ensures MergeWanted(g, s, x0, y0) && index[Own(g, s, x0, y0)] >= 0 ==>
      MergeParentsIntended(comps, index, g, s, x0, y0)[index[Own(g, s, x0, y0)]].ParentColoring <=
        SimilarityMin(g, s, x0, y0)
    ensures !(MergeWanted(g, s, x0, y0) && index[Own(g, s, x0, y0)] == 0) ==>
      MergeParentsIntended(comps, index, g, s, x0, y0) == MergeParents(comps, index, g, s, x0, y0)
  {
  }

  /** As written, component 0 keeps its parent even when the merge is
      wanted: with the label's component at index 0, the pass leaves every
      component as it was. */
  lemma MergeSkipsComponentZero(comps: seq<Component>, index: seq<int32>, g: Scene, s: seq<int32>, x0: nat, y0: nat)
    requires At(g, s, x0, y0) && IndexFits(index, |comps|, Times(g.h, g.w)) && 0 <= Own(g, s, x0, y0)
    requires MergeWanted(g, s, x0, y0) && index[Own(g, s, x0, y0)] == 0
    requires comps[0].ParentColoring > ScanUpTo(g, s, x0, y0, 9).c
    ensures MergeParents(comps, index, g, s, x0, y0) == comps
    ensures MergeParentsIntended(comps, index, g, s, x0, y0)[0].ParentColoring < comps[0].ParentColoring
  {
  }

  // ---------------------------------------------------------------------------
  // The methods.
  // ---------------------------------------------------------------------------

  /** `ColorComponentByColorSimilarity` for pixel `d` at (x0, y0). */
  method ColorComponentByColorSimilarity(width: nat, height: nat, n: int32, swt: array<int32>, coloring: array<int32>,
                                         source: array<byte>, background: array<byte>, channels: nat,
                                         componentIndexByColoring: array<int32>, components: array<Component>,
                                         x0: nat, y0: nat, d: nat, tolerance: int, enlarged: bool)
    returns (r: int32)
    requires n == Times(height, width) && d == Flat(y0, x0, width)
    requires At(Scene(width, height, swt[..], source[..], background[..], channels, tolerance, enlarged), coloring[..], x0, y0)
    requires IndexFits(componentIndexByColoring[..], components.Length, n) && d < coloring.Length && 0 <= coloring[d]
    modifies components
    ensures r == SimilarityMin(Scene(width, height, swt[..], source[..], background[..], channels, tolerance, enlarged),
                               coloring[..], x0, y0)
    ensures components[..] ==
      MergeParents(old(components[..]), componentIndexByColoring[..],
                   Scene(width, height, swt[..], source[..], background[..], channels, tolerance, enlarged),
                   coloring[..], x0, y0)
  {
    ghost var g := Scene(width, height, swt[..], source[..], background[..], channels, tolerance, enlarged);
    FlatBound(y0, x0, width, height);
    var c0 := coloring[d];
    var p0, isBackground := ReadPixel(g, width, height, source, background, channels, tolerance, enlarged, x0, y0);
    var c, cn, colorDifference := ScanNeighbours(g, width, height, n, swt, coloring, source, channels, tolerance,
                                                 p0, isBackground, x0, y0, d);
    if c0 < n && c < c0 && c == cn {
      // Merge components
      var ci0 := componentIndexByColoring[c0];
      if ci0 > 0 {
        var stored := AtomicMin(components[ci0].ParentColoring, c);
        components[ci0] := components[ci0].(ParentColoring := stored);
      }
    }
    r := Min(c, c0);
  }

  /** The pixel's colour `p0` and whether it matches the background. */
  method ReadPixel(ghost g: Scene, width: nat, height: nat, source: array<byte>, background: array<byte>,
                   channels: nat, tolerance: int, enlarged: bool, x0: nat, y0: nat)
    returns (p0: array<byte>, isBackground: bool)
    requires g == Scene(g.w, g.h, g.swt, source[..], background[..], channels, tolerance, enlarged)
    requires g.w == width && g.h == height && Fits(g) && x0 < width && y0 < height
    ensures fresh(p0) && p0[..] == SourcePixel(g, x0, y0)
    ensures isBackground == IsBackground(g, x0, y0)
  {
    p0 := new byte[channels];
    PixelInImage(y0, x0, width, height, channels);
    PixelAt(p0, source, channels, width, x0, y0);
    assert p0[..] == SourcePixel(g, x0, y0);
    var b0 := new byte[channels];
    assert BackgroundStart(width, channels, enlarged, x0, y0) + channels <= background.Length;
    if enlarged {
      PixelAt(b0, background, channels, width / 2, x0 / 2, y0 / 2);
    } else {
      PixelAt(b0, background, channels, width, x0, y0);
    }
    assert b0[..] == BackgroundPixel(g, x0, y0);
    isBackground := IsSameColorPixels(p0[..], b0[..], channels, tolerance);
  }

  /** The two loops over the offsets. */
  method ScanNeighbours(ghost g: Scene, width: nat, height: nat, n: int32, swt: array<int32>, coloring: array<int32>,
                        source: array<byte>, channels: nat, tolerance: int, p0: array<byte>,
                        isBackground: bool, x0: nat, y0: nat, d: nat)
    returns (c: int32, cn: int32, colorDifference: int)
    requires g.w == width && g.h == height && g.swt == swt[..] && g.source == source[..]
    requires g.channels == channels && g.tolerance == tolerance
    requires At(g, coloring[..], x0, y0) && n == Times(height, width) && d == Flat(y0, x0, width) && d < coloring.Length
    requires isBackground == IsBackground(g, x0, y0)
    requires p0[..] == SourcePixel(g, x0, y0) && p0 != source
    ensures Scan(c, cn, colorDifference) == ScanUpTo(g, coloring[..], x0, y0, 9)
  {
    ghost var s := coloring[..];
    var c0 := coloring[d];
    var s0 := swt[d];
    var p1 := new byte[channels];
    c, cn, colorDifference := Start.c, Start.cn, Start.difference;
    ghost var k := 0;
    var yi := -1;
    while yi <= 1
      invariant -1 <= yi <= 2 && k == 3 * (yi + 1)
      invariant Scan(c, cn, colorDifference) == ScanUpTo(g, s, x0, y0, k)
      invariant p1.Length == channels
    {
      var y1 := y0 + yi;
      if y1 < 0 || y1 >= height {
        OutsideRow(g, s, x0, y0, yi, k);
      } else {
        c, cn, colorDifference := ScanRow(g, s, width, height, n, swt, coloring, source, channels, tolerance,
                                          p0, p1, isBackground, x0, y0, d, c0, s0, c, cn, colorDifference, yi, k);
      }
      k := k + 3;
      yi := yi + 1;
    }
  }

  /** The inner loop over one row of offsets inside the image. */
  method ScanRow(ghost g: Scene, ghost s: seq<int32>, width: nat, height: nat, n: int32, swt: array<int32>,
                 coloring: array<int32>, source: array<byte>, channels: nat, tolerance: int,
                 p0: array<byte>, p1: array<byte>, isBackground: bool, x0: nat, y0: nat, d: nat, c0: int32, s0: int32,
                 c: int32, cn: int32, colorDifference: int, yi: int, ghost k: nat)
    returns (c': int32, cn': int32, colorDifference': int)
    requires g.w == width && g.h == height && g.swt == swt[..] && g.source == source[..]
    requires g.channels == channels && g.tolerance == tolerance && s == coloring[..]
    requires At(g, s, x0, y0) && n == Times(height, width) && d == Flat(y0, x0, width)
    requires d < coloring.Length && c0 == coloring[d] && s0 == swt[d]
    requires isBackground == IsBackground(g, x0, y0)
    requires p0[..] == SourcePixel(g, x0, y0) && p1.Length == channels && p1 != source && p1 != p0
    requires -1 <= yi <= 1 && 0 <= y0 + yi < height && k == 3 * (yi + 1)
    requires Scan(c, cn, colorDifference) == ScanUpTo(g, s, x0, y0, k)
    modifies p1
    ensures Scan(c', cn', colorDifference') == ScanUpTo(g, s, x0, y0, k + 3)
  {
    c', cn', colorDifference' := c, cn, colorDifference;
    var xi := -1;
    ghost var j := k;
    while xi <= 1
      invariant -1 <= xi <= 2 && j == k + (xi + 1)
      invariant Scan(c', cn', colorDifference') == ScanUpTo(g, s, x0, y0, j)
      invariant p0[..] == SourcePixel(g, x0, y0)
    {
      c', cn', colorDifference' :=
        VisitNeighbour(g, s, width, height, n, swt, coloring, source, channels, tolerance, p0, p1, isBackground,
                       x0, y0, d, c0, s0, c', cn', colorDifference', yi, xi, j);
      j := j + 1;
      xi := xi + 1;
    }
    assert j == k + 3;
  }

  /** A row of offsets outside the image leaves the scan as it was. */
  lemma OutsideRow(g: Scene, s: seq<int32>, x0: nat, y0: nat, yi: int, k: nat)
    requires At(g, s, x0, y0) && -1 <= yi <= 1 && !(0 <= y0 + yi < g.h) && k == 3 * (yi + 1)
    ensures ScanUpTo(g, s, x0, y0, k + 3) == ScanUpTo(g, s, x0, y0, k)
  {
    assert DY(k) == yi && DY(k + 1) == yi && DY(k + 2) == yi;
    assert ScanUpTo(g, s, x0, y0, k + 1) == ScanUpTo(g, s, x0, y0, k);
    assert ScanUpTo(g, s, x0, y0, k + 2) == ScanUpTo(g, s, x0, y0, k + 1);
    assert ScanUpTo(g, s, x0, y0, k + 3) == ScanUpTo(g, s, x0, y0, k + 2);
  }

  /** The body of the inner loop: the visit of offset (xi, yi). */
  method VisitNeighbour(ghost g: Scene, ghost s: seq<int32>, width: nat, height: nat, n: int32, swt: array<int32>,
                        coloring: array<int32>, source: array<byte>, channels: nat, tolerance: int,
                        p0: array<byte>, p1: array<byte>, isBackground: bool, x0: nat, y0: nat, d: nat,
                        c0: int32, s0: int32, c: int32, cn: int32, colorDifference: int, yi: int, xi: int, ghost k: nat)
    returns (c': int32, cn': int32, colorDifference': int)
    requires g.w == width && g.h == height && g.swt == swt[..] && g.source == source[..]
    requires g.channels == channels && g.tolerance == tolerance && s == coloring[..]
    requires At(g, s, x0, y0) && n == Times(height, width) && d == Flat(y0, x0, width)
    requires d < coloring.Length && c0 == coloring[d] && s0 == swt[d]
    requires isBackground == IsBackground(g, x0, y0)
    requires p0[..] == SourcePixel(g, x0, y0) && p1.Length == channels && p1 != source && p1 != p0
    requires -1 <= yi <= 1 && -1 <= xi <= 1 && 0 <= y0 + yi < height && k == 3 * (yi + 1) + (xi + 1)
    requires Scan(c, cn, colorDifference) == ScanUpTo(g, s, x0, y0, k)
    modifies p1
    ensures Scan(c', cn', colorDifference') == ScanUpTo(g, s, x0, y0, k + 1)
  {
    ghost var st := Scan(c, cn, colorDifference);
    OffsetNumber(yi, xi);
    assert ScanUpTo(g, s, x0, y0, k + 1) == Step(g, s, x0, y0, st, yi, xi);
    assert Own(g, s, x0, y0) == c0;
    c', cn', colorDifference' := c, cn, colorDifference;
    if xi == 0 && yi == 0 {
      assert !IsNeighbour(width, height, x0, y0, yi, xi);
      return;
    }
    var x1 := x0 + xi;
    if x1 < 0 || x1 >= width {
      assert !IsNeighbour(width, height, x0, y0, yi, xi);
      return;
    }
    var y1: nat := y0 + yi;
    FlatBound(y1, x1, width, height);
    var d1 := Flat(y1, x1, width);
    assert IsNeighbour(width, height, x0, y0, yi, xi) && NeighbourIndex(width, height, x0, y0, yi, xi) == d1;
    var c1 := coloring[d1];
    assert NeighbourLabel(g, s, x0, y0, yi, xi) == c1;
    // The neighbour has the same label or is not connected
    if c0 == c1 || c1 >= n {
      assert !Candidate(g, s, x0, y0, yi, xi);
      return;
    }
    assert Candidate(g, s, x0, y0, yi, xi);
    var s1 := swt[d1];
    assert OwnWidth(g, x0, y0) == s0 && NeighbourWidth(g, x0, y0, yi, xi) == s1;
    // Both pixels are strokes of similar width
    if Linked(s0, s1) {
      c' := Min(c, c1);
      return;
    }
    // Background pixels are not joined by colour
    if isBackground {
      return;
    }
    var sim := NeighbourColour(g, width, height, source, channels, tolerance, p0, p1, x0, y0, yi, xi);
    if !sim.0 || colorDifference < sim.1 {
      return;
    }
    colorDifference' := sim.1;
    c' := Min(c, c1);
    cn' := c1;
  }

  /** Reads the neighbour's colour into `p1` and compares it with `p0`. */
  method NeighbourColour(ghost g: Scene, width: nat, height: nat, source: array<byte>, channels: nat, tolerance: int,
                         p0: array<byte>, p1: array<byte>, x0: nat, y0: nat, yi: int, xi: int)
    returns (sim: (bool, int))
    requires g.w == width && g.h == height && g.source == source[..] && g.channels == channels && g.tolerance == tolerance
    requires Fits(g) && x0 < width && y0 < height && IsNeighbour(width, height, x0, y0, yi, xi)
    requires p0[..] == SourcePixel(g, x0, y0) && p1.Length == channels && p1 != source && p1 != p0
    modifies p1
    ensures sim == Similarity(g, x0, y0, yi, xi)
  {
    var x1: nat, y1: nat := x0 + xi, y0 + yi;
    PixelInImage(y1, x1, width, height, channels);
    PixelAt(p1, source, channels, width, x1, y1);
    assert p1[..] == SourcePixel(g, x1, y1);
    sim := IsSameColorWithDifference(p0[..], p1[..], channels, tolerance);
  }

  // ---------------------------------------------------------------------------
  // The driver `ColorComponentsFixedPointByColorSimilarity`.
  // ---------------------------------------------------------------------------

  /** The pixel is at rest: the rule offers no label below its own. */
  ghost predicate AtRest(g: Scene, s: seq<int32>, x: nat, y: nat)
    requires At(g, s, x, y)
  {
    SimilarityMin(g, s, x, y) == Own(g, s, x, y)
  }

  /** Every pixel is at rest. */
  ghost predicate SimilarityStable(g: Scene, s: seq<int32>)
    requires Fits(g) && |s| == |g.swt|
  {
    forall y: nat, x: nat :: 0 <= y < g.h && 0 <= x < g.w ==> AtRest(g, s, x, y)
  }

  /** The labelling after the update of pixel (x, y): an offer below the
      pixel's label is followed four hops and stored. */
  function SimilarityWrite(g: Scene, s: seq<int32>, x: nat, y: nat): seq<int32>
    requires At(g, s, x, y) && Rooted(s, Times(g.h, g.w))
  {
    FlatBound(y, x, g.w, g.h);
    SimilarityOfferIsLabel(g, s, x, y);
    var r := SimilarityMin(g, s, x, y);
    if r < Own(g, s, x, y) then s[Flat(y, x, g.w) := Follow(s, Times(g.h, g.w), r, 4)] else s
  }

  /** One update keeps `Rooted`, never raises a label, changes nothing
      exactly when the pixel is at rest, and otherwise lowers the sum of the
      labels. */
  lemma SimilarityWriteFacts(g: Scene, s: seq<int32>, x: nat, y: nat)
    requires At(g, s, x, y) && Rooted(s, Times(g.h, g.w))
    ensures Rooted(SimilarityWrite(g, s, x, y), Times(g.h, g.w))
    ensures Lowered(s, SimilarityWrite(g, s, x, y))
    ensures SimilarityWrite(g, s, x, y) == s <==> AtRest(g, s, x, y)
    ensures SimilarityWrite(g, s, x, y) != s ==> Weight(SimilarityWrite(g, s, x, y)) < Weight(s)
  {
    FlatBound(y, x, g.w, g.h);
    SimilarityOfferIsLabel(g, s, x, y);
    var n := Times(g.h, g.w);
    var d := Flat(y, x, g.w);
    var r := SimilarityMin(g, s, x, y);
    if r < s[d] {
      var v := Follow(s, n, r, 4);
      LabelWriteLowers(s, n, d, v, false);
      LowerKeepsRooted(s, n, d, v);
    }
  }

  /** `b` is an 8-neighbour of `a` whose label the rule may give `a`:
      joined to it by stroke width, or, when `a` does not match the
      background, agreeing with it in colour. */
  ghost predicate Link(g: Scene, a: Point, b: Point)
  {
    Fits(g) && a.0 < g.w && a.1 < g.h && IsNeighbour(g.w, g.h, a.0, a.1, b.1 as int - a.1, b.0 as int - a.0) &&
    (Linked(OwnWidth(g, a.0, a.1), NeighbourWidth(g, a.0, a.1, b.1 as int - a.1, b.0 as int - a.0)) ||
     (!IsBackground(g, a.0, a.1) && Similarity(g, a.0, a.1, b.1 as int - a.1, b.0 as int - a.0).0))
  }

  ghost function LinkStep(g: Scene): (Point, Point) -> bool
  {
    (a: Point, b: Point) => Link(g, a, b)
  }

  /** Every label that names a pixel names one that the labelled pixel
      reaches through a chain of `Link`s. */
  ghost predicate SimilarityTied(g: Scene, s: seq<int32>)
  {
    Tied(LinkStep(g), g.w, s)
  }

  /** The neighbour a lowered label comes from is one `Link` away. */
  lemma CandidateIsLink(g: Scene, s: seq<int32>, x: nat, y: nat, yi: int, xi: int)
    requires At(g, s, x, y)
    requires StrokeJoin(g, s, x, y, yi, xi) || ColourMatch(g, s, x, y, yi, xi)
    ensures LinkStep(g)(PointOf(Flat(y, x, g.w), g.w), PointOf(NeighbourIndex(g.w, g.h, x, y, yi, xi), g.w))
  {
    PointOfFlat(y, x, g.w);
    PointOfFlat(y + yi, x + xi, g.w);
    assert PointOf(NeighbourIndex(g.w, g.h, x, y, yi, xi), g.w) == (x + xi, y + yi);
  }

  /** One update keeps `SimilarityTied`: the label it stores is a linked
      neighbour's label followed four hops. */
  lemma SimilarityWriteTied(g: Scene, s: seq<int32>, x: nat, y: nat)
    requires At(g, s, x, y) && Rooted(s, Times(g.h, g.w)) && SimilarityTied(g, s)
    ensures SimilarityTied(g, SimilarityWrite(g, s, x, y))
  {
    FlatBound(y, x, g.w, g.h);
    SimilarityOfferIsLabel(g, s, x, y);
    var n := Times(g.h, g.w);
    var d := Flat(y, x, g.w);
    var step := LinkStep(g);
    var r := SimilarityMin(g, s, x, y);
    var j := SimilarityMinSpec(g, s, x, y);
    if r < s[d] {
      var d1 := NeighbourIndex(g.w, g.h, x, y, DY(j), DX(j));
      CandidateIsLink(g, s, x, y, DY(j), DX(j));
      ReachesStep(step, PointOf(d, g.w), PointOf(d1, g.w), PointOf(r, g.w));
      var v := Follow(s, n, r, 4);
      FollowReaches(step, g.w, s, n, r, 4);
      ReachesTrans(step, PointOf(d, g.w), PointOf(r, g.w), PointOf(v, g.w));
      WriteTied(step, g.w, s, d, v);
    }
  }

  /** The update of pixel (x, y), as the driver's loop body writes it. */
  method SimilarityPixel(width: nat, height: nat, swt: array<int32>, coloring: array<int32>,
                         source: array<byte>, background: array<byte>, channels: nat,
                         componentIndexByColoring: array<int32>, components: array<Component>,
                         tolerance: int, enlarged: bool, x: nat, y: nat)
    returns (wrote: bool)
    requires swt != coloring && componentIndexByColoring != coloring
    requires At(Scene(width, height, swt[..], source[..], background[..], channels, tolerance, enlarged), coloring[..], x, y)
    requires Rooted(coloring[..], Times(height, width))
    requires IndexFits(componentIndexByColoring[..], components.Length, Times(height, width))
    modifies coloring, components
    ensures coloring[..] ==
      SimilarityWrite(Scene(width, height, swt[..], source[..], background[..], channels, tolerance, enlarged), old(coloring[..]), x, y)
    ensures components[..] ==
      MergeParents(old(components[..]), componentIndexByColoring[..],
                   Scene(width, height, swt[..], source[..], background[..], channels, tolerance, enlarged),
                   old(coloring[..]), x, y)
    ensures wrote <==>
      !AtRest(Scene(width, height, swt[..], source[..], background[..], channels, tolerance, enlarged), old(coloring[..]), x, y)
    ensures SimilarityTied(Scene(width, height, swt[..], source[..], background[..], channels, tolerance, enlarged), old(coloring[..])) ==>
            SimilarityTied(Scene(width, height, swt[..], source[..], background[..], channels, tolerance, enlarged), coloring[..])
  {
    ghost var g := Scene(width, height, swt[..], source[..], background[..], channels, tolerance, enlarged);
    SimilarityOfferIsLabel(g, coloring[..], x, y);
    if SimilarityTied(g, coloring[..]) {
      SimilarityWriteTied(g, coloring[..], x, y);
    }
    var n: int32 := Times(height, width);
    FlatBound(y, x, width, height);
    var d := Flat(y, x, width);
    var c := coloring[d];
    var cn := ColorComponentByColorSimilarity(width, height, n, swt, coloring, source, background, channels,
                                              componentIndexByColoring, components, x, y, d, tolerance, enlarged);
    wrote := false;
    if cn < c {
      // Fixed point: four hops
      cn := FollowFour(coloring, n, cn);
      coloring[d] := cn;
      wrote := true;
    }
  }

  /** One row of a sweep. */
  method SimilarityRowSweep(width: nat, height: nat, swt: array<int32>, coloring: array<int32>,
                            source: array<byte>, background: array<byte>, channels: nat,
                            componentIndexByColoring: array<int32>, components: array<Component>,
                            tolerance: int, enlarged: bool, y: nat)
    returns (wrote: bool)
    requires swt != coloring && componentIndexByColoring != coloring
    requires Fits(Scene(width, height, swt[..], source[..], background[..], channels, tolerance, enlarged))
    requires coloring.Length == swt.Length && y < height
    requires Rooted(coloring[..], Times(height, width))
    requires IndexFits(componentIndexByColoring[..], components.Length, Times(height, width))
    modifies coloring, components
    ensures Rooted(coloring[..], Times(height, width))
    ensures Lowered(old(coloring[..]), coloring[..])
    ensures ParentsLowered(old(components[..]), components[..])
    ensures !wrote ==>
      coloring[..] == old(coloring[..]) &&
      (forall x: nat :: 0 <= x < width ==>
        AtRest(Scene(width, height, swt[..], source[..], background[..], channels, tolerance, enlarged), coloring[..], x, y))
    ensures wrote ==> Weight(coloring[..]) < Weight(old(coloring[..]))
    ensures SimilarityTied(Scene(width, height, swt[..], source[..], background[..], channels, tolerance, enlarged), old(coloring[..])) ==>
            SimilarityTied(Scene(width, height, swt[..], source[..], background[..], channels, tolerance, enlarged), coloring[..])
  {
    ghost var g := Scene(width, height, swt[..], source[..], background[..], channels, tolerance, enlarged);
    ghost var s0 := coloring[..];
    wrote := false;
    var x := 0;
    while x < width
      invariant 0 <= x <= width
      invariant RowSwept(g, s0, coloring[..], old(components[..]), components[..], y, x, wrote)
    {
      ghost var before, comps := coloring[..], components[..];
      var w := SimilarityPixel(width, height, swt, coloring, source, background, channels,
                               componentIndexByColoring, components, tolerance, enlarged, x, y);
      assert Scene(width, height, swt[..], source[..], background[..], channels, tolerance, enlarged) == g;
      RowSweptStep(g, s0, before, coloring[..], old(components[..]), comps, components[..],
                   componentIndexByColoring[..], y, x, wrote, w);
      if w {
        wrote := true;
      }
      x := x + 1;
    }
  }

  /** What a row sweep has done after its first `x` pixels, from labelling
      `s0` and components `c0` to `s` and `c`. */
  ghost predicate RowSwept(g: Scene, s0: seq<int32>, s: seq<int32>, c0: seq<Component>, c: seq<Component>,
                           y: nat, x: nat, wrote: bool)
  {
    Fits(g) && y < g.h && x <= g.w && |s0| == |s| == |g.swt| &&
    Rooted(s, Times(g.h, g.w)) &&
    Lowered(s0, s) &&
    ParentsLowered(c0, c) &&
    (!wrote ==> s == s0 && (forall x': nat :: 0 <= x' < x ==> AtRest(g, s0, x', y))) &&
    (wrote ==> Weight(s) < Weight(s0)) &&
    (SimilarityTied(g, s0) ==> SimilarityTied(g, s))
  }

  /** The update of pixel `x` extends `RowSwept` by one pixel. */
  lemma RowSweptStep(g: Scene, s0: seq<int32>, s: seq<int32>, s': seq<int32>, c0: seq<Component>, c: seq<Component>,
                     c': seq<Component>, index: seq<int32>, y: nat, x: nat, wrote: bool, w: bool)
    requires RowSwept(g, s0, s, c0, c, y, x, wrote) && x < g.w
    requires IndexFits(index, |c|, Times(g.h, g.w))
    requires s' == SimilarityWrite(g, s, x, y)
    requires c' == MergeParents(c, index, g, s, x, y)
    requires w <==> !AtRest(g, s, x, y)
    requires SimilarityTied(g, s) ==> SimilarityTied(g, s')
    ensures RowSwept(g, s0, s', c0, c', y, x + 1, wrote || w)
  {
    SimilarityWriteFacts(g, s, x, y);
    MergeLowers(c, index, g, s, x, y);
  }


  /** One sweep in scanline order; it writes nothing exactly when the
      labelling it starts from is `SimilarityStable`. */
  method SimilaritySweep(width: nat, height: nat, swt: array<int32>, coloring: array<int32>,
                         source: array<byte>, background: array<byte>, channels: nat,
                         componentIndexByColoring: array<int32>, components: array<Component>,
                         tolerance: int, enlarged: bool)
    returns (wrote: bool)
    requires swt != coloring && componentIndexByColoring != coloring
    requires Fits(Scene(width, height, swt[..], source[..], background[..], channels, tolerance, enlarged))
    requires coloring.Length == swt.Length
    requires Rooted(coloring[..], Times(height, width))
    requires IndexFits(componentIndexByColoring[..], components.Length, Times(height, width))
    modifies coloring, components
    ensures Rooted(coloring[..], Times(height, width))
    ensures Lowered(old(coloring[..]), coloring[..])
    ensures ParentsLowered(old(components[..]), components[..])
    ensures !wrote ==>
      coloring[..] == old(coloring[..]) &&
      SimilarityStable(Scene(width, height, swt[..], source[..], background[..], channels, tolerance, enlarged), coloring[..])
    ensures wrote ==> Weight(coloring[..]) < Weight(old(coloring[..]))
    ensures SimilarityTied(Scene(width, height, swt[..], source[..], background[..], channels, tolerance, enlarged), old(coloring[..])) ==>
            SimilarityTied(Scene(width, height, swt[..], source[..], background[..], channels, tolerance, enlarged), coloring[..])
  {
    ghost var g := Scene(width, height, swt[..], source[..], background[..], channels, tolerance, enlarged);
    ghost var s0 := coloring[..];
    wrote := false;
    var y := 0;
    while y < height
      invariant 0 <= y <= height
      invariant Swept(g, s0, coloring[..], old(components[..]), components[..], y, wrote)
    {
      ghost var before, comps := coloring[..], components[..];
      var w := SimilarityRowSweep(width, height, swt, coloring, source, background, channels,
                                  componentIndexByColoring, components, tolerance, enlarged, y);
      assert Scene(width, height, swt[..], source[..], background[..], channels, tolerance, enlarged) == g;
      SweptStep(g, s0, before, coloring[..], old(components[..]), comps, components[..], y, wrote, w);
      if w {
        wrote := true;
      }
      y := y + 1;
    }
  }

  /** What a sweep has done after its first `y` rows, from labelling `s0`
      and components `c0` to `s` and `c`. */
  ghost predicate Swept(g: Scene, s0: seq<int32>, s: seq<int32>, c0: seq<Component>, c: seq<Component>,
                        y: nat, wrote: bool)
  {
    Fits(g) && y <= g.h && |s0| == |s| == |g.swt| &&
    Rooted(s, Times(g.h, g.w)) &&
    Lowered(s0, s) &&
    ParentsLowered(c0, c) &&
    (!wrote ==> s == s0 && (forall y': nat, x': nat :: 0 <= y' < y && 0 <= x' < g.w ==> AtRest(g, s0, x', y'))) &&
    (wrote ==> Weight(s) < Weight(s0)) &&
    (SimilarityTied(g, s0) ==> SimilarityTied(g, s))
  }

  /** The sweep of row `y` extends `Swept` by one row. */
  lemma SweptStep(g: Scene, s0: seq<int32>, s: seq<int32>, s': seq<int32>, c0: seq<Component>, c: seq<Component>,
                  c': seq<Component>, y: nat, wrote: bool, w: bool)
    requires Swept(g, s0, s, c0, c, y, wrote) && y < g.h
    requires |s'| == |s| && Rooted(s', Times(g.h, g.w)) && Lowered(s, s') && ParentsLowered(c, c')
    requires !w ==> s' == s && forall x: nat :: 0 <= x < g.w ==> AtRest(g, s', x, y)
    requires w ==> Weight(s') < Weight(s)
    requires SimilarityTied(g, s) ==> SimilarityTied(g, s')
    ensures Swept(g, s0, s', c0, c', y + 1, wrote || w)
  {
  }

  /** `ColorComponentsFixedPointByColorSimilarity`: sweeps until one sweep
      writes nothing, so it ends with every pixel at rest. Labels only go
      down, `Rooted` is kept, and of the components only parents change, each
      only downwards. A labelling that is `SimilarityTied` (as the initial
      labellings are, `PreparedIsTied`) stays so: a pixel is only ever
      given the label of a pixel it reaches through stroke joins and colour
      matches. */
  method ColorComponentsFixedPointByColorSimilarity(width: nat, height: nat, swt: array<int32>, coloring: array<int32>,
                                                    source: array<byte>, background: array<byte>, channels: nat,
                                                    componentIndexByColoring: array<int32>, components: array<Component>,
                                                    tolerance: int, enlarged: bool)
    returns (rounds: nat)
    requires swt != coloring && componentIndexByColoring != coloring
    requires Fits(Scene(width, height, swt[..], source[..], background[..], channels, tolerance, enlarged))
    requires coloring.Length == swt.Length
    requires Rooted(coloring[..], Times(height, width))
    requires IndexFits(componentIndexByColoring[..], components.Length, Times(height, width))
    modifies coloring, components
    ensures rounds >= 1
    ensures Rooted(coloring[..], Times(height, width))
    ensures SimilarityStable(Scene(width, height, swt[..], source[..], background[..], channels, tolerance, enlarged), coloring[..])
    ensures Lowered(old(coloring[..]), coloring[..])
    ensures ParentsLowered(old(components[..]), components[..])
    ensures SimilarityTied(Scene(width, height, swt[..], source[..], background[..], channels, tolerance, enlarged), old(coloring[..])) ==>
            SimilarityTied(Scene(width, height, swt[..], source[..], background[..], channels, tolerance, enlarged), coloring[..])
  {
    rounds := 0;
    var isColored := false;
    while !isColored
      invariant Rooted(coloring[..], Times(height, width)) && coloring.Length == swt.Length
      invariant Lowered(old(coloring[..]), coloring[..])
      invariant ParentsLowered(old(components[..]), components[..])
      invariant SimilarityTied(Scene(width, height, swt[..], source[..], background[..], channels, tolerance, enlarged), old(coloring[..])) ==> SimilarityTied(Scene(width, height, swt[..], source[..], background[..], channels, tolerance, enlarged), coloring[..])
      invariant isColored ==>
        rounds >= 1 &&
        SimilarityStable(Scene(width, height, swt[..], source[..], background[..], channels, tolerance, enlarged), coloring[..])
      decreases Weight(coloring[..]), if isColored then 0 else 1
    {
      rounds := rounds + 1;
      var wrote := SimilaritySweep(width, height, swt, coloring, source, background, channels,
                                   componentIndexByColoring, components, tolerance, enlarged);
      isColored := !wrote;
    }
  }
}
