/** Connected-component labelling of the stroke-width image by fixed-point
    relaxation. Every pixel carries a label in `coloring`; a sweep visits the
    pixels in scanline order and lowers a pixel's label to the least label
    among the neighbours it is joined to. The drivers repeat sweeps until one
    of them changes nothing and return the number of sweeps.

    Labels: after `PrepareComponents` a stroke pixel `i` carries `i` and any
    other pixel `n + i`, where `n` is the pixel count; `ModOverflow(label, n)`
    maps a label back to a pixel index. Termination of the drivers, which the
    source leaves implicit, is proved here with the sum of all labels as
    measure: every write lowers a label. */
module Labelling {
  import opened Numerics
  import opened Raster
  import opened PixelOps
  import opened Chains

  /** Row-major index `y * w + x` of pixel (x, y) of a single-channel image. */
  function Flat(y: nat, x: nat, w: nat): nat
  {
    Times(y, w) + x
  }

  lemma {:induction false} TimesMonotone(a: nat, b: nat, w: nat)
    requires a <= b
    ensures Times(a, w) <= Times(b, w)
    decreases b
  {
    if a < b {
      TimesMonotone(a, b - 1, w);
    }
  }

  lemma FlatBound(y: nat, x: nat, w: nat, h: nat)
    requires y < h && x < w
    ensures Flat(y, x, w) < Times(h, w)
  {
    TimesMonotone(y + 1, h, w);
  }

  // ---------------------------------------------------------------------------
  // Initial labellings.
  // ---------------------------------------------------------------------------

  /** `PrepareComponents`: stroke pixels (`swt[i] < int.MaxValue`) are
      labelled with their own index, the others with `n + i` (32-bit sum). */
  method PrepareComponents(swt: array<int32>, components: array<int32>)
    requires swt.Length <= components.Length <= IntMax
    requires swt != components
    modifies components
    ensures forall i :: 0 <= i < swt.Length ==>
      components[i] == if swt[i] < IntMax then i else Wrap32(components.Length + i)
    ensures forall i :: swt.Length <= i < components.Length ==> components[i] == old(components[i])
  {
    var n := components.Length;
    var i := 0;
    while i < swt.Length
      invariant 0 <= i <= swt.Length
      invariant forall k :: 0 <= k < i ==> components[k] == if swt[k] < IntMax then k else Wrap32(n + k)
      invariant forall k :: i <= k < components.Length ==> components[k] == old(components[k])
    {
      var stroke := swt[i];
      components[i] := if stroke < IntMax then i else Wrap32(n + i);
      i := i + 1;
    }
  }

  /** `IndexComponents`: every pixel labelled with its own index. */
  method IndexComponents(components: array<int32>)
    requires components.Length <= IntMax
    modifies components
    ensures forall i :: 0 <= i < components.Length ==> components[i] == i
  {
    var i := 0;
    while i < components.Length
      invariant 0 <= i <= components.Length
      invariant forall k :: 0 <= k < i ==> components[k] == k
    {
      components[i] := i;
      i := i + 1;
    }
  }

  /** The labelling `PrepareComponents` writes when `swt` covers all `n`
      pixels. */
  ghost predicate Prepared(swt: seq<int32>, s: seq<int32>)
  {
    |swt| == |s| <= IntMax && forall i :: 0 <= i < |s| ==> s[i] == if swt[i] < IntMax then i else Wrap32(|s| + i)
  }

  // ---------------------------------------------------------------------------
  // The labelling invariant.
  // ---------------------------------------------------------------------------

  /** Labels are non-negative, and following a label `L < n` to pixel `L`
      never climbs: pixel `L`'s own label is at most `L`. */
  ghost predicate Rooted(s: seq<int32>, n: int)
  {
    |s| == n &&
    (forall k :: 0 <= k < n ==> 0 <= s[k]) &&
    (forall k :: 0 <= k < n && s[k] < n ==> s[s[k]] <= s[k])
  }

  /** `Rooted`, and every stroke pixel carries a label below `n`. */
  ghost predicate Labelled(swt: seq<int32>, s: seq<int32>, n: int)
  {
    Rooted(s, n) && |swt| == n && forall k :: 0 <= k < n && swt[k] != IntMax ==> s[k] < n
  }

  /** The labelling `PrepareComponents` produces is `Labelled`, and every
      label reduces back to its own pixel, provided no `n + i` wraps. */
  lemma PreparedIsLabelled(swt: seq<int32>, s: seq<int32>)
    requires Prepared(swt, s) && 2 * |s| <= IntMax + 1
    ensures Labelled(swt, s, |s|)
    ensures forall i :: 0 <= i < |s| ==> 0 <= s[i] < 2 * |s| && ModOverflow(s[i], |s|) == i
  {
    forall i | 0 <= i < |s|
      ensures 0 <= s[i] < 2 * |s| && ModOverflow(s[i], |s|) == i
    {
      if swt[i] == IntMax {
        assert s[i] == |s| + i;
      }
    }
  }

  /** `IndexComponents` gives a labelling that is `Labelled` for every `swt`. */
  lemma IndexedIsLabelled(swt: seq<int32>, s: seq<int32>)
    requires |swt| == |s| && forall i :: 0 <= i < |s| ==> s[i] == i
    ensures Labelled(swt, s, |s|)
  {
  }

  /** Lowering the label of pixel `p` to a label `v` whose own pixel is
      already at most `v` keeps the invariant, and lowers the sum of all labels
      by exactly the drop. */
  lemma LowerKeepsLabelled(swt: seq<int32>, s: seq<int32>, n: int, p: nat, v: int32)
    requires Labelled(swt, s, n) && p < n && 0 <= v < n && s[v] <= v && v <= s[p]
    ensures Labelled(swt, s[p := v], n)
    ensures Weight(s[p := v]) == Weight(s) - (s[p] - v)
  {
    LowerKeepsRooted(s, n, p, v);
  }

  lemma LowerKeepsRooted(s: seq<int32>, n: int, p: nat, v: int32)
    requires Rooted(s, n) && p < n && 0 <= v < n && s[v] <= v && v <= s[p]
    ensures Rooted(s[p := v], n)
    ensures Weight(s[p := v]) == Weight(s) - (s[p] - v)
  {
    var t := s[p := v];
    forall k | 0 <= k < n && t[k] < n
      ensures t[t[k]] <= t[k]
    {
      if k != p && s[k] == p {
        assert t[t[k]] == v;
      }
    }
    WeightLower(s, p, v);
  }

  // ---------------------------------------------------------------------------
  // The termination measure.
  // ---------------------------------------------------------------------------

  /** Sum of the labels, each counted from `int.MinValue`. */
  function Weight(s: seq<int32>): nat
  {
    if s == [] then 0 else (s[0] - IntMin) + Weight(s[1..])
  }

  lemma {:induction false} WeightLower(s: seq<int32>, p: nat, v: int32)
    requires p < |s| && v <= s[p]
    ensures Weight(s[p := v]) == Weight(s) - (s[p] - v)
  {
    if p == 0 {
      assert s[p := v][1..] == s[1..];
    } else {
      WeightLower(s[1..], p - 1, v);
      assert s[p := v][1..] == s[1..][p - 1 := v];
    }
  }

  // ---------------------------------------------------------------------------
  // Following a label: `cn = coloring[ModOverflow(cn, n)]`, repeated.
  // ---------------------------------------------------------------------------

  /** `v` followed `hops` times from a label `v` whose own pixel is at most
      `v`. Under `Rooted` the chain never climbs and ends at such a label. */
  function Follow(s: seq<int32>, n: int32, v: int32, hops: nat): (r: int32)
    requires Rooted(s, n) && 0 <= v < n && s[v] <= v
    ensures 0 <= r <= v && s[r] <= r
    decreases hops
  {
    if hops == 0 then v else Follow(s, n, s[ModOverflow(v, n)], hops - 1)
  }

  /** The four-hop chain of the drivers, written as the source's loop. */
  method FollowFour(coloring: array<int32>, n: int32, cn: int32) returns (r: int32)
    requires Rooted(coloring[..], n) && 0 <= cn < n && coloring[cn] <= cn
    ensures r == Follow(coloring[..], n, cn, 4)
  {
    ghost var s := coloring[..];
    r := cn;
    var i := 0;
    while i < 4
      invariant 0 <= i <= 4 && 0 <= r < n && s[r] <= r
      invariant Follow(s, n, r, 4 - i) == Follow(s, n, cn, 4)
    {
      r := coloring[ModOverflow(r, n)];
      i := i + 1;
    }
  }

  // ---------------------------------------------------------------------------
  // `ColorComponentByStrokeWidth`: the least label over the joined
  // 8-neighbours and the pixel itself.
  // ---------------------------------------------------------------------------

  /** Two stroke widths are joined: both pixels are strokes and the wider is at
      most three times the narrower (`smin * 3` in 32-bit arithmetic). */
  predicate Linked(s0: int32, s1: int32)
  {
    s0 != IntMax && s1 != IntMax && Max(s0, s1) <= Wrap32(Min(s0, s1) * 3)
  }

  /** Offset (xi, yi) from (x0, y0) is an 8-neighbour inside the image. */
  predicate IsNeighbour(w: nat, h: nat, x0: nat, y0: nat, yi: int, xi: int)
  {
    -1 <= yi <= 1 && -1 <= xi <= 1 && !(xi == 0 && yi == 0) && 0 <= y0 + yi < h && 0 <= x0 + xi < w
  }

  function NeighbourIndex(w: nat, h: nat, x0: nat, y0: nat, yi: int, xi: int): (d1: nat)
    requires IsNeighbour(w, h, x0, y0, yi, xi)
    ensures d1 < Times(h, w)
  {
    FlatBound(y0 + yi, x0 + xi, w, h);
    Flat(y0 + yi, x0 + xi, w)
  }

  /** The neighbour at offset (xi, yi) is joined to the pixel `d` at (x0, y0). */
  predicate Joined(w: nat, h: nat, swt: seq<int32>, x0: nat, y0: nat, d: nat, yi: int, xi: int)
    requires |swt| == Times(h, w) && d < |swt|
  {
    IsNeighbour(w, h, x0, y0, yi, xi) && Linked(swt[d], swt[NeighbourIndex(w, h, x0, y0, yi, xi)])
  }

  /** What the neighbour at (xi, yi) offers: its label when joined, else `int.MaxValue`. */
  function StrokeOffer(w: nat, h: nat, swt: seq<int32>, s: seq<int32>, x0: nat, y0: nat, d: nat, yi: int, xi: int): int32
    requires |swt| == |s| == Times(h, w) && d < |s|
  {
    if Joined(w, h, swt, x0, y0, d, yi, xi) then s[NeighbourIndex(w, h, x0, y0, yi, xi)] else IntMax
  }

  /** The offers of the 3x3 block around (x0, y0), row by row: entry
      `[yi + 1][xi + 1]` is the offer of offset (xi, yi). */
  function StrokeOffers(w: nat, h: nat, swt: seq<int32>, s: seq<int32>, x0: nat, y0: nat, d: nat): (o: seq<seq<int32>>)
    requires |swt| == |s| == Times(h, w) && d < |s|
    ensures |o| == 3 && forall i :: 0 <= i < 3 ==> |o[i]| == 3
  {
    seq<seq<int32>>(3, i requires 0 <= i < 3 =>
      seq<int32>(3, j requires 0 <= j < 3 => StrokeOffer(w, h, swt, s, x0, y0, d, i - 1, j - 1)))
  }

  /** The least entry of `o`, starting from `int.MaxValue`, scanning left to right. */
  function Least(o: seq<int32>): int32
  {
    if o == [] then IntMax else Min(Least(o[..|o| - 1]), o[|o| - 1])
  }

  /** The least entry of the rows, scanning them in order. */
  function LeastOfRows(rows: seq<seq<int32>>): int32
  {
    if rows == [] then IntMax else Min(LeastOfRows(rows[..|rows| - 1]), Least(rows[|rows| - 1]))
  }

  /** `Least` is a lower bound of the entries. */
  lemma {:induction false} LeastBound(o: seq<int32>)
    ensures forall j :: 0 <= j < |o| ==> Least(o) <= o[j]
  {
    if o != [] {
      var p := o[..|o| - 1];
      LeastBound(p);
      assert forall j :: 0 <= j < |p| ==> p[j] == o[j];
    }
  }

  /** `Least` is `int.MaxValue` or the entry at the returned position. */
  lemma {:induction false} LeastWitness(o: seq<int32>) returns (j: int)
    ensures Least(o) == IntMax || (0 <= j < |o| && Least(o) == o[j])
  {
    j := -1;
    if o != [] {
      var p := o[..|o| - 1];
      j := LeastWitness(p);
      if Least(o) != o[|o| - 1] {
        assert Least(o) == Least(p);
        assert j < |p| ==> p[j] == o[j];
      } else {
        j := |o| - 1;
      }
    }
  }

  lemma {:induction false} LeastOfRowsBound(rows: seq<seq<int32>>)
    ensures forall i, j :: 0 <= i < |rows| && 0 <= j < |rows[i]| ==> LeastOfRows(rows) <= rows[i][j]
  {
    if rows != [] {
      var p := rows[..|rows| - 1];
      LeastOfRowsBound(p);
      LeastBound(rows[|rows| - 1]);
      assert forall i :: 0 <= i < |p| ==> p[i] == rows[i];
    }
  }

  lemma {:induction false} LeastOfRowsWitness(rows: seq<seq<int32>>) returns (i: int, j: int)
    ensures LeastOfRows(rows) == IntMax ||
            (0 <= i < |rows| && 0 <= j < |rows[i]| && LeastOfRows(rows) == rows[i][j])
  {
    i, j := -1, -1;
    if rows != [] {
      var p := rows[..|rows| - 1];
      var last := rows[|rows| - 1];
      if LeastOfRows(rows) == Least(last) {
        i := |rows| - 1;
        j := LeastWitness(last);
      } else {
        i, j := LeastOfRowsWitness(p);
        assert 0 <= i < |p| ==> p[i] == rows[i];
      }
    }
  }

  /** The label `ColorComponentByStrokeWidth` returns for pixel `d` at
      (x0, y0); its meaning is `StrokeNeighbourMinSpec`. */
  function StrokeNeighbourMin(w: nat, h: nat, swt: seq<int32>, s: seq<int32>, x0: nat, y0: nat, d: nat): int32
    requires |swt| == |s| == Times(h, w) && d < |s|
  {
    Min(LeastOfRows(StrokeOffers(w, h, swt, s, x0, y0, d)), s[d])
  }

  /** The returned label is at most the pixel's own label and every joined
      neighbour's, and equal to one of them; a pixel that is not a stroke
      keeps its label. */
  lemma StrokeNeighbourMinSpec(w: nat, h: nat, swt: seq<int32>, s: seq<int32>, x0: nat, y0: nat, d: nat)
    requires |swt| == |s| == Times(h, w) && d < |s|
    ensures StrokeNeighbourMin(w, h, swt, s, x0, y0, d) <= s[d]
    ensures forall yi, xi :: Joined(w, h, swt, x0, y0, d, yi, xi) ==>
      StrokeNeighbourMin(w, h, swt, s, x0, y0, d) <= s[NeighbourIndex(w, h, x0, y0, yi, xi)]
    ensures StrokeNeighbourMin(w, h, swt, s, x0, y0, d) == s[d] ||
      exists yi, xi :: Joined(w, h, swt, x0, y0, d, yi, xi) &&
        StrokeNeighbourMin(w, h, swt, s, x0, y0, d) == s[NeighbourIndex(w, h, x0, y0, yi, xi)]
    ensures swt[d] == IntMax ==> StrokeNeighbourMin(w, h, swt, s, x0, y0, d) == s[d]
  {
    OffersBound(w, h, swt, s, x0, y0, d);
    var yi, xi := OffersAttained(w, h, swt, s, x0, y0, d);
  }

  lemma OffersBound(w: nat, h: nat, swt: seq<int32>, s: seq<int32>, x0: nat, y0: nat, d: nat)
    requires |swt| == |s| == Times(h, w) && d < |s|
    ensures forall yi, xi :: Joined(w, h, swt, x0, y0, d, yi, xi) ==>
      LeastOfRows(StrokeOffers(w, h, swt, s, x0, y0, d)) <= s[NeighbourIndex(w, h, x0, y0, yi, xi)]
  {
    var o := StrokeOffers(w, h, swt, s, x0, y0, d);
    LeastOfRowsBound(o);
    forall yi, xi | Joined(w, h, swt, x0, y0, d, yi, xi)
      ensures LeastOfRows(o) <= s[NeighbourIndex(w, h, x0, y0, yi, xi)]
    {
      assert o[yi + 1][xi + 1] == StrokeOffer(w, h, swt, s, x0, y0, d, yi, xi);
    }
  }

  lemma OffersAttained(w: nat, h: nat, swt: seq<int32>, s: seq<int32>, x0: nat, y0: nat, d: nat) returns (yi: int, xi: int)
    requires |swt| == |s| == Times(h, w) && d < |s|
    ensures LeastOfRows(StrokeOffers(w, h, swt, s, x0, y0, d)) == IntMax ||
      (Joined(w, h, swt, x0, y0, d, yi, xi) &&
       LeastOfRows(StrokeOffers(w, h, swt, s, x0, y0, d)) == s[NeighbourIndex(w, h, x0, y0, yi, xi)])
  {
    var o := StrokeOffers(w, h, swt, s, x0, y0, d);
    var i, j := LeastOfRowsWitness(o);
    yi, xi := i - 1, j - 1;
    if LeastOfRows(o) != IntMax {
      assert o[i][j] == StrokeOffer(w, h, swt, s, x0, y0, d, yi, xi);
      RealOffer(w, h, swt, s, x0, y0, d, yi, xi);
    }
  }

  /** An offer other than `int.MaxValue` comes from a joined neighbour. */
  lemma RealOffer(w: nat, h: nat, swt: seq<int32>, s: seq<int32>, x0: nat, y0: nat, d: nat, yi: int, xi: int)
    requires |swt| == |s| == Times(h, w) && d < |s|
    requires StrokeOffer(w, h, swt, s, x0, y0, d, yi, xi) != IntMax
    ensures Joined(w, h, swt, x0, y0, d, yi, xi)
    ensures StrokeOffer(w, h, swt, s, x0, y0, d, yi, xi) == s[NeighbourIndex(w, h, x0, y0, yi, xi)]
  {
  }

  /** `ColorComponentByStrokeWidth`. */
  method ColorComponentByStrokeWidth(width: nat, height: nat, swt: array<int32>, coloring: array<int32>,
                                     x0: nat, y0: nat, d: nat) returns (r: int32)
    requires swt.Length == coloring.Length == Times(height, width) && d < coloring.Length
    ensures r == StrokeNeighbourMin(width, height, swt[..], coloring[..], x0, y0, d)
  {
    ghost var o := StrokeOffers(width, height, swt[..], coloring[..], x0, y0, d);
    var c: int32 := IntMax;
    var c0 := coloring[d];
    var yi := -1;
    while yi <= 1
      invariant -1 <= yi <= 2
      invariant c == LeastOfRows(o[..yi + 1])
    {
      RowsStep(o, yi + 1);
      var y1 := y0 + yi;
      if y1 < 0 || y1 >= height {
        NoRow(width, height, swt[..], coloring[..], x0, y0, d, yi);
        assert LeastOfRows(o[..yi + 2]) == Min(c, IntMax) == c;
        yi := yi + 1;
        continue;
      }
      c := StrokeRow(width, height, swt, coloring, x0, y0, d, yi, c);
      assert c == LeastOfRows(o[..yi + 2]);
      yi := yi + 1;
    }
    assert o[..3] == o;
    r := Min(c, c0);
  }

  /** The inner loop of `ColorComponentByStrokeWidth` over row `yi`. */
  method StrokeRow(width: nat, height: nat, swt: array<int32>, coloring: array<int32>,
                   x0: nat, y0: nat, d: nat, yi: int, c: int32) returns (c': int32)
    requires swt.Length == coloring.Length == Times(height, width) && d < coloring.Length
    requires -1 <= yi <= 1 && 0 <= y0 + yi < height
    ensures c' == Min(c, Least(StrokeOffers(width, height, swt[..], coloring[..], x0, y0, d)[yi + 1]))
  {
    ghost var row := StrokeOffers(width, height, swt[..], coloring[..], x0, y0, d)[yi + 1];
    c' := c;
    var xi := -1;
    while xi <= 1
      invariant -1 <= xi <= 2
      invariant c' == Min(c, Least(row[..xi + 1]))
    {
      RowStep(row, xi + 1);
      var x1 := x0 + xi;
      if (xi == 0 && yi == 0) || x1 < 0 || x1 >= width {
        assert row[xi + 1] == IntMax;
        xi := xi + 1;
        continue;
      }
      var offer := NeighbourOffer(width, height, swt, coloring, x0, y0, d, yi, xi);
      assert offer == row[xi + 1];
      c' := Min(c', offer);
      xi := xi + 1;
    }
    assert row[..3] == row;
  }

  lemma RowStep(o: seq<int32>, k: nat)
    requires k < |o|
    ensures Least(o[..k + 1]) == Min(Least(o[..k]), o[k])
  {
    assert o[..k + 1][..k] == o[..k];
  }

  lemma RowsStep(rows: seq<seq<int32>>, k: nat)
    requires k < |rows|
    ensures LeastOfRows(rows[..k + 1]) == Min(LeastOfRows(rows[..k]), Least(rows[k]))
  {
    assert rows[..k + 1][..k] == rows[..k];
  }

  /** A row outside the image offers nothing. */
  lemma NoRow(w: nat, h: nat, swt: seq<int32>, s: seq<int32>, x0: nat, y0: nat, d: nat, yi: int)
    requires |swt| == |s| == Times(h, w) && d < |s| && -1 <= yi <= 1 && !(0 <= y0 + yi < h)
    ensures Least(StrokeOffers(w, h, swt, s, x0, y0, d)[yi + 1]) == IntMax
  {
    var row := StrokeOffers(w, h, swt, s, x0, y0, d)[yi + 1];
    var j := LeastWitness(row);
    assert forall j :: 0 <= j < 3 ==> row[j] == IntMax;
  }

  /** The body of the inner loop for an in-image neighbour: its label when
      both widths are strokes within a factor of three, else no offer. */
  method NeighbourOffer(width: nat, height: nat, swt: array<int32>, coloring: array<int32>,
                        x0: nat, y0: nat, d: nat, yi: int, xi: int) returns (offer: int32)
    requires swt.Length == coloring.Length == Times(height, width) && d < coloring.Length
    requires IsNeighbour(width, height, x0, y0, yi, xi)
    ensures offer == StrokeOffer(width, height, swt[..], coloring[..], x0, y0, d, yi, xi)
  {
    var d1 := Flat(y0 + yi, x0 + xi, width);
    FlatBound(y0 + yi, x0 + xi, width, height);
    var c1 := coloring[d1];
    var s0 := swt[d];
    var s1 := swt[d1];
    offer := IntMax;
    if s0 != IntMax && s1 != IntMax {
      var smin := Min(s0, s1);
      var smax := Max(s0, s1);
      if smax <= Wrap32(smin * 3) {
        offer := c1;
      }
    }
  }

  // ---------------------------------------------------------------------------
  // The stroke-width drivers. `ColorComponentsWatershed`,
  // `ColorComponentsFixedPoint` and `ColorComponentsFixedPointBackPropagation`
  // run the same sweeps and differ only in what one pixel's update writes.
  // ---------------------------------------------------------------------------

  datatype Rule = Watershed | FixedPoint | BackPropagation

  /** What a sweep keeps: the following drivers need `Labelled` so that their
      label chains stay inside the image. */
  ghost predicate Keeps(rule: Rule, swt: seq<int32>, s: seq<int32>, n: int)
  {
    |swt| == |s| == n && (rule != Watershed ==> Labelled(swt, s, n))
  }

  /** Pixel (x, y) is at rest: the rule offers no label below its own. */
  ghost predicate PixelStable(w: nat, h: nat, swt: seq<int32>, s: seq<int32>, x: nat, y: nat)
    requires |swt| == |s| == Times(h, w) && x < w && y < h
  {
    FlatBound(y, x, w, h);
    StrokeNeighbourMin(w, h, swt, s, x, y, Flat(y, x, w)) == s[Flat(y, x, w)]
  }

  /** Every pixel is at rest: a sweep over `s` writes nothing. */
  ghost predicate Stable(w: nat, h: nat, swt: seq<int32>, s: seq<int32>)
    requires |swt| == |s| == Times(h, w)
  {
    forall y, x :: 0 <= y < h && 0 <= x < w ==> PixelStable(w, h, swt, s, x, y)
  }

  /** No label of `t` is above the label of `s` at the same pixel. */
  ghost predicate Lowered(s: seq<int32>, t: seq<int32>)
  {
    |s| == |t| && forall k :: 0 <= k < |s| ==> t[k] <= s[k]
  }

  /** In a `Labelled` labelling, a label below the pixel's own offered by
      the rule is a label of a joined stroke neighbour: in range, with its own
      pixel at most it; and the pixel itself is a stroke. */
  lemma StrokeOfferIsLabel(w: nat, h: nat, swt: seq<int32>, s: seq<int32>, x: nat, y: nat, d: nat)
    requires |swt| == |s| == Times(h, w) && d < |s|
    ensures StrokeNeighbourMin(w, h, swt, s, x, y, d) <= s[d]
    ensures Labelled(swt, s, Times(h, w)) && StrokeNeighbourMin(w, h, swt, s, x, y, d) < s[d] ==>
      var cn := StrokeNeighbourMin(w, h, swt, s, x, y, d);
      0 <= cn < Times(h, w) && s[cn] <= cn && swt[d] != IntMax && 0 <= s[d] < Times(h, w)
  {
    StrokeNeighbourMinSpec(w, h, swt, s, x, y, d);
    if Labelled(swt, s, Times(h, w)) && StrokeNeighbourMin(w, h, swt, s, x, y, d) < s[d] {
      var yi, xi :| Joined(w, h, swt, x, y, d, yi, xi) &&
        StrokeNeighbourMin(w, h, swt, s, x, y, d) == s[NeighbourIndex(w, h, x, y, yi, xi)];
      var d1 := NeighbourIndex(w, h, x, y, yi, xi);
      assert swt[d1] != IntMax;
    }
  }

  /** Pixel `d` takes the label `v`; with `propagate`, the pixel that `d`'s
      old label names is first lowered to at most `v` (the `AtomicMin` of
      back-propagation). */
  function LabelWrite(s: seq<int32>, n: int32, d: nat, v: int32, propagate: bool): seq<int32>
    requires d < |s| == n && (propagate ==> 0 <= s[d] < 2 * n)
  {
    if propagate then
      var r := ModOverflow(s[d], n);
      s[r := Min(s[r], v)][d := v]
    else s[d := v]
  }

  /** A write of a label below the pixel's own lowers the labelling and the
      sum of its labels. */
  lemma LabelWriteLowers(s: seq<int32>, n: int32, d: nat, v: int32, propagate: bool)
    requires d < |s| == n && v < s[d] && (propagate ==> 0 <= s[d] < 2 * n)
    ensures Lowered(s, LabelWrite(s, n, d, v, propagate))
    ensures LabelWrite(s, n, d, v, propagate) != s
    ensures Weight(LabelWrite(s, n, d, v, propagate)) < Weight(s)
  {
    var t := LabelWrite(s, n, d, v, propagate);
    assert t[d] == v;
    if propagate {
      var r := ModOverflow(s[d], n);
      var m := Min(s[r], v);
      WeightLower(s, r, m);
      WeightLower(s[r := m], d, v);
    } else {
      WeightLower(s, d, v);
    }
  }

  /** ... and keeps `Labelled` when the new label's own pixel is at most it. */
  lemma LabelWriteKeeps(swt: seq<int32>, s: seq<int32>, n: int32, d: nat, v: int32, propagate: bool)
    requires d < |s| == n && v < s[d] && (propagate ==> 0 <= s[d] < 2 * n)
    requires Labelled(swt, s, n) && 0 <= v < n && s[v] <= v
    ensures Labelled(swt, LabelWrite(s, n, d, v, propagate), n)
  {
    if propagate {
      var r := ModOverflow(s[d], n);
      var m := Min(s[r], v);
      var t1 := s[r := m];
      if m == v {
        LowerKeepsLabelled(swt, s, n, r, v);
      } else {
        assert t1 == s;
      }
      LowerKeepsLabelled(swt, t1, n, d, v);
    } else {
      LowerKeepsLabelled(swt, s, n, d, v);
    }
  }

  /** What the rule's offer `cn` leaves in place of pixel `d`'s label:
      - `Watershed` stores an offer that differs from the label;
      - `FixedPoint` stores an offer below the label, followed four hops;
      - `BackPropagation` does the same and first lowers the pixel that the
        old label names to that value. */
  function OfferWrite(rule: Rule, s: seq<int32>, n: int32, d: nat, cn: int32): seq<int32>
    requires d < |s| == n
    requires rule != Watershed ==> Rooted(s, n) && (cn < s[d] ==> 0 <= cn < n && s[cn] <= cn && 0 <= s[d] < n)
  {
    if rule == Watershed then
      if cn != s[d] then LabelWrite(s, n, d, cn, false) else s
    else if cn < s[d] then
      LabelWrite(s, n, d, Follow(s, n, cn, 4), rule == BackPropagation)
    else s
  }

  /** The labelling after the update of pixel (x, y) under `rule`. */
  function StrokeStep(rule: Rule, w: nat, h: nat, swt: seq<int32>, s: seq<int32>, x: nat, y: nat): seq<int32>
    requires Times(h, w) <= IntMax && Keeps(rule, swt, s, Times(h, w)) && x < w && y < h
  {
    FlatBound(y, x, w, h);
    StrokeOfferIsLabel(w, h, swt, s, x, y, Flat(y, x, w));
    OfferWrite(rule, s, Times(h, w), Flat(y, x, w), StrokeNeighbourMin(w, h, swt, s, x, y, Flat(y, x, w)))
  }

  /** One update keeps the sweep invariant, never raises a label, changes
      nothing exactly when the pixel is at rest, and otherwise lowers the sum
      of the labels. */
  lemma StrokeStepFacts(rule: Rule, w: nat, h: nat, swt: seq<int32>, s: seq<int32>, x: nat, y: nat)
    requires Times(h, w) <= IntMax && Keeps(rule, swt, s, Times(h, w)) && x < w && y < h
    ensures Keeps(rule, swt, StrokeStep(rule, w, h, swt, s, x, y), Times(h, w))
    ensures Lowered(s, StrokeStep(rule, w, h, swt, s, x, y))
    ensures StrokeStep(rule, w, h, swt, s, x, y) == s <==> PixelStable(w, h, swt, s, x, y)
    ensures StrokeStep(rule, w, h, swt, s, x, y) != s ==> Weight(StrokeStep(rule, w, h, swt, s, x, y)) < Weight(s)
  {
    FlatBound(y, x, w, h);
    var n := Times(h, w);
    var d := Flat(y, x, w);
    var cn := StrokeNeighbourMin(w, h, swt, s, x, y, d);
    StrokeOfferIsLabel(w, h, swt, s, x, y, d);
    if cn < s[d] {
      if rule == Watershed {
        LabelWriteLowers(s, n, d, cn, false);
      } else {
        var v := Follow(s, n, cn, 4);
        LabelWriteLowers(s, n, d, v, rule == BackPropagation);
        LabelWriteKeeps(swt, s, n, d, v, rule == BackPropagation);
      }
    }
  }

  /** The update of pixel (x, y) under `rule`, as the drivers' loop bodies
      write it. */
  method StrokePixel(rule: Rule, width: nat, height: nat, swt: array<int32>, coloring: array<int32>, x: nat, y: nat)
    returns (wrote: bool)
    requires swt.Length == coloring.Length == Times(height, width) <= IntMax && swt != coloring
    requires Keeps(rule, swt[..], coloring[..], Times(height, width)) && x < width && y < height
    modifies coloring
    ensures coloring[..] == StrokeStep(rule, width, height, swt[..], old(coloring[..]), x, y)
    ensures wrote <==> !PixelStable(width, height, swt[..], old(coloring[..]), x, y)
  {
    var n: int32 := Times(height, width);
    FlatBound(y, x, width, height);
    var d := Flat(y, x, width);
    var cn := ColorComponentByStrokeWidth(width, height, swt, coloring, x, y, d);
    StrokeOfferIsLabel(width, height, swt[..], coloring[..], x, y, d);
    wrote := StoreOffer(rule, coloring, n, d, cn);
  }

  /** Stores the rule's offer `cn` for pixel `d`; `wrote` tells whether the
      rule wrote at all. */
  method StoreOffer(rule: Rule, coloring: array<int32>, n: int32, d: nat, cn: int32) returns (wrote: bool)
    requires d < coloring.Length == n
    requires rule != Watershed ==>
      Rooted(coloring[..], n) && (cn < coloring[d] ==> 0 <= cn < n && coloring[cn] <= cn && 0 <= coloring[d] < n)
    modifies coloring
    ensures coloring[..] == OfferWrite(rule, old(coloring[..]), n, d, cn)
    ensures wrote <==> if rule == Watershed then cn != old(coloring[d]) else cn < old(coloring[d])
  {
    var c0 := coloring[d];
    wrote := false;
    match rule
    case Watershed =>
      if cn != c0 {
        coloring[d] := cn;
        wrote := true;
      }
    case FixedPoint =>
      if cn < c0 {
        var v := FollowFour(coloring, n, cn);
        coloring[d] := v;
        wrote := true;
      }
    case BackPropagation =>
      if cn < c0 {
        var v := FollowFour(coloring, n, cn);
        var r := ModOverflow(c0, n);
        var stored := AtomicMin(coloring[r], v);
        coloring[r] := stored;
        stored := AtomicMin(coloring[d], v);
        coloring[d] := stored;
        coloring[d] := v;
        wrote := true;
      }
  }

  /** One row of a sweep. */
  method StrokeRowSweep(rule: Rule, width: nat, height: nat, swt: array<int32>, coloring: array<int32>, y: nat)
    returns (wrote: bool)
    requires swt.Length == coloring.Length == Times(height, width) <= IntMax && swt != coloring
    requires Keeps(rule, swt[..], coloring[..], Times(height, width)) && y < height
    modifies coloring
    ensures Keeps(rule, swt[..], coloring[..], Times(height, width))
    ensures Lowered(old(coloring[..]), coloring[..])
    ensures !wrote ==> coloring[..] == old(coloring[..]) &&
                       (forall x :: 0 <= x < width ==> PixelStable(width, height, swt[..], coloring[..], x, y))
    ensures wrote ==> Weight(coloring[..]) < Weight(old(coloring[..]))
    ensures StrokeTied(width, height, swt[..], old(coloring[..])) ==> StrokeTied(width, height, swt[..], coloring[..])
  {
    ghost var s0 := coloring[..];
    wrote := false;
    var x := 0;
    while x < width
      invariant 0 <= x <= width
      invariant Keeps(rule, swt[..], coloring[..], Times(height, width))
      invariant Lowered(s0, coloring[..])
      invariant !wrote ==> coloring[..] == s0 && (forall x' :: 0 <= x' < x ==> PixelStable(width, height, swt[..], s0, x', y))
      invariant wrote ==> Weight(coloring[..]) < Weight(s0)
      invariant StrokeTied(width, height, swt[..], s0) ==> StrokeTied(width, height, swt[..], coloring[..])
    {
      ghost var before := coloring[..];
      StrokeStepFacts(rule, width, height, swt[..], before, x, y);
      if StrokeTied(width, height, swt[..], before) {
        StrokeStepTied(rule, width, height, swt[..], before, x, y);
      }
      var w := StrokePixel(rule, width, height, swt, coloring, x, y);
      if w {
        wrote := true;
      }
      x := x + 1;
    }
  }

  /** One sweep over the image in scanline order; it writes nothing exactly
      when the labelling it starts from is `Stable`. */
  method StrokeSweep(rule: Rule, width: nat, height: nat, swt: array<int32>, coloring: array<int32>)
    returns (wrote: bool)
    requires swt.Length == coloring.Length == Times(height, width) <= IntMax && swt != coloring
    requires Keeps(rule, swt[..], coloring[..], Times(height, width))
    modifies coloring
    ensures Keeps(rule, swt[..], coloring[..], Times(height, width))
    ensures Lowered(old(coloring[..]), coloring[..])
    ensures !wrote ==> coloring[..] == old(coloring[..]) && Stable(width, height, swt[..], coloring[..])
    ensures wrote ==> Weight(coloring[..]) < Weight(old(coloring[..]))
    ensures StrokeTied(width, height, swt[..], old(coloring[..])) ==> StrokeTied(width, height, swt[..], coloring[..])
  {
    ghost var s0 := coloring[..];
    wrote := false;
    var y := 0;
    while y < height
      invariant 0 <= y <= height
      invariant Keeps(rule, swt[..], coloring[..], Times(height, width))
      invariant Lowered(s0, coloring[..])
      invariant !wrote ==>
        coloring[..] == s0 &&
        (forall y', x' :: 0 <= y' < y && 0 <= x' < width ==> PixelStable(width, height, swt[..], s0, x', y'))
      invariant wrote ==> Weight(coloring[..]) < Weight(s0)
      invariant StrokeTied(width, height, swt[..], s0) ==> StrokeTied(width, height, swt[..], coloring[..])
    {
      var w := StrokeRowSweep(rule, width, height, swt, coloring, y);
      if w {
        wrote := true;
      }
      y := y + 1;
    }
  }

  /** The driver loop `while (!isColored)` shared by the three drivers: it
      ends (each sweep that writes lowers the sum of the labels), and the
      last sweep wrote nothing, so the result is `Stable`. Labels only go
      down, and a `StrokeTied` labelling (as the initial labellings are,
      `PreparedIsTied`) stays so; with `StableTiedComponents` the labels are
      then exactly the components of joined strokes. */
  method StrokeDriver(rule: Rule, width: nat, height: nat, swt: array<int32>, coloring: array<int32>)
    returns (rounds: nat)
    requires swt.Length == coloring.Length == Times(height, width) <= IntMax && swt != coloring
    requires Keeps(rule, swt[..], coloring[..], Times(height, width))
    modifies coloring
    ensures rounds >= 1
    ensures Keeps(rule, swt[..], coloring[..], Times(height, width))
    ensures Stable(width, height, swt[..], coloring[..])
    ensures Lowered(old(coloring[..]), coloring[..])
    ensures StrokeTied(width, height, swt[..], old(coloring[..])) ==> StrokeTied(width, height, swt[..], coloring[..])
  {
    rounds := 0;
    var isColored := false;
    while !isColored
      invariant Keeps(rule, swt[..], coloring[..], Times(height, width))
      invariant Lowered(old(coloring[..]), coloring[..])
      invariant StrokeTied(width, height, swt[..], old(coloring[..])) ==> StrokeTied(width, height, swt[..], coloring[..])
      invariant isColored ==> rounds >= 1 && Stable(width, height, swt[..], coloring[..])
      decreases Weight(coloring[..]), if isColored then 0 else 1
    {
      rounds := rounds + 1;
      var wrote := StrokeSweep(rule, width, height, swt, coloring);
      isColored := !wrote;
    }
  }

  /** `ColorComponentsWatershed`: a pixel takes any offer that differs from
      its label. */
  method ColorComponentsWatershed(width: nat, height: nat, swt: array<int32>, coloring: array<int32>)
    returns (rounds: nat)
    requires swt.Length == coloring.Length == Times(height, width) <= IntMax && swt != coloring
    modifies coloring
    ensures rounds >= 1
    ensures Stable(width, height, swt[..], coloring[..])
    ensures Lowered(old(coloring[..]), coloring[..])
    ensures StrokeTied(width, height, swt[..], old(coloring[..])) ==> StrokeTied(width, height, swt[..], coloring[..])
  {
    rounds := StrokeDriver(Watershed, width, height, swt, coloring);
  }

  /** `ColorComponentsFixedPoint`: a lower offer is followed four hops. */
  method ColorComponentsFixedPoint(width: nat, height: nat, swt: array<int32>, coloring: array<int32>)
    returns (rounds: nat)
    requires swt.Length == coloring.Length == Times(height, width) <= IntMax && swt != coloring
    requires Labelled(swt[..], coloring[..], Times(height, width))
    modifies coloring
    ensures rounds >= 1
    ensures Labelled(swt[..], coloring[..], Times(height, width))
    ensures Stable(width, height, swt[..], coloring[..])
    ensures Lowered(old(coloring[..]), coloring[..])
    ensures StrokeTied(width, height, swt[..], old(coloring[..])) ==> StrokeTied(width, height, swt[..], coloring[..])
  {
    rounds := StrokeDriver(FixedPoint, width, height, swt, coloring);
  }

  /** `ColorComponentsFixedPointBackPropagation`: as `ColorComponentsFixedPoint`,
      and the pixel the old label names is lowered too. */
  method ColorComponentsFixedPointBackPropagation(width: nat, height: nat, swt: array<int32>, coloring: array<int32>)
    returns (rounds: nat)
    requires swt.Length == coloring.Length == Times(height, width) <= IntMax && swt != coloring
    requires Labelled(swt[..], coloring[..], Times(height, width))
    modifies coloring
    ensures rounds >= 1
    ensures Labelled(swt[..], coloring[..], Times(height, width))
    ensures Stable(width, height, swt[..], coloring[..])
    ensures Lowered(old(coloring[..]), coloring[..])
    ensures StrokeTied(width, height, swt[..], old(coloring[..])) ==> StrokeTied(width, height, swt[..], coloring[..])
  {
    rounds := StrokeDriver(BackPropagation, width, height, swt, coloring);
  }

  /** In a `Stable` labelling two joined neighbours carry the same label, so
      every chain of joined strokes is one component. */
  lemma StableJoinedEqual(w: nat, h: nat, swt: seq<int32>, s: seq<int32>, x: nat, y: nat, yi: int, xi: int)
    requires |swt| == |s| == Times(h, w) && x < w && y < h && Flat(y, x, w) < Times(h, w)
    requires Stable(w, h, swt, s)
    requires Joined(w, h, swt, x, y, Flat(y, x, w), yi, xi)
    ensures s[Flat(y, x, w)] == s[NeighbourIndex(w, h, x, y, yi, xi)]
  {
    var d := Flat(y, x, w);
    var d1 := NeighbourIndex(w, h, x, y, yi, xi);
    var x1, y1 := JoinedSymmetric(w, h, swt, x, y, yi, xi);
    assert PixelStable(w, h, swt, s, x, y);
    assert PixelStable(w, h, swt, s, x1, y1);
    JoinedBound(w, h, swt, s, x, y, d, yi, xi);
    JoinedBound(w, h, swt, s, x1, y1, d1, -yi, -xi);
  }

  /** Being joined is symmetric: the neighbour is joined back to the pixel. */
  lemma JoinedSymmetric(w: nat, h: nat, swt: seq<int32>, x: nat, y: nat, yi: int, xi: int) returns (x1: nat, y1: nat)
    requires |swt| == Times(h, w) && x < w && y < h && Flat(y, x, w) < Times(h, w)
    requires Joined(w, h, swt, x, y, Flat(y, x, w), yi, xi)
    ensures x1 == x + xi && y1 == y + yi
    ensures x1 < w && y1 < h && NeighbourIndex(w, h, x, y, yi, xi) == Flat(y1, x1, w)
    ensures Joined(w, h, swt, x1, y1, Flat(y1, x1, w), -yi, -xi)
    ensures NeighbourIndex(w, h, x1, y1, -yi, -xi) == Flat(y, x, w)
  {
    x1, y1 := x + xi, y + yi;
  }

  /** The returned label is at most the label of a joined neighbour. */
  lemma JoinedBound(w: nat, h: nat, swt: seq<int32>, s: seq<int32>, x0: nat, y0: nat, d: nat, yi: int, xi: int)
    requires |swt| == |s| == Times(h, w) && d < |s|
    requires Joined(w, h, swt, x0, y0, d, yi, xi)
    ensures StrokeNeighbourMin(w, h, swt, s, x0, y0, d) <= s[NeighbourIndex(w, h, x0, y0, yi, xi)]
  {
    OffersBound(w, h, swt, s, x0, y0, d);
  }

  // ---------------------------------------------------------------------------
  // What a label means: a label that names a pixel names one that the
  // labelled pixel reaches through a chain of joined stroke neighbours.
  // ---------------------------------------------------------------------------

  /** Pixel `k` of a row-major image of width `w`. */
  function PointOf(k: nat, w: nat): Point
  {
    if w == 0 then (0, 0) else (k % w, k / w)
  }

  lemma PointOfFlat(y: nat, x: nat, w: nat)
    requires x < w
    ensures PointOf(Flat(y, x, w), w) == (x, y)
  {
    TimesIsProduct(y, w);
    DivModUnique(Flat(y, x, w), y, x, w);
  }

  lemma FlatOfPoint(k: nat, w: nat, h: nat)
    requires k < Times(h, w)
    ensures w > 0 && PointOf(k, w).0 < w && PointOf(k, w).1 < h
    ensures Flat(PointOf(k, w).1, PointOf(k, w).0, w) == k
  {
    TimesIsProduct(h, w);
    assert w > 0;
    var y, x := k / w, k % w;
    assert k == y * w + x;
    TimesIsProduct(y, w);
    if y >= h {
      MulLe(h, y, w);
    }
  }

  /** The label of pixel `q` inside the image. */
  function LabelAt(w: nat, h: nat, s: seq<int32>, q: Point): int32
    requires |s| == Times(h, w) && q.0 < w && q.1 < h
  {
    FlatBound(q.1, q.0, w, h);
    s[Flat(q.1, q.0, w)]
  }

  /** `b` is an 8-neighbour of `a` inside the image, joined to it by stroke
      width. */
  ghost predicate Adjacent(w: nat, h: nat, swt: seq<int32>, a: Point, b: Point)
  {
    |swt| == Times(h, w) && a.0 < w && a.1 < h &&
    (FlatBound(a.1, a.0, w, h); Joined(w, h, swt, a.0, a.1, Flat(a.1, a.0, w), b.1 as int - a.1, b.0 as int - a.0))
  }

  ghost function JoinStep(w: nat, h: nat, swt: seq<int32>): (Point, Point) -> bool
  {
    (a: Point, b: Point) => Adjacent(w, h, swt, a, b)
  }

  /** Every label that names a pixel (it lies in `0..|s|`) names one that
      the labelled pixel reaches by `step`. */
  ghost predicate Tied(step: (Point, Point) -> bool, w: nat, s: seq<int32>)
  {
    forall k :: 0 <= k < |s| && 0 <= s[k] < |s| ==> Reaches(step, PointOf(k, w), PointOf(s[k], w))
  }

  /** `Tied` for chains of joined stroke neighbours. */
  ghost predicate StrokeTied(w: nat, h: nat, swt: seq<int32>, s: seq<int32>)
  {
    Tied(JoinStep(w, h, swt), w, s)
  }

  /** A labelling whose every pixel-naming label names the pixel itself is
      `Tied`. */
  lemma SelfLabelledIsTied(step: (Point, Point) -> bool, w: nat, s: seq<int32>)
    requires forall k :: 0 <= k < |s| && 0 <= s[k] < |s| ==> s[k] == k
    ensures Tied(step, w, s)
  {
    forall k | 0 <= k < |s| && 0 <= s[k] < |s|
      ensures Reaches(step, PointOf(k, w), PointOf(s[k], w))
    {
      ReachesSelf(step, PointOf(k, w));
    }
  }

  /** The labellings of `PrepareComponents` and `IndexComponents` are
      `Tied` for every step relation: a pixel-naming label names the pixel
      itself, since `n + i` is at least `n` or wraps below 0. */
  lemma PreparedIsTied(swt: seq<int32>, s: seq<int32>, step: (Point, Point) -> bool, w: nat)
    requires Prepared(swt, s) || (|swt| == |s| && forall i :: 0 <= i < |s| ==> s[i] == i)
    ensures Tied(step, w, s)
  {
    forall k | 0 <= k < |s| && 0 <= s[k] < |s|
      ensures s[k] == k
    {
      if s[k] != k {
        var x := |s| + k;
        if x > IntMax {
          WrapClosed(x);
          ModUnique(x + 0x8000_0000, 1, x + 0x8000_0000 - 0x1_0000_0000, 0x1_0000_0000);
        }
      }
    }
    SelfLabelledIsTied(step, w, s);
  }

  /** Storing at pixel `p` a label that, if it names a pixel, names one that
      `p` reaches keeps `Tied`. */
  lemma WriteTied(step: (Point, Point) -> bool, w: nat, s: seq<int32>, p: nat, v: int32)
    requires Tied(step, w, s) && p < |s|
    requires 0 <= v < |s| ==> Reaches(step, PointOf(p, w), PointOf(v, w))
    ensures Tied(step, w, s[p := v])
  {
  }

  /** Following a label never leaves the pixels the start reaches. */
  lemma {:induction false} FollowReaches(step: (Point, Point) -> bool, w: nat, s: seq<int32>, n: int32, v: int32, hops: nat)
    requires Rooted(s, n) && 0 <= v < n && s[v] <= v && Tied(step, w, s)
    ensures Reaches(step, PointOf(v, w), PointOf(Follow(s, n, v, hops), w))
    decreases hops
  {
    if hops == 0 {
      ReachesSelf(step, PointOf(v, w));
    } else {
      var u := s[ModOverflow(v, n)];
      assert u == s[v];
      FollowReaches(step, w, s, n, u, hops - 1);
      ReachesTrans(step, PointOf(v, w), PointOf(u, w), PointOf(Follow(s, n, u, hops - 1), w));
    }
  }

  /** Being joined is symmetric, as a step relation. */
  lemma JoinStepSymmetric(w: nat, h: nat, swt: seq<int32>)
    ensures forall u, v :: JoinStep(w, h, swt)(u, v) ==> JoinStep(w, h, swt)(v, u)
  {
    forall u, v | JoinStep(w, h, swt)(u, v)
      ensures JoinStep(w, h, swt)(v, u)
    {
      FlatBound(u.1, u.0, w, h);
      var x1, y1 := JoinedSymmetric(w, h, swt, u.0, u.1, v.1 as int - u.1, v.0 as int - u.0);
      assert (x1, y1) == v;
    }
  }

  /** A joined neighbour is one step away. */
  lemma JoinedIsStep(w: nat, h: nat, swt: seq<int32>, x: nat, y: nat, yi: int, xi: int)
    requires |swt| == Times(h, w) && x < w && y < h && Flat(y, x, w) < |swt|
    requires Joined(w, h, swt, x, y, Flat(y, x, w), yi, xi)
    ensures JoinStep(w, h, swt)(PointOf(Flat(y, x, w), w), PointOf(NeighbourIndex(w, h, x, y, yi, xi), w))
  {
    PointOfFlat(y, x, w);
    PointOfFlat(y + yi, x + xi, w);
    assert PointOf(NeighbourIndex(w, h, x, y, yi, xi), w) == (x + xi, y + yi);
  }

  /** One update under any rule keeps `StrokeTied`: the label it offers is
      a joined neighbour's. */
  lemma StrokeStepTied(rule: Rule, w: nat, h: nat, swt: seq<int32>, s: seq<int32>, x: nat, y: nat)
    requires Times(h, w) <= IntMax && Keeps(rule, swt, s, Times(h, w)) && x < w && y < h
    requires StrokeTied(w, h, swt, s)
    ensures StrokeTied(w, h, swt, StrokeStep(rule, w, h, swt, s, x, y))
  {
    FlatBound(y, x, w, h);
    var n := Times(h, w);
    var d := Flat(y, x, w);
    var step := JoinStep(w, h, swt);
    var cn := StrokeNeighbourMin(w, h, swt, s, x, y, d);
    StrokeOfferIsLabel(w, h, swt, s, x, y, d);
    StrokeNeighbourMinSpec(w, h, swt, s, x, y, d);
    if cn < s[d] {
      var yi, xi :| Joined(w, h, swt, x, y, d, yi, xi) && cn == s[NeighbourIndex(w, h, x, y, yi, xi)];
      var d1 := NeighbourIndex(w, h, x, y, yi, xi);
      JoinedIsStep(w, h, swt, x, y, yi, xi);
      if 0 <= cn < n {
        ReachesStep(step, PointOf(d, w), PointOf(d1, w), PointOf(cn, w));
      }
    }
    JoinStepSymmetric(w, h, swt);
    OfferWriteTied(rule, step, w, s, n, d, cn);
  }

  /** The rule's write of an offer `cn` that, if it names a pixel, names one
      that pixel `d` reaches keeps `Tied`: following labels stays among the
      pixels `d` reaches, and back-propagation lowers the pixel that `d`'s
      old label names to a label reached back through `d`, which needs a
      symmetric step relation. */
  lemma OfferWriteTied(rule: Rule, step: (Point, Point) -> bool, w: nat, s: seq<int32>, n: int32, d: nat, cn: int32)
    requires d < |s| == n
    requires rule != Watershed ==> Rooted(s, n) && (cn < s[d] ==> 0 <= cn < n && s[cn] <= cn && 0 <= s[d] < n)
    requires rule == BackPropagation ==> forall u, v :: step(u, v) ==> step(v, u)
    requires Tied(step, w, s)
    requires 0 <= cn < n ==> Reaches(step, PointOf(d, w), PointOf(cn, w))
    ensures Tied(step, w, OfferWrite(rule, s, n, d, cn))
  {
    if rule == Watershed {
      if cn != s[d] {
        WriteTied(step, w, s, d, cn);
      }
    } else if cn < s[d] {
      var v := Follow(s, n, cn, 4);
      FollowReaches(step, w, s, n, cn, 4);
      ReachesTrans(step, PointOf(d, w), PointOf(cn, w), PointOf(v, w));
      if rule == FixedPoint {
        WriteTied(step, w, s, d, v);
      } else {
        PropagateTied(step, w, s, n, d, v);
      }
    }
  }

  /** Back-propagation's two writes keep `Tied`. */
  lemma PropagateTied(step: (Point, Point) -> bool, w: nat, s: seq<int32>, n: int32, d: nat, v: int32)
    requires d < |s| == n && 0 <= s[d] < n && 0 <= v < n
    requires forall u, v :: step(u, v) ==> step(v, u)
    requires Tied(step, w, s) && Reaches(step, PointOf(d, w), PointOf(v, w))
    ensures Tied(step, w, LabelWrite(s, n, d, v, true))
  {
    var r := ModOverflow(s[d], n);
    assert r == s[d];
    var m := Min(s[r], v);
    if m == v {
      ReachesBack(step, PointOf(d, w), PointOf(r, w));
      ReachesTrans(step, PointOf(r, w), PointOf(d, w), PointOf(v, w));
    }
    WriteTied(step, w, s, r, m);
    WriteTied(step, w, s[r := m], d, v);
  }

  /** Along a chain of joined neighbours a `Stable` labelling is constant. */
  lemma {:induction false} ChainSameLabel(w: nat, h: nat, swt: seq<int32>, s: seq<int32>, p: seq<Point>)
    requires |swt| == |s| == Times(h, w) && Stable(w, h, swt, s)
    requires Chain(JoinStep(w, h, swt), p) && |p| >= 1 && p[0].0 < w && p[0].1 < h
    ensures p[|p| - 1].0 < w && p[|p| - 1].1 < h
    ensures LabelAt(w, h, s, p[|p| - 1]) == LabelAt(w, h, s, p[0])
  {
    if |p| > 1 {
      var a, b := p[0], p[1];
      assert JoinStep(w, h, swt)(a, b);
      FlatBound(a.1, a.0, w, h);
      StableJoinedEqual(w, h, swt, s, a.0, a.1, b.1 as int - a.1, b.0 as int - a.0);
      var q := p[1..];
      assert forall i :: 0 <= i < |q| ==> q[i] == p[i + 1];
      assert Chain(JoinStep(w, h, swt), q);
      ChainSameLabel(w, h, swt, s, q);
    }
  }

  /** At the drivers' fixed point, when the labelling is `StrokeTied`, two
      pixels whose labels name pixels carry the same label exactly when a
      chain of joined stroke neighbours leads from one to the other: the
      labels are the connected components. */
  lemma StableTiedComponents(w: nat, h: nat, swt: seq<int32>, s: seq<int32>, a: nat, b: nat)
    requires |swt| == |s| == Times(h, w) && Stable(w, h, swt, s) && StrokeTied(w, h, swt, s)
    requires a < |s| && b < |s| && 0 <= s[a] < |s| && 0 <= s[b] < |s|
    ensures s[a] == s[b] <==> Reaches(JoinStep(w, h, swt), PointOf(a, w), PointOf(b, w))
  {
    var step := JoinStep(w, h, swt);
    if s[a] == s[b] {
      JoinStepSymmetric(w, h, swt);
      ReachesBack(step, PointOf(b, w), PointOf(s[b], w));
      ReachesTrans(step, PointOf(a, w), PointOf(s[a], w), PointOf(b, w));
    }
    if Reaches(step, PointOf(a, w), PointOf(b, w)) {
      var p :| Chain(step, p) && |p| >= 1 && p[0] == PointOf(a, w) && p[|p| - 1] == PointOf(b, w);
      FlatOfPoint(a, w, h);
      FlatOfPoint(b, w, h);
      ChainSameLabel(w, h, swt, s, p);
    }
  }

  /** In a row of two pixels of widths 1 and 100 no chain leads from pixel 1
      to pixel 0, so the labelling that gives both pixels label 0 is not
      `StrokeTied`: the drivers never merge strokes that are not joined. */
  lemma UnjoinedMergeNotTied()
    ensures !StrokeTied(2, 1, [1, 100], [0, 0])
  {
    var step := JoinStep(2, 1, [1, 100]);
    forall p | Chain(step, p) && |p| >= 1 && p[0] == (1, 0)
      ensures p[|p| - 1] == (1, 0)
    {
      OnlyItself(p);
    }
    assert PointOf(1, 2) == (1, 0) && PointOf(0, 2) == (0, 0);
    assert [0, 0][1] == 0;
  }

  /** In that row a chain from pixel 1 never leaves it. */
  lemma OnlyItself(p: seq<Point>)
    requires Chain(JoinStep(2, 1, [1, 100]), p) && |p| >= 1 && p[0] == (1, 0)
    ensures |p| == 1
  {
    if |p| > 1 {
      NoStepOut(p[1]);
      assert false;
    }
  }

  /** In that row pixel 1 has no joined neighbour: its only neighbour,
      pixel 0, is a hundred times thinner. */
  lemma NoStepOut(q: Point)
    ensures !Adjacent(2, 1, [1, 100], (1, 0), q)
  {
    assert !Joined(2, 1, [1, 100], 1, 0, 1, 0, -1);
    NeighbourOfOne(q.1 as int - 0, q.0 as int - 1);
  }

  /** In a one-row image two pixels wide, pixel 1's only neighbour is to its left. */
  lemma NeighbourOfOne(yi: int, xi: int)
    ensures IsNeighbour(2, 1, 1, 0, yi, xi) ==> yi == 0 && xi == -1
  {
  }
}
