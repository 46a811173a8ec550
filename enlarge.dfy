/** Doubling an image in both directions.  Source pixel (x, y) becomes the
    2x2 block of destination pixels (2x + j, 2y + i), i, j in {0, 1}, in a
    destination `2*width` pixels wide.  `Enlarge2` copies the pixel into the
    whole block; `Enlarge2Interpolated` averages it with the neighbour in the
    direction of the block entry.  Both visit only the blocks of the first
    `height - 1` rows and `width - 1` columns. */
module Enlarge {
  import opened Numerics
  import opened Raster

  /** The blocks a pass writes: `rows` block rows and `cols` block columns,
      with the right and lower neighbours inside the source when it
      interpolates. */
  predicate BlocksFit(w: nat, h: nat, rows: nat, cols: nat, interpolate: bool)
  {
    rows <= h && cols <= w && (interpolate ==> (rows == 0 || rows < h) && (cols == 0 || cols < w))
  }

  /** Channel `c` of source pixel (x, y). */
  function Sample(s: seq<byte>, w: nat, h: nat, ch: nat, y: nat, x: nat, c: nat): byte
    requires y < h && x < w && c < ch && |s| >= h * w * ch
  {
    InImage(y, x, c, w, h, ch);
    s[Offset(y, x, c, w, ch)]
  }

  /** Channel `c` of entry (i, j) of the block of source pixel (x, y),
      that is of destination pixel (2x + j, 2y + i): the source pixel
      itself, or its mean with the neighbour (x + j, y + i), written
      `(a + b) >> 1`. */
  function Entry(s: seq<byte>, w: nat, h: nat, ch: nat, interpolate: bool, y: nat, x: nat, i: nat, j: nat, c: nat): (r: byte)
    requires y < h && x < w && c < ch && |s| >= h * w * ch
    requires interpolate ==> y + i < h && x + j < w
    ensures i == 0 && j == 0 ==> r == Sample(s, w, h, ch, y, x, c)
    ensures interpolate ==> Min(Sample(s, w, h, ch, y, x, c), Sample(s, w, h, ch, y + i, x + j, c)) <= r
                            <= Max(Sample(s, w, h, ch, y, x, c), Sample(s, w, h, ch, y + i, x + j, c))
    ensures !interpolate ==> r == Sample(s, w, h, ch, y, x, c)
  {
    var a := Sample(s, w, h, ch, y, x, c);
    if interpolate then (a + Sample(s, w, h, ch, y + i, x + j, c) as int) / 2 else a
  }

  /** Every destination entry of a block before block (x, y), channel `c`,
      in scanline order of (block row, block column, channel) holds its
      `Entry` value; with (x, y, c) = (0, rows, 0) that is every block of
      the pass.  (The offset bound in the guard holds for a destination of
      `2*rows` rows.) */
  predicate EnlargedBefore(d: seq<byte>, s: seq<byte>, w: nat, h: nat, ch: nat, interpolate: bool,
                           rows: nat, cols: nat, y: int, x: int, c: int)
    requires |s| >= h * w * ch && BlocksFit(w, h, rows, cols, interpolate)
  {
    forall yy: nat, xx: nat, i: nat, j: nat, cc: nat ::
      (yy < rows && xx < cols && i < 2 && j < 2 && cc < ch && Before(yy, xx, cc, y, x, c)
       && BlockOffset(w, ch, yy, xx, i, j, cc) < |d|) ==>
      d[BlockOffset(w, ch, yy, xx, i, j, cc)] == Entry(s, w, h, ch, interpolate, yy, xx, i, j, cc)
  }

  /** Destination entries the pass may write: those of a pixel in the first
      `2*rows` rows and `2*cols` columns. */
  predicate Covered(k: int, w: nat, ch: nat, rows: nat, cols: nat)
  {
    w > 0 && ch > 0 &&
    (MulMonotone(2 * w, ch);
     RowOf(k, 2 * w, ch) < 2 * rows && ColOf(k, 2 * w, ch) < 2 * cols)
  }

  method Enlarge2(width: nat, height: nat, source: array<byte>, destination: array<byte>, channels: nat)
    requires source != destination && source.Length >= height * width * channels
    requires destination.Length >= (2 * (height - 1)) * (2 * width) * channels
    modifies destination
    ensures var rows, cols := Max(0, height - 1), Max(0, width - 1);
      BlocksFit(width, height, rows, cols, false) &&
      EnlargedBefore(destination[..], source[..], width, height, channels, false, rows, cols, rows, 0, 0) &&
      forall k :: 0 <= k < destination.Length && !Covered(k, width, channels, rows, cols) ==>
        destination[k] == old(destination[k])
  {
    var rows, cols := Max(0, height - 1), Max(0, width - 1);
    EnlargeBlocks(width, height, source, destination, channels, rows, cols, false);
  }

  method Enlarge2Interpolated(width: nat, height: nat, source: array<byte>, destination: array<byte>, channels: nat)
    requires source != destination && source.Length >= height * width * channels
    requires destination.Length >= (2 * (height - 1)) * (2 * width) * channels
    modifies destination
    ensures var rows, cols := Max(0, height - 1), Max(0, width - 1);
      BlocksFit(width, height, rows, cols, true) &&
      EnlargedBefore(destination[..], source[..], width, height, channels, true, rows, cols, rows, 0, 0) &&
      forall k :: 0 <= k < destination.Length && !Covered(k, width, channels, rows, cols) ==>
        destination[k] == old(destination[k])
  {
    var rows, cols := Max(0, height - 1), Max(0, width - 1);
    EnlargeBlocks(width, height, source, destination, channels, rows, cols, true);
  }

  /** `Enlarge2` over every source pixel: copying reads no neighbour, so the
      blocks of the last row and column can be written too. */
  method Enlarge2Whole(width: nat, height: nat, source: array<byte>, destination: array<byte>, channels: nat)
    requires source != destination && source.Length >= height * width * channels
    requires destination.Length >= (2 * height) * (2 * width) * channels
    modifies destination
    ensures BlocksFit(width, height, height, width, false)
    ensures EnlargedBefore(destination[..], source[..], width, height, channels, false, height, width, height, 0, 0)
    ensures forall k :: 0 <= k < destination.Length && !Covered(k, width, channels, height, width) ==>
      destination[k] == old(destination[k])
  {
    EnlargeBlocks(width, height, source, destination, channels, height, width, false);
  }

  /** Destination row `2*height - 1` lies outside the blocks `Enlarge2`
      writes, so it keeps whatever the destination held; `Enlarge2Whole`
      covers it. */
  lemma Enlarge2MissesLastRow(w: nat, h: nat, ch: nat, x: nat, c: nat)
    requires h >= 1 && x < 2 * w && c < ch
    ensures !Covered(Offset(2 * h - 1, x, c, 2 * w, ch), w, ch, Max(0, h - 1), Max(0, w - 1))
    ensures Covered(Offset(2 * h - 1, x, c, 2 * w, ch), w, ch, h, w)
  {
    Decode(2 * h - 1, x, c, 2 * w, ch);
  }

  /** The loops shared by both passes, over `rows` by `cols` blocks. */
  method EnlargeBlocks(width: nat, height: nat, source: array<byte>, destination: array<byte>, channels: nat,
                       rows: nat, cols: nat, interpolate: bool)
    requires source != destination && source.Length >= height * width * channels
    requires BlocksFit(width, height, rows, cols, interpolate)
    requires destination.Length >= (2 * rows) * (2 * width) * channels
    modifies destination
    ensures EnlargedBefore(destination[..], source[..], width, height, channels, interpolate, rows, cols, rows, 0, 0)
    ensures forall k :: 0 <= k < destination.Length && !Covered(k, width, channels, rows, cols) ==>
      destination[k] == old(destination[k])
  {
    ghost var s := source[..];
    var y := 0;
    while y < rows
      invariant 0 <= y <= rows
      invariant EnlargedBefore(destination[..], s, width, height, channels, interpolate, rows, cols, y, 0, 0)
      invariant forall k :: 0 <= k < destination.Length && !Covered(k, width, channels, rows, cols) ==>
        destination[k] == old(destination[k])
    {
      var x := 0;
      while x < cols
        invariant 0 <= x <= cols
        invariant EnlargedBefore(destination[..], s, width, height, channels, interpolate, rows, cols, y, x, 0)
        invariant forall k :: 0 <= k < destination.Length && !Covered(k, width, channels, rows, cols) ==>
          destination[k] == old(destination[k])
      {
        EnlargeBlock(width, height, source, s, destination, channels, rows, cols, interpolate, y, x);
        x := x + 1;
      }
      assert EnlargedBefore(destination[..], s, width, height, channels, interpolate, rows, cols, y + 1, 0, 0) by {
        assert forall yy: nat, xx: nat, cc: nat :: xx < cols && Before(yy, xx, cc, y + 1, 0, 0) ==>
          Before(yy, xx, cc, y, cols, 0);
      }
      y := y + 1;
    }
  }

  /** The channels of block (x, y). */
  method EnlargeBlock(width: nat, height: nat, source: array<byte>, ghost s: seq<byte>, destination: array<byte>,
                      channels: nat, rows: nat, cols: nat, interpolate: bool, y: nat, x: nat)
    requires source != destination && s == source[..] && source.Length >= height * width * channels
    requires BlocksFit(width, height, rows, cols, interpolate) && y < rows && x < cols
    requires destination.Length >= (2 * rows) * (2 * width) * channels
    requires EnlargedBefore(destination[..], s, width, height, channels, interpolate, rows, cols, y, x, 0)
    modifies destination
    ensures EnlargedBefore(destination[..], s, width, height, channels, interpolate, rows, cols, y, x + 1, 0)
    ensures forall k :: 0 <= k < destination.Length && !Covered(k, width, channels, rows, cols) ==>
      destination[k] == old(destination[k])
  {
    var c := 0;
    while c < channels
      invariant 0 <= c <= channels
      invariant EnlargedBefore(destination[..], s, width, height, channels, interpolate, rows, cols, y, x, c)
      invariant forall k :: 0 <= k < destination.Length && !Covered(k, width, channels, rows, cols) ==>
        destination[k] == old(destination[k])
    {
      ghost var before := destination[..];
      EnlargeEntry(width, height, source, s, destination, channels, rows, cols, interpolate, y, x, c);
      EnlargeStep(before, destination[..], s, width, height, channels, interpolate, rows, cols, y, x, c);
      c := c + 1;
    }
    assert forall yy: nat, xx: nat, cc: nat :: cc < channels && Before(yy, xx, cc, y, x + 1, 0) ==>
      Before(yy, xx, cc, y, x, channels);
  }

  /** Destination offset of entry (i, j) of block (x, y), channel `c`. */
  function BlockOffset(w: nat, ch: nat, y: nat, x: nat, i: nat, j: nat, c: nat): int
  {
    Offset(2 * y + i, 2 * x + j, c, 2 * w, ch)
  }

  /** `k` is none of the four entries of block (x, y), channel `c`. */
  predicate NotBlockEntry(k: int, w: nat, ch: nat, y: nat, x: nat, c: nat)
  {
    forall i, j :: 0 <= i < 2 && 0 <= j < 2 ==> k != BlockOffset(w, ch, y, x, i, j, c)
  }

  /** The four entries of block (x, y), channel `c`, lie inside a
      destination of `2*rows` rows, are covered, and are four different
      offsets. */
  lemma BlockInDestination(w: nat, ch: nat, rows: nat, cols: nat, y: nat, x: nat, c: nat, len: int)
    requires y < rows && x < cols && cols <= w && c < ch && len >= (2 * rows) * (2 * w) * ch
    ensures forall i, j :: 0 <= i < 2 && 0 <= j < 2 ==>
      0 <= BlockOffset(w, ch, y, x, i, j, c) < len && Covered(BlockOffset(w, ch, y, x, i, j, c), w, ch, rows, cols)
    ensures forall i, j, i', j' :: 0 <= i < 2 && 0 <= j < 2 && 0 <= i' < 2 && 0 <= j' < 2 && (i != i' || j != j') ==>
      BlockOffset(w, ch, y, x, i, j, c) != BlockOffset(w, ch, y, x, i', j', c)
  {
    forall i, j | 0 <= i < 2 && 0 <= j < 2
      ensures 0 <= BlockOffset(w, ch, y, x, i, j, c) < len
      ensures RowOf(BlockOffset(w, ch, y, x, i, j, c), 2 * w, ch) == 2 * y + i
      ensures ColOf(BlockOffset(w, ch, y, x, i, j, c), 2 * w, ch) == 2 * x + j
    {
      InImage(2 * y + i, 2 * x + j, c, 2 * w, 2 * rows, ch);
      Decode(2 * y + i, 2 * x + j, c, 2 * w, ch);
    }
  }

  /** Channel `c` of the four entries of block (x, y). */
  method EnlargeEntry(width: nat, height: nat, source: array<byte>, ghost s: seq<byte>, destination: array<byte>,
                      channels: nat, rows: nat, cols: nat, interpolate: bool, y: nat, x: nat, c: nat)
    requires source != destination && s == source[..] && source.Length >= height * width * channels
    requires BlocksFit(width, height, rows, cols, interpolate) && y < rows && x < cols && c < channels
    requires destination.Length >= (2 * rows) * (2 * width) * channels
    modifies destination
    ensures forall i, j :: 0 <= i < 2 && 0 <= j < 2 ==>
      0 <= BlockOffset(width, channels, y, x, i, j, c) < destination.Length &&
      Covered(BlockOffset(width, channels, y, x, i, j, c), width, channels, rows, cols) &&
      destination[BlockOffset(width, channels, y, x, i, j, c)] == Entry(s, width, height, channels, interpolate, y, x, i, j, c)
    ensures forall k :: 0 <= k < destination.Length && !Covered(k, width, channels, rows, cols) ==>
      destination[k] == old(destination[k])
    ensures forall k :: 0 <= k < destination.Length && NotBlockEntry(k, width, channels, y, x, c) ==>
      destination[k] == old(destination[k])
  {
    BlockInDestination(width, channels, rows, cols, y, x, c, destination.Length);
    var d1 := BlockOffset(width, channels, y, x, 0, 0, c);
    var d2 := BlockOffset(width, channels, y, x, 0, 1, c);
    var d3 := BlockOffset(width, channels, y, x, 1, 0, c);
    var d4 := BlockOffset(width, channels, y, x, 1, 1, c);
    InImage(y, x, c, width, height, channels);
    var s1 := source[Offset(y, x, c, width, channels)];
    var v1, v2, v3, v4 := s1, s1, s1, s1;
    if interpolate {
      InImage(y, x + 1, c, width, height, channels);
      InImage(y + 1, x, c, width, height, channels);
      InImage(y + 1, x + 1, c, width, height, channels);
      var s2 := source[Offset(y, x + 1, c, width, channels)];
      var s3 := source[Offset(y + 1, x, c, width, channels)];
      var s4 := source[Offset(y + 1, x + 1, c, width, channels)];
      v2, v3, v4 := (s1 as int + s2) / 2, (s1 as int + s3) / 2, (s1 as int + s4) / 2;
    }
    assert v1 == Entry(s, width, height, channels, interpolate, y, x, 0, 0, c);
    assert v2 == Entry(s, width, height, channels, interpolate, y, x, 0, 1, c);
    assert v3 == Entry(s, width, height, channels, interpolate, y, x, 1, 0, c);
    assert v4 == Entry(s, width, height, channels, interpolate, y, x, 1, 1, c);
    assert d1 != d2 && d1 != d3 && d1 != d4 && d2 != d3 && d2 != d4 && d3 != d4;
    destination[d1] := v1;
    destination[d2] := v2;
    destination[d3] := v3;
    destination[d4] := v4;
  }

  /** An entry of another block, or of another channel, is none of the
      four entries of block (x, y), channel `c`. */
  lemma NotInBlock(w: nat, ch: nat, yy: nat, xx: nat, i': nat, j': nat, cc: nat, y: nat, x: nat, c: nat)
    requires xx < w && x < w && i' < 2 && j' < 2 && cc < ch && c < ch
    requires yy != y || xx != x || cc != c
    ensures NotBlockEntry(BlockOffset(w, ch, yy, xx, i', j', cc), w, ch, y, x, c)
  {
    Decode(2 * yy + i', 2 * xx + j', cc, 2 * w, ch);
    forall i, j | 0 <= i < 2 && 0 <= j < 2
      ensures BlockOffset(w, ch, yy, xx, i', j', cc) != BlockOffset(w, ch, y, x, i, j, c)
    {
      Decode(2 * y + i, 2 * x + j, c, 2 * w, ch);
    }
  }

  /** Writing channel `c` of block (x, y) extends the enlarged prefix by it. */
  lemma EnlargeStep(d0: seq<byte>, d1: seq<byte>, s: seq<byte>, w: nat, h: nat, ch: nat, interpolate: bool,
                    rows: nat, cols: nat, y: nat, x: nat, c: nat)
    requires |s| >= h * w * ch && BlocksFit(w, h, rows, cols, interpolate) && y < rows && x < cols && c < ch
    requires EnlargedBefore(d0, s, w, h, ch, interpolate, rows, cols, y, x, c) && |d1| == |d0|
    requires forall i, j :: 0 <= i < 2 && 0 <= j < 2 ==>
      0 <= BlockOffset(w, ch, y, x, i, j, c) < |d1| &&
      d1[BlockOffset(w, ch, y, x, i, j, c)] == Entry(s, w, h, ch, interpolate, y, x, i, j, c)
    requires forall k :: 0 <= k < |d1| && NotBlockEntry(k, w, ch, y, x, c) ==> d1[k] == d0[k]
    ensures EnlargedBefore(d1, s, w, h, ch, interpolate, rows, cols, y, x, c + 1)
  {
    forall yy: nat, xx: nat, i: nat, j: nat, cc: nat |
      yy < rows && xx < cols && i < 2 && j < 2 && cc < ch && Before(yy, xx, cc, y, x, c + 1)
      && BlockOffset(w, ch, yy, xx, i, j, cc) < |d1|
      ensures d1[BlockOffset(w, ch, yy, xx, i, j, cc)] == Entry(s, w, h, ch, interpolate, yy, xx, i, j, cc)
    {
      if Before(yy, xx, cc, y, x, c) {
        NotInBlock(w, ch, yy, xx, i, j, cc, y, x, c);
      }
    }
  }
}
