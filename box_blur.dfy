/** Box blur through per-row prefix sums.  `LinePrefixSum` keeps one
    running total per channel over the whole image in scanline order;
    `BoxBlur` takes, for every row of the clipped window, the difference of
    two totals of that row and divides the window sum by the window area. */
module BoxFilter {
  import opened Numerics
  import opened Raster

  /** Exact total of the entries of channel `d % ch` at and before flat index
      `d`: the value the running prefix of that channel reaches at `d`. */
  function ChannelPrefix(s: seq<byte>, d: int, ch: nat): int
    requires d < |s|
    decreases if d < 0 then 0 else d + 1
  {
    if d < 0 || ch == 0 then 0 else s[d] + ChannelPrefix(s, d - ch, ch)
  }

  /** One step of the running total, in 32-bit arithmetic. */
  lemma PrefixStep(s: seq<byte>, d: nat, ch: nat)
    requires d < |s| && ch > 0
    ensures Wrap32(Wrap32(ChannelPrefix(s, d - ch, ch)) + s[d]) == Wrap32(ChannelPrefix(s, d, ch))
  {
    WrapAdd(ChannelPrefix(s, d - ch, ch), s[d]);
  }

  method LinePrefixSum(width: nat, height: nat, source: array<byte>, sourceChannels: nat,
                       linePrefixSums: array<int32>)
    requires source.Length >= height * width * sourceChannels
    requires linePrefixSums.Length >= height * width * sourceChannels
    modifies linePrefixSums
    ensures forall d :: 0 <= d < height * width * sourceChannels ==>
      linePrefixSums[d] == Wrap32(ChannelPrefix(source[..], d, sourceChannels))
    ensures forall d :: height * width * sourceChannels <= d < linePrefixSums.Length ==>
      linePrefixSums[d] == old(linePrefixSums[d])
  {
    var ch := sourceChannels;
    ghost var s := source[..];
    var prefix := new int32[ch](_ => 0);
    // flat index of channel 0 of the current row
    ghost var p: nat := 0;
    assert p == Offset(0, 0, 0, width, ch);
    var y := 0;
    while y < height
      invariant 0 <= y <= height && p == Offset(y, 0, 0, width, ch) <= height * width * ch
      invariant forall d {:trigger linePrefixSums[d]} :: 0 <= d < p ==> linePrefixSums[d] == Wrap32(ChannelPrefix(s, d, ch))
      invariant forall d :: p <= d < linePrefixSums.Length ==> linePrefixSums[d] == old(linePrefixSums[d])
      invariant forall k :: 0 <= k < ch ==> prefix[k] == Wrap32(ChannelPrefix(s, p + k - ch, ch))
    {
      PrefixRow(width, height, source, ch, s, prefix, linePrefixSums, y, p);
      p := Offset(y + 1, 0, 0, width, ch);
      y := y + 1;
    }
    RowStart(height, width, ch);
  }

  /** Row `y` of `LinePrefixSum`, whose first entry is at flat index `p`. */
  method PrefixRow(width: nat, height: nat, source: array<byte>, ch: nat, ghost s: seq<byte>,
                   prefix: array<int32>, linePrefixSums: array<int32>, y: nat, ghost p: nat)
    requires s == source[..] && prefix.Length == ch && prefix != linePrefixSums && y < height
    requires source.Length >= height * width * ch && linePrefixSums.Length >= height * width * ch
    requires p == Offset(y, 0, 0, width, ch) <= height * width * ch
    requires forall k :: 0 <= k < ch ==> prefix[k] == Wrap32(ChannelPrefix(s, p + k - ch, ch))
    modifies prefix, linePrefixSums
    ensures p <= Offset(y + 1, 0, 0, width, ch) <= height * width * ch
    ensures forall k :: 0 <= k < ch ==> prefix[k] == Wrap32(ChannelPrefix(s, Offset(y + 1, 0, 0, width, ch) + k - ch, ch))
    ensures forall d :: p <= d < Offset(y + 1, 0, 0, width, ch) ==> linePrefixSums[d] == Wrap32(ChannelPrefix(s, d, ch))
    ensures forall d :: 0 <= d < linePrefixSums.Length && !(p <= d < Offset(y + 1, 0, 0, width, ch)) ==>
      linePrefixSums[d] == old(linePrefixSums[d])
  {
    RowBounds(y, 0, width, height, ch);
    ghost var rowEnd := Offset(y + 1, 0, 0, width, ch);
    ghost var q: nat := p;
    var x := 0;
    while x < width
      invariant 0 <= x <= width
      invariant p <= q == Offset(y, x, 0, width, ch) <= rowEnd
      invariant forall d {:trigger linePrefixSums[d]} :: p <= d < q ==> linePrefixSums[d] == Wrap32(ChannelPrefix(s, d, ch))
      invariant forall d :: 0 <= d < linePrefixSums.Length && !(p <= d < q) ==> linePrefixSums[d] == old(linePrefixSums[d])
      invariant forall k :: 0 <= k < ch ==> prefix[k] == Wrap32(ChannelPrefix(s, q + k - ch, ch))
    {
      RowBounds(y, x + 1, width, height, ch);
      NextPixel(y, x, width, ch);
      var d0 := Offset(y, x, 0, width, ch);
      PrefixPixel(source, ch, d0, s, prefix, linePrefixSums);
      q := q + ch;
      x := x + 1;
    }
    NextPixel(y, width, width, ch);
  }

  /** The channels of one pixel, starting at flat index `d0`: each channel's
      running total advances by that channel's entry and is stored there. */
  method PrefixPixel(source: array<byte>, ch: nat, d0: nat, ghost s: seq<byte>,
                     prefix: array<int32>, linePrefixSums: array<int32>)
    requires s == source[..] && prefix.Length == ch && prefix != linePrefixSums
    requires d0 + ch <= source.Length && d0 + ch <= linePrefixSums.Length
    requires forall k :: 0 <= k < ch ==> prefix[k] == Wrap32(ChannelPrefix(s, d0 + k - ch, ch))
    modifies prefix, linePrefixSums
    ensures forall k :: 0 <= k < ch ==> prefix[k] == Wrap32(ChannelPrefix(s, d0 + k, ch))
    ensures forall d :: d0 <= d < d0 + ch ==> linePrefixSums[d] == Wrap32(ChannelPrefix(s, d, ch))
    ensures forall d :: 0 <= d < linePrefixSums.Length && !(d0 <= d < d0 + ch) ==>
      linePrefixSums[d] == old(linePrefixSums[d])
  {
    var c := 0;
    while c < ch
      invariant 0 <= c <= ch
      invariant forall d {:trigger linePrefixSums[d]} :: d0 <= d < d0 + c ==> linePrefixSums[d] == Wrap32(ChannelPrefix(s, d, ch))
      invariant forall d :: 0 <= d < d0 ==> linePrefixSums[d] == old(linePrefixSums[d])
      invariant forall d :: d0 + c <= d < linePrefixSums.Length ==> linePrefixSums[d] == old(linePrefixSums[d])
      invariant forall k {:trigger prefix[k]} :: 0 <= k < c ==> prefix[k] == Wrap32(ChannelPrefix(s, d0 + k, ch))
      invariant forall k {:trigger prefix[k]} :: c <= k < ch ==> prefix[k] == Wrap32(ChannelPrefix(s, d0 + k - ch, ch))
    {
      var d := d0 + c;
      var v := source[d];
      assert v == s[d];
      PrefixStep(s, d, ch);
      prefix[c] := Wrap32(prefix[c] + v);
      var r := prefix[c];
      assert r == Wrap32(ChannelPrefix(s, d, ch));
      linePrefixSums[d] := r;
      c := c + 1;
    }
  }

  /** What the blur needs of its arguments: it divides by the window area,
      which vanishes for a one-pixel-wide or one-pixel-high image or a window
      radius below 1, and it adds the radius to coordinates in 32 bits. */
  predicate Blurrable(w: nat, h: nat, ch: nat, ws: int)
  {
    w > 0 && h > 0 && ch > 0 ==>
      2 <= w && 2 <= h && 1 <= ws && w + ws <= IntMax && h + ws <= IntMax && h * w <= IntMax
  }

  /** Sum, in 32-bit arithmetic, of the prefix differences of the rows
      `y1 .. yEnd-1` between columns `x1` and `x2`. */
  function WindowSum(lps: seq<int32>, w: nat, h: nat, ch: nat, c: nat,
                     x1: nat, x2: nat, y1: nat, yEnd: nat): int32
    requires c < ch && x1 <= x2 < w && y1 <= yEnd <= h && |lps| >= h * w * ch
    decreases yEnd - y1
  {
    if yEnd == y1 then 0
    else
      InImage(yEnd - 1, x1, c, w, h, ch);
      InImage(yEnd - 1, x2, c, w, h, ch);
      Wrap32(WindowSum(lps, w, h, ch, c, x1, x2, y1, yEnd - 1)
             + Wrap32(lps[Offset(yEnd - 1, x2, c, w, ch)] as int - lps[Offset(yEnd - 1, x1, c, w, ch)] as int))
  }

  /** The last row of a window sum: one more wrapped prefix difference. */
  lemma WindowSumLast(lps: seq<int32>, w: nat, h: nat, ch: nat, c: nat, x1: nat, x2: nat, y1: nat, yEnd: nat)
    requires c < ch && x1 <= x2 < w && y1 < yEnd <= h && |lps| >= h * w * ch
    ensures 0 <= Offset(yEnd - 1, x1, c, w, ch) < |lps| && 0 <= Offset(yEnd - 1, x2, c, w, ch) < |lps|
    ensures WindowSum(lps, w, h, ch, c, x1, x2, y1, yEnd)
         == Wrap32(WindowSum(lps, w, h, ch, c, x1, x2, y1, yEnd - 1)
                   + Wrap32(lps[Offset(yEnd - 1, x2, c, w, ch)] as int - lps[Offset(yEnd - 1, x1, c, w, ch)] as int))
  {
    InImage(yEnd - 1, x1, c, w, h, ch);
    InImage(yEnd - 1, x2, c, w, h, ch);
  }

  /** One output entry of `BoxBlur` as written: the window sum over the
      clipped rows `y1 .. y2`, divided by `(y2 - y1) * (x2 - x1)` (the product
      written with `Times`). */
  function BoxPixel(lps: seq<int32>, w: nat, h: nat, ch: nat, ws: int, y: nat, x: nat, c: nat): byte
    requires Blurrable(w, h, ch, ws) && y < h && x < w && c < ch && |lps| >= h * w * ch
  {
    var x1, x2 := Max(0, x - ws), Min(w - 1, x + ws);
    var y1, y2 := Max(0, y - ws), Min(h - 1, y + ws);
    TimesPositive(y2 - y1, x2 - x1);
    ToByte(Min(255, DivTrunc(WindowSum(lps, w, h, ch, c, x1, x2, y1, y2 + 1), Times(y2 - y1, x2 - x1))))
  }

  /** One output entry of the blur with the divisor counting every summed
      row: `(y2 + 1 - y1) * (x2 - x1)`. */
  function BoxPixelMean(lps: seq<int32>, w: nat, h: nat, ch: nat, ws: int, y: nat, x: nat, c: nat): byte
    requires Blurrable(w, h, ch, ws) && y < h && x < w && c < ch && |lps| >= h * w * ch
  {
    var x1, x2 := Max(0, x - ws), Min(w - 1, x + ws);
    var y1, y2 := Max(0, y - ws), Min(h - 1, y + ws);
    TimesPositive(y2 + 1 - y1, x2 - x1);
    ToByte(Min(255, DivTrunc(WindowSum(lps, w, h, ch, c, x1, x2, y1, y2 + 1), Times(y2 + 1 - y1, x2 - x1))))
  }

  /** The row loop of one output entry. */
  method AccumulateWindow(linePrefixSums: array<int32>, w: nat, h: nat, ch: nat, c: nat,
                          x1: nat, x2: nat, y1: nat, y2: nat) returns (sum: int32)
    requires c < ch && x1 <= x2 < w && y1 <= y2 < h && linePrefixSums.Length >= h * w * ch
    ensures sum == WindowSum(linePrefixSums[..], w, h, ch, c, x1, x2, y1, y2 + 1)
  {
    ghost var s := linePrefixSums[..];
    sum := 0;
    var yi := y1;
    while yi <= y2
      invariant y1 <= yi <= y2 + 1
      invariant sum == WindowSum(s, w, h, ch, c, x1, x2, y1, yi)
    {
      WindowSumLast(s, w, h, ch, c, x1, x2, y1, yi + 1);
      var d1 := Offset(yi, x1, c, w, ch);
      var d2 := Offset(yi, x2, c, w, ch);
      assert linePrefixSums[d1] == s[d1] && linePrefixSums[d2] == s[d2];
      var diff := Wrap32(linePrefixSums[d2] as int - linePrefixSums[d1] as int);
      sum := Wrap32(sum + diff);
      yi := yi + 1;
    }
  }

  /** Every entry of every pixel before (x, y) in scanline order holds the
      value `BoxPixel` gives it; with (x, y) = (0, h) that is the whole image.
      (The offset bound in the guard always holds, by `InImage`.) */
  predicate BlurredBefore(b: seq<byte>, lps: seq<int32>, w: nat, h: nat, ch: nat, ws: int, y: int, x: int)
    requires Blurrable(w, h, ch, ws) && |lps| >= h * w * ch && |b| >= h * w * ch
  {
    forall yy, xx, cc ::
      (0 <= yy < h && 0 <= xx < w && 0 <= cc < ch && Before(yy, xx, cc, y, x, 0) && 0 <= Offset(yy, xx, cc, w, ch) < |b|) ==>
      b[Offset(yy, xx, cc, w, ch)] == BoxPixel(lps, w, h, ch, ws, yy, xx, cc)
  }

  /** Writing the channels of pixel (x, y) at its offset extends the blurred
      prefix by that pixel. */
  lemma BlurredStep(b0: seq<byte>, b1: seq<byte>, lps: seq<int32>, w: nat, h: nat, ch: nat, ws: int,
                    y: nat, x: nat, p: nat)
    requires Blurrable(w, h, ch, ws) && |lps| >= h * w * ch && |b0| == |b1| >= h * w * ch
    requires y < h && x < w && p == Offset(y, x, 0, w, ch) && p + ch <= |b1|
    requires BlurredBefore(b0, lps, w, h, ch, ws, y, x)
    requires forall c :: 0 <= c < ch ==> b1[p + c] == BoxPixel(lps, w, h, ch, ws, y, x, c)
    requires forall k :: 0 <= k < p ==> b1[k] == b0[k]
    ensures BlurredBefore(b1, lps, w, h, ch, ws, y, x + 1)
  {
    forall yy, xx, cc | 0 <= yy < h && 0 <= xx < w && 0 <= cc < ch && Before(yy, xx, cc, y, x + 1, 0)
      ensures 0 <= Offset(yy, xx, cc, w, ch) < |b1| && b1[Offset(yy, xx, cc, w, ch)] == BoxPixel(lps, w, h, ch, ws, yy, xx, cc)
    {
      InImage(yy, xx, cc, w, h, ch);
      if Before(yy, xx, cc, y, x, 0) {
        OffsetBefore(yy, xx, cc, y, x, 0, w, ch);
      }
    }
  }

  /** The channels of pixel (x, y), starting at flat index `d0`, as `BoxBlur`
      writes them. */
  method BlurChannels(linePrefixSums: array<int32>, ghost lps: seq<int32>, w: nat, h: nat, ch: nat,
                   box: array<byte>, ws: int32, y: nat, x: nat, d0: nat)
    requires Blurrable(w, h, ch, ws) && y < h && x < w && d0 + ch <= box.Length
    requires lps == linePrefixSums[..] && |lps| >= h * w * ch
    modifies box
    ensures forall c :: 0 <= c < ch ==> box[d0 + c] == BoxPixel(lps, w, h, ch, ws, y, x, c)
    ensures forall k :: 0 <= k < box.Length && !(d0 <= k < d0 + ch) ==> box[k] == old(box[k])
  {
    var x1 := Max(0, x - ws);
    var x2 := Min(w - 1, x + ws);
    var c := 0;
    while c < ch
      invariant 0 <= c <= ch
      invariant forall cc :: 0 <= cc < c ==> box[d0 + cc] == BoxPixel(lps, w, h, ch, ws, y, x, cc)
      invariant forall k :: 0 <= k < box.Length && !(d0 <= k < d0 + c) ==> box[k] == old(box[k])
    {
      var d := d0 + c;
      var y1 := Max(0, y - ws);
      var y2 := Min(h - 1, y + ws);
      var sum := AccumulateWindow(linePrefixSums, w, h, ch, c, x1, x2, y1, y2);
      MulMonotone(y2 - y1, x2 - x1);
      TimesIsProduct(y2 - y1, x2 - x1);
      var avg := DivTrunc(sum, (y2 - y1) * (x2 - x1));
      box[d] := ToByte(Min(255, avg));
      c := c + 1;
    }
  }

  method BoxBlur(width: nat, height: nat, linePrefixSums: array<int32>, sourceChannels: nat,
                 box: array<byte>, windowSize: int32)
    requires Blurrable(width, height, sourceChannels, windowSize)
    requires linePrefixSums.Length >= height * width * sourceChannels
    requires box.Length >= height * width * sourceChannels
    modifies box
    ensures BlurredBefore(box[..], linePrefixSums[..], width, height, sourceChannels, windowSize, height, 0)
    ensures forall k :: height * width * sourceChannels <= k < box.Length ==> box[k] == old(box[k])
  {
    var ch := sourceChannels;
    ghost var lps := linePrefixSums[..];
    var y := 0;
    while y < height
      invariant 0 <= y <= height
      invariant BlurredBefore(box[..], lps, width, height, ch, windowSize, y, 0)
      invariant forall k :: height * width * ch <= k < box.Length ==> box[k] == old(box[k])
    {
      BlurRow(linePrefixSums, lps, width, height, ch, box, windowSize, y);
      y := y + 1;
    }
  }

  /** Row `y` of `BoxBlur`. */
  method BlurRow(linePrefixSums: array<int32>, ghost lps: seq<int32>, width: nat, height: nat, ch: nat,
                 box: array<byte>, windowSize: int32, y: nat)
    requires Blurrable(width, height, ch, windowSize) && y < height
    requires lps == linePrefixSums[..] && |lps| >= height * width * ch
    requires box.Length >= height * width * ch
    requires BlurredBefore(box[..], lps, width, height, ch, windowSize, y, 0)
    modifies box
    ensures Offset(y, 0, 0, width, ch) <= Offset(y + 1, 0, 0, width, ch) <= height * width * ch
    ensures BlurredBefore(box[..], lps, width, height, ch, windowSize, y + 1, 0)
    ensures forall k :: 0 <= k < box.Length && !(Offset(y, 0, 0, width, ch) <= k < Offset(y + 1, 0, 0, width, ch)) ==>
      box[k] == old(box[k])
  {
    RowBounds(y, 0, width, height, ch);
    ghost var rowStart := Offset(y, 0, 0, width, ch);
    ghost var rowEnd := Offset(y + 1, 0, 0, width, ch);
    ghost var p: nat := rowStart;
    var x := 0;
    while x < width
      invariant 0 <= x <= width
      invariant rowStart <= p == Offset(y, x, 0, width, ch) <= rowEnd
      invariant BlurredBefore(box[..], lps, width, height, ch, windowSize, y, x)
      invariant forall k :: 0 <= k < box.Length && !(rowStart <= k < p) ==> box[k] == old(box[k])
    {
      BlurPixel(linePrefixSums, lps, width, height, ch, box, windowSize, y, x, p);
      p := p + ch;
      x := x + 1;
    }
    NextPixel(y, width, width, ch);
    assert BlurredBefore(box[..], lps, width, height, ch, windowSize, y + 1, 0) by {
      assert forall yy, xx, cc :: 0 <= xx < width && 0 <= cc && Before(yy, xx, cc, y + 1, 0, 0) ==> Before(yy, xx, cc, y, width, 0);
    }
  }

  /** Pixel (x, y) of `BoxBlur`, at flat index `p`: the blurred prefix grows
      by that pixel. */
  method BlurPixel(linePrefixSums: array<int32>, ghost lps: seq<int32>, width: nat, height: nat, ch: nat,
                   box: array<byte>, windowSize: int32, y: nat, x: nat, ghost p: nat)
    requires Blurrable(width, height, ch, windowSize) && y < height && x < width
    requires lps == linePrefixSums[..] && |lps| >= height * width * ch
    requires box.Length >= height * width * ch && p == Offset(y, x, 0, width, ch)
    requires BlurredBefore(box[..], lps, width, height, ch, windowSize, y, x)
    modifies box
    ensures p + ch == Offset(y, x + 1, 0, width, ch) <= Offset(y + 1, 0, 0, width, ch)
    ensures BlurredBefore(box[..], lps, width, height, ch, windowSize, y, x + 1)
    ensures forall k :: 0 <= k < box.Length && !(p <= k < p + ch) ==> box[k] == old(box[k])
  {
    RowBounds(y, x + 1, width, height, ch);
    NextPixel(y, x, width, ch);
    ghost var before := box[..];
    var d0 := Offset(y, x, 0, width, ch);
    BlurChannels(linePrefixSums, lps, width, height, ch, box, windowSize, y, x, d0);
    BlurredStep(before, box[..], lps, width, height, ch, windowSize, y, x, p);
  }
}
