/** Properties of the box blur: for an image whose channel totals fit in
    32 bits, the wrapped prefix differences that `BoxBlur` adds up are the
    exact window sums, and the blurred entry is that sum over the divisor. */
module BoxBlurFacts {
  import opened Numerics
  import opened Raster
  import opened BoxFilter

  /** Exact sum of channel `c` over the columns `xa+1 .. xb` of row `y`. */
  function RowRun(s: seq<byte>, y: nat, xa: nat, xb: nat, c: nat, w: nat, ch: nat): int
    requires xa <= xb < w && c < ch
    requires Offset(y, xb, c, w, ch) < |s|
    decreases xb - xa
  {
    if xb == xa then 0
    else
      OffsetNonneg(y, xb, c, w, ch);
      PreviousPixel(y, xb, c, w, ch);
      s[Offset(y, xb, c, w, ch)] + RowRun(s, y, xa, xb - 1, c, w, ch)
  }

  /** Exact sum of channel `c` over the rectangle of rows `y1 .. yEnd-1` and
      columns `x1+1 .. x2`. */
  function RectSum(s: seq<byte>, w: nat, h: nat, ch: nat, c: nat, x1: nat, x2: nat, y1: nat, yEnd: nat): int
    requires c < ch && x1 <= x2 < w && y1 <= yEnd <= h && |s| >= h * w * ch
    decreases yEnd - y1
  {
    if yEnd == y1 then 0
    else
      InImage(yEnd - 1, x2, c, w, h, ch);
      RectSum(s, w, h, ch, c, x1, x2, y1, yEnd - 1) + RowRun(s, yEnd - 1, x1, x2, c, w, ch)
  }

  /** The last row of a rectangle sum. */
  lemma RectSumLast(s: seq<byte>, w: nat, h: nat, ch: nat, c: nat, x1: nat, x2: nat, y1: nat, yEnd: nat)
    requires c < ch && x1 <= x2 < w && y1 < yEnd <= h && |s| >= h * w * ch
    ensures Offset(yEnd - 1, x2, c, w, ch) < |s|
    ensures RectSum(s, w, h, ch, c, x1, x2, y1, yEnd)
         == RectSum(s, w, h, ch, c, x1, x2, y1, yEnd - 1) + RowRun(s, yEnd - 1, x1, x2, c, w, ch)
  {
    InImage(yEnd - 1, x2, c, w, h, ch);
  }

  /** `lps` is what `LinePrefixSum` stores for the image `s`. */
  predicate IsPrefixSums(lps: seq<int32>, s: seq<byte>, w: nat, h: nat, ch: nat)
    requires |s| >= h * w * ch
  {
    |lps| >= h * w * ch &&
    forall d :: 0 <= d < h * w * ch ==> lps[d] == Wrap32(ChannelPrefix(s, d, ch))
  }

  /** Every entry of channel `c` in the rows `y1 .. yEnd-1` and columns
      `x1+1 .. x2` lies between `lo` and `hi`. */
  predicate WindowWithin(s: seq<byte>, w: nat, ch: nat, c: nat, x1: nat, x2: nat, y1: nat, yEnd: nat,
                         lo: int, hi: int)
  {
    forall yy: nat, xx: nat :: (y1 <= yy < yEnd && x1 < xx <= x2 && Offset(yy, xx, c, w, ch) < |s|) ==>
      lo <= s[Offset(yy, xx, c, w, ch)] <= hi
  }

  lemma BytesWithin(s: seq<byte>, w: nat, ch: nat, c: nat, x1: nat, x2: nat, y1: nat, yEnd: nat)
    ensures WindowWithin(s, w, ch, c, x1, x2, y1, yEnd, 0, 255)
  {
    forall yy: nat, xx: nat | y1 <= yy < yEnd && x1 < xx <= x2 && Offset(yy, xx, c, w, ch) < |s|
      ensures 0 <= s[Offset(yy, xx, c, w, ch)] <= 255
    {
      OffsetNonneg(yy, xx, c, w, ch);
    }
  }

  /** The prefix pass never resets: the first entry of a row continues the
      total of the last pixel of the row above. */
  lemma {:induction false} PrefixCarriesAcrossRows(s: seq<byte>, y: nat, c: nat, w: nat, ch: nat)
    requires y >= 1 && w >= 1 && c < ch
    requires Offset(y, 0, c, w, ch) < |s|
    ensures 0 <= Offset(y, 0, c, w, ch)
    ensures Offset(y - 1, w - 1, c, w, ch) == Offset(y, 0, c, w, ch) - ch
    ensures ChannelPrefix(s, Offset(y, 0, c, w, ch), ch)
         == ChannelPrefix(s, Offset(y - 1, w - 1, c, w, ch), ch) + s[Offset(y, 0, c, w, ch)]
  {
    OffsetNonneg(y, 0, c, w, ch);
    RowWraps(y, c, w, ch);
  }

  /** Within one row, the difference of two running totals is the sum of the
      entries strictly after the first column up to the second. */
  lemma {:induction false} PrefixDifference(s: seq<byte>, y: nat, xa: nat, xb: nat, c: nat, w: nat, ch: nat)
    requires xa <= xb < w && c < ch
    requires Offset(y, xb, c, w, ch) < |s|
    ensures Offset(y, xa, c, w, ch) <= Offset(y, xb, c, w, ch)
    ensures ChannelPrefix(s, Offset(y, xb, c, w, ch), ch) - ChannelPrefix(s, Offset(y, xa, c, w, ch), ch)
         == RowRun(s, y, xa, xb, c, w, ch)
    decreases xb - xa
  {
    OffsetNonneg(y, xb, c, w, ch);
    if xa < xb {
      PreviousPixel(y, xb, c, w, ch);
      PrefixDifference(s, y, xa, xb - 1, c, w, ch);
    }
  }

  /** Every running total is at most 255 per pixel seen so far. */
  lemma {:induction false} PrefixBound(s: seq<byte>, p: nat, c: nat, ch: nat)
    requires c < ch && p * ch + c < |s|
    ensures 0 <= ChannelPrefix(s, p * ch + c, ch) <= 255 * (p + 1)
  {
    MulAddRight(p - 1, 1, ch);
    if p > 0 {
      MulLe(p - 1, p, ch);
      PrefixBound(s, p - 1, c, ch);
    }
  }

  /** A run of `xb - xa` entries between `lo` and `hi` sums to between
      `(xb - xa) * lo` and `(xb - xa) * hi`. */
  lemma {:induction false} RowRunWithin(s: seq<byte>, y: nat, xa: nat, xb: nat, c: nat, w: nat, ch: nat,
                                        lo: nat, hi: nat)
    requires xa <= xb < w && c < ch && Offset(y, xb, c, w, ch) < |s|
    requires WindowWithin(s, w, ch, c, xa, xb, y, y + 1, lo, hi)
    ensures Times(xb - xa, lo) <= RowRun(s, y, xa, xb, c, w, ch) <= Times(xb - xa, hi)
    decreases xb - xa
  {
    if xa < xb {
      OffsetNonneg(y, xb, c, w, ch);
      PreviousPixel(y, xb, c, w, ch);
      assert WindowWithin(s, w, ch, c, xa, xb - 1, y, y + 1, lo, hi);
      RowRunWithin(s, y, xa, xb - 1, c, w, ch, lo, hi);
    }
  }

  /** A rectangle of `rows` by `cols` entries between `lo` and `hi` sums to
      between `rows * cols * lo` and `rows * cols * hi`. */
  lemma {:induction false} RectSumWithin(s: seq<byte>, w: nat, h: nat, ch: nat, c: nat,
                                         x1: nat, x2: nat, y1: nat, yEnd: nat, lo: nat, hi: nat)
    requires c < ch && x1 <= x2 < w && y1 <= yEnd <= h && |s| >= h * w * ch
    requires WindowWithin(s, w, ch, c, x1, x2, y1, yEnd, lo, hi)
    ensures Times(yEnd - y1, Times(x2 - x1, lo)) <= RectSum(s, w, h, ch, c, x1, x2, y1, yEnd)
         <= Times(yEnd - y1, Times(x2 - x1, hi))
    decreases yEnd - y1
  {
    if yEnd > y1 {
      InImage(yEnd - 1, x2, c, w, h, ch);
      assert WindowWithin(s, w, ch, c, x1, x2, y1, yEnd - 1, lo, hi);
      RectSumWithin(s, w, h, ch, c, x1, x2, y1, yEnd - 1, lo, hi);
      assert WindowWithin(s, w, ch, c, x1, x2, yEnd - 1, yEnd, lo, hi);
      RowRunWithin(s, yEnd - 1, x1, x2, c, w, ch, lo, hi);
    }
  }

  /** A window of at most `h` by `w` pixels of bytes sums to at most
      `255 * h * w`, which fits in 32 bits. */
  lemma AreaFits(rows: nat, cols: nat, h: nat, w: nat)
    requires rows <= h && cols <= w && h * w <= IntMax / 255
    ensures Times(rows, Times(cols, 255)) <= IntMax
  {
    TimesIsProduct(cols, 255);
    TimesIsProduct(rows, cols * 255);
    MulLe(cols, w, 255);
    MulLe(rows, h, w * 255);
    MulLe(cols * 255, w * 255, rows);
    MulAssoc(h, w, 255);
  }

  /** A stored prefix sum is the exact channel total when totals fit in 32 bits. */
  lemma PrefixExact(s: seq<byte>, lps: seq<int32>, w: nat, h: nat, ch: nat, c: nat, x: nat, y: nat)
    requires c < ch && x < w && y < h && |s| >= h * w * ch
    requires IsPrefixSums(lps, s, w, h, ch) && h * w <= IntMax / 255
    ensures 0 <= Offset(y, x, c, w, ch) < h * w * ch
    ensures lps[Offset(y, x, c, w, ch)] as int == ChannelPrefix(s, Offset(y, x, c, w, ch), ch)
    ensures 0 <= ChannelPrefix(s, Offset(y, x, c, w, ch), ch) <= IntMax
  {
    var d := Offset(y, x, c, w, ch);
    InImage(y, x, c, w, h, ch);
    PixelIndex(y, x, c, w, h, ch);
    PrefixBound(s, y * w + x, c, ch);
    assert lps[d] == Wrap32(ChannelPrefix(s, d, ch));
  }

  /** One row's prefix difference, in 32-bit arithmetic, is the exact row
      run when the channel totals fit in 32 bits. */
  lemma RowDifferenceExact(s: seq<byte>, lps: seq<int32>, w: nat, h: nat, ch: nat, c: nat,
                           x1: nat, x2: nat, yr: nat)
    requires c < ch && x1 <= x2 < w && yr < h && |s| >= h * w * ch
    requires IsPrefixSums(lps, s, w, h, ch) && h * w <= IntMax / 255
    ensures 0 <= Offset(yr, x1, c, w, ch) <= Offset(yr, x2, c, w, ch) < h * w * ch
    ensures Wrap32(lps[Offset(yr, x2, c, w, ch)] as int - lps[Offset(yr, x1, c, w, ch)] as int)
         == RowRun(s, yr, x1, x2, c, w, ch)
  {
    PrefixExact(s, lps, w, h, ch, c, x1, yr);
    PrefixExact(s, lps, w, h, ch, c, x2, yr);
    PrefixDifference(s, yr, x1, x2, c, w, ch);
    BytesWithin(s, w, ch, c, x1, x2, yr, yr + 1);
    RowRunWithin(s, yr, x1, x2, c, w, ch, 0, 255);
    TimesZero(x2 - x1);
  }

  /** The sum of a rectangle of bytes inside an image of at most
      `IntMax / 255` pixels fits in 32 bits. */
  lemma RectSumFits(s: seq<byte>, w: nat, h: nat, ch: nat, c: nat, x1: nat, x2: nat, y1: nat, yEnd: nat)
    requires c < ch && x1 <= x2 < w && y1 <= yEnd <= h && |s| >= h * w * ch && h * w <= IntMax / 255
    ensures 0 <= RectSum(s, w, h, ch, c, x1, x2, y1, yEnd) <= IntMax
  {
    BytesWithin(s, w, ch, c, x1, x2, y1, yEnd);
    RectSumWithin(s, w, h, ch, c, x1, x2, y1, yEnd, 0, 255);
    TimesZero(x2 - x1);
    TimesZero(yEnd - y1);
    AreaFits(yEnd - y1, x2 - x1, h, w);
  }

  /** For an image whose channel totals fit in 32 bits, the blur's wrapped
      window sum over prefix sums is the exact sum of the rectangle of rows
      `y1 .. yEnd-1` and columns `x1+1 .. x2`. */
  lemma {:induction false} WindowSumExact(s: seq<byte>, lps: seq<int32>, w: nat, h: nat, ch: nat, c: nat,
                                          x1: nat, x2: nat, y1: nat, yEnd: nat)
    requires c < ch && x1 <= x2 < w && y1 <= yEnd <= h && |s| >= h * w * ch
    requires IsPrefixSums(lps, s, w, h, ch) && h * w <= IntMax / 255
    ensures WindowSum(lps, w, h, ch, c, x1, x2, y1, yEnd) == RectSum(s, w, h, ch, c, x1, x2, y1, yEnd)
    ensures 0 <= RectSum(s, w, h, ch, c, x1, x2, y1, yEnd) <= IntMax
    decreases yEnd - y1
  {
    RectSumFits(s, w, h, ch, c, x1, x2, y1, yEnd);
    if yEnd > y1 {
      WindowSumExact(s, lps, w, h, ch, c, x1, x2, y1, yEnd - 1);
      WindowSumStep(s, lps, w, h, ch, c, x1, x2, y1, yEnd);
    }
  }

  /** One more row of `WindowSum` adds that row's run exactly, as long as
      the rectangle's sum fits in 32 bits. */
  lemma WindowSumStep(s: seq<byte>, lps: seq<int32>, w: nat, h: nat, ch: nat, c: nat,
                      x1: nat, x2: nat, y1: nat, yEnd: nat)
    requires c < ch && x1 <= x2 < w && y1 < yEnd <= h && |s| >= h * w * ch
    requires IsPrefixSums(lps, s, w, h, ch) && h * w <= IntMax / 255
    requires WindowSum(lps, w, h, ch, c, x1, x2, y1, yEnd - 1) == RectSum(s, w, h, ch, c, x1, x2, y1, yEnd - 1)
    ensures WindowSum(lps, w, h, ch, c, x1, x2, y1, yEnd) == RectSum(s, w, h, ch, c, x1, x2, y1, yEnd)
  {
    RowDifferenceExact(s, lps, w, h, ch, c, x1, x2, yEnd - 1);
    RectSumFits(s, w, h, ch, c, x1, x2, y1, yEnd);
    WindowSumLast(lps, w, h, ch, c, x1, x2, y1, yEnd);
    RectSumLast(s, w, h, ch, c, x1, x2, y1, yEnd);
  }

  /** The as-written blurred entry, in terms of the image: the exact window
      sum over `(y2 - y1) * (x2 - x1)`, capped at 255. */
  lemma BoxPixelOfImage(s: seq<byte>, lps: seq<int32>, w: nat, h: nat, ch: nat, ws: int,
                        y: nat, x: nat, c: nat)
    returns (x1: nat, x2: nat, y1: nat, y2: nat, rows: nat, cols: nat, total: int, area: int)
    requires Blurrable(w, h, ch, ws) && y < h && x < w && c < ch && |s| >= h * w * ch
    requires IsPrefixSums(lps, s, w, h, ch) && h * w <= IntMax / 255
    ensures x1 == Max(0, x - ws) && x2 == Min(w - 1, x + ws) && x2 < w
    ensures y1 == Max(0, y - ws) && y2 == Min(h - 1, y + ws) && y2 < h
    ensures total == RectSum(s, w, h, ch, c, x1, x2, y1, y2 + 1)
    ensures rows == y2 - y1 && cols == x2 - x1
    ensures area == Times(rows, cols) > 0
    ensures BoxPixel(lps, w, h, ch, ws, y, x, c) == Min(255, total / area)
  {
    x1, x2 := Max(0, x - ws), Min(w - 1, x + ws);
    y1, y2 := Max(0, y - ws), Min(h - 1, y + ws);
    WindowSumExact(s, lps, w, h, ch, c, x1, x2, y1, y2 + 1);
    rows, cols := y2 - y1, x2 - x1;
    TimesPositive(rows, cols);
    area := Times(rows, cols);
    total := RectSum(s, w, h, ch, c, x1, x2, y1, y2 + 1);
    DivNonneg(total, area);
    assert BoxPixel(lps, w, h, ch, ws, y, x, c) == ToByte(Min(255, DivTrunc(total, area)));
  }

  /** The corrected blurred entry, in terms of the image: the exact window
      sum over the number of summed pixels, `(y2 + 1 - y1) * (x2 - x1)`. */
  lemma BoxPixelMeanOfImage(s: seq<byte>, lps: seq<int32>, w: nat, h: nat, ch: nat, ws: int,
                            y: nat, x: nat, c: nat)
    returns (x1: nat, x2: nat, y1: nat, y2: nat, rows: nat, cols: nat, total: int, area: int)
    requires Blurrable(w, h, ch, ws) && y < h && x < w && c < ch && |s| >= h * w * ch
    requires IsPrefixSums(lps, s, w, h, ch) && h * w <= IntMax / 255
    ensures x1 == Max(0, x - ws) && x2 == Min(w - 1, x + ws) && x2 < w
    ensures y1 == Max(0, y - ws) && y2 == Min(h - 1, y + ws) && y2 < h
    ensures total == RectSum(s, w, h, ch, c, x1, x2, y1, y2 + 1)
    ensures rows == y2 + 1 - y1 && cols == x2 - x1
    ensures area == Times(rows, cols) > 0
    ensures BoxPixelMean(lps, w, h, ch, ws, y, x, c) == Min(255, total / area)
  {
    x1, x2 := Max(0, x - ws), Min(w - 1, x + ws);
    y1, y2 := Max(0, y - ws), Min(h - 1, y + ws);
    WindowSumExact(s, lps, w, h, ch, c, x1, x2, y1, y2 + 1);
    rows, cols := y2 + 1 - y1, x2 - x1;
    TimesPositive(rows, cols);
    area := Times(rows, cols);
    total := RectSum(s, w, h, ch, c, x1, x2, y1, y2 + 1);
    DivNonneg(total, area);
    assert BoxPixelMean(lps, w, h, ch, ws, y, x, c) == ToByte(Min(255, DivTrunc(total, area)));
  }

  /** The corrected blur is a mean: when every summed entry of the window
      lies between `lo` and `hi`, so does the blurred entry; in particular
      it leaves a uniform image unchanged. */
  lemma BoxPixelMeanWithin(s: seq<byte>, lps: seq<int32>, w: nat, h: nat, ch: nat, ws: int,
                           y: nat, x: nat, c: nat, lo: nat, hi: nat)
    requires Blurrable(w, h, ch, ws) && y < h && x < w && c < ch && |s| >= h * w * ch
    requires IsPrefixSums(lps, s, w, h, ch) && h * w <= IntMax / 255
    requires lo <= hi <= 255
    requires WindowWithin(s, w, ch, c, Max(0, x - ws), Min(w - 1, x + ws),
                          Max(0, y - ws), Min(h - 1, y + ws) + 1, lo, hi)
    ensures lo <= BoxPixelMean(lps, w, h, ch, ws, y, x, c) <= hi
  {
    var x1, x2, y1, y2, rows, cols, total, area := BoxPixelMeanOfImage(s, lps, w, h, ch, ws, y, x, c);
    RectSumWithin(s, w, h, ch, c, x1, x2, y1, y2 + 1, lo, hi);
    TimesIsProduct(cols, lo);
    TimesIsProduct(cols, hi);
    TimesIsProduct(rows, cols * lo);
    TimesIsProduct(rows, cols * hi);
    TimesIsProduct(rows, cols);
    MulAssoc(rows, cols, lo);
    MulAssoc(rows, cols, hi);
    DivWithin(total, area, lo, hi);
  }

  /** The running total of a one-channel image whose entries all equal `v`. */
  lemma {:induction false} UniformPrefix(s: seq<byte>, d: int, v: int)
    requires d < |s| && forall i :: 0 <= i < |s| ==> s[i] == v
    ensures ChannelPrefix(s, d, 1) == if d < 0 then 0 else v * (d + 1)
    decreases if d < 0 then 0 else d + 1
  {
    if d >= 0 {
      UniformPrefix(s, d - 1, v);
      MulAddRight(d, 1, v);
    }
  }

  /** The prefix sums of a uniform 3x3 one-channel image of 100, as
      `LinePrefixSum` stores them. */
  lemma UniformPrefixSums(s: seq<byte>, lps: seq<int32>)
    requires s == [100, 100, 100, 100, 100, 100, 100, 100, 100]
    requires lps == [100, 200, 300, 400, 500, 600, 700, 800, 900]
    ensures IsPrefixSums(lps, s, 3, 3, 1)
  {
    forall d | 0 <= d < 9
      ensures lps[d] == Wrap32(ChannelPrefix(s, d, 1))
    {
      UniformPrefix(s, d, 100);
    }
  }


  /** As written, a window whose summed entries all equal `v` blurs to
      `rows * cols * v` over `(rows - 1) * cols`, where `rows` is the number
      of summed rows. */
  lemma BoxPixelOfUniform(s: seq<byte>, lps: seq<int32>, w: nat, h: nat, ch: nat, ws: int,
                          y: nat, x: nat, c: nat, v: nat)
    returns (rows: nat, cols: nat)
    requires Blurrable(w, h, ch, ws) && y < h && x < w && c < ch && |s| >= h * w * ch
    requires IsPrefixSums(lps, s, w, h, ch) && h * w <= IntMax / 255 && v <= 255
    requires WindowWithin(s, w, ch, c, Max(0, x - ws), Min(w - 1, x + ws),
                          Max(0, y - ws), Min(h - 1, y + ws) + 1, v, v)
    ensures rows == Min(h - 1, y + ws) + 1 - Max(0, y - ws) && cols == Min(w - 1, x + ws) - Max(0, x - ws)
    ensures rows >= 2 && cols >= 1
    ensures BoxPixel(lps, w, h, ch, ws, y, x, c) == Min(255, Times(rows, Times(cols, v)) / Times(rows - 1, cols))
  {
    var x1, x2, y1, y2, rows1, cols1, total, area := BoxPixelOfImage(s, lps, w, h, ch, ws, y, x, c);
    RectSumWithin(s, w, h, ch, c, x1, x2, y1, y2 + 1, v, v);
    rows, cols := y2 + 1 - y1, cols1;
  }

  /** That image blurred with radius 1 as written: the centre entry is 150,
      six entries of 100 over a divisor of 4. */
  lemma UniformBlurOvershoots(s: seq<byte>, lps: seq<int32>)
    requires |s| == 9 && forall i :: 0 <= i < |s| ==> s[i] == 100
    requires IsPrefixSums(lps, s, 3, 3, 1)
    ensures BoxPixel(lps, 3, 3, 1, 1, 1, 1, 0) == 150
  {
    assert WindowWithin(s, 3, 1, 0, 0, 2, 0, 3, 100, 100);
    var rows, cols := BoxPixelOfUniform(s, lps, 3, 3, 1, 1, 1, 1, 0, 100);
    CentreWindow(rows, cols, BoxPixel(lps, 3, 3, 1, 1, 1, 1, 0));
  }

  /** The centre window of the 3x3 example: three rows of two columns of
      100, over a divisor of 4. */
  lemma CentreWindow(rows: nat, cols: nat, b: int)
    requires rows == 3 && cols == 2 && rows >= 1
    requires b == Min(255, Times(rows, Times(cols, 100)) / Times(rows - 1, cols))
    ensures b == 150
  {
    assert Times(3, Times(2, 100)) == 600 && Times(2, 2) == 4;
  }

  /** The same entry with the corrected divisor of 6 is 100. */
  lemma UniformBlurMean(s: seq<byte>, lps: seq<int32>)
    requires |s| == 9 && forall i :: 0 <= i < |s| ==> s[i] == 100
    requires IsPrefixSums(lps, s, 3, 3, 1)
    ensures BoxPixelMean(lps, 3, 3, 1, 1, 1, 1, 0) == 100
  {
    assert WindowWithin(s, 3, 1, 0, 0, 2, 0, 3, 100, 100);
    BoxPixelMeanWithin(s, lps, 3, 3, 1, 1, 1, 1, 0, 100, 100);
  }
}
