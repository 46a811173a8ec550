/** Row-major interleaved image layout: channel `c` of pixel (x, y) of an image
    `w` pixels wide with `ch` channels sits at flat index `y*w*ch + x*ch + c`. */
module Raster {
  import opened Numerics

  /** `a * b` by repeated addition.  Offsets are built from it so that
      multiplication reaches the solver only through `TimesIsProduct`, in the
      lemmas of this module. */
  function Times(a: nat, b: nat): nat
  {
    if a == 0 then 0 else Times(a - 1, b) + b
  }

  lemma {:induction false} TimesIsProduct(a: nat, b: nat)
    ensures Times(a, b) == a * b
  {
    if a > 0 {
      TimesIsProduct(a - 1, b);
      MulAddRight(a - 1, 1, b);
    }
  }

  lemma {:induction false} TimesZero(a: nat)
    ensures Times(a, 0) == 0
  {
    if a > 0 {
      TimesZero(a - 1);
    }
  }

  lemma TimesPositive(a: nat, b: nat)
    requires a >= 1
    ensures Times(a, b) >= b
  {
  }

  function Offset(y: nat, x: nat, c: int, w: nat, ch: nat): int
  {
    Times(Times(y, w), ch) + Times(x, ch) + c
  }

  lemma OffsetValue(y: nat, x: nat, c: int, w: nat, ch: nat)
    ensures Offset(y, x, c, w, ch) == y * w * ch + x * ch + c
  {
    TimesIsProduct(y, w);
    TimesIsProduct(y * w, ch);
    TimesIsProduct(x, ch);
  }

  lemma OffsetNonneg(y: nat, x: nat, c: int, w: nat, ch: nat)
    requires 0 <= y && 0 <= x && 0 <= c && 0 <= w && 0 <= ch
    ensures 0 <= Offset(y, x, c, w, ch)
  {
    OffsetValue(y, x, c, w, ch);
    MulNonneg(y, w);
    MulNonneg(y * w, ch);
    MulNonneg(x, ch);
  }

  /** The first row starts at entry 0; row `h` starts right after an image
      of `h` rows. */
  lemma RowStart(h: nat, w: nat, ch: nat)
    ensures Offset(0, 0, 0, w, ch) == 0
    ensures Offset(h, 0, 0, w, ch) == h * w * ch
  {
    OffsetValue(h, 0, 0, w, ch);
  }

  /** Row of a flat index. */
  function RowOf(d: int, w: int, ch: int): int
    requires w * ch > 0
  {
    d / (w * ch)
  }

  /** Column of a flat index. */
  function ColOf(d: int, w: int, ch: int): int
    requires w > 0 && ch > 0
  {
    (d / ch) % w
  }

  /** Channel of a flat index. */
  function ChanOf(d: int, ch: int): int
    requires ch > 0
  {
    d % ch
  }

  /** Decoding an offset gives back its coordinates, and the offset lies in
      the `w*ch` entries of its row. */
  lemma Decode(y: nat, x: nat, c: int, w: nat, ch: nat)
    requires 0 <= y && 0 <= x < w && 0 <= c < ch
    ensures w > 0 && ch > 0 && w * ch > 0
    ensures RowOf(Offset(y, x, c, w, ch), w, ch) == y
    ensures ColOf(Offset(y, x, c, w, ch), w, ch) == x
    ensures ChanOf(Offset(y, x, c, w, ch), ch) == c
    ensures y * w * ch <= Offset(y, x, c, w, ch) < (y + 1) * w * ch
  {
    OffsetValue(y, x, c, w, ch);
    var d := Offset(y, x, c, w, ch);
    var m := w * ch;
    MulMonotone(w, ch);
    MulLe(x + 1, w, ch);
    MulAddRight(x, 1, ch);
    MulNonneg(x, ch);
    MulAssoc(y, w, ch);
    DivModUnique(d, y, x * ch + c, m);
    MulAddRight(y * w, x, ch);
    DivModUnique(d, y * w + x, c, ch);
    DivModUnique(y * w + x, y, x, w);
    MulAssoc(y + 1, w, ch);
    MulAddRight(y, 1, m);
  }

  /** Every flat index of an image of `h` rows is the offset of the pixel
      and channel it decodes to, and those lie in the image. */
  lemma Encode(d: int, w: nat, h: nat, ch: nat)
    requires 0 <= d < h * w * ch
    ensures w > 0 && ch > 0 && w * ch > 0
    ensures 0 <= RowOf(d, w, ch) < h && 0 <= ColOf(d, w, ch) < w && 0 <= ChanOf(d, ch) < ch
    ensures Offset(RowOf(d, w, ch), ColOf(d, w, ch), ChanOf(d, ch), w, ch) == d
  {
    assert h * 0 * ch == 0 && h * w * 0 == 0;
    var q, c := d / ch, d % ch;
    DivNonneg(d, ch);
    var y, x := q / w, q % w;
    DivNonneg(q, w);
    assert d == q * ch + c;
    assert q == y * w + x;
    Decode(y, x, c, w, ch);
    OffsetValue(y, x, c, w, ch);
    MulAddRight(y * w, x, ch);
    MulAssoc(h, w, ch);
    MulAssoc(y, w, ch);
    MulLtCancel(y, h, w * ch);
  }

  /** The entry after the last channel of a pixel is the first channel of
      the next pixel; the entry after the last pixel of a row starts the next
      row. */
  lemma NextPixel(y: nat, x: nat, w: nat, ch: nat)
    ensures Offset(y, x, ch, w, ch) == Offset(y, x + 1, 0, w, ch)
    ensures Offset(y, w, 0, w, ch) == Offset(y + 1, 0, 0, w, ch)
  {
    OffsetValue(y, x, ch, w, ch);
    OffsetValue(y, x + 1, 0, w, ch);
    OffsetValue(y, w, 0, w, ch);
    OffsetValue(y + 1, 0, 0, w, ch);
    MulAddRight(x, 1, ch);
    MulAddRight(y, 1, w * ch);
    MulAssoc(y, w, ch);
    MulAssoc(y + 1, w, ch);
  }

  /** The same channel one pixel to the left sits `ch` entries earlier. */
  lemma PreviousPixel(y: nat, x: nat, c: int, w: nat, ch: nat)
    requires x >= 1
    ensures Offset(y, x - 1, c, w, ch) == Offset(y, x, c, w, ch) - ch
  {
    OffsetValue(y, x - 1, c, w, ch);
    OffsetValue(y, x, c, w, ch);
    MulAddRight(x - 1, 1, ch);
  }

  /** The last pixel of a row is `ch` entries before the first pixel of the
      next row. */
  lemma RowWraps(y: nat, c: int, w: nat, ch: nat)
    requires y >= 1 && w >= 1
    ensures Offset(y - 1, w - 1, c, w, ch) == Offset(y, 0, c, w, ch) - ch
  {
    NextPixel(y - 1, w - 1, w, ch);
    OffsetValue(y - 1, w - 1, c, w, ch);
    OffsetValue(y - 1, w - 1, ch, w, ch);
    OffsetValue(y, 0, c, w, ch);
    OffsetValue(y, 0, 0, w, ch);
  }

  /** Offsets inside an image of `h` rows stay below `h*w*ch`. */
  lemma InImage(y: nat, x: nat, c: int, w: nat, h: nat, ch: nat)
    requires 0 <= y < h && 0 <= x < w && 0 <= c < ch
    ensures 0 <= Offset(y, x, c, w, ch) < h * w * ch
  {
    Decode(y, x, c, w, ch);
    MulNonneg(y, w * ch);
    MulLe(y + 1, h, w * ch);
    MulAssoc(y, w, ch);
    MulAssoc(y + 1, w, ch);
    MulAssoc(h, w, ch);
  }

  /** Pixel (x, y) is pixel number `y*w + x` of the image, and its channels
      follow each other from `(y*w + x)*ch`. */
  lemma PixelIndex(y: nat, x: nat, c: int, w: nat, h: nat, ch: nat)
    requires 0 <= y < h && 0 <= x < w
    ensures Offset(y, x, c, w, ch) == (y * w + x) * ch + c
    ensures 0 <= y * w + x < h * w
  {
    OffsetValue(y, x, c, w, ch);
    MulAddRight(y * w, x, ch);
    MulNonneg(y, w);
    MulLe(y + 1, h, w);
    MulAddRight(y, 1, w);
  }

  /** Strict scanline order on (row, column, channel) coordinates. */
  predicate Before(y1: int, x1: int, c1: int, y2: int, x2: int, c2: int)
  {
    y1 < y2 || (y1 == y2 && (x1 < x2 || (x1 == x2 && c1 < c2)))
  }

  /** Offsets follow scanline order. */
  lemma OffsetBefore(y1: nat, x1: nat, c1: int, y2: nat, x2: nat, c2: int, w: nat, ch: nat)
    requires 0 <= y1 && 0 <= x1 < w && 0 <= c1 < ch
    requires 0 <= y2 && 0 <= x2 < w && 0 <= c2 < ch
    requires Before(y1, x1, c1, y2, x2, c2)
    ensures Offset(y1, x1, c1, w, ch) < Offset(y2, x2, c2, w, ch)
  {
    Decode(y1, x1, c1, w, ch);
    Decode(y2, x2, c2, w, ch);
    if y1 < y2 {
      MulLe(y1 + 1, y2, w * ch);
      MulAssoc(y1 + 1, w, ch);
      MulAssoc(y2, w, ch);
    } else if x1 < x2 {
      OffsetValue(y1, x1, c1, w, ch);
      OffsetValue(y2, x2, c2, w, ch);
      MulLe(x1 + 1, x2, ch);
      MulAddRight(x1, 1, ch);
    }
  }

  /** A row's offsets end where the next row's begin, and rows inside an
      image of `h` rows end by `h*w*ch`. */
  lemma RowBounds(y: nat, x: nat, w: nat, h: nat, ch: nat)
    requires 0 <= y < h && 0 <= x <= w && 0 <= ch
    ensures 0 <= Offset(y, x, 0, w, ch) <= Offset(y + 1, 0, 0, w, ch) <= h * w * ch
  {
    OffsetValue(y, x, 0, w, ch);
    OffsetValue(y + 1, 0, 0, w, ch);
    MulLe(x, w, ch);
    MulNonneg(x, ch);
    MulNonneg(y, w);
    MulNonneg(y * w, ch);
    MulAddRight(y, 1, w * ch);
    MulAssoc(y, w, ch);
    MulAssoc(y + 1, w, ch);
    MulAssoc(h, w, ch);
    MulLe(y + 1, h, w * ch);
  }

  /** The channels of a pixel inside the image lie before the entry that
      starts row `h`. */
  lemma PixelInImage(y: nat, x: nat, w: nat, h: nat, ch: nat)
    requires y < h && x < w
    ensures 0 <= Offset(y, x, 0, w, ch) && Offset(y, x, 0, w, ch) + ch <= Offset(h, 0, 0, w, ch)
  {
    NextPixel(y, x, w, ch);
    RowBounds(y, x + 1, w, h, ch);
    RowStart(h, w, ch);
  }
}
