/** Integer grey conversion of a four-channel image: every output byte is the
    truncated mean of the first three channels of its pixel. */
module Grey {
  import opened Numerics
  import opened Raster

  /** The grey level `GrayscaleEq` stores for channel values `r`, `g`, `b`:
      `(byte)Min(255, (r + g + b) / 3)`. It never leaves the range of the
      three channels and keeps a grey pixel's level. */
  function GreyLevel(r: byte, g: byte, b: byte): (v: byte)
    ensures Min(r, Min(g, b)) <= v <= Max(r, Max(g, b))
    ensures r == g && g == b ==> v == r
  {
    ToByte(Min(255, (r as int + g + b) / 3))
  }

  /** The cap at 255 never applies: three bytes average to at most 255. */
  lemma GreyNeverCapped(r: byte, g: byte, b: byte)
    ensures GreyLevel(r, g, b) == (r as int + g + b) / 3
  {
  }

  /** Grey level of pixel (x, y) of the four-channel image `s`. */
  function GreyAt(s: seq<byte>, w: nat, h: nat, y: nat, x: nat): byte
    requires y < h && x < w && |s| >= h * w * 4
  {
    InImage(y, x, 0, w, h, 4);
    InImage(y, x, 1, w, h, 4);
    InImage(y, x, 2, w, h, 4);
    GreyLevel(s[Offset(y, x, 0, w, 4)], s[Offset(y, x, 1, w, 4)], s[Offset(y, x, 2, w, 4)])
  }

  /** Every pixel before (x, y) in scanline order holds its grey level at
      `y*w + x`; with (x, y) = (0, h) that is every pixel.  (The offset bound
      in the guard always holds, by `InImage`.) */
  predicate GreyBefore(g: seq<byte>, s: seq<byte>, w: nat, h: nat, y: int, x: int)
    requires |s| >= h * w * 4
  {
    forall yy, xx ::
      (0 <= yy < h && 0 <= xx < w && Before(yy, xx, 0, y, x, 0) && 0 <= Offset(yy, xx, 0, w, 1) < |g|) ==>
      g[Offset(yy, xx, 0, w, 1)] == GreyAt(s, w, h, yy, xx)
  }

  method GrayscaleEq(width: nat, height: nat, source: array<byte>, grayscale: array<byte>)
    requires source != grayscale
    requires source.Length >= height * width * 4
    requires grayscale.Length >= height * width
    modifies grayscale
    ensures GreyBefore(grayscale[..], source[..], width, height, height, 0)
    ensures forall k :: height * width <= k < grayscale.Length ==> grayscale[k] == old(grayscale[k])
  {
    ghost var s := source[..];
    var y := 0;
    while y < height
      invariant 0 <= y <= height
      invariant GreyBefore(grayscale[..], s, width, height, y, 0)
      invariant forall k :: height * width <= k < grayscale.Length ==> grayscale[k] == old(grayscale[k])
    {
      GreyRow(width, height, source, s, grayscale, y);
      y := y + 1;
    }
  }

  /** Row `y` of `GrayscaleEq`. */
  method GreyRow(width: nat, height: nat, source: array<byte>, ghost s: seq<byte>, grayscale: array<byte>, y: nat)
    requires source != grayscale && s == source[..] && y < height
    requires source.Length >= height * width * 4 && grayscale.Length >= height * width
    requires GreyBefore(grayscale[..], s, width, height, y, 0)
    modifies grayscale
    ensures Offset(y, 0, 0, width, 1) <= Offset(y + 1, 0, 0, width, 1) <= height * width
    ensures GreyBefore(grayscale[..], s, width, height, y + 1, 0)
    ensures forall k :: 0 <= k < grayscale.Length && !(Offset(y, 0, 0, width, 1) <= k < Offset(y + 1, 0, 0, width, 1)) ==>
      grayscale[k] == old(grayscale[k])
  {
    RowBounds(y, 0, width, height, 1);
    ghost var rowStart := Offset(y, 0, 0, width, 1);
    var x := 0;
    while x < width
      invariant 0 <= x <= width
      invariant rowStart <= Offset(y, x, 0, width, 1) <= Offset(y + 1, 0, 0, width, 1)
      invariant GreyBefore(grayscale[..], s, width, height, y, x)
      invariant forall k :: 0 <= k < grayscale.Length && !(rowStart <= k < Offset(y, x, 0, width, 1)) ==>
        grayscale[k] == old(grayscale[k])
    {
      RowBounds(y, x + 1, width, height, 1);
      NextPixel(y, x, width, 1);
      ghost var before := grayscale[..];
      GreyPixel(width, height, source, s, grayscale, y, x);
      GreyStep(before, grayscale[..], s, width, height, y, x);
      x := x + 1;
    }
    NextPixel(y, width, width, 1);
    assert GreyBefore(grayscale[..], s, width, height, y + 1, 0) by {
      assert forall yy, xx :: 0 <= xx < width && Before(yy, xx, 0, y + 1, 0, 0) ==> Before(yy, xx, 0, y, width, 0);
    }
  }

  /** Pixel (x, y): the sum of channels 0, 1 and 2, divided by 3. */
  method GreyPixel(width: nat, height: nat, source: array<byte>, ghost s: seq<byte>, grayscale: array<byte>,
                   y: nat, x: nat)
    requires source != grayscale && s == source[..] && y < height && x < width
    requires source.Length >= height * width * 4 && grayscale.Length >= height * width
    modifies grayscale
    ensures Offset(y, x, 0, width, 1) < grayscale.Length
    ensures grayscale[..] == old(grayscale[..])[Offset(y, x, 0, width, 1) := GreyAt(s, width, height, y, x)]
  {
    InImage(y, x, 0, width, height, 1);
    InImage(y, x, 0, width, height, 4);
    InImage(y, x, 1, width, height, 4);
    InImage(y, x, 2, width, height, 4);
    var d := Offset(y, x, 0, width, 1);
    var gs := source[Offset(y, x, 0, width, 4)] as int + source[Offset(y, x, 1, width, 4)] + source[Offset(y, x, 2, width, 4)];
    var g := Min(255, gs / 3);
    grayscale[d] := ToByte(g);
  }

  /** Writing pixel (x, y) extends the converted prefix by that pixel. */
  lemma GreyStep(g0: seq<byte>, g1: seq<byte>, s: seq<byte>, w: nat, h: nat, y: nat, x: nat)
    requires |s| >= h * w * 4 && y < h && x < w && Offset(y, x, 0, w, 1) < |g0|
    requires GreyBefore(g0, s, w, h, y, x)
    requires g1 == g0[Offset(y, x, 0, w, 1) := GreyAt(s, w, h, y, x)]
    ensures GreyBefore(g1, s, w, h, y, x + 1)
  {
    forall yy, xx | 0 <= yy < h && 0 <= xx < w && Before(yy, xx, 0, y, x + 1, 0) && 0 <= Offset(yy, xx, 0, w, 1) < |g1|
      ensures g1[Offset(yy, xx, 0, w, 1)] == GreyAt(s, w, h, yy, xx)
    {
      if Before(yy, xx, 0, y, x, 0) {
        OffsetBefore(yy, xx, 0, y, x, 0, w, 1);
      }
    }
  }
}
