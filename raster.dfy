/**
 * Pixels and rasters as values, and the meaning of the two canvas operations the
 * export uses: `fillRect` over the whole canvas and `drawImage` at an offset,
 * composited source-over onto the opaque canvas. `Composited` is the image the
 * export produces; the Canvas module computes it in place.
 */
module Raster {

  newtype Byte = x: int | 0 <= x < 256

  /** An 8-bit RGBA pixel (not premultiplied). */
  datatype Pixel = Pixel(r: Byte, g: Byte, b: Byte, a: Byte)

  /** `#ffffff` as the fill style: opaque white. */
  const White: Pixel := Pixel(255, 255, 255, 255)
  /** A freshly created canvas is transparent black. */
  const Transparent: Pixel := Pixel(0, 0, 0, 0)

  predicate IsOpaque(p: Pixel) {
    p.a == 255
  }

  /**
   * A raster stored column by column: `px[x][y]` is the pixel at column x, row y.
   * The dimensions are kept apart so that a 0-wide image still has a height.
   */
  datatype Image = Image(width: nat, height: nat, px: seq<seq<Pixel>>) {
    ghost predicate Wf() {
      |px| == width && forall x :: 0 <= x < width ==> |px[x]| == height
    }

    function At(x: nat, y: nat): Pixel
      requires Wf() && x < width && y < height
    {
      px[x][y]
    }

    ghost predicate AllOpaque()
      requires Wf()
    {
      forall x, y :: 0 <= x < width && 0 <= y < height ==> IsOpaque(At(x, y))
    }
  }

  /** Two well-formed rasters with the same dimensions and pixels are the same value. */
  lemma {:induction false} ImageExt(p: Image, q: Image)
    requires p.Wf() && q.Wf()
    requires p.width == q.width && p.height == q.height
    requires forall x, y :: 0 <= x < p.width && 0 <= y < p.height ==> p.At(x, y) == q.At(x, y)
    ensures p == q
  {
    forall x | 0 <= x < p.width
      ensures p.px[x] == q.px[x]
    {
      assert forall y :: 0 <= y < p.height ==> p.px[x][y] == p.At(x, y);
    }
  }

  /** One channel of `s` with coverage `a` over `d`, rounded to the nearest byte. */
  function Mix(s: Byte, d: Byte, a: Byte): (c: Byte)
    ensures a == 255 ==> c == s
    ensures a == 0 ==> c == d
    ensures (s <= d ==> s <= c <= d) && (d <= s ==> d <= c <= s)
  {
    var si, di, ai := s as int, d as int, a as int;
    var m := (si * ai + di * (255 - ai) + 127) / 255;
    MixBounds(si, di, ai, m);
    m as Byte
  }

  lemma MixBounds(s: int, d: int, a: int, m: int)
    requires 0 <= s < 256 && 0 <= d < 256 && 0 <= a < 256
    requires m == (s * a + d * (255 - a) + 127) / 255
    ensures a == 255 ==> m == s
    ensures a == 0 ==> m == d
    ensures s <= d ==> s <= m <= d
    ensures d <= s ==> d <= m <= s
  {
    var t := s * a + d * (255 - a);
    if s <= d {
      WeightedBetween(s, d, a);
    } else {
      WeightedBetween(d, s, 255 - a);
      assert t == d * (255 - a) + s * (255 - (255 - a));
    }
    if a == 255 { assert t == 255 * s; }
    if a == 0 { assert t == 255 * d; }
  }

  /** A weighted sum with weights a and 255 - a lies between 255 lo and 255 hi. */
  lemma WeightedBetween(lo: int, hi: int, a: int)
    requires lo <= hi && 0 <= a <= 255
    ensures 255 * lo <= lo * a + hi * (255 - a) <= 255 * hi
  {
  }

  /**
   * Source-over compositing of `src` onto an opaque destination pixel: the colour
   * channels are mixed by the source's alpha and the result stays opaque.
   */
  function Over(src: Pixel, dst: Pixel): (p: Pixel)
    requires IsOpaque(dst)
    ensures IsOpaque(p)
    ensures IsOpaque(src) ==> p == src
    ensures src.a == 0 ==> p == dst
  {
    Pixel(Mix(src.r, dst.r, src.a), Mix(src.g, dst.g, src.a), Mix(src.b, dst.b, src.a), 255)
  }

  /** `fillRect(0, 0, width, height)` on a canvas of that size with `colour`. */
  function Filled(width: nat, height: nat, colour: Pixel): (img: Image)
    ensures img.Wf() && img.width == width && img.height == height
    ensures forall x, y :: 0 <= x < width && 0 <= y < height ==> img.At(x, y) == colour
  {
    Image(width, height, seq(width, x => seq(height, y => colour)))
  }

  /** Whether canvas pixel (x, y) is covered by a `w` x `h` image drawn at (dx, dy). */
  predicate Covers(dx: nat, dy: nat, w: nat, h: nat, x: int, y: int) {
    dx <= x < dx + w && dy <= y < dy + h
  }

  /** The pixel at (x, y) after `drawImage(src, dx, dy)` on `canvas`, unscaled. */
  function DrawnAt(canvas: Image, src: Image, dx: nat, dy: nat, x: nat, y: nat): Pixel
    requires canvas.Wf() && canvas.AllOpaque() && src.Wf()
    requires x < canvas.width && y < canvas.height
  {
    if Covers(dx, dy, src.width, src.height, x, y)
    then Over(src.At(x - dx, y - dy), canvas.At(x, y))
    else canvas.At(x, y)
  }

  /**
   * `drawImage(src, dx, dy)` onto an opaque canvas: the part of `src` that falls
   * inside the canvas is composited one pixel per pixel, and the rest is clipped.
   */
  function Drawn(canvas: Image, src: Image, dx: nat, dy: nat): (img: Image)
    requires canvas.Wf() && canvas.AllOpaque() && src.Wf()
    ensures img.Wf() && img.width == canvas.width && img.height == canvas.height
    ensures forall x, y :: 0 <= x < img.width && 0 <= y < img.height ==>
              img.At(x, y) == DrawnAt(canvas, src, dx, dy, x, y)
  {
    Image(canvas.width, canvas.height,
      seq(canvas.width, x requires 0 <= x < canvas.width =>
        seq(canvas.height, y requires 0 <= y < canvas.height =>
          DrawnAt(canvas, src, dx, dy, x, y))))
  }

  /**
   * The exported raster: a canvas of (w + 2b) x (h + 2b) filled white, with the
   * source drawn at (b, b).
   */
  function Composited(src: Image, b: nat): (img: Image)
    requires src.Wf()
    ensures img.Wf()
    ensures img.width == src.width + 2 * b && img.height == src.height + 2 * b
    ensures img.AllOpaque()
  {
    var white := Filled(src.width + 2 * b, src.height + 2 * b, White);
    Drawn(white, src, b, b)
  }

  /** Every pixel outside the centred w x h region is white. */
  lemma CompositedBorderIsWhite(src: Image, b: nat, x: nat, y: nat)
    requires src.Wf()
    requires x < src.width + 2 * b && y < src.height + 2 * b
    requires !Covers(b, b, src.width, src.height, x, y)
    ensures Composited(src, b).At(x, y) == White
  {
  }

  /**
   * Every pixel inside the centred region is the source pixel at (x - b, y - b)
   * composited over white, and exactly that pixel where the source is opaque: the
   * source is placed one to one, never scaled.
   */
  lemma CompositedInteriorIsSource(src: Image, b: nat, x: nat, y: nat)
    requires src.Wf()
    requires Covers(b, b, src.width, src.height, x, y)
    ensures x < Composited(src, b).width && y < Composited(src, b).height
    ensures Composited(src, b).At(x, y) == Over(src.At(x - b, y - b), White)
    ensures IsOpaque(src.At(x - b, y - b)) ==> Composited(src, b).At(x, y) == src.At(x - b, y - b)
  {
  }

  /** The `w` x `h` window of `img` whose top-left corner is (left, top). */
  function Crop(img: Image, left: nat, top: nat, w: nat, h: nat): (c: Image)
    requires img.Wf() && left + w <= img.width && top + h <= img.height
    ensures c.Wf() && c.width == w && c.height == h
    ensures forall x, y :: 0 <= x < w && 0 <= y < h ==> c.At(x, y) == img.At(left + x, top + y)
  {
    Image(w, h, seq(w, x requires 0 <= x < w => seq(h, y requires 0 <= y < h => img.At(left + x, top + y))))
  }

  /** Cutting the border off an export of an opaque image gives the image back. */
  lemma CropUndoesComposite(src: Image, b: nat)
    requires src.Wf() && src.AllOpaque()
    ensures Crop(Composited(src, b), b, b, src.width, src.height) == src
  {
    var c := Crop(Composited(src, b), b, b, src.width, src.height);
    forall x, y | 0 <= x < src.width && 0 <= y < src.height
      ensures c.At(x, y) == src.At(x, y)
    {
      CompositedInteriorIsSource(src, b, b + x, b + y);
    }
    ImageExt(c, src);
  }

  /** With a zero border an opaque image is exported unchanged. */
  lemma ZeroBorderIsIdentity(src: Image)
    requires src.Wf() && src.AllOpaque()
    ensures Composited(src, 0) == src
  {
    var c := Composited(src, 0);
    forall x, y | 0 <= x < src.width && 0 <= y < src.height
      ensures c.At(x, y) == src.At(x, y)
    {
      CompositedInteriorIsSource(src, 0, x, y);
    }
    ImageExt(c, src);
  }
}
