/**
 * The export's `<canvas>` element as a mutable pixel buffer: `fillRect` and
 * `drawImage` overwrite its pixels in place, and `Snapshot` reads it back as a
 * raster value (what `toDataURL` encodes).
 */
module Canvas {
  import opened Raster

  class Canvas {
    const width: nat
    const height: nat
    /** `pixels[x, y]` is the pixel at column x, row y. */
    const pixels: array2<Pixel>

    ghost predicate Valid()
      reads this
    {
      pixels.Length0 == width && pixels.Length1 == height
    }

    ghost predicate Opaque()
      reads this, pixels
      requires Valid()
    {
      forall x, y :: 0 <= x < width && 0 <= y < height ==> IsOpaque(pixels[x, y])
    }

    /** `document.createElement('canvas')` with its width and height set: transparent black. */
    constructor (w: nat, h: nat)
      ensures Valid() && width == w && height == h && fresh(pixels)
      ensures forall x, y :: 0 <= x < w && 0 <= y < h ==> pixels[x, y] == Transparent
    {
      width, height := w, h;
      pixels := new Pixel[w, h]((x, y) => Transparent);
    }

    /** The buffer's contents as a raster value. */
    function Snapshot(): (img: Image)
      reads this, pixels
      requires Valid()
      ensures img.Wf() && img.width == width && img.height == height
      ensures forall x, y :: 0 <= x < width && 0 <= y < height ==> img.At(x, y) == pixels[x, y]
    {
      Image(width, height,
        seq(width, x requires 0 <= x < width reads pixels =>
          seq(height, y requires 0 <= y < height reads pixels => pixels[x, y])))
    }

    /**
     * `fillRect(0, 0, width, height)` with an opaque fill style: every pixel
     * becomes `colour` (an opaque colour covers whatever was there).
     */
    method FillAll(colour: Pixel)
      requires Valid() && IsOpaque(colour)
      modifies pixels
      ensures Snapshot() == Filled(width, height, colour)
    {
      var x := 0;
      while x < width
        invariant 0 <= x <= width
        invariant forall i, j :: 0 <= i < x && 0 <= j < height ==> pixels[i, j] == colour
      {
        var y := 0;
        while y < height
          invariant 0 <= y <= height
          invariant forall i, j :: 0 <= i < x && 0 <= j < height ==> pixels[i, j] == colour
          invariant forall j :: 0 <= j < y ==> pixels[x, j] == colour
        {
          pixels[x, y] := colour;
          y := y + 1;
        }
        x := x + 1;
      }
      ImageExt(Snapshot(), Filled(width, height, colour));
    }

    /**
     * `drawImage(src, dx, dy)` onto the opaque buffer: each covered pixel is
     * composited once, pixels outside the source's footprint keep their value and
     * the part of the source beyond the buffer is clipped.
     */
    method DrawImage(src: Image, dx: nat, dy: nat)
      requires Valid() && Opaque() && src.Wf()
      modifies pixels
      ensures Snapshot() == Drawn(old(Snapshot()), src, dx, dy)
    {
      ghost var before := Snapshot();
      assert before.AllOpaque();
      // the covered columns and rows, clipped to the buffer (empty when the offset is outside)
      var xEnd := if dx + src.width < width then dx + src.width else if dx < width then width else dx;
      var yEnd := if dy + src.height < height then dy + src.height else if dy < height then height else dy;
      var x := dx;
      while x < xEnd
        invariant dx <= x <= xEnd
        invariant forall i, j :: 0 <= i < width && 0 <= j < height ==>
                    pixels[i, j] == if dx <= i < x && Covers(dx, dy, src.width, src.height, i, j)
                                    then DrawnAt(before, src, dx, dy, i, j) else before.At(i, j)
      {
        var y := dy;
        while y < yEnd
          invariant dy <= y <= yEnd
          invariant forall i, j :: 0 <= i < width && 0 <= j < height ==>
                      pixels[i, j] == if (dx <= i < x || (i == x && j < y)) && Covers(dx, dy, src.width, src.height, i, j)
                                      then DrawnAt(before, src, dx, dy, i, j) else before.At(i, j)
        {
          pixels[x, y] := Over(src.At(x - dx, y - dy), pixels[x, y]);
          y := y + 1;
        }
        x := x + 1;
      }
      ImageExt(Snapshot(), Drawn(before, src, dx, dy));
    }
  }

  /**
   * The export's compositing steps: a (w + 2b) x (h + 2b) canvas, filled white,
   * with the decoded image drawn at (b, b).
   */
  method Composite(src: Image, b: nat) returns (canvas: Canvas)
    requires src.Wf()
    ensures fresh(canvas.pixels) && canvas.Valid()
    ensures canvas.width == src.width + 2 * b && canvas.height == src.height + 2 * b
    ensures canvas.Snapshot() == Composited(src, b)
  {
    canvas := new Canvas(src.width + 2 * b, src.height + 2 * b);
    canvas.FillAll(White);
    assert canvas.Opaque() by {
      forall x, y | 0 <= x < canvas.width && 0 <= y < canvas.height
        ensures IsOpaque(canvas.pixels[x, y])
      {
        assert canvas.Snapshot().At(x, y) == White;
      }
    }
    canvas.DrawImage(src, b, b);
  }
}
