/** Layer pixel surfaces and `recolor_layer` (main.py lines 38-43). */
module Surface {
  import opened Colors

  /** A pixel surface of `width` x `height` pixels, stored as `height` rows of
      `width` pixels: the pixel at column x, row y is `rows[y][x]`. */
  datatype Image = Image(width: nat, height: nat, rows: seq<seq<Rgba>>) {

    predicate Valid() {
      |rows| == height && forall y :: 0 <= y < height ==> |rows[y]| == width
    }

    function At(x: nat, y: nat): Rgba
      requires Valid() && x < width && y < height
    {
      rows[y][x]
    }
  }

  /** Two well-formed surfaces with the same size and the same pixels are equal. */
  lemma SamePixels(a: Image, b: Image)
    requires a.Valid() && b.Valid() && a.width == b.width && a.height == b.height
    requires forall x, y :: 0 <= x < a.width && 0 <= y < a.height ==> a.At(x, y) == b.At(x, y)
    ensures a == b
  {
    forall y | 0 <= y < a.height
      ensures a.rows[y] == b.rows[y]
    {
      forall x | 0 <= x < a.width
        ensures a.rows[y][x] == b.rows[y][x]
      {
        assert a.At(x, y) == b.At(x, y);
      }
    }
  }

  /** The surface `recolor_layer` leaves behind: the original's size, well
      formed, and every pixel `color`. */
  function Filled(img: Image, color: Rgba): (out: Image)
    ensures out.Valid() && out.width == img.width && out.height == img.height
    ensures forall x, y :: 0 <= x < out.width && 0 <= y < out.height ==> out.At(x, y) == color
  {
    Image(img.width, img.height, seq(img.height, _ => seq(img.width, _ => color)))
  }

  /** The contents of a pixel-access array (indexed `[x, y]`, as PIL's pixel
      access object is) as a surface. */
  function Snapshot(frag: array2<Rgba>): (img: Image)
    reads frag
    ensures img.Valid() && img.width == frag.Length0 && img.height == frag.Length1
    ensures forall x, y :: 0 <= x < img.width && 0 <= y < img.height ==> img.At(x, y) == frag[x, y]
  {
    Image(frag.Length0, frag.Length1,
          seq(frag.Length1, y reads frag requires 0 <= y < frag.Length1 =>
            seq(frag.Length0, x reads frag requires 0 <= x < frag.Length0 => frag[x, y])))
  }

  /** `recolor_layer`: row by row, sets every pixel of the surface to `color`.
      The array keeps its dimensions. */
  method RecolorLayer(frag: array2<Rgba>, color: Rgba)
    modifies frag
    ensures forall x, y :: 0 <= x < frag.Length0 && 0 <= y < frag.Length1 ==> frag[x, y] == color
    ensures Snapshot(frag) == Filled(old(Snapshot(frag)), color)
  {
    var y := 0;
    while y < frag.Length1
      invariant 0 <= y <= frag.Length1
      invariant forall x', y' :: 0 <= x' < frag.Length0 && 0 <= y' < y ==> frag[x', y'] == color
    {
      var x := 0;
      while x < frag.Length0
        invariant 0 <= x <= frag.Length0
        invariant forall x', y' :: 0 <= x' < frag.Length0 && 0 <= y' < y ==> frag[x', y'] == color
        invariant forall x' :: 0 <= x' < x ==> frag[x', y] == color
      {
        frag[x, y] := color;
        x := x + 1;
      }
      y := y + 1;
    }
    SamePixels(Snapshot(frag), Filled(old(Snapshot(frag)), color));
  }
}
