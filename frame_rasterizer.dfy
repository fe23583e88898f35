/**
 * The frame rasterizer: every pixel of a resized frame is mapped to its cell
 * of the pre-sized output grid, which the converter reuses from frame to
 * frame. The source fans the rows out over a parallel loop; the rows write
 * disjoint parts of the grid, so a sequential loop over rows computes the
 * same grid.
 */
module FrameRasterizer {
  import opened GlyphMapper

  /** The rows of a two-dimensional array, top row first. */
  function Cells<T>(a: array2<T>): (g: seq<seq<T>>)
    reads a
    ensures |g| == a.Length0
    ensures forall y :: 0 <= y < |g| ==> |g[y]| == a.Length1
    ensures forall y, x :: 0 <= y < a.Length0 && 0 <= x < a.Length1 ==> g[y][x] == a[y, x]
  {
    seq(a.Length0, y reads a requires 0 <= y < a.Length0 =>
      seq(a.Length1, x reads a requires 0 <= x < a.Length1 => a[y, x]))
  }

  /** True when every row of `g` has `width` cells. */
  ghost predicate IsRect<T>(g: seq<seq<T>>, width: nat) {
    forall y :: 0 <= y < |g| ==> |g[y]| == width
  }

  /**
   * The grid of cells a frame of pixels maps to, position for position. This
   * is the reference definition: its `ensures` only unpack the comprehension,
   * and `Rasterize` is proved to fill the output array with exactly it.
   */
  function MapGrid(frame: seq<seq<Vec3b>>, s: Settings): (cells: seq<seq<PixelInfo>>)
    ensures |cells| == |frame|
    ensures forall y :: 0 <= y < |frame| ==> |cells[y]| == |frame[y]|
    ensures forall y, x :: 0 <= y < |frame| && 0 <= x < |frame[y]| ==>
      cells[y][x] == MapPixel(frame[y][x], s)
  {
    seq(|frame|, y requires 0 <= y < |frame| =>
      seq(|frame[y]|, x requires 0 <= x < |frame[y]| => MapPixel(frame[y][x], s)))
  }

  /**
   * A frame of one colour gives a grid whose cells all carry the same glyph
   * and the same colour, that of the pixel.
   */
  lemma UniformFrame(frame: seq<seq<Vec3b>>, px: Vec3b, s: Settings)
    requires forall y, x :: 0 <= y < |frame| && 0 <= x < |frame[y]| ==> frame[y][x] == px
    ensures forall y, x :: 0 <= y < |frame| && 0 <= x < |frame[y]| ==>
      MapGrid(frame, s)[y][x] == PixelInfo(MapPixel(px, s).symbol, Rgb(px.item2, px.item1, px.item0))
  {
  }

  /** Fills `output` with the cells of `frame`, one row after the other. */
  method Rasterize(frame: array2<Vec3b>, s: Settings, output: array2<PixelInfo>)
    requires frame.Length0 == output.Length0 && frame.Length1 == output.Length1
    modifies output
    ensures forall y, x :: 0 <= y < output.Length0 && 0 <= x < output.Length1 ==>
      output[y, x] == MapPixel(frame[y, x], s)
    ensures Cells(output) == MapGrid(Cells(frame), s)
  {
    var rows, cols := frame.Length0, frame.Length1;
    var y := 0;
    while y < rows
      invariant 0 <= y <= rows
      invariant forall i, j :: 0 <= i < y && 0 <= j < cols ==> output[i, j] == MapPixel(frame[i, j], s)
    {
      var x := 0;
      while x < cols
        invariant 0 <= x <= cols
        invariant forall i, j :: 0 <= i < y && 0 <= j < cols ==> output[i, j] == MapPixel(frame[i, j], s)
        invariant forall j :: 0 <= j < x ==> output[y, j] == MapPixel(frame[y, j], s)
      {
        output[y, x] := MapPixel(frame[y, x], s);
        x := x + 1;
      }
      y := y + 1;
    }
    ghost var produced, expected := Cells(output), MapGrid(Cells(frame), s);
    forall i | 0 <= i < rows ensures produced[i] == expected[i] {
      assert forall j :: 0 <= j < cols ==> produced[i][j] == expected[i][j];
    }
  }
}
