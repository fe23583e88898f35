/**
 * Sizing the character grid: the requested width (with its default), the
 * height that keeps the picture's proportions on cells about twice as tall
 * as wide, and the clamp that keeps the grid and three status lines inside
 * the console window.
 *
 * The source computes with the aspect ratio as a double and converts with a
 * C# cast, which truncates toward zero; here the ratio is kept as the exact
 * fraction videoWidth / videoHeight of two positive pixel counts.
 */
module GridSizing {
  import opened Wrappers

  /** The width used when the answer to the width prompt is not a positive integer. */
  const DefaultWidth := 220

  /** Lines kept free below the grid for the status output. */
  const ReservedRows := 3

  /** The grid the frames are resized to: `width` cells by `height` rows. */
  datatype Grid = Grid(width: int, height: int)

  /**
   * The width after the prompt: the parsed value when parsing succeeded and
   * gave a positive number, the default otherwise.
   */
  function ResolveWidth(parsed: Option<int>): (w: int)
    ensures w > 0
    ensures parsed.Some? && parsed.value > 0 ==> w == parsed.value
    ensures parsed.None? || parsed.value <= 0 ==> w == DefaultWidth
  {
    match parsed
    case Some(v) => if v > 0 then v else DefaultWidth
    case None => DefaultWidth
  }

  /** A C# cast of the quotient `a / b` to `int`: truncation toward zero. */
  function TruncDiv(a: int, b: int): (q: int)
    requires b > 0
    ensures a >= 0 ==> 0 <= q && q * b <= a < (q + 1) * b
    ensures a < 0 ==> q <= 0 && (q - 1) * b < a <= q * b
  {
    if a >= 0 then
      FloorDivBounds(a, b);
      a / b
    else
      FloorDivBounds(-a, b);
      -((-a) / b)
  }

  lemma FloorDivBounds(a: int, b: int)
    requires a >= 0 && b > 0
    ensures 0 <= a / b && (a / b) * b <= a < (a / b + 1) * b
  {
    var q, r := a / b, a % b;
    assert a == q * b + r;
    assert (q + 1) * b == q * b + b;
    if q < 0 {
      MulMonotone(q, -1, b);
    }
  }

  /**
   * The height `(int)(width / aspect / 2)`: the most rows whose doubled
   * height, in the picture's proportions, fits in `width`.
   */
  function NaturalHeight(width: int, videoWidth: int, videoHeight: int): (h: int)
    requires width > 0 && videoWidth > 0 && videoHeight > 0
    ensures h >= 0
    ensures 2 * h * videoWidth <= width * videoHeight < 2 * (h + 1) * videoWidth
  {
    TruncDiv(width * videoHeight, 2 * videoWidth)
  }

  /**
   * The width `(int)(height * aspect * 2)` recomputed for a clamped height:
   * the most cells that fit in twice the height in the picture's proportions
   * (truncated toward zero when the height is negative).
   */
  function RecomputedWidth(height: int, videoWidth: int, videoHeight: int): (w: int)
    requires videoWidth > 0 && videoHeight > 0
    ensures height >= 0 ==> 0 <= w && w * videoHeight <= 2 * height * videoWidth < (w + 1) * videoHeight
    ensures height < 0 ==> w <= 0 && (w - 1) * videoHeight < 2 * height * videoWidth <= w * videoHeight
  {
    TruncDiv(2 * height * videoWidth, videoHeight)
  }

  /** True when the natural height leaves no room for the status lines. */
  predicate Clamped(width: int, videoWidth: int, videoHeight: int, windowHeight: int)
    requires width > 0 && videoWidth > 0 && videoHeight > 0
  {
    NaturalHeight(width, videoWidth, videoHeight) > windowHeight - ReservedRows
  }

  /**
   * The grid for a video of `videoWidth` x `videoHeight` pixels in a window
   * of `windowHeight` lines. The height is the natural one capped at the
   * window height less the reserved lines; an unclamped grid keeps the width
   * and is at most one row short of the proportions, a clamped one gets the
   * width of its new height and is less than one cell short of them.
   */
  function FitGrid(width: int, videoWidth: int, videoHeight: int, windowHeight: int): (g: Grid)
    requires width > 0 && videoWidth > 0 && videoHeight > 0
    ensures g.height <= windowHeight - ReservedRows
    ensures g.height == if Clamped(width, videoWidth, videoHeight, windowHeight)
      then windowHeight - ReservedRows else NaturalHeight(width, videoWidth, videoHeight)
    ensures !Clamped(width, videoWidth, videoHeight, windowHeight) ==>
      g.width == width && 0 <= g.width * videoHeight - 2 * g.height * videoWidth < 2 * videoWidth
    ensures Clamped(width, videoWidth, videoHeight, windowHeight) && g.height >= 0 ==>
      0 <= 2 * g.height * videoWidth - g.width * videoHeight < videoHeight
  {
    var asciiHeight := NaturalHeight(width, videoWidth, videoHeight);
    if asciiHeight > windowHeight - ReservedRows then
      var h := windowHeight - ReservedRows;
      Grid(RecomputedWidth(h, videoWidth, videoHeight), h)
    else
      Grid(width, asciiHeight)
  }

  /**
   * Clamping only ever narrows the grid: once the height is cut, the
   * recomputed width is below the requested one, and it is never negative
   * while the window leaves room for the status lines.
   */
  lemma ClampNarrows(width: int, videoWidth: int, videoHeight: int, windowHeight: int)
    requires width > 0 && videoWidth > 0 && videoHeight > 0
    requires Clamped(width, videoWidth, videoHeight, windowHeight)
    requires windowHeight >= ReservedRows
    ensures 0 <= FitGrid(width, videoWidth, videoHeight, windowHeight).width < width
  {
    var h := NaturalHeight(width, videoWidth, videoHeight);
    var g := FitGrid(width, videoWidth, videoHeight, windowHeight);
    NarrowerRow(g.width, g.height, h, width, videoWidth, videoHeight);
  }

  /**
   * With `gh < h` rows, a width that fits in `gh` rows of the picture is
   * below one that `h` rows fit in.
   */
  lemma NarrowerRow(gw: int, gh: int, h: int, width: int, videoWidth: int, videoHeight: int)
    requires 0 <= gh < h && videoWidth > 0 && videoHeight > 0
    requires gw * videoHeight <= 2 * gh * videoWidth
    requires 2 * h * videoWidth <= width * videoHeight
    ensures gw < width
  {
    MulMonotone(2 * gh, 2 * h - 2, videoWidth);
    assert (2 * h - 2) * videoWidth < 2 * h * videoWidth;
    if gw >= width {
      MulMonotone(width, gw, videoHeight);
    }
  }

  lemma MulMonotone(a: int, b: int, c: int)
    requires a <= b && c >= 0
    ensures a * c <= b * c
  {
  }

  /** A wider request never gives a shorter natural grid. */
  lemma NaturalHeightMonotone(w1: int, w2: int, videoWidth: int, videoHeight: int)
    requires 0 < w1 <= w2 && videoWidth > 0 && videoHeight > 0
    ensures NaturalHeight(w1, videoWidth, videoHeight) <= NaturalHeight(w2, videoWidth, videoHeight)
  {
    var h1, h2 := NaturalHeight(w1, videoWidth, videoHeight), NaturalHeight(w2, videoWidth, videoHeight);
    MulMonotone(w1, w2, videoHeight);
    if h1 > h2 {
      MulMonotone(2 * (h2 + 1), 2 * h1, videoWidth);
    }
  }

  /**
   * The default width on a 1920 x 1080 video gives 61 rows (61.875
   * truncated) in any window of at least 64 lines.
   */
  lemma FullHdDefault(windowHeight: int)
    requires windowHeight >= 64
    ensures FitGrid(ResolveWidth(None), 1920, 1080, windowHeight) == Grid(220, 61)
  {
    assert NaturalHeight(220, 1920, 1080) == 61;
  }

  /**
   * In a 43-line window the same video is cut to 40 rows, and the width is
   * recomputed as 142 cells (142.2 truncated).
   */
  lemma FullHdClamped()
    ensures FitGrid(220, 1920, 1080, 43) == Grid(142, 40)
  {
    assert NaturalHeight(220, 1920, 1080) == 61;
    assert RecomputedWidth(40, 1920, 1080) == 142;
  }
}
