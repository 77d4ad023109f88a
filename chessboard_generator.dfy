/** The integer core of `ChessboardGenerator.GenerateImages`: the canvas
    geometry, the white canvas with its black checkerboard cells, and the
    list of output file names built one per generated image. */
module ChessboardGenerator {
  import opened Raster
  import opened NumberFormat

  /** The generator's board settings: squares across and down, the side of
      one square and the blank border, all in pixels. */
  datatype Config = Config(squaresX: int, squaresY: int, squareSize: int, margin: int) {
    predicate Valid() {
      squaresX >= 1 && squaresY >= 1 && squareSize >= 1 && margin >= 0
    }
  }

  /** The property initialisers of the generator class. */
  const Defaults := Config(10, 7, 80, 100)

  /** One more than the largest value of a C# `int`. */
  const Int32Bound := 0x8000_0000

  // ---------------------------------------------------------------------------
  // Canvas geometry

  function BoardWidth(c: Config): int { c.squaresX * c.squareSize }
  function BoardHeight(c: Config): int { c.squaresY * c.squareSize }
  function ImageWidth(c: Config): int { BoardWidth(c) + c.margin * 2 }
  function ImageHeight(c: Config): int { BoardHeight(c) + c.margin * 2 }

  // Products of non-negative numbers, kept out of the solver's way.

  lemma MulMono(a: int, b: int, s: int)
    requires a <= b && s >= 0
    ensures a * s <= b * s
  {
    assert b * s - a * s == (b - a) * s;
  }

  lemma MulNonNeg(a: int, s: int)
    requires a >= 0 && s >= 0
    ensures a * s >= 0
  {
  }

  /** `d / s` is the unique `q` with `q * s <= d < q * s + s`. */
  lemma DivChar(d: int, s: int, q: int)
    requires s > 0
    ensures q * s <= d < q * s + s <==> d / s == q
  {
    var q' := d / s;
    assert q' * s <= d < q' * s + s;
    if q < q' {
      MulMono(q + 1, q', s);
    } else if q' < q {
      MulMono(q' + 1, q, s);
    }
  }

  /** The canvas is the board with `margin` blank pixels on each of its
      four sides; both dimensions are at least one square plus two margins. */
  lemma CanvasGeometry(c: Config)
    requires c.Valid()
    ensures ImageWidth(c) - (c.margin + BoardWidth(c)) == c.margin
    ensures ImageHeight(c) - (c.margin + BoardHeight(c)) == c.margin
    ensures ImageWidth(c) >= c.squareSize + 2 * c.margin
    ensures ImageHeight(c) >= c.squareSize + 2 * c.margin
  {
    MulMono(1, c.squaresX, c.squareSize);
    MulMono(1, c.squaresY, c.squareSize);
  }

  /** The default settings give a 1000 × 760 canvas; with the margin set
      to the square size, as the application's caller does, 960 × 720. */
  lemma DefaultCanvas()
    ensures Defaults.Valid() && ImageWidth(Defaults) == 1000 && ImageHeight(Defaults) == 760
    ensures var fromCaller := Defaults.(margin := Defaults.squareSize);
            ImageWidth(fromCaller) == 960 && ImageHeight(fromCaller) == 720
  {
  }

  // ---------------------------------------------------------------------------
  // Cells of the board

  /** The pixel rectangle of grid cell (x, y). */
  function CellRect(c: Config, x: int, y: int): Rect {
    Rect(c.margin + x * c.squareSize, c.margin + y * c.squareSize, c.squareSize, c.squareSize)
  }

  /** The drawing condition of the fill loop. */
  predicate IsBlackCell(x: int, y: int) {
    (x + y) % 2 == 1
  }

  /** The pixel lies on the board, not in the margin. */
  predicate OnBoard(c: Config, row: int, col: int) {
    c.margin <= col < c.margin + BoardWidth(c) && c.margin <= row < c.margin + BoardHeight(c)
  }

  /** The column and row of the grid cell a board pixel falls in. */
  function CellX(c: Config, col: int): int requires c.Valid() { (col - c.margin) / c.squareSize }
  function CellY(c: Config, row: int): int requires c.Valid() { (row - c.margin) / c.squareSize }

  /** Every cell rectangle of the grid lies inside the canvas. */
  lemma CellInCanvas(c: Config, x: int, y: int)
    requires c.Valid() && 0 <= x < c.squaresX && 0 <= y < c.squaresY
    ensures 0 <= CellRect(c, x, y).x && CellRect(c, x, y).x + c.squareSize <= ImageWidth(c)
    ensures 0 <= CellRect(c, x, y).y && CellRect(c, x, y).y + c.squareSize <= ImageHeight(c)
  {
    MulNonNeg(x, c.squareSize);
    MulNonNeg(y, c.squareSize);
    MulMono(x + 1, c.squaresX, c.squareSize);
    MulMono(y + 1, c.squaresY, c.squareSize);
  }

  /** A board pixel lies in a cell of the grid. */
  lemma CellInRange(c: Config, row: int, col: int)
    requires c.Valid() && OnBoard(c, row, col)
    ensures 0 <= CellX(c, col) < c.squaresX && 0 <= CellY(c, row) < c.squaresY
  {
    var d, s := col - c.margin, c.squareSize;
    if d / s >= c.squaresX { MulMono(c.squaresX, d / s, s); }
    d := row - c.margin;
    if d / s >= c.squaresY { MulMono(c.squaresY, d / s, s); }
  }

  /** A pixel is in the rectangle of cell (x, y) exactly when it is on the
      board and (x, y) is the cell it falls in. */
  lemma CellRectExact(c: Config, x: int, y: int, row: int, col: int)
    requires c.Valid() && 0 <= x < c.squaresX && 0 <= y < c.squaresY
    ensures CellRect(c, x, y).Contains(row, col)
        <==> OnBoard(c, row, col) && CellX(c, col) == x && CellY(c, row) == y
  {
    var s := c.squareSize;
    DivChar(col - c.margin, s, x);
    DivChar(row - c.margin, s, y);
    MulNonNeg(x, s);
    MulNonNeg(y, s);
    MulMono(x + 1, c.squaresX, s);
    MulMono(y + 1, c.squaresY, s);
  }

  /** No pixel lies in two different cells. */
  lemma CellsDisjoint(c: Config, x1: int, y1: int, x2: int, y2: int, row: int, col: int)
    requires c.Valid()
    requires 0 <= x1 < c.squaresX && 0 <= y1 < c.squaresY
    requires 0 <= x2 < c.squaresX && 0 <= y2 < c.squaresY
    requires (x1, y1) != (x2, y2)
    ensures !(CellRect(c, x1, y1).Contains(row, col) && CellRect(c, x2, y2).Contains(row, col))
  {
    CellRectExact(c, x1, y1, row, col);
    CellRectExact(c, x2, y2, row, col);
  }

  /** Filling two different cells gives the same samples in either order,
      whatever values they are filled with. */
  lemma FillOrderIrrelevant(c: Config, x1: int, y1: int, v1: Sample, x2: int, y2: int, v2: Sample,
                            before: Sample, row: int, col: int)
    requires c.Valid()
    requires 0 <= x1 < c.squaresX && 0 <= y1 < c.squaresY
    requires 0 <= x2 < c.squaresX && 0 <= y2 < c.squaresY
    requires (x1, y1) != (x2, y2)
    ensures Painted(CellRect(c, x2, y2), v2, Painted(CellRect(c, x1, y1), v1, before, row, col), row, col)
         == Painted(CellRect(c, x1, y1), v1, Painted(CellRect(c, x2, y2), v2, before, row, col), row, col)
  {
    CellsDisjoint(c, x1, y1, x2, y2, row, col);
  }

  /** The corners computed for cell (x, y) lie in [0, 2^31) when the
      canvas does. */
  lemma CellInt32Safe(c: Config, x: int, y: int)
    requires c.Valid() && ImageWidth(c) < Int32Bound && ImageHeight(c) < Int32Bound
    requires 0 <= x < c.squaresX && 0 <= y < c.squaresY
    ensures 0 <= x * c.squareSize <= CellRect(c, x, y).x
    ensures CellRect(c, x, y).x + c.squareSize < Int32Bound
    ensures 0 <= y * c.squareSize <= CellRect(c, x, y).y
    ensures CellRect(c, x, y).y + c.squareSize < Int32Bound
  {
    CellInCanvas(c, x, y);
    MulNonNeg(x, c.squareSize);
    MulNonNeg(y, c.squareSize);
  }

  /** When the exact canvas dimensions are below 2^31 and the two square
      counts add up to at most 2^31 + 1, every `int` intermediate of the
      geometry (board and canvas sizes), of the parity test `x + y` and of
      the rectangle corners of the fill loop lies in [0, 2^31): the
      source's 32-bit arithmetic then never wraps, its truncating `%` on
      the non-negative `x + y` agrees with this model's, and it computes
      the same values as this model. */
  lemma Int32Safe(c: Config)
    requires c.Valid() && ImageWidth(c) < Int32Bound && ImageHeight(c) < Int32Bound
    requires c.squaresX + c.squaresY <= Int32Bound + 1
    ensures 0 <= BoardWidth(c) < Int32Bound && 0 <= BoardHeight(c) < Int32Bound
    ensures 0 <= c.margin * 2 < Int32Bound
    ensures 0 <= ImageWidth(c) && 0 <= ImageHeight(c)
    ensures forall x, y :: 0 <= x < c.squaresX && 0 <= y < c.squaresY ==>
              0 <= x * c.squareSize <= CellRect(c, x, y).x
              && CellRect(c, x, y).x + c.squareSize < Int32Bound
              && 0 <= y * c.squareSize <= CellRect(c, x, y).y
              && CellRect(c, x, y).y + c.squareSize < Int32Bound
              && 0 <= x + y < Int32Bound
  {
    MulNonNeg(c.squaresX, c.squareSize);
    MulNonNeg(c.squaresY, c.squareSize);
    forall x, y | 0 <= x < c.squaresX && 0 <= y < c.squaresY {
      CellInt32Safe(c, x, y);
    }
  }

  // ---------------------------------------------------------------------------
  // The base canvas

  /** The finished base canvas, independently of any drawing order: black
      on the board pixels whose cell has odd parity, white everywhere else. */
  function BaseSample(c: Config, row: int, col: int): Sample
    requires c.Valid()
  {
    if OnBoard(c, row, col) && IsBlackCell(CellX(c, col), CellY(c, row)) then Black else White
  }

  /** The canvas after the fill loops have handled every cell before
      (x0, y0) in row-major order. */
  function SampleAfter(c: Config, y0: int, x0: int, row: int, col: int): Sample
    requires c.Valid()
  {
    if OnBoard(c, row, col) && IsBlackCell(CellX(c, col), CellY(c, row))
       && (CellY(c, row) < y0 || (CellY(c, row) == y0 && CellX(c, col) < x0))
    then Black else White
  }

  /** Every pixel of grid cell (x, y) is black exactly when (x + y) is odd,
      and white otherwise. */
  lemma CellColour(c: Config, x: int, y: int, row: int, col: int)
    requires c.Valid() && 0 <= x < c.squaresX && 0 <= y < c.squaresY
    requires CellRect(c, x, y).Contains(row, col)
    ensures BaseSample(c, row, col) == if (x + y) % 2 == 1 then Black else White
  {
    CellRectExact(c, x, y, row, col);
  }

  /** Pixels outside the board stay white. */
  lemma MarginWhite(c: Config, row: int, col: int)
    requires c.Valid()
    requires col < c.margin || c.margin + BoardWidth(c) <= col
          || row < c.margin || c.margin + BoardHeight(c) <= row
    ensures BaseSample(c, row, col) == White
  {
  }

  /** Cell (0, 0) is white; cell (1, 0), when there is one, is black. */
  lemma CornerCells(c: Config)
    requires c.Valid()
    ensures forall row, col :: CellRect(c, 0, 0).Contains(row, col) ==> BaseSample(c, row, col) == White
    ensures c.squaresX >= 2 ==>
              forall row, col :: CellRect(c, 1, 0).Contains(row, col) ==> BaseSample(c, row, col) == Black
  {
    forall row, col | CellRect(c, 0, 0).Contains(row, col)
      ensures BaseSample(c, row, col) == White
    {
      CellColour(c, 0, 0, row, col);
    }
    if c.squaresX >= 2 {
      forall row, col | CellRect(c, 1, 0).Contains(row, col)
        ensures BaseSample(c, row, col) == Black
      {
        CellColour(c, 1, 0, row, col);
      }
    }
  }

  /** Horizontally or vertically adjacent cells have opposite colours. */
  lemma NeighboursAlternate(c: Config, x1: int, y1: int, x2: int, y2: int,
                            r1: int, c1: int, r2: int, c2: int)
    requires c.Valid()
    requires 0 <= x1 < c.squaresX && 0 <= y1 < c.squaresY
    requires 0 <= x2 < c.squaresX && 0 <= y2 < c.squaresY
    requires (x2 == x1 + 1 && y2 == y1) || (x2 == x1 && y2 == y1 + 1)
    requires CellRect(c, x1, y1).Contains(r1, c1) && CellRect(c, x2, y2).Contains(r2, c2)
    ensures BaseSample(c, r1, c1) != BaseSample(c, r2, c2)
  {
    CellColour(c, x1, y1, r1, c1);
    CellColour(c, x2, y2, r2, c2);
  }

  /** Builds the base canvas: an all-white `ImageHeight × ImageWidth`
      raster on which every odd-parity grid cell is filled black, visiting
      the cells row by row. */
  method DrawBoard(c: Config) returns (baseMat: array2<Sample>)
    requires c.Valid()
    ensures fresh(baseMat)
    ensures baseMat.Length0 == ImageHeight(c) && baseMat.Length1 == ImageWidth(c)
    ensures forall row, col :: 0 <= row < baseMat.Length0 && 0 <= col < baseMat.Length1 ==>
              baseMat[row, col] == BaseSample(c, row, col)
  {
    var boardW := c.squaresX * c.squareSize;
    var boardH := c.squaresY * c.squareSize;
    var imgW := boardW + c.margin * 2;
    var imgH := boardH + c.margin * 2;
    CanvasGeometry(c);
    baseMat := NewImage(imgW, imgH, White);
    for y := 0 to c.squaresY
      invariant forall row, col :: 0 <= row < imgH && 0 <= col < imgW ==>
                  baseMat[row, col] == SampleAfter(c, y, 0, row, col)
    {
      for x := 0 to c.squaresX
        invariant forall row, col :: 0 <= row < imgH && 0 <= col < imgW ==>
                    baseMat[row, col] == SampleAfter(c, y, x, row, col)
      {
        if (x + y) % 2 == 1 {
          var px := c.margin + x * c.squareSize;
          var py := c.margin + y * c.squareSize;
          FillRect(baseMat, Rect(px, py, c.squareSize, c.squareSize), Black);
          forall row, col | 0 <= row < imgH && 0 <= col < imgW
            ensures baseMat[row, col] == SampleAfter(c, y, x + 1, row, col)
          {
            CellRectExact(c, x, y, row, col);
          }
        }
      }
      forall row, col | 0 <= row < imgH && 0 <= col < imgW
        ensures SampleAfter(c, y, c.squaresX, row, col) == SampleAfter(c, y + 1, 0, row, col)
      {
        if OnBoard(c, row, col) { CellInRange(c, row, col); }
      }
    }
    forall row, col | 0 <= row < imgH && 0 <= col < imgW
      ensures SampleAfter(c, c.squaresY, 0, row, col) == BaseSample(c, row, col)
    {
      if OnBoard(c, row, col) { CellInRange(c, row, col); }
    }
  }

  // ---------------------------------------------------------------------------
  // Output file names

  /** The directory part `Path.Combine` puts in front of the file name on
      Windows: nothing for an empty directory, the directory itself when it
      already ends in a directory separator, else the directory and a
      backslash. */
  function DirectoryPrefix(dir: string): (p: string)
    ensures dir == [] ==> p == []
    ensures dir != [] ==> |dir| <= |p| <= |dir| + 1 && p[..|dir|] == dir
                          && (p[|p| - 1] == '\\' || p[|p| - 1] == '/')
    ensures dir != [] ==> (|p| == |dir| <==> (dir[|dir| - 1] == '\\' || dir[|dir| - 1] == '/'))
    ensures |p| == |dir| + 1 ==> p[|dir|] == '\\'
  {
    if dir == [] then []
    else if dir[|dir| - 1] == '\\' || dir[|dir| - 1] == '/' then dir
    else dir + "\\"
  }

  /** `Path.Combine(dir, name)` for a `name` that is neither empty nor
      rooted. */
  function PathCombine(dir: string, name: string): string {
    DirectoryPrefix(dir) + name
  }

  /** The path of the file saved by the iteration with index `i`: the
      output directory combined with `chess_gen_`, `i + 1` in "D3" format
      and `.jpg`. */
  function FileName(outputDir: string, i: nat): string {
    PathCombine(outputDir, ImageFileName(i))
  }

  /** The bare file name of the iteration with index `i`. */
  function ImageFileName(i: nat): string {
    "chess_gen_" + D3(i + 1) + ".jpg"
  }

  lemma StripAffixes(p: string, a: string, b: string, s: string)
    requires p + a + s == p + b + s
    ensures a == b
  {
    var u := p + a + s;
    assert a == u[|p|..|u| - |s|];
    assert b == (p + b + s)[|p|..|u| - |s|];
  }

  /** Within one output directory, distinct iterations get distinct file
      names. */
  lemma FileNamesDistinct(outputDir: string, i: nat, j: nat)
    ensures FileName(outputDir, i) == FileName(outputDir, j) <==> i == j
  {
    if FileName(outputDir, i) == FileName(outputDir, j) {
      var prefix := DirectoryPrefix(outputDir) + "chess_gen_";
      assert FileName(outputDir, i) == prefix + D3(i + 1) + ".jpg";
      assert FileName(outputDir, j) == prefix + D3(j + 1) + ".jpg";
      StripAffixes(prefix, D3(i + 1), D3(j + 1), ".jpg");
      D3Injective(i + 1, j + 1);
    }
  }

  /** The first and the fifth iteration save `chess_gen_001.jpg` and
      `chess_gen_005.jpg`. */
  lemma FirstFileNames()
    ensures ImageFileName(0) == "chess_gen_001.jpg"
    ensures ImageFileName(4) == "chess_gen_005.jpg"
  {
    D3Examples();
  }

  // ---------------------------------------------------------------------------
  // The generation run

  /** Builds the base canvas once and then, for each of the `count`
      iterations, appends the name of the image that iteration saves. The
      canvas is returned beside the names; it is what every iteration warps. */
  method GenerateImages(c: Config, outputDir: string, count: int)
    returns (baseMat: array2<Sample>, generatedFiles: seq<string>)
    requires c.Valid()
    ensures fresh(baseMat)
    ensures baseMat.Length0 == ImageHeight(c) && baseMat.Length1 == ImageWidth(c)
    ensures forall row, col :: 0 <= row < baseMat.Length0 && 0 <= col < baseMat.Length1 ==>
              baseMat[row, col] == BaseSample(c, row, col)
    ensures |generatedFiles| == if count < 0 then 0 else count
    ensures forall i :: 0 <= i < |generatedFiles| ==> generatedFiles[i] == FileName(outputDir, i)
    ensures forall i, j :: 0 <= i < |generatedFiles| && 0 <= j < |generatedFiles| && i != j ==>
              generatedFiles[i] != generatedFiles[j]
  {
    generatedFiles := [];
    baseMat := DrawBoard(c);
    var i := 0;
    while i < count
      invariant 0 <= i <= if count < 0 then 0 else count
      invariant |generatedFiles| == i
      invariant forall k :: 0 <= k < i ==> generatedFiles[k] == FileName(outputDir, k)
    {
      var fileName := FileName(outputDir, i);
      generatedFiles := generatedFiles + [fileName];
      i := i + 1;
    }
    forall i, j | 0 <= i < |generatedFiles| && 0 <= j < |generatedFiles| && i != j
      ensures generatedFiles[i] != generatedFiles[j]
    {
      FileNamesDistinct(outputDir, i, j);
    }
  }
}
