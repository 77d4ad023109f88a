# Chessboard generator: verified model of the integer core

`ChessboardGenerator.GenerateImages` draws a checkerboard calibration target on
a white single-channel canvas, warps it through `count` random perspective
transforms and saves each result as `chess_gen_NNN.jpg` in an output
directory, returning the list of written paths. This project models the part
of that method that is exact integer computation, and proves its properties:

- the canvas geometry: the board of `SquaresX × SquaresY` squares of
  `SquareSize` pixels, with `Margin` blank pixels on every side;
- the base canvas: allocated all white (255), then every grid cell whose
  `(x + y) % 2 == 1` filled black (0) by nested row/column loops;
- the output names: one `outputDir\chess_gen_<i+1 as D3>.jpg` per iteration,
  appended in iteration order.

Files:

- `raster.dfy` (module `Raster`): the CV_8UC1 `Mat` as an `array2<Sample>`
  (rows first), `new Mat(size, type, Scalar.All(v))` as `NewImage`, and
  `Cv2.Rectangle(..., -1)` (thickness −1 means filled) as `FillRect`, which
  clips the rectangle to the raster like OpenCV does.
- `number_format.dfy` (module `NumberFormat`): the .NET "D<k>" numeric format
  for non-negative values, with an independent reading function
  `DigitsValue` and the round trip between the two.
- `chessboard_generator.dfy` (module `ChessboardGenerator`): the board
  settings `Config`, the geometry, the closed-form description `BaseSample`
  of the finished canvas (independent of drawing order), the imperative
  `DrawBoard` loops proved against it, the file naming (`Path.Combine` on
  Windows, `FileName`) and `GenerateImages`.

The two loops keep their imperative form: `DrawBoard` mutates a freshly
allocated `array2` cell by cell, with an invariant (`SampleAfter`) saying
which cells are done in row-major order; `GenerateImages` grows a sequence by
appending one name per iteration. A negative `count` behaves as in the C#
`for` loop: no iterations and an empty list.

The source never validates the board settings; the model takes
`SquaresX ≥ 1`, `SquaresY ≥ 1`, `SquareSize ≥ 1` and `Margin ≥ 0` as the
precondition `Config.Valid()` (what the source does with other settings is
under "Left out"). The caller in `MainViewModel.cs` sets the
margin equal to the square size; the model keeps `Margin` a free parameter.

## Model

| member | source | states |
|---|---|---|
| ChessboardGenerator.BoardWidth | ChessboardGenerator.cs:26 | the board is `SquaresX * SquareSize` pixels wide (no contract; its properties are stated by the lemmas below) |
| ChessboardGenerator.BoardHeight | ChessboardGenerator.cs:27 | the board is `SquaresY * SquareSize` pixels high (no contract; see the lemmas below) |
| ChessboardGenerator.ImageWidth | ChessboardGenerator.cs:28 | the canvas is the board width plus `Margin * 2` (no contract; see the lemmas below) |
| ChessboardGenerator.ImageHeight | ChessboardGenerator.cs:29 | the canvas is the board height plus `Margin * 2` (no contract; see the lemmas below) |
| ChessboardGenerator.DefaultCanvas | ChessboardGenerator.cs:10-13 | the default settings (10 × 7 squares of 80 pixels, margin 100) are valid and give a 1000 × 760 canvas; with the margin set to the square size it is 960 × 720 |
| ChessboardGenerator.Int32Safe | ChessboardGenerator.cs:26-44 | when the exact canvas width and height are below 2^31 and `SquaresX + SquaresY ≤ 2^31 + 1`, the board and canvas sizes, `Margin * 2`, every parity sum `x + y`, every `x * SquareSize`, `y * SquareSize`, `px`, `py`, `px + SquareSize` and `py + SquareSize` lie in [0, 2^31), so the C# `int` arithmetic does not wrap and its `%` agrees with the model's |
| ChessboardGenerator.CellInt32Safe | ChessboardGenerator.cs:42-44 | for one cell, the product, the corner and the far edge of its rectangle lie in [0, 2^31) under the same bound |
| ChessboardGenerator.CanvasGeometry | ChessboardGenerator.cs:26-29 | the canvas exceeds the board by exactly `Margin` pixels on each side in both directions, so it is at least one square plus two margins wide and high |
| ChessboardGenerator.CellRect | ChessboardGenerator.cs:42-44 | the rectangle of cell (x, y) has corner `(Margin + x*SquareSize, Margin + y*SquareSize)` and side `SquareSize` (no contract; see `CellInCanvas`, `CellRectExact`) |
| ChessboardGenerator.IsBlackCell | ChessboardGenerator.cs:40 | the drawing condition `(x + y) % 2 == 1` (no contract; see `CellColour`) |
| ChessboardGenerator.CellInCanvas | ChessboardGenerator.cs:28-29 | for every grid cell, the rectangle at `(Margin + x*SquareSize, Margin + y*SquareSize)` satisfies `0 ≤ px`, `px + SquareSize ≤ imgW`, `0 ≤ py`, `py + SquareSize ≤ imgH`: no fill is ever clipped |
| ChessboardGenerator.CellRectExact | ChessboardGenerator.cs:42-44 | a pixel lies in the rectangle of cell (x, y) if and only if it is on the board and (x, y) is the cell its coordinates fall in |
| ChessboardGenerator.CellsDisjoint | ChessboardGenerator.cs:36-44 | the rectangles of two different cells share no pixel |
| ChessboardGenerator.FillOrderIrrelevant | ChessboardGenerator.cs:36-47 | filling two different cells, with any values, gives the same samples in either order |
| ChessboardGenerator.CellColour | ChessboardGenerator.cs:40-44 | every pixel inside cell (x, y) of the finished canvas is 0 when `(x + y) % 2 == 1` and 255 otherwise |
| ChessboardGenerator.MarginWhite | ChessboardGenerator.cs:33 | every pixel outside `[Margin, Margin+boardW) × [Margin, Margin+boardH)` stays 255 |
| ChessboardGenerator.CornerCells | ChessboardGenerator.cs:36-47 | cell (0, 0) is all white; when `SquaresX ≥ 2`, cell (1, 0) is all black |
| ChessboardGenerator.NeighboursAlternate | ChessboardGenerator.cs:40 | horizontally or vertically adjacent cells have opposite colours |
| ChessboardGenerator.DrawBoard | ChessboardGenerator.cs:26-47 | returns a new raster of `imgH` rows by `imgW` columns whose every sample equals the order-free closed form `BaseSample` (black exactly on odd-parity board cells, white elsewhere) |
| ChessboardGenerator.DirectoryPrefix | ChessboardGenerator.cs:83 | the part `Path.Combine` puts before the file name is empty for an empty directory; otherwise it starts with the directory and ends in a separator, and one character, a backslash, is added exactly when the directory does not already end in `\` or `/` |
| ChessboardGenerator.PathCombine | ChessboardGenerator.cs:83 | `Path.Combine(dir, name)` is that prefix followed by `name` (no contract; see `DirectoryPrefix`) |
| ChessboardGenerator.ImageFileName | ChessboardGenerator.cs:83 | the bare name `chess_gen_` + `i + 1` in "D3" + `.jpg` (no contract; see `FirstFileNames`, `FileNamesDistinct`) |
| ChessboardGenerator.FileName | ChessboardGenerator.cs:83 | the output directory combined with the bare name of iteration `i` (no contract; see `FileNamesDistinct`, `GenerateImages`) |
| ChessboardGenerator.FileNamesDistinct | ChessboardGenerator.cs:83 | two iterations produce the same file name if and only if they are the same iteration |
| ChessboardGenerator.FirstFileNames | ChessboardGenerator.cs:83 | iterations 0 and 4 save `chess_gen_001.jpg` and `chess_gen_005.jpg` |
| NumberFormat.D3Examples | ChessboardGenerator.cs:83 | "D3" turns 1 into `001` and 5 into `005` |
| ChessboardGenerator.GenerateImages | ChessboardGenerator.cs:16-91 | the base canvas is a new raster with the exact dimensions and the checkerboard content; the list has `max(count, 0)` entries, entry `i` is the name of iteration `i` (generation order), and all entries are pairwise distinct |
| Raster.NewImage | ChessboardGenerator.cs:31-33 | a new `height × width` raster with every sample equal to the fill value |
| Raster.FillRect | ChessboardGenerator.cs:44 | every sample inside the rectangle becomes the fill value and every other sample of the raster is unchanged |
| Raster.PaintIdempotent | ChessboardGenerator.cs:44 | filling the same rectangle with the same value twice leaves the same samples as filling it once |
| NumberFormat.Decimal | ChessboardGenerator.cs:83 | the decimal representation is a non-empty digit string without a leading zero unless it is "0" |
| NumberFormat.FormatD | ChessboardGenerator.cs:83 | "D<k>" output is all digits and has length `max(k, number of decimal digits)` |
| NumberFormat.D3 | ChessboardGenerator.cs:83 | "D3" output has at least three characters, all digits |
| NumberFormat.FormatDValue | ChessboardGenerator.cs:83 | reading the "D<k>" string back as a decimal number gives the formatted value |
| NumberFormat.D3Injective | ChessboardGenerator.cs:83 | two numbers have the same "D3" string if and only if they are equal |
| NumberFormat.D3ThreeDigits | ChessboardGenerator.cs:83 | below 1000, "D3" is exactly the hundreds, tens and units digits |

## Left out

- The perspective warp (`Cv2.GetPerspectiveTransform`, `Cv2.WarpPerspective`, lines 77-81): floating-point homography solving and bilinear resampling in a foreign library. The model returns the base canvas every iteration warps instead of the warped images.
- The random corner perturbation (`GetRand`, `DistortionStrength`, lines 49, 55-74, 93-97): `System.Random` and `float` arithmetic; the model has no destination corners.
- Directory creation (lines 18-21) and JPEG encoding with `SaveImage` (line 84): filesystem I/O and an external codec. A saved file is modelled only as its path appended to the list; I/O failures are not modelled.
- GenerateImages: an empty `outputDir` makes `Directory.CreateDirectory("")` throw `ArgumentException` at line 20, before any image is drawn or named; the model returns the canvas and names for it anyway, and the empty-directory case of `DirectoryPrefix` is one the source never reaches at line 83.
- GenerateImages: the products `SquaresX * SquareSize` and `SquaresY * SquareSize` and the sums after them are 32-bit `int` in C# and wrap on overflow; the model computes them in unbounded integers. The parity sum `x + y` of line 40 is `int` too. The two agree when the exact `ImageWidth` and `ImageHeight` are below 2^31 and `SquaresX + SquaresY ≤ 2^31 + 1` (`Int32Safe`); otherwise they can differ even for a canvas that allocates: 4 × 4 squares of 2^30 pixels with margin 10 wrap to a 20 × 20 canvas in C#, and with 2^31 − 1 × 4 squares of 1 pixel and no margin the sum `x + y` wraps negative for the last cells, so C#'s truncating `%` leaves a cell white that the model draws black.
- GenerateImages: the source does not reject other board settings. The canvas is allocated from whatever lines 26-29 compute: `SquaresX = 0` with margin 100 gives a white 200-pixel-wide canvas with no cells drawn, `SquareSize = 0` a white `2·Margin` square (empty rectangles draw nothing), a negative `Margin` a smaller canvas whose edge cells are clipped; only a negative computed dimension makes the `Mat` allocation throw. The model excludes all of these by the precondition `Config.Valid()`.
- DirectoryPrefix: `.NET Framework` also treats a trailing `:` as a separator; the model follows the later .NET rule (only `\` and `/`). Invalid path characters are not checked.
- `MainViewModel.cs`: user interface, data binding, file dialogs and the background task that calls the generator; not part of this model.
