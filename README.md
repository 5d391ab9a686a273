# Seam carving: the vertical minimal-energy seam

This project models the vertical-seam pipeline of a small seam-carving
program and proves properties about it. The program works in five steps:

1. It computes each pixel's energy with a gradient stencil: at every pixel it
   sums the squared colour differences between the horizontal neighbours and
   between the vertical neighbours, then takes the square root. On a border
   the stencil centre moves one step inward.
2. It stores every pixel's energy in a width-by-height grid of cells. For the
   top row, it also stores that energy as the cell's cumulative energy.
3. It fills the remaining rows from the top down. Each cell's cumulative
   energy is its own energy plus the smallest cumulative energy among the (up
   to) three cells above it. Ties go to the leftmost column.
4. It picks the column of the bottom row with the smallest cumulative energy.
5. It walks back up, one row at a time, painting each visited pixel red.

The model has three modules.

- `Energy` (`energy.dfy`): `color`, `colorD`, `delta` and `energy`.
  - An image is an `array2<Pixel>` indexed `[x, y]`. A pixel is a triple of
    channel values 0..255.
  - `delta` is a method with the source's loop. It is proved equal to the
    function `Gradient`.
  - `energy` is the method `PixelEnergy`. It is specified by the function
    `SquaredEnergy` and the square-root parameter `root`.
- `Paths` (`paths.dfy`): the value-level reference for the dynamic program
  over an energy matrix `E[y][x]`.
  - `Cum` is the cumulative energy, defined row by row through `MinAbove`.
  - `Pred` is the leftmost minimal cell above.
  - A path is one column per row, moving at most one column between rows.
    `PathCost` sums the energies along a path.
  - `Backtrack` and `Seam` rebuild the path that the trace follows.
  - The lemmas prove that `Cum` is the minimum cost over all paths ending at
    a cell, and that `Seam` is a cheapest top-to-bottom path.
- `SeamCarving` (`seam_carving.dfy`): the imperative code of the program.
  - Each operation is a method over the array `imEnergyX`.
  - `imEnergyX` is modelled as an `array2<Cell>`. A `Cell` holds the own
    energy (index 0) and the cumulative energy (index 1).
  - `Energies` is the definition of the image's energy matrix: entry
    `[y][x]` is `root` of the pixel's squared energy. `MarkMinimalSeam`'s
    contract refers to it.
  - `InitArrayEnergy` is specified pixel by pixel through
    `Energy.SquaredEnergy`.
  - `MinEnergyAboveX` and `MinSumEnergyX` are specified on the grid itself,
    by the predicate `LeastInRow` (the leftmost least cumulative energy in a
    range of a row). The lemmas `LeastAboveIsPred` and `SeamIsGridSeam`
    connect these choices to `Paths.Pred` and `Paths.Seam`.
  - `FillArrayEnergy` and `MarkMinimalSeam` state their results in terms of
    `Paths`. `FillArrayEnergy` leaves every cumulative energy equal to
    `Paths.Cum`.
  - `MarkMinimalSeam` runs the whole vertical pipeline. It paints red
    exactly the pixels of `Paths.Seam` of the image's energy matrix, and
    leaves every other pixel unchanged.

## Model

| member | source | states |
|---|---|---|
| Energy.Color | Main.kt:24-32 | channel 1, 2 or 3 of the pixel is in 0..255; the result is -1 exactly when j is not 1, 2 or 3 |
| Energy.ColorD | Main.kt:34 | the channel difference between the two pixels sampled along axis i lies in -255..255, and is 0 when the two pixels are equal |
| Energy.Gradient | Main.kt:36-42 | the sum of three squared channel differences is at most 3 * 255 * 255 |
| Energy.Delta | Main.kt:36-42 | the loop over channels 1..3 returns exactly the squared colour gradient along axis i |
| Energy.GradientZeroIff | Main.kt:36-42 | the gradient along an axis is 0 if and only if its two sampled pixels have the same colour |
| Energy.Centres | Main.kt:44-57 | the nine-way case split picks the neighbour centres by clamping x to 1..w-1 for the horizontal difference and y to 1..h-1 for the vertical one |
| Energy.StencilInsideIff | Main.kt:44-57 | every pixel the stencil samples lies on the image if and only if the image is at least 3 by 3 |
| Energy.SquaredEnergy | Main.kt:44-58 | the energy before the square root is at most 6 * 255 * 255 |
| Energy.PixelEnergy | Main.kt:44-58 | the energy of a pixel is root of the sum of the two gradients that the case split picks |
| Energy.SquaredEnergyZeroIff | Main.kt:44-58 | a pixel's energy before the square root is 0 if and only if both pairs of sampled pixels have one colour each |
| Energy.UniformImageHasZeroEnergy | Main.kt:44-58 | on an image of a single colour every pixel has energy 0 before the square root |
| Energy.UniformImagePixelEnergyIsZero | Main.kt:44-58 | on an image of a single colour every pixel has energy 0, for any square root that maps 0 to 0 |
| Paths.Pred | Main.kt:82-95 | the chosen column is a neighbour above (x-1, x or x+1, on the image), its cumulative energy is minimal among those, and it is the leftmost on ties |
| Paths.PredIsUnique | Main.kt:82-95 | the leftmost minimal neighbour above is unique, so any column with those properties is the chosen one |
| Paths.CumViaPred | Main.kt:112-115 | the cumulative energy of a cell below the top row is its own energy plus the cumulative energy of the chosen neighbour above |
| Paths.CumRecurrence | Main.kt:112-115 | row 0 holds its own energies; below it, a cell's cumulative energy is its own energy plus one neighbour's, and no more than its own plus any neighbour's |
| Paths.PathSteps | Main.kt:150-154 | every entry of a path is a column on the image, and consecutive entries differ by at most one |
| Paths.CumIsLowerBound | Main.kt:112-115 | no path ending in a cell costs less than that cell's cumulative energy |
| Paths.Backtrack | Main.kt:150-154 | following the chosen neighbours upward from (x, y) gives one column per row, connected, ending in x |
| Paths.BacktrackStep | Main.kt:150-154 | dropping the last entry of a backtracked path gives the path backtracked from the chosen neighbour above |
| Paths.BacktrackStepsToPreds | Main.kt:150-154 | each entry of a backtracked path is the chosen neighbour above the entry below it |
| Paths.StepsToPredsOfPrefix | Main.kt:150-154 | whether a sequence follows chosen neighbours up to row y depends only on its first y + 1 entries |
| Paths.StepsToPredsAgree | Main.kt:150-154 | two sequences that follow chosen neighbours from the same bottom column agree on every row |
| Paths.BacktrackCost | Main.kt:112-115 | the cost of the backtracked path equals the cell's cumulative energy |
| Paths.CumIsMinimumPathCost | Main.kt:112-115 | a cell's cumulative energy is the minimum cost over all paths from the top row to it, and the backtracked path attains it |
| Paths.RowArgMin | Main.kt:124-135 | the scan returns -1 exactly for an empty row; otherwise it returns the leftmost column with the smallest cumulative energy |
| Paths.RowArgMinIsUnique | Main.kt:124-135 | any column with leftmost minimal cumulative energy in the bottom row is the scan's result |
| Paths.Seam | Main.kt:147-154 | the traced seam has one column per row and moves at most one column from row to row |
| Paths.SeamFollowsPreds | Main.kt:147-154 | the seam starts at the leftmost minimal bottom cell and each entry above is the chosen neighbour of the entry below |
| Paths.FollowsPredsIsSeam | Main.kt:147-154 | a sequence that starts at the leftmost minimal bottom cell and follows chosen neighbours upward is the seam |
| Paths.SeamIsOptimal | Main.kt:147-154 | no top-to-bottom path costs less than the seam |
| SeamCarving.InitArrayEnergy | Main.kt:61-71 | a fresh grid of the image's size holds every pixel's energy as its own energy, the same value as the cumulative energy in row 0, and 0 elsewhere |
| SeamCarving.MinEnergyAboveX | Main.kt:82-95 | returns the leftmost column of least cumulative energy among x-1, x, x+1 in row y-1; returns 0 when none of them is on the grid |
| SeamCarving.LeastAboveIsPred | Main.kt:82-95 | once row y-1 holds the cumulative energies, the column that minEnergyAboveX returns is the reference choice Paths.Pred |
| SeamCarving.FillArrayEnergy | Main.kt:112-116 | filling rows 1.. top-down leaves every own energy unchanged and makes every cell's cumulative energy equal Paths.Cum |
| SeamCarving.MinSumEnergyX | Main.kt:124-135 | returns -1 exactly when the grid has no column; otherwise the leftmost column of least cumulative energy in the bottom row |
| SeamCarving.LeastInRowIsUnique | Main.kt:124-135 | the leftmost minimal column of a row range is unique |
| SeamCarving.SeamIsGridSeam | Main.kt:147-154 | once the grid holds the cumulative energies, the reference seam starts at the grid's leftmost minimal bottom cell and steps to the grid's leftmost minimal neighbour above |
| SeamCarving.PredsTraceUp | Main.kt:150-153 | a sequence that follows the reference choices also follows the grid's leftmost minimal neighbours, given the grid holds the cumulative energies |
| SeamCarving.TraceStep | Main.kt:150-153 | one step of the trace lands on the seam's entry for the row above |
| SeamCarving.TraceSeam | Main.kt:147-154 | the trace paints red exactly one pixel per row, the seam's, and leaves every other pixel unchanged |
| SeamCarving.MarkMinimalSeam | Main.kt:144-154 | the vertical pipeline paints red exactly the pixels of the minimal seam of the image's energy matrix, and nothing else |

## Left out

- Argument parsing, file input and output, and image decoding and encoding
  are I/O and are not modelled. The image is given as an `array2<Pixel>`.
- Packing and unpacking RGB integers is not modelled. A pixel is kept as its
  three channels, and painting stores `Energy.Red` directly.
- The second output image, allocated but never used, is not modelled.
- The square root and all double-precision arithmetic are left out.
  - Energies are natural numbers.
  - The square root is the parameter `root: nat -> nat`. The properties hold
    for whatever `root` is.
  - Rounding in the cumulative sums is not modelled.
- The starting value `Double.MAX_VALUE` of the two minimum searches is not
  modelled.
  - `MinEnergyAboveX` uses a "found" flag; `MinSumEnergyX` tests `minX == -1`.
  - These agree with the source as long as every cumulative energy is below
    that maximum.
- The horizontal sweep is not modelled. This covers the `imEnergyY` array,
  `minEnergyAboveY` and the second loop of `fillArrayEnergy`.
  - `minEnergyAboveY` assigns an undefined variable (Main.kt:104), so the
    file does not compile as written. The model follows the vertical part
    only.
  - The second loop also writes the cumulative energies of `imEnergyX` and
    reads column `x - 1` at `x == 0` (Main.kt:117-121).
  - So the model's `FillArrayEnergy` is only the first loop (Main.kt:112-116).
  - As written, `main` would throw at Main.kt:119 (`imEnergyX[x - 1]` with
    `x == 0`, `y == 1`) on every image of 2 or more rows, before anything is
    painted. `MarkMinimalSeam` therefore describes `main` with the second
    loop of `fillArrayEnergy` removed.
- The program's global, late-initialised variables are passed explicitly as
  parameters (the image, the grid).
- Energy.PixelEnergy requires an image of at least 3 by 3 pixels. On a
  smaller image the stencil reads outside the image and pixel access fails
  (`Energy.StencilInsideIff`). The same requirement carries over to
  `InitArrayEnergy` and `MarkMinimalSeam`. A 1 by 1 image therefore has no
  energy in this model, because the code would fail on it.
- SeamCarving.InitArrayEnergy writes each cell once. It stores the cell's own
  energy, and for row 0 the same value as its cumulative energy. The source
  does these as two writes.
- SeamCarving.TraceSeam requires a grid with at least one column and one row.
  With no columns the source would paint at column -1 and fail. With no
  rows it fails earlier, in `minSumEnergyX`.
- SeamCarving.MinSumEnergyX requires at least one row when the grid has a
  column. With columns but no rows the source fails at Main.kt:128, where it
  reads row `im.height - 1 == -1`. That failure is not modelled.
