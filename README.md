# Magic-square engine, modelled in Dafny

This project models the engine of the `magic-squares` program (`main.go`).
The engine allocates an N×N grid of arbitrary-precision integers and fills it
with random values. It can fill the whole grid, optionally with no value
repeated, or fill only the first row as the "determined" strategy does. It
then checks whether every row, every column and both diagonals add up to the
same sum.

Files and modules:

- `random.dfy`, module `RandomValues`: the bounded random value generator
  `GenerateRandomBigInt`. It also holds `Entropy`, which stands for the
  system's cryptographic reader: a finite tape of draws, each a sample or a
  fault.
- `draw_runs.dfy`, module `DrawRuns`: what a run of draws from the tape
  yields. Its centre is `Fill`, the reference outcome of filling a number of
  cells with the retry rule of the population loops: the values placed, or
  the error that stops the fill. It also holds the tape conditions under
  which a fill succeeds.
- `grid_sums.dfy`, module `GridSums`: the magic-square property
  `IsMagicGrid` over a grid given as a sequence of rows. It also holds the
  Lo Shu facts and two consequences of the property: the grand total, and
  invariance under transposition.
- `row_major.dfy`, module `RowMajor`: what the population loops know about
  the cells written so far in row-major order. This covers their values, the
  used-value set and distinctness. It also holds `Place`, the single cell
  write.
- `magic_square.dfy`, module `MagicSquares`: the `MagicSquare` class. Its
  grid is an `array2<int>` and it has the constant settings `size`, `unique`
  and `power`. The class holds the constructor (`NewMagicSquare`), both
  population methods and the verifier `IsMagic`.

Modelling choices:

- `*big.Int` becomes `int`, and `size` becomes `nat`. Go's slice of slices
  is always N×N, so it becomes a two-dimensional array of fixed size.
- The used-number map, keyed by decimal strings, becomes a `set<int>`. The
  decimal form of an integer is injective, so membership is unchanged.
- `rand.Int(rand.Reader, max)` is modelled by one draw from the `Entropy`
  tape. With `max == 1` there is only one possible result, 0. The Go reader
  returns it without reading, so `RandInt` ignores the draw and cannot fail.
  Otherwise a fault gives the reader's error, and a sample `u` gives
  `u % max`, so the result lies in `[0, max)`. Only that range is modelled,
  not the distribution.
- The retry loops take the draw from the tape before calling the
  generator, even when `max == 1`. An empty tape gives `EntropyExhausted`.
  This stands for a retry loop that would need more draws than the tape
  holds. With `lowerBound == upperBound` it also ends a fill whose tape is
  shorter than its number of attempts, where the program reads nothing and
  succeeds (see "Left out").
- The loops of both population methods are split into a per-row method
  (`FillRow` for the inner loop of main.go:47-59, `FillFirstRow` for the loop
  of main.go:70-84). Each cell's retry loop is `DrawAvoiding`, wrapped by
  `DrawCell`, which states its outcome as one step of `Fill`.
- `rand.Int` panics when `max <= 0`. Every draw therefore requires
  `lowerBound <= upperBound`. A population call on a non-empty grid requires
  the same, and on an empty grid it requires nothing.

## Model

| member | source | states |
|---|---|---|
| `RandomValues.RandInt` | main.go:31 | The reader's result lies in `[0, max)`. It fails, with the reader's error, exactly when the draw is a fault and `max > 1`: with `max == 1` nothing is read. |
| `RandomValues.GenerateRandomBigInt` | main.go:29-40 | Fails exactly when the reader fails, which needs `lowerBound < upperBound` and a faulted draw, and then with the reader's error. With `lowerBound == upperBound` it always returns that bound, raised. On success the value is `v` (power ≤ 1) or `v^power` (power > 1) for some `v` in `[lowerBound, upperBound]`. With power ≤ 1 the value itself lies in the bounds. |
| `RandomValues.GenerateCoversRange` | main.go:30-38 | Every `v` in `[lowerBound, upperBound]` is produced by the sample `v - lowerBound`, raised as the power says. The generator reaches the whole range. |
| `RandomValues.GenerateWidthExact` | main.go:30-35 | The range width is exactly `upperBound - lowerBound + 1`. Sample 0 gives `lowerBound`, sample `upper - lower` gives `upperBound`, and the next sample wraps back to `lowerBound`. |
| `RandomValues.GenerateSquares` | main.go:36-38 | With power 2, the base value `v` is returned as exactly `v * v`. |
| `RandomValues.Entropy.Read` | main.go:31 | One read of the reader consumes the head of the tape and returns it. An empty tape returns `None` and stays empty. |
| `MagicSquares.MagicSquare.constructor` | main.go:17-26 | Allocates a fresh `size`×`size` grid whose every cell is 0. Keeps `size`, `unique` and `power` as given. |
| `MagicSquares.DrawAvoiding` | main.go:48-57 | The retry loop reads `k` draws from the front of the tape and consumes only those. Every draw but the last gave a value in the set to avoid and was rejected, so another draw followed. The last draw decides: its generator result is returned, a fault passing the reader's error on unchanged, a value being outside the set. When the tape runs out every draw read was rejected, and the result is `EntropyExhausted`. |
| `MagicSquares.DrawCell` | main.go:48-57 | One cell's retry loop during a fill is exactly one step of the reference fill `Fill`. Going on from the current draw with `left` cells equals going on from the draw after the deciding one with `left - 1` cells and the new value placed. Or, on failure, it equals the error of this cell's draw. It consumes draws only from the front, and a reader error means a fault among the draws consumed. |
| `DrawRuns.Fill` | main.go:46-61 | The reference fill: on success its list of values is exactly `count` longer than the list placed before it, one value per cell. |
| `DrawRuns.FillExtends` | main.go:53-55 | A fill only appends: the values placed before it stay in front, in order. |
| `DrawRuns.FillValues` | main.go:49-57 | Every value a fill adds is one the generator can return. When avoiding, values placed pairwise different stay pairwise different. |
| `DrawRuns.FillPlain` | main.go:48-57 | Without avoiding, a fill succeeds exactly when each of the next `count` draws gives a value. |
| `DrawRuns.FillAvoiding` | main.go:48-57 | When avoiding, a fill succeeds exactly when the good draws before the first failing one bring at least `count` values not placed yet. |
| `DrawRuns.FillAvoidingFromEmpty` | main.go:44-61 | From an empty start, an avoiding fill of `count` cells succeeds exactly when the good draws before the first failure make `count` different values. |
| `DrawRuns.FillVerdict` | main.go:44-61 | The verdict of a fill from an empty start: without avoiding it succeeds exactly when the first `count` draws are good. With avoiding it succeeds exactly when enough different values come before a failure. Draws making `count` different values always suffice. |
| `DrawRuns.SkipRejected` | main.go:53-57 | Draws that give an already placed value leave an avoiding fill's outcome unchanged: it is as if the fill started after them. |
| `DrawRuns.DistinctIsEnough` | main.go:48-57 | If the first `n` draws make `n` different values, the good draws before the first failure make at least `n` different values. |
| `DrawRuns.RedrawExample` | main.go:53-57 | The tape 0, 0, 1 with range 0..9 fills 2 cells with `[0, 1]` when avoiding: the repeated 0 is redrawn. Its first two draws do not make two different values, yet the fill succeeds. |
| `RowMajor.Place` | main.go:53-55 | Writing the next cell in row-major order changes only that cell. It adds exactly the new value to the set of written values and keeps every written value in range. If the value was unused, each written value still maps back to its own cell. If every earlier cell held the value at its row-major position in the placed list, the new cell now holds the list's next value. |
| `RowMajor.RowStartIsProduct` | main.go:46-47 | Row `a` of a grid `n` wide starts at row-major position `a * n`. |
| `RowMajor.PlacedAt` | main.go:46-54 | Once every cell holds its placed value, cell `(a, b)` holds the value at position `a * N + b` of the placed list. |
| `RowMajor.WrittenNextRow` | main.go:46-47 | The cells before the end of row `i` are those before the start of row `i + 1`, so the two row loops hand over one set of written values. |
| `MagicSquares.MagicSquare.PopulateSquareRandom` | main.go:43-62 | The outcome is that of the reference fill of N² cells from the tape, avoiding exactly when `unique` is set: it succeeds exactly when that fill does, and a failure is the error that stops it. Without `unique` it succeeds exactly when the first N² draws are samples. With `unique` it succeeds exactly when the good draws before the first failure make N² different values. On success cell `(a, b)` holds the value at row-major position `a * N + b` of that fill's result (`RowStart(a, N) + b`, equal to `a * N + b` by `RowStartIsProduct` and `PlacedAt`). So every cell holds a value the generator can return, and with `unique` no two cells are equal. A failure can only happen on a non-empty grid. It is an exhausted tape or a reader fault among the draws consumed, passed on unchanged. |
| `MagicSquares.MagicSquare.FillRow` | main.go:47-59 | One row of the random fill changes no row but row `i`. On success the placed list grows by N values, and every cell up to the end of row `i` holds the value at its row-major position in that list. The used set equals the values written so far. They stay in range and, with `unique`, owned by their cells. It advances the reference fill by N cells, or stops with the fill's error. |
| `MagicSquares.MagicSquare.FillCell` | main.go:48-57 | One cell of the random fill changes no other cell. On success it writes the next value of the placed list into cell `(i, j)` and adds it to the used set. It keeps the written values in range and, with `unique`, owned by their cells. It advances the reference fill by one cell. On failure it ends with the reference fill's error. |
| `MagicSquares.MagicSquare.PopulateFirstRow` | main.go:65-84 | Row 0 ends up holding exactly the values of the reference fill of N cells avoiding repeats, whatever `unique` says. It succeeds exactly when the good draws before the first failure make N different values. Any failure is the fill's error. It never touches rows 1..N-1. On success row 0 holds values the generator can return, pairwise distinct. The returned `rowSum` is the sum of row 0, or 0 for an empty grid. A failure can only happen on a non-empty grid. It is an exhausted tape or a reader fault among the draws consumed. |
| `MagicSquares.MagicSquare.FillFirstRow` | main.go:70-84 | The loop of the first-row phase: on success row 0 is the reference fill's result and `rowSum` is its sum. On failure the reference fill fails with the same error. Other rows are unchanged. |
| `DrawRuns.CountingDrawsAreDistinct` | main.go:30-39 | With no power applied, the tape of samples 0, 1, …, n-1 makes n different values whenever the range holds at least n of them. So the success conditions of both population methods can be met. |
| `MagicSquares.MagicSquare.SumOfRow` | main.go:136-140 | The left-to-right accumulation over row `i` equals the sum of that row. |
| `MagicSquares.MagicSquare.RowsMatch` | main.go:142-151 | Returns true exactly when every row sums to row 0's sum. |
| `MagicSquares.MagicSquare.SumOfColumn` | main.go:155-158 | The top-to-bottom accumulation over column `j` equals the sum of that column. |
| `MagicSquares.MagicSquare.ColumnsMatch` | main.go:153-162 | Returns true exactly when every column sums to row 0's sum. |
| `MagicSquares.MagicSquare.SumOfDiagonals` | main.go:164-170 | One pass yields the sums of the cells `(i, i)` and of the cells `(i, N-1-i)`. |
| `MagicSquares.MagicSquare.CheckLines` | main.go:136-172 | For a non-empty grid: true exactly when all rows, all columns and both diagonals sum to row 0's sum. |
| `MagicSquares.MagicSquare.IsMagic` | main.go:131-173 | Returns exactly `IsMagicGrid` of the current grid, which is false for an empty grid. It has no `modifies` clause, so it changes nothing. |
| `GridSums.DiagonalsDecide` | main.go:164-172 | Once all rows and columns match, the grid is magic exactly when both diagonals match too. |
| `GridSums.EmptyIsNotMagic` | main.go:132-134 | A grid with no rows is not magic. |
| `GridSums.LoShuIsMagic` | main.go:136-172 | The Lo Shu square `[[4,9,2],[3,5,7],[8,1,6]]` is magic. |
| `GridSums.LoShuAlteredIsNotMagic` | main.go:136-172 | The Lo Shu square with its corner 4 changed into 5 is not magic, because its first row then sums to 16 and the second to 15. |
| `MagicSquares.LoShuVerdicts` | main.go:131-173 | Running the verifier method on a grid loaded with the Lo Shu square gives true. On the altered square it gives false. |
| `MagicSquares.IsMagicTwice` | main.go:131-173 | Two consecutive calls of the verifier on the same grid give the same answer. |
| `GridSums.MagicTotal` | main.go:142-151 | In a magic grid all cells add up to N times the common line sum. |
| `GridSums.TransposeMagic` | main.go:142-172 | A grid is magic exactly when its transpose is. Rows and columns trade places, and the anti-diagonal is read in reverse. |

## Left out

- `PrintSquare` and `main` (main.go:175-221): output formatting and program driving only.
- The entropy source itself (main.go:31-34): reads come from a supplied tape and the distribution is not modelled. Only the range of a draw and the error outcome are kept.
- Unbounded retries (main.go:48-58, 75-80): the model bounds every retry loop by the finite tape. The loops therefore end when the tape runs out, with `EntropyExhausted`. A run that the program would retry forever is one whose tape ends in this error.
- `DrawAvoiding`/`PopulateSquareRandom`/`PopulateFirstRow`: with `lowerBound == upperBound`, a tape shorter than the number of attempts ends in `EntropyExhausted`, where the program succeeds without reading. The Go reader is not consulted for a range of one value, but the model's retry loop takes one draw from the tape for each attempt. The value drawn ignores that draw.
- `GenerateRandomBigInt`/`DrawAvoiding`/`PopulateSquareRandom`/`PopulateFirstRow`: require `lowerBound <= upperBound` on a non-empty grid. With `upperBound < lowerBound` the width passed to `rand.Int` at main.go:31 is not positive, and `rand.Int` panics. The model does not carry that panic as an error path.
- The second phase of `PopulateSquareDetermined` and its count of distinct values (main.go:86-127) are not modelled. The code cannot get past its first cell for N ≥ 1. `tempColSums` holds nil pointers, which are dereferenced at lines 94 and 100. The inner `for {}` of lines 97-118 has no exit. `newUpperBound` is never used. So the check at lines 122-126 is reached only for N = 0, where it passes. Only the first-row phase is modelled, as `PopulateFirstRow`.
- The `Int64()` narrowing of indices (main.go:18, 20, 54, 81) and the `*big.Int`-versus-`int` mismatches in `IsMagic` (main.go:132, 138, 143, 169) are not modelled. These comparisons do not compile as written, and the model reads them as comparisons of integer values.
- PopulateSquareRandom: says nothing about the cells on the failure path. The program promises nothing there either, and the grid may be left partly filled.
- Under `unique`, the random fill avoids only the values it has written during the same call (the map is created empty at main.go:44 and filled at main.go:55). Values left in the grid by an earlier population are not avoided.
- The first-row phase rejects a repeated value in row 0 even when `unique` is false, because the retry test at main.go:75 does not consult `unique`.
