# BlueNoise core in Dafny

BlueNoise computes one pseudo-random sample point for any cell of an
infinite integer grid. It keeps no storage. Each cell is resolved from a
fixed set of neighbouring noise lookups, using 32-bit integer arithmetic
only. This project models that core and proves properties about it:

- **Squirrel3** (`Squirrel3Noise`): the seven-step wrapping 32-bit mix and
  its two- and three-coordinate overloads.
- **`Sample` and `Rect`** (`Samples`, `Rects`): the value types. A sample is
  present when its value is non-zero. A rectangle is inclusive and valid
  when non-empty.
- **`OverlapCalculator`**: carves a placement rectangle around the four
  diagonal neighbour samples, in the order lower-left, lower-right,
  upper-left, upper-right.
- **The samplers**, each one module, all parameterised over the noise they
  read (`Cells.Config`; `Cells.WithSquirrel3` builds the configuration the
  C# constructors build):
  - `Pach5`, the converged sampler. Its four kinds of cell (by row and column
    parity) take a raw candidate, a candidate interpolated between two
    kind 0 neighbours, or a candidate placed in a rectangle carved out of
    the cell by lower-kind neighbours.
  - `Pach2`, whose kind 1 and kind 2 cells pick fields from their
    neighbours' noise and whose kind 3 cell excludes a gap of x values.
  - `Pach1`, which reads a "balanced" random sequence per row and column.
  - `Pach4`, which places the sample at the intersection of two lines.
- **`LinearCongruentialGenerator`** (`Lcg`): the mask built by the
  constructor and `shuffle`.

Conventions:

- The candidate generation and the rounding `Lerp` are identical private
  copies in Pach2 and Pach5, and Pach1 and Pach4 carry the same `Lerp`. All
  of them are modelled once, in `Cells`.
- `Numeric` holds the C# operators:
  - `&` and `^` on 32-bit values, defined bit by bit and proved equal to
    residues and floors;
  - wrap-around to `int`/`uint`;
  - C#'s truncating division.
- Sums, products and `<<` that can wrap are written with explicit 32-bit
  wrap-around (`ToInt32`, `ToUInt32`, `Pach4.Add32`, ...). `>> Bits` is
  floor division by `2^Bits`.
- Code that updates locals step by step has a method:
  - the one-coordinate Squirrel3 indexer;
  - `GenerateCandidate`;
  - `GetCell1`;
  - the indexers;
  - the Pach2 kind 3 routine.

  Each such method is proved equal to a specification function, and the
  properties are proved about those functions.
- `Sample` and `Rect` are mutable C# structs with public fields, and the
  code assigns those fields: `r.xmin = ll.X` in `OverlapCalculator`,
  `result.X = ...` in `GetCell1`, `sample.X += x0` in the indexers. Every
  such value is a by-value copy held in a local or a parameter, so nothing
  else observes the change. Each assignment is a datatype update here.
- The sampler structs, `Squirrel3` and `LinearCongruentialGenerator` are
  `readonly`: their fields are set once by the constructor. Every operation
  is therefore a function of the configuration and its arguments, and the
  model is deterministic by construction.
- `Rect.Area` is an unchecked 32-bit `int` product, so it wraps from 2^31
  points on (`Rects.LargeAreaWraps`). `CutOut` compares these wrapped areas,
  as C# does (`OverlapCalculator.WrappedAreaKeepsLeft`). `Rects.Rect.Points`
  is the exact point count; every rectangle inside one cell has an exact
  `Area` (`Cells.InCellArea`).

## Model

| member | source | states |
|---|---|---|
| Rects.Rect.Points | src/Rect.cs:35-39 | the exact number of lattice points covered, positive exactly when the rectangle is valid |
| Rects.Rect.Area | src/Rect.cs:35-39 | an invalid rectangle gives exactly the sentinel -1; a valid one gives the point count wrapped to 32 bits, so below 2^31 points it is the count itself and at least 1 |
| Rects.LargeAreaWraps | src/Rect.cs:39 | a 2^16 by 2^16 square is valid, covers 2^32 points, and its `Area` wraps to 0 |
| Rects.ValidIffNonEmpty | src/Rect.cs:33 | `Valid` holds exactly when the rectangle contains some point |
| Rects.AreaMonotone | src/Rect.cs:39 | a valid sub-rectangle never covers more points |
| Rects.WithinPoints | src/Rect.cs:33 | nested bounds mean nested point sets; an invalid rectangle has no valid sub-rectangle |
| Rects.Rect.CutLeft | src/Rect.cs:41-50 | keeps xmin, ymin and ymax; lies within the rectangle; holds exactly its points with px <= x |
| Rects.Rect.CutRight | src/Rect.cs:51-60 | moves xmin to x and keeps the rest; for x >= xmin a sub-rectangle holding exactly the points with px >= x; for x < xmin it grows the rectangle |
| Rects.CutsCover | src/Rect.cs:41-60 | for xmin <= x <= xmax every point lies in one of the two cuts, and both cuts are valid iff the rectangle is |
| OverlapCalculator.ClearIffAvoids | src/OverlapCalculator.cs:8-11 | each corner's bound test is equivalent to "no point of the rectangle lies in the sample's open quadrant" |
| OverlapCalculator.ClearWithin | src/OverlapCalculator.cs:8-11 | shrinking a rectangle keeps it clear of every corner it was clear of |
| OverlapCalculator.Larger | src/OverlapCalculator.cs:42-43 | the result is one of the two alternatives, of maximal 32-bit `Area`, and a tie keeps the first |
| OverlapCalculator.CutOut | src/OverlapCalculator.cs:18-46 | the result lies within r, is never made valid from an invalid r, never covers more points, and no point of it falls in the quadrant of any valid corner; an inert lower-left corner is skipped |
| OverlapCalculator.OcludeLR | src/OverlapCalculator.cs:48-76 | an invalid rectangle comes back unchanged; the result lies within r, is clear of the lower-right, upper-left and upper-right corners, and stays clear of any lower-left corner r was clear of |
| OverlapCalculator.OcludeUL | src/OverlapCalculator.cs:78-107 | as above for the last two corners, keeping earlier clearances |
| OverlapCalculator.OcludeUR | src/OverlapCalculator.cs:109-136 | as above for the upper-right corner; an absent or inert corner returns r itself |
| OverlapCalculator.WrappedAreaKeepsLeft | src/OverlapCalculator.cs:36-45 | on a rectangle of 2^32 points the split compares wrapped areas and keeps the left half, the one that covers fewer points |
| OverlapCalculator.NoSamplesNoCut | src/OverlapCalculator.cs:20-21 | with all four samples absent the rectangle comes back unchanged |
| OverlapCalculator.InertCorners | src/OverlapCalculator.cs:22-23 | a corner that is absent or on or beyond the rectangle's near edges has the effect of an absent corner, for each of the four corners |
| Squirrel3Noise.Get | src/Squirrel3.cs:26-43 | the seven in-place steps compute the fixed pipeline `Hash` |
| Squirrel3Noise.SeededIsAffine | src/Squirrel3.cs:32-34 | the two steps before the scramble are one reduction of position * NOISE1 + seed |
| Squirrel3Noise.SeedIsPositionShift | src/Squirrel3.cs:32-39 | the seed enters only as a shift of the position: the hash under any seed is the seed-0 hash at position + seed * NOISE1^-1 |
| Squirrel3Noise.NegativePosition | src/Squirrel3.cs:32 | a negative position is read as its two's-complement `uint` and hashes as such |
| Squirrel3Noise.FoldWraps | src/Squirrel3.cs:45-50 | folding the coordinates with 32-bit `int` wrap-around gives the same hash as the exact fold |
| Squirrel3Noise.ThreeDimensionsAtZero | src/Squirrel3.cs:48-50 | the three-coordinate hash at z = 0 is the two-coordinate hash |
| Lcg.New | src/LinearCongruentialGenerator.cs:16-22 | keeps a and c; mmask is 2^(mlog2 mod 32) - 1, that is 2^mlog2 - 1 for 0 <= mlog2 <= 30 |
| Lcg.ShiftCount | src/LinearCongruentialGenerator.cs:18 | the shift count of `1 << n` is n mod 32 |
| Lcg.MaskOfShift | src/LinearCongruentialGenerator.cs:18 | `(1 << k) - 1` is 2^k - 1 for every count, including the wrap at k = 31 |
| Lcg.ShuffleIsResidue | src/LinearCongruentialGenerator.cs:29-32 | the wrapped `(x * a + c) & mmask` equals the exact x * a + c reduced modulo 2^(mlog2 mod 32) |
| Lcg.ShuffleBounds | src/LinearCongruentialGenerator.cs:18-31 | for 0 <= mlog2 <= 30 the result is in [0, 2^mlog2 - 1]; for mlog2 = 0 it is 0 |
| Cells.CellSize | Pach5/Pach5.cs:45 | `1 << Bits` is an even cell size between 2 and 2^15 |
| Cells.InCellArea | Pach5/Pach5.cs:167-178 | a rectangle inside one cell covers at most 2^30 points, and its `Area` is that count without wrap-around |
| Cells.Candidate | Pach5/Pach5.cs:43-56 | the candidate lies in the cell and is never the absent sample |
| Cells.CandidateDigits | Pach5/Pach5.cs:48-55 | x, y and value - 1 are the three base-cellSize digits of the noise value, so no bit is lost or used twice |
| Cells.GenerateCandidate | Pach5/Pach5.cs:43-56 | the masks and shifts on the local `rnd` compute `Candidate` |
| Cells.MaskSteps | Pach2/Pach2.cs:40-51 | `rnd & mask`, `(rnd >> Bits) & mask` and the final `+ 1` are the residue, the second digit and the high part plus one, without wrap-around |
| Cells.LerpBounds | Pach5/Pach5.cs:62-67 | for a0 <= a1 and a weight in the cell the result is in [a0, a1], and weight 0 gives a0 |
| Cells.LerpMonotone | Pach2/Pach2.cs:57-62 | a larger weight never gives a smaller result |
| Cells.LerpFits | Pach1/Pach1.cs:40-45 | for in-cell operands every intermediate of the `int` computation stays within 2^30, so nothing wraps |
| Cells.OriginHolds | Pach5/Pach5.cs:76-81 | `(v >> Bits) << Bits` is the origin of a cell that holds v and lies inside the `int` range |
| Cells.OffsetStaysInCell | Pach5/Pach5.cs:110-111 | an in-cell offset added to a cell's origin stays in that cell |
| Cells.ParityIsAnd | Pach5/Pach5.cs:86 | the parity of an index, for either sign, is the C# `v & 1` |
| Cells.Kind | Pach5/Pach5.cs:15-27 | a cell's kind is 2 * (row parity) + (column parity), in 0..3 |
| Cells.KindOfNeighbours | Pach5/Pach5.cs:15-22 | neighbours along a row alternate between kinds 0/1 or 2/3, along a column between 0/2 or 1/3 |
| Pach5.Cell1With | Pach5/Pach5.cs:129-137 | present exactly when sleft.X <= sright.X, otherwise the default sample; a present sample has x in [sleft.X, sright.X] and the fresh candidate's y and value |
| Pach5.GetCell1With | Pach5/Pach5.cs:129-137 | overwriting the candidate's x in place computes `Cell1With` |
| Pach5.Cell1 | Pach5/Pach5.cs:122-127 | present exactly when the left neighbour's candidate x is at most the right one's; then x lies between them; always in the cell |
| Pach5.GetCell1 | Pach5/Pach5.cs:122-127 | computes `Cell1` |
| Pach5.Place | Pach5/Pach5.cs:182-188 | value 1, and inside any valid rectangle it is placed in |
| Pach5.Cell2With | Pach5/Pach5.cs:163-192 | present exactly when lm.Y <= um.Y and CutOut leaves a valid rectangle; then value 1, inside that rectangle, x in the cell, y in [lm.Y, um.Y], clear of all four corner quadrants |
| Pach5.PlaceAvoids | Pach5/Pach5.cs:178-188 | a sample placed in the carved rectangle lies in it and avoids every corner quadrant |
| Pach5.Cell2 | Pach5/Pach5.cs:141-161 | absent when the candidate below is above the one above; a present sample has value 1, lies in the cell and between those two y values |
| Pach5.Cell2Neighbours | Pach5/Pach5.cs:148-160 | when the candidates below and above are in order, the kind 2 cell is the eight-argument form applied to the kind 1 resolutions of its diagonal neighbours and those two candidates |
| Pach5.Cell2AvoidsDiagonals | Pach5/Pach5.cs:148-160 | a present kind 2 sample avoids the quadrants of those four kind 1 neighbours |
| Pach5.MiddleLeft | Pach5/Pach5.cs:214-224 | not computed, and so absent, when both left corners are present with ll.Y > ul.Y |
| Pach5.MiddleRight | Pach5/Pach5.cs:226-237 | not computed, and so absent, when both right corners are present with lr.Y > ur.Y |
| Pach5.Base3 | Pach5/Pach5.cs:241-247 | the kind 3 base rectangle lies within the cell |
| Pach5.Cell3 | Pach5/Pach5.cs:196-267 | absent when both kind 1 samples are present and out of order; a present sample has value 1, lies in the cell and in the carved rectangle, and avoids all four corner quadrants |
| Pach5.Cell3Neighbours | Pach5/Pach5.cs:214-237 | the conditionally computed middle samples equal the kind 2 resolutions of the left and right neighbours, so skipping them loses nothing and no kind 3 cell is resolved from another |
| Pach5.Cell3Between | Pach5/Pach5.cs:241-251 | a present kind 3 sample lies between the present kind 1 samples below and above and the present kind 2 samples left and right |
| Pach5.Resolve | Pach5/Pach5.cs:86-109 | kind 0 is always present; every local sample lies in the cell; kinds 2 and 3 have value 0 or 1 |
| Pach5.SampleAt | Pach5/Pach5.cs:72-118 | a present sample lies in the cell of (x, y); an absent one is the zero sample at the cell's origin; kind 0 cells are always present; the coordinates stay in the `int` range |
| Pach5.SameCellSameSample | Pach5/Pach5.cs:72-118 | every point of a cell sees the same sample |
| Pach5.Get | Pach5/Pach5.cs:72-118 | the step-by-step indexer computes `SampleAt` |
| Pach2.HorizontalIffSameBitOne | Pach2/Pach2.cs:128 | `((row ^ col) & 2) == 0` holds exactly when row and column agree in bit 1 |
| Pach2.HorizontalAlternates | Pach2/Pach2.cs:125-128 | the orientation flips every two cells along a row and along a column |
| Pach2.FieldsOf | Pach2/Pach2.cs:134-139 | the masks and shifts on a `uint` value, or on that value cast to `int`, pick the low and the next `Bits` bits |
| Pach2.RowAdjustedSample | Pach2/Pach2.cs:119-151 | in the cell; value 1 exactly when s0.X <= x <= s1.X, else 0 |
| Pach2.RowAdjustedFields | Pach2/Pach2.cs:128-141 | horizontal: x is the larger field of the white value and y the low field of the black one; otherwise x is the smaller field and y the high field |
| Pach2.ColAdjustedSample | Pach2/Pach2.cs:163-193 | in the cell; value 1 exactly when s0.Y <= y <= s1.Y, else 0 |
| Pach2.ColAdjustedFields | Pach2/Pach2.cs:172-183 | horizontal: x is the low field of s0's value and y the smaller field of the black one; otherwise x is s1's high field and y the larger field |
| Pach2.EvenRowSample | Pach2/Pach2.cs:112-117 | in the cell; present exactly when x lies between the left and right candidates' x |
| Pach2.EvenColSample | Pach2/Pach2.cs:153-158 | in the cell; present exactly when y lies between the lower and upper candidates' y |
| Pach2.Frame | Pach2/Pach2.cs:207-217 | every starting bound of the kind 3 cell is in the cell |
| Pach2.TightenX | Pach2/Pach2.cs:219-237 | only raises minx and only lowers maxx, each to the bound of a test that fired, and every fired test's bound then holds |
| Pach2.Gap | Pach2/Pach2.cs:245-265 | for minx <= maxx the clamped gap satisfies minx <= gapminx <= gapmaxx <= maxx, covers each fired corner's x interval, and is empty when neither fires |
| Pach2.PlaceX | Pach2/Pach2.cs:267-272 | the placed x lies in [minx, gapminx] or (gapmaxx, maxx], never inside the gap |
| Pach2.ChosenX | Pach2/Pach2.cs:267-272 | with a non-empty x range the kind 3 x is in the range and outside the gap |
| Pach2.TightenY | Pach2/Pach2.cs:274-283 | only raises miny and only lowers maxy, each to the y of a corner whose test fired, and those bounds then hold |
| Pach2.EvenRowEvenColSample | Pach2/Pach2.cs:195-293 | present exactly when the x range and, for the chosen x, the y range are non-empty; otherwise the zero sample; a present one has value 1, lies in the cell at the chosen x inside the y range, and avoids the four corner quadrants |
| Pach2.GetEvenRowEvenColSample | Pach2/Pach2.cs:195-293 | the step-by-step routine computes `EvenRowEvenColSample` |
| Pach2.FrameSteps | Pach2/Pach2.cs:200-217 | the corner candidates and the starting bounds are those of `Frame` |
| Pach2.TightenXSteps | Pach2/Pach2.cs:219-237 | the reassignments of minx and maxx compute `TightenX` |
| Pach2.GapSteps | Pach2/Pach2.cs:245-265 | the reassignments of gapminx and gapmaxx compute `Gap` |
| Pach2.PlaceXSteps | Pach2/Pach2.cs:269-272 | the interpolation and conditional shift compute `PlaceX` |
| Pach2.TightenYSteps | Pach2/Pach2.cs:274-283 | the reassignments of miny and maxy compute `TightenY` |
| Pach2.EvenRowEvenColBetween | Pach2/Pach2.cs:207-217 | a present kind 3 sample lies between those of its middle neighbours that are present |
| Pach2.Resolve | Pach2/Pach2.cs:78-101 | kind 0 is always present, the other kinds have value 0 or 1, and every local sample lies in the cell |
| Pach2.SampleAt | Pach2/Pach2.cs:64-110 | present or not, the sample lies in the cell of (x, y); kind 0 cells are always present; the coordinates stay in the `int` range |
| Pach2.Get | Pach2/Pach2.cs:64-110 | the step-by-step indexer computes `SampleAt` |
| Pach1.Rnd | Pach1/Pach1.cs:62-64 | the masked noise lies in [0, cellSize) |
| Pach1.RndIsMask | Pach1/Pach1.cs:63-64 | `noise & (cellSize - 1)` is the noise modulo the cell size |
| Pach1.WindowExact | Pach1/Pach1.cs:82-91 | the clamped window holds exactly the in-cell values within half a cell of both neighbours, and is non-empty when both neighbours are in the cell |
| Pach1.OddNeighbours | Pach1/Pach1.cs:79-80 | the wrapped i - 1 and i + 1 of an even i are odd, so the recursion is one level deep |
| Pach1.BalancedSequence | Pach1/Pach1.cs:61-96 | every entry is in [0, cellSize); an odd index gives the masked noise |
| Pach1.EvenEntry | Pach1/Pach1.cs:72-93 | an even entry lies in the window of its neighbours and within half a cell of both |
| Pach1.StepBack | Pach1/Pach1.cs:79-80 | wrapping i + 1 and then - 1 gives i back |
| Pach1.Balanced | Pach1/Pach1.cs:47-51 | consecutive entries, the successor taken with `int` wrap-around, are at most cellSize / 2 apart |
| Pach1.CellIndexFits | Pach1/Pach1.cs:108-109 | `v >> Bits` of an `int` is an `int` |
| Pach1.MaskIsOrigin | Pach1/Pach1.cs:101-106 | `v & ~(cellSize - 1)` is the origin of the cell of v, and that cell lies in the `int` range |
| Pach1.SampleAt | Pach1/Pach1.cs:98-122 | value 1; x is the origin plus the row sequence at y's cell, y the origin plus cellSize - 1 minus the column sequence at x's cell; both in the cell of (x, y) |
| Pach1.NeighbourCellsClose | Pach1/Pach1.cs:47-51 | the next cell along x keeps the same local x, and its y moves by at most half a cell |
| Pach4.Quotient32 | Pach4/Pach4.cs:101 | C# `int` division fails exactly on `int.MinValue / -1` and otherwise truncates towards zero |
| Pach4.QuotientFits | Pach4/Pach4.cs:101 | every other truncated quotient is an `int` |
| Pach4.GenerateSample | Pach4/Pach4.cs:37-47 | in the cell, the raw noise as its value, present exactly when the noise is non-zero |
| Pach4.GenerateSampleFields | Pach4/Pach4.cs:43-44 | the masks give the two fields, the same offsets as the other samplers' candidates |
| Pach4.CellLines | Pach4/Pach4.cs:75-86 | the four floor averages all lie in the cell |
| Pach4.DenominatorExact | Pach4/Pach4.cs:80-90 | for in-cell lines d does not wrap: d = 65536 - (y1 - y2)(x3 - x4) |
| Pach4.NumeratorXExact | Pach4/Pach4.cs:92 | for lines in a 256-unit cell px does not wrap: px = 65536 x3 - 256 y1 (x3 - x4) |
| Pach4.NumeratorYExact | Pach4/Pach4.cs:93 | for lines in a 256-unit cell py does not wrap: py = 65536 y1 - 256 x3 (y1 - y2) |
| Pach4.CrossingX | Pach4/Pach4.cs:90-92 | px lies between min(x3, x4) * d and max(x3, x4) * d |
| Pach4.CrossingY | Pach4/Pach4.cs:90-93 | py lies between min(y1, y2) * d and max(y1, y2) * d |
| Pach4.Intersection | Pach4/Pach4.cs:101 | a non-negative numerator between lo * d and hi * d truncates to a quotient in [lo, hi] |
| Pach4.LinesMeet | Pach4/Pach4.cs:90-101 | for lines in a 256-unit cell d > 0 and both divisions succeed with quotients between the lines' end points |
| Pach4.SampleAt | Pach4/Pach4.cs:64-103 | d == 0 gives the zero sample at (0, 0); a division failure happens only with d == -1; otherwise the value is the cell's own noise |
| Pach4.SmallCellsIntersect | Pach4/Pach4.cs:64-103 | for Bits <= 8 the indexer always finds a sample at the lines' intersection, inside the cell of (x, y), with the cell's noise as value |
| Numeric.AndLowMask | Pach5/Pach5.cs:46-51 | `u & (2^k - 1)` on 32 bits is u modulo 2^k, for either sign |
| Numeric.AndHighMask | Pach1/Pach1.cs:102-106 | `u & ~(2^k - 1)` read as an `int` is u rounded down to a multiple of 2^k |
| Numeric.XorBitOne | Pach2/Pach2.cs:128 | bit 1 of `u ^ v` is clear exactly when u and v agree in bit 1 |
| Numeric.ToInt32Residue | Pach2/Pach2.cs:134 | reading a value as a 32-bit `int` keeps its residue modulo 2^k for k <= 32 |
| Numeric.DivTowardZero | Pach4/Pach4.cs:101 | `DivT` rounds towards zero: the product q * b lies between 0 and a, the remainder is smaller than the divisor, and it agrees with `/` for non-negative operands |

## Left out

- `ISampler` (src/ISampler.cs) is an interface, and no trait takes its place. Each sampler has its own `SampleAt(c, x, y)`. For Pach5, Pach2 and Pach1 it returns a `Sample`. For Pach4 it returns a `Pach4.Lookup`: a `Found` sample, or `DivisionOverflow` for the `OverflowException` path.
- Rects.Rect: the bounds are unbounded integers where the C# fields are `int`, but `Area` wraps exactly like the C# product. Every rectangle the samplers build lies in one cell, where no bound or area leaves the `int` range (`Cells.InCellArea`).
- Program.cs, MillionSamples.cs and InitializeBenchmark.cs are not part of this model. They are console output and benchmark drivers, and they refer to a sampler that is not among the sources.
- PoissonDiskSampler.cs, PoissonDiskSampler2.cs and PoissonDiskSampler3.cs are not part of this model:
  - PoissonDiskSampler3.cs does not compile;
  - the other two depend on a noise type that is not among the sources.
- The statistical quality of Squirrel3 is not modelled. Uniformity and avalanche are empirical, not contracts.
- Global blue-noise guarantees are not modelled: a minimum distance across all cells, and the optimality of `CutOut`'s rectangle. Only the per-corner avoidance and containment facts are stated.
- Cells.CellBits: the exponent is restricted to 1..15. The C# code does not check it. With 16 or more bits the candidate's fields no longer fit in one noise value, and `Lerp`'s intermediates can wrap.
- The sampler constructors are `Cells.WithSquirrel3`. Everything else takes the noise as a parameter, so the proofs do not depend on Squirrel3's constants.
- Pach2.GetEvenRowEvenColSample: the one C# routine is split into phase methods, each proved against its specification function. The locals are reassigned in the same order as in C#.
- Pach5.Cell1With: follows the code's test `sleft.X > sright.X`. Equal x values therefore give a present sample.
- Pach5.Cell2: the corners `lm` and `um` are kind 0 candidates, as in the code, not kind 1 resolutions.
- Pach4.CellLines: follows the code's `y2 = (s10.Y + s11.Y) >> 1`. This averages the upper two cells, the same pair as `x4`.
- The model does not prove where a Pach4 sample lands for Bits > 8. For those cells it states only that the denominator does not wrap and what the value is. The numerators can wrap.
- Pach4.SampleAt: it is not proved that the denominator can never be -1. That would rest on the factors of 65537. The `OverflowException` path is therefore kept as `DivisionOverflow`.
- The `Lerp` members of Pach1 and Pach4 are the shared `Cells.Lerp`. In Pach4 nothing calls it.
