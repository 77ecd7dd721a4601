# Fraction ranking, base-4 conversion and integer raster helpers, in Dafny

This project models the integer logic of four small C++ exercises and proves
properties of it.

- **Fraction ranking** (`P2_SortFractions.cpp`, module `SortFractions`).
  `compareFractions` ranks fractions along Cantor's boustrophedon walk of
  the rationals:
  - fractions of equal value go smaller numerator first;
  - otherwise the fraction on the smaller diagonal (numerator + denominator) comes first;
  - on one diagonal, the numerator grows on even diagonals and shrinks on odd ones.

  `bubbleSortFractions` runs a plain bubble sort over the even slots of an
  interleaved pointer array. Every swap adds one flip to both fractions it
  exchanges. A final pass makes each original odd slot point at the even
  slot where its fraction ended up. Pointers are modelled as ids:
  - the records `{num, den}` are a sequence `fracs` indexed by id;
  - the even slots are an array `order` of ids;
  - the flip counters are an array `flips` indexed by id;
  - the odd slots are an array `back`, where `back[o] == k` means that slot `2*o+1` points at slot `2*k`.

  The loops are proved against the functions `Step`, `Pass`, `Passes` and
  `BubbleRun`, which give the loops' state after each iteration. The
  properties are proved about those functions.
- **Base-4 conversion** (`P1_ConvertQuaternary.cpp`, module `Quaternary`).
  `convertQuaternary` reads an 8-digit base-4 numeral written in decimal. It
  decodes it either as 4's complement or as negaquaternary (base −4). It
  re-encodes the value as 9 digits of the other system and reads those
  digits back as a decimal number.
  - C++'s truncating `/` and `%` are written out as `TruncDiv` and `TruncMod`.
  - Each loop is a method proved equal to a function.
- **Raster helpers of the signal demo** (`q31_starter.cpp`, modules `Helpers`
  and `SignalPlot`). These are `clampv`, `reflect_index`, and the
  bounds-guarded writes into an RGB byte buffer:
  - `set_px`;
  - `fill_rect`;
  - the 5×7 bitmap glyphs of `draw_char5x7`;
  - Bresenham's `draw_line`.

  Each writer's contract gives the new value of every byte of the buffer.
- **Crop and median filter of the image demo** (`q32_starter.cpp`, module
  `ImageDenoise`):
  - the size check and the 256×256 centre crop at the start of `main`;
  - the 3×3 median filter, whose borders are mirrored through `reflect_index`.

  `std::sort` on the nine-value window is modelled by a sort function.
  `SortedUnique` shows that any correct sort leaves the same sequence.

`arith.dfy` (module `Arith`) holds the Euclidean division facts that the
index arithmetic needs.

## Model

| member | source | states |
|---|---|---|
| SortFractions.Precedes | P2_SortFractions.cpp:5-35 | compareFractions, its three rules in source order: equal value by exact cross products, smaller numerator first; otherwise the smaller diagonal first; on one diagonal, the smaller numerator first when the sum is even and the larger when it is odd; products and sums are exact |
| SortFractions.SameValueSameDirection | P2_SortFractions.cpp:11-14 | for positive fractions of equal value, the smaller numerator goes with the smaller denominator, and equal numerators mean equal denominators |
| SortFractions.EqualValueSmallerNumeratorFirst | P2_SortFractions.cpp:11-22 | for distinct positive fractions of equal value, `a` comes first exactly when its numerator is smaller; that fraction also lies on the smaller diagonal, so rule 2 never contradicts rule 1 |
| SortFractions.SnakeOrder | P2_SortFractions.cpp:5-35 | for positive fractions, compareFractions(a, b) holds exactly when `a` lies strictly earlier on the snake walk: a smaller diagonal, or the same diagonal and an earlier place in that diagonal's direction |
| SortFractions.PrecedesIrreflexive | P2_SortFractions.cpp:11-14 | no fraction comes before itself |
| SortFractions.PrecedesAsymmetric | P2_SortFractions.cpp:5-35 | for every pair of fractions, zero or negative parts included, `a` before `b` excludes `b` before `a` |
| SortFractions.PrecedesTransitive | P2_SortFractions.cpp:5-35 | for positive fractions the ranking is transitive |
| SortFractions.PrecedesConnected | P2_SortFractions.cpp:5-35 | two distinct positive fractions are always ranked one way or the other |
| SortFractions.ZeroNumeratorBreaksTransitivity | P2_SortFractions.cpp:5-35 | with zero numerators the ranking is no order: 0/1 before 1/1 before 0/3, while 0/1 and 0/3 are tied |
| SortFractions.NotAfterTotal | P2_SortFractions.cpp:17-34 | the snake position compares any two fractions |
| SortFractions.NotAfterTransitive | P2_SortFractions.cpp:17-34 | the snake position is transitive |
| SortFractions.SwapPermutes | P2_SortFractions.cpp:51-53 | exchanging two slots keeps the same multiset of ids |
| SortFractions.SwapKeepsDistinct | P2_SortFractions.cpp:51-53 | exchanging two slots keeps distinct ids distinct |
| SortFractions.Inverted | P2_SortFractions.cpp:49 | the swap test of the inner loop: the fraction in slot p is ranked by compareFractions before the one in slot p−1 |
| SortFractions.Step | P2_SortFractions.cpp:49-57 | one inner-loop iteration: when the fraction in slot p must come before the one in slot p−1 the two slots are exchanged and both fractions count one more flip, otherwise nothing changes; the numbers of slots and counters are kept |
| SortFractions.Pass | P2_SortFractions.cpp:47-59 | the inner loop: the iterations for the slot pairs (0, 1) up to (j−1, j), in that order |
| SortFractions.Passes | P2_SortFractions.cpp:46-60 | the first i passes of the outer loop, pass i−1 running the inner loop up to slot n−i |
| SortFractions.BubbleRun | P2_SortFractions.cpp:45-60 | the state the swap loops leave: n−1 passes for n fractions, none for an empty list |
| SortFractions.BubbleSortSorts | P2_SortFractions.cpp:45-60 | for positive fractions, after the loops no adjacent pair of even slots has the later fraction ranked before the earlier one |
| SortFractions.BubbleSortPermutes | P2_SortFractions.cpp:49-53 | the loops only rearrange the ids in the even slots |
| SortFractions.BubbleSortKeepsDistinct | P2_SortFractions.cpp:49-53 | distinct ids stay distinct |
| SortFractions.BubbleSortOnSorted | P2_SortFractions.cpp:45-60 | input already in order is left alone: no swap, no flip |
| SortFractions.BubbleSortFlips | P2_SortFractions.cpp:49-57 | every swap exchanged a pair compareFractions found out of order; each counter grows by the number of swaps its fraction took part in; the counters grow in total by twice the number of swaps |
| SortFractions.BackPointersBijective | P2_SortFractions.cpp:62-75 | for distinct ids the back-pointers are distinct and reach every final slot, so they form a bijection |
| SortFractions.BackPointersOnSorted | P2_SortFractions.cpp:40-75 | on input already in order, every back-pointer points at its own slot and no counter changes |
| SortFractions.BackPointersUnique | P2_SortFractions.cpp:64-75 | with distinct ids, the final placement determines the back-pointers |
| SortFractions.ThreeFractions | P2_SortFractions.cpp:38-75 | 1/2, 2/3, 1/3 becomes 1/2, 1/3, 2/3 with one flip each for 2/3 and 1/3, and the back-pointers exchange slots 1 and 2 |
| SortFractions.BumpFlip | P2_SortFractions.cpp:56-57 | `fracList[..][2]++`: exactly the counter of that fraction grows by one |
| SortFractions.CompareExchange | P2_SortFractions.cpp:49-57 | one inner-loop iteration gives the state `Step` describes |
| SortFractions.BubblePass | P2_SortFractions.cpp:47-59 | one pass of the inner loop gives the state `Pass` describes |
| SortFractions.NextPass | P2_SortFractions.cpp:46-60 | pass i takes the state after i passes to the state after i+1 passes |
| SortFractions.BubblePasses | P2_SortFractions.cpp:45-60 | the nested loops leave the slots and counters that `BubbleRun` describes |
| SortFractions.ResolveBackPointers | P2_SortFractions.cpp:62-75 | every original slot points at the final slot that holds its fraction |
| SortFractions.BubbleSortFractions | P2_SortFractions.cpp:38-78 | the whole routine: even slots and counters as `BubbleRun` describes, and back-pointers from each original slot to its fraction's final slot; `fracs` is not written |
| Quaternary.TruncDiv | P1_ConvertQuaternary.cpp:9 | C++ `/`: the quotient rounded toward zero |
| Quaternary.TruncMod | P1_ConvertQuaternary.cpp:8 | C++ `%`: the remainder that goes with the truncated quotient |
| Quaternary.Pow | P1_ConvertQuaternary.cpp:13-17 | the powers the source tabulates; positive for a positive base |
| Quaternary.Digits | P1_ConvertQuaternary.cpp:5-10 | the k digits the `% b`, `/= b` loop leaves, most significant first, with C++ truncating operators |
| Quaternary.ComplementValue | P1_ConvertQuaternary.cpp:21-30 | the 4's-complement reading: the unsigned value, minus 4^k when the leading digit is 2 or 3 |
| Quaternary.ToComplement | P1_ConvertQuaternary.cpp:42-49 | the 9 base-4 digits of `val`, or of `4^9 + val` when `val` is negative |
| Quaternary.NegaRem | P1_ConvertQuaternary.cpp:55-56 | the C++ remainder by −4, moved into 0..3 when it is negative |
| Quaternary.NegaDigits | P1_ConvertQuaternary.cpp:50-60 | the k digits the base −4 loop leaves, last digit first computed |
| Quaternary.InputValue | P1_ConvertQuaternary.cpp:19-38 | the value of the 8 input digits, in 4's complement when `inputType` holds and in base −4 otherwise |
| Quaternary.OutputDigits | P1_ConvertQuaternary.cpp:40-60 | the 9 digits of that value in the other system |
| Quaternary.Convert | P1_ConvertQuaternary.cpp:3-74 | the result of the whole routine: the output digits read as a decimal number |
| Quaternary.TruncAgreesOnNatural | P1_ConvertQuaternary.cpp:8-9 | on non-negative operands, C++ `/` and `%` agree with Euclidean division |
| Quaternary.TruncModSign | P1_ConvertQuaternary.cpp:55 | the C++ remainder is smaller in magnitude than the divisor and takes the dividend's sign |
| Quaternary.WeightedSumBounds | P1_ConvertQuaternary.cpp:21-26 | digits in [0, b) read back as a value in [0, b^k) |
| Quaternary.DigitsValue | P1_ConvertQuaternary.cpp:5-10 | the extracted digits lie in [0, b) and read back as the input modulo b^k |
| Quaternary.DigitsOfValue | P1_ConvertQuaternary.cpp:42-49 | extracting the digits of a digit string's value gives back the same digits |
| Quaternary.LeadingDigitHalf | P1_ConvertQuaternary.cpp:27-29 | the leading digit is at least 2 exactly when the unsigned value is in the upper half of the range |
| Quaternary.ComplementRange | P1_ConvertQuaternary.cpp:21-30 | a k-digit 4's-complement value lies in [−2·4^(k−1), 2·4^(k−1)) |
| Quaternary.ComplementRange8 | P1_ConvertQuaternary.cpp:21-30 | for 8 digits the decoded value lies in [−32768, 32767] |
| Quaternary.NegaRange | P1_ConvertQuaternary.cpp:31-38 | a negaquaternary digit string decodes into the range its length can reach |
| Quaternary.NegaRemExact | P1_ConvertQuaternary.cpp:55-58 | the normalised remainder lies in 0..3, and subtracting it leaves a multiple of −4 that C++'s truncating division by −4 recovers exactly |
| Quaternary.NegaDigitsBelow | P1_ConvertQuaternary.cpp:54-59 | every negaquaternary output digit lies in 0..3 |
| Quaternary.NegaDigitsValue | P1_ConvertQuaternary.cpp:50-60 | for every value in the reachable range, the 9 output digits read in base −4 give the value back |
| Quaternary.ComplementRoundTrip | P1_ConvertQuaternary.cpp:42-49 | the 4's-complement digits lie in 0..3, read as `val` or `4^9 + val`, and decode back to `val` |
| Quaternary.InputDigits | P1_ConvertQuaternary.cpp:5-10 | the 8 digits are the low 8 decimal digits of `inputNum`, most significant first |
| Quaternary.ConvertKeepsValue | P1_ConvertQuaternary.cpp:3-60 | for a base-4 numeral, the output digits lie in 0..3 and denote in the other system the value the input denotes |
| Quaternary.ConvertReadsBack | P1_ConvertQuaternary.cpp:62-73 | the result is the decimal reading of the 9 output digits, with leading zeros dropped, and stays below 10^9 |
| Quaternary.ConvertZero | P1_ConvertQuaternary.cpp:62-73 | the result is 0 exactly when the input denotes 0 |
| Quaternary.ZeroResultZeroValue | P1_ConvertQuaternary.cpp:62-73 | a 0 result means the input denotes 0 |
| Quaternary.ZeroValueZeroResult | P1_ConvertQuaternary.cpp:71 | an input denoting 0 gives the result 0 |
| Quaternary.ZeroWritings | P1_ConvertQuaternary.cpp:42-60 | zero is written with nine zero digits in both systems |
| Quaternary.ExtractDigits | P1_ConvertQuaternary.cpp:5-10 | the loop fills `digits` with the 8 low decimal digits, most significant first |
| Quaternary.PowersOfFour | P1_ConvertQuaternary.cpp:13-17 | `pow4[i] == 4^i` for i in 0..9 |
| Quaternary.DecodeComplement | P1_ConvertQuaternary.cpp:21-30 | the accumulated value is the 4's-complement reading of the digits |
| Quaternary.DecodeNega | P1_ConvertQuaternary.cpp:31-38 | the accumulated value is the base −4 reading of the digits |
| Quaternary.EncodeComplement | P1_ConvertQuaternary.cpp:42-49 | the loop writes the 9 digits of `val`, or of `4^9 + val` when `val` is negative |
| Quaternary.EncodeNega | P1_ConvertQuaternary.cpp:50-60 | the loop writes the 9 normalised base −4 digits of `val` |
| Quaternary.Repack | P1_ConvertQuaternary.cpp:62-73 | the result is the decimal reading of the 9 digits |
| Quaternary.ConvertQuaternary | P1_ConvertQuaternary.cpp:3-74 | the whole routine computes `Convert`, whose properties are the lemmas above |
| Helpers.Clamp | q31_starter.cpp:18 | when lo ≤ hi the result lies in [lo, hi], is `v` when `v` is in range, and is the point of the interval nearest to `v` |
| Helpers.ClampMonotone | q32_starter.cpp:20 | clamping keeps the order of two values |
| Helpers.ClampIdempotent | q32_starter.cpp:20 | clamping twice is clamping once |
| Helpers.Reflect | q31_starter.cpp:21-25 | 0 when n ≤ 1, otherwise an index in [0, n) |
| Helpers.ReflectInRange | q32_starter.cpp:23-27 | an index already inside [0, n) is unchanged |
| Helpers.ReflectMirrorLow | q31_starter.cpp:23 | reflecting at the low edge: −i lands where i does |
| Helpers.ReflectMirrorHigh | q31_starter.cpp:23 | reflecting at the high edge: 2n−2−i lands where i does |
| Helpers.ReflectOneOutside | q32_starter.cpp:134-135 | one step past either edge: −1 maps to 1 and n maps to n−2 |
| Helpers.ReflectIndex | q31_starter.cpp:21-25 | the mirroring loop terminates with the closed-form value |
| SignalPlot.BytePixelInImage | q31_starter.cpp:35-38 | every byte of a W×H×3 buffer belongs to a pixel inside the image |
| SignalPlot.PixelBytes | q31_starter.cpp:38 | byte i belongs to pixel (x, y) exactly when it is one of the three bytes from `(y*W+x)*3` on |
| SignalPlot.PixelInCanvas | q31_starter.cpp:37-38 | the three bytes of an in-image pixel lie inside the buffer |
| SignalPlot.SetPx | q31_starter.cpp:35-39 | an in-image pixel takes colour (r, g, b); no other byte changes, and nothing changes for a pixel outside the image |
| SignalPlot.FillRect | q31_starter.cpp:54-57 | every in-image pixel of [x0, x0+w) × [y0, y0+h) takes the colour; every other byte keeps its value |
| SignalPlot.Glyph | q31_starter.cpp:60-69 | the glyph tables of C, N, B, W and M, top row first; every other character has none |
| SignalPlot.MaskIsShift | q31_starter.cpp:72 | the column mask is `1 << (4 - col)` |
| SignalPlot.GlyphHeight | q31_starter.cpp:61-69 | every glyph has 7 rows |
| SignalPlot.GlyphMatchesPicture | q31_starter.cpp:61-65 | the bitmap rows of C, N, B, W and M are inked exactly where their pictures show '#', with nothing beyond column 4 |
| SignalPlot.GlyphDoneNext | q31_starter.cpp:70-72 | visiting one glyph cell adds that pixel when it is inked, and no other |
| SignalPlot.InkCell | q31_starter.cpp:72 | visiting cell (row, col) paints pixel (x+col, y+row) when bit 4−col of glyph row `row` is set; nothing else changes |
| SignalPlot.DrawGlyph | q31_starter.cpp:70-72 | the inked cells of a 7-row glyph take the colour where they fall in the image; nothing else changes |
| SignalPlot.DrawChar5x7 | q31_starter.cpp:58-73 | pixel (x+col, y+row) takes the colour exactly when bit 4−col of glyph row `row` is set; characters other than C, N, B, W, M change nothing |
| SignalPlot.LineFrom | q31_starter.cpp:46-52 | the pixels the loop visits from the point reached after X steps along x and Y along y, up to and including (x1, y1) |
| SignalPlot.Line | q31_starter.cpp:40-53 | the pixels `draw_line` passes to `set_px`, from (x0, y0) on |
| SignalPlot.LineErrSteps | q31_starter.cpp:49-51 | a step along x changes the error term by −|dy|, a step along y by |dx| |
| SignalPlot.LineStep | q31_starter.cpp:48-51 | before the end point, at least one coordinate steps, and neither steps past the end |
| SignalPlot.LineFromUnfold | q31_starter.cpp:46-52 | one loop iteration paints the current pixel and continues from the next one, or stops at the end point |
| SignalPlot.LineAdvance | q31_starter.cpp:49-51 | the loop's update of `err`, `x0` and `y0` matches the walk's next step |
| SignalPlot.LineFromShape | q31_starter.cpp:43-52 | from any reached point, the walk ends at (x1, y1), moves between touching pixels and stays in the bounding box |
| SignalPlot.LineShape | q31_starter.cpp:43-52 | the loop terminates, paints both end points, moves between touching pixels and stays in the segment's bounding box |
| SignalPlot.HorizontalLine | q31_starter.cpp:43-52 | a horizontal line paints every pixel between its end points, left to right, once each |
| SignalPlot.PaintNext | q31_starter.cpp:47 | painting one more pixel of the walk keeps "walk pixels coloured, all else unchanged" |
| SignalPlot.DrawLine | q31_starter.cpp:40-53 | each pixel of the walk that falls in the image takes the colour; every other byte keeps its value, so nothing is written outside the buffer |
| ImageDenoise.CropOrigin | q32_starter.cpp:61-62 | the crop's first row and column, `H_in / 2 - 128` and `W_in / 2 - 128`, with C++'s division of a non-negative size |
| ImageDenoise.CropInside | q32_starter.cpp:61-62 | for an input at least 256 pixels across, every crop row and column lies inside the input |
| ImageDenoise.LoadAndCrop | q32_starter.cpp:54-68 | status 1 when the load failed or the image is smaller than 256×256; otherwise pixel (r, c) of the crop is pixel (H_in/2−128+r, W_in/2−128+c) of the input, and every read is inside the input |
| ImageDenoise.Insert | q32_starter.cpp:148 | inserting into a sorted sequence gives a sorted sequence with one more copy of the value |
| ImageDenoise.SortBytes | q32_starter.cpp:148 | the sorted window is ascending and is a permutation of the window |
| ImageDenoise.SortedUnique | q32_starter.cpp:148 | two ascending sequences with the same elements are equal, so any sort leaves the same window |
| ImageDenoise.Window | q32_starter.cpp:134-147 | the neighbourhood has nine values |
| ImageDenoise.Median | q32_starter.cpp:148-149 | `window[4]` after the sort: the element of rank 4 of the nine |
| ImageDenoise.CountConcat | q32_starter.cpp:148-149 | counts of values at most or at least `v` add up over a concatenation |
| ImageDenoise.CountPermutation | q32_starter.cpp:148-149 | those counts do not depend on the order of the values |
| ImageDenoise.SortedRank | q32_starter.cpp:149 | in nine ascending values, at least five are at most the fifth and at least five are at least the fifth |
| ImageDenoise.MedianRank | q32_starter.cpp:147-149 | the stored value is one of the nine, with at least five of them no greater and at least five no smaller |
| ImageDenoise.MedianBounded | q32_starter.cpp:147-149 | the stored value lies between any lower and upper bound of the nine values, so between their minimum and maximum |
| ImageDenoise.MedianOfConstant | q32_starter.cpp:147-149 | nine equal values have that value as median |
| ImageDenoise.ConstantImageFixed | q32_starter.cpp:132-151 | the filter maps a constant image to itself |
| ImageDenoise.FilteredImage | q32_starter.cpp:132-151 | there is a grid holding, for every pixel, the median of its neighbourhood |
| ImageDenoise.WindowMedian | q32_starter.cpp:134-149 | the inner-loop body computes the median of the mirrored 3×3 neighbourhood of (r, c) |
| ImageDenoise.FilteredPixel | q32_starter.cpp:134-149 | that median is the filtered image's value at (r, c) |
| ImageDenoise.StorePixel | q32_starter.cpp:149 | the store extends, by one pixel in row-major order, the prefix of `I_med` that holds its filtered values |
| ImageDenoise.FilterInto | q32_starter.cpp:132-151 | after the loops every pixel of `I_med` holds its filtered value, and `I_noisy` is unchanged |
| ImageDenoise.MedianFilter | q32_starter.cpp:131-151 | pixel (r, c) of `I_med` is the fifth-ranked value of the mirrored 3×3 neighbourhood of (r, c) in `I_noisy` |

## Left out

- Image I/O and its libraries are not modelled: `stbi_load`, `stbi_image_free`, `stbi_write_png`, `save_png` and `printf`/`fprintf`. `LoadAndCrop` takes the loaded pixels (or `null`) and the sizes as parameters.
- Floating-point code is not modelled, because its behaviour depends on IEEE rounding and the C library. In q31 this covers signal synthesis, noise, the SMA/WMA/median-of-3 filters over `double`, `mse` and `plot_signals_png`. In q32 it covers the noise injection, the Gaussian blur and `psnr8`. The noisy image is an input of `MedianFilter`.
- Randomness (`mt19937`, `normal_distribution`) is not modelled.
- SortFractions.BubbleSortFractions: memory is modelled as ids. The heap array `original_locations` becomes a local array of ids, `delete[]` is dropped, and the pointer cast `(int*)&fracList[2*k]` becomes the slot number `k`.
- SortFractions.BubbleSortFractions: the source does not validate its input, so positive numerators and denominators are preconditions of the order lemmas, and distinct ids are a precondition of the routine (the source has no aliased records).
- SortFractions.Precedes: the products and sums are computed in 64 bits from 32-bit values in the source, so they cannot overflow. Unbounded integers are therefore exact.
- SortFractions.BubbleSortFlips: the `flipCount` fields are `int` in the source; their 32-bit overflow is not modelled (a counter grows by at most n−1 per call).
- Quaternary.ConvertQuaternary: a negative `inputNum` or decimal digits 4..9 are not checked by the source. The value lemmas require a base-4 numeral (`QuaternaryNumeral`), while the method itself is modelled for every input.
- Quaternary.ConvertQuaternary: `int` overflow of `result * 10` is not modelled; `ConvertReadsBack` shows the result stays below 10^9, which fits in 32 bits.
- SignalPlot.DrawLine: 32-bit overflow of `2 * err`, `y * W + x` and the loop counters is not modelled. The contracts hold for coordinates and sizes whose products fit in `int`.
- SignalPlot.FillRect: the same 32-bit overflow of `x0 + x` and `y0 + y` is not modelled.
- ImageDenoise.MedianFilter: the filter is modelled for any W, H ≥ 1; the source runs it with W = H = 256.
- ImageDenoise.SortBytes: `std::sort` is library code. It is modelled by an insertion sort function, and `SortedUnique` shows that any correct sort gives the same window.
- Helpers.Clamp: `clampv` is a template, modelled at `int`. q32 calls it at `int` only in the noise injection (q32_starter.cpp:84) and the blur (q32_starter.cpp:109, 125), both left out; q31 calls it only at `double` (q31_starter.cpp:96, 171).
- Helpers.ReflectIndex: q31 and q32 carry copies of `reflect_index` that are identical apart from whitespace (q31_starter.cpp:21-25, q32_starter.cpp:23-27), so it is modelled once.
- Helpers.ReflectIndex: 32-bit overflow of `-i` and `2*n-2-i` is not modelled; every caller passes the neighbour i − 1 or i + 1 of an index i in [0, n), so `i` lies in [-1, n].
