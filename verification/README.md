# OpenCL samples and ICD loader: a verified model

This project models the parts of an OpenCL repository in which something can be got wrong in an interesting way, and
proves what they compute:

- **Sorting network** (`BitonicNetwork`, `BitonicSort`, `Knn`): the bitonic kernel, its key and payload version for
  k-NN classification, and the host loops over stages and passes.
- **binary16 conversion** (`FloatFormat`, `Rounding`, `HalfConversion`, `HalfWidening`, `HalfTheorems`, `HalfPatterns`,
  `HalfRuns`):
  narrowing with four rounding modes and widening, once for every mantissa width and exponent range; float and double
  are instances. `RoundedBy` states what IEEE 754-2008 calls correctly rounded, by distance and direction, without an
  algorithm.
- **Reductions and regression** (`Reduction`, `LeastSquares`, `Regression`, `ParabolicFit`, `RegressionHosts`): the
  barrier-separated tree reduction and the closed forms computed from its sums, over exact reals.
- **Histograms** (`ByteHistogram`, `ByteHistogramHosts`, `AtomicHistogram`, `Sums`): byte counters merged within and
  over groups, and persistent groups with atomic increments.
- **Matrix products** (`Scatter`, `MatrixProduct`): six kernels against the triple loop that checks them.
- **ICD vendor list** (`VendorList`, `SearchPath`): the linked list of vendors, its observers, and the environment
  variable that names the libraries.
- **Median filter** (`MedianFilter`): the window load and the partial bubble sort.

`WorkItems` is the common ground of the kernels. Between two barriers a work-item is a straight-line program of single
loads and stores; a launch interleaves these accesses in any order. Work-items whose stores nobody else touches leave
one possible memory, so each kernel is proved race free and then followed one work-item at a time. Atomic increments,
which do share cells, have their own scheduler in `AtomicHistogram`. Code that changes state step by step is a method
with a loop over an array or an object; the function it is proved against carries the theorems.

`dafny verify dfyconfig.toml` checks the project.

## Where the code differs from its stated intent

The model follows the code. Each of these is a statement in the project.

- `bitonic_sort.cpp:13` asks for a multiple of 64. Of the lengths that the host launches, those whose half is a power of
  two keep the launches inside the buffer, and no others do; of these, only the powers of two themselves are sorted.
- `icd.c:157` loads a library a second time and keeps that handle, but only the first one was looked up in the list.
- `histogram_image.cpp:120` counts rows by the area of the image, the launch by its sides; the host can read a row that no
  work-group writes.
- The byte counters of chapters 3 and 4 lose 256 pixels for every strip or tile that is constant in a channel.
- `histogram_cu.cpp:48` compares with `>`; unless the walks of the groups end exactly at the last pixel, the cell after
  the image is counted as well.
- Both histograms of chapter 8 write the R bins to G and B.
- `parabolic_regression.cpp` never sets the flag that it tests before printing.
- `median_kernel.h:47` reads the cell after the median, and its nine cells hold windows of at most 3 by 3.

## Model

| member | source | states |
|---|---|---|
| WorkItems.EverySchedule | packt_Code/chapter-11/bitonic_sort.cpp:27-54 | work-items whose stores no other work-item touches: every interleaving of single loads and stores that lets all finish ends in the memory that they leave when run one after the other |
| WorkItems.OneByOneIsLaunch | packt_Code/chapter-11/bitonic_sort.cpp:27-54 | that memory holds in each cell what its owner leaves there when run alone |
| WorkItems.Launch | packt_Code/chapter-11/bitonic_sort.cpp:138-141 | a scheduler loop on a shared array that picks any unfinished work-item for the next single access ends in that result, and ends |
| BitonicNetwork.PairsPartition | packt_Code/chapter-11/bitonic_sort.cpp:28-34 | the pairs (leftId, rightId) of all work-items partition the cells, for every pair distance |
| BitonicNetwork.DirectionOfItem | packt_Code/chapter-11/bitonic_sort.cpp:41-46 | the direction a work-item takes from its own index is the direction of the block that both its cells lie in |
| BitonicNetwork.HalfCleaner | packt_Code/chapter-11/bitonic_sort.cpp:48-54 | 0-1 argument: from a block that is bitonic with respect to a threshold, a half-cleaner makes two bitonic halves, one of them on its own side of the threshold altogether |
| BitonicNetwork.PassAdvances | packt_Code/chapter-11/bitonic_sort.cpp:129-142 | a pass keeps the invariant of a stage (sub-blocks bitonic for every threshold and in order among themselves) and halves the sub-blocks |
| BitonicNetwork.StageStarts | packt_Code/chapter-11/bitonic_sort.cpp:123-129 | aligned blocks sorted in alternating directions satisfy that invariant when the next stage begins |
| BitonicNetwork.PassPermutes | packt_Code/chapter-11/bitonic_sort.cpp:48-54 | a pass is a permutation of the buffer |
| BitonicSort.Kernel | packt_Code/chapter-11/bitonic_sort.cpp:27-54 | the kernel body on an array does what its load and store program does |
| BitonicSort.PassIsRaceFree | packt_Code/chapter-11/bitonic_sort.cpp:28-54 | no two work-items of a pass touch the same cell |
| BitonicSort.EveryInterleavingIsPass | packt_Code/chapter-11/bitonic_sort.cpp:27-54 | every interleaving of the single loads and stores of a launch ends in the pass of the network |
| BitonicSort.LaunchIsPassOfPrefix | packt_Code/chapter-11/bitonic_sort.cpp:27-54 | on a buffer with more cells than the work-items have pairs, the pass takes place in front and the cells behind keep what they held |
| BitonicSort.OneByOneIsPass | packt_Code/chapter-11/bitonic_sort.cpp:27-54 | so do the work-items run one after the other |
| BitonicSort.RunStage | packt_Code/chapter-11/bitonic_sort.cpp:123-143 | stage s turns blocks of 2^s cells sorted in alternating directions into such blocks of 2^(s+1), with s + 1 launches and a permutation |
| BitonicSort.Sort | packt_Code/chapter-11/bitonic_sort.cpp:111-143 | for every power-of-two length and every content the buffer ends ascending, as a permutation of the input, after n(n+1)/2 launches; with one cell more the first 2^n cells do, and the last is never touched |
| BitonicSort.InsideIff | packt_Code/chapter-11/bitonic_sort.cpp:119-143 | for every length of at least 2 the launches stay inside the buffer if and only if it is a power of two, one more, or one less than the next |
| BitonicSort.LaunchesIff | packt_Code/chapter-11/bitonic_sort.cpp:119-143 | the lengths of which half is a positive multiple of the local size 64 are the multiples of 128 and their successors |
| BitonicSort.LaunchedInsideIff | packt_Code/chapter-11/bitonic_sort.cpp:119-143 | for the lengths that the host launches, half the length being a multiple of the local size, if and only if half the length is a power of two |
| BitonicSort.SortsEveryContentIff | packt_Code/chapter-11/bitonic_sort.cpp:119-143 | of the lengths that are launched and stay inside, exactly the powers of two have every content sorted |
| BitonicSort.MultipleOf64NotEnough | packt_Code/chapter-11/bitonic_sort.cpp:13-13 | 384 is a multiple of 64, as the comment asks for, and so is half of it, so that the host launches; the launches leave the buffer |
| Knn.DistancesMeasured | packt_Code/chapter-11/knn_classification.cpp:41-66 | under any interleaving the distance kernel measures every point and moves none |
| Knn.LaunchIsPass | packt_Code/chapter-11/knn_classification.cpp:72-114 | under any interleaving of the accesses to the two buffers, a launch is one pass on the rows of distance and point |
| Knn.Classify | packt_Code/chapter-11/knn_classification.cpp:215-261 | the whole run leaves the measured rows rearranged in the order of their distances, and shows the first K |
| Knn.Pythagoras | packt_Code/chapter-11/knn_classification.cpp:41-47 | points that agree in one coordinate are apart by the square of their difference in the other, and over the corner of a rectangle the squares add up |
| Knn.RowsStayMeasured | packt_Code/chapter-11/knn_classification.cpp:102-113 | after the run every distance is the root of the squared distance of the point beside it from the match point |
| Knn.PointsArePermuted | packt_Code/chapter-11/knn_classification.cpp:102-113 | after the run the points are a permutation of the input |
| Knn.NearestFirst | packt_Code/chapter-11/knn_classification.cpp:259-261 | no point outside the first K is nearer than one inside, as far as the monotone root tells them apart |
| HalfConversion.HalfFrom | OpenCL-Headers/CL/cl_half.h:109-229 | the conversion, for any mantissa width, gives the correctly rounded half (sections 4.3.1, 4.3.2 and 7.4 of IEEE 754-2008) of every finite pattern in every mode, infinity for infinity and a quiet NaN with the leading payload bits for a NaN |
| FloatFormat.FloatLayout | OpenCL-Headers/CL/cl_half.h:119-124 | the patterns of a float are the numbers below 2^32: one bit of sign, eight of exponent, 23 of mantissa |
| FloatFormat.DoubleLayout | OpenCL-Headers/CL/cl_half.h:245-250 | the patterns of a double are the numbers below 2^64: one bit of sign, eleven of exponent, 52 of mantissa |
| FloatFormat.Gaps | OpenCL-Headers/CL/cl_platform.h:258-301 | the smallest subnormals are 2^-24 of a half, 2^-149 of a float and 2^-1074 of a double |
| FloatFormat.MagnitudeIsProduct | OpenCL-Headers/CL/cl_half.h:127-130 | the exact value of a pattern: the mantissa with its leading one, times two to the exponent field |
| HalfConversion.OverflowRounds | OpenCL-Headers/CL/cl_half.h:61-81 | the overflow values are the correct roundings of every magnitude from 2^16 on |
| HalfConversion.UnderflowRounds | OpenCL-Headers/CL/cl_half.h:87-103 | the underflow values are the correct roundings of every magnitude below half the smallest subnormal |
| HalfConversion.NormalPath | OpenCL-Headers/CL/cl_half.h:181-185 | what the normal path truncates to and drops, in units of the last place |
| HalfConversion.SubnormalPath | OpenCL-Headers/CL/cl_half.h:170-185 | what the subnormal path truncates to and drops, with the leading bit made explicit |
| HalfConversion.RoundAndCarry | OpenCL-Headers/CL/cl_half.h:181-228 | the truncated mantissa, the rounding switch and the carry give the correct rounding, from subnormal to normal and from largest finite to infinity too |
| HalfTheorems.NarrowsOnce | OpenCL-Headers/CL/cl_half.h:235-355 | pattern and mode determine the half |
| HalfTheorems.FloatAndDoubleAgree | OpenCL-Headers/CL/cl_half.h:235-355 | a float narrowed directly and the same float narrowed as a double give the same bits, for every pattern and mode |
| HalfTheorems.WidenThenNarrow | OpenCL-Headers/CL/cl_half.h:109-355 | the same for any two widths; subnormals, infinities and NaNs included |
| HalfTheorems.NarrowingIsMonotone | OpenCL-Headers/CL/cl_half.h:109-229 | narrowing never reverses the order of two values, across all branches and in every mode |
| HalfTheorems.ModesAreOrdered | OpenCL-Headers/CL/cl_half.h:187-219 | RTN <= RTE <= RTP, and RTZ is the one of RTN and RTP that does not exceed the exact magnitude |
| HalfTheorems.NegationMirrors | OpenCL-Headers/CL/cl_half.h:61-219 | narrowing the negated value with RTP and RTN exchanged gives the negated half, and only that |
| HalfWidening.Normalize | OpenCL-Headers/CL/cl_half.h:412-422 | the loop ends with the leading one of the mantissa in the implicit place and the shift that got it there |
| HalfWidening.Widen | OpenCL-Headers/CL/cl_half.h:361-428 | widening keeps the value exactly, for any two widths, and the payload of a NaN |
| HalfTheorems.WidensOnce | OpenCL-Headers/CL/cl_half.h:361-428 | a pattern widens to one pattern only |
| HalfPatterns.WidenedBits | OpenCL-Headers/CL/cl_half.h:384-427 | the bits of a widened half: normal numbers, infinities, and NaNs with the payload moved up by 13 and bit 0x400000 set |
| HalfTheorems.RoundTrip | OpenCL-Headers/CL/cl_half.h:361-428 | every half that is not a NaN returns unchanged, and only so, from being widened and narrowed in any mode |
| HalfTheorems.RoundTripOfNaN | OpenCL-Headers/CL/cl_half.h:361-428 | a NaN returns with bit 0x200 set and is otherwise unchanged |
| HalfRuns.NarrowBothWays | OpenCL-Headers/CL/cl_half.h:109-355 | the two narrowing routines, on each of the 2^32 floats and on the double of the same value, give the same half, and it is the correct one |
| HalfRuns.ThereAndBack | OpenCL-Headers/CL/cl_half.h:361-428 | widening and then narrowing any half returns it, with the quiet bit set if it is a NaN |
| HalfRuns.NarrowWidenNarrow | OpenCL-Headers/CL/cl_half.h:109-428 | narrowing, widening and narrowing again is narrowing once, for every number, width and pair of modes |
| HalfPatterns.OneNarrows | OpenCL-Headers/tests/test_cl_half.h.c:82-83 | 1.0 and -1.0 are the halves 0x3C00 and 0xBC00, and no others, in every mode |
| HalfPatterns.HugeNarrows | OpenCL-Headers/tests/test_cl_half.h.c:88-97 | every finite float from 2^16 on, among them the largest half plus 1000, becomes infinity or the largest half, by mode and sign, as the tests of the header list |
| HalfPatterns.TinyNarrows | OpenCL-Headers/tests/test_cl_half.h.c:100-109 | 2^-25 and -2^-25, which lie halfway between zero and the smallest half, in each mode |
| HalfPatterns.InfinityNarrows | OpenCL-Headers/CL/cl_half.h:135-150 | the infinities become the infinities in every mode |
| Reduction.StepsAreRaceFree | packt_Code/chapter-11/linear_regression.cpp:17-24 | the lanes that a SUM_STEP stores to are not among the foreign lanes it reads |
| Reduction.StepKeepsSum | packt_Code/chapter-11/linear_regression.cpp:17-24 | a step halves the lanes that matter and keeps the sum over those in range, for every tail |
| Reduction.Reduce | packt_Code/chapter-11/linear_regression.cpp:67-74 | under any interleaving between the barriers lane 0 of every array ends with the sum of its lanes in range, whatever the lanes beyond the tail hold |
| RegressionHosts.Group | packt_Code/chapter-11/linear_regression.cpp:40-86 | a work-group writes the sums over exactly its points in range; uninitialised lanes do not matter, and a group past the end writes nothing |
| RegressionHosts.SumGroups | packt_Code/chapter-11/linear_regression.cpp:200-210 | the host totals are the sums over all points of the whole groups |
| Regression.SpreadPositive | packt_Code/chapter-11/linear_regression.cpp:219-220 | the denominator is never negative, and zero exactly when all abscissae are equal |
| Regression.SpreadGrows | packt_Code/chapter-11/linear_regression.cpp:219-220 | Lagrange's identity, one point at a time |
| Regression.LineIsLeast | packt_Code/chapter-11/linear_regression.cpp:219-220 | the fitted line is the one line of least squared error whenever two abscissae differ |
| RegressionHosts.LinearRegression | packt_Code/chapter-11/linear_regression.cpp:128-220 | the whole program: division by zero exactly when all abscissae are equal; otherwise the error of every other line is larger |
| LeastSquares.NormalIsLeast | packt_Code/chapter-11/linear_regression.cpp:219-220 | a solution of the normal equations of any degree is least: every other polynomial is worse by the squared differences at the abscissae |
| LeastSquares.ErrorOfOneMore | packt_Code/chapter-11/linear_regression.cpp:219-220 | every point adds the square of its vertical distance to the curve |
| LeastSquares.ParabolaValue | packt_Code/chapter-11/parabolic_regression.cpp:123-166 | the coefficients a, b and c stand for the curve a + x (b + x c) |
| Regression.DetFactors | packt_Code/chapter-11/parabolic_regression.cpp:139-142 | detA is the spread of the abscissae times the least squared error of a line through the points (x, x^2) |
| ParabolicFit.DetVanishes | packt_Code/chapter-11/parabolic_regression.cpp:140-149 | detA is never negative, and nonzero exactly when at least three abscissae differ |
| ParabolicFit.ParabolaIsNormal | packt_Code/chapter-11/parabolic_regression.cpp:151-166 | Cramer's rule solves the three normal equations whenever detA is nonzero |
| ParabolicFit.ParabolaIsLeast | packt_Code/chapter-11/parabolic_regression.cpp:123-166 | with three different abscissae the parabola found is the one parabola of least squared error |
| ParabolicFit.ParabolaRecovered | packt_Code/chapter-11/parabolic_regression.cpp:123-166 | data that lie on a parabola give it back exactly |
| RegressionHosts.ParabolicRegression | packt_Code/chapter-11/parabolic_regression.cpp:345-385 | the whole program: right coefficients whenever three abscissae differ, reported only if the flag that is never set to true happened to be true |
| ByteHistogram.StripsAreRaceFree | packt_Code/chapter-3/histogram.cpp:41-61 | every work-item stays in its own byte counters, clearing included |
| ByteHistogram.Count | packt_Code/chapter-4/histogram_image.cpp:44-69 | under any interleaving, without a barrier after clearing, every counter holds the number of its pixels modulo 256 |
| ByteHistogram.BinsDealtOnce | packt_Code/chapter-4/histogram_image.cpp:72-87 | both ways of dealing the bins out to 16 work-items give every bin to exactly one step of one of them |
| ByteHistogram.Merge | packt_Code/chapter-4/histogram_image.cpp:72-87 | under any interleaving of the writes, each bin of the group ends with the sum of its 16 counters |
| ByteHistogram.Group | packt_Code/chapter-3/histogram.cpp:28-72 | a work-group ends with the bins of its 16 strips in all three channels |
| ByteHistogram.ByteCountMisses | packt_Code/chapter-3/histogram.cpp:56-58 | a byte counter misses 256 exactly when its strip is constant |
| ByteHistogram.StripBinsTotal | packt_Code/chapter-3/histogram.cpp:46-59 | the counters of a strip add up to 256, or to nothing when the strip is constant |
| ByteHistogramHosts.BufferBin | packt_Code/chapter-3/histogram.cpp:285-293 | the merged bin is the true count over the visited pixels less 256 for every strip constantly of that value |
| ByteHistogramHosts.BufferHistogram | packt_Code/chapter-3/histogram.cpp:102-293 | the whole program of chapter 3 ends with these bins in each channel |
| ByteHistogram.UnpackedBytes | packt_Code/chapter-3/histogram.cpp:46-48 | channels 0, 1 and 2 are the three low bytes of a packed pixel, from the lowest on |
| ByteHistogramHosts.PixelsCounted | packt_Code/chapter-3/histogram.cpp:46-59 | the true count of a bin is the number of pixels with its value in the channel |
| ByteHistogramHosts.BufferExact | packt_Code/chapter-3/histogram.cpp:285-293 | a bin is the true count if and only if no visited strip is constantly of its value |
| ByteHistogramHosts.BlackBuffer | packt_Code/chapter-3/histogram.cpp:56-58 | one group of black pixels: bin 0 is 0, where the true count is 4096 |
| ByteHistogramHosts.BufferTotal | packt_Code/chapter-3/histogram.cpp:295-305 | all bins of a channel together: 256 for every visited strip that is not constant |
| ByteHistogramHosts.PictureBin | packt_Code/chapter-4/histogram_image.cpp:312-320 | for the tiled form: the true count over the image less 256 for every tile constantly of that value |
| ByteHistogramHosts.PictureHistogram | packt_Code/chapter-4/histogram_image.cpp:120-320 | the whole program of chapter 4, for every image that is launched: these bins over the visited rectangle, plus whatever the rows hold that the host reads and no work-group writes |
| ByteHistogramHosts.RowsReadAreWritten | packt_Code/chapter-4/histogram_image.cpp:120-120 | the host never reads fewer rows than are written, and no others if and only if fewer than 4096 pixels are left over |
| ByteHistogramHosts.OnlyWrittenRows | packt_Code/chapter-4/histogram_image.cpp:312-320 | then what the buffers held before does not matter |
| ByteHistogramHosts.UnwrittenRowsMatter | packt_Code/chapter-4/histogram_image.cpp:312-320 | otherwise two contents of the buffers give two results |
| ByteHistogramHosts.RowNeverWritten | packt_Code/chapter-4/histogram_image.cpp:120-120 | an image of 143 by 271 is launched with 9 rows read and 8 written |
| ByteHistogramHosts.WholeImage | packt_Code/chapter-4/histogram_image.cpp:312-320 | for sides that are multiples of 64 a bin counts the whole image less 256 for every constant tile |
| ByteHistogramHosts.PictureExact | packt_Code/chapter-4/histogram_image.cpp:312-320 | a bin is the true count if and only if no tile is constantly of its value |
| ByteHistogramHosts.BlackTiles | packt_Code/chapter-4/histogram_image.cpp:65-67 | one group of black tiles: the same |
| ByteHistogramHosts.PictureTotal | packt_Code/chapter-4/histogram_image.cpp:322-332 | all bins of a channel together: 256 for every tile that is not constant |
| AtomicHistogram.AtomicLaunch | packt_Code/chapter-8/histogram_cu.cpp:45-55 | whatever order the atomic increments are done in, every cell grows by the number of times it is addressed |
| AtomicHistogram.WhereTheWalkEnds | packt_Code/chapter-8/histogram_cu.cpp:38-49 | the walks of the groups end at the last pixel exactly when that ends a row of 256 that a full group reaches; otherwise they include the cell after it |
| AtomicHistogram.ElementsSuffice | packt_Code/chapter-8/histogram_cu.cpp:207-208 | the elements per work-item are the least number with which the work-items reach every pixel |
| AtomicHistogram.EvenShares | packt_Code/chapter-8/histogram_cu.cpp:207-208 | pixels that share out evenly among all work-items of all groups are counted exactly |
| AtomicHistogram.HistogramCounts | packt_Code/chapter-8/histogram_cu.cpp:298-307 | the sequential histogram counts the pixels of each value |
| AtomicHistogram.PersistentHistogram | packt_Code/chapter-8/histogram_cu.cpp:207-296 | the merged bins are the sequential histogram, plus one hit of the cell after the image where the guard admits it; G and B receive the R bins |
| AtomicHistogram.DeviceTotals | packt_Code/chapter-8/histogram_cu.cpp:298-307 | the bins add up to total_pixels, or to one more; they are exact if and only if the walks end at the last pixel |
| AtomicHistogram.ThousandPixels | packt_Code/chapter-8/histogram_cu.cpp:48-49 | 1000 pixels on four groups: the bin of the cell after the image is one too large |
| AtomicHistogram.HistogramTotals | packt_Code/chapter-8/histogram_cu.cpp:298-307 | the sequential bins add up to the number of pixels |
| AtomicHistogram.BlockHistogram | packt_Code/chapter-8/histogram.cpp:27-54 | the first version of chapter 8: its R bins are the sequential histogram of the pixels in whole groups of 65536, and G and B receive them too |
| Sums.SumStrided | packt_Code/chapter-8/histogram_cu.cpp:45-48 | walking an index range with a stride covers the range |
| Sums.SumTiled | packt_Code/chapter-4/histogram_image.cpp:52-68 | summing tile by tile sums the whole table |
| Scatter.ScatteredCell | packt_Code/chapter-8/MatrixMultiplication.cpp:45-45 | in a launch that only stores, with no cell dealt to two work-items, each dealt cell ends with its own value and the others with what they held, in every interleaving |
| MatrixProduct.FourCellsDealt | packt_Code/chapter-8/MatrixMultiplication.cpp:80-87 | every cell of C is written by exactly one work-item of the float4 kernel |
| MatrixProduct.RowsPartlyDealt | packt_Code/chapter-8/MatrixMultiplication.cpp:165-173 | no cell of C is written by two work-items of the row kernels, on any dim |
| MatrixProduct.RowsDealtIff | packt_Code/chapter-8/MatrixMultiplication.cpp:164-173 | every cell of C is written, by exactly one work-item, if and only if the local size divides dim |
| Scatter.StridedDealt | packt_Code/chapter-8/MatrixMultiplication.cpp:136-139 | every cell of the local row is written by exactly one work-item of the strided load |
| MatrixProduct.BlocksDealt | packt_Code/chapter-8/MatrixMultiplication.cpp:106-109 | every cell of the local row is written by exactly one work-item of the block load |
| MatrixProduct.Basic | packt_Code/chapter-8/MatrixMultiplication.cpp:31-46 | under any interleaving the basic kernel ends with the product |
| MatrixProduct.VectorStep | packt_Code/chapter-8/MatrixMultiplication.cpp:66-78 | one round of the float4 loop adds four consecutive terms of the entry, read through the vector layout of A and B |
| MatrixProduct.BasicVector4 | packt_Code/chapter-8/MatrixMultiplication.cpp:51-88 | the float4 kernel ends with the product for every dim divisible by 4 |
| MatrixProduct.LoadRow | packt_Code/chapter-8/MatrixMultiplication.cpp:106-110 | after the barrier the local memory holds the row of A, loaded in blocks or with a stride |
| MatrixProduct.LocalA | packt_Code/chapter-8/MatrixMultiplication.cpp:93-148 | both kernels with a local row end with the product for every dim divisible by the local size |
| MatrixProduct.CoalescedRow | packt_Code/chapter-8/MatrixMultiplication.cpp:152-205 | both row-per-group kernels on any dim: the columns below the last multiple of the local size end with the product, of A or of what the local copies hold of it, the others keep what C held; for every dim divisible by the local size all of C ends with the product |
| MatrixProduct.PartResult | packt_Code/chapter-8/MatrixMultiplication.cpp:164-205 | entry by entry on any dim: kept, the product, or the product of which the terms beyond the copied columns come from uninitialised local memory |
| MatrixProduct.UnitTimes | packt_Code/chapter-8/MatrixMultiplication.cpp:491-526 | the product with a matrix of a single one, from the left, moves a row of the other factor |
| MatrixProduct.ProductAdds | packt_Code/chapter-8/MatrixMultiplication.cpp:491-526 | the product is additive in its left factor |
| MatrixProduct.ResultIsCorrect | packt_Code/chapter-8/MatrixMultiplication.cpp:491-526 | the check accepts exactly the product of the triple loop, although it gives up after ten differences |
| VendorList.Loader.VendorAdd | OpenCL-ICD-Loader/loader/icd.c:34-190 | whatever the foreign calls answer: the list stays finite and acyclic, grows only at its tail by one record per usable platform, ignores a library already listed, holds one load per record, and nothing leaks on any early exit; the library is requested from the system under its own name only |
| VendorList.RecordedAt | OpenCL-ICD-Loader/loader/icd.c:107-175 | the records are those of the usable platforms in their order, each with the library handle, the suffix, the extension address and the platform that were answered |
| VendorList.RecordsCounted | OpenCL-ICD-Loader/loader/icd.c:107-175 | one record for every usable platform |
| VendorList.NothingAddedIff | OpenCL-ICD-Loader/loader/icd.c:47-168 | nothing is added exactly when one of the early exits is taken or every platform is passed over |
| VendorList.EntriesCounted | OpenCL-ICD-Loader/loader/icd.c:157-163 | the loads that the list accounts for are one for each record of the library |
| VendorList.Loader.AddAll | OpenCL-ICD-Loader/loader/icd.c:34-190 | the same over any sequence of calls, as a run of the specification |
| VendorList.Loader.NoCycle | OpenCL-ICD-Loader/loader/icd.c:170-174 | no record is on the list twice |
| VendorList.Loader.Append | OpenCL-ICD-Loader/loader/icd.c:170-174 | walking to the tail appends the record and leaves the others as they were |
| VendorList.RunGrows | OpenCL-ICD-Loader/loader/icd.c:34-190 | the list after some attempts is a prefix of the list after more |
| VendorList.NewOnlyIffSameHandle | OpenCL-ICD-Loader/loader/icd.c:60-68 | an attempt that gets past the look-up lists no listed library, whatever attempts came before, if and only if every usable platform keeps the handle that was looked up |
| VendorList.OtherHandleRepeats | OpenCL-ICD-Loader/loader/icd.c:157-163 | otherwise there is an earlier attempt after which it lists a listed library again |
| VendorList.OneAttemptPerLibrary | OpenCL-ICD-Loader/loader/icd.c:60-68 | in any run, an attempt that keeps the handle it looked up lists libraries different from those of every earlier attempt |
| VendorList.SecondLoadIsNotLookedUp | OpenCL-ICD-Loader/loader/icd.c:157-163 | two attempts after which the list holds a library twice |
| VendorList.Loader.GetPlatformIDs | OpenCL-ICD-Loader/loader/icd_dispatch.c:25-72 | reports the length of the list and its first min(num_entries, length) platforms in order, NULL in the remaining slots, and the two error codes exactly in their cases |
| VendorList.Loader.VendorForFunction | OpenCL-ICD-Loader/loader/icd_dispatch.c:1713-1727 | the first vendor on the list whose nonempty suffix ends the name is asked; none if there is none |
| VendorList.HasSuffixIff | OpenCL-ICD-Loader/loader/icd_dispatch.c:1713-1727 | a suffix matches exactly the names that it ends, and the empty one none |
| VendorList.Loader.ContextPlatform | OpenCL-ICD-Loader/loader/icd.c:232-250 | no properties: the first platform, if any; otherwise the value selected from the pairs before the terminating zero |
| VendorList.LastPropertyWins | OpenCL-ICD-Loader/loader/icd.c:242-248 | the last platform property before the terminating zero is selected |
| VendorList.NoPlatformProperty | OpenCL-ICD-Loader/loader/icd.c:240-250 | without a platform property no platform is selected |
| SearchPath.NextPath | OpenCL-ICD-Loader/loader/icd.c:194-209 | the buffer is written at the next separator only, and the result is the index after it or that of the terminating NUL |
| SearchPath.EnumerateEnv | OpenCL-ICD-Loader/loader/icd.c:211-230 | the loop ends, calls the loader with exactly the separated names in order (`asked` records the calls), leaves the list of that run, and a NUL for every separator with nothing else changed |
| SearchPath.NamesRestoreText | OpenCL-ICD-Loader/loader/icd.c:221-226 | joining the names restores the text up to one separator at its end |
| SearchPath.NamesOfJoin | OpenCL-ICD-Loader/loader/icd.c:221-226 | every list of names whose last one is not empty is handed on as it is when joined |
| SearchPath.ColonSeparates | OpenCL-ICD-Loader/loader/icd.c:199-206 | names are cut at colons; a final colon adds no name |
| SearchPath.JoinSplit | OpenCL-ICD-Loader/loader/icd.c:199-206 | joining the fields of a text restores it |
| SearchPath.SplitJoin | OpenCL-ICD-Loader/loader/icd.c:199-206 | the fields of joined fields are these fields |
| MedianFilter.Pass | packt_Code/chapter-9/median_kernel.h:34-43 | a pass permutes the window and moves the largest of its first cells behind them |
| MedianFilter.Passes | packt_Code/chapter-9/median_kernel.h:32-44 | after k passes the last k cells are the k largest in order, and the window is permuted |
| MedianFilter.InsideIff | packt_Code/chapter-9/median_kernel.h:18-47 | every access of the load, of the passes and of the final read stays inside the nine cells of the private array if and only if windowSize is between -3 and 3 |
| MedianFilter.MedianKernel | packt_Code/chapter-9/median_kernel.h:15-50 | for every windowSize: outside exactly when an access leaves the array; otherwise order statistic n/2 + 1 of the n cells gone over, and for a window of at most one pixel the contents of a cell that was never loaded |
| MedianFilter.ClampIsNearest | packt_Code/chapter-9/median_kernel.h:4-6 | a read outside the image takes the one nearest index inside |
| MedianFilter.WindowCell | packt_Code/chapter-9/median_kernel.h:22-28 | every pixel of the square around the work-item has its own cell, column by column |
| MedianFilter.WindowsThatFit | packt_Code/chapter-9/median_kernel.h:14-28 | the half width of each window that fits, and the pixel that is loaded last |
| MedianFilter.OrderStatisticUnique | packt_Code/chapter-9/median_kernel.h:46-47 | an index has one order statistic |
| MedianFilter.CountsPermute | packt_Code/chapter-9/median_kernel.h:34-41 | order statistics do not depend on the order of the cells |
| MedianFilter.WrittenIsMedian | packt_Code/chapter-9/median_kernel.h:46-47 | the written value is the median if and only if fewer than n/2 pixels lie above the median, and is never below it |
| MedianFilter.BrightOfNine | packt_Code/chapter-9/median_kernel.h:46-47 | five dark and four bright pixels: the median is dark, the written value bright |

## Left out

- OpenCL API calls, contexts, queues, program builds, events, timing, printing, file input and the goto cleanup of the
  samples: foreign calls and I/O.
- The forwarding entry points of `icd_dispatch.c`, version packing and device queries: a null check and one call each.
- The gaussian and sobel filters, saxpy, the BMP reader and the `poclcc` option parser: easy members.
- Rounding of floating-point arithmetic outside `cl_half.h`: the regressions and the median filter use exact reals, the
  matrix product exact integers, k-NN an abstract root of an exact sum of squares. NaN does not occur in them, and a
  floating-point division by zero is kept apart as its own result.
- Memory below the level of single loads and stores: the interleavings are sequentially consistent.
- The width of indices and counters other than byte counters: `uint` indices of the sorting kernels, `cl_uint` bins, the
  counter of `clGetPlatformIDs` and the dimensions of images are unbounded. The 32-bit wrap of the regression tail is
  modelled; the value that the element count of the last group takes when `histogram_cu.cpp:42` mixes signed and unsigned
  operands with a negative difference is an arbitrary number.
- BitonicSort.Sort: what the launches do to the contents of a buffer that they leave.
- RegressionHosts.LinearRegression: stated for a multiple of the work-group size, since the host reads the sums of whole
  groups only; the tail of the last group is covered by RegressionHosts.Group.
- Global buffers that a kernel only reads are functions of an index in the histogram and matrix kernels, so that reading
  past the end of one is not an error there; the cell after the image in `histogram_cu.cpp` has an arbitrary value.
- ByteHistogramHosts.PictureHistogram: images whose blocks of 16 do not fill whole work-groups of 4 by 4, for which the
  launch is rejected. A read takes the pixel at its coordinates, which all lie inside the image; the OpenCL standard
  leaves reads at integer coordinates with CLK_ADDRESS_REPEAT undefined.
- ByteHistogramHosts.BufferHistogram: here, and in ByteHistogramHosts.PictureHistogram and
  AtomicHistogram.BlockHistogram, images too small for one work-group are included, with nothing written; OpenCL 1.x
  rejects an empty launch.
- ByteHistogram.Group: the intermediate buffer is written row by row as the groups finish, and the three channels, which
  the source merges in one loop, are merged one after the other.
- AtomicHistogram.AtomicLaunch: an increment is one atomic step; clearing and writing out are separated from it by
  barriers and done by one work-item per cell.
- MatrixProduct.BasicVector4: the four accumulators of a work-item, which the source updates in one loop, are updated in
  four loops over the same vectors. MatrixProduct.CoalescedRow takes one work-group per row, as the launch does.
- MedianFilter.MedianKernel: what an access outside the private array does.
- VendorList.Loader.VendorAdd: the operating system's loading of libraries and the vendors' answers are parameters of each
  call, in any combination; a suffix is a string without its terminating NUL.
- VendorList.Loader.ContextPlatform: the caller's list of properties ends in a zero key, as the interface requires.
- VendorList.Loader.VendorForFunction: the fixed table of extension entry points that is searched first is left out, and so
  is the call of the vendor's own lookup.
- Enumeration of the vendor directory or registry, and running it only once: operating system specific.
- SearchPath.EnumerateEnv: the separator is the colon of the POSIX build; freeing the variable's copy is left out.
