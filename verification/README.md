# Binomial blur in Dafny

A model of the binomial blur engine in `main.cpp`, with proofs about it. The engine has three parts:

- `binomialCoefficient` computes C(n, k) by the multiplicative recurrence in 64-bit unsigned arithmetic.
- `power` computes a^b by repeated `int` multiplication.
- `blur` refuses radii above 8, builds the kernel `pascalRow` (row 2r of Pascal's triangle) and its divisor `pascalRowSum = 2^(2r)`. Then, for each of the three channels, it zeroes an `int` buffer, runs a horizontal pass, zeroes the buffer again and runs a vertical pass.

The model follows the code line by line:

- **Layout.** The image is an interleaved `ImageVec`: pixel (x, y) sits at index `y * w + x` and holds three `unsigned char` samples.
- **Pass order.** For each channel the horizontal pass runs first, then the vertical one.
- **In-place write.** Both passes store `buffer[p] / pascalRowSum` straight back into the image, pixel by pixel, rows ascending and columns ascending. A pixel's accumulator therefore reads neighbours that this same pass has already overwritten: left neighbours horizontally, upper neighbours vertically.
  - The comment at `main.cpp:155` speaks of data moving into the buffer and back out. Read that way, every output would depend only on the image as it was before the pass.
  - The model makes the in-place pass the blur (`Convolution.PassUpTo`, `Convolution.Pass`). The snapshot convolution (`InPlace.SnapshotPass`) is kept only for comparison.
  - `InPlace.InPlaceWhiteRow` shows that the two differ. One horizontal radius-1 pass over a five-pixel row of 255s writes 191, 239, 251, 254, 191: the interior drifts below 255 because each pixel reads its already-darkened left neighbour. The snapshot pass would write 191, 255, 255, 255, 191.
- **Negative radius.** The guard only refuses radii above 8. A negative `kernelSize` reaches `std::vector<int> pascalRow(2 * kernelSize + 1)` with a negative length, which throws `std::length_error`. The model returns `Failure(KernelLengthError)`.
- **One iteration.** `Convolution.Step` defines what processing one pixel does to the image. `Convolution.ConvolvePixel` is the C++ per-pixel body (the tap loop with its `size_t` guard, the `int` accumulation and the `unsigned char` store), and its contract ties that body to `Step`.

## How C++ arithmetic is modelled

- **`int`** is the newtype `Machine.Int32`. Dafny checks that these `int` operations stay in range, so they cannot overflow: `2 * k` and `n - k` in `binomialCoefficient` (as preconditions on its `int` parameters), the loop counter and `n - i` there, `res * a` in `power`, and the products and `+=` into the buffer in both passes. `kernelSize * 2`, the buffer length `widthImage * heightImage` and the index arithmetic are not computed in `Int32`; "## Left out" says how each is handled.
- **`unsigned long long`** (the `*=` in `binomialCoefficient`) is reduced modulo 2^64.
- **`size_t`.** The neighbour test `(0 > x + k) || (x + k >= w)` is evaluated on the wrapped value. `Convolution.TapSkipped` proves it skips exactly the taps outside `[0, w)`.
- **The store into `unsigned char`** is reduced modulo 256. `Convolution.StoreExact` shows it never wraps.

Modules, one per file:

| module | file | contents |
|---|---|---|
| `Machine` | `machine.dfy` | C++ integer widths and conversions |
| `Arithmetic` | `arithmetic.dfy` | non-linear arithmetic facts |
| `Wrappers` | `wrappers.dfy` | `Result` |
| `Binomial` | `binomial.dfy` | Pascal's triangle, `binomialCoefficient`, `power` |
| `Image` | `image.dfy` | `ImageVec` and its row-major index |
| `Kernels` | `kernel.dfy` | the kernel and its synthesis |
| `Convolution` | `convolution.dfy` | the taps, one in-place pass and the zero-padding reference |
| `Blur` | `blur.dfy` | `blur` itself |
| `InPlace` | `inplace.dfy` | the comparison with a snapshot pass |

## Model

| member | source | states |
|---|---|---|
| Binomial.BinomialCoefficient | main.cpp:82-93 | For `int` n and k with `2 * k` (and `n - k` when it is taken) inside `int`, the result is an `unsigned long long`. For k < 0 or k > n it is 1, because the loop does not run. For 0 <= k <= n <= 59 it is exactly C(n, k) as defined by Pascal's rule, and equals C(n, n - k). |
| Binomial.ChooseSymmetric | main.cpp:83-85 | C(n, k) == C(n, n - k): replacing k by n - k when 2k > n does not change the result. |
| Binomial.ChooseStep | main.cpp:88-89 | (i + 1) * C(n, i + 1) == (n - i) * C(n, i), so the division `result /= (i + 1)` after `result *= (n - i)` is always exact. |
| Binomial.RecurrenceStep | main.cpp:87-90 | One loop iteration on a row n <= 59, with the 64-bit wrap of the multiplication applied, turns C(n, i) into C(n, i + 1). |
| Binomial.ExactDivision | main.cpp:88-89 | (n - i) * C(n, i) / (i + 1) == C(n, i + 1): each `result /= (i + 1)` of the recurrence divides exactly and lands on the next entry of the row. |
| Binomial.ProductFits | main.cpp:88 | While i < k <= n/2 and n <= 59, the product (n - i) * C(n, i) stays below 2^64, so the unsigned multiplication does not wrap. |
| Binomial.RowSum | main.cpp:144 | Row n of Pascal's triangle adds up to 2^n: `power(2, 2r)` is the sum of the weights it normalises. |
| Binomial.Power | main.cpp:95-102 | For b >= 0, `power(a, b)` returns a^b and no intermediate product overflows `int`, provided \|a^b\| <= 2147483647 (the limit in the comment on line 95). For b < 0 it returns 1. |
| Binomial.PowerStep | main.cpp:98-100 | Each multiplication `res * a` of the loop stays within `int` when the final power does. |
| Binomial.KernelSumBound | main.cpp:131-144 | For a radius the guard admits (r <= 8), `pascalRowSum` = 2^(2r) lies between 1 and 65536. |
| Binomial.AccumulatorHeadroom | main.cpp:131-132 | 255 * 2^(2r), the largest accumulator value a radius-r kernel of sum 2^(2r) allows, fits in `int` exactly when r <= 11. This is arithmetic about that bound only; the pass lemmas assume a radius the guard admits (r <= 8) and are not proved for larger radii. |
| Kernels.BuildKernel | main.cpp:144-150 | A negative kernelSize fails with `length_error`. Otherwise `pascalRow` holds C(2r, i) for i = 0..2r and `pascalRowSum` = 2^(2r). The kernel is valid (2r + 1 non-negative taps adding up to the divisor, divisor at most 65536) and palindromic. |
| Kernels.BinomialKernelValid | main.cpp:144-150 | For r <= 8, row 2r of Pascal's triangle with divisor 2^(2r) is a valid kernel: symmetric, entries C(2r, i), taps summing to the divisor. |
| Kernels.PascalRowSum | main.cpp:144-149 | `pascalRow` adds up to exactly `pascalRowSum`. |
| Kernels.PascalRowPalindromic | main.cpp:147-150 | `pascalRow[i] == pascalRow[2r - i]`. |
| Convolution.TapSkipped | main.cpp:169-171 | The `size_t` test `(0 > x + k) \|\| (x + k >= w)` skips a tap exactly when x + k lies outside [0, w). The first disjunct never holds; negative offsets are caught by the wrap-around in the second. |
| Convolution.TapTermBounds | main.cpp:169-173 | For a valid kernel, a single tap adds between 0 and 255 times its weight: the product `sample * pascalRow[k + r]` is non-negative and bounded by the largest sample. |
| Convolution.PassUpTo | main.cpp:164-178 | After the pixels before (x, y) in row-major order have been processed, the other channels are untouched and every pixel from (x, y) on still holds its input value. |
| Convolution.WrittenPixelStays | main.cpp:164-165 | Once pixel (x, y) has been processed, no later iteration of the row-major loops writes it again. |
| Convolution.PassFinalSample | main.cpp:172-176 | After a whole pass, pixel (x, y) holds the normalised accumulator taken over the image as the pass left it on reaching (x, y), with every earlier pixel already overwritten: the in-place semantics. |
| Convolution.Pass | main.cpp:164-178 | A whole pass keeps the pixel count and changes no channel other than the one it blurs. |
| Convolution.TapSumBounds | main.cpp:168-173 | After t taps the accumulator lies between 0 and 255 times the sum of the first t weights. |
| Convolution.AccumulatorBounds | main.cpp:172 | Every accumulator lies between 0 and 255 * `pascalRowSum` <= 255 * 65536, so the `int` buffer cannot overflow. |
| Convolution.StoreExact | main.cpp:176 | `buffer / pascalRowSum` is at most 255, so storing it into an `unsigned char` keeps it exactly. |
| Convolution.ZeroPadding | main.cpp:112-113 | Skipping the out-of-range taps gives the same sum as the unguarded weighted sum over the line padded with r zeros at each end. |
| Convolution.HorizontalPassRowLocality | main.cpp:162-178 | If two images agree on channel c of a row, they agree on that row after the horizontal pass: the horizontal pass works row by row. |
| Convolution.VerticalPassColumnLocality | main.cpp:183-199 | If two images agree on channel c of a column, they agree on that column after the vertical pass, although the loops visit it row by row. |
| Convolution.PassIdentity | main.cpp:162-199 | With the radius-0 kernel ([1] over 1), a pass along either axis leaves the image unchanged. |
| Convolution.AccumulateTaps | main.cpp:168-173 | The tap loop for k = -r..r leaves the pixel's accumulator in `buffer[y * w + x]` and no other buffer entry changes. No `int` product or sum overflows. |
| Convolution.ConvolvePixel | main.cpp:165-177 | The C++ per-pixel body (tap loop, division, `unsigned char` store), started on the image the pass has produced so far, yields exactly that image with one more pixel processed (`PassUpTo` advanced by one). The written pixel's buffer entry lies in [0, 255 * sum], and its sample is that entry divided by the sum. |
| Convolution.ConvolveRow | main.cpp:164-178 | The inner `x` loop over one row advances the in-place pass from the start of row y to the start of row y + 1, keeping the buffer facts for every processed pixel and a zero buffer beyond. |
| Convolution.ConvolvePass | main.cpp:164-199 | Starting from a zeroed buffer, one pass along either axis returns exactly the in-place pass `Pass`. Afterwards each buffer entry lies in [0, 255 * sum] and each written sample is that entry divided by the sum. |
| Blur.BlurChannel | main.cpp:158-199 | Blurring channel c (horizontal pass, then vertical) leaves the other two channels unchanged. |
| Blur.BlurChannels | main.cpp:158 | Blurring channels 0..n-1 in order leaves channels n and above unchanged. |
| Blur.BlurChannelsIdentity | main.cpp:158-199 | With the radius-0 kernel, blurring any number of channels is the identity. |
| Blur.BlurResult | main.cpp:131-147 | The only failure of `blur` is a negative radius (`length_error`). A radius above 8 returns the image untouched, and every success keeps the pixel count. |
| Blur.BlurIdentityAtZero | main.cpp:144-199 | `blur(image, w, h, 0)` leaves the image unchanged. |
| Blur.Blur | main.cpp:106-206 | For a radius above 8 the image is returned unchanged. For a negative radius the result is `length_error`. For radius 0 the result is the input image. Otherwise the result is every channel blurred in turn, in place, with the binomial kernel. The pixel count is preserved. |
| InPlace.RadiusOneKernel | main.cpp:144-150 | The kernel `blur` builds for kernelSize 1 is [1, 2, 1] over 4. |
| InPlace.InPlaceWhiteRow | main.cpp:164-178 | On a 5 x 1 row whose channel 0 is 255 everywhere, the in-place radius-1 horizontal pass writes 191, 239, 251, 254, 191. |
| InPlace.SnapshotWhiteRow | main.cpp:155 | On the same row, a snapshot pass that reads only the input would write 191, 255, 255, 255, 191. |
| InPlace.InPlaceIsNotSnapshot | main.cpp:155-176 | The pass the program runs is not the snapshot convolution: on that row they disagree at pixel 1 (239 against 255). |

## Left out

- The I/O around `blur` is not modelled: image loading, the conversion to and from `ImageVec`, `main`, `timeNow` and `factorial`. They are file and window handling outside the blur engine.
- The `printf` on the guard path is left out. The model keeps only its effect, an early return with the image unchanged.
- The OpenMP `#pragma omp parallel for` at lines 163 and 184 is left out. The model executes the rows serially in ascending order.
  - For the vertical pass the pragma is a data race: a row reads rows above it that another thread may be writing. Its result under parallel execution is not determined by the source.
  - The model gives the result of the serial order.
- Blur.Blur: requires `width * height <= 2147483647`. The code computes the buffer length `widthImage * heightImage` in `int`, and a larger product is undefined behaviour, which the model does not represent.
- Blur.Blur: negative width or height is not modelled; the dimensions are natural numbers.
- Kernels.BuildKernel: requires kernelSize <= 8, the guard that precedes it in `blur`. The `int` overflow of `kernelSize * 2` for kernelSize below -2^30 is not modelled; every negative radius fails with `length_error`.
- Binomial.BinomialCoefficient: requires `2 * k`, and `n - k` when the swap happens, to fit in `int`. Outside that the C++ overflows a signed `int`, which is undefined behaviour with no result to model.
- Binomial.BinomialCoefficient: exactness is proved only for rows n <= 59. Beyond that the 64-bit product can wrap; the model computes the wrapped value but states no formula for it. `blur` only uses rows up to 16.
- Binomial.Power: the requires excludes the one in-range power -2^31 (its absolute value is above 2147483647). `blur` only calls `power(2, 2r)` with 2r <= 16.
- The cast `int(binomialCoefficient(...))` on line 149 is not written out. The model proves the value is C(2r, i) <= 2^16, so the cast keeps it.
- Row and column index arithmetic (`y * widthImage + x` in `size_t`) is unbounded in the model. Within an image of at most 2^31 - 1 pixels it cannot wrap.
