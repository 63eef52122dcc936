# CelestiaStarRenderer glow compositor, in Dafny

CelestiaStarRenderer draws stars into a floating-point RGB buffer the way
the Celestia planetarium does. A star is given by a brightness (in units of
Vega), a colour and a pixel position. It is drawn either as a single pixel
or, when it is bright enough to exceed one pixel's capacity, as a square
glow whose per-pixel intensity comes from a point-spread function (PSF) of
the angle to the star. This project models that core:

- `light.dfy`, module `Light`: a buffer sample, which is a finite real or
  +infinity. Only the Bounded variant writes infinity.
- `psf.dfy`, module `Psf`: the three bounded PSFs (Optimized, Simplified,
  Bounded) and the derivation of each variant's lower threshold
  `min_theta` from its upper threshold `max_theta`.
- `auxiliary.dfy`, module `Auxiliary`:
  - `green_normalization`, as a method that divides and desaturates the
    caller's colour array in place;
  - `draw_corners`, as a method on the 3-D buffer;
  - `scale_array`, as a pure function on nested sequences.
- `algorithms.dfy`, module `Algorithms`: the three draw routines
  `draw_Optimized`, `draw_Simplified` and `draw_Bounded`. Each is a method
  that adds one star to an `array3<Sample>` buffer in place, as a single
  pixel or as a glow square clipped to the buffer, with optional corner
  markers.

Transcendental functions are inputs, each tied down by the equation it
satisfies:

- `sqrtBr` stands for `np.sqrt(br0)`, with `sqrtBr * sqrtBr == br0`.
- `h` and `k` are the power laws of brightness. `sqrtK` stands for the
  square root of `k`.
- `arctan` is a function parameter. `sqrtDimmed` is the square root of the
  dimmed brightness.
- `root` stands for the per-cell `np.sqrt`.

Everything else is computed exactly: `b`, `min_theta`, `max_theta`,
`half_sq = floor(max_theta / degree_per_px)`, the clipped window and the
per-cell sums.

Where the code and its own comments and documentation disagree, the model
follows the code:

- main.py:18-19 describes an exposure of 1 as the one at which Vega
  occupies a single pixel with no glow. In the code, green is normalised to
  exactly 1 and the single-pixel test is strict (`< 1`, algorithms.py:60),
  so every star of brightness 1 or more takes the glow path
  (`BrightStarsGlow`).
- The comment `# in the [0, 1] range, like in Celestia` on
  algorithms.py:84, 141 and 200 holds for PSF_Optimized and PSF_Simplified
  (`PsfOptimizedFalls`, `PsfSimplifiedFalls`). PSF_Bounded is infinite at
  the centre and exceeds 1 closer than max_theta / 26 (`PsfBounded`,
  `PsfBoundedExceedsOne`).
- `np.vectorize` gives PSF_Optimized and PSF_Simplified an integer result
  when their first grid cell is overexposed; see "## Findings".

## Model

| member | source | states |
|---|---|---|
| Light.Plus | algorithms.py:86 | the buffer's `+=` on one sample: infinite exactly when either side is, otherwise the sum of the two values; adding 0 changes nothing |
| Light.PlusCommutes | algorithms.py:86 | two contributions to one sample give the same result in either order and under either grouping |
| Light.Times | algorithms.py:85 | `scaled_color * glow` on one sample: infinite exactly when the glow is, the channel itself for a glow of 1, never negative for non-negative factors |
| Psf.PsfOptimized | algorithms.py:36-47 | PSF_Optimized is exactly 1 below min_theta and never negative for k > 0 |
| Psf.PsfOptimizedPositive | algorithms.py:36-47 | with the thresholds of lines 69-70, PSF_Optimized is strictly positive at every angle below max_theta, inside and outside the core |
| Psf.OptimizedParams | algorithms.py:66-70 | b = max_theta - h and min_theta = h + b / (sqrt k + 1); for h < max_theta and k > 0 the thresholds are ordered h < min_theta < max_theta and b > 0 |
| Psf.OptimizedContinuous | algorithms.py:41-47 | the Optimized falloff is exactly 1 at min_theta and exactly 0 at max_theta, so PSF_Optimized is continuous at both thresholds |
| Psf.PsfOptimizedFalls | algorithms.py:36-47 | over the whole axis PSF_Optimized stays in [0, 1] and never increases with theta |
| Psf.OptimizedRegrowsBeyondMax | algorithms.py:43-47 | the raw Optimized formula grows again beyond max_theta, which is why the PSF returns 0 there |
| Psf.BracketFalls | algorithms.py:44 | (num / x - 1)^2 is non-negative and non-increasing for 0 < x <= num |
| Psf.BracketRegrows | algorithms.py:44 | (num / x - 1)^2 strictly increases for x >= num |
| Psf.PsfSimplified | algorithms.py:93-104 | PSF_Simplified is exactly 1 below min_theta and never negative for k >= 0 |
| Psf.PsfSimplifiedPositive | algorithms.py:93-104 | with the thresholds of line 125 and a positive radius, PSF_Simplified is strictly positive at every angle below max_theta |
| Psf.SimplifiedParams | algorithms.py:123-125 | min_theta = max_theta / (k^-1/2 + 1); for a positive radius 0 < min_theta < max_theta, otherwise the falloff range is empty |
| Psf.SimplifiedContinuous | algorithms.py:98-102 | the Simplified falloff is exactly 1 at min_theta and exactly 0 at max_theta |
| Psf.SimplifiedFalloffFalls | algorithms.py:100-102 | for any k > 0, k (max_theta / theta - 1)^2 is non-negative and non-increasing on (0, max_theta] |
| Psf.SimplifiedRegrowsBeyondMax | algorithms.py:100-104 | the raw Simplified formula grows again beyond max_theta, which is why the PSF returns 0 there |
| Psf.PsfSimplifiedFalls | algorithms.py:93-104 | over the whole axis PSF_Simplified stays in [0, 1] and never increases with theta |
| Psf.PsfBounded | algorithms.py:151-165 | PSF_Bounded is infinite exactly at theta = 0 and never negative elsewhere |
| Psf.PsfBoundedFalls | algorithms.py:154-165 | away from the centre PSF_Bounded never increases with theta |
| Psf.PsfBoundedExceedsOne | algorithms.py:161-163 | PSF_Bounded exceeds 1 at every angle closer than max_theta / 26 |
| Auxiliary.Max | auxiliary.py:10 | color.max() is a component and bounds every component from above |
| Auxiliary.Min | auxiliary.py:11 | color.min() is a component and bounds every component from below |
| Auxiliary.GreenNormalized | auxiliary.py:8-14 | the returned colour has the input's length, green exactly 1, and every component positive |
| Auxiliary.DividedByMaxPeaks | auxiliary.py:10 | dividing by the maximum puts every component in [0, 1] with maximum exactly 1 |
| Auxiliary.PushBounds | auxiliary.py:11-13 | one desaturation push keeps a component in [0, 1], never lowers it, keeps 1 at 1 and makes 0 positive |
| Auxiliary.PushMonotone | auxiliary.py:13 | the desaturation push preserves the order of components |
| Auxiliary.DesaturatedStaysInUnit | auxiliary.py:11-13 | desaturation leaves every component in (0, 1], never lowers one, keeps 1 at 1 and preserves their order |
| Auxiliary.Desaturated | auxiliary.py:11-13 | the desaturation step keeps the length, leaves a colour whose minimum is already at the 0.1 limit unchanged, and never lowers a component |
| Auxiliary.Prepared | auxiliary.py:10-13 | the state green_normalization leaves its argument in has the same length, and the largest component ends at exactly 1 |
| Auxiliary.PreparedInUnit | auxiliary.py:10-13 | after the in-place steps every component lies in (0, 1] and the maximum is exactly 1 |
| Auxiliary.AnchoredAt | auxiliary.py:14 | dividing a positive colour by one of its components makes that component exactly 1 and keeps all positive |
| Auxiliary.GreenNormalizedKeepsOrder | auxiliary.py:8-14 | green_normalization preserves the order of any two components |
| Auxiliary.RepeatedNormalizationDrifts | auxiliary.py:8-13 | the in-place steps are not idempotent: applying them twice to [0.05, 1, 1] differs from applying them once |
| Auxiliary.DivideInPlace | auxiliary.py:10 | `color /= m` leaves the array equal to the old contents divided by m |
| Auxiliary.DesaturateInPlace | auxiliary.py:11-13 | the conditional `color += delta * (1 - color)**2` leaves the array equal to the desaturated old contents |
| Auxiliary.GreenNormalization | auxiliary.py:8-14 | leaves the caller's array divided by its maximum and desaturated, and returns that divided by its green component |
| Auxiliary.CornerWritesInBoundsIff | auxiliary.py:73-82 | draw_corners stays in the buffer exactly when each shown corner has its neighbours in the buffer |
| Auxiliary.CornerMarkedIff | auxiliary.py:75-82 | each corner pixel is marked exactly when it passes the strict bounds test |
| Auxiliary.MarkersInside | auxiliary.py:75-82 | with a centre in the buffer and half_sq >= 1, every marker lies in the buffer and inside the footprint square |
| Auxiliary.ZeroHalfWidthOverflows | auxiliary.py:75-76 | with half_sq = 0 and the centre on the last column, a neighbour write falls past the buffer (the IndexError case) |
| Auxiliary.MarkCorner | auxiliary.py:76 | channel 0 of a corner and its two inward neighbours becomes 1 and nothing else changes |
| Auxiliary.MarkCornerIfShown | auxiliary.py:75-76 | a corner is marked only when 0 < i < width and 0 < j < hight |
| Auxiliary.DrawCorners | auxiliary.py:73-83 | channel 0 of exactly the marker cells becomes 1.0; every other cell and channel is unchanged |
| Auxiliary.Repeat | auxiliary.py:50 | np.repeat along one axis has times * length elements |
| Auxiliary.RepeatAt | auxiliary.py:50 | copy r of element q sits at index q * times + r of the repetition |
| Auxiliary.ScaleArray | auxiliary.py:48-50 | the scaled array has times * height rows, and row r is as long as times * the width of original row r / times |
| Auxiliary.ScaleArrayAt | auxiliary.py:48-50 | the scaled array has times * height rows of times * width cells, and cell (r, c) is the original cell (r / times, c / times) |
| Algorithms.HalfSquare | algorithms.py:71 | half_sq = floor(max_theta / degree_per_px) is non-negative and half_sq * dpp <= max_theta < (half_sq + 1) * dpp |
| Algorithms.Clip | algorithms.py:76-79 | the window along one axis is [max(0, c - half_sq), min(size, c + half_sq + 1)), inside the buffer and holding the centre |
| Algorithms.FirstOffset | algorithms.py:76-79 | the first grid cell sits at (y_min, x_min) = (-min(half_sq, cy), -min(half_sq, cx)) from the centre, the top-left corner of the clipped window |
| Algorithms.Theta | algorithms.py:83 | the angle of a cell is non-negative for a non-negative root, and 0 at the centre when the root of 0 is 0 |
| Algorithms.ThetaSymmetric | algorithms.py:83 | the angle depends only on the distance from the centre: mirroring either axis or swapping the axes leaves it unchanged |
| Algorithms.FootprintCoversSupport | algorithms.py:71-83 | every cell whose angle is below max_theta lies within half_sq of the centre on both axes, so the square loses none of the PSF's support |
| Algorithms.WithinHalfSquare | algorithms.py:71 | an offset within t of the centre, with t * dpp below max_theta, is within half_sq of it |
| Algorithms.ScaledPositive | algorithms.py:59-60 | on the glow path the brightness is positive and so is every scaled channel |
| Algorithms.Glows | algorithms.py:59-60 | the branch between the two renders: the glow path is taken exactly when some channel of colour * br0 reaches 1 |
| Algorithms.BrightStarsGlow | algorithms.py:58-60 | every star of brightness 1 or more takes the glow path, because green is normalised to exactly 1 |
| Algorithms.AddPixel | algorithms.py:62 | `arr[y, x] += amounts` adds each channel's amount to that pixel and changes nothing else |
| Algorithms.AddGlowRow | algorithms.py:86 | one row of the slice: its cells in the column window gain colour times the glow at their offset; every other cell is unchanged |
| Algorithms.AddGlow | algorithms.py:80-86 | every cell of the window gains colour times the glow at its offset from the centre; every other cell is unchanged |
| Algorithms.RenderSquare | algorithms.py:74-86 | each cell ends as the corner marker (if any) plus the glow when it is in the clipped window |
| Algorithms.RenderConfined | algorithms.py:74-86 | no cell outside the footprint square changes, when half_sq >= 1 or no corners are drawn |
| Algorithms.SinglePixel | algorithms.py:60-62 | the scaled colour is added to the centre pixel and nothing else changes |
| Algorithms.OptimizedCentreFull | algorithms.py:41-42 | with h >= 0 the centre of an Optimized glow gains exactly the scaled colour |
| Algorithms.SimplifiedCentreFull | algorithms.py:98-99 | the centre of a Simplified glow of positive radius gains exactly the scaled colour |
| Algorithms.BoundedCentreInfinite | algorithms.py:159-160 | the centre of a Bounded glow becomes infinite in every channel, marker or not |
| Algorithms.OptimizedGlow | algorithms.py:84 | glow_bw of draw_Optimized as a float at every offset: the PSF of the cell's angle, 1 in the overexposed core, 0 from max_theta on, never negative for k > 0 |
| Algorithms.SimplifiedGlow | algorithms.py:141 | glow_bw of draw_Simplified as a float at every offset: 1 in the core, 0 from max_theta on, never negative for k >= 0 |
| Algorithms.BoundedGlow | algorithms.py:200 | glow_bw of draw_Bounded at every offset: infinite exactly where the cell's angle is 0, never negative elsewhere |
| Algorithms.VectorizedCast | algorithms.py:48 | np.vectorize's result for one cell: the value itself when the array is float; when it is integer, 0 for a value in [0, 1) and 1 for 1 |
| Algorithms.OptimizedGlowAsWritten | algorithms.py:48-84 | glow_bw as the source computes it: OptimizedGlow when the cell at offset (y_min, x_min) has an angle of at least min_theta, and OptimizedGlow truncated toward zero when that angle is below min_theta |
| Algorithms.SimplifiedGlowAsWritten | algorithms.py:105-141 | the same for SimplifiedGlow |
| Algorithms.TowardZero | algorithms.py:48 | numpy's cast of a float into an integer array truncates toward zero: the integer part, never further from 0 than the value |
| Algorithms.OptimizedGlowCast | algorithms.py:41-48 | as written, the Optimized glow is the PSF when the first grid cell is outside the core; when it is inside, each cell keeps 1 where the PSF is 1 and 0 everywhere else |
| Algorithms.SimplifiedGlowCast | algorithms.py:98-105 | the same for the Simplified glow |
| Algorithms.OptimizedCornerStarLosesRing | algorithms.py:76-84 | for a star at the top-left pixel (max_theta = 2, h = 0.0137, k = 447^2, 0.05 degrees per pixel), cell (0, 1) lies in the window and the PSF gives it about 0.0144 of the colour, but it gets 0 as written |
| Algorithms.SimplifiedCornerStarLosesRing | algorithms.py:133-141 | the same for draw_Simplified (max_theta = 2, k = 0.0024^2): cell (0, 1) should gain 0.00876096 of the colour but gets 0 |
| Algorithms.DrawOptimized | algorithms.py:50-87 | leaves the colour array normalised; draws a single pixel below the threshold, otherwise every cell is the marker plus the scaled colour times the float-valued PSF_Optimized of its angle inside the clipped square (the integer cast is under "## Left out") |
| Algorithms.DrawSimplified | algorithms.py:107-144 | the same as DrawOptimized, with max_theta = 0.2 sqrt(br0) and the float-valued PSF_Simplified |
| Algorithms.DrawBounded | algorithms.py:168-203 | the same shape, with max_theta = 0.123 sqrt(arctan(br0 / max_br) max_br); the glow adds the unscaled colour times PSF_Bounded, and the centre becomes infinite |

## Left out

- PSF_Original, draw_Original and PSF_fullscreen in algorithms.py: these are not part of this model.
- gamma_correction, the magnitude and exposure conversions, create_img and img2array in auxiliary.py: these are not part of this model. They are image I/O and presentation, outside the compositor.
- main.py, which drives the renderer and saves images, is not part of this model.
- Square roots, powers and arctan are not computed. They enter as inputs tied to their defining equations, so floating-point rounding of these values is not modelled.
- Buffer arithmetic is exact real arithmetic. IEEE rounding is not modelled, and neither are NaN (for example a zero colour channel times infinity).
- DrawOptimized, DrawSimplified, DrawBounded: the centre must lie inside the buffer. Python's negative indexing for an out-of-range centre is not modelled.
- DrawOptimized: on the glow path h < max_theta is required. With h and k given as inputs, the power laws of lines 67-68 that guarantee this for any brightness of practical size are not modelled.
- DrawBounded: maxBr != 0 and a real square root of the dimmed brightness are required on the glow path. The source would raise or produce NaN there.
- DrawCorners, and the draw routines when corners are requested: the IndexError that draw_corners raises when a neighbour falls past the last row or column is excluded by the precondition CornerWritesInBounds. ZeroHalfWidthOverflows shows that the case exists.
- GreenNormalization: the colour must have no negative component and a positive maximum. A zero colour divides by zero in the source, and negative colours are outside its domain.
- The draw routines return `arr`. The model states the buffer's new contents and does not return the same array.
- Order-independence of several draws into one buffer is not stated. Draws commute only when no corner markers are drawn (a marker overwrites channel 0 with 1, so a marker drawn before another star's glow differs from one drawn after) and when draws do not share a colour array that green_normalization has not yet brought to its fixed point (`RepeatedNormalizationDrifts`). `PlusCommutes` states only that two contributions to one sample commute.
- DrawOptimized: the glow is the float-valued PSF_Optimized at every cell, which is what `np.vectorize(PSF_Optimized, otypes=[float])` would give. As written, the source casts the whole glow to integers when the first grid cell is overexposed (for example a star at the top-left pixel), and then every falloff value below 1 becomes 0. That behaviour is modelled by `OptimizedGlowAsWritten` and recorded under "## Findings", but not by DrawOptimized's contract.
- DrawSimplified: the same holds for PSF_Simplified, with the behaviour as written modelled by `SimplifiedGlowAsWritten`.

## Findings

| source | as written | input that shows it | evidently intended | confidence | as-written member | corrected member |
|---|---|---|---|---|---|---|
| algorithms.py:48 | `np.vectorize(PSF_Optimized)` without `otypes` takes the output dtype from the first grid cell; if that cell is overexposed, PSF_Optimized returns the int 1 and every glow value is truncated to 0 or 1 | `draw_Optimized(arr, 36, vega_colour, (0, 0), 0.05, False)`: lines 66-70 give max_theta ≈ 2.006, h ≈ 0.0137, k ≈ 2.0 * 10^5 and min_theta ≈ 0.018; cell (0, 1) at angle 0.05 should gain about 0.0145 of the scaled colour but gains 0. The lemma uses the model's own rounded parameters max_theta = 2, h = 0.0137, k = 447^2 | every cell gains the float PSF, as with `otypes=[float]` or `return 1.` | high, from numpy's documented dtype rule; not executed | Algorithms.OptimizedCornerStarLosesRing | Algorithms.OptimizedGlow, with Psf.PsfOptimizedPositive |
| algorithms.py:105 | the same for `np.vectorize(PSF_Simplified)` | `draw_Simplified(arr, 100, vega_colour, (0, 0), 0.05, False)`: lines 123-125 give max_theta = 2, k ≈ 5.83 * 10^-6 and min_theta ≈ 0.0048; cell (0, 1) should gain about 0.0089 of the scaled colour but gains 0. The lemma uses the model's own parameter k = 0.0024^2 | every cell gains the float PSF | high, from numpy's documented dtype rule; not executed | Algorithms.SimplifiedCornerStarLosesRing | Algorithms.SimplifiedGlow, with Psf.PsfSimplifiedPositive |
