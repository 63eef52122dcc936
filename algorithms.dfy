/** The glow compositor of algorithms.py: draw_Optimized, draw_Simplified
    and draw_Bounded add one star to a height x width x 3 buffer, either as
    a single pixel or as a square glow clipped to the buffer. */
module Algorithms {
  import opened Light
  import opened Auxiliary
  import opened Psf

  /** max_theta per square root of brightness, Optimized (line 66). */
  const OptimizedRadius: real := 0.33435822702992773
  /** max_theta per square root of brightness, Simplified (line 123). */
  const SimplifiedRadius: real := 0.2
  /** max_theta per square root of the dimmed brightness, Bounded (a, line 151). */
  const BoundedA: real := 0.123

  // ---------------------------------------------------------------------
  // Footprint geometry
  // ---------------------------------------------------------------------

  /** Lines 71, 126, 187: half_sq = floor(max_theta / degree_per_px). No
      offset pixel on either side of the square is within max_theta along
      an axis, and the half-width is never negative. */
  function HalfSquare(maxTheta: real, degreePerPx: real): (n: int)
    requires degreePerPx > 0.0
    ensures maxTheta >= 0.0 ==> n >= 0
    ensures n as real * degreePerPx <= maxTheta < (n + 1) as real * degreePerPx
  {
    var q := maxTheta / degreePerPx;
    var n := q.Floor;
    assert q * degreePerPx == maxTheta;
    assert n as real <= q < (n + 1) as real;
    Psf.MultiplyKeepsOrder(n as real, q, degreePerPx);
    Psf.ScaleStrictByPositive(q, (n + 1) as real, degreePerPx);
    assert degreePerPx * q == maxTheta;
    assert degreePerPx * (n + 1) as real == (n + 1) as real * degreePerPx;
    assert maxTheta < (n + 1) as real * degreePerPx;
    assert n as real * degreePerPx <= maxTheta;
    Psf.MultiplyKeepsOrder((n + 1) as real, 0.0, degreePerPx);
    assert maxTheta >= 0.0 ==> n >= 0;
    n
  }

  /** Lines 76-79 and the slice of line 86, along one axis: the window of
      a footprint of half-width halfSq around c, clipped to [0, size). It
      is [max(0, c - halfSq), min(size, c + halfSq + 1)), so it lies in the
      buffer and holds the centre. */
  function Clip(c: int, halfSq: int, size: int): (w: (int, int))
    requires 0 <= c < size && halfSq >= 0
    ensures 0 <= w.0 <= c < w.1 <= size
    ensures w.0 == if c - halfSq > 0 then c - halfSq else 0
    ensures w.1 == if c + halfSq + 1 < size then c + halfSq + 1 else size
  {
    var low := -(if halfSq <= c then halfSq else c);
    var high := if halfSq + 1 <= size - c then halfSq + 1 else size - c;
    (c + low, c + high)
  }

  /** Lines 76 and 78: (y_min, x_min), the offset from the centre of the
      first cell of the glow grid, i.e. the top-left corner of the clipped
      window. */
  function FirstOffset(center: (int, int), halfSq: int, height: int, width: int): (o: (int, int))
    requires 0 <= center.0 < width && 0 <= center.1 < height && halfSq >= 0
    ensures o.0 == -(if halfSq <= center.1 then halfSq else center.1)
    ensures o.1 == -(if halfSq <= center.0 then halfSq else center.0)
  {
    (Clip(center.1, halfSq, height).0 - center.1, Clip(center.0, halfSq, width).0 - center.0)
  }

  /** Line 83: the angle of the cell at row offset dy and column offset dx;
      root stands for np.sqrt. */
  function Theta(root: int -> real, dy: int, dx: int, degreePerPx: real): (theta: real)
    ensures root(dx * dx + dy * dy) >= 0.0 && degreePerPx > 0.0 ==> theta >= 0.0
    ensures dy == 0 && dx == 0 && root(0) == 0.0 ==> theta == 0.0
  {
    root(dx * dx + dy * dy) * degreePerPx
  }

  /** The angle of a cell depends only on its distance from the centre: it
      is unchanged by mirroring either axis and by swapping the axes. */
  lemma ThetaSymmetric(root: int -> real, dy: int, dx: int, degreePerPx: real)
    ensures Theta(root, -dy, dx, degreePerPx) == Theta(root, dy, dx, degreePerPx)
    ensures Theta(root, dy, -dx, degreePerPx) == Theta(root, dy, dx, degreePerPx)
    ensures Theta(root, dx, dy, degreePerPx) == Theta(root, dy, dx, degreePerPx)
  {
    assert (-dy) * (-dy) == dy * dy;
    assert (-dx) * (-dx) == dx * dx;
  }

  /** A non-negative root bounds each coordinate: a*a <= t*t gives |a| <= t. */
  lemma RootBoundsCoordinate(t: real, a: real)
    requires t >= 0.0 && a * a <= t * t
    ensures -t <= a <= t
  {
    SquareOrder(t, a);
    SquareOrder(t, -a);
  }

  lemma SquareOrder(u: real, v: real)
    requires u >= 0.0
    ensures u < v ==> u * u < v * v
  {
    if u < v {
      Psf.SquareStrictlyMonotone(u, v);
    }
  }

  /** The footprint square covers the support of the PSF: every cell whose
      angle, computed with a true square root, is below max_theta lies
      within half_sq of the centre along both axes. So clipping the glow to
      the square loses nothing that all three PSFs (zero from max_theta on)
      would have added. */
  lemma FootprintCoversSupport(root: int -> real, dy: int, dx: int, degreePerPx: real, maxTheta: real)
    requires degreePerPx > 0.0
    requires root(dx * dx + dy * dy) >= 0.0
    requires root(dx * dx + dy * dy) * root(dx * dx + dy * dy) == (dx * dx + dy * dy) as real
    requires Theta(root, dy, dx, degreePerPx) < maxTheta
    ensures -HalfSquare(maxTheta, degreePerPx) <= dx <= HalfSquare(maxTheta, degreePerPx)
    ensures -HalfSquare(maxTheta, degreePerPx) <= dy <= HalfSquare(maxTheta, degreePerPx)
  {
    var t := root(dx * dx + dy * dy);
    SumOfSquares(dx, dy);
    RootBoundsCoordinate(t, dx as real);
    RootBoundsCoordinate(t, dy as real);
    WithinHalfSquare(dx, t, degreePerPx, maxTheta);
    WithinHalfSquare(dy, t, degreePerPx, maxTheta);
  }

  lemma SumOfSquares(dx: int, dy: int)
    ensures (dx as real) * (dx as real) <= (dx * dx + dy * dy) as real
    ensures (dy as real) * (dy as real) <= (dx * dx + dy * dy) as real
  {
    assert (dx * dx) as real == (dx as real) * (dx as real);
    assert (dy * dy) as real == (dy as real) * (dy as real);
    assert dx * dx >= 0 && dy * dy >= 0;
  }

  /** u <= t with t * x < m < w * x and x > 0 gives u < w. */
  lemma BelowNext(u: real, t: real, x: real, m: real, w: real)
    requires x > 0.0 && u <= t && t * x < m < w * x
    ensures u < w
  {
    Psf.MultiplyKeepsOrder(u, t, x);
    Psf.MultiplyKeepsOrder(w, u, x);
  }

  /** An offset within t of the centre, where t * degree_per_px is below
      max_theta, is within half_sq of it. */
  lemma WithinHalfSquare(a: int, t: real, degreePerPx: real, maxTheta: real)
    requires degreePerPx > 0.0 && -t <= a as real <= t && t * degreePerPx < maxTheta
    ensures -HalfSquare(maxTheta, degreePerPx) <= a <= HalfSquare(maxTheta, degreePerPx)
  {
    var n := HalfSquare(maxTheta, degreePerPx);
    BelowNext(a as real, t, degreePerPx, maxTheta, (n + 1) as real);
    BelowNext((-a) as real, t, degreePerPx, maxTheta, (n + 1) as real);
  }

  /** `color * br0`. */
  function Scaled(colour: seq<real>, br0: real): seq<real>
  {
    seq(|colour|, i requires 0 <= i < |colour| => colour[i] * br0)
  }

  /** `np.all(scaled_color < 1)`: the star fits in one pixel. */
  predicate AllBelowOne(s: seq<real>)
  {
    forall i :: 0 <= i < |s| ==> s[i] < 1.0
  }

  /** A positive colour scaled by a brightness at which some channel reaches
      1 is positive in every channel. */
  lemma ScaledPositive(colour: seq<real>, br0: real)
    requires forall i :: 0 <= i < |colour| ==> colour[i] > 0.0
    requires !AllBelowOne(Scaled(colour, br0))
    ensures br0 > 0.0
    ensures forall i :: 0 <= i < |colour| ==> Scaled(colour, br0)[i] > 0.0
  {
    var j :| 0 <= j < |colour| && Scaled(colour, br0)[j] >= 1.0;
    Psf.MultiplyKeepsOrder(br0, 0.0, colour[j]);
    assert colour[j] * br0 == br0 * colour[j];
    forall i | 0 <= i < |colour| ensures Scaled(colour, br0)[i] > 0.0 {
      Psf.ProductPositive(colour[i], br0);
    }
  }

  /** What a glow draw leaves in one cell: the corner marker first (when
      the cell is one), then the additive glow when the cell is in the
      clipped window. */
  function Composite(before: Sample, marked: bool, inWindow: bool, gain: Sample): Sample
  {
    var base := if marked then Finite(1.0) else before;
    if inWindow then Plus(base, gain) else base
  }

  // ---------------------------------------------------------------------
  // In-place additive writes
  // ---------------------------------------------------------------------

  /** `arr[r, c] += amounts`: only pixel (r, c) changes, each channel
      gaining its amount. */
  method AddPixel(arr: array3<Sample>, r: int, c: int, amounts: seq<Sample>)
    requires 0 <= r < arr.Length0 && 0 <= c < arr.Length1 && |amounts| == arr.Length2
    modifies arr
    ensures forall y, x, ch | 0 <= y < arr.Length0 && 0 <= x < arr.Length1 && 0 <= ch < arr.Length2 ::
      arr[y, x, ch] == if y == r && x == c then Plus(old(arr[y, x, ch]), amounts[ch]) else old(arr[y, x, ch])
  {
    var ch := 0;
    while ch < arr.Length2
      invariant 0 <= ch <= arr.Length2
      invariant forall y, x, k | 0 <= y < arr.Length0 && 0 <= x < arr.Length1 && 0 <= k < arr.Length2 ::
        arr[y, x, k] == if y == r && x == c && k < ch then Plus(old(arr[y, x, k]), amounts[k]) else old(arr[y, x, k])
    {
      arr[r, c, ch] := Plus(arr[r, c, ch], amounts[ch]);
      ch := ch + 1;
    }
  }

  /** One row of line 86 (202): cells (r, c) for c in [cols.0, cols.1)
      gain colour * glow at their offset; every other cell is unchanged. */
  method AddGlowRow(arr: array3<Sample>, center: (int, int), r: int, cols: (int, int),
                    colour: seq<real>, glow: (int, int) -> Sample)
    requires 0 <= r < arr.Length0 && 0 <= cols.0 <= cols.1 <= arr.Length1
    requires |colour| == arr.Length2
    requires forall ch :: 0 <= ch < |colour| ==> colour[ch] > 0.0
    modifies arr
    ensures forall y, x, ch | 0 <= y < arr.Length0 && 0 <= x < arr.Length1 && 0 <= ch < arr.Length2 ::
      arr[y, x, ch] ==
        if y == r && cols.0 <= x < cols.1
        then Plus(old(arr[y, x, ch]), Times(colour[ch], glow(y - center.1, x - center.0)))
        else old(arr[y, x, ch])
  {
    var c := cols.0;
    while c < cols.1
      invariant cols.0 <= c <= cols.1
      invariant forall y, x, ch | 0 <= y < arr.Length0 && 0 <= x < arr.Length1 && 0 <= ch < arr.Length2 ::
        arr[y, x, ch] ==
          if y == r && cols.0 <= x < c
          then Plus(old(arr[y, x, ch]), Times(colour[ch], glow(y - center.1, x - center.0)))
          else old(arr[y, x, ch])
    {
      var g := glow(r - center.1, c - center.0);
      AddPixel(arr, r, c, seq(arr.Length2, ch requires 0 <= ch < arr.Length2 => Times(colour[ch], g)));
      c := c + 1;
    }
  }

  /** Line 86 (202): `arr[rows, cols] += colour * glow`, where the glow of a
      cell is the PSF at its offset from the centre, broadcast over the
      channels. Every cell of the window gains exactly that; every other
      cell is unchanged. */
  method AddGlow(arr: array3<Sample>, center: (int, int), rows: (int, int), cols: (int, int),
                 colour: seq<real>, glow: (int, int) -> Sample)
    requires 0 <= rows.0 <= rows.1 <= arr.Length0 && 0 <= cols.0 <= cols.1 <= arr.Length1
    requires |colour| == arr.Length2
    requires forall ch :: 0 <= ch < |colour| ==> colour[ch] > 0.0
    modifies arr
    ensures forall r, c, ch | 0 <= r < arr.Length0 && 0 <= c < arr.Length1 && 0 <= ch < arr.Length2 ::
      arr[r, c, ch] ==
        if rows.0 <= r < rows.1 && cols.0 <= c < cols.1
        then Plus(old(arr[r, c, ch]), Times(colour[ch], glow(r - center.1, c - center.0)))
        else old(arr[r, c, ch])
  {
    var r := rows.0;
    while r < rows.1
      invariant rows.0 <= r <= rows.1
      invariant forall y, x, ch | 0 <= y < arr.Length0 && 0 <= x < arr.Length1 && 0 <= ch < arr.Length2 ::
        arr[y, x, ch] ==
          if rows.0 <= y < r && cols.0 <= x < cols.1
          then Plus(old(arr[y, x, ch]), Times(colour[ch], glow(y - center.1, x - center.0)))
          else old(arr[y, x, ch])
    {
      AddGlowRow(arr, center, r, cols, colour, glow);
      r := r + 1;
    }
  }

  /** The value a glow-square render leaves in cell (r, c, ch) of a
      height x width buffer: the corner markers of a footprint of half-width
      halfSq around center (channel 0 only, when corners are drawn), then
      the gain when the cell lies in the clipped footprint. */
  function GlowCell(before: Sample, center: (int, int), halfSq: int, corners: bool,
                    height: int, width: int, r: int, c: int, ch: int, gain: Sample): Sample
    requires 0 <= center.0 < width && 0 <= center.1 < height && halfSq >= 0
  {
    var rows := Clip(center.1, halfSq, height);
    var cols := Clip(center.0, halfSq, width);
    Composite(before, corners && ch == 0 && IsMarker(r, c, center.0, center.1, halfSq, width, height),
              rows.0 <= r < rows.1 && cols.0 <= c < cols.1, gain)
  }

  /** Lines 74-86: the glow-square render shared by the three variants:
      the optional corner markers, then the additive glow over the footprint
      of half-width halfSq clipped to the buffer. */
  method RenderSquare(arr: array3<Sample>, center: (int, int), halfSq: int, corners: bool,
                      colour: seq<real>, glow: (int, int) -> Sample)
    requires 0 <= center.0 < arr.Length1 && 0 <= center.1 < arr.Length0 && halfSq >= 0
    requires |colour| == arr.Length2 > 0
    requires forall ch :: 0 <= ch < |colour| ==> colour[ch] > 0.0
    requires corners ==> CornerWritesInBounds(center.0, center.1, halfSq, arr.Length1, arr.Length0)
    modifies arr
    ensures forall r, c, ch | 0 <= r < arr.Length0 && 0 <= c < arr.Length1 && 0 <= ch < arr.Length2 ::
      arr[r, c, ch] == GlowCell(old(arr[r, c, ch]), center, halfSq, corners, arr.Length0, arr.Length1, r, c, ch,
                                Times(colour[ch], glow(r - center.1, c - center.0)))
  {
    if corners {
      DrawCorners(arr, center, halfSq);
    }
    var rows := Clip(center.1, halfSq, arr.Length0);
    var cols := Clip(center.0, halfSq, arr.Length1);
    AddGlow(arr, center, rows, cols, colour, glow);
  }

  // ---------------------------------------------------------------------
  // The three draw routines
  // ---------------------------------------------------------------------

  /** Whether a star of green-normalised colour `colour` and brightness br0
      takes the glow path: the negation of line 60's test, so exactly when
      some channel of colour * br0 reaches 1. */
  predicate Glows(colour: seq<real>, br0: real)
    ensures Glows(colour, br0) <==> exists ch :: 0 <= ch < |colour| && colour[ch] * br0 >= 1.0
  {
    var scaled := Scaled(colour, br0);
    assert forall ch :: 0 <= ch < |colour| ==> scaled[ch] == colour[ch] * br0;
    !AllBelowOne(scaled)
  }

  /** A star at brightness 1 or more always takes the glow path: green is
      normalised to exactly 1, so the scaled green channel is never below 1.
      In particular a Vega-coloured star at brightness 1.0 is drawn as a
      glow square, not as a single pixel. */
  lemma BrightStarsGlow(colour0: seq<real>, br0: real)
    requires ValidColour(colour0) && br0 >= 1.0
    ensures Glows(GreenNormalized(colour0), br0)
  {
    var g := GreenNormalized(colour0);
    assert Scaled(g, br0)[1] == br0;
  }

  /** A glow-square render touches nothing outside the footprint square:
      the clipped window lies inside it and, for a half-width of at least
      one, so do the corner markers. */
  lemma RenderConfined(before: Sample, center: (int, int), halfSq: int, corners: bool,
                       height: int, width: int, r: int, c: int, ch: int, gain: Sample)
    requires 0 <= center.0 < width && 0 <= center.1 < height && halfSq >= 0
    requires corners ==> halfSq >= 1
    requires !(center.1 - halfSq <= r <= center.1 + halfSq && center.0 - halfSq <= c <= center.0 + halfSq)
    ensures GlowCell(before, center, halfSq, corners, height, width, r, c, ch, gain) == before
  {
    if corners {
      MarkersInside(center.0, center.1, halfSq, width, height);
    }
  }

  /** The single-pixel path, lines 60-62: the scaled colour is added to the
      centre pixel and nothing else changes. */
  method SinglePixel(arr: array3<Sample>, center: (int, int), scaled: seq<real>)
    requires 0 <= center.0 < arr.Length1 && 0 <= center.1 < arr.Length0 && |scaled| == arr.Length2
    modifies arr
    ensures forall r, c, ch | 0 <= r < arr.Length0 && 0 <= c < arr.Length1 && 0 <= ch < arr.Length2 ::
      arr[r, c, ch] ==
        if r == center.1 && c == center.0 then Plus(old(arr[r, c, ch]), Finite(scaled[ch])) else old(arr[r, c, ch])
  {
    AddPixel(arr, center.1, center.0, seq(arr.Length2, ch requires 0 <= ch < arr.Length2 => Finite(scaled[ch])));
  }

  /** The glow of an Optimized star at a cell offset: the float-valued PSF
      at every cell, as `np.vectorize(PSF_Optimized, otypes=[float])` gives
      it. OptimizedGlowAsWritten is the integer cast of line 48. */
  function OptimizedGlow(s: OptimizedShape, root: int -> real, degreePerPx: real): (glow: (int, int) -> Sample)
    requires s.k != 0.0 && s.h < s.minTheta
    ensures forall dy, dx :: Theta(root, dy, dx, degreePerPx) < s.minTheta ==> glow(dy, dx) == Finite(1.0)
    ensures forall dy, dx :: s.minTheta <= Theta(root, dy, dx, degreePerPx) && s.maxTheta <= Theta(root, dy, dx, degreePerPx) ==>
      glow(dy, dx) == Finite(0.0)
    ensures forall dy, dx :: glow(dy, dx).Finite? && (s.k > 0.0 ==> glow(dy, dx).value >= 0.0)
  {
    (dy: int, dx: int) => Finite(PsfOptimized(Theta(root, dy, dx, degreePerPx), s.minTheta, s.maxTheta, s.h, s.k, s.b))
  }

  /** The centre cell of an Optimized glow (angle 0, inside the overexposed
      core since 0 <= h < min_theta) gains exactly the scaled colour. */
  lemma OptimizedCentreFull(s: OptimizedShape, root: int -> real, degreePerPx: real, scaled: real)
    requires s.k != 0.0 && 0.0 <= s.h < s.minTheta && root(0) == 0.0
    ensures Times(scaled, OptimizedGlow(s, root, degreePerPx)(0, 0)) == Finite(scaled)
  {
    assert Theta(root, 0, 0, degreePerPx) == 0.0;
  }

  /** draw_Optimized. sqrtBr stands for np.sqrt(br0); on the glow path h
      and k stand for the power laws of lines 67-68, sqrtK for np.sqrt(k),
      and root for the per-cell np.sqrt of line 83. The caller's colour
      array is left normalised (green_normalization works on it in place).
      A star whose scaled colour is below 1 in every channel adds that
      colour to its one pixel; otherwise every cell of the clipped footprint
      gains the scaled colour times the Optimized PSF of its angle, on top
      of the corner markers. */
  method DrawOptimized(arr: array3<Sample>, br0: real, color0: array<real>, center: (int, int),
                       degreePerPx: real, corners: bool,
                       sqrtBr: real, h: real, k: real, sqrtK: real, root: int -> real)
    requires arr.Length2 == 3 && color0.Length == 3 && ValidColour(color0[..])
    requires 0 <= center.0 < arr.Length1 && 0 <= center.1 < arr.Length0
    requires degreePerPx > 0.0 && sqrtBr >= 0.0 && sqrtBr * sqrtBr == br0
    requires Glows(GreenNormalized(color0[..]), br0) ==> sqrtK > 0.0 && sqrtK * sqrtK == k && h < OptimizedRadius * sqrtBr
    requires Glows(GreenNormalized(color0[..]), br0) && corners ==>
      CornerWritesInBounds(center.0, center.1, HalfSquare(OptimizedRadius * sqrtBr, degreePerPx), arr.Length1, arr.Length0)
    modifies arr, color0
    ensures color0[..] == Prepared(old(color0[..]))
    ensures !Glows(GreenNormalized(old(color0[..])), br0) ==>
      var scaled := Scaled(GreenNormalized(old(color0[..])), br0);
      forall r, c, ch | 0 <= r < arr.Length0 && 0 <= c < arr.Length1 && 0 <= ch < 3 ::
        arr[r, c, ch] ==
          if r == center.1 && c == center.0 then Plus(old(arr[r, c, ch]), Finite(scaled[ch])) else old(arr[r, c, ch])
    ensures Glows(GreenNormalized(old(color0[..])), br0) ==>
      var scaled := Scaled(GreenNormalized(old(color0[..])), br0);
      var s := OptimizedParams(OptimizedRadius * sqrtBr, h, k, sqrtK);
      forall r, c, ch | 0 <= r < arr.Length0 && 0 <= c < arr.Length1 && 0 <= ch < 3 ::
        arr[r, c, ch] ==
          GlowCell(old(arr[r, c, ch]), center, HalfSquare(s.maxTheta, degreePerPx), corners, arr.Length0, arr.Length1, r, c, ch,
                   Times(scaled[ch], OptimizedGlow(s, root, degreePerPx)(r - center.1, c - center.0)))
  {
    var color := GreenNormalization(color0);
    var scaledColor := Scaled(color, br0);
    if AllBelowOne(scaledColor) {
      // Option 1: single pixel render
      SinglePixel(arr, center, scaledColor);
    } else {
      // Option 2: glow square render
      ScaledPositive(color, br0);
      var maxTheta := OptimizedRadius * sqrtBr;
      var s := OptimizedParams(maxTheta, h, k, sqrtK);
      var halfSq := HalfSquare(maxTheta, degreePerPx);
      RenderSquare(arr, center, halfSq, corners, scaledColor, OptimizedGlow(s, root, degreePerPx));
    }
  }

  /** The glow of a Simplified star at a cell offset, float-valued at
      every cell; SimplifiedGlowAsWritten is the integer cast of line 105. */
  function SimplifiedGlow(s: SimplifiedShape, root: int -> real, degreePerPx: real): (glow: (int, int) -> Sample)
    requires s.maxTheta <= s.minTheta || 0.0 < s.minTheta
    ensures forall dy, dx :: Theta(root, dy, dx, degreePerPx) < s.minTheta ==> glow(dy, dx) == Finite(1.0)
    ensures forall dy, dx :: s.minTheta <= Theta(root, dy, dx, degreePerPx) && s.maxTheta <= Theta(root, dy, dx, degreePerPx) ==>
      glow(dy, dx) == Finite(0.0)
    ensures forall dy, dx :: glow(dy, dx).Finite? && (s.k >= 0.0 ==> glow(dy, dx).value >= 0.0)
  {
    (dy: int, dx: int) => Finite(PsfSimplified(Theta(root, dy, dx, degreePerPx), s.minTheta, s.maxTheta, s.k))
  }

  /** The centre cell of a Simplified glow of positive radius gains exactly
      the scaled colour: min_theta is positive, so angle 0 is overexposed. */
  lemma SimplifiedCentreFull(s: SimplifiedShape, root: int -> real, degreePerPx: real, scaled: real)
    requires 0.0 < s.minTheta && root(0) == 0.0
    ensures Times(scaled, SimplifiedGlow(s, root, degreePerPx)(0, 0)) == Finite(scaled)
  {
    assert Theta(root, 0, 0, degreePerPx) == 0.0;
  }

  /** draw_Simplified: as draw_Optimized, with max_theta = 0.2 sqrt(br0),
      k standing on the glow path for the power law of line 124, sqrtK for
      k^1/2, and the Simplified PSF. */
  method DrawSimplified(arr: array3<Sample>, br0: real, color0: array<real>, center: (int, int),
                        degreePerPx: real, corners: bool,
                        sqrtBr: real, k: real, sqrtK: real, root: int -> real)
    requires arr.Length2 == 3 && color0.Length == 3 && ValidColour(color0[..])
    requires 0 <= center.0 < arr.Length1 && 0 <= center.1 < arr.Length0
    requires degreePerPx > 0.0 && sqrtBr >= 0.0 && sqrtBr * sqrtBr == br0
    requires Glows(GreenNormalized(color0[..]), br0) ==> sqrtK > 0.0 && sqrtK * sqrtK == k
    requires Glows(GreenNormalized(color0[..]), br0) && corners ==>
      CornerWritesInBounds(center.0, center.1, HalfSquare(SimplifiedRadius * sqrtBr, degreePerPx), arr.Length1, arr.Length0)
    modifies arr, color0
    ensures color0[..] == Prepared(old(color0[..]))
    ensures !Glows(GreenNormalized(old(color0[..])), br0) ==>
      var scaled := Scaled(GreenNormalized(old(color0[..])), br0);
      forall r, c, ch | 0 <= r < arr.Length0 && 0 <= c < arr.Length1 && 0 <= ch < 3 ::
        arr[r, c, ch] ==
          if r == center.1 && c == center.0 then Plus(old(arr[r, c, ch]), Finite(scaled[ch])) else old(arr[r, c, ch])
    ensures Glows(GreenNormalized(old(color0[..])), br0) ==>
      var scaled := Scaled(GreenNormalized(old(color0[..])), br0);
      var s := SimplifiedParams(SimplifiedRadius * sqrtBr, k, sqrtK);
      forall r, c, ch | 0 <= r < arr.Length0 && 0 <= c < arr.Length1 && 0 <= ch < 3 ::
        arr[r, c, ch] ==
          GlowCell(old(arr[r, c, ch]), center, HalfSquare(s.maxTheta, degreePerPx), corners, arr.Length0, arr.Length1, r, c, ch,
                   Times(scaled[ch], SimplifiedGlow(s, root, degreePerPx)(r - center.1, c - center.0)))
  {
    var color := GreenNormalization(color0);
    var scaledColor := Scaled(color, br0);
    if AllBelowOne(scaledColor) {
      // Option 1: single pixel render
      SinglePixel(arr, center, scaledColor);
    } else {
      // Option 2: glow square render
      ScaledPositive(color, br0);
      var maxTheta := SimplifiedRadius * sqrtBr;
      var s := SimplifiedParams(maxTheta, k, sqrtK);
      var halfSq := HalfSquare(maxTheta, degreePerPx);
      RenderSquare(arr, center, halfSq, corners, scaledColor, SimplifiedGlow(s, root, degreePerPx));
    }
  }

  // ---------------------------------------------------------------------
  // The glow as np.vectorize types it (lines 48 and 105)
  // ---------------------------------------------------------------------

  /** Storing a float into an integer numpy array truncates it toward zero. */
  function TowardZero(x: real): (n: int)
    ensures 0.0 <= x ==> 0 <= n && n as real <= x < n as real + 1.0
    ensures x < 0.0 ==> n <= 0 && x <= n as real < x + 1.0
  {
    if x >= 0.0 then x.Floor else -((-x).Floor)
  }

  /** np.vectorize without `otypes` takes the output dtype from the value
      the wrapped function returns for the first grid cell. When that value
      is the Python int 1 of the overexposed branch, the glow array is
      integer and every value in it is truncated toward zero. */
  function VectorizedCast(v: real, intTyped: bool): (r: real)
    ensures !intTyped ==> r == v
    ensures intTyped && 0.0 <= v < 1.0 ==> r == 0.0
    ensures intTyped && v == 1.0 ==> r == 1.0
  {
    if intTyped then TowardZero(v) as real else v
  }

  /** The Optimized glow as lines 48 and 84 compute it, where first is the
      offset (y_min, x_min) of the first grid cell: the float glow when that
      cell's angle is at least min_theta, and the float glow truncated
      toward zero when it is below. */
  function OptimizedGlowAsWritten(s: OptimizedShape, root: int -> real, degreePerPx: real,
                                  first: (int, int)): (glow: (int, int) -> Sample)
    requires s.k != 0.0 && s.h < s.minTheta
    ensures Theta(root, first.0, first.1, degreePerPx) >= s.minTheta ==>
      forall dy, dx :: glow(dy, dx) == OptimizedGlow(s, root, degreePerPx)(dy, dx)
    ensures Theta(root, first.0, first.1, degreePerPx) < s.minTheta ==>
      forall dy, dx :: glow(dy, dx) == Finite(TowardZero(OptimizedGlow(s, root, degreePerPx)(dy, dx).value) as real)
  {
    var intTyped := Theta(root, first.0, first.1, degreePerPx) < s.minTheta;
    (dy: int, dx: int) =>
      Finite(VectorizedCast(PsfOptimized(Theta(root, dy, dx, degreePerPx), s.minTheta, s.maxTheta, s.h, s.k, s.b), intTyped))
  }

  /** The Simplified glow as lines 105 and 141 compute it: the float glow,
      truncated toward zero when the first grid cell's angle is below
      min_theta. */
  function SimplifiedGlowAsWritten(s: SimplifiedShape, root: int -> real, degreePerPx: real,
                                   first: (int, int)): (glow: (int, int) -> Sample)
    requires s.maxTheta <= s.minTheta || 0.0 < s.minTheta
    ensures Theta(root, first.0, first.1, degreePerPx) >= s.minTheta ==>
      forall dy, dx :: glow(dy, dx) == SimplifiedGlow(s, root, degreePerPx)(dy, dx)
    ensures Theta(root, first.0, first.1, degreePerPx) < s.minTheta ==>
      forall dy, dx :: glow(dy, dx) == Finite(TowardZero(SimplifiedGlow(s, root, degreePerPx)(dy, dx).value) as real)
  {
    var intTyped := Theta(root, first.0, first.1, degreePerPx) < s.minTheta;
    (dy: int, dx: int) =>
      Finite(VectorizedCast(PsfSimplified(Theta(root, dy, dx, degreePerPx), s.minTheta, s.maxTheta, s.k), intTyped))
  }

  /** As written, the Optimized glow is the PSF when the first grid cell
      lies outside the overexposed core. When it lies inside, every cell
      keeps 1 where the PSF is 1 and 0 everywhere else: the whole falloff
      ring is lost. */
  lemma OptimizedGlowCast(maxTheta: real, h: real, k: real, sqrtK: real, root: int -> real,
                          degreePerPx: real, first: (int, int), dy: int, dx: int)
    requires sqrtK > 0.0 && sqrtK * sqrtK == k && h < maxTheta
    ensures var s := OptimizedParams(maxTheta, h, k, sqrtK);
      var g := OptimizedGlow(s, root, degreePerPx)(dy, dx);
      var w := OptimizedGlowAsWritten(s, root, degreePerPx, first)(dy, dx);
      (Theta(root, first.0, first.1, degreePerPx) >= s.minTheta ==> w == g) &&
      (Theta(root, first.0, first.1, degreePerPx) < s.minTheta ==> w == Finite(if g == Finite(1.0) then 1.0 else 0.0))
  {
    var t := Theta(root, dy, dx, degreePerPx);
    PsfOptimizedFalls(maxTheta, h, k, sqrtK, t, t);
  }

  /** The same for the Simplified glow. */
  lemma SimplifiedGlowCast(maxTheta: real, k: real, sqrtK: real, root: int -> real,
                           degreePerPx: real, first: (int, int), dy: int, dx: int)
    requires sqrtK > 0.0 && sqrtK * sqrtK == k
    ensures var s := SimplifiedParams(maxTheta, k, sqrtK);
      var g := SimplifiedGlow(s, root, degreePerPx)(dy, dx);
      var w := SimplifiedGlowAsWritten(s, root, degreePerPx, first)(dy, dx);
      (Theta(root, first.0, first.1, degreePerPx) >= s.minTheta ==> w == g) &&
      (Theta(root, first.0, first.1, degreePerPx) < s.minTheta ==> w == Finite(if g == Finite(1.0) then 1.0 else 0.0))
  {
    if maxTheta > 0.0 {
      var t := Theta(root, dy, dx, degreePerPx);
      PsfSimplifiedFalls(maxTheta, k, sqrtK, t, t);
    }
  }

  /** A star at the top-left corner of the buffer: its first grid cell is
      the centre itself, at angle 0 inside the core, so the Optimized glow
      is cast to integers. With max_theta = 2, h = 0.0137 and k = 447^2
      (close to what lines 67-68 give for max_theta = 2) and 0.05 degrees
      per pixel, cell (row 0, column 1) lies in the window and should gain
      about 0.0144 of the scaled colour, but gains 0. */
  lemma OptimizedCornerStarLosesRing(root: int -> real, height: int, width: int)
    requires root(0) == 0.0 && root(1) == 1.0 && height >= 1 && width >= 2
    ensures var s := OptimizedParams(2.0, 0.0137, 199809.0, 447.0);
      var halfSq := HalfSquare(2.0, 0.05);
      1 < Clip(0, halfSq, width).1 &&
      0.0144 < OptimizedGlow(s, root, 0.05)(0, 1).value < 0.0145 &&
      OptimizedGlowAsWritten(s, root, 0.05, FirstOffset((0, 0), halfSq, height, width))(0, 1) == Finite(0.0)
  {
    var s := OptimizedParams(2.0, 0.0137, 199809.0, 447.0);
    assert s.b == 1.9863 && s.minTheta == 0.0137 + 1.9863 / 448.0;
    assert HalfSquare(2.0, 0.05) == 40;
    assert Theta(root, 0, 1, 0.05) == 0.05;
    assert 1.9863 / 0.0363 == 6621.0 / 121.0;
    assert Bracket(1.9863, 0.0363) == 42250000.0 / 14641.0;
  }

  /** The same corner star drawn with the Simplified PSF: with
      max_theta = 2 (br0 = 100) and k = 0.0024^2, close to the
      5.8 * 10^-6 that line 124 gives, cell (row 0, column 1) should gain
      about 0.0088 of the scaled colour, but gains 0. */
  lemma SimplifiedCornerStarLosesRing(root: int -> real, height: int, width: int)
    requires root(0) == 0.0 && root(1) == 1.0 && height >= 1 && width >= 2
    ensures var s := SimplifiedParams(2.0, 0.00000576, 0.0024);
      var halfSq := HalfSquare(2.0, 0.05);
      1 < Clip(0, halfSq, width).1 &&
      SimplifiedGlow(s, root, 0.05)(0, 1) == Finite(0.00876096) &&
      SimplifiedGlowAsWritten(s, root, 0.05, FirstOffset((0, 0), halfSq, height, width))(0, 1) == Finite(0.0)
  {
    var s := SimplifiedParams(2.0, 0.00000576, 0.0024);
    assert s.minTheta == 2.0 / (1.0 / 0.0024 + 1.0);
    assert HalfSquare(2.0, 0.05) == 40;
    assert Theta(root, 0, 1, 0.05) == 0.05;
    assert Bracket(2.0, 0.05) == 1521.0;
  }

  /** The glow of a Bounded star at a cell offset: infinite exactly at
      angle 0, and never negative elsewhere. */
  function BoundedGlow(maxTheta: real, root: int -> real, degreePerPx: real): (glow: (int, int) -> Sample)
    ensures forall dy, dx :: glow(dy, dx).Infinity? <==> Theta(root, dy, dx, degreePerPx) == 0.0
    ensures forall dy, dx :: glow(dy, dx).Finite? ==> glow(dy, dx).value >= 0.0
  {
    (dy: int, dx: int) => PsfBounded(Theta(root, dy, dx, degreePerPx), maxTheta)
  }

  /** The centre of a Bounded glow is infinite whatever was there and
      whether or not it is a corner marker: its angle is 0, where PSF_Bounded
      returns infinity, and infinity absorbs the sum. */
  lemma BoundedCentreInfinite(before: Sample, center: (int, int), halfSq: int, corners: bool,
                              height: int, width: int, ch: int, colour: real,
                              maxTheta: real, root: int -> real, degreePerPx: real)
    requires 0 <= center.0 < width && 0 <= center.1 < height && halfSq >= 0
    requires colour > 0.0 && root(0) == 0.0
    ensures GlowCell(before, center, halfSq, corners, height, width, center.1, center.0, ch,
                     Times(colour, BoundedGlow(maxTheta, root, degreePerPx)(0, 0))) == Infinity
  {
    assert Theta(root, 0, 0, degreePerPx) == 0.0;
  }

  /** draw_Bounded. On the glow path the dimmed brightness is
      arctan(br0 / max_br) * max_br with arctan given, and sqrtDimmed stands
      for its square root. The single-pixel test uses the scaled colour, but
      the glow adds the unscaled colour times the Bounded PSF, and the centre
      of the glow becomes infinite in every channel. */
  method DrawBounded(arr: array3<Sample>, br0: real, color0: array<real>, center: (int, int),
                     degreePerPx: real, corners: bool, maxBr: real,
                     arctan: real -> real, sqrtDimmed: real, root: int -> real)
    requires arr.Length2 == 3 && color0.Length == 3 && ValidColour(color0[..])
    requires 0 <= center.0 < arr.Length1 && 0 <= center.1 < arr.Length0
    requires degreePerPx > 0.0
    requires Glows(GreenNormalized(color0[..]), br0) ==>
      maxBr != 0.0 && sqrtDimmed >= 0.0 && sqrtDimmed * sqrtDimmed == arctan(br0 / maxBr) * maxBr
    requires Glows(GreenNormalized(color0[..]), br0) && corners ==>
      CornerWritesInBounds(center.0, center.1, HalfSquare(BoundedA * sqrtDimmed, degreePerPx), arr.Length1, arr.Length0)
    modifies arr, color0
    ensures color0[..] == Prepared(old(color0[..]))
    ensures !Glows(GreenNormalized(old(color0[..])), br0) ==>
      var scaled := Scaled(GreenNormalized(old(color0[..])), br0);
      forall r, c, ch | 0 <= r < arr.Length0 && 0 <= c < arr.Length1 && 0 <= ch < 3 ::
        arr[r, c, ch] ==
          if r == center.1 && c == center.0 then Plus(old(arr[r, c, ch]), Finite(scaled[ch])) else old(arr[r, c, ch])
    ensures Glows(GreenNormalized(old(color0[..])), br0) ==>
      var colour := GreenNormalized(old(color0[..]));
      var maxTheta := BoundedA * sqrtDimmed;
      forall r, c, ch | 0 <= r < arr.Length0 && 0 <= c < arr.Length1 && 0 <= ch < 3 ::
        arr[r, c, ch] ==
          GlowCell(old(arr[r, c, ch]), center, HalfSquare(maxTheta, degreePerPx), corners, arr.Length0, arr.Length1, r, c, ch,
                   Times(colour[ch], BoundedGlow(maxTheta, root, degreePerPx)(r - center.1, c - center.0)))
    ensures Glows(GreenNormalized(old(color0[..])), br0) && root(0) == 0.0 ==>
      forall ch | 0 <= ch < 3 :: arr[center.1, center.0, ch] == Infinity
  {
    var color := GreenNormalization(color0);
    var scaledColor := Scaled(color, br0);
    if AllBelowOne(scaledColor) {
      // Option 1: single pixel render
      SinglePixel(arr, center, scaledColor);
    } else {
      // Option 2: glow square render
      var maxTheta := BoundedA * sqrtDimmed;
      var halfSq := HalfSquare(maxTheta, degreePerPx);
      RenderSquare(arr, center, halfSq, corners, color, BoundedGlow(maxTheta, root, degreePerPx));
      if root(0) == 0.0 {
        forall ch | 0 <= ch < 3 ensures arr[center.1, center.0, ch] == Infinity {
          BoundedCentreInfinite(old(arr[center.1, center.0, ch]), center, halfSq, corners, arr.Length0, arr.Length1,
                                ch, color[ch], maxTheta, root, degreePerPx);
        }
      }
    }
  }
}
