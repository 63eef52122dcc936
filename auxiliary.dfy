/** The helpers of auxiliary.py that the glow engine uses: colour
    normalisation by the green channel, the diagnostic corner markers, and
    nearest-neighbour upscaling of the finished image. */
module Auxiliary {
  import opened Light

  /** The smallest ratio of the minimum colour component to the maximum
      that is left alone by the desaturation step. */
  const ColorSaturationLimit: real := 0.1

  // ---------------------------------------------------------------------
  // Colour normalisation (green_normalization)
  // ---------------------------------------------------------------------

  /** The largest component (numpy's `max`). */
  function Max(s: seq<real>): (m: real)
    requires |s| > 0
    ensures m in s
    ensures forall i :: 0 <= i < |s| ==> s[i] <= m
  {
    if |s| == 1 then s[0]
    else
      var rest := Max(s[1..]);
      assert forall i :: 1 <= i < |s| ==> s[i] == s[1..][i - 1];
      if s[0] >= rest then s[0] else rest
  }

  /** The smallest component (numpy's `min`). */
  function Min(s: seq<real>): (m: real)
    requires |s| > 0
    ensures m in s
    ensures forall i :: 0 <= i < |s| ==> m <= s[i]
  {
    if |s| == 1 then s[0]
    else
      var rest := Min(s[1..]);
      assert forall i :: 1 <= i < |s| ==> s[i] == s[1..][i - 1];
      if s[0] <= rest then s[0] else rest
  }

  /** `color / d`, componentwise. */
  function Divided(s: seq<real>, d: real): seq<real>
    requires d != 0.0
  {
    seq(|s|, i requires 0 <= i < |s| => s[i] / d)
  }

  /** One component pushed toward white by `delta` times its squared deficit. */
  function Push(c: real, delta: real): real
  {
    c + delta * (1.0 - c) * (1.0 - c)
  }

  /** The desaturation step: it runs only when the smallest component is
      below the saturation limit, leaves a colour already at the limit
      alone, and never lowers a component. */
  function Desaturated(s: seq<real>): (r: seq<real>)
    requires |s| > 0
    ensures |r| == |s|
    ensures Min(s) >= ColorSaturationLimit ==> r == s
    ensures forall i :: 0 <= i < |s| ==> s[i] <= r[i]
  {
    var delta := ColorSaturationLimit - Min(s);
    if delta > 0.0 then
      assert forall i :: 0 <= i < |s| ==> s[i] <= Push(s[i], delta) by {
        forall i | 0 <= i < |s| ensures s[i] <= Push(s[i], delta) {
          PushRaises(s[i], delta);
        }
      }
      seq(|s|, i requires 0 <= i < |s| => Push(s[i], delta))
    else s
  }

  /** White stays white under a push. */
  lemma PushFixesOne(delta: real)
    ensures Push(1.0, delta) == 1.0
  {
  }

  /** A push by a positive delta never lowers a component. */
  lemma PushRaises(c: real, delta: real)
    requires delta > 0.0
    ensures c <= Push(c, delta)
  {
    var u := 1.0 - c;
    NonNegativeProduct(delta, u * u);
    assert delta * u * u == delta * (u * u);
  }

  /** What green_normalization accepts: at least a red and a green
      component, none negative, not all zero. */
  predicate ValidColour(s: seq<real>)
  {
    |s| >= 2 && (forall i :: 0 <= i < |s| ==> s[i] >= 0.0) && Max(s) > 0.0
  }

  /** The state green_normalization leaves its argument in: divided by its
      maximum, then desaturated. The largest component ends at exactly 1. */
  function Prepared(s: seq<real>): (p: seq<real>)
    requires ValidColour(s)
    ensures |p| == |s|
    ensures forall i :: 0 <= i < |s| && s[i] == Max(s) ==> p[i] == 1.0
  {
    var m := Max(s);
    var d := Divided(s, m);
    DivideSelf(m);
    assert forall i :: 0 <= i < |s| && s[i] == m ==> d[i] == 1.0;
    PushFixesOne(ColorSaturationLimit - Min(d));
    Desaturated(d)
  }

  /** The value green_normalization returns: the prepared colour divided by
      its green component, so green is exactly 1 and every component stays
      positive. */
  function GreenNormalized(s: seq<real>): (g: seq<real>)
    requires ValidColour(s)
    ensures |g| == |s| && g[1] == 1.0
    ensures forall i :: 0 <= i < |g| ==> g[i] > 0.0
  {
    var p := Prepared(s);
    PreparedInUnit(s);
    AnchoredAt(p, 1);
    Divided(p, p[1])
  }

  /** Dividing a valid colour by its maximum puts every component in [0, 1]
      and makes the maximum exactly 1. */
  lemma DividedByMaxPeaks(s: seq<real>)
    requires ValidColour(s)
    ensures var d := Divided(s, Max(s));
      (forall i :: 0 <= i < |d| ==> 0.0 <= d[i] <= 1.0) && Max(d) == 1.0
  {
    var m := Max(s);
    var d := Divided(s, m);
    forall i | 0 <= i < |d| ensures 0.0 <= d[i] <= 1.0 {
      DivideBelow(s[i], m);
    }
    var j :| 0 <= j < |s| && s[j] == m;
    assert d[j] == 1.0 by {
      assert d[j] == m / m;
      DivideSelf(m);
    }
    assert Max(d) >= d[j];
  }

  lemma DivideSelf(m: real)
    requires m != 0.0
    ensures m / m == 1.0
  {
  }

  lemma DivideBelow(x: real, m: real)
    requires 0.0 <= x <= m && m > 0.0
    ensures 0.0 <= x / m <= 1.0
  {
    assert x / m * m == x;
  }

  /** One desaturation push keeps a component in [0, 1], never lowers it,
      leaves 1 at 1 and makes 0 positive. */
  lemma PushBounds(c: real, delta: real)
    requires 0.0 <= c <= 1.0 && 0.0 < delta <= ColorSaturationLimit
    ensures c <= Push(c, delta) <= 1.0
    ensures Push(c, delta) > 0.0
    ensures c == 1.0 ==> Push(c, delta) == 1.0
  {
    var u := 1.0 - c;
    assert 0.0 <= u <= 1.0;
    assert 0.0 <= delta * u <= 1.0 by {
      assert delta * u <= ColorSaturationLimit * u;
    }
    assert delta * u * u <= u by {
      assert delta * u * u <= 1.0 * u;
    }
    assert Push(c, delta) == 1.0 - u + delta * u * u;
    assert delta * u * u >= 0.0;
    if c == 0.0 {
      assert Push(c, delta) == delta;
    }
  }

  /** The desaturation push preserves the order of components. */
  lemma PushMonotone(c1: real, c2: real, delta: real)
    requires 0.0 <= c1 <= c2 <= 1.0 && 0.0 < delta <= ColorSaturationLimit
    ensures Push(c1, delta) <= Push(c2, delta)
  {
    var gap := c2 - c1;
    var w := 2.0 - c1 - c2;
    assert 0.0 <= w <= 2.0;
    NonNegativeProduct(delta, 2.0 - w);
    assert delta * 2.0 - delta * w == delta * (2.0 - w);
    assert 1.0 - delta * w >= 0.0;
    NonNegativeProduct(gap, 1.0 - delta * w);
    assert Push(c2, delta) - Push(c1, delta) == gap * (1.0 - delta * w);
  }

  lemma NonNegativeProduct(u: real, v: real)
    requires u >= 0.0 && v >= 0.0
    ensures u * v >= 0.0
  {
  }

  /** Desaturation of components in [0, 1]: every component stays in
      (0, 1] and never decreases, a component equal to 1 stays 1, and the
      order of components is preserved. */
  lemma DesaturatedStaysInUnit(s: seq<real>)
    requires |s| > 0 && forall i :: 0 <= i < |s| ==> 0.0 <= s[i] <= 1.0
    ensures var r := Desaturated(s);
      && |r| == |s|
      && (forall i :: 0 <= i < |s| ==> s[i] <= r[i] <= 1.0 && r[i] > 0.0)
      && (forall i :: 0 <= i < |s| && s[i] == 1.0 ==> r[i] == 1.0)
      && (forall i, j :: 0 <= i < |s| && 0 <= j < |s| && s[i] <= s[j] ==> r[i] <= r[j])
  {
    var delta := ColorSaturationLimit - Min(s);
    if delta > 0.0 {
      assert delta <= ColorSaturationLimit;
      var r := Desaturated(s);
      forall i | 0 <= i < |s| ensures s[i] <= r[i] <= 1.0 && r[i] > 0.0 && (s[i] == 1.0 ==> r[i] == 1.0) {
        PushBounds(s[i], delta);
      }
      forall i, j | 0 <= i < |s| && 0 <= j < |s| && s[i] <= s[j] ensures r[i] <= r[j] {
        PushMonotone(s[i], s[j], delta);
      }
    } else {
      assert forall i :: 0 <= i < |s| ==> s[i] >= Min(s) >= ColorSaturationLimit;
    }
  }

  /** After the in-place steps the colour lies in (0, 1] componentwise and
      its maximum component is exactly 1. */
  lemma PreparedInUnit(s: seq<real>)
    requires ValidColour(s)
    ensures var p := Prepared(s);
      && |p| == |s|
      && (forall i :: 0 <= i < |p| ==> 0.0 < p[i] <= 1.0)
      && Max(p) == 1.0
  {
    var d := Divided(s, Max(s));
    DividedByMaxPeaks(s);
    DesaturatedStaysInUnit(d);
    var p := Desaturated(d);
    var j :| 0 <= j < |d| && d[j] == Max(d);
    assert p[j] == 1.0;
    assert Max(p) >= p[j];
  }

  /** Dividing a positive colour by its component j makes that component
      exactly 1 and keeps every component positive. */
  lemma AnchoredAt(p: seq<real>, j: int)
    requires 0 <= j < |p| && forall i :: 0 <= i < |p| ==> p[i] > 0.0
    ensures var g := Divided(p, p[j]);
      |g| == |p| && g[j] == 1.0 && forall i :: 0 <= i < |g| ==> g[i] > 0.0
  {
    var g := Divided(p, p[j]);
    forall i | 0 <= i < |g| ensures g[i] > 0.0 {
      DividePositive(p[i], p[j]);
    }
    DivideSelf(p[j]);
  }

  /** green_normalization keeps the order of the input's components: the
      hue ordering of red, green and blue survives normalisation. */
  lemma GreenNormalizedKeepsOrder(s: seq<real>, i: int, j: int)
    requires ValidColour(s)
    requires 0 <= i < |s| && 0 <= j < |s| && s[i] <= s[j]
    ensures |GreenNormalized(s)| == |s|
    ensures GreenNormalized(s)[i] <= GreenNormalized(s)[j]
  {
    var m := Max(s);
    var d := Divided(s, m);
    DividedByMaxPeaks(s);
    DesaturatedStaysInUnit(d);
    PreparedInUnit(s);
    var p := Prepared(s);
    DivideMonotone(s[i], s[j], m);
    assert d[i] <= d[j];
    assert p[i] <= p[j];
    DivideMonotone(p[i], p[j], p[1]);
    assert GreenNormalized(s) == Divided(p, p[1]);
  }

  lemma DividePositive(x: real, d: real)
    requires x > 0.0 && d > 0.0
    ensures x / d > 0.0
  {
  }

  lemma DivideMonotone(x: real, y: real, d: real)
    requires x <= y && d > 0.0
    ensures x / d <= y / d
  {
    assert y / d - x / d == (y - x) / d;
  }

  /** A saturated colour that the first call desaturates is desaturated
      again by a second call on the same (mutated) array: the argument does
      not reach a fixed point, and the second call returns a different
      colour from the first, so two draws that share one colour array get
      different colours. */
  lemma RepeatedNormalizationDrifts()
    ensures ValidColour([0.05, 1.0, 1.0])
    ensures ValidColour(Prepared([0.05, 1.0, 1.0]))
    ensures Prepared(Prepared([0.05, 1.0, 1.0])) != Prepared([0.05, 1.0, 1.0])
    ensures GreenNormalized(Prepared([0.05, 1.0, 1.0])) != GreenNormalized([0.05, 1.0, 1.0])
  {
    var s := [0.05, 1.0, 1.0];
    assert Max(s[2..]) == 1.0;
    assert Max(s[1..]) == 1.0;
    assert Max(s) == 1.0;
    var d := Divided(s, 1.0);
    assert d == s;
    assert Min(s[2..]) == 1.0;
    assert Min(s[1..]) == 1.0;
    assert Min(s) == 0.05;
    var p := Prepared(s);
    assert p == [Push(0.05, 0.05), 1.0, 1.0];
    assert p[0] == 0.095125;
    assert Max(p[2..]) == 1.0;
    assert Max(p[1..]) == 1.0;
    assert Max(p) == 1.0;
    assert ValidColour(p);
    assert Divided(p, 1.0) == p;
    assert Min(p[2..]) == 1.0;
    assert Min(p[1..]) == 1.0;
    assert Min(p) == 0.095125;
    var q := Prepared(p);
    assert q[0] == Push(0.095125, ColorSaturationLimit - 0.095125);
    assert q[0] != p[0];
    assert q[1] == 1.0;
    assert GreenNormalized(p)[0] == q[0];
    assert GreenNormalized(s)[0] == p[0];
  }

  /** Line 10: `color /= color.max()`, in place. */
  method DivideInPlace(color: array<real>, m: real)
    requires m != 0.0
    modifies color
    ensures color[..] == Divided(old(color[..]), m)
  {
    var i := 0;
    while i < color.Length
      invariant 0 <= i <= color.Length
      invariant forall j :: 0 <= j < i ==> color[j] == old(color[j]) / m
      invariant forall j :: i <= j < color.Length ==> color[j] == old(color[j])
    {
      color[i] := color[i] / m;
      i := i + 1;
    }
  }

  /** Lines 11-13: when the smallest component is below the saturation
      limit, `color += delta * (1 - color)**2`, in place. */
  method DesaturateInPlace(color: array<real>)
    requires color.Length > 0
    modifies color
    ensures color[..] == Desaturated(old(color[..]))
  {
    var delta := ColorSaturationLimit - Min(color[..]);
    if delta > 0.0 {
      var i := 0;
      while i < color.Length
        invariant 0 <= i <= color.Length
        invariant forall j :: 0 <= j < i ==> color[j] == Push(old(color[j]), delta)
        invariant forall j :: i <= j < color.Length ==> color[j] == old(color[j])
      {
        color[i] := Push(color[i], delta);
        i := i + 1;
      }
      assert color[..] == seq(color.Length, j requires 0 <= j < color.Length => Push(old(color[..])[j], delta));
    }
  }

  /** green_normalization: divides the caller's array by its maximum in
      place, desaturates it in place when its smallest component is below
      the limit, and returns the array divided by its green component. */
  method GreenNormalization(color: array<real>) returns (r: seq<real>)
    requires ValidColour(color[..])
    modifies color
    ensures color[..] == Prepared(old(color[..]))
    ensures r == GreenNormalized(old(color[..]))
  {
    ghost var s := color[..];
    DivideInPlace(color, Max(color[..]));
    DesaturateInPlace(color);
    PreparedInUnit(s);
    r := Divided(color[..], color[1]);
  }

  // ---------------------------------------------------------------------
  // Diagnostic corner markers (draw_corners)
  // ---------------------------------------------------------------------

  /** Whether cell (r, c) is one of the three cells marked around a corner
      at column i, row j: the corner, its neighbour di columns over and its
      neighbour dj rows over (di, dj point back toward the star). */
  predicate InCorner(r: int, c: int, i: int, j: int, di: int, dj: int)
  {
    (r == j && (c == i || c == i + di)) || (r == j + dj && c == i)
  }

  /** The bounds test draw_corners applies to a corner: strict on both
      sides, so row 0 and column 0 never hold a marked corner. */
  predicate CornerShown(i: int, j: int, width: int, hight: int)
  {
    0 < i < width && 0 < j < hight
  }

  /** Whether cell (r, c) is marked for one corner: the corner passes the
      bounds test and the cell is one of its three. */
  predicate ShownCell(r: int, c: int, i: int, j: int, di: int, dj: int, width: int, hight: int)
  {
    CornerShown(i, j, width, hight) && InCorner(r, c, i, j, di, dj)
  }

  /** Whether draw_corners marks cell (r, c) for a footprint of half-width
      halfSq centred on column cx, row cy: one of its four `if` statements
      covers it. */
  predicate IsMarker(r: int, c: int, cx: int, cy: int, halfSq: int, width: int, hight: int)
  {
    || ShownCell(r, c, cx - halfSq, cy - halfSq, 1, 1, width, hight)
    || ShownCell(r, c, cx - halfSq, cy + halfSq, 1, -1, width, hight)
    || ShownCell(r, c, cx + halfSq, cy - halfSq, -1, 1, width, hight)
    || ShownCell(r, c, cx + halfSq, cy + halfSq, -1, -1, width, hight)
  }

  /** No marker write indexes past the buffer; when this fails, draw_corners
      raises IndexError instead. */
  ghost predicate CornerWritesInBounds(cx: int, cy: int, halfSq: int, width: int, hight: int)
  {
    forall r, c :: IsMarker(r, c, cx, cy, halfSq, width, hight) ==> 0 <= r < hight && 0 <= c < width
  }

  /** The neighbour writes of one corner stay in the buffer whenever the
      corner passes its test. */
  predicate CornerFits(i: int, j: int, di: int, dj: int, width: int, hight: int)
  {
    CornerShown(i, j, width, hight) ==> 0 <= i + di < width && 0 <= j + dj < hight
  }

  /** draw_corners stays in the buffer exactly when each of the four shown
      corners has its two neighbours in the buffer: only a neighbour one
      past the last row or column can fall outside. */
  lemma CornerWritesInBoundsIff(cx: int, cy: int, halfSq: int, width: int, hight: int)
    ensures CornerWritesInBounds(cx, cy, halfSq, width, hight) <==>
      && CornerFits(cx - halfSq, cy - halfSq, 1, 1, width, hight)
      && CornerFits(cx - halfSq, cy + halfSq, 1, -1, width, hight)
      && CornerFits(cx + halfSq, cy - halfSq, -1, 1, width, hight)
      && CornerFits(cx + halfSq, cy + halfSq, -1, -1, width, hight)
  {
    if CornerWritesInBounds(cx, cy, halfSq, width, hight) {
      assert IsMarker(cy - halfSq, cx - halfSq + 1, cx, cy, halfSq, width, hight) ==> cx - halfSq + 1 < width;
      assert IsMarker(cy - halfSq + 1, cx - halfSq, cx, cy, halfSq, width, hight) ==> cy - halfSq + 1 < hight;
      assert IsMarker(cy + halfSq, cx - halfSq + 1, cx, cy, halfSq, width, hight) ==> cx - halfSq + 1 < width;
      assert IsMarker(cy + halfSq - 1, cx - halfSq, cx, cy, halfSq, width, hight) ==> cy + halfSq - 1 >= 0;
      assert IsMarker(cy - halfSq, cx + halfSq - 1, cx, cy, halfSq, width, hight) ==> cx + halfSq - 1 >= 0;
      assert IsMarker(cy - halfSq + 1, cx + halfSq, cx, cy, halfSq, width, hight) ==> cy - halfSq + 1 < hight;
      assert IsMarker(cy + halfSq, cx + halfSq - 1, cx, cy, halfSq, width, hight) ==> cx + halfSq - 1 >= 0;
      assert IsMarker(cy + halfSq - 1, cx + halfSq, cx, cy, halfSq, width, hight) ==> cy + halfSq - 1 >= 0;
    }
  }

  /** A corner pixel itself is marked exactly when it passes the strict
      bounds test, for each of the four corners. */
  lemma CornerMarkedIff(cx: int, cy: int, halfSq: int, width: int, hight: int)
    requires halfSq >= 0
    ensures IsMarker(cy - halfSq, cx - halfSq, cx, cy, halfSq, width, hight) <==> CornerShown(cx - halfSq, cy - halfSq, width, hight)
    ensures IsMarker(cy + halfSq, cx - halfSq, cx, cy, halfSq, width, hight) <==> CornerShown(cx - halfSq, cy + halfSq, width, hight)
    ensures IsMarker(cy - halfSq, cx + halfSq, cx, cy, halfSq, width, hight) <==> CornerShown(cx + halfSq, cy - halfSq, width, hight)
    ensures IsMarker(cy + halfSq, cx + halfSq, cx, cy, halfSq, width, hight) <==> CornerShown(cx + halfSq, cy + halfSq, width, hight)
  {
  }

  /** With a centre inside the buffer and a half-width of at least one,
      every marker lies inside the buffer and inside the footprint square
      (each neighbour is the inward one). */
  lemma MarkersInside(cx: int, cy: int, halfSq: int, width: int, hight: int)
    requires 0 <= cx < width && 0 <= cy < hight && halfSq >= 1
    ensures CornerWritesInBounds(cx, cy, halfSq, width, hight)
    ensures forall r, c :: IsMarker(r, c, cx, cy, halfSq, width, hight) ==>
      cy - halfSq <= r <= cy + halfSq && cx - halfSq <= c <= cx + halfSq
  {
  }

  /** With half-width 0 and the centre on the last column, the corner test
      passes but its neighbour column equals the width: draw_corners would
      index past the buffer. */
  lemma ZeroHalfWidthOverflows()
    ensures !CornerWritesInBounds(3, 1, 0, 4, 4)
  {
    assert IsMarker(1, 4, 3, 1, 0, 4, 4);
  }

  /** Sets channel 0 of the three cells of one corner to 1.0. */
  method MarkCorner(arr: array3<Sample>, i: int, j: int, di: int, dj: int)
    requires arr.Length2 > 0
    requires 0 <= i < arr.Length1 && 0 <= i + di < arr.Length1 && 0 <= j < arr.Length0 && 0 <= j + dj < arr.Length0
    modifies arr
    ensures forall r, c, ch | 0 <= r < arr.Length0 && 0 <= c < arr.Length1 && 0 <= ch < arr.Length2 ::
      arr[r, c, ch] == if ch == 0 && InCorner(r, c, i, j, di, dj) then Finite(1.0) else old(arr[r, c, ch])
  {
    arr[j, i, 0] := Finite(1.0);
    arr[j, i + di, 0] := Finite(1.0);
    arr[j + dj, i, 0] := Finite(1.0);
  }

  /** Marks one corner when it passes the strict bounds test. */
  method MarkCornerIfShown(arr: array3<Sample>, i: int, j: int, di: int, dj: int)
    requires arr.Length2 > 0 && CornerFits(i, j, di, dj, arr.Length1, arr.Length0)
    modifies arr
    ensures forall r, c, ch | 0 <= r < arr.Length0 && 0 <= c < arr.Length1 && 0 <= ch < arr.Length2 ::
      arr[r, c, ch] ==
        if ch == 0 && ShownCell(r, c, i, j, di, dj, arr.Length1, arr.Length0) then Finite(1.0) else old(arr[r, c, ch])
  {
    if CornerShown(i, j, arr.Length1, arr.Length0) {
      MarkCorner(arr, i, j, di, dj);
    }
  }

  /** draw_corners: writes 1.0 into channel 0 of every marker cell and
      touches nothing else, in particular no other channel. */
  method DrawCorners(arr: array3<Sample>, center: (int, int), halfSq: int)
    requires arr.Length2 > 0
    requires CornerWritesInBounds(center.0, center.1, halfSq, arr.Length1, arr.Length0)
    modifies arr
    ensures forall r, c, ch | 0 <= r < arr.Length0 && 0 <= c < arr.Length1 && 0 <= ch < arr.Length2 ::
      arr[r, c, ch] ==
        if ch == 0 && IsMarker(r, c, center.0, center.1, halfSq, arr.Length1, arr.Length0) then Finite(1.0)
        else old(arr[r, c, ch])
  {
    var hight, width := arr.Length0, arr.Length1;
    var cx, cy := center.0, center.1;
    CornerWritesInBoundsIff(cx, cy, halfSq, width, hight);
    MarkCornerIfShown(arr, cx - halfSq, cy - halfSq, 1, 1);
    MarkCornerIfShown(arr, cx - halfSq, cy + halfSq, 1, -1);
    MarkCornerIfShown(arr, cx + halfSq, cy - halfSq, -1, 1);
    MarkCornerIfShown(arr, cx + halfSq, cy + halfSq, -1, -1);
  }

  // ---------------------------------------------------------------------
  // Nearest-neighbour upscaling (scale_array)
  // ---------------------------------------------------------------------

  /** np.repeat along one axis: every element, `times` times in a row. */
  function Repeat<T>(s: seq<T>, times: nat): (r: seq<T>)
    ensures |r| == times * |s|
  {
    if s == [] then []
    else seq(times, _ => s[0]) + Repeat(s[1..], times)
  }

  /** Copy r of element q sits at index q * times + r of the repetition. */
  lemma {:induction false} RepeatAt<T>(s: seq<T>, times: nat, q: int, r: int)
    requires 0 <= q < |s| && 0 <= r < times
    ensures q * times + r < times * |s|
    ensures Repeat(s, times)[q * times + r] == s[q]
  {
    MultiplyBelow(q, |s|, times);
    if q > 0 {
      var rest := Repeat(s[1..], times);
      assert q * times + r - times == (q - 1) * times + r;
      RepeatAt(s[1..], times, q - 1, r);
      assert Repeat(s, times)[q * times + r] == rest[(q - 1) * times + r];
    }
  }

  lemma MultiplyBelow(q: int, n: int, times: int)
    requires 0 <= q < n && times > 0
    ensures q * times + times <= n * times
  {
    MultiplyMonotone(q + 1, n, times);
    assert (q + 1) * times == q * times + times;
  }

  lemma {:induction false} MultiplyMonotone(a: int, b: int, t: nat)
    requires a <= b
    ensures a * t <= b * t
    decreases b - a
  {
    if a < b {
      MultiplyMonotone(a + 1, b, t);
      assert (a + 1) * t == a * t + t;
    }
  }

  /** Splits an index of a repetition into the element it copies and the copy. */
  lemma Split(k: int, times: nat, n: nat)
    requires 0 <= k < times * n
    ensures times > 0
    ensures 0 <= k / times < n && 0 <= k % times < times
    ensures k == (k / times) * times + k % times
  {
    assert times == 0 ==> times * n == 0;
    if k / times >= n {
      MultiplyMonotone(n, k / times, times);
    }
  }

  /** scale_array: repeat the rows, then within each row repeat the pixels. */
  function ScaleArray<P>(arr: seq<seq<P>>, times: nat): (scaled: seq<seq<P>>)
    ensures |scaled| == times * |arr|
    ensures forall r :: 0 <= r < |scaled| ==> 0 <= r / times < |arr| && |scaled[r]| == times * |arr[r / times]|
  {
    var rows := Repeat(arr, times);
    assert forall r :: 0 <= r < |rows| ==> 0 <= r / times < |arr| && rows[r] == arr[r / times] by {
      forall r | 0 <= r < |rows| ensures 0 <= r / times < |arr| && rows[r] == arr[r / times] {
        Split(r, times, |arr|);
        RepeatAt(arr, times, r / times, r % times);
      }
    }
    seq(|rows|, r requires 0 <= r < |rows| => Repeat(rows[r], times))
  }

  /** An H x W image scaled by t is tH x tW and its pixel (r, c) is the
      source pixel (r / t, c / t), the pixel value (all its channels) unchanged. */
  lemma ScaleArrayAt<P>(arr: seq<seq<P>>, width: nat, times: nat, r: int, c: int)
    requires forall y :: 0 <= y < |arr| ==> |arr[y]| == width
    requires 0 <= r < times * |arr| && 0 <= c < times * width
    ensures times > 0 && 0 <= r / times < |arr| && 0 <= c / times < width
    ensures |ScaleArray(arr, times)| == times * |arr|
    ensures |ScaleArray(arr, times)[r]| == times * width
    ensures ScaleArray(arr, times)[r][c] == arr[r / times][c / times]
  {
    var rows := Repeat(arr, times);
    var q := r / times;
    Split(r, times, |arr|);
    RepeatAt(arr, times, q, r % times);
    assert rows[r] == arr[q];
    Split(c, times, width);
    RepeatAt(arr[q], times, c / times, c % times);
    assert ScaleArray(arr, times)[r] == Repeat(arr[q], times);
  }
}
