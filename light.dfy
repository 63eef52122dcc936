/** Samples of the floating-point image buffer.
    The buffer holds IEEE doubles; every value the renderer writes is finite
    except the centre of a Bounded glow, where the evaluator returns +infinity.
    So a sample is either a finite real or positive infinity. */
module Light {

  datatype Sample = Finite(value: real) | Infinity

  /** Floating-point addition restricted to these samples (the buffer's
      `+=`): infinity absorbs, and two finite samples add. */
  function Plus(a: Sample, b: Sample): (r: Sample)
    ensures r.Infinity? <==> a.Infinity? || b.Infinity?
    ensures a.Finite? && b.Finite? ==> r.value == a.value + b.value
    ensures b == Finite(0.0) ==> r == a
  {
    if a.Infinity? || b.Infinity? then Infinity else Finite(a.value + b.value)
  }

  /** Adding two contributions to one sample gives the same result in
      either order and however the additions are grouped. */
  lemma PlusCommutes(a: Sample, b: Sample, c: Sample)
    ensures Plus(a, b) == Plus(b, a)
    ensures Plus(Plus(a, b), c) == Plus(a, Plus(b, c))
  {
  }

  /** A colour channel times a glow sample (`scaled_color * glow`).
      Infinity times a positive channel stays infinite (a zero or negative
      channel would give NaN or -infinity, which is why callers must supply
      a positive channel there); a glow of 1 passes the channel through. */
  function Times(c: real, g: Sample): (r: Sample)
    requires g.Infinity? ==> c > 0.0
    ensures r.Infinity? <==> g.Infinity?
    ensures g == Finite(1.0) ==> r == Finite(c)
    ensures g.Finite? && c >= 0.0 && g.value >= 0.0 ==> r.value >= 0.0
  {
    if g.Infinity? then Infinity else Finite(c * g.value)
  }
}
