/**
 * The one-dimensional interval a shape casts on an axis (src/collision/projection.rs):
 * its constructors, accessors and the separation test. `f32` is modelled as `real`;
 * NaN and infinities are outside the model.
 */
module Projections {

  import opened Wrappers

  /** The two ends of an interval, in either order. */
  datatype Span = Span(near: real, far: real)

  /** A `Projection`: an interval whose `near` end never exceeds its `far` end. */
  type Projection = s: Span | s.near <= s.far witness Span(0.0, 0.0)

  /** `f32::min` on values that are not NaN. */
  function Min(a: real, b: real): real { if a <= b then a else b }

  /** `f32::max` on values that are not NaN. */
  function Max(a: real, b: real): real { if a <= b then b else a }

  /** True when `v` lies in the closed interval `p`. */
  predicate Contains(p: Span, v: real) { p.near <= v <= p.far }

  /** True when the closed interval `p` includes all of `q`. */
  predicate Covers(p: Span, q: Span) { p.near <= q.near && q.far <= p.far }

  /**
   * `new_unchecked`: its requires clause is the debug assertion that the ends are
   * ordered, so every construction below proves that the assertion cannot fire.
   */
  function NewUnchecked(near: real, far: real): (p: Projection)
    requires near <= far
    ensures forall v :: Contains(p, v) <==> near <= v <= far
  {
    Span(near, far)
  }

  /** `new`: orders its two arguments. */
  function New(a: real, b: real): (p: Projection)
    ensures (p.near == a && p.far == b) || (p.near == b && p.far == a)
    ensures p.near == Min(a, b) && p.far == Max(a, b)
  {
    if a <= b then NewUnchecked(a, b) else NewUnchecked(b, a)
  }

  /** `try_new`: refuses reversed ends instead of reordering them. */
  function TryNew(near: real, far: real): (r: Option<Projection>)
    ensures r.None? <==> near > far
    ensures r.Some? ==> r.value.near == near && r.value.far == far
  {
    if near > far then None else Some(NewUnchecked(near, far))
  }

  /** `point`: the degenerate interval at `origin`. */
  function Point(origin: real): (p: Projection)
    ensures Length(p) == 0.0 && Contains(p, origin)
  {
    NewUnchecked(origin, origin)
  }

  /** `extent_from`: `dist` is added to the far end only. */
  function ExtentFrom(origin: real, dist: real): (p: Projection)
    requires dist >= 0.0
    ensures p.near == origin && Length(p) == dist
  {
    NewUnchecked(origin, origin + dist)
  }

  /** `symmetrical`: `dist` is taken off the near end and added to the far end. */
  function Symmetrical(origin: real, dist: real): (p: Projection)
    requires dist >= 0.0
    ensures Mid(p) == origin && Length(p) == 2.0 * dist
  {
    NewUnchecked(origin - dist, origin + dist)
  }

  /**
   * `covering_both`, as written: the far end is taken from `b` alone
   * (`b.0.max(b.1)`), so the result covers `b` but need not cover `a`.
   */
  function CoveringBoth(a: Projection, b: Projection): (p: Projection)
    ensures Covers(p, b)
    ensures p.near == Min(a.near, b.near) && p.far == b.far
  {
    NewUnchecked(Min(a.near, b.near), Max(b.near, b.far))
  }

  /** `covering_point`: the smallest interval holding both `a` and the point `v`. */
  function CoveringPoint(a: Projection, v: real): (p: Projection)
    ensures Covers(p, a) && Contains(p, v)
    ensures forall q: Span :: Covers(q, a) && Contains(q, v) ==> Covers(q, p)
  {
    NewUnchecked(Min(a.near, v), Max(a.far, v))
  }

  /**
   * `smear`: stretches the interval by `d` on one side only, the side
   * `d` points to; the other end stays where it was.
   */
  function Smear(a: Projection, d: real): (p: Projection)
    ensures Covers(p, a)
    ensures d < 0.0 ==> p.near == a.near + d && p.far == a.far
    ensures d >= 0.0 ==> p.near == a.near && p.far == a.far + d
    ensures Length(p) == Length(a) + (if d < 0.0 then -d else d)
  {
    if d < 0.0 then NewUnchecked(a.near + d, a.far) else NewUnchecked(a.near, a.far + d)
  }

  /** `length`: never negative. */
  function Length(p: Projection): (r: real)
    ensures r >= 0.0
    ensures p.near + r == p.far
  {
    p.far - p.near
  }

  /** `mid`: the point halfway between the ends. */
  function Mid(p: Projection): (r: real)
    ensures Contains(p, r)
    ensures r - p.near == p.far - r
  {
    Length(p) / 2.0 + p.near
  }

  /** `as_tuple`. */
  function AsTuple(p: Projection): (t: (real, real))
    ensures t.0 <= t.1 && Span(t.0, t.1) == p
  {
    (p.near, p.far)
  }

  /**
   * `are_separate`: true exactly when no point lies in both intervals, so
   * intervals that only touch at an end are not separate.
   */
  function AreSeparate(a: Projection, b: Projection): (r: bool)
    ensures r <==> forall x :: !(Contains(a, x) && Contains(b, x))
  {
    if a.far < b.near || a.near > b.far then
      true
    else
      assert Contains(a, Max(a.near, b.near)) && Contains(b, Max(a.near, b.near));
      false
  }

  /** Separation is a symmetric relation. */
  lemma AreSeparateSymmetric(a: Projection, b: Projection)
    ensures AreSeparate(a, b) == AreSeparate(b, a)
  {
  }

  /** `covering_both` drops the far end of its first argument. */
  lemma CoveringBothMayMissFirst()
    ensures !Covers(CoveringBoth(Span(0.0, 5.0), Span(1.0, 2.0)), Span(0.0, 5.0))
  {
  }
}
