/**
 * Penetration and separation between two projections on one axis
 * (src/collision/projection.rs): how far, and in which direction, the first
 * interval has to move to just touch the second.
 */
module Penetrations {

  import opened Wrappers
  import opened Projections
  import opened Overlaps

  /** Moves an interval along the axis by `d`. */
  function Translate(p: Projection, d: real): Projection
  {
    NewUnchecked(p.near + d, p.far + d)
  }

  /** The two intervals share an end point and nothing more. */
  predicate InContact(a: Projection, b: Projection)
  {
    a.far == b.near || a.near == b.far
  }

  /** The candidate that resolves an overlap by moving `a` in the positive direction. */
  function PositiveCandidate(a: Projection, b: Projection): Overlap
    requires !AreSeparate(a, b)
  {
    Overlap(NewUnchecked(a.near, b.far), Positive)
  }

  /** The candidate that resolves an overlap by moving `a` in the negative direction. */
  function NegativeCandidate(a: Projection, b: Projection): Overlap
    requires !AreSeparate(a, b)
  {
    Overlap(NewUnchecked(b.near, a.far), Negative)
  }

  /**
   * `get_penetration_all`: nothing when the intervals are separate; otherwise
   * both ways out, the one for the nearer start of `a` listed first, and each
   * of them, applied as an offset to `a`, leaves the two intervals touching.
   */
  function GetPenetrationAll(a: Projection, b: Projection): (r: Option<(Overlap, Overlap)>)
    ensures r.None? <==> AreSeparate(a, b)
    ensures r.Some? && a.near <= b.near ==>
      r.value == (PositiveCandidate(a, b), NegativeCandidate(a, b))
    ensures r.Some? && a.near > b.near ==>
      r.value == (NegativeCandidate(a, b), PositiveCandidate(a, b))
    ensures r.Some? ==>
      InContact(Translate(a, Offset(r.value.0).v), b) &&
      InContact(Translate(a, Offset(r.value.1).v), b)
  {
    if AreSeparate(a, b) then
      None
    else if a.near <= b.near then
      Some((Overlap(NewUnchecked(a.near, b.far), Positive), Overlap(NewUnchecked(b.near, a.far), Negative)))
    else
      Some((Overlap(NewUnchecked(b.near, a.far), Negative), Overlap(NewUnchecked(a.near, b.far), Positive)))
  }

  /**
   * `get_penetration`: the shorter of the two candidates (the first on a tie),
   * or the common interval marked `Unsigned` when the two candidates coincide.
   */
  function GetPenetration(a: Projection, b: Projection): (r: Option<Overlap>)
    ensures r.None? <==> AreSeparate(a, b)
    ensures r.Some? ==> (r.value.overlapCase == Unsigned <==> a == b)
    ensures a == b ==> r == Some(Overlap(a, Unsigned))
    ensures r.Some? && a != b ==>
      (r.value == PositiveCandidate(a, b) || r.value == NegativeCandidate(a, b)) &&
      OverlapLength(r.value) <= OverlapLength(PositiveCandidate(a, b)) &&
      OverlapLength(r.value) <= OverlapLength(NegativeCandidate(a, b)) &&
      InContact(Translate(a, Offset(r.value).v), b)
    ensures r.Some? && a != b && OverlapLength(PositiveCandidate(a, b)) == OverlapLength(NegativeCandidate(a, b))
      ==> r.value == (if a.near <= b.near then PositiveCandidate(a, b) else NegativeCandidate(a, b))
  {
    match GetPenetrationAll(a, b)
    case None => None
    case Some((near, far)) =>
      if near.projection == far.projection then Some(WithCase(near, Unsigned))
      else if OverlapLength(near) <= OverlapLength(far) then Some(near)
      else Some(far)
  }

  /**
   * `get_separation`: the gap between two separate intervals, marked with the
   * direction `a` has to move to close it.
   */
  function GetSeparation(a: Projection, b: Projection): (r: Option<Overlap>)
    ensures r.None? <==> !AreSeparate(a, b)
    ensures a.far < b.near ==> r == Some(Overlap(NewUnchecked(a.far, b.near), Positive))
    ensures a.far >= b.near && a.near > b.far ==> r == Some(Overlap(NewUnchecked(b.far, a.near), Negative))
    ensures r.Some? ==> r.value.overlapCase != Unsigned && InContact(Translate(a, Offset(r.value).v), b)
  {
    if a.far < b.near then
      Some(Overlap(NewUnchecked(a.far, b.near), Positive))
    else if a.near > b.far then
      Some(Overlap(NewUnchecked(b.far, a.near), Negative))
    else
      None
  }

  /** Swapping the operands negates the minimum penetration (and keeps its absence). */
  lemma PenetrationSymmetric(a: Projection, b: Projection)
    ensures GetPenetration(b, a).None? <==> GetPenetration(a, b).None?
    ensures GetPenetration(a, b).Some? ==>
      GetPenetration(b, a) == Some(Negate(GetPenetration(a, b).value))
  {
    AreSeparateSymmetric(a, b);
  }

  /** Swapping the operands negates the separation (and keeps its absence). */
  lemma SeparationSymmetric(a: Projection, b: Projection)
    ensures GetSeparation(b, a).None? <==> GetSeparation(a, b).None?
    ensures GetSeparation(a, b).Some? ==>
      GetSeparation(b, a) == Some(Negate(GetSeparation(a, b).value))
  {
    AreSeparateSymmetric(a, b);
  }

  /** Two intervals are either separated or penetrating, never both and never neither. */
  lemma SeparationXorPenetration(a: Projection, b: Projection)
    ensures GetSeparation(a, b).Some? <==> GetPenetration(a, b).None?
  {
  }

  /** Rows `gap_l`, `gap_r`, `touch_l` and `touch_r` of the test table. */
  predicate ApartRows(l: real)
  {
    var t := NewUnchecked(l, l + 4.0);
    // gap_l, gap_r
    GetSeparation(t, NewUnchecked(l - 2.0, l - 1.0)) == Some(Overlap(NewUnchecked(l - 1.0, l), Negative)) &&
    GetPenetration(t, NewUnchecked(l - 2.0, l - 1.0)) == None &&
    GetSeparation(t, NewUnchecked(l + 5.0, l + 6.0)) == Some(Overlap(NewUnchecked(l + 4.0, l + 5.0), Positive)) &&
    GetPenetration(t, NewUnchecked(l + 5.0, l + 6.0)) == None &&
    // touch_l, touch_r: touching is a zero-length penetration, not a separation
    GetSeparation(t, NewUnchecked(l - 2.0, l)) == None &&
    GetPenetration(t, NewUnchecked(l - 2.0, l)) == Some(Overlap(NewUnchecked(l, l), Positive)) &&
    GetSeparation(t, NewUnchecked(l + 4.0, l + 6.0)) == None &&
    GetPenetration(t, NewUnchecked(l + 4.0, l + 6.0)) == Some(Overlap(NewUnchecked(l + 4.0, l + 4.0), Negative))
  }

  /** `ApartRows` holds at every offset. */
  lemma BoundaryApart(l: real)
    ensures ApartRows(l)
  {
  }

  /** Rows `penetrate_l` to `contained_m` of the test table. */
  predicate InsideRows(l: real)
  {
    var t := NewUnchecked(l, l + 4.0);
    // penetrate_l, penetrate_r
    GetPenetration(t, NewUnchecked(l - 2.0, l + 1.0)) == Some(Overlap(NewUnchecked(l, l + 1.0), Positive)) &&
    GetPenetration(t, NewUnchecked(l + 3.0, l + 6.0)) == Some(Overlap(NewUnchecked(l + 3.0, l + 4.0), Negative)) &&
    // contained_l, contained_r, contained_m
    GetPenetration(t, NewUnchecked(l + 1.0, l + 2.0)) == Some(Overlap(NewUnchecked(l, l + 2.0), Positive)) &&
    GetPenetration(t, NewUnchecked(l + 2.0, l + 3.0)) == Some(Overlap(NewUnchecked(l + 2.0, l + 4.0), Negative)) &&
    GetPenetration(t, NewUnchecked(l + 1.0, l + 3.0)) == Some(Overlap(NewUnchecked(l, l + 3.0), Positive))
  }

  /** `InsideRows` holds at every offset. */
  lemma BoundaryInside(l: real)
    ensures InsideRows(l)
  {
  }

  /** Rows `contains_l` to `overlap_m` of the test table. */
  predicate AroundRows(l: real)
  {
    var t := NewUnchecked(l, l + 4.0);
    // contains_l, contains_r, contains_m
    GetPenetration(t, NewUnchecked(l - 2.0, l + 5.0)) == Some(Overlap(NewUnchecked(l, l + 5.0), Positive)) &&
    GetPenetration(t, NewUnchecked(l - 1.0, l + 6.0)) == Some(Overlap(NewUnchecked(l - 1.0, l + 4.0), Negative)) &&
    GetPenetration(t, NewUnchecked(l - 1.0, l + 5.0)) == Some(Overlap(NewUnchecked(l - 1.0, l + 4.0), Negative)) &&
    // overlap_l, overlap_r, overlap_m
    GetPenetration(t, NewUnchecked(l - 1.0, l + 4.0)) == Some(Overlap(NewUnchecked(l, l + 4.0), Positive)) &&
    GetPenetration(t, NewUnchecked(l, l + 5.0)) == Some(Overlap(NewUnchecked(l, l + 4.0), Negative)) &&
    GetPenetration(t, NewUnchecked(l, l + 4.0)) == Some(Overlap(NewUnchecked(l, l + 4.0), Unsigned))
  }

  /** `AroundRows` holds at every offset. */
  lemma BoundaryAround(l: real)
    ensures AroundRows(l)
  {
  }

  /**
   * The fixed interval `[l, l + 4]` against the fifteen moving intervals of the
   * repository's test table, with the operands in the order the tests use.
   */
  lemma BoundaryTable(l: real)
    ensures ApartRows(l) && InsideRows(l) && AroundRows(l)
  {
    BoundaryApart(l);
    BoundaryInside(l);
    BoundaryAround(l);
  }
}
