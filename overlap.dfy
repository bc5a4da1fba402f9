/**
 * A projection tagged with the direction of a push (src/collision/overlap.rs):
 * the case, its negation and the signed offset it stands for.
 */
module Overlaps {

  import opened Projections

  /** `OverlapCase`: the direction the first operand must move. */
  datatype OverlapCase = Positive | Negative | Unsigned

  /** `Overlap(Projection, OverlapCase)`. */
  datatype Overlap = Overlap(projection: Projection, overlapCase: OverlapCase)

  /** `OverlapOffset`: a signed length, or a length whose sign is undecided. */
  datatype OverlapOffset = Known(v: real) | Unsure(v: real)

  /** `OverlapOffset::unwrap_or`: the default stands in for an undecided sign. */
  function UnwrapOr(o: OverlapOffset, value: real): (r: real)
    ensures o.Known? ==> r == o.v
    ensures o.Unsure? ==> r == value
  {
    match o
    case Known(v) => v
    case Unsure(_) => value
  }

  /** `OverlapOffset::unwrap_or_else`: `func` decides from the unsigned length. */
  function UnwrapOrElse(o: OverlapOffset, func: real -> real): (r: real)
    ensures o.Known? ==> r == o.v
    ensures o.Unsure? ==> r == func(o.v)
  {
    match o
    case Known(v) => v
    case Unsure(v) => func(v)
  }

  /** `OverlapOffset::unwrap_or_sign`: the caller's sign is applied to the length. */
  function UnwrapOrSign(o: OverlapOffset, sign: real): (r: real)
    ensures o.Known? ==> r == o.v
    ensures o.Unsure? ==> r == o.v * sign
  {
    match o
    case Known(v) => v
    case Unsure(v) => v * sign
  }

  /** `negate`: swaps the two signed cases, keeps `Unsigned`, keeps the projection. */
  function Negate(o: Overlap): (r: Overlap)
    ensures r.projection == o.projection
    ensures (r.overlapCase == Unsigned) == (o.overlapCase == Unsigned)
    ensures o.overlapCase != Unsigned ==> r.overlapCase != o.overlapCase
  {
    match o.overlapCase
    case Positive => Overlap(o.projection, Negative)
    case Negative => Overlap(o.projection, Positive)
    case Unsigned => Overlap(o.projection, Unsigned)
  }

  /** `with_case`: replaces the case and nothing else. */
  function WithCase(o: Overlap, c: OverlapCase): (r: Overlap)
    ensures r.projection == o.projection && r.overlapCase == c
  {
    Overlap(o.projection, c)
  }

  /** `Overlap::length`: the length of the embedded projection. */
  function OverlapLength(o: Overlap): (r: real)
    ensures r >= 0.0
  {
    Length(o.projection)
  }

  /**
   * `offset`: a signed case gives a known displacement whose magnitude is the
   * length and whose sign is the case; `Unsigned` leaves the sign open.
   */
  function Offset(o: Overlap): (r: OverlapOffset)
    ensures r.Known? <==> o.overlapCase != Unsigned
    ensures r.v == (if o.overlapCase == Negative then -OverlapLength(o) else OverlapLength(o))
    ensures o.overlapCase == Positive ==> r.v >= 0.0
    ensures o.overlapCase == Negative ==> r.v <= 0.0
  {
    match o.overlapCase
    case Positive => Known(Length(o.projection))
    case Negative => Known(-Length(o.projection))
    case Unsigned => Unsure(Length(o.projection))
  }

  /** `negate` undoes itself. */
  lemma NegateInvolution(o: Overlap)
    ensures Negate(Negate(o)) == o
  {
  }

  /** Negating a signed overlap negates its offset; an unsigned one keeps it. */
  lemma OffsetOfNegate(o: Overlap)
    ensures o.overlapCase != Unsigned ==> Offset(Negate(o)) == Known(-Offset(o).v)
    ensures o.overlapCase == Unsigned ==> Offset(Negate(o)) == Offset(o)
  {
  }
}
