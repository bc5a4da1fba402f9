# nvm-bevyutil core, modelled in Dafny

This project models the core of nvm-bevyutil, a utility crate for the Bevy game engine. It covers five parts.

- **One-dimensional collision algebra.** A `Projection` is the closed interval `[near, far]` that a shape casts on an axis. An `Overlap` is such an interval tagged with the direction (`Positive`, `Negative` or `Unsigned`) in which the first operand has to move. The model covers the separation test, the penetration and separation between two intervals, and the projections of the crate's shapes (ellipses, boxes and four half-box triangles), together with the candidate separating axes between two shapes.
- **The `CacheGrid` spatial hash.** Each entity's scaled, outward-snapped bounding box is recorded against the entity and in every grid cell it covers. Emptied cell sets are recycled through a free list.
- **The bit-packing codecs.**
  - `CompactStr`: up to 25 characters, five bits each, packed into one unsigned integer.
  - `BitSet<N>`: fields of 1 to 7 bits, most significant bit first, which may straddle two bytes.
- **The cursor logic of the `RingBuffer`.**
- **The `NamedResourceProvider` map.**

`f32` is modelled as `real`: there is no rounding, NaN or infinity. Bytes of the bit set are `bv8`. A compact string's backing integer is a `nat` read in base 32, and the width of that integer is a parameter. Every `debug_assert!` that guards an operation, and every panic a caller can provoke with its arguments, is a `requires` clause. For example, `new_unchecked` requires ordered ends, so every construction in the model proves the assertion cannot fire.

Some behaviour of the code is surprising. The model keeps it as written, or, where it panics, excludes it by a precondition. The contracts say which:

- `Projection::covering_both` takes its far end from `b` alone, so the result need not cover `a`.
- `set_raw!` clears only the lowest bit of a slot before OR-ing in the new code, so `set_ascii` over a used slot can read back a different letter.
- `VALUE_MASKS[6]` keeps five bits, so a 7-bit field that fits in one byte reads back only its five low bits.
- `RingBuffer::len` adds `capacity` where `capacity + 1` is meant, so it under-counts by one once the buffer has wrapped.
- Two intervals that touch at one point are a zero-length `Positive` or `Negative` penetration, not an `Unsigned` one. This follows the code and its test table (src/collision/test.rs:59-60).
- `BitSet::from_buffer` checks only that a field starts inside the set, so a last field that straddles the final byte writes one byte past the end (src/compact_str/bitset.rs:31, 49-52). For example, a one-byte set, 3-bit fields and `max_bytes` 3 give a third field starting at bit 6. This is a panic in the source. `FromBuffer` requires that the last field ends inside the set, and `FromBufferOverrunExample` exhibits the case.
- `encode_char` rejects punctuation, although one of the crate's tests expects it to encode as 1. The model follows `encode_char`.

The files, one Dafny module each:

- `wrappers.dfy`: `Option` and `Result`.
- `projection.dfy`, `overlap.dfy` and `penetration.dfy`: `src/collision/projection.rs` and `src/collision/overlap.rs`. The two Rust files refer to each other, so the penetration and separation functions sit in a third module.
- `shape.dfy`: `src/collision/shape.rs`.
- `cache_grid.dfy`: `src/physics/cache_grid.rs`.
- `compact_str.dfy`: `src/compact_str/mod.rs`.
- `bitset.dfy`: `src/compact_str/bitset.rs`.
- `ring_buffer.dfy`: `src/container/ring_buffer.rs`.
- `named_resource_provider.dfy`: `src/resource/named_resource_provider.rs`.

## Model

| member | source | states |
|---|---|---|
| Projections.NewUnchecked | src/collision/projection.rs:21-24 | the interval holds exactly the values from `near` to `far`; the debug assertion that they are ordered is the precondition |
| Projections.New | src/collision/projection.rs:33-39 | the ends are the two arguments, in either order, with `near` the smaller and `far` the larger |
| Projections.TryNew | src/collision/projection.rs:47-53 | `None` exactly when `near > far`; otherwise the arguments are kept as they are |
| Projections.Point | src/collision/projection.rs:63-65 | zero length, and contains the origin |
| Projections.ExtentFrom | src/collision/projection.rs:74-76 | `near` is the origin and the length is `dist`; a negative `dist` would fail the debug assertion |
| Projections.Symmetrical | src/collision/projection.rs:85-87 | the midpoint is the origin and the length is `2·dist` |
| Projections.CoveringBoth | src/collision/projection.rs:90-92 | as written: covers `b`, `near` is the smaller near end, and `far` is `b`'s far end |
| Projections.CoveringBothMayMissFirst | src/collision/projection.rs:90-92 | `covering_both([0,5],[1,2])` does not cover `[0,5]` |
| Projections.CoveringPoint | src/collision/projection.rs:95-97 | covers `a` and the point, and lies inside every interval that does both |
| Projections.Smear | src/collision/projection.rs:102-108 | covers `a`; moves only the end on the side of the sign of `d`; the length grows by `abs(d)` |
| Projections.Length | src/collision/projection.rs:123-125 | never negative, and `near + length == far` |
| Projections.Mid | src/collision/projection.rs:128-130 | lies in the interval, at equal distance from both ends |
| Projections.AsTuple | src/collision/projection.rs:133-135 | the ordered pair of the ends |
| Projections.AreSeparate | src/collision/projection.rs:144-146 | true exactly when no point lies in both intervals, so touching intervals are not separate |
| Projections.AreSeparateSymmetric | src/collision/projection.rs:144-146 | separation does not depend on operand order |
| Overlaps.UnwrapOr | src/collision/overlap.rs:24-29 | a known offset is returned; an unsure one is replaced by the default |
| Overlaps.UnwrapOrElse | src/collision/overlap.rs:31-36 | a known offset is returned; for an unsure one, the function is applied to the length |
| Overlaps.UnwrapOrSign | src/collision/overlap.rs:38-43 | a known offset is returned; for an unsure one, the length is multiplied by the given sign |
| Overlaps.Negate | src/collision/overlap.rs:48-54 | keeps the interval, swaps `Positive` and `Negative`, keeps `Unsigned` |
| Overlaps.NegateInvolution | src/collision/overlap.rs:48-54 | negating twice gives back the overlap |
| Overlaps.WithCase | src/collision/overlap.rs:56-58 | replaces the case and keeps the interval |
| Overlaps.OverlapLength | src/collision/overlap.rs:63-65 | never negative |
| Overlaps.Offset | src/collision/overlap.rs:71-77 | known exactly for signed cases; magnitude is the length; the sign follows the case |
| Overlaps.OffsetOfNegate | src/collision/overlap.rs:48-77 | negation flips a signed offset and leaves an unsure one as it was |
| Penetrations.GetPenetrationAll | src/collision/projection.rs:160-172 | `None` exactly when separate; otherwise both candidates, the `Positive` one first when `a` starts no later; each candidate, applied to `a`, leaves the intervals touching |
| Penetrations.GetPenetration | src/collision/projection.rs:184-194 | `None` exactly when separate; `Unsigned` exactly when `a == b`, and then the interval is `a`; otherwise a candidate no longer than the other, which leaves the intervals touching |
| Penetrations.GetSeparation | src/collision/projection.rs:205-213 | `Some` exactly when separate: `Positive` `[a.far, b.near]` when `a` lies left, `Negative` `[b.far, a.near]` when right; applied to `a`, it makes them touch |
| Penetrations.SeparationXorPenetration | src/collision/projection.rs:184-213 | exactly one of separation and penetration exists |
| Penetrations.PenetrationSymmetric | src/collision/test.rs:36-45 | swapping the operands negates the penetration and keeps its absence |
| Penetrations.SeparationSymmetric | src/collision/test.rs:25-34 | swapping the operands negates the separation and keeps its absence |
| Penetrations.BoundaryTable | src/collision/test.rs:47-72 | all fifteen cases of the test table, at any offset, give the tabled separation and penetration |
| Shapes.PointShape | src/collision/shape.rs:29-35 | an ellipse at the origin with zero half extents, whose box projects to a single point on each axis |
| Shapes.Circle | src/collision/shape.rs:37-43 | an ellipse at the origin with half extent `radius` on both axes; for a non-negative radius its box spans `radius` either side of the centre on each axis |
| Shapes.EllipseShape | src/collision/shape.rs:45-51 | an ellipse at the origin with half extents `radius`; for non-negative radii its box spans `radius.x` and `radius.y` either side of the centre |
| Shapes.Square | src/collision/shape.rs:53-59 | a rectangle at the origin with half extent `size` on both axes; for a non-negative size its box spans `size` either side of the centre on each axis |
| Shapes.RectangleShape | src/collision/shape.rs:61-67 | a rectangle at the origin with half extents `size`; for non-negative sizes its box spans `size.x` and `size.y` either side of the centre |
| Shapes.Triangle | src/collision/shape.rs:69-80 | a triangle kind whose incline and invert flags read back as given |
| Shapes.ConstructorsAgree | src/collision/shape.rs:29-67 | `point`, `circle` and `square` are `ellipse` and `rectangle` at particular sizes |
| Shapes.ProjectAligned | src/collision/shape.rs:84-89 | the box's extent on the x axis and on the y axis |
| Shapes.GetPointsBound | src/collision/shape.rs:141-148 | the four box corners, counter-clockwise from the lower left |
| Shapes.GetPointsSlope | src/collision/shape.rs:163-187 | three vertices, defined only for triangle kinds (the source panics otherwise); together with the corner the kind cuts away they are exactly the four box corners, as a multiset |
| Shapes.FoldCover | src/collision/shape.rs:193-196 | the fold covers its start and every projected point, and each end is the start's or a point's |
| Shapes.ProjectPoints | src/collision/shape.rs:191-197 | the smallest interval holding every point's projection: all contained, both ends attained |
| Shapes.ProjectOn | src/collision/shape.rs:91-99 | for an ellipse, centred on the projected origin with twice the given radius; otherwise the tight interval of the outline's projections |
| Shapes.ProjectAlignedIsProjectOn | src/collision/shape.rs:84-99 | for a box, `project_on` the unit x and y axes equals `project_aligned` |
| Shapes.TriangleWithinBound | src/collision/shape.rs:91-99 | on any axis, a triangle's projection lies inside its bounding box's projection |
| Shapes.Diagonal | src/collision/shape.rs:105-109 | a triangle's axis points, scaled by `FRAC_1_SQRT_2`, toward the corner its kind cuts away |
| Shapes.NormalizedTowardLength | src/collision/shape.rs:110-119 | each target point adds at most one axis |
| Shapes.NormalizedTowardSource | src/collision/shape.rs:110-119 | every axis is the normalised direction to one of the target points |
| Shapes.AxesCount | src/collision/shape.rs:101-124 | counts of axes: 0 for a box, 1 for a triangle; for an ellipse, at most 1, 4 or 3 against an ellipse, box or triangle; never above the `ArrayVec` capacity of 4 |
| Shapes.AxesBetween | src/collision/shape.rs:101-124 | the pushes produce the specified axes in order, never overflowing; an ellipse's axes point toward the other shape's points |
| CacheGrids.AxisFrom | src/physics/cache_grid.rs:24-29 | `near` is the floor of the scaled near end and `far` the ceiling of the scaled far end |
| CacheGrids.AxisFromOrdered | src/physics/cache_grid.rs:24-29 | with a non-negative scale, the cell range is ordered |
| CacheGrids.AxisFromCoversPoints | src/physics/cache_grid.rs:24-29 | with a positive scale, every point of the interval short of its far end falls in a cell of the range |
| CacheGrids.DataFrom | src/physics/cache_grid.rs:39-44 | each axis range is `CacheGridAxis::from` of that axis |
| CacheGrids.OverlapsIffCommonCell | src/physics/cache_grid.rs:70-77 | two cell ranges overlap exactly when some cell lies in both |
| CacheGrids.CellsDeterminedByEntities | src/physics/cache_grid.rs:47-52 | under the grid invariant, the cell map is determined by the entity map |
| CacheGrids.CacheGrid.constructor | src/physics/cache_grid.rs:56-63 | an empty grid with the given scale, satisfying the invariant |
| CacheGrids.CacheGrid.Query | src/physics/cache_grid.rs:65-80 | the union of the populated cells in the scaled range, which is exactly the entities whose range meets it |
| CacheGrids.CacheGrid.Update | src/physics/cache_grid.rs:82-101 | keeps the invariant; records the new range; with an unchanged range, the cells and free list are untouched; the entity is in exactly the cells of its range; other entities' cells are unchanged; the pool of cell sets (populated plus free) ends as the larger of its old size and the number of populated cells; for a new entity, each newly populated cell takes a free set while any is left; when the update leaves as many populated cells as before, the free list is exactly as it was, so every set it freed was taken again |
| CacheGrids.CacheGrid.InsertCells | src/physics/cache_grid.rs:91-99 | keeps the invariant; records the range; the entity is in exactly the cells of its range; other entities' cells are unchanged; populated cells draw on the free list before new sets are made |
| CacheGrids.CacheGrid.InsertRows | src/physics/cache_grid.rs:92-99 | the outer loop: after it, every cell of the range holds the entity, and the free list has fed the newly populated cells |
| CacheGrids.CacheGrid.InsertRow | src/physics/cache_grid.rs:93-98 | the inner loop: one row of the range is added, and the free list has fed the newly populated cells |
| CacheGrids.CacheGrid.InsertCell | src/physics/cache_grid.rs:94-97 | adds the entity to one more cell; an occupied cell leaves the free list alone; a vacant cell takes the last free set (`pop_back`), or a new set when the list is empty |
| CacheGrids.CacheGrid.PopFree | src/physics/cache_grid.rs:96 | `pop_back().unwrap_or_default()`: an empty set, with the last free set removed if there was one |
| CacheGrids.CacheGrid.PushFree | src/physics/cache_grid.rs:118 | `push_back`: the emptied set is appended to the free list |
| CacheGrids.InsertStep | src/physics/cache_grid.rs:94-97 | adding the entity to the current cell, starting from its old set or an empty one, advances the insertion invariant by one cell |
| CacheGrids.RemoveStep | src/physics/cache_grid.rs:114-119 | the current cell is populated and holds the entity; dropping it, and dropping the cell once empty, advances the removal invariant by one cell |
| CacheGrids.OthersKeepCells | src/physics/cache_grid.rs:91-99 | when both maps keep the invariant and the entity records agree, every earlier entity is in the same cells |
| CacheGrids.PopulatedIsSize | src/physics/cache_grid.rs:50 | the count of populated cells is the size of the cell map |
| CacheGrids.CacheGrid.Remove | src/physics/cache_grid.rs:103-107 | keeps the invariant; forgets the entity, which is then in no cell; unknown entities change nothing; other entities' cells are unchanged; no cell set is lost, each emptied one goes to the free list |
| CacheGrids.CacheGrid.RemoveImpl | src/physics/cache_grid.rs:109-123 | keeps the invariant and drops the entity's record; every cell it empties moves to the free list, so populated plus free sets stay the same in number |
| CacheGrids.CacheGrid.RemoveRow | src/physics/cache_grid.rs:113-120 | the inner loop: the entity leaves one row of its range, and each emptied cell goes to the free list |
| CacheGrids.CacheGrid.RemoveCell | src/physics/cache_grid.rs:114-119 | takes the entity out of one cell; when it was the cell's only entity, the cell is dropped and an empty set is appended to the free list; otherwise the cell keys and the free list are unchanged |
| CompactStrs.CapacityValues | src/compact_str/mod.rs:60 | capacities are 1, 3, 6, 12 and 25, and that many slots fit in the integer |
| CompactStrs.EncodeChar | src/compact_str/mod.rs:235-242 | accepts exactly letters, space and underscore, giving codes 1 to 27 |
| CompactStrs.EncodeUnencode | src/compact_str/mod.rs:235-250 | decoding an encoded character upper-cases it; encoding a decoded code 1 to 27 gives back the code |
| CompactStrs.GetRaw | src/compact_str/mod.rs:160-162 | a 5-bit value |
| CompactStrs.SetDigit | src/compact_str/mod.rs:34-40 | the slot `set_raw!` leaves stays within five bits |
| CompactStrs.SetDigitOnZero | src/compact_str/mod.rs:34-40 | writing a 5-bit code into an empty slot stores the code itself |
| CompactStrs.DigitOfSetRaw | src/compact_str/mod.rs:34-40 | `set_raw!` changes the chosen slot as `SetDigit` says, and no other slot |
| CompactStrs.PackSnoc | src/compact_str/mod.rs:76-84 | one step of `try_new`'s loop appends a code to the packed prefix |
| CompactStrs.Length | src/compact_str/mod.rs:97-104 | the number of leading non-empty slots, ending at an empty slot or at the capacity |
| CompactStrs.Len | src/compact_str/mod.rs:97-104 | the loop computes `Length` |
| CompactStrs.IsEmpty | src/compact_str/mod.rs:106-108 | true exactly for length 0 |
| CompactStrs.GetAscii | src/compact_str/mod.rs:150-153 | the index must be below the length; never NUL; a letter code reads back as a character that encodes to it |
| CompactStrs.SetAscii | src/compact_str/mod.rs:145-148 | the slot becomes `SetDigit` of the new code; other slots and the length are kept |
| CompactStrs.SetAsciiReadsBackIff | src/compact_str/mod.rs:145-158 | the character written reads back exactly when the old slot's upper four bits are among the new code's bits |
| CompactStrs.SetAsciiOverwriteExample | src/compact_str/mod.rs:34-40 | overwriting `C` with `A` reads back `E` |
| CompactStrs.TryNew | src/compact_str/mod.rs:69-87 | too long: the length error first; an unencodable byte: the character error; otherwise the packed codes |
| CompactStrs.New | src/compact_str/mod.rs:62-67 | the packed codes of an accepted string |
| CompactStrs.TryFromRaw | src/compact_str/mod.rs:110-120 | `Some` exactly when the value is canonical: codes up to 27 below the length, zeros after |
| CompactStrs.FromRaw | src/compact_str/mod.rs:122-128 | the value itself, for canonical values |
| CompactStrs.Decoded | src/compact_str/mod.rs:89-95 | one `get_ascii` per slot below the length |
| CompactStrs.ToStr | src/compact_str/mod.rs:89-95 | the loop computes `Decoded` |
| CompactStrs.TryNewReadsBack | src/compact_str/mod.rs:69-120 | an accepted string fits the integer, has its own length, is canonical (so `try_from_raw` accepts it) and reads back sanitised |
| CompactStrs.DecodedReencodes | src/compact_str/mod.rs:69-95 | a canonical value with nothing above its last slot is what `try_new` builds from its `to_str` |
| CompactStrs.EmptyExample | src/compact_str/test.rs:8-12 | the empty string packs to 0 and has length 0 |
| CompactStrs.ShortExample | src/compact_str/test.rs:43-53 | `abc` packs to `0b00100_00011_00010` and reads back `ABC` |
| BitSets.MasksAsIntended | src/compact_str/bitset.rs:5-8 | every mask is the `count` low bits, except entry 6, which keeps five |
| BitSets.EncodeKeepsOtherBits | src/compact_str/bitset.rs:86-90 | `do_encode` leaves every bit outside its field unchanged |
| BitSets.EncodeSetsBits | src/compact_str/bitset.rs:86-90 | `do_encode` places the value's bits most significant first at bits `offset..offset+count` from the top |
| BitSets.DecodeEncodeByte | src/compact_str/bitset.rs:86-94 | for widths up to 6, `do_decode` returns the low bits of what `do_encode` wrote |
| BitSets.DecodeEncodeByteSeven | src/compact_str/bitset.rs:86-94 | for width 7, only the five low bits come back |
| BitSets.DisjointByte | src/compact_str/bitset.rs:86-94 | encoding one field leaves the decoding of a non-overlapping field of the byte unchanged |
| BitSets.GetBitsOfWriteBits | src/compact_str/bitset.rs:19-83 | reading back a written field gives the value's low bits, for one-byte and straddling fields; a one-byte 7-bit field gives five bits |
| BitSets.SevenBitFieldLosesBits | src/compact_str/bitset.rs:5-8 | writing `0x7F` as a 7-bit field at offset 0 reads back `0x1F` |
| BitSets.GetBitsAfterLaterWrite | src/compact_str/bitset.rs:19-83 | a write starting at or after the end of a field does not change that field's reading |
| BitSets.WriteBitsKeepsOtherBits | src/compact_str/bitset.rs:19-34 | a write changes no bit outside its field, on either side of a byte boundary |
| BitSets.GetBitsOfEmpty | src/compact_str/bitset.rs:38-83 | every field of the empty set reads 0 |
| BitSets.GetBitsPastEnd | src/compact_str/bitset.rs:78-81 | a field straddling the last byte reads only its high part, with zeros for the missing low bits |
| BitSets.Iterations | src/compact_str/bitset.rs:47-56 | the loop count: at most `max_bytes`; it stops at `max_bytes` or once the offset reaches `8·N`; the last offset written is inside the set |
| BitSets.OffsetIsProduct | src/compact_str/bitset.rs:47-55 | the offset after `i` passes, each adding the width, is `i * bit_width` |
| BitSets.IterationsFromStops | src/compact_str/bitset.rs:49 | pass `i` happens exactly when `i < max_bytes` and offset `i` lies inside the set |
| BitSets.FillReads | src/compact_str/bitset.rs:42-59 | after the fill, field `i` (at offset `i * bit_width`) reads byte `i` of the buffer cut to the field width, as `get_bits` returns it |
| BitSets.FillKeepsLaterBits | src/compact_str/bitset.rs:42-59 | the fill leaves every bit beyond the last field as it was |
| BitSets.Write | src/compact_str/bitset.rs:19-34 | the in-place write leaves the bytes `WriteBits` specifies |
| BitSets.BitSet.Empty | src/compact_str/bitset.rs:38-40 | `N` zero bytes |
| BitSets.FillLoop | src/compact_str/bitset.rs:47-56 | the loop, in place on the bytes, leaves them holding the first `Iterations` buffer bytes written as fields over the starting bytes |
| BitSets.FromBufferOverrunExample | src/compact_str/bitset.rs:31-52 | with one byte, 3-bit fields and `max_bytes` 3, the loop makes three passes and the third field starts inside the set but ends past it |
| BitSets.BitSet.FromBuffer | src/compact_str/bitset.rs:42-59 | the empty set filled with the first `Iterations` buffer bytes; requires the buffer to be long enough and the last field to end inside the set |
| BitSets.BitSet.SetBits | src/compact_str/bitset.rs:61-64 | the bytes become `WriteBits` of the old bytes |
| BitSets.BitSet.GetBits | src/compact_str/bitset.rs:66-83 | the result fits in `count` bits |
| RingBuffers.RingBuffer.Next | src/container/ring_buffer.rs:138-140 | the next slot is `(x + 1) mod (capacity + 1)` |
| RingBuffers.RingBuffer.constructor | src/container/ring_buffer.rs:33-46 | both cursors at 0: valid and empty; `capacity + 1` must fit a `u16` |
| RingBuffers.LenOverflowThreshold | src/container/ring_buffer.rs:50-52 | some wrapped state makes the `u16` sum `tail + capacity` exceed `u16::MAX` exactly when the capacity exceeds 32768 |
| RingBuffers.RingBuffer.Len | src/container/ring_buffer.rs:50-52 | the element count when `tail >= head`; one less than it once wrapped |
| RingBuffers.RingBuffer.IsEmpty | src/container/ring_buffer.rs:54-56 | true exactly when no element is held |
| RingBuffers.RingBuffer.IsFull | src/container/ring_buffer.rs:58-60 | true exactly when the slot after `tail` is `head`, which is exactly when `capacity` elements are held |
| RingBuffers.RingBuffer.Push | src/container/ring_buffer.rs:64-68 | refused with no change exactly when full; otherwise `tail` advances, `head` stays and the count grows by one |
| RingBuffers.RingBuffer.PushUnchecked | src/container/ring_buffer.rs:70-76 | `tail` advances and `head` stays |
| RingBuffers.RingBuffer.AdvanceHead | src/container/ring_buffer.rs:80-87 | refused with no change exactly when empty; otherwise `head` advances and the count drops by one |
| RingBuffers.RingBuffer.AdvanceHeadUnchecked | src/container/ring_buffer.rs:89-101 | `head` advances, even past `tail` |
| RingBuffers.RingBuffer.Pop | src/container/ring_buffer.rs:105-116 | `None` exactly when empty; otherwise `head` advances and the count drops by one |
| RingBuffers.RingBuffer.Peek | src/container/ring_buffer.rs:120-125 | present exactly when not empty |
| RingBuffers.RingBuffer.AdvanceTailUnchecked | src/container/ring_buffer.rs:138-140 | `tail` advances; a full buffer then reads as empty |
| RingBuffers.RingBuffer.GetForwardLength | src/container/ring_buffer.rs:142-144 | present exactly when `tail > head`, and then it is the element count |
| NamedResources.NamedResourceProvider.Get | src/resource/named_resource_provider.rs:35-37 | the stored resource, `None` exactly when the key is absent |
| NamedResources.NamedResourceProvider.Has | src/resource/named_resource_provider.rs:63-65 | true exactly when `get` finds a resource |
| NamedResources.NamedResourceProvider.InsertWith | src/resource/named_resource_provider.rs:19-24 | a taken key: the error message and no change; otherwise the key maps to the produced value, which is returned |
| NamedResources.NamedResourceProvider.Insert | src/resource/named_resource_provider.rs:15-17 | `insert_with` of the given value |
| NamedResources.NamedResourceProvider.InsertDefault | src/resource/named_resource_provider.rs:71-73 | `insert_with` of the default value |
| NamedResources.NamedResourceProvider.InsertOrReplace | src/resource/named_resource_provider.rs:26-29 | the key maps to the value whether or not it was taken; the value is returned |
| NamedResources.NamedResourceProvider.InsertOrReplaceDefault | src/resource/named_resource_provider.rs:75-77 | `insert_or_replace` of the default value |
| NamedResources.NamedResourceProvider.Remove | src/resource/named_resource_provider.rs:31-33 | the key is dropped, and the resource it held, if any, is returned |

## Left out

- f32 arithmetic is modelled as exact reals: no rounding, NaN or infinities. The `as i32` casts in `CacheGridAxis::from` saturate in the source; the model uses unbounded integers.
- `Shape::get_radius_on_axis` and `get_points_ellipse` are not part of this model. They use a square root and rotations. The ellipse radius is a parameter of `ProjectOn`.
- `Vec2::try_normalize` is a function parameter of `AxesBetween`, because it uses a square root.
- Shapes.Diagonal: `FRAC_1_SQRT_2` is a decimal literal, so the axis is unit length only up to that rounding.
- `Overlap::projection`, `case` and `into_tuple`, and `Projection::near` and `far`, are the datatype fields.
- `from_raw_unchecked` and `to_raw` are the `CompactStr` constructor and its `raw` field.
- The `CompactStr` trait, the `newtype_compactstr!` wrappers and the `Debug`/`Display` impls only delegate or format. They are not part of this model.
- CompactStrs.SetAscii: modelled as returning the updated value instead of updating in place. Its contract does not bound the new raw value by the width, because `set_raw!` can only OR bits into a slot that is already in use.
- CompactStrs.TryFromRaw: takes a `nat` below the width's limit in place of the fixed-width integer. Bits above the last whole slot are not examined, as in the source.
- RingBuffers.RingBuffer.Pop: only whether an element is taken is modelled, not its value. The same holds for `Peek`, `peek_unchecked`, `peek_unchecked_mut`, `pop_unchecked` and `PushUnchecked`. The source stores values through raw pointers into a heap block and a cache line (`data`, `cache`, `cache_head`), and these, with `Drop`, are not part of this model.
- RingBuffers.RingBuffer.Len: a debug build would panic on the `u16` overflow of `tail + capacity` for capacities above 32768 (`LenOverflowThreshold`). The model follows the release build, whose wrapped result it proves equal to the unbounded one.
- `NamedResourceProvider::get_mut`, `iter`, `iter_mut`, `values`, `values_mut` and `keys` hand out references or iterators. They are not modelled beyond `Get`.
- NamedResources.NamedResourceProvider.Insert: `insert`, `insert_with`, `insert_default`, `insert_or_replace` and `insert_or_replace_default` return a `&mut T` into the map. The model returns the stored value instead, so later mutation through that reference (aliasing into the map) is not modelled.
- The provider's `Default` type bound is a `default` parameter of `InsertDefault` and `InsertOrReplaceDefault`.
- `CacheGrid` entities are any type with equality. The iteration order of the source's hash sets is not modelled: query results are sets.
- `src/physics/collider_lookup.rs`, `src/sync/`, `src/camera/` and `src/math/` are not part of this model.
