/**
 * The spatial hash of src/physics/cache_grid.rs: each entity's aligned bounding
 * box, scaled and snapped outward to whole grid cells, is recorded against the
 * entity and in every cell it covers; emptied cell sets are kept on a free list
 * for reuse. Entities are any type with equality; `f32` is modelled as `real`.
 */
module CacheGrids {

  import opened Projections
  import opened Shapes

  /** `CacheGridKey`: the integer coordinates of one cell. */
  datatype Key = Key(x: int, y: int)

  /** `CacheGridAxis`: the half-open range of cell coordinates `near..far` on one axis. */
  datatype Axis = Axis(near: int, far: int)

  /** `CacheGridData`: the cells an entity covers, as a range on each axis. */
  datatype Data = Data(x: Axis, y: Axis)

  /** Rounds towards positive infinity, as `f32::ceil`. */
  function Ceil(v: real): (r: int)
    ensures (r - 1) as real < v <= r as real
  {
    -((-v).Floor)
  }

  /**
   * `CacheGridAxis::from`: the scaled near end rounded down and the scaled far
   * end rounded up, so the cell range never undercuts the interval.
   */
  function AxisFrom(p: Projection, scale: real): (a: Axis)
    ensures a.near as real <= p.near * scale < a.near as real + 1.0
    ensures a.far as real - 1.0 < p.far * scale <= a.far as real
  {
    Axis((p.near * scale).Floor, Ceil(p.far * scale))
  }

  /** With a positive scale the range is ordered, and each point strictly before the far end lies in a cell of the range. */
  lemma AxisFromCoversPoints(p: Projection, scale: real, v: real)
    requires scale > 0.0
    requires p.near <= v < p.far
    ensures AxisFrom(p, scale).near <= (v * scale).Floor < AxisFrom(p, scale).far
  {
    assert p.near * scale <= v * scale < p.far * scale by {
      MulMonotone(p.near, v, scale);
      MulStrict(v, p.far, scale);
    }
  }

  /** With a non-negative scale the cell range of an ordered interval is ordered. */
  lemma AxisFromOrdered(p: Projection, scale: real)
    requires scale >= 0.0
    ensures AxisFrom(p, scale).near <= AxisFrom(p, scale).far
  {
    MulMonotone(p.near, p.far, scale);
  }

  lemma MulMonotone(a: real, b: real, c: real)
    requires a <= b && c >= 0.0
    ensures a * c <= b * c
  {
    assert b * c - a * c == (b - a) * c;
  }

  lemma MulStrict(a: real, b: real, c: real)
    requires a < b && c > 0.0
    ensures a * c < b * c
  {
    assert b * c - a * c == (b - a) * c;
  }

  /** `CacheGridData::from`. */
  function DataFrom(x: Projection, y: Projection, scale: real): (d: Data)
    ensures d.x == AxisFrom(x, scale) && d.y == AxisFrom(y, scale)
  {
    Data(AxisFrom(x, scale), AxisFrom(y, scale))
  }

  /** The cell `k` is one of those `d` covers. */
  predicate InRange(d: Data, k: Key)
  {
    d.x.near <= k.x < d.x.far && d.y.near <= k.y < d.y.far
  }

  /** Two half-open ranges of one axis are both non-empty and meet. */
  predicate AxisOverlaps(a: Axis, b: Axis)
  {
    a.near < a.far && b.near < b.far && a.near < b.far && b.near < a.far
  }

  /** Two cell ranges share at least one cell. */
  predicate Overlaps(d: Data, q: Data)
  {
    AxisOverlaps(d.x, q.x) && AxisOverlaps(d.y, q.y)
  }

  /** `Overlaps` is exactly "some cell lies in both ranges". */
  lemma OverlapsIffCommonCell(d: Data, q: Data)
    ensures Overlaps(d, q) <==> exists k :: InRange(d, k) && InRange(q, k)
  {
    if Overlaps(d, q) {
      var k := Key(if d.x.near <= q.x.near then q.x.near else d.x.near,
                   if d.y.near <= q.y.near then q.y.near else d.y.near);
      assert InRange(d, k) && InRange(q, k);
    }
  }

  /**
   * The loops' progress: cell `k` of range `d` comes before cell (`i`, `j`) in
   * the row-by-row order the nested loops visit cells in.
   */
  predicate Scanned(d: Data, i: int, j: int, k: Key)
  {
    InRange(d, k) && (k.x < i || (k.x == i && k.y < j))
  }

  /**
   * The invariant of the three maps: each recorded entity is in exactly the cells
   * of its recorded range, every entity in a cell is recorded, and no cell is empty.
   */
  ghost predicate Indexed<E>(entities: map<E, Data>, cells: map<Key, set<E>>)
  {
    (forall e, k :: e in entities ==> (InRange(entities[e], k) <==> k in cells && e in cells[k])) &&
    (forall k, e :: k in cells && e in cells[k] ==> e in entities) &&
    (forall k :: k in cells ==> cells[k] != {})
  }

  /**
   * The invariant while entity `e`, with range `d`, is being added to
   * (`inserting`) or taken out of the cells: every other entity is indexed
   * exactly, and `e` is in the visited cells of `d` when inserting, in the
   * unvisited ones when removing.
   */
  ghost predicate IndexedExcept<E>(entities: map<E, Data>, cells: map<Key, set<E>>, e: E, d: Data, i: int, j: int, inserting: bool)
  {
    (forall f, k :: f in entities && f != e ==> (InRange(entities[f], k) <==> k in cells && f in cells[k])) &&
    (forall k :: (k in cells && e in cells[k]) <==> (InRange(d, k) && Scanned(d, i, j, k) == inserting)) &&
    (forall k, f :: k in cells && f in cells[k] ==> f in entities || f == e) &&
    (forall k :: k in cells ==> cells[k] != {})
  }

  /** Every set on the free list is empty. */
  ghost predicate AllEmpty<E>(freelist: seq<set<E>>)
  {
    forall i :: 0 <= i < |freelist| ==> freelist[i] == {}
  }

  /** The cells are a function of the recorded ranges: two indexings of the same entities agree. */
  lemma CellsDeterminedByEntities<E>(entities: map<E, Data>, cells1: map<Key, set<E>>, cells2: map<Key, set<E>>)
    requires Indexed(entities, cells1) && Indexed(entities, cells2)
    ensures cells1 == cells2
  {
    forall k | k in cells1
      ensures k in cells2 && cells1[k] == cells2[k]
    {
      var e :| e in cells1[k];
      assert InRange(entities[e], k);
      forall f
        ensures f in cells1[k] <==> f in cells2[k]
      {
        if f in cells1[k] || f in cells2[k] {
          assert InRange(entities[f], k);
        }
      }
    }
    forall k | k in cells2
      ensures k in cells1
    {
      var e :| e in cells2[k];
      assert InRange(entities[e], k);
    }
  }

  /** Moving past the end of one row of cells is the same as starting the next. */
  lemma NextRow(d: Data, i: int, j: int)
    requires j >= d.y.far
    ensures forall k :: Scanned(d, i, j, k) == Scanned(d, i + 1, d.y.near, k)
  {
  }

  /** Finishing a row of cells keeps the invariant of the loops, at the start of the next row. */
  lemma NextRowExcept<E>(entities: map<E, Data>, cells: map<Key, set<E>>, e: E, d: Data, i: int, j: int, inserting: bool)
    requires j >= d.y.far && IndexedExcept(entities, cells, e, d, i, j, inserting)
    ensures IndexedExcept(entities, cells, e, d, i + 1, d.y.near, inserting)
  {
    NextRow(d, i, j);
  }

  /**
   * One step of `update`'s loops on the maps: `e` joins cell (`i`, `j`), whose
   * set was `prior`, or a set from the free list, which is empty, when the cell
   * was vacant.
   */
  lemma InsertStep<E>(entities: map<E, Data>, cells: map<Key, set<E>>, e: E, d: Data, i: int, j: int, prior: set<E>)
    requires e in entities && entities[e] == d
    requires d.x.near <= i < d.x.far && d.y.near <= j < d.y.far
    requires IndexedExcept(entities, cells, e, d, i, j, true)
    requires prior == if Key(i, j) in cells then cells[Key(i, j)] else {}
    ensures IndexedExcept(entities, cells[Key(i, j) := prior + {e}], e, d, i, j + 1, true)
  {
  }

  /**
   * One step of `remove_impl`'s loops on the maps: cell (`i`, `j`) holds `e`,
   * and taking `e` out of it empties it exactly when `e` was all it held; an
   * emptied cell leaves the map.
   */
  lemma RemoveStep<E>(entities: map<E, Data>, cells: map<Key, set<E>>, e: E, d: Data, i: int, j: int)
    requires e !in entities
    requires d.x.near <= i < d.x.far && d.y.near <= j < d.y.far
    requires IndexedExcept(entities, cells, e, d, i, j, false)
    ensures Key(i, j) in cells && e in cells[Key(i, j)]
    ensures cells[Key(i, j)] - {e} == {} <==> cells[Key(i, j)] == {e}
    ensures cells[Key(i, j)] - {e} == {} ==> IndexedExcept(entities, cells - {Key(i, j)}, e, d, i, j + 1, false)
    ensures cells[Key(i, j)] - {e} != {} ==>
      IndexedExcept(entities, cells[Key(i, j) := cells[Key(i, j)] - {e}], e, d, i, j + 1, false)
  {
    var key := Key(i, j);
    assert InRange(d, key) && !Scanned(d, i, j, key);
    var cell := cells[key] - {e};
    if cell == {} {
      assert forall f :: f in cells[key] ==> f == e by {
        forall f | f in cells[key] && f != e
          ensures f in cell
        {
        }
      }
    }
  }

  /** Entities whose record is the same in two indexings are in the same cells in both. */
  lemma OthersKeepCells<E>(entities0: map<E, Data>, cells0: map<Key, set<E>>, entities: map<E, Data>, cells: map<Key, set<E>>)
    requires Indexed(entities0, cells0) && Indexed(entities, cells)
    requires forall f :: f in entities0 ==> f in entities && entities[f] == entities0[f]
    ensures forall f, k :: f in entities0 ==> ((k in cells && f in cells[k]) <==> (k in cells0 && f in cells0[k]))
  {
    forall f, k | f in entities0
      ensures (k in cells && f in cells[k]) <==> (k in cells0 && f in cells0[k])
    {
      assert entities[f] == entities0[f];
    }
  }

  /** Recording an entity that is in no cell starts `update`'s loops: none of its cells is visited yet. */
  lemma BeginInsert<E>(entities: map<E, Data>, cells: map<Key, set<E>>, e: E, d: Data)
    requires Indexed(entities, cells) && e !in entities
    ensures IndexedExcept(entities[e := d], cells, e, d, d.x.near, d.y.near, true)
  {
    var updated := entities[e := d];
    forall f, k | f in updated && f != e
      ensures InRange(updated[f], k) <==> k in cells && f in cells[k]
    {
      assert updated[f] == entities[f];
    }
  }

  /** Once every row is visited, the entity being added is in exactly its cells. */
  lemma EndInsert<E>(entities: map<E, Data>, cells: map<Key, set<E>>, e: E, d: Data, i: int)
    requires e in entities && entities[e] == d && i >= d.x.far
    requires IndexedExcept(entities, cells, e, d, i, d.y.near, true)
    ensures Indexed(entities, cells)
  {
  }

  /** Forgetting an entity starts `remove_impl`'s loops: it is still in all of its cells. */
  lemma BeginRemove<E>(entities: map<E, Data>, cells: map<Key, set<E>>, e: E, d: Data)
    requires Indexed(entities, cells) && e in entities && entities[e] == d
    ensures IndexedExcept(entities - {e}, cells, e, d, d.x.near, d.y.near, false)
  {
  }

  /** Once every row is visited, the forgotten entity is in no cell. */
  lemma EndRemove<E>(entities: map<E, Data>, cells: map<Key, set<E>>, e: E, d: Data, i: int)
    requires e !in entities && i >= d.x.far
    requires IndexedExcept(entities, cells, e, d, i, d.y.near, false)
    ensures Indexed(entities, cells)
  {
  }

  /** The larger of two integers. */
  function Larger(a: int, b: int): int { if a <= b then b else a }

  /**
   * The count of cell sets after insertion: with `cells0` populated cells and
   * `free0` free sets before, and `cells` populated cells and `free` free sets
   * after, insertion only added cells, each taking a set from the free list,
   * and allocated fresh sets only once the free list was used up.
   */
  predicate Grown(cells0: nat, free0: nat, cells: nat, free: nat)
  {
    cells0 <= cells && free + cells == Larger(free0 + cells0, cells)
  }

  /** The count of cell sets after removal: every cell it emptied went onto the free list. */
  predicate Shrunk(cells0: nat, free0: nat, cells: nat, free: nat)
  {
    cells <= cells0 && free + cells == free0 + cells0
  }

  /** Two insertions in a row count as one. */
  lemma GrownTransitive(c0: nat, f0: nat, c1: nat, f1: nat, c2: nat, f2: nat)
    requires Grown(c0, f0, c1, f1) && Grown(c1, f1, c2, f2)
    ensures Grown(c0, f0, c2, f2)
  {
  }

  /** Two removals in a row count as one. */
  lemma ShrunkTransitive(c0: nat, f0: nat, c1: nat, f1: nat, c2: nat, f2: nat)
    requires Shrunk(c0, f0, c1, f1) && Shrunk(c1, f1, c2, f2)
    ensures Shrunk(c0, f0, c2, f2)
  {
  }

  /** The number of populated cells, counted over the keys (it is the map's size, by `PopulatedIsSize`). */
  ghost function Populated<E>(cells: map<Key, set<E>>): nat
  {
    |set k | k in cells|
  }

  lemma PopulatedIsSize<E>(cells: map<Key, set<E>>)
    ensures Populated(cells) == |cells|
  {
    assert (set k | k in cells) == cells.Keys;
  }

  /** Two free lists of the same length hold the same (empty) sets. */
  lemma EmptyListsEqual<E>(l1: seq<set<E>>, l2: seq<set<E>>)
    requires AllEmpty(l1) && AllEmpty(l2) && |l1| == |l2|
    ensures l1 == l2
  {
    forall i | 0 <= i < |l1|
      ensures l1[i] == l2[i]
    {
    }
  }

  /** Populating a vacant cell adds one to the count. */
  lemma AddKeyCard<E>(m: map<Key, set<E>>, k: Key, v: set<E>)
    requires k !in m
    ensures Populated(m[k := v]) == Populated(m) + 1
  {
    PopulatedIsSize(m);
    PopulatedIsSize(m[k := v]);
  }

  /** Rebinding a populated cell keeps the count. */
  lemma UpdateKeyCard<E>(m: map<Key, set<E>>, k: Key, v: set<E>)
    requires k in m
    ensures Populated(m[k := v]) == Populated(m)
  {
    PopulatedIsSize(m);
    PopulatedIsSize(m[k := v]);
  }

  /** Evicting a populated cell takes one from the count. */
  lemma RemoveKeyCard<E>(m: map<Key, set<E>>, k: Key)
    requires k in m
    ensures Populated(m - {k}) == Populated(m) - 1
  {
    PopulatedIsSize(m);
    PopulatedIsSize(m - {k});
    assert (m - {k}).Keys == m.Keys - {k};
  }



  /**
   * `CacheGrid`. Every cell set the grid owns is either a populated cell or an
   * emptied set waiting on the free list, so `|freelist| + Populated(cells)`
   * counts them; removal keeps that count and insertion raises it only once the
   * free list is used up.
   */
  class CacheGrid<E(==)> {
    const scale: real
    var entities: map<E, Data>
    var cells: map<Key, set<E>>
    var freelist: seq<set<E>>

    ghost predicate Valid()
      reads this
    {
      Indexed(entities, cells) && AllEmpty(freelist)
    }

    /** `new`: an empty grid. */
    constructor (scale: real)
      ensures Valid()
      ensures this.scale == scale && entities == map[] && cells == map[] && freelist == []
    {
      this.scale := scale;
      entities := map[];
      cells := map[];
      freelist := [];
    }

    /**
     * `query`: every entity in a populated cell of the scaled range, which is
     * exactly the set of recorded entities whose cell range meets it.
     */
    method Query(x: Projection, y: Projection) returns (result: set<E>)
      requires Valid()
      ensures forall e :: e in result <==>
        exists k :: InRange(DataFrom(x, y, scale), k) && k in cells && e in cells[k]
      ensures forall e :: e in result <==> e in entities && Overlaps(entities[e], DataFrom(x, y, scale))
    {
      var q := DataFrom(x, y, scale);
      result := {};
      var i := q.x.near;
      while i < q.x.far
        invariant i == q.x.near || q.x.near <= i <= q.x.far
        invariant forall e :: e in result <==> exists k :: Scanned(q, i, q.y.near, k) && k in cells && e in cells[k]
      {
        var j := q.y.near;
        while j < q.y.far
          invariant j == q.y.near || q.y.near <= j <= q.y.far
          invariant forall e :: e in result <==> exists k :: Scanned(q, i, j, k) && k in cells && e in cells[k]
        {
          var key := Key(i, j);
          if key in cells {
            result := result + cells[key];
          }
          j := j + 1;
        }
        NextRow(q, i, j);
        i := i + 1;
      }
      forall e | e in entities
        ensures (exists k :: InRange(q, k) && k in cells && e in cells[k]) <==> Overlaps(entities[e], q)
      {
        OverlapsIffCommonCell(entities[e], q);
      }
    }

    /**
     * `update`: records the shape's scaled box as the entity's range and puts the
     * entity into exactly those cells, reusing emptied cell sets from the free
     * list. A range equal to the one recorded changes nothing.
     */
    method Update(e: E, s: Shape)
      requires Valid()
      requires s.hbound.x >= 0.0 && s.hbound.y >= 0.0
      modifies this
      ensures Valid()
      ensures entities == old(entities)[e := DataFrom(ProjectAligned(s).0, ProjectAligned(s).1, scale)]
      ensures old(e in entities && entities[e] == DataFrom(ProjectAligned(s).0, ProjectAligned(s).1, scale)) ==>
        cells == old(cells) && freelist == old(freelist)
      ensures forall k :: (k in cells && e in cells[k]) <==> InRange(DataFrom(ProjectAligned(s).0, ProjectAligned(s).1, scale), k)
      ensures forall f, k :: f in old(entities) && f != e ==>
        ((k in cells && f in cells[k]) <==> old(k in cells && f in cells[k]))
      ensures |freelist| + Populated(cells) == Larger(old(|freelist| + Populated(cells)), Populated(cells))
      ensures old(e !in entities) ==> Grown(old(Populated(cells)), old(|freelist|), Populated(cells), |freelist|)
      ensures Populated(cells) == old(Populated(cells)) ==> freelist == old(freelist)
    {
      var d := DataFrom(ProjectAligned(s).0, ProjectAligned(s).1, scale);
      if e in entities {
        if entities[e] == d {
          return;
        }
        Remove(e);
      }
      ghost var cellsBetween, entitiesBetween := cells, entities;
      assert forall f, k :: f in entitiesBetween ==>
        ((k in cellsBetween && f in cellsBetween[k]) <==> old(k in cells && f in cells[k]));
      assert forall f :: f in old(entities) && f != e ==> f in entitiesBetween;
      InsertCells(e, d);
      if Populated(cells) == old(Populated(cells)) {
        EmptyListsEqual(freelist, old(freelist));
      }
    }

    /** The loops of `update`: records `e` with range `d` and puts it into each cell of `d`, row by row. */
    method InsertCells(e: E, d: Data)
      requires Valid() && e !in entities
      modifies this
      ensures Valid()
      ensures entities == old(entities)[e := d]
      ensures forall k :: (k in cells && e in cells[k]) <==> InRange(d, k)
      ensures forall f, k :: f in old(entities) ==>
        ((k in cells && f in cells[k]) <==> old(k in cells && f in cells[k]))
      ensures Grown(old(Populated(cells)), old(|freelist|), Populated(cells), |freelist|)
    {
      BeginInsert(entities, cells, e, d);
      entities := entities[e := d];
      InsertRows(e, d);
      OthersKeepCells(old(entities), old(cells), entities, cells);
    }

    /** The outer loop of `update`: puts `e` into each row of `d` in turn. */
    method InsertRows(e: E, d: Data)
      requires e in entities && entities[e] == d
      requires IndexedExcept(entities, cells, e, d, d.x.near, d.y.near, true) && AllEmpty(freelist)
      modifies this
      ensures entities == old(entities)
      ensures Indexed(entities, cells) && AllEmpty(freelist)
      ensures Grown(old(Populated(cells)), old(|freelist|), Populated(cells), |freelist|)
    {
      var i := d.x.near;
      while i < d.x.far
        invariant i == d.x.near || d.x.near <= i <= d.x.far
        invariant entities == old(entities)
        invariant IndexedExcept(entities, cells, e, d, i, d.y.near, true)
        invariant AllEmpty(freelist)
        invariant Grown(old(Populated(cells)), old(|freelist|), Populated(cells), |freelist|)
      {
        ghost var c1, f1 := Populated(cells), |freelist|;
        InsertRow(e, d, i);
        GrownTransitive(old(Populated(cells)), old(|freelist|), c1, f1, Populated(cells), |freelist|);
        i := i + 1;
      }
      EndInsert(entities, cells, e, d, i);
    }

    /** The inner loop of `update`: puts `e` into each cell of row `i` of `d`. */
    method InsertRow(e: E, d: Data, i: int)
      requires e in entities && entities[e] == d && d.x.near <= i < d.x.far
      requires IndexedExcept(entities, cells, e, d, i, d.y.near, true) && AllEmpty(freelist)
      modifies this
      ensures entities == old(entities)
      ensures IndexedExcept(entities, cells, e, d, i + 1, d.y.near, true) && AllEmpty(freelist)
      ensures Grown(old(Populated(cells)), old(|freelist|), Populated(cells), |freelist|)
    {
      var j := d.y.near;
      while j < d.y.far
        invariant j == d.y.near || d.y.near <= j <= d.y.far
        invariant entities == old(entities)
        invariant IndexedExcept(entities, cells, e, d, i, j, true)
        invariant AllEmpty(freelist)
        invariant Grown(old(Populated(cells)), old(|freelist|), Populated(cells), |freelist|)
      {
        ghost var c1, f1 := Populated(cells), |freelist|;
        InsertCell(e, d, i, j);
        GrownTransitive(old(Populated(cells)), old(|freelist|), c1, f1, Populated(cells), |freelist|);
        j := j + 1;
      }
      NextRowExcept(entities, cells, e, d, i, j, true);
    }

    /** One step of `update`'s loops: puts `e` into cell (`i`, `j`), creating the cell if vacant. */
    method InsertCell(e: E, d: Data, i: int, j: int)
      requires e in entities && entities[e] == d
      requires d.x.near <= i < d.x.far && d.y.near <= j < d.y.far
      requires IndexedExcept(entities, cells, e, d, i, j, true) && AllEmpty(freelist)
      modifies this
      ensures entities == old(entities)
      ensures IndexedExcept(entities, cells, e, d, i, j + 1, true) && AllEmpty(freelist)
      ensures old(Key(i, j) in cells) ==> freelist == old(freelist)
      ensures old(Key(i, j) !in cells) ==>
        freelist == if |old(freelist)| > 0 then old(freelist)[..|old(freelist)| - 1] else old(freelist)
      ensures Grown(old(Populated(cells)), old(|freelist|), Populated(cells), |freelist|)
    {
      var key := Key(i, j);
      if key in cells {
        InsertStep(entities, cells, e, d, i, j, cells[key]);
        UpdateKeyCard(cells, key, cells[key] + {e});
        cells := cells[key := cells[key] + {e}];
      } else {
        var cell := PopFree();
        InsertStep(entities, cells, e, d, i, j, cell);
        AddKeyCard(cells, key, cell + {e});
        cells := cells[key := cell + {e}];
      }
    }

    /** `freelist.pop_back().unwrap_or_default()`: the last free set, or a new empty one when there is none. */
    method PopFree() returns (cell: set<E>)
      requires AllEmpty(freelist)
      modifies this
      ensures cell == {} && AllEmpty(freelist)
      ensures freelist == if |old(freelist)| > 0 then old(freelist)[..|old(freelist)| - 1] else old(freelist)
      ensures entities == old(entities) && cells == old(cells)
    {
      cell := {};
      if |freelist| > 0 {
        cell := freelist[|freelist| - 1];
        freelist := freelist[..|freelist| - 1];
      }
    }

    /** `freelist.push_back(..)` of an emptied cell set. */
    method PushFree(cell: set<E>)
      requires cell == {} && AllEmpty(freelist)
      modifies this
      ensures AllEmpty(freelist) && freelist == old(freelist) + [cell]
      ensures entities == old(entities) && cells == old(cells)
    {
      freelist := freelist + [cell];
    }

    /** `remove`: forgets the entity, if recorded; an unrecorded entity changes nothing. */
    method Remove(e: E)
      requires Valid()
      modifies this
      ensures Valid()
      ensures entities == old(entities) - {e}
      ensures old(e !in entities) ==> cells == old(cells) && freelist == old(freelist)
      ensures forall k :: k in cells ==> e !in cells[k]
      ensures forall f, k :: f in entities ==>
        ((k in cells && f in cells[k]) <==> old(k in cells && f in cells[k]))
      ensures Shrunk(old(Populated(cells)), old(|freelist|), Populated(cells), |freelist|)
    {
      if e in entities {
        RemoveImpl(e, entities[e]);
      }
    }

    /**
     * `remove_impl`: drops the entity's record, then takes it out of each cell of
     * its range, moving every cell that becomes empty onto the free list. The
     * assertion before each cell lookup is the `unwrap` that never fails.
     */
    method RemoveImpl(e: E, d: Data)
      requires Valid()
      requires e in entities && entities[e] == d
      modifies this
      ensures Valid()
      ensures entities == old(entities) - {e}
      ensures Shrunk(old(Populated(cells)), old(|freelist|), Populated(cells), |freelist|)
    {
      BeginRemove(entities, cells, e, d);
      entities := entities - {e};
      var i := d.x.near;
      while i < d.x.far
        invariant i == d.x.near || d.x.near <= i <= d.x.far
        invariant e !in entities && entities == old(entities) - {e}
        invariant IndexedExcept(entities, cells, e, d, i, d.y.near, false)
        invariant AllEmpty(freelist)
        invariant Shrunk(old(Populated(cells)), old(|freelist|), Populated(cells), |freelist|)
      {
        ghost var c1, f1 := Populated(cells), |freelist|;
        RemoveRow(e, d, i);
        ShrunkTransitive(old(Populated(cells)), old(|freelist|), c1, f1, Populated(cells), |freelist|);
        i := i + 1;
      }
      EndRemove(entities, cells, e, d, i);
    }

    /** The inner loop of `remove_impl`: takes `e` out of each cell of row `i` of `d`. */
    method RemoveRow(e: E, d: Data, i: int)
      requires e !in entities && d.x.near <= i < d.x.far
      requires IndexedExcept(entities, cells, e, d, i, d.y.near, false) && AllEmpty(freelist)
      modifies this
      ensures entities == old(entities)
      ensures IndexedExcept(entities, cells, e, d, i + 1, d.y.near, false) && AllEmpty(freelist)
      ensures Shrunk(old(Populated(cells)), old(|freelist|), Populated(cells), |freelist|)
    {
      var j := d.y.near;
      while j < d.y.far
        invariant j == d.y.near || d.y.near <= j <= d.y.far
        invariant entities == old(entities)
        invariant IndexedExcept(entities, cells, e, d, i, j, false)
        invariant AllEmpty(freelist)
        invariant Shrunk(old(Populated(cells)), old(|freelist|), Populated(cells), |freelist|)
      {
        ghost var c1, f1 := Populated(cells), |freelist|;
        RemoveCell(e, d, i, j);
        ShrunkTransitive(old(Populated(cells)), old(|freelist|), c1, f1, Populated(cells), |freelist|);
        j := j + 1;
      }
      NextRowExcept(entities, cells, e, d, i, j, false);
    }

    /** One step of `remove_impl`'s loops: takes `e` out of cell (`i`, `j`), freeing the cell if emptied. */
    method RemoveCell(e: E, d: Data, i: int, j: int)
      requires e !in entities
      requires d.x.near <= i < d.x.far && d.y.near <= j < d.y.far
      requires IndexedExcept(entities, cells, e, d, i, j, false) && AllEmpty(freelist)
      modifies this
      ensures entities == old(entities)
      ensures IndexedExcept(entities, cells, e, d, i, j + 1, false) && AllEmpty(freelist)
      ensures old(Key(i, j) in cells && cells[Key(i, j)] == {e}) ==>
        cells.Keys == old(cells).Keys - {Key(i, j)} && freelist == old(freelist) + [{}]
      ensures !old(Key(i, j) in cells && cells[Key(i, j)] == {e}) ==>
        cells.Keys == old(cells).Keys && freelist == old(freelist)
      ensures Shrunk(old(Populated(cells)), old(|freelist|), Populated(cells), |freelist|)
    {
      var key := Key(i, j);
      RemoveStep(entities, cells, e, d, i, j);
      var cell := cells[key] - {e};
      if cell == {} {
        PushFree(cell);
        RemoveKeyCard(cells, key);
        cells := cells - {key};
      } else {
        UpdateKeyCard(cells, key, cell);
        cells := cells[key := cell];
      }
    }
  }
}
