/**
 * The drawing canvas of grid_canvas.py: rectangles are drawn by dragging
 * between two grid-snapped corners, and each is tagged with the field that
 * was active when it was drawn.  The canvas keeps the list of rectangles,
 * the set of grid cells they cover and the set of fields that have one.
 * The grid size `g` (pixels per cell) is a positive integer.
 */
module Canvas {
  import opened Options
  import opened QtGeometry

  /** A grid cell as `(column, row)`. */
  type Cell = (int, int)

  /** grid_canvas.py's `snap_to_grid` on one coordinate: `v // g * g`. */
  function SnapCoord(v: int, g: int): (r: int)
    requires g > 0
    ensures r % g == 0
    ensures r <= v < r + g
  {
    DivUnique(v / g * g, g, v / g, 0);
    v / g * g
  }

  /** `snap_to_grid`: both coordinates go down to the grid line at or below them. */
  function SnapToGrid(p: Point, g: int): (q: Point)
    requires g > 0
    ensures q.x % g == 0 && q.x <= p.x < q.x + g
    ensures q.y % g == 0 && q.y <= p.y < q.y + g
  {
    Point(SnapCoord(p.x, g), SnapCoord(p.y, g))
  }

  /** The snapped coordinate is the only multiple of `g` in `(v - g, v]`. */
  lemma SnapCoordUnique(v: int, g: int, r: int)
    requires g > 0
    requires r % g == 0 && r <= v < r + g
    ensures r == SnapCoord(v, g)
  {
    var k := r / g;
    DivUnique(v, g, k, v - r);
  }

  lemma SnapIdempotent(p: Point, g: int)
    requires g > 0
    ensures SnapToGrid(SnapToGrid(p, g), g) == SnapToGrid(p, g)
  {
    var q := SnapToGrid(p, g);
    SnapCoordUnique(q.x, g, q.x);
    SnapCoordUnique(q.y, g, q.y);
  }

  predicate IsSnapped(p: Point, g: int)
    requires g > 0
  {
    p.x % g == 0 && p.y % g == 0
  }

  /** The cells of columns `c0 <= c < c1` and rows `r0 <= r < r1`. */
  function Block(c0: int, c1: int, r0: int, r1: int): set<Cell>
  {
    set c: int, r: int | c0 <= c < c1 && r0 <= r < r1 :: (c, r)
  }

  /**
   * The cells `get_cells_in_rect` reports: columns `left // g` through
   * `(right - 1) // g` and rows `top // g` through `(bottom - 1) // g`.
   */
  function RectCells(rect: Rect, g: int): set<Cell>
    requires g > 0
  {
    Block(rect.Left() / g, (rect.Right() - 1) / g + 1, rect.Top() / g, (rect.Bottom() - 1) / g + 1)
  }

  lemma BlockEmpty(c0: int, c1: int, r0: int, r1: int)
    requires c1 <= c0 || r1 <= r0
    ensures Block(c0, c1, r0, r1) == {}
  {
  }

  lemma BlockAddColumn(c0: int, c: int, r0: int, r1: int)
    requires c0 <= c
    ensures Block(c0, c, r0, r1) + Block(c, c + 1, r0, r1) == Block(c0, c + 1, r0, r1)
  {
  }

  lemma BlockAddRow(c: int, r0: int, r: int)
    requires r0 <= r
    ensures Block(c, c + 1, r0, r) + {(c, r)} == Block(c, c + 1, r0, r + 1)
  {
  }

  /** grid_canvas.py's `get_cells_in_rect`: two nested loops filling a set. */
  method CellsInRect(rect: Rect, g: int) returns (cells: set<Cell>)
    requires g > 0
    ensures cells == RectCells(rect, g)
  {
    cells := {};
    var left := rect.Left() / g;
    var top := rect.Top() / g;
    var right := (rect.Right() - 1) / g;
    var bottom := (rect.Bottom() - 1) / g;
    var x := left;
    while x < right + 1
      invariant left <= x && (x == left || x <= right + 1)
      invariant cells == Block(left, x, top, bottom + 1)
    {
      var y := top;
      while y < bottom + 1
        invariant top <= y && (y == top || y <= bottom + 1)
        invariant cells == Block(left, x, top, bottom + 1) + Block(x, x + 1, top, y)
      {
        BlockAddRow(x, top, y);
        cells := cells + {(x, y)};
        y := y + 1;
      }
      if y == top {
        BlockEmpty(x, x + 1, top, y);
        BlockEmpty(left, x + 1, top, bottom + 1);
        BlockEmpty(left, x, top, bottom + 1);
      }
      BlockAddColumn(left, x, top, bottom + 1);
      x := x + 1;
    }
    if x == left {
      BlockEmpty(left, x, top, bottom + 1);
      BlockEmpty(left, right + 1, top, bottom + 1);
    }
  }

  /**
   * grid_canvas.py's `is_in_frozen_area`: the top three grid rows are
   * reserved.  Only the top edge decides; the bottom row is computed and
   * ignored by the source.
   */
  function IsInFrozenArea(rect: Rect, g: int): (frozen: bool)
    requires g > 0
    ensures frozen <==> rect.Top() < 3 * g
  {
    FrozenRowsBelow(rect.Top(), g);
    rect.Top() / g < 3
  }

  lemma FrozenRowsBelow(t: int, g: int)
    requires g > 0
    ensures t / g < 3 <==> t < 3 * g
  {
    var q := t / g;
    if q < 3 {
      MulMonotone(q, 2, g);
    } else {
      MulMonotone(3, q, g);
    }
  }

  function Min(a: int, b: int): int { if a <= b then a else b }
  function Max(a: int, b: int): int { if a <= b then b else a }

  /** The rectangle a release builds: `QRect(start, end).normalized()`. */
  function Draft(start: Point, end: Point): Rect
  {
    FromCorners(start, end).Normalized()
  }

  /**
   * The release guards, in the source's order: outside the frozen band,
   * non-zero width and height, and no cell shared with the occupied ones.
   */
  predicate Admissible(rect: Rect, occupied: set<Cell>, g: int)
    requires g > 0
  {
    !IsInFrozenArea(rect, g) && rect.Width() != 0 && rect.Height() != 0
    && RectCells(rect, g) !! occupied
  }

  lemma MulAtLeast(d: int, g: int)
    requires d >= 1 && g > 0
    ensures d * g >= g
  {
    if d > 1 {
      MulAtLeast(d - 1, g);
      assert d * g == (d - 1) * g + g;
    }
  }

  lemma MulMonotone(a: int, b: int, g: int)
    requires a <= b && g > 0
    ensures a * g <= b * g
  {
    if a < b {
      MulAtLeast(b - a, g);
      assert b * g - a * g == (b - a) * g;
    }
  }

  /** Floor division is determined by quotient and remainder. */
  lemma DivUnique(a: int, g: int, q: int, r: int)
    requires g > 0 && a == q * g + r && 0 <= r < g
    ensures a / g == q && a % g == r
  {
    var q' := a / g;
    assert (q' + 1) * g == q' * g + g;
    assert (q + 1) * g == q * g + g;
    if q' < q {
      MulMonotone(q' + 1, q, g);
    } else if q < q' {
      MulMonotone(q + 1, q', g);
    }
  }

  /** A multiple of `g`, less `m` in `[1, g]`, floor-divides to one less. */
  lemma DivBelowMultiple(a: int, g: int, m: int)
    requires g > 0 && a % g == 0 && 1 <= m <= g
    ensures (a - m) / g == a / g - 1
  {
    var k := a / g;
    assert (k - 1) * g == k * g - g;
    DivUnique(a - m, g, k - 1, g - m);
  }

  lemma MultipleDivLess(a: int, b: int, g: int)
    requires g > 0 && a % g == 0 && b % g == 0 && a < b
    ensures a / g < b / g
  {
    DivBelowMultiple(b, g, 1);
    DivUnique(a, g, a / g, 0);
    DivUnique(b - 1, g, b / g - 1, g - 1);
  }

  lemma DivAboveMultiple(a: int, g: int, m: int)
    requires g > 0 && a % g == 0 && 0 <= m < g
    ensures (a + m) / g == a / g
  {
    DivUnique(a + m, g, a / g, m);
  }

  /** Two different multiples of `g` are at least `g` apart. */
  lemma MultiplesApart(a: int, b: int, g: int)
    requires g > 0 && a % g == 0 && b % g == 0 && b < a
    ensures b <= a - g
  {
    var ka, kb := a / g, b / g;
    if kb < ka {
      MulMonotone(kb, ka - 1, g);
      assert (ka - 1) * g == ka * g - g;
    } else {
      MulMonotone(ka, kb, g);
    }
  }

  /**
   * One axis of a drag between two snapped coordinates, when `g >= 2`:
   * whichever way the drag went, the cell range is `[min / g, max / g)` and
   * the size is positive.
   */
  lemma SnappedAxis(a: int, b: int, g: int)
    requires g >= 2 && a % g == 0 && b % g == 0
    ensures NormLow(a, b) / g == Min(a, b) / g
    ensures (NormHigh(a, b) - 1) / g + 1 == Max(a, b) / g
    ensures NormHigh(a, b) - NormLow(a, b) + 1 >= 1
  {
    if b < a {
      DivAboveMultiple(b, g, 1);
      DivBelowMultiple(a, g, 2);
      MultiplesApart(a, b, g);
    } else {
      DivBelowMultiple(b, g, 1);
    }
  }

  /**
   * What a release sees when both corners are snapped and `g >= 2`: the
   * rectangle is never empty, it is frozen exactly when its higher corner
   * is above row 3, and it covers exactly the cells between the corners.
   */
  lemma SnappedDraft(start: Point, end: Point, g: int)
    requires g >= 2 && IsSnapped(start, g) && IsSnapped(end, g)
    ensures Draft(start, end).Width() > 0 && Draft(start, end).Height() > 0
    ensures IsInFrozenArea(Draft(start, end), g) <==> Min(start.y, end.y) < 3 * g
    ensures RectCells(Draft(start, end), g)
         == Block(Min(start.x, end.x) / g, Max(start.x, end.x) / g,
                  Min(start.y, end.y) / g, Max(start.y, end.y) / g)
  {
    SnappedAxis(start.x, end.x, g);
    SnappedAxis(start.y, end.y, g);
    FrozenRowsBelow(Min(start.y, end.y), g);
    FrozenRowsBelow(Draft(start, end).Top(), g);
  }

  /**
   * A drag to the right and down covers columns `x1 / g .. x2 / g - 1` and
   * rows `y1 / g .. y2 / g - 1`, for any grid size.
   */
  lemma ForwardDraft(start: Point, end: Point, g: int)
    requires g > 0 && IsSnapped(start, g) && IsSnapped(end, g)
    requires start.x <= end.x && start.y <= end.y
    ensures Draft(start, end) == FromCorners(start, end)
    ensures RectCells(Draft(start, end), g) == Block(start.x / g, end.x / g, start.y / g, end.y / g)
  {
    DivBelowMultiple(end.x, g, 1);
    DivBelowMultiple(end.y, g, 1);
  }

  /**
   * A rectangle one grid unit wide covers exactly the column `start.x / g`,
   * over the rows `start.y / g .. end.y / g - 1`: nothing outside that
   * column, and, unless the drag has no height, every row of it.
   */
  lemma OneUnitWide(start: Point, end: Point, g: int)
    requires g > 0 && IsSnapped(start, g) && IsSnapped(end, g)
    requires end.x == start.x + g && start.y <= end.y
    ensures RectCells(Draft(start, end), g) == Block(start.x / g, start.x / g + 1, start.y / g, end.y / g)
    ensures forall cell :: cell in RectCells(Draft(start, end), g) ==> cell.0 == start.x / g
    ensures start.y < end.y ==> (start.x / g, start.y / g) in RectCells(Draft(start, end), g)
    ensures start.y == end.y ==> RectCells(Draft(start, end), g) == {}
  {
    var c := start.x / g;
    ForwardDraft(start, end, g);
    DivAboveMultiple(start.x, g, 0);
    assert end.x / g == c + 1 by {
      DivUnique(end.x, g, c + 1, 0);
    }
    var cells := Block(c, c + 1, start.y / g, end.y / g);
    assert RectCells(Draft(start, end), g) == cells;
    if start.y < end.y {
      MultipleDivLess(start.y, end.y, g);
      assert (c, start.y / g) in cells;
    } else {
      BlockEmpty(c, c + 1, start.y / g, end.y / g);
    }
  }

  /**
   * A click without a drag builds a 1x1 rectangle that covers no cell, so
   * the overlap guard passes it and it is committed whenever it is below
   * the frozen band.
   */
  lemma ClickCoversNothing(p: Point, occupied: set<Cell>, g: int)
    requires g > 0 && IsSnapped(p, g)
    ensures Draft(p, p).Width() == 1 && Draft(p, p).Height() == 1
    ensures RectCells(Draft(p, p), g) == {}
    ensures Admissible(Draft(p, p), occupied, g) <==> p.y >= 3 * g
  {
    ForwardDraft(p, p, g);
  }

  /** The colour every committed rectangle gets: `QColor(0, 100, 255)`. */
  datatype Color = Color(red: int, green: int, blue: int)

  const RectColor := Color(0, 100, 255)

  /** One entry of `rects`: `(rect, color, field_name)`. */
  datatype Placed = Placed(rect: Rect, color: Color, field: string)

  /** One call of the field-selected callback: `callback(field, remove=...)`. */
  datatype Notice = Notice(field: string, remove: bool)

  /** The union of the cells of all rectangles. */
  function AllCells(rects: seq<Placed>, g: int): set<Cell>
    requires g > 0
  {
    if |rects| == 0 then {}
    else AllCells(rects[..|rects| - 1], g) + RectCells(rects[|rects| - 1].rect, g)
  }

  /** The fields that have a rectangle. */
  function Names(rects: seq<Placed>): set<string>
  {
    if |rects| == 0 then {}
    else Names(rects[..|rects| - 1]) + {rects[|rects| - 1].field}
  }

  lemma AllCellsAppend(rects: seq<Placed>, p: Placed, g: int)
    requires g > 0
    ensures AllCells(rects + [p], g) == AllCells(rects, g) + RectCells(p.rect, g)
    ensures Names(rects + [p]) == Names(rects) + {p.field}
  {
    assert (rects + [p])[..|rects|] == rects;
  }

  lemma {:induction false} AllCellsConcat(a: seq<Placed>, b: seq<Placed>, g: int)
    requires g > 0
    ensures AllCells(a + b, g) == AllCells(a, g) + AllCells(b, g)
    ensures Names(a + b) == Names(a) + Names(b)
  {
    if |b| == 0 {
      assert a + b == a;
    } else {
      var b' := b[..|b| - 1];
      AllCellsConcat(a, b', g);
      assert a + b == (a + b') + [b[|b| - 1]];
      AllCellsAppend(a + b', b[|b| - 1], g);
    }
  }

  /** Every rectangle's cells are among all the cells. */
  lemma {:induction false} CellsOfEach(rects: seq<Placed>, i: int, g: int)
    requires g > 0 && 0 <= i < |rects|
    ensures RectCells(rects[i].rect, g) <= AllCells(rects, g)
  {
    if i < |rects| - 1 {
      CellsOfEach(rects[..|rects| - 1], i, g);
    }
  }

  /** A field has a rectangle exactly when it is in `Names`. */
  lemma {:induction false} NamesMembers(rects: seq<Placed>, f: string)
    ensures f in Names(rects) <==> exists i :: 0 <= i < |rects| && rects[i].field == f
  {
    if |rects| > 0 {
      var init := rects[..|rects| - 1];
      NamesMembers(init, f);
      if f in Names(init) {
        var i :| 0 <= i < |init| && init[i].field == f;
        assert rects[i].field == f;
      }
      if exists i :: 0 <= i < |rects| && rects[i].field == f {
        var i :| 0 <= i < |rects| && rects[i].field == f;
        if i < |rects| - 1 {
          assert init[i].field == f;
        }
      }
    }
  }

  /** `clear_rect_by_field`'s loop keeps, in order, every rectangle of another field. */
  function WithoutField(rects: seq<Placed>, name: string): seq<Placed>
  {
    if |rects| == 0 then []
    else
      WithoutField(rects[..|rects| - 1], name)
      + (if rects[|rects| - 1].field != name then [rects[|rects| - 1]] else [])
  }

  /** Scanning one more rectangle keeps it exactly when it belongs to another field. */
  lemma WithoutFieldSnoc(all: seq<Placed>, name: string, i: int)
    requires 0 <= i < |all|
    ensures WithoutField(all[..i + 1], name)
         == WithoutField(all[..i], name) + (if all[i].field != name then [all[i]] else [])
  {
    assert all[..i + 1][..i] == all[..i];
  }

  /** Deleting a field keeps exactly the rectangles of the other fields. */
  lemma {:induction false} WithoutFieldMembers(rects: seq<Placed>, name: string, p: Placed)
    ensures p in WithoutField(rects, name) <==> p in rects && p.field != name
  {
    if |rects| > 0 {
      var init := rects[..|rects| - 1];
      WithoutFieldMembers(init, name, p);
      assert rects == init + [rects[|rects| - 1]];
    }
  }

  /** Deleting a field drops its name and no other. */
  lemma WithoutFieldNames(rects: seq<Placed>, name: string)
    ensures Names(WithoutField(rects, name)) == Names(rects) - {name}
  {
    var kept := WithoutField(rects, name);
    forall f
      ensures f in Names(kept) <==> f in Names(rects) && f != name
    {
      NamesMembers(kept, f);
      NamesMembers(rects, f);
      if f in Names(kept) {
        var p :| p in kept && p.field == f;
        WithoutFieldMembers(rects, name, p);
      }
      if f in Names(rects) && f != name {
        var p :| p in rects && p.field == f;
        WithoutFieldMembers(rects, name, p);
      }
    }
  }

  /** Deleting a field can only drop cells. */
  lemma {:induction false} WithoutFieldCells(rects: seq<Placed>, name: string, g: int)
    requires g > 0
    ensures AllCells(WithoutField(rects, name), g) <= AllCells(rects, g)
  {
    if |rects| > 0 {
      var init := rects[..|rects| - 1];
      var last := rects[|rects| - 1];
      WithoutFieldCells(init, name, g);
      var kept := WithoutField(init, name);
      assert AllCells(rects, g) == AllCells(init, g) + RectCells(last.rect, g);
      if last.field != name {
        assert WithoutField(rects, name) == kept + [last];
        AllCellsAppend(kept, last, g);
      } else {
        assert WithoutField(rects, name) == kept;
      }
    }
  }

  /** Deleting a field that has no rectangle changes nothing. */
  lemma {:induction false} WithoutAbsentField(rects: seq<Placed>, name: string)
    requires name !in Names(rects)
    ensures WithoutField(rects, name) == rects
  {
    if |rects| > 0 {
      var init := rects[..|rects| - 1];
      WithoutAbsentField(init, name);
      assert rects == init + [rects[|rects| - 1]];
    }
  }

  /** No two rectangles share a cell. */
  ghost predicate PairwiseDisjoint(rects: seq<Placed>, g: int)
    requires g > 0
  {
    forall i, j :: 0 <= i < j < |rects| ==> RectCells(rects[i].rect, g) !! RectCells(rects[j].rect, g)
  }

  /** Appending keeps the rectangles disjoint exactly when the new one avoids all cells. */
  lemma DisjointAppend(rects: seq<Placed>, p: Placed, g: int)
    requires g > 0
    ensures PairwiseDisjoint(rects + [p], g)
        <==> PairwiseDisjoint(rects, g) && RectCells(p.rect, g) !! AllCells(rects, g)
  {
    var s := rects + [p];
    if PairwiseDisjoint(s, g) {
      forall i | 0 <= i < |rects|
        ensures RectCells(rects[i].rect, g) !! RectCells(p.rect, g)
      {
        assert s[i] == rects[i] && s[|rects|] == p;
      }
      assert PairwiseDisjoint(rects, g) by {
        forall i, j | 0 <= i < j < |rects|
          ensures RectCells(rects[i].rect, g) !! RectCells(rects[j].rect, g)
        {
          assert s[i] == rects[i] && s[j] == rects[j];
        }
      }
      AvoidsEach(rects, p, g);
    }
    if PairwiseDisjoint(rects, g) && RectCells(p.rect, g) !! AllCells(rects, g) {
      forall i, j | 0 <= i < j < |s|
        ensures RectCells(s[i].rect, g) !! RectCells(s[j].rect, g)
      {
        if j == |rects| {
          CellsOfEach(rects, i, g);
        } else {
          assert s[i] == rects[i] && s[j] == rects[j];
        }
      }
    }
  }

  lemma {:induction false} AvoidsEach(rects: seq<Placed>, p: Placed, g: int)
    requires g > 0
    requires forall i :: 0 <= i < |rects| ==> RectCells(rects[i].rect, g) !! RectCells(p.rect, g)
    ensures RectCells(p.rect, g) !! AllCells(rects, g)
  {
    if |rects| > 0 {
      AvoidsEach(rects[..|rects| - 1], p, g);
    }
  }

  lemma {:induction false} WithoutFieldDisjoint(rects: seq<Placed>, name: string, g: int)
    requires g > 0 && PairwiseDisjoint(rects, g)
    ensures PairwiseDisjoint(WithoutField(rects, name), g)
  {
    if |rects| > 0 {
      var init := rects[..|rects| - 1];
      var last := rects[|rects| - 1];
      assert rects == init + [last];
      DisjointAppend(init, last, g);
      WithoutFieldDisjoint(init, name, g);
      if last.field != name {
        WithoutFieldCells(init, name, g);
        DisjointAppend(WithoutField(init, name), last, g);
      }
    }
  }

  /** What `clear_rect_by_field` relies on, gathered for one call. */
  lemma DeletionFacts(rects: seq<Placed>, name: string, g: int)
    requires g > 0
    ensures Names(WithoutField(rects, name)) == Names(rects) - {name}
    ensures forall p :: p in WithoutField(rects, name) <==> p in rects && p.field != name
    ensures PairwiseDisjoint(rects, g) ==> PairwiseDisjoint(WithoutField(rects, name), g)
  {
    WithoutFieldNames(rects, name);
    forall p | true
      ensures p in WithoutField(rects, name) <==> p in rects && p.field != name
    {
      WithoutFieldMembers(rects, name, p);
    }
    if PairwiseDisjoint(rects, g) {
      WithoutFieldDisjoint(rects, name, g);
    }
  }

  /** Python truthiness of `active_field`: `None` and `""` are false. */
  predicate FieldSet(f: Option<string>)
  {
    f.Some? && f.value != ""
  }

  /** Python truthiness of a draft corner: `None` and the null point are false. */
  predicate PointSet(p: Option<Point>)
  {
    p.Some? && !p.value.IsNull()
  }

  /** A release gets as far as building a rectangle. */
  predicate Armed(active: Option<string>, start: Option<Point>, end: Option<Point>)
  {
    FieldSet(active) && PointSet(start) && PointSet(end)
  }

  predicate SnappedOrNone(p: Option<Point>, g: int)
    requires g > 0
  {
    p.Some? ==> IsSnapped(p.value, g)
  }

  /** One pass of that loop: rectangle `i` is kept when it belongs to another field. */
  method KeepStep(all: seq<Placed>, name: string, g: int, i: int, kept: seq<Placed>, cells: set<Cell>)
    returns (kept': seq<Placed>, cells': set<Cell>)
    requires g > 0 && 0 <= i < |all|
    requires kept == WithoutField(all[..i], name) && cells == AllCells(kept, g)
    ensures kept' == WithoutField(all[..i + 1], name) && cells' == AllCells(kept', g)
  {
    var p := all[i];
    WithoutFieldSnoc(all, name, i);
    kept', cells' := kept, cells;
    if p.field != name {
      AllCellsAppend(kept, p, g);
      var c := CellsInRect(p.rect, g);
      kept' := kept + [p];
      cells' := cells + c;
    } else {
      assert kept + [] == kept;
    }
  }

  /**
   * The loop of `clear_rect_by_field`: keeps the rectangles of every other
   * field, in order, and collects the cells they cover.
   */
  method KeepOtherFields(all: seq<Placed>, name: string, g: int) returns (kept: seq<Placed>, cells: set<Cell>)
    requires g > 0
    ensures kept == WithoutField(all, name)
    ensures cells == AllCells(kept, g)
  {
    kept := [];
    cells := {};
    var i := 0;
    while i < |all|
      invariant 0 <= i <= |all|
      invariant kept == WithoutField(all[..i], name)
      invariant cells == AllCells(kept, g)
    {
      kept, cells := KeepStep(all, name, g, i, kept, cells);
      i := i + 1;
    }
    assert all[..i] == all;
  }

  /** grid_canvas.py's `GridCanvas`, without its painting. */
  class GridCanvas {
    const g: int
    var fields: seq<string>
    var rects: seq<Placed>
    var occupied: set<Cell>
    var usedFields: set<string>
    var startPoint: Option<Point>
    var endPoint: Option<Point>
    var activeField: Option<string>
    /** Every call of `field_selected_callback`, oldest first. */
    var notices: seq<Notice>

    /**
     * The occupied cells are the union of the rectangles' cells and the
     * used fields are the rectangles' fields.
     */
    ghost predicate Valid()
      reads this
    {
      && g > 0
      && occupied == AllCells(rects, g)
      && usedFields == Names(rects)
    }

    /** Draft corners, when present, lie on grid lines. */
    ghost predicate DraftOnGrid()
      reads this
    {
      g > 0 && SnappedOrNone(startPoint, g) && SnappedOrNone(endPoint, g)
    }

    constructor (fields: seq<string>, g: int)
      requires g > 0
      ensures Valid() && DraftOnGrid()
      ensures this.g == g && this.fields == fields
      ensures rects == [] && occupied == {} && usedFields == {} && notices == []
      ensures startPoint == None && endPoint == None && activeField == None
    {
      this.g := g;
      this.fields := fields;
      rects := [];
      occupied := {};
      usedFields := {};
      startPoint := None;
      endPoint := None;
      activeField := None;
      notices := [];
    }

    /** `set_active_field`. */
    method SetActiveField(name: string)
      requires Valid()
      modifies this`activeField
      ensures Valid()
      ensures activeField == Some(name)
    {
      activeField := Some(name);
    }

    /**
     * `mousePressEvent`: with an active field and the left button, a draft
     * starts with both corners at the snapped point; otherwise nothing changes.
     */
    method BeginCreate(p: Point, leftButton: bool)
      requires Valid() && DraftOnGrid()
      modifies this`startPoint, this`endPoint
      ensures Valid() && DraftOnGrid()
      ensures FieldSet(activeField) && leftButton ==>
                startPoint == Some(SnapToGrid(p, g)) && endPoint == startPoint
      ensures !(FieldSet(activeField) && leftButton) ==>
                startPoint == old(startPoint) && endPoint == old(endPoint)
    {
      if FieldSet(activeField) && leftButton {
        startPoint := Some(SnapToGrid(p, g));
        endPoint := startPoint;
      }
    }

    /** `mouseMoveEvent`: a started draft follows the mouse, snapped. */
    method UpdateCreate(p: Point)
      requires Valid() && DraftOnGrid()
      modifies this`endPoint
      ensures Valid() && DraftOnGrid()
      ensures endPoint == if PointSet(startPoint) then Some(SnapToGrid(p, g)) else old(endPoint)
    {
      if PointSet(startPoint) {
        endPoint := Some(SnapToGrid(p, g));
      }
    }

    /**
     * Commits one rectangle for `field`, as the release handler and the
     * preloading of saved rectangles both do: the entry is appended in the
     * standard colour, its cells join the occupied ones, its field joins
     * the used ones and the callback is told.  Disjointness is kept when
     * the new cells avoid the occupied ones.
     */
    method AddRect(rect: Rect, cells: set<Cell>, field: string)
      requires Valid() && cells == RectCells(rect, g)
      modifies this`rects, this`occupied, this`usedFields, this`notices
      ensures Valid()
      ensures rects == old(rects) + [Placed(rect, RectColor, field)]
      ensures occupied == old(occupied) + cells
      ensures usedFields == old(usedFields) + {field}
      ensures notices == old(notices) + [Notice(field, false)]
      ensures old(PairwiseDisjoint(rects, g)) && cells !! old(occupied) ==> PairwiseDisjoint(rects, g)
    {
      var placed := Placed(rect, RectColor, field);
      AllCellsAppend(rects, placed, g);
      DisjointAppend(rects, placed, g);
      rects := rects + [placed];
      occupied := occupied + cells;
      usedFields := usedFields + {field};
      notices := notices + [Notice(field, false)];
    }

    /**
     * `mouseReleaseEvent`.  Without an active field, or without both draft
     * corners, nothing changes.  Otherwise the draft is cleared, and the
     * normalized rectangle is committed for the active field if it passes
     * the frozen, size and overlap guards; the active field then goes back
     * to none.  A rejected rectangle leaves the active field set.
     */
    method EndCreate()
      requires Valid() && DraftOnGrid()
      modifies this`rects, this`occupied, this`usedFields, this`notices
      modifies this`activeField, this`startPoint, this`endPoint
      ensures Valid() && DraftOnGrid()
      ensures !Armed(old(activeField), old(startPoint), old(endPoint)) ==>
                && rects == old(rects) && occupied == old(occupied) && usedFields == old(usedFields)
                && notices == old(notices) && activeField == old(activeField)
                && startPoint == old(startPoint) && endPoint == old(endPoint)
      ensures Armed(old(activeField), old(startPoint), old(endPoint)) ==>
                startPoint == None && endPoint == None
      ensures Armed(old(activeField), old(startPoint), old(endPoint)) ==>
                var rect := Draft(old(startPoint).value, old(endPoint).value);
                var field := old(activeField).value;
                if Admissible(rect, old(occupied), g) then
                  && rects == old(rects) + [Placed(rect, RectColor, field)]
                  && occupied == old(occupied) + RectCells(rect, g)
                  && usedFields == old(usedFields) + {field}
                  && notices == old(notices) + [Notice(field, false)]
                  && activeField == None
                else
                  && rects == old(rects) && occupied == old(occupied) && usedFields == old(usedFields)
                  && notices == old(notices) && activeField == old(activeField)
      ensures |rects| > |old(rects)| ==> !IsInFrozenArea(rects[|rects| - 1].rect, g)
      ensures old(PairwiseDisjoint(rects, g)) ==> PairwiseDisjoint(rects, g)
    {
      if !FieldSet(activeField) {
        return;
      }
      if PointSet(startPoint) && PointSet(endPoint) {
        var rect := FromCorners(startPoint.value, endPoint.value).Normalized();
        if IsInFrozenArea(rect, g) {
          startPoint := None;
          endPoint := None;
          return;
        }
        if rect.Width() == 0 || rect.Height() == 0 {
          startPoint := None;
          endPoint := None;
          return;
        }
        var newCells := CellsInRect(rect, g);
        if newCells !! occupied {  // `not (new_cells & self.occupied_cells)`
          AddRect(rect, newCells, activeField.value);
          activeField := None;
        }
        startPoint := None;
        endPoint := None;
      }
    }

    /**
     * `clear_rect_by_field`: rebuilds the list without that field's
     * rectangles and the occupied cells from what is left; the field is
     * unmarked, with one `remove=True` callback, only if it was marked.
     */
    method ClearRectByField(name: string)
      requires Valid()
      modifies this`rects, this`occupied, this`usedFields, this`notices
      ensures Valid()
      ensures rects == WithoutField(old(rects), name)
      ensures forall p :: p in rects <==> p in old(rects) && p.field != name
      ensures occupied == AllCells(rects, g)
      ensures usedFields == old(usedFields) - {name}
      ensures notices == old(notices) + (if name in old(usedFields) then [Notice(name, true)] else [])
      ensures old(PairwiseDisjoint(rects, g)) ==> PairwiseDisjoint(rects, g)
    {
      var all := rects;
      var newRects, newOccupied := KeepOtherFields(all, name, g);
      DeletionFacts(all, name, g);
      rects := newRects;
      occupied := newOccupied;
      if name in usedFields {
        usedFields := usedFields - {name};
        notices := notices + [Notice(name, true)];
      }
    }
  }

}
