/**
 The geometry of shelf packing: boxes placed left to right in rows, with a gap between them, and
 what placing one more box keeps.
 */
module Shelves {

  datatype Size = Size(w: int, h: int)
  datatype Point = Point(x: int, y: int)

  // ----- Positions ------------------------------------------------------------------------------------

  /** The two boxes are at least `gap` apart along one of the axes. */
  predicate Apart(p: Point, s: Size, q: Point, t: Size, gap: int) {
    p.x + s.w + gap <= q.x || q.x + t.w + gap <= p.x || p.y + s.h + gap <= q.y || q.y + t.h + gap <= p.y
  }

  /** Any two boxes are apart. */
  ghost predicate AllApart(sizes: seq<Size>, pos: seq<Point>, gap: int)
    requires |pos| <= |sizes|
  {
    forall i, j :: 0 <= i < j < |pos| ==> Apart(pos[i], sizes[i], pos[j], sizes[j], gap)
  }

  /** A box ends within the limit, or it stands alone in its row. */
  ghost predicate RowsFit(sizes: seq<Size>, pos: seq<Point>, limit: int)
    requires |pos| <= |sizes|
  {
    forall i :: 0 <= i < |pos| ==>
      pos[i].x + sizes[i].w <= limit
      || (pos[i].x == 0 && forall j :: 0 <= j < |pos| && j != i ==> pos[j].y != pos[i].y)
  }

  /** Rows are filled greedily, starting at the origin. */
  ghost predicate Greedy(sizes: seq<Size>, pos: seq<Point>, limit: int, gap: int)
    requires |pos| <= |sizes|
  {
    && (pos != [] ==> pos[0] == Point(0, 0))
    && forall i :: 1 <= i < |pos| ==> Follows(sizes, pos, i, limit, gap)
  }

  /** A box stands right behind its predecessor when it fits there, and else starts a row just below the
      tallest box of the row before. */
  ghost predicate Follows(sizes: seq<Size>, pos: seq<Point>, i: nat, limit: int, gap: int)
    requires 1 <= i < |pos| <= |sizes|
  {
    var x := pos[i - 1].x + sizes[i - 1].w + gap;
    if x + sizes[i].w <= limit then pos[i] == Point(x, pos[i - 1].y)
    else pos[i].x == 0 && exists j :: TightBelowAt(sizes, pos, i, j, gap)
  }

  /** Box `j` of the predecessor's row ends exactly `gap` above box `i`. */
  predicate TightBelowAt(sizes: seq<Size>, pos: seq<Point>, i: nat, j: int, gap: int)
    requires 1 <= i < |pos| <= |sizes|
  {
    0 <= j < i && pos[j].y == pos[i - 1].y && pos[j].y + sizes[j].h + gap == pos[i].y
  }

  /** The boxes placed so far, the cursor, and the height of the current row. */
  datatype Shelf = Shelf(pos: seq<Point>, x: int, y: int, rowH: int)

  /** Where the next box goes: to the cursor, or to a new row when it would cross the limit. */
  function NextPoint(s: Shelf, size: Size, limit: int, gap: int): Point {
    if s.x > 0 && s.x + size.w > limit then Point(0, s.y + s.rowH + gap) else Point(s.x, s.y)
  }

  function Place(s: Shelf, size: Size, limit: int, gap: int): Shelf {
    var p := NextPoint(s, size, limit, gap);
    var high := if p.y == s.y then s.rowH else 0;
    Shelf(s.pos + [p], p.x + size.w + gap, p.y, if high > size.h then high else size.h)
  }

  /** The shelf after placing the first `n` boxes. */
  function Pack(sizes: seq<Size>, n: nat, limit: int, gap: int): (s: Shelf)
    requires n <= |sizes|
    ensures |s.pos| == n
  {
    if n == 0 then Shelf([], 0, 0, 0) else Place(Pack(sizes, n - 1, limit, gap), sizes[n - 1], limit, gap)
  }

  ghost predicate NonNegative(sizes: seq<Size>) {
    forall i :: 0 <= i < |sizes| ==> sizes[i].w >= 0 && sizes[i].h >= 0
  }

  /** The cursor is past every box of the current row, and the earlier rows are above it. */
  ghost predicate Cursor(sizes: seq<Size>, s: Shelf, gap: int, limit: int)
    requires |s.pos| <= |sizes|
  {
    && 0 <= s.x && 0 <= s.y && 0 <= s.rowH
    && (s.x == 0 ==> s.pos == []) && (s.pos == [] ==> s.x == 0 && s.y == 0 && s.rowH == 0)
    && (forall i :: 0 <= i < |s.pos| ==>
          && 0 <= s.pos[i].x && 0 <= s.pos[i].y <= s.y
          && (s.pos[i].y == s.y ==> s.pos[i].x + sizes[i].w + gap <= s.x && sizes[i].h <= s.rowH)
          && (s.pos[i].y < s.y ==> s.pos[i].y + sizes[i].h + gap <= s.y)
          // a box of the current row that crosses the limit leaves no room for another
          && (s.pos[i].x + sizes[i].w > limit && s.pos[i].y == s.y ==> s.x > limit))
  }

  /** The cursor is right behind the last box, and the current row is as high as one of its boxes. */
  ghost predicate Tight(sizes: seq<Size>, s: Shelf, gap: int)
    requires |s.pos| <= |sizes|
  {
    s.pos == [] || (AtLast(sizes, s, gap) && exists j :: RowHeightFrom(sizes, s, j))
  }

  predicate AtLast(sizes: seq<Size>, s: Shelf, gap: int)
    requires 0 < |s.pos| <= |sizes|
  {
    var last := |s.pos| - 1;
    s.y == s.pos[last].y && s.x == s.pos[last].x + sizes[last].w + gap
  }

  predicate RowHeightFrom(sizes: seq<Size>, s: Shelf, j: int)
    requires |s.pos| <= |sizes|
  {
    0 <= j < |s.pos| && s.pos[j].y == s.y && sizes[j].h == s.rowH
  }

  // ----- What placing a box keeps ------------------------------------------------------------------

  lemma PlaceCursor(sizes: seq<Size>, s: Shelf, gap: int, limit: int)
    requires gap > 0 && NonNegative(sizes) && |s.pos| < |sizes| && Cursor(sizes, s, gap, limit)
    ensures Cursor(sizes, Place(s, sizes[|s.pos|], limit, gap), gap, limit)
  {
  }

  lemma PlaceTight(sizes: seq<Size>, s: Shelf, gap: int, limit: int)
    requires gap > 0 && NonNegative(sizes) && |s.pos| < |sizes| && Cursor(sizes, s, gap, limit) && Tight(sizes, s, gap)
    ensures Tight(sizes, Place(s, sizes[|s.pos|], limit, gap), gap)
  {
    var n := |s.pos|;
    var next := Place(s, sizes[n], limit, gap);
    if next.rowH == sizes[n].h {
      assert RowHeightFrom(sizes, next, n);
    } else {
      var j :| RowHeightFrom(sizes, s, j);
      assert next.pos[j] == s.pos[j];
      assert RowHeightFrom(sizes, next, j);
    }
  }

  lemma PlaceApart(sizes: seq<Size>, s: Shelf, gap: int, limit: int)
    requires gap > 0 && NonNegative(sizes) && |s.pos| < |sizes| && Cursor(sizes, s, gap, limit)
    requires AllApart(sizes, s.pos, gap)
    ensures AllApart(sizes, Place(s, sizes[|s.pos|], limit, gap).pos, gap)
  {
  }

  lemma PlaceRowsFit(sizes: seq<Size>, s: Shelf, gap: int, limit: int)
    requires gap > 0 && NonNegative(sizes) && |s.pos| < |sizes| && Cursor(sizes, s, gap, limit)
    requires RowsFit(sizes, s.pos, limit)
    ensures RowsFit(sizes, Place(s, sizes[|s.pos|], limit, gap).pos, limit)
  {
  }

  lemma PlaceGreedy(sizes: seq<Size>, s: Shelf, gap: int, limit: int)
    requires gap > 0 && NonNegative(sizes) && |s.pos| < |sizes| && Cursor(sizes, s, gap, limit) && Tight(sizes, s, gap)
    requires Greedy(sizes, s.pos, limit, gap)
    ensures Greedy(sizes, Place(s, sizes[|s.pos|], limit, gap).pos, limit, gap)
  {
    var n := |s.pos|;
    var next := Place(s, sizes[n], limit, gap).pos;
    assert forall i :: 0 <= i < n ==> next[i] == s.pos[i];
    forall i | 1 <= i < n
      ensures Follows(sizes, next, i, limit, gap)
    {
      assert Follows(sizes, s.pos, i, limit, gap);
      FollowsKept(sizes, s.pos, i, limit, gap, next[n]);
    }
    if n > 0 && s.x + sizes[n].w > limit {
      var j :| RowHeightFrom(sizes, s, j);
      assert TightBelowAt(sizes, next, n, j, gap);
    }
  }

  lemma FollowsKept(sizes: seq<Size>, pos: seq<Point>, i: nat, limit: int, gap: int, p: Point)
    requires 1 <= i < |pos| < |sizes| && Follows(sizes, pos, i, limit, gap)
    ensures Follows(sizes, pos + [p], i, limit, gap)
  {
    var next := pos + [p];
    assert next[i - 1] == pos[i - 1] && next[i] == pos[i];
    if pos[i - 1].x + sizes[i - 1].w + gap + sizes[i].w > limit {
      var j :| TightBelowAt(sizes, pos, i, j, gap);
      assert next[j] == pos[j] && TightBelowAt(sizes, next, i, j, gap);
    }
  }

  // ----- Every packing ---------------------------------------------------------------------------------

  lemma {:induction false} PackCursor(sizes: seq<Size>, n: nat, limit: int, gap: int)
    requires gap > 0 && NonNegative(sizes) && n <= |sizes|
    ensures Cursor(sizes, Pack(sizes, n, limit, gap), gap, limit)
  {
    if n > 0 {
      PackCursor(sizes, n - 1, limit, gap);
      PlaceCursor(sizes, Pack(sizes, n - 1, limit, gap), gap, limit);
    }
  }

  /** Any two packed boxes are at least the gap apart. */
  lemma {:induction false} PackApart(sizes: seq<Size>, n: nat, limit: int, gap: int)
    requires gap > 0 && NonNegative(sizes) && n <= |sizes|
    ensures AllApart(sizes, Pack(sizes, n, limit, gap).pos, gap)
  {
    if n > 0 {
      PackApart(sizes, n - 1, limit, gap);
      PackCursor(sizes, n - 1, limit, gap);
      PlaceApart(sizes, Pack(sizes, n - 1, limit, gap), gap, limit);
    }
  }

  /** Every row fits the width limit or holds one box. */
  lemma {:induction false} PackRowsFit(sizes: seq<Size>, n: nat, limit: int, gap: int)
    requires gap > 0 && NonNegative(sizes) && n <= |sizes|
    ensures RowsFit(sizes, Pack(sizes, n, limit, gap).pos, limit)
  {
    if n > 0 {
      PackRowsFit(sizes, n - 1, limit, gap);
      PackCursor(sizes, n - 1, limit, gap);
      PlaceRowsFit(sizes, Pack(sizes, n - 1, limit, gap), gap, limit);
    }
  }

  /** A row is left only when the next box does not fit, and the next row starts right below it. */
  lemma {:induction false} PackGreedy(sizes: seq<Size>, n: nat, limit: int, gap: int)
    requires gap > 0 && NonNegative(sizes) && n <= |sizes|
    ensures Greedy(sizes, Pack(sizes, n, limit, gap).pos, limit, gap) && Tight(sizes, Pack(sizes, n, limit, gap), gap)
  {
    if n > 0 {
      PackGreedy(sizes, n - 1, limit, gap);
      PackCursor(sizes, n - 1, limit, gap);
      PlaceTight(sizes, Pack(sizes, n - 1, limit, gap), gap, limit);
      PlaceGreedy(sizes, Pack(sizes, n - 1, limit, gap), gap, limit);
    }
  }
}
