/**
 Assigning status circles to gear names, and recolouring them: `assign_blocks_to_circles` and the edit
 loops of `_restyle_mxfile_xml` and `render` in tools/scripts/architecture_status_svg.py.

 Coordinates are real numbers. Where a circle or label comes from, and how a style is written into a
 circle's text, are parameters.
 */
module Circles {
  import opened Common
  import opened Ordering
  import opened Splice

  const CIRCLE_X_OFFSET: real := 30.0
  const MAX_COLUMN_DX: real := 45.0
  const LINE_HEIGHT: real := 19.0

  datatype Circle = Circle(start: nat, end: nat, cx: real, cy: real)
  datatype Block = Block(x: real, y: real, names: seq<string>)

  function Abs(r: real): real {
    if r < 0.0 then -r else r
  }

  /** Python's `round`: to the nearest integer, halves to the even one. */
  function Round(r: real): int {
    var f := r.Floor;
    var d := r - f as real;
    if d < 0.5 || (d == 0.5 && f % 2 == 0) then f else f + 1
  }

  /** The nearest integer; of two equally near ones the even one. */
  lemma RoundIs(r: real)
    ensures -0.5 <= Round(r) as real - r <= 0.5
    ensures Round(r) as real - r == 0.5 || Round(r) as real - r == -0.5 ==> Round(r) % 2 == 0
  {
  }

  // ----- Columns --------------------------------------------------------------------------------------

  /** Circle indices by rounded x, in order of first appearance. */
  datatype Column = Column(key: int, indices: seq<nat>)

  function AddTo(cols: seq<Column>, key: int, idx: nat): seq<Column> {
    if cols == [] then [Column(key, [idx])]
    else if cols[0].key == key then [Column(key, cols[0].indices + [idx])] + cols[1..]
    else [cols[0]] + AddTo(cols[1..], key, idx)
  }

  /** Every index below `n` stands once, in the column of its rounded x, and nothing else does; indices
      ascend in a column, and columns ascend by their first index. */
  ghost predicate Groups(cols: seq<Column>, circles: seq<Circle>, n: nat)
    requires n <= |circles|
  {
    && (forall c :: 0 <= c < |cols| ==> InColumn(cols[c], circles, n))
    && (forall c, d :: 0 <= c < d < |cols| ==> InOrder(cols[c], cols[d]))
    && (forall i :: 0 <= i < n ==> Listed(cols, i))
  }

  ghost predicate Listed(cols: seq<Column>, i: nat) {
    exists c :: 0 <= c < |cols| && i in cols[c].indices
  }

  predicate InOrder(c: Column, d: Column) {
    c.key != d.key && c.indices != [] && d.indices != [] && c.indices[0] < d.indices[0]
  }

  predicate Before(i: nat, j: nat) {
    i < j
  }

  ghost predicate InColumn(col: Column, circles: seq<Circle>, n: nat)
    requires n <= |circles|
  {
    && col.indices != [] && IsSorted(col.indices, Before)
    && forall i :: i in col.indices ==> i < n && Round(circles[i].cx) == col.key
  }

  /** The index goes to the end of its column, or to a new column at the end. */
  lemma {:induction false} AddToShape(cols: seq<Column>, key: int, idx: nat) returns (c: nat)
    ensures c <= |cols|
    ensures c < |cols| ==> cols[c].key == key && AddTo(cols, key, idx) == cols[c := Column(key, cols[c].indices + [idx])]
    ensures c == |cols| ==> AddTo(cols, key, idx) == cols + [Column(key, [idx])] && forall d :: 0 <= d < c ==> cols[d].key != key
    decreases |cols|
  {
    if cols == [] || cols[0].key == key {
      c := 0;
    } else {
      var d := AddToShape(cols[1..], key, idx);
      c := d + 1;
    }
  }

  lemma ColumnGrows(col: Column, circles: seq<Circle>, n: nat)
    requires n < |circles| && InColumn(col, circles, n) && Round(circles[n].cx) == col.key
    ensures InColumn(Column(col.key, col.indices + [n]), circles, n + 1)
  {
    var more := col.indices + [n];
    forall i, j | 0 <= i < j < |more|
      ensures Before(more[i], more[j])
    {
      assert more[i] in col.indices;
    }
  }

  lemma ListedMore(cols: seq<Column>, more: seq<Column>, i: nat)
    requires Listed(cols, i) && |cols| <= |more|
    requires forall c :: 0 <= c < |cols| ==> cols[c].indices <= more[c].indices
    ensures Listed(more, i)
  {
    var c :| 0 <= c < |cols| && i in cols[c].indices;
    assert i in more[c].indices;
  }

  lemma AddToGroups(cols: seq<Column>, circles: seq<Circle>, n: nat)
    requires n < |circles| && Groups(cols, circles, n)
    ensures Groups(AddTo(cols, Round(circles[n].cx), n), circles, n + 1)
  {
    hide Groups;
    var key := Round(circles[n].cx);
    var c := AddToShape(cols, key, n);
    if c < |cols| {
      GrowColumn(cols, circles, n, c);
    } else {
      NewColumn(cols, circles, n);
    }
  }

  lemma GrowColumn(cols: seq<Column>, circles: seq<Circle>, n: nat, c: nat)
    requires n < |circles| && Groups(cols, circles, n) && c < |cols| && cols[c].key == Round(circles[n].cx)
    ensures Groups(cols[c := Column(cols[c].key, cols[c].indices + [n])], circles, n + 1)
  {
    var more := cols[c := Column(cols[c].key, cols[c].indices + [n])];
    ColumnGrows(cols[c], circles, n);
    assert n in more[c].indices;
    forall i | 0 <= i < n
      ensures Listed(more, i)
    {
      ListedMore(cols, more, i);
    }
    forall d | 0 <= d < |more|
      ensures InColumn(more[d], circles, n + 1)
    {
      assert InColumn(cols[d], circles, n);
    }
    forall d, e | 0 <= d < e < |more|
      ensures InOrder(more[d], more[e])
    {
      assert InOrder(cols[d], cols[e]);
    }
  }

  lemma NewColumn(cols: seq<Column>, circles: seq<Circle>, n: nat)
    requires n < |circles| && Groups(cols, circles, n)
    requires forall d :: 0 <= d < |cols| ==> cols[d].key != Round(circles[n].cx)
    ensures Groups(cols + [Column(Round(circles[n].cx), [n])], circles, n + 1)
  {
    var last := Column(Round(circles[n].cx), [n]);
    var more := cols + [last];
    assert n in more[|cols|].indices;
    forall i | 0 <= i < n
      ensures Listed(more, i)
    {
      ListedMore(cols, more, i);
    }
    forall d | 0 <= d < |cols|
      ensures InColumn(cols[d], circles, n + 1) && InOrder(cols[d], last)
    {
      assert InColumn(cols[d], circles, n);
      assert cols[d].indices[0] in cols[d].indices;
    }
  }

  method BuildColumns(circles: seq<Circle>) returns (cols: seq<Column>)
    ensures Groups(cols, circles, |circles|)
  {
    cols := [];
    for n := 0 to |circles|
      invariant Groups(cols, circles, n)
    {
      AddToGroups(cols, circles, n);
      cols := AddTo(cols, Round(circles[n].cx), n);
    }
  }

  /** The column of a key, of which there is only one, holds all circles with that rounded x. */
  lemma ColumnHasAll(cols: seq<Column>, circles: seq<Circle>, n: nat, c: nat, i: nat)
    requires n <= |circles| && Groups(cols, circles, n) && c < |cols|
    requires i < n && Round(circles[i].cx) == cols[c].key
    ensures i in cols[c].indices
  {
    assert Listed(cols, i);
    var d :| 0 <= d < |cols| && i in cols[d].indices;
    assert InColumn(cols[d], circles, n);
    assert d < c ==> InOrder(cols[d], cols[c]);
    assert c < d ==> InOrder(cols[c], cols[d]);
  }

  /** Each column of one grouping is a column of the other. */
  lemma SameColumns(x: seq<Column>, y: seq<Column>, circles: seq<Circle>, n: nat, c: nat)
    requires n <= |circles| && Groups(x, circles, n) && Groups(y, circles, n) && c < |x|
    ensures x[c] in y
  {
    assert InColumn(x[c], circles, n);
    var first := x[c].indices[0];
    assert first in x[c].indices && Listed(y, first);
    var d :| 0 <= d < |y| && first in y[d].indices;
    assert InColumn(y[d], circles, n);
    forall i
      ensures i in x[c].indices <==> i in y[d].indices
    {
      if i in x[c].indices {
        ColumnHasAll(y, circles, n, d, i);
      }
      if i in y[d].indices {
        ColumnHasAll(x, circles, n, c, i);
      }
    }
    AscendingUnique(x[c].indices, y[d].indices, Before);
  }

  /** The columns, their order and their contents are determined by the circles. */
  lemma GroupsUnique(x: seq<Column>, y: seq<Column>, circles: seq<Circle>, n: nat)
    requires n <= |circles| && Groups(x, circles, n) && Groups(y, circles, n)
    ensures x == y
  {
    forall col
      ensures col in x <==> col in y
    {
      if col in x {
        var c :| 0 <= c < |x| && x[c] == col;
        SameColumns(x, y, circles, n, c);
      }
      if col in y {
        var c :| 0 <= c < |y| && y[c] == col;
        SameColumns(y, x, circles, n, c);
      }
    }
    AscendingUnique(x, y, InOrder);
  }

  // ----- Free circles near a block --------------------------------------------------------------------

  function CyOf(circles: seq<Circle>, i: nat): real {
    if i < |circles| then circles[i].cy else 0.0
  }

  function Dist(circles: seq<Circle>, y: real, i: nat): real {
    Abs(CyOf(circles, i) - y)
  }

  function Window(b: Block): real {
    LINE_HEIGHT * |b.names| as real + 40.0
  }

  function Dx(b: Block, col: Column): real {
    Abs(col.key as real - (b.x + CIRCLE_X_OFFSET))
  }

  /** Unused circles of a column inside the block's y-window, in column order. */
  function Candidates(indices: seq<nat>, circles: seq<Circle>, used: set<nat>, b: Block): (r: seq<nat>)
    ensures forall i :: i in r <==> i in indices && i !in used && Dist(circles, b.y, i) <= Window(b)
  {
    if indices == [] then []
    else
      var rest := Candidates(indices[1..], circles, used, b);
      if indices[0] !in used && Dist(circles, b.y, indices[0]) <= Window(b) then [indices[0]] + rest else rest
  }

  lemma {:induction false} CandidatesInOrder(indices: seq<nat>, circles: seq<Circle>, used: set<nat>, b: Block)
    requires IsSorted(indices, Before)
    ensures IsSorted(Candidates(indices, circles, used, b), Before)
  {
    if indices != [] {
      var rest := Candidates(indices[1..], circles, used, b);
      CandidatesInOrder(indices[1..], circles, used, b);
      forall k | 0 <= k < |rest|
        ensures Before(indices[0], rest[k])
      {
        assert rest[k] in indices[1..];
      }
    }
  }

  function NearerFirst(circles: seq<Circle>, y: real): (nat, nat) -> bool {
    (i: nat, j: nat) => Dist(circles, y, i) <= Dist(circles, y, j)
  }

  function HigherFirst(circles: seq<Circle>): (nat, nat) -> bool {
    (i: nat, j: nat) => CyOf(circles, i) <= CyOf(circles, j)
  }

  /** Higher up, or as high and earlier in the text. */
  function Higher(circles: seq<Circle>): (nat, nat) -> bool {
    (i: nat, j: nat) => CyOf(circles, i) < CyOf(circles, j) || (CyOf(circles, i) == CyOf(circles, j) && i < j)
  }

  function Min(a: nat, b: nat): nat {
    if a < b then a else b
  }

  /** The nearest candidates, at most one for each name. */
  function Take(cands: seq<nat>, circles: seq<Circle>, b: Block): (t: seq<nat>)
    ensures |t| == Min(|b.names|, |cands|)
  {
    SortElements(cands, NearerFirst(circles, b.y));
    Sort(cands, NearerFirst(circles, b.y))[..Min(|b.names|, |cands|)]
  }

  /** Nearer to `y`, or as near and earlier in the text. */
  predicate Nearer(circles: seq<Circle>, y: real, i: nat, j: nat) {
    Dist(circles, y, i) < Dist(circles, y, j) || (Dist(circles, y, i) == Dist(circles, y, j) && i < j)
  }

  /** `pick` holds as many candidates as there are names for, each nearer than every one left out. */
  ghost predicate Nearest(cands: seq<nat>, circles: seq<Circle>, b: Block, pick: seq<nat>) {
    && |pick| == Min(|b.names|, |cands|)
    && Distinct(pick)
    && (forall i :: i in pick ==> i in cands)
    && (forall i, j :: i in pick && j in cands && j !in pick ==> Nearer(circles, b.y, i, j))
  }

  /** Sorting by distance is stable, so candidates equally far away stay in text order. */
  lemma SortedByNearer(cands: seq<nat>, circles: seq<Circle>, b: Block)
    requires IsSorted(cands, Before)
    ensures var sorted := Sort(cands, NearerFirst(circles, b.y));
            forall p, q :: 0 <= p < q < |sorted| ==> Nearer(circles, b.y, sorted[p], sorted[q])
  {
    var le := NearerFirst(circles, b.y);
    SortStable(cands, le, Before);
    var sorted := Sort(cands, le);
    forall p, q | 0 <= p < q < |sorted|
      ensures Nearer(circles, b.y, sorted[p], sorted[q])
    {
      assert le(sorted[p], sorted[q]) && (le(sorted[q], sorted[p]) ==> Before(sorted[p], sorted[q]));
    }
  }

  lemma TakeIsNearest(cands: seq<nat>, circles: seq<Circle>, b: Block)
    requires IsSorted(cands, Before)
    ensures Nearest(cands, circles, b, Take(cands, circles, b))
    ensures var t := Take(cands, circles, b);
            forall p, q :: 0 <= p < q < |t| ==> Nearer(circles, b.y, t[p], t[q])
  {
    var sorted := Sort(cands, NearerFirst(circles, b.y));
    SortElements(cands, NearerFirst(circles, b.y));
    SortedByNearer(cands, circles, b);
    var m := Min(|b.names|, |cands|);
    forall t | 0 <= t < m
      ensures sorted[t] in sorted[..m]
    {
      assert sorted[..m][t] == sorted[t];
    }
    forall i, j | i in sorted[..m] && j in cands && j !in sorted[..m]
      ensures Nearer(circles, b.y, i, j)
    {
      var p :| 0 <= p < m && sorted[p] == i;
      var q :| 0 <= q < |sorted| && sorted[q] == j;
    }
  }

  // ----- Choosing the column ---------------------------------------------------------------------------

  /** More circles first, then nearer in y, then nearer in x. */
  datatype Score = Score(count: nat, negAvg: real, negDx: real) {
    predicate Above(o: Score) {
      || count > o.count
      || (count == o.count && (negAvg > o.negAvg || (negAvg == o.negAvg && negDx > o.negDx)))
    }
  }

  function SumDist(take: seq<nat>, circles: seq<Circle>, y: real): real {
    if take == [] then 0.0 else Dist(circles, y, take[0]) + SumDist(take[1..], circles, y)
  }

  function Cands(col: Column, circles: seq<Circle>, used: set<nat>, b: Block): seq<nat> {
    Candidates(col.indices, circles, used, b)
  }

  /** A column in reach with a free circle in the window. */
  predicate Eligible(col: Column, circles: seq<Circle>, used: set<nat>, b: Block) {
    Dx(b, col) <= MAX_COLUMN_DX && Cands(col, circles, used, b) != []
  }

  function ScoreOf(col: Column, circles: seq<Circle>, used: set<nat>, b: Block): Score
    requires b.names != [] && Eligible(col, circles, used, b)
  {
    var take := Take(Cands(col, circles, used, b), circles, b);
    Score(|take|, -(SumDist(take, circles, b.y) / |take| as real), -Dx(b, col))
  }

  function ScoreIn(cols: seq<Column>, c: nat, circles: seq<Circle>, used: set<nat>, b: Block): Option<Score>
    requires c < |cols| && b.names != []
  {
    if Eligible(cols[c], circles, used, b) then Some(ScoreOf(cols[c], circles, used, b)) else None
  }

  /** The scores of the columns; none for a column that is out of the question. */
  ghost function Scores(cols: seq<Column>, circles: seq<Circle>, used: set<nat>, b: Block): seq<Option<Score>>
    requires b.names != []
  {
    seq(|cols|, c requires 0 <= c < |cols| => ScoreIn(cols, c, circles, used, b))
  }

  /** The first of the highest scores among the first `n`. */
  ghost predicate IsBest(scores: seq<Option<Score>>, n: nat, best: Option<nat>)
    requires n <= |scores|
  {
    match best
    case None => forall c :: 0 <= c < n ==> scores[c].None?
    case Some(k) =>
      && k < n && scores[k].Some?
      && (forall c :: 0 <= c < n && scores[c].Some? ==> !scores[c].value.Above(scores[k].value))
      && (forall c :: 0 <= c < k && scores[c].Some? ==> scores[k].value.Above(scores[c].value))
  }

  lemma ScoreCounts(cols: seq<Column>, c: nat, circles: seq<Circle>, used: set<nat>, b: Block)
    requires c < |cols| && b.names != [] && Eligible(cols[c], circles, used, b)
    ensures ScoreOf(cols[c], circles, used, b).count >= 1
  {
  }

  /** The scan keeps the first of the highest scores. */
  lemma BestStep(scores: seq<Option<Score>>, n: nat, best: Option<nat>)
    requires n < |scores| && IsBest(scores, n, best)
    ensures scores[n].None? ==> IsBest(scores, n + 1, best)
    ensures scores[n].Some? && (best.None? || scores[n].value.Above(scores[best.value].value))
            ==> IsBest(scores, n + 1, Some(n))
    ensures scores[n].Some? && best.Some? && !scores[n].value.Above(scores[best.value].value)
            ==> IsBest(scores, n + 1, best)
  {
  }

  method PickColumn(cols: seq<Column>, circles: seq<Circle>, used: set<nat>, b: Block) returns (best: Option<nat>)
    requires b.names != []
    ensures IsBest(Scores(cols, circles, used, b), |cols|, best)
  {
    best := None;
    var bestScore := Score(0, 0.0, 0.0);
    ghost var scores := Scores(cols, circles, used, b);
    for c := 0 to |cols|
      invariant IsBest(scores, c, best)
      invariant bestScore == if best.None? then Score(0, 0.0, 0.0) else scores[best.value].value
    {
      BestStep(scores, c, best);
      assert scores[c] == ScoreIn(cols, c, circles, used, b);
      if Dx(b, cols[c]) > MAX_COLUMN_DX {
        continue;
      }
      if Cands(cols[c], circles, used, b) == [] {
        continue;
      }
      ScoreCounts(cols, c, circles, used, b);
      var score := ScoreOf(cols[c], circles, used, b);
      if score.Above(bestScore) {
        bestScore := score;
        best := Some(c);
      }
    }
  }

  // ----- One block -----------------------------------------------------------------------------------

  /** What a block gets: the nearest free circles of the best column, top to bottom; nothing when no
      column is eligible. */
  ghost predicate Served(cols: seq<Column>, circles: seq<Circle>, used: set<nat>, b: Block, chosen: seq<nat>)
    requires b.names != []
  {
    exists best :: IsBest(Scores(cols, circles, used, b), |cols|, best) && ServedFrom(cols, circles, used, b, best, chosen)
  }

  ghost predicate ServedFrom(cols: seq<Column>, circles: seq<Circle>, used: set<nat>, b: Block, best: Option<nat>,
                             chosen: seq<nat>)
  {
    match best
    case None => chosen == []
    case Some(k) =>
      && k < |cols| && Dx(b, cols[k]) <= MAX_COLUMN_DX
      && Nearest(Cands(cols[k], circles, used, b), circles, b, chosen)
      && IsSorted(chosen, Higher(circles))
  }

  /** Among circles at the same height the sort from top to bottom keeps text order. */
  lemma SortedPickIsNearest(cands: seq<nat>, circles: seq<Circle>, b: Block, pick: seq<nat>)
    requires Nearest(cands, circles, b, pick)
    requires forall p, q :: 0 <= p < q < |pick| ==> Nearer(circles, b.y, pick[p], pick[q])
    ensures Nearest(cands, circles, b, Sort(pick, HigherFirst(circles)))
    ensures IsSorted(Sort(pick, HigherFirst(circles)), Higher(circles))
  {
    var le, before := HigherFirst(circles), LevelBefore(circles);
    SortElements(pick, le);
    SortDistinct(pick, le);
    forall p, q | 0 <= p < q < |pick|
      ensures before(pick[p], pick[q])
    {
      assert Nearer(circles, b.y, pick[p], pick[q]);
    }
    SortStable(pick, le, before);
    var sorted := Sort(pick, le);
    forall p, q | 0 <= p < q < |sorted|
      ensures Higher(circles)(sorted[p], sorted[q])
    {
      assert le(sorted[p], sorted[q]) && (le(sorted[q], sorted[p]) ==> before(sorted[p], sorted[q]));
    }
  }

  /** In text order if at the same height. */
  function LevelBefore(circles: seq<Circle>): (nat, nat) -> bool {
    (i: nat, j: nat) => CyOf(circles, i) == CyOf(circles, j) ==> i < j
  }

  method AssignBlock(cols: seq<Column>, circles: seq<Circle>, used: set<nat>, b: Block) returns (chosen: seq<nat>)
    requires b.names != [] && Groups(cols, circles, |circles|)
    ensures Served(cols, circles, used, b, chosen)
  {
    var best := PickColumn(cols, circles, used, b);
    if best.None? {
      chosen := [];
    } else {
      var col := cols[best.value];
      assert InColumn(col, circles, |circles|);
      assert Scores(cols, circles, used, b)[best.value] == ScoreIn(cols, best.value, circles, used, b);
      var candidates := Cands(col, circles, used, b);
      CandidatesInOrder(col.indices, circles, used, b);
      TakeIsNearest(candidates, circles, b);
      SortedPickIsNearest(candidates, circles, b, Take(candidates, circles, b));
      chosen := Sort(Take(candidates, circles, b), HigherFirst(circles));
    }
    assert ServedFrom(cols, circles, used, b, best, chosen);
  }

  /** The circles a block gets exist, are free, near, and pairwise different, one for a name at most. */
  ghost predicate FreePick(circles: seq<Circle>, used: set<nat>, b: Block, chosen: seq<nat>) {
    && |chosen| <= |b.names| && Distinct(chosen)
    && forall i :: i in chosen ==> i < |circles| && i !in used && Dist(circles, b.y, i) <= Window(b)
  }

  lemma ServedFromIsFree(cols: seq<Column>, circles: seq<Circle>, used: set<nat>, b: Block, best: Option<nat>,
                         chosen: seq<nat>)
    requires Groups(cols, circles, |circles|) && ServedFrom(cols, circles, used, b, best, chosen)
    ensures FreePick(circles, used, b, chosen)
  {
    if best.Some? {
      assert InColumn(cols[best.value], circles, |circles|);
    }
  }

  lemma ServedIsFree(cols: seq<Column>, circles: seq<Circle>, used: set<nat>, b: Block, chosen: seq<nat>)
    requires b.names != [] && Groups(cols, circles, |circles|) && Served(cols, circles, used, b, chosen)
    ensures FreePick(circles, used, b, chosen)
  {
    var best :| IsBest(Scores(cols, circles, used, b), |cols|, best) && ServedFrom(cols, circles, used, b, best, chosen);
    ServedFromIsFree(cols, circles, used, b, best, chosen);
  }

  /** There is only one set of nearest candidates, and only one way to list it from top to bottom. */
  lemma NearestUnique(cands: seq<nat>, circles: seq<Circle>, b: Block, x: seq<nat>, y: seq<nat>)
    requires Nearest(cands, circles, b, x) && Nearest(cands, circles, b, y)
    requires IsSorted(x, Higher(circles)) && IsSorted(y, Higher(circles))
    ensures x == y
  {
    if i :| i in x && i !in y {
      if forall j :: j in y ==> j in x {
        DistinctSubset(y, x);
      }
      assert false;
    }
    DistinctSubset(x, y);
    AscendingUnique(x, y, Higher(circles));
  }

  lemma BestUnique(scores: seq<Option<Score>>, n: nat, x: Option<nat>, y: Option<nat>)
    requires n <= |scores| && IsBest(scores, n, x) && IsBest(scores, n, y)
    ensures x == y
  {
  }

  /** What a block gets is determined by the columns and the circles still free. */
  lemma ServedUnique(cols: seq<Column>, circles: seq<Circle>, used: set<nat>, b: Block, x: seq<nat>, y: seq<nat>)
    requires b.names != [] && Served(cols, circles, used, b, x) && Served(cols, circles, used, b, y)
    ensures x == y
  {
    var scores := Scores(cols, circles, used, b);
    var m: Option<nat> :| IsBest(scores, |cols|, m) && ServedFrom(cols, circles, used, b, m, x);
    var n: Option<nat> :| IsBest(scores, |cols|, n) && ServedFrom(cols, circles, used, b, n, y);
    BestUnique(scores, |cols|, m, n);
    if m.Some? {
      NearestUnique(Cands(cols[m.value], circles, used, b), circles, b, x, y);
    }
  }

  lemma AbsAtMost(r: real, c: real)
    ensures Abs(r) <= c <==> -c <= r <= c
  {
  }

  /** The window in numbers: a circle of a block is within 45 of the block's x plus 30, by the rounded x of its
      column, and within 19 for each name plus 40 of its y. */
  lemma ServedInReach(cols: seq<Column>, circles: seq<Circle>, used: set<nat>, b: Block, chosen: seq<nat>, i: nat)
    requires b.names != [] && Groups(cols, circles, |circles|) && Served(cols, circles, used, b, chosen) && i in chosen
    ensures i < |circles| && -45.0 <= Round(circles[i].cx) as real - b.x - 30.0 <= 45.0 && InWindow(circles, b, i)
  {
    hide IsBest;
    var best: Option<nat> :| IsBest(Scores(cols, circles, used, b), |cols|, best)
                             && ServedFrom(cols, circles, used, b, best, chosen);
    assert InColumn(cols[best.value], circles, |circles|);
    CandidateInReach(cols[best.value], circles, used, b, i);
  }

  lemma CandidateInReach(col: Column, circles: seq<Circle>, used: set<nat>, b: Block, i: nat)
    requires InColumn(col, circles, |circles|) && Dx(b, col) <= MAX_COLUMN_DX && i in Cands(col, circles, used, b)
    ensures i < |circles| && -45.0 <= Round(circles[i].cx) as real - b.x - 30.0 <= 45.0 && InWindow(circles, b, i)
  {
    AbsAtMost(col.key as real - (b.x + CIRCLE_X_OFFSET), MAX_COLUMN_DX);
    AbsAtMost(CyOf(circles, i) - b.y, Window(b));
  }

  /** A column is out of the question exactly when its x is farther away than 45 or it has no free circle in the
      window. */
  lemma EligibleIff(col: Column, circles: seq<Circle>, used: set<nat>, b: Block)
    requires forall i :: i in col.indices ==> i < |circles|
    ensures Eligible(col, circles, used, b)
            <==> && -45.0 <= col.key as real - b.x - 30.0 <= 45.0
                 && exists i :: i in col.indices && i !in used && InWindow(circles, b, i)
  {
    var cands := Cands(col, circles, used, b);
    assert cands != [] ==> cands[0] in cands;
    if i :| i in col.indices && i !in used && InWindow(circles, b, i) {
      assert i in cands;
    }
  }

  predicate InWindow(circles: seq<Circle>, b: Block, i: nat) {
    i < |circles| && -(19.0 * |b.names| as real + 40.0) <= circles[i].cy - b.y <= 19.0 * |b.names| as real + 40.0
  }

  /** The score in numbers: how many circles the column offers, up to the number of names; their average distance
      in y; the distance of the column in x. */
  lemma ScoreIs(col: Column, circles: seq<Circle>, used: set<nat>, b: Block)
    requires b.names != [] && Eligible(col, circles, used, b)
    ensures var s, take := ScoreOf(col, circles, used, b), Take(Cands(col, circles, used, b), circles, b);
            && s.count == |take| >= 1
            && s.negAvg == -(SumDist(take, circles, b.y) / |take| as real)
            && s.negDx == -Abs(col.key as real - (b.x + 30.0))
  {
  }

  /** The sum of the distances in y. */
  lemma {:induction false} SumDistIs(a: seq<nat>, i: nat, circles: seq<Circle>, y: real)
    requires i < |circles|
    ensures SumDist([], circles, y) == 0.0
    ensures circles[i].cy >= y ==> SumDist(a + [i], circles, y) == SumDist(a, circles, y) + (circles[i].cy - y)
    ensures circles[i].cy <= y ==> SumDist(a + [i], circles, y) == SumDist(a, circles, y) + (y - circles[i].cy)
  {
    if a == [] {
      assert [i][1..] == [] && [] + [i] == [i];
    } else {
      SumDistIs(a[1..], i, circles, y);
      assert (a + [i])[1..] == a[1..] + [i];
    }
  }

  /** One score beats another: more circles; as many and nearer in y; as near and nearer in x. */
  lemma AboveIff(s: Score, t: Score)
    ensures s.Above(t)
            <==> && s.count >= t.count
                 && (s.count == t.count ==> s.negAvg >= t.negAvg && (s.negAvg == t.negAvg ==> s.negDx > t.negDx))
  {
  }

  // ----- All blocks ----------------------------------------------------------------------------------

  /** The circles taken once the first `n` blocks have been served. */
  ghost function UsedAfter(used: set<nat>, picks: seq<seq<nat>>, n: nat): set<nat>
    requires n <= |picks|
  {
    if n == 0 then used else UsedAfter(used, picks, n - 1) + Elements(picks[n - 1])
  }

  /** The names of a block paired with its circles, in order; names beyond the circles get none. */
  function Zip(names: seq<string>, chosen: seq<nat>): (z: seq<(string, nat)>)
    requires |chosen| <= |names|
  {
    seq(|chosen|, i requires 0 <= i < |chosen| => (names[i], chosen[i]))
  }

  function IndicesOf(assignments: seq<(string, nat)>): seq<nat> {
    seq(|assignments|, i requires 0 <= i < |assignments| => assignments[i].1)
  }

  ghost predicate AllServed(cols: seq<Column>, circles: seq<Circle>, used: set<nat>, blocks: seq<Block>,
                            picks: seq<seq<nat>>, n: nat)
    requires n <= |picks| && n <= |blocks| && forall k :: 0 <= k < |blocks| ==> blocks[k].names != []
  {
    forall k :: 0 <= k < n ==> ServedAt(cols, circles, used, blocks[k], picks, k)
  }

  /** Pick `k` serves the block from what the picks before it left. */
  ghost predicate ServedAt(cols: seq<Column>, circles: seq<Circle>, used: set<nat>, b: Block, picks: seq<seq<nat>>, k: nat)
    requires k < |picks| && b.names != []
  {
    |picks[k]| <= |b.names| && Served(cols, circles, UsedAfter(used, picks, k), b, picks[k])
  }

  /** The assignments of the first `n` blocks, one after the other. */
  ghost function Listing(blocks: seq<Block>, picks: seq<seq<nat>>, n: nat): seq<(string, nat)>
    requires n <= |picks| && n <= |blocks|
    requires forall k :: 0 <= k < n ==> |picks[k]| <= |blocks[k].names|
  {
    if n == 0 then [] else Listing(blocks, picks, n - 1) + Zip(blocks[n - 1].names, picks[n - 1])
  }

  /** The assignments use circles that were free at the start, each of them once. */
  ghost predicate OnceEach(circles: seq<Circle>, start: set<nat>, used: set<nat>, assignments: seq<(string, nat)>) {
    && Distinct(IndicesOf(assignments))
    && (forall i :: i in IndicesOf(assignments) ==> i < |circles| && i !in start)
    && used == start + Elements(IndicesOf(assignments))
  }

  /** Where the assignments of block `k` begin. */
  ghost function Offset(picks: seq<seq<nat>>, k: nat): nat
    requires k <= |picks|
  {
    if k == 0 then 0 else Offset(picks, k - 1) + |picks[k - 1]|
  }

  /** The assignments of the first `n` blocks, stretch by stretch: in that of block `k`, name number `p` goes with
      the circle in place `p`. */
  ghost predicate NamesMeetCircles(blocks: seq<Block>, picks: seq<seq<nat>>, assignments: seq<(string, nat)>, n: nat) {
    && n <= |picks| && n <= |blocks| && |assignments| == Offset(picks, n)
    && forall k, p :: 0 <= k < n && 0 <= p < |picks[k]| ==> MeetsAt(blocks, picks, assignments, k, p)
  }

  ghost predicate MeetsAt(blocks: seq<Block>, picks: seq<seq<nat>>, assignments: seq<(string, nat)>, k: nat, p: nat)
    requires k < |picks| && k < |blocks| && p < |picks[k]|
  {
    && p < |blocks[k].names| && Offset(picks, k) + p < |assignments|
    && assignments[Offset(picks, k) + p] == (blocks[k].names[p], picks[k][p])
  }

  lemma {:induction false} ListingMeets(blocks: seq<Block>, picks: seq<seq<nat>>, n: nat)
    requires n <= |picks| && n <= |blocks| && forall k :: 0 <= k < n ==> |picks[k]| <= |blocks[k].names|
    ensures NamesMeetCircles(blocks, picks, Listing(blocks, picks, n), n)
  {
    if n > 0 {
      var m := n - 1;
      ListingMeets(blocks, picks, m);
      var before, all := Listing(blocks, picks, m), Listing(blocks, picks, n);
      assert all == before + Zip(blocks[m].names, picks[m]);
      forall k, p | 0 <= k < n && 0 <= p < |picks[k]|
        ensures MeetsAt(blocks, picks, all, k, p)
      {
        if k < m {
          assert MeetsAt(blocks, picks, before, k, p);
        }
      }
    }
  }

  lemma OnceEachMore(circles: seq<Circle>, start: set<nat>, used: set<nat>, assignments: seq<(string, nat)>,
                     names: seq<string>, chosen: seq<nat>)
    requires OnceEach(circles, start, used, assignments) && |chosen| <= |names| && Distinct(chosen)
    requires forall i :: i in chosen ==> i < |circles| && i !in used
    ensures OnceEach(circles, start, used + Elements(chosen), assignments + Zip(names, chosen))
  {
    var a := IndicesOf(assignments);
    var all := IndicesOf(assignments + Zip(names, chosen));
    assert all == a + chosen;
    forall i, j | 0 <= i < j < |all|
      ensures all[i] != all[j]
    {
      if i < |a| <= j {
        assert a[i] in a && all[j] in chosen;
      }
    }
  }

  /** Appending a pick changes nothing about the blocks before it. */
  lemma UsedAfterPrefix(used: set<nat>, picks: seq<seq<nat>>, chosen: seq<nat>, n: nat)
    requires n <= |picks|
    ensures UsedAfter(used, picks + [chosen], n) == UsedAfter(used, picks, n)
  {
    if n > 0 {
      UsedAfterPrefix(used, picks, chosen, n - 1);
    }
  }

  lemma ListingPrefix(blocks: seq<Block>, picks: seq<seq<nat>>, chosen: seq<nat>, n: nat)
    requires n <= |picks| && n <= |blocks| && forall k :: 0 <= k < n ==> |picks[k]| <= |blocks[k].names|
    ensures Listing(blocks, picks + [chosen], n) == Listing(blocks, picks, n)
  {
    if n > 0 {
      ListingPrefix(blocks, picks, chosen, n - 1);
    }
  }

  /** The blocks served so far stay served when one more pick is appended. */
  lemma StillServed(cols: seq<Column>, circles: seq<Circle>, start: set<nat>, b: Block,
                    picks: seq<seq<nat>>, chosen: seq<nat>, k: nat)
    requires b.names != [] && k < |picks| && ServedAt(cols, circles, start, b, picks, k)
    ensures ServedAt(cols, circles, start, b, picks + [chosen], k)
  {
    UsedAfterPrefix(start, picks, chosen, k);
  }

  lemma NowServed(cols: seq<Column>, circles: seq<Circle>, start: set<nat>, b: Block,
                  picks: seq<seq<nat>>, chosen: seq<nat>)
    requires b.names != [] && |chosen| <= |b.names|
    requires Served(cols, circles, UsedAfter(start, picks, |picks|), b, chosen)
    ensures ServedAt(cols, circles, start, b, picks + [chosen], |picks|)
  {
    UsedAfterPrefix(start, picks, chosen, |picks|);
  }

  lemma ServeMore(cols: seq<Column>, circles: seq<Circle>, start: set<nat>, blocks: seq<Block>,
                  picks: seq<seq<nat>>, chosen: seq<nat>)
    requires |picks| < |blocks| && forall k :: 0 <= k < |blocks| ==> blocks[k].names != []
    requires AllServed(cols, circles, start, blocks, picks, |picks|)
    requires ServedAt(cols, circles, start, blocks[|picks|], picks + [chosen], |picks|)
    ensures AllServed(cols, circles, start, blocks, picks + [chosen], |picks| + 1)
  {
    forall k | 0 <= k < |picks|
      ensures ServedAt(cols, circles, start, blocks[k], picks + [chosen], k)
    {
      StillServed(cols, circles, start, blocks[k], picks, chosen, k);
    }
  }

  lemma ListMore(start: set<nat>, blocks: seq<Block>, picks: seq<seq<nat>>, chosen: seq<nat>)
    requires |picks| < |blocks| && |chosen| <= |blocks[|picks|].names|
    requires forall k :: 0 <= k < |picks| ==> |picks[k]| <= |blocks[k].names|
    ensures UsedAfter(start, picks + [chosen], |picks| + 1) == UsedAfter(start, picks, |picks|) + Elements(chosen)
    ensures Listing(blocks, picks + [chosen], |picks| + 1)
            == Listing(blocks, picks, |picks|) + Zip(blocks[|picks|].names, chosen)
  {
    UsedAfterPrefix(start, picks, chosen, |picks|);
    ListingPrefix(blocks, picks, chosen, |picks|);
  }

  /** Pairs the names of a block with its circles and marks the circles used. */
  method Record(names: seq<string>, chosen: seq<nat>, used: set<nat>, assignments: seq<(string, nat)>)
    returns (used': set<nat>, assignments': seq<(string, nat)>)
    requires |chosen| <= |names|
    ensures used' == used + Elements(chosen) && assignments' == assignments + Zip(names, chosen)
  {
    used', assignments' := used, assignments;
    for i := 0 to |chosen|
      invariant used' == used + Elements(chosen[..i])
      invariant assignments' == assignments + Zip(names, chosen[..i])
    {
      TakeSnoc(chosen, i);
      assert Zip(names, chosen[..i + 1]) == Zip(names, chosen[..i]) + [(names[i], chosen[i])];
      used' := used' + {chosen[i]};
      assignments' := assignments' + [(names[i], chosen[i])];
    }
    assert chosen[..|chosen|] == chosen;
  }

  /**
   Assigns circles to the names of all blocks, block by block. Every block is served from what the
   blocks before it left; no circle is assigned twice.
   */
  method AssignBlocksToCircles(blocks: seq<Block>, circles: seq<Circle>, start: set<nat>)
    returns (assignments: seq<(string, nat)>, used: set<nat>, ghost cols: seq<Column>, ghost picks: seq<seq<nat>>)
    requires forall k :: 0 <= k < |blocks| ==> blocks[k].names != []
    ensures OnceEach(circles, start, used, assignments)
    ensures Groups(cols, circles, |circles|) && |picks| == |blocks|
    ensures AllServed(cols, circles, start, blocks, picks, |blocks|)
    ensures assignments == Listing(blocks, picks, |blocks|)
    ensures NamesMeetCircles(blocks, picks, assignments, |blocks|)
  {
    var columns := BuildColumns(circles);
    cols := columns;
    assignments, used, picks := [], start, [];
    for n := 0 to |blocks|
      invariant |picks| == n && used == UsedAfter(start, picks, n)
      invariant AllServed(cols, circles, start, blocks, picks, n)
      invariant assignments == Listing(blocks, picks, n)
      invariant OnceEach(circles, start, used, assignments)
    {
      var chosen := AssignBlock(columns, circles, used, blocks[n]);
      ServedIsFree(columns, circles, used, blocks[n], chosen);
      NowServed(columns, circles, start, blocks[n], picks, chosen);
      ServeMore(columns, circles, start, blocks, picks, chosen);
      ListMore(start, blocks, picks, chosen);
      OnceEachMore(circles, start, used, assignments, blocks[n].names, chosen);
      used, assignments := Record(blocks[n].names, chosen, used, assignments);
      picks := picks + [chosen];
    }
    ListingMeets(blocks, picks, |blocks|);
  }

  // ----- Recolouring ------------------------------------------------------------------------------------

  /** Circle spans as found by scanning the text from left to right. */
  ghost predicate SpansInOrder(circles: seq<Circle>, len: nat) {
    && (forall i :: 0 <= i < |circles| ==> circles[i].start < circles[i].end <= len)
    && (forall i, j :: 0 <= i < j < |circles| ==> circles[i].end <= circles[j].start)
  }

  /** The edit of one assignment, if its name has a style. */
  function EditFor(circles: seq<Circle>, a: (string, nat), restyle: (nat, string) -> Option<string>): seq<Edit>
    requires a.1 < |circles|
  {
    match restyle(a.1, a.0)
    case None => []
    case Some(text) => [Edit(circles[a.1].start, circles[a.1].end, text)]
  }

  function EditsFor(circles: seq<Circle>, assignments: seq<(string, nat)>, restyle: (nat, string) -> Option<string>)
    : seq<Edit>
    requires forall k :: 0 <= k < |assignments| ==> assignments[k].1 < |circles|
  {
    if assignments == [] then []
    else EditFor(circles, assignments[0], restyle) + EditsFor(circles, assignments[1..], restyle)
  }

  /** Edits come from assignments, so circles assigned once give disjoint edits. */
  lemma {:induction false} EditsAreValid(circles: seq<Circle>, assignments: seq<(string, nat)>,
                                         restyle: (nat, string) -> Option<string>, len: nat)
    requires forall k :: 0 <= k < |assignments| ==> assignments[k].1 < |circles|
    requires Distinct(IndicesOf(assignments)) && SpansInOrder(circles, len)
    ensures ValidEdits(EditsFor(circles, assignments, restyle), len)
    ensures forall e :: e in EditsFor(circles, assignments, restyle) ==>
              exists k :: 0 <= k < |assignments| && e in EditFor(circles, assignments[k], restyle)
  {
    if assignments != [] {
      var rest := assignments[1..];
      forall i, j | 0 <= i < j < |rest|
        ensures IndicesOf(rest)[i] != IndicesOf(rest)[j]
      {
        assert IndicesOf(assignments)[i + 1] != IndicesOf(assignments)[j + 1];
      }
      EditsAreValid(circles, rest, restyle, len);
      var first, others := EditFor(circles, assignments[0], restyle), EditsFor(circles, rest, restyle);
      forall e | e in others
        ensures exists k :: 0 <= k < |assignments| && e in EditFor(circles, assignments[k], restyle)
        ensures first != [] ==> Disjoint(first[0], e)
      {
        var k :| 0 <= k < |rest| && e in EditFor(circles, rest[k], restyle);
        assert assignments[k + 1] == rest[k];
        assert IndicesOf(assignments)[0] != IndicesOf(assignments)[k + 1];
      }
      assert first != [] ==> first[0] in first;
    }
  }

  /** The assignments of all blocks, each served from what the blocks before it left. */
  ghost predicate Assignment(blocks: seq<Block>, circles: seq<Circle>, start: set<nat>, cols: seq<Column>,
                             picks: seq<seq<nat>>, assignments: seq<(string, nat)>)
    requires forall k :: 0 <= k < |blocks| ==> blocks[k].names != []
  {
    && Groups(cols, circles, |circles|) && |picks| == |blocks|
    && AllServed(cols, circles, start, blocks, picks, |blocks|)
    && assignments == Listing(blocks, picks, |blocks|) && NamesMeetCircles(blocks, picks, assignments, |blocks|)
    && forall k :: 0 <= k < |assignments| ==> assignments[k].1 < |circles|
  }

  /** The edits: for each assignment whose circle and name have a style, that text in the place of the circle. */
  ghost predicate StylesEach(circles: seq<Circle>, assignments: seq<(string, nat)>,
                             restyle: (nat, string) -> Option<string>, edits: seq<Edit>)
  {
    forall e :: e in edits <==> exists k :: 0 <= k < |assignments| && StyledBy(circles, assignments[k], restyle, e)
  }

  predicate StyledBy(circles: seq<Circle>, a: (string, nat), restyle: (nat, string) -> Option<string>, e: Edit) {
    a.1 < |circles| && restyle(a.1, a.0) == Some(e.text) && e.start == circles[a.1].start && e.end == circles[a.1].end
  }

  lemma {:induction false} EditsStyleEach(circles: seq<Circle>, assignments: seq<(string, nat)>,
                                          restyle: (nat, string) -> Option<string>)
    requires forall k :: 0 <= k < |assignments| ==> assignments[k].1 < |circles|
    ensures StylesEach(circles, assignments, restyle, EditsFor(circles, assignments, restyle))
  {
    if assignments != [] {
      var rest := assignments[1..];
      EditsStyleEach(circles, rest, restyle);
      forall e
        ensures e in EditsFor(circles, assignments, restyle)
                <==> exists k :: 0 <= k < |assignments| && StyledBy(circles, assignments[k], restyle, e)
      {
        if k :| 0 <= k < |rest| && StyledBy(circles, rest[k], restyle, e) {
          assert assignments[k + 1] == rest[k];
        }
        if k :| 0 <= k < |assignments| && StyledBy(circles, assignments[k], restyle, e) && k > 0 {
          assert assignments[k] == rest[k - 1];
        }
      }
    }
  }

  lemma {:induction false} SamePicks(cols: seq<Column>, circles: seq<Circle>, start: set<nat>, blocks: seq<Block>,
                                     x: seq<seq<nat>>, y: seq<seq<nat>>, n: nat)
    requires n <= |blocks| == |x| == |y| && forall k :: 0 <= k < |blocks| ==> blocks[k].names != []
    requires AllServed(cols, circles, start, blocks, x, |blocks|)
    requires AllServed(cols, circles, start, blocks, y, |blocks|)
    ensures x[..n] == y[..n] && UsedAfter(start, x, n) == UsedAfter(start, y, n)
    decreases n
  {
    if n > 0 {
      var m := n - 1;
      SamePicks(cols, circles, start, blocks, x, y, m);
      assert ServedAt(cols, circles, start, blocks[m], x, m) && ServedAt(cols, circles, start, blocks[m], y, m);
      ServedUnique(cols, circles, UsedAfter(start, x, m), blocks[m], x[m], y[m]);
      TakeSnoc(x, m);
      TakeSnoc(y, m);
    }
  }

  /** The assignments are determined by the blocks, the circles and what was used before. */
  lemma AssignmentUnique(blocks: seq<Block>, circles: seq<Circle>, start: set<nat>,
                         cols: seq<Column>, picks: seq<seq<nat>>, assignments: seq<(string, nat)>,
                         cols': seq<Column>, picks': seq<seq<nat>>, assignments': seq<(string, nat)>)
    requires forall k :: 0 <= k < |blocks| ==> blocks[k].names != []
    requires Assignment(blocks, circles, start, cols, picks, assignments)
    requires Assignment(blocks, circles, start, cols', picks', assignments')
    ensures assignments == assignments'
  {
    GroupsUnique(cols, cols', circles, |circles|);
    SamePicks(cols, circles, start, blocks, picks, picks', |blocks|);
    assert picks[..|blocks|] == picks && picks'[..|blocks|] == picks';
  }

  /** The text with the spans of the styled circles of an assignment replaced all at once. */
  ghost predicate Recoloured(text: string, blocks: seq<Block>, circles: seq<Circle>,
                             restyle: (nat, string) -> Option<string>, result: string)
    requires SpansInOrder(circles, |text|) && forall k :: 0 <= k < |blocks| ==> blocks[k].names != []
  {
    exists cols, picks, assignments, edits ::
      && Assignment(blocks, circles, {}, cols, picks, assignments)
      && StylesEach(circles, assignments, restyle, edits)
      && ValidEdits(edits, |text|) && result == Weave(text, edits, 0)
  }

  /**
   Recolours the assigned circles: the result is the text with the spans of the styled circles replaced
   all at once, and every other character as it was.
   */
  method Recolour(text: string, blocks: seq<Block>, circles: seq<Circle>, restyle: (nat, string) -> Option<string>)
    returns (result: string)
    requires SpansInOrder(circles, |text|) && forall k :: 0 <= k < |blocks| ==> blocks[k].names != []
    ensures Recoloured(text, blocks, circles, restyle, result)
  {
    var matches, used, cols, picks := AssignBlocksToCircles(blocks, circles, {});
    forall k | 0 <= k < |matches|
      ensures matches[k].1 < |circles|
    {
      assert IndicesOf(matches)[k] in IndicesOf(matches);
    }
    var edits := CollectEdits(circles, matches, restyle);
    EditsAreValid(circles, matches, restyle, |text|);
    EditsStyleEach(circles, matches, restyle);
    result := ApplyEdits(text, edits);
    assert Assignment(blocks, circles, {}, cols, picks, matches);
  }

  method CollectEdits(circles: seq<Circle>, assignments: seq<(string, nat)>, restyle: (nat, string) -> Option<string>)
    returns (edits: seq<Edit>)
    requires forall k :: 0 <= k < |assignments| ==> assignments[k].1 < |circles|
    ensures edits == EditsFor(circles, assignments, restyle)
  {
    edits := [];
    assert assignments[0..] == assignments;
    for i := 0 to |assignments|
      invariant edits + EditsFor(circles, assignments[i..], restyle) == EditsFor(circles, assignments, restyle)
    {
      var (name, idx) := assignments[i];
      assert assignments[i..][1..] == assignments[i + 1..];
      AppendAssoc(edits, EditFor(circles, assignments[i], restyle), EditsFor(circles, assignments[i + 1..], restyle));
      var style := restyle(idx, name);
      if style.Some? {
        edits := edits + [Edit(circles[idx].start, circles[idx].end, style.value)];
      } else {
        assert edits + [] == edits;
      }
    }
  }
}
