/**
 Shelf packing in tools/scripts/md-fabric.py: `_row_pack_positions`, and `box_dims` and `pack_boxes`
 inside `build_nodes`, with the node grids drawn in the boxes.

 The column count of a box is the ceiling of a square root computed in floating point, and at least
 one; here that ceiling is any integer function of the number of files.
 */
module Packing {
  import opened Common
  import opened Ordering
  import opened Paths
  import opened PathBoxes
  import opened Shelves

  const SPACING: int := 80
  const PAD_H: int := 40
  const PAD_TOP: int := 55
  const PAD_BOTTOM: int := 40
  const BOX_GAP: int := 80
  const MAX_ROW_WIDTH: int := 3200

  /**
   The packing loop: a new row starts when the box would cross the limit and the row is not empty.
   Boxes are pairwise a gap apart, rows fit the limit or hold one box, and rows are filled greedily.
   */
  method ShelfPack(sizes: seq<Size>, limit: int, gap: int) returns (pos: seq<Point>)
    requires gap > 0 && NonNegative(sizes)
    ensures |pos| == |sizes|
    ensures AllApart(sizes, pos, gap) && RowsFit(sizes, pos, limit) && Greedy(sizes, pos, limit, gap)
  {
    pos := [];
    var curX, curY, rowH := 0, 0, 0;
    for i := 0 to |sizes|
      invariant Shelf(pos, curX, curY, rowH) == Pack(sizes, i, limit, gap)
      invariant curX >= 0 && rowH >= 0
    {
      var w, h := sizes[i].w, sizes[i].h;
      if curX > 0 && curX + w > limit {
        curX := 0;
        curY := curY + rowH + gap;
        rowH := 0;
      }
      pos := pos + [Point(curX, curY)];
      rowH := if rowH > h then rowH else h;
      curX := curX + w + gap;
    }
    PackApart(sizes, |sizes|, limit, gap);
    PackRowsFit(sizes, |sizes|, limit, gap);
    PackGreedy(sizes, |sizes|, limit, gap);
  }

  // ----- Node grids --------------------------------------------------------------------------------

  function Max(a: int, b: int): int {
    if a > b then a else b
  }

  /** ceil(n / cols). */
  function Rows(n: nat, cols: nat): nat
    requires cols >= 1
  {
    (n + cols - 1) / cols
  }

  /** The size of a box for `n` nodes in `cols` columns. */
  function BoxDims(n: nat, cols: nat): Size
    requires cols >= 1
  {
    Size(Max(180, 2 * PAD_H + 18 + (cols - 1) * SPACING),
         Max(130, PAD_TOP + PAD_BOTTOM + 36 + (Rows(n, cols) - 1) * SPACING))
  }

  /** Where node `i` of a box at `p` is drawn. */
  function NodeAt(p: Point, cols: nat, i: nat): Point
    requires cols >= 1
  {
    Point(p.x + PAD_H + (i % cols) * SPACING, p.y + PAD_TOP + (i / cols) * SPACING)
  }

  /** Inside the box, away from its border by the paddings. */
  predicate Inside(p: Point, s: Size, at: Point) {
    p.x + PAD_H <= at.x <= p.x + s.w - PAD_H - 18 && p.y + PAD_TOP <= at.y <= p.y + s.h - PAD_BOTTOM - 36
  }

  lemma RowInRange(n: nat, cols: nat, i: nat)
    requires cols >= 1 && i < n
    ensures 0 <= i / cols <= Rows(n, cols) - 1
  {
    var q, r := i / cols, Rows(n, cols);
    assert i == cols * q + i % cols;
    assert n + cols - 1 == cols * r + (n + cols - 1) % cols;
    if r <= q {
      ProductMonotone(cols, r, q);
      assert false;
    }
  }

  lemma ProductMonotone(a: nat, b: nat, c: nat)
    requires b <= c
    ensures a * b <= a * c
  {
  }

  /** Every node of a box lies inside the box. */
  lemma NodeInside(n: nat, cols: nat, p: Point, i: nat)
    requires cols >= 1 && i < n
    ensures Inside(p, BoxDims(n, cols), NodeAt(p, cols, i))
  {
    RowInRange(n, cols, i);
  }

  /** Two nodes of a box are drawn at different places. */
  lemma GridDistinct(cols: nat, p: Point, i: nat, j: nat)
    requires cols >= 1 && i != j
    ensures NodeAt(p, cols, i) != NodeAt(p, cols, j)
  {
    assert i == cols * (i / cols) + i % cols;
    assert j == cols * (j / cols) + j % cols;
  }

  /** Points inside boxes that are apart differ. */
  lemma ApartDistinct(p: Point, s: Size, a: Point, q: Point, t: Size, b: Point, gap: int)
    requires gap > 0 && Apart(p, s, q, t, gap) && Inside(p, s, a) && Inside(q, t, b)
    ensures a != b
  {
  }

  // ----- Boxes and their nodes ------------------------------------------------------------------------

  datatype Node = Node(file: File, at: Point)

  function FilesOf(nodes: seq<Node>): seq<File> {
    seq(|nodes|, i requires 0 <= i < |nodes| => nodes[i].file)
  }

  predicate ByRel(a: File, b: File) {
    StringLe(KeyText(a.dirs + [a.name]), KeyText(b.dirs + [b.name]))
  }

  /** The grid of one box: its files in path order, row by row. */
  function Grid(files: seq<File>, p: Point, cols: nat): seq<Node>
    requires cols >= 1
  {
    var ordered := Sort(files, ByRel);
    seq(|ordered|, i requires 0 <= i < |ordered| => Node(ordered[i], NodeAt(p, cols, i)))
  }

  /** A grid shows exactly the files of its box, inside the box, at different places. */
  lemma GridIsValid(files: seq<File>, p: Point, cols: nat)
    requires cols >= 1
    ensures var grid := Grid(files, p, cols);
            && multiset(FilesOf(grid)) == multiset(files)
            && (forall i :: 0 <= i < |grid| ==> Inside(p, BoxDims(|files|, cols), grid[i].at) && grid[i].file in files)
            && PlacesDistinct(grid)
  {
    var ordered, grid := Sort(files, ByRel), Grid(files, p, cols);
    SameMultiset(files, ordered);
    assert FilesOf(grid) == ordered;
    forall i | 0 <= i < |grid|
      ensures Inside(p, BoxDims(|files|, cols), grid[i].at) && grid[i].file in files
    {
      NodeInside(|files|, cols, p, i);
      assert ordered[i] in ordered;
    }
    forall i, j | 0 <= i < j < |grid|
      ensures grid[i].at != grid[j].at
    {
      GridDistinct(cols, p, i, j);
    }
  }

  /** The grid in numbers: node `i` is in row i / cols and column i % cols, 80 apart, 40 and 55 from the corner of
      the box; and the nodes come in ascending order of their paths. */
  lemma GridIs(files: seq<File>, p: Point, cols: nat)
    requires cols >= 1
    ensures var grid := Grid(files, p, cols);
            && |grid| == |files|
            && (forall i :: 0 <= i < |grid| ==> InPlace(grid[i], p, cols, i))
            && (forall i, j :: 0 <= i < j < |grid| ==> StringLe(PathText(grid[i].file), PathText(grid[j].file)))
  {
    ByRelPreorder();
    SortSorted(files, ByRel);
    SortElements(files, ByRel);
    var ordered, grid := Sort(files, ByRel), Grid(files, p, cols);
    forall i, j | 0 <= i < j < |grid|
      ensures StringLe(PathText(grid[i].file), PathText(grid[j].file))
    {
      assert ByRel(ordered[i], ordered[j]);
    }
  }

  predicate InPlace(node: Node, p: Point, cols: nat, i: nat)
    requires cols >= 1
  {
    node.at == Point(p.x + 40 + 80 * (i % cols), p.y + 55 + 80 * (i / cols))
  }

  /** The path of a file, as the script writes it. */
  function PathText(f: File): string {
    Join(f.dirs + [f.name])
  }

  lemma ByRelPreorder()
    ensures TotalPreorder(ByRel)
  {
    forall a: File, b: File
      ensures ByRel(a, b) || ByRel(b, a)
    {
      StringLeTotal(KeyText(a.dirs + [a.name]), KeyText(b.dirs + [b.name]));
    }
    forall a: File, b: File, c: File | ByRel(a, b) && ByRel(b, c)
      ensures ByRel(a, c)
    {
      StringLeTransitive(KeyText(a.dirs + [a.name]), KeyText(b.dirs + [b.name]), KeyText(c.dirs + [c.name]));
    }
  }

  method DrawBox(files: seq<File>, p: Point, cols: nat) returns (nodes: seq<Node>)
    requires cols >= 1
    ensures nodes == Grid(files, p, cols)
  {
    var ordered := Sort(files, ByRel);
    nodes := [];
    for i := 0 to |ordered|
      invariant |nodes| == i
      invariant forall k :: 0 <= k < i ==> nodes[k] == Node(ordered[k], NodeAt(p, cols, k))
    {
      nodes := nodes + [Node(ordered[i], NodeAt(p, cols, i))];
    }
  }

  /** A box as it is drawn. */
  datatype Rect = Rect(at: Point, size: Size)

  /** Each node belongs to one of the boxes and is drawn inside it. */
  ghost predicate Housed(boxes: Boxes, rects: map<Key, Rect>, nodes: seq<Node>) {
    forall i :: 0 <= i < |nodes| ==> HasHome(boxes, rects, nodes[i])
  }

  ghost predicate HasHome(boxes: Boxes, rects: map<Key, Rect>, node: Node) {
    exists key :: key in rects && key in boxes && node.file in boxes[key]
                  && Inside(rects[key].at, rects[key].size, node.at)
  }

  ghost predicate PlacesDistinct(nodes: seq<Node>) {
    forall i, j :: 0 <= i < j < |nodes| ==> nodes[i].at != nodes[j].at
  }

  ghost predicate RectsApart(rects: map<Key, Rect>) {
    forall k, l :: k in rects && l in rects && k != l ==>
      Apart(rects[k].at, rects[k].size, rects[l].at, rects[l].size, 80)
  }

  lemma FilesOfAppend(a: seq<Node>, b: seq<Node>)
    ensures FilesOf(a + b) == FilesOf(a) + FilesOf(b)
  {
  }

  /** Adding the grid of a further box keeps nodes housed and places distinct. */
  lemma AddGrid(boxes: Boxes, rects: map<Key, Rect>, nodes: seq<Node>, key: Key, rect: Rect, grid: seq<Node>)
    requires Housed(boxes, rects, nodes) && PlacesDistinct(nodes) && PlacesDistinct(grid)
    requires key in boxes && key !in rects && RectsApart(rects[key := rect])
    requires forall i :: 0 <= i < |grid| ==> Inside(rect.at, rect.size, grid[i].at) && grid[i].file in boxes[key]
    ensures Housed(boxes, rects[key := rect], nodes + grid) && PlacesDistinct(nodes + grid)
  {
    var more := rects[key := rect];
    forall i | 0 <= i < |nodes|
      ensures HasHome(boxes, more, nodes[i])
      ensures forall j :: 0 <= j < |grid| ==> nodes[i].at != grid[j].at
    {
      assert HasHome(boxes, rects, nodes[i]);
      var k :| k in rects && k in boxes && nodes[i].file in boxes[k]
               && Inside(rects[k].at, rects[k].size, nodes[i].at);
      assert k in more && more[k] == rects[k] && more[key] == rect && k != key;
      assert Apart(more[k].at, more[k].size, more[key].at, more[key].size, BOX_GAP);
      forall j | 0 <= j < |grid|
        ensures nodes[i].at != grid[j].at
      {
        ApartDistinct(rects[k].at, rects[k].size, nodes[i].at, rect.at, rect.size, grid[j].at, BOX_GAP);
      }
    }
    forall j | 0 <= j < |grid|
      ensures HasHome(boxes, more, grid[j])
    {
      assert key in more && more[key] == rect;
    }
  }

  /** Columns for `n` files, from the rounded root. */
  function Columns(root: nat -> int, n: nat): (cols: nat)
    ensures cols >= 1
  {
    Max(1, root(n))
  }

  function BoxSize(files: seq<File>, root: nat -> int): (s: Size)
    ensures s.w >= 0 && s.h >= 0
  {
    BoxDims(|files|, Columns(root, |files|))
  }

  /** The size of a box in numbers: at least 180 by 130; 98 and 131 for the first node, and 80 for every further
      column and row; as many columns as the rounded root says, but at least one, and just as many rows as the
      files need. */
  lemma BoxSizeIs(files: seq<File>, root: nat -> int)
    ensures var s, n := BoxSize(files, root), |files|;
            var cols := if root(n) >= 1 then root(n) else 1;
            && cols == Columns(root, n)
            && (if 98 + 80 * (cols - 1) >= 180 then s.w == 98 + 80 * (cols - 1) else s.w == 180)
            && exists rows: nat :: RowsFor(n, cols, rows) && s.h == if rows == 0 then 130 else 131 + 80 * (rows - 1)
  {
    var n, cols := |files|, Columns(root, |files|);
    RowsAre(n, cols);
  }

  /** Enough rows, and none to spare. */
  predicate RowsFor(n: nat, cols: int, rows: nat) {
    n <= rows * cols && (rows > 0 ==> (rows - 1) * cols < n)
  }

  lemma RowsAre(n: nat, cols: nat)
    requires cols >= 1
    ensures RowsFor(n, cols, Rows(n, cols))
  {
    var rows := Rows(n, cols);
    assert n + cols - 1 == cols * rows + (n + cols - 1) % cols;
    assert (rows - 1) * cols == rows * cols - cols;
  }

  /** The boxes to draw, in order, and a place for each. */
  datatype Plan = Plan(keys: seq<Key>, boxes: Boxes, root: nat -> int, pos: seq<Point>) {

    function GridOf(i: nat): seq<Node>
      requires i < |keys| == |pos|
    {
      var files := Get(boxes, keys[i]);
      Grid(files, pos[i], Columns(root, |files|))
    }

    function RectOf(i: nat): Rect
      requires i < |keys| == |pos|
    {
      Rect(pos[i], BoxSize(Get(boxes, keys[i]), root))
    }

    function Sizes(): (sizes: seq<Size>)
      ensures NonNegative(sizes)
    {
      seq(|keys|, i requires 0 <= i < |keys| => BoxSize(Get(boxes, keys[i]), root))
    }

    /** The nodes of the first `n` boxes. */
    function Nodes(n: nat): seq<Node>
      requires n <= |keys| == |pos|
    {
      if n == 0 then [] else Nodes(n - 1) + GridOf(n - 1)
    }

    function Rects(n: nat): map<Key, Rect>
      requires n <= |keys| == |pos|
    {
      if n == 0 then map[] else Rects(n - 1)[keys[n - 1] := RectOf(n - 1)]
    }
  }

  /** The places keep the boxes apart. */
  ghost predicate PlanApart(plan: Plan)
    requires |plan.keys| == |plan.pos|
  {
    forall i, j :: 0 <= i < j < |plan.keys| ==>
      Apart(plan.RectOf(i).at, plan.RectOf(i).size, plan.RectOf(j).at, plan.RectOf(j).size, BOX_GAP)
  }

  lemma {:induction false} RectsAre(plan: Plan, n: nat)
    requires n <= |plan.keys| == |plan.pos| && Distinct(plan.keys)
    ensures forall k :: k in plan.Rects(n) <==> k in plan.keys[..n]
    ensures forall i :: 0 <= i < n ==> plan.keys[i] in plan.Rects(n) && plan.Rects(n)[plan.keys[i]] == plan.RectOf(i)
  {
    if n > 0 {
      RectsAre(plan, n - 1);
      TakeSnoc(plan.keys, n - 1);
    }
  }

  lemma ApartEitherWay(plan: Plan, i: nat, j: nat)
    requires |plan.keys| == |plan.pos| && PlanApart(plan) && i < |plan.keys| && j < |plan.keys| && i != j
    ensures Apart(plan.RectOf(i).at, plan.RectOf(i).size, plan.RectOf(j).at, plan.RectOf(j).size, BOX_GAP)
  {
    if j < i {
      assert Apart(plan.RectOf(j).at, plan.RectOf(j).size, plan.RectOf(i).at, plan.RectOf(i).size, BOX_GAP);
    }
  }

  lemma RectsAreApart(plan: Plan, n: nat)
    requires n <= |plan.keys| == |plan.pos| && Distinct(plan.keys) && PlanApart(plan)
    ensures RectsApart(plan.Rects(n))
  {
    RectsAre(plan, n);
    var rects := plan.Rects(n);
    forall k, l | k in rects && l in rects && k != l
      ensures Apart(rects[k].at, rects[k].size, rects[l].at, rects[l].size, BOX_GAP)
    {
      var i :| 0 <= i < n && plan.keys[i] == k;
      var j :| 0 <= j < n && plan.keys[j] == l;
      ApartEitherWay(plan, i, j);
    }
  }

  lemma KeyIsNew(plan: Plan, n: nat)
    requires n < |plan.keys| == |plan.pos| && Distinct(plan.keys)
    ensures plan.keys[n] !in plan.Rects(n)
  {
    RectsAre(plan, n);
  }

  /** The nodes of the first `n` boxes are inside their boxes and at different places. */
  ghost predicate DrawnWell(plan: Plan, n: nat)
    requires n <= |plan.keys| == |plan.pos|
  {
    Housed(plan.boxes, plan.Rects(n), plan.Nodes(n)) && PlacesDistinct(plan.Nodes(n))
  }

  lemma DrawMore(plan: Plan, n: nat)
    requires 0 < n <= |plan.keys| == |plan.pos| && plan.keys[n - 1] in plan.boxes && DrawnWell(plan, n - 1)
    requires plan.keys[n - 1] !in plan.Rects(n - 1) && RectsApart(plan.Rects(n))
    ensures DrawnWell(plan, n)
  {
    var m := n - 1;
    var files := plan.boxes[plan.keys[m]];
    GridIsValid(files, plan.pos[m], Columns(plan.root, |files|));
    AddGrid(plan.boxes, plan.Rects(m), plan.Nodes(m), plan.keys[m], plan.RectOf(m), plan.GridOf(m));
  }

  /** The boxes to draw are different boxes, at places that keep them apart. */
  ghost predicate Drawable(plan: Plan) {
    && |plan.keys| == |plan.pos| && Distinct(plan.keys) && PlanApart(plan)
    && forall i :: 0 <= i < |plan.keys| ==> plan.keys[i] in plan.boxes
  }

  lemma DrawNext(plan: Plan, n: nat)
    requires Drawable(plan) && 0 < n <= |plan.keys| && DrawnWell(plan, n - 1)
    ensures DrawnWell(plan, n)
  {
    KeyIsNew(plan, n - 1);
    RectsAreApart(plan, n);
    DrawMore(plan, n);
  }

  lemma NoneDrawn(plan: Plan)
    requires |plan.keys| == |plan.pos|
    ensures DrawnWell(plan, 0)
  {
  }

  lemma {:induction false} NodesHoused(plan: Plan, n: nat)
    requires Drawable(plan) && n <= |plan.keys|
    ensures DrawnWell(plan, n)
    decreases n
  {
    if n == 0 {
      NoneDrawn(plan);
    } else {
      NodesHoused(plan, n - 1);
      DrawNext(plan, n);
    }
  }

  ghost function KeySet(keys: seq<Key>): set<Key> {
    set k | k in keys
  }

  lemma KeySetSnoc(keys: seq<Key>, n: nat)
    requires n < |keys| && Distinct(keys)
    ensures KeySet(keys[..n + 1]) == KeySet(keys[..n]) + {keys[n]} && keys[n] !in KeySet(keys[..n])
  {
    TakeSnoc(keys, n);
  }

  /** The content of the boxes not among the first `n`. */
  ghost function Left(plan: Plan, n: nat): multiset<File>
    requires n <= |plan.keys|
  {
    Content(plan.boxes - KeySet(plan.keys[..n]))
  }

  lemma LeftAll(plan: Plan)
    ensures Left(plan, 0) == Content(plan.boxes)
  {
    assert plan.boxes - KeySet(plan.keys[..0]) == plan.boxes;
  }

  lemma LeftStep(plan: Plan, n: nat)
    requires n < |plan.keys| && Distinct(plan.keys) && plan.keys[n] in plan.boxes
    ensures Left(plan, n) == multiset(plan.boxes[plan.keys[n]]) + Left(plan, n + 1)
  {
    var boxes, key, drawn := plan.boxes, plan.keys[n], KeySet(plan.keys[..n]);
    KeySetSnoc(plan.keys, n);
    ContentRemove(boxes - drawn, key);
    assert boxes - drawn - {key} == boxes - (drawn + {key});
  }

  /** The files shown by the nodes of the first `n` boxes. */
  ghost function Shown(plan: Plan, n: nat): multiset<File>
    requires n <= |plan.keys| == |plan.pos|
  {
    multiset(FilesOf(plan.Nodes(n)))
  }

  lemma ShownStep(plan: Plan, n: nat)
    requires n < |plan.keys| == |plan.pos|
    ensures Shown(plan, n + 1) == Shown(plan, n) + multiset(Get(plan.boxes, plan.keys[n]))
  {
    var files := Get(plan.boxes, plan.keys[n]);
    GridIsValid(files, plan.pos[n], Columns(plan.root, |files|));
    FilesOfAppend(plan.Nodes(n), plan.GridOf(n));
  }

  /** Showing one more box moves its content from what is left to what is shown. */
  lemma ShownAndLeftStep(plan: Plan, n: nat)
    requires n < |plan.keys| == |plan.pos| && Distinct(plan.keys) && plan.keys[n] in plan.boxes
    ensures Shown(plan, n + 1) + Left(plan, n + 1) == Shown(plan, n) + Left(plan, n)
  {
    ShownStep(plan, n);
    LeftStep(plan, n);
  }

  /** What the first `n` boxes hold is shown by their nodes. */
  lemma {:induction false} NodesContent(plan: Plan, n: nat)
    requires n <= |plan.keys| == |plan.pos| && Distinct(plan.keys)
    requires forall k :: k in plan.keys ==> k in plan.boxes
    ensures Shown(plan, n) + Left(plan, n) == Content(plan.boxes)
  {
    if n == 0 {
      LeftAll(plan);
      assert Shown(plan, 0) == multiset{};
    } else {
      NodesContent(plan, n - 1);
      ShownAndLeftStep(plan, n - 1);
    }
  }

  /** The whole plan: every file of every box is shown. */
  lemma AllShown(plan: Plan)
    requires |plan.keys| == |plan.pos| && Distinct(plan.keys)
    requires forall k :: k in plan.keys <==> k in plan.boxes
    ensures multiset(FilesOf(plan.Nodes(|plan.keys|))) == Content(plan.boxes)
  {
    NodesContent(plan, |plan.keys|);
    assert plan.keys[..|plan.keys|] == plan.keys;
    assert plan.boxes - KeySet(plan.keys) == map[];
  }

  /** The whole plan: every box has its rectangle. */
  lemma AllFramed(plan: Plan)
    requires |plan.keys| == |plan.pos| && Distinct(plan.keys)
    requires forall k :: k in plan.keys <==> k in plan.boxes
    ensures plan.Rects(|plan.keys|).Keys == plan.boxes.Keys
    ensures forall k :: k in plan.boxes ==>
              plan.Rects(|plan.keys|)[k].size == BoxSize(plan.boxes[k], plan.root)
  {
    var n := |plan.keys|;
    RectsAre(plan, n);
    assert plan.keys[..n] == plan.keys;
    forall k | k in plan.boxes
      ensures k in plan.Rects(n) && plan.Rects(n)[k].size == BoxSize(plan.boxes[k], plan.root)
    {
      var i :| 0 <= i < n && plan.keys[i] == k;
    }
  }

  /** The places are a shelf packing of the boxes in the order of the keys. */
  ghost predicate Packed(plan: Plan) {
    && |plan.keys| == |plan.pos|
    && AllApart(plan.Sizes(), plan.pos, 80)
    && RowsFit(plan.Sizes(), plan.pos, 3200)
    && Greedy(plan.Sizes(), plan.pos, 3200, 80)
  }

  lemma PackedIsApart(plan: Plan)
    requires Packed(plan)
    ensures PlanApart(plan)
  {
    forall i, j | 0 <= i < j < |plan.keys|
      ensures Apart(plan.RectOf(i).at, plan.RectOf(i).size, plan.RectOf(j).at, plan.RectOf(j).size, BOX_GAP)
    {
      assert Apart(plan.pos[i], plan.Sizes()[i], plan.pos[j], plan.Sizes()[j], BOX_GAP);
    }
  }

  /** The keys are those of the boxes, each once. */
  ghost predicate Lists(keys: seq<Key>, boxes: Boxes) {
    Distinct(keys) && forall k :: k in keys <==> k in boxes
  }

  /** The number of files in the first `k` boxes. */
  ghost function NodeOffset(plan: Plan, k: nat): nat
    requires k <= |plan.keys|
  {
    if k == 0 then 0 else NodeOffset(plan, k - 1) + |Get(plan.boxes, plan.keys[k - 1])|
  }

  /** Node number `i` of box number `k` is a file of that box, at its place in the grid. */
  ghost predicate DrawnAt(plan: Plan, nodes: seq<Node>, k: nat, i: nat)
    requires k < |plan.keys| == |plan.pos|
  {
    var files := Get(plan.boxes, plan.keys[k]);
    && NodeOffset(plan, k) + i < |nodes| && nodes[NodeOffset(plan, k) + i].file in files
    && InPlace(nodes[NodeOffset(plan, k) + i], plan.pos[k], Columns(plan.root, |files|), i)
  }

  /** Box by box in the order of the keys, and in each box row by row. */
  ghost predicate DrawnInOrder(plan: Plan, nodes: seq<Node>, n: nat)
    requires n <= |plan.keys| == |plan.pos|
  {
    && |nodes| == NodeOffset(plan, n)
    && (forall k, i :: 0 <= k < n && 0 <= i < |Get(plan.boxes, plan.keys[k])| ==> DrawnAt(plan, nodes, k, i))
    && (forall k, i, j :: 0 <= k < n && 0 <= i < j < |Get(plan.boxes, plan.keys[k])| ==> PathsAscend(plan, nodes, k, i, j))
  }

  ghost predicate PathsAscend(plan: Plan, nodes: seq<Node>, k: nat, i: nat, j: nat)
    requires k < |plan.keys|
  {
    var o := NodeOffset(plan, k);
    o + i < |nodes| && o + j < |nodes| && StringLe(PathText(nodes[o + i].file), PathText(nodes[o + j].file))
  }

  /** Where the boxes before `k` end, those of `k` begin. */
  lemma {:induction false} OffsetBound(plan: Plan, k: nat, n: nat)
    requires k < n <= |plan.keys|
    ensures NodeOffset(plan, k) + |Get(plan.boxes, plan.keys[k])| <= NodeOffset(plan, n)
  {
    if k < n - 1 {
      OffsetBound(plan, k, n - 1);
    }
  }

  lemma {:induction false} NodesInOrder(plan: Plan, n: nat)
    requires n <= |plan.keys| == |plan.pos|
    ensures DrawnInOrder(plan, plan.Nodes(n), n)
  {
    if n > 0 {
      var m := n - 1;
      NodesInOrder(plan, m);
      GridInOrder(plan, m);
      BoxAppended(plan, plan.Nodes(m), plan.GridOf(m), m);
    }
  }

  /** The grid of box `k` on its own. */
  ghost predicate GridOk(plan: Plan, grid: seq<Node>, k: nat)
    requires k < |plan.keys| == |plan.pos|
  {
    var files := Get(plan.boxes, plan.keys[k]);
    && |grid| == |files|
    && (forall i :: 0 <= i < |grid| ==>
          grid[i].file in files && InPlace(grid[i], plan.pos[k], Columns(plan.root, |files|), i))
    && (forall i, j :: 0 <= i < j < |grid| ==> StringLe(PathText(grid[i].file), PathText(grid[j].file)))
  }

  lemma GridInOrder(plan: Plan, k: nat)
    requires k < |plan.keys| == |plan.pos|
    ensures GridOk(plan, plan.GridOf(k), k)
  {
    var files := Get(plan.boxes, plan.keys[k]);
    GridIs(files, plan.pos[k], Columns(plan.root, |files|));
    GridIsValid(files, plan.pos[k], Columns(plan.root, |files|));
  }

  lemma BoxAppended(plan: Plan, nodes: seq<Node>, grid: seq<Node>, m: nat)
    requires m < |plan.keys| == |plan.pos| && DrawnInOrder(plan, nodes, m) && GridOk(plan, grid, m)
    ensures DrawnInOrder(plan, nodes + grid, m + 1)
  {
    hide InPlace;
    hide PathText;
    var all := nodes + grid;
    forall k, i | 0 <= k < m + 1 && 0 <= i < |Get(plan.boxes, plan.keys[k])|
      ensures DrawnAt(plan, all, k, i)
    {
      if k < m {
        OffsetBound(plan, k, m);
        assert DrawnAt(plan, nodes, k, i);
      } else {
        assert all[NodeOffset(plan, k) + i] == grid[i];
      }
    }
    forall k, i, j | 0 <= k < m + 1 && 0 <= i < j < |Get(plan.boxes, plan.keys[k])|
      ensures PathsAscend(plan, all, k, i, j)
    {
      if k < m {
        OffsetBound(plan, k, m);
        assert PathsAscend(plan, nodes, k, i, j);
      } else {
        assert all[NodeOffset(plan, k) + i] == grid[i] && all[NodeOffset(plan, k) + j] == grid[j];
      }
    }
  }

  /** A drawing shows every file of every box once, inside its own box, and keeps boxes and nodes apart. */
  ghost predicate GoodDrawing(boxes: Boxes, root: nat -> int, nodes: seq<Node>, rects: map<Key, Rect>) {
    && multiset(FilesOf(nodes)) == Content(boxes)
    && rects.Keys == boxes.Keys && RectsApart(rects)
    && (forall k :: k in boxes ==> rects[k].size == BoxSize(boxes[k], root))
    && Housed(boxes, rects, nodes) && PlacesDistinct(nodes)
  }

  /** Carrying out a plan for all boxes at packed places gives a good drawing. */
  lemma PlanIsDrawn(plan: Plan)
    requires Packed(plan) && Lists(plan.keys, plan.boxes)
    ensures GoodDrawing(plan.boxes, plan.root, plan.Nodes(|plan.keys|), plan.Rects(|plan.keys|))
  {
    PackedIsApart(plan);
    NodesHoused(plan, |plan.keys|);
    RectsAreApart(plan, |plan.keys|);
    AllShown(plan);
    AllFramed(plan);
  }

  /** The second loop: a rectangle and a grid for each box. */
  method DrawAll(keys: seq<Key>, boxes: Boxes, root: nat -> int, pos: seq<Point>)
    returns (nodes: seq<Node>, rects: map<Key, Rect>)
    requires |keys| == |pos|
    ensures nodes == Plan(keys, boxes, root, pos).Nodes(|keys|)
    ensures rects == Plan(keys, boxes, root, pos).Rects(|keys|)
  {
    ghost var plan := Plan(keys, boxes, root, pos);
    nodes, rects := [], map[];
    for i := 0 to |keys|
      invariant nodes == plan.Nodes(i) && rects == plan.Rects(i)
    {
      var files := Get(boxes, keys[i]);
      rects := rects[keys[i] := Rect(pos[i], BoxSize(files, root))];
      var grid := DrawBox(files, pos[i], Columns(root, |files|));
      nodes := nodes + grid;
    }
  }

  /** The drawing of the boxes listed in `keys`: their rectangles and their nodes, with the boxes on
      shelves in the order of the keys and every node at its place in its grid. */
  method PackBoxes(keys: seq<Key>, boxes: Boxes, root: nat -> int)
    returns (nodes: seq<Node>, rects: map<Key, Rect>, ghost plan: Plan)
    requires Lists(keys, boxes)
    ensures plan.keys == keys && plan.boxes == boxes && plan.root == root && Packed(plan)
    ensures nodes == plan.Nodes(|keys|) && rects == plan.Rects(|keys|)
    ensures GoodDrawing(boxes, root, nodes, rects) && DrawnInOrder(plan, nodes, |keys|)
  {
    var sizes := seq(|keys|, i requires 0 <= i < |keys| => BoxSize(Get(boxes, keys[i]), root));
    var pos := ShelfPack(sizes, MAX_ROW_WIDTH, BOX_GAP);
    plan := Plan(keys, boxes, root, pos);
    assert plan.Sizes() == sizes;
    PlanIsDrawn(plan);
    NodesInOrder(plan, |keys|);
    nodes, rects := DrawAll(keys, boxes, root, pos);
  }

  predicate ByText(a: Key, b: Key) {
    StringLe(KeyText(a), KeyText(b))
  }

  lemma ByTextPreorder()
    ensures TotalPreorder(ByText)
  {
    forall a: Key, b: Key
      ensures ByText(a, b) || ByText(b, a)
    {
      StringLeTotal(KeyText(a), KeyText(b));
    }
    forall a: Key, b: Key, c: Key | ByText(a, b) && ByText(b, c)
      ensures ByText(a, c)
    {
      StringLeTransitive(KeyText(a), KeyText(b), KeyText(c));
    }
  }

  const MIN_BOX_SIZE: int := 8

  /**
   The drawing of a set of files without configured groups: every file is drawn exactly once, inside a
   box whose key is a prefix of its directory path; boxes are a gap apart, on shelves in the order of
   their keys; no two nodes share a place.
   */
  method BuildNodes(files: seq<File>, root: nat -> int)
    returns (nodes: seq<Node>, rects: map<Key, Rect>, ghost plan: Plan, ghost states: seq<Boxes>)
    ensures multiset(FilesOf(nodes)) == multiset(files)
    ensures GoodDrawing(plan.boxes, root, nodes, rects) && WellPlaced(plan.boxes)
    ensures Lists(plan.keys, plan.boxes) && IsSorted(plan.keys, ByText) && plan.root == root && Packed(plan)
    ensures nodes == plan.Nodes(|plan.keys|) && rects == plan.Rects(|plan.keys|)
    ensures IsRun(states, 8) && Settled(states[0], 8) && states[|states| - 1] == plan.boxes
    ensures forall key :: key in plan.boxes ==> !Lonely(plan.boxes, key, 8)
  {
    var boxes: Boxes;
    boxes, states := ComputePathBoxes(files, MIN_BOX_SIZE);
    forall key | key in boxes && key != []
      ensures !Lonely(boxes, key, MIN_BOX_SIZE)
    {
      SupportedNotLonely(boxes, key, MIN_BOX_SIZE);
    }
    ByTextPreorder();
    var keys := SortedSet(boxes.Keys, ByText);
    nodes, rects, plan := PackBoxes(keys, boxes, root);
  }

  // ----- Configured groups -----------------------------------------------------------------------------------

  /** Every box holds the files of one group, under that group's id. */
  ghost predicate ByGroup(boxes: Boxes, group: File -> string) {
    forall key :: key in boxes ==> |key| == 1 && boxes[key] != [] && forall f :: f in boxes[key] ==> [group(f)] == key
  }

  /** Files by group id. */
  method GroupFiles(files: seq<File>, group: File -> string) returns (grouped: Boxes)
    ensures Content(grouped) == multiset(files) && ByGroup(grouped, group)
  {
    grouped := map[];
    for i := 0 to |files|
      invariant Content(grouped) == multiset(files[..i]) && ByGroup(grouped, group)
    {
      AddToGroup(grouped, group, files[i]);
      grouped := Extend(grouped, [group(files[i])], [files[i]]);
      TakeSnoc(files, i);
    }
    assert files[..|files|] == files;
  }

  lemma AddToGroup(grouped: Boxes, group: File -> string, file: File)
    requires ByGroup(grouped, group)
    ensures var more := Extend(grouped, [group(file)], [file]);
            Content(more) == Content(grouped) + multiset{file} && ByGroup(more, group)
  {
    ContentExtend(grouped, [group(file)], [file]);
  }

  /** The drawing of a set of files with configured groups: the same packing, one box for each group that has
      files, in the order of the group ids. */
  method BuildGroupedNodes(files: seq<File>, group: File -> string, root: nat -> int)
    returns (nodes: seq<Node>, rects: map<Key, Rect>, ghost plan: Plan)
    ensures multiset(FilesOf(nodes)) == multiset(files)
    ensures GoodDrawing(plan.boxes, root, nodes, rects) && ByGroup(plan.boxes, group)
    ensures Lists(plan.keys, plan.boxes) && IsSorted(plan.keys, ByText) && plan.root == root && Packed(plan)
    ensures nodes == plan.Nodes(|plan.keys|) && rects == plan.Rects(|plan.keys|)
  {
    var grouped := GroupFiles(files, group);
    ByTextPreorder();
    var keys := SortedSet(grouped.Keys, ByText);
    nodes, rects, plan := PackBoxes(keys, grouped, root);
  }
}
