/**
 The boxes of pass 1 of `compute_path_boxes` are determined by the files: whatever the order in which
 files and buckets are visited, the same directories get boxes and each box holds the same files.
 */
module SettledBoxes {
  import opened PathBoxes

  /** What pass 1 establishes. */
  ghost predicate Grouping(boxes: Boxes, minSize: int) {
    WellPlaced(boxes) && BigBelowRoot(boxes, minSize) && Settled(boxes, minSize)
  }

  // ----- Where a file is -------------------------------------------------------------------------------

  lemma {:induction false} UnderSome(group: seq<File>, f: File, p: Key)
    requires f in group && p <= f.dirs
    ensures Under(group, p) > 0
  {
    if group[0] != f {
      UnderSome(group[1..], f, p);
    }
  }

  /** No directory between a file's box and the file has a box. */
  lemma NoBoxBetween(boxes: Boxes, minSize: int, key: Key, f: File, p: Key)
    requires Grouping(boxes, minSize) && key in boxes && f in boxes[key]
    requires |key| < |p| <= MAX_DEPTH && p <= f.dirs
    ensures p !in boxes
  {
    UnderSome(boxes[key], f, p);
    assert Bubbled(boxes[key], p, boxes, minSize);
  }

  lemma SamePathSameLength(k: Key, l: Key, path: Key)
    requires k <= path && l <= path && |k| == |l|
    ensures k == l
  {
    assert k == path[..|k|] && l == path[..|l|];
  }

  /** A file is in one box only. */
  lemma OneHome(boxes: Boxes, minSize: int, k: Key, l: Key, f: File)
    requires Grouping(boxes, minSize) && k in boxes && l in boxes && f in boxes[k] && f in boxes[l]
    ensures k == l
  {
    if |k| < |l| {
      NoBoxBetween(boxes, minSize, k, f, l);
    } else if |l| < |k| {
      NoBoxBetween(boxes, minSize, l, f, k);
    } else {
      SamePathSameLength(k, l, f.dirs);
    }
  }

  lemma {:induction false} ContentNone(boxes: Boxes, f: File)
    requires forall k :: k in boxes ==> f !in boxes[k]
    ensures Content(boxes)[f] == 0
    decreases |boxes|
  {
    if boxes != map[] {
      var k :| k in boxes;
      ContentRemove(boxes, k);
      ContentNone(boxes - {k}, f);
    }
  }

  /** The copies of a file are all in its box. */
  lemma AllCopiesHere(boxes: Boxes, minSize: int, key: Key, f: File)
    requires Grouping(boxes, minSize) && key in boxes && f in boxes[key]
    ensures Content(boxes)[f] == multiset(boxes[key])[f]
  {
    forall k | k in boxes - {key}
      ensures f !in boxes[k]
    {
      if f in boxes[k] {
        OneHome(boxes, minSize, key, k, f);
      }
    }
    ContentRemove(boxes, key);
    ContentNone(boxes - {key}, f);
  }

  lemma HasHome(boxes: Boxes, f: File) returns (key: Key)
    requires f in Content(boxes)
    ensures key in boxes && f in boxes[key]
  {
    if forall k :: k in boxes ==> f !in boxes[k] {
      ContentNone(boxes, f);
    }
    key :| key in boxes && f in boxes[key];
  }

  lemma InContent(boxes: Boxes, key: Key, f: File)
    requires key in boxes && f in boxes[key]
    ensures f in Content(boxes)
  {
    ContentRemove(boxes, key);
    assert f in multiset(boxes[key]);
  }

  // ----- Counting ---------------------------------------------------------------------------------------

  function Below(group: seq<File>, p: Key): seq<File> {
    if group == [] then [] else (if p <= group[0].dirs then [group[0]] else []) + Below(group[1..], p)
  }

  lemma {:induction false} BelowCounts(group: seq<File>, p: Key)
    ensures |Below(group, p)| == Under(group, p)
    ensures forall f: File :: p <= f.dirs ==> multiset(Below(group, p))[f] == multiset(group)[f]
  {
    if group != [] {
      BelowCounts(group[1..], p);
      assert group == [group[0]] + group[1..];
    }
  }

  /** A list whose files, all in `p`, are in the group with at least the same multiplicity. */
  lemma UnderAtLeast(some: seq<File>, group: seq<File>, p: Key)
    requires forall f :: f in some ==> p <= f.dirs && multiset(some)[f] <= multiset(group)[f]
    ensures |some| <= Under(group, p)
  {
    BelowCounts(group, p);
    var a, b := multiset(some), multiset(Below(group, p));
    forall f | f in a
      ensures a[f] <= b[f]
    {
      assert f in some;
    }
    assert a <= b;
    assert b == a + (b - a);
    assert |a| == |some| && |b| == |Below(group, p)|;
  }

  // ----- The same directories have boxes ------------------------------------------------------------------

  /** The groupings agree on all directories deeper than `depth`. */
  ghost predicate AgreeBelow(x: Boxes, y: Boxes, depth: nat) {
    forall q :: depth < |q| <= MAX_DEPTH ==> (q in x <==> q in y)
  }

  /** Where a file of a box of one grouping is in the other, if the other has no such box: above it, in the
      deepest box on the way. */
  lemma HomeAbove(x: Boxes, y: Boxes, minSize: int, p: Key, f: File) returns (key: Key)
    requires Grouping(x, minSize) && Grouping(y, minSize) && Content(x) == Content(y)
    requires p in x && p !in y && AgreeBelow(x, y, |p|) && f in x[p]
    ensures key in y && f in y[key] && |key| < |p|
  {
    InContent(x, p, f);
    key := HasHome(y, f);
    if |key| > |p| {
      NoBoxBetween(x, minSize, p, f, key);
    } else if |key| == |p| {
      SamePathSameLength(key, p, f.dirs);
    }
  }

  /** All files of that box are in the same box of the other grouping. */
  lemma SameHomeAbove(x: Boxes, y: Boxes, minSize: int, p: Key, f: File, g: File, k: Key, l: Key)
    requires Grouping(x, minSize) && Grouping(y, minSize) && p in x && f in x[p] && g in x[p]
    requires k in y && f in y[k] && |k| < |p| && l in y && g in y[l] && |l| < |p|
    ensures k == l
  {
    assert p <= f.dirs && p <= g.dirs;
    assert k == p[..|k|] && l == p[..|l|];
    if |k| < |l| {
      NoBoxBetween(y, minSize, k, f, l);
    } else if |l| < |k| {
      NoBoxBetween(y, minSize, l, g, k);
    }
  }

  lemma NoneMissing(x: Boxes, y: Boxes, minSize: int, p: Key)
    requires Grouping(x, minSize) && Grouping(y, minSize) && Content(x) == Content(y)
    requires p in x && |p| <= MAX_DEPTH && AgreeBelow(x, y, |p|)
    ensures p in y
  {
    if p !in y {
      var first := x[p][0];
      var k := HomeAbove(x, y, minSize, p, first);
      forall f | f in x[p]
        ensures p <= f.dirs && multiset(x[p])[f] <= multiset(y[k])[f]
      {
        var l := HomeAbove(x, y, minSize, p, f);
        SameHomeAbove(x, y, minSize, p, first, f, k, l);
        AllCopiesHere(x, minSize, p, f);
        AllCopiesHere(y, minSize, k, f);
      }
      assert Bubbled(y[k], p, y, minSize);
      UnderAtLeast(x[p], y[k], p);
    }
  }

  lemma {:induction false} SameDirectories(x: Boxes, y: Boxes, minSize: int, depth: nat)
    requires Grouping(x, minSize) && Grouping(y, minSize) && Content(x) == Content(y) && depth <= MAX_DEPTH
    ensures AgreeBelow(x, y, depth)
    decreases MAX_DEPTH - depth
  {
    if depth < MAX_DEPTH {
      SameDirectories(x, y, minSize, depth + 1);
      forall q | depth < |q| <= MAX_DEPTH
        ensures q in x <==> q in y
      {
        if |q| == depth + 1 {
          if q in x {
            NoneMissing(x, y, minSize, q);
          }
          if q in y {
            NoneMissing(y, x, minSize, q);
          }
        }
      }
    }
  }

  lemma SameKeys(x: Boxes, y: Boxes, minSize: int, p: Key)
    requires Grouping(x, minSize) && Grouping(y, minSize) && Content(x) == Content(y)
    ensures p in x <==> p in y
  {
    SameDirectories(x, y, minSize, 0);
    if p in x {
      NoneMissing(x, y, minSize, p);
    }
    if p in y {
      NoneMissing(y, x, minSize, p);
    }
  }

  /** A file of a box of one grouping is in the box of the same directory in the other. */
  lemma SameHome(x: Boxes, y: Boxes, minSize: int, p: Key, f: File)
    requires Grouping(x, minSize) && Grouping(y, minSize) && Content(x) == Content(y)
    requires p in x && f in x[p]
    ensures p in y && f in y[p]
  {
    InContent(x, p, f);
    SameKeys(x, y, minSize, p);
    var key := HasHome(y, f);
    SameKeys(x, y, minSize, key);
    if |p| < |key| {
      NoBoxBetween(x, minSize, p, f, key);
    } else if |key| < |p| {
      NoBoxBetween(y, minSize, key, f, p);
    } else {
      SamePathSameLength(p, key, f.dirs);
    }
  }

  /** Two groupings of the same files have the same boxes with the same content. */
  lemma GroupingUnique(x: Boxes, y: Boxes, minSize: int)
    requires Grouping(x, minSize) && Grouping(y, minSize) && Content(x) == Content(y)
    ensures x.Keys == y.Keys
    ensures forall p :: p in x ==> multiset(x[p]) == multiset(y[p])
  {
    forall p
      ensures p in x <==> p in y
    {
      SameKeys(x, y, minSize, p);
    }
    forall p | p in x
      ensures multiset(x[p]) == multiset(y[p])
    {
      SameContent(x, y, minSize, p);
    }
  }

  lemma SameContent(x: Boxes, y: Boxes, minSize: int, p: Key)
    requires Grouping(x, minSize) && Grouping(y, minSize) && Content(x) == Content(y) && p in x && p in y
    ensures multiset(x[p]) == multiset(y[p])
  {
    forall f
      ensures multiset(x[p])[f] == multiset(y[p])[f]
    {
      if f in x[p] {
        SameHome(x, y, minSize, p, f);
      }
      if f in y[p] {
        SameHome(y, x, minSize, p, f);
        AllCopiesHere(x, minSize, p, f);
        AllCopiesHere(y, minSize, p, f);
      }
    }
  }
}
