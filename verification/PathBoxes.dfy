/**
 Grouping Markdown files into directory boxes: `compute_path_boxes` of tools/scripts/md-fabric.py.

 A box key is the list of its path parts; the script writes it joined with slashes and splits it
 again whenever it needs the parts. Dictionaries are maps, and a loop over one visits its keys in
 any order the code allows, so every statement holds for every insertion order.
 */
module PathBoxes {
  import opened Common
  import opened Paths

  type Key = seq<string>

  /** A file: the directory parts of its path and its name. */
  datatype File = File(dirs: Key, name: string)

  type Boxes = map<Key, seq<File>>

  const MAX_DEPTH: nat := 3

  /** The files of a box; none when there is no such box. */
  function Get(boxes: Boxes, key: Key): seq<File> {
    if key in boxes then boxes[key] else []
  }

  function Parent(key: Key): Key
    requires key != []
  {
    key[..|key| - 1]
  }

  /** `setdefault(key, []).extend(group)`. */
  function Extend(boxes: Boxes, key: Key, group: seq<File>): Boxes {
    boxes[key := Get(boxes, key) + group]
  }

  // ----- Keys as text -----------------------------------------------------------------------------

  /** The dictionary key as the script writes it. */
  function KeyText(key: Key): string {
    if key == [] then "" else Join(key)
  }

  function NonEmpty(parts: seq<string>): seq<string> {
    if parts == [] then []
    else (if parts[0] == [] then [] else [parts[0]]) + NonEmpty(parts[1..])
  }

  function KeyParts(text: string): Key {
    NonEmpty(Split(text))
  }

  lemma {:induction false} NonEmptyKeeps(parts: seq<string>)
    requires forall i :: 0 <= i < |parts| ==> parts[i] != []
    ensures NonEmpty(parts) == parts
  {
    if parts != [] {
      NonEmptyKeeps(parts[1..]);
    }
  }

  /** Lists of parts and their texts determine each other, so keys may be taken as lists. */
  lemma KeyRoundTrip(key: Key)
    requires forall i :: 0 <= i < |key| ==> key[i] != [] && '/' !in key[i]
    ensures KeyParts(KeyText(key)) == key
  {
    if key == [] {
      assert Split("") == [""] && NonEmpty([""]) == NonEmpty([""][1..]);
    } else {
      SplitJoin(key);
      NonEmptyKeeps(key);
    }
  }

  // ----- What the boxes hold ----------------------------------------------------------------------

  /** All files of all boxes, with multiplicity. */
  ghost function Content(boxes: Boxes): multiset<File>
    decreases |boxes|
  {
    if boxes == map[] then multiset{}
    else
      var key :| key in boxes;
      multiset(boxes[key]) + Content(boxes - {key})
  }

  /** Content does not depend on the order in which the boxes are taken. */
  lemma {:induction false} ContentRemove(boxes: Boxes, key: Key)
    requires key in boxes
    ensures Content(boxes) == multiset(boxes[key]) + Content(boxes - {key})
    decreases |boxes|
  {
    var first :| first in boxes && Content(boxes) == multiset(boxes[first]) + Content(boxes - {first});
    if first != key {
      var without := boxes - {first};
      ContentRemove(without, key);
      ContentRemove(boxes - {key}, first);
      assert without - {key} == boxes - {key} - {first};
    }
  }

  lemma ContentExtend(boxes: Boxes, key: Key, group: seq<File>)
    ensures Content(Extend(boxes, key, group)) == Content(boxes) + multiset(group)
  {
    hide Content;
    var more := Extend(boxes, key, group);
    ContentRemove(more, key);
    assert more - {key} == boxes - {key};
    assert multiset(more[key]) == multiset(Get(boxes, key)) + multiset(group);
    if key in boxes {
      ContentRemove(boxes, key);
    } else {
      assert boxes - {key} == boxes;
    }
  }

  /** Every box sits on its files' directory path, at depth 3 at most, and is not empty. */
  ghost predicate WellPlaced(boxes: Boxes) {
    forall key :: key in boxes ==>
      && |key| <= MAX_DEPTH
      && boxes[key] != []
      && forall f :: f in boxes[key] ==> key <= f.dirs
  }

  lemma ExtendWellPlaced(boxes: Boxes, key: Key, group: seq<File>)
    requires WellPlaced(boxes) && |key| <= MAX_DEPTH && group != []
    requires forall f :: f in group ==> key <= f.dirs
    ensures WellPlaced(Extend(boxes, key, group))
  {
  }

  ghost predicate Shallower(boxes: Boxes, depth: nat) {
    forall key :: key in boxes ==> |key| < depth
  }

  ghost predicate NotShallower(boxes: Boxes, depth: nat) {
    forall key :: key in boxes ==> |key| >= depth
  }

  /** Adding a group to the box of a prefix of its files' paths: what is conserved and kept. */
  lemma ExtendKeeps(boxes: Boxes, key: Key, group: seq<File>, depth: nat)
    requires WellPlaced(boxes) && |key| <= MAX_DEPTH && group != []
    requires forall f :: f in group ==> key <= f.dirs
    ensures var more := Extend(boxes, key, group);
            && Content(more) == Content(boxes) + multiset(group)
            && WellPlaced(more)
            && (Shallower(boxes, depth) && |key| < depth ==> Shallower(more, depth))
            && (NotShallower(boxes, depth) && |key| >= depth ==> NotShallower(more, depth))
            && more.Keys == boxes.Keys + {key}
  {
    ContentExtend(boxes, key, group);
    ExtendWellPlaced(boxes, key, group);
  }

  lemma ExtendFresh(boxes: Boxes, key: Key, group: seq<File>)
    requires key !in boxes
    ensures Extend(boxes, key, group) == boxes[key := group]
  {
    assert [] + group == group;
  }

  // ----- Pass 1 -----------------------------------------------------------------------------------

  /** How many files of the list are in the directory `p` or below it. */
  function Under(group: seq<File>, p: Key): (n: nat)
    ensures n <= |group|
  {
    if group == [] then 0 else (if p <= group[0].dirs then 1 else 0) + Under(group[1..], p)
  }

  lemma {:induction false} UnderAppend(a: seq<File>, b: seq<File>, p: Key)
    ensures Under(a + b, p) == Under(a, p) + Under(b, p)
  {
    if a == [] {
      assert a + b == b;
    } else {
      assert (a + b)[1..] == a[1..] + b;
      UnderAppend(a[1..], b, p);
    }
  }

  lemma {:induction false} UnderNone(group: seq<File>, p: Key)
    requires forall f :: f in group ==> !(p <= f.dirs)
    ensures Under(group, p) == 0
  {
    if group != [] {
      UnderNone(group[1..], p);
    }
  }

  /** No file of the list is in the directory `p`, or fewer than `minSize` are and `p` has no box. */
  predicate Bubbled(group: seq<File>, p: Key, boxes: Boxes, minSize: int) {
    Under(group, p) == 0 || (p !in boxes && Under(group, p) < minSize)
  }

  /** No list holds files from a deeper directory (below depth `depth`, down to 3) that has a box of its
      own or could have one. */
  ghost predicate NothingDeeper(lists: Boxes, boxes: Boxes, depth: nat, minSize: int) {
    forall key, p :: key in lists && |key| < |p| && depth < |p| <= MAX_DEPTH ==> Bubbled(lists[key], p, boxes, minSize)
  }

  /** The boxes of pass 1: a file is in the deepest box on its path, and a directory without a box has
      fewer than `minSize` files left for the boxes above it. */
  ghost predicate Settled(boxes: Boxes, minSize: int) {
    NothingDeeper(boxes, boxes, 0, minSize)
  }

  ghost predicate BigBelowRoot(boxes: Boxes, minSize: int) {
    forall key :: key in boxes && key != [] ==> |boxes[key]| >= minSize
  }

  /** The same, spelled out to depth 3. */
  lemma SettledIff(boxes: Boxes, minSize: int)
    ensures Settled(boxes, minSize)
            <==> forall key, p :: key in boxes && |key| < |p| <= 3 ==>
                   Under(boxes[key], p) == 0 || (p !in boxes && Under(boxes[key], p) < minSize)
  {
    if Settled(boxes, minSize) {
      forall key, p | key in boxes && |key| < |p| <= 3
        ensures Under(boxes[key], p) == 0 || (p !in boxes && Under(boxes[key], p) < minSize)
      {
        assert Bubbled(boxes[key], p, boxes, minSize);
      }
    }
  }

  /** One more file counts for its own directory and all above it. */
  lemma UnderMore(group: seq<File>, f: File, p: Key)
    ensures Under(group + [f], p) == Under(group, p) + if |p| <= |f.dirs| && f.dirs[..|p|] == p then 1 else 0
    ensures Under([], p) == 0
  {
    UnderAppend(group, [f], p);
  }

  /** Buckets above `depth` hold the files of exactly their directory. */
  ghost predicate OwnAbove(buckets: Boxes, depth: nat) {
    forall key, f :: key in buckets && |key| < depth && f in buckets[key] ==> f.dirs == key
  }

  /** Files by directory prefix of at most three parts. */
  method GroupByPrefix(files: seq<File>) returns (buckets: Boxes)
    ensures Content(buckets) == multiset(files) && WellPlaced(buckets) && OwnAbove(buckets, MAX_DEPTH)
  {
    buckets := map[];
    for i := 0 to |files|
      invariant Content(buckets) == multiset(files[..i]) && WellPlaced(buckets) && OwnAbove(buckets, MAX_DEPTH)
    {
      var parts := files[i].dirs;
      var depth := if |parts| < MAX_DEPTH then |parts| else MAX_DEPTH;
      var key := parts[..depth];
      AddFile(buckets, key, files[i]);
      buckets := Extend(buckets, key, [files[i]]);
      TakeSnoc(files, i);
    }
    assert files[..|files|] == files;
  }

  lemma AddFile(buckets: Boxes, key: Key, file: File)
    requires WellPlaced(buckets) && OwnAbove(buckets, MAX_DEPTH)
    requires key <= file.dirs && |key| <= MAX_DEPTH && (|key| < MAX_DEPTH ==> key == file.dirs)
    ensures var more := Extend(buckets, key, [file]);
            && Content(more) == Content(buckets) + multiset{file}
            && WellPlaced(more) && OwnAbove(more, MAX_DEPTH)
  {
    ContentExtend(buckets, key, [file]);
    ExtendWellPlaced(buckets, key, [file]);
    ExtendOwn(buckets, key, [file], MAX_DEPTH);
  }

  lemma ExtendOwn(buckets: Boxes, key: Key, group: seq<File>, depth: nat)
    requires OwnAbove(buckets, depth) && (|key| < depth ==> forall f :: f in group ==> f.dirs == key)
    ensures OwnAbove(Extend(buckets, key, group), depth)
  {
  }

  lemma PrefixOfPrefix(key: Key, group: seq<File>)
    requires key != [] && forall f :: f in group ==> key <= f.dirs
    ensures forall f :: f in group ==> Parent(key) <= f.dirs
  {
  }

  lemma WithoutWellPlaced(boxes: Boxes, key: Key)
    requires WellPlaced(boxes)
    ensures WellPlaced(boxes - {key})
  {
  }

  lemma Regroup<T>(a: multiset<T>, g: multiset<T>, c: multiset<T>)
    ensures a + (g + c) == (a + g) + c
  {
  }

  lemma AddedToEither<T>(a: multiset<T>, b: multiset<T>, g: multiset<T>)
    ensures (a + g) + b == a + b + g == a + (b + g)
  {
  }

  /** The start of a round: its depth and threshold, and the buckets and boxes it begins with. */
  datatype Round = Round(buckets: Boxes, boxes: Boxes, depth: nat, minSize: int) {

    ghost predicate Valid() {
      && 1 <= depth <= MAX_DEPTH && WellPlaced(buckets) && WellPlaced(boxes)
      && Shallower(buckets, depth + 1) && NotShallower(boxes, depth + 1)
      && OwnAbove(buckets, depth) && NothingDeeper(buckets, boxes, depth, minSize)
      && NothingDeeper(boxes, boxes, 0, minSize) && BigBelowRoot(boxes, minSize)
    }

    /** A new box is a large enough bucket of this depth. */
    ghost predicate BoxAt(newBoxes: Boxes, key: Key)
      requires key in newBoxes
    {
      || (key in boxes && newBoxes[key] == boxes[key])
      || (|key| == depth && key in buckets && newBoxes[key] == buckets[key] && |buckets[key]| >= minSize)
    }

    /** Files from deep directories reached a new bucket only from the small bucket below it. */
    ghost predicate BucketAt(rest: Boxes, newBuckets: Boxes, newBoxes: Boxes, key: Key, p: Key)
      requires key in newBuckets && depth <= |p|
    {
      || Under(newBuckets[key], p) == 0
      || (&& p[..depth] in buckets && p[..depth] !in rest && p[..depth] !in newBoxes
          && |buckets[p[..depth]]| < minSize
          && Under(newBuckets[key], p) == Under(buckets[p[..depth]], p))
    }

    ghost predicate Buckets(rest: Boxes, newBuckets: Boxes, newBoxes: Boxes) {
      forall key, p :: key in newBuckets && depth <= |p| <= MAX_DEPTH ==> BucketAt(rest, newBuckets, newBoxes, key, p)
    }

    ghost predicate RestOf(rest: Boxes, newBoxes: Boxes) {
      forall key :: key in rest ==> key in buckets && rest[key] == buckets[key] && key !in newBoxes
    }

    ghost predicate BoxesFrom(newBoxes: Boxes) {
      && (forall key :: key in boxes ==> key in newBoxes)
      && (forall key :: key in newBoxes ==> BoxAt(newBoxes, key))
    }

    /** What holds when the buckets in `rest` are still to be placed. */
    ghost predicate Inv(rest: Boxes, newBuckets: Boxes, newBoxes: Boxes)
      requires depth >= 1
    {
      && RestOf(rest, newBoxes) && BoxesFrom(newBoxes)
      && Buckets(rest, newBuckets, newBoxes) && OwnAbove(newBuckets, depth - 1)
    }
  }

  /** Extending a bucket by files that are in no directory `p` leaves its count for `p` alone. */
  lemma BucketAtKept(r: Round, rest: Boxes, newBuckets: Boxes, newBoxes: Boxes, to: Key, group: seq<File>,
                     key: Key, k: Key, p: Key)
    requires r.depth <= |p| && Under(group, p) == 0
    requires k in newBuckets ==> r.BucketAt(rest, newBuckets, newBoxes, k, p)
    requires k in Extend(newBuckets, to, group)
    ensures r.BucketAt(rest - {key}, Extend(newBuckets, to, group), newBoxes, k, p)
  {
    UnderAppend(Get(newBuckets, to), group, p);
  }

  /** A small bucket handed to its parent brings its own count for the directories below it. */
  lemma BucketAtBubbled(r: Round, rest: Boxes, newBuckets: Boxes, newBoxes: Boxes, key: Key, k: Key, p: Key)
    requires r.depth <= |p| && p[..r.depth] == key && key != []
    requires k in newBuckets ==> r.BucketAt(rest, newBuckets, newBoxes, k, p)
    requires key in rest && key in r.buckets && rest[key] == r.buckets[key] && key !in newBoxes
    requires |rest[key]| < r.minSize && k in Extend(newBuckets, Parent(key), rest[key])
    ensures r.BucketAt(rest - {key}, Extend(newBuckets, Parent(key), rest[key]), newBoxes, k, p)
  {
    UnderAppend(Get(newBuckets, Parent(key)), rest[key], p);
  }

  /** Files of exactly the directory `key` are in no deeper one. */
  lemma KeepStep(r: Round, rest: Boxes, newBuckets: Boxes, newBoxes: Boxes, key: Key)
    requires r.Valid() && r.Inv(rest, newBuckets, newBoxes) && key in rest && |key| < r.depth
    ensures r.Inv(rest - {key}, Extend(newBuckets, key, rest[key]), newBoxes)
  {
    var more := Extend(newBuckets, key, rest[key]);
    forall k, p | k in more && r.depth <= |p| <= MAX_DEPTH
      ensures r.BucketAt(rest - {key}, more, newBoxes, k, p)
    {
      UnderNone(rest[key], p);
      BucketAtKept(r, rest, newBuckets, newBoxes, key, rest[key], key, k, p);
    }
    ExtendOwn(newBuckets, key, rest[key], r.depth - 1);
  }

  lemma BoxStep(r: Round, rest: Boxes, newBuckets: Boxes, newBoxes: Boxes, key: Key)
    requires r.Valid() && r.Inv(rest, newBuckets, newBoxes) && key in rest && |key| == r.depth
    requires |rest[key]| >= r.minSize
    ensures r.Inv(rest - {key}, newBuckets, newBoxes[key := rest[key]])
  {
    BoxAdded(r, newBoxes, key);
    var more := newBoxes[key := rest[key]];
    forall k, p | k in newBuckets && r.depth <= |p| <= MAX_DEPTH
      ensures r.BucketAt(rest - {key}, newBuckets, more, k, p)
    {
      assert r.BucketAt(rest, newBuckets, newBoxes, k, p);
    }
  }

  lemma BoxAdded(r: Round, newBoxes: Boxes, key: Key)
    requires r.BoxesFrom(newBoxes) && key !in newBoxes
    requires key in r.buckets && |key| == r.depth && |r.buckets[key]| >= r.minSize
    ensures r.BoxesFrom(newBoxes[key := r.buckets[key]])
  {
    var more := newBoxes[key := r.buckets[key]];
    forall k | k in more
      ensures r.BoxAt(more, k)
    {
      assert k != key ==> r.BoxAt(newBoxes, k);
    }
  }

  /** A small bucket joins its parent's: only directories below its own are affected. */
  lemma BubbleStep(r: Round, rest: Boxes, newBuckets: Boxes, newBoxes: Boxes, key: Key)
    requires r.Valid() && r.Inv(rest, newBuckets, newBoxes) && key in rest && |key| == r.depth
    requires |rest[key]| < r.minSize
    ensures r.Inv(rest - {key}, Extend(newBuckets, Parent(key), rest[key]), newBoxes)
  {
    var group, up := rest[key], Parent(key);
    var more := Extend(newBuckets, up, group);
    forall k, p | k in more && r.depth <= |p| <= MAX_DEPTH
      ensures r.BucketAt(rest - {key}, more, newBoxes, k, p)
    {
      if p[..r.depth] == key {
        BucketAtBubbled(r, rest, newBuckets, newBoxes, key, k, p);
      } else {
        OnlyBelow(group, key, p);
        BucketAtKept(r, rest, newBuckets, newBoxes, up, group, key, k, p);
      }
    }
    ExtendOwn(newBuckets, up, group, r.depth - 1);
  }

  lemma OnlyBelow(group: seq<File>, key: Key, p: Key)
    requires forall f :: f in group ==> key <= f.dirs
    requires |key| <= |p| && p[..|key|] != key
    ensures Under(group, p) == 0
  {
    UnderNone(group, p);
  }

  /** Where a whole round leads: the conditions of the next one. */
  lemma RoundDone(r: Round, newBuckets: Boxes, newBoxes: Boxes)
    requires r.Valid() && r.Inv(map[], newBuckets, newBoxes)
    ensures OwnAbove(newBuckets, r.depth - 1)
    ensures NothingDeeper(newBuckets, newBoxes, r.depth - 1, r.minSize)
    ensures NothingDeeper(newBoxes, newBoxes, 0, r.minSize) && BigBelowRoot(newBoxes, r.minSize)
  {
    forall key, p | key in newBuckets && |key| < |p| && r.depth - 1 < |p| <= MAX_DEPTH
      ensures Bubbled(newBuckets[key], p, newBoxes, r.minSize)
    {
      assert r.BucketAt(map[], newBuckets, newBoxes, key, p);
      if |p| == r.depth {
        assert p[..r.depth] == p;
      } else if Under(newBuckets[key], p) != 0 {
        assert Bubbled(r.buckets[p[..r.depth]], p, r.boxes, r.minSize);
      }
    }
    forall key, p | key in newBoxes && |key| < |p| && 0 < |p| <= MAX_DEPTH
      ensures Bubbled(newBoxes[key], p, newBoxes, r.minSize)
    {
      assert r.BoxAt(newBoxes, key);
      if key in r.boxes && newBoxes[key] == r.boxes[key] {
        assert Bubbled(r.boxes[key], p, r.boxes, r.minSize);
      } else {
        assert Bubbled(r.buckets[key], p, r.boxes, r.minSize);
      }
      assert p in newBoxes ==> r.BoxAt(newBoxes, p);
    }
    forall key | key in newBoxes
      ensures key != [] ==> |newBoxes[key]| >= r.minSize
    {
      assert r.BoxAt(newBoxes, key);
    }
  }

  /** Where one bucket goes in a round: kept, made a box, or handed to its parent. */
  method PlaceBucket(buckets: Boxes, boxes: Boxes, key: Key, group: seq<File>, depth: nat, minSize: int,
                     ghost r: Round, ghost rest: Boxes)
    returns (newBuckets: Boxes, newBoxes: Boxes)
    requires 1 <= depth <= MAX_DEPTH && |key| <= depth && key !in boxes
    requires WellPlaced(buckets) && WellPlaced(boxes)
    requires group != [] && forall f :: f in group ==> key <= f.dirs
    requires Shallower(buckets, depth) && NotShallower(boxes, depth)
    requires r.Valid() && r.depth == depth && r.minSize == minSize && r.Inv(rest, buckets, boxes)
    requires key in rest && rest[key] == group
    ensures Content(newBuckets) + Content(newBoxes) == Content(buckets) + Content(boxes) + multiset(group)
    ensures WellPlaced(newBuckets) && WellPlaced(newBoxes)
    ensures Shallower(newBuckets, depth) && NotShallower(newBoxes, depth)
    ensures r.Inv(rest - {key}, newBuckets, newBoxes)
  {
    newBuckets, newBoxes := buckets, boxes;
    AddedToEither(Content(buckets), Content(boxes), multiset(group));
    if |key| != depth {
      KeepStep(r, rest, buckets, boxes, key);
      ExtendKeeps(buckets, key, group, depth);
      newBuckets := Extend(buckets, key, group);
    } else if |group| >= minSize {
      BoxStep(r, rest, buckets, boxes, key);
      ExtendKeeps(boxes, key, group, depth);
      ExtendFresh(boxes, key, group);
      newBoxes := boxes[key := group];
    } else {
      BubbleStep(r, rest, buckets, boxes, key);
      PrefixOfPrefix(key, group);
      ExtendKeeps(buckets, Parent(key), group, depth);
      newBuckets := Extend(buckets, Parent(key), group);
    }
  }

  /** One round of bubbling up: buckets of this depth become boxes when large enough and go to
      their parent otherwise; all other buckets are kept. */
  method BubbleUp(buckets: Boxes, boxes: Boxes, depth: nat, minSize: int)
    returns (newBuckets: Boxes, newBoxes: Boxes)
    requires Round(buckets, boxes, depth, minSize).Valid()
    ensures Content(newBuckets) + Content(newBoxes) == Content(buckets) + Content(boxes)
    ensures WellPlaced(newBuckets) && WellPlaced(newBoxes)
    ensures Shallower(newBuckets, depth) && NotShallower(newBoxes, depth)
    ensures OwnAbove(newBuckets, depth - 1) && NothingDeeper(newBuckets, newBoxes, depth - 1, minSize)
    ensures NothingDeeper(newBoxes, newBoxes, 0, minSize) && BigBelowRoot(newBoxes, minSize)
  {
    newBuckets, newBoxes := map[], boxes;
    var rest := buckets;
    ghost var r := Round(buckets, boxes, depth, minSize);
    while rest != map[]
      invariant Content(newBuckets) + Content(newBoxes) + Content(rest) == Content(buckets) + Content(boxes)
      invariant WellPlaced(newBuckets) && WellPlaced(newBoxes) && WellPlaced(rest)
      invariant Shallower(rest, depth + 1) && Shallower(newBuckets, depth) && NotShallower(newBoxes, depth)
      invariant r.Inv(rest, newBuckets, newBoxes)
      decreases rest.Keys
    {
      var key :| key in rest;
      var group := rest[key];
      ContentRemove(rest, key);
      WithoutWellPlaced(rest, key);
      ghost var before := Content(newBuckets) + Content(newBoxes);
      newBuckets, newBoxes := PlaceBucket(newBuckets, newBoxes, key, group, depth, minSize, r, rest);
      Regroup(before, multiset(group), Content(rest - {key}));
      rest := rest - {key};
    }
    RoundDone(r, newBuckets, newBoxes);
  }

  /** Pass 1: the rounds at depth 3, 2 and 1, then what is left at the root. Every file is in the deepest
      box on its path, boxes below the root have at least `minSize` files, and every directory that could
      have such a box has one. */
  method BuildBoxes(files: seq<File>, minSize: int) returns (boxes: Boxes)
    ensures Content(boxes) == multiset(files) && WellPlaced(boxes)
    ensures BigBelowRoot(boxes, minSize) && Settled(boxes, minSize)
  {
    var buckets := GroupByPrefix(files);
    boxes := map[];
    var depth: nat := MAX_DEPTH;
    while depth > 0
      invariant depth <= MAX_DEPTH
      invariant Content(buckets) + Content(boxes) == multiset(files)
      invariant WellPlaced(buckets) && WellPlaced(boxes)
      invariant Shallower(buckets, depth + 1) && NotShallower(boxes, depth + 1)
      invariant OwnAbove(buckets, depth) && NothingDeeper(buckets, boxes, depth, minSize)
      invariant NothingDeeper(boxes, boxes, 0, minSize) && BigBelowRoot(boxes, minSize)
    {
      buckets, boxes := BubbleUp(buckets, boxes, depth, minSize);
      depth := depth - 1;
    }
    RootAdded(boxes, buckets, minSize);
    boxes := AddAll(boxes, buckets);
  }

  /** The boxes with the bucket of the root, if there is one. */
  function WithRoot(boxes: Boxes, buckets: Boxes): Boxes {
    if [] in buckets then boxes[[] := buckets[[]]] else boxes
  }

  lemma RootAdded(boxes: Boxes, buckets: Boxes, minSize: int)
    requires Shallower(buckets, 1) && NotShallower(boxes, 1)
    requires NothingDeeper(buckets, boxes, 0, minSize)
    requires NothingDeeper(boxes, boxes, 0, minSize) && BigBelowRoot(boxes, minSize)
    ensures Settled(WithRoot(boxes, buckets), minSize) && BigBelowRoot(WithRoot(boxes, buckets), minSize)
  {
    var all := WithRoot(boxes, buckets);
    forall key, p | key in all && |key| < |p| && 0 < |p| <= MAX_DEPTH
      ensures Bubbled(all[key], p, all, minSize)
    {
      if key == [] {
        assert Bubbled(buckets[key], p, boxes, minSize);
      } else {
        assert Bubbled(boxes[key], p, boxes, minSize);
      }
    }
  }

  method AddAll(start: Boxes, buckets: Boxes) returns (boxes: Boxes)
    requires WellPlaced(start) && WellPlaced(buckets)
    requires Shallower(buckets, 1) && NotShallower(start, 1)
    ensures Content(boxes) == Content(buckets) + Content(start) && WellPlaced(boxes)
    ensures boxes == WithRoot(start, buckets)
  {
    boxes := start;
    var rest := buckets;
    while rest != map[]
      invariant Content(rest) + Content(boxes) == Content(buckets) + Content(start)
      invariant WellPlaced(rest) && WellPlaced(boxes)
      invariant (rest == buckets && boxes == start) || (rest == map[] && boxes == WithRoot(start, buckets))
      decreases rest.Keys
    {
      var key :| key in rest;
      var group := rest[key];
      ContentRemove(rest, key);
      ContentExtend(boxes, key, group);
      ExtendWellPlaced(boxes, key, group);
      OnlyRoot(start, buckets, key);
      boxes := Extend(boxes, key, group);
      rest := rest - {key};
    }
  }

  /** Above depth 1 there is only the root. */
  lemma OnlyRoot(start: Boxes, buckets: Boxes, key: Key)
    requires Shallower(buckets, 1) && NotShallower(start, 1) && key in buckets
    ensures buckets - {key} == map[] && Extend(start, key, buckets[key]) == WithRoot(start, buckets)
  {
    ExtendFresh(start, key, buckets[key]);
  }

  // ----- Pass 2 -----------------------------------------------------------------------------------

  predicate HasBigSibling(boxes: Boxes, key: Key, minSize: int)
    requires key != []
  {
    exists k :: k in boxes && k != key && |k| == |key| && Parent(k) == Parent(key) && |boxes[k]| >= minSize
  }

  /** A box below the root that is to be absorbed by its parent. */
  predicate Lonely(boxes: Boxes, key: Key, minSize: int) {
    key != [] && !HasBigSibling(boxes, key, minSize) && |Get(boxes, Parent(key))| < minSize
  }

  function Absorb(boxes: Boxes, key: Key): Boxes
    requires key in boxes && key != []
  {
    (boxes - {key})[Parent(key) := Get(boxes, Parent(key)) + boxes[key]]
  }

  /** Lonely, spelled out: no other box at the same depth under the same parent reaches the threshold, nor does
      the parent's box, if there is one. */
  lemma LonelyIff(boxes: Boxes, key: Key, minSize: int)
    ensures Lonely(boxes, key, minSize)
            <==> && key != []
                 && (forall k :: k in boxes && k != key && |k| == |key| && k[..|k| - 1] == key[..|key| - 1]
                       ==> |boxes[k]| < minSize)
                 && (if key[..|key| - 1] in boxes then |boxes[key[..|key| - 1]]| < minSize else 0 < minSize)
  {
    if key != [] && HasBigSibling(boxes, key, minSize) {
      var k :| k in boxes && k != key && |k| == |key| && Parent(k) == Parent(key) && |boxes[k]| >= minSize;
    }
  }

  /** Absorbing, spelled out: the box goes, its files join those of the parent directory, nothing else changes. */
  lemma AbsorbIs(boxes: Boxes, key: Key, parent: Key)
    requires key in boxes && key != [] && parent == key[..|key| - 1]
    ensures var after := Absorb(boxes, key);
            && after.Keys == boxes.Keys - {key} + {parent}
            && after[parent] == (if parent in boxes then boxes[parent] else []) + boxes[key]
            && forall k :: k in after && k != parent ==> k in boxes && after[k] == boxes[k]
  {
  }

  lemma AbsorbConserves(boxes: Boxes, key: Key)
    requires key in boxes && key != []
    ensures Content(Absorb(boxes, key)) == Content(boxes)
    ensures WellPlaced(boxes) ==> WellPlaced(Absorb(boxes, key))
  {
    ContentRemove(boxes, key);
    ContentExtend(boxes - {key}, Parent(key), boxes[key]);
    assert Absorb(boxes, key) == Extend(boxes - {key}, Parent(key), boxes[key]);
    if WellPlaced(boxes) {
      forall f | f in boxes[key]
        ensures Parent(key) <= f.dirs
      {
        assert key <= f.dirs;
      }
      ExtendWellPlaced(boxes - {key}, Parent(key), boxes[key]);
    }
  }

  ghost function AtDepth(boxes: Boxes, depth: nat): set<Key> {
    set key | key in boxes && |key| == depth
  }

  /** The sum of the key depths over all boxes. */
  ghost function DepthSum(boxes: Boxes): nat {
    |AtDepth(boxes, 1)| + 2 * |AtDepth(boxes, 2)| + 3 * |AtDepth(boxes, 3)|
  }

  lemma AtDepthAfter(boxes: Boxes, key: Key, depth: nat)
    requires key in boxes && key != []
    ensures AtDepth(Absorb(boxes, key), depth)
            == if depth == |key| then AtDepth(boxes, depth) - {key}
               else if depth == |key| - 1 then AtDepth(boxes, depth) + {Parent(key)}
               else AtDepth(boxes, depth)
  {
  }

  /** Absorbing a box moves one key up by one level, or merges it away. */
  lemma AbsorbLowersDepth(boxes: Boxes, key: Key)
    requires key in boxes && 1 <= |key| <= MAX_DEPTH
    ensures DepthSum(Absorb(boxes, key)) < DepthSum(boxes)
  {
    AtDepthAfter(boxes, key, 1);
    AtDepthAfter(boxes, key, 2);
    AtDepthAfter(boxes, key, 3);
    assert key in AtDepth(boxes, |key|);
  }

  lemma {:induction false} DeepestKey(keys: set<Key>) returns (key: Key)
    requires keys != {}
    ensures key in keys && forall k :: k in keys ==> |k| <= |key|
    decreases |keys|
  {
    key :| key in keys;
    if keys != {key} {
      var other := DeepestKey(keys - {key});
      if |key| < |other| {
        key := other;
      }
    }
  }

  /** Scans the boxes from the deepest keys upward for the first lonely one. */
  method FindLonely(boxes: Boxes, minSize: int) returns (found: Option<Key>)
    ensures found.Some? ==> found.value in boxes && Lonely(boxes, found.value, minSize)
    ensures found.Some? ==> forall k :: k in boxes && |k| > |found.value| ==> !Lonely(boxes, k, minSize)
    ensures found.None? ==> forall k :: k in boxes ==> !Lonely(boxes, k, minSize)
  {
    var todo := boxes.Keys;
    while todo != {}
      invariant todo <= boxes.Keys
      invariant forall k :: k in boxes && k !in todo ==> !Lonely(boxes, k, minSize)
      decreases todo
    {
      ghost var deepest := DeepestKey(todo);
      var key :| key in todo && forall k :: k in todo ==> |k| <= |key|;
      if Lonely(boxes, key, minSize) {
        return Some(key);
      }
      todo := todo - {key};
    }
    found := None;
  }

  /** A lonely box with no lonely box below its depth is absorbed. */
  ghost predicate Absorbs(before: Boxes, key: Key, after: Boxes, minSize: int) {
    && key in before && Lonely(before, key, minSize)
    && (forall k :: k in before && |k| > |key| ==> !Lonely(before, k, minSize))
    && after == Absorb(before, key)
  }

  /** A step of pass 2, spelled out: the box is there and lonely, no deeper box is, and it joins its parent. */
  lemma AbsorbsIff(before: Boxes, key: Key, after: Boxes, minSize: int)
    ensures Absorbs(before, key, after, minSize)
            <==> && key in before && Lonely(before, key, minSize) && after == Absorb(before, key)
                 && forall k :: k in before && Lonely(before, k, minSize) ==> |k| <= |key|
  {
  }

  ghost predicate Turns(before: Boxes, after: Boxes, minSize: int) {
    exists key :: Absorbs(before, key, after, minSize)
  }

  /** The states of pass 2, one absorption after the other. */
  ghost predicate IsRun(states: seq<Boxes>, minSize: int) {
    states != [] && forall i :: 1 <= i < |states| ==> Turns(states[i - 1], states[i], minSize)
  }

  lemma RunMore(states: seq<Boxes>, next: Boxes, minSize: int)
    requires IsRun(states, minSize) && Turns(states[|states| - 1], next, minSize)
    ensures IsRun(states + [next], minSize)
  {
  }

  lemma KeyDepth(boxes: Boxes, key: Key)
    requires WellPlaced(boxes) && key in boxes
    ensures |key| <= MAX_DEPTH
  {
  }

  /** Pass 2: absorb one lonely box after another until none is left. It terminates because each
      turn lowers the sum of key depths. */
  method MergeLonely(start: Boxes, minSize: int) returns (boxes: Boxes, ghost states: seq<Boxes>)
    requires WellPlaced(start) && BigBelowRoot(start, minSize)
    ensures Content(boxes) == Content(start) && WellPlaced(boxes) && BigBelowRoot(boxes, minSize)
    ensures forall key :: key in boxes ==> !Lonely(boxes, key, minSize)
    ensures IsRun(states, minSize) && states[0] == start && states[|states| - 1] == boxes
  {
    hide Content;
    hide DepthSum;
    hide WellPlaced;
    boxes := start;
    states := [start];
    var changed := true;
    while changed
      invariant Content(boxes) == Content(start) && WellPlaced(boxes) && BigBelowRoot(boxes, minSize)
      invariant !changed ==> forall key :: key in boxes ==> !Lonely(boxes, key, minSize)
      invariant IsRun(states, minSize) && states[0] == start && states[|states| - 1] == boxes
      decreases DepthSum(boxes), changed
    {
      changed := false;
      var lonely := FindLonely(boxes, minSize);
      if lonely.Some? {
        KeyDepth(boxes, lonely.value);
        AbsorbConserves(boxes, lonely.value);
        AbsorbLowersDepth(boxes, lonely.value);
        assert Absorbs(boxes, lonely.value, Absorb(boxes, lonely.value), minSize);
        RunMore(states, Absorb(boxes, lonely.value), minSize);
        boxes := Absorb(boxes, lonely.value);
        states := states + [boxes];
        changed := true;
      }
    }
  }

  /** Another box at the same depth under the same parent, or the parent's own box, reaches the threshold. */
  ghost predicate Supported(boxes: Boxes, key: Key, minSize: int)
    requires key != []
  {
    || (exists k :: k in boxes && k != key && |k| == |key| && k[..|k| - 1] == key[..|key| - 1] && |boxes[k]| >= minSize)
    || (key[..|key| - 1] in boxes && |boxes[key[..|key| - 1]]| >= minSize)
    || minSize <= 0
  }

  lemma SupportedOrLonely(boxes: Boxes, key: Key, minSize: int)
    requires key in boxes && key != [] && !Lonely(boxes, key, minSize)
    ensures Supported(boxes, key, minSize)
  {
    LonelyIff(boxes, key, minSize);
  }

  lemma SupportedNotLonely(boxes: Boxes, key: Key, minSize: int)
    requires key in boxes && key != [] && Supported(boxes, key, minSize)
    ensures !Lonely(boxes, key, minSize)
  {
    LonelyIff(boxes, key, minSize);
  }

  /** Both passes. Each file ends up in exactly one box (the contents add up to the input, with
      multiplicity); the key of that box is a prefix of the file's directory path, of length 3 at
      most; every box below the root has at least `minSize` files, and a sibling or parent box with as many.
      `states` leads from the boxes of pass 1 to the result. */
  method ComputePathBoxes(files: seq<File>, minSize: int) returns (boxes: Boxes, ghost states: seq<Boxes>)
    ensures Content(boxes) == multiset(files) && WellPlaced(boxes) && BigBelowRoot(boxes, minSize)
    ensures forall key, f :: key in boxes && f in boxes[key] ==> |key| <= 3 && key <= f.dirs
    ensures forall key :: key in boxes && key != [] ==> |boxes[key]| >= minSize && Supported(boxes, key, minSize)
    ensures IsRun(states, minSize) && states[|states| - 1] == boxes
    ensures Content(states[0]) == multiset(files) && WellPlaced(states[0])
    ensures Settled(states[0], minSize) && BigBelowRoot(states[0], minSize)
  {
    boxes := BuildBoxes(files, minSize);
    boxes, states := MergeLonely(boxes, minSize);
    forall key | key in boxes && key != []
      ensures Supported(boxes, key, minSize)
    {
      SupportedOrLonely(boxes, key, minSize);
    }
  }
}
