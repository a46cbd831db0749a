/**
 Pass 2 of `compute_path_boxes` has one result: whichever lonely box of the greatest depth is absorbed
 first, any two finished runs end with the same boxes. Together with pass 1 this makes the boxes a function
 of the files and the threshold.
 */
module MergedBoxes {
  import opened PathBoxes
  import opened SettledBoxes

  /** What both passes keep. */
  ghost predicate Sound(boxes: Boxes, minSize: int) {
    WellPlaced(boxes) && BigBelowRoot(boxes, minSize)
  }

  ghost predicate Finished(boxes: Boxes, minSize: int) {
    forall k :: k in boxes ==> !Lonely(boxes, k, minSize)
  }

  /** A run from `x` to `z` that absorbs `keys` in this order. */
  ghost predicate Path(x: Boxes, keys: seq<Key>, z: Boxes, minSize: int)
    decreases |keys|
  {
    if keys == [] then x == z
    else Absorbs(x, keys[0], AfterAbsorb(x, keys[0]), minSize) && Path(AfterAbsorb(x, keys[0]), keys[1..], z, minSize)
  }

  /** `Absorb`, total. */
  function AfterAbsorb(x: Boxes, key: Key): Boxes {
    if key in x && key != [] then Absorb(x, key) else x
  }

  lemma {:induction false} PathThenPath(x: Boxes, a: seq<Key>, y: Boxes, b: seq<Key>, z: Boxes, minSize: int)
    requires Path(x, a, y, minSize) && Path(y, b, z, minSize)
    ensures Path(x, a + b, z, minSize)
    decreases |a|
  {
    hide Absorbs;
    hide AfterAbsorb;
    if a == [] {
      assert a + b == b;
    } else {
      assert (a + b)[1..] == a[1..] + b;
      PathThenPath(AfterAbsorb(x, a[0]), a[1..], y, b, z, minSize);
    }
  }

  lemma OneStep(x: Boxes, key: Key, minSize: int)
    requires Absorbs(x, key, AfterAbsorb(x, key), minSize)
    ensures Path(x, [key], AfterAbsorb(x, key), minSize)
  {
    assert [key][1..] == [];
  }

  lemma AbsorbSound(x: Boxes, key: Key, minSize: int)
    requires Sound(x, minSize)
    ensures Sound(AfterAbsorb(x, key), minSize)
  {
    if key in x && key != [] {
      AbsorbConserves(x, key);
    }
  }

  // ----- What one absorption leaves alone ------------------------------------------------------------------

  /** Absorbing `k` touches neither `q` nor its siblings nor its parent. */
  predicate Apart(k: Key, q: Key) {
    && |k| >= 2 && |q| >= 2
    && q != k && q != Parent(k) && Parent(q) != k && Parent(q) != Parent(k)
    && (|Parent(k)| == |q| ==> Parent(Parent(k)) != Parent(q))
  }

  /** `q` is there and lonely in both, or in neither. */
  ghost predicate AsBefore(x: Boxes, a: Boxes, q: Key, minSize: int) {
    (q in a <==> q in x) && (Lonely(a, q, minSize) <==> Lonely(x, q, minSize))
  }

  lemma Unaffected(x: Boxes, k: Key, q: Key, minSize: int)
    requires Apart(k, q)
    ensures AsBefore(x, AfterAbsorb(x, k), q, minSize)
  {
    var a := AfterAbsorb(x, k);
    assert forall s :: s != k && s != Parent(k) ==> (s in a <==> s in x) && (s in x ==> a[s] == x[s]);
    assert Get(a, Parent(q)) == Get(x, Parent(q));
    forall s | |s| == |q| && Parent(s) == Parent(q)
      ensures s != k && s != Parent(k)
    {
    }
    if HasBigSibling(x, q, minSize) {
      var s :| s in x && s != q && |s| == |q| && Parent(s) == Parent(q) && |x[s]| >= minSize;
      assert s in a && a[s] == x[s];
    }
    if HasBigSibling(a, q, minSize) {
      var s :| s in a && s != q && |s| == |q| && Parent(s) == Parent(q) && |a[s]| >= minSize;
      assert s in x && a[s] == x[s];
    }
  }

  predicate Free(p: Key, q: Key) {
    p != [] && q != [] && p != q && p != Parent(q) && q != Parent(p) && Parent(p) != Parent(q)
  }

  /** Absorptions with different keys and different parents commute. The root is never absorbed. */
  lemma Commute(x: Boxes, p: Key, q: Key)
    requires p == [] || q == [] || Free(p, q)
    ensures AfterAbsorb(AfterAbsorb(x, p), q) == AfterAbsorb(AfterAbsorb(x, q), p)
  {
    if p != [] && q != [] && p in x && q in x {
      var a, b := Absorb(Absorb(x, p), q), Absorb(Absorb(x, q), p);
      assert a.Keys == b.Keys;
      forall k | k in a
        ensures a[k] == b[k]
      {
      }
    }
  }

  // ----- Two lonely boxes of one depth ------------------------------------------------------------------------

  /** No box deeper than `depth` is lonely. */
  ghost predicate CalmBelow(x: Boxes, depth: nat, minSize: int) {
    forall k :: k in x && |k| > depth ==> !Lonely(x, k, minSize)
  }

  /** Lonely boxes of one depth have different parents, and are not at the top. */
  lemma LonelyPair(x: Boxes, k: Key, l: Key, minSize: int)
    requires Sound(x, minSize) && k in x && l in x && k != l && |k| == |l|
    requires Lonely(x, k, minSize) && Lonely(x, l, minSize)
    ensures Parent(k) != Parent(l) && |k| >= 2
  {
  }

  /** What follows the absorption of `k`: a box inside it that has become lonely, or nothing (then `c` is the
      root's key). */
  ghost predicate Follows(x: Boxes, k: Key, c: Key, minSize: int) {
    if c == [] then CalmBelow(AfterAbsorb(x, k), |k|, minSize)
    else |k| == 2 && |c| == 3 && Parent(c) == k && c in AfterAbsorb(x, k) && Lonely(AfterAbsorb(x, k), c, minSize)
  }

  /** Only boxes inside the absorbed one can become lonely below it. */
  lemma NextLonely(x: Boxes, k: Key, minSize: int) returns (c: Key)
    requires Sound(x, minSize) && k in x && 2 <= |k| <= MAX_DEPTH && CalmBelow(x, |k|, minSize)
    ensures Follows(x, k, c, minSize)
  {
    var a := AfterAbsorb(x, k);
    AbsorbSound(x, k, minSize);
    if CalmBelow(a, |k|, minSize) {
      c := [];
    } else {
      c :| c in a && |c| > |k| && Lonely(a, c, minSize);
      if Parent(c) != k {
        Unaffected(x, k, c, minSize);
      }
    }
  }

  function Steps(c: Key): seq<Key> {
    if c == [] then [] else [c]
  }

  /** After that, nothing deeper than `k` is lonely any more. */
  lemma CalmAgain(x: Boxes, k: Key, c: Key, minSize: int)
    requires Sound(x, minSize) && k in x && 2 <= |k| <= MAX_DEPTH && CalmBelow(x, |k|, minSize)
    requires Follows(x, k, c, minSize)
    ensures CalmBelow(AfterAbsorb(AfterAbsorb(x, k), c), |k|, minSize)
  {
    var a := AfterAbsorb(x, k);
    var b := AfterAbsorb(a, c);
    AbsorbSound(x, k, minSize);
    AbsorbSound(a, c, minSize);
    if c != [] {
      forall q | q in b && |q| > |k|
        ensures !Lonely(b, q, minSize)
      {
        assert q in a;
        if Parent(q) != k {
          Unaffected(x, k, q, minSize);
          Unaffected(a, c, q, minSize);
        }
      }
    }
  }

  lemma FollowPath(x: Boxes, k: Key, c: Key, minSize: int)
    requires Sound(x, minSize) && Follows(x, k, c, minSize)
    ensures Path(AfterAbsorb(x, k), Steps(c), AfterAbsorb(AfterAbsorb(x, k), c), minSize)
  {
    if c != [] {
      AbsorbSound(x, k, minSize);
      OneStep(AfterAbsorb(x, k), c, minSize);
    }
  }

  /** Two lonely boxes of the greatest depth, and what follows each. */
  ghost predicate Choice(x: Boxes, k: Key, c: Key, l: Key, e: Key, minSize: int) {
    && Sound(x, minSize) && k in x && l in x && |k| == |l| && 2 <= |k| <= MAX_DEPTH && Parent(k) != Parent(l)
    && Lonely(x, k, minSize) && Lonely(x, l, minSize) && CalmBelow(x, |k|, minSize)
    && Follows(x, k, c, minSize) && Follows(x, l, e, minSize)
  }

  /** The state after `k` and what follows it, then `l` and what follows it. */
  function Both(x: Boxes, k: Key, c: Key, l: Key, e: Key): Boxes {
    AfterAbsorb(AfterAbsorb(AfterAbsorb(AfterAbsorb(x, k), c), l), e)
  }

  lemma ApartPair(x: Boxes, k: Key, c: Key, l: Key, e: Key, minSize: int)
    requires Choice(x, k, c, l, e, minSize)
    ensures Apart(k, l) && Free(k, l)
    ensures c != [] ==> Apart(c, l) && Free(c, l)
    ensures e != [] ==> Apart(k, e) && Free(k, e)
    ensures c != [] && e != [] ==> Apart(c, e) && Free(c, e)
  {
  }

  /** `l` comes after `k`, or before it: it makes no difference. */
  lemma LaterIsEarlier(x: Boxes, k: Key, c: Key, l: Key, e: Key, minSize: int)
    requires Choice(x, k, c, l, e, minSize)
    ensures AfterAbsorb(AfterAbsorb(AfterAbsorb(x, k), c), l) == AfterAbsorb(AfterAbsorb(AfterAbsorb(x, l), k), c)
  {
    ApartPair(x, k, c, l, e, minSize);
    Commute(AfterAbsorb(x, k), c, l);
    Commute(x, k, l);
  }

  lemma SameEnd(x: Boxes, k: Key, c: Key, l: Key, e: Key, minSize: int)
    requires Choice(x, k, c, l, e, minSize)
    ensures Both(x, k, c, l, e) == Both(x, l, e, k, c)
  {
    hide AfterAbsorb;
    hide Choice;
    LaterIsEarlier(x, k, c, l, e, minSize);
    ApartPair(x, k, c, l, e, minSize);
    var w := AfterAbsorb(x, l);
    Commute(AfterAbsorb(w, k), c, e);
    Commute(w, k, e);
  }

  /** Having absorbed `k`, one can go on with `l`. */
  lemma ThenTheOther(x: Boxes, k: Key, c: Key, l: Key, e: Key, minSize: int)
    requires Choice(x, k, c, l, e, minSize)
    ensures var b := AfterAbsorb(AfterAbsorb(x, k), c); Absorbs(b, l, AfterAbsorb(b, l), minSize)
  {
    var a := AfterAbsorb(x, k);
    ApartPair(x, k, c, l, e, minSize);
    CalmAgain(x, k, c, minSize);
    Unaffected(x, k, l, minSize);
    if c != [] {
      Unaffected(a, c, l, minSize);
    }
  }

  /** ... and then with what follows `l`. */
  lemma ThenItsFollower(x: Boxes, k: Key, c: Key, l: Key, e: Key, minSize: int)
    requires Choice(x, k, c, l, e, minSize) && e != []
    ensures var b := AfterAbsorb(AfterAbsorb(AfterAbsorb(x, k), c), l); Absorbs(b, e, AfterAbsorb(b, e), minSize)
  {
    var w := AfterAbsorb(x, l);
    ApartPair(x, k, c, l, e, minSize);
    LaterIsEarlier(x, k, c, l, e, minSize);
    Unaffected(w, k, e, minSize);
    if c != [] {
      Unaffected(AfterAbsorb(w, k), c, e, minSize);
    }
    AbsorbSound(x, l, minSize);
    AbsorbSound(w, k, minSize);
    AbsorbSound(AfterAbsorb(w, k), c, minSize);
  }

  lemma ChoicePath(x: Boxes, k: Key, c: Key, l: Key, e: Key, minSize: int) returns (keys: seq<Key>)
    requires Choice(x, k, c, l, e, minSize)
    ensures Path(AfterAbsorb(x, k), keys, Both(x, k, c, l, e), minSize)
  {
    hide AfterAbsorb;
    hide Absorbs;
    hide Path;
    var a := AfterAbsorb(x, k);
    var b := AfterAbsorb(a, c);
    var d := AfterAbsorb(b, l);
    FollowPath(x, k, c, minSize);
    ThenTheOther(x, k, c, l, e, minSize);
    OneStep(b, l, minSize);
    PathThenPath(a, Steps(c), b, [l], d, minSize);
    keys := Steps(c) + [l];
    if e != [] {
      ThenItsFollower(x, k, c, l, e, minSize);
      OneStep(d, e, minSize);
      PathThenPath(a, keys, d, [e], AfterAbsorb(d, e), minSize);
      keys := keys + [e];
    } else {
      RootStays(d);
    }
  }

  lemma RootStays(x: Boxes)
    ensures AfterAbsorb(x, []) == x
  {
  }

  // ----- All finished runs end alike ------------------------------------------------------------------------

  /** Every state can be finished. */
  lemma {:induction false} FinishedRun(x: Boxes, minSize: int) returns (keys: seq<Key>, z: Boxes)
    requires Sound(x, minSize)
    ensures Path(x, keys, z, minSize) && Finished(z, minSize)
    decreases DepthSum(x)
  {
    if Finished(x, minSize) {
      keys, z := [], x;
    } else {
      var lonely := set k | k in x && Lonely(x, k, minSize);
      var some :| some in x && Lonely(x, some, minSize);
      assert some in lonely;
      var first := DeepestKey(lonely);
      assert Absorbs(x, first, AfterAbsorb(x, first), minSize);
      AbsorbSound(x, first, minSize);
      AbsorbLowersDepth(x, first);
      var rest: seq<Key>;
      rest, z := FinishedRun(AfterAbsorb(x, first), minSize);
      keys := [first] + rest;
      assert keys[1..] == rest;
    }
  }

  lemma {:induction false} Confluent(x: Boxes, a: seq<Key>, y: Boxes, b: seq<Key>, z: Boxes, minSize: int)
    requires Sound(x, minSize) && Path(x, a, y, minSize) && Path(x, b, z, minSize)
    requires Finished(y, minSize) && Finished(z, minSize)
    ensures y == z
    decreases DepthSum(x)
  {
    if a != [] && b != [] {
      var k, l := a[0], b[0];
      AbsorbSound(x, k, minSize);
      AbsorbLowersDepth(x, k);
      AbsorbSound(x, l, minSize);
      AbsorbLowersDepth(x, l);
      if k == l {
        Confluent(AfterAbsorb(x, k), a[1..], y, b[1..], z, minSize);
      } else {
        var fromK, fromL, w := Join(x, k, l, minSize);
        Confluent(AfterAbsorb(x, k), a[1..], y, fromK, w, minSize);
        Confluent(AfterAbsorb(x, l), b[1..], z, fromL, w, minSize);
      }
    }
  }

  /** From two different first steps the same finished state can be reached. */
  lemma Join(x: Boxes, k: Key, l: Key, minSize: int)
    returns (fromK: seq<Key>, fromL: seq<Key>, w: Boxes)
    requires Sound(x, minSize) && k != l
    requires Absorbs(x, k, AfterAbsorb(x, k), minSize) && Absorbs(x, l, AfterAbsorb(x, l), minSize)
    ensures Finished(w, minSize)
    ensures Path(AfterAbsorb(x, k), fromK, w, minSize) && Path(AfterAbsorb(x, l), fromL, w, minSize)
  {
    LonelyPair(x, k, l, minSize);
    var c := NextLonely(x, k, minSize);
    var e := NextLonely(x, l, minSize);
    assert Choice(x, k, c, l, e, minSize);
    fromK, fromL, w := JoinChoice(x, k, c, l, e, minSize);
  }

  lemma JoinChoice(x: Boxes, k: Key, c: Key, l: Key, e: Key, minSize: int)
    returns (fromK: seq<Key>, fromL: seq<Key>, w: Boxes)
    requires Choice(x, k, c, l, e, minSize) && Choice(x, l, e, k, c, minSize)
    ensures Finished(w, minSize)
    ensures Path(AfterAbsorb(x, k), fromK, w, minSize) && Path(AfterAbsorb(x, l), fromL, w, minSize)
  {
    hide AfterAbsorb;
    hide Path;
    fromK := ChoicePath(x, k, c, l, e, minSize);
    fromL := ChoicePath(x, l, e, k, c, minSize);
    SameEnd(x, k, c, l, e, minSize);
    var both := Both(x, k, c, l, e);
    BothSound(x, k, c, l, e, minSize);
    var toEnd: seq<Key>;
    toEnd, w := FinishedRun(both, minSize);
    PathThenPath(AfterAbsorb(x, k), fromK, both, toEnd, w, minSize);
    PathThenPath(AfterAbsorb(x, l), fromL, both, toEnd, w, minSize);
    fromK, fromL := fromK + toEnd, fromL + toEnd;
  }

  lemma BothSound(x: Boxes, k: Key, c: Key, l: Key, e: Key, minSize: int)
    requires Sound(x, minSize)
    ensures Sound(Both(x, k, c, l, e), minSize)
  {
    hide AfterAbsorb;
    hide Sound;
    AbsorbSound(x, k, minSize);
    AbsorbSound(AfterAbsorb(x, k), c, minSize);
    AbsorbSound(AfterAbsorb(AfterAbsorb(x, k), c), l, minSize);
    AbsorbSound(AfterAbsorb(AfterAbsorb(AfterAbsorb(x, k), c), l), e, minSize);
  }

  // ----- Starts that agree up to the order of files -----------------------------------------------------------

  /** The same boxes with the same files, each in any order. */
  ghost predicate Alike(x: Boxes, y: Boxes) {
    x.Keys == y.Keys && forall k :: k in x ==> multiset(x[k]) == multiset(y[k])
  }

  lemma AlikeSizes(x: Boxes, y: Boxes)
    requires Alike(x, y)
    ensures forall k :: |Get(x, k)| == |Get(y, k)|
  {
    forall k
      ensures |Get(x, k)| == |Get(y, k)|
    {
      if k in x {
        assert |multiset(x[k])| == |multiset(y[k])|;
      }
    }
  }

  lemma AlikeLonely(x: Boxes, y: Boxes, k: Key, minSize: int)
    requires Alike(x, y)
    ensures Lonely(x, k, minSize) <==> Lonely(y, k, minSize)
  {
    AlikeSizes(x, y);
    if k != [] {
      if HasBigSibling(x, k, minSize) {
        var s :| s in x && s != k && |s| == |k| && Parent(s) == Parent(k) && |x[s]| >= minSize;
        assert s in y && |Get(x, s)| == |Get(y, s)|;
      }
      if HasBigSibling(y, k, minSize) {
        var s :| s in y && s != k && |s| == |k| && Parent(s) == Parent(k) && |y[s]| >= minSize;
        assert s in x && |Get(x, s)| == |Get(y, s)|;
      }
    }
  }

  lemma AlikeAbsorb(x: Boxes, y: Boxes, k: Key)
    requires Alike(x, y)
    ensures Alike(AfterAbsorb(x, k), AfterAbsorb(y, k))
  {
  }

  lemma AlikeStep(x: Boxes, y: Boxes, k: Key, minSize: int)
    requires Alike(x, y) && Absorbs(x, k, AfterAbsorb(x, k), minSize)
    ensures Absorbs(y, k, AfterAbsorb(y, k), minSize)
  {
    forall q
      ensures Lonely(x, q, minSize) <==> Lonely(y, q, minSize)
    {
      AlikeLonely(x, y, q, minSize);
    }
  }

  /** A run can be repeated from any start that is alike. */
  lemma {:induction false} Mirror(x: Boxes, keys: seq<Key>, z: Boxes, y: Boxes, minSize: int) returns (w: Boxes)
    requires Path(x, keys, z, minSize) && Alike(x, y)
    ensures Path(y, keys, w, minSize) && Alike(z, w)
    decreases |keys|
  {
    hide Absorbs;
    hide AfterAbsorb;
    hide Alike;
    if keys == [] {
      w := y;
    } else {
      AlikeStep(x, y, keys[0], minSize);
      AlikeAbsorb(x, y, keys[0]);
      w := Mirror(AfterAbsorb(x, keys[0]), keys[1..], z, AfterAbsorb(y, keys[0]), minSize);
    }
  }

  lemma FinishedAlike(x: Boxes, y: Boxes, minSize: int)
    requires Alike(x, y) && Finished(x, minSize)
    ensures Finished(y, minSize)
  {
    forall k | k in y
      ensures !Lonely(y, k, minSize)
    {
      AlikeLonely(x, y, k, minSize);
    }
  }

  // ----- The states of the loop ---------------------------------------------------------------------------------

  lemma {:induction false} RunIsPath(states: seq<Boxes>, minSize: int) returns (keys: seq<Key>)
    requires IsRun(states, minSize)
    ensures Path(states[0], keys, states[|states| - 1], minSize)
    decreases |states|
  {
    hide AfterAbsorb;
    if |states| == 1 {
      keys := [];
    } else {
      assert Turns(states[0], states[1], minSize);
      var key :| Absorbs(states[0], key, states[1], minSize);
      AbsorbedIs(states[0], key, states[1], minSize);
      RunTail(states, minSize);
      var rest := RunIsPath(states[1..], minSize);
      keys := [key] + rest;
      assert keys[1..] == rest;
    }
  }

  lemma AbsorbedIs(x: Boxes, key: Key, y: Boxes, minSize: int)
    requires Absorbs(x, key, y, minSize)
    ensures y == AfterAbsorb(x, key)
  {
  }

  lemma RunTail(states: seq<Boxes>, minSize: int)
    requires IsRun(states, minSize) && |states| > 1
    ensures IsRun(states[1..], minSize) && states[1..][0] == states[1]
  {
    forall i | 1 <= i < |states[1..]|
      ensures Turns(states[1..][i - 1], states[1..][i], minSize)
    {
      assert Turns(states[i], states[i + 1], minSize);
    }
  }

  /** Any two finished runs of pass 2 from groupings that are alike end with boxes that are alike. */
  lemma RunsEndAlike(r: seq<Boxes>, s: seq<Boxes>, minSize: int)
    requires IsRun(r, minSize) && IsRun(s, minSize) && Alike(r[0], s[0]) && Sound(r[0], minSize)
    requires Finished(r[|r| - 1], minSize) && Finished(s[|s| - 1], minSize)
    ensures Alike(s[|s| - 1], r[|r| - 1])
  {
    var a := RunIsPath(r, minSize);
    var b := RunIsPath(s, minSize);
    AlikeSym(r[0], s[0]);
    var w := Mirror(s[0], b, s[|s| - 1], r[0], minSize);
    FinishedAlike(s[|s| - 1], w, minSize);
    Confluent(r[0], a, r[|r| - 1], b, w, minSize);
  }

  lemma AlikeSym(x: Boxes, y: Boxes)
    requires Alike(x, y)
    ensures Alike(y, x)
  {
  }

  /** What `ComputePathBoxes` promises of its result and of the states that lead to it. */
  ghost predicate IsResult(files: multiset<File>, minSize: int, states: seq<Boxes>) {
    && IsRun(states, minSize) && Content(states[0]) == files && Grouping(states[0], minSize)
    && Finished(states[|states| - 1], minSize)
  }

  /** The boxes are determined by the files, with multiplicity, and the threshold. */
  lemma BoxesUnique(files: multiset<File>, minSize: int, r: seq<Boxes>, s: seq<Boxes>)
    requires IsResult(files, minSize, r) && IsResult(files, minSize, s)
    ensures Alike(s[|s| - 1], r[|r| - 1])
  {
    GroupingUnique(r[0], s[0], minSize);
    RunsEndAlike(r, s, minSize);
  }
}
