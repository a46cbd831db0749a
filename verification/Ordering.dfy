/** Python's `sorted`: a stable sort by any total preorder, and code-point order on strings. */
module Ordering {

  /** `le` compares any two values and does so consistently. */
  ghost predicate TotalPreorder<T(!new)>(le: (T, T) -> bool) {
    && (forall a, b :: le(a, b) || le(b, a))
    && (forall a, b, c :: le(a, b) && le(b, c) ==> le(a, c))
  }

  ghost predicate IsSorted<T>(s: seq<T>, le: (T, T) -> bool) {
    forall i, j :: 0 <= i < j < |s| ==> le(s[i], s[j])
  }

  /** Puts `x` before the first element it may precede. */
  function Insert<T>(x: T, s: seq<T>, le: (T, T) -> bool): (r: seq<T>)
    ensures multiset(r) == multiset([x]) + multiset(s)
  {
    if s == [] then [x]
    else if le(x, s[0]) then [x] + s
    else
      assert s == [s[0]] + s[1..];
      [s[0]] + Insert(x, s[1..], le)
  }

  function Sort<T>(s: seq<T>, le: (T, T) -> bool): (r: seq<T>)
    ensures multiset(r) == multiset(s)
  {
    if s == [] then []
    else
      assert s == [s[0]] + s[1..];
      Insert(s[0], Sort(s[1..], le), le)
  }

  lemma SameMultiset<T>(a: seq<T>, b: seq<T>)
    requires multiset(a) == multiset(b)
    ensures |a| == |b| && forall x :: x in a <==> x in b
  {
    assert |multiset(a)| == |a| && |multiset(b)| == |b|;
    forall x
      ensures x in a <==> x in b
    {
      assert x in a <==> x in multiset(a);
      assert x in b <==> x in multiset(b);
    }
  }

  /** Sorting neither loses nor invents elements. */
  lemma SortElements<T>(s: seq<T>, le: (T, T) -> bool)
    ensures |Sort(s, le)| == |s|
    ensures forall x :: x in Sort(s, le) <==> x in s
    ensures forall i :: 0 <= i < |s| ==> Sort(s, le)[i] in s
  {
    var r := Sort(s, le);
    SameMultiset(s, r);
    forall i | 0 <= i < |s|
      ensures r[i] in s
    {
      assert r[i] in multiset(r) && r[i] in multiset(s);
    }
  }

  lemma {:induction false} InsertSorted<T(!new)>(x: T, s: seq<T>, le: (T, T) -> bool)
    requires TotalPreorder(le) && IsSorted(s, le)
    ensures IsSorted(Insert(x, s, le), le)
  {
    if s != [] && !le(x, s[0]) {
      InsertSorted(x, s[1..], le);
      var rest := Insert(x, s[1..], le);
      SameMultiset(rest, [x] + s[1..]);
      forall i | 0 <= i < |rest|
        ensures le(s[0], rest[i])
      {
        assert rest[i] in [x] + s[1..];
      }
    }
  }

  lemma {:induction false} SortSorted<T(!new)>(s: seq<T>, le: (T, T) -> bool)
    requires TotalPreorder(le)
    ensures IsSorted(Sort(s, le), le)
  {
    if s != [] {
      SortSorted(s[1..], le);
      InsertSorted(s[0], Sort(s[1..], le), le);
    }
  }

  /** Sorted by `le`, and by `before` where `le` does not tell two elements apart. */
  ghost predicate StablySorted<T>(s: seq<T>, le: (T, T) -> bool, before: (T, T) -> bool) {
    forall i, j :: 0 <= i < j < |s| ==> le(s[i], s[j]) && (le(s[j], s[i]) ==> before(s[i], s[j]))
  }

  lemma ConsStable<T>(x: T, s: seq<T>, le: (T, T) -> bool, before: (T, T) -> bool)
    requires StablySorted(s, le, before)
    requires forall y :: y in s ==> le(x, y) && (le(y, x) ==> before(x, y))
    ensures StablySorted([x] + s, le, before)
  {
  }

  lemma {:induction false} InsertStable<T(!new)>(x: T, s: seq<T>, le: (T, T) -> bool, before: (T, T) -> bool)
    requires TotalPreorder(le) && StablySorted(s, le, before) && forall y :: y in s ==> before(x, y)
    ensures StablySorted(Insert(x, s, le), le, before)
  {
    if s == [] {
    } else if le(x, s[0]) {
      ConsStable(x, s, le, before);
    } else {
      InsertStable(x, s[1..], le, before);
      var rest := Insert(x, s[1..], le);
      SameMultiset(rest, [x] + s[1..]);
      ConsStable(s[0], rest, le, before);
    }
  }

  /** Sorting is stable: elements that compare equal keep the order they came in. */
  lemma {:induction false} SortStable<T(!new)>(s: seq<T>, le: (T, T) -> bool, before: (T, T) -> bool)
    requires TotalPreorder(le) && IsSorted(s, before)
    ensures StablySorted(Sort(s, le), le, before)
  {
    if s != [] {
      SortStable(s[1..], le, before);
      SortElements(s[1..], le);
      InsertStable(s[0], Sort(s[1..], le), le, before);
    }
  }

  ghost predicate Distinct<T>(s: seq<T>) {
    forall i, j :: 0 <= i < j < |s| ==> s[i] != s[j]
  }

  /** Distinct elements have only one ascending listing. */
  lemma {:induction false} AscendingUnique<T(!new)>(a: seq<T>, b: seq<T>, le: (T, T) -> bool)
    requires IsSorted(a, le) && IsSorted(b, le) && Distinct(a) && Distinct(b)
    requires forall x, y :: le(x, y) && le(y, x) ==> x == y
    requires forall x :: x in a <==> x in b
    ensures a == b
  {
    assert (a != [] ==> a[0] in a) && (b != [] ==> b[0] in b);
    if a != [] && b != [] {
      assert a[0] == b[0];
      forall x
        ensures x in a[1..] <==> x in b[1..]
      {
        assert x in a <==> x == a[0] || x in a[1..];
        assert x in b <==> x == b[0] || x in b[1..];
      }
      AscendingUnique(a[1..], b[1..], le);
      assert a == [a[0]] + a[1..] && b == [b[0]] + b[1..];
    }
  }

  lemma {:induction false} DistinctIsUnique<T>(s: seq<T>)
    ensures Distinct(s) <==> forall x :: x in s ==> multiset(s)[x] == 1
  {
    if s != [] {
      var last, init := s[|s| - 1], s[..|s| - 1];
      assert s == init + [last];
      DistinctIsUnique(init);
      if Distinct(s) {
        assert last !in init;
        forall x | x in s
          ensures multiset(s)[x] == 1
        {
          assert x == last || x in init;
          assert multiset(init)[last] == 0;
        }
      }
      if forall x :: x in s ==> multiset(s)[x] == 1 {
        assert multiset(s)[last] == multiset(init)[last] + 1;
        assert last !in init;
        forall x | x in init
          ensures multiset(init)[x] == 1
        {
          assert x in s;
        }
      }
    }
  }

  lemma SortDistinct<T>(s: seq<T>, le: (T, T) -> bool)
    requires Distinct(s)
    ensures Distinct(Sort(s, le))
  {
    DistinctIsUnique(s);
    DistinctIsUnique(Sort(s, le));
    SameMultiset(s, Sort(s, le));
  }

  ghost function Elements<T>(s: seq<T>): set<T> {
    set x | x in s
  }

  lemma {:induction false} DistinctCount<T>(s: seq<T>)
    requires Distinct(s)
    ensures |Elements(s)| == |s|
  {
    if s != [] {
      var last, init := s[|s| - 1], s[..|s| - 1];
      DistinctCount(init);
      assert s == init + [last] && last !in init;
      assert Elements(s) == Elements(init) + {last};
    }
  }

  /** Two lists of distinct elements and equal length: one cannot be properly inside the other. */
  lemma DistinctSubset<T>(a: seq<T>, b: seq<T>)
    requires Distinct(a) && Distinct(b) && |a| == |b|
    requires forall x :: x in a ==> x in b
    ensures forall x :: x in b ==> x in a
  {
    DistinctCount(a);
    DistinctCount(b);
    assert Elements(a) <= Elements(b);
    if x :| x in b && x !in a {
      assert x in Elements(b) && Elements(a) <= Elements(b) - {x};
      SubsetCount(Elements(a), Elements(b) - {x});
    }
  }

  lemma {:induction false} SubsetCount<T>(a: set<T>, b: set<T>)
    requires a <= b
    ensures |a| <= |b|
  {
    if a != {} {
      var x :| x in a;
      SubsetCount(a - {x}, b - {x});
    }
  }

  // ----- Strings -----------------------------------------------------------------------------

  /** Lexicographic order by code point. */
  predicate StringLe(a: string, b: string) {
    a == [] || (b != [] && (a[0] < b[0] || (a[0] == b[0] && StringLe(a[1..], b[1..]))))
  }

  /** At `k` the texts differ for the first time, and `a` has the smaller character. */
  predicate FirstSmaller(a: string, b: string, k: int) {
    0 <= k < |a| && k < |b| && a[..k] == b[..k] && a[k] < b[k]
  }

  /** A text comes no later than another exactly when it is a prefix of it or has the smaller character where
      they first differ. */
  lemma {:induction false} StringLeIff(a: string, b: string)
    ensures StringLe(a, b) <==> a <= b || exists k :: FirstSmaller(a, b, k)
  {
    if a != [] && b != [] {
      StringLeIff(a[1..], b[1..]);
      if a[0] < b[0] {
        assert FirstSmaller(a, b, 0);
      } else if a[0] == b[0] {
        if k :| FirstSmaller(a[1..], b[1..], k) {
          assert a[..k + 1] == [a[0]] + a[1..][..k] && b[..k + 1] == [b[0]] + b[1..][..k];
          assert FirstSmaller(a, b, k + 1);
        }
        if k :| FirstSmaller(a, b, k) {
          assert a[1..][..k - 1] == a[..k][1..] && b[1..][..k - 1] == b[..k][1..];
          assert FirstSmaller(a[1..], b[1..], k - 1);
        }
        if a[1..] <= b[1..] {
          assert a == [a[0]] + a[1..] && b == [b[0]] + b[1..];
        }
      }
    }
  }

  lemma {:induction false} StringLeTotal(a: string, b: string)
    ensures StringLe(a, b) || StringLe(b, a)
    ensures StringLe(a, b) && StringLe(b, a) ==> a == b
  {
    if a != [] && b != [] && a[0] == b[0] {
      StringLeTotal(a[1..], b[1..]);
      assert a == [a[0]] + a[1..] && b == [b[0]] + b[1..];
    }
  }

  lemma {:induction false} StringLeTransitive(a: string, b: string, c: string)
    requires StringLe(a, b) && StringLe(b, c)
    ensures StringLe(a, c)
  {
    if a != [] && a[0] == b[0] == c[0] {
      StringLeTransitive(a[1..], b[1..], c[1..]);
    }
  }

  lemma StringLePreorder()
    ensures TotalPreorder(StringLe)
  {
    forall a: string, b: string
      ensures StringLe(a, b) || StringLe(b, a)
    {
      StringLeTotal(a, b);
    }
    forall a: string, b: string, c: string | StringLe(a, b) && StringLe(b, c)
      ensures StringLe(a, c)
    {
      StringLeTransitive(a, b, c);
    }
  }

  /** `sorted` applied to a set, or to the keys of a dictionary. */
  method SortedSet<T(==, !new)>(keys: set<T>, le: (T, T) -> bool) returns (names: seq<T>)
    requires TotalPreorder(le)
    ensures forall n :: n in names <==> n in keys
    ensures Distinct(names) && IsSorted(names, le)
  {
    var listed, rest := [], keys;
    while rest != {}
      invariant forall n :: n in listed <==> n in keys && n !in rest
      invariant rest <= keys && Distinct(listed)
    {
      var n :| n in rest;
      listed, rest := listed + [n], rest - {n};
    }
    names := Sort(listed, le);
    SortSorted(listed, le);
    SortDistinct(listed, le);
    SameMultiset(listed, names);
  }
}
