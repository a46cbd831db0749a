/**
 Canonical JSON: `sort_dict_recursive` of tools/scripts/sort_openapi_json.py, which rebuilds every
 object with its keys in ascending order.
 */
module JsonSort {
  import opened Ordering

  /** A JSON value as Python holds it: objects are lists of fields in insertion order. */
  datatype Json =
    | Atom(text: string)
    | Arr(items: seq<Json>)
    | Obj(fields: seq<(string, Json)>)

  ghost function Keys(fields: seq<(string, Json)>): seq<string> {
    seq(|fields|, i requires 0 <= i < |fields| => fields[i].0)
  }

  /** No object repeats a key. */
  ghost predicate WellFormed(j: Json) {
    match j
    case Atom(_) => true
    case Arr(items) => forall i :: 0 <= i < |items| ==> WellFormed(items[i])
    case Obj(fields) =>
      && Distinct(Keys(fields))
      && forall i :: 0 <= i < |fields| ==> WellFormed(fields[i].1)
  }

  predicate ByKey(a: (string, Json), b: (string, Json)) {
    StringLe(a.0, b.0)
  }

  function SortJson(j: Json): Json
    decreases j
  {
    match j
    case Atom(_) => j
    case Arr(items) => Arr(seq(|items|, i requires 0 <= i < |items| => SortJson(items[i])))
    case Obj(fields) =>
      var sorted := Sort(fields, ByKey);
      SortElements(fields, ByKey);
      Obj(seq(|sorted|, i requires 0 <= i < |sorted| => (sorted[i].0, SortJson(sorted[i].1))))
  }

  /** Equality up to the order of object fields. */
  ghost predicate Same(a: Json, b: Json)
    decreases a
  {
    match (a, b)
    case (Atom(s), Atom(t)) => s == t
    case (Arr(x), Arr(y)) => |x| == |y| && forall i :: 0 <= i < |x| ==> Same(x[i], y[i])
    case (Obj(f), Obj(g)) =>
      |f| == |g| && forall x :: x in f ==> exists y :: y in g && x.0 == y.0 && Same(x.1, y.1)
    case _ => false
  }

  lemma ByKeyPreorder()
    ensures TotalPreorder(ByKey)
  {
    forall a: (string, Json), b: (string, Json)
      ensures ByKey(a, b) || ByKey(b, a)
    {
      StringLeTotal(a.0, b.0);
    }
    forall a: (string, Json), b: (string, Json), c: (string, Json) | ByKey(a, b) && ByKey(b, c)
      ensures ByKey(a, c)
    {
      StringLeTransitive(a.0, b.0, c.0);
    }
  }

  lemma KeysSorted(fields: seq<(string, Json)>)
    ensures IsSorted(Keys(Sort(fields, ByKey)), StringLe)
  {
    ByKeyPreorder();
    SortSorted(fields, ByKey);
    var sorted := Sort(fields, ByKey);
    forall i, j | 0 <= i < j < |sorted|
      ensures StringLe(Keys(sorted)[i], Keys(sorted)[j])
    {
      assert ByKey(sorted[i], sorted[j]);
    }
  }

  lemma DistinctFields(fields: seq<(string, Json)>)
    requires Distinct(Keys(fields))
    ensures Distinct(fields)
  {
    forall i, j | 0 <= i < j < |fields|
      ensures fields[i] != fields[j]
    {
      assert Keys(fields)[i] != Keys(fields)[j];
    }
  }

  /** The sorted fields are the original ones, and their keys are still distinct. */
  lemma SortedFields(fields: seq<(string, Json)>)
    requires Distinct(Keys(fields))
    ensures var sorted := Sort(fields, ByKey);
            && |sorted| == |fields|
            && (forall x :: x in sorted <==> x in fields)
            && Distinct(Keys(sorted))
  {
    var sorted := Sort(fields, ByKey);
    SortElements(fields, ByKey);
    DistinctFields(fields);
    SortDistinct(fields, ByKey);
    forall i, j | 0 <= i < j < |sorted|
      ensures Keys(sorted)[i] != Keys(sorted)[j]
    {
      if sorted[i].0 == sorted[j].0 {
        SameKeySameField(fields, sorted[i], sorted[j]);
      }
    }
  }

  lemma SameKeySameField(fields: seq<(string, Json)>, a: (string, Json), b: (string, Json))
    requires Distinct(Keys(fields)) && a in fields && b in fields && a.0 == b.0
    ensures a == b
  {
    var i :| 0 <= i < |fields| && fields[i] == a;
    var j :| 0 <= j < |fields| && fields[j] == b;
    assert Keys(fields)[i] == Keys(fields)[j];
  }

  /** On the values of two objects, sorting decides sameness. */
  ghost predicate Decided(f: seq<(string, Json)>, g: seq<(string, Json)>) {
    forall x, y :: x in f && y in g ==> (Same(x.1, y.1) <==> SortJson(x.1) == SortJson(y.1))
  }

  lemma InKeys(fields: seq<(string, Json)>, key: string)
    ensures key in Keys(fields) <==> exists x :: x in fields && x.0 == key
  {
    if key in Keys(fields) {
      var i :| 0 <= i < |fields| && Keys(fields)[i] == key;
      assert fields[i] in fields;
    }
    if x :| x in fields && x.0 == key {
      var i :| 0 <= i < |fields| && fields[i] == x;
      assert Keys(fields)[i] == key;
    }
  }

  lemma SortKeepsKeys(fields: seq<(string, Json)>, key: string)
    ensures key in Keys(Sort(fields, ByKey)) <==> key in Keys(fields)
  {
    SortElements(fields, ByKey);
    InKeys(fields, key);
    InKeys(Sort(fields, ByKey), key);
  }

  /** Objects with the same keys list them in the same order once sorted. */
  lemma SameKeysSameOrder(f: seq<(string, Json)>, g: seq<(string, Json)>)
    requires Distinct(Keys(f)) && Distinct(Keys(g))
    requires forall key :: key in Keys(f) <==> key in Keys(g)
    ensures Keys(Sort(f, ByKey)) == Keys(Sort(g, ByKey))
  {
    forall key
      ensures key in Keys(Sort(f, ByKey)) <==> key in Keys(Sort(g, ByKey))
    {
      SortKeepsKeys(f, key);
      SortKeepsKeys(g, key);
    }
    SortedFields(f);
    SortedFields(g);
    KeysSorted(f);
    KeysSorted(g);
    forall a, b | StringLe(a, b) && StringLe(b, a)
      ensures a == b
    {
      StringLeTotal(a, b);
    }
    AscendingUnique(Keys(Sort(f, ByKey)), Keys(Sort(g, ByKey)), StringLe);
  }

  lemma SameObjectsSameKeys(f: seq<(string, Json)>, g: seq<(string, Json)>)
    requires Distinct(Keys(f)) && Distinct(Keys(g)) && Same(Obj(f), Obj(g))
    ensures forall key :: key in Keys(f) <==> key in Keys(g)
  {
    forall key | key in Keys(f)
      ensures key in Keys(g)
    {
      InKeys(f, key);
      InKeys(g, key);
      var x :| x in f && x.0 == key;
      var y :| y in g && x.0 == y.0 && Same(x.1, y.1);
    }
    DistinctSubset(Keys(f), Keys(g));
  }

  /** The fields of a sorted object, one by one. */
  lemma SortedFieldAt(f: seq<(string, Json)>, p: nat)
    requires p < |f|
    ensures |SortJson(Obj(f)).fields| == |Sort(f, ByKey)| == |f|
    ensures SortJson(Obj(f)).fields[p] == (Sort(f, ByKey)[p].0, SortJson(Sort(f, ByKey)[p].1))
    ensures Sort(f, ByKey)[p] in f
  {
    SortElements(f, ByKey);
  }

  lemma SortedFieldCount(f: seq<(string, Json)>)
    ensures |SortJson(Obj(f)).fields| == |Sort(f, ByKey)| == |f|
  {
    SortElements(f, ByKey);
  }

  lemma SameAtPosition(f: seq<(string, Json)>, g: seq<(string, Json)>, x: (string, Json), y: (string, Json))
    requires Distinct(Keys(g)) && Decided(f, g) && Same(Obj(f), Obj(g))
    requires x in f && y in g && x.0 == y.0
    ensures SortJson(x.1) == SortJson(y.1)
  {
    var z :| z in g && x.0 == z.0 && Same(x.1, z.1);
    SameKeySameField(g, z, y);
  }

  lemma SortedFieldsAgree(f: seq<(string, Json)>, g: seq<(string, Json)>, p: nat)
    requires Distinct(Keys(g)) && Decided(f, g) && Same(Obj(f), Obj(g)) && p < |f| == |g|
    requires Keys(Sort(f, ByKey)) == Keys(Sort(g, ByKey))
    ensures |SortJson(Obj(f)).fields| == |SortJson(Obj(g)).fields| == |f|
    ensures SortJson(Obj(f)).fields[p] == SortJson(Obj(g)).fields[p]
  {
    SortedFieldAt(f, p);
    SortedFieldAt(g, p);
    var x, y := Sort(f, ByKey)[p], Sort(g, ByKey)[p];
    assert Keys(Sort(f, ByKey))[p] == x.0 && Keys(Sort(g, ByKey))[p] == y.0;
    SameAtPosition(f, g, x, y);
  }

  lemma SameObjectsSortEqual(f: seq<(string, Json)>, g: seq<(string, Json)>)
    requires Distinct(Keys(f)) && Distinct(Keys(g)) && Decided(f, g) && Same(Obj(f), Obj(g))
    ensures SortJson(Obj(f)) == SortJson(Obj(g))
  {
    SameObjectsSameKeys(f, g);
    SameKeysSameOrder(f, g);
    SortedFieldCount(f);
    SortedFieldCount(g);
    var x, y := SortJson(Obj(f)).fields, SortJson(Obj(g)).fields;
    forall p | 0 <= p < |f|
      ensures x[p] == y[p]
    {
      SortedFieldsAgree(f, g, p);
    }
    assert x == y;
  }

  /** In equal sorted objects each field has its counterpart at the same position. */
  lemma CounterpartOf(f: seq<(string, Json)>, g: seq<(string, Json)>, x: (string, Json)) returns (y: (string, Json))
    requires SortJson(Obj(f)) == SortJson(Obj(g)) && x in f
    ensures y in g && x.0 == y.0 && SortJson(x.1) == SortJson(y.1)
  {
    SortElements(f, ByKey);
    SortedFieldCount(f);
    SortedFieldCount(g);
    var p :| 0 <= p < |f| && Sort(f, ByKey)[p] == x;
    SortedFieldAt(f, p);
    SortedFieldAt(g, p);
    y := Sort(g, ByKey)[p];
  }

  lemma EqualSortsSameObjects(f: seq<(string, Json)>, g: seq<(string, Json)>)
    requires Decided(f, g) && SortJson(Obj(f)) == SortJson(Obj(g))
    ensures Same(Obj(f), Obj(g))
  {
    forall x | x in f
      ensures exists y :: y in g && x.0 == y.0 && Same(x.1, y.1)
    {
      var y := CounterpartOf(f, g, x);
    }
    SortedFieldCount(f);
    SortedFieldCount(g);
  }

  /** Two values are equal up to field order exactly when their sorted forms are identical. */
  lemma {:induction false} SortIsCanonical(a: Json, b: Json)
    requires WellFormed(a) && WellFormed(b)
    ensures Same(a, b) <==> SortJson(a) == SortJson(b)
    decreases a
  {
    match (a, b)
    case (Arr(x), Arr(y)) =>
      assert |SortJson(a).items| == |x| && |SortJson(b).items| == |y|;
      assert forall i :: 0 <= i < |x| ==> SortJson(a).items[i] == SortJson(x[i]);
      assert forall i :: 0 <= i < |y| ==> SortJson(b).items[i] == SortJson(y[i]);
      forall i | 0 <= i < |x| && i < |y|
        ensures Same(x[i], y[i]) <==> SortJson(x[i]) == SortJson(y[i])
      {
        SortIsCanonical(x[i], y[i]);
      }
    case (Obj(f), Obj(g)) =>
      forall x, y | x in f && y in g
        ensures Same(x.1, y.1) <==> SortJson(x.1) == SortJson(y.1)
      {
        SortIsCanonical(x.1, y.1);
      }
      if Same(a, b) {
        SameObjectsSortEqual(f, g);
      }
      if SortJson(a) == SortJson(b) {
        EqualSortsSameObjects(f, g);
      }
    case _ =>
  }

  /** Sorting keeps the value: it is equal to the original up to field order, and well formed. */
  lemma {:induction false} SortKeepsValue(a: Json)
    requires WellFormed(a)
    ensures WellFormed(SortJson(a)) && Same(a, SortJson(a))
    decreases a
  {
    match a
    case Atom(_) =>
    case Arr(items) =>
      forall i | 0 <= i < |items|
        ensures WellFormed(SortJson(items[i])) && Same(items[i], SortJson(items[i]))
      {
        SortKeepsValue(items[i]);
      }
    case Obj(fields) =>
      forall x | x in fields
        ensures WellFormed(SortJson(x.1)) && Same(x.1, SortJson(x.1))
      {
        SortKeepsValue(x.1);
      }
      SortKeepsObject(fields);
  }

  lemma SortKeepsObject(fields: seq<(string, Json)>)
    requires WellFormed(Obj(fields))
    requires forall x :: x in fields ==> WellFormed(SortJson(x.1)) && Same(x.1, SortJson(x.1))
    ensures WellFormed(SortJson(Obj(fields))) && Same(Obj(fields), SortJson(Obj(fields)))
  {
    var sorted, out := Sort(fields, ByKey), SortJson(Obj(fields)).fields;
    SortedFields(fields);
    SortedFieldCount(fields);
    forall p | 0 <= p < |out|
      ensures WellFormed(out[p].1) && Keys(out)[p] == Keys(sorted)[p]
    {
      SortedFieldAt(fields, p);
    }
    assert Keys(out) == Keys(sorted);
    forall x | x in fields
      ensures exists y :: y in out && x.0 == y.0 && Same(x.1, y.1)
    {
      var p :| 0 <= p < |fields| && sorted[p] == x;
      SortedFieldAt(fields, p);
      assert out[p] in out;
    }
  }

  /** Every object lists its keys in ascending order. */
  ghost predicate Ascending(j: Json) {
    match j
    case Atom(_) => true
    case Arr(items) => forall i :: 0 <= i < |items| ==> Ascending(items[i])
    case Obj(fields) =>
      && IsSorted(Keys(fields), StringLe)
      && forall i :: 0 <= i < |fields| ==> Ascending(fields[i].1)
  }

  /** At every level of the sorted value the keys are ascending. */
  lemma {:induction false} SortAscends(a: Json)
    ensures Ascending(SortJson(a))
    decreases a
  {
    match a
    case Atom(_) =>
    case Arr(items) =>
      forall i | 0 <= i < |items|
        ensures Ascending(SortJson(items[i]))
      {
        SortAscends(items[i]);
      }
    case Obj(fields) =>
      var sorted, out := Sort(fields, ByKey), SortJson(a).fields;
      SortedFieldCount(fields);
      KeysSorted(fields);
      forall p | 0 <= p < |out|
        ensures Ascending(out[p].1) && Keys(out)[p] == Keys(sorted)[p]
      {
        SortedFieldAt(fields, p);
        SortAscends(sorted[p].1);
      }
      assert Keys(out) == Keys(sorted);
  }

  /** Sorting twice is sorting once. */
  lemma SortIdempotent(a: Json)
    requires WellFormed(a)
    ensures SortJson(SortJson(a)) == SortJson(a)
  {
    SortKeepsValue(a);
    SortIsCanonical(a, SortJson(a));
  }
}
