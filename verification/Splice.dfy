/**
 The edit loops of tools/scripts/architecture_status_svg.py: replacements are applied one at a time
 from the back of the text to the front, so that the offsets of the remaining ones stay valid.
 */
module Splice {
  import opened Common
  import opened Ordering

  /** Replace the characters from `start` to `end` by `text`. */
  datatype Edit = Edit(start: nat, end: nat, text: string)

  predicate InRange(e: Edit, len: nat) {
    e.start < e.end <= len
  }

  predicate Disjoint(a: Edit, b: Edit) {
    a.end <= b.start || b.end <= a.start
  }

  /** Non-empty spans inside the text, no two of which overlap. */
  ghost predicate ValidEdits(edits: seq<Edit>, len: nat) {
    && (forall i :: 0 <= i < |edits| ==> InRange(edits[i], len))
    && (forall i, j :: 0 <= i < j < |edits| ==> Disjoint(edits[i], edits[j]))
  }

  // ----- Reference: all replacements at once ------------------------------------------------------------

  /** The position of the edit that starts at `p`, or the number of edits. */
  function StartingAt(edits: seq<Edit>, p: nat): (i: nat)
    ensures i <= |edits| && (i < |edits| ==> edits[i].start == p)
    ensures i == |edits| ==> forall k :: 0 <= k < |edits| ==> edits[k].start != p
  {
    if edits == [] then 0
    else if edits[0].start == p then 0
    else 1 + StartingAt(edits[1..], p)
  }

  /** Reads the original text from `p` on; at the start of a span its replacement is written and the
      span skipped, every other character is copied. */
  function Weave(text: string, edits: seq<Edit>, p: nat): string
    requires p <= |text| && forall i :: 0 <= i < |edits| ==> InRange(edits[i], |text|)
    decreases |text| - p
  {
    if p == |text| then []
    else
      var i := StartingAt(edits, p);
      if i < |edits| then
        assert InRange(edits[i], |text|);
        edits[i].text + Weave(text, edits, edits[i].end)
      else [text[p]] + Weave(text, edits, p + 1)
  }

  /** A stretch in which no span starts is copied. */
  lemma {:induction false} WeaveCopies(text: string, edits: seq<Edit>, p: nat, q: nat)
    requires p <= q <= |text| && forall i :: 0 <= i < |edits| ==> InRange(edits[i], |text|)
    requires forall i :: 0 <= i < |edits| ==> !(p <= edits[i].start < q)
    ensures Weave(text, edits, p) == text[p..q] + Weave(text, edits, q)
    decreases q - p
  {
    if p == q {
      assert text[p..q] == [];
    } else {
      WeaveCopies(text, edits, p + 1, q);
      assert text[p..q] == [text[p]] + text[p + 1..q];
      AppendAssoc([text[p]], text[p + 1..q], Weave(text, edits, q));
    }
  }

  /** At a span the replacement is written and the reading goes on behind it. */
  lemma WeaveReplaces(text: string, edits: seq<Edit>, i: nat)
    requires ValidEdits(edits, |text|) && i < |edits|
    ensures Weave(text, edits, edits[i].start) == edits[i].text + Weave(text, edits, edits[i].end)
  {
    var k := StartingAt(edits, edits[i].start);
    assert k == i;
  }

  lemma SameStart(edits: seq<Edit>, e: Edit, p: nat, len: nat)
    requires ValidEdits(edits, len) && e in edits && e.start == p
    ensures StartingAt(edits, p) < |edits| && edits[StartingAt(edits, p)] == e
  {
    var k :| 0 <= k < |edits| && edits[k] == e;
    var j := StartingAt(edits, p);
    assert InRange(edits[k], len) && (j < |edits| ==> InRange(edits[j], len));
    assert k < j < |edits| ==> Disjoint(edits[k], edits[j]);
    assert j < k ==> Disjoint(edits[j], edits[k]);
  }

  ghost predicate SameEdits(a: seq<Edit>, b: seq<Edit>) {
    forall e :: e in a <==> e in b
  }

  lemma SameEditStarts(a: seq<Edit>, b: seq<Edit>, p: nat, len: nat)
    requires ValidEdits(a, len) && ValidEdits(b, len) && SameEdits(a, b)
    ensures var i, j := StartingAt(a, p), StartingAt(b, p);
            (i < |a| <==> j < |b|) && (i < |a| ==> a[i] == b[j])
  {
    var i, j := StartingAt(a, p), StartingAt(b, p);
    if i < |a| {
      assert a[i] in b;
      SameStart(b, a[i], p, len);
    } else if j < |b| {
      assert b[j] in a;
      SameStart(a, b[j], p, len);
      assert false;
    }
  }

  /** The result depends on which edits there are, not on their order. */
  lemma {:induction false} WeaveOrderIrrelevant(text: string, a: seq<Edit>, b: seq<Edit>, p: nat)
    requires p <= |text| && ValidEdits(a, |text|) && ValidEdits(b, |text|) && SameEdits(a, b)
    ensures Weave(text, a, p) == Weave(text, b, p)
    decreases |text| - p
  {
    if p < |text| {
      SameEditStarts(a, b, p, |text|);
      var i := StartingAt(a, p);
      if i < |a| {
        assert InRange(a[i], |text|);
        WeaveOrderIrrelevant(text, a, b, a[i].end);
      } else {
        WeaveOrderIrrelevant(text, a, b, p + 1);
      }
    }
  }

  // ----- The loop -----------------------------------------------------------------------------------------

  /** Each edit lies wholly before the ones listed ahead of it. */
  ghost predicate BackToFront(sorted: seq<Edit>) {
    forall i, j :: 0 <= i < j < |sorted| ==> sorted[j].end <= sorted[i].start
  }

  /** Later starts first. */
  predicate ByStartDescending(a: Edit, b: Edit) {
    a.start >= b.start
  }

  /** Two different edits of a valid list do not overlap, so the one that starts later lies behind. */
  lemma LaterIsBehind(edits: seq<Edit>, len: nat, a: Edit, b: Edit)
    requires ValidEdits(edits, len) && a in edits && b in edits && a != b && a.start >= b.start
    ensures Disjoint(a, b) && b.end <= a.start
  {
    var k :| 0 <= k < |edits| && edits[k] == a;
    var l :| 0 <= l < |edits| && edits[l] == b;
    assert InRange(edits[k], len) && InRange(edits[l], len);
    assert k < l ==> Disjoint(edits[k], edits[l]);
    assert l < k ==> Disjoint(edits[l], edits[k]);
  }

  lemma DescendingPreorder()
    ensures TotalPreorder(ByStartDescending)
  {
  }

  /** Distinct edits in descending order of start lie one behind the other. */
  lemma DescendingIsBackToFront(edits: seq<Edit>, len: nat, s: seq<Edit>)
    requires ValidEdits(edits, len) && SameEdits(s, edits) && Distinct(s) && IsSorted(s, ByStartDescending)
    ensures ValidEdits(s, len) && BackToFront(s)
  {
    forall i | 0 <= i < |s|
      ensures InRange(s[i], len)
    {
      assert s[i] in edits;
      var k :| 0 <= k < |edits| && edits[k] == s[i];
    }
    forall i, j | 0 <= i < j < |s|
      ensures Disjoint(s[i], s[j]) && s[j].end <= s[i].start
    {
      assert ByStartDescending(s[i], s[j]) && s[i] in edits && s[j] in edits;
      LaterIsBehind(edits, len, s[i], s[j]);
    }
  }

  lemma SortedEdits(edits: seq<Edit>, len: nat)
    requires ValidEdits(edits, len)
    ensures var s := Sort(edits, ByStartDescending);
            ValidEdits(s, len) && SameEdits(s, edits) && BackToFront(s)
  {
    SortElements(edits, ByStartDescending);
    DescendingPreorder();
    SortSorted(edits, ByStartDescending);
    EditsDistinct(edits, len);
    SortDistinct(edits, ByStartDescending);
    DescendingIsBackToFront(edits, len, Sort(edits, ByStartDescending));
  }

  lemma EditsDistinct(edits: seq<Edit>, len: nat)
    requires ValidEdits(edits, len)
    ensures Distinct(edits)
  {
    forall i, j | 0 <= i < j < |edits|
      ensures edits[i] != edits[j]
    {
      assert Disjoint(edits[i], edits[j]);
    }
  }

  /** How far the loop has come after `n` edits: everything before this position is original text. */
  function Front(sorted: seq<Edit>, n: nat, len: nat): nat
    requires n <= |sorted|
  {
    if n == 0 then len else sorted[n - 1].start
  }

  /** The text after `n` edits: original up to the last edit's start, woven from there on. */
  ghost predicate HalfDone(text: string, sorted: seq<Edit>, n: nat, result: string)
    requires n <= |sorted| && forall i :: 0 <= i < |sorted| ==> InRange(sorted[i], |text|)
  {
    var f := Front(sorted, n, |text|);
    assert n > 0 ==> InRange(sorted[n - 1], |text|);
    result == text[..f] + Weave(text, sorted, f)
  }

  lemma NothingDone(text: string, sorted: seq<Edit>)
    requires ValidEdits(sorted, |text|)
    ensures HalfDone(text, sorted, 0, text)
  {
  }

  /** Between an edit and the front of the finished part no other edit starts. */
  lemma NothingBetween(sorted: seq<Edit>, n: nat, len: nat)
    requires ValidEdits(sorted, len) && BackToFront(sorted) && n < |sorted|
    ensures sorted[n].end <= Front(sorted, n, len) <= len
    ensures forall i :: 0 <= i < |sorted| ==> !(sorted[n].end <= sorted[i].start < Front(sorted, n, len))
  {
    assert InRange(sorted[n], len) && (n > 0 ==> InRange(sorted[n - 1], len));
    forall i | 0 <= i < |sorted|
      ensures !(sorted[n].end <= sorted[i].start < Front(sorted, n, len))
    {
      assert InRange(sorted[i], len);
      if i < n - 1 {
        assert sorted[n - 1].end <= sorted[i].start;
      }
    }
  }

  /** Replacing a span of the front part of a text leaves the rest alone. */
  lemma SpliceFront(text: string, f: nat, rest: string, e: Edit)
    requires e.start < e.end <= f <= |text|
    ensures var result := text[..f] + rest;
            result[..e.start] + e.text + result[e.end..] == text[..e.start] + (e.text + (text[e.end..f] + rest))
  {
    var result := text[..f] + rest;
    assert result[..e.start] == text[..e.start];
    assert result[e.end..] == text[e.end..f] + rest;
    AppendAssoc(text[..e.start], e.text, text[e.end..f] + rest);
  }

  /** One splice keeps `HalfDone`: the edit lies wholly in the part that is still original. */
  lemma SpliceStep(text: string, sorted: seq<Edit>, n: nat, result: string)
    requires ValidEdits(sorted, |text|) && BackToFront(sorted)
    requires n < |sorted| && HalfDone(text, sorted, n, result)
    ensures sorted[n].start < sorted[n].end <= |result|
    ensures HalfDone(text, sorted, n + 1, result[..sorted[n].start] + sorted[n].text + result[sorted[n].end..])
  {
    var e, f := sorted[n], Front(sorted, n, |text|);
    assert InRange(e, |text|);
    NothingBetween(sorted, n, |text|);
    WeaveReplaces(text, sorted, n);
    WeaveCopies(text, sorted, e.end, f);
    SpliceFront(text, f, Weave(text, sorted, f), e);
  }

  /** Applies the edits back to front; the result is the simultaneous replacement. */
  method ApplyEdits(text: string, edits: seq<Edit>) returns (result: string)
    requires ValidEdits(edits, |text|)
    ensures result == Weave(text, edits, 0)
  {
    var sorted := Sort(edits, ByStartDescending);
    SortedEdits(edits, |text|);
    result := text;
    NothingDone(text, sorted);
    for n := 0 to |sorted|
      invariant HalfDone(text, sorted, n, result)
    {
      var e := sorted[n];
      SpliceStep(text, sorted, n, result);
      result := result[..e.start] + e.text + result[e.end..];
    }
    AllDone(text, sorted, result);
    WeaveOrderIrrelevant(text, sorted, edits, 0);
  }

  /** After the last edit the original front part is what weaving copies. */
  lemma AllDone(text: string, sorted: seq<Edit>, result: string)
    requires ValidEdits(sorted, |text|) && BackToFront(sorted) && HalfDone(text, sorted, |sorted|, result)
    ensures result == Weave(text, sorted, 0)
  {
    var f := Front(sorted, |sorted|, |text|);
    forall i | 0 <= i < |sorted|
      ensures !(0 <= sorted[i].start < f)
    {
      assert InRange(sorted[|sorted| - 1], |text|);
      if i < |sorted| - 1 {
        assert sorted[|sorted| - 1].end <= sorted[i].start;
      }
    }
    WeaveCopies(text, sorted, 0, f);
    assert text[0..f] == text[..f];
  }
}
