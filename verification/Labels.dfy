/**
 The key of a series: its name with its labels sorted by label key. The sort is
 stable and compares keys only, so this says exactly which label lists share a key.
 */
module Labels {
  import opened Schemas

  type Label = (string, string)

  /** Lexicographic order of strings. */
  predicate LessEq(a: string, b: string) {
    if a == [] then true
    else if b == [] then false
    else if a[0] != b[0] then a[0] < b[0]
    else LessEq(a[1..], b[1..])
  }

  lemma {:induction false} LessEqTotal(a: string, b: string)
    ensures LessEq(a, b) || LessEq(b, a)
    ensures LessEq(a, b) && LessEq(b, a) ==> a == b
  {
    if a != [] && b != [] && a[0] == b[0] {
      LessEqTotal(a[1..], b[1..]);
      assert a == [a[0]] + a[1..] && b == [b[0]] + b[1..];
    }
  }

  lemma {:induction false} LessEqTransitive(a: string, b: string, c: string)
    requires LessEq(a, b) && LessEq(b, c)
    ensures LessEq(a, c)
  {
    if a != [] && b != [] && c != [] && a[0] == b[0] == c[0] {
      LessEqTransitive(a[1..], b[1..], c[1..]);
    }
  }

  /** Puts `p` behind every label whose key is not greater. */
  function Insert(sorted: seq<Label>, p: Label): seq<Label> {
    if sorted == [] then [p]
    else
      var n := |sorted| - 1;
      if LessEq(sorted[n].0, p.0) then sorted + [p] else Insert(sorted[..n], p) + [sorted[n]]
  }

  function SortByKey(labels: seq<Label>): seq<Label> {
    if labels == [] then [] else Insert(SortByKey(labels[..|labels| - 1]), labels[|labels| - 1])
  }

  ghost predicate Sorted(labels: seq<Label>) {
    forall i, j | 0 <= i < j < |labels| :: LessEq(labels[i].0, labels[j].0)
  }

  /** The values given for one key, in order. */
  function ValuesOf(labels: seq<Label>, k: string): seq<string> {
    if labels == [] then []
    else
      var last := labels[|labels| - 1];
      ValuesOf(labels[..|labels| - 1], k) + (if last.0 == k then [last.1] else [])
  }

  lemma ValuesAppend(labels: seq<Label>, p: Label, k: string)
    ensures ValuesOf(labels + [p], k) == ValuesOf(labels, k) + (if p.0 == k then [p.1] else [])
  {
    assert (labels + [p])[..|labels|] == labels;
  }

  lemma {:induction false} InsertSorts(sorted: seq<Label>, p: Label)
    requires Sorted(sorted)
    ensures Sorted(Insert(sorted, p))
    ensures forall q | q in Insert(sorted, p) :: q == p || q in sorted
  {
    if sorted != [] {
      var n := |sorted| - 1;
      var init, last := sorted[..n], sorted[n];
      assert sorted == init + [last];
      if LessEq(last.0, p.0) {
        forall i | 0 <= i < n ensures LessEq(sorted[i].0, p.0) {
          LessEqTransitive(sorted[i].0, last.0, p.0);
        }
      } else {
        InsertSorts(init, p);
        LessEqTotal(last.0, p.0);
        forall q | q in Insert(init, p) ensures LessEq(q.0, last.0) {
        }
      }
    }
  }

  lemma {:induction false} InsertKeepsValues(sorted: seq<Label>, p: Label, k: string)
    requires Sorted(sorted)
    ensures ValuesOf(Insert(sorted, p), k) == ValuesOf(sorted, k) + (if p.0 == k then [p.1] else [])
  {
    if sorted == [] {
      ValuesAppend([], p, k);
      assert [] + [p] == [p];
    } else {
      var n := |sorted| - 1;
      var init, last := sorted[..n], sorted[n];
      if LessEq(last.0, p.0) {
        ValuesAppend(sorted, p, k);
      } else {
        InsertKeepsValues(init, p, k);
        ValuesAppend(Insert(init, p), last, k);
        LessEqTotal(last.0, last.0);
        assert last.0 != p.0;
      }
    }
  }

  /** Sorting yields a sorted list and keeps, for every key, the values and their order. */
  lemma {:induction false} SortIsStable(labels: seq<Label>)
    ensures Sorted(SortByKey(labels))
    ensures forall k :: ValuesOf(SortByKey(labels), k) == ValuesOf(labels, k)
  {
    if labels != [] {
      var init, p := labels[..|labels| - 1], labels[|labels| - 1];
      SortIsStable(init);
      InsertSorts(SortByKey(init), p);
      forall k ensures ValuesOf(SortByKey(labels), k) == ValuesOf(labels, k) {
        InsertKeepsValues(SortByKey(init), p, k);
      }
    }
  }

  lemma {:induction false} ValuesMember(labels: seq<Label>, k: string)
    ensures ValuesOf(labels, k) != [] <==> exists i :: 0 <= i < |labels| && labels[i].0 == k
  {
    if labels != [] {
      var init := labels[..|labels| - 1];
      ValuesMember(init, k);
      if ValuesOf(init, k) != [] {
        var i :| 0 <= i < |init| && init[i].0 == k;
        assert labels[i].0 == k;
      }
      if i :| 0 <= i < |labels| && labels[i].0 == k {
        assert i == |labels| - 1 || init[i].0 == k;
      } else if labels[|labels| - 1].0 == k {
        assert labels[|labels| - 1].0 == k;
      }
    }
  }

  lemma LastKeyIsGreatest(x: seq<Label>, y: seq<Label>)
    requires Sorted(x) && Sorted(y) && x != [] && y != []
    requires forall k :: ValuesOf(x, k) == ValuesOf(y, k)
    ensures x[|x| - 1].0 == y[|y| - 1].0
  {
    var a, b := x[|x| - 1].0, y[|y| - 1].0;
    ValuesMember(x, a); ValuesMember(y, a);
    ValuesMember(x, b); ValuesMember(y, b);
    var i :| 0 <= i < |y| && y[i].0 == a;
    var j :| 0 <= j < |x| && x[j].0 == b;
    LessEqTotal(a, b);
  }

  /** A sorted list is determined by its values per key. */
  lemma {:induction false} SortedIsDetermined(x: seq<Label>, y: seq<Label>)
    requires Sorted(x) && Sorted(y) && forall k :: ValuesOf(x, k) == ValuesOf(y, k)
    ensures x == y
    decreases |x| + |y|
  {
    if x != [] && y != [] {
      var m, n := |x| - 1, |y| - 1;
      LastKeyIsGreatest(x, y);
      var k0 := x[m].0;
      assert ValuesOf(x, k0) == ValuesOf(x[..m], k0) + [x[m].1];
      assert ValuesOf(y, k0) == ValuesOf(y[..n], k0) + [y[n].1];
      SameLast(ValuesOf(x[..m], k0), x[m].1, ValuesOf(y[..n], k0), y[n].1);
      forall k ensures ValuesOf(x[..m], k) == ValuesOf(y[..n], k) {
        if k != k0 {
          assert ValuesOf(x[..m], k) + [] == ValuesOf(x[..m], k) && ValuesOf(y[..n], k) + [] == ValuesOf(y[..n], k);
          assert ValuesOf(x, k) == ValuesOf(y, k);
        }
      }
      SortedIsDetermined(x[..m], y[..n]);
      assert x == x[..m] + [x[m]] && y == y[..n] + [y[n]];
    } else if x != [] {
      ValuesMember(x, x[0].0);
    } else if y != [] {
      ValuesMember(y, y[0].0);
    }
  }

  lemma SameLast(a: seq<string>, x: string, b: seq<string>, y: string)
    requires a + [x] == b + [y]
    ensures a == b && x == y
  {
    assert (a + [x])[|a|] == x && (b + [y])[|b|] == y;
    assert (a + [x])[..|a|] == a && (b + [y])[..|b|] == b;
  }

  ghost predicate SameValues(x: seq<Label>, y: seq<Label>) {
    forall k :: ValuesOf(x, k) == ValuesOf(y, k)
  }

  lemma SortKeepsSameValues(x: seq<Label>, y: seq<Label>)
    ensures SameValues(SortByKey(x), SortByKey(y)) <==> SameValues(x, y)
  {
    SortIsStable(x);
    SortIsStable(y);
    if SameValues(x, y) {
      forall k ensures ValuesOf(SortByKey(x), k) == ValuesOf(SortByKey(y), k) {
        assert ValuesOf(x, k) == ValuesOf(y, k);
      }
    }
    if SameValues(SortByKey(x), SortByKey(y)) {
      forall k ensures ValuesOf(x, k) == ValuesOf(y, k) {
        assert ValuesOf(SortByKey(x), k) == ValuesOf(SortByKey(y), k);
      }
    }
  }

  /**
   Two label lists sort to the same key exactly when they give every label key
   the same values in the same order.
   */
  lemma SameSortedIff(x: seq<Label>, y: seq<Label>)
    ensures SortByKey(x) == SortByKey(y) <==> SameValues(x, y)
  {
    SortKeepsSameValues(x, y);
    if SameValues(x, y) {
      SortIsStable(x);
      SortIsStable(y);
      SortedIsDetermined(SortByKey(x), SortByKey(y));
    }
  }

  lemma {:induction false} SingleValue(labels: seq<Label>, k: string, v: string)
    requires ValuesOf(labels, k) == [v]
    ensures (k, v) in labels
  {
    var n := |labels| - 1;
    if labels[n].0 == k {
      assert ValuesOf(labels, k)[|ValuesOf(labels, k)| - 1] == labels[n].1;
      assert labels[n] == (k, v);
    } else {
      assert ValuesOf(labels[..n], k) + [] == ValuesOf(labels[..n], k);
      SingleValue(labels[..n], k, v);
    }
  }

  lemma {:induction false} OnlyValue(labels: seq<Label>, i: nat)
    requires DistinctKeys(labels) && i < |labels|
    ensures ValuesOf(labels, labels[i].0) == [labels[i].1]
  {
    var n := |labels| - 1;
    var init := labels[..n];
    if i == n {
      ValuesMember(init, labels[i].0);
      assert forall j | 0 <= j < |init| :: init[j].0 != labels[n].0;
    } else {
      OnlyValue(init, i);
      assert labels[n].0 != labels[i].0;
    }
  }

  lemma DistinctValues(labels: seq<Label>, k: string)
    requires DistinctKeys(labels)
    ensures |ValuesOf(labels, k)| <= 1
    ensures forall v :: ValuesOf(labels, k) == [v] <==> (k, v) in labels
  {
    ValuesMember(labels, k);
    if i :| 0 <= i < |labels| && labels[i].0 == k {
      OnlyValue(labels, i);
      forall v | (k, v) in labels ensures ValuesOf(labels, k) == [v] {
        var j :| 0 <= j < |labels| && labels[j] == (k, v);
        OnlyValue(labels, j);
      }
      forall v | ValuesOf(labels, k) == [v] ensures (k, v) in labels {
        SingleValue(labels, k, v);
      }
    } else {
      assert forall j | 0 <= j < |labels| :: labels[j].0 != k;
    }
  }

  /** With distinct label keys, that is: exactly when the lists agree up to reordering. */
  lemma SameSortedIffReordered(x: seq<Label>, y: seq<Label>)
    requires DistinctKeys(x) && DistinctKeys(y)
    ensures SortByKey(x) == SortByKey(y) <==> forall p :: p in x <==> p in y
  {
    SameSortedIff(x, y);
    forall k ensures ValuesOf(x, k) == ValuesOf(y, k) <==> forall v :: (k, v) in x <==> (k, v) in y {
      DistinctValues(x, k);
      DistinctValues(y, k);
      SameSingles(ValuesOf(x, k), ValuesOf(y, k));
    }
    if SortByKey(x) == SortByKey(y) {
      forall p: Label ensures p in x <==> p in y {
        assert ValuesOf(x, p.0) == ValuesOf(y, p.0);
        assert (p.0, p.1) == p;
      }
    }
  }

  lemma SameSingles(a: seq<string>, b: seq<string>)
    requires |a| <= 1 && |b| <= 1
    ensures a == b <==> forall v :: a == [v] <==> b == [v]
  {
    if forall v :: a == [v] <==> b == [v] {
      if a != [] { assert a == [a[0]]; }
      if b != [] { assert b == [b[0]]; }
    }
  }
}
