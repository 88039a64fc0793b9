/**
 * Python's sorted(items, key=lambda item: item[1], reverse=True) on (id, score)
 * pairs: a stable sort into non-increasing score order. Entries with equal scores
 * keep the order they had in the input, as Python's documentation promises for
 * reverse=True.
 */
module StableSort {

  type Entry = (int, real)

  ghost predicate SortedDesc(s: seq<Entry>) {
    forall i, j :: 0 <= i < j < |s| ==> s[i].1 >= s[j].1
  }

  /** No id occurs in two entries. */
  ghost predicate DistinctKeys(s: seq<Entry>) {
    forall i, j :: 0 <= i < j < |s| ==> s[i].0 != s[j].0
  }

  /** The entries of s whose score is v, in the order they have in s. */
  function WithScore(s: seq<Entry>, v: real): seq<Entry> {
    if s == [] then [] else (if s[0].1 == v then [s[0]] else []) + WithScore(s[1..], v)
  }

  /**
   * Places x into the non-increasing ys in front of the first entry whose score is not
   * above x's, so that x comes before the entries with a score equal to its own.
   */
  function Insert(x: Entry, ys: seq<Entry>): (r: seq<Entry>)
    ensures multiset(r) == multiset(ys) + multiset{x}
  {
    if ys == [] then [x]
    else if x.1 >= ys[0].1 then [x] + ys
    else
      assert ys == [ys[0]] + ys[1..];
      [ys[0]] + Insert(x, ys[1..])
  }

  lemma InsertMembers(x: Entry, ys: seq<Entry>, e: Entry)
    requires e in Insert(x, ys)
    ensures e == x || e in ys
  {
    assert e in multiset(Insert(x, ys));
  }

  lemma {:induction false} InsertSorted(x: Entry, ys: seq<Entry>)
    requires SortedDesc(ys)
    ensures SortedDesc(Insert(x, ys))
  {
    if ys != [] && x.1 < ys[0].1 {
      var rest := Insert(x, ys[1..]);
      InsertSorted(x, ys[1..]);
      forall e | e in rest ensures ys[0].1 >= e.1 {
        InsertMembers(x, ys[1..], e);
      }
      assert Insert(x, ys) == [ys[0]] + rest;
    }
  }

  /** sorted(s, key=score, reverse=True): a permutation of s in non-increasing score order. */
  function SortDesc(s: seq<Entry>): (r: seq<Entry>)
    ensures multiset(r) == multiset(s)
    ensures SortedDesc(r)
  {
    if s == [] then []
    else
      assert s == [s[0]] + s[1..];
      InsertSorted(s[0], SortDesc(s[1..]));
      Insert(s[0], SortDesc(s[1..]))
  }

  lemma SortDescLength(s: seq<Entry>)
    ensures |SortDesc(s)| == |s|
  {
    assert |multiset(SortDesc(s))| == |multiset(s)|;
  }

  lemma SortDescMembers(s: seq<Entry>, e: Entry)
    ensures e in SortDesc(s) <==> e in s
  {
    assert e in SortDesc(s) <==> e in multiset(SortDesc(s));
  }

  lemma WithScoreAppend(a: seq<Entry>, b: seq<Entry>, v: real)
    ensures WithScore(a + b, v) == WithScore(a, v) + WithScore(b, v)
  {
    if a == [] {
      assert a + b == b;
    } else {
      var ab := a + b;
      assert ab[0] == a[0];
      assert ab[1..] == a[1..] + b;
      WithScoreAppend(a[1..], b, v);
      assert WithScore(ab, v) == (if a[0].1 == v then [a[0]] else []) + WithScore(a[1..] + b, v);
    }
  }

  /** Among the entries with one score, Insert puts x first, as if it had gone in front. */
  lemma {:induction false} InsertStable(x: Entry, ys: seq<Entry>, v: real)
    ensures WithScore(Insert(x, ys), v) == WithScore([x] + ys, v)
  {
    if ys != [] && x.1 < ys[0].1 {
      var y, rest := ys[0], ys[1..];
      calc {
        WithScore(Insert(x, ys), v);
        WithScore([y] + Insert(x, rest), v);
        { WithScoreAppend([y], Insert(x, rest), v); }
        WithScore([y], v) + WithScore(Insert(x, rest), v);
        { InsertStable(x, rest, v); }
        WithScore([y], v) + WithScore([x] + rest, v);
        { WithScoreAppend([x], rest, v); }
        WithScore([y], v) + (WithScore([x], v) + WithScore(rest, v));
        { assert WithScore([x], v) == [] || WithScore([y], v) == []; }
        WithScore([x], v) + (WithScore([y], v) + WithScore(rest, v));
        { WithScoreAppend([y], rest, v); assert ys == [y] + rest; }
        WithScore([x], v) + WithScore(ys, v);
        { WithScoreAppend([x], ys, v); }
        WithScore([x] + ys, v);
      }
    }
  }

  /**
   * The sort is stable: for every score, the entries with that score come out in the
   * order they went in.
   */
  lemma {:induction false} SortDescStable(s: seq<Entry>, v: real)
    ensures WithScore(SortDesc(s), v) == WithScore(s, v)
  {
    if s != [] {
      SortDescStable(s[1..], v);
      InsertStable(s[0], SortDesc(s[1..]), v);
      WithScoreAppend([s[0]], SortDesc(s[1..]), v);
      WithScoreAppend([s[0]], s[1..], v);
      assert s == [s[0]] + s[1..];
    }
  }

  /** Sorting keeps ids apart: if no id occurs twice in s, none occurs twice in the result. */
  lemma {:induction false} SortDescDistinct(s: seq<Entry>)
    requires DistinctKeys(s)
    ensures DistinctKeys(SortDesc(s))
  {
    if s != [] {
      var rest := SortDesc(s[1..]);
      SortDescDistinct(s[1..]);
      forall e | e in rest ensures e.0 != s[0].0 {
        SortDescMembers(s[1..], e);
        var k :| 0 <= k < |s[1..]| && s[1..][k] == e;
        assert s[k + 1] == e;
      }
      InsertDistinct(s[0], rest);
    }
  }

  lemma {:induction false} InsertDistinct(x: Entry, ys: seq<Entry>)
    requires DistinctKeys(ys)
    requires forall e :: e in ys ==> e.0 != x.0
    ensures DistinctKeys(Insert(x, ys))
  {
    if ys != [] && x.1 < ys[0].1 {
      var rest := Insert(x, ys[1..]);
      InsertDistinct(x, ys[1..]);
      forall e | e in rest ensures e.0 != ys[0].0 {
        InsertMembers(x, ys[1..], e);
        if e != x {
          var k :| 0 <= k < |ys[1..]| && ys[1..][k] == e;
          assert ys[k + 1] == e;
        }
      }
    }
  }
}
