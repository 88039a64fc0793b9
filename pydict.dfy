/**
 * A Python dict from integer ids to scores, with the insertion order Python keeps:
 * keys lists every key once, in the order the keys were first stored.
 */
module PyDict {

  ghost predicate Distinct(s: seq<int>) {
    forall i, j :: 0 <= i < j < |s| ==> s[i] != s[j]
  }

  datatype Dict = Dict(keys: seq<int>, vals: map<int, real>) {

    /** keys holds exactly the keys of vals, each once. */
    ghost predicate Valid() {
      && Distinct(keys)
      && (forall i :: 0 <= i < |keys| ==> keys[i] in vals)
      && (forall k :: k in vals ==> k in keys)
    }

    /** d.get(k, default). */
    function Get(k: int, default: real): real {
      if k in vals then vals[k] else default
    }

    /** d[k] = v: a key already present keeps its place in the order, a new key goes last. */
    function Set(k: int, v: real): (d: Dict)
      requires Valid()
      ensures d.Valid()
      ensures d.vals == vals[k := v]
      ensures k in vals ==> d.keys == keys
      ensures k !in vals ==> d.keys == keys + [k]
    {
      if k in vals then Dict(keys, vals[k := v]) else Dict(keys + [k], vals[k := v])
    }

    /** d.items(), in insertion order. */
    function Items(): (items: seq<(int, real)>)
      requires Valid()
      ensures |items| == |keys|
      ensures forall i :: 0 <= i < |items| ==> items[i] == (keys[i], vals[keys[i]])
    {
      seq(|keys|, i requires 0 <= i < |keys| => (keys[i], vals[keys[i]]))
    }
  }

  const Empty := Dict([], map[])

  /** The ids of a sequence of (id, amount) additions. */
  function KeysOf(cs: seq<(int, real)>): (ks: seq<int>)
    ensures |ks| == |cs| && forall i :: 0 <= i < |cs| ==> ks[i] == cs[i].0
  {
    seq(|cs|, i requires 0 <= i < |cs| => cs[i].0)
  }

  /** The total of the amounts added to id k. */
  function SumFor(cs: seq<(int, real)>, k: int): real {
    if cs == [] then 0.0
    else SumFor(cs[..|cs| - 1], k) + (if cs[|cs| - 1].0 == k then cs[|cs| - 1].1 else 0.0)
  }

  lemma {:induction false} SumForAppend(a: seq<(int, real)>, b: seq<(int, real)>, k: int)
    ensures SumFor(a + b, k) == SumFor(a, k) + SumFor(b, k)
    decreases |b|
  {
    if b == [] {
      assert a + b == a;
    } else {
      assert (a + b)[..|a + b| - 1] == a + b[..|b| - 1];
      SumForAppend(a, b[..|b| - 1], k);
    }
  }

  /**
   * Starting from an empty dict, performs d[k] = d.get(k, 0) + x for each addition (k, x)
   * in turn; the result is a well-formed dict.
   */
  function Accumulate(cs: seq<(int, real)>): (d: Dict)
    ensures d.Valid()
  {
    if cs == [] then Empty
    else
      var d := Accumulate(cs[..|cs| - 1]);
      var c := cs[|cs| - 1];
      d.Set(c.0, d.Get(c.0, 0.0) + c.1)
  }

  /** The keys that end up in the dict are exactly the ids added to. */
  lemma {:induction false} AccumulateKeys(cs: seq<(int, real)>)
    ensures forall k :: k in Accumulate(cs).vals <==> k in KeysOf(cs)
    decreases |cs|
  {
    if cs != [] {
      var pre := cs[..|cs| - 1];
      AccumulateKeys(pre);
      assert KeysOf(cs) == KeysOf(pre) + [cs[|cs| - 1].0];
    }
  }

  /** One more addition is one more step of the accumulation: d[k] = d.get(k, 0) + x. */
  lemma {:induction false} AccumulateStep(d: Dict, cs: seq<(int, real)>, c: (int, real))
    requires d == Accumulate(cs)
    ensures Accumulate(cs + [c]) == d.Set(c.0, d.Get(c.0, 0.0) + c.1)
  {
    var s := cs + [c];
    assert s[..|s| - 1] == cs;
    assert s[|s| - 1] == c;
  }

  /** Every key ends up holding the sum of all the amounts added to it. */
  lemma {:induction false} AccumulateValue(cs: seq<(int, real)>, k: int)
    requires k in Accumulate(cs).vals
    ensures Accumulate(cs).vals[k] == SumFor(cs, k)
    decreases |cs|
  {
    var pre := cs[..|cs| - 1];
    var (k', x) := cs[|cs| - 1];
    if k in Accumulate(pre).vals {
      AccumulateValue(pre, k);
    } else if k == k' {
      AccumulateKeys(pre);
      SumForAbsent(pre, k);
    }
  }

  lemma {:induction false} SumForAbsent(cs: seq<(int, real)>, k: int)
    requires k !in KeysOf(cs)
    ensures SumFor(cs, k) == 0.0
    decreases |cs|
  {
    if cs != [] {
      assert KeysOf(cs[..|cs| - 1]) == KeysOf(cs)[..|cs| - 1];
      SumForAbsent(cs[..|cs| - 1], k);
    }
  }

  /** The position of the first occurrence of x in s. */
  function FirstIndex(s: seq<int>, x: int): (i: nat)
    requires x in s
    ensures i < |s| && s[i] == x
    ensures forall j :: 0 <= j < i ==> s[j] != x
  {
    if s[0] == x then 0 else 1 + FirstIndex(s[1..], x)
  }

  lemma FirstIndexAppend(s: seq<int>, y: int, x: int)
    requires x in s
    ensures FirstIndex(s + [y], x) == FirstIndex(s, x)
  {
    var i := FirstIndex(s, x);
    assert (s + [y])[i] == x;
  }

  lemma FirstIndexLast(s: seq<int>, y: int)
    requires y !in s
    ensures FirstIndex(s + [y], y) == |s|
  {
    assert (s + [y])[|s|] == y;
  }

  /** keys are members of ids, listed in the order of their first occurrence in ids. */
  ghost predicate InFirstOccurrenceOrder(keys: seq<int>, ids: seq<int>) {
    forall i, j :: 0 <= i < j < |keys| ==>
      keys[i] in ids && keys[j] in ids && FirstIndex(ids, keys[i]) < FirstIndex(ids, keys[j])
  }

  /**
   * The keys are in the order of their first addition: a key that comes earlier in
   * the dict was first added to earlier.
   */
  lemma {:induction false} AccumulateOrder(cs: seq<(int, real)>)
    ensures InFirstOccurrenceOrder(Accumulate(cs).keys, KeysOf(cs))
    decreases |cs|
  {
    if cs != [] {
      var pre := cs[..|cs| - 1];
      var (k, x) := cs[|cs| - 1];
      var d0, d := Accumulate(pre), Accumulate(cs);
      AccumulateOrder(pre);
      AccumulateKeys(pre);
      AccumulateKeys(cs);
      assert KeysOf(cs) == KeysOf(pre) + [k];
      forall i | 0 <= i < |d0.keys|
        ensures FirstIndex(KeysOf(cs), d0.keys[i]) == FirstIndex(KeysOf(pre), d0.keys[i])
      {
        assert d0.keys[i] in d0.vals;
        FirstIndexAppend(KeysOf(pre), k, d0.keys[i]);
      }
      if k !in d0.vals {
        FirstIndexLast(KeysOf(pre), k);
        assert d.keys == d0.keys + [k];
        forall i, j | 0 <= i < j < |d.keys|
          ensures FirstIndex(KeysOf(cs), d.keys[i]) < FirstIndex(KeysOf(cs), d.keys[j])
        {
          assert d.keys[i] == d0.keys[i];
          if j == |d0.keys| {
            assert d.keys[j] == k;
            assert FirstIndex(KeysOf(cs), d.keys[j]) == |pre|;
            assert FirstIndex(KeysOf(pre), d0.keys[i]) < |pre|;
          } else {
            assert d.keys[j] == d0.keys[j];
          }
        }
      }
    }
  }

  /** A sequence without repetitions has as many distinct elements as it is long. */
  lemma {:induction false} DistinctCardinality(s: seq<int>)
    requires Distinct(s)
    ensures |set x | x in s| == |s|
  {
    if s != [] {
      var pre := s[..|s| - 1];
      DistinctCardinality(pre);
      assert (set x | x in s) == (set x | x in pre) + {s[|s| - 1]};
      assert s[|s| - 1] !in pre;
    }
  }
}
