/**
 * The score fusion of search_hybrid_in_milvus and the tokenisation of
 * create_bm25_model. The vector search, the sentence embedding and the BM25
 * scorer are external services: the vector search response comes in as its hit
 * lists (the ids of each list, nearest first), and bm25.get_scores comes in as a
 * function from the tokenised query to one score per indexed paragraph.
 */
module MilvusUtils {
  import opened Wrappers
  import opened PyStr
  import opened PyDict
  import opened StableSort

  // ---------------------------------------------------------------------------
  // Tokenisation (create_bm25_model and the query)
  // ---------------------------------------------------------------------------

  /**
   * The corpus create_bm25_model hands to BM25Okapi: one token list per paragraph, in
   * paragraph order, each split on whitespace like the query is.
   */
  function TokenizedParagraphs(paragraphs: seq<string>): (corpus: seq<seq<string>>)
    ensures |corpus| == |paragraphs|
    ensures forall i :: 0 <= i < |corpus| ==> corpus[i] == Tokenize(paragraphs[i])
    ensures forall i, j :: 0 <= i < |corpus| && 0 <= j < |corpus[i]| ==> IsToken(corpus[i][j])
  {
    TokenizeAll(paragraphs);
    seq(|paragraphs|, i requires 0 <= i < |paragraphs| => Tokenize(paragraphs[i]))
  }

  lemma TokenizeAll(paragraphs: seq<string>)
    ensures forall i, j :: 0 <= i < |paragraphs| && 0 <= j < |Tokenize(paragraphs[i])| ==> IsToken(Tokenize(paragraphs[i])[j])
  {
    forall i | 0 <= i < |paragraphs| {
      TokenizeTokens(paragraphs[i]);
    }
  }

  // ---------------------------------------------------------------------------
  // Reciprocal rank fusion
  // ---------------------------------------------------------------------------

  /** The constant k of the fusion. */
  const RrfK: nat := 60

  /** rrf_score(rank) = 1 / (k + rank). With a 1-based rank it is positive and at most 1/61. */
  function RrfScore(rank: nat): (r: real)
    ensures 0.0 < r
    ensures rank >= 1 ==> r <= 1.0 / 61.0
  {
    var d := (RrfK + rank) as real;
    assert rank >= 1 ==> d >= 61.0;
    1.0 / d
  }

  lemma RrfScoreExamples()
    ensures RrfScore(1) == 1.0 / 61.0
    ensures RrfScore(5) == 1.0 / 65.0
  {
  }

  /** A better (smaller) rank earns a strictly larger contribution. */
  lemma RrfScoreDecreasing(a: nat, b: nat)
    requires a < b
    ensures RrfScore(b) < RrfScore(a)
  {
    var da, db := (RrfK + a) as real, (RrfK + b) as real;
    assert 0.0 < da < db;
    assert 1.0 / db < 1.0 / da by {
      assert 1.0 / db * db == 1.0 == 1.0 / da * da;
    }
  }

  // ---------------------------------------------------------------------------
  // What the two loops add to combined_results
  // ---------------------------------------------------------------------------

  /** The additions for one hit list: the hit at 0-based position r adds rrf_score(r + 1). */
  function HitContributions(hits: seq<int>): (cs: seq<Entry>)
    ensures |cs| == |hits|
  {
    seq(|hits|, r requires 0 <= r < |hits| => (hits[r], RrfScore(r + 1)))
  }

  /** The additions of the first loop, hit list after hit list. */
  function VectorContributions(hitLists: seq<seq<int>>): seq<Entry> {
    if hitLists == [] then []
    else VectorContributions(hitLists[..|hitLists| - 1]) + HitContributions(hitLists[|hitLists| - 1])
  }

  /** The additions of the second loop: the i-th BM25 score goes to the i-th paragraph's id, unchanged. */
  function Bm25Contributions(scores: seq<real>, paragraphIds: seq<int>): (cs: seq<Entry>)
    requires |scores| <= |paragraphIds|
    ensures |cs| == |scores|
  {
    seq(|scores|, i requires 0 <= i < |scores| => (paragraphIds[i], scores[i]))
  }

  /** combined_results after both loops, insertion order included. */
  function CombinedResults(hitLists: seq<seq<int>>, scores: seq<real>, paragraphIds: seq<int>): (d: Dict)
    requires |scores| <= |paragraphIds|
    ensures d.Valid()
  {
    Accumulate(VectorContributions(hitLists) + Bm25Contributions(scores, paragraphIds))
  }

  /** All ids of all hit lists, in the order the first loop visits them. */
  function Flatten(hitLists: seq<seq<int>>): seq<int> {
    if hitLists == [] then [] else Flatten(hitLists[..|hitLists| - 1]) + hitLists[|hitLists| - 1]
  }

  /** Every id either loop adds to, in visiting order: the vector hits, then the paragraphs that have a BM25 score. */
  function CandidateIds(hitLists: seq<seq<int>>, scores: seq<real>, paragraphIds: seq<int>): seq<int>
    requires |scores| <= |paragraphIds|
  {
    Flatten(hitLists) + paragraphIds[..|scores|]
  }

  // ---------------------------------------------------------------------------
  // Reference definition of a fused score
  // ---------------------------------------------------------------------------

  /** The RRF terms id earns in one hit list: rrf_score(r) for each 1-based rank r it holds there. */
  function RankTotal(hits: seq<int>, id: int): real {
    if hits == [] then 0.0
    else RankTotal(hits[..|hits| - 1], id) + (if hits[|hits| - 1] == id then RrfScore(|hits|) else 0.0)
  }

  /** The RRF terms id earns over all hit lists. */
  function RrfTotal(hitLists: seq<seq<int>>, id: int): real {
    if hitLists == [] then 0.0
    else RrfTotal(hitLists[..|hitLists| - 1], id) + RankTotal(hitLists[|hitLists| - 1], id)
  }

  /** The raw BM25 scores of the paragraphs whose id is id. */
  function Bm25Total(scores: seq<real>, paragraphIds: seq<int>, id: int): real
    requires |scores| <= |paragraphIds|
  {
    if scores == [] then 0.0
    else
      var n := |scores| - 1;
      Bm25Total(scores[..n], paragraphIds, id) + (if paragraphIds[n] == id then scores[n] else 0.0)
  }

  // ---------------------------------------------------------------------------
  // The key set, the insertion order and the values of combined_results
  // ---------------------------------------------------------------------------

  lemma KeysOfAppend(a: seq<Entry>, b: seq<Entry>)
    ensures KeysOf(a + b) == KeysOf(a) + KeysOf(b)
  {
  }

  lemma {:induction false} KeysOfVector(hitLists: seq<seq<int>>)
    ensures KeysOf(VectorContributions(hitLists)) == Flatten(hitLists)
  {
    if hitLists != [] {
      var n := |hitLists| - 1;
      KeysOfVector(hitLists[..n]);
      KeysOfAppend(VectorContributions(hitLists[..n]), HitContributions(hitLists[n]));
      assert KeysOf(HitContributions(hitLists[n])) == hitLists[n];
    }
  }

  lemma KeysOfContributions(hitLists: seq<seq<int>>, scores: seq<real>, paragraphIds: seq<int>)
    requires |scores| <= |paragraphIds|
    ensures KeysOf(VectorContributions(hitLists) + Bm25Contributions(scores, paragraphIds))
         == CandidateIds(hitLists, scores, paragraphIds)
  {
    KeysOfVector(hitLists);
    KeysOfAppend(VectorContributions(hitLists), Bm25Contributions(scores, paragraphIds));
    assert KeysOf(Bm25Contributions(scores, paragraphIds)) == paragraphIds[..|scores|];
  }

  /**
   * combined_results holds exactly the vector-hit ids and the ids of the paragraphs that
   * have a BM25 score, in the order of their first appearance: vector hits first, then
   * the ids that only the paragraph list brings in.
   */
  lemma CombinedKeys(hitLists: seq<seq<int>>, scores: seq<real>, paragraphIds: seq<int>)
    requires |scores| <= |paragraphIds|
    ensures forall id :: id in CombinedResults(hitLists, scores, paragraphIds).vals <==>
      id in Flatten(hitLists) || id in paragraphIds[..|scores|]
    ensures InFirstOccurrenceOrder(CombinedResults(hitLists, scores, paragraphIds).keys,
                                   CandidateIds(hitLists, scores, paragraphIds))
  {
    var cs := VectorContributions(hitLists) + Bm25Contributions(scores, paragraphIds);
    KeysOfContributions(hitLists, scores, paragraphIds);
    AccumulateKeys(cs);
    AccumulateOrder(cs);
  }

  lemma {:induction false} HitSum(hits: seq<int>, id: int)
    ensures SumFor(HitContributions(hits), id) == RankTotal(hits, id)
  {
    if hits != [] {
      var m := |hits| - 1;
      HitSum(hits[..m], id);
      assert HitContributions(hits) == HitContributions(hits[..m]) + [(hits[m], RrfScore(m + 1))];
      SumForAppend(HitContributions(hits[..m]), [(hits[m], RrfScore(m + 1))], id);
      assert SumFor([(hits[m], RrfScore(m + 1))], id) == if hits[m] == id then RrfScore(m + 1) else 0.0 by {
        assert [(hits[m], RrfScore(m + 1))][..0] == [];
      }
    }
  }

  lemma {:induction false} VectorSum(hitLists: seq<seq<int>>, id: int)
    ensures SumFor(VectorContributions(hitLists), id) == RrfTotal(hitLists, id)
  {
    if hitLists != [] {
      var n := |hitLists| - 1;
      VectorSum(hitLists[..n], id);
      HitSum(hitLists[n], id);
      SumForAppend(VectorContributions(hitLists[..n]), HitContributions(hitLists[n]), id);
    }
  }

  lemma {:induction false} Bm25Sum(scores: seq<real>, paragraphIds: seq<int>, id: int)
    requires |scores| <= |paragraphIds|
    ensures SumFor(Bm25Contributions(scores, paragraphIds), id) == Bm25Total(scores, paragraphIds, id)
  {
    if scores != [] {
      var n := |scores| - 1;
      Bm25Sum(scores[..n], paragraphIds, id);
      var last := [(paragraphIds[n], scores[n])];
      assert Bm25Contributions(scores, paragraphIds) == Bm25Contributions(scores[..n], paragraphIds) + last;
      SumForAppend(Bm25Contributions(scores[..n], paragraphIds), last, id);
      assert last[..0] == [];
    }
  }

  /**
   * Each id's combined score is the sum of its RRF terms over every hit list plus the
   * sum of its raw BM25 scores, a missing term counting as 0.
   */
  lemma CombinedScore(hitLists: seq<seq<int>>, scores: seq<real>, paragraphIds: seq<int>, id: int)
    requires |scores| <= |paragraphIds|
    requires id in CombinedResults(hitLists, scores, paragraphIds).vals
    ensures CombinedResults(hitLists, scores, paragraphIds).vals[id]
         == RrfTotal(hitLists, id) + Bm25Total(scores, paragraphIds, id)
  {
    var v, b := VectorContributions(hitLists), Bm25Contributions(scores, paragraphIds);
    AccumulateValue(v + b, id);
    SumForAppend(v, b, id);
    VectorSum(hitLists, id);
    Bm25Sum(scores, paragraphIds, id);
  }

  // ---------------------------------------------------------------------------
  // Sorting and truncation
  // ---------------------------------------------------------------------------

  /** Python's s[:limit], a negative limit counting from the end. */
  function Take<T>(s: seq<T>, limit: int): (r: seq<T>)
    ensures |r| <= |s| && r == s[..|r|]
    ensures limit >= 0 ==> |r| == if limit < |s| then limit else |s|
    ensures limit < 0 ==> |r| == if |s| + limit > 0 then |s| + limit else 0
  {
    if limit >= 0 then (if limit < |s| then s[..limit] else s)
    else if |s| + limit > 0 then s[..|s| + limit]
    else []
  }

  /**
   * The value search_hybrid_in_milvus returns for the given vector hit lists and BM25
   * scores: combined_results sorted by score, highest first, cut to limit entries. It
   * raises IndexError when there are more BM25 scores than paragraphs.
   */
  function HybridRanking(hitLists: seq<seq<int>>, scores: seq<real>, paragraphIds: seq<int>, limit: int)
    : Result<seq<Entry>>
  {
    if |scores| > |paragraphIds| then Raise(IndexError)
    else Ok(Take(SortDesc(CombinedResults(hitLists, scores, paragraphIds).Items()), limit))
  }

  lemma ItemsDistinct(d: Dict)
    requires d.Valid()
    ensures DistinctKeys(d.Items())
  {
  }

  /** The ranking is ordered by score, highest first. */
  lemma RankingSorted(hitLists: seq<seq<int>>, scores: seq<real>, paragraphIds: seq<int>, limit: int)
    requires |scores| <= |paragraphIds|
    ensures HybridRanking(hitLists, scores, paragraphIds, limit).Ok?
    ensures SortedDesc(HybridRanking(hitLists, scores, paragraphIds, limit).value)
  {
  }

  /**
   * For a non-negative limit the ranking has min(limit, number of distinct candidate ids)
   * entries; a negative limit drops that many entries from the end, as Python slicing does.
   */
  lemma {:induction false} RankingLength(hitLists: seq<seq<int>>, scores: seq<real>, paragraphIds: seq<int>, limit: int)
    requires |scores| <= |paragraphIds|
    ensures var n := |set id | id in CandidateIds(hitLists, scores, paragraphIds)|;
      var out := HybridRanking(hitLists, scores, paragraphIds, limit).value;
      && (limit >= 0 ==> |out| == if limit < n then limit else n)
      && (limit < 0 ==> |out| == if n + limit > 0 then n + limit else 0)
  {
    var d := CombinedResults(hitLists, scores, paragraphIds);
    var ids := CandidateIds(hitLists, scores, paragraphIds);
    CombinedKeys(hitLists, scores, paragraphIds);
    DistinctCardinality(d.keys);
    forall id ensures id in d.keys <==> id in ids {
      assert id in d.keys ==> id in d.vals;
    }
    assert (set id | id in d.keys) == (set id | id in ids);
    SortDescLength(d.Items());
  }

  /** No id is returned twice, and every returned pair is an entry of combined_results. */
  lemma {:induction false} RankingEntries(hitLists: seq<seq<int>>, scores: seq<real>, paragraphIds: seq<int>, limit: int)
    requires |scores| <= |paragraphIds|
    ensures var d := CombinedResults(hitLists, scores, paragraphIds);
      var out := HybridRanking(hitLists, scores, paragraphIds, limit).value;
      && DistinctKeys(out)
      && forall i :: 0 <= i < |out| ==> out[i].0 in d.vals && out[i].1 == d.vals[out[i].0]
  {
    var d := CombinedResults(hitLists, scores, paragraphIds);
    var sorted := SortDesc(d.Items());
    var out := HybridRanking(hitLists, scores, paragraphIds, limit).value;
    ItemsDistinct(d);
    SortDescDistinct(d.Items());
    forall i | 0 <= i < |out|
      ensures out[i].0 in d.vals && out[i].1 == d.vals[out[i].0]
    {
      assert out[i] == sorted[i];
      SortDescMembers(d.Items(), out[i]);
      var k :| 0 <= k < |d.Items()| && d.Items()[k] == out[i];
    }
  }

  /** Top-k: an entry of combined_results that is left out scores no higher than any entry returned. */
  lemma {:induction false} RankingTopK(hitLists: seq<seq<int>>, scores: seq<real>, paragraphIds: seq<int>, limit: int, e: Entry)
    requires |scores| <= |paragraphIds|
    requires e in CombinedResults(hitLists, scores, paragraphIds).Items()
    requires e !in HybridRanking(hitLists, scores, paragraphIds, limit).value
    ensures forall o :: o in HybridRanking(hitLists, scores, paragraphIds, limit).value ==> e.1 <= o.1
  {
    var sorted := SortDesc(CombinedResults(hitLists, scores, paragraphIds).Items());
    var out := HybridRanking(hitLists, scores, paragraphIds, limit).value;
    SortDescMembers(CombinedResults(hitLists, scores, paragraphIds).Items(), e);
    var p :| 0 <= p < |sorted| && sorted[p] == e;
    forall q | 0 <= q < |out| ensures sorted[q] != e {
      assert out[q] == sorted[q];
    }
    forall o | o in out ensures e.1 <= o.1 {
      var q :| 0 <= q < |out| && out[q] == o;
      assert sorted[q] == o;
    }
  }

  lemma WithScorePrefix(s: seq<Entry>, m: nat, v: real)
    requires m <= |s|
    ensures WithScore(s[..m], v) <= WithScore(s, v)
  {
    assert s == s[..m] + s[m..];
    WithScoreAppend(s[..m], s[m..], v);
  }

  /**
   * Ties keep dictionary insertion order: the returned entries with score v are the first
   * entries with score v of combined_results, in insertion order.
   */
  lemma RankingTies(hitLists: seq<seq<int>>, scores: seq<real>, paragraphIds: seq<int>, limit: int, v: real)
    requires |scores| <= |paragraphIds|
    ensures WithScore(HybridRanking(hitLists, scores, paragraphIds, limit).value, v)
         <= WithScore(CombinedResults(hitLists, scores, paragraphIds).Items(), v)
  {
    var items := CombinedResults(hitLists, scores, paragraphIds).Items();
    var sorted := SortDesc(items);
    var out := HybridRanking(hitLists, scores, paragraphIds, limit).value;
    SortDescStable(items, v);
    WithScorePrefix(sorted, |out|, v);
  }

  lemma HitContributionsSnoc(hits: seq<int>, rank: nat)
    requires rank < |hits|
    ensures HitContributions(hits[..rank + 1]) == HitContributions(hits[..rank]) + [(hits[rank], RrfScore(rank + 1))]
  {
  }

  lemma Bm25ContributionsSnoc(scores: seq<real>, paragraphIds: seq<int>, rank: nat)
    requires rank < |scores| && rank < |paragraphIds|
    ensures Bm25Contributions(scores[..rank + 1], paragraphIds)
         == Bm25Contributions(scores[..rank], paragraphIds) + [(paragraphIds[rank], scores[rank])]
  {
  }

  // ---------------------------------------------------------------------------
  // search_hybrid_in_milvus
  // ---------------------------------------------------------------------------

  /** One more hit list: its additions follow those of the lists before it. */
  lemma VectorContributionsNext(hitLists: seq<seq<int>>, i: nat, done: seq<Entry>)
    requires i < |hitLists| && done == VectorContributions(hitLists[..i])
    ensures done + HitContributions(hitLists[i]) == VectorContributions(hitLists[..i + 1])
  {
    assert hitLists[..i + 1][..i] == hitLists[..i];
  }

  /** The first loop's body for one hit list: adds RrfScore(rank + 1) to each hit's entry, in rank order. */
  method AddHitList(combined: Dict, hits: seq<int>, ghost before: seq<Entry>) returns (after: Dict)
    requires combined == Accumulate(before)
    ensures after == Accumulate(before + HitContributions(hits))
  {
    after := combined;
    ghost var added := before;
    assert before + HitContributions(hits[..0]) == before;
    for rank := 0 to |hits|
      invariant added == before + HitContributions(hits[..rank])
      invariant after == Accumulate(added)
    {
      var c := (hits[rank], RrfScore(rank + 1));
      AccumulateStep(after, added, c);
      after := after.Set(c.0, after.Get(c.0, 0.0) + c.1);
      HitContributionsSnoc(hits, rank);
      added := added + [c];
    }
    assert hits[..|hits|] == hits;
  }

  /**
   * The second loop: adds the i-th BM25 score to the i-th paragraph's entry, raising
   * IndexError at the first score without a paragraph.
   */
  method AddBm25Scores(combined: Dict, scores: seq<real>, paragraphIds: seq<int>, ghost before: seq<Entry>)
    returns (after: Result<Dict>)
    requires combined == Accumulate(before)
    ensures after.Raise? <==> |scores| > |paragraphIds|
    ensures after.Raise? ==> after.exc == IndexError
    ensures after.Ok? ==> after.value == Accumulate(before + Bm25Contributions(scores, paragraphIds))
  {
    var d := combined;
    ghost var added := before;
    assert before + Bm25Contributions(scores[..0], paragraphIds) == before;
    for rank := 0 to |scores|
      invariant rank <= |paragraphIds|
      invariant added == before + Bm25Contributions(scores[..rank], paragraphIds)
      invariant d == Accumulate(added)
    {
      if rank >= |paragraphIds| {
        return Raise(IndexError);
      }
      var c := (paragraphIds[rank], scores[rank]);
      AccumulateStep(d, added, c);
      d := d.Set(c.0, d.Get(c.0, 0.0) + c.1);
      Bm25ContributionsSnoc(scores, paragraphIds, rank);
      added := added + [c];
    }
    assert scores[..|scores|] == scores;
    return Ok(d);
  }

  /**
   * search_hybrid_in_milvus after the vector search: hitLists is the search response,
   * paragraphIds the neo4j_id of each fetched paragraph, getScores the BM25 model's
   * get_scores. It returns HybridRanking of the BM25 scores of the tokenised query.
   */
  method SearchHybridInMilvus(
    query: string, hitLists: seq<seq<int>>, paragraphIds: seq<int>,
    getScores: seq<string> -> seq<real>, limit: int)
    returns (result: Result<seq<Entry>>)
    ensures result == HybridRanking(hitLists, getScores(Tokenize(query)), paragraphIds, limit)
    ensures result.Raise? <==> |getScores(Tokenize(query))| > |paragraphIds|
  {
    var tokenizedQuery := Tokenize(query);
    var combined := Empty;
    ghost var done: seq<Entry> := [];
    for i := 0 to |hitLists|
      invariant done == VectorContributions(hitLists[..i])
      invariant combined == Accumulate(done)
    {
      VectorContributionsNext(hitLists, i, done);
      combined := AddHitList(combined, hitLists[i], done);
      done := done + HitContributions(hitLists[i]);
    }
    assert hitLists[..|hitLists|] == hitLists;
    var bm25Scores := getScores(tokenizedQuery);
    var withBm25 := AddBm25Scores(combined, bm25Scores, paragraphIds, VectorContributions(hitLists));
    if withBm25.Raise? {
      return Raise(withBm25.exc);
    }
    var sortedResults := SortDesc(withBm25.value.Items());
    return Ok(Take(sortedResults, limit));
  }
}
