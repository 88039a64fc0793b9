# Hybrid retrieval over a Wikipedia corpus, modelled in Dafny

The system collects Wikipedia pages, cuts each page's text into paragraphs, and
stores the pages and paragraphs as a Neo4j graph. It indexes the paragraphs twice:
as sentence embeddings in Milvus and as a BM25 lexical model. A query is answered by
fusing the vector ranking with the BM25 scores. Each vector hit earns the reciprocal-rank score
1 / (60 + rank). Each paragraph then adds its BM25 score for the tokenised query.
The ids come back sorted by total score, highest first, cut to `limit`.

This project models that core:

- `MilvusUtils` (`milvus_utils.dfy`): the fusion loop of `search_hybrid_in_milvus` and
  the whitespace tokenisation that `create_bm25_model` and the query share. The loop
  is a method over an insertion-ordered dictionary. It is proved equal to
  `HybridRanking`, a function of the hit lists, the BM25 scores and the paragraph ids.
  Lemmas state what that ranking contains and in what order.
- `Neo4jUtils` (`neo4j_utils.dfy`):
  - `chunk_text_by_paragraph`, as a method with nested loops proved equal to `Paragraphs`.
  - `save_to_neo4j`, as a module-level method that takes a `Graph` object. The graph is
    an append-only log of the nodes and relationships created in it, and its one method
    `Create` appends a record. A relationship names its page and paragraph by their
    positions in the log.
- `GetData` (`get_data.dfy`): `get_wikipedia_title`, and the loop of
  `extract_text_from_urls`. The page request is a function parameter that returns the
  page's title and text or raises.
- Shared Python semantics:
  - `PyStr`: `str.isspace` with Python's full whitespace set, `strip()`, `split(sep)`,
    `split()`, `sep.join`, and `str()` of a natural number.
  - `PyDict`: a dict that keeps insertion order, with `get` and item assignment.
  - `StableSort`: `sorted(..., key=score, reverse=True)`, which is stable.
  - `Wrappers`: `Option`, and `Result` for the Python exceptions.

Three points of the code's behaviour the model makes explicit:

- `search_hybrid_in_milvus` raises no error of its own for an empty query:
  `query.split()` is `[]`, and the fusion goes ahead with whatever `get_scores` returns
  for it. When the scorer returns no scores, only the vector hits are fused. The only
  error the model raises is `IndexError` at `paragraphs[rank]` (milvus_utils.py:110),
  when `get_scores` returns more scores than there are paragraphs.
- The fusion is modelled for a given scorer. Building `BM25Okapi` over an empty corpus
  (milvus_utils.py:28) fails inside the BM25 library, before any search; that
  construction is not part of this model.
- `limit` bounds the slice `sorted_results[:limit]` (milvus_utils.py:116). By the slice
  rule, a negative limit drops that many entries from the end (`Take`). The same
  `limit` also goes to the vector search (milvus_utils.py:91-93), which may reject it
  first; the search is a parameter of the model, so that rejection is not modelled.

## Model

| member | source | states |
|---|---|---|
| MilvusUtils.TokenizedParagraphs | milvus_utils.py:26-29 | the BM25 corpus has one token list per paragraph, in order; each list is that paragraph's `split()`, and every token is non-empty and whitespace-free |
| PyStr.Tokenize | milvus_utils.py:27 | definition of `split()` with no argument: skip leading whitespace, take the longest run of non-whitespace, repeat |
| PyStr.TokenizeLayout | milvus_utils.py:27 | `split()` keeps maximal runs: the text is its tokens with runs of whitespace around them, the run between two consecutive tokens is never empty, and neither is the leading run when the text starts with whitespace |
| PyStr.TokenizeTokens | milvus_utils.py:27 | every piece of `split()` is a non-empty run of non-whitespace characters |
| PyStr.TokenizeKeepsText | milvus_utils.py:88 | concatenating the tokens of `split()` gives back the text with its whitespace removed, so no character is lost or invented |
| PyStr.TokenizeJoin | milvus_utils.py:88 | tokens joined by single spaces and split again come back unchanged (round trip) |
| PyStr.TokenizeWord | milvus_utils.py:88 | a single token is its own `split()` |
| PyStr.TokenizeSkipsBlank | milvus_utils.py:88 | a leading blank does not change `split()` |
| MilvusUtils.RrfScore | milvus_utils.py:96-99 | `1 / (60 + rank)` is positive and at most 1/61 for a 1-based rank |
| MilvusUtils.RrfScoreExamples | milvus_utils.py:96-104 | the first hit scores 1/61 and the fifth 1/65 |
| MilvusUtils.RrfScoreDecreasing | milvus_utils.py:98-99 | a later rank always scores strictly less |
| MilvusUtils.AddHitList | milvus_utils.py:102-105 | the inner loop adds `rrf_score(rank + 1)` to each hit's id in the dict; the result is the accumulation of those additions after what came before |
| MilvusUtils.AddBm25Scores | milvus_utils.py:108-111 | the BM25 loop adds the i-th score to the i-th paragraph's id; it raises IndexError exactly when there are more scores than paragraphs |
| MilvusUtils.SearchHybridInMilvus | milvus_utils.py:81-116 | the whole routine returns `HybridRanking` of the hit lists and `get_scores(query.split())`, and raises exactly when the scores outnumber the paragraphs |
| PyDict.Dict.Get | milvus_utils.py:103 | definition of `d.get(k, default)`: the stored value, or the default for a missing key |
| PyDict.Dict.Set | milvus_utils.py:103 | item assignment `d[k] = v` maps k to v; a key already present keeps its place in the order, a new one goes last |
| PyDict.Dict.Items | milvus_utils.py:113-114 | `items()` lists the keys in insertion order, each paired with its value |
| PyDict.Accumulate | milvus_utils.py:95-111 | definition: the dict that `d[k] = d.get(k, 0) + s` builds from an empty dict over a list of additions; it stays well-formed |
| PyDict.AccumulateStep | milvus_utils.py:103-104 | one `d[id] = d.get(id, 0) + s` extends the accumulated dict by that addition |
| PyDict.AccumulateValue | milvus_utils.py:103-111 | an accumulated key holds the sum of every addition made to it |
| PyDict.AccumulateKeys | milvus_utils.py:103-111 | the dict's keys are exactly the ids that received an addition |
| PyDict.AccumulateOrder | milvus_utils.py:103-114 | `items()` lists keys in the order of their first addition |
| MilvusUtils.HitSum | milvus_utils.py:102-105 | an id gains, from one hit list, the RRF scores of the ranks where it appears |
| MilvusUtils.VectorSum | milvus_utils.py:101-105 | an id's vector total is the sum of its per-list RRF terms over all hit lists |
| MilvusUtils.Bm25Sum | milvus_utils.py:109-111 | an id's lexical total is the sum of the BM25 scores of the paragraphs carrying that id |
| MilvusUtils.CombinedKeys | milvus_utils.py:95-111 | the fused dict holds exactly the ids that are a vector hit or a scored paragraph, in order of first appearance, vector hits first |
| MilvusUtils.CombinedScore | milvus_utils.py:95-111 | each fused score is the id's RRF total plus its BM25 total |
| MilvusUtils.HitContributions | milvus_utils.py:102-105 | definition: the additions one hit list makes, `(hit.id, rrf_score(rank + 1))` in rank order, one per hit |
| MilvusUtils.VectorContributions | milvus_utils.py:101-105 | definition: the outer loop's additions, each hit list's `HitContributions` after those of the lists before it |
| MilvusUtils.Bm25Contributions | milvus_utils.py:108-111 | definition: the additions of the BM25 loop, `(paragraphs[i]["neo4j_id"], score_i)` in score order, one per score |
| MilvusUtils.CombinedResults | milvus_utils.py:95-111 | definition: `combined_results` after both loops, the accumulation of the vector additions followed by the BM25 additions, a well-formed dict |
| MilvusUtils.HybridRanking | milvus_utils.py:108-116 | definition: IndexError when the scores outnumber the paragraphs, otherwise the descending stable sort of the fused items cut by the slice `[:limit]` |
| MilvusUtils.Take | milvus_utils.py:116 | `s[:limit]` is a prefix of length `min(limit, len)`, or `len + limit` floored at 0 for a negative limit |
| MilvusUtils.RankingSorted | milvus_utils.py:113-116 | the result is in non-increasing score order |
| MilvusUtils.RankingLength | milvus_utils.py:113-116 | the result has `min(limit, n)` entries, where n is the number of distinct candidate ids (slice rule for negative limits) |
| MilvusUtils.RankingEntries | milvus_utils.py:113-116 | each result entry is an (id, fused score) pair of the dict, and no id appears twice |
| MilvusUtils.RankingTopK | milvus_utils.py:113-116 | every dict entry left out of the result scores no higher than every entry kept |
| MilvusUtils.RankingTies | milvus_utils.py:113-116 | entries with equal scores keep their dict (first-seen) order in the result |
| StableSort.SortDesc | milvus_utils.py:113-115 | `sorted(..., reverse=True)` returns a permutation (equal multisets) in non-increasing score order |
| StableSort.SortDescStable | milvus_utils.py:113-115 | for every score, the entries with that score come out in the order they went in |
| StableSort.SortDescDistinct | milvus_utils.py:113-115 | sorting keeps distinct ids distinct |
| StableSort.SortDescMembers | milvus_utils.py:113-115 | an entry is in the sorted list exactly when it is in the input |
| StableSort.SortDescLength | milvus_utils.py:113-115 | sorting keeps the length |
| Neo4jUtils.Paragraphs | neo4j_utils.py:13-21 | definition of `chunk_text_by_paragraph`'s result: the kept lines of every `"\n\n"` section's `split("\n")`, in order |
| Neo4jUtils.SectionLines | neo4j_utils.py:16-17 | definition: each section's `split("\n")`, section after section |
| Neo4jUtils.Kept | neo4j_utils.py:19-20 | definition: the stripped line when its `strip()` is non-empty, else nothing |
| Neo4jUtils.Keep | neo4j_utils.py:18-20 | definition: the stripped forms of the lines whose `strip()` is non-empty, in order; never more than there are lines |
| Neo4jUtils.ChunkTextByParagraph | neo4j_utils.py:13-21 | the nested loops return the stripped, non-blank lines of every `"\n\n"` section's `split("\n")`, in order (`Paragraphs`) |
| Neo4jUtils.AppendSectionParagraphs | neo4j_utils.py:17-20 | the inner loop appends the kept, stripped lines of one section |
| Neo4jUtils.ParagraphsByLine | neo4j_utils.py:14-20 | splitting on `"\n\n"` first makes no difference: the paragraphs are the stripped non-blank lines of the whole text |
| Neo4jUtils.ParagraphShape | neo4j_utils.py:17-20 | every paragraph is non-empty, has no surrounding whitespace and no newline |
| Neo4jUtils.ParagraphsBlank | neo4j_utils.py:19 | the text has no paragraphs exactly when it is all whitespace |
| Neo4jUtils.ParagraphsOfJoin | neo4j_utils.py:13-21 | lines that are non-empty, stripped and newline-free, joined by newlines, chunk back to themselves (round trip) |
| Neo4jUtils.ParagraphsIdempotent | neo4j_utils.py:13-21 | chunking the newline-joined paragraphs of a text gives the same paragraphs again |
| Neo4jUtils.KeepOfJoinedSections | neo4j_utils.py:14-20 | the kept lines of a `"\n\n"` join are the kept lines of its sections, section by section |
| PyStr.IsSpace | neo4j_utils.py:19 | definition of `str.isspace` for one character: Python's whitespace set (ASCII controls 9-13 and 28-31, space, U+0085, U+00A0, U+1680, U+2000-U+200A, U+2028, U+2029, U+202F, U+205F, U+3000) |
| PyStr.Strip | neo4j_utils.py:19-20 | `strip()` returns a string with no whitespace at either end |
| PyStr.Split | neo4j_utils.py:14-17 | definition of `split(sep)`: the pieces between successive leftmost occurrences of sep; there is always at least one piece |
| PyStr.Join | neo4j_utils.py:14 | definition of `sep.join(parts)`, the inverse of `split(sep)` as `JoinSplit` states |
| PyStr.StripSlice | neo4j_utils.py:19-20 | `strip()` returns a contiguous piece of its input with only whitespace cut from either side |
| PyStr.StripBlank | neo4j_utils.py:19 | `strip()` is empty exactly when the string is all whitespace |
| PyStr.StripStripped | neo4j_utils.py:20 | `strip()` leaves an already stripped string unchanged, so stripping twice is stripping once |
| PyStr.StripKeepsCharacters | neo4j_utils.py:20 | `strip()` introduces no character that was not there |
| PyStr.JoinSplit | neo4j_utils.py:14 | joining `s.split(sep)` with sep gives s back |
| PyStr.SplitPiecesApart | neo4j_utils.py:14-17 | no piece of `s.split(sep)` contains sep |
| PyStr.SplitJoinChar | neo4j_utils.py:17 | splitting a join on a one-character separator that no part contains gives the parts back |
| PyStr.SplitAround | neo4j_utils.py:17 | `split(c)` of `a + c + b` is `split(c)` of a followed by `split(c)` of b |
| Neo4jUtils.ParagraphId | neo4j_utils.py:43 | definition of the id `f"{url}_para_{i+1}"` |
| Neo4jUtils.ParagraphRecords | neo4j_utils.py:40-49 | the paragraph loop creates two records per paragraph: its node, then the link from the page to it |
| Neo4jUtils.EntryRecords | neo4j_utils.py:28-49 | definition: what one entry creates, its Page node followed by the paragraph records of its chunked content under one timestamp |
| Neo4jUtils.SaveRecords | neo4j_utils.py:27-53 | definition: what `save_to_neo4j` creates for the whole list, each entry's records after those of the entries before it |
| Neo4jUtils.Graph.Create | neo4j_utils.py:37 | `graph.create` appends exactly one record and returns its position |
| Neo4jUtils.CreateParagraphs | neo4j_utils.py:40-49 | the paragraph loop appends, for paragraph i, its node then its HAS_PARAGRAPH link from the page |
| Neo4jUtils.SaveEntry | neo4j_utils.py:28-49 | one entry appends its Page node, then each paragraph's node and link, all with one timestamp |
| Neo4jUtils.SaveToNeo4j | neo4j_utils.py:24-53 | the graph grows by exactly `SaveRecords` of the data, entry after entry; nothing before is changed |
| Neo4jUtils.SaveRecordsPrefix | neo4j_utils.py:27 | entries are written in input order: the records of the first e entries open the records of the whole list |
| Neo4jUtils.EntryRecordsShape | neo4j_utils.py:36-49 | an entry's records are its page node followed by, for each paragraph i, the node with id `url_para_{i+1}` and its link |
| Neo4jUtils.ParagraphRecordsShape | neo4j_utils.py:40-49 | the paragraph i's node lies at offset 2i and points back to the page at offset 2i+1 |
| Neo4jUtils.ParagraphIdInjective | neo4j_utils.py:43 | two paragraphs of one page never get the same id |
| Neo4jUtils.EntryWithoutParagraphs | neo4j_utils.py:52-53 | an entry creates only its Page node exactly when its content is all whitespace, the case the warning reports |
| Neo4jUtils.EntryPosition | neo4j_utils.py:47-49 | in an entry's records every link sits right after the paragraph node it points to |
| Neo4jUtils.EntryLinks | neo4j_utils.py:48-49 | appending an entry's records keeps every link pointing back to a Page node and to the node just before it |
| Neo4jUtils.SaveLinksWellFormed | neo4j_utils.py:24-53 | after saving, every new HAS_PARAGRAPH link joins a Page node to the Paragraph node just before it |
| PyStr.NatToString | neo4j_utils.py:43 | `str(n)` for a natural number is a non-empty string of decimal digits without a leading zero |
| PyStr.NatToStringRoundTrip | neo4j_utils.py:43 | the decimal text of `i+1` reads back as `i+1` |
| PyStr.NatToStringInjective | neo4j_utils.py:43 | distinct numbers have distinct decimal texts |
| GetData.GetWikipediaTitle | data/get_data.py:23-25 | `url.split("/wiki/")[1]` raises only IndexError, and a title never contains `/wiki/` |
| GetData.TitleFailsWithoutMarker | data/get_data.py:25 | the title lookup raises exactly when the URL has no `/wiki/` |
| GetData.TitleAfterFirstMarker | data/get_data.py:25 | the title is the text after the first `/wiki/`, up to the next one or the end; no `/wiki/` starts inside the title |
| GetData.WikipediaUrlTitle | data/get_data.py:25 | for `https://en.wikipedia.org/wiki/` + t with no `/` in t, the title is t |
| GetData.GenghisKhanTitle | data/get_data.py:45-46 | the script's first URL gives the title `Genghis_Khan` |
| GetData.FetchArticle | data/get_data.py:31-33 | definition of one iteration: the title lookup, then the page request under that title, then the record `{title: page title, url, content}`; the first exception raised is passed on |
| GetData.Extracted | data/get_data.py:28-35 | definition of `extract_text_from_urls`'s outcome: the records of the URLs in order, or the exception of the first URL that fails |
| GetData.ExtractTextFromUrls | data/get_data.py:28-35 | the loop returns `Extracted` of the URLs: the records in URL order, or the first exception raised |
| GetData.ExtractedSucceeds | data/get_data.py:28-35 | the extraction succeeds exactly when every URL yields a title and a page |
| GetData.ExtractedRecords | data/get_data.py:30-33 | a successful extraction has one record per URL, in order, holding that URL and the title and text fetched under the URL's title |
| GetData.ExtractedFirstFailure | data/get_data.py:30-32 | a failing extraction raises the exception of the first URL that fails |
| GetData.ExtractedRaisePersists | data/get_data.py:30-32 | once a URL has raised, later URLs change nothing |

## Left out

- The Milvus client: connecting, collection setup, inserts, the vector search and the
  L2 metric. The search's answer is a parameter, the list of hit lists. Only the
  hits' ids are modelled.
- The SentenceTransformer embedding, and the BM25Okapi scoring formula. `bm25.get_scores`
  is a function parameter, so the model holds for any scorer.
- The `BM25Okapi` constructor (milvus_utils.py:28), including its failure on an empty
  corpus: the model stops at the token lists the constructor receives
  (`TokenizedParagraphs`).
- The vector search's own checks on its arguments (milvus_utils.py:91-93), such as a
  rejected non-positive `limit`: the search's answer is a parameter, and only the
  slice `[:limit]` is modelled.
- Floating point: scores are exact reals, so `1 / (60 + rank)` and the sums have no
  rounding. Ties that rounding would create or break are not modelled.
- `datetime.now().isoformat()` is a parameter `clock` indexed by entry: every entry
  gets one timestamp, and successive calls are not assumed to differ.
- The py2neo node and relationship objects: the graph is an append-only log, and a
  relationship records its page and paragraph by log position. Neo4j's own ids and
  labels are not modelled.
- The Wikipedia HTTP request (`get_wikipedia_content`, data/get_data.py:7-20) is a
  function parameter that returns the page's title and extract or raises. The JSON
  shape of the answer is not modelled.
- All `print` output, `save_to_json`, and the module-level script list and calls
  (data/get_data.py:44-60), apart from its first URL in `GenghisKhanTitle`.
- `connect_to_neo4j`, `fetch_paragraphs_from_neo4j`, `delete_all_data_from_neo4j`,
  `connect_to_milvus`, `vectorize_paragraphs`, `save_vectors_to_milvus`,
  `search_vectors_in_milvus`, `fetch_paragraphs_from_milvus`, `delete_collections_from_milvus`
  and main.py are outside this model: they only move data between the services.
- Dictionary entries of `paragraphs[rank]["neo4j_id"]` are modelled as a sequence of
  ids. A paragraph record without that key (KeyError) is not modelled.
- Each element of `save_to_neo4j`'s data is a `Neo4jUtils.Entry` record with its url, title and
  content. An entry dict without one of those keys (the KeyError at
  `entry["url"]`, `entry["title"]` or `entry["content"]`, neo4j_utils.py:28-30) is not
  modelled.
- Ids are integers. Python's hashing, equality across numeric types, and the `hit.id`
  attribute access are not modelled.
