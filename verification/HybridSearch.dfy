/**
 * Hybrid search: reranking the retrieved documents (retrieval/utils.py:1275-1324), cutting them to
 * `k` (:285-309) and merging the pages of all queries (:533).
 *
 * The cut zips (distance, metadata, document) and unpacks into distances, documents, metadatas, so
 * whenever it runs the two columns come out exchanged, and the merge then drops every row because
 * its "document" is no text.
 */
module HybridSearch {
  import opened Basics
  import opened StableSort
  import opened MergeResults
  import opened MergeCompose

  // ----- reranking ----------------------------------------------------------------------------

  /** The first `n` retrieved documents with their scores, those below a non-zero threshold dropped. */
  function Passing(documents: seq<Found>, scores: seq<real>, threshold: real, n: nat): seq<Hit>
    requires n <= |documents| && n <= |scores|
  {
    if n == 0 then []
    else Passing(documents, scores, threshold, n - 1) +
         if threshold == 0.0 || scores[n - 1] >= threshold then [Scored(scores[n - 1], documents[n - 1])] else []
  }

  method CompressDocuments(documents: seq<Found>, scores: seq<real>, threshold: real, topN: int)
    returns (final: seq<Hit>)
    ensures
      var passing := Passing(documents, scores, threshold, Min(|documents|, |scores|));
      final == SortDescending(passing)[..PrefixLength(topN, |passing|)]
  {
    var scored: seq<Hit> := [];
    var n := Min(|documents|, |scores|);
    for i := 0 to n
      invariant scored == Passing(documents, scores, threshold, i)
    {
      if threshold == 0.0 || scores[i] >= threshold {
        scored := scored + [Scored(scores[i], documents[i])];
      }
    }
    var result := SortDescending(scored);
    var kept := PrefixLength(topN, |result|);
    final := [];
    for i := 0 to kept
      invariant final == result[..i]
    {
      final := final + [Scored(result[i].score, Found(result[i].item.document, result[i].item.metadata))];
    }
  }

  lemma {:induction false} PassingIsFiltered(documents: seq<Found>, scores: seq<real>, threshold: real, n: nat, h: Hit)
    requires n <= |documents| && n <= |scores|
    ensures h in Passing(documents, scores, threshold, n) <==>
            exists i :: 0 <= i < n && h == Scored(scores[i], documents[i])
                        && (threshold == 0.0 || scores[i] >= threshold)
  {
    if n > 0 {
      PassingIsFiltered(documents, scores, threshold, n - 1, h);
    }
  }

  predicate Passes(scores: seq<real>, threshold: real, i: nat)
    requires i < |scores|
  {
    threshold == 0.0 || scores[i] >= threshold
  }

  /** These positions, in order, are those below `n` that pass. */
  ghost predicate PassAt(scores: seq<real>, threshold: real, n: nat, p: seq<nat>)
    requires n <= |scores|
  {
    && (forall j, k :: 0 <= j < k < |p| ==> p[j] < p[k])
    && (forall i: nat :: i in p <==> i < n && Passes(scores, threshold, i))
  }

  ghost predicate ReadsAt(documents: seq<Found>, scores: seq<real>, hits: seq<Hit>, p: seq<nat>) {
    && |hits| == |p|
    && (forall j :: 0 <= j < |p| ==>
          p[j] < |documents| && p[j] < |scores| && hits[j] == Scored(scores[p[j]], documents[p[j]]))
  }

  /** What passes is the documents at the passing positions, once each and in the order retrieved. */
  lemma {:induction false} PassingInOrder(documents: seq<Found>, scores: seq<real>, threshold: real, n: nat)
    returns (p: seq<nat>)
    requires n <= |documents| && n <= |scores|
    ensures PassAt(scores, threshold, n, p) && ReadsAt(documents, scores, Passing(documents, scores, threshold, n), p)
  {
    p := [];
    if n > 0 {
      p := PassingInOrder(documents, scores, threshold, n - 1);
      if Passes(scores, threshold, n - 1) {
        PassMore(scores, threshold, n - 1, p);
        p := p + [n - 1];
      } else {
        assert Passing(documents, scores, threshold, n) == Passing(documents, scores, threshold, n - 1);
      }
    }
  }

  lemma PassMore(scores: seq<real>, threshold: real, n: nat, p: seq<nat>)
    requires n < |scores| && PassAt(scores, threshold, n, p) && Passes(scores, threshold, n)
    ensures PassAt(scores, threshold, n + 1, p + [n])
  {
    forall j | 0 <= j < |p| ensures p[j] < n {
      assert p[j] in p;
    }
    forall i: nat ensures i in p + [n] <==> i in p || i == n {
    }
  }

  /**
   * What reranking returns: documents that pass the threshold, best first, and none of those it
   * cut scores better than one it returned.
   */
  lemma CompressedAreBest(documents: seq<Found>, scores: seq<real>, threshold: real, topN: int, i: nat)
    requires i < PrefixLength(topN, |Passing(documents, scores, threshold, Min(|documents|, |scores|))|)
    ensures
      var passing := Passing(documents, scores, threshold, Min(|documents|, |scores|));
      var sorted := SortDescending(passing);
      && sorted[i] in passing
      && (threshold == 0.0 || sorted[i].score >= threshold)
      && (forall h :: h in passing && h !in sorted[..PrefixLength(topN, |passing|)] ==> h.score <= sorted[i].score)
  {
    var n := Min(|documents|, |scores|);
    var passing := Passing(documents, scores, threshold, n);
    var sorted := SortDescending(passing);
    var p := SortIsStable(passing);
    assert sorted[i] == passing[p[i]];
    PassingIsFiltered(documents, scores, threshold, n, sorted[i]);
    var kept := sorted[..PrefixLength(topN, |passing|)];
    forall h | h in passing && h !in kept ensures h.score <= sorted[i].score {
      var m :| 0 <= m < |passing| && passing[m] == h;
      assert m in p;
      var j: nat :| j < |p| && p[j] == m;
      assert sorted[j] == h;
      assert kept == sorted[..|kept|] && j >= |kept|;
    }
  }

  // ----- the page of one query ----------------------------------------------------------------

  function CutHits(found: seq<Hit>, k: int): seq<Hit> {
    SortDescending(found)[..PrefixLength(k, |found|)]
  }

  lemma InCut(s: seq<Hit>, n: nat, j: nat)
    requires j < |s| && n <= |s|
    ensures j < n ==> s[j] in s[..n]
  {
  }

  /** The cut keeps the first of the hits read in stable descending order, and none it drops scores higher. */
  lemma CutHitsAreBest(found: seq<Hit>, k: int) returns (p: seq<nat>)
    ensures IsStableOrder(found, p) && Reads(found, p[..PrefixLength(k, |p|)], CutHits(found, k))
    ensures forall i, h :: 0 <= i < |CutHits(found, k)| && h in found && h !in CutHits(found, k) ==>
      h.score <= CutHits(found, k)[i].score
  {
    p := SortIsStable(found);
    var kept := CutHits(found, k);
    forall i, h | 0 <= i < |kept| && h in found && h !in kept ensures h.score <= kept[i].score {
      var m: nat :| m < |found| && found[m] == h;
      assert m in p;
      var j: nat :| j < |p| && p[j] == m;
      assert SortDescending(found)[j] == h && SortDescending(found)[i] == found[p[i]];
      InCut(SortDescending(found), |kept|, j);
    }
  }

  /** The result with its document and metadata columns exchanged. */
  function Exchanged(hits: seq<Hit>): QueryResult {
    var c := Columns(hits);
    QueryResult(c.distances, c.metadatas, c.documents)
  }

  /** Exchanging them back gives the hits. */
  lemma ExchangedBack(hits: seq<Hit>)
    ensures var e := Exchanged(hits); HitsOf(QueryResult(e.distances, e.metadatas, e.documents)) == hits
  {
    ColumnsRoundTrip(hits);
  }

  /** The page of one query. */
  function PageOf(found: seq<Hit>, k: int, kReranker: int): QueryResult {
    if k < kReranker then Exchanged(CutHits(found, k)) else Columns(found)
  }

  method HybridPage(found: seq<Hit>, k: int, kReranker: int) returns (page: QueryResult)
    ensures page == PageOf(found, k, kReranker)
  {
    var distances := seq(|found|, i requires 0 <= i < |found| => found[i].score);
    var documents := seq(|found|, i requires 0 <= i < |found| => Text(found[i].item.document));
    var metadatas := seq(|found|, i requires 0 <= i < |found| => found[i].item.metadata);
    if k < kReranker {
      var sorted := SortDescending(found)[..PrefixLength(k, |found|)];
      distances := seq(|sorted|, i requires 0 <= i < |sorted| => sorted[i].score);
      documents := seq(|sorted|, i requires 0 <= i < |sorted| => sorted[i].item.metadata);
      metadatas := seq(|sorted|, i requires 0 <= i < |sorted| => Text(sorted[i].item.document));
    }
    page := QueryResult([distances], [documents], [metadatas]);
    ghost var intended := Columns(if k < kReranker then CutHits(found, k) else found);
    assert distances == intended.distances[0];
    assert documents == if k < kReranker then intended.metadatas[0] else intended.documents[0];
    assert metadatas == if k < kReranker then intended.documents[0] else intended.metadatas[0];
  }

  /** Retrieved documents carry dictionaries as metadata, never text. */
  ghost predicate HasRecords(found: seq<Hit>) {
    forall i :: 0 <= i < |found| ==> found[i].item.metadata.Record?
  }

  lemma {:induction false} NoTextNoRows(ds: seq<real>, docs: seq<Cell>, metas: seq<Cell>, n: nat)
    requires n <= |ds| && n <= |docs| && n <= |metas|
    requires forall i :: 0 <= i < n ==> !docs[i].Text?
    ensures Rows(ds, docs, metas, n) == []
  {
    if n > 0 {
      NoTextNoRows(ds, docs, metas, n - 1);
    }
  }

  /** A cut page contributes nothing to the merge, whatever it found. */
  lemma CutPageIsLost(found: seq<Hit>, k: int)
    requires HasRecords(found)
    ensures HitsOf(Exchanged(CutHits(found, k))) == []
  {
    var cut := CutHits(found, k);
    var p := SortIsStable(found);
    assert forall i :: 0 <= i < |cut| ==> cut[i] == found[p[i]];
    var page := Exchanged(cut);
    NoTextNoRows(page.distances[0], page.documents[0], page.metadatas[0], |cut|);
  }

  function Pages(founds: seq<seq<Hit>>, k: int, kReranker: int): seq<QueryResult> {
    seq(|founds|, i requires 0 <= i < |founds| => PageOf(founds[i], k, kReranker))
  }

  function Flatten<T>(parts: seq<seq<T>>): seq<T> {
    if parts == [] then [] else Flatten(parts[..|parts| - 1]) + parts[|parts| - 1]
  }

  lemma {:induction false} PagesHits(founds: seq<seq<Hit>>, k: int, kReranker: int)
    requires forall i :: 0 <= i < |founds| ==> HasRecords(founds[i])
    ensures AllHits(Pages(founds, k, kReranker)) == if k < kReranker then [] else Flatten(founds)
  {
    if founds != [] {
      var front, last := founds[..|founds| - 1], founds[|founds| - 1];
      PagesHits(front, k, kReranker);
      assert Pages(founds, k, kReranker)[..|front|] == Pages(front, k, kReranker);
      CutPageIsLost(last, k);
      ColumnsRoundTrip(last);
    }
  }

  /** What a page is meant to hold: the best `k` of the hits found, or all of them. */
  function IntendedHits(found: seq<Hit>, k: int, kReranker: int): seq<Hit> {
    if k < kReranker then CutHits(found, k) else found
  }

  function IntendedPages(founds: seq<seq<Hit>>, k: int, kReranker: int): seq<seq<Hit>> {
    seq(|founds|, i requires 0 <= i < |founds| => IntendedHits(founds[i], k, kReranker))
  }

  lemma IntendedWithoutCut(founds: seq<seq<Hit>>, k: int, kReranker: int)
    requires kReranker <= k
    ensures IntendedPages(founds, k, kReranker) == founds
  {
  }

  lemma NothingMerged(k: int)
    ensures Columns(MergedHits([], k)) == QueryResult([[]], [[]], [[]])
  {
    var empty: seq<Hit> := [];
    assert MergedHits(empty, k) == empty;
    var c := Columns(empty);
    assert c.distances[0] == [] && c.documents[0] == [] && c.metadatas[0] == [];
  }

  /**
   * A hybrid search over any queries hands the merge the best `k` hits of each page, as it is meant
   * to, exactly when `k` is not below `k_reranker` or those pages are empty anyway; below it the merged
   * result is empty whatever was found.
   */
  lemma HybridSearchKeepsHits(founds: seq<seq<Hit>>, k: int, kReranker: int)
    requires forall i :: 0 <= i < |founds| ==> HasRecords(founds[i])
    ensures var intended := Flatten(IntendedPages(founds, k, kReranker));
      AllHits(Pages(founds, k, kReranker)) == intended <==> kReranker <= k || intended == []
    ensures k < kReranker ==> Merged(Pages(founds, k, kReranker), k) == QueryResult([[]], [[]], [[]])
  {
    PagesHits(founds, k, kReranker);
    if k < kReranker {
      NothingMerged(k);
    } else {
      IntendedWithoutCut(founds, k, kReranker);
    }
  }

  /** The pages meant are empty exactly when nothing was found or the cut keeps nothing. */
  lemma {:induction false} IntendedIsEmptyIff(founds: seq<seq<Hit>>, k: int, kReranker: int)
    ensures Flatten(IntendedPages(founds, k, kReranker)) == [] <==>
      forall i :: 0 <= i < |founds| ==> founds[i] == [] || (k < kReranker && (k == 0 || |founds[i]| + k <= 0))
  {
    var pages := IntendedPages(founds, k, kReranker);
    if founds != [] {
      var n := |founds| - 1;
      IntendedIsEmptyIff(founds[..n], k, kReranker);
      assert pages[..n] == IntendedPages(founds[..n], k, kReranker);
      assert pages[n] == IntendedHits(founds[n], k, kReranker);
      assert Flatten(pages) == Flatten(pages[..n]) + pages[n];
      assert forall i :: 0 <= i < n ==> founds[..n][i] == founds[i];
    }
  }
}
