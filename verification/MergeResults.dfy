/**
 * Merging the scored hits of many queries (backend/open_webui/retrieval/utils.py:339-383):
 * one entry per document, its best score, a stable descending sort, the top `k`.
 */
module MergeResults {
  import opened Basics
  import opened StableSort

  /** A column entry: only text counts as a document. */
  datatype Cell = Text(text: string) | Record(fields: map<string, string>) | Null

  datatype Found = Found(document: string, metadata: Cell)

  type Hit = Scored<Found>

  /** What a query returns: three columns, each wrapped in a list that may be empty. */
  datatype QueryResult = QueryResult(
    distances: seq<seq<real>>, documents: seq<seq<Cell>>, metadatas: seq<seq<Cell>>)

  function Doc(h: Hit): string { h.item.document }

  // ----- the hits a list of results contributes ---------------------------------------------

  /** The first `n` rows of the zipped columns, rows without a text document skipped. */
  function Rows(ds: seq<real>, docs: seq<Cell>, metas: seq<Cell>, n: nat): seq<Hit>
    requires n <= |ds| && n <= |docs| && n <= |metas|
  {
    if n == 0 then []
    else Rows(ds, docs, metas, n - 1) +
         if docs[n - 1].Text? then [Scored(ds[n - 1], Found(docs[n - 1].text, metas[n - 1]))] else []
  }

  function ZipLength(ds: seq<real>, docs: seq<Cell>, metas: seq<Cell>): (n: nat)
    ensures n <= |ds| && n <= |docs| && n <= |metas|
  {
    Min(|ds|, Min(|docs|, |metas|))
  }

  function HitsOf(data: QueryResult): seq<Hit> {
    if data.distances == [] || data.documents == [] || data.metadatas == [] then []
    else
      var ds, docs, metas := data.distances[0], data.documents[0], data.metadatas[0];
      Rows(ds, docs, metas, ZipLength(ds, docs, metas))
  }

  function AllHits(results: seq<QueryResult>): seq<Hit> {
    if results == [] then [] else AllHits(results[..|results| - 1]) + HitsOf(results[|results| - 1])
  }

  /** The three columns of a list of hits, as one result. */
  function Columns(hits: seq<Hit>): QueryResult {
    QueryResult(
      [seq(|hits|, i requires 0 <= i < |hits| => hits[i].score)],
      [seq(|hits|, i requires 0 <= i < |hits| => Text(Doc(hits[i])))],
      [seq(|hits|, i requires 0 <= i < |hits| => hits[i].item.metadata)])
  }

  /** A hit is a row whose document is text; rows past the shortest column do not count. */
  lemma {:induction false} RowsAre(ds: seq<real>, docs: seq<Cell>, metas: seq<Cell>, n: nat, h: Hit)
    requires n <= |ds| && n <= |docs| && n <= |metas|
    ensures h in Rows(ds, docs, metas, n) <==>
      exists i :: 0 <= i < n && docs[i] == Text(Doc(h)) && h == Scored(ds[i], Found(Doc(h), metas[i]))
  {
    if n > 0 {
      RowsAre(ds, docs, metas, n - 1, h);
    }
  }

  lemma HitsAre(ds: seq<real>, docs: seq<Cell>, metas: seq<Cell>, h: Hit)
    ensures h in HitsOf(QueryResult([ds], [docs], [metas])) <==>
      exists i :: 0 <= i < |ds| && i < |docs| && i < |metas| && docs[i] == Text(Doc(h))
                  && h == Scored(ds[i], Found(Doc(h), metas[i]))
  {
    RowsAre(ds, docs, metas, ZipLength(ds, docs, metas), h);
  }

  // ----- what a merge is --------------------------------------------------------------------

  /** The position where a document first appears, or the length if it does not. */
  function FirstAt(hits: seq<Hit>, doc: string): (f: nat)
    ensures f <= |hits|
    ensures f < |hits| ==> Doc(hits[f]) == doc
    ensures forall i :: 0 <= i < f ==> Doc(hits[i]) != doc
  {
    if hits == [] then 0
    else
      var f := FirstAt(hits[..|hits| - 1], doc);
      if f == |hits| - 1 && Doc(hits[f]) != doc then |hits| else f
  }

  /** `b` is the earliest occurrence reaching its document's best score. */
  ghost predicate IsBest(hits: seq<Hit>, b: nat) {
    && b < |hits|
    && (forall i :: 0 <= i < |hits| && Doc(hits[i]) == Doc(hits[b]) ==> hits[i].score <= hits[b].score)
    && (forall i :: 0 <= i < b && Doc(hits[i]) == Doc(hits[b]) ==> hits[i].score < hits[b].score)
  }

  ghost predicate BestHit(hits: seq<Hit>, h: Hit) {
    exists b: nat :: IsBest(hits, b) && hits[b] == h
  }

  /** The output order: higher score first, ties by first appearance. */
  ghost predicate Precedes(hits: seq<Hit>, a: Hit, b: Hit) {
    a.score > b.score || (a.score == b.score && FirstAt(hits, Doc(a)) < FirstAt(hits, Doc(b)))
  }

  ghost function Documents(hits: seq<Hit>): set<string> { set i | 0 <= i < |hits| :: Doc(hits[i]) }

  ghost predicate AllBest(hits: seq<Hit>, acc: seq<Hit>) {
    forall i :: 0 <= i < |acc| ==> BestHit(hits, acc[i])
  }

  /** Every two entries stand in output order. */
  ghost predicate InOutputOrder(hits: seq<Hit>, out: seq<Hit>) {
    forall i, j :: 0 <= i < j < |out| ==> Precedes(hits, out[i], out[j])
  }

  /** No document left out comes before one that was kept. */
  ghost predicate BeatsOmitted(hits: seq<Hit>, out: seq<Hit>) {
    forall i, h :: 0 <= i < |out| && BestHit(hits, h) && Doc(h) !in Documents(out) ==> Precedes(hits, out[i], h)
  }

  /** The full specification of the merged list. */
  ghost predicate IsMerge(hits: seq<Hit>, k: int, out: seq<Hit>) {
    && |out| == PrefixLength(k, |Documents(hits)|)
    && AllBest(hits, out)
    && InOutputOrder(hits, out)
    && BeatsOmitted(hits, out)
  }

  // ----- the dictionary ---------------------------------------------------------------------

  /** One dictionary update, on the values in insertion order. */
  function Upsert(acc: seq<Hit>, h: Hit): seq<Hit> {
    var f := FirstAt(acc, Doc(h));
    if f == |acc| then acc + [h]
    else if h.score > acc[f].score then acc[f := h]
    else acc
  }

  function Combine(hits: seq<Hit>): seq<Hit> {
    if hits == [] then [] else Upsert(Combine(hits[..|hits| - 1]), hits[|hits| - 1])
  }

  function MergedHits(hits: seq<Hit>, k: int): seq<Hit> {
    var sorted := SortDescending(Combine(hits));
    sorted[..PrefixLength(k, |sorted|)]
  }

  /** A dictionary, with its keys in insertion order, after the hits seen so far. */
  ghost predicate Holds(combined: map<string, Hit>, order: seq<string>, acc: seq<Hit>) {
    && |order| == |acc|
    && NoRepeats(order)
    && (forall d :: d in combined <==> d in order)
    && (forall i :: 0 <= i < |acc| ==> Doc(acc[i]) == order[i] && order[i] in combined && combined[order[i]] == acc[i])
  }

  lemma UpsertHolds(combined: map<string, Hit>, order: seq<string>, seen: seq<Hit>, h: Hit)
    requires Holds(combined, order, Combine(seen))
    ensures Doc(h) !in combined ==> Holds(combined[Doc(h) := h], order + [Doc(h)], Combine(seen + [h]))
    ensures Doc(h) in combined ==>
              Holds(if h.score > combined[Doc(h)].score then combined[Doc(h) := h] else combined,
                    order, Combine(seen + [h]))
  {
    assert (seen + [h])[..|seen|] == seen;
    if Doc(h) in combined {
      UpdateHolds(combined, order, Combine(seen), h);
    } else {
      AppendHolds(combined, order, Combine(seen), h);
    }
  }

  lemma UpdateHolds(combined: map<string, Hit>, order: seq<string>, acc: seq<Hit>, h: Hit)
    requires Holds(combined, order, acc) && Doc(h) in combined
    ensures Holds(if h.score > combined[Doc(h)].score then combined[Doc(h) := h] else combined, order, Upsert(acc, h))
  {
  }

  lemma AppendHolds(combined: map<string, Hit>, order: seq<string>, acc: seq<Hit>, h: Hit)
    requires Holds(combined, order, acc) && Doc(h) !in combined
    ensures Holds(combined[Doc(h) := h], order + [Doc(h)], Upsert(acc, h))
  {
  }

  lemma RowStep(ds: seq<real>, docs: seq<Cell>, metas: seq<Cell>, n: nat, before: seq<Hit>)
    requires n < |ds| && n < |docs| && n < |metas|
    ensures docs[n].Text? ==>
      before + Rows(ds, docs, metas, n + 1)
        == before + Rows(ds, docs, metas, n) + [Scored(ds[n], Found(docs[n].text, metas[n]))]
    ensures !docs[n].Text? ==> Rows(ds, docs, metas, n + 1) == Rows(ds, docs, metas, n)
  {
  }

  lemma RowHolds(combined: map<string, Hit>, order: seq<string>, ds: seq<real>, docs: seq<Cell>, metas: seq<Cell>,
                 n: nat, before: seq<Hit>)
    requires n < |ds| && n < |docs| && n < |metas| && docs[n].Text?
    requires Holds(combined, order, Combine(before + Rows(ds, docs, metas, n)))
    ensures var h := Scored(ds[n], Found(docs[n].text, metas[n]));
      var after := Combine(before + Rows(ds, docs, metas, n + 1));
      if docs[n].text !in combined then Holds(combined[docs[n].text := h], order + [docs[n].text], after)
      else if h.score > combined[docs[n].text].score then Holds(combined[docs[n].text := h], order, after)
      else Holds(combined, order, after)
  {
    RowStep(ds, docs, metas, n, before);
    UpsertHolds(combined, order, before + Rows(ds, docs, metas, n), Scored(ds[n], Found(docs[n].text, metas[n])));
  }

  lemma ResultStep(queryResults: seq<QueryResult>, i: nat)
    requires i < |queryResults|
    ensures AllHits(queryResults[..i + 1]) == AllHits(queryResults[..i]) + HitsOf(queryResults[i])
  {
    assert queryResults[..i + 1][..i] == queryResults[..i];
  }

  lemma DictionaryValues(combined: map<string, Hit>, order: seq<string>, acc: seq<Hit>, values: seq<Hit>)
    requires Holds(combined, order, acc) && |values| == |order|
    requires forall i :: 0 <= i < |order| ==> values[i] == combined[order[i]]
    ensures values == acc
  {
  }

  /**
   * The merge itself; None stands for the ValueError of unpacking an empty slice.
   */
  method MergeAndSort(queryResults: seq<QueryResult>, k: int) returns (r: Option<QueryResult>)
    ensures r.None? <==> AllHits(queryResults) != [] && MergedHits(AllHits(queryResults), k) == []
    ensures r.Some? ==> r.value == Columns(MergedHits(AllHits(queryResults), k))
  {
    var combined: map<string, Hit> := map[];
    var order: seq<string> := [];
    for i := 0 to |queryResults|
      invariant Holds(combined, order, Combine(AllHits(queryResults[..i])))
    {
      var data := queryResults[i];
      ghost var before := AllHits(queryResults[..i]);
      ResultStep(queryResults, i);
      if |data.distances| == 0 || |data.documents| == 0 || |data.metadatas| == 0 {
        assert before + HitsOf(data) == before;
        continue;
      }
      var ds, docs, metas := data.distances[0], data.documents[0], data.metadatas[0];
      assert before + Rows(ds, docs, metas, 0) == before;
      for n := 0 to ZipLength(ds, docs, metas)
        invariant Holds(combined, order, Combine(before + Rows(ds, docs, metas, n)))
      {
        RowStep(ds, docs, metas, n, before);
        if docs[n].Text? {
          var h := Scored(ds[n], Found(docs[n].text, metas[n]));
          RowHolds(combined, order, ds, docs, metas, n, before);
          if docs[n].text !in combined {
            combined, order := combined[docs[n].text := h], order + [docs[n].text];
            continue;
          }
          if h.score > combined[docs[n].text].score {
            combined := combined[docs[n].text := h];
          }
        }
      }
    }
    assert queryResults[..|queryResults|] == queryResults;
    var values := seq(|order|, i requires 0 <= i < |order| && order[i] in combined => combined[order[i]]);
    DictionaryValues(combined, order, Combine(AllHits(queryResults)), values);
    CombineIsEmptyIff(AllHits(queryResults));
    r := SortAndCut(values, k);
  }

  ghost predicate ReadsTop(values: seq<Hit>, k: int, r: QueryResult, p: seq<nat>, kept: seq<Hit>) {
    IsStableOrder(values, p) && Reads(values, p[..PrefixLength(k, |p|)], kept) && r == Columns(kept)
  }

  /** The columns hold the first of the values, read in stable descending order. */
  ghost predicate KeepsTop(values: seq<Hit>, k: int, r: QueryResult) {
    exists p, kept :: ReadsTop(values, k, r, p, kept)
  }

  /** Sorting and cutting; the values kept are the first of the values read in stable order. */
  method SortAndCut(values: seq<Hit>, k: int) returns (r: Option<QueryResult>)
    ensures r.None? <==> values != [] && (k == 0 || |values| + k <= 0)
    ensures r.Some? ==> KeepsTop(values, k, r.value)
    ensures var sorted := SortDescending(values);
      var kept := sorted[..PrefixLength(k, |sorted|)];
      r == if values != [] && kept == [] then None else Some(Columns(kept))
  {
    var sorted := SortDescending(values);
    var kept := sorted[..PrefixLength(k, |sorted|)];
    if |values| != 0 && |kept| == 0 {
      return None;
    }
    ghost var p := SortIsStable(values);
    assert ReadsTop(values, k, Columns(kept), p, kept);
    return Some(Columns(kept));
  }

  lemma CombineIsEmptyIff(hits: seq<Hit>)
    ensures Combine(hits) == [] <==> hits == []
  {
  }

  // ----- the computed merge is the specified one ---------------------------------------------

  ghost predicate InFirstOrder(hits: seq<Hit>, acc: seq<Hit>) {
    forall i, j :: 0 <= i < j < |acc| ==> FirstAt(hits, Doc(acc[i])) < FirstAt(hits, Doc(acc[j]))
  }

  ghost predicate DistinctDocs(acc: seq<Hit>) {
    forall i, j :: 0 <= i < j < |acc| ==> Doc(acc[i]) != Doc(acc[j])
  }

  /** The dictionary's values: each document's best hit, in order of first appearance. */
  ghost predicate Distilled(hits: seq<Hit>, acc: seq<Hit>) {
    AllBest(hits, acc) && InFirstOrder(hits, acc) && Documents(acc) == Documents(hits)
  }

  lemma FirstAtExtends(hits: seq<Hit>, h: Hit, doc: string)
    ensures FirstAt(hits, doc) < |hits| ==> FirstAt(hits + [h], doc) == FirstAt(hits, doc)
    ensures FirstAt(hits, doc) == |hits| && Doc(h) == doc ==> FirstAt(hits + [h], doc) == |hits|
  {
  }

  /** One more hit: the best hits of the other documents stay, its own is the better of two. */
  lemma BestExtends(hits: seq<Hit>, h: Hit, b: nat)
    requires IsBest(hits, b)
    ensures Doc(h) != Doc(hits[b]) || h.score <= hits[b].score ==> IsBest(hits + [h], b)
    ensures Doc(h) == Doc(hits[b]) && h.score > hits[b].score ==> IsBest(hits + [h], |hits|)
  {
  }

  lemma InDocuments(hits: seq<Hit>, doc: string)
    ensures doc in Documents(hits) <==> FirstAt(hits, doc) < |hits|
  {
  }

  lemma DocumentsAppend(hits: seq<Hit>, h: Hit)
    ensures Documents(hits + [h]) == Documents(hits) + {Doc(h)}
  {
    var longer := hits + [h];
    forall d | d in Documents(hits) ensures d in Documents(longer) {
      var i :| 0 <= i < |hits| && Doc(hits[i]) == d;
      assert Doc(longer[i]) == d;
    }
    assert longer[|hits|] == h;
  }

  lemma DocumentsReplace(acc: seq<Hit>, f: nat, h: Hit)
    requires f < |acc| && Doc(acc[f]) == Doc(h)
    ensures Documents(acc[f := h]) == Documents(acc)
  {
    var after := acc[f := h];
    forall d | d in Documents(acc) ensures d in Documents(after) {
      var i :| 0 <= i < |acc| && Doc(acc[i]) == d;
      assert Doc(after[i]) == d;
    }
    forall d | d in Documents(after) ensures d in Documents(acc) {
      var i :| 0 <= i < |after| && Doc(after[i]) == d;
      assert Doc(acc[i]) == d;
    }
  }

  lemma UpsertDocuments(acc: seq<Hit>, h: Hit)
    ensures Documents(Upsert(acc, h)) == Documents(acc) + {Doc(h)}
  {
    InDocuments(acc, Doc(h));
    var f := FirstAt(acc, Doc(h));
    if f == |acc| {
      DocumentsAppend(acc, h);
    } else if h.score > acc[f].score {
      DocumentsReplace(acc, f, h);
    }
  }

  lemma FreshIsBest(hits: seq<Hit>, h: Hit)
    requires FirstAt(hits, Doc(h)) == |hits|
    ensures BestHit(hits + [h], h)
  {
    var longer := hits + [h];
    assert IsBest(longer, |hits|) && longer[|hits|] == h;
  }

  /** The better of a document's best hit and a new hit is its best hit. */
  lemma BetterIsBest(hits: seq<Hit>, best: Hit, h: Hit)
    requires BestHit(hits, best)
    ensures Doc(best) != Doc(h) || h.score <= best.score ==> BestHit(hits + [h], best)
    ensures Doc(best) == Doc(h) && h.score > best.score ==> BestHit(hits + [h], h)
  {
    var b: nat :| IsBest(hits, b) && hits[b] == best;
    BestExtends(hits, h, b);
    var longer := hits + [h];
    assert longer[b] == best && longer[|hits|] == h;
  }

  lemma UpsertBest(hits: seq<Hit>, acc: seq<Hit>, h: Hit)
    requires AllBest(hits, acc) && DistinctDocs(acc) && Documents(acc) == Documents(hits)
    ensures AllBest(hits + [h], Upsert(acc, h))
  {
    var f, after := FirstAt(acc, Doc(h)), Upsert(acc, h);
    forall i | 0 <= i < |after| ensures BestHit(hits + [h], after[i]) {
      if i < |acc| {
        BetterIsBest(hits, acc[i], h);
        assert i != f ==> Doc(acc[i]) != Doc(h);
      } else {
        InDocuments(acc, Doc(h));
        InDocuments(hits, Doc(h));
        FreshIsBest(hits, h);
      }
    }
  }

  lemma UpsertOrder(hits: seq<Hit>, acc: seq<Hit>, h: Hit)
    requires InFirstOrder(hits, acc) && Documents(acc) == Documents(hits)
    ensures InFirstOrder(hits + [h], Upsert(acc, h))
  {
    var after := Upsert(acc, h);
    forall i, j | 0 <= i < j < |after|
      ensures FirstAt(hits + [h], Doc(after[i])) < FirstAt(hits + [h], Doc(after[j]))
    {
      UpsertKeepsDoc(acc, h, i);
      KeptFirst(hits, acc, h, i);
      if j < |acc| {
        UpsertKeepsDoc(acc, h, j);
        KeptFirst(hits, acc, h, j);
      } else {
        InDocuments(acc, Doc(h));
        InDocuments(hits, Doc(h));
        FirstAtExtends(hits, h, Doc(h));
      }
    }
  }

  lemma UpsertKeepsDoc(acc: seq<Hit>, h: Hit, i: nat)
    requires i < |acc|
    ensures i < |Upsert(acc, h)| && Doc(Upsert(acc, h)[i]) == Doc(acc[i])
  {
  }

  lemma KeptFirst(hits: seq<Hit>, acc: seq<Hit>, h: Hit, i: nat)
    requires Documents(acc) == Documents(hits) && i < |acc|
    ensures FirstAt(hits + [h], Doc(acc[i])) == FirstAt(hits, Doc(acc[i])) < |hits|
  {
    assert Doc(acc[i]) in Documents(acc);
    InDocuments(hits, Doc(acc[i]));
    FirstAtExtends(hits, h, Doc(acc[i]));
  }

  lemma {:induction false} CombineDistills(hits: seq<Hit>)
    ensures Distilled(hits, Combine(hits)) && DistinctDocs(Combine(hits))
  {
    if hits != [] {
      var front, last := hits[..|hits| - 1], hits[|hits| - 1];
      assert hits == front + [last];
      CombineDistills(front);
      UpsertBest(front, Combine(front), last);
      UpsertOrder(front, Combine(front), last);
      UpsertDocuments(Combine(front), last);
      DocumentsAppend(front, last);
    }
  }

  lemma DistilledCounts(hits: seq<Hit>, acc: seq<Hit>)
    requires Distilled(hits, acc)
    ensures |acc| == |Documents(hits)|
  {
    var docs := seq(|acc|, i requires 0 <= i < |acc| => Doc(acc[i]));
    assert Elements(docs) == Documents(acc) by {
      assert forall i :: 0 <= i < |acc| ==> Doc(acc[i]) == docs[i];
    }
    assert NoRepeats(docs);
    NoRepeatsCounts(docs);
  }

  lemma BestHitIsUnique(hits: seq<Hit>, a: Hit, b: Hit)
    requires BestHit(hits, a) && BestHit(hits, b) && Doc(a) == Doc(b)
    ensures a == b
  {
  }

  lemma ReadingKeeps(hits: seq<Hit>, acc: seq<Hit>, p: seq<nat>, sorted: seq<Hit>)
    requires IsStableOrder(acc, p) && Reads(acc, p, sorted)
    ensures AllBest(hits, acc) ==> AllBest(hits, sorted)
    ensures Documents(sorted) == Documents(acc)
  {
    forall d | d in Documents(acc) ensures d in Documents(sorted) {
      var m :| 0 <= m < |acc| && Doc(acc[m]) == d;
      assert m in p;
      var j: nat :| j < |p| && p[j] == m;
      assert Doc(sorted[j]) == d;
    }
    forall d | d in Documents(sorted) ensures d in Documents(acc) {
      var j :| 0 <= j < |sorted| && Doc(sorted[j]) == d;
      assert sorted[j] == acc[p[j]];
    }
  }

  lemma ReadingOrders(hits: seq<Hit>, acc: seq<Hit>, p: seq<nat>, sorted: seq<Hit>)
    requires IsStableOrder(acc, p) && Reads(acc, p, sorted) && InFirstOrder(hits, acc)
    ensures InOutputOrder(hits, sorted)
  {
  }

  /** Everything distilled from the hits, in output order. */
  lemma SortedEntries(hits: seq<Hit>) returns (sorted: seq<Hit>)
    ensures sorted == SortDescending(Combine(hits))
    ensures |sorted| == |Documents(hits)| && Documents(sorted) == Documents(hits)
    ensures AllBest(hits, sorted) && InOutputOrder(hits, sorted)
  {
    var acc := Combine(hits);
    CombineDistills(hits);
    DistilledCounts(hits, acc);
    sorted := SortDescending(acc);
    var p := SortIsStable(acc);
    ReadingKeeps(hits, acc, p, sorted);
    ReadingOrders(hits, acc, p, sorted);
  }

  /** What `MergeAndSort` returns satisfies the whole specification, for every `k`. */
  lemma MergedHitsIsMerge(hits: seq<Hit>, k: int)
    ensures IsMerge(hits, k, MergedHits(hits, k))
  {
    var sorted := SortedEntries(hits);
    var out := MergedHits(hits, k);
    assert forall i :: 0 <= i < |out| ==> out[i] == sorted[i];
    forall i, h | 0 <= i < |out| && BestHit(hits, h) && Doc(h) !in Documents(out)
      ensures Precedes(hits, out[i], h)
    {
      var j := EntryOf(hits, sorted, h);
      assert Doc(sorted[j]) !in Documents(out);
    }
  }

  lemma EntryOf(hits: seq<Hit>, sorted: seq<Hit>, h: Hit) returns (j: nat)
    requires AllBest(hits, sorted)
    requires BestHit(hits, h) && (Documents(sorted) == Documents(hits) || Doc(h) in Documents(sorted))
    ensures j < |sorted| && sorted[j] == h
  {
    var b: nat :| IsBest(hits, b) && hits[b] == h;
    assert Doc(hits[b]) in Documents(hits);
    j :| 0 <= j < |sorted| && Doc(sorted[j]) == Doc(h);
    BestHitIsUnique(hits, sorted[j], h);
  }

  /** The specification leaves no freedom: two lists meeting it are equal. */
  lemma MergeIsUnique(hits: seq<Hit>, k: int, a: seq<Hit>, b: seq<Hit>)
    requires IsMerge(hits, k, a) && IsMerge(hits, k, b)
    ensures a == b
  {
    MergePrefixIsUnique(hits, a, b, |a|);
    assert a[..|a|] == a && b[..|b|] == b;
  }

  lemma {:induction false} MergePrefixIsUnique(hits: seq<Hit>, a: seq<Hit>, b: seq<Hit>, n: nat)
    requires AllBest(hits, a) && InOutputOrder(hits, a) && BeatsOmitted(hits, a)
    requires AllBest(hits, b) && InOutputOrder(hits, b) && BeatsOmitted(hits, b)
    requires n <= |a| && n <= |b|
    ensures a[..n] == b[..n]
  {
    if n > 0 {
      MergePrefixIsUnique(hits, a, b, n - 1);
      NextIsUnique(hits, a, b, n - 1);
      assert a[..n] == a[..n - 1] + [a[n - 1]] && b[..n] == b[..n - 1] + [b[n - 1]];
    } else {
      assert a[..0] == b[..0];
    }
  }

  lemma NextIsUnique(hits: seq<Hit>, a: seq<Hit>, b: seq<Hit>, m: nat)
    requires AllBest(hits, a) && InOutputOrder(hits, a) && BeatsOmitted(hits, a)
    requires AllBest(hits, b) && InOutputOrder(hits, b) && BeatsOmitted(hits, b)
    requires m < |a| && m < |b| && a[..m] == b[..m]
    ensures a[m] == b[m]
  {
    NextIsNotLater(hits, a, b, m);
    NextIsNotLater(hits, b, a, m);
    PrecedesIsStrict(hits, a[m], b[m]);
  }

  lemma PrecedesIsStrict(hits: seq<Hit>, x: Hit, y: Hit)
    ensures !(Precedes(hits, x, y) && Precedes(hits, y, x))
  {
  }

  /** With equal entries before position `m`, the entry of `a` there is not after that of `b`. */
  lemma NextIsNotLater(hits: seq<Hit>, a: seq<Hit>, b: seq<Hit>, m: nat)
    requires AllBest(hits, a) && AllBest(hits, b) && InOutputOrder(hits, a) && InOutputOrder(hits, b)
    requires BeatsOmitted(hits, a) && m < |a| && m < |b| && a[..m] == b[..m]
    ensures a[m] == b[m] || Precedes(hits, a[m], b[m])
  {
    assert BestHit(hits, b[m]);
    if Doc(b[m]) in Documents(a) {
      var i := EntryOf(hits, a, b[m]);
      StandsLater(hits, a, b, m, i);
    }
  }

  /** Where equal prefixes end, the other list's entry stands in this one at that place or later. */
  lemma StandsLater(hits: seq<Hit>, a: seq<Hit>, b: seq<Hit>, m: nat, i: nat)
    requires InOutputOrder(hits, a) && InOutputOrder(hits, b)
    requires m < |a| && m < |b| && a[..m] == b[..m] && i < |a| && a[i] == b[m]
    ensures a[m] == b[m] || Precedes(hits, a[m], b[m])
  {
    if i < m {
      assert a[i] == a[..m][i] == b[..m][i] == b[i];
      OrderIsStrict(hits, b, i, m);
    }
  }

  lemma OrderIsStrict(hits: seq<Hit>, out: seq<Hit>, i: nat, j: nat)
    requires InOutputOrder(hits, out) && i < j < |out|
    ensures out[i] != out[j]
  {
    assert Precedes(hits, out[i], out[j]);
  }
}
