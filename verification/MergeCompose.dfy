/**
 * Merging composes: merging two already merged and truncated result lists gives the scores of
 * merging everything at once (backend/open_webui/retrieval/utils.py:339-383).
 */
module MergeCompose {
  import opened Basics
  import opened StableSort
  import opened MergeResults

  // ----- counting documents by score ---------------------------------------------------------

  /** The documents with some hit scoring at least `s`. */
  ghost function AtLeast(hits: seq<Hit>, s: real): set<string> {
    set i | 0 <= i < |hits| && hits[i].score >= s :: Doc(hits[i])
  }

  lemma AtLeastOf(hits: seq<Hit>, h: Hit)
    requires h in hits
    ensures Doc(h) in AtLeast(hits, h.score) && Doc(h) in Documents(hits)
  {
  }

  lemma AtLeastConcat(a: seq<Hit>, b: seq<Hit>, s: real)
    ensures AtLeast(a + b, s) == AtLeast(a, s) + AtLeast(b, s)
    ensures Documents(a + b) == Documents(a) + Documents(b)
  {
    var c := a + b;
    assert forall i :: 0 <= i < |a| ==> c[i] == a[i];
    assert forall i :: 0 <= i < |b| ==> c[|a| + i] == b[i];
    assert forall i :: |a| <= i < |c| ==> c[i] == b[i - |a|];
  }

  /** A document has a best hit, at least as good as any of its hits. */
  lemma {:induction false} BestExists(hits: seq<Hit>, h: Hit) returns (best: Hit)
    requires h in hits
    ensures BestHit(hits, best) && Doc(best) == Doc(h) && best.score >= h.score
  {
    var front, last := hits[..|hits| - 1], hits[|hits| - 1];
    assert hits == front + [last];
    if Doc(last) == Doc(h) && FirstAt(front, Doc(h)) == |front| {
      FreshIsBest(front, last);
      best := last;
    } else {
      var other := if h in front then h else front[FirstAt(front, Doc(h))];
      var b := BestExists(front, other);
      BetterIsBest(front, b, last);
      best := if Doc(last) == Doc(b) && last.score > b.score then last else b;
    }
  }

  lemma BestIsThere(hits: seq<Hit>, best: Hit, h: Hit)
    requires BestHit(hits, best)
    ensures best in hits
    ensures h in hits && Doc(h) == Doc(best) ==> h.score <= best.score
  {
  }

  ghost function DocsUpTo(out: seq<Hit>, n: nat): seq<string>
    requires n <= |out|
  {
    seq(n, i requires 0 <= i < n => Doc(out[i]))
  }

  /** The documents of a merged list are distinct. */
  lemma MergedDocs(hits: seq<Hit>, out: seq<Hit>, n: nat)
    requires AllBest(hits, out) && InOutputOrder(hits, out) && n <= |out|
    ensures DistinctDocs(out)
    ensures NoRepeats(DocsUpTo(out, n)) && |Elements(DocsUpTo(out, n))| == n
  {
    forall i, j | 0 <= i < j < |out| ensures Doc(out[i]) != Doc(out[j]) {
      EntriesOrdered(hits, out, i, j);
      if Doc(out[i]) == Doc(out[j]) {
        BestHitIsUnique(hits, out[i], out[j]);
      }
    }
    NoRepeatsCounts(DocsUpTo(out, n));
  }

  lemma EntriesOrdered(hits: seq<Hit>, out: seq<Hit>, i: nat, j: nat)
    requires InOutputOrder(hits, out) && i < j < |out|
    ensures Precedes(hits, out[i], out[j]) && out[i].score >= out[j].score
  {
  }

  /** Position `i` of a merged list scores at least `s` exactly when more than `i` documents do. */
  lemma ScoreAt(hits: seq<Hit>, out: seq<Hit>, i: nat, s: real)
    requires AllBest(hits, out) && InOutputOrder(hits, out) && BeatsOmitted(hits, out) && i < |out|
    ensures out[i].score >= s <==> |AtLeast(hits, s)| > i
  {
    if out[i].score >= s {
      MergedDocs(hits, out, i + 1);
      forall d | d in Elements(DocsUpTo(out, i + 1)) ensures d in AtLeast(hits, s) {
        var j: nat :| j < i + 1 && DocsUpTo(out, i + 1)[j] == d;
        KeptAtLeast(hits, out, i, j, s);
      }
      SubsetCounts(Elements(DocsUpTo(out, i + 1)), AtLeast(hits, s));
    } else {
      MergedDocs(hits, out, i);
      forall d | d in AtLeast(hits, s) ensures d in Elements(DocsUpTo(out, i)) {
        var j := RankedAbove(hits, out, i, s, d);
        assert DocsUpTo(out, i)[j] == d;
      }
      SubsetCounts(AtLeast(hits, s), Elements(DocsUpTo(out, i)));
    }
  }

  lemma KeptAtLeast(hits: seq<Hit>, out: seq<Hit>, i: nat, j: nat, s: real)
    requires AllBest(hits, out) && InOutputOrder(hits, out) && j <= i < |out| && out[i].score >= s
    ensures Doc(out[j]) in AtLeast(hits, s)
  {
  }

  lemma RankedAbove(hits: seq<Hit>, out: seq<Hit>, i: nat, s: real, d: string) returns (j: nat)
    requires AllBest(hits, out) && InOutputOrder(hits, out) && BeatsOmitted(hits, out)
    requires i < |out| && out[i].score < s && d in AtLeast(hits, s)
    ensures j < i && Doc(out[j]) == d
  {
    var m :| 0 <= m < |hits| && hits[m].score >= s && Doc(hits[m]) == d;
    var best := BestExists(hits, hits[m]);
    assert !Precedes(hits, out[i], best);
    assert Doc(best) in Documents(out);
    j := EntryOf(hits, out, best);
    if i < j {
      EntriesOrdered(hits, out, i, j);
    }
  }

  lemma DocsCounted(hits: seq<Hit>, out: seq<Hit>)
    requires AllBest(hits, out) && InOutputOrder(hits, out)
    ensures |Documents(out)| == |out|
  {
    MergedDocs(hits, out, |out|);
    assert Documents(out) == Elements(DocsUpTo(out, |out|)) by {
      assert forall i :: 0 <= i < |out| ==> Doc(out[i]) == DocsUpTo(out, |out|)[i];
    }
  }

  // ----- truncation loses no score that matters ----------------------------------------------

  /** What `k` entries keep: all documents scoring at least `s`, or `k` of them. */
  lemma TruncationKeeps(hits: seq<Hit>, k: int, out: seq<Hit>, s: real)
    requires IsMerge(hits, k, out) && k >= 0
    ensures AtLeast(out, s) <= AtLeast(hits, s) && Documents(out) <= Documents(hits)
    ensures AtLeast(out, s) == AtLeast(hits, s) || |AtLeast(out, s)| >= k
    ensures Documents(out) == Documents(hits) || |Documents(out)| >= k
  {
    forall h | h in out ensures h in hits {
      assert BestHit(hits, h);
      BestIsThere(hits, h, h);
    }
    Inclusion(out, hits, s);
    DocsCounted(hits, out);
    SubsetCounts(Documents(out), Documents(hits));
    if d :| d in AtLeast(hits, s) && d !in AtLeast(out, s) {
      OmittedMeansFull(hits, out, s, d);
    }
  }

  lemma Inclusion(a: seq<Hit>, b: seq<Hit>, s: real)
    requires forall h :: h in a ==> h in b
    ensures AtLeast(a, s) <= AtLeast(b, s) && Documents(a) <= Documents(b)
  {
    forall d | d in Documents(a) ensures d in Documents(b) {
      var i :| 0 <= i < |a| && Doc(a[i]) == d;
      assert a[i] in b;
      AtLeastOf(b, a[i]);
    }
    forall d | d in AtLeast(a, s) ensures d in AtLeast(b, s) {
      var i :| 0 <= i < |a| && a[i].score >= s && Doc(a[i]) == d;
      assert a[i] in b;
      var j :| 0 <= j < |b| && b[j] == a[i];
      assert Doc(b[j]) == d;
    }
  }

  lemma KeptScores(hits: seq<Hit>, out: seq<Hit>, best: Hit, s: real)
    requires AllBest(hits, out) && BestHit(hits, best) && best.score >= s && Doc(best) in Documents(out)
    ensures Doc(best) in AtLeast(out, s)
  {
  }

  /** If a document scoring at least `s` was cut off, every kept entry scores at least `s`. */
  lemma OmittedMeansFull(hits: seq<Hit>, out: seq<Hit>, s: real, d: string)
    requires AllBest(hits, out) && InOutputOrder(hits, out) && BeatsOmitted(hits, out)
    requires d in AtLeast(hits, s) && d !in AtLeast(out, s)
    ensures AtLeast(out, s) == Documents(out)
    ensures d !in Documents(out) && d in Documents(hits)
  {
    var m :| 0 <= m < |hits| && hits[m].score >= s && Doc(hits[m]) == d;
    assert Doc(hits[m]) in Documents(hits);
    var best := BestExists(hits, hits[m]);
    if d in Documents(out) {
      KeptScores(hits, out, best, s);
    }
    forall e | e in Documents(out) ensures e in AtLeast(out, s) {
      var i :| 0 <= i < |out| && Doc(out[i]) == e;
      assert Precedes(hits, out[i], best);
    }
  }

  // ----- the composition theorems ------------------------------------------------------------

  /** Counts past `i` agree for every position `i` below `k`. */
  lemma CountsAgree(a: set<string>, b: set<string>, a': set<string>, b': set<string>, k: nat)
    requires a' <= a && b' <= b && (a' == a || |a'| >= k) && (b' == b || |b'| >= k)
    ensures |a' + b'| == |a + b| || (|a' + b'| >= k && |a + b| >= k)
  {
    SubsetCounts(a' + b', a + b);
    SubsetCounts(a', a' + b');
    SubsetCounts(b', a' + b');
  }

  /**
   * Merging the truncated merges of `x` and `y` has as many entries, with the same scores in the
   * same order, as merging all the hits together.
   */
  lemma MergeComposesScores(x: seq<Hit>, y: seq<Hit>, k: nat, a: seq<Hit>, b: seq<Hit>, c: seq<Hit>, all: seq<Hit>)
    requires IsMerge(x, k, a) && IsMerge(y, k, b) && IsMerge(a + b, k, c) && IsMerge(x + y, k, all)
    ensures |c| == |all|
    ensures forall i :: 0 <= i < |c| ==> c[i].score == all[i].score
  {
    TruncationKeeps(x, k, a, 0.0);
    TruncationKeeps(y, k, b, 0.0);
    AtLeastConcat(x, y, 0.0);
    AtLeastConcat(a, b, 0.0);
    CountsAgree(Documents(x), Documents(y), Documents(a), Documents(b), k);
    forall i | 0 <= i < |c| ensures c[i].score == all[i].score {
      ScoreComposes(x, y, k, a, b, c, all, i, all[i].score);
      ScoreComposes(x, y, k, a, b, c, all, i, c[i].score);
    }
  }

  lemma ScoreComposes(x: seq<Hit>, y: seq<Hit>, k: nat, a: seq<Hit>, b: seq<Hit>, c: seq<Hit>, all: seq<Hit>,
                      i: nat, s: real)
    requires IsMerge(x, k, a) && IsMerge(y, k, b) && IsMerge(a + b, k, c) && IsMerge(x + y, k, all)
    requires i < |c| && i < |all|
    ensures c[i].score >= s <==> all[i].score >= s
  {
    TruncationKeeps(x, k, a, s);
    TruncationKeeps(y, k, b, s);
    AtLeastConcat(x, y, s);
    AtLeastConcat(a, b, s);
    CountsAgree(AtLeast(x, s), AtLeast(y, s), AtLeast(a, s), AtLeast(b, s), k);
    ScoreAt(a + b, c, i, s);
    ScoreAt(x + y, all, i, s);
  }

  /** Documents whose best scores tie occur in one of the lists only. */
  ghost predicate TiesApart(x: seq<Hit>, y: seq<Hit>) {
    forall g, h :: BestHit(x + y, g) && BestHit(x + y, h) && Doc(g) != Doc(h) && g.score == h.score ==>
      OneSided(x, y, Doc(g))
  }

  ghost predicate OneSided(x: seq<Hit>, y: seq<Hit>, d: string) {
    d !in Documents(x) || d !in Documents(y)
  }

  /**
   * Then the composed merge is the merge of everything, documents and metadata included: the merge of
   * everything meets the specification of the composed one, which leaves no freedom.
   */
  lemma MergeComposes(x: seq<Hit>, y: seq<Hit>, k: nat, a: seq<Hit>, b: seq<Hit>, c: seq<Hit>, all: seq<Hit>)
    requires IsMerge(x, k, a) && IsMerge(y, k, b) && IsMerge(a + b, k, c) && IsMerge(x + y, k, all)
    requires TiesApart(x, y)
    ensures c == all
  {
    MergeComposesScores(x, y, k, a, b, c, all);
    BestsSurvive(x, y, k, a, b, all);
    OrderSurvives(x, y, a, b, all);
    OmittedStayBeaten(x, y, a, b, all);
    MergeIsUnique(a + b, k, c, all);
  }

  /** No two documents have the same best score. */
  ghost predicate DistinctBests(hits: seq<Hit>) {
    forall g, h :: BestHit(hits, g) && BestHit(hits, h) && Doc(g) != Doc(h) ==> g.score != h.score
  }

  /** Two ways to keep ties apart: no ties at all, or no document in both lists. */
  lemma TiesAreApart(x: seq<Hit>, y: seq<Hit>)
    requires DistinctBests(x + y) || Documents(x) !! Documents(y)
    ensures TiesApart(x, y)
  {
  }

  // ----- the kept hits survive -----------------------------------------------------------------

  lemma BestsSurvive(x: seq<Hit>, y: seq<Hit>, k: nat, a: seq<Hit>, b: seq<Hit>, all: seq<Hit>)
    requires IsMerge(x, k, a) && IsMerge(y, k, b) && IsMerge(x + y, k, all) && TiesApart(x, y)
    ensures AllBest(a + b, all)
  {
    forall i | 0 <= i < |all| ensures BestHit(a + b, all[i]) {
      BestSurvives(x, y, k, a, b, all, i);
    }
  }

  /** Each kept best hit of all the hits reaches the second merge, and is the best hit there. */
  lemma BestSurvives(x: seq<Hit>, y: seq<Hit>, k: nat, a: seq<Hit>, b: seq<Hit>, all: seq<Hit>, i: nat)
    requires IsMerge(x, k, a) && IsMerge(y, k, b) && IsMerge(x + y, k, all) && TiesApart(x, y) && i < |all|
    ensures BestHit(a + b, all[i])
  {
    var f := all[i];
    assert BestHit(x + y, f);
    var m: nat :| IsBest(x + y, m) && (x + y)[m] == f;
    MergedFrom(x, a);
    MergedFrom(y, b);
    MergedDocs(x, a, 0);
    MergedDocs(y, b, 0);
    if m < |x| {
      BestOfLeft(x, y, m);
      KeptOnSide(x, y, x, k, a, all, i);
      BestFromLeft(x, y, a, b, m);
    } else {
      BestOfRight(x, y, m);
      KeptOnSide(x, y, y, k, b, all, i);
      BestFromRight(x, y, a, b, m);
    }
  }

  lemma MergedFrom(hits: seq<Hit>, out: seq<Hit>)
    requires AllBest(hits, out)
    ensures forall h :: h in out ==> h in hits
  {
  }

  lemma BestOfLeft(x: seq<Hit>, y: seq<Hit>, m: nat)
    requires m < |x| && IsBest(x + y, m)
    ensures IsBest(x, m) && BestHit(x, x[m])
  {
    var z := x + y;
    assert forall i :: 0 <= i < |x| ==> z[i] == x[i];
  }

  lemma BestOfRight(x: seq<Hit>, y: seq<Hit>, m: nat)
    requires |x| <= m && IsBest(x + y, m)
    ensures IsBest(y, m - |x|) && BestHit(y, y[m - |x|])
  {
    var z := x + y;
    assert forall i :: 0 <= i < |y| ==> z[|x| + i] == y[i];
  }

  /** A hit among the first `k` of all the hits is among the first `k` of its own side. */
  lemma KeptOnSide(x: seq<Hit>, y: seq<Hit>, side: seq<Hit>, k: nat, out: seq<Hit>, all: seq<Hit>, i: nat)
    requires side == x || side == y
    requires IsMerge(side, k, out) && IsMerge(x + y, k, all) && TiesApart(x, y)
    requires i < |all| && BestHit(side, all[i])
    ensures all[i] in out
  {
    var f := all[i];
    if Doc(f) in Documents(out) {
      var j := EntryOf(side, out, f);
    } else {
      CutMeansFull(side, k, out, f);
      MergedDocs(side, out, k);
      MergedDocs(x + y, all, i);
      forall d | d in Elements(DocsUpTo(out, k)) ensures d in Elements(DocsUpTo(all, i)) {
        var j: nat :| j < k && DocsUpTo(out, k)[j] == d;
        var n := RankedBefore(x, y, side, out, all, i, j);
        assert DocsUpTo(all, i)[n] == d;
      }
      SubsetCounts(Elements(DocsUpTo(out, k)), Elements(DocsUpTo(all, i)));
    }
  }

  lemma CutMeansFull(hits: seq<Hit>, k: nat, out: seq<Hit>, f: Hit)
    requires IsMerge(hits, k, out) && BestHit(hits, f) && Doc(f) !in Documents(out)
    ensures |out| == k
  {
    BestIsThere(hits, f, f);
    AtLeastOf(hits, f);
    SideDocuments(hits, out);
    DocsCounted(hits, out);
    SubsetCounts(Documents(out) + {Doc(f)}, Documents(hits));
  }

  /** What its own side ranks before a cut hit, all the hits together rank before it. */
  lemma RankedBefore(x: seq<Hit>, y: seq<Hit>, side: seq<Hit>, out: seq<Hit>, all: seq<Hit>, i: nat, j: nat)
    returns (n: nat)
    requires side == x || side == y
    requires AllBest(side, out) && BeatsOmitted(side, out) && j < |out|
    requires AllBest(x + y, all) && InOutputOrder(x + y, all) && BeatsOmitted(x + y, all) && i < |all|
    requires TiesApart(x, y) && BestHit(side, all[i]) && Doc(all[i]) !in Documents(out)
    ensures n < i && Doc(all[n]) == Doc(out[j])
  {
    var f, e := all[i], out[j];
    assert BestHit(side, e) && Precedes(side, e, f) && Doc(e) in Documents(out);
    BestIsThere(side, e, e);
    BestIsThere(side, f, f);
    var g := BestExists(x + y, e);
    BestsTie(x, y, side, e, f, g);
    n := PlaceBefore(x + y, all, i, g);
  }

  /** A hit that comes before a listed one is listed before it. */
  lemma PlaceBefore(hits: seq<Hit>, all: seq<Hit>, i: nat, g: Hit) returns (n: nat)
    requires AllBest(hits, all) && InOutputOrder(hits, all) && BeatsOmitted(hits, all) && i < |all|
    requires BestHit(hits, g) && Precedes(hits, g, all[i])
    ensures n < i && all[n] == g
  {
    PrecedesIsStrict(hits, g, all[i]);
    assert Doc(g) in Documents(all);
    n := EntryOf(hits, all, g);
    if n > i {
      EntriesOrdered(hits, all, i, n);
    }
  }

  lemma BestsTie(x: seq<Hit>, y: seq<Hit>, side: seq<Hit>, e: Hit, f: Hit, g: Hit)
    requires side == x || side == y
    requires TiesApart(x, y) && e in side && f in side && Precedes(side, e, f) && Doc(e) != Doc(f)
    requires BestHit(x + y, f) && BestHit(x + y, g) && Doc(g) == Doc(e) && g.score >= e.score
    ensures Precedes(x + y, g, f)
  {
    if g.score == f.score {
      assert OneSided(x, y, Doc(g)) && OneSided(x, y, Doc(f));
      AtLeastOf(side, e);
      AtLeastOf(side, f);
      FirstOnSide(x, y, Doc(e));
      FirstOnSide(x, y, Doc(f));
    }
  }

  /** Where a document of one side first appears among all the hits. */
  lemma FirstOnSide(x: seq<Hit>, y: seq<Hit>, d: string)
    ensures d in Documents(x) ==> FirstAt(x + y, d) == FirstAt(x, d) < |x|
    ensures d !in Documents(x) ==> FirstAt(x + y, d) == |x| + FirstAt(y, d)
  {
    var z := x + y;
    InDocuments(x, d);
    FirstIs(z, d, if d in Documents(x) then FirstAt(x, d) else |x| + FirstAt(y, d));
  }

  lemma FirstIs(hits: seq<Hit>, d: string, f: nat)
    requires f <= |hits| && (f < |hits| ==> Doc(hits[f]) == d)
    requires forall i :: 0 <= i < f ==> Doc(hits[i]) != d
    ensures FirstAt(hits, d) == f
  {
  }

  // ----- and so does their order ---------------------------------------------------------------

  /** What the second merge knows of a hit kept by the first ones: it stands in its side's output. */
  ghost predicate StandsIn(x: seq<Hit>, y: seq<Hit>, a: seq<Hit>, b: seq<Hit>, h: Hit) {
    && OneSided(x, y, Doc(h))
    && (Doc(h) in Documents(x) ==> h in a)
    && (Doc(h) !in Documents(x) ==> h in b)
  }

  /** Tied documents of one side each are ordered by the second merge as by a merge of everything. */
  lemma TieOrder(x: seq<Hit>, y: seq<Hit>, a: seq<Hit>, b: seq<Hit>, f: Hit, h: Hit)
    requires AllBest(x, a) && InOutputOrder(x, a) && AllBest(y, b) && InOutputOrder(y, b)
    requires StandsIn(x, y, a, b, f) && StandsIn(x, y, a, b, h) && f.score == h.score
    requires FirstAt(x + y, Doc(f)) < FirstAt(x + y, Doc(h))
    ensures FirstAt(a + b, Doc(f)) < FirstAt(a + b, Doc(h))
  {
    FirstOnSide(x, y, Doc(f));
    FirstOnSide(x, y, Doc(h));
    FirstOnSide(a, b, Doc(f));
    FirstOnSide(a, b, Doc(h));
    SideDocuments(x, a);
    if Doc(f) in Documents(x) {
      AtLeastOf(a, f);
      if Doc(h) in Documents(x) {
        AtLeastOf(a, h);
        SideOrder(x, a, f, h);
      }
    } else {
      SideOrder(y, b, f, h);
    }
  }

  lemma SideDocuments(hits: seq<Hit>, out: seq<Hit>)
    requires AllBest(hits, out)
    ensures Documents(out) <= Documents(hits)
  {
    MergedFrom(hits, out);
    Inclusion(out, hits, 0.0);
  }

  lemma StandsFirst(out: seq<Hit>, i: nat)
    requires DistinctDocs(out) && i < |out|
    ensures FirstAt(out, Doc(out[i])) == i
  {
    FirstIs(out, Doc(out[i]), i);
  }

  lemma OrderedTies(hits: seq<Hit>, out: seq<Hit>, i: nat, j: nat)
    requires InOutputOrder(hits, out) && i < |out| && j < |out| && out[i].score == out[j].score
    requires FirstAt(hits, Doc(out[i])) < FirstAt(hits, Doc(out[j]))
    ensures i < j
  {
    if j < i {
      EntriesOrdered(hits, out, j, i);
    }
  }

  lemma SideOrder(hits: seq<Hit>, out: seq<Hit>, f: Hit, h: Hit)
    requires AllBest(hits, out) && InOutputOrder(hits, out) && f in out && h in out
    requires f.score == h.score && FirstAt(hits, Doc(f)) < FirstAt(hits, Doc(h))
    ensures FirstAt(out, Doc(f)) < FirstAt(out, Doc(h))
  {
    var i: nat :| i < |out| && out[i] == f;
    var j: nat :| j < |out| && out[j] == h;
    OrderedTies(hits, out, i, j);
    MergedDocs(hits, out, 0);
    StandsFirst(out, i);
    StandsFirst(out, j);
  }

  /** A best hit of all the hits that is in the outputs stands in its side's output. */
  lemma BestStandsIn(x: seq<Hit>, y: seq<Hit>, a: seq<Hit>, b: seq<Hit>, h: Hit)
    requires AllBest(x, a) && AllBest(y, b) && h in a + b && OneSided(x, y, Doc(h))
    ensures StandsIn(x, y, a, b, h)
  {
    SideDocuments(x, a);
    SideDocuments(y, b);
    if h in a {
      AtLeastOf(a, h);
    } else {
      assert h in b;
      AtLeastOf(b, h);
    }
  }

  lemma OrderSurvives(x: seq<Hit>, y: seq<Hit>, a: seq<Hit>, b: seq<Hit>, all: seq<Hit>)
    requires AllBest(x, a) && InOutputOrder(x, a) && AllBest(y, b) && InOutputOrder(y, b) && TiesApart(x, y)
    requires AllBest(x + y, all) && InOutputOrder(x + y, all) && AllBest(a + b, all)
    ensures InOutputOrder(a + b, all)
  {
    MergedDocs(x + y, all, 0);
    forall i, j | 0 <= i < j < |all| ensures Precedes(a + b, all[i], all[j]) {
      assert Precedes(x + y, all[i], all[j]);
      if all[i].score == all[j].score {
        assert BestHit(x + y, all[i]) && BestHit(x + y, all[j]);
        MergedFrom(a + b, all);
        BestStandsIn(x, y, a, b, all[i]);
        BestStandsIn(x, y, a, b, all[j]);
        TieOrder(x, y, a, b, all[i], all[j]);
      }
    }
  }

  lemma OmittedStayBeaten(x: seq<Hit>, y: seq<Hit>, a: seq<Hit>, b: seq<Hit>, all: seq<Hit>)
    requires AllBest(x, a) && InOutputOrder(x, a) && AllBest(y, b) && InOutputOrder(y, b) && TiesApart(x, y)
    requires AllBest(x + y, all) && BeatsOmitted(x + y, all) && AllBest(a + b, all)
    ensures BeatsOmitted(a + b, all)
  {
    forall i, h | 0 <= i < |all| && BestHit(a + b, h) && Doc(h) !in Documents(all)
      ensures Precedes(a + b, all[i], h)
    {
      StaysBeaten(x, y, a, b, all, i, h);
    }
  }

  lemma StaysBeaten(x: seq<Hit>, y: seq<Hit>, a: seq<Hit>, b: seq<Hit>, all: seq<Hit>, i: nat, h: Hit)
    requires AllBest(x, a) && InOutputOrder(x, a) && AllBest(y, b) && InOutputOrder(y, b) && TiesApart(x, y)
    requires AllBest(x + y, all) && BeatsOmitted(x + y, all) && AllBest(a + b, all)
    requires i < |all| && BestHit(a + b, h) && Doc(h) !in Documents(all)
    ensures Precedes(a + b, all[i], h)
  {
    MergedFrom(x, a);
    MergedFrom(y, b);
    BestIsThere(a + b, h, h);
    var g := BestExists(x + y, h);
    assert Precedes(x + y, all[i], g) && BestHit(x + y, all[i]) && Doc(all[i]) in Documents(all);
    if all[i].score == h.score {
      MergedFrom(a + b, all);
      BestStandsIn(x, y, a, b, all[i]);
      BestStandsIn(x, y, a, b, h);
      TieOrder(x, y, a, b, all[i], h);
    }
  }

  /** The hits of `c` are hits of `z`, those before `n` hits before `m`. */
  lemma BestFromLeft(x: seq<Hit>, y: seq<Hit>, a: seq<Hit>, b: seq<Hit>, m: nat)
    requires (forall h :: h in a ==> h in x) && (forall h :: h in b ==> h in y) && DistinctDocs(a)
    requires m < |x| && IsBest(x + y, m) && x[m] in a
    ensures BestHit(a + b, x[m])
  {
    var f, c, z := x[m], a + b, x + y;
    var n: nat :| n < |a| && a[n] == f;
    assert c[n] == f && z[m] == f;
    forall i | 0 <= i < |c| && Doc(c[i]) == Doc(f) ensures c[i].score <= f.score && (i < n ==> c[i].score < f.score) {
      var j := HitAmong(x, y, a, b, i);
    }
    assert IsBest(c, n);
  }

  lemma BestFromRight(x: seq<Hit>, y: seq<Hit>, a: seq<Hit>, b: seq<Hit>, m: nat)
    requires (forall h :: h in a ==> h in x) && (forall h :: h in b ==> h in y) && DistinctDocs(b)
    requires |x| <= m && IsBest(x + y, m) && (x + y)[m] in b
    ensures BestHit(a + b, (x + y)[m])
  {
    var c, z := a + b, x + y;
    var f := z[m];
    var n: nat :| n < |b| && b[n] == f;
    assert c[|a| + n] == f;
    forall i | 0 <= i < |c| && Doc(c[i]) == Doc(f)
      ensures c[i].score <= f.score && (i < |a| + n ==> c[i].score < f.score)
    {
      var j := HitAmong(x, y, a, b, i);
      assert i >= |a| ==> c[i] == b[i - |a|];
    }
    assert IsBest(c, |a| + n);
  }

  lemma HitAmong(x: seq<Hit>, y: seq<Hit>, a: seq<Hit>, b: seq<Hit>, i: nat) returns (j: nat)
    requires (forall h :: h in a ==> h in x) && (forall h :: h in b ==> h in y) && i < |a + b|
    ensures j < |x + y| && (x + y)[j] == (a + b)[i]
    ensures i < |a| ==> j < |x|
  {
    if i < |a| {
      assert a[i] in x;
      j :| j < |x| && x[j] == a[i];
    } else {
      assert b[i - |a|] in y;
      var m: nat :| m < |y| && y[m] == b[i - |a|];
      j := |x| + m;
    }
  }

  // ----- when it composes with ties in both lists ----------------------------------------------

  /** In `z` the document of this entry appears before every equally good one that is to come after it. */
  ghost predicate AppearsFirst(z: seq<Hit>, all: seq<Hit>, i: nat)
    requires i < |all|
  {
    forall h :: h in z && h.score == all[i].score && Doc(h) !in Documents(all[..i + 1]) ==>
      FirstAt(z, Doc(all[i])) < FirstAt(z, Doc(h))
  }

  /** Every entry is among the hits, in its place among equally good ones. */
  ghost predicate ReachesInOrder(z: seq<Hit>, all: seq<Hit>) {
    forall i :: 0 <= i < |all| ==> all[i] in z && AppearsFirst(z, all, i)
  }

  lemma MergeReachesInOrder(z: seq<Hit>, out: seq<Hit>)
    requires AllBest(z, out) && InOutputOrder(z, out) && BeatsOmitted(z, out)
    ensures ReachesInOrder(z, out)
  {
    MergedFrom(z, out);
    forall i, h | 0 <= i < |out| && h in z && h.score == out[i].score && Doc(h) !in Documents(out[..i + 1])
      ensures FirstAt(z, Doc(out[i])) < FirstAt(z, Doc(h))
    {
      var best := BestExists(z, h);
      ComesAfter(z, out, i, best);
    }
  }

  lemma InPrefix(out: seq<Hit>, n: nat, j: nat)
    requires j < |out| && n <= |out|
    ensures j < n ==> Doc(out[j]) in Documents(out[..n])
  {
    if j < n {
      assert out[..n][j] == out[j];
    }
  }

  lemma ComesAfter(z: seq<Hit>, out: seq<Hit>, i: nat, best: Hit)
    requires AllBest(z, out) && InOutputOrder(z, out) && BeatsOmitted(z, out)
    requires i < |out| && BestHit(z, best) && Doc(best) !in Documents(out[..i + 1])
    ensures Precedes(z, out[i], best)
  {
    if Doc(best) in Documents(out) {
      var j := EntryOf(z, out, best);
      InPrefix(out, i + 1, j);
      EntriesOrdered(z, out, i, j);
    }
  }

  /** A best hit that comes from the second list does not occur in the first. */
  lemma NotOnLeft(x: seq<Hit>, y: seq<Hit>, m: nat)
    requires |x| <= m && IsBest(x + y, m)
    ensures (x + y)[m] !in x
  {
    assert forall i :: 0 <= i < |x| ==> (x + y)[i] == x[i];
  }

  /** A best hit of all the hits that reaches the second merge is the best hit there. */
  lemma ReachedIsBest(x: seq<Hit>, y: seq<Hit>, a: seq<Hit>, b: seq<Hit>, f: Hit)
    requires AllBest(x, a) && AllBest(y, b) && DistinctDocs(a) && DistinctDocs(b)
    requires BestHit(x + y, f) && f in a + b
    ensures BestHit(a + b, f)
  {
    var m: nat :| IsBest(x + y, m) && (x + y)[m] == f;
    MergedFrom(x, a);
    MergedFrom(y, b);
    if m >= |x| {
      NotOnLeft(x, y, m);
      BestFromRight(x, y, a, b, m);
    } else if f in a {
      BestFromLeft(x, y, a, b, m);
    } else {
      BestOfLeft(x, y, m);
      if Doc(f) in Documents(a) {
        var e := EntryOf(x, a, f);
      }
      OnlyThere(a, b, f);
    }
  }

  lemma OnlyThere(a: seq<Hit>, b: seq<Hit>, f: Hit)
    requires DistinctDocs(b) && f in b && Doc(f) !in Documents(a)
    ensures BestHit(a + b, f)
  {
    var n: nat :| n < |b| && b[n] == f;
    var c := a + b;
    InDocuments(a, Doc(f));
    forall i | 0 <= i < |c| && Doc(c[i]) == Doc(f) ensures i == |a| + n {
      assert i >= |a| ==> c[i] == b[i - |a|];
    }
    assert IsBest(c, |a| + n) && c[|a| + n] == f;
  }

  lemma ReachedInOrder(z: seq<Hit>, w: seq<Hit>, all: seq<Hit>)
    requires AllBest(z, all) && InOutputOrder(z, all) && ReachesInOrder(w, all)
    ensures InOutputOrder(w, all)
  {
    MergedDocs(z, all, 0);
    forall i, j | 0 <= i < j < |all| ensures Precedes(w, all[i], all[j]) {
      EntriesOrdered(z, all, i, j);
      assert AppearsFirst(w, all, i) && all[j] in w;
      assert Doc(all[j]) !in Documents(all[..i + 1]);
    }
  }

  lemma ReachedBeatsOmitted(z: seq<Hit>, w: seq<Hit>, all: seq<Hit>)
    requires AllBest(z, all) && BeatsOmitted(z, all) && ReachesInOrder(w, all) && forall h :: h in w ==> h in z
    ensures BeatsOmitted(w, all)
  {
    forall i, h | 0 <= i < |all| && BestHit(w, h) && Doc(h) !in Documents(all) ensures Precedes(w, all[i], h) {
      BestIsThere(w, h, h);
      var g := BestExists(z, h);
      assert Precedes(z, all[i], g);
      Inclusion(all[..i + 1], all, 0.0);
      assert AppearsFirst(w, all, i);
    }
  }

  /**
   * With any ties: the composed merge is the merge of everything exactly when each entry of that
   * survives the first merges and appears, in their outputs, before every equally good hit of a
   * document that comes after it or was left out.
   */
  lemma MergeComposesIff(x: seq<Hit>, y: seq<Hit>, k: nat, a: seq<Hit>, b: seq<Hit>, c: seq<Hit>, all: seq<Hit>)
    requires IsMerge(x, k, a) && IsMerge(y, k, b) && IsMerge(a + b, k, c) && IsMerge(x + y, k, all)
    ensures c == all <==> ReachesInOrder(a + b, all)
  {
    MergeComposesScores(x, y, k, a, b, c, all);
    if ReachesInOrder(a + b, all) {
      MergedFrom(x, a);
      MergedFrom(y, b);
      MergedDocs(x, a, 0);
      MergedDocs(y, b, 0);
      forall i | 0 <= i < |all| ensures BestHit(a + b, all[i]) {
        ReachedIsBest(x, y, a, b, all[i]);
      }
      ReachedInOrder(x + y, a + b, all);
      ReachedBeatsOmitted(x + y, a + b, all);
      MergeIsUnique(a + b, k, c, all);
    }
    if c == all {
      MergeReachesInOrder(a + b, all);
    }
  }

  // ----- on results ---------------------------------------------------------------------------

  /** A merge's output columns hold exactly the hits it kept. */
  lemma {:induction false} ColumnsRoundTrip(hits: seq<Hit>)
    ensures HitsOf(Columns(hits)) == hits
  {
    ColumnsRows(hits, |hits|);
  }

  lemma {:induction false} ColumnsRows(hits: seq<Hit>, n: nat)
    requires n <= |hits|
    ensures var c := Columns(hits); Rows(c.distances[0], c.documents[0], c.metadatas[0], n) == hits[..n]
  {
    if n > 0 {
      ColumnsRows(hits, n - 1);
    }
  }

  lemma AllHitsSnoc(r: seq<QueryResult>, last: QueryResult)
    ensures AllHits(r + [last]) == AllHits(r) + HitsOf(last)
  {
  }

  lemma {:induction false} AllHitsConcat(r: seq<QueryResult>, s: seq<QueryResult>)
    ensures AllHits(r + s) == AllHits(r) + AllHits(s)
  {
    if s == [] {
      assert r + s == r;
    } else {
      var front, last := s[..|s| - 1], s[|s| - 1];
      assert AllHits(r + s) == AllHits(r + front) + HitsOf(last) by {
        assert r + s == (r + front) + [last];
        AllHitsSnoc(r + front, last);
      }
      assert AllHits(s) == AllHits(front) + HitsOf(last) by {
        assert s == front + [last];
        AllHitsSnoc(front, last);
      }
      AllHitsConcat(r, front);
      Regroup(AllHits(r), AllHits(front), HitsOf(last));
    }
  }

  lemma OutputHits(a: seq<Hit>, b: seq<Hit>)
    ensures AllHits([Columns(a), Columns(b)]) == a + b
  {
    assert AllHits([Columns(a)]) == a by {
      AllHitsSnoc([], Columns(a));
      assert [] + [Columns(a)] == [Columns(a)];
      ColumnsRoundTrip(a);
    }
    AllHitsSnoc([Columns(a)], Columns(b));
    ColumnsRoundTrip(b);
  }

  lemma MergedHitsCompose(x: seq<Hit>, y: seq<Hit>, k: nat)
    ensures var c, all := MergedHits(MergedHits(x, k) + MergedHits(y, k), k), MergedHits(x + y, k);
      && |c| == |all|
      && (forall i :: 0 <= i < |c| ==> c[i].score == all[i].score)
      && (TiesApart(x, y) ==> c == all)
      && (c == all <==> ReachesInOrder(MergedHits(x, k) + MergedHits(y, k), all))
  {
    var a, b := MergedHits(x, k), MergedHits(y, k);
    var c, all := MergedHits(a + b, k), MergedHits(x + y, k);
    MergedHitsIsMerge(x, k);
    MergedHitsIsMerge(y, k);
    MergedHitsIsMerge(a + b, k);
    MergedHitsIsMerge(x + y, k);
    MergeComposesScores(x, y, k, a, b, c, all);
    MergeComposesIff(x, y, k, a, b, c, all);
    if TiesApart(x, y) {
      MergeComposes(x, y, k, a, b, c, all);
    }
  }

  lemma SameScores(c: seq<Hit>, all: seq<Hit>)
    requires |c| == |all| && forall i :: 0 <= i < |c| ==> c[i].score == all[i].score
    ensures Columns(c).distances == Columns(all).distances
  {
    assert Columns(c).distances[0] == Columns(all).distances[0];
  }

  /** What merging gives, as a result. */
  function Merged(results: seq<QueryResult>, k: int): QueryResult {
    Columns(MergedHits(AllHits(results), k))
  }

  /**
   * Merge `r` and `s` separately, then merge the two outputs: the same distances column as merging
   * `r + s` at once, and the same result altogether exactly when its hits reach the second merge in
   * their order, as they do when documents with tied best scores occur on one side only.
   */
  lemma MergeOfMerges(r: seq<QueryResult>, s: seq<QueryResult>, k: nat)
    ensures Merged([Merged(r, k), Merged(s, k)], k).distances == Merged(r + s, k).distances
    ensures Merged([Merged(r, k), Merged(s, k)], k) == Merged(r + s, k) <==>
      ReachesInOrder(AllHits([Merged(r, k), Merged(s, k)]), MergedHits(AllHits(r + s), k))
    ensures TiesApart(AllHits(r), AllHits(s)) ==> Merged([Merged(r, k), Merged(s, k)], k) == Merged(r + s, k)
  {
    var x, y := AllHits(r), AllHits(s);
    AllHitsConcat(r, s);
    OutputHits(MergedHits(x, k), MergedHits(y, k));
    MergedHitsCompose(x, y, k);
    ColumnsRoundTrip(MergedHits(MergedHits(x, k) + MergedHits(y, k), k));
    ColumnsRoundTrip(MergedHits(x + y, k));
    SameScores(MergedHits(MergedHits(x, k) + MergedHits(y, k), k), MergedHits(x + y, k));
  }

  lemma SortTwo(a: Hit, b: Hit)
    ensures SortDescending([a, b]) == if b.score > a.score then [b, a] else [a, b]
  {
  }

  lemma CombineTwo(a: Hit, b: Hit)
    requires Doc(a) != Doc(b)
    ensures Combine([a, b]) == [a, b]
  {
    assert [a, b][..1] == [a] && [a][..0] == [];
    assert Combine([a]) == [a];
  }

  lemma TopOfTwo(a: Hit, b: Hit)
    requires Doc(a) != Doc(b)
    ensures MergedHits([a, b], 1) == [if b.score > a.score then b else a]
  {
    CombineTwo(a, b);
    SortTwo(a, b);
  }

  lemma SortOne(a: Hit)
    ensures SortDescending([a]) == [a]
  {
    var front: seq<Hit> := [a][..0];
    assert |SortDescending(front)| == 0;
    assert SortDescending([a]) == InsertAt(SortDescending(front), Slot(SortDescending(front), a.score), a);
  }

  lemma OnlyOne(a: Hit)
    ensures MergedHits([a], 1) == [a]
  {
    assert [a][..0] == [];
    assert Combine([a]) == [a];
    SortOne(a);
  }

  /** A document improved later keeps the place of its first appearance. */
  lemma ImprovedKeepsPlace(low: Hit, other: Hit, tie: Hit)
    requires Doc(low) == Doc(tie) != Doc(other) && low.score < tie.score == other.score
    ensures MergedHits([low, other] + [tie], 1) == [tie]
  {
    CombineTwo(low, other);
    assert ([low, other] + [tie])[..2] == [low, other];
    assert Combine([low, other] + [tie]) == [tie, other];
    SortTwo(tie, other);
  }

  /**
   * Ties of a document in both lists can change the documents: here "D" opens the first list with a low
   * score, is cut, and returns with a tied score; merging at once ranks it by that first place.
   */
  lemma TiesCanChangeDocuments()
    ensures exists x: seq<Hit>, y: seq<Hit>, k: nat ::
      MergedHits(MergedHits(x, k) + MergedHits(y, k), k) != MergedHits(x + y, k)
  {
    var low, tie, other := Scored(1.0, Found("D", Null)), Scored(5.0, Found("D", Null)), Scored(5.0, Found("B", Null));
    assert Doc(low)[0] != Doc(other)[0];
    TopOfTwo(low, other);
    OnlyOne(tie);
    TopOfTwo(other, tie);
    ImprovedKeepsPlace(low, other, tie);
    assert [other] + [tie] == [other, tie];
    assert MergedHits(MergedHits([low, other], 1) + MergedHits([tie], 1), 1) != MergedHits([low, other] + [tie], 1);
  }
}
