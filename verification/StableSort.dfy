/**
 * Python's `sort(key=score, reverse=True)`: descending by score, entries of equal score keep
 * their order.  The library sort is modelled by insertion; what it computes is stated through
 * the positions its output takes from its input.
 */
module StableSort {

  datatype Scored<+T> = Scored(score: real, item: T)

  function InsertAt<T>(s: seq<T>, k: nat, x: T): (r: seq<T>)
    requires k <= |s|
    ensures |r| == |s| + 1 && r[k] == x
    ensures forall i :: 0 <= i < k ==> r[i] == s[i]
    ensures forall i :: k < i < |r| ==> r[i] == s[i - 1]
  {
    s[..k] + [x] + s[k..]
  }

  /** Where a later entry goes: behind every entry that scores at least as much. */
  function Slot<T>(s: seq<Scored<T>>, score: real): (k: nat)
    ensures k <= |s|
    ensures k > 0 ==> s[k - 1].score >= score
    ensures forall j :: k <= j < |s| ==> s[j].score < score
  {
    if s == [] || s[|s| - 1].score >= score then |s| else Slot(s[..|s| - 1], score)
  }

  function SortDescending<T>(s: seq<Scored<T>>): (r: seq<Scored<T>>)
    ensures |r| == |s|
  {
    if s == [] then []
    else
      var sorted := SortDescending(s[..|s| - 1]);
      var last := s[|s| - 1];
      InsertAt(sorted, Slot(sorted, last.score), last)
  }

  /** `p` lists, in output order, the input positions of a stable descending sort. */
  ghost predicate IsStableOrder<T>(s: seq<Scored<T>>, p: seq<nat>) {
    && |p| == |s|
    && (forall i :: 0 <= i < |p| ==> p[i] < |s|)
    && (forall i, j :: 0 <= i < j < |p| ==>
          s[p[i]].score > s[p[j]].score || (s[p[i]].score == s[p[j]].score && p[i] < p[j]))
    && (forall m :: 0 <= m < |s| ==> m in p)
  }

  /** `r` is `s` read in the order `p`. */
  ghost predicate Reads<T>(s: seq<T>, p: seq<nat>, r: seq<T>) {
    |r| == |p| && forall i :: 0 <= i < |p| ==> p[i] < |s| && r[i] == s[p[i]]
  }

  /** The sort's output is its input read in stable order. */
  lemma {:induction false} SortIsStable<T>(s: seq<Scored<T>>) returns (p: seq<nat>)
    ensures IsStableOrder(s, p)
    ensures Reads(s, p, SortDescending(s))
    decreases |s|, 1
  {
    if s == [] {
      p := [];
      assert |SortDescending(s)| == 0;
    } else {
      p := OneMoreIsStable(s);
    }
  }

  lemma {:induction false} OneMoreIsStable<T>(s: seq<Scored<T>>) returns (p: seq<nat>)
    requires s != []
    ensures IsStableOrder(s, p)
    ensures Reads(s, p, SortDescending(s))
    decreases |s|, 0
  {
    var front, last := s[..|s| - 1], s[|s| - 1];
    assert s == front + [last];
    var q := SortIsStable(front);
    p := InsertAt(q, Slot(SortDescending(front), last.score), |front|);
    InsertKeepsOrder(front, q, last, SortDescending(front), p);
  }

  lemma InsertKeepsOrder<T>(front: seq<Scored<T>>, q: seq<nat>, last: Scored<T>, sorted: seq<Scored<T>>, p: seq<nat>)
    requires IsStableOrder(front, q) && Reads(front, q, sorted)
    requires p == InsertAt(q, Slot(sorted, last.score), |front|)
    ensures IsStableOrder(front + [last], p)
    ensures Reads(front + [last], p, InsertAt(sorted, Slot(sorted, last.score), last))
  {
    var k, s := Slot(sorted, last.score), front + [last];
    var r := InsertAt(sorted, k, last);
    forall i | 0 <= i < |p| ensures p[i] < |s| && r[i] == s[p[i]] {
      assert i < k ==> p[i] == q[i] && r[i] == sorted[i];
      assert i > k ==> p[i] == q[i - 1] && r[i] == sorted[i - 1];
    }
    forall m | 0 <= m < |s| ensures m in p {
      InsertCovers(q, k, |front|, m);
    }
    forall i, j | 0 <= i < j < |p|
      ensures s[p[i]].score > s[p[j]].score || (s[p[i]].score == s[p[j]].score && p[i] < p[j])
    {
      InsertOrdersPair(front, q, last, sorted, p, i, j);
    }
  }

  lemma InsertCovers(q: seq<nat>, k: nat, n: nat, m: nat)
    requires k <= |q| && (m == n || m in q)
    ensures m in InsertAt(q, k, n)
  {
  }

  lemma InsertOrdersPair<T>(front: seq<Scored<T>>, q: seq<nat>, last: Scored<T>, sorted: seq<Scored<T>>,
                            p: seq<nat>, i: nat, j: nat)
    requires IsStableOrder(front, q) && Reads(front, q, sorted)
    requires p == InsertAt(q, Slot(sorted, last.score), |front|)
    requires i < j < |p|
    ensures p[i] <= |front| && p[j] <= |front|
    ensures var s := front + [last];
      s[p[i]].score > s[p[j]].score || (s[p[i]].score == s[p[j]].score && p[i] < p[j])
  {
    var k := Slot(sorted, last.score);
    if i == k {
      assert p[j] == q[j - 1] && sorted[j - 1].score < last.score;
    } else if j == k {
      AboveSlot(front, q, last, sorted, i);
      assert p[i] == q[i];
    } else {
      assert p[i] == q[if i < k then i else i - 1];
      assert p[j] == q[if j < k then j else j - 1];
    }
  }

  lemma AboveSlot<T>(front: seq<Scored<T>>, q: seq<nat>, last: Scored<T>, sorted: seq<Scored<T>>, i: nat)
    requires IsStableOrder(front, q) && Reads(front, q, sorted)
    requires i < Slot(sorted, last.score)
    ensures i < |q| && q[i] < |front| && front[q[i]].score >= last.score
  {
    var k := Slot(sorted, last.score);
    assert sorted[k - 1].score >= last.score;
    assert i < k - 1 ==> front[q[i]].score >= front[q[k - 1]].score;
  }
}
