/**
 * Recursion through stored pointers.  A call on a record calls itself on the records it points to
 * and raises once it is nested deeper than the interpreter's recursion limit.
 */
module PointerGraph {
  import opened Basics

  /** The records a call on this record recurses into. */
  type Pointers = string -> seq<string>

  /** A call on `x` with `limit` frames left returns. */
  ghost predicate Completes(next: Pointers, x: string, limit: nat)
    decreases limit
  {
    limit > 0 && forall y :: y in next(x) ==> Completes(next, y, limit - 1)
  }

  /** The calls a list of pointers makes, one after the other, all return. */
  ghost predicate AllComplete(next: Pointers, ids: seq<string>, limit: nat) {
    ids == [] || (AllComplete(next, ids[..|ids| - 1], limit) && Completes(next, ids[|ids| - 1], limit))
  }

  lemma {:induction false} AllCompleteMeans(next: Pointers, ids: seq<string>, limit: nat)
    ensures AllComplete(next, ids, limit) <==> forall id :: id in ids ==> Completes(next, id, limit)
  {
    if ids != [] {
      var front, last := ids[..|ids| - 1], ids[|ids| - 1];
      AllCompleteMeans(next, front, limit);
      assert ids == front + [last];
      assert (forall id :: id in front ==> id in ids) && last in ids;
    }
  }

  lemma {:induction false} AllCompleteSplits(next: Pointers, a: seq<string>, b: seq<string>, limit: nat)
    ensures AllComplete(next, a + b, limit) <==> AllComplete(next, a, limit) && AllComplete(next, b, limit)
  {
    if b == [] {
      assert a + b == a;
    } else {
      AllCompleteSplits(next, a, b[..|b| - 1], limit);
      assert (a + b)[..|a + b| - 1] == a + b[..|b| - 1];
    }
  }

  lemma AllCompleteSnoc(next: Pointers, front: seq<string>, last: string, limit: nat)
    ensures AllComplete(next, front + [last], limit) <==>
      AllComplete(next, front, limit) && Completes(next, last, limit)
  {
  }

  /** A call returns exactly when it has a frame and the calls it makes return with the rest. */
  lemma CompletesUnfolds(next: Pointers, x: string, limit: nat)
    ensures Completes(next, x, limit) <==> limit > 0 && AllComplete(next, next(x), limit - 1)
  {
    if limit > 0 {
      AllCompleteMeans(next, next(x), limit - 1);
    }
  }

  ghost predicate IsPath(next: Pointers, p: seq<string>) {
    p != [] && forall i :: 0 <= i < |p| - 1 ==> p[i + 1] in next(p[i])
  }

  /** Following the pointers from `x` leads into a cycle. */
  ghost predicate ReachesCycle(next: Pointers, x: string) {
    exists p, i, j :: CycleOn(next, x, p, i, j)
  }

  ghost predicate CycleOn(next: Pointers, x: string, p: seq<string>, i: nat, j: nat) {
    IsPath(next, p) && p[0] == x && i < j < |p| && p[i] == p[j]
  }

  lemma {:induction false} CompletesAlong(next: Pointers, p: seq<string>, i: nat, limit: nat)
    requires IsPath(next, p) && i < |p| && Completes(next, p[0], limit)
    ensures i < limit && Completes(next, p[i], limit - i)
  {
    if i > 0 {
      CompletesAlong(next, p, i - 1, limit);
      assert p[i - 1 + 1] in next(p[i - 1]);
    }
  }

  lemma {:induction false} LoopNeverCompletes(next: Pointers, p: seq<string>, limit: nat)
    requires IsPath(next, p) && |p| > 1 && p[0] == p[|p| - 1]
    ensures !Completes(next, p[0], limit)
    decreases limit
  {
    if Completes(next, p[0], limit) {
      CompletesAlong(next, p, |p| - 1, limit);
      LoopNeverCompletes(next, p, limit - (|p| - 1));
    }
  }

  /** Whatever the limit, a call that reaches a cycle does not return. */
  lemma CycleNeverCompletes(next: Pointers, x: string, limit: nat)
    requires ReachesCycle(next, x)
    ensures !Completes(next, x, limit)
  {
    var p, i, j :| CycleOn(next, x, p, i, j);
    if Completes(next, x, limit) {
      CompletesAlong(next, p, i, limit);
      LoopNeverCompletes(next, p[i..j + 1], limit - i);
    }
  }

  /** A call that runs out of frames has followed a path as long as the limit. */
  lemma {:induction false} LongPath(next: Pointers, x: string, limit: nat) returns (p: seq<string>)
    requires !Completes(next, x, limit)
    ensures IsPath(next, p) && p[0] == x && |p| == limit + 1
    decreases limit
  {
    if limit == 0 {
      p := [x];
    } else {
      var y :| y in next(x) && !Completes(next, y, limit - 1);
      var q := LongPath(next, y, limit - 1);
      p := [x] + q;
      forall i | 0 <= i < |p| - 1 ensures p[i + 1] in next(p[i]) {
        assert i > 0 ==> p[i] == q[i - 1];
      }
    }
  }

  ghost predicate Closed(next: Pointers, records: set<string>) {
    forall x :: x in records ==> forall y :: y in next(x) ==> y in records
  }

  lemma {:induction false} PathStays(next: Pointers, records: set<string>, p: seq<string>, i: nat)
    requires IsPath(next, p) && Closed(next, records) && p[0] in records && i < |p|
    ensures p[i] in records
  {
    if i > 0 {
      PathStays(next, records, p, i - 1);
      assert p[i - 1 + 1] in next(p[i - 1]);
    }
  }

  /**
   * In a store of `records`, a limit of one frame per record is enough for a call exactly when it
   * reaches no cycle; otherwise no limit is.
   */
  lemma CompletesIffNoCycle(next: Pointers, records: set<string>, x: string)
    requires Closed(next, records) && x in records
    ensures Completes(next, x, |records|) <==> !ReachesCycle(next, x)
    ensures ReachesCycle(next, x) ==> forall limit: nat :: !Completes(next, x, limit)
  {
    if ReachesCycle(next, x) {
      forall limit: nat ensures !Completes(next, x, limit) {
        CycleNeverCompletes(next, x, limit);
      }
    } else if !Completes(next, x, |records|) {
      var p := LongPath(next, x, |records|);
      if NoRepeats(p) {
        NoRepeatsCounts(p);
        forall y | y in Elements(p) ensures y in records {
          var i: nat :| i < |p| && p[i] == y;
          PathStays(next, records, p, i);
        }
        SubsetCounts(Elements(p), records);
      } else {
        var i, j :| 0 <= i < j < |p| && p[i] == p[j];
        assert CycleOn(next, x, p, i, j);
      }
    }
  }

  lemma {:induction false} CompletesMonotone(next: Pointers, x: string, limit: nat, more: nat)
    requires Completes(next, x, limit) && limit <= more
    ensures Completes(next, x, more)
    decreases limit
  {
    forall y | y in next(x) ensures Completes(next, y, more - 1) {
      CompletesMonotone(next, y, limit - 1, more - 1);
    }
  }

  /** A measure that every pointer decreases bounds the depth. */
  lemma {:induction false} MeasureCompletes(next: Pointers, measure: string -> nat, x: string)
    requires forall u, v :: v in next(u) ==> measure(v) < measure(u)
    ensures Completes(next, x, measure(x) + 1)
    decreases measure(x)
  {
    forall y | y in next(x) ensures Completes(next, y, measure(x)) {
      MeasureCompletes(next, measure, y);
      CompletesMonotone(next, y, measure(y) + 1, measure(x));
    }
  }

  // ----- adding a pointer ----------------------------------------------------------------------------

  ghost predicate NoCycles(next: Pointers) {
    forall x :: !ReachesCycle(next, x)
  }

  /** Pointers lead from `b` to `a` in zero or more steps. */
  ghost predicate Leads(next: Pointers, b: string, a: string) {
    exists p :: IsPath(next, p) && p[0] == b && p[|p| - 1] == a
  }

  ghost predicate SameCalls(next: Pointers, after: Pointers, x: string) {
    forall y :: y in after(x) <==> y in next(x)
  }

  /** A record `n` that nothing points to was added; elsewhere only `a` may have changed. */
  ghost predicate AddsRecord(next: Pointers, after: Pointers, n: string, a: string) {
    && next(n) == [] && (forall x :: n !in after(x))
    && (forall x :: x != n && x != a ==> SameCalls(next, after, x))
  }

  /** And `a` points to `b` too now. */
  ghost predicate AddsPointer(next: Pointers, after: Pointers, n: string, a: string, b: string) {
    && AddsRecord(next, after, n, a) && a != n && b != n
    && (forall y :: y in after(a) <==> y in next(a) || y == b)
  }

  lemma NotAdded(next: Pointers, after: Pointers, n: string, a: string, p: seq<string>, i: nat)
    requires AddsRecord(next, after, n, a) && IsPath(after, p) && 0 < i < |p|
    ensures p[i] != n
  {
    assert p[i - 1 + 1] in after(p[i - 1]);
  }

  /** A cycle among the new pointers, with no step over the added one, was there before. */
  lemma OldCycle(next: Pointers, p: seq<string>, i: nat, j: nat)
    requires i < j < |p| && p[i] == p[j]
    requires forall k :: i <= k < j ==> p[k + 1] in next(p[k])
    ensures ReachesCycle(next, p[i])
  {
    var q := p[i..j + 1];
    assert CycleOn(next, p[i], q, 0, j - i);
  }

  lemma NoPointersNoCycle(next: Pointers, x: string)
    requires next(x) == []
    ensures !ReachesCycle(next, x)
  {
    assert Completes(next, x, 1);
    if ReachesCycle(next, x) {
      CycleNeverCompletes(next, x, 1);
    }
  }

  lemma NoneAdded(next: Pointers, after: Pointers, n: string)
    requires NoCycles(next) && AddsRecord(next, after, n, n)
    ensures NoCycles(after)
  {
    forall x ensures !ReachesCycle(after, x) {
      if ReachesCycle(after, x) {
        var p, i: nat, j: nat :| CycleOn(after, x, p, i, j);
        forall k | i <= k < j ensures p[k + 1] in next(p[k]) {
          NotAdded(next, after, n, n, p, if k > i then k else j);
          assert SameCalls(next, after, p[k]);
        }
        OldCycle(next, p, i, j);
      }
    }
  }

  lemma {:induction false} LeadsBefore(next: Pointers, after: Pointers, n: string, a: string, b: string, p: seq<string>)
    requires AddsPointer(next, after, n, a, b) && IsPath(after, p) && p[0] == b && p[|p| - 1] == a
    ensures Leads(next, b, a)
    decreases |p|
  {
    if k :| 0 <= k < |p| - 1 && p[k] == a {
      LeadsBefore(next, after, n, a, b, p[..k + 1]);
    } else {
      forall i | 0 <= i < |p| - 1 ensures p[i + 1] in next(p[i]) {
        if i > 0 {
          NotAdded(next, after, n, a, p, i);
        }
        assert SameCalls(next, after, p[i]);
      }
      assert IsPath(next, p);
    }
  }

  /** The way round from `b` to `a`, when a cycle steps from `a` to `b` at `k`. */
  lemma WayRound(after: Pointers, p: seq<string>, i: nat, j: nat, k: nat) returns (q: seq<string>)
    requires IsPath(after, p) && i <= k < j < |p| && p[i] == p[j]
    ensures IsPath(after, q) && q[0] == p[k + 1] && q[|q| - 1] == p[k]
  {
    q := p[k + 1..j + 1] + p[i + 1..k + 1];
    forall m | 0 <= m < |q| - 1 ensures q[m + 1] in after(q[m]) {
      if m < j - k - 1 {
        assert q[m] == p[k + 1 + m] && q[m + 1] == p[k + 1 + m + 1];
      } else if m == j - k - 1 {
        assert q[m] == p[j] == p[i] && q[m + 1] == p[i + 1];
      } else {
        assert q[m] == p[i + 1 + (m - (j - k))] && q[m + 1] == p[i + 1 + (m - (j - k)) + 1];
      }
    }
  }

  lemma CycleNeedsPointer(next: Pointers, after: Pointers, n: string, a: string, b: string, x: string)
    requires NoCycles(next) && AddsPointer(next, after, n, a, b) && ReachesCycle(after, x)
    ensures Leads(next, b, a)
  {
    var p, i: nat, j: nat :| CycleOn(after, x, p, i, j);
    if k :| i <= k < j && p[k] == a && p[k + 1] == b {
      var q := WayRound(after, p, i, j, k);
      LeadsBefore(next, after, n, a, b, q);
    } else {
      forall k | i <= k < j ensures p[k + 1] in next(p[k]) {
        NotAdded(next, after, n, a, p, if k > i then k else j);
        assert p[k] != a ==> SameCalls(next, after, p[k]);
      }
      OldCycle(next, p, i, j);
    }
  }

  lemma PointerClosesCycle(next: Pointers, after: Pointers, n: string, a: string, b: string)
    requires AddsPointer(next, after, n, a, b) && Leads(next, b, a)
    ensures ReachesCycle(after, a)
  {
    var p :| IsPath(next, p) && p[0] == b && p[|p| - 1] == a;
    var q := [a] + p;
    forall i | 0 <= i < |q| - 1 ensures q[i + 1] in after(q[i]) {
      if i > 0 {
        assert q[i] == p[i - 1] && p[i - 1 + 1] in next(p[i - 1]);
        assert SameCalls(next, after, p[i - 1]) || p[i - 1] == a;
      }
    }
    assert CycleOn(after, a, q, 0, |q| - 1);
  }

  /**
   * Adding a record and one more pointer, from `a` to `b`, keeps the pointers free of cycles exactly
   * when they did not lead from `b` to `a`.
   */
  lemma PointerKeepsAcyclicIff(next: Pointers, after: Pointers, n: string, a: string, b: string)
    requires NoCycles(next) && AddsPointer(next, after, n, a, b)
    ensures NoCycles(after) <==> !Leads(next, b, a)
  {
    if Leads(next, b, a) {
      PointerClosesCycle(next, after, n, a, b);
    } else {
      forall x ensures !ReachesCycle(after, x) {
        if ReachesCycle(after, x) {
          CycleNeedsPointer(next, after, n, a, b, x);
        }
      }
    }
  }
}
