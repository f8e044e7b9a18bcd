/** Shared vocabulary: optional values and a few facts about sequences, sets and Python slices. */
module Basics {

  datatype Option<+T> = None | Some(value: T)

  function Min(a: int, b: int): int { if a < b then a else b }

  function Max(a: int, b: int): int { if a < b then b else a }

  /** How many elements `s[:k]` keeps of a list of `n`: a negative `k` counts from the end. */
  function PrefixLength(k: int, n: nat): (r: nat)
    ensures r <= n
    ensures r == 0 <==> n == 0 || k == 0 || n + k <= 0
  {
    if k >= 0 then Min(k, n) else Max(0, n + k)
  }

  function Elements<T>(s: seq<T>): set<T> { set x | x in s }

  ghost predicate NoRepeats<T>(s: seq<T>) {
    forall i, j :: 0 <= i < j < |s| ==> s[i] != s[j]
  }

  lemma {:induction false} NoRepeatsCounts<T>(s: seq<T>)
    requires NoRepeats(s)
    ensures |Elements(s)| == |s|
  {
    if s != [] {
      var front, last := s[..|s| - 1], s[|s| - 1];
      NoRepeatsCounts(front);
      assert Elements(s) == Elements(front) + {last};
      assert last !in Elements(front);
    } else {
      assert Elements(s) == {};
    }
  }

  lemma Regroup<T>(a: seq<T>, b: seq<T>, c: seq<T>)
    ensures (a + b) + c == a + (b + c)
  {
  }

  lemma {:induction false} SubsetCounts<T>(a: set<T>, b: set<T>)
    requires a <= b
    ensures |a| <= |b|
    ensures |a| == |b| ==> a == b
  {
    if x :| x in a {
      SubsetCounts(a - {x}, b - {x});
    }
  }
}
