/**
 * Deleting a folder with everything below it (backend/open_webui/models/folders.py:279-309): the
 * rows are deleted while the tree is still being walked.
 */
module FolderDeletion {
  import opened Basics
  import opened Folders
  import opened PointerGraph

  // ----- a listing repeats no folder -------------------------------------------------------------

  lemma KeyedJoin(a: seq<Folder>, b: seq<Folder>)
    requires Keyed(a) && Keyed(b) && forall f, g :: f in a && g in b ==> f.id != g.id
    ensures Keyed(a + b)
  {
  }

  lemma {:induction false} ChildrenKeyed(rows: Rows, id: string, user: string)
    requires Keyed(rows)
    ensures Keyed(ChildrenOf(rows, id, user))
  {
    if rows != [] {
      var front, last := rows[..|rows| - 1], rows[|rows| - 1];
      ChildrenKeyed(front, id, user);
      forall f | f in ChildrenOf(front, id, user) ensures f.id != last.id {
        InChildren(front, id, user, f);
      }
      if last.parent == Some(id) && last.user == user {
        KeyedJoin(ChildrenOf(front, id, user), [last]);
      }
    }
  }

  /** Folders in the branches of two different children that can be listed are different. */
  lemma BranchesDiffer(rows: Rows, user: string, id: string, limit: nat, a: string, b: string, x: string, m: nat,
                       n: nat)
    requires Below(rows, user, a, limit).Some? && Below(rows, user, b, limit).Some? && a != b
    requires Up(rows, user, a) == Some(id) && Up(rows, user, b) == Some(id)
    requires Descends(rows, user, x, a, m)
    ensures !Descends(rows, user, x, b, n)
  {
    if Descends(rows, user, x, b, n) {
      if m <= n {
        OneBranch(rows, user, id, limit, a, b, x, m, n);
      } else {
        OneBranch(rows, user, id, limit, b, a, x, n, m);
      }
    }
  }

  lemma OneBranch(rows: Rows, user: string, id: string, limit: nat, a: string, b: string, x: string, m: nat, n: nat)
    requires Below(rows, user, b, limit).Some?
    requires Up(rows, user, a) == Some(id) && Up(rows, user, b) == Some(id)
    requires Descends(rows, user, x, a, m) && Descends(rows, user, x, b, n) && m <= n
    ensures a == b
  {
    AncestorsOrdered(rows, user, x, a, b, m, n);
    if m < n {
      assert Descends(rows, user, id, b, n - m - 1);
      assert Descends(rows, user, b, b, n - m);
      OwnAncestorNeverLists(rows, user, b, limit, n - m);
    }
  }

  /** The listed folder is `k` or descends from it. */
  lemma PartDescends(rows: Rows, user: string, k: Folder, limit: nat, f: Folder) returns (n: nat)
    requires Keyed(rows) && Below(rows, user, k.id, limit).Some?
    requires f == k || f in Below(rows, user, k.id, limit).value
    ensures Descends(rows, user, f.id, k.id, n)
    ensures f != k ==> n > 0
  {
    if f == k {
      n := 0;
    } else {
      n := BelowDescends(rows, user, k.id, limit, f);
    }
  }

  lemma BranchKeyed(rows: Rows, user: string, k: Folder, limit: nat)
    requires Keyed(rows) && Below(rows, user, k.id, limit).Some? && Keyed(Below(rows, user, k.id, limit).value)
    ensures Keyed(Below(rows, user, k.id, limit).value + [k])
  {
    forall f | f in Below(rows, user, k.id, limit).value ensures f.id != k.id {
      var n := BelowDescends(rows, user, k.id, limit, f);
      if f.id == k.id {
        OwnAncestorNeverLists(rows, user, k.id, limit, n);
      }
    }
    KeyedJoin(Below(rows, user, k.id, limit).value, [k]);
  }

  lemma FoldersDiffer(rows: Rows, user: string, id: string, limit: nat, n: nat, f: Folder, g: Folder)
    requires Keyed(rows) && n < |ChildrenOf(rows, id, user)|
    requires var before := BelowAll(rows, user, ChildrenOf(rows, id, user)[..n], limit);
      before.Some? && f in before.value
    requires var k := ChildrenOf(rows, id, user)[n];
      Below(rows, user, k.id, limit).Some? && (g == k || g in Below(rows, user, k.id, limit).value)
    ensures f.id != g.id
  {
    var children := ChildrenOf(rows, id, user);
    var k := children[n];
    var j := BelowAllFrom(rows, user, children[..n], limit, f);
    var i :| 0 <= i < n && children[..n][i] == j;
    ChildrenKeyed(rows, id, user);
    assert children[i].id != children[n].id;
    ChildDescends(rows, user, id, j);
    ChildDescends(rows, user, id, k);
    var a := PartDescends(rows, user, j, limit, f);
    var b := PartDescends(rows, user, k, limit, g);
    BranchesDiffer(rows, user, id, limit, j.id, k.id, f.id, a, b);
  }

  /** A listing repeats no folder: neither within the branch of a child nor between two. */
  lemma {:induction false} BelowKeyed(rows: Rows, user: string, id: string, limit: nat)
    requires Keyed(rows) && Below(rows, user, id, limit).Some?
    ensures Keyed(Below(rows, user, id, limit).value)
    decreases limit, 0
  {
    if limit > 0 {
      var children := ChildrenOf(rows, id, user);
      assert children[..|children|] == children;
      BranchesKeyed(rows, user, id, limit - 1, |children|);
    }
  }

  lemma {:induction false} BranchesKeyed(rows: Rows, user: string, id: string, limit: nat, n: nat)
    requires Keyed(rows) && n <= |ChildrenOf(rows, id, user)|
    requires BelowAll(rows, user, ChildrenOf(rows, id, user)[..n], limit).Some?
    ensures Keyed(BelowAll(rows, user, ChildrenOf(rows, id, user)[..n], limit).value)
    decreases limit, n + 1
  {
    var children := ChildrenOf(rows, id, user);
    if n > 0 {
      BelowAllStep(rows, user, children, limit, n - 1);
      BranchesKeyed(rows, user, id, limit, n - 1);
      BelowKeyed(rows, user, children[n - 1].id, limit);
      BranchJoins(rows, user, id, limit, n - 1);
    }
  }

  lemma BranchJoins(rows: Rows, user: string, id: string, limit: nat, n: nat)
    requires Keyed(rows) && n < |ChildrenOf(rows, id, user)|
    requires var before := BelowAll(rows, user, ChildrenOf(rows, id, user)[..n], limit);
      before.Some? && Keyed(before.value)
    requires var below := Below(rows, user, ChildrenOf(rows, id, user)[n].id, limit); below.Some? && Keyed(below.value)
    ensures
      var k := ChildrenOf(rows, id, user)[n];
      var before := BelowAll(rows, user, ChildrenOf(rows, id, user)[..n], limit).value;
      Keyed(before + Below(rows, user, k.id, limit).value + [k])
  {
    var k := ChildrenOf(rows, id, user)[n];
    var before := BelowAll(rows, user, ChildrenOf(rows, id, user)[..n], limit).value;
    var branch := Below(rows, user, k.id, limit).value + [k];
    BranchKeyed(rows, user, k, limit);
    forall f, g | f in before && g in branch ensures f.id != g.id {
      FoldersDiffer(rows, user, id, limit, n, f, g);
    }
    KeyedJoin(before, branch);
    assert before + branch == before + Below(rows, user, k.id, limit).value + [k];
  }

  /** So of two listed folders the one below the other comes first. */
  lemma ListedInOrder(rows: Rows, user: string, id: string, limit: nat, i: nat, j: nat)
    requires Keyed(rows) && Below(rows, user, id, limit).Some?
    requires i < |Below(rows, user, id, limit).value| && j < |Below(rows, user, id, limit).value|
    requires var listed := Below(rows, user, id, limit).value; Under(rows, user, listed[i].id, listed[j].id)
    ensures i < j
  {
    var listed := Below(rows, user, id, limit).value;
    BelowKeyed(rows, user, id, limit);
    ChildrenFirst(rows, user, id, limit, j);
    var l: nat :| Below(rows, user, listed[j].id, l).Some?
                  && forall f :: f in Below(rows, user, listed[j].id, l).value ==> f in listed[..j];
    UnderIsListed(rows, user, listed[j].id, l, listed[i].id);
    var f := ListedId(Below(rows, user, listed[j].id, l).value, listed[i].id);
    var m :| 0 <= m < j && listed[..j][m] == f;
    assert listed[m].id == listed[i].id;
  }

  // ----- walking a table that shrinks ----------------------------------------------------------------

  function Without(rows: Rows, gone: set<string>): Rows {
    if rows == [] then []
    else Without(rows[..|rows| - 1], gone) + if rows[|rows| - 1].id in gone then [] else [rows[|rows| - 1]]
  }

  lemma {:induction false} InWithout(rows: Rows, gone: set<string>, f: Folder)
    ensures f in Without(rows, gone) <==> f in rows && f.id !in gone
  {
    if rows != [] {
      InWithout(rows[..|rows| - 1], gone, f);
      assert rows == rows[..|rows| - 1] + [rows[|rows| - 1]];
    }
  }

  lemma {:induction false} WithoutKeyed(rows: Rows, gone: set<string>)
    requires Keyed(rows)
    ensures Keyed(Without(rows, gone))
  {
    if rows != [] {
      var front, last := rows[..|rows| - 1], rows[|rows| - 1];
      WithoutKeyed(front, gone);
      forall f | f in Without(front, gone) ensures f.id != last.id {
        InWithout(front, gone, f);
      }
      if last.id !in gone {
        KeyedJoin(Without(front, gone), [last]);
      }
    }
  }

  lemma WithoutSnoc(front: Rows, last: Folder, gone: set<string>)
    ensures Without(front + [last], gone) ==
      if last.id in gone then Without(front, gone) else Without(front, gone) + [last]
  {
  }

  lemma ChildrenSnoc(front: Rows, last: Folder, id: string, user: string)
    ensures ChildrenOf(front + [last], id, user) ==
      if last.parent == Some(id) && last.user == user then ChildrenOf(front, id, user) + [last]
      else ChildrenOf(front, id, user)
  {
  }

  lemma {:induction false} WithoutTwice(rows: Rows, a: set<string>, b: set<string>)
    ensures Without(Without(rows, a), b) == Without(rows, a + b)
  {
    if rows != [] {
      var front, last := rows[..|rows| - 1], rows[|rows| - 1];
      WithoutTwice(front, a, b);
      assert rows == front + [last];
      WithoutSnoc(front, last, a);
      WithoutSnoc(front, last, a + b);
      WithoutSnoc(Without(front, a), last, b);
    }
  }

  lemma {:induction false} WithoutNone(rows: Rows, gone: set<string>)
    requires forall f :: f in rows ==> f.id !in gone
    ensures Without(rows, gone) == rows
  {
    if rows != [] {
      assert rows == rows[..|rows| - 1] + [rows[|rows| - 1]];
      WithoutNone(rows[..|rows| - 1], gone);
    }
  }

  lemma {:induction false} ChildrenWithout(rows: Rows, gone: set<string>, id: string, user: string)
    requires forall k :: k in ChildrenOf(rows, id, user) ==> k.id !in gone
    ensures ChildrenOf(Without(rows, gone), id, user) == ChildrenOf(rows, id, user)
  {
    if rows != [] {
      var front, last := rows[..|rows| - 1], rows[|rows| - 1];
      assert rows == front + [last];
      ChildrenSnoc(front, last, id, user);
      ChildrenWithout(front, gone, id, user);
      WithoutSnoc(front, last, gone);
      ChildrenSnoc(Without(front, gone), last, id, user);
      InChildren(rows, id, user, last);
    }
  }

  /** Deleting rows outside a subtree does not change its listing. */
  lemma {:induction false} BelowWithout(rows: Rows, gone: set<string>, user: string, id: string, limit: nat)
    requires Below(rows, user, id, limit).Some?
    requires forall f :: f in Below(rows, user, id, limit).value ==> f.id !in gone
    ensures Below(Without(rows, gone), user, id, limit) == Below(rows, user, id, limit)
    decreases limit, 0
  {
    if limit > 0 {
      var children := ChildrenOf(rows, id, user);
      forall k | k in children ensures k.id !in gone {
        BelowHas(rows, user, id, limit, k, k);
      }
      ChildrenWithout(rows, gone, id, user);
      BelowAllWithout(rows, gone, user, children, limit - 1);
    }
  }

  lemma {:induction false} BelowAllWithout(rows: Rows, gone: set<string>, user: string, folders: seq<Folder>,
                                           limit: nat)
    requires BelowAll(rows, user, folders, limit).Some?
    requires forall f :: f in BelowAll(rows, user, folders, limit).value ==> f.id !in gone
    ensures BelowAll(Without(rows, gone), user, folders, limit) == BelowAll(rows, user, folders, limit)
    decreases limit, |folders| + 1
  {
    if folders != [] {
      BelowAllWithout(rows, gone, user, folders[..|folders| - 1], limit);
      BelowWithout(rows, gone, user, folders[|folders| - 1].id, limit);
    }
  }

  function IdSet(folders: seq<Folder>): set<string> { set f | f in folders :: f.id }

  // ----- a branch that cannot be listed stays so ------------------------------------------------------

  lemma {:induction false} LookupWithout(rows: Rows, gone: set<string>, x: string)
    requires x !in gone
    ensures Lookup(Without(rows, gone), x) == Lookup(rows, x)
  {
    if rows != [] {
      var front, last := rows[..|rows| - 1], rows[|rows| - 1];
      assert rows == front + [last];
      WithoutSnoc(front, last, gone);
      LookupWithout(front, gone, x);
    }
  }

  /** Within some limit the folder can be listed. */
  ghost predicate Listable(rows: Rows, user: string, x: string) {
    exists limit: nat :: Below(rows, user, x, limit).Some?
  }

  ghost predicate AllListable(rows: Rows, user: string, gone: set<string>) {
    forall x :: x in gone ==> Listable(rows, user, x)
  }

  /** A cycle stays when only folders that can be listed go. */
  lemma {:induction false} CycleStays(rows: Rows, user: string, gone: set<string>, y: string, p: nat, x: string, m: nat)
    requires AllListable(rows, user, gone) && p > 0 && Descends(rows, user, y, y, p) && Descends(rows, user, y, x, m)
    ensures Descends(Without(rows, gone), user, y, x, m)
    decreases m
  {
    if m > 0 {
      if y in gone {
        var limit: nat :| Below(rows, user, y, limit).Some?;
        OwnAncestorNeverLists(rows, user, y, limit, p);
      }
      LookupWithout(rows, gone, y);
      var z := Up(rows, user, y).value;
      assert Descends(rows, user, z, z, 0) && Descends(rows, user, y, z, 1);
      DescendsJoin(rows, user, z, y, z, p - 1, 1);
      CycleStays(rows, user, gone, z, p, x, m - 1);
    }
  }

  /**
   * A folder both in the branch of a child that can be listed and below one that cannot: the latter
   * is then its own ancestor.
   */
  lemma LoopsBack(rows: Rows, user: string, id: string, limit: nat, c: string, x: string, z: string, q: nat, e: nat)
    returns (m: nat)
    requires Up(rows, user, c) == Some(id) && Up(rows, user, x) == Some(id)
    requires Below(rows, user, c, limit).Some? && Below(rows, user, x, limit).None?
    requires Descends(rows, user, z, c, q) && Descends(rows, user, z, x, e)
    ensures m > 0 && Descends(rows, user, x, x, m)
  {
    if q < e {
      AncestorsOrdered(rows, user, z, c, x, q, e);
      assert Descends(rows, user, id, x, e - q - 1);
      m := e - q;
    } else {
      AncestorsOrdered(rows, user, z, x, c, e, q);
      if e < q {
        var f := DescendsBelow(rows, user, c, limit, x, q - e);
        BelowMonotone(rows, user, x, limit - (q - e), limit);
      }
    }
  }

  /** With the branches of the first `n` children gone. */
  ghost predicate FirstGone(rows: Rows, user: string, id: string, limit: nat, n: nat, gone: set<string>) {
    && Keyed(rows) && n < |ChildrenOf(rows, id, user)|
    && BelowAll(rows, user, ChildrenOf(rows, id, user)[..n], limit).Some?
    && gone == IdSet(BelowAll(rows, user, ChildrenOf(rows, id, user)[..n], limit).value)
    && Below(rows, user, ChildrenOf(rows, id, user)[n].id, limit).None?
  }

  lemma GoneBranch(rows: Rows, user: string, id: string, limit: nat, n: nat, gone: set<string>, z: string)
    returns (c: Folder, q: nat)
    requires FirstGone(rows, user, id, limit, n, gone) && z in gone
    ensures Up(rows, user, c.id) == Some(id) && Below(rows, user, c.id, limit).Some? && Descends(rows, user, z, c.id, q)
    ensures Listable(rows, user, z)
  {
    var children := ChildrenOf(rows, id, user);
    var f :| f in BelowAll(rows, user, children[..n], limit).value && f.id == z;
    c := BelowAllFrom(rows, user, children[..n], limit, f);
    assert c in children;
    ChildDescends(rows, user, id, c);
    q := PartDescends(rows, user, c, limit, f);
    if q > 0 {
      var g := DescendsBelow(rows, user, c.id, limit, z, q);
    }
  }

  /** Nothing at or below the folder is gone. */
  ghost predicate Spares(rows: Rows, user: string, gone: set<string>, x: string) {
    forall z, e: nat :: Descends(rows, user, z, x, e) ==> z !in gone
  }

  ghost predicate OwnAncestor(rows: Rows, user: string, x: string) {
    exists m: nat :: m > 0 && Descends(rows, user, x, x, m)
  }

  /** The branches walked first hold nothing of the one that cannot be listed, unless that is on a cycle. */
  lemma BranchSpared(rows: Rows, user: string, id: string, limit: nat, n: nat, gone: set<string>)
    requires FirstGone(rows, user, id, limit, n, gone) && !OwnAncestor(rows, user, ChildrenOf(rows, id, user)[n].id)
    ensures Spares(rows, user, gone, ChildrenOf(rows, id, user)[n].id)
  {
    var x := ChildrenOf(rows, id, user)[n];
    ChildDescends(rows, user, id, x);
    forall z, e: nat | Descends(rows, user, z, x.id, e) ensures z !in gone {
      if z in gone {
        var c, q := GoneBranch(rows, user, id, limit, n, gone, z);
        var m := LoopsBack(rows, user, id, limit, c.id, x.id, z, q, e);
      }
    }
  }

  /** Then what its listing failed on is still there. */
  lemma {:induction false} StuckBelow(rows: Rows, user: string, gone: set<string>, x: string, y: string, d: nat,
                                      limit: nat)
    requires Keyed(rows) && Spares(rows, user, gone, x) && Descends(rows, user, y, x, d)
    requires Below(rows, user, y, limit).None?
    ensures Below(Without(rows, gone), user, y, limit).None?
    decreases limit
  {
    if limit > 0 {
      var k := StuckChild(rows, user, y, limit);
      ChildDescends(rows, user, y, k);
      DescendsJoin(rows, user, k.id, y, x, 1, d);
      StuckBelow(rows, user, gone, x, k.id, d + 1, limit - 1);
      StuckAbove(rows, user, gone, y, limit, k);
    }
  }

  lemma StuckChild(rows: Rows, user: string, y: string, limit: nat) returns (k: Folder)
    requires limit > 0 && Below(rows, user, y, limit).None?
    ensures k in ChildrenOf(rows, y, user) && Below(rows, user, k.id, limit - 1).None?
  {
    k := StuckAmong(rows, user, ChildrenOf(rows, y, user), limit - 1);
  }

  lemma {:induction false} StuckAmong(rows: Rows, user: string, folders: seq<Folder>, limit: nat) returns (k: Folder)
    requires BelowAll(rows, user, folders, limit).None?
    ensures k in folders && Below(rows, user, k.id, limit).None?
  {
    var n := |folders| - 1;
    if Below(rows, user, folders[n].id, limit).None? {
      k := folders[n];
    } else {
      k := StuckAmong(rows, user, folders[..n], limit);
    }
  }

  lemma StuckAbove(rows: Rows, user: string, gone: set<string>, y: string, limit: nat, k: Folder)
    requires limit > 0 && k in ChildrenOf(rows, y, user) && k.id !in gone
    requires Below(Without(rows, gone), user, k.id, limit - 1).None?
    ensures Below(Without(rows, gone), user, y, limit).None?
  {
    var left := Without(rows, gone);
    InChildren(rows, y, user, k);
    InWithout(rows, gone, k);
    InChildren(left, y, user, k);
    if Below(left, user, y, limit).Some? {
      BelowHas(left, user, y, limit, k, k);
    }
  }

  /** Deleting the branches before it does not make a branch listable. */
  lemma StuckStays(rows: Rows, user: string, id: string, limit: nat, n: nat, gone: set<string>)
    requires FirstGone(rows, user, id, limit, n, gone)
    ensures Below(Without(rows, gone), user, ChildrenOf(rows, id, user)[n].id, limit).None?
  {
    var x := ChildrenOf(rows, id, user)[n].id;
    if OwnAncestor(rows, user, x) {
      var m: nat :| m > 0 && Descends(rows, user, x, x, m);
      forall z | z in gone ensures Listable(rows, user, z) {
        var c, q := GoneBranch(rows, user, id, limit, n, gone, z);
      }
      CycleStays(rows, user, gone, x, m, x, m);
      OwnAncestorNeverLists(Without(rows, gone), user, x, limit, m);
    } else {
      BranchSpared(rows, user, id, limit, n, gone);
      StuckBelow(rows, user, gone, x, x, 0, limit);
    }
  }

  // ----- the deletion ----------------------------------------------------------------------------------

  /** The children can be deleted one branch after the other. */
  ghost predicate Deletable(rows: Rows, user: string, children: seq<Folder>, limit: nat) {
    && Keyed(rows)
    && (forall k :: k in children ==> k in rows && k.user == user)
    && BelowAll(rows, user, children, limit).Some?
    && Keyed(BelowAll(rows, user, children, limit).value)
  }

  ghost predicate AtOrUnder(rows: Rows, user: string, x: string, root: string) {
    x == root || Under(rows, user, x, root)
  }

  /** Nothing was added, and only the user's folders at or below the root are gone. */
  ghost predicate OnlyBelowDeleted(before: Rows, after: Rows, user: string, root: string) {
    && Keyed(after)
    && (forall f :: f in after ==> f in before)
    && (forall f :: f in before && f !in after ==> f.user == user && AtOrUnder(before, user, f.id, root))
  }

  /** Ancestry in what is left of a table is ancestry in the table. */
  lemma {:induction false} DescendsBefore(before: Rows, rows: Rows, user: string, x: string, a: string, n: nat)
    requires Keyed(before) && (forall f :: f in rows ==> f in before) && Descends(rows, user, x, a, n)
    ensures Descends(before, user, x, a, n)
    decreases n
  {
    if n > 0 {
      LookupIsRow(rows, x);
      LookupFinds(before, Lookup(rows, x).value);
      DescendsBefore(before, rows, user, Up(rows, user, x).value, a, n - 1);
    }
  }

  /** What a child's branch loses, the folder's subtree loses. */
  lemma DeletedInBranch(before: Rows, rows: Rows, after: Rows, user: string, id: string, k: Folder)
    requires Keyed(before) && k in ChildrenOf(before, id, user)
    requires OnlyBelowDeleted(before, rows, user, id) && OnlyBelowDeleted(rows, after, user, k.id)
    ensures OnlyBelowDeleted(before, after, user, id)
  {
    ChildDescends(before, user, id, k);
    forall f | f in before && f !in after ensures f.user == user && AtOrUnder(before, user, f.id, id) {
      if f in rows && f.id != k.id {
        var n: nat :| n > 0 && Descends(rows, user, f.id, k.id, n);
        DescendsBefore(before, rows, user, f.id, k.id, n);
        DescendsJoin(before, user, f.id, k.id, id, n, 1);
      }
    }
  }

  lemma DeletedWithRoot(before: Rows, rows: Rows, after: Rows, user: string, id: string)
    requires OnlyBelowDeleted(before, rows, user, id) && Keyed(after) && forall f :: f in after ==> f in rows
    requires forall f :: f in rows && f !in after ==> f.user == user && f.id == id
    ensures OnlyBelowDeleted(before, after, user, id)
  {
  }

  lemma RowDeleted(rows: Rows, user: string, k: Folder)
    requires Keyed(rows) && (forall f :: f in rows && f.id == k.id ==> f.user == user)
    ensures OnlyBelowDeleted(rows, Without(rows, {k.id}), user, k.id)
    ensures forall f :: f in rows && f !in Without(rows, {k.id}) ==> f.user == user && f.id == k.id
  {
    WithoutKeyed(rows, {k.id});
    forall f ensures f in Without(rows, {k.id}) <==> f in rows && f.id != k.id {
      InWithout(rows, {k.id}, f);
    }
  }

  lemma OneRow(before: Rows, rows: Rows, user: string, k: Folder)
    requires Keyed(before) && k in before && k.user == user && forall f :: f in rows ==> f in before
    ensures forall f :: f in rows && f.id == k.id ==> f.user == user
  {
    forall f | f in rows && f.id == k.id ensures f.user == user {
      LookupFinds(before, f);
      LookupFinds(before, k);
    }
  }

  lemma PrefixDeletable(rows: Rows, user: string, id: string, limit: nat, n: nat)
    requires Keyed(rows) && n <= |ChildrenOf(rows, id, user)|
    requires BelowAll(rows, user, ChildrenOf(rows, id, user)[..n], limit).Some?
    ensures Deletable(rows, user, ChildrenOf(rows, id, user)[..n], limit)
  {
    BranchesKeyed(rows, user, id, limit, n);
    forall k | k in ChildrenOf(rows, id, user)[..n] ensures k in rows && k.user == user {
      InChildren(rows, id, user, k);
    }
  }

  lemma IdSetJoin(a: seq<Folder>, b: seq<Folder>, k: Folder)
    ensures IdSet(a + b + [k]) == IdSet(a) + (IdSet(b) + {k.id})
    ensures Ids(a + b + [k]) == Ids(a) + Ids(b) + [k.id]
  {
  }

  /** With the branches of the first `i` children gone, the next branch is still listed as at first. */
  lemma DeleteStep(before: Rows, user: string, children: seq<Folder>, limit: nat, i: nat)
    requires Deletable(before, user, children, limit) && i < |children|
    ensures
      var front, next := BelowAll(before, user, children[..i], limit), BelowAll(before, user, children[..i + 1], limit);
      var below := Below(before, user, children[i].id, limit);
      && front.Some? && next.Some? && below.Some?
      && Below(Without(before, IdSet(front.value)), user, children[i].id, limit) == below
      && next.value == front.value + below.value + [children[i]]
      && (forall f :: f in front.value + below.value ==> f.id != children[i].id)
  {
    var k := children[i];
    if BelowAll(before, user, children[..i + 1], limit).None? {
      BelowAllFails(before, user, children, limit, i + 1);
    }
    BelowAllStep(before, user, children, limit, i);
    var front := BelowAll(before, user, children[..i], limit).value;
    var below := Below(before, user, k.id, limit).value;
    BelowAllPrefix(before, user, children, limit, i + 1);
    KeyedParts(front, below, k, BelowAll(before, user, children, limit).value);
    forall f | f in below ensures f.id !in IdSet(front) {
    }
    BelowWithout(before, IdSet(front), user, k.id, limit);
  }

  lemma {:induction false} BelowAllPrefix(rows: Rows, user: string, folders: seq<Folder>, limit: nat, n: nat)
    requires n <= |folders| && BelowAll(rows, user, folders, limit).Some?
    ensures BelowAll(rows, user, folders[..n], limit).Some?
    ensures BelowAll(rows, user, folders[..n], limit).value <= BelowAll(rows, user, folders, limit).value
  {
    if n < |folders| {
      assert folders[..|folders| - 1][..n] == folders[..n];
      BelowAllPrefix(rows, user, folders[..|folders| - 1], limit, n);
    } else {
      assert folders[..n] == folders;
    }
  }

  lemma KeyedParts(a: seq<Folder>, b: seq<Folder>, k: Folder, all: seq<Folder>)
    requires a + b + [k] <= all && Keyed(all)
    ensures forall f, g :: f in a && g in b ==> f.id != g.id
    ensures forall f :: f in a + b ==> f.id != k.id
  {
    var c := a + b + [k];
    forall f, g | f in a && g in b ensures f.id != g.id {
      var i :| 0 <= i < |a| && a[i] == f;
      var j :| 0 <= j < |b| && b[j] == g;
      assert all[i] == c[i] == f && all[|a| + j] == c[|a| + j] == g;
    }
    forall f | f in a + b ensures f.id != k.id {
      var i :| 0 <= i < |a + b| && (a + b)[i] == f;
      assert all[i] == c[i] == f && all[|a + b|] == c[|a + b|] == k;
    }
  }

  /** After the branch and the child's row are deleted too, the next prefix is gone. */
  lemma RowsAfterStep(before: Rows, user: string, children: seq<Folder>, limit: nat, i: nat)
    requires Deletable(before, user, children, limit) && i < |children|
    ensures
      var front, next := BelowAll(before, user, children[..i], limit), BelowAll(before, user, children[..i + 1], limit);
      var below := Below(before, user, children[i].id, limit);
      && front.Some? && next.Some? && below.Some?
      && Ids(next.value) == Ids(front.value) + Ids(below.value) + [children[i].id]
      && Below(Without(before, IdSet(front.value)), user, children[i].id, limit) == below
      && var rows := Without(Without(before, IdSet(front.value)), IdSet(below.value));
         children[i] in rows && Without(rows, {children[i].id}) == Without(before, IdSet(next.value))
  {
    DeleteStep(before, user, children, limit, i);
    var front := BelowAll(before, user, children[..i], limit).value;
    var below := Below(before, user, children[i].id, limit).value;
    var k := children[i];
    IdSetJoin(front, below, k);
    WithoutTwice(before, IdSet(front), IdSet(below));
    WithoutTwice(before, IdSet(front) + IdSet(below), {k.id});
    assert IdSet(front) + IdSet(below) + {k.id} == IdSet(front) + (IdSet(below) + {k.id});
    assert k.id !in IdSet(front) + IdSet(below);
    InWithout(before, IdSet(front) + IdSet(below), k);
  }

  /** These branches are deleted and their ids collected. */
  ghost predicate Progress(before: Rows, rows: Rows, user: string, done: seq<Folder>, limit: nat,
                           ids: seq<string>, folderIds: seq<string>) {
    var front := BelowAll(before, user, done, limit);
    front.Some? && folderIds == ids + Ids(front.value) && rows == Without(before, IdSet(front.value))
  }

  lemma JoinAssociates(a: seq<string>, b: seq<string>, c: seq<string>, d: seq<string>)
    ensures a + (b + c + d) == a + b + c + d
  {
  }

  lemma ProgressStep(before: Rows, rows: Rows, user: string, id: string, limit: nat,
                     ids: seq<string>, folderIds: seq<string>, i: nat)
    requires Keyed(before) && i < |ChildrenOf(before, id, user)|
    requires BelowAll(before, user, ChildrenOf(before, id, user)[..i + 1], limit).Some?
    requires Progress(before, rows, user, ChildrenOf(before, id, user)[..i], limit, ids, folderIds)
    ensures var k := ChildrenOf(before, id, user)[i];
      var below := Below(rows, user, k.id, limit);
      && below.Some?
      && var left := Without(rows, IdSet(below.value));
         && k in left
         && Progress(before, Without(left, {k.id}), user, ChildrenOf(before, id, user)[..i + 1], limit, ids,
                     folderIds + Ids(below.value) + [k.id])
  {
    var children := ChildrenOf(before, id, user);
    PrefixDeletable(before, user, id, limit, i + 1);
    assert children[..i + 1][..i] == children[..i] && children[..i + 1][..i + 1] == children[..i + 1];
    RowsAfterStep(before, user, children[..i + 1], limit, i);
    var below := Below(rows, user, children[i].id, limit).value;
    JoinAssociates(ids, Ids(BelowAll(before, user, children[..i], limit).value), Ids(below), [children[i].id]);
  }

  lemma ProgressStuck(before: Rows, rows: Rows, user: string, id: string, limit: nat,
                      ids: seq<string>, folderIds: seq<string>, i: nat)
    requires Keyed(before) && i < |ChildrenOf(before, id, user)|
    requires Progress(before, rows, user, ChildrenOf(before, id, user)[..i], limit, ids, folderIds)
    requires BelowAll(before, user, ChildrenOf(before, id, user)[..i + 1], limit).None?
    ensures Below(rows, user, ChildrenOf(before, id, user)[i].id, limit).None?
    ensures BelowAll(before, user, ChildrenOf(before, id, user), limit).None?
  {
    var children := ChildrenOf(before, id, user);
    BelowAllStep(before, user, children, limit, i);
    BelowAllFails(before, user, children, limit, i + 1);
    StuckStays(before, user, id, limit, i, IdSet(BelowAll(before, user, children[..i], limit).value));
  }

  // ----- what a failed deletion leaves behind -----------------------------------------------------------

  /** The first of the folders whose branch cannot be listed. */
  function StuckAt(rows: Rows, user: string, folders: seq<Folder>, limit: nat): (n: nat)
    ensures n <= |folders|
  {
    if folders == [] then 0
    else
      var m := |folders| - 1;
      var n := StuckAt(rows, user, folders[..m], limit);
      if n == m && Below(rows, user, folders[m].id, limit).Some? then m + 1 else n
  }

  /** The ids gone when a branch has been walked: all of it, or what was walked before it got stuck. */
  function Gone(rows: Rows, user: string, id: string, limit: nat): set<string>
    decreases limit, 0
  {
    if limit == 0 then {} else GoneEach(rows, user, ChildrenOf(rows, id, user), limit - 1)
  }

  /** The branches before the stuck one, and what its own walk, on the table left by then, got through. */
  function GoneEach(rows: Rows, user: string, folders: seq<Folder>, limit: nat): set<string>
    decreases limit, 1
  {
    var n := StuckAt(rows, user, folders, limit);
    var walked := BelowAll(rows, user, folders[..n], limit);
    var gone := if walked.Some? then IdSet(walked.value) else {};
    if n == |folders| then gone else gone + Gone(Without(rows, gone), user, folders[n].id, limit)
  }

  /** The table after insert_new_folder: `id` is a primary key. */
  function Inserted(rows: Rows, f: Folder): Rows {
    if Lookup(rows, f.id).None? then rows + [f] else rows
  }

  /** What delete_folder_by_id_and_user_id leaves. */
  function Deleted(rows: Rows, id: string, user: string, limit: nat): Rows {
    if !Owned(rows, id, user) then rows
    else
      match Below(rows, user, id, limit)
      case Some(below) => Without(rows, {id} + IdSet(below))
      case None => Without(rows, Gone(rows, user, id, limit))
  }

  lemma OneFrameDown(rows: Rows, user: string, id: string, limit: nat)
    requires limit > 0
    ensures Below(rows, user, id, limit) == BelowAll(rows, user, ChildrenOf(rows, id, user), limit - 1)
    ensures Gone(rows, user, id, limit) == GoneEach(rows, user, ChildrenOf(rows, id, user), limit - 1)
  {
  }

  lemma {:induction false} StuckAtIs(rows: Rows, user: string, folders: seq<Folder>, limit: nat, n: nat)
    requires n <= |folders| && BelowAll(rows, user, folders[..n], limit).Some?
    requires n < |folders| ==> BelowAll(rows, user, folders[..n + 1], limit).None?
    ensures StuckAt(rows, user, folders, limit) == n
  {
    if folders != [] {
      var m := |folders| - 1;
      if n <= m {
        assert folders[..m][..n] == folders[..n];
        assert n < m ==> folders[..m][..n + 1] == folders[..n + 1];
        StuckAtIs(rows, user, folders[..m], limit, n);
        BelowAllStep(rows, user, folders, limit, n);
      } else {
        assert folders[..n] == folders && folders[..m + 1] == folders && folders[..m][..m] == folders[..m];
        BelowAllStep(rows, user, folders, limit, m);
        StuckAtIs(rows, user, folders[..m], limit, m);
      }
    }
  }

  /** A branch that can be listed goes as a whole. */
  lemma ListedAllGone(rows: Rows, user: string, id: string, limit: nat)
    requires Below(rows, user, id, limit).Some?
    ensures Gone(rows, user, id, limit) == IdSet(Below(rows, user, id, limit).value)
  {
    var children := ChildrenOf(rows, id, user);
    assert children[..|children|] == children;
    StuckAtIs(rows, user, children, limit - 1, |children|);
  }

  lemma {:induction false} StuckAfter(rows: Rows, user: string, folders: seq<Folder>, limit: nat, n: nat)
    requires n <= |folders| && BelowAll(rows, user, folders[..n], limit).Some?
    ensures n <= StuckAt(rows, user, folders, limit)
    ensures BelowAll(rows, user, folders[..StuckAt(rows, user, folders, limit)], limit).Some?
    ensures BelowAll(rows, user, folders[..n], limit).value
      <= BelowAll(rows, user, folders[..StuckAt(rows, user, folders, limit)], limit).value
    decreases |folders| - n
  {
    if n < |folders| && BelowAll(rows, user, folders[..n + 1], limit).Some? {
      BelowAllPrefix(rows, user, folders[..n + 1], limit, n);
      assert folders[..n + 1][..n] == folders[..n];
      StuckAfter(rows, user, folders, limit, n + 1);
    } else {
      StuckAtIs(rows, user, folders, limit, n);
    }
  }

  /** Whatever comes of the rest, the branches of children that were walked are gone as a whole. */
  lemma WalkedBranchesGone(rows: Rows, user: string, id: string, limit: nat, n: nat)
    requires limit > 0 && n <= |ChildrenOf(rows, id, user)|
    requires BelowAll(rows, user, ChildrenOf(rows, id, user)[..n], limit - 1).Some?
    ensures IdSet(BelowAll(rows, user, ChildrenOf(rows, id, user)[..n], limit - 1).value) <= Gone(rows, user, id, limit)
  {
    var children := ChildrenOf(rows, id, user);
    StuckAfter(rows, user, children, limit - 1, n);
    var walked := BelowAll(rows, user, children[..n], limit - 1).value;
    var all := BelowAll(rows, user, children[..StuckAt(rows, user, children, limit - 1)], limit - 1).value;
    forall f | f in walked ensures f in all {
      var i :| 0 <= i < |walked| && walked[i] == f;
      assert all[i] == f;
    }
  }

  lemma StuckGone(before: Rows, rows: Rows, user: string, id: string, limit: nat, ids: seq<string>,
                  folderIds: seq<string>, i: nat)
    requires i < |ChildrenOf(before, id, user)|
    requires Progress(before, rows, user, ChildrenOf(before, id, user)[..i], limit, ids, folderIds)
    requires BelowAll(before, user, ChildrenOf(before, id, user)[..i + 1], limit).None?
    ensures var children := ChildrenOf(before, id, user);
      Without(rows, Gone(rows, user, children[i].id, limit)) == Without(before, GoneEach(before, user, children, limit))
  {
    var children := ChildrenOf(before, id, user);
    StuckAtIs(before, user, children, limit, i);
    var gone := IdSet(BelowAll(before, user, children[..i], limit).value);
    WithoutTwice(before, gone, Gone(rows, user, children[i].id, limit));
  }

  class FolderTable {
    var rows: Rows

    constructor (rows: Rows)
      ensures this.rows == rows
    {
      this.rows := rows;
    }

    method DeleteRow(id: string)
      modifies this
      ensures rows == Without(old(rows), {id})
    {
      rows := Without(rows, {id});
    }

    /** insert_new_folder; false when the key is taken. */
    method InsertFolder(f: Folder) returns (ok: bool)
      modifies this
      ensures ok == Lookup(old(rows), f.id).None?
      ensures rows == Inserted(old(rows), f)
    {
      ok := Lookup(rows, f.id).None?;
      if ok {
        rows := rows + [f];
      }
    }

    /** update_folder_parent_id_by_id_and_user_id; whether the folder was found. */
    method UpdateParent(id: string, user: string, parent: Option<string>) returns (found: bool)
      modifies this
      ensures found == Owned(old(rows), id, user)
      ensures rows == if found then Moved(old(rows), id, user, parent) else old(rows)
    {
      found := Owned(rows, id, user);
      if found {
        rows := Moved(rows, id, user, parent);
      }
    }

    /** The nested function of delete_folder_by_id_and_user_id; None when the recursion limit is hit. */
    method DeleteChildren(id: string, user: string, limit: nat, ids: seq<string>) returns (r: Option<seq<string>>)
      requires Keyed(rows)
      modifies this
      ensures OnlyBelowDeleted(old(rows), rows, user, id)
      ensures match Below(old(rows), user, id, limit)
        case Some(below) => r == Some(ids + Ids(below)) && rows == Without(old(rows), IdSet(below))
        case None => r == None && rows == Without(old(rows), Gone(old(rows), user, id, limit))
      decreases limit, 0
    {
      if limit == 0 {
        WithoutNone(rows, {});
        return None;
      }
      OneFrameDown(rows, user, id, limit);
      r := DeleteEach(id, ChildrenOf(rows, id, user), user, limit - 1, ids);
    }

    /** Its loop: each branch, then the child's own row, from the table as it is by then. */
    method DeleteEach(ghost id: string, children: seq<Folder>, user: string, limit: nat, ids: seq<string>)
      returns (r: Option<seq<string>>)
      requires Keyed(rows) && children == ChildrenOf(rows, id, user)
      modifies this
      ensures OnlyBelowDeleted(old(rows), rows, user, id)
      ensures match BelowAll(old(rows), user, children, limit)
        case Some(below) => r == Some(ids + Ids(below)) && rows == Without(old(rows), IdSet(below))
        case None => r == None && rows == Without(old(rows), GoneEach(old(rows), user, children, limit))
      decreases limit, 1
    {
      var folderIds := ids;
      ghost var before := rows;
      WithoutNone(rows, IdSet([]));
      for i := 0 to |children|
        invariant OnlyBelowDeleted(before, rows, user, id)
        invariant Progress(before, rows, user, children[..i], limit, ids, folderIds)
      {
        if BelowAll(before, user, children[..i + 1], limit).Some? {
          ProgressStep(before, rows, user, id, limit, ids, folderIds, i);
        } else {
          ProgressStuck(before, rows, user, id, limit, ids, folderIds, i);
          StuckGone(before, rows, user, id, limit, ids, folderIds, i);
        }
        InChildren(before, id, user, children[i]);
        ghost var current := rows;
        var deeper := DeleteChildren(children[i].id, user, limit, folderIds);
        DeletedInBranch(before, current, rows, user, id, children[i]);
        if deeper.None? {
          return None;
        }
        folderIds := deeper.value + [children[i].id];
        var row := Lookup(rows, children[i].id);
        LookupFinds(rows, children[i]);
        if row.None? {
          return None;
        }
        OneRow(before, rows, user, children[i]);
        RowDeleted(rows, user, children[i]);
        current := rows;
        DeleteRow(children[i].id);
        DeletedInBranch(before, current, rows, user, id, children[i]);
      }
      assert children[..|children|] == children;
      return Some(folderIds);
    }

    /**
     * delete_folder_by_id_and_user_id: the ids deleted, the folder's own first; nothing when the
     * folder is not the user's, or when the recursion error was swallowed, which is exactly when its
     * subtree cannot be listed.
     */
    method DeleteFolder(id: string, user: string, limit: nat) returns (ids: seq<string>)
      requires Keyed(rows)
      modifies this
      ensures OnlyBelowDeleted(old(rows), rows, user, id)
      ensures rows == Deleted(old(rows), id, user, limit)
      ensures ids == match (if Owned(old(rows), id, user) then Below(old(rows), user, id, limit) else None)
        case Some(below) => [id] + Ids(below)
        case None => []
    {
      if !Owned(rows, id, user) {
        return [];
      }
      ghost var before := rows;
      ghost var folder :| folder in before && folder.id == id && folder.user == user;
      var deleted := DeleteChildren(id, user, limit, [id]);
      if deleted.None? {
        return [];
      }
      ghost var below := Below(before, user, id, limit);
      WithoutTwice(before, IdSet(below.value), {id});
      assert IdSet(below.value) + {id} == {id} + IdSet(below.value);
      OneRow(before, rows, user, folder);
      RowDeleted(rows, user, folder);
      DeletedWithRoot(before, rows, Without(rows, {id}), user, id);
      DeleteRow(id);
      return deleted.value;
    }
  }

  lemma ListedIdsDistinct(rows: Rows, user: string, id: string, limit: nat)
    requires Keyed(rows) && Below(rows, user, id, limit).Some?
    ensures NoRepeats([id] + Ids(Below(rows, user, id, limit).value))
  {
    var below := Below(rows, user, id, limit).value;
    BelowKeyed(rows, user, id, limit);
    forall i | 0 <= i < |below| ensures below[i].id != id {
      var n := BelowDescends(rows, user, id, limit, below[i]);
      if below[i].id == id {
        OwnAncestorNeverLists(rows, user, id, limit, n);
      }
    }
  }

  lemma ListedSubtreeGoes(rows: Rows, user: string, id: string, limit: nat, f: Folder)
    requires Keyed(rows) && Owned(rows, id, user) && Below(rows, user, id, limit).Some?
    ensures var left := Deleted(rows, id, user, limit);
      && (f in left <==> f in rows && !AtOrUnder(rows, user, f.id, id))
      && (f in left && f.user == user && f.parent.Some? ==> !AtOrUnder(rows, user, f.parent.value, id))
  {
    var below := Below(rows, user, id, limit).value;
    InWithout(rows, {id} + IdSet(below), f);
    BelowIsSubtree(rows, user, id, limit, f.id);
    InIdSet(below, f.id);
    if f in rows && f.user == user && f.parent.Some? && AtOrUnder(rows, user, f.parent.value, id) {
      LookupFinds(rows, f);
      assert Descends(rows, user, id, id, 0);
      var n: nat :| Descends(rows, user, f.parent.value, id, n);
      assert Descends(rows, user, f.id, id, n + 1);
    }
  }

  /** In every forest, with a frame for each folder, the ids returned are distinct. */
  lemma DeletedIdsDistinct(rows: Rows, user: string, id: string, limit: nat)
    requires Keyed(rows) && Acyclic(rows, user) && Owned(rows, id, user) && limit >= |rows|
    ensures Below(rows, user, id, limit).Some? && NoRepeats([id] + Ids(Below(rows, user, id, limit).value))
  {
    ForestLists(rows, user, id, limit);
    ListedIdsDistinct(rows, user, id, limit);
  }

  /**
   * What the deletion leaves of a forest: every folder but the root and the user's folders below it,
   * and no remaining folder of the user has a deleted parent.
   */
  lemma DeletionRemovesSubtree(rows: Rows, user: string, id: string, limit: nat, f: Folder)
    requires Keyed(rows) && Acyclic(rows, user) && Owned(rows, id, user) && limit >= |rows|
    ensures var left := Deleted(rows, id, user, limit);
      && (f in left <==> f in rows && !AtOrUnder(rows, user, f.id, id))
      && (f in left && f.user == user && f.parent.Some? ==> !AtOrUnder(rows, user, f.parent.value, id))
  {
    ForestLists(rows, user, id, limit);
    ListedSubtreeGoes(rows, user, id, limit, f);
  }

  lemma InIdSet(folders: seq<Folder>, x: string)
    ensures x in IdSet(folders) <==> x in Ids(folders)
  {
    if x in IdSet(folders) {
      var f :| f in folders && f.id == x;
      IdListed(folders, f);
    }
    if x in Ids(folders) {
      var f := ListedId(folders, x);
    }
  }
}
