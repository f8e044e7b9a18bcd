/**
 * Folder trees stored as parent pointers (backend/open_webui/models/folders.py): listing a
 * subtree, which folders it holds, and when the listing returns at all.
 */
module Folders {
  import opened Basics
  import opened PointerGraph

  datatype Folder = Folder(id: string, parent: Option<string>, user: string, name: string)

  /** The folder table, in row order; `id` is its primary key. */
  type Rows = seq<Folder>

  ghost predicate Keyed(rows: Rows) {
    forall i, j :: 0 <= i < j < |rows| ==> rows[i].id != rows[j].id
  }

  function Ids(folders: seq<Folder>): seq<string> {
    seq(|folders|, i requires 0 <= i < |folders| => folders[i].id)
  }

  /** The query of get_folders_by_parent_id_and_user_id, on the first rows. */
  function ChildrenOf(rows: Rows, id: string, user: string): seq<Folder> {
    if rows == [] then []
    else
      var last := rows[|rows| - 1];
      ChildrenOf(rows[..|rows| - 1], id, user) + if last.parent == Some(id) && last.user == user then [last] else []
  }

  lemma {:induction false} InChildren(rows: Rows, id: string, user: string, f: Folder)
    ensures f in ChildrenOf(rows, id, user) <==> f in rows && f.parent == Some(id) && f.user == user
  {
    if rows != [] {
      var front := rows[..|rows| - 1];
      InChildren(front, id, user, f);
      assert rows == front + [rows[|rows| - 1]];
    }
  }

  // ----- listing the folders below a folder -------------------------------------------------------

  /** The folders below `id` in the order they are listed; None when the recursion limit is hit. */
  function Below(rows: Rows, user: string, id: string, limit: nat): Option<seq<Folder>>
    decreases limit, 0
  {
    if limit == 0 then None else BelowAll(rows, user, ChildrenOf(rows, id, user), limit - 1)
  }

  /** For each of these folders, what is below it and then the folder itself. */
  function BelowAll(rows: Rows, user: string, folders: seq<Folder>, limit: nat): Option<seq<Folder>>
    decreases limit, |folders| + 1
  {
    if folders == [] then Some([])
    else
      var front := BelowAll(rows, user, folders[..|folders| - 1], limit);
      var last := folders[|folders| - 1];
      var below := Below(rows, user, last.id, limit);
      if front.Some? && below.Some? then Some(front.value + below.value + [last]) else None
  }

  lemma BelowAllStep(rows: Rows, user: string, folders: seq<Folder>, limit: nat, i: nat)
    requires i < |folders|
    ensures BelowAll(rows, user, folders[..i + 1], limit) ==
      var front, below := BelowAll(rows, user, folders[..i], limit), Below(rows, user, folders[i].id, limit);
      if front.Some? && below.Some? then Some(front.value + below.value + [folders[i]]) else None
  {
    assert folders[..i + 1][..i] == folders[..i];
  }

  lemma {:induction false} BelowAllFails(rows: Rows, user: string, folders: seq<Folder>, limit: nat, n: nat)
    requires n <= |folders| && BelowAll(rows, user, folders[..n], limit).None?
    ensures BelowAll(rows, user, folders, limit).None?
  {
    if n < |folders| {
      assert folders[..|folders| - 1][..n] == folders[..n];
      BelowAllFails(rows, user, folders[..|folders| - 1], limit, n);
    } else {
      assert folders[..n] == folders;
    }
  }

  /** The nested function of get_children_folders_by_id_and_user_id. */
  method CollectChildren(rows: Rows, user: string, id: string, limit: nat, folders: seq<Folder>)
    returns (r: Option<seq<Folder>>)
    ensures r == match Below(rows, user, id, limit) case Some(below) => Some(folders + below) case None => None
    decreases limit, 0
  {
    if limit == 0 {
      return None;
    }
    r := CollectEach(rows, user, ChildrenOf(rows, id, user), limit - 1, folders);
  }

  /** Its loop over the children. */
  method CollectEach(rows: Rows, user: string, children: seq<Folder>, limit: nat, folders: seq<Folder>)
    returns (r: Option<seq<Folder>>)
    ensures r == match BelowAll(rows, user, children, limit) case Some(below) => Some(folders + below) case None => None
    decreases limit, 1
  {
    var collected := folders;
    for i := 0 to |children|
      invariant BelowAll(rows, user, children[..i], limit).Some?
      invariant collected == folders + BelowAll(rows, user, children[..i], limit).value
    {
      BelowAllStep(rows, user, children, limit, i);
      var deeper := CollectChildren(rows, user, children[i].id, limit, collected);
      if deeper.None? {
        BelowAllFails(rows, user, children, limit, i + 1);
        return None;
      }
      collected := deeper.value + [children[i]];
    }
    assert children[..|children|] == children;
    return Some(collected);
  }

  /** None when the folder is not the user's, or when the recursion error was swallowed. */
  method GetChildren(rows: Rows, id: string, user: string, limit: nat) returns (r: Option<seq<Folder>>)
    ensures r == if Owned(rows, id, user) then Below(rows, user, id, limit) else None
  {
    if !Owned(rows, id, user) {
      return None;
    }
    r := CollectChildren(rows, user, id, limit, []);
    assert r.Some? ==> [] + Below(rows, user, id, limit).value == Below(rows, user, id, limit).value;
  }

  predicate Owned(rows: Rows, id: string, user: string) {
    exists f :: f in rows && f.id == id && f.user == user
  }

  // ----- ancestry ---------------------------------------------------------------------------------

  /** The row with this id. */
  function Lookup(rows: Rows, id: string): Option<Folder> {
    if rows == [] then None
    else if rows[|rows| - 1].id == id then Some(rows[|rows| - 1])
    else Lookup(rows[..|rows| - 1], id)
  }

  lemma {:induction false} LookupIsRow(rows: Rows, id: string)
    ensures Lookup(rows, id).Some? ==> Lookup(rows, id).value in rows && Lookup(rows, id).value.id == id
  {
    if rows != [] {
      LookupIsRow(rows[..|rows| - 1], id);
    }
  }

  lemma {:induction false} LookupFinds(rows: Rows, f: Folder)
    requires Keyed(rows) && f in rows
    ensures Lookup(rows, f.id) == Some(f)
  {
    var last := |rows| - 1;
    if f != rows[last] {
      var i :| 0 <= i < |rows| && rows[i] == f;
      assert rows[i].id != rows[last].id;
      LookupFinds(rows[..last], f);
    }
  }

  /** The parent of a folder of the user. */
  function Up(rows: Rows, user: string, id: string): Option<string> {
    var f := Lookup(rows, id);
    if f.Some? && f.value.user == user then f.value.parent else None
  }

  /** `n` steps up from `x` lead to `a`. */
  ghost predicate Descends(rows: Rows, user: string, x: string, a: string, n: nat)
    decreases n
  {
    if n == 0 then x == a else Up(rows, user, x).Some? && Descends(rows, user, Up(rows, user, x).value, a, n - 1)
  }

  lemma {:induction false} DescendsIsUnique(rows: Rows, user: string, x: string, a: string, b: string, n: nat)
    requires Descends(rows, user, x, a, n) && Descends(rows, user, x, b, n)
    ensures a == b
    decreases n
  {
    if n > 0 {
      DescendsIsUnique(rows, user, Up(rows, user, x).value, a, b, n - 1);
    }
  }

  lemma {:induction false} DescendsJoin(rows: Rows, user: string, x: string, a: string, b: string, m: nat, n: nat)
    requires Descends(rows, user, x, a, m) && Descends(rows, user, a, b, n)
    ensures Descends(rows, user, x, b, m + n)
    decreases m
  {
    if m > 0 {
      DescendsJoin(rows, user, Up(rows, user, x).value, a, b, m - 1, n);
    }
  }

  lemma {:induction false} DescendsSplit(rows: Rows, user: string, x: string, b: string, m: nat, n: nat)
    returns (a: string)
    requires Descends(rows, user, x, b, m + n)
    ensures Descends(rows, user, x, a, m) && Descends(rows, user, a, b, n)
    decreases m
  {
    if m == 0 {
      a := x;
    } else {
      a := DescendsSplit(rows, user, Up(rows, user, x).value, b, m - 1, n);
    }
  }

  /** Of two ancestors of `x`, the farther is an ancestor of the nearer. */
  lemma AncestorsOrdered(rows: Rows, user: string, x: string, a: string, b: string, m: nat, n: nat)
    requires Descends(rows, user, x, a, m) && Descends(rows, user, x, b, n) && m <= n
    ensures Descends(rows, user, a, b, n - m)
  {
    var c := DescendsSplit(rows, user, x, b, m, n - m);
    DescendsIsUnique(rows, user, x, a, c, m);
  }

  // ----- the listing is the subtree -----------------------------------------------------------------

  /** What a listing of these folders holds: each of them and what is below it. */
  lemma {:induction false} BelowAllFrom(rows: Rows, user: string, folders: seq<Folder>, limit: nat, f: Folder)
    returns (k: Folder)
    requires BelowAll(rows, user, folders, limit).Some? && f in BelowAll(rows, user, folders, limit).value
    ensures k in folders && Below(rows, user, k.id, limit).Some?
    ensures f == k || f in Below(rows, user, k.id, limit).value
  {
    var n := |folders| - 1;
    var front, below := BelowAll(rows, user, folders[..n], limit).value, Below(rows, user, folders[n].id, limit).value;
    if f in front {
      k := BelowAllFrom(rows, user, folders[..n], limit, f);
    } else {
      k := folders[n];
    }
  }

  lemma {:induction false} BelowAllHas(rows: Rows, user: string, folders: seq<Folder>, limit: nat, k: Folder, f: Folder)
    requires BelowAll(rows, user, folders, limit).Some? && k in folders
    ensures Below(rows, user, k.id, limit).Some?
    ensures f == k || f in Below(rows, user, k.id, limit).value ==> f in BelowAll(rows, user, folders, limit).value
  {
    var n := |folders| - 1;
    if k != folders[n] {
      BelowAllHas(rows, user, folders[..n], limit, k, f);
    }
  }

  lemma ChildDescends(rows: Rows, user: string, id: string, k: Folder)
    requires Keyed(rows) && k in ChildrenOf(rows, id, user)
    ensures k in rows && k.user == user && Up(rows, user, k.id) == Some(id) && Descends(rows, user, k.id, id, 1)
  {
  }

  lemma ChildOf(rows: Rows, user: string, id: string, x: string) returns (k: Folder)
    requires Up(rows, user, x) == Some(id)
    ensures k in ChildrenOf(rows, id, user) && k.id == x
  {
    k := Lookup(rows, x).value;
    LookupIsRow(rows, x);
    InChildren(rows, id, user, k);
  }

  /** A listed folder is a child or below one. */
  lemma BelowVia(rows: Rows, user: string, id: string, limit: nat, f: Folder) returns (k: Folder)
    requires Keyed(rows) && Below(rows, user, id, limit).Some? && f in Below(rows, user, id, limit).value
    ensures k in rows && k.user == user && Descends(rows, user, k.id, id, 1)
    ensures limit > 0 && Below(rows, user, k.id, limit - 1).Some?
    ensures f == k || f in Below(rows, user, k.id, limit - 1).value
  {
    k := BelowAllFrom(rows, user, ChildrenOf(rows, id, user), limit - 1, f);
    ChildDescends(rows, user, id, k);
  }

  /** A child, and what is below it, is listed. */
  lemma BelowHas(rows: Rows, user: string, id: string, limit: nat, k: Folder, f: Folder)
    requires Below(rows, user, id, limit).Some? && k in ChildrenOf(rows, id, user)
    ensures limit > 0 && Below(rows, user, k.id, limit - 1).Some?
    ensures f == k || f in Below(rows, user, k.id, limit - 1).value ==> f in Below(rows, user, id, limit).value
  {
    BelowAllHas(rows, user, ChildrenOf(rows, id, user), limit - 1, k, f);
  }

  /** Everything listed is a folder of the user and a strict descendant. */
  lemma {:induction false} BelowDescends(rows: Rows, user: string, id: string, limit: nat, f: Folder) returns (n: nat)
    requires Keyed(rows) && Below(rows, user, id, limit).Some? && f in Below(rows, user, id, limit).value
    ensures f in rows && f.user == user && n > 0 && Descends(rows, user, f.id, id, n)
    decreases limit
  {
    var k := BelowVia(rows, user, id, limit, f);
    if f == k {
      n := 1;
    } else {
      var m := BelowDescends(rows, user, k.id, limit - 1, f);
      DescendsJoin(rows, user, f.id, k.id, id, m, 1);
      n := m + 1;
    }
  }

  lemma LastStep(rows: Rows, user: string, x: string, id: string, n: nat) returns (y: string)
    requires n > 0 && Descends(rows, user, x, id, n)
    ensures Descends(rows, user, x, y, n - 1) && Up(rows, user, y) == Some(id)
  {
    y := DescendsSplit(rows, user, x, id, n - 1, 1);
    assert Descends(rows, user, Up(rows, user, y).value, id, 0);
  }

  /** And every strict descendant is listed, with frames to spare. */
  lemma {:induction false} DescendsBelow(rows: Rows, user: string, id: string, limit: nat, x: string, n: nat)
    returns (f: Folder)
    requires Below(rows, user, id, limit).Some? && n > 0 && Descends(rows, user, x, id, n)
    ensures n < limit && Below(rows, user, x, limit - n).Some?
    ensures f in Below(rows, user, id, limit).value && f.id == x
    decreases n
  {
    if n == 1 {
      f := ChildListed(rows, user, id, limit, x);
    } else {
      var k := ChildAbove(rows, user, id, limit, x, n);
      f := DescendsBelow(rows, user, k.id, limit - 1, x, n - 1);
      BelowHas(rows, user, id, limit, k, f);
    }
  }

  lemma ChildListed(rows: Rows, user: string, id: string, limit: nat, x: string) returns (f: Folder)
    requires Below(rows, user, id, limit).Some? && Descends(rows, user, x, id, 1)
    ensures 1 < limit && Below(rows, user, x, limit - 1).Some?
    ensures f in Below(rows, user, id, limit).value && f.id == x
  {
    f := ChildAbove(rows, user, id, limit, x, 1);
    FrameLeft(rows, user, x, limit - 1);
  }

  /** The child through which a descendant hangs. */
  lemma ChildAbove(rows: Rows, user: string, id: string, limit: nat, x: string, n: nat) returns (k: Folder)
    requires Below(rows, user, id, limit).Some? && n > 0 && Descends(rows, user, x, id, n)
    ensures k in ChildrenOf(rows, id, user) && Descends(rows, user, x, k.id, n - 1) && (n == 1 ==> x == k.id)
    ensures limit > 0 && Below(rows, user, k.id, limit - 1).Some? && k in Below(rows, user, id, limit).value
  {
    var y := LastStep(rows, user, x, id, n);
    k := ChildOf(rows, user, id, y);
    BelowHas(rows, user, id, limit, k, k);
  }

  lemma FrameLeft(rows: Rows, user: string, x: string, limit: nat)
    requires Below(rows, user, x, limit).Some?
    ensures limit > 0
  {
  }

  /** The folder is a strict descendant. */
  ghost predicate Under(rows: Rows, user: string, x: string, id: string) {
    exists n: nat :: n > 0 && Descends(rows, user, x, id, n)
  }

  /** The listing of a folder holds exactly the user's strict descendants of it. */
  lemma BelowIsSubtree(rows: Rows, user: string, id: string, limit: nat, x: string)
    requires Keyed(rows) && Below(rows, user, id, limit).Some?
    ensures x in Ids(Below(rows, user, id, limit).value) <==> Under(rows, user, x, id)
  {
    if x in Ids(Below(rows, user, id, limit).value) {
      var f := ListedId(Below(rows, user, id, limit).value, x);
      var n := BelowDescends(rows, user, id, limit, f);
    }
    if Under(rows, user, x, id) {
      UnderIsListed(rows, user, id, limit, x);
    }
  }

  lemma UnderIsListed(rows: Rows, user: string, id: string, limit: nat, x: string)
    requires Below(rows, user, id, limit).Some? && Under(rows, user, x, id)
    ensures x in Ids(Below(rows, user, id, limit).value)
  {
    var n: nat :| n > 0 && Descends(rows, user, x, id, n);
    var f := DescendsBelow(rows, user, id, limit, x, n);
    IdListed(Below(rows, user, id, limit).value, f);
  }

  lemma ListedId(folders: seq<Folder>, x: string) returns (f: Folder)
    requires x in Ids(folders)
    ensures f in folders && f.id == x
  {
    var i :| 0 <= i < |folders| && Ids(folders)[i] == x;
    f := folders[i];
  }

  lemma IdListed(folders: seq<Folder>, f: Folder)
    requires f in folders
    ensures f.id in Ids(folders)
  {
    var i :| 0 <= i < |folders| && folders[i] == f;
    assert Ids(folders)[i] == f.id;
  }

  /** Everything below a listed folder stands before it in the listing. */
  ghost predicate BelowBefore(rows: Rows, user: string, listed: seq<Folder>, j: nat)
    requires j < |listed|
  {
    exists l: nat :: Below(rows, user, listed[j].id, l).Some?
                     && forall f :: f in Below(rows, user, listed[j].id, l).value ==> f in listed[..j]
  }

  lemma BelowBeforeWith(rows: Rows, user: string, listed: seq<Folder>, j: nat, l: nat)
    requires j < |listed| && Below(rows, user, listed[j].id, l).Some?
    requires forall f :: f in Below(rows, user, listed[j].id, l).value ==> f in listed[..j]
    ensures BelowBefore(rows, user, listed, j)
  {
  }

  /** It still does when the listing goes on, or when others were listed first. */
  lemma BeforeInside(rows: Rows, user: string, a: seq<Folder>, part: seq<Folder>, b: seq<Folder>, j: nat)
    requires j < |part| && BelowBefore(rows, user, part, j)
    ensures BelowBefore(rows, user, a + part + b, |a| + j)
  {
    var all := a + part + b;
    var l: nat :| Below(rows, user, part[j].id, l).Some?
                  && forall f :: f in Below(rows, user, part[j].id, l).value ==> f in part[..j];
    assert all[|a| + j] == part[j] && all[..|a| + j] == a + part[..j];
    BelowBeforeWith(rows, user, all, |a| + j, l);
  }

  /** The listing has children before parents: each folder comes after everything below it. */
  lemma {:induction false} ChildrenFirst(rows: Rows, user: string, id: string, limit: nat, j: nat)
    requires Below(rows, user, id, limit).Some? && j < |Below(rows, user, id, limit).value|
    ensures BelowBefore(rows, user, Below(rows, user, id, limit).value, j)
    decreases limit, 0
  {
    AllChildrenFirst(rows, user, ChildrenOf(rows, id, user), limit - 1, j);
  }

  lemma {:induction false} AllChildrenFirst(rows: Rows, user: string, folders: seq<Folder>, limit: nat, j: nat)
    requires BelowAll(rows, user, folders, limit).Some? && j < |BelowAll(rows, user, folders, limit).value|
    ensures BelowBefore(rows, user, BelowAll(rows, user, folders, limit).value, j)
    decreases limit, |folders| + 1
  {
    var n := |folders| - 1;
    var front, below := BelowAll(rows, user, folders[..n], limit).value, Below(rows, user, folders[n].id, limit).value;
    var all := BelowAll(rows, user, folders, limit).value;
    assert all == front + below + [folders[n]];
    if j < |front| {
      AllChildrenFirst(rows, user, folders[..n], limit, j);
      BeforeInside(rows, user, [], front, below + [folders[n]], j);
      assert [] + front + (below + [folders[n]]) == all;
    } else if j < |front| + |below| {
      ChildrenFirst(rows, user, folders[n].id, limit, j - |front|);
      BeforeInside(rows, user, front, below, [folders[n]], j - |front|);
    } else {
      assert all[..j] == front + below;
      BelowBeforeWith(rows, user, all, j, limit);
    }
  }

  /** A folder that is its own ancestor is never listed within any limit. */
  lemma {:induction false} OwnAncestorNeverLists(rows: Rows, user: string, id: string, limit: nat, n: nat)
    requires n > 0 && Descends(rows, user, id, id, n)
    ensures Below(rows, user, id, limit).None?
    decreases limit
  {
    if Below(rows, user, id, limit).Some? {
      var f := DescendsBelow(rows, user, id, limit, id, n);
      OwnAncestorNeverLists(rows, user, id, limit - n, n);
    }
  }

  // ----- when the listing returns -------------------------------------------------------------------

  /** The recursion of the listing, as pointers between folder ids. */
  function Down(rows: Rows, user: string): Pointers {
    (id: string) => Ids(ChildrenOf(rows, id, user))
  }

  lemma {:induction false} BelowAllCompletes(rows: Rows, user: string, folders: seq<Folder>, limit: nat)
    ensures BelowAll(rows, user, folders, limit).Some? <==> AllComplete(Down(rows, user), Ids(folders), limit)
    decreases limit, |folders| + 1
  {
    if folders == [] {
      assert Ids(folders) == [];
    } else {
      BelowAllCompletes(rows, user, folders[..|folders| - 1], limit);
      BelowCompletes(rows, user, folders[|folders| - 1].id, limit);
      BelowAllUnfolds(rows, user, folders, limit);
      LastCompletes(rows, user, folders, limit);
    }
  }

  lemma BelowAllUnfolds(rows: Rows, user: string, folders: seq<Folder>, limit: nat)
    requires folders != []
    ensures BelowAll(rows, user, folders, limit).Some? <==>
      BelowAll(rows, user, folders[..|folders| - 1], limit).Some?
      && Below(rows, user, folders[|folders| - 1].id, limit).Some?
  {
  }

  lemma LastCompletes(rows: Rows, user: string, folders: seq<Folder>, limit: nat)
    requires folders != []
    ensures AllComplete(Down(rows, user), Ids(folders), limit) <==>
      AllComplete(Down(rows, user), Ids(folders[..|folders| - 1]), limit)
      && Completes(Down(rows, user), folders[|folders| - 1].id, limit)
  {
    var front, last := folders[..|folders| - 1], folders[|folders| - 1];
    assert Ids(folders) == Ids(front) + [last.id];
    AllCompleteSnoc(Down(rows, user), Ids(front), last.id, limit);
  }

  lemma {:induction false} BelowCompletes(rows: Rows, user: string, id: string, limit: nat)
    ensures Below(rows, user, id, limit).Some? <==> Completes(Down(rows, user), id, limit)
    decreases limit, 0
  {
    CompletesUnfolds(Down(rows, user), id, limit);
    BelowUnfolds(rows, user, id, limit);
    if limit > 0 {
      BelowAllCompletes(rows, user, ChildrenOf(rows, id, user), limit - 1);
    }
  }

  lemma BelowUnfolds(rows: Rows, user: string, id: string, limit: nat)
    ensures Below(rows, user, id, limit).Some? <==>
      limit > 0 && BelowAll(rows, user, ChildrenOf(rows, id, user), limit - 1).Some?
  {
  }

  lemma DownIsClosed(rows: Rows, user: string)
    ensures Closed(Down(rows, user), Elements(Ids(rows)))
  {
    forall x, y | x in Elements(Ids(rows)) && y in Down(rows, user)(x) ensures y in Elements(Ids(rows)) {
      var k := ListedId(ChildrenOf(rows, x, user), y);
      InChildren(rows, x, user, k);
      IdListed(rows, k);
    }
  }

  /**
   * One frame per folder is enough to list a folder exactly when its subtree holds no cycle; if it
   * holds one, no recursion limit is enough and the listing is None.
   */
  lemma ListingReturns(rows: Rows, user: string, id: string)
    requires Keyed(rows) && Owned(rows, id, user)
    ensures Below(rows, user, id, |rows|).Some? <==> !ReachesCycle(Down(rows, user), id)
    ensures ReachesCycle(Down(rows, user), id) ==> forall limit: nat :: Below(rows, user, id, limit).None?
  {
    var f :| f in rows && f.id == id && f.user == user;
    IdListed(rows, f);
    DownIsClosed(rows, user);
    NoRepeatsCounts(Ids(rows));
    CompletesIffNoCycle(Down(rows, user), Elements(Ids(rows)), id);
    forall limit: nat ensures Below(rows, user, id, limit).Some? <==> Completes(Down(rows, user), id, limit) {
      BelowCompletes(rows, user, id, limit);
    }
  }

  // ----- forests --------------------------------------------------------------------------------------

  /** No folder of the user is its own ancestor. */
  ghost predicate Acyclic(rows: Rows, user: string) {
    forall x, n: nat :: n > 0 ==> !Descends(rows, user, x, x, n)
  }

  /** Every folder of the user is listed, given a frame for each folder of the table. */
  ghost predicate AllListed(rows: Rows, user: string) {
    forall f :: f in rows && f.user == user ==> Below(rows, user, f.id, |rows|).Some?
  }

  lemma DownStep(rows: Rows, user: string, x: string, y: string)
    requires Keyed(rows) && y in Down(rows, user)(x)
    ensures Up(rows, user, y) == Some(x)
  {
    var k := ListedId(ChildrenOf(rows, x, user), y);
    ChildDescends(rows, user, x, k);
  }

  /** Each id on the way is a child of the one before. */
  ghost predicate GoesDown(rows: Rows, user: string, p: seq<string>) {
    forall m :: 0 < m < |p| ==> Up(rows, user, p[m]) == Some(p[m - 1])
  }

  lemma PathGoesDown(rows: Rows, user: string, p: seq<string>)
    requires Keyed(rows) && IsPath(Down(rows, user), p)
    ensures GoesDown(rows, user, p)
  {
    forall m | 0 < m < |p| ensures Up(rows, user, p[m]) == Some(p[m - 1]) {
      assert p[m - 1 + 1] in Down(rows, user)(p[m - 1]);
      DownStep(rows, user, p[m - 1], p[m]);
    }
  }

  /** A folder further along a way down is a descendant. */
  lemma {:induction false} DownDescends(rows: Rows, user: string, p: seq<string>, i: nat, j: nat)
    requires GoesDown(rows, user, p) && i <= j < |p|
    ensures Descends(rows, user, p[j], p[i], j - i)
  {
    if i < j {
      DownDescends(rows, user, p, i, j - 1);
    }
  }

  lemma AcyclicReachesNone(rows: Rows, user: string, id: string)
    requires Keyed(rows) && Acyclic(rows, user)
    ensures !ReachesCycle(Down(rows, user), id)
  {
    if ReachesCycle(Down(rows, user), id) {
      var p, i: nat, j: nat :| CycleOn(Down(rows, user), id, p, i, j);
      PathGoesDown(rows, user, p);
      DownDescends(rows, user, p, i, j);
    }
  }

  /** No folder is its own ancestor exactly when every folder can be listed. */
  lemma AcyclicIffListed(rows: Rows, user: string)
    requires Keyed(rows)
    ensures Acyclic(rows, user) <==> AllListed(rows, user)
  {
    if Acyclic(rows, user) {
      forall f | f in rows && f.user == user ensures Below(rows, user, f.id, |rows|).Some? {
        AcyclicReachesNone(rows, user, f.id);
        ListingReturns(rows, user, f.id);
      }
    } else {
      var x, n: nat :| n > 0 && Descends(rows, user, x, x, n);
      LookupIsRow(rows, x);
      OwnAncestorNeverLists(rows, user, x, |rows|, n);
    }
  }

  /** In a forest any id is listed, the user's own folders with one frame less than others. */
  lemma ForestLists(rows: Rows, user: string, id: string, limit: nat)
    requires Keyed(rows) && Acyclic(rows, user)
    requires limit > |rows| || (limit == |rows| && Owned(rows, id, user))
    ensures Below(rows, user, id, limit).Some?
  {
    AcyclicIffListed(rows, user);
    if Owned(rows, id, user) {
      BelowMonotone(rows, user, id, |rows|, limit);
    } else {
      forall y | y in Down(rows, user)(id) ensures Completes(Down(rows, user), y, limit - 1) {
        var k := ListedId(ChildrenOf(rows, id, user), y);
        InChildren(rows, id, user, k);
        BelowMonotone(rows, user, y, |rows|, limit - 1);
        BelowCompletes(rows, user, y, limit - 1);
      }
      BelowCompletes(rows, user, id, limit);
    }
  }

  lemma BelowMonotone(rows: Rows, user: string, x: string, limit: nat, more: nat)
    requires Below(rows, user, x, limit).Some? && limit <= more
    ensures Below(rows, user, x, more).Some?
  {
    BelowCompletes(rows, user, x, limit);
    BelowCompletes(rows, user, x, more);
    CompletesMonotone(Down(rows, user), x, limit, more);
  }

  // ----- moving a folder ----------------------------------------------------------------------------

  /** update_folder_parent_id_by_id_and_user_id: no check of where the new parent lies. */
  function Moved(rows: Rows, id: string, user: string, parent: Option<string>): (r: Rows)
    ensures |r| == |rows|
  {
    seq(|rows|, i requires 0 <= i < |rows| =>
      if rows[i].id == id && rows[i].user == user then rows[i].(parent := parent) else rows[i])
  }

  lemma {:induction false} LookupMoved(rows: Rows, id: string, user: string, parent: Option<string>, x: string)
    ensures Lookup(Moved(rows, id, user, parent), x) ==
      var f := Lookup(rows, x);
      if f.Some? && f.value.id == id && f.value.user == user then Some(f.value.(parent := parent)) else f
  {
    if rows != [] {
      var front := rows[..|rows| - 1];
      LookupMoved(front, id, user, parent, x);
      assert Moved(rows, id, user, parent)[..|front|] == Moved(front, id, user, parent);
    }
  }

  lemma UpMoved(rows: Rows, id: string, user: string, parent: Option<string>, x: string)
    requires Keyed(rows) && Owned(rows, id, user)
    ensures Up(Moved(rows, id, user, parent), user, x) == if x == id then parent else Up(rows, user, x)
  {
    LookupMoved(rows, id, user, parent, x);
    LookupIsRow(rows, x);
    var f :| f in rows && f.id == id && f.user == user;
    LookupFinds(rows, f);
  }

  /** `m` steps up from `x` lead to the moved folder, before and after the move. */
  ghost predicate Meets(rows: Rows, id: string, user: string, parent: Option<string>, x: string, m: nat) {
    Descends(rows, user, x, id, m) && Descends(Moved(rows, id, user, parent), user, x, id, m)
  }

  /** A way up after the move was there before it, or meets the moved folder. */
  lemma {:induction false} ClimbMoved(rows: Rows, id: string, user: string, parent: Option<string>, x: string,
                                      a: string, n: nat)
    requires Keyed(rows) && Owned(rows, id, user) && Descends(Moved(rows, id, user, parent), user, x, a, n)
    ensures Descends(rows, user, x, a, n) || exists m: nat :: m < n && Meets(rows, id, user, parent, x, m)
    decreases n
  {
    if n > 0 {
      UpMoved(rows, id, user, parent, x);
      if x == id {
        assert Meets(rows, id, user, parent, x, 0);
      } else {
        var y := Up(rows, user, x).value;
        ClimbMoved(rows, id, user, parent, y, a, n - 1);
        if m: nat :| m < n - 1 && Meets(rows, id, user, parent, y, m) {
          assert Meets(rows, id, user, parent, x, m + 1);
        }
      }
    }
  }

  /** A way up that does not meet the moved folder before its end is still there. */
  lemma {:induction false} ClimbStays(rows: Rows, id: string, user: string, parent: Option<string>, x: string, n: nat)
    requires Keyed(rows) && Owned(rows, id, user) && Descends(rows, user, x, id, n)
    ensures exists m: nat :: Descends(Moved(rows, id, user, parent), user, x, id, m)
    decreases n
  {
    var moved := Moved(rows, id, user, parent);
    if x == id {
      assert Descends(moved, user, x, id, 0);
    } else {
      UpMoved(rows, id, user, parent, x);
      var y := Up(rows, user, x).value;
      ClimbStays(rows, id, user, parent, y, n - 1);
      var m: nat :| Descends(moved, user, y, id, m);
      assert Descends(moved, user, x, id, m + 1);
    }
  }

  /**
   * Moving a folder of an acyclic forest keeps it acyclic if and only if the new parent is neither
   * the folder itself nor one of its descendants.
   */
  lemma MoveKeepsAcyclic(rows: Rows, id: string, user: string, parent: string)
    requires Keyed(rows) && Owned(rows, id, user) && Acyclic(rows, user)
    ensures Acyclic(Moved(rows, id, user, Some(parent)), user) <==> parent != id && !Under(rows, user, parent, id)
  {
    var moved := Moved(rows, id, user, Some(parent));
    UpMoved(rows, id, user, Some(parent), id);
    if parent == id || Under(rows, user, parent, id) {
      assert Descends(rows, user, parent, id, 0) || Under(rows, user, parent, id);
      var n: nat :| Descends(rows, user, parent, id, n);
      ClimbStays(rows, id, user, Some(parent), parent, n);
      var m: nat :| Descends(moved, user, parent, id, m);
      assert Descends(moved, user, id, id, m + 1);
    } else {
      forall x, n: nat | n > 0 ensures !Descends(moved, user, x, x, n) {
        NoNewCycle(rows, id, user, parent, x, n);
      }
    }
  }

  /**
   * Where a folder may be put: at the top, or under a folder that is neither itself nor in the listing
   * of what is below it.
   */
  predicate Fits(rows: Rows, user: string, id: string, parent: Option<string>) {
    match parent
    case None => true
    case Some(p) =>
      p != id &&
      match Below(rows, user, id, |rows| + 1)
      case Some(below) => p !in Ids(below)
      case None => false
  }

  lemma FitsIff(rows: Rows, user: string, id: string, p: string)
    requires Keyed(rows) && Acyclic(rows, user)
    ensures Fits(rows, user, id, Some(p)) <==> p != id && !Under(rows, user, p, id)
  {
    ForestLists(rows, user, id, |rows| + 1);
    BelowIsSubtree(rows, user, id, |rows| + 1, p);
  }

  /** Every way up in the first table is one in the second. */
  ghost predicate UpsWithin(left: Rows, rows: Rows, user: string) {
    forall x :: Up(left, user, x).Some? ==> Up(left, user, x) == Up(rows, user, x)
  }

  lemma {:induction false} DescendsWithin(left: Rows, rows: Rows, user: string, x: string, a: string, n: nat)
    requires UpsWithin(left, rows, user) && Descends(left, user, x, a, n)
    ensures Descends(rows, user, x, a, n)
    decreases n
  {
    if n > 0 {
      DescendsWithin(left, rows, user, Up(left, user, x).value, a, n - 1);
    }
  }

  lemma AcyclicWithin(left: Rows, rows: Rows, user: string)
    requires UpsWithin(left, rows, user) && Acyclic(rows, user)
    ensures Acyclic(left, user)
  {
    forall x, n: nat | n > 0 ensures !Descends(left, user, x, x, n) {
      if Descends(left, user, x, x, n) {
        DescendsWithin(left, rows, user, x, x, n);
      }
    }
  }

  lemma MoveUpKeepsAcyclic(rows: Rows, id: string, user: string)
    requires Keyed(rows) && Owned(rows, id, user) && Acyclic(rows, user)
    ensures Acyclic(Moved(rows, id, user, None), user)
  {
    forall x ensures Up(Moved(rows, id, user, None), user, x) == if x == id then None else Up(rows, user, x) {
      UpMoved(rows, id, user, None, x);
    }
    AcyclicWithin(Moved(rows, id, user, None), rows, user);
  }

  lemma MovedKeyed(rows: Rows, id: string, user: string, parent: Option<string>)
    requires Keyed(rows)
    ensures Keyed(Moved(rows, id, user, parent))
  {
  }

  lemma MoveKeepsAcyclicIff(rows: Rows, id: string, user: string, parent: Option<string>)
    requires Keyed(rows) && Owned(rows, id, user) && Acyclic(rows, user)
    ensures Acyclic(Moved(rows, id, user, parent), user) <==> Fits(rows, user, id, parent)
  {
    match parent
    case None => MoveUpKeepsAcyclic(rows, id, user);
    case Some(p) =>
      FitsIff(rows, user, id, p);
      MoveKeepsAcyclic(rows, id, user, p);
  }

  /**
   * When every folder of the user can be listed, a move leaves every folder listable if and only if
   * the new parent is neither the folder nor in its listing.
   */
  lemma MoveKeepsListedIff(rows: Rows, id: string, user: string, parent: Option<string>)
    requires Keyed(rows) && Owned(rows, id, user) && AllListed(rows, user)
    ensures AllListed(Moved(rows, id, user, parent), user) <==> Fits(rows, user, id, parent)
  {
    AcyclicIffListed(rows, user);
    MoveKeepsAcyclicIff(rows, id, user, parent);
    MovedKeyed(rows, id, user, parent);
    AcyclicIffListed(Moved(rows, id, user, parent), user);
  }

  lemma NoNewCycle(rows: Rows, id: string, user: string, parent: string, x: string, n: nat)
    requires Keyed(rows) && Owned(rows, id, user) && Acyclic(rows, user)
    requires parent != id && !Under(rows, user, parent, id)
    requires n > 0
    ensures !Descends(Moved(rows, id, user, Some(parent)), user, x, x, n)
  {
    var moved := Moved(rows, id, user, Some(parent));
    if Descends(moved, user, x, x, n) {
      // the cycle was not there before, so it meets the moved folder and returns to it from its new parent
      ClimbMoved(rows, id, user, Some(parent), x, x, n);
      var m: nat :| m < n && Meets(rows, id, user, Some(parent), x, m);
      AncestorsOrdered(moved, user, x, id, x, m, n);
      DescendsJoin(moved, user, id, x, id, n - m, m);
      UpMoved(rows, id, user, Some(parent), id);
      ClimbMoved(rows, id, user, Some(parent), parent, id, n - 1);
      NotUnder(rows, user, parent, id);
    }
  }

  lemma NotUnder(rows: Rows, user: string, x: string, id: string)
    requires x != id && !Under(rows, user, x, id)
    ensures forall n: nat :: !Descends(rows, user, x, id, n)
  {
  }

  lemma LookupTwo(f: Folder, g: Folder, x: string)
    requires f.id != g.id
    ensures Lookup([f, g], x) == if x == f.id then Some(f) else if x == g.id then Some(g) else None
  {
    assert [f, g][..1] == [f] && [f][..0] == [];
    assert Lookup([f], x) == if x == f.id then Some(f) else None;
  }

  lemma TwoFolders(user: string, f: Folder, g: Folder, x: string)
    requires f.id != g.id && f.user == user && g.user == user
    ensures Up([f, g], user, x) == if x == f.id then f.parent else if x == g.id then g.parent else None
  {
    LookupTwo(f, g, x);
  }

  /** Two folders, one in the other: moving the outer into the inner makes it unlistable for good. */
  lemma MoveClosesCycle(user: string, a: string, b: string) returns (rows: Rows)
    requires a != b
    ensures rows == [Folder(a, None, user, "")] + [Folder(b, Some(a), user, "")]
    ensures Keyed(rows) && Owned(rows, a, user) && Acyclic(rows, user)
    ensures !Acyclic(Moved(rows, a, user, Some(b)), user)
    ensures forall limit: nat :: Below(Moved(rows, a, user, Some(b)), user, a, limit).None?
  {
    var outer, inner := Folder(a, None, user, ""), Folder(b, Some(a), user, "");
    rows := [outer, inner];
    assert outer in rows;
    forall x, n: nat | n > 0 ensures !Descends(rows, user, x, x, n) {
      OneStepAtMost(user, outer, inner, x, n);
    }
    var moved := Moved(rows, a, user, Some(b));
    assert moved == [Folder(a, Some(b), user, ""), inner];
    TwoFolders(user, moved[0], inner, a);
    TwoFolders(user, moved[0], inner, b);
    assert Descends(moved, user, a, a, 0) && Descends(moved, user, b, a, 1) && Descends(moved, user, a, a, 2);
    forall limit: nat ensures Below(moved, user, a, limit).None? {
      OwnAncestorNeverLists(moved, user, a, limit, 2);
    }
  }

  lemma OneStepAtMost(user: string, outer: Folder, inner: Folder, x: string, n: nat)
    requires outer.id != inner.id && outer.user == user && inner.user == user
    requires outer.parent == None && inner.parent == Some(outer.id) && n > 0
    ensures !Descends([outer, inner], user, x, x, n)
  {
    TwoFolders(user, outer, inner, x);
    TwoFolders(user, outer, inner, outer.id);
    if x == inner.id {
      assert Descends([outer, inner], user, x, x, n) == Descends([outer, inner], user, outer.id, x, n - 1);
    }
  }
}
