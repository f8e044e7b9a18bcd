/**
 * Runs of inserting, moving and deleting folders (backend/open_webui/models/folders.py:85-117,
 * :190-211, :279-309): which steps keep every user's folders a forest, that is, listable.
 */
module FolderForest {
  import opened Basics
  import opened Folders
  import opened FolderDeletion

  datatype Event =
    | Insert(folder: Folder)
    | Move(id: string, user: string, parent: Option<string>)
    | Delete(id: string, user: string, limit: nat)

  function Apply(rows: Rows, e: Event): Rows {
    match e
    case Insert(f) => Inserted(rows, f)
    case Move(id, user, parent) => Moved(rows, id, user, parent)
    case Delete(id, user, limit) => Deleted(rows, id, user, limit)
  }

  function After(run: seq<Event>): Rows {
    if run == [] then [] else Apply(After(run[..|run| - 1]), run[|run| - 1])
  }

  ghost predicate Forest(rows: Rows) {
    Keyed(rows) && forall user :: Acyclic(rows, user)
  }

  /** The check that is missing: the parent given is neither the folder nor in its listing. */
  predicate Checked(rows: Rows, e: Event) {
    match e
    case Insert(f) => Lookup(rows, f.id).None? ==> Fits(rows, f.user, f.id, f.parent)
    case Move(id, user, parent) => Owned(rows, id, user) ==> Fits(rows, user, id, parent)
    case Delete(_, _, _) => true
  }

  // ----- moving --------------------------------------------------------------------------------------

  lemma MoveKeepsOthers(rows: Rows, id: string, user: string, parent: Option<string>, other: string)
    requires Acyclic(rows, other) && (other != user || !Owned(rows, id, user))
    ensures Acyclic(Moved(rows, id, user, parent), other)
  {
    var moved := Moved(rows, id, user, parent);
    forall x ensures Up(moved, other, x) == Up(rows, other, x) {
      LookupMoved(rows, id, user, parent, x);
      LookupIsRow(rows, x);
    }
    AcyclicWithin(moved, rows, other);
  }

  lemma MoveKeepsForestIff(rows: Rows, id: string, user: string, parent: Option<string>)
    requires Forest(rows)
    ensures Forest(Moved(rows, id, user, parent)) <==> (Owned(rows, id, user) ==> Fits(rows, user, id, parent))
  {
    var moved := Moved(rows, id, user, parent);
    MovedKeyed(rows, id, user, parent);
    if Owned(rows, id, user) {
      MoveKeepsAcyclicIff(rows, id, user, parent);
    }
    forall other | other != user || !Owned(rows, id, user) ensures Acyclic(moved, other) {
      MoveKeepsOthers(rows, id, user, parent, other);
    }
  }

  // ----- inserting -----------------------------------------------------------------------------------

  lemma UpInserted(rows: Rows, f: Folder, user: string, x: string)
    requires Lookup(rows, f.id).None?
    ensures Up(rows + [f], user, x) ==
      if x != f.id then Up(rows, user, x) else if f.user == user then f.parent else None
  {
    assert (rows + [f])[..|rows|] == rows;
  }

  lemma {:induction false} NotLookedUp(rows: Rows, id: string)
    ensures Lookup(rows, id).None? <==> forall f :: f in rows ==> f.id != id
  {
    if rows != [] {
      NotLookedUp(rows[..|rows| - 1], id);
      assert rows == rows[..|rows| - 1] + [rows[|rows| - 1]];
    }
  }

  lemma InsertKeyed(rows: Rows, f: Folder)
    requires Keyed(rows) && Lookup(rows, f.id).None?
    ensures Keyed(rows + [f])
  {
    NotLookedUp(rows, f.id);
  }

  /** A new folder at the top changes no one's way up. */
  lemma RootKeepsForest(rows: Rows, root: Folder)
    requires Forest(rows) && Lookup(rows, root.id).None? && root.parent.None?
    ensures Forest(rows + [root])
    ensures forall user, x :: Up(rows + [root], user, x) == Up(rows, user, x)
  {
    InsertKeyed(rows, root);
    forall user, x ensures Up(rows + [root], user, x) == Up(rows, user, x) {
      UpInserted(rows, root, user, x);
    }
    forall user ensures Acyclic(rows + [root], user) {
      AcyclicWithin(rows + [root], rows, user);
    }
  }

  /** So inserting is inserting at the top and moving. */
  lemma InsertedThenMoved(rows: Rows, f: Folder)
    requires Lookup(rows, f.id).None?
    ensures rows + [f] == Moved(rows + [f.(parent := None)], f.id, f.user, f.parent)
    ensures Owned(rows + [f.(parent := None)], f.id, f.user)
  {
    NotLookedUp(rows, f.id);
    assert f.(parent := None) in rows + [f.(parent := None)];
  }

  lemma {:induction false} SameUnder(a: Rows, b: Rows, user: string, x: string, id: string)
    requires UpsWithin(a, b, user) && Under(a, user, x, id)
    ensures Under(b, user, x, id)
  {
    var n: nat :| n > 0 && Descends(a, user, x, id, n);
    DescendsWithin(a, b, user, x, id, n);
  }

  lemma SameFit(rows: Rows, root: Folder, parent: Option<string>)
    requires Forest(rows) && Lookup(rows, root.id).None? && root.parent.None?
    ensures Forest(rows + [root])
    ensures Fits(rows + [root], root.user, root.id, parent) <==> Fits(rows, root.user, root.id, parent)
  {
    RootKeepsForest(rows, root);
    if parent.Some? {
      FitsIff(rows, root.user, root.id, parent.value);
      FitsIff(rows + [root], root.user, root.id, parent.value);
      if Under(rows, root.user, parent.value, root.id) {
        SameUnder(rows, rows + [root], root.user, parent.value, root.id);
      }
      if Under(rows + [root], root.user, parent.value, root.id) {
        SameUnder(rows + [root], rows, root.user, parent.value, root.id);
      }
    }
  }

  lemma InsertKeepsForestIff(rows: Rows, f: Folder)
    requires Forest(rows)
    ensures Forest(Inserted(rows, f)) <==> (Lookup(rows, f.id).None? ==> Fits(rows, f.user, f.id, f.parent))
  {
    if Lookup(rows, f.id).None? {
      SameFit(rows, f.(parent := None), f.parent);
      InsertedThenMoved(rows, f);
      MoveKeepsForestIff(rows + [f.(parent := None)], f.id, f.user, f.parent);
    }
  }

  // ----- deleting ------------------------------------------------------------------------------------

  lemma WithoutKeepsForest(rows: Rows, gone: set<string>)
    requires Forest(rows)
    ensures Forest(Without(rows, gone))
  {
    var left := Without(rows, gone);
    WithoutKeyed(rows, gone);
    forall user ensures Acyclic(left, user) {
      forall x | Up(left, user, x).Some? ensures Up(left, user, x) == Up(rows, user, x) {
        LookupIsRow(left, x);
        InWithout(rows, gone, Lookup(left, x).value);
        LookupWithout(rows, gone, x);
      }
      AcyclicWithin(left, rows, user);
    }
  }

  lemma DeleteKeepsForest(rows: Rows, id: string, user: string, limit: nat)
    requires Forest(rows)
    ensures Forest(Deleted(rows, id, user, limit))
  {
    if Owned(rows, id, user) {
      match Below(rows, user, id, limit)
      case Some(below) => WithoutKeepsForest(rows, {id} + IdSet(below));
      case None => WithoutKeepsForest(rows, Gone(rows, user, id, limit));
    }
  }

  // ----- runs ----------------------------------------------------------------------------------------

  /** A step keeps a forest one exactly when its parent was checked. */
  lemma StepKeepsForestIff(rows: Rows, e: Event)
    requires Forest(rows)
    ensures Forest(Apply(rows, e)) <==> Checked(rows, e)
  {
    match e
    case Insert(f) => InsertKeepsForestIff(rows, f);
    case Move(id, user, parent) => MoveKeepsForestIff(rows, id, user, parent);
    case Delete(id, user, limit) => DeleteKeepsForest(rows, id, user, limit);
  }

  /** After every run of checked steps, every folder of every user can be listed. */
  lemma {:induction false} CheckedRunsListed(run: seq<Event>)
    requires forall n :: 0 <= n < |run| ==> Checked(After(run[..n]), run[n])
    ensures Forest(After(run))
    ensures forall user :: AllListed(After(run), user)
  {
    if run != [] {
      var front := run[..|run| - 1];
      forall n | 0 <= n < |front| ensures Checked(After(front[..n]), front[n]) {
        assert front[..n] == run[..n];
      }
      CheckedRunsListed(front);
      StepKeepsForestIff(After(front), run[|run| - 1]);
    }
    forall user ensures AllListed(After(run), user) {
      AcyclicIffListed(After(run), user);
    }
  }

  /** And deleting any of them then deletes its subtree, as a whole and each folder once. */
  lemma CheckedRunsDelete(run: seq<Event>, user: string, id: string, limit: nat, f: Folder)
    requires forall n :: 0 <= n < |run| ==> Checked(After(run[..n]), run[n])
    requires Owned(After(run), id, user) && limit >= |After(run)|
    ensures Below(After(run), user, id, limit).Some?
    ensures NoRepeats([id] + Ids(Below(After(run), user, id, limit).value))
    ensures f in After(run + [Delete(id, user, limit)]) <==>
      f in After(run) && !AtOrUnder(After(run), user, f.id, id)
  {
    CheckedRunsListed(run);
    DeletedIdsDistinct(After(run), user, id, limit);
    DeletionRemovesSubtree(After(run), user, id, limit, f);
    assert (run + [Delete(id, user, limit)])[..|run|] == run;
  }

  // ----- a run that is not checked ---------------------------------------------------------------------

  lemma OneMore(run: seq<Event>, e: Event)
    ensures After(run + [e]) == Apply(After(run), e)
  {
    assert (run + [e])[..|run|] == run;
  }

  lemma InsertedLast(run: seq<Event>, f: Folder)
    requires Lookup(After(run), f.id).None?
    ensures After(run + [Insert(f)]) == After(run) + [f]
  {
    OneMore(run, Insert(f));
  }

  lemma OnlyRow(f: Folder, id: string)
    requires f.id != id
    ensures Lookup([] + [f], id).None?
  {
    NotLookedUp([] + [f], id);
  }

  lemma TwoMade(outer: Folder, inner: Folder) returns (run: seq<Event>)
    requires outer.id != inner.id
    ensures run == [Insert(outer)] + [Insert(inner)] && After(run) == [outer] + [inner]
  {
    InsertedLast([], outer);
    OnlyRow(outer, inner.id);
    InsertedLast([] + [Insert(outer)], inner);
    run := [] + [Insert(outer)] + [Insert(inner)];
  }

  lemma InnerMoved(user: string, a: string, b: string)
    requires a != b
    ensures Moved([Folder(a, None, user, "")] + [Folder(b, None, user, "")], b, user, Some(a))
      == [Folder(a, None, user, "")] + [Folder(b, Some(a), user, "")]
  {
  }

  /**
   * Two folders made, the second moved into the first and the first into the second: neither is
   * listed again.
   */
  lemma TwoMovesSuffice(user: string, a: string, b: string) returns (run: seq<Event>)
    requires a != b
    ensures run == [Insert(Folder(a, None, user, ""))] + [Insert(Folder(b, None, user, ""))]
                   + [Move(b, user, Some(a))] + [Move(a, user, Some(b))]
    ensures forall limit: nat :: Below(After(run), user, a, limit).None?
  {
    run := TwoMade(Folder(a, None, user, ""), Folder(b, None, user, ""));
    OneMore(run, Move(b, user, Some(a)));
    InnerMoved(user, a, b);
    OneMore(run + [Move(b, user, Some(a))], Move(a, user, Some(b)));
    run := run + [Move(b, user, Some(a))] + [Move(a, user, Some(b))];
    var rows := MoveClosesCycle(user, a, b);
  }
}
