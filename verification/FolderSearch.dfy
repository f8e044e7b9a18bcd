/**
 * Searching folders by name, with everything below each match
 * (backend/open_webui/models/folders.py:316-345).
 */
module FolderSearch {
  import opened Basics
  import opened Folders

  /** The results dictionary: one entry per folder, in insertion order. */
  function Added(results: seq<Folder>, f: Folder): seq<Folder> {
    if f in results then results else results + [f]
  }

  ghost predicate Matches(f: Folder, user: string, queries: seq<string>, normalize: string -> string) {
    f.user == user && exists q :: q in queries && normalize(f.name) == normalize(q)
  }

  /** `f` is the folder `m`, or a folder of the user below it. */
  ghost predicate Within(rows: Rows, user: string, m: Folder, f: Folder) {
    f == m || (f in rows && f.user == user && Under(rows, user, f.id, m.id))
  }

  /** `f` is a match among the first `n` rows, or lies below one. */
  ghost predicate Found(rows: Rows, user: string, queries: seq<string>, normalize: string -> string, n: nat, f: Folder)
    requires n <= |rows|
  {
    exists i :: 0 <= i < n && Matches(rows[i], user, queries, normalize) && Within(rows, user, rows[i], f)
  }

  ghost predicate Holds(rows: Rows, user: string, queries: seq<string>, normalize: string -> string, n: nat,
                        results: seq<Folder>)
    requires n <= |rows|
  {
    && NoRepeats(results)
    && forall f :: f in results <==> Found(rows, user, queries, normalize, n, f)
  }

  /** A match whose listing hits the recursion limit. */
  ghost predicate Fails(rows: Rows, user: string, queries: seq<string>, normalize: string -> string, limit: nat,
                        f: Folder)
  {
    Matches(f, user, queries, normalize) && Below(rows, user, f.id, limit).None?
  }

  method AddAll(results: seq<Folder>, more: seq<Folder>) returns (r: seq<Folder>)
    requires NoRepeats(results)
    ensures NoRepeats(r)
    ensures forall f :: f in r <==> f in results || f in more
  {
    r := results;
    for i := 0 to |more|
      invariant NoRepeats(r)
      invariant forall f :: f in r <==> f in results || f in more[..i]
    {
      assert more[..i + 1] == more[..i] + [more[i]];
      r := Added(r, more[i]);
    }
    assert more[..|more|] == more;
  }

  /**
   * None stands for the error of iterating over the missing listing of a folder that hit the
   * recursion limit.
   */
  method SearchByNames(rows: Rows, user: string, queries: seq<string>, normalize: string -> string, limit: nat)
    returns (r: Option<seq<Folder>>)
    requires Keyed(rows)
    ensures r.Some? ==> Holds(rows, user, queries, normalize, |rows|, r.value)
    ensures r.None? <==> exists i :: 0 <= i < |rows| && Fails(rows, user, queries, normalize, limit, rows[i])
  {
    var normalized := seq(|queries|, i requires 0 <= i < |queries| => normalize(queries[i]));
    var results: seq<Folder> := [];
    for i := 0 to |rows|
      invariant Holds(rows, user, queries, normalize, i, results)
      invariant forall j :: 0 <= j < i ==> !Fails(rows, user, queries, normalize, limit, rows[j])
    {
      var f := rows[i];
      NormalizedMatch(queries, normalize, normalized, f, user);
      if f.user == user && normalize(f.name) in normalized {
        var children := GetChildren(rows, f.id, user, limit);
        if children.None? {
          assert Fails(rows, user, queries, normalize, limit, rows[i]);
          return None;
        }
        ListedBelow(rows, user, f, limit);
        ghost var before := results;
        results := AddAll(Added(results, f), children.value);
        HoldsMore(rows, user, queries, normalize, i, before, results);
      } else {
        HoldsSame(rows, user, queries, normalize, i, results);
      }
    }
    return Some(results);
  }

  lemma HoldsMore(rows: Rows, user: string, queries: seq<string>, normalize: string -> string, n: nat,
                  before: seq<Folder>, results: seq<Folder>)
    requires n < |rows| && Holds(rows, user, queries, normalize, n, before)
    requires Matches(rows[n], user, queries, normalize)
    requires NoRepeats(results)
    requires forall f :: f in results <==> f in before || Within(rows, user, rows[n], f)
    ensures Holds(rows, user, queries, normalize, n + 1, results)
  {
  }

  lemma HoldsSame(rows: Rows, user: string, queries: seq<string>, normalize: string -> string, n: nat,
                  results: seq<Folder>)
    requires n < |rows| && Holds(rows, user, queries, normalize, n, results)
    requires !Matches(rows[n], user, queries, normalize)
    ensures Holds(rows, user, queries, normalize, n + 1, results)
  {
  }

  lemma NormalizedMatch(queries: seq<string>, normalize: string -> string, normalized: seq<string>, f: Folder,
                        user: string)
    requires |normalized| == |queries| && forall i :: 0 <= i < |queries| ==> normalized[i] == normalize(queries[i])
    ensures f.user == user && normalize(f.name) in normalized <==> Matches(f, user, queries, normalize)
  {
  }

  lemma ListedBelow(rows: Rows, user: string, m: Folder, limit: nat)
    requires Keyed(rows) && Below(rows, user, m.id, limit).Some?
    ensures forall f :: f == m || f in Below(rows, user, m.id, limit).value <==> Within(rows, user, m, f)
  {
    var below := Below(rows, user, m.id, limit).value;
    forall f ensures f == m || f in below <==> Within(rows, user, m, f) {
      if f in below {
        var n := BelowDescends(rows, user, m.id, limit, f);
      }
      if f in rows && f.user == user && Under(rows, user, f.id, m.id) {
        BelowIsSubtree(rows, user, m.id, limit, f.id);
        var g := ListedId(below, f.id);
        var n := BelowDescends(rows, user, m.id, limit, g);
        LookupFinds(rows, f);
        LookupFinds(rows, g);
      }
    }
  }
}
