/**
 * A nested configuration document addressed by dotted paths
 * (backend/open_webui/config.py:128-136 and :206-221).
 */
module ConfigTree {
  import opened Basics

  datatype Json =
    | Null
    | Bool(bit: bool)
    | Num(number: real)
    | Str(text: string)
    | List(items: seq<Json>)
    | Dict(entries: map<string, Json>)

  /** What a read gives: None of Python is Null, Raised is a TypeError. */
  datatype Read = Raised | Value(json: Json)

  type Path = seq<string>

  predicate Within(part: string, s: string) {
    part <= s || (s != "" && Within(part, s[1..]))
  }

  /**
   * get_config_value on a split path.  Python's `in` looks for a substring in a string and for an
   * element in a list, where the key then cannot be used to subscript.
   */
  function Get(doc: Json, p: Path): Read {
    if p == [] then Value(doc)
    else match doc
      case Dict(entries) => if p[0] in entries then Get(entries[p[0]], p[1..]) else Value(Null)
      case Str(text) => if Within(p[0], text) then Raised else Value(Null)
      case List(items) => if Str(p[0]) in items then Raised else Value(Null)
      case _ => Raised
  }

  method GetConfigValue(doc: Json, p: Path) returns (r: Read)
    ensures r == Get(doc, p)
  {
    var cur := doc;
    for i := 0 to |p|
      invariant Get(doc, p) == Get(cur, p[i..])
    {
      var key := p[i];
      assert p[i..][0] == key && p[i..][1..] == p[i + 1..];
      match cur
      case Dict(entries) =>
        if key !in entries {
          return Value(Null);
        }
        cur := entries[key];
      case Str(text) =>
        return if Within(key, text) then Raised else Value(Null);
      case List(items) =>
        return if Str(key) in items then Raised else Value(Null);
      case _ =>
        return Raised;
    }
    return Value(cur);
  }

  /** The walk of PersistentConfig.save, which creates what is missing: None is a TypeError. */
  function Put(doc: Json, p: Path, v: Json): Option<Json>
    requires p != []
    decreases |p|
  {
    if !doc.Dict? then None
    else if |p| == 1 then Some(Dict(doc.entries[p[0] := v]))
    else
      var below := Put(if p[0] in doc.entries then doc.entries[p[0]] else Dict(map[]), p[1..], v);
      if below.None? then None else Some(Dict(doc.entries[p[0] := below.value]))
  }

  /** What a document holds at a path. */
  function Find(doc: Json, p: Path): Option<Json> {
    if p == [] then Some(doc)
    else if doc.Dict? && p[0] in doc.entries then Find(doc.entries[p[0]], p[1..])
    else None
  }

  /** A read that returns gives what the document holds; a null cannot be told from nothing. */
  lemma {:induction false} GetFinds(doc: Json, p: Path)
    requires Get(doc, p).Value?
    ensures Get(doc, p).json == if Find(doc, p).Some? then Find(doc, p).value else Null
  {
    if p != [] && doc.Dict? && p[0] in doc.entries {
      GetFinds(doc.entries[p[0]], p[1..]);
    }
  }

  // ----- where a save succeeds -----------------------------------------------------------------------

  /** Everything the document holds strictly above the path is a dictionary. */
  ghost predicate Open(doc: Json, p: Path) {
    forall k :: 0 <= k < |p| ==> DictAt(doc, p[..k])
  }

  predicate DictAt(doc: Json, p: Path) {
    Find(doc, p).Some? ==> Find(doc, p).value.Dict?
  }

  lemma OpenBelow(doc: Json, p: Path)
    requires p != []
    ensures Open(doc, p) <==> doc.Dict? && (p[0] in doc.entries ==> Open(doc.entries[p[0]], p[1..]))
  {
    if doc.Dict? && p[0] in doc.entries {
      var sub := doc.entries[p[0]];
      forall k | 0 <= k < |p| - 1 ensures DictAt(doc, p[..k + 1]) <==> DictAt(sub, p[1..][..k]) {
        assert p[..k + 1][1..] == p[1..][..k];
      }
      if Open(sub, p[1..]) {
        forall k | 0 <= k < |p| ensures DictAt(doc, p[..k]) {
          assert k > 0 ==> DictAt(sub, p[1..][..k - 1]);
        }
      } else {
        var k :| 0 <= k < |p| - 1 && !DictAt(sub, p[1..][..k]);
        assert !DictAt(doc, p[..k + 1]);
      }
    } else if doc.Dict? {
      forall k | 0 <= k < |p| ensures DictAt(doc, p[..k]) {
      }
    } else {
      assert !DictAt(doc, p[..0]);
    }
  }

  lemma EmptyIsOpen(p: Path)
    requires p != []
    ensures Open(Dict(map[]), p)
  {
  }

  /** A save succeeds exactly on an open path. */
  lemma {:induction false} PutSucceeds(doc: Json, p: Path, v: Json)
    requires p != []
    ensures Put(doc, p, v).Some? <==> Open(doc, p)
    decreases |p|
  {
    OpenBelow(doc, p);
    if doc.Dict? && |p| > 1 {
      if p[0] in doc.entries {
        PutSucceeds(doc.entries[p[0]], p[1..], v);
      } else {
        PutSucceeds(Dict(map[]), p[1..], v);
        EmptyIsOpen(p[1..]);
      }
    } else if doc.Dict? && p[0] in doc.entries {
      assert Open(doc.entries[p[0]], p[1..]);
    }
  }

  // ----- what a save changes -------------------------------------------------------------------------

  /** Neither path runs through the other. */
  predicate Apart(p: Path, q: Path) {
    !(p <= q) && !(q <= p)
  }

  lemma TailsCompare(p: Path, q: Path)
    requires p != [] && q != [] && p[0] == q[0]
    ensures p <= q <==> p[1..] <= q[1..]
  {
  }

  /** Where a save at `p` starts writing, seen from a place `q` above it. */
  function Base(doc: Json, q: Path): Json {
    if Find(doc, q).Some? then Find(doc, q).value else Dict(map[])
  }

  function SavedAt(doc: Json, p: Path, v: Json, q: Path): Option<Json>
    requires p != []
  {
    if p <= q then Find(v, q[|p|..])
    else if q <= p then Put(Base(doc, q), p[|q|..], v)
    else Find(doc, q)
  }

  /**
   * All that a save changes: at and below its path the document is the saved value, above it what
   * was there with the value saved into it, and everywhere else what it was.
   */
  lemma {:induction false} SavedFinds(doc: Json, p: Path, v: Json, q: Path)
    requires p != [] && Put(doc, p, v).Some?
    ensures Find(Put(doc, p, v).value, q) == SavedAt(doc, p, v, q)
    decreases |p|
  {
    if q == [] {
      assert p[0..] == p;
    } else if q[0] == p[0] {
      TailsCompare(p, q);
      TailsCompare(q, p);
      if |p| == 1 {
        assert q[1..] == q[|p|..];
        assert p[1..] == [];
      } else {
        var sub := if p[0] in doc.entries then doc.entries[p[0]] else Dict(map[]);
        SavedFinds(sub, p[1..], v, q[1..]);
        SavedBelow(doc, p, v, q);
      }
    }
  }

  lemma SavedBelow(doc: Json, p: Path, v: Json, q: Path)
    requires doc.Dict? && |p| > 1 && q != [] && q[0] == p[0]
    ensures SavedAt(doc, p, v, q) ==
      SavedAt(if p[0] in doc.entries then doc.entries[p[0]] else Dict(map[]), p[1..], v, q[1..])
  {
  }

  /** A saved path reads as the saved value. */
  lemma {:induction false} ReadsSaved(doc: Json, p: Path, v: Json)
    requires p != [] && Put(doc, p, v).Some?
    ensures Get(Put(doc, p, v).value, p) == Value(v)
    decreases |p|
  {
    if |p| > 1 {
      ReadsSaved(if p[0] in doc.entries then doc.entries[p[0]] else Dict(map[]), p[1..], v);
    }
  }

  /** A path apart from the saved one reads as before, whether it raised, was missing or held a value. */
  lemma {:induction false} ReadsUntouched(doc: Json, p: Path, v: Json, q: Path)
    requires p != [] && Put(doc, p, v).Some? && Apart(p, q)
    ensures Get(Put(doc, p, v).value, q) == Get(doc, q)
    decreases |p|
  {
    if q[0] == p[0] {
      TailsCompare(p, q);
      TailsCompare(q, p);
      if p[0] in doc.entries {
        ReadsUntouched(doc.entries[p[0]], p[1..], v, q[1..]);
      } else {
        ReadsUntouched(Dict(map[]), p[1..], v, q[1..]);
      }
    }
  }

  /** A save opens its own path and neither opens nor blocks a path apart from it. */
  lemma SaveKeepsOpen(doc: Json, p: Path, v: Json, q: Path)
    requires p != [] && q != [] && Put(doc, p, v).Some? && (p == q || Apart(p, q))
    ensures Open(Put(doc, p, v).value, q) <==> Open(doc, q)
  {
    var d := Put(doc, p, v).value;
    forall k | 0 <= k < |q| ensures DictAt(d, q[..k]) <==> DictAt(doc, q[..k]) {
      SavedFinds(doc, p, v, q[..k]);
      if q[..k] <= p {
        PutSucceeds(doc, p, v);
        assert p[..k] == q[..k];
        assert k < |p| ==> DictAt(doc, p[..k]);
      }
    }
    assert Open(d, q) <==> Open(doc, q);
  }

  // ----- dotted paths --------------------------------------------------------------------------------

  /** `path.split(".")`. */
  function Split(s: string): (parts: seq<string>)
    ensures parts != []
  {
    if s == "" then [""]
    else
      var front, c := Split(s[..|s| - 1]), s[|s| - 1];
      if c == '.' then front + [""] else front[..|front| - 1] + [front[|front| - 1] + [c]]
  }

  function Join(parts: seq<string>): string
    requires parts != []
  {
    if |parts| == 1 then parts[0] else Join(parts[..|parts| - 1]) + "." + parts[|parts| - 1]
  }

  lemma JoinGrows(front: seq<string>, c: char)
    requires front != []
    ensures Join(front[..|front| - 1] + [front[|front| - 1] + [c]]) == Join(front) + [c]
  {
    var n := |front| - 1;
    var parts := front[..n] + [front[n] + [c]];
    assert parts[..n] == front[..n];
    if n == 0 {
      assert Join(parts) == front[0] + [c];
    } else {
      Regroup(Join(front[..n]) + ".", front[n], [c]);
    }
  }

  lemma JoinDot(front: seq<string>)
    requires front != []
    ensures Join(front + [""]) == Join(front) + "."
  {
    assert (front + [""])[..|front|] == front;
  }

  /** Different dotted names are different paths. */
  lemma {:induction false} SplitIsInjective(s: string)
    ensures Join(Split(s)) == s
  {
    if s != "" {
      var front, c := Split(s[..|s| - 1]), s[|s| - 1];
      SplitIsInjective(s[..|s| - 1]);
      assert s == s[..|s| - 1] + [c];
      if c == '.' {
        JoinDot(front);
      } else {
        JoinGrows(front, c);
      }
    }
  }

  lemma {:induction false} FirstPart(s: string)
    ensures var parts := Split(s);
      '.' !in parts[0] && (if |parts| == 1 then parts[0] == s else parts[0] + "." <= s)
  {
    if s != "" {
      FirstPart(s[..|s| - 1]);
      assert s == s[..|s| - 1] + [s[|s| - 1]];
    }
  }

  predicate StartsWith(s: string, prefix: string) {
    prefix <= s
  }

  lemma HasDot(s: string, x: string)
    ensures x + "." <= s ==> '.' in s
  {
    if x + "." <= s {
      assert s[|x|] == (x + ".")[|x|] == '.';
    }
  }

  lemma FirstDot(s: string, x: string, y: string)
    requires x + "." <= s && y + "." <= s && '.' !in x
    ensures |x| <= |y|
  {
    assert s[|y|] == (y + ".")[|y|] == '.';
    forall i | 0 <= i < |x| ensures s[i] != '.' {
      assert s[i] == (x + ".")[i] == x[i];
    }
  }

  /** The oauth switch concerns exactly the paths of at least two parts whose first is "oauth". */
  lemma OauthPaths(s: string)
    ensures StartsWith(s, "oauth.") <==> |Split(s)| > 1 && Split(s)[0] == "oauth"
  {
    FirstPart(s);
    var first := Split(s)[0];
    assert "oauth." == "oauth" + ".";
    HasDot(s, "oauth");
    if |Split(s)| > 1 && StartsWith(s, "oauth.") {
      FirstDot(s, first, "oauth");
      FirstDot(s, "oauth", first);
      assert first == (first + ".")[..5] == s[..5] == "oauth";
    }
  }
}
