/**
 * Which collections are searched for which attached item
 * (backend/open_webui/retrieval/utils.py:939-1177).
 */
module SourceCollections {

  datatype Kind = RawText | Note | Chat | Url | File | Collection | Other

  /**
   * An attached item.  `available` is the answer of the store or the network: an accessible note,
   * chat or knowledge base with content, a file row, a page with documents.
   */
  datatype Item = Item(
    kind: Kind, id: string, full: bool, legacy: bool, hasFile: bool, hasFileContent: bool,
    available: bool, hasDocs: bool, collectionName: string, collectionNames: seq<string>)

  /** What an item yields before any search: content of its own, or names of collections. */
  datatype Yield = Content | Names(names: seq<string>)

  function YieldOf(item: Item, bypass: bool): Yield {
    match item.kind
    case RawText =>
      if item.full && item.hasFile then Content
      else if item.collectionName != "" then Names([item.collectionName])
      else Content
    case Note => if item.available then Content else Names([])
    case Chat => if item.available then Content else Names([])
    case Url => if item.available then Content else Names([])
    case File =>
      if item.full || bypass then
        if item.hasFileContent || (item.id != "" && item.available) then Content else Names([])
      else if item.legacy then Names([item.id])
      else Names(["file-" + item.id])
    case Collection =>
      if !item.available then Names([])
      else if item.full || bypass then Content
      else if item.legacy then Names(item.collectionNames)
      else Names([item.id])
    case Other =>
      if item.hasDocs then Content
      else if item.collectionName != "" then Names([item.collectionName])
      else Names(item.collectionNames)
  }

  function Wanted(y: Yield): set<string> {
    if y.Names? then set n | n in y.names else {}
  }

  /** The collections an item names when it reaches the fallback search. */
  function Needed(item: Item, bypass: bool): set<string> {
    Wanted(YieldOf(item, bypass))
  }

  /** In which cases an item is searched in a collection of this name. */
  ghost predicate AsksFor(item: Item, bypass: bool, name: string) {
    match item.kind
    case Note => false
    case Chat => false
    case Url => false
    case RawText => name == item.collectionName != "" && !(item.full && item.hasFile)
    case File => !item.full && !bypass && name == (if item.legacy then item.id else "file-" + item.id)
    case Collection =>
      item.available && !item.full && !bypass && (if item.legacy then name in item.collectionNames else name == item.id)
    case Other =>
      !item.hasDocs && (if item.collectionName != "" then name == item.collectionName else name in item.collectionNames)
  }

  /**
   * A collection is searched for an item exactly then: never for notes, chats and pages, never for a
   * file or knowledge base used in full, and for a current file only its own collection.
   */
  lemma NeededIff(item: Item, bypass: bool, name: string)
    ensures name in Needed(item, bypass) <==> AsksFor(item, bypass, name)
  {
  }

  /** So two current files share no collection. */
  lemma FilesApart(a: Item, b: Item, bypass: bool)
    requires a.kind == File && b.kind == File && !a.legacy && !b.legacy && a.id != b.id
    ensures Needed(a, bypass) !! Needed(b, bypass)
  {
    forall name | name in Needed(a, bypass) ensures name !in Needed(b, bypass) {
      NeededIff(a, bypass, name);
      NeededIff(b, bypass, name);
      assert ("file-" + a.id)[5..] == a.id && ("file-" + b.id)[5..] == b.id;
    }
  }

  function NeededBy(items: seq<Item>, bypass: bool, n: nat): set<string>
    requires n <= |items|
  {
    if n == 0 then {} else NeededBy(items, bypass, n - 1) + Needed(items[n - 1], bypass)
  }

  datatype Search = Search(item: nat, names: set<string>)

  ghost function Searched(searches: seq<Search>): set<string> {
    set i, n | 0 <= i < |searches| && n in searches[i].names :: n
  }

  /** The searches are made in item order, each for the names no earlier item needed. */
  ghost predicate FirstNeed(items: seq<Item>, bypass: bool, searches: seq<Search>, n: nat)
    requires n <= |items|
  {
    && (forall i :: 0 <= i < |searches| ==>
          && searches[i].item < n
          && searches[i].names != {}
          && searches[i].names == Needed(items[searches[i].item], bypass) - NeededBy(items, bypass, searches[i].item))
    && (forall i, j :: 0 <= i < j < |searches| ==> searches[i].item < searches[j].item)
    && Searched(searches) == NeededBy(items, bypass, n)
  }

  method SearchCollections(items: seq<Item>, bypass: bool) returns (searches: seq<Search>)
    ensures FirstNeed(items, bypass, searches, |items|)
  {
    var extracted: set<string> := {};
    searches := [];
    NoNeed(items, bypass);
    for i := 0 to |items|
      invariant FirstNeed(items, bypass, searches, i)
      invariant extracted == NeededBy(items, bypass, i)
    {
      var names := NewNames(items[i], bypass, extracted);
      if names == {} {
        NothingNew(Needed(items[i], bypass), extracted);
        NeedMet(items, bypass, searches, i);
        continue;
      }
      NeedSearched(items, bypass, searches, i, names);
      searches := searches + [Search(i, names)];
      extracted := extracted + names;
    }
  }

  /** What the item names that was not searched for yet; an item with content of its own names nothing. */
  method NewNames(item: Item, bypass: bool, extracted: set<string>) returns (names: set<string>)
    ensures names == Needed(item, bypass) - extracted
  {
    var y := YieldOf(item, bypass);
    assert Needed(item, bypass) == Wanted(y);
    if y.Content? || |y.names| == 0 {
      return {};
    }
    return (set n | n in y.names) - extracted;
  }

  lemma NoNeed(items: seq<Item>, bypass: bool)
    ensures FirstNeed(items, bypass, [], 0)
  {
  }

  lemma NothingNew(wanted: set<string>, extracted: set<string>)
    requires wanted - extracted == {}
    ensures wanted <= extracted
  {
    forall n | n in wanted ensures n in extracted {
      assert n !in wanted - extracted;
    }
  }

  lemma NeedMet(items: seq<Item>, bypass: bool, searches: seq<Search>, n: nat)
    requires n < |items| && FirstNeed(items, bypass, searches, n)
    requires Needed(items[n], bypass) <= NeededBy(items, bypass, n)
    ensures FirstNeed(items, bypass, searches, n + 1)
    ensures NeededBy(items, bypass, n + 1) == NeededBy(items, bypass, n)
  {
  }

  lemma NeedSearched(items: seq<Item>, bypass: bool, searches: seq<Search>, n: nat, names: set<string>)
    requires n < |items| && FirstNeed(items, bypass, searches, n)
    requires names == Needed(items[n], bypass) - NeededBy(items, bypass, n) != {}
    ensures FirstNeed(items, bypass, searches + [Search(n, names)], n + 1)
    ensures NeededBy(items, bypass, n + 1) == NeededBy(items, bypass, n) + names
  {
    SearchedMore(searches, Search(n, names));
  }

  lemma SearchedMore(searches: seq<Search>, s: Search)
    ensures Searched(searches + [s]) == Searched(searches) + s.names
  {
    var longer := searches + [s];
    forall n | n in Searched(searches) + s.names ensures n in Searched(longer) {
      if n in s.names {
        assert longer[|searches|] == s;
      } else {
        var i :| 0 <= i < |searches| && n in searches[i].names;
        assert n in longer[i].names;
      }
    }
  }

  lemma {:induction false} NeededByGrows(items: seq<Item>, bypass: bool, m: nat, n: nat)
    requires m < n <= |items|
    ensures NeededBy(items, bypass, m) + Needed(items[m], bypass) <= NeededBy(items, bypass, n)
  {
    if m + 1 < n {
      NeededByGrows(items, bypass, m, n - 1);
    }
  }

  /** So no collection is searched for two items. */
  lemma SearchesAreDisjoint(items: seq<Item>, bypass: bool, searches: seq<Search>, i: nat, j: nat)
    requires FirstNeed(items, bypass, searches, |items|) && i < j < |searches|
    ensures searches[i].names !! searches[j].names
  {
    NeededByGrows(items, bypass, searches[i].item, searches[j].item);
  }

  /** A needed collection is searched for the first item that needs it, and for no other. */
  lemma SearchedOnce(items: seq<Item>, bypass: bool, searches: seq<Search>, m: nat, name: string) returns (i: nat)
    requires FirstNeed(items, bypass, searches, |items|) && m < |items|
    requires name in Needed(items[m], bypass)
    ensures i < |searches| && name in searches[i].names && searches[i].item <= m
    ensures forall j :: 0 <= j < |searches| && j != i ==> name !in searches[j].names
  {
    NeededByGrows(items, bypass, m, |items|);
    assert name in Searched(searches);
    i :| 0 <= i < |searches| && name in searches[i].names;
    if m < searches[i].item {
      NeededByGrows(items, bypass, m, searches[i].item);
    }
    forall j | 0 <= j < |searches| && j != i ensures name !in searches[j].names {
      if i < j {
        SearchesAreDisjoint(items, bypass, searches, i, j);
      } else {
        SearchesAreDisjoint(items, bypass, searches, j, i);
      }
    }
  }
}
