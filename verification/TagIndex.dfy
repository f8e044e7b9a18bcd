/**
 * The tag index: the Tag rows a user has, against the tags on that user's chats
 * (backend/open_webui/models/chats.py:335-353, :510-570 and :1091-1223, models/tags.py:53-109,
 * routers/chats.py:685-721, :854-880 and :984-1068).
 */
module TagIndex {
  import opened Basics

  // ----- names ---------------------------------------------------------------------------------------

  function LowerChar(c: char): char {
    if 'A' <= c <= 'Z' then c - 'A' + 'a' else c
  }

  function Lower(s: string): string {
    if s == "" then "" else Lower(s[..|s| - 1]) + [LowerChar(s[|s| - 1])]
  }

  function UnderscoredChar(c: char): char {
    if c == ' ' then '_' else c
  }

  function Underscored(s: string): string {
    if s == "" then "" else Underscored(s[..|s| - 1]) + [UnderscoredChar(s[|s| - 1])]
  }

  lemma {:induction false} LowerAt(s: string)
    ensures |Lower(s)| == |s| && forall i :: 0 <= i < |s| ==> Lower(s)[i] == LowerChar(s[i])
  {
    if s != "" {
      LowerAt(s[..|s| - 1]);
    }
  }

  lemma {:induction false} UnderscoredAt(s: string)
    ensures |Underscored(s)| == |s| && forall i :: 0 <= i < |s| ==> Underscored(s)[i] == UnderscoredChar(s[i])
  {
    if s != "" {
      UnderscoredAt(s[..|s| - 1]);
    }
  }

  /** The tag id of a name. */
  function Norm(name: string): string {
    Lower(Underscored(name))
  }

  lemma NormAt(name: string)
    ensures |Norm(name)| == |name|
    ensures forall i :: 0 <= i < |name| ==> Norm(name)[i] == LowerChar(UnderscoredChar(name[i]))
  {
    UnderscoredAt(name);
    LowerAt(Underscored(name));
  }

  lemma NormTwice(name: string)
    ensures Norm(Norm(name)) == Norm(name)
  {
    NormAt(name);
    NormAt(Norm(name));
    assert forall i :: 0 <= i < |name| ==> Norm(Norm(name))[i] == Norm(name)[i];
  }

  /** Characters that a tag id does not tell apart: a letter and its capital, a space and an underscore. */
  predicate Alike(c: char, d: char) {
    || c == d
    || ('A' <= c <= 'Z' && d == c - 'A' + 'a') || ('A' <= d <= 'Z' && c == d - 'A' + 'a')
    || (c == ' ' && d == '_') || (c == '_' && d == ' ')
  }

  lemma AlikeChars(c: char, d: char)
    ensures LowerChar(UnderscoredChar(c)) == LowerChar(UnderscoredChar(d)) <==> Alike(c, d)
  {
  }

  /** Two names give the same tag exactly when they differ only in case and in spaces for underscores. */
  lemma SameTagIff(a: string, b: string)
    ensures Norm(a) == Norm(b) <==> |a| == |b| && forall i :: 0 <= i < |a| ==> Alike(a[i], b[i])
  {
    NormAt(a);
    NormAt(b);
    if |a| == |b| {
      forall i | 0 <= i < |a| ensures Norm(a)[i] == Norm(b)[i] <==> Alike(a[i], b[i]) {
        AlikeChars(a[i], b[i]);
      }
      if Norm(a) != Norm(b) {
        assert exists i :: 0 <= i < |a| && Norm(a)[i] != Norm(b)[i];
      }
    }
  }

  /** A tag id holds no capital and no space. */
  lemma TagIdIsPlain(name: string, i: nat)
    requires i < |Norm(name)|
    ensures !('A' <= Norm(name)[i] <= 'Z') && Norm(name)[i] != ' '
  {
    NormAt(name);
  }

  lemma SameLetter(c: char, x: char)
    requires x != '_' && x != ' '
    ensures LowerChar(UnderscoredChar(c)) == x <==> LowerChar(c) == x
  {
  }

  lemma SpellsNone(s: string)
    ensures s == "none" <==> |s| == 4 && s[0] == 'n' && s[1] == 'o' && s[2] == 'n' && s[3] == 'e'
  {
  }

  /** The two ways the code refuses the name "none" refuse the same names. */
  lemma NoneIsNone(name: string)
    ensures Norm(name) == "none" <==> Lower(name) == "none"
  {
    NormAt(name);
    LowerAt(name);
    SpellsNone(Norm(name));
    SpellsNone(Lower(name));
    if |name| == 4 {
      SameLetter(name[0], 'n');
      SameLetter(name[1], 'o');
      SameLetter(name[2], 'n');
      SameLetter(name[3], 'e');
    }
  }

  // ----- the tables ----------------------------------------------------------------------------------

  datatype Chat = Chat(user: string, archived: bool, tags: set<string>)

  type Chats = map<string, Chat>

  /** Tag ids with the user each belongs to. */
  type Rows = set<(string, string)>

  datatype Store = Store(chats: Chats, rows: Rows)

  predicate Bears(chat: Chat, user: string, tag: string) {
    chat.user == user && !chat.archived && tag in chat.tags
  }

  /** The user's chats outside the archive that bear the tag. */
  function Bearers(chats: Chats, user: string, tag: string): set<string> {
    set c | c in chats && Bears(chats[c], user, tag)
  }

  /** count_chats_by_tag_name_and_user_id. */
  function Count(chats: Chats, user: string, name: string): nat {
    |Bearers(chats, user, Norm(name))|
  }

  /** The rows of the listed tags that exactly `n` chats bear. */
  function Counted(chats: Chats, user: string, tags: set<string>, n: nat): Rows {
    set t | t in tags && Count(chats, user, t) == n :: (Norm(t), user)
  }

  function RowsFor(user: string, tags: set<string>): Rows {
    set t | t in tags :: (Norm(t), user)
  }

  // ----- the operations ------------------------------------------------------------------------------

  function Tagged(chats: Chats, id: string, tags: set<string>): Chats {
    if id in chats then chats[id := chats[id].(tags := tags)] else chats
  }

  function TagsOf(chats: Chats, id: string): set<string> {
    if id in chats then chats[id].tags else {}
  }

  /** The row is made before the chat is looked for. */
  function AddTag(s: Store, id: string, user: string, name: string): Store {
    Store(Tagged(s.chats, id, TagsOf(s.chats, id) + {Norm(name)}), s.rows + {(Norm(name), user)})
  }

  function AddUnlessNone(s: Store, id: string, user: string, name: string): Store {
    if Lower(name) == "none" then s else AddTag(s, id, user, name)
  }

  function AddTags(s: Store, id: string, user: string, names: seq<string>): Store {
    if names == [] then s
    else
      AddUnlessNone(AddTags(s, id, user, names[..|names| - 1]), id, user, names[|names| - 1])
  }

  function ClearTags(s: Store, id: string, user: string): Store {
    var chats := Tagged(s.chats, id, {});
    Store(chats, s.rows - Counted(chats, user, TagsOf(s.chats, id), 0))
  }

  /** update_chat_tags_by_id. */
  function ReplaceTags(s: Store, id: string, user: string, names: seq<string>): Store {
    if id !in s.chats then s else AddTags(ClearTags(s, id, user), id, user, names)
  }

  predicate Owns(chats: Chats, id: string, user: string) {
    id in chats && chats[id].user == user
  }

  /** POST /{id}/tags. */
  function PostTag(s: Store, id: string, user: string, name: string): Store {
    if !Owns(s.chats, id, user) || Norm(name) == "none" || Norm(name) in s.chats[id].tags then s
    else AddTag(s, id, user, name)
  }

  /** DELETE /{id}/tags. */
  function DeleteTag(s: Store, id: string, user: string, name: string): Store {
    if !Owns(s.chats, id, user) then s
    else
      var chats := Tagged(s.chats, id, s.chats[id].tags - {Norm(name)});
      Store(chats, s.rows - Counted(chats, user, {name}, 0))
  }

  /** DELETE /{id}/tags/all. */
  function DeleteTags(s: Store, id: string, user: string): Store {
    if !Owns(s.chats, id, user) then s else ClearTags(s, id, user)
  }

  /** POST /{id}/archive. */
  function ToggleArchive(s: Store, id: string, user: string): Store {
    if !Owns(s.chats, id, user) then s
    else
      var chat := s.chats[id].(archived := !s.chats[id].archived);
      var chats := s.chats[id := chat];
      Store(chats, if chat.archived then s.rows - Counted(chats, user, chat.tags, 0)
                   else s.rows + RowsFor(user, chat.tags))
  }

  function SetArchived(s: Store, user: string, archived: bool): Store {
    s.(chats := map c | c in s.chats ::
      if s.chats[c].user == user then s.chats[c].(archived := archived) else s.chats[c])
  }

  /**
   * DELETE /{id}: tags borne by exactly one chat lose their row before the chat goes, and it goes
   * only if it is the user's or the user is an admin.
   */
  function DeleteChat(s: Store, id: string, user: string, admin: bool): Store {
    if id !in s.chats then s
    else Store(if admin || s.chats[id].user == user then s.chats - {id} else s.chats,
               s.rows - Counted(s.chats, user, s.chats[id].tags, 1))
  }

  // ----- the invariant -------------------------------------------------------------------------------

  predicate ChatIndexed(chat: Chat, rows: Rows) {
    forall t :: t in chat.tags ==> Norm(t) == t && (chat.archived || (t, chat.user) in rows)
  }

  /** Tags are ids, and every tag on a chat outside the archive has its owner's row. */
  ghost predicate Indexed(s: Store) {
    forall c :: c in s.chats ==> ChatIndexed(s.chats[c], s.rows)
  }

  /** Rows may go when no chat bears them; what else happens must leave other chats alone. */
  lemma DroppingUnborne(s: Store, chats: Chats, user: string, tags: set<string>)
    requires Indexed(Store(chats, s.rows))
    ensures Indexed(Store(chats, s.rows - Counted(chats, user, tags, 0)))
  {
    var rows := s.rows - Counted(chats, user, tags, 0);
    forall c | c in chats ensures ChatIndexed(chats[c], rows) {
      forall t | t in chats[c].tags ensures Norm(t) == t && (chats[c].archived || (t, chats[c].user) in rows) {
        assert ChatIndexed(chats[c], s.rows);
        assert Bears(chats[c], user, t) ==> c in Bearers(chats, user, t);
      }
    }
  }

  lemma RetaggedIndexed(s: Store, id: string, tags: set<string>)
    requires Indexed(s) && tags <= TagsOf(s.chats, id)
    ensures Indexed(Store(Tagged(s.chats, id, tags), s.rows))
  {
  }

  lemma AddKeepsIndexed(s: Store, id: string, user: string, name: string)
    requires Indexed(s) && Owns(s.chats, id, user)
    ensures Indexed(AddTag(s, id, user, name)) && Owns(AddTag(s, id, user, name).chats, id, user)
  {
    var after := AddTag(s, id, user, name);
    NormTwice(name);
    forall c | c in after.chats ensures ChatIndexed(after.chats[c], after.rows) {
      assert ChatIndexed(s.chats[c], s.rows);
    }
  }

  lemma ClearKeepsIndexed(s: Store, id: string, user: string)
    requires Indexed(s)
    ensures Indexed(ClearTags(s, id, user))
  {
    RetaggedIndexed(s, id, {});
    DroppingUnborne(s, Tagged(s.chats, id, {}), user, TagsOf(s.chats, id));
  }

  lemma DeleteTagKeepsIndexed(s: Store, id: string, user: string, name: string)
    requires Indexed(s)
    ensures Indexed(DeleteTag(s, id, user, name))
  {
    if Owns(s.chats, id, user) {
      var tags := s.chats[id].tags - {Norm(name)};
      RetaggedIndexed(s, id, tags);
      DroppingUnborne(s, Tagged(s.chats, id, tags), user, {name});
    }
  }

  lemma ToggleKeepsIndexed(s: Store, id: string, user: string)
    requires Indexed(s)
    ensures Indexed(ToggleArchive(s, id, user))
  {
    if Owns(s.chats, id, user) {
      var chat := s.chats[id].(archived := !s.chats[id].archived);
      var chats := s.chats[id := chat];
      var rows := if chat.archived then s.rows else s.rows + RowsFor(user, chat.tags);
      assert ChatIndexed(s.chats[id], s.rows);
      forall c | c in chats ensures ChatIndexed(chats[c], rows) {
        if c != id {
          assert ChatIndexed(s.chats[c], s.rows);
        }
      }
      DroppingUnborne(Store(chats, rows), chats, user, chat.tags);
    }
  }

  lemma ArchiveAllKeepsIndexed(s: Store, user: string)
    requires Indexed(s)
    ensures Indexed(SetArchived(s, user, true))
  {
  }

  // ----- what a replace leaves -----------------------------------------------------------------------

  function Requested(names: seq<string>): set<string> {
    set n | n in names && Lower(n) != "none" :: Norm(n)
  }

  function RequestedRows(user: string, names: seq<string>): Rows {
    set t | t in Requested(names) :: (t, user)
  }

  lemma RequestedRowsGrow(user: string, front: seq<string>, name: string)
    requires Lower(name) != "none"
    ensures RequestedRows(user, front + [name]) == RequestedRows(user, front) + {(Norm(name), user)}
  {
  }

  /** What adding the requested names to a chat must give. */
  ghost predicate Given(s: Store, id: string, user: string, names: seq<string>, after: Store)
    requires id in s.chats
  {
    && after.chats == Tagged(s.chats, id, s.chats[id].tags + Requested(names))
    && after.rows == s.rows + RequestedRows(user, names)
  }

  lemma TaggedMore(chats: Chats, id: string, tags: set<string>, more: set<string>)
    requires id in chats
    ensures Tagged(Tagged(chats, id, tags), id, TagsOf(Tagged(chats, id, tags), id) + more)
      == Tagged(chats, id, tags + more)
  {
  }

  lemma NamedTags(tags: set<string>, front: seq<string>, name: string)
    requires Lower(name) != "none"
    ensures tags + Requested(front) + {Norm(name)} == tags + Requested(front + [name])
  {
    RequestedGrows(front, name);
  }

  lemma NoneNamed(user: string, front: seq<string>, name: string)
    requires Lower(name) == "none"
    ensures Requested(front + [name]) == Requested(front)
    ensures RequestedRows(user, front + [name]) == RequestedRows(user, front)
  {
    RequestedGrows(front, name);
  }

  lemma AddGives(s: Store, id: string, user: string, front: seq<string>, name: string, before: Store)
    requires id in s.chats && Given(s, id, user, front, before)
    ensures Given(s, id, user, front + [name], AddUnlessNone(before, id, user, name))
  {
    if Lower(name) == "none" {
      NoneNamed(user, front, name);
    } else {
      var tags := s.chats[id].tags;
      TaggedMore(s.chats, id, tags + Requested(front), {Norm(name)});
      NamedTags(tags, front, name);
      RequestedRowsGrow(user, front, name);
      JoinRows(s.rows, RequestedRows(user, front), {(Norm(name), user)});
    }
  }

  lemma JoinRows(a: Rows, b: Rows, c: Rows)
    ensures a + b + c == a + (b + c)
  {
  }

  lemma {:induction false} AddsGive(s: Store, id: string, user: string, names: seq<string>)
    requires id in s.chats
    ensures Given(s, id, user, names, AddTags(s, id, user, names))
  {
    if names == [] {
      assert s.chats[id].tags + Requested(names) == s.chats[id].tags;
      assert RequestedRows(user, names) == {};
    } else {
      var front, name := names[..|names| - 1], names[|names| - 1];
      AddsGive(s, id, user, front);
      AddGives(s, id, user, front, name, AddTags(s, id, user, front));
      assert names == front + [name];
      assert AddTags(s, id, user, names) == AddUnlessNone(AddTags(s, id, user, front), id, user, name);
    }
  }

  lemma RequestedGrows(front: seq<string>, name: string)
    ensures Requested(front + [name]) == Requested(front) + if Lower(name) == "none" then {} else {Norm(name)}
  {
  }

  /**
   * After a replace the chat's tags are exactly the ids of the requested names other than "none", no
   * other chat has changed, and every requested tag has its row.
   */
  lemma ReplaceGivesRequested(s: Store, id: string, user: string, names: seq<string>)
    requires id in s.chats
    ensures var after := ReplaceTags(s, id, user, names);
      && after.chats == s.chats[id := s.chats[id].(tags := Requested(names))]
      && (forall t :: t in Requested(names) ==> (t, user) in after.rows && t != "none")
  {
    AddsGive(ClearTags(s, id, user), id, user, names);
    assert {} + Requested(names) == Requested(names);
    forall n | n in names && Lower(n) != "none" ensures Norm(n) != "none" {
      NoneIsNone(n);
    }
  }

  /**
   * A replace takes away exactly the rows of the chat's old tags that are neither requested again nor
   * borne by another of the user's chats outside the archive.
   */
  lemma ReplaceDropsUnborne(s: Store, id: string, user: string, names: seq<string>, row: (string, string))
    requires Indexed(s) && id in s.chats
    ensures var after := ReplaceTags(s, id, user, names);
      row in s.rows && row !in after.rows <==>
        row in s.rows && row.1 == user && row.0 in s.chats[id].tags && row.0 !in Requested(names) &&
        Bearers(after.chats, user, row.0) == {}
  {
    var cleared, after := ClearTags(s, id, user), ReplaceTags(s, id, user, names);
    AddsGive(cleared, id, user, names);
    ReplaceGivesRequested(s, id, user, names);
    assert ChatIndexed(s.chats[id], s.rows);
    if row.0 !in Requested(names) {
      assert Bearers(after.chats, user, row.0) == Bearers(cleared.chats, user, row.0);
    }
  }

  // ----- what the other operations leave -------------------------------------------------------------

  /** Only this chat may have changed, and of it only the tags. */
  ghost predicate OnlyTags(before: Chats, after: Chats, id: string, tags: set<string>) {
    && after.Keys == before.Keys && id in before
    && (forall c :: c in before && c != id ==> after[c] == before[c])
    && after[id].user == before[id].user && after[id].archived == before[id].archived && after[id].tags == tags
  }

  /** Some other chat of the user outside the archive bears the tag. */
  ghost predicate BorneElsewhere(chats: Chats, id: string, user: string, tag: string) {
    exists c :: c in chats && c != id && Bears(chats[c], user, tag)
  }

  lemma BearersElsewhere(before: Chats, after: Chats, id: string, user: string, tag: string)
    requires after.Keys == before.Keys && forall c :: c in before && c != id ==> after[c] == before[c]
    requires id in before ==> !Bears(after[id], user, tag)
    ensures Bearers(after, user, tag) == {} <==> !BorneElsewhere(before, id, user, tag)
  {
    if c :| c in Bearers(after, user, tag) {
      assert Bears(before[c], user, tag);
    }
    if c :| c in before && c != id && Bears(before[c], user, tag) {
      assert c in Bearers(after, user, tag);
    }
  }

  /** Someone else's chat, or none, is left alone. */
  lemma ForeignUnchanged(s: Store, id: string, user: string, name: string)
    requires !Owns(s.chats, id, user)
    ensures PostTag(s, id, user, name) == s && DeleteTag(s, id, user, name) == s
    ensures DeleteTags(s, id, user) == s && ToggleArchive(s, id, user) == s
  {
  }

  /** After adding a tag the chat bears its id, and the row is there unless the chat bore it before. */
  lemma PostTagGives(s: Store, id: string, user: string, name: string, row: (string, string))
    requires Owns(s.chats, id, user) && Norm(name) != "none"
    ensures var after := PostTag(s, id, user, name);
      && OnlyTags(s.chats, after.chats, id, s.chats[id].tags + {Norm(name)})
      && (row in after.rows <==>
            row in s.rows || (row == (Norm(name), user) && Norm(name) !in s.chats[id].tags))
  {
    if Norm(name) in s.chats[id].tags {
      assert s.chats[id].tags + {Norm(name)} == s.chats[id].tags;
    }
  }

  /** The name `none` adds nothing. */
  lemma PostNone(s: Store, id: string, user: string, name: string)
    requires Lower(name) == "none"
    ensures PostTag(s, id, user, name) == s
  {
    NoneIsNone(name);
  }

  /**
   * After removing a tag the chat bears it no more, its other tags and all other chats are as before,
   * and its row stays only if another chat of the user outside the archive bears the tag.
   */
  lemma DeleteTagGives(s: Store, id: string, user: string, name: string, row: (string, string))
    requires Owns(s.chats, id, user)
    ensures var after := DeleteTag(s, id, user, name);
      && OnlyTags(s.chats, after.chats, id, s.chats[id].tags - {Norm(name)})
      && (row in after.rows <==>
            row in s.rows && (row == (Norm(name), user) ==> BorneElsewhere(s.chats, id, user, Norm(name))))
  {
    BearersElsewhere(s.chats, DeleteTag(s, id, user, name).chats, id, user, Norm(name));
  }

  /** After removing all its tags the chat bears none, and the rows of those borne elsewhere stay. */
  lemma DeleteTagsGives(s: Store, id: string, user: string, row: (string, string))
    requires Indexed(s) && Owns(s.chats, id, user)
    ensures var after := DeleteTags(s, id, user);
      && OnlyTags(s.chats, after.chats, id, {})
      && (row in after.rows <==>
            row in s.rows && (row.1 == user && row.0 in s.chats[id].tags ==> BorneElsewhere(s.chats, id, user, row.0)))
  {
    assert ChatIndexed(s.chats[id], s.rows);
    BearersElsewhere(s.chats, DeleteTags(s, id, user).chats, id, user, row.0);
  }

  /**
   * Archiving flips the chat's flag and nothing else of any chat.  Into the archive, the rows of its tags
   * that no other chat bears go; out of it, the rows of all its tags are there.
   */
  lemma ToggleGives(s: Store, id: string, user: string, row: (string, string))
    requires Indexed(s) && Owns(s.chats, id, user)
    ensures var after := ToggleArchive(s, id, user);
      && after.chats.Keys == s.chats.Keys
      && (forall c :: c in s.chats && c != id ==> after.chats[c] == s.chats[c])
      && after.chats[id].user == user && after.chats[id].tags == s.chats[id].tags
      && after.chats[id].archived == !s.chats[id].archived
      && (row in after.rows <==>
            if s.chats[id].archived then row in s.rows || (row.1 == user && row.0 in s.chats[id].tags)
            else row in s.rows && (row.1 == user && row.0 in s.chats[id].tags ==>
                                     BorneElsewhere(s.chats, id, user, row.0)))
  {
    assert ChatIndexed(s.chats[id], s.rows);
    if !s.chats[id].archived {
      BearersElsewhere(s.chats, ToggleArchive(s, id, user).chats, id, user, row.0);
    }
  }

  /** Archiving or unarchiving everything sets the flag of exactly the user's chats. */
  lemma SetArchivedGives(s: Store, user: string, archived: bool, c: string)
    requires c in s.chats
    ensures var after := SetArchived(s, user, archived);
      && after.chats.Keys == s.chats.Keys && after.rows == s.rows
      && after.chats[c].user == s.chats[c].user && after.chats[c].tags == s.chats[c].tags
      && after.chats[c].archived == if s.chats[c].user == user then archived else s.chats[c].archived
  {
  }

  /**
   * Deleting a chat removes it for its owner or an admin only, and the user's rows of exactly those of its
   * tags that one chat bears; which chat that is, it does not ask.
   */
  lemma DeleteChatGives(s: Store, id: string, user: string, admin: bool, row: (string, string))
    requires Indexed(s) && id in s.chats
    ensures var after := DeleteChat(s, id, user, admin);
      && (id in after.chats <==> !admin && s.chats[id].user != user)
      && (forall c :: c != id ==> (c in after.chats <==> c in s.chats))
      && (forall c :: c in after.chats ==> after.chats[c] == s.chats[c])
      && (row in after.rows <==>
            row in s.rows && !(row.1 == user && row.0 in s.chats[id].tags && |Bearers(s.chats, user, row.0)| == 1))
  {
    assert ChatIndexed(s.chats[id], s.rows);
  }

  // ----- the operations that do not keep it ----------------------------------------------------------

  /**
   * A replace makes the requested rows for the user who asks.  An admin may ask on someone else's chat,
   * whose owner must then have the rows already, unless it is in the archive.
   */
  ghost predicate RowsReady(s: Store, id: string, user: string, names: seq<string>) {
    id in s.chats && s.chats[id].user != user && !s.chats[id].archived ==>
      forall t :: t in Requested(names) ==> (t, s.chats[id].user) in s.rows
  }

  lemma RequestedAreIds(names: seq<string>, t: string)
    requires t in Requested(names)
    ensures Norm(t) == t
  {
    var n :| n in names && Lower(n) != "none" && Norm(n) == t;
    NormTwice(n);
  }

  /** What a replace leaves of the rows: those of other users, those requested and those still borne. */
  lemma ReplaceRows(s: Store, id: string, user: string, names: seq<string>, row: (string, string))
    requires Indexed(s) && id in s.chats
    ensures row.1 != user ==> (row in ReplaceTags(s, id, user, names).rows <==> row in s.rows)
    ensures row.1 == user && row in s.rows && Bearers(ReplaceTags(s, id, user, names).chats, user, row.0) != {} ==>
      row in ReplaceTags(s, id, user, names).rows
  {
    AddsGive(ClearTags(s, id, user), id, user, names);
    ReplaceDropsUnborne(s, id, user, names, row);
  }

  /** So a replace keeps the index exactly when the owner of the chat has or gets the requested rows. */
  lemma ReplaceKeepsIff(s: Store, id: string, user: string, names: seq<string>)
    requires Indexed(s)
    ensures Indexed(ReplaceTags(s, id, user, names)) <==> RowsReady(s, id, user, names)
  {
    if id in s.chats {
      var after := ReplaceTags(s, id, user, names);
      ReplaceGivesRequested(s, id, user, names);
      if RowsReady(s, id, user, names) {
        forall c | c in after.chats ensures ChatIndexed(after.chats[c], after.rows) {
          ReplacedIndexed(s, id, user, names, c);
        }
      } else {
        var t :| t in Requested(names) && (t, s.chats[id].user) !in s.rows;
        ReplaceRows(s, id, user, names, (t, s.chats[id].user));
        assert !ChatIndexed(after.chats[id], after.rows);
      }
    }
  }

  lemma ReplacedIndexed(s: Store, id: string, user: string, names: seq<string>, c: string)
    requires Indexed(s) && id in s.chats && c in s.chats && RowsReady(s, id, user, names)
    ensures var after := ReplaceTags(s, id, user, names);
      c in after.chats && ChatIndexed(after.chats[c], after.rows)
  {
    var after := ReplaceTags(s, id, user, names);
    ReplaceGivesRequested(s, id, user, names);
    assert ChatIndexed(s.chats[c], s.rows);
    var chat := after.chats[c];
    forall t | t in chat.tags ensures Norm(t) == t && (chat.archived || (t, chat.user) in after.rows) {
      ReplaceRows(s, id, user, names, (t, chat.user));
      if c == id {
        RequestedAreIds(names, t);
      } else if !chat.archived && chat.user == user {
        assert c in Bearers(after.chats, user, t);
      }
    }
  }

  /** Each tag in the user's archive still has its row. */
  ghost predicate ArchiveRowed(s: Store, user: string) {
    forall c, t :: c in s.chats && s.chats[c].user == user && s.chats[c].archived && t in s.chats[c].tags ==>
      (t, user) in s.rows
  }

  /** Unarchiving everything at once makes no rows, so it keeps the index exactly when none is missing. */
  lemma UnarchiveAllKeepsIff(s: Store, user: string)
    requires Indexed(s)
    ensures Indexed(SetArchived(s, user, false)) <==> ArchiveRowed(s, user)
  {
    var after := SetArchived(s, user, false);
    if ArchiveRowed(s, user) {
      forall c | c in after.chats ensures ChatIndexed(after.chats[c], s.rows) {
        assert ChatIndexed(s.chats[c], s.rows);
      }
    } else {
      var c, t :| c in s.chats && s.chats[c].user == user && s.chats[c].archived && t in s.chats[c].tags
        && (t, user) !in s.rows;
      assert !ChatIndexed(after.chats[c], s.rows);
    }
  }

  /** Every chat counted for a tag of this chat is this chat. */
  predicate CountsItself(s: Store, id: string, user: string)
    requires id in s.chats
  {
    (s.chats[id].user == user && !s.chats[id].archived)
    || forall t :: t in s.chats[id].tags ==> Count(s.chats, user, t) != 1
  }

  lemma OnlyBearer(chats: Chats, user: string, tag: string, a: string, b: string)
    requires |Bearers(chats, user, tag)| == 1 && a in Bearers(chats, user, tag) && b in Bearers(chats, user, tag)
    ensures a == b
  {
    SubsetCounts({a, b}, Bearers(chats, user, tag));
    assert a != b ==> |{a, b}| == 2;
  }

  /**
   * Deleting a chat keeps the index exactly when the chat itself is counted for its tags or none of
   * them is counted once: an archived chat, or someone else's, takes the row of a tag that one other
   * chat still bears.
   */
  lemma DeleteChatKeepsIff(s: Store, id: string, user: string, admin: bool)
    requires Indexed(s) && id in s.chats
    ensures Indexed(DeleteChat(s, id, user, admin)) <==> CountsItself(s, id, user)
  {
    var after := DeleteChat(s, id, user, admin);
    var chat := s.chats[id];
    assert ChatIndexed(chat, s.rows);
    if CountsItself(s, id, user) {
      forall c | c in after.chats ensures ChatIndexed(after.chats[c], after.rows) {
        assert ChatIndexed(s.chats[c], s.rows);
        forall t | t in s.chats[c].tags && !s.chats[c].archived ensures (t, s.chats[c].user) in after.rows {
          if (t, s.chats[c].user) in Counted(s.chats, user, chat.tags, 1) {
            assert c in Bearers(s.chats, user, t) && id in Bearers(s.chats, user, t);
            OnlyBearer(s.chats, user, t, c, id);
          }
        }
      }
    } else {
      var t :| t in chat.tags && Count(s.chats, user, t) == 1;
      var c :| c in Bearers(s.chats, user, t);
      assert c in after.chats && (t, user) in Counted(s.chats, user, chat.tags, 1);
      assert !ChatIndexed(after.chats[c], after.rows);
    }
  }

  // ----- runs ----------------------------------------------------------------------------------------

  datatype Event =
    | NewChat(id: string, user: string)
    | Replace(id: string, user: string, names: seq<string>)
    | Post(id: string, user: string, name: string)
    | Remove(id: string, user: string, name: string)
    | RemoveAll(id: string, user: string)
    | Toggle(id: string, user: string)
    | ArchiveAll(user: string)
    | UnarchiveAll(user: string)
    | Discard(id: string, user: string, admin: bool)

  function Apply(s: Store, e: Event): Store {
    match e
    case NewChat(id, user) => if id in s.chats then s else s.(chats := s.chats[id := Chat(user, false, {})])
    case Replace(id, user, names) => ReplaceTags(s, id, user, names)
    case Post(id, user, name) => PostTag(s, id, user, name)
    case Remove(id, user, name) => DeleteTag(s, id, user, name)
    case RemoveAll(id, user) => DeleteTags(s, id, user)
    case Toggle(id, user) => ToggleArchive(s, id, user)
    case ArchiveAll(user) => SetArchived(s, user, true)
    case UnarchiveAll(user) => SetArchived(s, user, false)
    case Discard(id, user, admin) => DeleteChat(s, id, user, admin)
  }

  function After(s: Store, run: seq<Event>): Store {
    if run == [] then s else Apply(After(s, run[..|run| - 1]), run[|run| - 1])
  }

  /** What must hold when the event happens: only three of the nine ask for anything. */
  ghost predicate Careful(s: Store, e: Event) {
    match e
    case Replace(id, user, names) => RowsReady(s, id, user, names)
    case UnarchiveAll(user) => ArchiveRowed(s, user)
    case Discard(id, user, _) => id in s.chats ==> CountsItself(s, id, user)
    case _ => true
  }

  /** An event keeps the index exactly when that holds. */
  lemma StepKeepsIndexed(s: Store, e: Event)
    requires Indexed(s)
    ensures Indexed(Apply(s, e)) <==> Careful(s, e)
  {
    match e
    case NewChat(id, user) =>
    case Replace(id, user, names) => ReplaceKeepsIff(s, id, user, names);
    case Post(id, user, name) =>
      if Owns(s.chats, id, user) {
        AddKeepsIndexed(s, id, user, name);
      }
    case Remove(id, user, name) => DeleteTagKeepsIndexed(s, id, user, name);
    case RemoveAll(id, user) => ClearKeepsIndexed(s, id, user);
    case Toggle(id, user) => ToggleKeepsIndexed(s, id, user);
    case ArchiveAll(user) => ArchiveAllKeepsIndexed(s, user);
    case UnarchiveAll(user) => UnarchiveAllKeepsIff(s, user);
    case Discard(id, user, admin) =>
      if id in s.chats {
        DeleteChatKeepsIff(s, id, user, admin);
      }
  }

  /** On every run of careful events, every tag on a chat outside the archive has its row. */
  lemma {:induction false} RunsKeepIndexed(run: seq<Event>)
    requires forall n :: 0 <= n < |run| ==> Careful(After(Store(map[], {}), run[..n]), run[n])
    ensures Indexed(After(Store(map[], {}), run))
  {
    if run != [] {
      var front := run[..|run| - 1];
      forall n | 0 <= n < |front| ensures Careful(After(Store(map[], {}), front[..n]), front[n]) {
        assert front[..n] == run[..n];
      }
      RunsKeepIndexed(front);
      StepKeepsIndexed(After(Store(map[], {}), front), run[|run| - 1]);
    }
  }

  // ----- runs that lose a row ------------------------------------------------------------------------

  lemma OneMore(s: Store, run: seq<Event>, e: Event)
    ensures After(s, run + [e]) == Apply(After(s, run), e)
  {
    assert (run + [e])[..|run|] == run;
  }

  const NOTHING := Store(map[], {})

  lemma TaggedAlone(id: string, user: string, name: string) returns (run: seq<Event>)
    requires Norm(name) != "none"
    ensures run == [NewChat(id, user)] + [Post(id, user, name)]
    ensures After(NOTHING, run) == Store(map[id := Chat(user, false, {Norm(name)})], {(Norm(name), user)})
  {
    OneMore(NOTHING, [], NewChat(id, user));
    assert [] + [NewChat(id, user)] == [NewChat(id, user)];
    OneMore(NOTHING, [NewChat(id, user)], Post(id, user, name));
    run := [NewChat(id, user)] + [Post(id, user, name)];
    assert {} + {Norm(name)} == {Norm(name)};
    assert After(NOTHING, run).chats == map[id := Chat(user, false, {Norm(name)})];
  }

  /** One chat: tagged, archived, which drops the row, and unarchived with all others, which does not make it. */
  lemma UnarchiveAllLosesRow(id: string, user: string, name: string) returns (run: seq<Event>)
    requires Norm(name) != "none"
    ensures run == [NewChat(id, user)] + [Post(id, user, name)] + [Toggle(id, user)] + [UnarchiveAll(user)]
    ensures !Indexed(After(NOTHING, run))
  {
    var t := Norm(name);
    run := TaggedAlone(id, user, name);
    var tagged := After(NOTHING, run);
    OneMore(NOTHING, run, Toggle(id, user));
    run := run + [Toggle(id, user)];
    var archived := After(NOTHING, run);
    assert archived.chats == map[id := Chat(user, true, {t})];
    NormTwice(name);
    assert Bearers(archived.chats, user, t) == {};
    assert (t, user) in Counted(archived.chats, user, {t}, 0);
    OneMore(NOTHING, run, UnarchiveAll(user));
    run := run + [UnarchiveAll(user)];
    assert !ChatIndexed(After(NOTHING, run).chats[id], After(NOTHING, run).rows);
  }

  lemma TaggedBoth(a: string, b: string, user: string, name: string) returns (run: seq<Event>)
    requires Norm(name) != "none" && a != b
    ensures run == [NewChat(a, user)] + [Post(a, user, name)] + [NewChat(b, user)] + [Post(b, user, name)]
    ensures After(NOTHING, run).chats == map[a := Chat(user, false, {Norm(name)}), b := Chat(user, false, {Norm(name)})]
    ensures After(NOTHING, run).rows == {(Norm(name), user)}
  {
    run := TaggedAlone(a, user, name);
    OneMore(NOTHING, run, NewChat(b, user));
    run := run + [NewChat(b, user)];
    OneMore(NOTHING, run, Post(b, user, name));
    run := run + [Post(b, user, name)];
    assert {} + {Norm(name)} == {Norm(name)};
  }

  /** Two chats with one tag: deleting the archived one takes the row the other still needs. */
  lemma DeletingArchivedLosesRow(a: string, b: string, user: string, name: string) returns (run: seq<Event>)
    requires Norm(name) != "none" && a != b
    ensures run == [NewChat(a, user)] + [Post(a, user, name)] + [NewChat(b, user)] + [Post(b, user, name)]
                   + [Toggle(a, user)] + [Discard(a, user, false)]
    ensures !Indexed(After(NOTHING, run))
  {
    var t := Norm(name);
    run := TaggedBoth(a, b, user, name);
    OneMore(NOTHING, run, Toggle(a, user));
    run := run + [Toggle(a, user)];
    var s := After(NOTHING, run);
    assert s.chats == map[a := Chat(user, true, {t}), b := Chat(user, false, {t})];
    NormTwice(name);
    assert Bearers(s.chats, user, t) == {b} && Count(s.chats, user, t) == 1;
    OneMore(NOTHING, run, Discard(a, user, false));
    run := run + [Discard(a, user, false)];
    assert (t, user) in Counted(s.chats, user, {t}, 1);
    assert b in After(NOTHING, run).chats && !ChatIndexed(After(NOTHING, run).chats[b], After(NOTHING, run).rows);
  }

  /** An admin replaces the tags of someone else's chat: the row is made for the admin, not for the owner. */
  lemma ForeignReplaceLosesRow(id: string, owner: string, admin: string, name: string) returns (run: seq<Event>)
    requires Lower(name) != "none" && owner != admin
    ensures run == [NewChat(id, owner)] + [Replace(id, admin, [name])]
    ensures !Indexed(After(NOTHING, run))
  {
    OneMore(NOTHING, [], NewChat(id, owner));
    assert [] + [NewChat(id, owner)] == [NewChat(id, owner)];
    OneMore(NOTHING, [NewChat(id, owner)], Replace(id, admin, [name]));
    run := [NewChat(id, owner)] + [Replace(id, admin, [name])];
    var s := After(NOTHING, [NewChat(id, owner)]);
    assert s == Store(map[id := Chat(owner, false, {})], {});
    assert name in [name] && Norm(name) in Requested([name]);
    ReplaceKeepsIff(s, id, admin, [name]);
  }
}
