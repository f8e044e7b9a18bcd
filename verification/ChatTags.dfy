/**
 * The chat and tag tables and the handlers that change them, each tied to its operation in TagIndex.
 */
module ChatTags {
  import opened TagIndex

  class TagTable {
    var rows: Rows

    constructor ()
      ensures rows == {}
    {
      rows := {};
    }

    /** False when the row exists: the primary key refuses a second one. */
    method InsertNewTag(name: string, user: string) returns (inserted: bool)
      modifies this
      ensures inserted == ((Norm(name), user) !in old(rows)) && rows == old(rows) + {(Norm(name), user)}
    {
      inserted := (Norm(name), user) !in rows;
      rows := rows + {(Norm(name), user)};
    }

    method DeleteTagByName(name: string, user: string)
      modifies this
      ensures rows == old(rows) - {(Norm(name), user)}
    {
      rows := rows - {(Norm(name), user)};
    }
  }

  class ChatTable {
    var chats: Chats
    const tags: TagTable

    constructor (tags: TagTable)
      ensures chats == map[] && this.tags == tags
    {
      chats := map[];
      this.tags := tags;
    }

    ghost function Contents(): Store
      reads this, tags
    {
      Store(chats, tags.rows)
    }

    /** add_chat_tag_by_id_and_user_id_and_tag_name; false when there is no such chat. */
    method AddChatTag(id: string, user: string, name: string) returns (ok: bool)
      modifies this, tags
      ensures Contents() == AddTag(old(Contents()), id, user, name) && ok == (id in old(chats))
    {
      if (Norm(name), user) !in tags.rows {
        var inserted := tags.InsertNewTag(name, user);
      }
      assert tags.rows == old(tags.rows) + {(Norm(name), user)};
      if id !in chats {
        return false;
      }
      if Norm(name) !in chats[id].tags {
        chats := chats[id := chats[id].(tags := chats[id].tags + {Norm(name)})];
      } else {
        assert chats[id].tags + {Norm(name)} == chats[id].tags;
        assert chats == chats[id := chats[id]];
      }
      return true;
    }

    /** The loops that delete the rows of tags counted `n` times, in whatever order the set gives. */
    method DeleteCounted(user: string, names: set<string>, n: nat)
      modifies tags
      ensures tags.rows == old(tags.rows) - Counted(chats, user, names, n)
    {
      var rest := names;
      while rest != {}
        invariant rest <= names
        invariant tags.rows == old(tags.rows) - Counted(chats, user, names - rest, n)
      {
        var name :| name in rest;
        ghost var before := Counted(chats, user, names - rest, n);
        WalkedMore(names, rest, name);
        CountedGrows(chats, user, names - rest, name, n);
        DeleteIfCounted(user, name, n);
        RowsMinus(old(tags.rows), before, if Count(chats, user, name) == n then {(Norm(name), user)} else {});
        rest := rest - {name};
      }
      assert names - rest == names;
    }

    method DeleteIfCounted(user: string, name: string, n: nat)
      modifies tags
      ensures tags.rows == old(tags.rows) - if Count(chats, user, name) == n then {(Norm(name), user)} else {}
    {
      if Count(chats, user, name) == n {
        tags.DeleteTagByName(name, user);
      }
    }

    method DeleteAllTags(id: string)
      requires id in chats
      modifies `chats
      ensures chats == Tagged(old(chats), id, {})
    {
      chats := chats[id := chats[id].(tags := {})];
    }

    /** update_chat_tags_by_id; false when there is no such chat. */
    method UpdateChatTags(id: string, names: seq<string>, user: string) returns (ok: bool)
      modifies this, tags
      ensures Contents() == ReplaceTags(old(Contents()), id, user, names) && ok == (id in old(chats))
    {
      if id !in chats {
        return false;
      }
      var before := chats[id].tags;
      DeleteAllTags(id);
      DeleteCounted(user, before, 0);
      ghost var cleared := Contents();
      assert cleared == ClearTags(old(Contents()), id, user);
      for i := 0 to |names|
        invariant Contents() == AddTags(cleared, id, user, names[..i])
      {
        assert names[..i + 1][..i] == names[..i];
        if Lower(names[i]) != "none" {
          var added := AddChatTag(id, user, names[i]);
        }
      }
      assert names[..|names|] == names;
      return true;
    }

    // ----- the handlers; false is their HTTP error ---------------------------------------------------

    method PostChatTag(id: string, user: string, name: string) returns (ok: bool)
      modifies this, tags
      ensures Contents() == PostTag(old(Contents()), id, user, name)
      ensures ok == (Owns(old(chats), id, user) && Norm(name) != "none")
    {
      if !Owns(chats, id, user) {
        return false;
      }
      if Norm(name) == "none" {
        return false;
      }
      if Norm(name) !in chats[id].tags {
        var added := AddChatTag(id, user, name);
      }
      return true;
    }

    method DeleteChatTag(id: string, user: string, name: string) returns (ok: bool)
      modifies this, tags
      ensures Contents() == DeleteTag(old(Contents()), id, user, name) && ok == Owns(old(chats), id, user)
    {
      if !Owns(chats, id, user) {
        return false;
      }
      chats := chats[id := chats[id].(tags := chats[id].tags - {Norm(name)})];
      CountedGrows(chats, user, {}, name, 0);
      assert {} + {name} == {name} && Counted(chats, user, {}, 0) == {};
      if Count(chats, user, name) == 0 {
        tags.DeleteTagByName(name, user);
      }
      return true;
    }

    method DeleteChatTags(id: string, user: string) returns (ok: bool)
      modifies this, tags
      ensures Contents() == DeleteTags(old(Contents()), id, user) && ok == Owns(old(chats), id, user)
    {
      if !Owns(chats, id, user) {
        return false;
      }
      var before := chats[id].tags;
      DeleteAllTags(id);
      DeleteCounted(user, before, 0);
      return true;
    }

    method ArchiveChat(id: string, user: string) returns (ok: bool)
      modifies this, tags
      ensures Contents() == ToggleArchive(old(Contents()), id, user) && ok == Owns(old(chats), id, user)
    {
      if !Owns(chats, id, user) {
        return false;
      }
      chats := chats[id := chats[id].(archived := !chats[id].archived)];
      if chats[id].archived {
        DeleteCounted(user, chats[id].tags, 0);
      } else {
        InsertMissing(user, chats[id].tags);
      }
      return true;
    }

    method InsertMissing(user: string, names: set<string>)
      modifies tags
      ensures tags.rows == old(tags.rows) + RowsFor(user, names)
    {
      var rest := names;
      while rest != {}
        invariant rest <= names
        invariant tags.rows == old(tags.rows) + RowsFor(user, names - rest)
      {
        var name :| name in rest;
        if (Norm(name), user) !in tags.rows {
          var inserted := tags.InsertNewTag(name, user);
        }
        assert names - (rest - {name}) == names - rest + {name};
        assert RowsFor(user, names - rest + {name}) == RowsFor(user, names - rest) + {(Norm(name), user)};
        rest := rest - {name};
      }
      assert names - rest == names;
    }

    method SetAllArchived(user: string, archived: bool)
      modifies `chats
      ensures Contents() == SetArchived(old(Contents()), user, archived)
    {
      chats := map c | c in chats :: if chats[c].user == user then chats[c].(archived := archived) else chats[c];
    }

    /** False is the error of reading the tags of a chat that does not exist. */
    method DeleteChatById(id: string, user: string, admin: bool) returns (ok: bool)
      modifies this, tags
      ensures Contents() == DeleteChat(old(Contents()), id, user, admin) && ok == (id in old(chats))
    {
      if id !in chats {
        return false;
      }
      DeleteCounted(user, chats[id].tags, 1);
      if admin || chats[id].user == user {
        chats := chats - {id};
      }
      return true;
    }
  }

  lemma CountedGrows(chats: Chats, user: string, names: set<string>, name: string, n: nat)
    ensures Counted(chats, user, names + {name}, n) ==
      Counted(chats, user, names, n) + if Count(chats, user, name) == n then {(Norm(name), user)} else {}
  {
  }

  lemma WalkedMore(names: set<string>, rest: set<string>, name: string)
    requires rest <= names && name in rest
    ensures names - (rest - {name}) == names - rest + {name}
  {
  }

  lemma RowsMinus(rows: Rows, a: Rows, b: Rows)
    ensures rows - a - b == rows - (a + b)
  {
  }
}
