/**
 * The channel and membership tables and the two handlers that find or create a direct message, each
 * tied to its step in DirectMessages.
 */
module ChannelTable {
  import opened Basics
  import opened Membership
  import opened DirectMessages

  /** Walking a set: every element once, in an order of the runtime's choosing. */
  method Walk(users: set<string>) returns (order: seq<string>)
    ensures NoRepeats(order) && Elements(order) == users
  {
    order := [];
    var rest := users;
    while rest != {}
      invariant rest <= users && NoRepeats(order) && Elements(order) == users - rest
    {
      var user :| user in rest;
      assert user !in Elements(order);
      assert Elements(order + [user]) == Elements(order) + {user};
      order := order + [user];
      rest := rest - {user};
    }
  }

  /** _collect_unique_user_ids; None is the TypeError of a group without members. */
  method CollectUniqueUserIds(groups: Groups, invitedBy: string, userIds: Option<seq<string>>,
                              groupIds: Option<seq<string>>) returns (r: Option<set<string>>)
    ensures r == Collected(groups, invitedBy, userIds, groupIds)
  {
    var users := Elements(Listed(userIds)) + {invitedBy};
    var ids := Listed(groupIds);
    assert ids[..0] == [] && users + {} == users;
    for i := 0 to |ids|
      invariant GroupMembers(groups, ids[..i]).Some?
      invariant users == Elements(Listed(userIds)) + {invitedBy} + GroupMembers(groups, ids[..i]).value
    {
      assert ids[..i + 1][..i] == ids[..i];
      if !HasMembers(groups, ids[i]) {
        GroupsStop(groups, ids, i + 1);
        return None;
      }
      users := users + groups[ids[i]];
    }
    assert ids[..|ids|] == ids;
    return Some(users);
  }

  lemma {:induction false} SomeOrder(users: set<string>) returns (order: seq<string>)
    ensures NoRepeats(order) && Elements(order) == users
  {
    if user :| user in users {
      var rest := SomeOrder(users - {user});
      order := rest + [user];
      assert user !in Elements(rest);
      assert Elements(order) == Elements(rest) + {user};
    } else {
      order := [];
    }
  }

  lemma {:induction false} GroupsStop(groups: Groups, ids: seq<string>, n: nat)
    requires n <= |ids| && GroupMembers(groups, ids[..n]).None?
    ensures GroupMembers(groups, ids).None?
  {
    if n < |ids| {
      assert ids[..|ids| - 1][..n] == ids[..n];
      GroupsStop(groups, ids[..|ids| - 1], n);
    } else {
      assert ids[..n] == ids;
    }
  }

  class ChannelTable {
    var channels: seq<Channel>
    var members: Rows

    constructor ()
      ensures Contents() == Tables([], [])
    {
      channels, members := [], [];
    }

    ghost function Contents(): Tables
      reads this
    {
      Tables(channels, members)
    }

    /** _create_membership_models, with the order it walked the set in. */
    method CreateMemberships(channel: string, users: set<string>) returns (rows: Rows, order: seq<string>)
      ensures NoRepeats(order) && Elements(order) == users && rows == Roster(channel, order)
    {
      order := Walk(users);
      rows := [];
      for i := 0 to |order|
        invariant rows == Roster(channel, order[..i])
      {
        rows := rows + [Member(channel, order[i], true, "joined")];
      }
      assert order[..|order|] == order;
    }

    /** None is the error of a group without members. */
    method InsertNewChannel(id: string, user: string, form: Form, groups: Groups)
      returns (r: Option<Channel>, ghost order: seq<string>)
      modifies this
      ensures Contents() == Insert(old(Contents()), id, user, form, groups, order)
      ensures Walks(order, Collected(groups, user, form.userIds, form.groupIds))
      ensures r == if Membered(form.kind) && Collected(groups, user, form.userIds, form.groupIds).None? then None
                   else Some(Channel(id, Kept(form.kind), user))
    {
      var users := CollectUniqueUserIds(groups, user, form.userIds, form.groupIds);
      var chosen := if users.Some? then users.value else {};
      var rows: Rows;
      rows, order := CreateMemberships(id, chosen);
      if Membered(form.kind) {
        if users.None? {
          return None, order;
        }
        members := members + rows;
      }
      channels := channels + [Channel(id, Kept(form.kind), user)];
      return Some(Channel(id, Kept(form.kind), user)), order;
    }

    /** get_dm_channel_by_user_ids. */
    method GetDmChannelByUserIds(userIds: seq<string>) returns (r: Option<Channel>)
      ensures r == GetDm(Contents(), userIds)
    {
      var users := Elements(userIds);
      for i := 0 to |channels|
        invariant FirstDm(channels, members, users) == FirstDm(channels[i..], members, users)
      {
        assert channels[i..][0] == channels[i] && channels[i..][1..] == channels[i + 1..];
        if IsDm(channels[i]) && Matches(members, channels[i].id, users) {
          return Some(channels[i]);
        }
      }
      return None;
    }

    /** The new rows; None is the error of a group without members. */
    method AddMembersToChannel(channel: string, invitedBy: string, userIds: Option<seq<string>>,
                               groupIds: Option<seq<string>>, groups: Groups)
      returns (r: Option<Rows>, ghost order: seq<string>)
      modifies `members
      ensures Contents() == AddMembers(old(Contents()), channel, invitedBy, userIds, groupIds, groups, order)
      ensures Walks(order, Missing(old(Contents()), channel, Collected(groups, invitedBy, userIds, groupIds)))
      ensures r == if Collected(groups, invitedBy, userIds, groupIds).None? then None else Some(Roster(channel, order))
    {
      order := [];
      var users := CollectUniqueUserIds(groups, invitedBy, userIds, groupIds);
      if users.None? {
        return None, order;
      }
      var missing := users.value - Members(members, channel);
      if missing == {} {
        assert Elements(order) == {} && members + Roster(channel, order) == members;
        return Some([]), order;
      }
      var rows: Rows;
      rows, order := CreateMemberships(channel, missing);
      members := members + rows;
      return Some(rows), order;
    }

    /** The number of rows deleted. */
    method RemoveMembersFromChannel(channel: string, userIds: seq<string>) returns (deleted: nat)
      modifies `members
      ensures members == Without(old(members), channel, Elements(userIds))
      ensures deleted == |old(members)| - |members|
    {
      var kept: Rows := [];
      for i := 0 to |members|
        invariant members == old(members)
        invariant kept == Without(members[..i], channel, Elements(userIds)) && |kept| <= i
      {
        assert members[..i + 1][..i] == members[..i];
        if !(members[i].channel == channel && members[i].user in userIds) {
          kept := kept + [members[i]];
        }
      }
      assert members[..|members|] == members;
      deleted := |members| - |kept|;
      members := kept;
    }

    /** The row of the user, found or made. */
    method JoinChannel(channel: string, user: string) returns (row: Member)
      modifies `members
      ensures Contents() == DirectMessages.JoinChannel(old(Contents()), channel, user)
      ensures IsRowOf(row, channel, user) && row in members
    {
      for i := 0 to |members|
        invariant members == old(members)
        invariant forall j :: 0 <= j < i ==> !IsRowOf(members[j], channel, user)
      {
        if IsRowOf(members[i], channel, user) {
          assert members[i] in members;
          return members[i];
        }
      }
      row := Member(channel, user, true, "joined");
      assert Roster(channel, [user]) == [row];
      members := members + [row];
    }

    /** The first row of the user, if any, changed as leave_channel and update_member_active_status do. */
    method MarkMember(channel: string, user: string, active: bool, status: Option<string>) returns (found: bool)
      modifies `members
      ensures members == Marked(old(members), channel, user, active, status)
      ensures found == (user in Members(old(members), channel))
    {
      for i := 0 to |members|
        invariant members == old(members)
        invariant forall j :: 0 <= j < i ==> !IsRowOf(members[j], channel, user)
      {
        if IsRowOf(members[i], channel, user) {
          var row := members[i].(active := active, status := if status.Some? then status.value else members[i].status);
          MarkedAt(members, channel, user, active, status, i);
          assert members[i] in members;
          members := members[i := row];
          return true;
        }
      }
      MarkedNowhere(members, channel, user, active, status);
      return false;
    }

    method LeaveChannel(channel: string, user: string) returns (found: bool)
      modifies `members
      ensures Contents() == Apply(old(Contents()), Leave(channel, user))
      ensures found == (user in Members(old(members), channel))
    {
      found := MarkMember(channel, user, false, Some("left"));
    }

    // ----- the handlers; None is their HTTP error ----------------------------------------------------

    method FindOrInsertDm(id: string, user: string, form: Form, groups: Groups, asked: seq<string>)
      returns (r: Option<Channel>, ghost order: seq<string>)
      requires form.kind == Some("dm")
      modifies this
      ensures Contents() == FindOrInsert(old(Contents()), id, user, form, groups, order, asked)
      ensures Walks(order, Collected(groups, user, form.userIds, form.groupIds))
      ensures GetDm(old(Contents()), asked).Some? ==> r == GetDm(old(Contents()), asked)
      ensures GetDm(old(Contents()), asked).None? ==>
        r == if Collected(groups, user, form.userIds, form.groupIds).None? then None
             else Some(Channel(id, form.kind, user))
    {
      var existing := GetDmChannelByUserIds(asked);
      if existing.Some? {
        var users := Collected(groups, user, form.userIds, form.groupIds);
        order := SomeOrder(if users.Some? then users.value else {});
        var found := MarkMember(existing.value.id, user, true, None);
        return existing, order;
      }
      r, order := InsertNewChannel(id, user, form, groups);
    }

    method GetDmChannelByUserId(id: string, user: string, other: string)
      returns (r: Option<Channel>, ghost order: seq<string>)
      modifies this
      ensures Contents() == Apply(old(Contents()), Direct(id, user, other, order))
      ensures Walks(order, Collected(map[], user, Some([other]), None))
      ensures r.Some? && (GetDm(old(Contents()), [user, other]).Some? ==> r == GetDm(old(Contents()), [user, other]))
    {
      r, order := FindOrInsertDm(id, user, DirectForm(other), map[], [user, other]);
    }

    method CreateNewChannel(id: string, user: string, form: Form, groups: Groups)
      returns (r: Option<Channel>, ghost order: seq<string>)
      modifies this
      ensures Contents() == Apply(old(Contents()), Create(id, user, form, groups, order))
      ensures Addressed(form) ==> Walks(order, Collected(groups, user, form.userIds, form.groupIds))
    {
      if form.kind == Some("dm") {
        if form.userIds.None? {
          return None, [];
        }
        r, order := FindOrInsertDm(id, user, form, groups, [user] + form.userIds.value);
      } else {
        r, order := InsertNewChannel(id, user, form, groups);
      }
    }
  }

  lemma {:induction false} MarkedAt(rows: Rows, channel: string, user: string, active: bool, status: Option<string>,
                                    i: nat)
    requires i < |rows| && IsRowOf(rows[i], channel, user)
    requires forall j :: 0 <= j < i ==> !IsRowOf(rows[j], channel, user)
    ensures Marked(rows, channel, user, active, status) ==
      rows[i := rows[i].(active := active, status := if status.Some? then status.value else rows[i].status)]
  {
    if i > 0 {
      forall j | 0 <= j < i - 1 ensures !IsRowOf(rows[1..][j], channel, user) {
        assert rows[1..][j] == rows[j + 1];
      }
      MarkedAt(rows[1..], channel, user, active, status, i - 1);
    }
  }

  lemma {:induction false} MarkedNowhere(rows: Rows, channel: string, user: string, active: bool,
                                         status: Option<string>)
    requires forall j :: 0 <= j < |rows| ==> !IsRowOf(rows[j], channel, user)
    ensures Marked(rows, channel, user, active, status) == rows
    ensures user !in Members(rows, channel)
  {
    if rows != [] {
      forall j | 0 <= j < |rows| - 1 ensures !IsRowOf(rows[1..][j], channel, user) {
        assert rows[1..][j] == rows[j + 1];
      }
      MarkedNowhere(rows[1..], channel, user, active, status);
      assert IsRowOf(rows[0], channel, user) == false;
      assert forall m :: m in rows ==> m == rows[0] || m in rows[1..];
    }
  }
}
