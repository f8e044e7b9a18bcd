/**
 * Channel membership rows and the direct-message lookup that counts them
 * (backend/open_webui/models/channels.py:249-338 and :424-591).
 */
module Membership {
  import opened Basics

  datatype Member = Member(channel: string, user: string, active: bool, status: string)

  type Rows = seq<Member>

  datatype Channel = Channel(id: string, kind: Option<string>, owner: string)

  datatype Tables = Tables(channels: seq<Channel>, members: Rows)

  function Members(rows: Rows, channel: string): set<string> {
    set m | m in rows && m.channel == channel :: m.user
  }

  /** At most one row for each channel and user. */
  ghost predicate Unique(rows: Rows) {
    forall i, j :: 0 <= i < j < |rows| ==> !(rows[i].channel == rows[j].channel && rows[i].user == rows[j].user)
  }

  lemma MembersGrow(rows: Rows, m: Member, channel: string)
    ensures Members(rows + [m], channel) == Members(rows, channel) + if m.channel == channel then {m.user} else {}
  {
  }

  lemma UniqueGrows(rows: Rows, m: Member)
    ensures Unique(rows + [m]) <==> Unique(rows) && m.user !in Members(rows, m.channel)
  {
    var more := rows + [m];
    if Unique(more) {
      forall i, j | 0 <= i < j < |rows| ensures !(rows[i].channel == rows[j].channel && rows[i].user == rows[j].user) {
        assert more[i] == rows[i] && more[j] == rows[j];
      }
      forall r | r in rows ensures !(r.channel == m.channel && r.user == m.user) {
        var i :| 0 <= i < |rows| && rows[i] == r;
        assert more[i] == r && more[|rows|] == m;
      }
    } else {
      var i, j :| 0 <= i < j < |more| && more[i].channel == more[j].channel && more[i].user == more[j].user;
      if j == |rows| {
        assert more[i] in rows;
      }
    }
  }

  // ----- the lookup ----------------------------------------------------------------------------------

  /** count(user_id) of a channel's group. */
  function CountRows(rows: Rows, channel: string): nat {
    if rows == [] then 0
    else CountRows(rows[..|rows| - 1], channel) + if rows[|rows| - 1].channel == channel then 1 else 0
  }

  /** The sum of the CASE expression over a channel's group. */
  function CountMatches(rows: Rows, channel: string, users: set<string>): nat {
    if rows == [] then 0
    else
      var last := rows[|rows| - 1];
      CountMatches(rows[..|rows| - 1], channel, users) + if last.channel == channel && last.user in users then 1 else 0
  }

  /** The subquery's two conditions; a channel without rows has no group. */
  predicate Matches(rows: Rows, channel: string, users: set<string>) {
    && CountRows(rows, channel) > 0
    && CountRows(rows, channel) == |users|
    && CountMatches(rows, channel, users) == |users|
  }

  lemma CountOneMore(before: set<string>, users: set<string>, user: string)
    ensures user !in before ==> |before + {user}| == |before| + 1
    ensures user !in before ==> |(before + {user}) * users| == |before * users| + if user in users then 1 else 0
    ensures before + {} == before
  {
    assert (before + {user}) * users == before * users + if user in users then {user} else {};
  }

  lemma {:induction false} CountsMembers(rows: Rows, channel: string, users: set<string>)
    requires Unique(rows)
    ensures CountRows(rows, channel) == |Members(rows, channel)|
    ensures CountMatches(rows, channel, users) == |Members(rows, channel) * users|
  {
    if rows == [] {
      assert Members(rows, channel) == {};
      assert Members(rows, channel) * users == {};
    } else {
      var front, last := rows[..|rows| - 1], rows[|rows| - 1];
      assert rows == front + [last];
      UniqueGrows(front, last);
      MembersGrow(front, last, channel);
      CountsMembers(front, channel, users);
      CountOneMore(Members(front, channel), users, last.user);
    }
  }

  /**
   * With one row per channel and user, the two counting conditions hold exactly when the channel's
   * members are the users asked for, and someone was.
   */
  lemma MatchesIff(rows: Rows, channel: string, users: set<string>)
    requires Unique(rows)
    ensures Matches(rows, channel, users) <==> Members(rows, channel) == users && users != {}
  {
    var members := Members(rows, channel);
    CountsMembers(rows, channel, users);
    if Matches(rows, channel, users) {
      SubsetCounts(members * users, members);
      SubsetCounts(members * users, users);
    } else if members == users {
      assert members * users == users;
    }
  }

  /** With a repeated row they hold of a channel that lacks one of the users asked for. */
  lemma RepeatedRowMisleads(channel: string, a: string, b: string)
    requires a != b
    ensures var row := Member(channel, a, true, "joined");
      Matches([row, row], channel, {a, b}) && Members([row, row], channel) == {a}
  {
    var row := Member(channel, a, true, "joined");
    assert [row, row][..1] == [row] && [row][..0] == [];
    assert CountRows([row], channel) == 1 && CountMatches([row], channel, {a, b}) == 1;
  }

  predicate IsDm(channel: Channel) {
    channel.kind == Some("dm")
  }

  /** The first dm channel that the subquery lists. */
  function FirstDm(channels: seq<Channel>, rows: Rows, users: set<string>): Option<Channel> {
    if channels == [] then None
    else if IsDm(channels[0]) && Matches(rows, channels[0].id, users) then Some(channels[0])
    else FirstDm(channels[1..], rows, users)
  }

  /** get_dm_channel_by_user_ids: order and repetition of the ids do not matter. */
  function GetDm(s: Tables, userIds: seq<string>): Option<Channel> {
    FirstDm(s.channels, s.members, Elements(userIds))
  }

  predicate DmOf(channel: Channel, rows: Rows, users: set<string>) {
    IsDm(channel) && Members(rows, channel.id) == users
  }

  lemma {:induction false} FirstDmFinds(channels: seq<Channel>, rows: Rows, users: set<string>)
    requires Unique(rows) && users != {}
    ensures match FirstDm(channels, rows, users)
      case Some(c) => c in channels && DmOf(c, rows, users)
      case None => forall c :: c in channels ==> !DmOf(c, rows, users)
  {
    if channels != [] {
      MatchesIff(rows, channels[0].id, users);
      FirstDmFinds(channels[1..], rows, users);
      assert forall c :: c in channels <==> c == channels[0] || c in channels[1..];
    }
  }

  // ----- who is asked for ----------------------------------------------------------------------------

  type Groups = map<string, set<string>>

  /** A group without members, or unknown, is None in the source and cannot be added. */
  predicate HasMembers(groups: Groups, id: string) {
    id in groups && groups[id] != {}
  }

  function GroupMembers(groups: Groups, ids: seq<string>): Option<set<string>> {
    if ids == [] then Some({})
    else
      var front, last := GroupMembers(groups, ids[..|ids| - 1]), ids[|ids| - 1];
      if front.None? || !HasMembers(groups, last) then None else Some(front.value + groups[last])
  }

  function Listed(ids: Option<seq<string>>): seq<string> {
    if ids.Some? then ids.value else []
  }

  /** _collect_unique_user_ids; None is the TypeError of an empty group. */
  function Collected(groups: Groups, invitedBy: string, userIds: Option<seq<string>>, groupIds: Option<seq<string>>):
    Option<set<string>>
  {
    var fromGroups := GroupMembers(groups, Listed(groupIds));
    if fromGroups.None? then None else Some(Elements(Listed(userIds)) + {invitedBy} + fromGroups.value)
  }

  lemma {:induction false} GroupMembersAre(groups: Groups, ids: seq<string>, user: string)
    ensures GroupMembers(groups, ids).None? <==> exists g :: g in ids && !HasMembers(groups, g)
    ensures GroupMembers(groups, ids).Some? ==>
      (user in GroupMembers(groups, ids).value <==> exists g :: g in ids && HasMembers(groups, g) && user in groups[g])
  {
    if ids != [] {
      GroupMembersAre(groups, ids[..|ids| - 1], user);
      assert forall g :: g in ids <==> g in ids[..|ids| - 1] || g == ids[|ids| - 1];
    }
  }

  /** Who is asked for: the inviter, the users listed and the members of the groups; no group may be empty. */
  lemma CollectedAre(groups: Groups, invitedBy: string, userIds: Option<seq<string>>, groupIds: Option<seq<string>>,
                     user: string)
    ensures var users := Collected(groups, invitedBy, userIds, groupIds);
      && (users.None? <==> groupIds.Some? && exists g :: g in groupIds.value && !HasMembers(groups, g))
      && (users.Some? ==>
            (user in users.value <==>
             || user == invitedBy
             || (userIds.Some? && user in userIds.value)
             || (groupIds.Some? && exists g :: g in groupIds.value && HasMembers(groups, g) && user in groups[g])))
  {
    GroupMembersAre(groups, Listed(groupIds), user);
  }

  // ----- changing the rows ---------------------------------------------------------------------------

  /** One joined row for each user, in the order the set was walked. */
  function Roster(channel: string, order: seq<string>): Rows {
    seq(|order|, i requires 0 <= i < |order| => Member(channel, order[i], true, "joined"))
  }

  function Without(rows: Rows, channel: string, users: set<string>): Rows {
    if rows == [] then []
    else
      var last := rows[|rows| - 1];
      Without(rows[..|rows| - 1], channel, users) + if last.channel == channel && last.user in users then [] else [last]
  }

  predicate IsRowOf(m: Member, channel: string, user: string) {
    m.channel == channel && m.user == user
  }

  /** The first row of a channel and user, changed. */
  function Marked(rows: Rows, channel: string, user: string, active: bool, status: Option<string>): Rows {
    if rows == [] then []
    else if IsRowOf(rows[0], channel, user)
    then [rows[0].(active := active, status := if status.Some? then status.value else rows[0].status)] + rows[1..]
    else [rows[0]] + Marked(rows[1..], channel, user, active, status)
  }

  /** The members of one channel are now these, every other channel's are what they were. */
  ghost predicate Changed(before: Rows, after: Rows, channel: string, members: set<string>) {
    forall c :: Members(after, c) == if c == channel then members else Members(before, c)
  }

  lemma {:induction false} RosterAdds(rows: Rows, channel: string, order: seq<string>)
    requires Unique(rows) && NoRepeats(order) && Elements(order) !! Members(rows, channel)
    ensures Unique(rows + Roster(channel, order))
    ensures Changed(rows, rows + Roster(channel, order), channel, Members(rows, channel) + Elements(order))
  {
    if order == [] {
      assert rows + Roster(channel, order) == rows;
      assert Elements(order) == {};
    } else {
      var front, last := order[..|order| - 1], order[|order| - 1];
      var row := Member(channel, last, true, "joined");
      assert Elements(order) == Elements(front) + {last} && last !in Elements(front);
      RosterAdds(rows, channel, front);
      var before := rows + Roster(channel, front);
      assert rows + Roster(channel, order) == before + [row];
      UniqueGrows(before, row);
      forall c ensures Members(before + [row], c) == Members(before, c) + if c == channel then {last} else {} {
        MembersGrow(before, row, c);
      }
    }
  }

  lemma {:induction false} WithoutRemoves(rows: Rows, channel: string, users: set<string>)
    requires Unique(rows)
    ensures Unique(Without(rows, channel, users))
    ensures Changed(rows, Without(rows, channel, users), channel, Members(rows, channel) - users)
  {
    if rows != [] {
      var front, last := rows[..|rows| - 1], rows[|rows| - 1];
      assert rows == front + [last];
      UniqueGrows(front, last);
      WithoutRemoves(front, channel, users);
      var kept := Without(front, channel, users);
      UniqueGrows(kept, last);
      assert kept + [] == kept;
      forall c ensures Members(Without(rows, channel, users), c) ==
        (if c == channel then Members(rows, channel) - users else Members(rows, c))
      {
        MembersGrow(front, last, c);
        MembersGrow(kept, last, c);
      }
    }
  }

  lemma {:induction false} MarkedKeeps(rows: Rows, channel: string, user: string, active: bool, status: Option<string>)
    ensures var after := Marked(rows, channel, user, active, status);
      |after| == |rows| && forall i :: 0 <= i < |rows| ==>
        after[i].channel == rows[i].channel && after[i].user == rows[i].user
  {
    if rows != [] {
      MarkedKeeps(rows[1..], channel, user, active, status);
    }
  }

  lemma MarkedMembers(rows: Rows, channel: string, user: string, active: bool, status: Option<string>, c: string)
    ensures Members(Marked(rows, channel, user, active, status), c) == Members(rows, c)
    ensures Unique(Marked(rows, channel, user, active, status)) <==> Unique(rows)
  {
    var after := Marked(rows, channel, user, active, status);
    MarkedKeeps(rows, channel, user, active, status);
    forall u | u in Members(rows, c) ensures u in Members(after, c) {
      var i :| 0 <= i < |rows| && rows[i].channel == c && rows[i].user == u;
      assert after[i] in after;
    }
    forall u | u in Members(after, c) ensures u in Members(rows, c) {
      var i :| 0 <= i < |after| && after[i].channel == c && after[i].user == u;
      assert rows[i] in rows;
    }
  }

  // ----- the rows themselves --------------------------------------------------------------------------

  /** A new row: joined and active, in this channel. */
  predicate NewRow(m: Member, channel: string, users: set<string>) {
    m.channel == channel && m.user in users && m.active && m.status == "joined"
  }

  lemma RosterRows(channel: string, order: seq<string>, m: Member)
    ensures m in Roster(channel, order) <==> NewRow(m, channel, Elements(order))
  {
    if m.user in order {
      var i :| 0 <= i < |order| && order[i] == m.user;
      assert Roster(channel, order)[i] == Member(channel, m.user, true, "joined");
    }
  }

  /** Removing users takes exactly their rows of the channel and changes no other row. */
  lemma {:induction false} WithoutRows(rows: Rows, channel: string, users: set<string>, m: Member)
    ensures m in Without(rows, channel, users) <==> m in rows && !(m.channel == channel && m.user in users)
  {
    if rows != [] {
      WithoutRows(rows[..|rows| - 1], channel, users, m);
      assert m in rows <==> m in rows[..|rows| - 1] || m == rows[|rows| - 1];
    }
  }

  function Mark(m: Member, active: bool, status: Option<string>): Member {
    m.(active := active, status := if status.Some? then status.value else m.status)
  }

  /** Marking a user changes the one row of that user and channel, if there is one, and no other row. */
  lemma {:induction false} MarkedRows(rows: Rows, channel: string, user: string, active: bool, status: Option<string>,
                                      m: Member)
    requires Unique(rows)
    ensures m in Marked(rows, channel, user, active, status) <==>
      || (m in rows && !IsRowOf(m, channel, user))
      || (exists r :: r in rows && IsRowOf(r, channel, user) && m == Mark(r, active, status))
  {
    if rows != [] {
      assert forall r :: r in rows <==> r == rows[0] || r in rows[1..];
      if IsRowOf(rows[0], channel, user) {
        assert forall r :: r in rows[1..] ==> !IsRowOf(r, channel, user);
      } else {
        MarkedRows(rows[1..], channel, user, active, status, m);
      }
    }
  }
}
