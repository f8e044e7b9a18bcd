/**
 * Finding or creating direct-message channels over whole runs
 * (backend/open_webui/models/channels.py:306-338 and :457-591, routers/channels.py:184-211 and :263-287).
 */
module DirectMessages {
  import opened Basics
  import opened Membership

  datatype Form = Form(kind: Option<string>, userIds: Option<seq<string>>, groupIds: Option<seq<string>>)

  /** `id` is the channel id drawn, `order` the order in which the collected set is walked. */
  datatype Event =
    | Create(id: string, user: string, form: Form, groups: Groups, order: seq<string>)
    | Direct(id: string, user: string, other: string, order: seq<string>)
    | Add(channel: string, user: string, userIds: Option<seq<string>>, groupIds: Option<seq<string>>, groups: Groups,
          order: seq<string>)
    | Remove(channel: string, gone: seq<string>)
    | Join(channel: string, user: string)
    | Leave(channel: string, user: string)
    | Activate(channel: string, user: string, active: bool)

  predicate Membered(kind: Option<string>) {
    kind == Some("group") || kind == Some("dm")
  }

  function Kept(kind: Option<string>): Option<string> {
    if kind == Some("") then None else kind
  }

  /** insert_new_channel; nothing is stored when a group has no members. */
  function Insert(s: Tables, id: string, user: string, form: Form, groups: Groups, order: seq<string>): Tables {
    var channels := s.channels + [Channel(id, Kept(form.kind), user)];
    if !Membered(form.kind) then s.(channels := channels)
    else if Collected(groups, user, form.userIds, form.groupIds).None? then s
    else Tables(channels, s.members + Roster(id, order))
  }

  /** Both handlers: use the channel that is there, or insert one. */
  function FindOrInsert(s: Tables, id: string, user: string, form: Form, groups: Groups, order: seq<string>,
                        asked: seq<string>): Tables
  {
    match GetDm(s, asked)
    case Some(found) => s.(members := Marked(s.members, found.id, user, true, None))
    case None => Insert(s, id, user, form, groups, order)
  }

  function DirectForm(other: string): Form {
    Form(Some("dm"), Some([other]), None)
  }

  /** A dm without user ids raises before anything is looked up. */
  function CreateChannel(s: Tables, id: string, user: string, form: Form, groups: Groups, order: seq<string>): Tables {
    if form.kind != Some("dm") then Insert(s, id, user, form, groups, order)
    else if form.userIds.None? then s
    else FindOrInsert(s, id, user, form, groups, order, [user] + form.userIds.value)
  }

  function JoinChannel(s: Tables, channel: string, user: string): Tables {
    if user in Members(s.members, channel) then s else s.(members := s.members + Roster(channel, [user]))
  }

  function AddMembers(s: Tables, channel: string, user: string, userIds: Option<seq<string>>,
                      groupIds: Option<seq<string>>, groups: Groups, order: seq<string>): Tables
  {
    if Collected(groups, user, userIds, groupIds).None? then s
    else s.(members := s.members + Roster(channel, order))
  }

  function Apply(s: Tables, e: Event): Tables {
    match e
    case Create(id, user, form, groups, order) => CreateChannel(s, id, user, form, groups, order)
    case Direct(id, user, other, order) =>
      FindOrInsert(s, id, user, DirectForm(other), map[], order, [user, other])
    case Add(channel, user, userIds, groupIds, groups, order) =>
      AddMembers(s, channel, user, userIds, groupIds, groups, order)
    case Remove(channel, userIds) => s.(members := Without(s.members, channel, Elements(userIds)))
    case Join(channel, user) => JoinChannel(s, channel, user)
    case Leave(channel, user) => s.(members := Marked(s.members, channel, user, false, Some("left")))
    case Activate(channel, user, active) => s.(members := Marked(s.members, channel, user, active, None))
  }

  function After(run: seq<Event>): Tables {
    if run == [] then Tables([], []) else Apply(After(run[..|run| - 1]), run[|run| - 1])
  }

  // ----- what each event may assume ------------------------------------------------------------------

  /** A drawn id is nowhere in the tables. */
  predicate Fresh(s: Tables, id: string) {
    (forall c :: c in s.channels ==> c.id != id) && Members(s.members, id) == {}
  }

  /** The order lists a set once. */
  ghost predicate Walks(order: seq<string>, users: Option<set<string>>) {
    users.Some? ==> NoRepeats(order) && Elements(order) == users.value
  }

  function Missing(s: Tables, channel: string, users: Option<set<string>>): Option<set<string>> {
    if users.None? then None else Some(users.value - Members(s.members, channel))
  }

  /** A dm must say to whom. */
  predicate Addressed(form: Form) {
    form.kind == Some("dm") ==> form.userIds.Some?
  }

  ghost predicate Enabled(s: Tables, e: Event) {
    match e
    case Create(id, user, form, groups, order) =>
      Fresh(s, id) && (Addressed(form) ==> Walks(order, Collected(groups, user, form.userIds, form.groupIds)))
    case Direct(id, user, other, order) => Fresh(s, id) && Walks(order, Collected(map[], user, Some([other]), None))
    case Add(channel, user, userIds, groupIds, groups, order) =>
      Walks(order, Missing(s, channel, Collected(groups, user, userIds, groupIds)))
    case _ => true
  }

  ghost predicate DistinctIds(channels: seq<Channel>) {
    forall i, j :: 0 <= i < j < |channels| ==> channels[i].id != channels[j].id
  }

  /** At most one row per channel and user, at most one channel per id. */
  ghost predicate Sound(s: Tables) {
    Unique(s.members) && DistinctIds(s.channels)
  }

  /** No two direct-message channels have the same members. */
  ghost predicate OneDmEach(s: Tables) {
    forall c, d :: c in s.channels && d in s.channels && IsDm(c) && IsDm(d) && c.id != d.id ==>
      Members(s.members, c.id) != Members(s.members, d.id)
  }

  // ----- membership rows -----------------------------------------------------------------------------

  lemma InsertChanges(s: Tables, id: string, user: string, form: Form, groups: Groups, order: seq<string>)
    requires Sound(s) && Fresh(s, id) && Walks(order, Collected(groups, user, form.userIds, form.groupIds))
    ensures Sound(Insert(s, id, user, form, groups, order))
    ensures var users := Collected(groups, user, form.userIds, form.groupIds);
      Membered(form.kind) && users.Some? ==>
        Changed(s.members, Insert(s, id, user, form, groups, order).members, id, users.value)
  {
    if Membered(form.kind) && Collected(groups, user, form.userIds, form.groupIds).Some? {
      RosterAdds(s.members, id, order);
      assert {} + Elements(order) == Elements(order);
    }
    forall i | 0 <= i < |s.channels| ensures s.channels[i].id != id {
      assert s.channels[i] in s.channels;
    }
  }

  lemma AddChanges(s: Tables, channel: string, users: Option<set<string>>, order: seq<string>)
    requires Unique(s.members) && users.Some? && Walks(order, Missing(s, channel, users))
    ensures Unique(s.members + Roster(channel, order))
    ensures Changed(s.members, s.members + Roster(channel, order), channel, Members(s.members, channel) + users.value)
  {
    RosterAdds(s.members, channel, order);
    var members := Members(s.members, channel);
    assert members + (users.value - members) == members + users.value;
  }

  lemma JoinChanges(s: Tables, channel: string, user: string)
    requires Unique(s.members)
    ensures Unique(JoinChannel(s, channel, user).members)
    ensures Changed(s.members, JoinChannel(s, channel, user).members, channel, Members(s.members, channel) + {user})
  {
    if user in Members(s.members, channel) {
      assert Members(s.members, channel) + {user} == Members(s.members, channel);
    } else {
      assert Elements([user]) == {user};
      RosterAdds(s.members, channel, [user]);
    }
  }

  lemma MarkedChanges(rows: Rows, channel: string, user: string, active: bool, status: Option<string>)
    ensures Unique(Marked(rows, channel, user, active, status)) <==> Unique(rows)
    ensures Changed(rows, Marked(rows, channel, user, active, status), channel, Members(rows, channel))
  {
    forall c ensures Members(Marked(rows, channel, user, active, status), c) == Members(rows, c) {
      MarkedMembers(rows, channel, user, active, status, c);
    }
    MarkedMembers(rows, channel, user, active, status, channel);
  }

  lemma FindOrInsertSound(s: Tables, id: string, user: string, form: Form, groups: Groups, order: seq<string>,
                          asked: seq<string>)
    requires Sound(s) && Fresh(s, id) && Walks(order, Collected(groups, user, form.userIds, form.groupIds))
    ensures Sound(FindOrInsert(s, id, user, form, groups, order, asked))
  {
    match GetDm(s, asked)
    case Some(found) => MarkedChanges(s.members, found.id, user, true, None);
    case None => InsertChanges(s, id, user, form, groups, order);
  }

  /** Who is in which channel after a step that changes members. */
  lemma StepMembers(s: Tables, e: Event)
    requires Sound(s) && Enabled(s, e) && (e.Add? || e.Remove? || e.Join? || e.Leave? || e.Activate?)
    ensures Apply(s, e).channels == s.channels
    ensures Changed(s.members, Apply(s, e).members, e.channel, match e
      case Add(channel, user, userIds, groupIds, groups, _) =>
        var users := Collected(groups, user, userIds, groupIds);
        Members(s.members, channel) + (if users.Some? then users.value else {})
      case Remove(channel, userIds) => Members(s.members, channel) - Elements(userIds)
      case Join(channel, user) => Members(s.members, channel) + {user}
      case _ => Members(s.members, e.channel))
  {
    match e
    case Add(channel, user, userIds, groupIds, groups, order) =>
      var users := Collected(groups, user, userIds, groupIds);
      if users.Some? {
        AddChanges(s, channel, users, order);
      } else {
        assert Members(s.members, channel) + {} == Members(s.members, channel);
      }
    case Remove(channel, userIds) => WithoutRemoves(s.members, channel, Elements(userIds));
    case Join(channel, user) => JoinChanges(s, channel, user);
    case Leave(channel, user) => MarkedChanges(s.members, channel, user, false, Some("left"));
    case Activate(channel, user, active) => MarkedChanges(s.members, channel, user, active, None);
  }

  /** Leaving and activating: the user's row of the channel alone changes, and how. */
  lemma MarkingRows(s: Tables, e: Event, m: Member)
    requires Sound(s) && (e.Leave? || e.Activate?)
    ensures m in Apply(s, e).members <==>
      || (m in s.members && !IsRowOf(m, e.channel, e.user))
      || (exists r :: r in s.members && IsRowOf(r, e.channel, e.user) &&
            m == if e.Leave? then r.(active := false, status := "left") else r.(active := e.active))
  {
    if e.Leave? {
      MarkedRows(s.members, e.channel, e.user, false, Some("left"), m);
      assert forall r: Member :: Mark(r, false, Some("left")) == r.(active := false, status := "left");
    } else {
      MarkedRows(s.members, e.channel, e.user, e.active, None, m);
      assert forall r: Member :: Mark(r, e.active, None) == r.(active := e.active);
    }
  }

  /** Asking for a dm that is there makes the asker's row of it active and changes nothing else. */
  lemma FoundIsActivated(s: Tables, id: string, user: string, form: Form, groups: Groups, order: seq<string>,
                         asked: seq<string>)
    requires Sound(s) && GetDm(s, asked).Some?
    ensures FindOrInsert(s, id, user, form, groups, order, asked)
      == Apply(s, Activate(GetDm(s, asked).value.id, user, true))
    ensures forall m :: m in FindOrInsert(s, id, user, form, groups, order, asked).members ==>
      IsRowOf(m, GetDm(s, asked).value.id, user) ==> m.active
  {
    var found := GetDm(s, asked).value.id;
    forall m | m in Apply(s, Activate(found, user, true)).members && IsRowOf(m, found, user) ensures m.active {
      MarkingRows(s, Activate(found, user, true), m);
    }
  }

  /** A new channel is there with its kind and owner; a group or dm has one new row per collected user. */
  lemma InsertGives(s: Tables, id: string, user: string, form: Form, groups: Groups, order: seq<string>, m: Member)
    requires Walks(order, Collected(groups, user, form.userIds, form.groupIds))
    ensures var users := Collected(groups, user, form.userIds, form.groupIds);
      var after := Insert(s, id, user, form, groups, order);
      if Membered(form.kind) && users.None? then after == s
      else
        && after.channels == s.channels + [Channel(id, if form.kind == Some("") then None else form.kind, user)]
        && (m in after.members <==>
              m in s.members || (form.kind in {Some("group"), Some("dm")} && NewRow(m, id, users.value)))
  {
    RosterRows(id, order, m);
  }

  /** Joining and adding give new rows to exactly the users who have none, removing takes the rows of those named. */
  lemma MemberRows(s: Tables, e: Event, m: Member)
    requires Enabled(s, e) && (e.Add? || e.Join? || e.Remove?)
    ensures m in Apply(s, e).members <==> match e
      case Add(channel, user, userIds, groupIds, groups, _) =>
        var users := Collected(groups, user, userIds, groupIds);
        m in s.members || (users.Some? && NewRow(m, channel, users.value - Members(s.members, channel)))
      case Join(channel, user) => m in s.members || NewRow(m, channel, {user} - Members(s.members, channel))
      case Remove(channel, userIds) => m in s.members && !(m.channel == channel && m.user in userIds)
      case _ => true
  {
    match e
    case Add(channel, user, userIds, groupIds, groups, order) => RosterRows(channel, order, m);
    case Join(channel, user) =>
      RosterRows(channel, [user], m);
      assert Elements([user]) == {user};
    case Remove(channel, userIds) => WithoutRows(s.members, channel, Elements(userIds), m);
    case _ =>
  }

  /** Every operation keeps at most one row for each channel and user. */
  lemma StepKeepsSound(s: Tables, e: Event)
    requires Sound(s) && Enabled(s, e)
    ensures Sound(Apply(s, e))
  {
    match e
    case Create(id, user, form, groups, order) =>
      if form.kind != Some("dm") {
        InsertChanges(s, id, user, form, groups, order);
      } else if form.userIds.Some? {
        FindOrInsertSound(s, id, user, form, groups, order, [user] + form.userIds.value);
      }
    case Direct(id, user, other, order) =>
      FindOrInsertSound(s, id, user, DirectForm(other), map[], order, [user, other]);
    case Add(channel, user, userIds, groupIds, groups, order) =>
      var users := Collected(groups, user, userIds, groupIds);
      if users.Some? {
        AddChanges(s, channel, users, order);
      }
    case Remove(channel, userIds) => WithoutRemoves(s.members, channel, Elements(userIds));
    case Join(channel, user) => JoinChanges(s, channel, user);
    case Leave(channel, user) => MarkedChanges(s.members, channel, user, false, Some("left"));
    case Activate(channel, user, active) => MarkedChanges(s.members, channel, user, active, None);
  }

  ghost predicate IsRun(run: seq<Event>) {
    forall n :: 0 <= n < |run| ==> Enabled(After(run[..n]), run[n])
  }

  lemma PrefixRuns(run: seq<Event>)
    requires IsRun(run) && run != []
    ensures IsRun(run[..|run| - 1])
  {
    var front := run[..|run| - 1];
    forall n | 0 <= n < |front| ensures Enabled(After(front[..n]), front[n]) {
      assert front[..n] == run[..n];
    }
  }

  lemma {:induction false} RunsKeepSound(run: seq<Event>)
    requires IsRun(run)
    ensures Sound(After(run))
  {
    if run != [] {
      PrefixRuns(run);
      RunsKeepSound(run[..|run| - 1]);
      StepKeepsSound(After(run[..|run| - 1]), run[|run| - 1]);
    }
  }

  /** On every run the lookup returns a channel exactly when a direct-message channel has the members asked for. */
  lemma LookupIsExact(run: seq<Event>, asked: seq<string>)
    requires IsRun(run) && asked != []
    ensures var s := After(run);
      match GetDm(s, asked)
      case Some(found) => found in s.channels && DmOf(found, s.members, Elements(asked))
      case None => forall c :: c in s.channels ==> !DmOf(c, s.members, Elements(asked))
  {
    RunsKeepSound(run);
    assert asked[0] in Elements(asked);
    FirstDmFinds(After(run).channels, After(run).members, Elements(asked));
  }

  // ----- one channel for each set of participants ----------------------------------------------------

  /** No direct-message channel other than this one has these members. */
  ghost predicate Free(s: Tables, channel: string, users: set<string>) {
    forall c :: c in s.channels && c.id != channel ==> !DmOf(c, s.members, users)
  }

  predicate DmId(s: Tables, channel: string) {
    exists c :: c in s.channels && c.id == channel && IsDm(c)
  }

  /**
   * What a caller can look up before giving a channel these members: the lookup finds no other dm;
   * and as the lookup never finds a channel without rows, for no members that every other dm has some.
   */
  predicate Untaken(s: Tables, channel: string, users: set<string>) {
    if users == {} then forall c :: c in s.channels && IsDm(c) && c.id != channel ==> CountRows(s.members, c.id) > 0
    else
      match FirstDm(s.channels, s.members, users)
      case None => true
      case Some(found) => found.id == channel
  }

  lemma UntakenIsFree(s: Tables, channel: string, users: set<string>)
    requires Unique(s.members) && OneDmEach(s)
    ensures Untaken(s, channel, users) <==> Free(s, channel, users)
  {
    if users == {} {
      forall c | c in s.channels ensures CountRows(s.members, c.id) > 0 <==> Members(s.members, c.id) != {} {
        CountsMembers(s.members, c.id, {});
      }
    } else {
      FirstDmFinds(s.channels, s.members, users);
      if FirstDm(s.channels, s.members, users).Some? {
        var found := FirstDm(s.channels, s.members, users).value;
        assert found.id == channel ==> forall c :: c in s.channels && IsDm(c) && c.id != channel ==>
          Members(s.members, c.id) != Members(s.members, found.id);
      }
    }
  }

  /** After a fresh id is drawn, collected members are free exactly when looking them up misses. */
  lemma MissIffFree(s: Tables, id: string, order: seq<string>)
    requires Sound(s) && Fresh(s, id) && order != []
    ensures GetDm(s, order).None? <==> Free(s, id, Elements(order))
  {
    assert order[0] in Elements(order);
    FirstDmFinds(s.channels, s.members, Elements(order));
  }

  lemma CollectedWalked(groups: Groups, user: string, userIds: Option<seq<string>>, groupIds: Option<seq<string>>,
                        order: seq<string>)
    requires Collected(groups, user, userIds, groupIds).Some?
    requires Walks(order, Collected(groups, user, userIds, groupIds))
    ensures order != []
  {
    assert user in Elements(order);
  }

  /** Changing one channel's members keeps them distinct exactly when the new set is free, if it is a dm. */
  lemma ChangeKeepsIff(s: Tables, rows: Rows, channel: string, users: set<string>)
    requires OneDmEach(s) && Changed(s.members, rows, channel, users)
    ensures OneDmEach(s.(members := rows)) <==> (DmId(s, channel) ==> Free(s, channel, users))
  {
  }

  lemma InsertKeepsFree(s: Tables, id: string, user: string, form: Form, groups: Groups, order: seq<string>)
    requires Sound(s) && OneDmEach(s) && Fresh(s, id)
    requires Walks(order, Collected(groups, user, form.userIds, form.groupIds))
    ensures var users := Collected(groups, user, form.userIds, form.groupIds);
      OneDmEach(Insert(s, id, user, form, groups, order)) <==>
        (form.kind == Some("dm") && users.Some? ==> Free(s, id, users.value))
  {
    var users := Collected(groups, user, form.userIds, form.groupIds);
    var after := Insert(s, id, user, form, groups, order);
    InsertChanges(s, id, user, form, groups, order);
    if Membered(form.kind) && users.Some? {
      var made := Channel(id, Kept(form.kind), user);
      var grown := s.(channels := s.channels + [made]);
      assert forall c :: c in grown.channels <==> c in s.channels || c == made;
      if form.kind == Some("dm") && !Free(s, id, users.value) {
        var d :| d in s.channels && d.id != id && DmOf(d, s.members, users.value);
        assert made in after.channels && Members(after.members, id) == Members(after.members, d.id);
      } else {
        InsertedDistinct(s, made, after.members, users.value);
      }
    } else {
      assert forall c :: c in after.channels && IsDm(c) ==> c in s.channels;
    }
  }

  /**
   * Inserting a dm keeps them distinct exactly when looking up the members collected, in the order
   * they are about to be inserted, finds nothing.
   */
  lemma InsertKeepsIff(s: Tables, id: string, user: string, form: Form, groups: Groups, order: seq<string>)
    requires Sound(s) && OneDmEach(s) && Fresh(s, id)
    requires Walks(order, Collected(groups, user, form.userIds, form.groupIds))
    ensures var users := Collected(groups, user, form.userIds, form.groupIds);
      OneDmEach(Insert(s, id, user, form, groups, order)) <==>
        (form.kind == Some("dm") && users.Some? ==> GetDm(s, order).None?)
  {
    InsertKeepsFree(s, id, user, form, groups, order);
    if Collected(groups, user, form.userIds, form.groupIds).Some? {
      CollectedWalked(groups, user, form.userIds, form.groupIds, order);
      MissIffFree(s, id, order);
    }
  }

  lemma InsertedDistinct(s: Tables, made: Channel, rows: Rows, users: set<string>)
    requires OneDmEach(s) && Changed(s.members, rows, made.id, users)
    requires forall c :: c in s.channels ==> c.id != made.id
    requires IsDm(made) ==> Free(s, made.id, users)
    ensures OneDmEach(Tables(s.channels + [made], rows))
  {
  }

  function Asked(e: Event): seq<string>
    requires e.Create? || e.Direct?
  {
    match e
    case Create(_, user, form, _, _) => [user] + Listed(form.userIds)
    case Direct(_, user, other, _) => [user, other]
  }

  /**
   * What the event must find for participant sets to stay distinct, as lookups a caller can make
   * before it.  A create that names groups must look up the members it collects, not only those it
   * lists; a dm's members must not change into those of another dm.
   */
  ghost predicate Gentle(s: Tables, e: Event) {
    match e
    case Create(_, user, form, groups, order) =>
      var users := Collected(groups, user, form.userIds, form.groupIds);
      form.kind == Some("dm") && form.userIds.Some? && users.Some? && GetDm(s, Asked(e)).None? ==> GetDm(s, order).None?
    case Add(channel, user, userIds, groupIds, groups, _) =>
      var users := Collected(groups, user, userIds, groupIds);
      DmId(s, channel) && users.Some? ==> Untaken(s, channel, Members(s.members, channel) + users.value)
    case Remove(channel, userIds) =>
      DmId(s, channel) ==> Untaken(s, channel, Members(s.members, channel) - Elements(userIds))
    case Join(channel, user) => DmId(s, channel) ==> Untaken(s, channel, Members(s.members, channel) + {user})
    case _ => true
  }

  lemma MarkKeepsDms(s: Tables, channel: string, user: string, active: bool, status: Option<string>)
    requires OneDmEach(s)
    ensures OneDmEach(s.(members := Marked(s.members, channel, user, active, status)))
  {
    var rows := Marked(s.members, channel, user, active, status);
    MarkedChanges(s.members, channel, user, active, status);
    forall c, d | c in s.channels && d in s.channels && IsDm(c) && IsDm(d) && c.id != d.id
      ensures Members(rows, c.id) != Members(rows, d.id)
    {
      assert Members(s.members, c.id) != Members(s.members, d.id);
    }
  }

  lemma FindOrInsertKeepsIff(s: Tables, id: string, user: string, form: Form, groups: Groups, order: seq<string>,
                             asked: seq<string>)
    requires Sound(s) && OneDmEach(s) && Fresh(s, id) && form.kind == Some("dm")
    requires Walks(order, Collected(groups, user, form.userIds, form.groupIds))
    ensures var users := Collected(groups, user, form.userIds, form.groupIds);
      OneDmEach(FindOrInsert(s, id, user, form, groups, order, asked)) <==>
        (users.Some? && GetDm(s, asked).None? ==> GetDm(s, order).None?)
  {
    match GetDm(s, asked)
    case Some(found) => MarkKeepsDms(s, found.id, user, true, None);
    case None => InsertKeepsIff(s, id, user, form, groups, order);
  }

  lemma SameMembersSameLookup(s: Tables, a: seq<string>, b: seq<string>)
    requires Elements(a) == Elements(b)
    ensures GetDm(s, a) == GetDm(s, b)
  {
  }

  lemma DirectCollects(user: string, other: string)
    ensures Collected(map[], user, Some([other]), None) == Some(Elements([user, other]))
  {
    assert Elements([other]) + {user} + {} == Elements([user, other]);
  }

  lemma CreateKeepsIff(s: Tables, e: Event)
    requires Sound(s) && OneDmEach(s) && Enabled(s, e) && (e.Create? || e.Direct?)
    ensures OneDmEach(Apply(s, e)) <==> Gentle(s, e)
  {
    match e
    case Create(id, user, form, groups, order) =>
      if form.kind != Some("dm") {
        InsertKeepsIff(s, id, user, form, groups, order);
      } else if form.userIds.Some? {
        FindOrInsertKeepsIff(s, id, user, form, groups, order, [user] + form.userIds.value);
      }
    case Direct(id, user, other, order) =>
      FindOrInsertKeepsIff(s, id, user, DirectForm(other), map[], order, [user, other]);
      DirectCollects(user, other);
      SameMembersSameLookup(s, order, [user, other]);
  }

  lemma ChangesKeepIff(s: Tables, e: Event)
    requires Sound(s) && OneDmEach(s) && Enabled(s, e) && (e.Add? || e.Remove? || e.Join?)
    ensures OneDmEach(Apply(s, e)) <==> Gentle(s, e)
  {
    match e
    case Add(channel, user, userIds, groupIds, groups, order) =>
      var users := Collected(groups, user, userIds, groupIds);
      if users.Some? {
        AddChanges(s, channel, users, order);
        ChangeKeepsIff(s, s.members + Roster(channel, order), channel, Members(s.members, channel) + users.value);
        UntakenIsFree(s, channel, Members(s.members, channel) + users.value);
      }
    case Remove(channel, userIds) =>
      WithoutRemoves(s.members, channel, Elements(userIds));
      ChangeKeepsIff(s, Without(s.members, channel, Elements(userIds)), channel,
                     Members(s.members, channel) - Elements(userIds));
      UntakenIsFree(s, channel, Members(s.members, channel) - Elements(userIds));
    case Join(channel, user) =>
      JoinChanges(s, channel, user);
      ChangeKeepsIff(s, JoinChannel(s, channel, user).members, channel, Members(s.members, channel) + {user});
      UntakenIsFree(s, channel, Members(s.members, channel) + {user});
  }

  /** For each event: participant sets stay distinct exactly when the event is gentle. */
  lemma StepKeepsDmsIff(s: Tables, e: Event)
    requires Sound(s) && OneDmEach(s) && Enabled(s, e)
    ensures OneDmEach(Apply(s, e)) <==> Gentle(s, e)
  {
    match e
    case Create(_, _, _, _, _) => CreateKeepsIff(s, e);
    case Direct(_, _, _, _) => CreateKeepsIff(s, e);
    case Leave(channel, user) => MarkKeepsDms(s, channel, user, false, Some("left"));
    case Activate(channel, user, active) => MarkKeepsDms(s, channel, user, active, None);
    case _ => ChangesKeepIff(s, e);
  }

  /** No group ids on a dm, and no change to a dm's members. */
  ghost predicate Plain(s: Tables, e: Event) {
    match e
    case Create(_, _, form, _, _) => form.kind == Some("dm") ==> Listed(form.groupIds) == []
    case Add(channel, _, _, _, _, _) => !DmId(s, channel)
    case Remove(channel, _) => !DmId(s, channel)
    case Join(channel, _) => !DmId(s, channel)
    case _ => true
  }

  lemma PlainIsGentle(s: Tables, e: Event)
    requires Enabled(s, e) && Plain(s, e)
    ensures Gentle(s, e)
  {
    if e.Create? && e.form.kind == Some("dm") && e.form.userIds.Some? {
      assert Elements(e.form.userIds.value) + {e.user} + {} == Elements(Asked(e));
      if Collected(e.groups, e.user, e.form.userIds, e.form.groupIds).Some? {
        SameMembersSameLookup(s, e.order, Asked(e));
      }
    }
  }

  ghost predicate AllPlain(run: seq<Event>) {
    forall n :: 0 <= n < |run| ==> Plain(After(run[..n]), run[n])
  }

  /**
   * On every run in which dms are made without groups and keep their members, no two of them have the
   * same members, whatever order and repetition the ids came in.
   */
  lemma {:induction false} RunsKeepOneDm(run: seq<Event>)
    requires IsRun(run) && AllPlain(run)
    ensures OneDmEach(After(run))
  {
    if run != [] {
      var front := run[..|run| - 1];
      PrefixRuns(run);
      forall n | 0 <= n < |front| ensures Plain(After(front[..n]), front[n]) {
        assert front[..n] == run[..n];
      }
      RunsKeepOneDm(front);
      RunsKeepSound(front);
      PlainIsGentle(After(front), run[|run| - 1]);
      StepKeepsDmsIff(After(front), run[|run| - 1]);
    }
  }

  /** However the handler got there, a dm of exactly the participants is in the tables. */
  lemma AskingGives(s: Tables, id: string, user: string, userIds: seq<string>, groupIds: Option<seq<string>>,
                    order: seq<string>) returns (c: Channel)
    requires Sound(s) && Fresh(s, id) && Listed(groupIds) == []
    requires Walks(order, Collected(map[], user, Some(userIds), groupIds))
    ensures var form := Form(Some("dm"), Some(userIds), groupIds);
      var after := FindOrInsert(s, id, user, form, map[], order, [user] + userIds);
      Sound(after) && c in after.channels && DmOf(c, after.members, Elements([user] + userIds))
  {
    var form, asked := Form(Some("dm"), Some(userIds), groupIds), [user] + userIds;
    FindOrInsertSound(s, id, user, form, map[], order, asked);
    assert asked[0] in Elements(asked);
    FirstDmFinds(s.channels, s.members, Elements(asked));
    match GetDm(s, asked)
    case Some(found) =>
      c := found;
      MarkedChanges(s.members, found.id, user, true, None);
    case None =>
      c := Channel(id, Some("dm"), user);
      InsertChanges(s, id, user, form, map[], order);
      assert Elements(userIds) + {user} + {} == Elements(asked);
  }

  /** Once it is there, asking for the same set only marks a row: no channel and no membership changes. */
  lemma AskingAgainKeeps(s: Tables, c: Channel, again: seq<string>,
                         id: string, user: string, form: Form, groups: Groups, order: seq<string>)
    requires Sound(s) && c in s.channels && again != [] && DmOf(c, s.members, Elements(again))
    ensures GetDm(s, again).Some? && DmOf(GetDm(s, again).value, s.members, Elements(again))
    ensures OneDmEach(s) && DistinctIds(s.channels) ==> GetDm(s, again).value == c
    ensures var after := FindOrInsert(s, id, user, form, groups, order, again);
      after.channels == s.channels && forall x :: Members(after.members, x) == Members(s.members, x)
  {
    assert again[0] in Elements(again);
    FirstDmFinds(s.channels, s.members, Elements(again));
    var found := GetDm(s, again).value;
    MarkedChanges(s.members, found.id, user, true, None);
    if OneDmEach(s) {
      assert found.id == c.id;
      var i :| 0 <= i < |s.channels| && s.channels[i] == found;
      var j :| 0 <= j < |s.channels| && s.channels[j] == c;
    }
  }

  /**
   * Asking makes it so: after either handler succeeds without groups, asking again for the same
   * participants, in any order and with any repetition, finds one channel of exactly them and
   * changes neither the channels nor anyone's membership.
   */
  lemma AskingAgainFinds(s: Tables, id: string, user: string, userIds: seq<string>, order: seq<string>,
                         again: seq<string>, id2: string, user2: string, form2: Form, groups2: Groups,
                         order2: seq<string>)
    requires Sound(s) && Enabled(s, Create(id, user, Form(Some("dm"), Some(userIds), None), map[], order))
    requires Elements(again) == Elements([user] + userIds)
    ensures var first := Apply(s, Create(id, user, Form(Some("dm"), Some(userIds), None), map[], order));
      var second := FindOrInsert(first, id2, user2, form2, groups2, order2, again);
      && GetDm(first, again).Some? && DmOf(GetDm(first, again).value, first.members, Elements(again))
      && second.channels == first.channels
      && forall c :: Members(second.members, c) == Members(first.members, c)
  {
    var first := Apply(s, Create(id, user, Form(Some("dm"), Some(userIds), None), map[], order));
    var c := AskingGives(s, id, user, userIds, None, order);
    assert ([user] + userIds)[0] in Elements(again);
    AskingAgainKeeps(first, c, again, id2, user2, form2, groups2, order2);
  }

  // ----- where it fails ------------------------------------------------------------------------------

  lemma DmInserted(s: Tables, id: string, user: string, form: Form, groups: Groups, order: seq<string>)
    requires Sound(s) && Fresh(s, id) && form.kind == Some("dm")
    requires Collected(groups, user, form.userIds, form.groupIds) == Some(Elements(order)) && NoRepeats(order)
    ensures var after := Insert(s, id, user, form, groups, order);
      && Sound(after) && after.channels == s.channels + [Channel(id, Some("dm"), user)]
      && Changed(s.members, after.members, id, Elements(order))
  {
    InsertChanges(s, id, user, form, groups, order);
  }

  /**
   * In every sound store: a create whose groups add someone not listed, when neither the listed users
   * nor those collected have a dm yet, made twice, leaves two dms with the same members, because what
   * it looks up is not what it inserts.
   */
  lemma CreatingTwiceDuplicates(s: Tables, id: string, id2: string, user: string, userIds: seq<string>,
                                groupIds: Option<seq<string>>, groups: Groups, order: seq<string>, order2: seq<string>)
    requires Sound(s) && Fresh(s, id) && Fresh(s, id2) && id != id2
    requires var collected := Collected(groups, user, Some(userIds), groupIds);
      && collected == Some(Elements(order)) == Some(Elements(order2)) && NoRepeats(order) && NoRepeats(order2)
      && Elements(order) != Elements([user] + userIds)
    requires GetDm(s, [user] + userIds).None? && GetDm(s, order).None?
    ensures var form := Form(Some("dm"), Some(userIds), groupIds);
      var once := Apply(s, Create(id, user, form, groups, order));
      var twice := Apply(once, Create(id2, user, form, groups, order2));
      && Enabled(s, Create(id, user, form, groups, order)) && Enabled(once, Create(id2, user, form, groups, order2))
      && Channel(id, Some("dm"), user) in twice.channels && Channel(id2, Some("dm"), user) in twice.channels
      && Members(twice.members, id) == Members(twice.members, id2) == Elements(order)
      && !OneDmEach(twice)
  {
    var form, asked := Form(Some("dm"), Some(userIds), groupIds), [user] + userIds;
    var once := Apply(s, Create(id, user, form, groups, order));
    DmInserted(s, id, user, form, groups, order);
    StillMissed(s, once, Channel(id, Some("dm"), user), asked);
    DmInserted(once, id2, user, form, groups, order2);
    var twice := Apply(once, Create(id2, user, form, groups, order2));
    assert twice == Insert(once, id2, user, form, groups, order2);
  }

  lemma StillMissed(s: Tables, after: Tables, made: Channel, asked: seq<string>)
    requires Sound(s) && Sound(after) && asked != [] && GetDm(s, asked).None?
    requires after.channels == s.channels + [made] && Members(after.members, made.id) != Elements(asked)
    requires Changed(s.members, after.members, made.id, Members(after.members, made.id))
    requires forall c :: c in s.channels ==> c.id != made.id
    ensures GetDm(after, asked).None?
  {
    assert asked[0] in Elements(asked);
    FirstDmFinds(s.channels, s.members, Elements(asked));
    FirstDmFinds(after.channels, after.members, Elements(asked));
    assert forall c :: c in after.channels <==> c in s.channels || c == made;
  }

  /** In every sound store, joining the one participant that tells two dms apart makes them the same. */
  lemma JoiningMerges(s: Tables, c: Channel, d: Channel, user: string)
    requires Sound(s) && c in s.channels && d in s.channels && IsDm(c) && IsDm(d) && c.id != d.id
    requires Members(s.members, d.id) == Members(s.members, c.id) + {user}
    ensures !OneDmEach(Apply(s, Join(c.id, user)))
  {
    JoinChanges(s, c.id, user);
    var after := Apply(s, Join(c.id, user));
    assert Members(after.members, c.id) == Members(after.members, d.id);
  }

  lemma DirectMade(id: string, a: string, b: string)
    requires a != b
    ensures var e := Direct(id, a, b, [a, b]);
      var s := Apply(Tables([], []), e);
      && Enabled(Tables([], []), e) && Sound(s) && s.channels == [Channel(id, Some("dm"), a)]
      && Changed([], s.members, id, {a, b})
  {
    DirectCollects(a, b);
    DmInserted(Tables([], []), id, a, DirectForm(b), map[], [a, b]);
    assert [] + [Channel(id, Some("dm"), a)] == [Channel(id, Some("dm"), a)];
    assert Elements([a, b]) == {a, b};
  }

  lemma ThreeMade(s: Tables, first: Channel, id: string, a: string, b: string, c: string)
    requires Sound(s) && s.channels == [first] && first.id != id && Changed([], s.members, first.id, {a, b})
    requires a != b && b != c && a != c
    ensures var e := Create(id, a, Form(Some("dm"), Some([b, c]), None), map[], [a, b, c]);
      var after := Apply(s, e);
      && Enabled(s, e) && Sound(after) && after.channels == [first] + [Channel(id, Some("dm"), a)]
      && Changed(s.members, after.members, id, {a, b, c})
  {
    assert Elements([b, c]) + {a} + {} == Elements([a, b, c]) == {a, b, c};
    assert [a] + [b, c] == [a, b, c] && c !in {a, b};
    FirstDmFinds(s.channels, s.members, Elements([a, b, c]));
    DmInserted(s, id, a, Form(Some("dm"), Some([b, c]), None), map[], [a, b, c]);
  }

  lemma ThreeEvents(e1: Event, e2: Event, e3: Event)
    requires Enabled(Tables([], []), e1) && Enabled(Apply(Tables([], []), e1), e2)
    requires Enabled(Apply(Apply(Tables([], []), e1), e2), e3)
    ensures IsRun([e1, e2, e3]) && After([e1, e2, e3]) == Apply(Apply(Apply(Tables([], []), e1), e2), e3)
  {
    var run := [e1, e2, e3];
    assert run[..0] == [] && run[..1] == [e1] && run[..2] == [e1, e2] && [e1][..0] == [] && [e1, e2][..1] == [e1];
    assert After([e1]) == Apply(Tables([], []), e1);
    assert After([e1, e2]) == Apply(Apply(Tables([], []), e1), e2);
  }

  /** A run that gets there: a dm of two, a dm of three, and the third joins the first. */
  lemma JoiningMergesOnRun(one: string, two: string, a: string, b: string, c: string) returns (run: seq<Event>)
    requires one != two && a != b && b != c && a != c
    ensures IsRun(run) && !OneDmEach(After(run))
  {
    var e1 := Direct(one, a, b, [a, b]);
    var e2 := Create(two, a, Form(Some("dm"), Some([b, c]), None), map[], [a, b, c]);
    var first, second := Channel(one, Some("dm"), a), Channel(two, Some("dm"), a);
    DirectMade(one, a, b);
    var s1 := Apply(Tables([], []), e1);
    ThreeMade(s1, first, two, a, b, c);
    var s2 := Apply(s1, e2);
    assert {a, b} + {c} == {a, b, c};
    assert Members(s1.members, one) == {a, b} && Members(s2.members, one) == {a, b};
    JoiningMerges(s2, first, second, c);
    run := [e1, e2, Join(one, c)];
    ThreeEvents(e1, e2, Join(one, c));
  }
}
