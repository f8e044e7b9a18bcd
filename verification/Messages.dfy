/**
 * Expanding a channel message with what it replies to and its thread
 * (backend/open_webui/models/messages.py:172-231, :274-315).
 */
module Messages {
  import opened Basics
  import opened StableSort
  import opened PointerGraph

  datatype Message = Message(
    id: string, channel: string, parent: Option<string>, replyTo: Option<string>, createdAt: int, content: string)

  type Rows = seq<Message>

  /** A message as returned: the message it replies to, and how many replies its thread has. */
  datatype View = View(message: Message, replyTo: Option<Message>, latestReplyAt: Option<int>, replyCount: nat)

  /** A thread reply with the message it replies to. */
  datatype Reply = Reply(message: Message, replyTo: Option<Message>)

  function Lookup(rows: Rows, id: string): Option<Message> {
    if rows == [] then None
    else if rows[|rows| - 1].id == id then Some(rows[|rows| - 1])
    else Lookup(rows[..|rows| - 1], id)
  }

  /** An empty reply id counts as none. */
  function ReplyId(m: Message): Option<string> {
    if m.replyTo.Some? && m.replyTo.value != "" then m.replyTo else None
  }

  function RepliesOf(rows: Rows, id: string): seq<Scored<Message>> {
    if rows == [] then []
    else
      var last := rows[|rows| - 1];
      RepliesOf(rows[..|rows| - 1], id) + if last.parent == Some(id) then [Scored(last.createdAt as real, last)] else []
  }

  /** The replies in a message's thread, newest first. */
  function Thread(rows: Rows, id: string): seq<Scored<Message>> {
    SortDescending(RepliesOf(rows, id))
  }

  // ----- the recursion -------------------------------------------------------------------------------

  /**
   * The outer None is the recursion error; the inner one a missing message.  `limit` counts nested
   * calls of get_message_by_id.
   */
  function Expand(rows: Rows, id: string, limit: nat): Option<Option<View>>
    decreases limit, 0
  {
    if limit == 0 then None
    else match Lookup(rows, id)
      case None => Some(None)
      case Some(m) =>
        var replied := ExpandReply(rows, m, limit - 1);
        var replies := ExpandAll(rows, Thread(rows, id), limit - 1);
        if replied.None? || replies.None? then None
        else Some(Some(View(m, replied.value,
          if replies.value == [] then None else Some(replies.value[0].message.createdAt), |replies.value|)))
  }

  function ExpandReply(rows: Rows, m: Message, limit: nat): Option<Option<Message>>
    decreases limit, 1
  {
    match ReplyId(m)
    case None => Some(None)
    case Some(r) =>
      match Expand(rows, r, limit)
      case None => None
      case Some(None) => Some(None)
      case Some(Some(view)) => Some(Some(view.message))
  }

  function ExpandAll(rows: Rows, thread: seq<Scored<Message>>, limit: nat): Option<seq<Reply>>
    decreases limit, 2, |thread|
  {
    if thread == [] then Some([])
    else
      var front := ExpandAll(rows, thread[..|thread| - 1], limit);
      var last := thread[|thread| - 1].item;
      var replied := ExpandReply(rows, last, limit);
      if front.None? || replied.None? then None else Some(front.value + [Reply(last, replied.value)])
  }

  method GetMessageById(rows: Rows, id: string, limit: nat) returns (r: Option<Option<View>>)
    ensures r == Expand(rows, id, limit)
    decreases limit, 0
  {
    if limit == 0 {
      return None;
    }
    var message := Lookup(rows, id);
    if message.None? {
      return Some(None);
    }
    var replied: Option<Message> := None;
    if ReplyId(message.value).Some? {
      var view := GetMessageById(rows, ReplyId(message.value).value, limit - 1);
      if view.None? {
        return None;
      }
      replied := if view.value.Some? then Some(view.value.value.message) else None;
    }
    var replies := GetThreadReplies(rows, Thread(rows, id), limit - 1);
    if replies.None? {
      return None;
    }
    var latest := if |replies.value| > 0 then Some(replies.value[0].message.createdAt) else None;
    return Some(Some(View(message.value, replied, latest, |replies.value|)));
  }

  /** The loop of get_thread_replies_by_message_id. */
  method GetThreadReplies(rows: Rows, thread: seq<Scored<Message>>, limit: nat) returns (r: Option<seq<Reply>>)
    ensures r == ExpandAll(rows, thread, limit)
    ensures r.Some? ==> AreReplies(rows, thread, r.value)
    decreases limit, 1
  {
    var messages: seq<Reply> := [];
    for i := 0 to |thread|
      invariant ExpandAll(rows, thread[..i], limit) == Some(messages)
    {
      assert thread[..i + 1][..i] == thread[..i];
      var m := thread[i].item;
      var replied: Option<Message> := None;
      if ReplyId(m).Some? {
        var view := GetMessageById(rows, ReplyId(m).value, limit);
        if view.None? {
          ExpandAllFails(rows, thread, limit, i + 1);
          return None;
        }
        replied := if view.value.Some? then Some(view.value.value.message) else None;
      }
      messages := messages + [Reply(m, replied)];
    }
    assert thread[..|thread|] == thread;
    RepliesGive(rows, thread, limit);
    return Some(messages);
  }

  lemma {:induction false} ExpandAllFails(rows: Rows, thread: seq<Scored<Message>>, limit: nat, n: nat)
    requires n <= |thread| && ExpandAll(rows, thread[..n], limit).None?
    ensures ExpandAll(rows, thread, limit).None?
  {
    if n < |thread| {
      assert thread[..|thread| - 1][..n] == thread[..n];
      ExpandAllFails(rows, thread[..|thread| - 1], limit, n);
    } else {
      assert thread[..n] == thread;
    }
  }

  // ----- when the recursion returns ------------------------------------------------------------------

  function ReplyIds(thread: seq<Scored<Message>>): seq<string> {
    if thread == [] then []
    else
      var replied := ReplyId(thread[|thread| - 1].item);
      ReplyIds(thread[..|thread| - 1]) + if replied.Some? then [replied.value] else []
  }

  function CallsOf(rows: Rows, id: string): seq<string> {
    match Lookup(rows, id)
    case None => []
    case Some(m) => ReplyIds([Scored(0.0, m)]) + ReplyIds(Thread(rows, id))
  }

  /** The messages that expanding a message expands. */
  ghost function Calls(rows: Rows): Pointers {
    id => CallsOf(rows, id)
  }

  lemma {:induction false} ThreadReturns(rows: Rows, thread: seq<Scored<Message>>, limit: nat)
    ensures ExpandAll(rows, thread, limit).Some? <==> AllComplete(Calls(rows), ReplyIds(thread), limit)
    decreases limit, |thread| + 2
  {
    if thread != [] {
      var front, last := thread[..|thread| - 1], thread[|thread| - 1].item;
      ThreadReturns(rows, front, limit);
      ReplyReturns(rows, last, limit);
      if ReplyId(last).Some? {
        AllCompleteSnoc(Calls(rows), ReplyIds(front), ReplyId(last).value, limit);
      } else {
        assert ReplyIds(front) + [] == ReplyIds(front);
      }
    }
  }

  lemma {:induction false} ReplyReturns(rows: Rows, m: Message, limit: nat)
    ensures ExpandReply(rows, m, limit).Some? <==>
      (ReplyId(m).Some? ==> Completes(Calls(rows), ReplyId(m).value, limit))
    decreases limit, 1
  {
    if ReplyId(m).Some? {
      ReturnsWhenPointersEnd(rows, ReplyId(m).value, limit);
    }
  }

  lemma OwnCalls(rows: Rows, m: Message, limit: nat)
    ensures AllComplete(Calls(rows), ReplyIds([Scored(0.0, m)]), limit) <==>
      (ReplyId(m).Some? ==> Completes(Calls(rows), ReplyId(m).value, limit))
  {
  }

  lemma CallsComplete(rows: Rows, id: string, m: Message, limit: nat)
    requires Lookup(rows, id) == Some(m)
    ensures AllComplete(Calls(rows), Calls(rows)(id), limit) <==>
      (ReplyId(m).Some? ==> Completes(Calls(rows), ReplyId(m).value, limit)) &&
      AllComplete(Calls(rows), ReplyIds(Thread(rows, id)), limit)
  {
    OwnCalls(rows, m, limit);
    AllCompleteSplits(Calls(rows), ReplyIds([Scored(0.0, m)]), ReplyIds(Thread(rows, id)), limit);
  }

  lemma ExpandUnfolds(rows: Rows, id: string, limit: nat)
    ensures Expand(rows, id, limit).Some? <==>
      limit > 0 && (Lookup(rows, id).None? ||
        (ExpandReply(rows, Lookup(rows, id).value, limit - 1).Some?
         && ExpandAll(rows, Thread(rows, id), limit - 1).Some?))
  {
  }

  /** get_message_by_id returns exactly when the recursion through the stored pointers ends in time. */
  lemma {:induction false} ReturnsWhenPointersEnd(rows: Rows, id: string, limit: nat)
    ensures Expand(rows, id, limit).Some? <==> Completes(Calls(rows), id, limit)
    decreases limit, 0
  {
    ExpandUnfolds(rows, id, limit);
    CompletesUnfolds(Calls(rows), id, limit);
    if limit > 0 {
      match Lookup(rows, id)
      case None =>
      case Some(m) =>
        CallsComplete(rows, id, m, limit - 1);
        ReplyReturns(rows, m, limit - 1);
        ThreadReturns(rows, Thread(rows, id), limit - 1);
    }
  }

  /** Every id the store holds or names as replied to. */
  ghost function Named(rows: Rows): set<string> {
    (set m | m in rows :: m.id) + (set m | m in rows && ReplyId(m).Some? :: ReplyId(m).value)
  }

  lemma {:induction false} LookupFinds(rows: Rows, id: string)
    ensures Lookup(rows, id).Some? <==> exists m :: m in rows && m.id == id
    ensures Lookup(rows, id).Some? ==> Lookup(rows, id).value in rows && Lookup(rows, id).value.id == id
  {
    if rows != [] {
      LookupFinds(rows[..|rows| - 1], id);
      assert forall m :: m in rows <==> m in rows[..|rows| - 1] || m == rows[|rows| - 1];
    }
  }

  lemma {:induction false} RepliesAreRows(rows: Rows, id: string, e: Scored<Message>)
    ensures e in RepliesOf(rows, id) <==>
      e.item in rows && e.item.parent == Some(id) && e.score == e.item.createdAt as real
  {
    if rows != [] {
      RepliesAreRows(rows[..|rows| - 1], id, e);
      assert e.item in rows <==> e.item in rows[..|rows| - 1] || e.item == rows[|rows| - 1];
    }
  }

  lemma SortKeepsMembers<T>(s: seq<Scored<T>>, e: Scored<T>)
    ensures e in SortDescending(s) <==> e in s
  {
  }

  lemma {:induction false} ReplyIdsComeFrom(thread: seq<Scored<Message>>, r: string)
    ensures r in ReplyIds(thread) <==> exists e :: e in thread && ReplyId(e.item) == Some(r)
  {
    if thread != [] {
      ReplyIdsComeFrom(thread[..|thread| - 1], r);
      assert forall e :: e in thread <==> e in thread[..|thread| - 1] || e == thread[|thread| - 1];
    }
  }

  ghost predicate IsCall(rows: Rows, id: string, m: Message, r: string) {
    m in rows && ReplyId(m) == Some(r) && (Lookup(rows, id) == Some(m) || m.parent == Some(id))
  }

  /** Expanding a message expands what it or a member of its thread replies to. */
  lemma CallsCome(rows: Rows, id: string, r: string) returns (m: Message)
    requires r in CallsOf(rows, id)
    ensures Lookup(rows, id).Some? && IsCall(rows, id, m, r)
  {
    m := Lookup(rows, id).value;
    LookupFinds(rows, id);
    if ReplyId(m) != Some(r) {
      ReplyIdsComeFrom([Scored(0.0, m)], r);
      ReplyIdsComeFrom(Thread(rows, id), r);
      var e :| e in Thread(rows, id) && ReplyId(e.item) == Some(r);
      SortKeepsMembers(RepliesOf(rows, id), e);
      RepliesAreRows(rows, id, e);
      m := e.item;
    }
  }

  /**
   * With a frame for every id the store names, get_message_by_id returns exactly when the stored
   * pointers lead from the message into no cycle; otherwise no recursion limit is enough.
   */
  lemma ReturnsIffNoCycle(rows: Rows, id: string)
    requires Lookup(rows, id).Some?
    ensures Expand(rows, id, |Named(rows)|).Some? <==> !ReachesCycle(Calls(rows), id)
    ensures ReachesCycle(Calls(rows), id) ==> forall limit: nat :: Expand(rows, id, limit).None?
  {
    forall x, y | x in Named(rows) && y in Calls(rows)(x) ensures y in Named(rows) {
      var m := CallsCome(rows, x, y);
    }
    LookupFinds(rows, id);
    CompletesIffNoCycle(Calls(rows), Named(rows), id);
    ReturnsWhenPointersEnd(rows, id, |Named(rows)|);
    if ReachesCycle(Calls(rows), id) {
      forall limit: nat ensures Expand(rows, id, limit).None? {
        ReturnsWhenPointersEnd(rows, id, limit);
      }
    }
  }

  // ----- what is returned ----------------------------------------------------------------------------

  function ReplyTo(rows: Rows, m: Message): Option<Message> {
    if ReplyId(m).Some? then Lookup(rows, ReplyId(m).value) else None
  }

  /** The newest of the replies to `id`: none exactly when there is no reply. */
  ghost predicate IsLatest(rows: Rows, id: string, latest: Option<int>) {
    match latest
    case None => forall m :: m in rows ==> m.parent != Some(id)
    case Some(t) =>
      && (exists m :: m in rows && m.parent == Some(id) && m.createdAt == t)
      && (forall m :: m in rows && m.parent == Some(id) ==> m.createdAt <= t)
  }

  ghost function ReplyPositions(rows: Rows, id: string): set<nat> {
    set i: nat | i < |rows| && rows[i].parent == Some(id)
  }

  lemma {:induction false} RepliesCounted(rows: Rows, id: string)
    ensures |RepliesOf(rows, id)| == |ReplyPositions(rows, id)|
  {
    if rows != [] {
      var n := |rows| - 1;
      RepliesCounted(rows[..n], id);
      assert ReplyPositions(rows, id) ==
        ReplyPositions(rows[..n], id) + if rows[n].parent == Some(id) then {n} else {};
    } else {
      assert ReplyPositions(rows, id) == {};
    }
  }

  lemma NewestFirst(rows: Rows, id: string)
    ensures var thread := Thread(rows, id);
      IsLatest(rows, id, if thread == [] then None else Some(thread[0].item.createdAt))
  {
    var replies, thread := RepliesOf(rows, id), Thread(rows, id);
    var p := SortIsStable(replies);
    forall m | m in rows && m.parent == Some(id)
      ensures thread != [] && m.createdAt <= thread[0].item.createdAt
    {
      var e := Scored(m.createdAt as real, m);
      RepliesAreRows(rows, id, e);
      SortKeepsMembers(replies, e);
      var j: nat :| j < |thread| && thread[j] == e;
      RepliesAreRows(rows, id, thread[0]);
      SortKeepsMembers(replies, thread[0]);
      assert j > 0 ==> replies[p[0]].score >= replies[p[j]].score;
    }
    if thread != [] {
      SortKeepsMembers(replies, thread[0]);
      RepliesAreRows(rows, id, thread[0]);
    }
  }

  lemma {:induction false} ExpandAllKeeps(rows: Rows, thread: seq<Scored<Message>>, limit: nat)
    requires ExpandAll(rows, thread, limit).Some?
    ensures var all := ExpandAll(rows, thread, limit).value;
      |all| == |thread| && forall i :: 0 <= i < |all| ==> all[i].message == thread[i].item
  {
    if thread != [] {
      ExpandAllKeeps(rows, thread[..|thread| - 1], limit);
    }
  }

  /**
   * However deep the recursion went, what is returned is the row, the row it replies to, the number
   * of rows in its thread and the time of the newest of them.
   */
  lemma {:induction false} ExpandsToDirectRows(rows: Rows, id: string, limit: nat)
    requires Expand(rows, id, limit).Some?
    ensures match Expand(rows, id, limit).value
      case None => Lookup(rows, id).None?
      case Some(view) =>
        && Lookup(rows, id) == Some(view.message)
        && view.replyTo == ReplyTo(rows, view.message)
        && view.replyCount == |ReplyPositions(rows, id)|
        && IsLatest(rows, id, view.latestReplyAt)
    decreases limit
  {
    var found := Lookup(rows, id);
    if found.Some? {
      if ReplyId(found.value).Some? {
        ExpandsToDirectRows(rows, ReplyId(found.value).value, limit - 1);
      }
      ExpandAllKeeps(rows, Thread(rows, id), limit - 1);
      RepliesCounted(rows, id);
      NewestFirst(rows, id);
    }
  }

  /** The messages in order, each with the row it replies to. */
  ghost predicate AreReplies(rows: Rows, thread: seq<Scored<Message>>, replies: seq<Reply>) {
    && |replies| == |thread|
    && (forall i :: 0 <= i < |thread| ==> replies[i] == Reply(thread[i].item, ReplyTo(rows, thread[i].item)))
  }

  lemma ReplyGives(rows: Rows, m: Message, limit: nat)
    requires ExpandReply(rows, m, limit).Some?
    ensures ExpandReply(rows, m, limit).value == ReplyTo(rows, m)
  {
    if ReplyId(m).Some? {
      ExpandsToDirectRows(rows, ReplyId(m).value, limit);
    }
  }

  /** Whenever it returns, the view of a thread is just that. */
  lemma {:induction false} RepliesGive(rows: Rows, thread: seq<Scored<Message>>, limit: nat)
    requires ExpandAll(rows, thread, limit).Some?
    ensures AreReplies(rows, thread, ExpandAll(rows, thread, limit).value)
  {
    if thread != [] {
      RepliesGive(rows, thread[..|thread| - 1], limit);
      ReplyGives(rows, thread[|thread| - 1].item, limit);
    }
  }

  // ----- stores on which every message is returned ---------------------------------------------------

  /** `m` replies to an earlier message, its parent is a thread root, and in a thread it replies within it. */
  ghost predicate Threaded(rows: Rows, m: Message) {
    && (ReplyTo(rows, m).Some? ==> ReplyTo(rows, m).value.createdAt < m.createdAt)
    && (m.parent.Some? && Lookup(rows, m.parent.value).Some? ==> Lookup(rows, m.parent.value).value.parent.None?)
    && (m.parent.Some? && ReplyTo(rows, m).Some? ==> ReplyTo(rows, m).value.parent == m.parent)
  }

  ghost predicate WellThreaded(rows: Rows) {
    forall m :: m in rows ==> Threaded(rows, m)
  }

  ghost function Earlier(rows: Rows, t: int): nat {
    |set i: nat | i < |rows| && rows[i].createdAt < t|
  }

  lemma EarlierGrows(rows: Rows, m: Message, t: int)
    requires m in rows && m.createdAt < t
    ensures Earlier(rows, m.createdAt) < Earlier(rows, t) <= |rows|
  {
    var i: nat :| i < |rows| && rows[i] == m;
    var before := set i: nat | i < |rows| && rows[i].createdAt < m.createdAt;
    var upTo := set i: nat | i < |rows| && rows[i].createdAt < t;
    SubsetCounts(before + {i}, upTo);
    EarlierBounded(rows, t);
  }

  lemma EarlierBounded(rows: Rows, t: int)
    ensures Earlier(rows, t) <= |rows|
  {
    var all := seq(|rows|, i requires 0 <= i < |rows| => i as nat);
    NoRepeatsCounts(all);
    forall i: nat | i < |rows| && rows[i].createdAt < t ensures i in Elements(all) {
      assert all[i] == i;
    }
    SubsetCounts((set i: nat | i < |rows| && rows[i].createdAt < t), Elements(all));
  }

  /** Lexicographic: a thread root before its replies, then the number of earlier messages. */
  ghost function Depth(rows: Rows, id: string): nat {
    match Lookup(rows, id)
    case None => 0
    case Some(m) => 1 + Earlier(rows, m.createdAt) + if m.parent.None? then |rows| + 1 else 0
  }

  lemma CallsDescend(rows: Rows, id: string, r: string)
    requires WellThreaded(rows) && r in CallsOf(rows, id)
    ensures Depth(rows, r) < Depth(rows, id)
  {
    var m := CallsCome(rows, id, r);
    var caller := Lookup(rows, id).value;
    LookupFinds(rows, id);
    LookupFinds(rows, r);
    assert Threaded(rows, m);
    if Lookup(rows, r).Some? {
      var target := Lookup(rows, r).value;
      EarlierGrows(rows, target, m.createdAt);
      EarlierBounded(rows, target.createdAt);
    }
  }

  lemma DepthBounded(rows: Rows, id: string)
    ensures Depth(rows, id) <= 2 * |rows| + 2
  {
    if Lookup(rows, id).Some? {
      EarlierBounded(rows, Lookup(rows, id).value.createdAt);
    }
  }

  lemma AllCallsDescend(rows: Rows)
    requires WellThreaded(rows)
    ensures forall u, v :: v in Calls(rows)(u) ==> Depth(rows, v) < Depth(rows, u)
  {
    forall u, v | v in Calls(rows)(u) ensures Depth(rows, v) < Depth(rows, u) {
      CallsDescend(rows, u, v);
    }
  }

  /**
   * On every such store every message is returned, however large the store: nested calls never
   * exceed two per row and three.
   */
  lemma WellThreadedReturns(rows: Rows, id: string)
    requires WellThreaded(rows)
    ensures Expand(rows, id, 2 * |rows| + 3).Some?
  {
    AllCallsDescend(rows);
    MeasureCompletes(Calls(rows), x => Depth(rows, x), id);
    DepthBounded(rows, id);
    CompletesMonotone(Calls(rows), id, Depth(rows, id) + 1, 2 * |rows| + 3);
    ReturnsWhenPointersEnd(rows, id, 2 * |rows| + 3);
  }

  // ----- inserting -----------------------------------------------------------------------------------

  /** The id drawn for a posted message is named nowhere. */
  ghost predicate IsFresh(rows: Rows, m: Message) {
    && m.replyTo != Some(m.id) && m.parent != Some(m.id)
    && forall r :: r in rows ==> r.id != m.id && r.replyTo != Some(m.id) && r.parent != Some(m.id)
  }

  /** And its time is later than every other. */
  ghost predicate IsNew(rows: Rows, m: Message) {
    IsFresh(rows, m) && forall r :: r in rows ==> r.createdAt < m.createdAt
  }

  /** A check under which posting keeps every store readable; insert_new_message makes none. */
  ghost predicate FormFits(rows: Rows, m: Message) {
    && (m.parent.Some? && Lookup(rows, m.parent.value).Some? ==> Lookup(rows, m.parent.value).value.parent.None?)
    && (m.parent.Some? && ReplyTo(rows, m).Some? ==> ReplyTo(rows, m).value.parent == m.parent)
  }

  lemma InsertKeepsLookup(rows: Rows, m: Message, id: string)
    requires id != m.id
    ensures Lookup(rows + [m], id) == Lookup(rows, id)
  {
  }

  lemma InsertKeepsOthers(rows: Rows, m: Message, r: Message)
    requires r.replyTo != Some(m.id) && r.parent != Some(m.id)
    ensures Threaded(rows + [m], r) <==> Threaded(rows, r)
  {
  }

  /** Posting keeps such a store one exactly when the posted parent and reply fit together. */
  lemma InsertKeepsThreads(rows: Rows, m: Message)
    requires WellThreaded(rows) && IsNew(rows, m)
    ensures WellThreaded(rows + [m]) <==> FormFits(rows, m)
  {
    var grown := rows + [m];
    assert m in grown;
    InsertKeepsOthers(rows, m, m);
    if ReplyTo(rows, m).Some? {
      LookupFinds(rows, ReplyId(m).value);
    }
    forall r | r in rows ensures Threaded(grown, r) {
      InsertKeepsOthers(rows, m, r);
    }
    assert forall r :: r in grown <==> r in rows || r == m;
  }

  // ----- the exact check -----------------------------------------------------------------------------

  /** Every message is returned, given a frame for each id the store names. */
  ghost predicate Readable(rows: Rows) {
    forall id :: Lookup(rows, id).Some? ==> Expand(rows, id, |Named(rows)|).Some?
  }

  lemma ReadableIffNoCycles(rows: Rows)
    ensures Readable(rows) <==> NoCycles(Calls(rows))
  {
    forall id
      ensures (Lookup(rows, id).Some? ==> Expand(rows, id, |Named(rows)|).Some?) <==> !ReachesCycle(Calls(rows), id)
    {
      if Lookup(rows, id).Some? {
        ReturnsIffNoCycle(rows, id);
      } else {
        NoPointersNoCycle(Calls(rows), id);
      }
    }
  }

  lemma CallIff(rows: Rows, id: string, r: string)
    ensures r in CallsOf(rows, id) <==> Lookup(rows, id).Some? && exists m :: IsCall(rows, id, m, r)
  {
    if r in CallsOf(rows, id) {
      var m := CallsCome(rows, id, r);
    }
    if Lookup(rows, id).Some? {
      if m :| IsCall(rows, id, m, r) {
        CallMade(rows, id, m, r);
      }
    }
  }

  lemma CallMade(rows: Rows, id: string, m: Message, r: string)
    requires Lookup(rows, id).Some? && IsCall(rows, id, m, r)
    ensures r in CallsOf(rows, id)
  {
    if Lookup(rows, id) == Some(m) {
      ReplyIdsComeFrom([Scored(0.0, m)], r);
      assert Scored(0.0, m) in [Scored(0.0, m)];
    } else {
      var e := Scored(m.createdAt as real, m);
      RepliesAreRows(rows, id, e);
      SortKeepsMembers(RepliesOf(rows, id), e);
      ReplyIdsComeFrom(Thread(rows, id), r);
    }
  }

  /** Posting leaves the calls of every message but the thread's root as they were. */
  lemma PostKeepsCalls(rows: Rows, m: Message, x: string)
    requires x != m.id && m.parent != Some(x)
    ensures CallsOf(rows + [m], x) == CallsOf(rows, x)
  {
    InsertKeepsLookup(rows, m, x);
    assert (rows + [m])[..|rows|] == rows;
    assert RepliesOf(rows + [m], x) == RepliesOf(rows, x);
  }

  lemma NothingCallsFresh(rows: Rows, m: Message, x: string)
    requires IsFresh(rows, m)
    ensures m.id !in CallsOf(rows + [m], x) && CallsOf(rows, m.id) == []
  {
    LookupFinds(rows, m.id);
    CallIff(rows + [m], x, m.id);
    assert forall r :: r in rows + [m] <==> r in rows || r == m;
  }

  lemma RootCallKept(rows: Rows, m: Message, root: string, x: Message, r: string)
    requires IsFresh(rows, m) && Lookup(rows, root).Some? && Lookup(rows + [m], root) == Lookup(rows, root)
    requires x != m
    ensures IsCall(rows + [m], root, x, r) <==> IsCall(rows, root, x, r)
  {
  }

  lemma PostedIsCall(rows: Rows, m: Message, root: string, r: string)
    requires IsFresh(rows, m) && m.parent == Some(root) && Lookup(rows, root).Some?
    requires Lookup(rows + [m], root) == Lookup(rows, root)
    ensures IsCall(rows + [m], root, m, r) <==> ReplyId(m) == Some(r)
  {
    LookupFinds(rows, root);
  }

  /** The root's calls grow by what the posted message replies to. */
  lemma RootCalls(rows: Rows, m: Message, root: string, r: string)
    requires IsFresh(rows, m) && m.parent == Some(root) && Lookup(rows, root).Some?
    ensures r in CallsOf(rows + [m], root) <==> r in CallsOf(rows, root) || ReplyId(m) == Some(r)
  {
    InsertKeepsLookup(rows, m, root);
    CallIff(rows, root, r);
    CallIff(rows + [m], root, r);
    LookupFinds(rows, root);
    PostedIsCall(rows, m, root, r);
    if x :| IsCall(rows, root, x, r) {
      RootCallKept(rows, m, root, x, r);
    }
    if x :| IsCall(rows + [m], root, x, r) && x != m {
      RootCallKept(rows, m, root, x, r);
    }
  }

  /** The posted message would close a cycle: its reply target leads to its thread's root. */
  ghost predicate ClosesCycle(rows: Rows, m: Message) {
    m.parent.Some? && Lookup(rows, m.parent.value).Some? && ReplyId(m).Some?
    && Leads(Calls(rows), ReplyId(m).value, m.parent.value)
  }

  /**
   * Posting into a store where every message can be read leaves every message readable exactly when
   * what the message replies to does not lead, through the replies already stored, to its own thread's
   * root.
   */
  lemma PostKeepsReadableIff(rows: Rows, m: Message)
    requires Readable(rows) && IsFresh(rows, m)
    ensures Readable(rows + [m]) <==> !ClosesCycle(rows, m)
  {
    ReadableIffNoCycles(rows);
    ReadableIffNoCycles(rows + [m]);
    if m.parent.Some? && Lookup(rows, m.parent.value).Some? {
      PostAddsRecord(rows, m, m.parent.value);
      PostInThread(rows, m, m.parent.value);
    } else {
      PostAddsRecord(rows, m, m.id);
      NoneAdded(Calls(rows), Calls(rows + [m]), m.id);
    }
  }

  /** Two posts are enough to fail it: a root, and a reply in its thread that replies to the root itself. */
  lemma TwoPostsSuffice(root: Message, m: Message)
    requires root.parent == None && root.replyTo == None && root.id != "" && m.id != root.id
    requires m.parent == Some(root.id) && m.replyTo == Some(root.id)
    ensures IsFresh([], root) && Readable([root])
    ensures IsFresh([root], m) && !Readable([root] + [m])
  {
    assert [root][..0] == [];
    CheckedPostsReadable([root]);
    assert IsPath(Calls([root]), [root.id]);
    PostKeepsReadableIff([root], m);
  }

  /** So every store built by posts that pass this check is readable, whatever else is posted. */
  lemma {:induction false} CheckedPostsReadable(posts: seq<Message>)
    requires forall n :: 0 <= n < |posts| ==> IsFresh(posts[..n], posts[n]) && !ClosesCycle(posts[..n], posts[n])
    ensures Readable(posts)
  {
    if posts != [] {
      var front, last := posts[..|posts| - 1], posts[|posts| - 1];
      assert posts[..|posts| - 1] == front && posts == front + [last];
      forall n | 0 <= n < |front| ensures IsFresh(front[..n], front[n]) && !ClosesCycle(front[..n], front[n]) {
        assert front[..n] == posts[..n];
      }
      CheckedPostsReadable(front);
      PostKeepsReadableIff(front, last);
    }
  }

  lemma PostAddsRecord(rows: Rows, m: Message, a: string)
    requires IsFresh(rows, m) && (m.parent == Some(a) || m.parent.None? || Lookup(rows, m.parent.value).None?)
    ensures AddsRecord(Calls(rows), Calls(rows + [m]), m.id, a)
  {
    NothingCallsFresh(rows, m, m.id);
    assert Calls(rows)(m.id) == [];
    forall x ensures m.id !in Calls(rows + [m])(x) {
      NothingCallsFresh(rows, m, x);
    }
    forall x | x != m.id && x != a ensures SameCalls(Calls(rows), Calls(rows + [m]), x) {
      if m.parent == Some(x) {
        InsertKeepsLookup(rows, m, x);
      } else {
        PostKeepsCalls(rows, m, x);
      }
    }
  }

  lemma PostInThread(rows: Rows, m: Message, root: string)
    requires NoCycles(Calls(rows)) && IsFresh(rows, m) && m.parent == Some(root) && Lookup(rows, root).Some?
    requires AddsRecord(Calls(rows), Calls(rows + [m]), m.id, root)
    ensures NoCycles(Calls(rows + [m])) <==> !(ReplyId(m).Some? && Leads(Calls(rows), ReplyId(m).value, root))
  {
    var next, after := Calls(rows), Calls(rows + [m]);
    forall r ensures r in after(root) <==> r in next(root) || ReplyId(m) == Some(r) {
      RootCalls(rows, m, root, r);
    }
    if ReplyId(m).Some? {
      PointerKeepsAcyclicIff(next, after, m.id, root, ReplyId(m).value);
    } else {
      assert SameCalls(next, after, root);
      NoneAdded(next, after, m.id);
    }
  }

  /** A thread reply that replies to its own thread's root makes the root unreadable, whatever the limit. */
  lemma ReplyToOwnRootNeverReturns(rows: Rows, root: string, m: Message, limit: nat)
    requires Lookup(rows, root).Some? && m in rows
    requires m.parent == Some(root) && ReplyId(m) == Some(root)
    ensures Expand(rows, root, limit).None?
  {
    var e := Scored(m.createdAt as real, m);
    RepliesAreRows(rows, root, e);
    SortKeepsMembers(RepliesOf(rows, root), e);
    ReplyIdsComeFrom(Thread(rows, root), root);
    assert root in Calls(rows)(root);
    assert CycleOn(Calls(rows), root, [root, root], 0, 1);
    CycleNeverCompletes(Calls(rows), root, limit);
    ReturnsWhenPointersEnd(rows, root, limit);
  }

  // ----- paging through a thread ---------------------------------------------------------------------

  function ChannelThread(rows: Rows, channel: string, id: string): seq<Scored<Message>> {
    SortDescending(InChannel(RepliesOf(rows, id), channel))
  }

  function InChannel(thread: seq<Scored<Message>>, channel: string): seq<Scored<Message>> {
    if thread == [] then []
    else
      var last := thread[|thread| - 1];
      InChannel(thread[..|thread| - 1], channel) + if last.item.channel == channel then [last] else []
  }

  lemma {:induction false} InChannelKeeps(thread: seq<Scored<Message>>, channel: string, e: Scored<Message>)
    ensures e in InChannel(thread, channel) <==> e in thread && e.item.channel == channel
  {
    if thread != [] {
      InChannelKeeps(thread[..|thread| - 1], channel, e);
      assert e in thread <==> e in thread[..|thread| - 1] || e == thread[|thread| - 1];
    }
  }

  lemma InChannelSnoc(thread: seq<Scored<Message>>, channel: string, e: Scored<Message>)
    ensures InChannel(thread + [e], channel) ==
      InChannel(thread, channel) + if e.item.channel == channel then [e] else []
  {
    assert (thread + [e])[..|thread|] == thread;
  }

  ghost function ChannelPositions(rows: Rows, channel: string, id: string): set<nat> {
    set i: nat | i < |rows| && rows[i].parent == Some(id) && rows[i].channel == channel
  }

  lemma {:induction false} InChannelCounted(rows: Rows, channel: string, id: string)
    ensures |InChannel(RepliesOf(rows, id), channel)| == |ChannelPositions(rows, channel, id)|
  {
    if rows != [] {
      var n := |rows| - 1;
      InChannelCounted(rows[..n], channel, id);
      InChannelSnoc(RepliesOf(rows[..n], id), channel, Scored(rows[n].createdAt as real, rows[n]));
      assert RepliesOf(rows[..n], id) + [] == RepliesOf(rows[..n], id);
      assert ChannelPositions(rows, channel, id) == ChannelPositions(rows[..n], channel, id) +
        if rows[n].parent == Some(id) && rows[n].channel == channel then {n} else {};
    } else {
      assert ChannelPositions(rows, channel, id) == {};
    }
  }

  /** A channel's thread holds each row of the channel with that parent, as often as it is there, newest first. */
  lemma ChannelThreadIs(rows: Rows, channel: string, id: string, m: Message)
    ensures var thread := ChannelThread(rows, channel, id);
      && (Scored(m.createdAt as real, m) in thread <==> m in rows && m.parent == Some(id) && m.channel == channel)
      && |thread| == |ChannelPositions(rows, channel, id)|
      && (forall i, j :: 0 <= i < j < |thread| ==> thread[i].score >= thread[j].score)
      && (forall e :: e in thread ==> e.score == e.item.createdAt as real)
  {
    var listed := InChannel(RepliesOf(rows, id), channel);
    var thread := ChannelThread(rows, channel, id);
    var e := Scored(m.createdAt as real, m);
    InChannelKeeps(RepliesOf(rows, id), channel, e);
    RepliesAreRows(rows, id, e);
    SortKeepsMembers(listed, e);
    InChannelCounted(rows, channel, id);
    var p := SortIsStable(listed);
    forall i, j | 0 <= i < j < |thread| ensures thread[i].score >= thread[j].score {
      assert listed[p[i]].score >= listed[p[j]].score;
    }
    forall f | f in thread ensures f.score == f.item.createdAt as real {
      SortKeepsMembers(listed, f);
      InChannelKeeps(RepliesOf(rows, id), channel, f);
      RepliesAreRows(rows, id, f);
    }
  }

  function Cut<T>(s: seq<T>, skip: nat, limit: nat): seq<T> {
    s[Min(skip, |s|)..Min(skip + limit, |s|)]
  }

  /** One page; a page shorter than the limit ends with the thread's root. */
  function Page(thread: seq<Scored<Message>>, root: Message, skip: nat, limit: nat): seq<Scored<Message>> {
    var cut := Cut(thread, skip, limit);
    if |cut| < limit then cut + [Scored(root.createdAt as real, root)] else cut
  }

  method GetMessagesByParentId(rows: Rows, channel: string, id: string, skip: nat, limit: nat, frames: nat)
    returns (r: Option<seq<Reply>>)
    ensures r == match Lookup(rows, id)
      case None => Some([])
      case Some(root) => ExpandAll(rows, Page(ChannelThread(rows, channel, id), root, skip, limit), frames)
    ensures Lookup(rows, id).Some? && r.Some? ==>
      AreReplies(rows, Page(ChannelThread(rows, channel, id), Lookup(rows, id).value, skip, limit), r.value)
  {
    var message := Lookup(rows, id);
    if message.None? {
      return Some([]);
    }
    var all := Cut(ChannelThread(rows, channel, id), skip, limit);
    if |all| < limit {
      all := all + [Scored(message.value.createdAt as real, message.value)];
    }
    r := GetThreadReplies(rows, all, frames);
  }

  function PagesFrom(thread: seq<Scored<Message>>, root: Message, skip: nat, limit: nat): seq<Scored<Message>>
    requires limit > 0
    decreases |thread| - skip
  {
    var page := Page(thread, root, skip, limit);
    if |Cut(thread, skip, limit)| < limit then page else page + PagesFrom(thread, root, skip + limit, limit)
  }

  /** Reading on until the first short page gives the thread, newest first, and its root once, at the end. */
  lemma {:induction false} PagesCoverThread(thread: seq<Scored<Message>>, root: Message, skip: nat, limit: nat)
    requires limit > 0 && skip <= |thread|
    ensures PagesFrom(thread, root, skip, limit) == thread[skip..] + [Scored(root.createdAt as real, root)]
    decreases |thread| - skip
  {
    if skip + limit <= |thread| {
      PagesCoverThread(thread, root, skip + limit, limit);
      assert thread[skip..] == thread[skip..skip + limit] + thread[skip + limit..];
    }
  }
}
