/** Requests of the Rust server running at the same time: every thread moves at its own pace, and the lock decides. */
module Linearizable {
  import opened Wrappers
  import opened Commands
  import opened Controller

  /** Where the thread of a request is. */
  datatype Phase =
    | Called                                     // the line has arrived
    | Wanting                                    // it has parsed, and `db.lock()` is next
    | Locked
    | Looked(found: Option<string>)              // with the lock: the key has been looked up
    | Changed(reply: Reply)                      // with the lock: the map has been changed, the reply made
    | Replying(reply: Reply)                     // the lock has been dropped
    | Answered(reply: Reply)

  datatype Call = Call(line: string, phase: Phase)

  /** What can be seen from outside. */
  datatype Event = Invoked(id: nat) | Responded(id: nat, reply: Reply)

  datatype State = State(
    db: map<string, string>,
    holder: Option<nat>,
    calls: map<nat, Call>,
    order: seq<nat>,            // the requests in the order in which they took the lock
    history: seq<Event>
  )

  const START := State(map[], None, map[], [], [])

  datatype Move = Arrive(id: nat, line: string) | Advance(id: nat)

  function Parses(line: string): bool {
    FromStr(line).Ok?
  }

  function At(s: State, i: nat, phase: Phase): State
    requires i in s.calls
  {
    s.(calls := s.calls[i := s.calls[i].(phase := phase)])
  }

  /** The next step of the thread of request `i`; a thread that waits for the lock, or is done, stays as it is. */
  function Step(s: State, i: nat): State
    requires i in s.calls && (s.calls[i].phase.Wanting? || s.calls[i].phase.Locked? || s.calls[i].phase.Looked? ==> Parses(s.calls[i].line))
  {
    var line := s.calls[i].line;
    match s.calls[i].phase
    case Called =>
      (match FromStr(line)
       case Ok(_) => At(s, i, Wanting)
       case Err(e) => At(s, i, Replying(Rejected(e))))
    case Wanting =>
      if s.holder.Some? then s else At(s, i, Locked).(holder := Some(i), order := s.order + [i])
    case Locked =>
      var key := FromStr(line).value.key;
      At(s, i, Looked(if key in s.db then Some(s.db[key]) else None))
    case Looked(found) =>
      (match FromStr(line).value
       case GET(key) => At(s, i, Changed(if found.Some? then Value(found.value) else NoValue(key)))
       case SET(key, value) => At(s, i, Changed(Stored)).(db := s.db[key := value])
       case DELETE(key) =>
         if found.Some? then At(s, i, Changed(Removed(key))).(db := s.db - {key}) else At(s, i, Changed(NoValue(key))))
    case Changed(r) => At(s, i, Replying(r)).(holder := None)
    case Replying(r) => At(s, i, Answered(r)).(history := s.history + [Responded(i, r)])
    case Answered(_) => s
  }

  ghost predicate LinesParse(s: State) {
    forall i :: i in s.calls ==> (s.calls[i].phase.Wanting? || Entered(s.calls[i]) ==> Parses(s.calls[i].line))
  }

  /** The request has taken the lock. */
  ghost predicate Entered(c: Call) {
    InSection(c) || ((c.phase.Replying? || c.phase.Answered?) && Parses(c.line))
  }

  ghost predicate InSection(c: Call) {
    c.phase.Locked? || c.phase.Looked? || c.phase.Changed?
  }

  /** Any schedule: a request can arrive, and any thread can move, at any time. */
  ghost function Do(s: State, m: Move): State
    requires LinesParse(s)
  {
    match m
    case Arrive(i, line) =>
      if i in s.calls then s else s.(calls := s.calls[i := Call(line, Called)], history := s.history + [Invoked(i)])
    case Advance(i) => if i in s.calls then Step(s, i) else s
  }

  // ---- What holds at every moment

  ghost function Cmd(s: State, i: nat): Command
    requires i in s.calls && Parses(s.calls[i].line)
  {
    FromStr(s.calls[i].line).value
  }

  /** Every request in the order is one, has taken the lock, and stands there once; and so are all that have. */
  ghost predicate OrderOk(s: State) {
    && (forall p :: 0 <= p < |s.order| ==> s.order[p] in s.calls && Entered(s.calls[s.order[p]]))
    && (forall i :: i in s.calls && Entered(s.calls[i]) ==> i in s.order)
    && (forall p, q :: 0 <= p < q < |s.order| ==> s.order[p] != s.order[q])
  }

  /** The commands in the order in which they took the lock. */
  ghost function Cmds(s: State): seq<Command>
    requires LinesParse(s) && OrderOk(s)
  {
    seq(|s.order|, p requires 0 <= p < |s.order| => Cmd(s, s.order[p]))
  }

  /** Mutual exclusion: exactly the holder is in the critical section, and it came in last. */
  ghost predicate LockOk(s: State) {
    && (forall i :: i in s.calls ==> (InSection(s.calls[i]) <==> s.holder == Some(i)))
    && (s.holder.Some? ==> s.holder.value in s.calls && s.order != [] && s.order[|s.order| - 1] == s.holder.value)
  }

  /** The commands whose effect is in the map: all, but for that of a holder that has not got there. */
  ghost predicate DbOk(s: State)
    requires LinesParse(s) && OrderOk(s) && LockOk(s)
  {
    s.db == Run(if Pending(s) then Cmds(s)[..|s.order| - 1] else Cmds(s))
  }

  ghost predicate Pending(s: State)
    requires LockOk(s)
  {
    s.holder.Some? && !s.calls[s.holder.value].phase.Changed?
  }

  function Lookup(db: map<string, string>, key: string): Option<string> {
    if key in db then Some(db[key]) else None
  }

  /** What the holder has seen is still so. */
  ghost predicate FoundOk(s: State)
    requires LinesParse(s) && OrderOk(s) && LockOk(s)
  {
    s.holder.Some? && s.calls[s.holder.value].phase.Looked? ==>
      s.calls[s.holder.value].phase.found == Lookup(s.db, Cmd(s, s.holder.value).key)
  }

  ghost predicate HasReply(ph: Phase) {
    ph.Changed? || ph.Replying? || ph.Answered?
  }

  /** Every reply is that of the sequential run. */
  ghost predicate ReplyOk(s: State)
    requires LinesParse(s) && OrderOk(s)
  {
    forall p :: 0 <= p < |s.order| && HasReply(s.calls[s.order[p]].phase) ==>
      s.calls[s.order[p]].phase.reply == ReplyAt(Cmds(s), p)
  }

  ghost predicate RejectOk(s: State) {
    forall i :: i in s.calls && HasReply(s.calls[i].phase) && FromStr(s.calls[i].line).Err? ==>
      s.calls[i].phase.reply == Rejected(FromStr(s.calls[i].line).error)
  }

  ghost predicate Before(order: seq<nat>, i: nat, j: nat) {
    forall p, q :: 0 <= p < |order| && 0 <= q < |order| && order[p] == i && order[q] == j ==> p < q
  }

  /** The history tells of the calls. */
  ghost predicate HistoryOk(s: State) {
    && (forall i :: Invoked(i) in s.history <==> i in s.calls)
    && (forall i, r :: Responded(i, r) in s.history <==> i in s.calls && s.calls[i].phase == Answered(r))
  }

  /** A request that was answered before another one arrived took the lock before it. */
  ghost predicate RealTime(s: State) {
    forall a, b :: 0 <= a < b < |s.history| && s.history[a].Responded? && s.history[b].Invoked? ==>
      Before(s.order, s.history[a].id, s.history[b].id)
  }

  ghost predicate Inv(s: State) {
    && LinesParse(s) && OrderOk(s) && LockOk(s)
    && DbOk(s) && FoundOk(s) && ReplyOk(s) && RejectOk(s)
    && HistoryOk(s) && RealTime(s)
  }

  // ---- Each step keeps it

  /** Only the thread of `i` has moved, and it has not come into the order. */
  ghost predicate Moved(s: State, s': State, i: nat) {
    && s'.order == s.order && OnlyCall(s, s', i)
    && Entered(s'.calls[i]) == Entered(s.calls[i])
    && (s'.calls[i].phase.Wanting? ==> Parses(s.calls[i].line))
  }

  ghost predicate OnlyCall(s: State, s': State, i: nat) {
    && i in s.calls && s'.calls.Keys == s.calls.Keys
    && s'.calls[i].line == s.calls[i].line
    && (forall j :: j in s.calls && j != i ==> s'.calls[j] == s.calls[j])
  }

  lemma OrderKept(s: State, s': State, i: nat)
    requires LinesParse(s) && OrderOk(s) && Moved(s, s', i)
    ensures LinesParse(s') && OrderOk(s') && Cmds(s') == Cmds(s)
  {
    hide FromStr;
  }

  lemma LockKept(s: State, s': State, i: nat)
    requires LockOk(s) && Moved(s, s', i)
    requires s'.holder == s.holder && InSection(s'.calls[i]) == InSection(s.calls[i])
    ensures LockOk(s')
  {
    hide FromStr;
  }

  lemma ReplyKept(s: State, s': State, i: nat)
    requires LinesParse(s) && OrderOk(s) && ReplyOk(s) && Moved(s, s', i)
    requires LinesParse(s') && OrderOk(s') && Cmds(s') == Cmds(s)
    requires forall p :: 0 <= p < |s.order| && s.order[p] == i && HasReply(s'.calls[i].phase) ==>
      s'.calls[i].phase.reply == ReplyAt(Cmds(s), p)
    ensures ReplyOk(s')
  {
    hide FromStr, Cmds, ReplyAt;
  }

  lemma RejectKept(s: State, s': State, i: nat)
    requires RejectOk(s) && OnlyCall(s, s', i)
    requires HasReply(s'.calls[i].phase) && FromStr(s.calls[i].line).Err? ==>
      s'.calls[i].phase.reply == Rejected(FromStr(s.calls[i].line).error)
    ensures RejectOk(s')
  {
    hide FromStr;
  }

  /** The thread is not done, and nothing can be seen from outside. */
  lemma HistoryKept(s: State, s': State, i: nat)
    requires HistoryOk(s) && RealTime(s) && Moved(s, s', i) && s'.history == s.history
    requires !s.calls[i].phase.Answered? && !s'.calls[i].phase.Answered?
    ensures HistoryOk(s') && RealTime(s')
  {
    hide FromStr, Before;
  }

  /** A step outside the section, or one that only looks. */
  ghost predicate Quiet(s: State, s': State, i: nat)
    requires LinesParse(s)
  {
    && Moved(s, s', i) && s'.db == s.db && s'.holder == s.holder && s'.history == s.history
    && !HasReply(s.calls[i].phase) && InSection(s'.calls[i]) == InSection(s.calls[i])
    && match s'.calls[i].phase
       case Replying(r) => FromStr(s.calls[i].line).Err? && r == Rejected(FromStr(s.calls[i].line).error)
       case Looked(found) => Parses(s.calls[i].line) && found == Lookup(s.db, Cmd(s, i).key)
       case Wanting => true
       case _ => false
  }

  lemma DbKept(s: State, s': State, i: nat)
    requires LinesParse(s) && OrderOk(s) && LockOk(s) && DbOk(s) && FoundOk(s) && Quiet(s, s', i)
    requires LinesParse(s') && OrderOk(s') && LockOk(s') && Cmds(s') == Cmds(s)
    ensures DbOk(s') && FoundOk(s')
  {
    hide FromStr, Cmds, Run, OrderOk, Entered;
  }

  lemma QuietMeans(s: State, s': State, i: nat)
    requires LinesParse(s) && Quiet(s, s', i)
    ensures Moved(s, s', i) && s'.holder == s.holder && s'.history == s.history
    ensures InSection(s'.calls[i]) == InSection(s.calls[i])
    ensures !s.calls[i].phase.Answered? && !s'.calls[i].phase.Answered?
    ensures HasReply(s'.calls[i].phase) ==> !Entered(s.calls[i])
    ensures HasReply(s'.calls[i].phase) && FromStr(s.calls[i].line).Err? ==>
      s'.calls[i].phase.reply == Rejected(FromStr(s.calls[i].line).error)
  {
    hide FromStr;
  }

  lemma NotInOrder(s: State, i: nat)
    requires OrderOk(s) && i in s.calls && !Entered(s.calls[i])
    ensures forall p :: 0 <= p < |s.order| ==> s.order[p] != i
  {
  }

  lemma QuietKeeps(s: State, s': State, i: nat)
    requires Inv(s) && Quiet(s, s', i)
    ensures Inv(s')
  {
    QuietMeans(s, s', i);
    if HasReply(s'.calls[i].phase) { NotInOrder(s, i); }
    hide OrderOk, LockOk, DbOk, FoundOk, ReplyOk, RejectOk, HistoryOk, RealTime, LinesParse, Cmds, FromStr, ReplyAt, Moved, Quiet, Entered;
    OrderKept(s, s', i);
    LockKept(s, s', i);
    DbKept(s, s', i);
    ReplyKept(s, s', i);
    RejectKept(s, s', i);
    HistoryKept(s, s', i);
  }

  lemma Parse(s: State, i: nat)
    requires Inv(s) && i in s.calls && s.calls[i].phase.Called?
    ensures Inv(Step(s, i))
  {
    hide FromStr, Inv;
    QuietKeeps(s, Step(s, i), i);
  }

  lemma Look(s: State, i: nat)
    requires Inv(s) && i in s.calls && s.calls[i].phase.Locked?
    ensures Inv(Step(s, i))
  {
    hide FromStr, OrderOk, LockOk, DbOk, FoundOk, ReplyOk, RejectOk, HistoryOk, RealTime;
    QuietKeeps(s, Step(s, i), i);
  }

  /** The holder stands last in the order, and nowhere else. */
  lemma HolderLast(s: State, i: nat)
    requires LinesParse(s) && OrderOk(s) && LockOk(s) && i in s.calls && InSection(s.calls[i])
    ensures s.holder == Some(i) && s.order != [] && s.order[|s.order| - 1] == i
    ensures forall p :: 0 <= p < |s.order| && s.order[p] == i ==> p == |s.order| - 1
    ensures Cmds(s)[|s.order| - 1] == Cmd(s, i)
    ensures Run(Cmds(s)) == Apply(Run(Cmds(s)[..|s.order| - 1]), Cmd(s, i)).0
    ensures ReplyAt(Cmds(s), |s.order| - 1) == Apply(Run(Cmds(s)[..|s.order| - 1]), Cmd(s, i)).1
  {
    hide FromStr, Run, Apply;
    var n := |s.order| - 1;
    assert Cmds(s) == Cmds(s)[..n] + [Cmds(s)[n]];
    RunNext(Cmds(s)[..n], Cmds(s)[n]);
  }

  /** What the holder does to the map, having looked, is what its command does. */
  lemma ChangeIsApply(s: State, i: nat)
    requires LinesParse(s) && i in s.calls && s.calls[i].phase.Looked?
    requires s.calls[i].phase.found == Lookup(s.db, Cmd(s, i).key)
    ensures var s', (db, reply) := Step(s, i), Apply(s.db, Cmd(s, i));
      s' == At(s, i, Changed(reply)).(db := db)
  {
    hide FromStr;
  }

  lemma Change(s: State, i: nat)
    requires Inv(s) && i in s.calls && s.calls[i].phase.Looked?
    ensures Inv(Step(s, i))
  {
    var s' := Step(s, i);
    HolderLast(s, i);
    ChangeIsApply(s, i);
    assert Moved(s, s', i);
    hide FromStr, OrderOk, ReplyOk, RejectOk, HistoryOk, RealTime, Step, Apply, Run, ReplyAt, Cmds, Cmd, Lookup, Moved;
    OrderKept(s, s', i);
    LockKept(s, s', i);
    ReplyKept(s, s', i);
    RejectKept(s, s', i);
    HistoryKept(s, s', i);
  }

  lemma ReleaseUnlocks(s: State, i: nat)
    requires LinesParse(s) && OrderOk(s) && LockOk(s) && i in s.calls && s.calls[i].phase.Changed?
    ensures var s' := Step(s, i); Moved(s, s', i) && LockOk(s') && !Pending(s) && s'.holder == None
  {
    hide FromStr;
  }

  lemma Release(s: State, i: nat)
    requires Inv(s) && i in s.calls && s.calls[i].phase.Changed?
    ensures Inv(Step(s, i))
  {
    var s' := Step(s, i);
    HolderLast(s, i);
    ReleaseUnlocks(s, i);
    ReplyOf(s, i);
    hide FromStr, OrderOk, LockOk, Moved, ReplyOk, RejectOk, HistoryOk, RealTime, Apply, Run, ReplyAt, Cmds, Cmd, Lookup, Entered;
    OrderKept(s, s', i);
    ReplyKept(s, s', i);
    RejectKept(s, s', i);
    HistoryKept(s, s', i);
  }

  lemma {:induction false} Told(s: State, s': State, i: nat, r: Reply)
    requires HistoryOk(s) && RealTime(s) && OnlyCall(s, s', i) && s'.order == s.order
    requires s.calls[i].phase == Replying(r) && s'.calls[i].phase == Answered(r)
    requires s'.history == s.history + [Responded(i, r)]
    ensures HistoryOk(s') && RealTime(s')
  {
    hide Before;
    assert forall e :: e in s'.history <==> e in s.history || e == Responded(i, r);
  }

  lemma ReplyOf(s: State, i: nat)
    requires LinesParse(s) && OrderOk(s) && ReplyOk(s) && RejectOk(s) && i in s.calls && HasReply(s.calls[i].phase)
    ensures forall p :: 0 <= p < |s.order| && s.order[p] == i ==> s.calls[i].phase.reply == ReplyAt(Cmds(s), p)
    ensures FromStr(s.calls[i].line).Err? ==> s.calls[i].phase.reply == Rejected(FromStr(s.calls[i].line).error)
  {
    hide FromStr, ReplyAt, Cmds;
  }

  lemma RespondTells(s: State, i: nat)
    requires LinesParse(s) && OrderOk(s) && LockOk(s) && i in s.calls && s.calls[i].phase.Replying?
    ensures var s', r := Step(s, i), s.calls[i].phase.reply;
      && Moved(s, s', i) && s'.calls[i].phase == Answered(r) && s'.history == s.history + [Responded(i, r)]
      && s'.db == s.db && s'.holder == s.holder && s.holder != Some(i)
      && InSection(s'.calls[i]) == InSection(s.calls[i])
  {
    hide FromStr;
  }

  lemma Respond(s: State, i: nat)
    requires Inv(s) && i in s.calls && s.calls[i].phase.Replying?
    ensures Inv(Step(s, i))
  {
    var s' := Step(s, i);
    RespondTells(s, i);
    ReplyOf(s, i);
    hide Step, FromStr, OrderOk, LockOk, ReplyOk, RejectOk, HistoryOk, RealTime, Apply, Run, ReplyAt, Cmds, Cmd, Lookup, Entered, InSection;
    Told(s, s', i, s.calls[i].phase.reply);
    OrderKept(s, s', i);
    LockKept(s, s', i);
    ReplyKept(s, s', i);
    RejectKept(s, s', i);
  }

  lemma AcquireOrder(s: State, i: nat)
    requires LinesParse(s) && OrderOk(s) && LockOk(s) && i in s.calls && s.calls[i].phase.Wanting? && s.holder == None
    ensures var s' := Step(s, i);
      && OnlyCall(s, s', i) && s'.order == s.order + [i] && s'.holder == Some(i) && s'.calls[i].phase == Locked
      && s'.db == s.db && s'.history == s.history
      && LinesParse(s') && OrderOk(s') && LockOk(s') && Cmds(s') == Cmds(s) + [Cmd(s, i)]
  {
    hide FromStr;
  }

  lemma AcquireReplies(s: State, s': State, i: nat)
    requires LinesParse(s) && OrderOk(s) && ReplyOk(s) && LinesParse(s') && OrderOk(s') && OnlyCall(s, s', i)
    requires !HasReply(s'.calls[i].phase) && s'.order == s.order + [i] && |Cmds(s')| == |s'.order|
    requires forall p :: 0 <= p < |s.order| ==> s.order[p] != i && ReplyAt(Cmds(s'), p) == ReplyAt(Cmds(s), p)
    ensures ReplyOk(s')
  {
    hide FromStr, Cmds, ReplyAt;
  }

  lemma AcquireDb(s: State, s': State, i: nat)
    requires LinesParse(s) && OrderOk(s) && LockOk(s) && LinesParse(s') && OrderOk(s') && LockOk(s')
    requires s.holder == None && DbOk(s) && s'.db == s.db && s'.holder == Some(i) && s'.calls[i].phase == Locked
    requires i in s.calls && Parses(s.calls[i].line)
    requires |Cmds(s)| == |s.order| && |s'.order| == |s.order| + 1 && Cmds(s') == Cmds(s) + [Cmd(s, i)]
    ensures DbOk(s') && FoundOk(s')
  {
    hide FromStr, Cmds, Cmd, Run, OrderOk, LinesParse;
    assert Cmds(s')[..|s.order|] == Cmds(s);
  }

  lemma AcquireHistory(s: State, s': State, i: nat)
    requires HistoryOk(s) && RealTime(s) && OnlyCall(s, s', i) && s'.history == s.history && s'.order == s.order + [i]
    requires !s.calls[i].phase.Answered? && !s'.calls[i].phase.Answered?
    ensures HistoryOk(s') && RealTime(s')
  {
    forall a, b | 0 <= a < b < |s.history| && s.history[a].Responded? && s.history[b].Invoked?
      ensures Before(s'.order, s.history[a].id, s.history[b].id)
    {
      assert s.history[a] in s.history && s.history[a] == Responded(s.history[a].id, s.history[a].reply);
      assert Before(s.order, s.history[a].id, s.history[b].id);
    }
  }

  lemma Acquired(s: State, i: nat)
    requires Inv(s) && i in s.calls && s.calls[i].phase.Wanting? && s.holder == None
    ensures Inv(Step(s, i))
  {
    var s' := Step(s, i);
    AcquireOrder(s, i);
    NotInOrder(s, i);
    RunNext(Cmds(s), Cmd(s, i));
    hide FromStr, OrderOk, LockOk, DbOk, FoundOk, ReplyOk, RejectOk, HistoryOk, RealTime, Step, Apply, Run, ReplyAt, Cmds, Cmd,
      LinesParse, OnlyCall, Entered, Before;
    AcquireDb(s, s', i);
    AcquireReplies(s, s', i);
    RejectKept(s, s', i);
    AcquireHistory(s, s', i);
  }

  lemma Acquire(s: State, i: nat)
    requires Inv(s) && i in s.calls && s.calls[i].phase.Wanting?
    ensures Inv(Step(s, i))
  {
    if s.holder == None {
      Acquired(s, i);
    } else {
      Waits(s, i);
    }
  }

  /** While another thread holds the lock, one that wants it does not move. */
  lemma Waits(s: State, i: nat)
    requires LinesParse(s) && i in s.calls && s.calls[i].phase.Wanting? && s.holder.Some?
    ensures Step(s, i) == s
  {
  }

  /** A new request. */
  ghost predicate Arrived(s: State, s': State, i: nat) {
    && i !in s.calls && s'.calls.Keys == s.calls.Keys + {i} && s'.calls[i].phase == Called
    && (forall j :: j in s.calls ==> s'.calls[j] == s.calls[j])
    && s'.db == s.db && s'.holder == s.holder && s'.order == s.order && s'.history == s.history + [Invoked(i)]
  }

  lemma ArrivedOrder(s: State, s': State, i: nat)
    requires LinesParse(s) && OrderOk(s) && LockOk(s) && Arrived(s, s', i)
    ensures LinesParse(s') && OrderOk(s') && LockOk(s') && Cmds(s') == Cmds(s)
  {
    hide FromStr;
  }

  lemma ArrivedReplies(s: State, s': State, i: nat)
    requires LinesParse(s) && OrderOk(s) && LockOk(s) && DbOk(s) && FoundOk(s) && ReplyOk(s) && RejectOk(s) && Arrived(s, s', i)
    requires LinesParse(s') && OrderOk(s') && LockOk(s') && Cmds(s') == Cmds(s)
    ensures DbOk(s') && FoundOk(s') && ReplyOk(s') && RejectOk(s')
  {
    hide FromStr, Cmds, Run, ReplyAt;
  }

  lemma ArrivedHistory(s: State, s': State, i: nat)
    requires OrderOk(s) && HistoryOk(s) && RealTime(s) && Arrived(s, s', i)
    ensures HistoryOk(s') && RealTime(s')
  {
    assert forall e :: e in s'.history <==> e in s.history || e == Invoked(i);
    assert forall j :: Before(s.order, j, i);
    hide Before, OrderOk;
  }

  lemma ArriveKeeps(s: State, i: nat, line: string)
    requires Inv(s)
    ensures Inv(Do(s, Arrive(i, line)))
  {
    if i !in s.calls {
      var s' := Do(s, Arrive(i, line));
      assert Arrived(s, s', i);
      hide FromStr, OrderOk, LockOk, DbOk, FoundOk, ReplyOk, RejectOk, HistoryOk, RealTime, LinesParse, Do, Arrived;
      ArrivedOrder(s, s', i);
      ArrivedReplies(s, s', i);
      ArrivedHistory(s, s', i);
    }
  }

  /** Whichever thread moves, or arrives, the invariant is kept. */
  lemma DoKeeps(s: State, m: Move)
    requires Inv(s)
    ensures Inv(Do(s, m))
  {
    hide Inv, Step;
    match m {
      case Arrive(i, line) => ArriveKeeps(s, i, line);
      case Advance(i) =>
        if i in s.calls {
          match s.calls[i].phase {
            case Called => Parse(s, i);
            case Wanting => Acquire(s, i);
            case Locked => Look(s, i);
            case Looked(_) => Change(s, i);
            case Changed(_) => Release(s, i);
            case Replying(_) => Respond(s, i);
            case Answered(_) => Done(s, i);
          }
        }
    }
  }

  lemma Done(s: State, i: nat)
    requires Inv(s) && i in s.calls && s.calls[i].phase.Answered?
    ensures Step(s, i) == s
  {
  }

  // ---- Every run

  /** The state after the moves of a schedule. */
  ghost function Play(moves: seq<Move>): (s: State)
    ensures Inv(s)
  {
    if moves == [] then StartInv(); START
    else
      DoKeeps(Play(moves[..|moves| - 1]), moves[|moves| - 1]);
      Do(Play(moves[..|moves| - 1]), moves[|moves| - 1])
  }

  lemma StartInv()
    ensures Inv(START)
  {
  }

  ghost predicate Commandable(order: seq<nat>, lines: map<nat, string>) {
    forall p :: 0 <= p < |order| ==> order[p] in lines && Parses(lines[order[p]])
  }

  ghost function CommandsOf(order: seq<nat>, lines: map<nat, string>): seq<Command>
    requires Commandable(order, lines)
  {
    seq(|order|, p requires 0 <= p < |order| => FromStr(lines[order[p]]).value)
  }

  /** The answer to a line: that of the sequential run of the order at the place of its request, or its error. */
  ghost predicate Justified(i: nat, reply: Reply, order: seq<nat>, lines: map<nat, string>)
    requires Commandable(order, lines)
  {
    i in lines &&
    match FromStr(lines[i])
    case Ok(_) => exists p :: 0 <= p < |order| && order[p] == i && reply == ReplyAt(CommandsOf(order, lines), p)
    case Err(e) => i !in order && reply == Rejected(e)
  }

  /** The order explains the history: it has every request at most once, justifies every answer, and respects real time. */
  ghost predicate Explains(order: seq<nat>, lines: map<nat, string>, history: seq<Event>) {
    && (forall p, q :: 0 <= p < q < |order| ==> order[p] != order[q])
    && Commandable(order, lines)
    && (forall i, r :: Responded(i, r) in history ==> Justified(i, r, order, lines))
    && (forall a, b :: 0 <= a < b < |history| && history[a].Responded? && history[b].Invoked? ==>
         Before(order, history[a].id, history[b].id))
  }

  ghost function Lines(s: State): map<nat, string> {
    map i | i in s.calls :: s.calls[i].line
  }

  lemma CmdsAreOf(s: State)
    requires LinesParse(s) && OrderOk(s)
    ensures Commandable(s.order, Lines(s)) && CommandsOf(s.order, Lines(s)) == Cmds(s)
  {
    hide FromStr;
  }

  lemma AnswerJustified(s: State, i: nat, r: Reply)
    requires LinesParse(s) && OrderOk(s) && ReplyOk(s) && RejectOk(s) && HistoryOk(s) && Responded(i, r) in s.history
    requires Commandable(s.order, Lines(s)) && CommandsOf(s.order, Lines(s)) == Cmds(s)
    ensures Justified(i, r, s.order, Lines(s))
  {
    hide FromStr, ReplyAt, Cmds;
    assert s.calls[i].phase == Answered(r);
    if FromStr(s.calls[i].line).Ok? {
      assert Entered(s.calls[i]);
      var p :| 0 <= p < |s.order| && s.order[p] == i;
      assert r == ReplyAt(Cmds(s), p);
    } else {
      NotInOrder(s, i);
    }
  }

  /** Linearizability: after every schedule, the order in which the requests took the lock explains all that was seen,
      and as soon as nobody holds the lock the map is the one that the commands, run one at a time in that order, leave. */
  lemma Linearizability(moves: seq<Move>)
    ensures var s := Play(moves);
      && Explains(s.order, Lines(s), s.history)
      && (s.holder == None ==> s.db == Run(CommandsOf(s.order, Lines(s))))
  {
    var s := Play(moves);
    hide Play;
    CmdsAreOf(s);
    hide OrderOk, ReplyOk, RejectOk, HistoryOk, LinesParse, Cmds, CommandsOf, Commandable, Justified, Lines, Run;
    forall i, r | Responded(i, r) in s.history ensures Justified(i, r, s.order, Lines(s)) {
      AnswerJustified(s, i, r);
    }
    ExplainsFrom(s);
  }

  lemma ExplainsFrom(s: State)
    requires OrderOk(s) && RealTime(s) && Commandable(s.order, Lines(s))
    requires forall i, r :: Responded(i, r) in s.history ==> Justified(i, r, s.order, Lines(s))
    ensures Explains(s.order, Lines(s), s.history)
  {
    hide Justified, Before, Commandable, Lines;
  }

  /** Before request `i`, in the order, `key` was last written as `last` says. */
  ghost predicate WrittenBefore(i: nat, key: string, last: Option<string>, order: seq<nat>, lines: map<nat, string>)
    requires Commandable(order, lines)
  {
    exists p :: 0 <= p < |order| && order[p] == i && last == LastWrite(CommandsOf(order, lines)[..p], key)
  }

  /** Every command is answered by the last write to its key among the commands that took the lock before it:
      a GET with the value, if there is one, a DELETE by whether there is one. */
  lemma LastWriteSeen(moves: seq<Move>, i: nat, r: Reply, c: Command) returns (last: Option<string>)
    requires Responded(i, r) in Play(moves).history
    requires i in Play(moves).calls && FromStr(Play(moves).calls[i].line) == Ok(c)
    ensures var s := Play(moves); Commandable(s.order, Lines(s)) && WrittenBefore(i, c.key, last, s.order, Lines(s))
    ensures match c
      case GET(k) => r == (if last.Some? then Value(last.value) else NoValue(k))
      case SET(k, v) => r == Stored
      case DELETE(k) => r == if last.Some? then Removed(k) else NoValue(k)
  {
    Linearizability(moves);
    var s := Play(moves);
    hide Play, FromStr, ReplyAt, Inv;
    var cmds := CommandsOf(s.order, Lines(s));
    assert Justified(i, r, s.order, Lines(s));
    var p :| 0 <= p < |s.order| && s.order[p] == i && r == ReplyAt(cmds, p);
    assert cmds[p] == c;
    last := LastWrite(cmds[..p], c.key);
    hide LastWrite;
    if c.GET? {
      GetsLastWrite(cmds, p);
    } else {
      WritesAnswered(cmds, p);
    }
  }

  /** Nothing gets stuck: as long as a request is not answered, some thread can move. */
  lemma Progress(moves: seq<Move>, i: nat)
    requires var s := Play(moves); i in s.calls && !s.calls[i].phase.Answered?
    ensures var s := Play(moves); exists j :: j in s.calls && Step(s, j) != s
  {
    var s := Play(moves);
    var j := if s.holder.Some? then s.holder.value else i;
    assert LockOk(s) && LinesParse(s);
    hide *;
    HolderMoves(s, i, j);
  }

  lemma HolderMoves(s: State, i: nat, j: nat)
    requires LockOk(s) && LinesParse(s) && i in s.calls && !s.calls[i].phase.Answered?
    requires j == if s.holder.Some? then s.holder.value else i
    ensures j in s.calls && Step(s, j) != s
  {
    hide FromStr;
    assert Step(s, j).calls[j].phase != s.calls[j].phase;
  }

  // ---- The requests of a run

  /** The line with which `i` came in first, if it did. */
  ghost function FirstLine(moves: seq<Move>, i: nat): Option<string> {
    if moves == [] then None
    else
      var m := moves[|moves| - 1];
      if FirstLine(moves[..|moves| - 1], i) == None && m.Arrive? && m.id == i then Some(m.line)
      else FirstLine(moves[..|moves| - 1], i)
  }

  lemma StepLines(s: State, i: nat)
    requires LinesParse(s) && i in s.calls
    ensures OnlyCall(s, Step(s, i), i)
    ensures Step(s, i) != s ==> Left(Step(s, i).calls[i].phase) < Left(s.calls[i].phase)
  {
    hide FromStr;
  }

  lemma DoLines(s: State, m: Move)
    requires LinesParse(s)
    ensures m.Advance? ==> Do(s, m).calls.Keys == s.calls.Keys && forall i :: i in s.calls ==> Do(s, m).calls[i].line == s.calls[i].line
    ensures m.Arrive? && m.id !in s.calls ==> Do(s, m).calls == s.calls[m.id := Call(m.line, Called)]
    ensures m.Arrive? && m.id in s.calls ==> Do(s, m).calls == s.calls
  {
    if m.Advance? && m.id in s.calls {
      StepLines(s, m.id);
      hide Step;
    }
  }

  /** The requests are those that have arrived, each with the line with which it came in first. */
  lemma {:induction false} CallsAre(moves: seq<Move>, i: nat)
    ensures var calls := Play(moves).calls;
      FirstLine(moves, i) == if i in calls then Some(calls[i].line) else None
  {
    if moves != [] {
      var before := Play(moves[..|moves| - 1]);
      CallsAre(moves[..|moves| - 1], i);
      DoLines(before, moves[|moves| - 1]);
      assert Play(moves) == Do(before, moves[|moves| - 1]);
      hide Play, Do, Inv;
    }
  }

  /** How many steps a request has left at most. */
  function Left(ph: Phase): nat {
    match ph
    case Called => 6
    case Wanting => 5
    case Locked => 4
    case Looked(_) => 3
    case Changed(_) => 2
    case Replying(_) => 1
    case Answered(_) => 0
  }

  /** How many steps the thread of `i` has made, not counting those in which it waited. */
  ghost function Made(moves: seq<Move>, i: nat): nat {
    if moves == [] then 0
    else
      var before, m := Play(moves[..|moves| - 1]), moves[|moves| - 1];
      Made(moves[..|moves| - 1], i) + if m == Advance(i) && Do(before, m) != before then 1 else 0
  }

  /** After at most six steps of its thread, a request is answered. */
  lemma {:induction false} AtMostSix(moves: seq<Move>, i: nat)
    ensures var calls := Play(moves).calls;
      if i in calls then Made(moves, i) + Left(calls[i].phase) <= 6 else Made(moves, i) == 0
  {
    if moves != [] {
      var before, m := Play(moves[..|moves| - 1]), moves[|moves| - 1];
      AtMostSix(moves[..|moves| - 1], i);
      assert Play(moves) == Do(before, m);
      assert LinesParse(before);
      hide Play, Inv;
      DoLeft(before, m, i);
      hide Do, LinesParse;
    }
  }

  lemma DoLeft(s: State, m: Move, i: nat)
    requires LinesParse(s)
    ensures i in s.calls ==> i in Do(s, m).calls
    ensures i in s.calls && m == Advance(i) && Do(s, m) != s ==> Left(Do(s, m).calls[i].phase) < Left(s.calls[i].phase)
    ensures i in s.calls && m != Advance(i) ==> Do(s, m).calls[i] == s.calls[i]
    ensures i !in s.calls && m == Advance(i) ==> Do(s, m) == s
    ensures i !in s.calls && i in Do(s, m).calls ==> Do(s, m).calls[i].phase == Called
  {
    if m.Advance? && m.id in s.calls {
      StepLines(s, m.id);
      hide Step;
    }
  }
}
