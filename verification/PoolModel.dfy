/** The thread pool as a step system: one channel, one lock round its receiver, and workers that move at their own pace. */
module PoolModel {
  import opened Wrappers

  /** Tasks are known by number. */
  type Task = nat

  datatype Error = InvalidPoolSize | MutexPoisoned | ReceiverIsDropped | SenderIsNil

  /** Where the thread of a worker is. */
  datatype Phase =
    | Wanting                // before `receiver.lock()`
    | Receiving              // in `recv()`, with the lock
    | Running(task: Task)    // the lock is dropped at the end of the `let`, so not with the lock
    | Exited
    | Broken                 // ended by a failed job, or by a poisoned lock

  datatype End = End(task: Task, worker: nat, ok: bool)

  datatype State = State(
    open: bool,              // the sender is there
    queue: seq<Task>,
    holder: Option<nat>,
    poisoned: bool,
    workers: seq<Phase>,
    accepted: seq<Task>,     // what execute has taken
    started: seq<Task>,
    ended: seq<End>
  )

  function Start(size: nat): State {
    State(true, [], None, false, seq(size, _ => Wanting), [], [], [])
  }

  predicate Done(p: Phase) {
    p.Exited? || p.Broken?
  }

  /** The receiver is dropped with the last of the threads that share it. */
  predicate Dropped(s: State) {
    forall w :: 0 <= w < |s.workers| ==> Done(s.workers[w])
  }

  function Refusal(s: State): Option<Error> {
    if !s.open then Some(SenderIsNil) else if Dropped(s) then Some(ReceiverIsDropped) else None
  }

  function Submitted(s: State, t: Task): State {
    if Refusal(s).Some? then s else s.(queue := s.queue + [t], accepted := s.accepted + [t])
  }

  function Closed(s: State): State {
    s.(open := false)
  }

  /** The next step of worker `w`. It stays where it is while it waits for the lock or for a message.
      `ok` is how the job ends; a failure with the lock held would poison the lock. */
  function Work(s: State, w: nat, ok: bool): State
    requires w < |s.workers|
  {
    match s.workers[w]
    case Wanting =>
      if s.holder.Some? then s
      else if s.poisoned then s.(workers := s.workers[w := Broken])
      else s.(workers := s.workers[w := Receiving], holder := Some(w))
    case Receiving =>
      if s.queue != [] then
        s.(workers := s.workers[w := Running(s.queue[0])], holder := None, queue := s.queue[1..], started := s.started + [s.queue[0]])
      else if !s.open then s.(workers := s.workers[w := Exited], holder := None)
      else s
    case Running(t) =>
      s.(workers := s.workers[w := if ok then Wanting else Broken], ended := s.ended + [End(t, w, ok)],
         poisoned := s.poisoned || (!ok && s.holder == Some(w)))
    case Exited => s
    case Broken => s
  }

  datatype Move = Submit(task: Task) | Close | Advance(worker: nat, ok: bool)

  function Do(s: State, m: Move): State {
    match m
    case Submit(t) => Submitted(s, t)
    case Close => Closed(s)
    case Advance(w, ok) => if w < |s.workers| then Work(s, w, ok) else s
  }

  // ---- What holds at every moment

  /** Mutual exclusion: exactly the holder is at the receiver. */
  ghost predicate LockOk(s: State) {
    && (forall w :: 0 <= w < |s.workers| ==> (s.workers[w].Receiving? <==> s.holder == Some(w)))
    && (s.holder.Some? ==> s.holder.value < |s.workers|)
    && !s.poisoned
  }

  ghost function RunningBag(ws: seq<Phase>): multiset<Task> {
    if ws == [] then multiset{}
    else RunningBag(ws[..|ws| - 1]) + RunBy(ws[|ws| - 1])
  }

  ghost function RunBy(p: Phase): multiset<Task> {
    if p.Running? then multiset{p.task} else multiset{}
  }

  ghost function EndedBag(ends: seq<End>): multiset<Task> {
    if ends == [] then multiset{} else EndedBag(ends[..|ends| - 1]) + multiset{ends[|ends| - 1].task}
  }

  /** Tasks are started in the order in which they were accepted, and each one started is running or has ended, in one place. */
  ghost predicate TasksOk(s: State) {
    && s.accepted == s.started + s.queue
    && multiset(s.started) == RunningBag(s.workers) + EndedBag(s.ended)
  }

  function BrokenCount(ws: seq<Phase>): nat {
    if ws == [] then 0 else BrokenCount(ws[..|ws| - 1]) + if ws[|ws| - 1].Broken? then 1 else 0
  }

  function FailedCount(ends: seq<End>): nat {
    if ends == [] then 0 else FailedCount(ends[..|ends| - 1]) + if ends[|ends| - 1].ok then 0 else 1
  }

  /** Only failed jobs break workers, and workers exit only when nothing can come any more. */
  ghost predicate LossOk(s: State) {
    && BrokenCount(s.workers) == FailedCount(s.ended)
    && (forall w :: 0 <= w < |s.workers| && s.workers[w].Exited? ==> !s.open && s.queue == [])
  }

  ghost predicate Inv(s: State) {
    LockOk(s) && TasksOk(s) && LossOk(s)
  }

  // ---- Each step keeps it

  lemma {:induction false} RunningUpdate(ws: seq<Phase>, w: nat, p: Phase)
    requires w < |ws|
    ensures RunningBag(ws[w := p]) + RunBy(ws[w]) == RunningBag(ws) + RunBy(p)
  {
    hide RunBy;
    var n := |ws| - 1;
    if w == n {
      assert ws[w := p][..n] == ws[..n];
    } else {
      RunningUpdate(ws[..n], w, p);
      assert ws[w := p][..n] == ws[..n][w := p];
      Regroup(RunningBag(ws[..n][w := p]), RunBy(ws[n]), RunBy(ws[w]), RunningBag(ws[..n]), RunBy(p));
    }
  }

  lemma Regroup(a: multiset<Task>, b: multiset<Task>, c: multiset<Task>, d: multiset<Task>, e: multiset<Task>)
    requires a + c == d + e
    ensures (a + b) + c == (d + b) + e
  {
    assert (a + b) + c == (a + c) + b;
  }

  lemma {:induction false} BrokenUpdate(ws: seq<Phase>, w: nat, p: Phase)
    requires w < |ws|
    ensures BrokenCount(ws[w := p]) == BrokenCount(ws) - (if ws[w].Broken? then 1 else 0) + (if p.Broken? then 1 else 0)
  {
    var n := |ws| - 1;
    if w == n {
      assert ws[w := p][..n] == ws[..n];
    } else {
      BrokenUpdate(ws[..n], w, p);
      assert ws[w := p][..n] == ws[..n][w := p];
    }
  }

  lemma {:induction false} StartInv(size: nat)
    ensures Inv(Start(size))
  {
    NoneRunning(Start(size).workers);
  }

  lemma {:induction false} NoneRunning(ws: seq<Phase>)
    requires forall w :: 0 <= w < |ws| ==> ws[w] == Wanting
    ensures RunningBag(ws) == multiset{} && BrokenCount(ws) == 0
  {
    if ws != [] { NoneRunning(ws[..|ws| - 1]); }
  }

  lemma SubmitKeeps(s: State, t: Task)
    requires Inv(s)
    ensures Inv(Submitted(s, t))
  {
  }

  lemma TakeTasks(s: State, w: nat, s': State)
    requires w < |s.workers| && TasksOk(s) && s.queue != [] && !s.workers[w].Running?
    requires s'.workers == s.workers[w := Running(s.queue[0])] && s'.queue == s.queue[1..]
    requires s'.started == s.started + [s.queue[0]] && s'.accepted == s.accepted && s'.ended == s.ended
    ensures TasksOk(s')
  {
    RunningUpdate(s.workers, w, Running(s.queue[0]));
    assert RunningBag(s'.workers) + RunBy(s.workers[w]) == RunningBag(s.workers) + multiset{s.queue[0]};
    NoTask(s.workers[w], RunningBag(s'.workers));
    hide RunningBag, EndedBag, RunBy;
    FirstMoves(s.started, s.queue);
    AddOne(RunningBag(s.workers), EndedBag(s.ended), s.queue[0]);
  }

  lemma FirstMoves(q: seq<Task>, r: seq<Task>)
    requires r != []
    ensures q + [r[0]] + r[1..] == q + r
    ensures multiset(q + [r[0]]) == multiset(q) + multiset{r[0]}
  {
  }

  lemma AddOne(a: multiset<Task>, b: multiset<Task>, t: Task)
    ensures (a + b) + multiset{t} == (a + multiset{t}) + b
  {
  }

  lemma NoTask(p: Phase, bag: multiset<Task>)
    requires !p.Running?
    ensures bag + RunBy(p) == bag
  {
  }

  lemma EndTasks(s: State, w: nat, p: Phase, ok: bool, s': State)
    requires w < |s.workers| && TasksOk(s) && s.workers[w].Running? && !p.Running?
    requires s'.workers == s.workers[w := p] && s'.ended == s.ended + [End(s.workers[w].task, w, ok)]
    requires s'.queue == s.queue && s'.started == s.started && s'.accepted == s.accepted
    ensures TasksOk(s')
  {
    RunningUpdate(s.workers, w, p);
    assert RunBy(p) == multiset{} && RunBy(s.workers[w]) == multiset{s.workers[w].task};
    assert s'.ended[..|s.ended|] == s.ended;
    assert EndedBag(s'.ended) == EndedBag(s.ended) + multiset{s.workers[w].task};
    assert RunningBag(s'.workers) + multiset{s.workers[w].task} == RunningBag(s.workers);
  }

  lemma IdleTasks(s: State, w: nat, p: Phase, s': State)
    requires w < |s.workers| && TasksOk(s) && !s.workers[w].Running? && !p.Running?
    requires s'.workers == s.workers[w := p] && s'.ended == s.ended
    requires s'.queue == s.queue && s'.started == s.started && s'.accepted == s.accepted
    ensures TasksOk(s')
  {
    RunningUpdate(s.workers, w, p);
    assert RunningBag(s'.workers) + RunBy(s.workers[w]) == RunningBag(s.workers) + RunBy(p);
    NoTask(p, RunningBag(s.workers));
    NoTask(s.workers[w], RunningBag(s'.workers));
    hide RunningBag, EndedBag, RunBy;
  }

  lemma WorkTasks(s: State, w: nat, ok: bool)
    requires w < |s.workers| && TasksOk(s)
    ensures TasksOk(Work(s, w, ok))
  {
    hide TasksOk;
    var s' := Work(s, w, ok);
    if s.workers[w].Receiving? && s.queue != [] {
      TakeTasks(s, w, s');
    } else if s.workers[w].Running? {
      EndTasks(s, w, s'.workers[w], ok, s');
    } else if s' != s {
      IdleTasks(s, w, s'.workers[w], s');
    }
  }

  lemma WorkLock(s: State, w: nat, ok: bool)
    requires w < |s.workers| && LockOk(s)
    ensures LockOk(Work(s, w, ok))
  {
  }

  lemma WorkLoss(s: State, w: nat, ok: bool)
    requires w < |s.workers| && LockOk(s) && LossOk(s)
    ensures LossOk(Work(s, w, ok))
  {
    var s' := Work(s, w, ok);
    BrokenUpdate(s.workers, w, s'.workers[w]);
    FailedMore(s, w, ok);
    assert s'.workers == s.workers[w := s'.workers[w]];
    hide BrokenCount, FailedCount, LockOk;
  }

  lemma FailedMore(s: State, w: nat, ok: bool)
    requires w < |s.workers| && LockOk(s)
    ensures !s.workers[w].Running? ==> Work(s, w, ok).ended == s.ended
    ensures FailedCount(s.ended + [End(0, w, ok)]) == FailedCount(s.ended) + if ok then 0 else 1
    ensures s.workers[w].Running? ==> FailedCount(Work(s, w, ok).ended) == FailedCount(s.ended) + if ok then 0 else 1
    ensures Work(s, w, ok).workers[w].Broken? <==> s.workers[w].Broken? || (s.workers[w].Running? && !ok)
  {
    assert forall e: End :: (s.ended + [e])[..|s.ended|] == s.ended;
  }

  lemma WorkInv(s: State, w: nat, ok: bool)
    requires w < |s.workers| && Inv(s)
    ensures Inv(Work(s, w, ok)) && |Work(s, w, ok).workers| == |s.workers|
  {
    WorkLock(s, w, ok);
    WorkTasks(s, w, ok);
    WorkLoss(s, w, ok);
    hide LockOk, TasksOk, LossOk;
  }

  lemma CloseKeeps(s: State)
    requires Inv(s)
    ensures Inv(Closed(s))
  {
  }

  lemma DoKeeps(s: State, m: Move)
    requires Inv(s)
    ensures Inv(Do(s, m)) && |Do(s, m).workers| == |s.workers|
  {
    hide Inv, Work;
    match m {
      case Submit(t) => SubmitKeeps(s, t);
      case Close => CloseKeeps(s);
      case Advance(w, ok) => if w < |s.workers| { WorkInv(s, w, ok); }
    }
  }

  /** The state of a pool of `size` workers after any schedule. */
  ghost function Play(size: nat, moves: seq<Move>): (s: State)
    ensures Inv(s) && |s.workers| == size
  {
    hide Inv, Do;
    if moves == [] then StartInv(size); Start(size)
    else
      DoKeeps(Play(size, moves[..|moves| - 1]), moves[|moves| - 1]);
      Do(Play(size, moves[..|moves| - 1]), moves[|moves| - 1])
  }

  // ---- At most once

  /** When no two tasks are the same, each task is started at most once, and then it runs in one place or has ended once. */
  lemma AtMostOnce(size: nat, moves: seq<Move>, t: Task)
    requires multiset(Play(size, moves).accepted)[t] <= 1
    ensures var s := Play(size, moves);
      RunningBag(s.workers)[t] + EndedBag(s.ended)[t] == multiset(s.started)[t] <= multiset(s.accepted)[t]
  {
    var s := Play(size, moves);
    hide Play, RunningBag, EndedBag;
    assert multiset(s.accepted) == multiset(s.started) + multiset(s.queue);
  }

  // ---- Failures

  function Live(ws: seq<Phase>): nat {
    if ws == [] then 0 else Live(ws[..|ws| - 1]) + if Done(ws[|ws| - 1]) then 0 else 1
  }

  lemma {:induction false} LiveCount(ws: seq<Phase>)
    requires forall w :: 0 <= w < |ws| ==> !ws[w].Exited?
    ensures Live(ws) + BrokenCount(ws) == |ws|
  {
    if ws != [] { LiveCount(ws[..|ws| - 1]); }
  }

  lemma {:induction false} NoneLive(ws: seq<Phase>)
    ensures Live(ws) == 0 <==> forall w :: 0 <= w < |ws| ==> Done(ws[w])
  {
    if ws != [] { NoneLive(ws[..|ws| - 1]); }
  }

  lemma {:induction false} NoneBroken(ws: seq<Phase>)
    ensures BrokenCount(ws) == 0 <==> forall w :: 0 <= w < |ws| ==> !ws[w].Broken?
    ensures BrokenCount(ws) <= |ws|
    ensures BrokenCount(ws) == |ws| <==> forall w :: 0 <= w < |ws| ==> ws[w].Broken?
  {
    if ws != [] { NoneBroken(ws[..|ws| - 1]); }
  }

  /** While the sender is there, every failed job costs one worker and nothing else does;
      execute refuses a task exactly when as many jobs have failed as there were workers. */
  lemma FailureAccounting(size: nat, moves: seq<Move>)
    requires Play(size, moves).open
    ensures var s := Play(size, moves);
      && Live(s.workers) == size - FailedCount(s.ended)
      && (Refusal(s) == Some(ReceiverIsDropped) <==> FailedCount(s.ended) == size)
      && (Refusal(s) == None <==> FailedCount(s.ended) < size)
  {
    var s := Play(size, moves);
    hide Play;
    LiveCount(s.workers);
    NoneLive(s.workers);
  }

  // ---- What is accepted

  /** The tasks submitted while the sender was there and not all workers were lost, in this order. */
  ghost function Tasks(size: nat, moves: seq<Move>): seq<Task> {
    if moves == [] then []
    else
      var before, m := moves[..|moves| - 1], moves[|moves| - 1];
      Tasks(size, before) +
      if m.Submit? && Close !in before && FailedCount(Play(size, before).ended) < size then [m.task] else []
  }

  lemma PlayMore(size: nat, before: seq<Move>, m: Move)
    ensures Play(size, before + [m]) == Do(Play(size, before), m)
  {
    assert (before + [m])[..|before|] == before;
    hide Do, Inv;
  }

  ghost predicate Accepted(size: nat, moves: seq<Move>) {
    Play(size, moves).accepted == Tasks(size, moves) && (Play(size, moves).open <==> Close !in moves)
  }

  lemma AcceptedMore(size: nat, before: seq<Move>, m: Move)
    requires Accepted(size, before)
    ensures Accepted(size, before + [m])
  {
    hide Play, Tasks, Do, Refusal, FailedCount;
    PlayMore(size, before, m);
    Accepts(size, before, m);
    CloseIn(before, m);
    DoAccepts(Play(size, before), m);
  }

  lemma NothingAccepted(size: nat)
    ensures Accepted(size, [])
  {
  }

  lemma {:induction false} AllAccepted(size: nat, moves: seq<Move>)
    ensures Accepted(size, moves)
  {
    hide *;
    if moves == [] {
      NothingAccepted(size);
    } else {
      var before, m := moves[..|moves| - 1], moves[|moves| - 1];
      AllAccepted(size, before);
      AcceptedMore(size, before, m);
      assert before + [m] == moves;
    }
  }

  /** These are the tasks accepted, and the sender is there until it is dropped. */
  lemma AcceptedAre(size: nat, moves: seq<Move>)
    ensures Play(size, moves).accepted == Tasks(size, moves)
    ensures Play(size, moves).open <==> Close !in moves
  {
    AllAccepted(size, moves);
    hide Play, Tasks;
  }

  lemma CloseIn(before: seq<Move>, m: Move)
    ensures Close in before + [m] <==> Close in before || m == Close
  {
  }

  /** A task is taken exactly while the sender is there and not all workers are lost. */
  lemma Accepts(size: nat, before: seq<Move>, m: Move)
    requires Play(size, before).open <==> Close !in before
    ensures Refusal(Play(size, before)) == None <==> Close !in before && FailedCount(Play(size, before).ended) < size
    ensures Tasks(size, before + [m]) ==
      Tasks(size, before) + if m.Submit? && Refusal(Play(size, before)) == None then [m.task] else []
  {
    if Play(size, before).open { FailureAccounting(size, before); }
    assert (before + [m])[..|before|] == before;
    hide Play, FailedCount, Live;
  }

  lemma DoAccepts(s: State, m: Move)
    ensures Do(s, m).accepted == s.accepted + if m.Submit? && Refusal(s) == None then [m.task] else []
    ensures Do(s, m).open == (s.open && m != Close)
  {
    if m.Advance? && m.worker < |s.workers| {
      WorkKeeps(s, m.worker, m.ok);
      hide Work;
    }
  }

  // ---- Shutdown

  function Weight(p: Phase): nat {
    match p
    case Wanting => 2
    case Receiving => 1
    case Running(_) => 3
    case Exited => 0
    case Broken => 0
  }

  function Weights(ws: seq<Phase>): nat {
    if ws == [] then 0 else Weights(ws[..|ws| - 1]) + Weight(ws[|ws| - 1])
  }

  function Measure(s: State): nat {
    3 * |s.queue| + Weights(s.workers)
  }

  lemma {:induction false} WeightUpdate(ws: seq<Phase>, w: nat, p: Phase)
    requires w < |ws|
    ensures Weights(ws[w := p]) == Weights(ws) - Weight(ws[w]) + Weight(p)
  {
    var n := |ws| - 1;
    if w == n {
      assert ws[w := p][..n] == ws[..n];
    } else {
      WeightUpdate(ws[..n], w, p);
      assert ws[w := p][..n] == ws[..n][w := p];
    }
  }

  /** The worker can move. */
  predicate Enabled(s: State, w: nat) {
    w < |s.workers| &&
    match s.workers[w]
    case Wanting => s.holder.None?
    case Receiving => s.queue != [] || !s.open
    case Running(_) => true
    case Exited => false
    case Broken => false
  }

  /** Every step that a worker makes brings the end nearer; and a worker that cannot move stays as it is. */
  lemma WorkDecreases(s: State, w: nat, ok: bool)
    requires w < |s.workers|
    ensures if Enabled(s, w) then Measure(Work(s, w, ok)) < Measure(s) else Work(s, w, ok) == s
  {
    var s' := Work(s, w, ok);
    WeightUpdate(s.workers, w, s'.workers[w]);
    assert s'.workers == s.workers[w := s'.workers[w]];
    hide Weights;
  }

  /** Without a sender, or with something in the channel, some worker can move until all are done. */
  lemma SomeEnabled(s: State)
    requires LockOk(s) && (!s.open || s.queue != []) && !Dropped(s)
    ensures exists w :: Enabled(s, w)
  {
    var w :| 0 <= w < |s.workers| && !Done(s.workers[w]);
    if s.holder.Some? {
      assert Enabled(s, s.holder.value);
    } else {
      assert Enabled(s, w);
    }
  }

  /** When all workers are done, everything accepted was started in order and has ended, unless every worker was lost. */
  lemma Drained(s: State)
    requires Inv(s) && Dropped(s)
    ensures RunningBag(s.workers) == multiset{}
    ensures FailedCount(s.ended) < |s.workers| ==>
      s.queue == [] && s.started == s.accepted && multiset(s.accepted) == EndedBag(s.ended)
  {
    NothingRuns(s.workers);
    NoneBroken(s.workers);
    hide RunningBag, EndedBag;
  }

  lemma {:induction false} NothingRuns(ws: seq<Phase>)
    requires forall w :: 0 <= w < |ws| ==> !ws[w].Running?
    ensures RunningBag(ws) == multiset{}
  {
    if ws != [] { NothingRuns(ws[..|ws| - 1]); }
  }

  /** Turns of workers that can move, one after another. */
  ghost predicate Turns(s: State, turns: seq<(nat, bool)>)
    decreases |turns|
  {
    turns == [] || (Enabled(s, turns[0].0) && Turns(Work(s, turns[0].0, turns[0].1), turns[1..]))
  }

  ghost function AfterTurns(s: State, turns: seq<(nat, bool)>): State
    requires Turns(s, turns)
    decreases |turns|
  {
    if turns == [] then s else AfterTurns(Work(s, turns[0].0, turns[0].1), turns[1..])
  }

  /** Once the sender is dropped the workers make at most `Measure` turns, in whatever order they are scheduled;
      where none of them can make another one, all are done and the channel is drained, unless every worker was lost. */
  lemma {:induction false} Shutdown(s: State, turns: seq<(nat, bool)>)
    requires Inv(s) && !s.open && Turns(s, turns)
    ensures |turns| <= Measure(s)
    ensures var e := AfterTurns(s, turns);
      && Inv(e) && e.accepted == s.accepted
      && ((forall w :: !Enabled(e, w)) ==>
           Dropped(e) && (FailedCount(e.ended) < |e.workers| ==>
             e.queue == [] && e.started == s.accepted && multiset(s.accepted) == EndedBag(e.ended)))
    decreases |turns|
  {
    hide Work, Measure;
    if turns == [] {
      if forall w :: !Enabled(s, w) {
        if !Dropped(s) { SomeEnabled(s); }
        Drained(s);
      }
    } else {
      var (w, ok) := turns[0];
      WorkDecreases(s, w, ok);
      WorkInv(s, w, ok);
      WorkKeeps(s, w, ok);
      Shutdown(Work(s, w, ok), turns[1..]);
    }
  }

  lemma WorkKeeps(s: State, w: nat, ok: bool)
    requires w < |s.workers|
    ensures Work(s, w, ok).open == s.open && Work(s, w, ok).accepted == s.accepted
  {
  }

  /** So in every run that drops the sender and ends, every task submitted before, while a worker was left, has ended,
      unless every worker was lost. */
  lemma ShutdownRun(size: nat, moves: seq<Move>, turns: seq<(nat, bool)>)
    requires Close in moves && Turns(Play(size, moves), turns)
    requires forall w :: !Enabled(AfterTurns(Play(size, moves), turns), w)
    requires FailedCount(AfterTurns(Play(size, moves), turns).ended) < size
    ensures var e := AfterTurns(Play(size, moves), turns);
      Tasks(size, moves) == e.started && multiset(Tasks(size, moves)) == EndedBag(e.ended)
  {
    AcceptedAre(size, moves);
    Shutdown(Play(size, moves), turns);
    TurnsKeepSize(Play(size, moves), turns);
    hide Play, AfterTurns, Turns, Enabled, EndedBag, Tasks;
  }

  lemma {:induction false} TurnsKeepSize(s: State, turns: seq<(nat, bool)>)
    requires Turns(s, turns)
    ensures |AfterTurns(s, turns).workers| == |s.workers|
    decreases |turns|
  {
    if turns != [] {
      TurnsKeepSize(Work(s, turns[0].0, turns[0].1), turns[1..]);
    }
  }
}
