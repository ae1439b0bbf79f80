/** The thread pool of the Rust server: build, execute and drop, and the loop that its workers run. */
module Pool {
  import opened Wrappers
  import opened PoolModel

  class ThreadPool {
    var sender: bool             // the sender, until drop takes it
    var queue: seq<Task>         // the channel
    var holder: Option<nat>      // the mutex round the receiver
    var poisoned: bool
    var workers: seq<Phase>      // the threads
    var handles: seq<bool>       // the join handles, until drop takes them
    ghost var accepted: seq<Task>
    ghost var started: seq<Task>
    ghost var ended: seq<End>

    ghost function View(): State
      reads this
    {
      State(sender, queue, holder, poisoned, workers, accepted, started, ended)
    }

    constructor ()
      ensures View() == Start(0) && handles == []
    {
      sender, queue, holder, poisoned := true, [], None, false;
      workers, handles := [], [];
      accepted, started, ended := [], [], [];
    }

    static method Build(size: nat) returns (r: Result<ThreadPool, Error>)
      ensures if size == 0 then r == Err(InvalidPoolSize)
        else r.Ok? && fresh(r.value) && r.value.View() == Start(size) && r.value.handles == seq(size, _ => true)
    {
      if size <= 0 {
        return Err(InvalidPoolSize);
      }
      var pool := new ThreadPool();
      for id := 0 to size
        invariant fresh(pool) && pool.View() == Start(id) && pool.handles == seq(id, _ => true)
      {
        pool.workers := pool.workers + [Wanting];
        pool.handles := pool.handles + [true];
      }
      return Ok(pool);
    }

    method Execute(task: Task) returns (refused: Option<Error>)
      modifies this
      ensures refused == if !old(sender) then Some(SenderIsNil)
        else if forall w :: 0 <= w < |old(workers)| ==> Done(old(workers)[w]) then Some(ReceiverIsDropped)
        else None
      ensures refused == None ==> queue == old(queue) + [task] && accepted == old(accepted) + [task]
      ensures refused == None ==> View() == old(View()).(queue := queue, accepted := accepted)
      ensures refused != None ==> View() == old(View())
      ensures refused == Refusal(old(View())) && View() == Submitted(old(View()), task) && handles == old(handles)
    {
      if !sender {
        return Some(SenderIsNil);
      }
      if forall w :: 0 <= w < |workers| ==> Done(workers[w]) {
        return Some(ReceiverIsDropped);
      }
      queue := queue + [task];
      accepted := accepted + [task];
      return None;
    }

    // ---- The loop of a worker, cut where its thread can be preempted

    /** `receiver.lock()`: waits, or takes the lock, or ends the thread because the lock is poisoned. */
    method Lock(id: nat)
      requires id < |workers| && workers[id].Wanting?
      modifies this
      ensures workers == (if old(holder).Some? then old(workers) else old(workers)[id := if poisoned then Broken else Receiving])
      ensures holder == if old(holder).Some? || poisoned then old(holder) else Some(id)
      ensures View() == Work(old(View()), id, true) && handles == old(handles)
    {
      if holder.Some? {
        return;
      }
      if poisoned {
        workers := workers[id := Broken];
        return;
      }
      holder := Some(id);
      workers := workers[id := Receiving];
    }

    /** `recv()` and the end of the `let`: waits, or comes back with a message or with a disconnection; the lock is dropped. */
    method Recv(id: nat)
      requires id < |workers| && workers[id].Receiving?
      modifies this
      ensures old(queue) != [] ==>
        [old(queue)[0]] + queue == old(queue) && started == old(started) + [old(queue)[0]] && workers == old(workers)[id := Running(old(queue)[0])]
      ensures old(queue) == [] ==>
        queue == [] && started == old(started) && workers == if sender then old(workers) else old(workers)[id := Exited]
      ensures holder == if old(queue) == [] && sender then old(holder) else None
      ensures View() == Work(old(View()), id, true) && handles == old(handles)
    {
      if queue != [] {
        var job := queue[0];
        queue := queue[1..];
        started := started + [job];
        workers := workers[id := Running(job)];
        holder := None;
      } else if !sender {
        workers := workers[id := Exited];
        holder := None;
      }
    }

    /** `job()?`: a job that fails ends the thread, and poisons the lock if the thread has it. */
    method RunJob(id: nat, ok: bool)
      requires id < |workers| && workers[id].Running?
      modifies this
      ensures workers == old(workers)[id := if ok then Wanting else Broken]
      ensures ended == old(ended) + [End(old(workers)[id].task, id, ok)]
      ensures View() == Work(old(View()), id, ok) && handles == old(handles)
    {
      ended := ended + [End(workers[id].task, id, ok)];
      if ok {
        workers := workers[id := Wanting];
      } else {
        poisoned := poisoned || holder == Some(id);
        workers := workers[id := Broken];
      }
    }

    /** The next step of a thread that has not ended. */
    method Turn(id: nat, ok: bool)
      requires id < |workers| && !Done(workers[id])
      modifies this
      ensures View() == Work(old(View()), id, ok) && handles == old(handles)
    {
      match workers[id] {
        case Wanting => Lock(id);
        case Receiving => Recv(id);
        case Running(_) => RunJob(id, ok);
      }
    }

    // ---- Drop

    predicate Ready(w: nat)
      requires w < |workers|
      reads this
    {
      match workers[w]
      case Wanting => holder.None?
      case Receiving => queue != [] || !sender
      case Running(_) => true
      case Exited => false
      case Broken => false
    }

    lemma SomeReady()
      requires LockOk(View()) && !sender && !Dropped(View())
      ensures exists w: nat :: w < |workers| && Ready(w)
    {
      SomeEnabled(View());
      var w: nat :| Enabled(View(), w);
      assert Ready(w);
    }

    /** One thread, whichever the scheduler picks of those that can move, makes one step; a job can end either way. */
    method Schedule()
      requires Inv(View()) && !sender && !Dropped(View())
      modifies this
      ensures Inv(View()) && !sender && handles == old(handles) && |workers| == old(|workers|) && accepted == old(accepted)
      ensures Measure(View()) < old(Measure(View()))
      ensures forall w :: 0 <= w < |workers| && old(Done(workers[w])) ==> workers[w] == old(workers[w])
    {
      SomeReady();
      var w: nat :| w < |workers| && Ready(w);
      var ok: bool := *;
      assert Enabled(View(), w);
      WorkDecreases(View(), w, ok);
      WorkInv(View(), w, ok);
      WorkKeeps(View(), w, ok);
      OthersStay(View(), w, ok);
      hide Work, Inv, Measure;
      Turn(w, ok);
      assert View().workers == workers;
    }

    /** `thread.join()`: until the thread of `id` is done, the threads move. */
    method Join(id: nat)
      requires Inv(View()) && !sender && id < |workers|
      modifies this
      ensures Inv(View()) && !sender && handles == old(handles) && |workers| == old(|workers|) && accepted == old(accepted)
      ensures Done(workers[id])
      ensures forall w :: 0 <= w < |workers| && old(Done(workers[w])) ==> workers[w] == old(workers[w])
    {
      hide Inv, Measure;
      while !Done(workers[id])
        invariant Inv(View()) && !sender && handles == old(handles) && |workers| == old(|workers|) && accepted == old(accepted)
        invariant forall w :: 0 <= w < |workers| && old(Done(workers[w])) ==> workers[w] == old(workers[w])
        decreases Measure(View())
      {
        Schedule();
      }
    }

    /** The loop of lines 59-68: joins the workers in order, up to the first one that was lost. */
    method JoinAll() returns (panicked: Option<nat>)
      requires Inv(View()) && !sender && |handles| == |workers| && forall w :: 0 <= w < |handles| ==> handles[w]
      modifies this
      ensures Inv(View()) && !sender && accepted == old(accepted) && |workers| == old(|workers|) == |handles|
      ensures match panicked
        case None => forall w :: 0 <= w < |workers| ==> workers[w] == Exited && !handles[w]
        case Some(k) => k < |workers| && workers[k] == Broken && forall w :: 0 <= w < k ==> workers[w] == Exited && !handles[w]
    {
      hide Inv;
      var k: nat := 0;
      while k < |workers|
        invariant Inv(View()) && !sender && accepted == old(accepted) && |workers| == old(|workers|) == |handles|
        invariant 0 <= k <= |workers|
        invariant forall w :: 0 <= w < k ==> workers[w] == Exited && !handles[w]
        invariant forall w :: k <= w < |workers| ==> handles[w]
      {
        if handles[k] {
          handles := handles[k := false];
          Join(k);
          if workers[k] == Broken {
            return Some(k);
          }
        }
        k := k + 1;
      }
      return None;
    }

    /** Drops the sender and joins the workers in order. It panics at the first one that was lost, if any;
        so it runs through exactly when no job has failed, and then everything accepted was started in order and has ended. */
    method Drop() returns (panicked: Option<nat>)
      requires Inv(View()) && workers != [] && |handles| == |workers| && forall w :: 0 <= w < |handles| ==> handles[w]
      modifies this
      ensures Inv(View()) && !sender && accepted == old(accepted) && |workers| == old(|workers|)
      ensures panicked == None <==> Dropped(View()) && FailedCount(ended) == 0
      ensures panicked == None ==> queue == [] && started == accepted && multiset(accepted) == EndedBag(ended)
      ensures panicked.Some? ==> panicked.value < |workers| && workers[panicked.value] == Broken
      ensures forall w :: 0 <= w < (if panicked.Some? then panicked.value else |workers|) ==> workers[w] == Exited
    {
      CloseKeeps(View());
      sender := false;
      assert View() == Closed(old(View()));
      hide Inv, Closed;
      panicked := JoinAll();
      match panicked {
        case None => Finished(View());
        case Some(k) => Lost(View(), k);
      }
    }
  }

  lemma OthersStay(s: State, w: nat, ok: bool)
    requires w < |s.workers| && Enabled(s, w)
    ensures forall v :: 0 <= v < |s.workers| && Done(s.workers[v]) ==> Work(s, w, ok).workers[v] == s.workers[v]
  {
  }

  lemma Lost(s: State, w: nat)
    requires Inv(s) && w < |s.workers| && s.workers[w] == Broken
    ensures FailedCount(s.ended) > 0
  {
    NoneBroken(s.workers);
  }

  lemma Finished(s: State)
    requires Inv(s) && s.workers != [] && forall w :: 0 <= w < |s.workers| ==> s.workers[w] == Exited
    ensures Dropped(s) && FailedCount(s.ended) == 0
    ensures s.queue == [] && s.started == s.accepted && multiset(s.accepted) == EndedBag(s.ended)
  {
    NoneBroken(s.workers);
    Drained(s);
  }
}
