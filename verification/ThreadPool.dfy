/** The performance tools' thread pool: workers, submitters and waiters, interleaved at every
    access to shared memory. Tasks are named by their submission number. */
module ThreadPool {
  import opened Graphs

  datatype Worker =
    | Waiting                  // in the wait on the task queue
    | Running(task: nat)       // popped the task and raised activeTasks
    | Finishing                // the task has returned, activeTasks not yet lowered
    | Notifying                // lowered activeTasks, about to loop
    | Exited

  datatype State = State(
    workers: seq<Worker>,
    tasks: seq<nat>,           // the deque
    active: nat,               // activeTasks
    stop: bool,
    joined: bool,              // Stop has joined every worker and cleared the deque
    submitted: nat,
    started: seq<nat>,         // tasks taken, in order
    finished: seq<nat>,        // tasks returned, in order
    dropped: seq<nat>)         // tasks the clearing threw away

  datatype Step =
    | Submit
    | Take(w: nat)
    | Return(w: nat)
    | Lower(w: nat)
    | Loop(w: nat)
    | Exit(w: nat)
    | RaiseStop
    | Join

  function Start(threads: nat): State {
    State(seq(threads, i => Waiting), [], 0, false, false, 0, [], [], [])
  }

  predicate Next(s: State, s': State, step: Step) {
    match step
    case Submit =>
      !s.joined && s' == s.(tasks := s.tasks + [s.submitted], submitted := s.submitted + 1)
    case Take(w) =>
      w < |s.workers| && s.workers[w] == Waiting && s.tasks != [] &&
      s' == s.(workers := s.workers[w := Running(s.tasks[0])], tasks := s.tasks[1..],
               active := s.active + 1, started := s.started + [s.tasks[0]])
    case Return(w) =>
      w < |s.workers| && s.workers[w].Running? &&
      s' == s.(workers := s.workers[w := Finishing], finished := s.finished + [s.workers[w].task])
    case Lower(w) =>
      w < |s.workers| && s.workers[w] == Finishing && s.active > 0 &&
      s' == s.(workers := s.workers[w := Notifying], active := s.active - 1)
    case Loop(w) =>
      w < |s.workers| && s.workers[w] == Notifying && s' == s.(workers := s.workers[w := Waiting])
    case Exit(w) =>
      w < |s.workers| && s.workers[w] == Waiting && s.stop && s.tasks == [] &&
      s' == s.(workers := s.workers[w := Exited])
    case RaiseStop =>
      s' == s.(stop := true)
    case Join =>
      s.stop && !s.joined && (forall i :: 0 <= i < |s.workers| ==> s.workers[i] == Exited) &&
      s' == s.(joined := true, dropped := s.tasks, tasks := [])
  }

  // WaitAll's predicate, tested under the lock.
  predicate WaitAllReturns(s: State) {
    s.tasks == [] && s.active == 0
  }

  function Upto(n: nat): seq<nat> {
    seq(n, i => i)
  }

  function IsBusy(w: Worker): bool {
    w.Running? || w == Finishing
  }

  function Busy(ws: seq<Worker>): nat {
    if ws == [] then 0 else (if IsBusy(ws[0]) then 1 else 0) + Busy(ws[1..])
  }

  lemma {:induction false} BusyUpdate(ws: seq<Worker>, i: nat, w: Worker)
    requires i < |ws|
    ensures Busy(ws[i := w]) + (if IsBusy(ws[i]) then 1 else 0) == Busy(ws) + if IsBusy(w) then 1 else 0
    decreases |ws|
  {
    if i == 0 {
      assert ws[0 := w][1..] == ws[1..];
    } else {
      assert ws[i := w][1..] == ws[1..][i-1 := w];
      BusyUpdate(ws[1..], i - 1, w);
    }
  }

  lemma {:induction false} NoneBusy(ws: seq<Worker>)
    ensures Busy(ws) == 0 <==> forall i :: 0 <= i < |ws| ==> !IsBusy(ws[i])
    decreases |ws|
  {
    if ws != [] {
      NoneBusy(ws[1..]);
      if Busy(ws) == 0 {
        forall i | 0 <= i < |ws| ensures !IsBusy(ws[i]) { if i > 0 { assert ws[i] == ws[1..][i-1]; } }
      } else if !IsBusy(ws[0]) {
        var i :| 0 <= i < |ws[1..]| && IsBusy(ws[1..][i]);
        assert IsBusy(ws[i+1]);
      }
    }
  }

  /** Tasks start in the order they were submitted; the rest is queued, or was dropped. */
  ghost predicate Fifo(s: State) {
    s.started + s.dropped + s.tasks == Upto(s.submitted) && (if s.joined then s.tasks == [] else s.dropped == [])
  }

  /** Every started task is either running on exactly one worker or finished, never both. */
  ghost predicate Partition(s: State) {
    && NoDup(s.finished)
    && (forall t :: t in s.finished ==> t in s.started)
    && (forall i :: 0 <= i < |s.workers| && s.workers[i].Running? ==>
          s.workers[i].task in s.started && s.workers[i].task !in s.finished)
    && (forall i, j :: 0 <= i < j < |s.workers| && s.workers[i].Running? && s.workers[j].Running? ==>
          s.workers[i].task != s.workers[j].task)
    && (forall t :: t in s.started && t !in s.finished ==>
          exists i :: 0 <= i < |s.workers| && s.workers[i] == Running(t))
  }

  ghost predicate Inv(s: State) {
    Fifo(s) && Partition(s) && s.active == Busy(s.workers)
  }

  lemma UptoNoDup(n: nat)
    ensures NoDup(Upto(n)) && forall t: nat :: t in Upto(n) <==> t < n
  {
    forall t: nat | t < n ensures t in Upto(n) { assert Upto(n)[t] == t; }
  }

  lemma StartInv(threads: nat)
    ensures Inv(Start(threads))
  {
    NoneBusy(Start(threads).workers);
  }

  // The front of the queue has not been started before.
  lemma FrontIsNew(s: State)
    requires Fifo(s) && s.tasks != []
    ensures s.tasks[0] !in s.started
  {
    UptoNoDup(s.submitted);
    var all := s.started + s.dropped + s.tasks;
    assert all[|s.started| + |s.dropped|] == s.tasks[0];
    assert forall i :: 0 <= i < |s.started| ==> all[i] == s.started[i];
  }

  lemma FifoStep(s: State, s': State, step: Step)
    requires Fifo(s) && Next(s, s', step)
    ensures Fifo(s')
  {
    match step
    case Submit =>
      assert Upto(s'.submitted) == Upto(s.submitted) + [s.submitted];
      assert s'.started + s'.dropped + s'.tasks == (s.started + s.dropped + s.tasks) + [s.submitted];
    case _ =>
      assert s'.started + s'.dropped + s'.tasks == s.started + s.dropped + s.tasks;
  }

  lemma TakePartition(s: State, s': State, w: nat)
    requires Inv(s) && Next(s, s', Take(w))
    ensures Partition(s')
  {
    FrontIsNew(s);
    var t := s.tasks[0];
    assert s'.workers[w] == Running(t);
    forall u | u in s'.started && u !in s'.finished
      ensures exists i :: 0 <= i < |s'.workers| && s'.workers[i] == Running(u)
    {
      if u != t {
        var i :| 0 <= i < |s.workers| && s.workers[i] == Running(u);
        assert s'.workers[i] == Running(u);
      }
    }
  }

  lemma ReturnPartition(s: State, s': State, w: nat)
    requires Inv(s) && Next(s, s', Return(w))
    ensures Partition(s')
  {
    var t := s.workers[w].task;
    forall u | u in s'.started && u !in s'.finished
      ensures exists i :: 0 <= i < |s'.workers| && s'.workers[i] == Running(u)
    {
      assert u in s.started && u !in s.finished && u != t;
      var i :| 0 <= i < |s.workers| && s.workers[i] == Running(u);
      assert s'.workers[i] == Running(u);
    }
  }

  // A worker that was not running a task and is not given one.
  lemma IdlePartition(s: State, s': State, w: nat, pc: Worker)
    requires Partition(s) && w < |s.workers| && !s.workers[w].Running? && !pc.Running?
    requires s'.workers == s.workers[w := pc] && s'.started == s.started && s'.finished == s.finished
    ensures Partition(s')
  {
    forall u | u in s'.started && u !in s'.finished
      ensures exists i :: 0 <= i < |s'.workers| && s'.workers[i] == Running(u)
    {
      var i :| 0 <= i < |s.workers| && s.workers[i] == Running(u);
      assert s'.workers[i] == Running(u);
    }
  }

  lemma NextKeepsInv(s: State, s': State, step: Step)
    requires Inv(s) && Next(s, s', step)
    ensures Inv(s')
  {
    FifoStep(s, s', step);
    match step
    case Take(w) =>
      TakePartition(s, s', w);
      BusyUpdate(s.workers, w, s'.workers[w]);
    case Return(w) =>
      ReturnPartition(s, s', w);
      BusyUpdate(s.workers, w, Finishing);
    case Lower(w) =>
      IdlePartition(s, s', w, Notifying);
      BusyUpdate(s.workers, w, Notifying);
    case Loop(w) =>
      IdlePartition(s, s', w, Waiting);
      BusyUpdate(s.workers, w, Waiting);
    case Exit(w) =>
      IdlePartition(s, s', w, Exited);
      BusyUpdate(s.workers, w, Exited);
    case _ =>
  }

  ghost predicate IsRun(threads: nat, states: seq<State>, steps: seq<Step>) {
    && |states| == |steps| + 1
    && states[0] == Start(threads)
    && forall i :: 0 <= i < |steps| ==> Next(states[i], states[i+1], steps[i])
  }

  lemma {:induction false} EveryStateKeepsInv(threads: nat, states: seq<State>, steps: seq<Step>, i: nat)
    requires IsRun(threads, states, steps) && i < |states|
    ensures Inv(states[i]) && |states[i].workers| == threads
    decreases i
  {
    if i == 0 {
      StartInv(threads);
    } else {
      EveryStateKeepsInv(threads, states, steps, i - 1);
      assert Next(states[i-1], states[i], steps[i-1]);
      NextKeepsInv(states[i-1], states[i], steps[i-1]);
    }
  }

  /** Lowering the counter never wraps: a finishing worker is always counted. */
  lemma LowerIsEnabled(threads: nat, states: seq<State>, steps: seq<Step>, i: nat, w: nat)
    requires IsRun(threads, states, steps) && i < |states|
    requires w < threads && |states[i].workers| == threads && states[i].workers[w] == Finishing
    ensures states[i].active > 0
  {
    EveryStateKeepsInv(threads, states, steps, i);
    NoneBusy(states[i].workers);
  }

  /** Each task starts at most once and in the order of submission, in every interleaving. */
  lemma StartsInOrder(threads: nat, states: seq<State>, steps: seq<Step>, i: nat)
    requires IsRun(threads, states, steps) && i < |states|
    ensures states[i].started <= Upto(states[i].submitted) && NoDup(states[i].started) && NoDup(states[i].finished)
  {
    EveryStateKeepsInv(threads, states, steps, i);
    var s := states[i];
    UptoNoDup(s.submitted);
    assert Upto(s.submitted) == s.started + (s.dropped + s.tasks);
    assert forall k :: 0 <= k < |s.started| ==> Upto(s.submitted)[k] == s.started[k];
  }

  // Every task submitted so far has returned.
  ghost predicate AllDone(s: State) {
    forall t: nat :: t in s.finished <==> t < s.submitted
  }

  /** The WaitAll barrier, in every state: when its predicate holds no worker has a task, and exactly the
      tasks that were not dropped have returned. All of them have if and only if nothing was dropped,
      which is always so before the pool is joined. */
  lemma WaitAllIsABarrier(threads: nat, states: seq<State>, steps: seq<Step>, i: nat)
    requires IsRun(threads, states, steps) && i < |states| && WaitAllReturns(states[i])
    ensures forall w :: 0 <= w < |states[i].workers| ==> !states[i].workers[w].Running?
    ensures forall t: nat :: t in states[i].finished <==> t < states[i].submitted && t !in states[i].dropped
    ensures AllDone(states[i]) <==> states[i].dropped == []
    ensures !states[i].joined ==> AllDone(states[i])
  {
    var s := states[i];
    EveryStateKeepsInv(threads, states, steps, i);
    IdleMeansReturned(s);
    if s.dropped != [] {
      DroppedWasSubmitted(s);
      assert s.dropped[0] in s.dropped;
    }
  }

  // Every task submitted so far has returned or was dropped, and the counter has been lowered for each.
  ghost predicate Settled(s: State) {
    && (forall t: nat :: t < s.submitted ==> t in s.finished || t in s.dropped)
    && (forall w :: 0 <= w < |s.workers| ==> s.workers[w] != Finishing)
  }

  /** WaitAll waits no longer than it must: its predicate holds exactly when everything is settled. */
  lemma WaitAllIffSettled(threads: nat, states: seq<State>, steps: seq<Step>, i: nat)
    requires IsRun(threads, states, steps) && i < |states|
    ensures WaitAllReturns(states[i]) <==> Settled(states[i])
  {
    var s := states[i];
    EveryStateKeepsInv(threads, states, steps, i);
    NoneBusy(s.workers);
    if WaitAllReturns(s) { IdleMeansReturned(s); }
    if Settled(s) { SettledIsIdle(s); }
  }

  ghost predicate Open(s: State, t: nat) {
    t < s.submitted && t !in s.finished && t !in s.dropped
  }

  lemma QueuedIsOpen(s: State)
    requires Inv(s) && s.tasks != []
    ensures Open(s, s.tasks[0])
  {
    UptoNoDup(s.submitted);
    FrontIsNew(s);
    var all, t := s.started + s.dropped + s.tasks, s.tasks[0];
    assert all[|s.started| + |s.dropped|] == t;
    assert t in Upto(s.submitted);
  }

  lemma RunningIsOpen(s: State, w: nat)
    requires Inv(s) && w < |s.workers| && s.workers[w].Running?
    ensures Open(s, s.workers[w].task)
  {
    UptoNoDup(s.submitted);
    DroppedWasSubmitted(s);
    var all, t := s.started + s.dropped + s.tasks, s.workers[w].task;
    var k :| 0 <= k < |s.started| && s.started[k] == t;
    assert all[k] == t && t in Upto(s.submitted);
  }

  lemma SettledIsIdle(s: State)
    requires Inv(s) && Settled(s)
    ensures WaitAllReturns(s)
  {
    NoneBusy(s.workers);
    if s.tasks != [] { QueuedIsOpen(s); }
    forall w | 0 <= w < |s.workers|
      ensures !IsBusy(s.workers[w])
    {
      if s.workers[w].Running? { RunningIsOpen(s, w); }
    }
  }

  lemma DroppedWasSubmitted(s: State)
    requires Fifo(s)
    ensures forall t :: t in s.dropped ==> t < s.submitted && t !in s.started
  {
    UptoNoDup(s.submitted);
    var all := s.started + s.dropped + s.tasks;
    forall t | t in s.dropped
      ensures t < s.submitted && t !in s.started
    {
      var k :| 0 <= k < |s.dropped| && s.dropped[k] == t;
      assert all[|s.started| + k] == t;
      assert forall i :: 0 <= i < |s.started| ==> all[i] == s.started[i];
    }
  }

  // With nobody busy and nothing queued, every task was either dropped or has returned.
  lemma IdleMeansReturned(s: State)
    requires Inv(s) && s.tasks == [] && s.active == 0
    ensures forall w :: 0 <= w < |s.workers| ==> !s.workers[w].Running?
    ensures forall t: nat :: t in s.finished <==> t < s.submitted && t !in s.dropped
  {
    NoneBusy(s.workers);
    UptoNoDup(s.submitted);
    DroppedWasSubmitted(s);
    assert s.started + s.dropped + [] == s.started + s.dropped == Upto(s.submitted);
    forall t: nat
      ensures t in s.finished <==> t < s.submitted && t !in s.dropped
    {
      assert t in Upto(s.submitted) <==> t in s.started || t in s.dropped;
    }
  }

  // No task is submitted once the stop flag is up.
  ghost predicate QuietStop(states: seq<State>, steps: seq<Step>) {
    |states| == |steps| + 1 && forall i :: 0 <= i < |steps| && steps[i] == Submit ==> !states[i].stop
  }

  // A worker leaves only a stopped pool with nothing queued, and nothing comes after that.
  ghost predicate Drained(s: State) {
    && ((exists w :: 0 <= w < |s.workers| && s.workers[w] == Exited) ==> s.stop && s.tasks == [])
    && (s.joined ==> s.stop && forall w :: 0 <= w < |s.workers| ==> s.workers[w] == Exited)
    && (s.joined && |s.workers| > 0 ==> s.dropped == [])
  }

  lemma {:induction false} QuietStopDrains(threads: nat, states: seq<State>, steps: seq<Step>, i: nat)
    requires IsRun(threads, states, steps) && QuietStop(states, steps) && i < |states|
    ensures Drained(states[i])
    decreases i
  {
    if i > 0 {
      QuietStopDrains(threads, states, steps, i - 1);
      assert Next(states[i-1], states[i], steps[i-1]);
      DrainedStep(states[i-1], states[i], steps[i-1]);
    }
  }

  lemma DrainedStep(s: State, s': State, step: Step)
    requires Drained(s) && Next(s, s', step) && (step == Submit ==> !s.stop)
    ensures Drained(s')
  {
    if exists w :: 0 <= w < |s'.workers| && s'.workers[w] == Exited {
      var w :| 0 <= w < |s'.workers| && s'.workers[w] == Exited;
      if s.workers[w] != Exited { assert step == Exit(w); }
    }
    if step == Join && |s.workers| > 0 { assert s.workers[0] == Exited; }
  }

  lemma {:induction false} NoThreadsNoStarts(states: seq<State>, steps: seq<Step>, i: nat)
    requires IsRun(0, states, steps) && i < |states|
    ensures states[i].started == []
    decreases i
  {
    if i > 0 {
      NoThreadsNoStarts(states, steps, i - 1);
      EveryStateKeepsInv(0, states, steps, i - 1);
      assert Next(states[i-1], states[i], steps[i-1]);
    }
  }

  /** Stop without concurrent submissions: once joined, no task was dropped and all have
      returned, exactly when there was a worker at all or nothing was ever submitted. */
  lemma StopDropsNothingIff(threads: nat, states: seq<State>, steps: seq<Step>, i: nat)
    requires IsRun(threads, states, steps) && QuietStop(states, steps)
    requires i < |states| && states[i].joined
    ensures states[i].dropped == [] && AllDone(states[i]) <==> threads > 0 || states[i].submitted == 0
  {
    var s := states[i];
    EveryStateKeepsInv(threads, states, steps, i);
    QuietStopDrains(threads, states, steps, i);
    NoneBusy(s.workers);
    if threads == 0 {
      NoThreadsNoStarts(states, steps, i);
      assert s.dropped == Upto(s.submitted);
    }
    if s.dropped == [] { IdleMeansReturned(s); }
  }
}
