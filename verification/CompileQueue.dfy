/** The shader cache's background compile queue: producers, one worker and a pending counter,
    interleaved at every access to shared memory. A job is named by its submission number. */
module CompileQueue {
  import opened Graphs
  import opened Words

  datatype Worker =
    | AtTop                // about to test workerRunning
    | Waiting              // inside the wait on the job queue
    | Holding(job: nat)    // popped, not yet compiled
    | Done(job: nat)       // compiled or failed, counter not yet decremented
    | Exited

  datatype State = State(
    pending: nat,            // the atomic 32-bit counter
    submitted: nat,          // jobs announced so far
    announced: set<nat>,     // counted but not yet pushed by their producer
    queue: seq<nat>,
    worker: Worker,
    running: bool,
    pushed: seq<nat>,        // all pushes, in order
    finished: seq<nat>,      // all jobs compiled or failed, in order
    compiled: seq<nat>)      // those whose binary went into the cache, in order

  datatype Step =
    | Announce               // QueueCompile: fetch_add
    | Push(job: nat)         // QueueCompile: push_back
    | TestRunning            // RunWorker: loop test
    | Pop                    // RunWorker: take the front job
    | GiveUp                 // RunWorker: stopped with an empty queue
    | Compile(ok: bool)      // RunWorker: compile, and insert on success
    | Decrement              // RunWorker: fetch_sub
    | Stop                   // Shutdown: workerRunning.store(false)

  const INITIAL := State(0, 0, {}, [], AtTop, true, [], [], [])

  predicate Next(s: State, s': State, step: Step) {
    match step
    case Announce =>
      s' == s.(pending := (s.pending + 1) % U32, submitted := s.submitted + 1, announced := s.announced + {s.submitted})
    case Push(j) =>
      j in s.announced &&
      s' == s.(announced := s.announced - {j}, queue := s.queue + [j], pushed := s.pushed + [j])
    case TestRunning =>
      s.worker == AtTop && s' == s.(worker := if s.running then Waiting else Exited)
    case Pop =>
      s.worker == Waiting && s.queue != [] && s' == s.(worker := Holding(s.queue[0]), queue := s.queue[1..])
    case GiveUp =>
      s.worker == Waiting && s.queue == [] && !s.running && s' == s.(worker := Exited)
    case Compile(ok) =>
      s.worker.Holding? &&
      s' == s.(worker := Done(s.worker.job), finished := s.finished + [s.worker.job],
               compiled := s.compiled + if ok then [s.worker.job] else [])
    case Decrement =>
      s.worker.Done? && s' == s.(worker := AtTop, pending := (s.pending + U32 - 1) % U32)
    case Stop =>
      s' == s.(running := false)
  }

  // Jobs that the counter still counts.
  function Outstanding(s: State): nat {
    |s.announced| + |s.queue| + if s.worker.Holding? || s.worker.Done? then 1 else 0
  }

  function Held(w: Worker): seq<nat> {
    if w.Holding? then [w.job] else []
  }

  /** Holds in every interleaving: the counter counts the outstanding jobs, jobs are worked off in
      the order they were pushed, and every submitted job is in exactly one place. */
  ghost predicate Inv(s: State) {
    && s.pending == Outstanding(s) % U32
    && s.pushed == s.finished + Held(s.worker) + s.queue
    && NoDup(s.pushed)
    && (forall j :: j in s.announced ==> j !in s.pushed)
    && (forall j: nat :: j < s.submitted <==> j in s.announced || j in s.pushed)
    && (s.worker.Done? ==> s.worker.job in s.finished)
    && NoDup(s.compiled) && (forall j :: j in s.compiled ==> j in s.finished)
  }

  lemma CountUp(x: nat)
    ensures (x % U32 + 1) % U32 == (x + 1) % U32
  {
  }

  lemma CountDown(x: nat)
    ensures ((x + 1) % U32 + U32 - 1) % U32 == x % U32
  {
  }

  lemma AnnounceKeepsInv(s: State, s': State)
    requires Inv(s) && Next(s, s', Announce)
    ensures Inv(s')
  {
    assert s.submitted !in s.announced;
    CountUp(Outstanding(s));
  }

  lemma PushKeepsInv(s: State, s': State, j: nat)
    requires Inv(s) && Next(s, s', Push(j))
    ensures Inv(s')
  {
    assert s'.pushed == s'.finished + Held(s'.worker) + s'.queue;
    assert Outstanding(s') == Outstanding(s);
    assert forall k: nat :: k in s'.pushed <==> k in s.pushed || k == j;
  }

  lemma CompileKeepsInv(s: State, s': State, ok: bool)
    requires Inv(s) && Next(s, s', Compile(ok))
    ensures Inv(s')
  {
    var j := s.worker.job;
    assert s'.pushed == s'.finished + Held(s'.worker) + s'.queue;
    assert s.pushed[|s.finished|] == j;
    assert forall i :: 0 <= i < |s.finished| ==> s.pushed[i] == s.finished[i];
    assert j !in s.finished;
  }

  lemma DecrementKeepsInv(s: State, s': State)
    requires Inv(s) && Next(s, s', Decrement)
    ensures Inv(s')
  {
    CountDown(Outstanding(s'));
  }

  // The remaining steps move the worker or raise the stop flag.
  lemma WorkerStepKeepsInv(s: State, s': State, step: Step)
    requires Inv(s) && Next(s, s', step)
    requires step.TestRunning? || step.Pop? || step.GiveUp? || step.Stop?
    ensures Inv(s')
  {
    assert s'.pushed == s'.finished + Held(s'.worker) + s'.queue;
  }

  lemma NextKeepsInv(s: State, s': State, step: Step)
    requires Inv(s) && Next(s, s', step)
    ensures Inv(s')
  {
    match step
    case Announce => AnnounceKeepsInv(s, s');
    case Push(j) => PushKeepsInv(s, s', j);
    case Compile(ok) => CompileKeepsInv(s, s', ok);
    case Decrement => DecrementKeepsInv(s, s');
    case _ => WorkerStepKeepsInv(s, s', step);
  }

  ghost predicate IsRun(states: seq<State>, steps: seq<Step>) {
    && |states| == |steps| + 1
    && states[0] == INITIAL
    && forall i :: 0 <= i < |steps| ==> Next(states[i], states[i+1], steps[i])
  }

  lemma {:induction false} EveryStateKeepsInv(states: seq<State>, steps: seq<Step>, i: nat)
    requires IsRun(states, steps) && i < |states|
    ensures Inv(states[i])
    decreases i
  {
    if i > 0 {
      EveryStateKeepsInv(states, steps, i - 1);
      NextKeepsInv(states[i-1], states[i], steps[i-1]);
    }
  }

  // Every submitted job has been compiled or has failed, once.
  ghost predicate AllFinished(s: State) {
    NoDup(s.finished) && forall j: nat :: j < s.submitted <==> j in s.finished
  }

  /** FlushQueue: in every interleaving with fewer than 2^32 jobs outstanding, reading zero from
      the counter means that every job submitted so far is finished, and the worker idle;
      conversely nothing outstanding is what makes the counter read zero. */
  lemma ZeroMeansFinished(states: seq<State>, steps: seq<Step>, i: nat)
    requires IsRun(states, steps) && i < |states|
    ensures Outstanding(states[i]) < U32 ==>
      (states[i].pending == 0 <==> AllFinished(states[i]) && !states[i].worker.Done?)
  {
    var s := states[i];
    EveryStateKeepsInv(states, steps, i);
    if Outstanding(s) < U32 {
      SmallModulus(Outstanding(s));
      if s.pending == 0 {
        assert s.pushed == s.finished;
      }
      if AllFinished(s) && !s.worker.Done? {
        NothingLeft(s);
      }
    }
  }

  lemma NothingLeft(s: State)
    requires Inv(s) && AllFinished(s) && !s.worker.Done?
    ensures Outstanding(s) == 0
  {
    SomeUnfinished(s);
  }

  lemma SomeUnfinished(s: State)
    requires Inv(s)
    ensures s.announced != {} || |s.pushed| > |s.finished| ==> exists j: nat :: j < s.submitted && j !in s.finished
  {
    var p, n := s.pushed, |s.finished|;
    assert forall i :: 0 <= i < n ==> s.finished[i] == p[i];
    if n < |p| {
      assert p[n] in p && p[n] !in s.finished && p[n] < s.submitted;
    } else if s.announced != {} {
      var j :| j in s.announced;
      assert j !in s.finished && j < s.submitted;
    }
  }

  /** The counter has 32 bits. FlushQueue, which returns when it reads zero, may trust it exactly
      with fewer than 2^32 jobs outstanding: then, and only then, does zero mean that every job
      submitted so far is finished and the worker holds none. */
  lemma ZeroTrustedIff(states: seq<State>, steps: seq<Step>, i: nat)
    requires IsRun(states, steps) && i < |states| && states[i].pending == 0
    ensures AllFinished(states[i]) && !states[i].worker.Done? <==> Outstanding(states[i]) < U32
  {
    EveryStateKeepsInv(states, steps, i);
    if AllFinished(states[i]) && !states[i].worker.Done? { NothingLeft(states[i]); }
    ZeroMeansFinished(states, steps, i);
  }

  function Below(n: nat): (js: set<nat>)
    ensures forall j: nat :: j in js <==> j < n
  {
    if n == 0 then {} else Below(n - 1) + {n - 1}
  }

  // The state after n producers have counted their job and none has pushed it.
  function Announced(n: nat): State {
    INITIAL.(pending := n % U32, submitted := n, announced := Below(n))
  }

  lemma AnnouncedNext(n: nat)
    ensures Next(Announced(n), Announced(n + 1), Announce)
  {
    CountUp(n);
  }

  /** A run in which the counter is wrong: after 2^32 announcements it reads zero and no job is finished. */
  lemma FullCounterReadsZero() returns (states: seq<State>, steps: seq<Step>)
    ensures IsRun(states, steps) && |steps| == U32 && forall k :: 0 <= k < |steps| ==> steps[k] == Announce
    ensures Last(states).pending == 0 && Last(states).submitted == U32
    ensures Last(states).finished == [] && !AllFinished(Last(states))
  {
    steps := seq(U32, k => Announce);
    states := seq(U32 + 1, k requires 0 <= k => Announced(k));
    assert Announced(0) == INITIAL;
    forall k | 0 <= k < |steps|
      ensures Next(states[k], states[k+1], steps[k])
    {
      AnnouncedNext(k);
    }
    WholeCounter();
    var s := Last(states);
    assert 0 < s.submitted && 0 !in s.finished;
  }

  lemma WholeCounter()
    ensures U32 % U32 == 0
  {
  }

  /** Each job is compiled at most once, in push order, in every interleaving. */
  lemma CompiledOnce(states: seq<State>, steps: seq<Step>, i: nat)
    requires IsRun(states, steps) && i < |states|
    ensures var s := states[i];
      && NoDup(s.compiled) && NoDup(s.finished) && s.finished <= s.pushed
      && forall j :: j in s.compiled ==> j in s.finished
  {
    EveryStateKeepsInv(states, steps, i);
    var s := states[i];
    assert forall k :: 0 <= k < |s.finished| ==> s.pushed[k] == s.finished[k];
  }

  // Step m was the compilation of job j, and it succeeded if `ok`.
  ghost predicate CompiledAt(states: seq<State>, steps: seq<Step>, m: nat, j: nat, ok: bool)
    requires |states| == |steps| + 1
  {
    m < |steps| && steps[m] == Compile(ok) && states[m].worker == Holding(j)
  }

  /** A job is in the cache exactly when the worker's compilation of it succeeded, and finished when it was
      compiled at all. */
  lemma {:induction false} CacheHoldsSuccesses(states: seq<State>, steps: seq<Step>, i: nat, j: nat)
    requires IsRun(states, steps) && i < |states|
    ensures j in states[i].compiled <==> exists m: nat :: m < i && CompiledAt(states, steps, m, j, true)
    ensures j in states[i].finished <==>
      exists m: nat, ok :: m < i && CompiledAt(states, steps, m, j, ok)
    decreases i
  {
    if i > 0 {
      CacheHoldsSuccesses(states, steps, i - 1, j);
      var s, s', step := states[i - 1], states[i], steps[i - 1];
      assert Next(s, s', step);
      if step.Compile? { assert CompiledAt(states, steps, i - 1, s.worker.job, step.ok); }
    }
  }

  /** Shutdown flushes first: if the counter read zero at `i` and nothing is submitted after
      that, no later state has anything queued, whatever the stop flag does. */
  lemma {:induction false} FlushThenStopDropsNothing(states: seq<State>, steps: seq<Step>, i: nat, k: nat)
    requires IsRun(states, steps) && i <= k < |states|
    requires states[i].pending == 0 && Outstanding(states[i]) < U32
    requires forall m :: i <= m < k ==> steps[m] != Announce
    ensures Outstanding(states[k]) == 0 && AllFinished(states[k])
    ensures states[k].finished == states[i].finished
    decreases k
  {
    EveryStateKeepsInv(states, steps, k);
    if k == i {
      SmallModulus(Outstanding(states[i]));
      assert states[i].pushed == states[i].finished;
    } else {
      FlushThenStopDropsNothing(states, steps, i, k - 1);
      assert Next(states[k-1], states[k], steps[k-1]);
    }
  }

  /** Stopping without the flush does drop jobs: a run that leaves one queued for ever. */
  lemma StopAloneDrops() returns (states: seq<State>, steps: seq<Step>)
    ensures IsRun(states, steps)
    ensures Last(states).worker == Exited && Last(states).queue == [0] && Last(states).finished == []
  {
    steps := [Announce, Push(0), Stop, TestRunning];
    var s0 := INITIAL;
    var s1 := s0.(pending := 1, submitted := 1, announced := {0});
    var s2 := s1.(announced := {}, queue := [0], pushed := [0]);
    var s3 := s2.(running := false);
    var s4 := s3.(worker := Exited);
    states := [s0, s1, s2, s3, s4];
    SmallModulus(1);
    assert s0.announced + {0} == {0} && s1.announced - {0} == {};
    assert Next(s0, s1, Announce) && Next(s1, s2, Push(0)) && Next(s2, s3, Stop) && Next(s3, s4, TestRunning);
  }
}
