/** The shader cache shared by callers and the background worker, interleaved at every use of its lock.
    Clock readings are arbitrary: threads may read equal or even decreasing times. */
module SharedCache {
  import opened Options
  import opened ShaderCache
  import opened Words

  datatype Job = Job(key: ShaderKey, spirv: seq<byte>)

  // A thread inside Compile.
  datatype Caller =
    | Idle
    | Missed(job: Job)            // looked up and missed, compiling without the lock
    | Built(entry: CacheEntry)    // about to insert

  datatype Background =
    | Resting
    | Compiling(job: Job)
    | Storing(entry: CacheEntry)

  datatype State = State(entries: Entries, callers: seq<Caller>, worker: Background, jobs: seq<Job>)

  datatype Step =
    | Look(key: ShaderKey, now: nat)
    | Begin(t: nat, job: Job, now: nat)   // Compile: its look-up
    | Build(t: nat, now: nat)             // Compile: the compiler, then the entry
    | Insert(t: nat)                      // Compile: evict and insert
    | Queue(job: Job)
    | Take                                // RunWorker: pop a job
    | CompileJob(now: nat)                // RunWorker: the compiler, then the entry
    | Store                               // RunWorker: evict and insert
    | Drop(key: ShaderKey)                // Invalidate

  function Touched(es: Entries, key: ShaderKey, now: nat): Entries {
    if key in es then es[key := Stamp(es[key], now)] else es
  }

  // Both insertions evict an oldest entry of a full cache, even one that is about to be replaced.
  ghost predicate Inserted(es: Entries, es': Entries, e: CacheEntry, max: nat) {
    exists kept :: Evicted(es, kept, max) && es' == kept[e.key := e]
  }

  ghost predicate Next(s: State, s': State, step: Step, max: nat, c: Compiler) {
    match step
    case Look(key, now) =>
      s' == s.(entries := Touched(s.entries, key, now))
    case Begin(t, job, now) =>
      t < |s.callers| && s.callers[t] == Idle &&
      s' == s.(entries := Touched(s.entries, job.key, now),
               callers := s.callers[t := if job.key in s.entries then Idle else Missed(job)])
    case Build(t, now) =>
      t < |s.callers| && s.callers[t].Missed? &&
      s' == s.(callers := s.callers[t := Built(NewEntry(c, s.callers[t].job.key, s.callers[t].job.spirv, now))])
    case Insert(t) =>
      t < |s.callers| && s.callers[t].Built? && Inserted(s.entries, s'.entries, s.callers[t].entry, max) &&
      s' == s.(entries := s'.entries, callers := s.callers[t := Idle])
    case Queue(job) =>
      s' == s.(jobs := s.jobs + [job])
    case Take =>
      s.worker == Resting && s.jobs != [] && s' == s.(worker := Compiling(s.jobs[0]), jobs := s.jobs[1..])
    case CompileJob(now) =>
      s.worker.Compiling? &&
      s' == s.(worker :=
        if c.Some? && Direct(c, s.worker.job.spirv, s.worker.job.key.stage) != []
        then Storing(NewEntry(c, s.worker.job.key, s.worker.job.spirv, now)) else Resting)
    case Store =>
      s.worker.Storing? && Inserted(s.entries, s'.entries, s.worker.entry, max) &&
      s' == s.(entries := s'.entries, worker := Resting)
    case Drop(key) =>
      s' == s.(entries := s.entries - {key})
  }

  lemma ReplacedSize(es: Entries, key: ShaderKey, e: CacheEntry)
    ensures |es[key := e]| == |es| + if key in es then 0 else 1
  {
    var after := es[key := e];
    assert after.Keys == es.Keys + {key};
    assert |after| == |after.Keys| && |es| == |es.Keys|;
    if key in es { assert es.Keys + {key} == es.Keys; }
  }

  lemma RemovedSize(es: Entries, key: ShaderKey)
    ensures |es - {key}| == |es| - if key in es then 1 else 0
  {
    var after := es - {key};
    assert after.Keys == es.Keys - {key};
    assert |after| == |after.Keys| && |es| == |es.Keys|;
    if key !in es { assert es.Keys - {key} == es.Keys; }
  }

  /** An insertion respects the limit; into a full cache it leaves the limit reached exactly when the key
      was not cached or its own entry was the one evicted. Otherwise another entry is lost for nothing. */
  lemma InsertionSize(es: Entries, kept: Entries, e: CacheEntry, max: nat)
    requires max >= 1 && |es| <= max && Evicted(es, kept, max)
    ensures |kept[e.key := e]| <= max
    ensures |es| == max ==> (|kept[e.key := e]| == max <==> e.key !in kept)
  {
    ReplacedSize(kept, e.key, e);
    if |es| >= max {
      var o :| o in es && (forall j :: j in es ==> es[o].lastUsedUs <= es[j].lastUsedUs) && kept == es - {o};
      RemovedSize(es, o);
    }
  }

  lemma InsertionKeeps(es: Entries, es': Entries, e: CacheEntry, max: nat)
    requires max >= 1 && |es| <= max && Inserted(es, es', e, max)
    ensures |es'| <= max
  {
    var kept :| Evicted(es, kept, max) && es' == kept[e.key := e];
    InsertionSize(es, kept, e, max);
  }

  lemma TouchKeeps(es: Entries, key: ShaderKey, now: nat)
    ensures |Touched(es, key, now)| == |es|
  {
    if key in es { ReplacedSize(es, key, Stamp(es[key], now)); }
  }

  lemma NextKeepsLimit(s: State, s': State, step: Step, max: nat, c: Compiler)
    requires max >= 1 && |s.entries| <= max && Next(s, s', step, max, c)
    ensures |s'.entries| <= max
  {
    match step
    case Look(key, now) => TouchKeeps(s.entries, key, now);
    case Begin(t, job, now) => TouchKeeps(s.entries, job.key, now);
    case Insert(t) => InsertionKeeps(s.entries, s'.entries, s.callers[t].entry, max);
    case Store => InsertionKeeps(s.entries, s'.entries, s.worker.entry, max);
    case Drop(key) => RemovedSize(s.entries, key);
    case _ =>
  }

  function Initial(threads: nat): State {
    State(map[], seq(threads, t => Idle), Resting, [])
  }

  ghost predicate IsRun(states: seq<State>, steps: seq<Step>, threads: nat, max: nat, c: Compiler) {
    && |states| == |steps| + 1
    && states[0] == Initial(threads)
    && forall i :: 0 <= i < |steps| ==> Next(states[i], states[i + 1], steps[i], max, c)
  }

  lemma {:induction false} EveryStateKeepsLimit(
    states: seq<State>, steps: seq<Step>, threads: nat, max: nat, c: Compiler, i: nat)
    requires max >= 1 && IsRun(states, steps, threads, max, c) && i < |states|
    ensures |states[i].entries| <= max
    decreases i
  {
    if i > 0 {
      EveryStateKeepsLimit(states, steps, threads, max, c, i - 1);
      NextKeepsLimit(states[i - 1], states[i], steps[i - 1], max, c);
    }
  }

  // ----- where the sources come from -----

  predicate Offers(step: Step, job: Job) {
    match step
    case Begin(_, j, _) => j == job
    case Queue(j) => j == job
    case _ => false
  }

  ghost predicate Offered(steps: seq<Step>, i: nat, job: Job)
    requires i <= |steps|
  {
    exists j :: 0 <= j < i && Offers(steps[j], job)
  }

  // The entry is a compile of a source that was handed in for its key.
  ghost predicate Honest(steps: seq<Step>, i: nat, c: Compiler, e: CacheEntry)
    requires i <= |steps|
  {
    && Offered(steps, i, Job(e.key, e.spirv))
    && e.binary == match c case Some(compile) => compile(e.spirv, e.key.stage) case None => e.spirv
  }

  ghost predicate HonestCaller(steps: seq<Step>, i: nat, c: Compiler, p: Caller)
    requires i <= |steps|
  {
    match p
    case Idle => true
    case Missed(job) => Offered(steps, i, job)
    case Built(e) => Honest(steps, i, c, e)
  }

  ghost predicate HonestWorker(steps: seq<Step>, i: nat, c: Compiler, w: Background)
    requires i <= |steps|
  {
    match w
    case Resting => true
    case Compiling(job) => Offered(steps, i, job)
    case Storing(e) => Honest(steps, i, c, e)
  }

  ghost predicate HonestEntries(steps: seq<Step>, i: nat, c: Compiler, es: Entries)
    requires i <= |steps|
  {
    forall k :: k in es ==> es[k].key == k && Honest(steps, i, c, es[k])
  }

  ghost predicate HonestState(steps: seq<Step>, i: nat, c: Compiler, s: State)
    requires i <= |steps|
  {
    && HonestEntries(steps, i, c, s.entries)
    && (forall t :: 0 <= t < |s.callers| ==> HonestCaller(steps, i, c, s.callers[t]))
    && HonestWorker(steps, i, c, s.worker)
    && (forall q :: 0 <= q < |s.jobs| ==> Offered(steps, i, s.jobs[q]))
  }

  lemma StaysOffered(steps: seq<Step>, i: nat, job: Job)
    requires i < |steps| && Offered(steps, i, job)
    ensures Offered(steps, i + 1, job)
  {
  }

  // Nothing honest becomes less so.
  lemma StaysHonest(steps: seq<Step>, i: nat, c: Compiler, s: State)
    requires i < |steps| && HonestState(steps, i, c, s)
    ensures HonestState(steps, i + 1, c, s)
  {
    forall job | Offered(steps, i, job)
      ensures Offered(steps, i + 1, job)
    {
      StaysOffered(steps, i, job);
    }
  }

  lemma TouchIsHonest(steps: seq<Step>, i: nat, c: Compiler, es: Entries, key: ShaderKey, now: nat)
    requires i <= |steps| && HonestEntries(steps, i, c, es)
    ensures HonestEntries(steps, i, c, Touched(es, key, now))
  {
  }

  lemma InsertIsHonest(
    steps: seq<Step>, i: nat, c: Compiler, es: Entries, es': Entries, e: CacheEntry, max: nat)
    requires i <= |steps| && HonestEntries(steps, i, c, es)
    requires Honest(steps, i, c, e) && Inserted(es, es', e, max)
    ensures HonestEntries(steps, i, c, es')
  {
    var kept :| Evicted(es, kept, max) && es' == kept[e.key := e];
    EvictedIsOld(es, kept, max);
  }

  lemma EntriesStayHonest(steps: seq<Step>, i: nat, s: State, s': State, max: nat, c: Compiler)
    requires i < |steps| && HonestState(steps, i + 1, c, s) && Next(s, s', steps[i], max, c)
    ensures HonestEntries(steps, i + 1, c, s'.entries)
  {
    match steps[i]
    case Look(key, now) => TouchIsHonest(steps, i + 1, c, s.entries, key, now);
    case Begin(t, job, now) => TouchIsHonest(steps, i + 1, c, s.entries, job.key, now);
    case Insert(t) =>
      assert HonestCaller(steps, i + 1, c, s.callers[t]);
      InsertIsHonest(steps, i + 1, c, s.entries, s'.entries, s.callers[t].entry, max);
    case Store => InsertIsHonest(steps, i + 1, c, s.entries, s'.entries, s.worker.entry, max);
    case _ =>
  }

  lemma CallersStayHonest(steps: seq<Step>, i: nat, s: State, s': State, max: nat, c: Compiler, t: nat)
    requires i < |steps| && HonestState(steps, i + 1, c, s) && Next(s, s', steps[i], max, c)
    requires t < |s'.callers|
    ensures HonestCaller(steps, i + 1, c, s'.callers[t])
  {
    assert HonestCaller(steps, i + 1, c, s.callers[t]);
    if steps[i].Begin? { assert Offers(steps[i], steps[i].job); }
  }

  lemma WorkerStaysHonest(steps: seq<Step>, i: nat, s: State, s': State, max: nat, c: Compiler)
    requires i < |steps| && HonestState(steps, i + 1, c, s) && Next(s, s', steps[i], max, c)
    ensures HonestWorker(steps, i + 1, c, s'.worker)
  {
    if steps[i].Take? { assert Offered(steps, i + 1, s.jobs[0]); }
  }

  lemma JobsStayHonest(steps: seq<Step>, i: nat, s: State, s': State, max: nat, c: Compiler, q: nat)
    requires i < |steps| && HonestState(steps, i + 1, c, s) && Next(s, s', steps[i], max, c)
    requires q < |s'.jobs|
    ensures Offered(steps, i + 1, s'.jobs[q])
  {
    if steps[i].Queue? { assert Offers(steps[i], steps[i].job); }
    if steps[i].Take? { assert s'.jobs[q] == s.jobs[q + 1]; }
  }

  lemma StepIsHonest(steps: seq<Step>, i: nat, s: State, s': State, max: nat, c: Compiler)
    requires i < |steps| && HonestState(steps, i, c, s) && Next(s, s', steps[i], max, c)
    ensures HonestState(steps, i + 1, c, s')
  {
    StaysHonest(steps, i, c, s);
    EntriesStayHonest(steps, i, s, s', max, c);
    WorkerStaysHonest(steps, i, s, s', max, c);
    forall t | 0 <= t < |s'.callers|
      ensures HonestCaller(steps, i + 1, c, s'.callers[t])
    {
      CallersStayHonest(steps, i, s, s', max, c, t);
    }
    forall q | 0 <= q < |s'.jobs|
      ensures Offered(steps, i + 1, s'.jobs[q])
    {
      JobsStayHonest(steps, i, s, s', max, c, q);
    }
  }

  lemma {:induction false} EveryStateIsHonest(
    states: seq<State>, steps: seq<Step>, threads: nat, max: nat, c: Compiler, i: nat)
    requires IsRun(states, steps, threads, max, c) && i < |states|
    ensures HonestState(steps, i, c, states[i])
    decreases i
  {
    if i > 0 {
      EveryStateIsHonest(states, steps, threads, max, c, i - 1);
      StepIsHonest(steps, i - 1, states[i - 1], states[i], max, c);
    }
  }

  /** In every interleaving of any number of callers with the worker there are never more than `max` entries,
      and each of them holds a compile of a source that a Compile or a QueueCompile handed in for its key. */
  lemma EveryInterleavingIsSound(
    states: seq<State>, steps: seq<Step>, threads: nat, max: nat, c: Compiler, i: nat)
    requires max >= 1 && IsRun(states, steps, threads, max, c) && i < |states|
    ensures |states[i].entries| <= max
    ensures forall k :: k in states[i].entries ==> var e := states[i].entries[k];
      && e.key == k
      && (exists j :: 0 <= j < i && Offers(steps[j], Job(k, e.spirv)))
      && e.binary == match c case Some(compile) => compile(e.spirv, k.stage) case None => e.spirv
  {
    EveryStateKeepsLimit(states, steps, threads, max, c, i);
    EveryStateIsHonest(states, steps, threads, max, c, i);
    var s := states[i];
    forall k | k in s.entries
      ensures Honest(steps, i, c, s.entries[k]) && s.entries[k].key == k
    {
    }
  }
}
