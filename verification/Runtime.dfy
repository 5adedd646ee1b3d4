/** The runtime manager: dependency-ordered start-up and reverse-ordered shutdown of subsystems. */
module Runtime {
  import opened Graphs
  import TopoSort

  datatype SubsystemState =
    Unregistered | Registered | Initialising | Running | ShuttingDown | Stopped | Failed

  // The init callback: absent, or one that does not re-enter the manager and returns `ok`.
  datatype InitFn = NoInit | Returns(ok: bool)

  datatype Desc = Desc(init: InitFn, hasShutdown: bool, deps: seq<nat>, optional: bool)
  datatype Entry = Entry(desc: Desc, state: SubsystemState)
  type Entries = map<nat, Entry>

  // A callback invocation, with the subsystems that were Running at that moment.
  datatype Call = InitCall(id: nat, running: set<nat>) | ShutdownCall(id: nat, running: set<nat>)

  function GraphOf(es: Entries): Graph {
    map k | k in es :: es[k].desc.deps
  }

  function RunningSet(es: Entries): set<nat> {
    set k | k in es && es[k].state == Running
  }

  ghost predicate SameDescs(es: Entries, es': Entries) {
    es'.Keys == es.Keys && forall k :: k in es ==> es'[k].desc == es[k].desc
  }

  /** The subsystems that must end up Running: everything they reach through dependencies is
      registered, off every cycle, and has an init callback that succeeds. */
  ghost predicate Starts(es: Entries, v: nat) {
    && Grounded(GraphOf(es), v)
    && forall p: seq<nat> :: WalkFrom(GraphOf(es), p, v) ==> Last(p) in es && es[Last(p)].desc.init != Returns(false)
  }

  ghost predicate DepsStart(es: Entries, v: nat) {
    forall d :: Edge(GraphOf(es), v, d) ==> Starts(es, d)
  }

  /** The state InitAll leaves a listed subsystem in. An optional subsystem whose dependencies
      did not come up stays Initialising. */
  ghost function Outcome(es: Entries, v: nat): SubsystemState
    requires v in es
  {
    if Starts(es, v) then Running
    else if DepsStart(es, v) || !es[v].desc.optional then Failed
    else Initialising
  }

  lemma StartsUnfold(es: Entries, v: nat)
    requires v in es && Grounded(GraphOf(es), v)
    ensures Starts(es, v) <==> es[v].desc.init != Returns(false) && DepsStart(es, v)
  {
    var g := GraphOf(es);
    if Starts(es, v) {
      assert WalkFrom(g, [v], v);
      forall d | Edge(g, v, d) ensures Starts(es, d) { StartsDown(es, v, d); }
    }
    if es[v].desc.init != Returns(false) && DepsStart(es, v) {
      forall p: seq<nat> | WalkFrom(g, p, v) ensures Last(p) in es && es[Last(p)].desc.init != Returns(false) {
        if |p| > 1 {
          assert Edge(g, p[0], p[1]);
          WalkTail(g, p);
          assert WalkFrom(g, p[1..], p[1]);
          assert Last(p[1..]) == Last(p);
        }
      }
    }
  }

  lemma GroundedDown(g: Graph, v: nat, d: nat)
    requires Grounded(g, v) && Edge(g, v, d)
    ensures Grounded(g, d)
  {
    forall p: seq<nat> | WalkFrom(g, p, d)
      ensures Last(p) in g && NoDup(p)
    {
      ConsWalk(g, v, p);
      var q := [v] + p;
      assert WalkFrom(g, q, v) && Last(q) == Last(p);
      assert NoDup(q);
      forall i, j | 0 <= i < j < |p| ensures p[i] != p[j] { assert q[i+1] != q[j+1]; }
    }
  }

  lemma StartsDown(es: Entries, v: nat, d: nat)
    requires Starts(es, v) && Edge(GraphOf(es), v, d)
    ensures Starts(es, d)
  {
    var g := GraphOf(es);
    GroundedDown(g, v, d);
    forall p: seq<nat> | WalkFrom(g, p, d)
      ensures Last(p) in es && es[Last(p)].desc.init != Returns(false)
    {
      ConsWalk(g, v, p);
      assert WalkFrom(g, [v] + p, v) && Last([v] + p) == Last(p);
    }
  }

  lemma SameDescsSameStarts(es: Entries, es': Entries)
    requires SameDescs(es, es')
    ensures GraphOf(es') == GraphOf(es)
    ensures forall v: nat :: Starts(es', v) <==> Starts(es, v)
    ensures forall v: nat :: DepsStart(es', v) <==> DepsStart(es, v)
  {
    assert GraphOf(es') == GraphOf(es);
    forall v: nat ensures Starts(es', v) <==> Starts(es, v) { }
  }

  // init sees all its dependencies Running; shutdown sees no Running subsystem that needs it.
  ghost predicate SafeCall(g: Graph, c: Call) {
    match c
    case InitCall(id, running) => forall d :: Edge(g, id, d) ==> d in running
    case ShutdownCall(id, running) => forall u :: u in running ==> !Edge(g, u, id)
  }

  ghost predicate SafeCalls(g: Graph, cs: seq<Call>) {
    forall c :: c in cs ==> SafeCall(g, c)
  }

  // initOrder lists the Running subsystems, dependencies first.
  ghost predicate Consistent(es: Entries, initOrder: seq<nat>, calls: seq<Call>) {
    && DepsFirst(GraphOf(es), initOrder)
    && (forall v :: v in initOrder <==> v in RunningSet(es))
    && SafeCalls(GraphOf(es), calls)
  }

  function SetState(es: Entries, id: nat, s: SubsystemState): Entries
    requires id in es
  {
    es[id := es[id].(state := s)]
  }

  lemma SetStateEffect(es: Entries, id: nat, s: SubsystemState)
    requires id in es
    ensures GraphOf(SetState(es, id, s)) == GraphOf(es)
    ensures RunningSet(SetState(es, id, s)) == RunningSet(es) - {id} + (if s == Running then {id} else {})
  {
  }

  lemma ConsistentIdle(es: Entries, order: seq<nat>, calls: seq<Call>, id: nat, s: SubsystemState)
    requires Consistent(es, order, calls) && id in es && id !in order && s != Running
    ensures Consistent(SetState(es, id, s), order, calls)
    ensures RunningSet(SetState(es, id, s)) == RunningSet(es)
  {
    SetStateEffect(es, id, s);
  }

  lemma ConsistentStart(es: Entries, order: seq<nat>, calls: seq<Call>, id: nat)
    requires Consistent(es, order, calls) && id in es && id !in order
    requires forall d :: Edge(GraphOf(es), id, d) ==> d in RunningSet(es)
    ensures Consistent(SetState(es, id, Running), order + [id], calls)
  {
    SetStateEffect(es, id, Running);
    DepsFirstSnoc(GraphOf(es), order, id);
  }

  // Where one turn of the InitAll loop leaves a subsystem, given its dependency check.
  function TurnResult(d: Desc, depsOk: bool): SubsystemState {
    if !depsOk then (if d.optional then Initialising else Failed)
    else if d.init != Returns(false) then Running else Failed
  }

  predicate DepsUp(es: Entries, id: nat)
    requires id in es
  {
    forall d :: d in es[id].desc.deps ==> d in RunningSet(es)
  }

  lemma OutcomeCases(es: Entries, id: nat)
    requires id in es && Grounded(GraphOf(es), id)
    ensures Starts(es, id) <==> DepsStart(es, id) && es[id].desc.init != Returns(false)
    ensures Outcome(es, id) == TurnResult(es[id].desc, DepsStart(es, id))
  {
    StartsUnfold(es, id);
  }

  function Ids(cs: seq<Call>): seq<nat> {
    seq(|cs|, i requires 0 <= i < |cs| => cs[i].id)
  }

  lemma IdsAppend(cs: seq<Call>, c: Call)
    ensures Ids(cs + [c]) == Ids(cs) + [c.id]
  {
  }

  // The state InitAll has reached after the subsystems in `part`.
  ghost predicate Reached(es0: Entries, es: Entries, part: seq<nat>, ok: bool) {
    && SameDescs(es0, es)
    && (forall v :: v in es ==> es[v].state == if v in part then Outcome(es0, v) else Registered)
    && (ok <==> forall v :: v in part && v in es0 && !es0[v].desc.optional ==> Starts(es0, v))
  }

  // init has run exactly once for every subsystem in `part` whose dependencies came up.
  ghost predicate Initialised(es0: Entries, part: seq<nat>, calls: seq<Call>) {
    && NoDup(Ids(calls))
    && (forall c :: c in calls ==> c.InitCall?)
    && (forall v: nat :: v in Ids(calls) <==> v in part && v in es0 && DepsStart(es0, v) && es0[v].desc.init != NoInit)
  }

  lemma TurnMatchesOutcome(es0: Entries, es: Entries, order: seq<nat>, k: nat, ok: bool)
    requires KahnResult(GraphOf(es0), order) && k < |order|
    requires Reached(es0, es, order[..k], ok)
    ensures order[k] in es && es[order[k]].state == Registered && es[order[k]].desc == es0[order[k]].desc
    ensures DepsUp(es, order[k]) <==> DepsStart(es0, order[k])
    ensures TurnResult(es[order[k]].desc, DepsUp(es, order[k])) == Outcome(es0, order[k])
  {
    var g, id := GraphOf(es0), order[k];
    KahnListsTheGrounded(g, order);
    assert id in order;
    OutcomeCases(es0, id);
    forall d | Edge(g, id, d) ensures d in RunningSet(es) <==> Starts(es0, d) {
      assert d in order[..k];
    }
  }

  lemma ReachedStep(es0: Entries, es: Entries, order: seq<nat>, k: nat, ok: bool)
    requires KahnResult(GraphOf(es0), order) && k < |order| && order[k] in es
    requires Reached(es0, es, order[..k], ok)
    ensures Reached(es0, SetState(es, order[k], Outcome(es0, order[k])), order[..k+1],
      ok && (Outcome(es0, order[k]) == Running || es0[order[k]].desc.optional))
  {
    assert order[..k+1] == order[..k] + [order[k]];
  }

  lemma InitialisedStep(es0: Entries, order: seq<nat>, k: nat, calls: seq<Call>, up: bool, running: set<nat>)
    requires NoDup(order) && k < |order| && order[k] in es0 && (up <==> DepsStart(es0, order[k]))
    requires Initialised(es0, order[..k], calls)
    ensures Initialised(es0, order[..k+1],
      calls + if up && es0[order[k]].desc.init != NoInit then [InitCall(order[k], running)] else [])
  {
    assert order[..k+1] == order[..k] + [order[k]];
    assert order[k] !in order[..k];
    IdsAppend(calls, InitCall(order[k], running));
    assert calls + [] == calls;
  }

  lemma TakeOneMore(order: seq<nat>, k: nat)
    requires NoDup(order) && k < |order|
    ensures order[k] !in order[..k]
    ensures forall v :: v in order[..k] || v == order[k] ==> v in order[..k+1]
  {
    assert order[..k+1] == order[..k] + [order[k]];
  }

  lemma TurnAdvances(es0: Entries, es: Entries, order: seq<nat>, k: nat, ok: bool, calls: seq<Call>)
    requires KahnResult(GraphOf(es0), order) && k < |order|
    requires Reached(es0, es, order[..k], ok) && Initialised(es0, order[..k], calls)
    ensures order[k] in es && order[k] !in order[..k]
    ensures forall v :: v in order[..k] || v == order[k] ==> v in order[..k+1]
    ensures var id := order[k]; var up := DepsUp(es, id); var s := TurnResult(es[id].desc, up);
      && Reached(es0, SetState(es, id, s), order[..k+1], ok && (s == Running || es[id].desc.optional))
      && Initialised(es0, order[..k+1],
           calls + if up && es[id].desc.init != NoInit then [InitCall(id, RunningSet(es))] else [])
  {
    var id := order[k];
    TurnMatchesOutcome(es0, es, order, k, ok);
    ReachedStep(es0, es, order, k, ok);
    InitialisedStep(es0, order, k, calls, DepsUp(es, id), RunningSet(es));
    TakeOneMore(order, k);
  }

  ghost predicate Within(shown: seq<nat>, part: seq<nat>) {
    forall v :: v in shown ==> v in part
  }

  lemma StillWithin(shown: seq<nat>, id: nat, part: seq<nat>, next: seq<nat>)
    requires Within(shown, part) && forall v :: v in part || v == id ==> v in next
    ensures Within(shown + [id], next) && Within(shown + [], next)
  {
  }

  // Once a run has reached the end, the order it took no longer shows.
  lemma ReachedEnd(es0: Entries, es: Entries, order: seq<nat>, ok: bool)
    requires KahnResult(GraphOf(es0), order) && Reached(es0, es, order, ok)
    ensures StartedFrom(es0, es, ok)
  {
    var g := GraphOf(es0);
    KahnListsTheGrounded(g, order);
    forall v: nat ensures v in RunningSet(es) <==> Starts(es0, v) { }
  }

  /** init has been called exactly once for every subsystem whose dependencies came up, and for no other. */
  ghost predicate CalledOnce(es0: Entries, calls: seq<Call>) {
    && NoDup(Ids(calls))
    && forall v: nat :: v in Ids(calls) <==>
         v in es0 && Grounded(GraphOf(es0), v) && DepsStart(es0, v) && es0[v].desc.init != NoInit
  }

  lemma CallsEnd(es0: Entries, order: seq<nat>, calls: seq<Call>)
    requires KahnResult(GraphOf(es0), order) && Initialised(es0, order, calls)
    ensures CalledOnce(es0, calls)
  {
    KahnListsTheGrounded(GraphOf(es0), order);
  }

  lemma StartEnd(es0: Entries, es: Entries, order: seq<nat>, ok: bool, calls: seq<Call>)
    requires KahnResult(GraphOf(es0), order) && Reached(es0, es, order, ok) && Initialised(es0, order, calls)
    ensures StartedFrom(es0, es, ok) && CalledOnce(es0, calls) && StartMeans(es0, es, ok)
  {
    ReachedEnd(es0, es, order, ok);
    CallsEnd(es0, order, calls);
    StartedMeans(es0, es, ok);
  }

  /** What InitAll leaves, whatever order the maps were iterated in. */
  ghost predicate StartedFrom(es0: Entries, es: Entries, ok: bool) {
    && SameDescs(es0, es)
    && (forall v :: v in es ==> es[v].state == if Grounded(GraphOf(es0), v) then Outcome(es0, v) else Registered)
    && (forall v: nat :: v in RunningSet(es) <==> Starts(es0, v))
    && (ok <==> forall v :: v in es0 && Grounded(GraphOf(es0), v) && !es0[v].desc.optional ==> Starts(es0, v))
  }

  // Some walk along the dependencies of `v` ends at a subsystem whose init returns false.
  ghost predicate ReachesFailure(es: Entries, v: nat) {
    exists p: seq<nat> :: WalkFrom(GraphOf(es), p, v) && Last(p) in es && es[Last(p)].desc.init == Returns(false)
  }

  ghost predicate AllRunning(es: Entries, ids: seq<nat>) {
    forall d :: d in ids ==> d in es && es[d].state == Running
  }

  // The state of one grounded subsystem, by its own callback and its direct dependencies.
  ghost predicate LocallyRight(es: Entries, v: nat)
    requires v in es
  {
    var d, s := es[v].desc, es[v].state;
    if AllRunning(es, d.deps) then
      (s == Running <==> d.init == NoInit || d.init == Returns(true)) && (s == Failed <==> d.init == Returns(false))
    else s == if d.optional then Initialising else Failed
  }

  /** What start-up means for the callbacks: a subsystem whose direct dependencies run is Running if it has no
      init or its init returned true, and Failed if it returned false; a grounded subsystem runs if and only if
      nothing it reaches returned false; and the result is false if and only if some mandatory grounded
      subsystem reaches one that did. */
  ghost predicate StartMeans(es0: Entries, es: Entries, ok: bool) {
    && es.Keys == es0.Keys && (forall v :: v in es ==> es[v].desc == es0[v].desc)
    && (forall v :: v in es && !Grounded(GraphOf(es0), v) ==> es[v].state == Registered)
    && (forall v :: v in es && Grounded(GraphOf(es0), v) ==>
          LocallyRight(es, v) && (es[v].state == Running <==> !ReachesFailure(es0, v)))
    && (!ok <==> exists v :: v in es0 && Grounded(GraphOf(es0), v) && !es0[v].desc.optional && ReachesFailure(es0, v))
  }

  lemma StartsUnlessFailure(es: Entries, v: nat)
    requires Grounded(GraphOf(es), v)
    ensures Starts(es, v) <==> !ReachesFailure(es, v)
  {
    if !ReachesFailure(es, v) {
      forall p: seq<nat> | WalkFrom(GraphOf(es), p, v)
        ensures Last(p) in es && es[Last(p)].desc.init != Returns(false)
      {
        assert Last(p) in GraphOf(es);
      }
    }
  }

  lemma StartedLocallyRight(es0: Entries, es: Entries, ok: bool, v: nat)
    requires StartedFrom(es0, es, ok) && v in es && Grounded(GraphOf(es0), v)
    ensures LocallyRight(es, v)
  {
    OutcomeCases(es0, v);
    forall d | d in es[v].desc.deps
      ensures d in es && es[d].state == Running <==> Starts(es0, d)
    {
      assert d in RunningSet(es) <==> Starts(es0, d);
    }
    assert AllRunning(es, es[v].desc.deps) <==> DepsStart(es0, v) by {
      assert forall d :: Edge(GraphOf(es0), v, d) <==> d in es[v].desc.deps;
    }
  }

  lemma StartedMeans(es0: Entries, es: Entries, ok: bool)
    requires StartedFrom(es0, es, ok)
    ensures StartMeans(es0, es, ok)
  {
    forall v | v in es && Grounded(GraphOf(es0), v)
      ensures LocallyRight(es, v) && (es[v].state == Running <==> !ReachesFailure(es0, v))
    {
      StartedLocallyRight(es0, es, ok, v);
      StartsUnlessFailure(es0, v);
      assert v in RunningSet(es) <==> Starts(es0, v);
    }
    forall v | v in es0 && Grounded(GraphOf(es0), v)
      ensures Starts(es0, v) <==> !ReachesFailure(es0, v)
    {
      StartsUnlessFailure(es0, v);
    }
  }

  /** InitAll skips subsystems that sit on a cycle or need an unregistered one, so its result
      alone is not enough: every mandatory subsystem runs exactly when it returned true and
      none of them was skipped. */
  lemma TrueMeansRunningUnlessSkipped(es0: Entries, es: Entries, ok: bool)
    requires StartedFrom(es0, es, ok)
    ensures (forall v :: v in es && !es[v].desc.optional ==> es[v].state == Running) <==>
      ok && forall v :: v in es0 && !es0[v].desc.optional ==> Grounded(GraphOf(es0), v)
  {
    if forall v :: v in es && !es[v].desc.optional ==> es[v].state == Running {
      forall v | v in es0 && !es0[v].desc.optional ensures Starts(es0, v) {
        assert es[v].state == Running;
        assert v in RunningSet(es);
      }
    }
    if ok && forall v :: v in es0 && !es0[v].desc.optional ==> Grounded(GraphOf(es0), v) {
      forall v | v in es && !es[v].desc.optional ensures es[v].state == Running {
        assert v in es0 && Starts(es0, v);
        assert v in RunningSet(es);
      }
    }
  }

  /** The documented promise fails: a mandatory subsystem that depends on itself is left
      Registered although the result is true. */
  lemma SkippedYetTrue() returns (es0: Entries)
    ensures 0 in es0 && !es0[0].desc.optional
    ensures forall es: Entries, ok: bool :: StartedFrom(es0, es, ok) ==> ok && es[0].state == Registered
  {
    es0 := map[0 := Entry(Desc(NoInit, false, [0], false), Registered)];
    var g := GraphOf(es0);
    var p := [0, 0];
    assert Edge(g, 0, 0);
    assert p[0] == p[1] && !NoDup(p);
    assert WalkFrom(g, p, 0);
    assert !Grounded(g, 0);
  }

  // Each subsystem in `stopped` goes from Running to Stopped; nothing else changes.
  ghost predicate StoppedFrom(es0: Entries, es: Entries, stopped: seq<nat>) {
    && SameDescs(es0, es)
    && forall v :: v in es ==> es[v].state == if v in stopped then Stopped else es0[v].state
  }

  // The shutdown callback of every subsystem in `stopped` has run exactly once.
  ghost predicate Notified(es: Entries, stopped: seq<nat>, calls: seq<Call>) {
    && NoDup(Ids(calls))
    && (forall c :: c in calls ==> c.ShutdownCall?)
    && (forall v: nat :: v in Ids(calls) <==> v in stopped && v in es && es[v].desc.hasShutdown)
  }

  // The subsystems from n on have been stopped, those before are still running.
  ghost predicate Stopping(es0: Entries, es: Entries, order: seq<nat>, n: nat, calls: seq<Call>, news: seq<Call>)
    requires n <= |order|
  {
    && SafeCalls(GraphOf(es), calls) && Notified(es0, order[n..], news)
    && StoppedFrom(es0, es, order[n..]) && GraphOf(es) == GraphOf(es0)
    && forall v :: v in RunningSet(es) <==> v in order[..n]
  }

  lemma NotifiedStep(es: Entries, id: nat, after: seq<nat>, calls: seq<Call>, c: Call)
    requires Notified(es, after, calls) && id in es && id !in after
    requires c.ShutdownCall? && c.id == id
    ensures Notified(es, [id] + after, calls + if es[id].desc.hasShutdown then [c] else [])
  {
    IdsAppend(calls, c);
    assert calls + [] == calls;
  }

  class RuntimeManager {
    var entries: Entries
    var initOrder: seq<nat>
    ghost var calls: seq<Call>

    constructor ()
      ensures entries == map[] && initOrder == [] && calls == []
      ensures Valid()
    {
      entries, initOrder, calls := map[], [], [];
    }

    ghost predicate Valid()
      reads this
    {
      Consistent(entries, initOrder, calls)
    }

    method Register(id: nat, desc: Desc)
      requires Valid() && initOrder == [] && calls == []
      modifies this
      ensures Valid() && initOrder == [] && calls == []
      ensures entries == old(entries)[id := Entry(desc, Registered)]
    {
      ghost var es := entries;
      assert RunningSet(es) == {};
      entries := entries[id := Entry(desc, Registered)];
      assert forall v :: v in RunningSet(entries) ==> v in RunningSet(es);
    }

    // The dependency check of InitAll, with its early exit.
    method DepsRunning(deps: seq<nat>) returns (depsOk: bool)
      ensures depsOk <==> forall d :: d in deps ==> d in RunningSet(entries)
    {
      depsOk := true;
      for k := 0 to |deps|
        invariant forall i :: 0 <= i < k ==> deps[i] in RunningSet(entries)
      {
        var dep := deps[k];
        if dep !in entries || entries[dep].state != Running {
          assert deps[k] in deps;
          return false;
        }
      }
    }

    // The call of the init callback and the recording of its result.
    method CallInit(id: nat) returns (initOk: bool)
      requires Valid() && id in entries && id !in initOrder && DepsUp(entries, id)
      modifies this
      ensures Valid()
      ensures var es := old(entries);
        && initOk == (es[id].desc.init != Returns(false))
        && entries == SetState(es, id, if initOk then Running else Failed)
        && initOrder == old(initOrder) + (if initOk then [id] else [])
        && calls == old(calls) + (if es[id].desc.init != NoInit then [InitCall(id, RunningSet(es))] else [])
    {
      ghost var es := entries;
      var e := entries[id];
      if e.desc.init != NoInit {
        calls := calls + [InitCall(id, RunningSet(entries))];
      }
      initOk := e.desc.init == NoInit || e.desc.init.ok;
      if initOk {
        ConsistentStart(es, initOrder, calls, id);
        entries := entries[id := e.(state := Running)];
        initOrder := initOrder + [id];
      } else {
        ConsistentIdle(es, initOrder, calls, id, Failed);
        entries := entries[id := e.(state := Failed)];
      }
    }

    // One turn of the InitAll loop.
    method StartOne(id: nat) returns (mandatoryFailed: bool)
      requires Valid() && id in entries && id !in initOrder
      modifies this
      ensures Valid()
      ensures var es := old(entries); var d := es[id].desc;
        var up := forall k :: k in d.deps ==> k in es && es[k].state == Running;
        var s := if up then (if d.init != Returns(false) then Running else Failed)
                 else if d.optional then Initialising else Failed;
        && entries == es[id := Entry(d, s)]
        && initOrder == old(initOrder) + (if s == Running then [id] else [])
        && (mandatoryFailed <==> s != Running && !d.optional)
        && calls == old(calls) + (if up && d.init != NoInit then [InitCall(id, RunningSet(es))] else [])
    {
      ghost var es := entries;
      var e := entries[id];
      var depsOk := DepsRunning(e.desc.deps);
      var next := if !depsOk && !e.desc.optional then Failed else Initialising;
      entries := entries[id := e.(state := next)];
      ConsistentIdle(es, initOrder, calls, id, next);
      if !depsOk {
        return !e.desc.optional;
      }
      var initOk := CallInit(id);
      return !initOk && !e.desc.optional;
    }

    // The loop body of InitAll, against the meaning of the whole start-up.
    method StartNth(ghost es0: Entries, order: seq<nat>, k: nat, ok: bool) returns (ok': bool)
      requires KahnResult(GraphOf(es0), order) && k < |order|
      requires Valid() && Reached(es0, entries, order[..k], ok) && Initialised(es0, order[..k], calls)
      requires Within(initOrder, order[..k])
      modifies this
      ensures Valid() && Reached(es0, entries, order[..k+1], ok') && Initialised(es0, order[..k+1], calls)
      ensures Within(initOrder, order[..k+1])
    {
      var id := order[k];
      TurnAdvances(es0, entries, order, k, ok, calls);
      StillWithin(initOrder, id, order[..k], order[..k+1]);
      var failed := StartOne(id);
      ok' := ok && !failed;
    }

    /** One start-up: every callback and subsystem not yet used. */
    method InitAll() returns (ok: bool)
      requires Valid() && initOrder == [] && calls == []
      requires forall v :: v in entries ==> entries[v].state == Registered
      modifies this
      ensures Valid() && StartedFrom(old(entries), entries, ok) && CalledOnce(old(entries), calls)
      ensures StartMeans(old(entries), entries, ok)
    {
      ghost var es0 := entries;
      var order := TopoSort.KahnOrder(GraphOf(entries));
      ok := true;
      assert order[..0] == [];
      for k := 0 to |order|
        invariant Valid() && Reached(es0, entries, order[..k], ok)
        invariant Initialised(es0, order[..k], calls)
        invariant Within(initOrder, order[..k])
      {
        ok := StartNth(es0, order, k, ok);
      }
      assert order[..|order|] == order;
      StartEnd(es0, entries, order, ok, calls);
    }

    // The shutdown of one subsystem, the last one still Running.
    method StopOne(id: nat, ghost rest: seq<nat>)
      requires id in entries && entries[id].state == Running
      requires DepsFirst(GraphOf(entries), rest + [id])
      requires forall v :: v in RunningSet(entries) <==> v in rest + [id]
      requires SafeCalls(GraphOf(entries), calls)
      modifies this
      ensures entries == SetState(old(entries), id, Stopped) && initOrder == old(initOrder)
      ensures SafeCalls(GraphOf(entries), calls)
      ensures calls == old(calls) +
        if old(entries)[id].desc.hasShutdown then [ShutdownCall(id, RunningSet(old(entries)) - {id})] else []
    {
      ghost var es := entries;
      var e := entries[id];
      entries := entries[id := e.(state := ShuttingDown)];
      SetStateEffect(es, id, ShuttingDown);
      if e.desc.hasShutdown {
        LastIsFree(GraphOf(es), rest, id);
        calls := calls + [ShutdownCall(id, RunningSet(entries))];
        assert RunningSet(entries) == RunningSet(es) - {id};
      }
      entries := entries[id := e.(state := Stopped)];
      SetStateEffect(es, id, Stopped);
    }

    // One turn of the ShutdownAll loop.
    method StopNth(n: nat, ghost es0: Entries, ghost news: seq<Call>) returns (ghost news': seq<Call>)
      requires n < |initOrder| && DepsFirst(GraphOf(es0), initOrder)
      requires Stopping(es0, entries, initOrder, n + 1, calls, news)
      modifies this
      ensures initOrder == old(initOrder) && |news'| >= |news| && calls == old(calls) + news'[|news|..]
      ensures news' == news + news'[|news|..] && Stopping(es0, entries, initOrder, n, calls, news')
    {
      var id := initOrder[n];
      ghost var rest := initOrder[..n];
      assert initOrder[..n+1] == rest + [id];
      assert initOrder[n..] == [id] + initOrder[n+1..];
      DepsFirstPrefix(GraphOf(es0), initOrder, n + 1);
      assert id in initOrder[..n+1];
      StopKeeps(es0, entries, id, initOrder[n+1..], rest);
      ghost var c := ShutdownCall(id, RunningSet(entries) - {id});
      NotifiedStep(es0, id, initOrder[n+1..], news, c);
      news' := news + if es0[id].desc.hasShutdown then [c] else [];
      StopOne(id, rest);
    }

    /** Everything that was started ends Stopped, and nothing is stopped while it is needed. */
    method ShutdownAll()
      requires Valid()
      modifies this
      ensures Valid() && initOrder == [] && RunningSet(entries) == {}
      ensures StoppedFrom(old(entries), entries, old(initOrder))
      ensures forall v :: v in old(entries) && old(entries)[v].state == Running ==> entries[v].state == Stopped
      ensures old(calls) <= calls && Notified(old(entries), old(initOrder), calls[|old(calls)|..])
    {
      ghost var es0, order0, calls0 := entries, initOrder, calls;
      ghost var news: seq<Call> := [];
      var n := |initOrder|;
      while n > 0
        invariant 0 <= n <= |order0| && initOrder == order0 && calls == calls0 + news
        invariant Stopping(es0, entries, order0, n, calls, news)
      {
        n := n - 1;
        news := StopNth(n, es0, news);
      }
      assert order0[0..] == order0;
      assert calls[|calls0|..] == news;
      initOrder := [];
    }
  }

  // An optional subsystem behind a dependency that does not come up.
  ghost predicate HeldBack(es: Entries, v: nat)
    requires v in es
  {
    es[v].desc.optional && exists d :: d in es[v].desc.deps && ReachesFailure(es, d)
  }

  lemma OutcomeByFailure(es: Entries, v: nat)
    requires v in es && Grounded(GraphOf(es), v)
    ensures Starts(es, v) <==> !ReachesFailure(es, v)
    ensures ReachesFailure(es, v) ==> Outcome(es, v) == (if HeldBack(es, v) then Initialising else Failed)
  {
    StartsUnlessFailure(es, v);
    forall d | Edge(GraphOf(es), v, d)
      ensures Starts(es, d) <==> !ReachesFailure(es, d)
    {
      GroundedDown(GraphOf(es), v, d);
      StartsUnlessFailure(es, d);
    }
    assert forall d :: Edge(GraphOf(es), v, d) <==> d in es[v].desc.deps;
  }

  lemma OutcomesByFailure(es: Entries)
    ensures forall v :: v in es && Grounded(GraphOf(es), v) ==>
      && (Starts(es, v) <==> !ReachesFailure(es, v))
      && (ReachesFailure(es, v) ==> Outcome(es, v) == (if HeldBack(es, v) then Initialising else Failed))
  {
    forall v | v in es && Grounded(GraphOf(es), v)
      ensures Starts(es, v) <==> !ReachesFailure(es, v)
      ensures ReachesFailure(es, v) ==> Outcome(es, v) == (if HeldBack(es, v) then Initialising else Failed)
    {
      OutcomeByFailure(es, v);
    }
  }

  /** A whole life: whatever came up is Stopped again, and no callback ever ran too early. */
  method StartThenStop(rt: RuntimeManager) returns (ok: bool)
    requires rt.Valid() && rt.initOrder == [] && rt.calls == []
    requires forall v :: v in rt.entries ==> rt.entries[v].state == Registered
    modifies rt
    ensures var es := old(rt.entries);
      && SameDescs(es, rt.entries) && SafeCalls(GraphOf(es), rt.calls)
      && forall v :: v in es ==> (rt.entries[v].state ==
           if !Grounded(GraphOf(es), v) then Registered
           else if !ReachesFailure(es, v) then Stopped
           else if HeldBack(es, v) then Initialising
           else Failed)
  {
    ghost var es := rt.entries;
    ok := rt.InitAll();
    ghost var up := rt.entries;
    SameDescsSameStarts(es, up);
    assert forall v :: v in RunningSet(up) <==> v in up && Starts(es, v);
    OutcomesByFailure(es);
    rt.ShutdownAll();
    SameDescsSameStarts(up, rt.entries);
  }

  lemma LastIsNew(rest: seq<nat>, id: nat)
    requires NoDup(rest + [id])
    ensures id !in rest
  {
    var s := rest + [id];
    assert s[|rest|] == id;
    assert forall i :: 0 <= i < |rest| ==> s[i] == rest[i];
  }

  lemma LastIsFree(g: Graph, rest: seq<nat>, id: nat)
    requires DepsFirst(g, rest + [id])
    ensures forall u :: u in rest ==> !Edge(g, u, id)
  {
    var s := rest + [id];
    forall u | u in rest ensures !Edge(g, u, id) {
      var i :| 0 <= i < |rest| && rest[i] == u;
      assert s[i] == u && s[|rest|] == id;
      assert id !in s[..i];
    }
  }

  lemma DepsFirstPrefix(g: Graph, s: seq<nat>, n: nat)
    requires DepsFirst(g, s) && n <= |s|
    ensures DepsFirst(g, s[..n])
  {
    forall i, d | 0 <= i < n && Edge(g, s[i], d) ensures d in s[..n][..i] {
      assert d in s[..i];
      assert s[..n][..i] == s[..i];
    }
  }

  lemma StopKeeps(es0: Entries, es: Entries, id: nat, after: seq<nat>, rest: seq<nat>)
    requires StoppedFrom(es0, es, after) && id in es
    requires NoDup(rest + [id]) && forall v :: v in RunningSet(es) <==> v in rest + [id]
    ensures var es' := SetState(es, id, Stopped);
      && StoppedFrom(es0, es', [id] + after)
      && GraphOf(es') == GraphOf(es)
      && forall v :: v in RunningSet(es') <==> v in rest
  {
    SetStateEffect(es, id, Stopped);
    LastIsNew(rest, id);
  }
}
