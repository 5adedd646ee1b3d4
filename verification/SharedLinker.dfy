/** The symbol cache shared by several threads, interleaved at every use of a lock: a look-up that misses
    resolves the symbol without the cache lock and inserts it later, and an unload is invalidated in a
    second step. */
module SharedLinker {
  import opened Options
  import opened ModuleRegistry
  import opened SymbolCache

  datatype Caller =
    | Idle
    | Missed(name: string)                    // not cached, about to ask the registry
    | Resolved(name: string, found: Export)   // about to insert
    | Invalidating(id: nat)                   // unloaded, about to invalidate

  datatype State = State(reg: Registry, cache: Cache, callers: seq<Caller>)

  datatype Step =
    | Look(t: nat, name: string)
    | Resolve(t: nat)
    | Insert(t: nat)
    | Unload(t: nat, id: nat)
    | Invalidate(t: nat)
    | Register(name: string, symbols: seq<ElfSymbol>, base: nat)
    | Retain(id: nat)

  predicate Is(s: State, t: nat, c: Caller) {
    t < |s.callers| && s.callers[t] == c
  }

  function Becomes(s: State, t: nat, c: Caller): seq<Caller>
    requires t < |s.callers|
  {
    s.callers[t := c]
  }

  ghost predicate Next(s: State, s': State, step: Step)
    requires WellFormed(s.reg)
  {
    match step
    case Look(t, name) =>
      Is(s, t, Idle) &&
      s' == if name in s.cache then s.(cache := s.cache[name := Hit(s.cache[name])])
            else s.(callers := Becomes(s, t, Missed(name)))
    case Resolve(t) =>
      t < |s.callers| && s.callers[t].Missed? &&
      var name := s.callers[t].name;
      var found := Fresh(s.reg, name);
      s' == s.(callers := Becomes(s, t, if found.Some? then Resolved(name, found.value) else Idle))
    case Insert(t) =>
      t < |s.callers| && s.callers[t].Resolved? &&
      s' == s.(cache := s.cache[s.callers[t].name := Fill(s.callers[t].found)], callers := Becomes(s, t, Idle))
    case Unload(t, id) =>
      Is(s, t, Idle) && s' == s.(reg := UnloadSpec(s.reg, id), callers := Becomes(s, t, Invalidating(id)))
    case Invalidate(t) =>
      t < |s.callers| && s.callers[t].Invalidating? &&
      s' == s.(cache := Invalidated(s.cache, s.callers[t].id), callers := Becomes(s, t, Idle))
    case Register(name, symbols, base) =>
      s' == s.(reg := RegisterSpec(s.reg, name, symbols, base))
    case Retain(id) =>
      s' == s.(reg := RetainSpec(s.reg, id))
  }

  // ----- what holds in between -----

  predicate Awaited(callers: seq<Caller>, id: nat) {
    exists t :: 0 <= t < |callers| && callers[t] == Invalidating(id)
  }

  // The module is gone, and some thread is still to invalidate what came from it.
  predicate Doomed(s: State, id: nat) {
    id !in s.reg.modules && id < s.reg.nextId && Awaited(s.callers, id)
  }

  predicate Good(s: State, name: string, e: Export) {
    Fresh(s.reg, name) == Some(e) || Doomed(s, e.owner)
  }

  function AsExport(c: CachedSymbol): Export {
    Export(c.name, c.address, c.moduleId)
  }

  /** Every answer, cached or about to be, is the one a fresh search would give, or it came from an
      unloaded module and is still to be invalidated. */
  ghost predicate Sound(s: State) {
    && WellFormed(s.reg)
    && (forall n :: n in s.cache ==> s.cache[n].name == n && Good(s, n, AsExport(s.cache[n])))
    && (forall t :: 0 <= t < |s.callers| && s.callers[t].Resolved? ==>
          s.callers[t].found.name == s.callers[t].name && Good(s, s.callers[t].name, s.callers[t].found))
  }

  // An answer from the module that is invalidated is still to be inserted, and nobody else will
  // invalidate it afterwards.
  predicate TooEarly(s: State, step: Step) {
    step.Invalidate? && step.t < |s.callers| && s.callers[step.t].Invalidating? &&
    var id := s.callers[step.t].id;
    && id !in s.reg.modules
    && (exists u :: 0 <= u < |s.callers| && s.callers[u].Resolved? && s.callers[u].found.owner == id)
    && !Awaited(Becomes(s, step.t, Idle), id)
  }

  // ----- one step -----

  lemma FreshOwner(r: Registry, name: string)
    requires WellFormed(r) && Fresh(r, name).Some?
    ensures Fresh(r, name).value.name == name && Fresh(r, name).value.owner in r.modules
  {
    ResolveOwner(r.modules, r.loadOrder, name);
  }

  lemma AwaitedElsewhere(callers: seq<Caller>, t: nat, c: Caller, id: nat)
    requires t < |callers| && Awaited(callers, id) && callers[t] != Invalidating(id)
    ensures Awaited(callers[t := c], id)
  {
    var u :| 0 <= u < |callers| && callers[u] == Invalidating(id);
    assert callers[t := c][u] == Invalidating(id);
  }

  lemma RegisterGood(s: State, s': State, step: Step, name: string, e: Export)
    requires WellFormed(s.reg) && (step.Register? || step.Retain?) && Next(s, s', step) && Good(s, name, e)
    ensures Good(s', name, e)
  {
    var cached := map[name := Fill(e)];
    if Fresh(s.reg, name) == Some(e) {
      FreshOwner(s.reg, name);
      assert Coherent(s.reg, cached);
      match step
      case Register(n, symbols, base) => RegisterCoherent(s.reg, cached, n, symbols, base);
      case Retain(id) => RetainCoherent(s.reg, cached, id);
      assert name in cached;
    }
  }

  // What a search finds in another module, or in one that stays, it still finds after the unload.
  lemma UnloadFresh(r: Registry, id: nat, name: string, e: Export)
    requires WellFormed(r) && Fresh(r, name) == Some(e) && (Erases(r, id) ==> e.owner != id)
    ensures Fresh(UnloadSpec(r, id), name) == Some(e)
  {
    var cached := map[name := Fill(e)];
    FreshOwner(r, name);
    assert Coherent(r, cached);
    OthersSurvive(r, cached, id, name);
  }

  lemma ErasedIsGone(r: Registry, id: nat)
    requires WellFormed(r)
    ensures UnloadSpec(r, id).nextId == r.nextId
    ensures forall o :: o in UnloadSpec(r, id).modules <==> o in r.modules && !(Erases(r, id) && o == id)
  {
  }

  lemma UnloadGood(s: State, s': State, t: nat, id: nat, name: string, e: Export)
    requires WellFormed(s.reg) && Next(s, s', Unload(t, id)) && Good(s, name, e)
    ensures Good(s', name, e)
  {
    ErasedIsGone(s.reg, id);
    if Doomed(s, e.owner) {
      AwaitedElsewhere(s.callers, t, Invalidating(id), e.owner);
    } else if Erases(s.reg, id) && e.owner == id {
      FreshOwner(s.reg, name);
      assert s'.callers[t] == Invalidating(id);
    } else {
      UnloadFresh(s.reg, id, name, e);
    }
  }

  // A step that leaves the registry alone, and does not end the wait for the owner.
  lemma SameRegistryGood(s: State, s': State, t: nat, c: Caller, name: string, e: Export)
    requires t < |s.callers| && s'.reg == s.reg && s'.callers == Becomes(s, t, c) && Good(s, name, e)
    requires s.callers[t] != Invalidating(e.owner) || Awaited(s'.callers, e.owner)
    ensures Good(s', name, e)
  {
    if Doomed(s, e.owner) && s.callers[t] != Invalidating(e.owner) {
      AwaitedElsewhere(s.callers, t, c, e.owner);
    }
  }

  lemma LookSound(s: State, s': State, t: nat, name: string)
    requires Sound(s) && Next(s, s', Look(t, name))
    ensures Sound(s')
  {
    if name !in s.cache {
      forall n, e | Good(s, n, e)
        ensures Good(s', n, e)
      {
        SameRegistryGood(s, s', t, Missed(name), n, e);
      }
    }
  }

  lemma ResolveSound(s: State, s': State, t: nat)
    requires Sound(s) && Next(s, s', Step.Resolve(t))
    ensures Sound(s')
  {
    forall n, e | Good(s, n, e)
      ensures Good(s', n, e)
    {
      SameRegistryGood(s, s', t, s'.callers[t], n, e);
    }
    if Fresh(s.reg, s.callers[t].name).Some? { FreshOwner(s.reg, s.callers[t].name); }
  }

  lemma InsertSound(s: State, s': State, t: nat)
    requires Sound(s) && Next(s, s', Insert(t))
    ensures Sound(s')
  {
    forall n, e | Good(s, n, e)
      ensures Good(s', n, e)
    {
      SameRegistryGood(s, s', t, Idle, n, e);
    }
    assert AsExport(Fill(s.callers[t].found)) == s.callers[t].found;
  }

  lemma UnloadSound(s: State, s': State, t: nat, id: nat)
    requires Sound(s) && Next(s, s', Unload(t, id))
    ensures Sound(s')
  {
    UnloadKeeps(s.reg, id);
    forall n, e | Good(s, n, e)
      ensures Good(s', n, e)
    {
      UnloadGood(s, s', t, id, n, e);
    }
  }

  lemma RegistrySound(s: State, s': State, step: Step)
    requires Sound(s) && (step.Register? || step.Retain?) && Next(s, s', step)
    ensures Sound(s')
  {
    match step {
      case Register(name, symbols, base) => RegisterKeeps(s.reg, name, symbols, base);
      case Retain(id) => RetainKeeps(s.reg, id);
    }
    forall n, e | Good(s, n, e)
      ensures Good(s', n, e)
    {
      RegisterGood(s, s', step, n, e);
    }
  }

  lemma InvalidateKeepsGood(s: State, s': State, t: nat, name: string, e: Export)
    requires WellFormed(s.reg) && Next(s, s', Invalidate(t)) && Good(s, name, e)
    requires e.owner != s.callers[t].id || e.owner in s.reg.modules || Awaited(s'.callers, e.owner)
    ensures Good(s', name, e)
  {
    if Doomed(s, e.owner) { SameRegistryGood(s, s', t, Idle, name, e); }
  }

  lemma InvalidateSound(s: State, s': State, t: nat)
    requires Sound(s) && Next(s, s', Invalidate(t)) && !TooEarly(s, Invalidate(t))
    ensures Sound(s')
  {
    forall n | n in s'.cache
      ensures Good(s', n, AsExport(s'.cache[n]))
    {
      InvalidateKeepsGood(s, s', t, n, AsExport(s.cache[n]));
    }
    forall u | 0 <= u < |s'.callers| && s'.callers[u].Resolved?
      ensures Good(s', s'.callers[u].name, s'.callers[u].found)
    {
      assert s'.callers[u] == s.callers[u];
      InvalidateKeepsGood(s, s', t, s.callers[u].name, s.callers[u].found);
    }
  }

  lemma TooEarlyIsUnsound(s: State, s': State, t: nat)
    requires Sound(s) && Next(s, s', Invalidate(t)) && TooEarly(s, Invalidate(t))
    ensures !Sound(s')
  {
    var id := s.callers[t].id;
    var u :| 0 <= u < |s.callers| && s.callers[u].Resolved? && s.callers[u].found.owner == id;
    assert s'.callers[u] == s.callers[u];
    if Fresh(s'.reg, s.callers[u].name).Some? { FreshOwner(s'.reg, s.callers[u].name); }
  }

  /** In every interleaving only one kind of step can spoil the cache: an invalidation that runs while an
      answer from the erased module is still to be inserted, with no other invalidation of it to come. */
  lemma StepSoundIff(s: State, s': State, step: Step)
    requires Sound(s) && Next(s, s', step)
    ensures Sound(s') <==> !TooEarly(s, step)
  {
    match step
    case Look(t, name) => LookSound(s, s', t, name);
    case Resolve(t) => ResolveSound(s, s', t);
    case Insert(t) => InsertSound(s, s', t);
    case Unload(t, id) => UnloadSound(s, s', t, id);
    case Invalidate(t) =>
      if TooEarly(s, step) { TooEarlyIsUnsound(s, s', t); } else { InvalidateSound(s, s', t); }
    case _ => RegistrySound(s, s', step);
  }

  // ----- whole runs -----

  ghost predicate Goes(s: State, s': State, step: Step) {
    WellFormed(s.reg) && Next(s, s', step)
  }

  ghost predicate IsRun(states: seq<State>, steps: seq<Step>) {
    |states| == |steps| + 1 && forall i :: 0 <= i < |steps| ==> Goes(states[i], states[i + 1], steps[i])
  }

  lemma {:induction false} TimelyRunsAreSound(states: seq<State>, steps: seq<Step>, i: nat)
    requires IsRun(states, steps) && i < |states| && Sound(states[0])
    requires forall k :: 0 <= k < i ==> !TooEarly(states[k], steps[k])
    ensures Sound(states[i])
    decreases i
  {
    if i > 0 {
      TimelyRunsAreSound(states, steps, i - 1);
      assert Goes(states[i - 1], states[i], steps[i - 1]);
      StepSoundIff(states[i - 1], states[i], steps[i - 1]);
    }
  }

  /** With no such step so far, the cache agrees with a fresh search whenever no unload is half done. */
  lemma QuietMeansCoherent(states: seq<State>, steps: seq<Step>, i: nat)
    requires IsRun(states, steps) && i < |states| && Sound(states[0])
    requires forall k :: 0 <= k < i ==> !TooEarly(states[k], steps[k])
    requires forall t :: 0 <= t < |states[i].callers| ==> !states[i].callers[t].Invalidating?
    ensures Coherent(states[i].reg, states[i].cache)
  {
    TimelyRunsAreSound(states, steps, i);
    var s := states[i];
    forall n | n in s.cache
      ensures Fresh(s.reg, n) == Some(AsExport(s.cache[n]))
    {
      assert Good(s, n, AsExport(s.cache[n]));
    }
  }

  // ----- the race -----

  // Thread 0 looks up a symbol; between its resolution and its insertion thread 1 unloads the module that
  // exports the symbol, which leaves the registry `gone`, and invalidates it.
  function RaceStates(reg: Registry, gone: Registry, name: string, e: Export): seq<State> {
    [ State(reg, map[], [Idle, Idle]),
      State(reg, map[], [Missed(name), Idle]),
      State(reg, map[], [Resolved(name, e), Idle]),
      State(gone, map[], [Resolved(name, e), Invalidating(e.owner)]),
      State(gone, map[], [Resolved(name, e), Idle]),
      State(gone, map[name := Fill(e)], [Idle, Idle]) ]
  }

  function RaceSteps(name: string, id: nat): seq<Step> {
    [Look(0, name), Step.Resolve(0), Unload(1, id), Invalidate(1), Insert(0)]
  }

  lemma ResolvesFirst(reg: Registry, gone: Registry, name: string, e: Export)
    requires WellFormed(reg) && Fresh(reg, name) == Some(e)
    ensures var states, steps := RaceStates(reg, gone, name, e), RaceSteps(name, e.owner);
      Goes(states[0], states[1], steps[0]) && Goes(states[1], states[2], steps[1])
  {
  }

  lemma UnloadsNext(reg: Registry, gone: Registry, name: string, e: Export)
    requires WellFormed(reg) && gone == UnloadSpec(reg, e.owner)
    ensures var states, steps := RaceStates(reg, gone, name, e), RaceSteps(name, e.owner);
      Goes(states[2], states[3], steps[2])
  {
  }

  lemma InsertsLast(reg: Registry, gone: Registry, name: string, e: Export)
    requires WellFormed(gone)
    ensures var states, steps := RaceStates(reg, gone, name, e), RaceSteps(name, e.owner);
      Goes(states[3], states[4], steps[3]) && Goes(states[4], states[5], steps[4])
  {
    assert Invalidated(map[], e.owner) == map[];
  }

  lemma RaceIsRun(reg: Registry, gone: Registry, name: string, e: Export)
    requires WellFormed(reg) && Fresh(reg, name) == Some(e) && gone == UnloadSpec(reg, e.owner)
    ensures IsRun(RaceStates(reg, gone, name, e), RaceSteps(name, e.owner))
  {
    UnloadKeeps(reg, e.owner);
    ResolvesFirst(reg, gone, name, e);
    UnloadsNext(reg, gone, name, e);
    InsertsLast(reg, gone, name, e);
  }

  lemma RaceIsTooEarly(reg: Registry, gone: Registry, name: string, e: Export)
    requires e.owner !in gone.modules
    ensures TooEarly(RaceStates(reg, gone, name, e)[3], Invalidate(1))
  {
    var callers := [Resolved(name, e), Invalidating(e.owner)];
    assert callers[0].Resolved? && callers[0].found.owner == e.owner;
    assert callers[1 := Idle] == [Resolved(name, e), Idle];
  }

  lemma GoneIsStale(reg: Registry, gone: Registry, name: string, e: Export)
    requires WellFormed(reg) && Fresh(reg, name) == Some(e) && Erases(reg, e.owner)
    requires gone == UnloadSpec(reg, e.owner)
    ensures e.owner !in gone.modules && !Coherent(gone, map[name := Fill(e)])
  {
    ErasedIsGone(reg, e.owner);
    ErasedOwnerIsStale(reg, map[name := Fill(e)], e.owner, name);
  }

  /** The race is possible for every symbol whose module can be erased: it ends with both threads done and
      the address of an unloaded module in the cache. */
  lemma StaleEntry(reg: Registry, gone: Registry, name: string, e: Export)
    requires WellFormed(reg) && Fresh(reg, name) == Some(e) && Erases(reg, e.owner)
    requires gone == UnloadSpec(reg, e.owner)
    ensures e.owner !in gone.modules && !Coherent(gone, map[name := Fill(e)])
    ensures var states, steps := RaceStates(reg, gone, name, e), RaceSteps(name, e.owner);
      && IsRun(states, steps) && Sound(states[0]) && TooEarly(states[3], steps[3])
      && states[5] == State(gone, map[name := Fill(e)], [Idle, Idle])
  {
    GoneIsStale(reg, gone, name, e);
    RaceIsRun(reg, gone, name, e);
    RaceIsTooEarly(reg, gone, name, e);
  }
}
