/** The dynamic linker's symbol cache in front of the module registry. */
module SymbolCache {
  import opened Options
  import opened ModuleRegistry
  import opened Words

  datatype CachedSymbol = CachedSymbol(name: string, address: nat, moduleId: nat, hitCount: nat)
  type Cache = map<string, CachedSymbol>

  /** Every cached answer is the one a fresh search would give. */
  ghost predicate Coherent(r: Registry, cache: Cache) {
    forall n :: n in cache ==>
      && Fresh(r, n).Some?
      && cache[n].name == n == Fresh(r, n).value.name
      && cache[n].address == Fresh(r, n).value.address
      && cache[n].moduleId == Fresh(r, n).value.owner
  }

  // ----- specification of the operations -----

  function Fill(e: Export): CachedSymbol {
    CachedSymbol(e.name, e.address, e.owner, 1)
  }

  function Hit(c: CachedSymbol): CachedSymbol {
    c.(hitCount := (c.hitCount + 1) % U64)
  }

  function Answer(r: Registry, cache: Cache, name: string): Option<CachedSymbol> {
    if name in cache then Some(Hit(cache[name]))
    else if Fresh(r, name).Some? then Some(Fill(Fresh(r, name).value))
    else None
  }

  function AfterLookup(r: Registry, cache: Cache, name: string): Cache {
    var a := Answer(r, cache, name);
    if a.Some? then cache[name := a.value] else cache
  }

  function Invalidated(cache: Cache, id: nat): Cache {
    map n | n in cache && cache[n].moduleId != id :: cache[n]
  }

  // ----- one step -----

  lemma RegisterCoherent(r: Registry, cache: Cache, name: string, symbols: seq<ElfSymbol>, base: nat)
    requires WellFormed(r) && Coherent(r, cache)
    ensures Coherent(RegisterSpec(r, name, symbols, base), cache)
  {
    var r' := RegisterSpec(r, name, symbols, base);
    forall n | n in cache ensures Fresh(r', n) == Fresh(r, n) {
      if name in r.byName {
        ResolveCongruent(r.modules, r'.modules, r.loadOrder, n);
      } else {
        ResolveAppend(r.modules, r.loadOrder, r.nextId, r'.modules[r.nextId], n);
      }
    }
  }

  lemma RetainCoherent(r: Registry, cache: Cache, id: nat)
    requires Coherent(r, cache)
    ensures Coherent(RetainSpec(r, id), cache)
  {
    forall n | n in cache ensures Fresh(RetainSpec(r, id), n) == Fresh(r, n) {
      ResolveCongruent(r.modules, RetainSpec(r, id).modules, r.loadOrder, n);
    }
  }

  lemma LookupCoherent(r: Registry, cache: Cache, name: string)
    requires WellFormed(r) && Coherent(r, cache)
    ensures Coherent(r, AfterLookup(r, cache, name))
  {
    if Fresh(r, name).Some? { ResolveOwner(r.modules, r.loadOrder, name); }
  }

  // A cached symbol of another module survives the unloading of `id`.
  lemma OthersSurvive(r: Registry, cache: Cache, id: nat, n: string)
    requires WellFormed(r) && Coherent(r, cache) && n in cache
    requires Erases(r, id) ==> cache[n].moduleId != id
    ensures Fresh(UnloadSpec(r, id), n) == Fresh(r, n)
  {
    var r' := UnloadSpec(r, id);
    if Erases(r, id) {
      ResolveWithout(r.modules, r.loadOrder, id, n);
    } else {
      ResolveCongruent(r.modules, r'.modules, r.loadOrder, n);
    }
  }

  lemma UntouchedStaysCoherent(r: Registry, cache: Cache, id: nat)
    requires WellFormed(r) && Coherent(r, cache)
    requires !Erases(r, id) || forall n :: n in cache ==> cache[n].moduleId != id
    ensures Coherent(UnloadSpec(r, id), cache)
  {
    forall n | n in cache ensures Fresh(UnloadSpec(r, id), n) == Fresh(r, n) { OthersSurvive(r, cache, id, n); }
  }

  // After the erasure no search can give the owner that the cache remembers.
  lemma ErasedOwnerIsStale(r: Registry, cache: Cache, id: nat, n: string)
    requires WellFormed(r) && Erases(r, id) && n in cache && cache[n].moduleId == id
    ensures !Coherent(UnloadSpec(r, id), cache)
  {
    var r' := UnloadSpec(r, id);
    UnloadKeeps(r, id);
    if Fresh(r', n).Some? { ResolveOwner(r'.modules, r'.loadOrder, n); }
  }

  /** Unloading alone keeps the cache coherent exactly when it erased nothing or no cached
      symbol came from the erased module. */
  lemma UnloadCoherentIff(r: Registry, cache: Cache, id: nat)
    requires WellFormed(r) && Coherent(r, cache)
    ensures Coherent(UnloadSpec(r, id), cache) <==>
      !Erases(r, id) || forall n :: n in cache ==> cache[n].moduleId != id
  {
    if !Erases(r, id) || forall n :: n in cache ==> cache[n].moduleId != id {
      UntouchedStaysCoherent(r, cache, id);
    } else {
      var n :| n in cache && cache[n].moduleId == id;
      ErasedOwnerIsStale(r, cache, id, n);
    }
  }

  lemma UnloadInvalidateCoherent(r: Registry, cache: Cache, id: nat)
    requires WellFormed(r) && Coherent(r, cache)
    ensures Coherent(UnloadSpec(r, id), Invalidated(cache, id))
  {
    forall n | n in Invalidated(cache, id) ensures Fresh(UnloadSpec(r, id), n) == Fresh(r, n) {
      OthersSurvive(r, cache, id, n);
    }
  }

  // ----- whole runs -----

  // An unload is followed by the invalidation of the same module.
  datatype Op =
    | Register(name: string, symbols: seq<ElfSymbol>, base: nat)
    | Retain(id: nat)
    | UnloadAndInvalidate(id: nat)
    | Lookup(name: string)

  datatype Linked = Linked(reg: Registry, cache: Cache)

  ghost predicate Sound(s: Linked) {
    WellFormed(s.reg) && Coherent(s.reg, s.cache)
  }

  ghost function Step(s: Linked, op: Op): Linked
    requires WellFormed(s.reg)
  {
    match op
    case Register(name, symbols, base) => s.(reg := RegisterSpec(s.reg, name, symbols, base))
    case Retain(id) => s.(reg := RetainSpec(s.reg, id))
    case UnloadAndInvalidate(id) => Linked(UnloadSpec(s.reg, id), Invalidated(s.cache, id))
    case Lookup(name) => s.(cache := AfterLookup(s.reg, s.cache, name))
  }

  lemma StepSound(s: Linked, op: Op)
    requires Sound(s)
    ensures Sound(Step(s, op))
  {
    match op
    case Register(name, symbols, base) =>
      RegisterKeeps(s.reg, name, symbols, base);
      RegisterCoherent(s.reg, s.cache, name, symbols, base);
    case Retain(id) =>
      RetainKeeps(s.reg, id);
      RetainCoherent(s.reg, s.cache, id);
    case UnloadAndInvalidate(id) =>
      UnloadKeeps(s.reg, id);
      UnloadInvalidateCoherent(s.reg, s.cache, id);
    case Lookup(name) =>
      LookupCoherent(s.reg, s.cache, name);
  }

  ghost predicate IsRun(states: seq<Linked>, ops: seq<Op>) {
    && |states| == |ops| + 1
    && Sound(states[0])
    && forall i :: 0 <= i < |ops| ==> Goes(states[i], states[i+1], ops[i])
  }

  ghost predicate Goes(s: Linked, s': Linked, op: Op) {
    WellFormed(s.reg) && s' == Step(s, op)
  }

  lemma GoesSound(s: Linked, s': Linked, op: Op)
    requires Sound(s) && Goes(s, s', op)
    ensures Sound(s')
  {
    StepSound(s, op);
  }

  /** A fresh registry and an empty cache are such a start. */
  lemma EmptyStartIsSound()
    ensures Sound(Linked(EMPTY_REGISTRY, map[]))
  {
  }

  lemma {:induction false} EveryStateIsSound(states: seq<Linked>, ops: seq<Op>, i: nat)
    requires IsRun(states, ops) && i < |states|
    ensures Sound(states[i])
    decreases i
  {
    if i > 0 {
      EveryStateIsSound(states, ops, i - 1);
      GoesSound(states[i-1], states[i], ops[i-1]);
    }
  }

  ghost predicate AnswersFreshly(r: Registry, cache: Cache, name: string) {
    var found, a := Fresh(r, name), Answer(r, cache, name);
    && (a.Some? <==> found.Some?)
    && (a.Some? ==> a.value.address == found.value.address && a.value.moduleId == found.value.owner)
  }

  lemma CoherentAnswersFreshly(r: Registry, cache: Cache, name: string)
    requires Coherent(r, cache)
    ensures AnswersFreshly(r, cache, name)
  {
  }

  /** At every point of every run from a sound start, a lookup answers with the address and the owner
      that a fresh search of the registry finds, and answers nothing exactly when that finds nothing. */
  lemma LookupsAreFresh(states: seq<Linked>, ops: seq<Op>, i: nat, name: string)
    requires IsRun(states, ops) && i < |states|
    ensures AnswersFreshly(states[i].reg, states[i].cache, name)
  {
    EveryStateIsSound(states, ops, i);
    CoherentAnswersFreshly(states[i].reg, states[i].cache, name);
  }

  /** The linker object; the registry is the process-wide one. */
  class LinkerState {
    const registry: RegistryState
    var cache: Cache
    var cacheHits: nat
    var cacheMisses: nat

    constructor (registry: RegistryState)
      ensures this.registry == registry && cache == map[] && cacheHits == 0 && cacheMisses == 0
    {
      this.registry := registry;
      cache, cacheHits, cacheMisses := map[], 0, 0;
    }

    method LookupSymbol(name: string) returns (r: Option<CachedSymbol>)
      modifies this
      ensures r == Answer(registry.Model(), old(cache), name)
      ensures cache == AfterLookup(registry.Model(), old(cache), name)
      ensures r.None? <==> name !in old(cache) && Fresh(registry.Model(), name).None?
      ensures name in old(cache) ==> var c := old(cache)[name];
        r.value == c.(hitCount := (c.hitCount + 1) % 0x1_0000_0000_0000_0000)
      ensures name !in old(cache) && r.Some? ==>
        var e := Fresh(registry.Model(), name).value; r.value == CachedSymbol(e.name, e.address, e.owner, 1)
      ensures cache == if r.Some? then old(cache)[name := r.value] else old(cache)
      ensures cacheHits == (if name in old(cache) then (old(cacheHits) + 1) % U64 else old(cacheHits))
      ensures cacheMisses == (if name in old(cache) then old(cacheMisses) else (old(cacheMisses) + 1) % U64)
    {
      if name in cache {
        var c := cache[name];
        cache := cache[name := c.(hitCount := (c.hitCount + 1) % U64)];
        cacheHits := (cacheHits + 1) % U64;
        return Some(cache[name]);
      }
      cacheMisses := (cacheMisses + 1) % U64;
      var sym := registry.ResolveSymbol(name);
      if sym.None? { return None; }
      var cs := CachedSymbol(sym.value.name, sym.value.address, sym.value.owner, 1);
      cache := cache[name := cs];
      return Some(cs);
    }

    method InvalidateCache(id: nat)
      modifies this
      ensures cache == Invalidated(old(cache), id)
      ensures forall n :: n in cache <==> n in old(cache) && old(cache)[n].moduleId != id
      ensures forall n :: n in cache ==> cache[n] == old(cache)[n]
      ensures cacheHits == old(cacheHits) && cacheMisses == old(cacheMisses)
    {
      ghost var before: Cache := cache;
      var todo := cache.Keys;
      while todo != {}
        invariant todo <= cache.Keys
        invariant cacheHits == old(cacheHits) && cacheMisses == old(cacheMisses)
        invariant cache == map n | n in before && (n in todo || before[n].moduleId != id) :: before[n]
        decreases |todo|
      {
        var n :| n in todo;
        if cache[n].moduleId == id { cache := cache - {n}; }
        todo := todo - {n};
      }
    }

    method ClearCache()
      modifies this
      ensures cache == map[] && cacheHits == old(cacheHits) && cacheMisses == old(cacheMisses)
      ensures Coherent(registry.Model(), cache)
    {
      cache := map[];
    }

    /** The unload protocol: coherence needs both halves. */
    method UnloadAndInvalidate(id: nat) returns (ok: bool)
      requires WellFormed(registry.Model()) && Coherent(registry.Model(), cache)
      modifies this, registry
      ensures Linked(registry.Model(), cache) == Step(old(Linked(registry.Model(), cache)), Op.UnloadAndInvalidate(id))
      ensures WellFormed(registry.Model()) && Coherent(registry.Model(), cache)
    {
      StepSound(Linked(registry.Model(), cache), Op.UnloadAndInvalidate(id));
      ok := registry.Unload(id);
      InvalidateCache(id);
    }
  }
}
