/** The shader cache: a bounded map with least-recently-used eviction. */
module ShaderCache {
  import opened Options
  import opened Graphs
  import opened Words

  datatype ShaderKey = ShaderKey(spirvHash: u64, pipelineHash: u64, stage: nat)
  datatype CacheEntry = CacheEntry(
    key: ShaderKey, binary: seq<byte>, spirv: seq<byte>, lastUsedUs: nat, hitCount: nat, valid: bool)
  type Entries = map<ShaderKey, CacheEntry>

  // The registered compiler, or none; without one the source itself is stored.
  type Compiler = Option<(seq<byte>, nat) -> seq<byte>>

  function Direct(c: Compiler, spirv: seq<byte>, stage: nat): seq<byte> {
    if c.Some? then (c.value)(spirv, stage) else spirv
  }

  // ----- histories of uses -----

  // The uses after the last use of `k`; all of them when it was never used.
  function Since(uses: seq<ShaderKey>, k: ShaderKey): seq<ShaderKey> {
    if uses == [] || Last(uses) == k then [] else Since(uses[..|uses|-1], k) + [Last(uses)]
  }

  ghost function Keys(s: seq<ShaderKey>): (ks: set<ShaderKey>)
    ensures forall k :: k in ks <==> k in s
  {
    set k | k in s
  }

  /** How many distinct keys have been used since `k` was last used. */
  ghost function Rank(uses: seq<ShaderKey>, k: ShaderKey): nat {
    |Keys(Since(uses, k))|
  }

  /** Among the `n` most recently used distinct keys. */
  ghost predicate IsRecent(uses: seq<ShaderKey>, n: nat, k: ShaderKey) {
    k in uses && Rank(uses, k) < n
  }

  lemma SinceSnoc(uses: seq<ShaderKey>, x: ShaderKey, k: ShaderKey)
    ensures Since(uses + [x], k) == if k == x then [] else Since(uses, k) + [x]
  {
    assert (uses + [x])[..|uses|] == uses;
  }

  lemma RankAfterUse(uses: seq<ShaderKey>, x: ShaderKey, k: ShaderKey)
    ensures Rank(uses + [x], k) == if k == x then 0 else Rank(uses, k) + if x in Since(uses, k) then 0 else 1
  {
    SinceSnoc(uses, x, k);
    if k == x {
      assert Keys([]) == {};
    } else {
      var s := Keys(Since(uses, k));
      assert Keys(Since(uses, k) + [x]) == s + {x};
      if x in s { assert s + {x} == s; } else { assert |s + {x}| == |s| + 1; }
    }
  }

  lemma {:induction false} SinceWithin(uses: seq<ShaderKey>, k: ShaderKey)
    ensures k !in Since(uses, k) && forall j :: j in Since(uses, k) ==> j in uses
    decreases |uses|
  {
    if uses != [] {
      SinceWithin(uses[..|uses|-1], k);
      assert uses == uses[..|uses|-1] + [Last(uses)];
    }
  }

  // Of two used keys, one was used after the other; `Since` is transitive.
  lemma {:induction false} SinceOrder(uses: seq<ShaderKey>, j: ShaderKey, k: ShaderKey, i: ShaderKey)
    requires j in uses && k in uses && j != k
    ensures j in Since(uses, k) <==> k !in Since(uses, j)
    ensures j in Since(uses, k) && i in Since(uses, j) ==> i in Since(uses, k)
    decreases |uses|
  {
    var before, x := uses[..|uses|-1], Last(uses);
    assert uses == before + [x];
    SinceSnoc(before, x, j);
    SinceSnoc(before, x, k);
    if x != j && x != k {
      SinceOrder(before, j, k, i);
    } else if x == k {
      SinceWithin(uses, k);
    }
  }

  // A later use means a smaller rank.
  lemma RankOrder(uses: seq<ShaderKey>, j: ShaderKey, k: ShaderKey)
    requires j in uses && k in uses && j in Since(uses, k)
    ensures Rank(uses, j) < Rank(uses, k)
  {
    SinceWithin(uses, k);
    SinceWithin(uses, j);
    var a, b := Keys(Since(uses, j)), Keys(Since(uses, k));
    forall i | i in a ensures i in b { SinceOrder(uses, j, k, i); }
    assert a + {j} <= b;
    SubsetSize(a + {j}, b);
  }

  lemma SubsetSize(a: set<ShaderKey>, b: set<ShaderKey>)
    requires a <= b
    ensures |a| <= |b|
  {
    assert b == a + (b - a);
  }

  // ----- the cache against its history -----

  /** The cached keys are the `max` most recently used ones, and the time stamps say so. */
  ghost predicate Tracks(es: Entries, uses: seq<ShaderKey>, max: nat) {
    && (forall k :: k in es <==> IsRecent(uses, max, k))
    && (forall j, k :: j in es && k in es ==> (es[j].lastUsedUs > es[k].lastUsedUs <==> j in Since(uses, k)))
  }

  // Every entry belongs to its key and holds what a direct compile of its source gives.
  ghost predicate Compiled(es: Entries, c: Compiler) {
    forall k :: k in es ==> es[k].key == k && es[k].binary == Direct(c, es[k].spirv, k.stage)
  }

  ghost predicate Before(es: Entries, now: nat) {
    forall k :: k in es ==> es[k].lastUsedUs < now
  }

  function Stamp(e: CacheEntry, now: nat): CacheEntry {
    e.(hitCount := e.hitCount + 1, lastUsedUs := now)
  }

  // The newest use changes nobody else's membership when `x` was recent already.
  lemma HitRecent(uses: seq<ShaderKey>, max: nat, x: ShaderKey, k: ShaderKey)
    requires IsRecent(uses, max, x)
    ensures IsRecent(uses + [x], max, k) <==> IsRecent(uses, max, k)
  {
    RankAfterUse(uses, x, k);
    if k != x && k in uses && x !in Since(uses, k) {
      SinceOrder(uses, k, x, k);
      RankOrder(uses, k, x);
    }
  }

  // When `x` was not recent it pushes out exactly the last rank.
  lemma MissRecent(uses: seq<ShaderKey>, max: nat, x: ShaderKey, k: ShaderKey)
    requires !IsRecent(uses, max, x) && max >= 1 && k != x
    ensures IsRecent(uses + [x], max, k) <==> k in uses && Rank(uses, k) < max - 1
  {
    RankAfterUse(uses, x, k);
    if k in uses && x in Since(uses, k) {
      SinceWithin(uses, k);
      RankOrder(uses, x, k);
    }
  }

  // The time stamps keep agreeing with the history when `x` becomes the newest entry.
  lemma TimesTrack(es: Entries, es': Entries, uses: seq<ShaderKey>, x: ShaderKey, j: ShaderKey, k: ShaderKey)
    requires j in es && k in es ==> (es[j].lastUsedUs > es[k].lastUsedUs <==> j in Since(uses, k))
    requires x in es' && j in es' && k in es'
    requires j != x ==> j in es && es'[j] == es[j] && es'[j].lastUsedUs < es'[x].lastUsedUs
    requires k != x ==> k in es && es'[k] == es[k] && es'[k].lastUsedUs < es'[x].lastUsedUs
    ensures es'[j].lastUsedUs > es'[k].lastUsedUs <==> j in Since(uses + [x], k)
  {
    SinceSnoc(uses, x, k);
  }

  lemma HitTracks(es: Entries, uses: seq<ShaderKey>, max: nat, x: ShaderKey, now: nat)
    requires Tracks(es, uses, max) && Before(es, now) && x in es
    ensures Tracks(es[x := Stamp(es[x], now)], uses + [x], max)
  {
    var es' := es[x := Stamp(es[x], now)];
    forall k ensures k in es' <==> IsRecent(uses + [x], max, k) {
      HitRecent(uses, max, x, k);
    }
    forall j, k | j in es' && k in es'
      ensures es'[j].lastUsedUs > es'[k].lastUsedUs <==> j in Since(uses + [x], k)
    {
      TimesTrack(es, es', uses, x, j, k);
    }
  }

  // The oldest entry has the last rank there is.
  lemma OldestIsLast(es: Entries, uses: seq<ShaderKey>, max: nat, o: ShaderKey)
    requires Tracks(es, uses, max) && o in es && forall j :: j in es ==> es[o].lastUsedUs <= es[j].lastUsedUs
    ensures Rank(uses, o) == |es| - 1 && |es| <= max
    ensures forall k :: k in es && k != o ==> Rank(uses, k) < Rank(uses, o)
  {
    assert IsRecent(uses, max, o);
    SinceWithin(uses, o);
    forall k | k in es && k != o ensures k in Since(uses, o) && Rank(uses, k) < Rank(uses, o) {
      assert IsRecent(uses, max, k);
      SinceOrder(uses, k, o, k);
      assert es[o].lastUsedUs <= es[k].lastUsedUs;
      RankOrder(uses, k, o);
    }
    forall k | k in Since(uses, o) ensures k in es {
      RankOrder(uses, k, o);
      assert IsRecent(uses, max, k);
    }
    assert Keys(Since(uses, o)) == es.Keys - {o};
  }

  // What eviction leaves: everything, or all but the least recently used key of a full cache.
  ghost predicate AfterEviction(es: Entries, kept: Entries, uses: seq<ShaderKey>, max: nat) {
    if |es| < max then kept == es
    else exists o :: o in es && Rank(uses, o) == max - 1 && kept == es - {o}
  }

  lemma EvictionLeaves(es: Entries, kept: Entries, uses: seq<ShaderKey>, max: nat, k: ShaderKey)
    requires Tracks(es, uses, max) && AfterEviction(es, kept, uses, max) && max >= 1
    ensures k in kept <==> k in uses && Rank(uses, k) < max - 1
    ensures k in kept ==> k in es && kept[k] == es[k]
  {
    assert k in es <==> IsRecent(uses, max, k);
    if k in es {
      RankBelowSize(es, uses, max, k);
      if |es| >= max {
        var o :| o in es && Rank(uses, o) == max - 1 && kept == es - {o};
        assert IsRecent(uses, max, o);
        if k != o {
          SinceOrder(uses, k, o, k);
          if k in Since(uses, o) { RankOrder(uses, k, o); } else { RankOrder(uses, o, k); }
        }
      }
    }
  }

  lemma RankBelowSize(es: Entries, uses: seq<ShaderKey>, max: nat, k: ShaderKey)
    requires Tracks(es, uses, max) && k in es
    ensures Rank(uses, k) < |es|
  {
    assert IsRecent(uses, max, k);
    SinceWithin(uses, k);
    forall j | j in Since(uses, k) ensures j in es.Keys - {k} {
      RankOrder(uses, j, k);
      assert IsRecent(uses, max, j);
    }
    SubsetSize(Keys(Since(uses, k)), es.Keys - {k});
  }

  lemma MissTracks(es: Entries, kept: Entries, uses: seq<ShaderKey>, max: nat, x: ShaderKey, e: CacheEntry)
    requires Tracks(es, uses, max) && Before(es, e.lastUsedUs) && x !in es && max >= 1
    requires AfterEviction(es, kept, uses, max)
    ensures Tracks(kept[x := e], uses + [x], max)
  {
    var es' := kept[x := e];
    assert !IsRecent(uses, max, x);
    forall k ensures k in es' <==> IsRecent(uses + [x], max, k) {
      EvictionLeaves(es, kept, uses, max, k);
      if k == x { RankAfterUse(uses, x, x); } else { MissRecent(uses, max, x, k); }
    }
    forall j, k | j in es' && k in es'
      ensures es'[j].lastUsedUs > es'[k].lastUsedUs <==> j in Since(uses + [x], k)
    {
      EvictionLeaves(es, kept, uses, max, j);
      EvictionLeaves(es, kept, uses, max, k);
      TimesTrack(es, es', uses, x, j, k);
    }
  }

  lemma {:induction false} OldestExists(es: Entries, keys: set<ShaderKey>) returns (o: ShaderKey)
    requires keys != {} && keys <= es.Keys
    ensures o in keys && forall j :: j in keys ==> es[o].lastUsedUs <= es[j].lastUsedUs
    decreases |keys|
  {
    var k :| k in keys;
    if keys == {k} { return k; }
    o := OldestExists(es, keys - {k});
    if es[k].lastUsedUs < es[o].lastUsedUs { o := k; }
  }

  /** The cache never outgrows its limit. */
  lemma Bounded(es: Entries, uses: seq<ShaderKey>, max: nat)
    requires Tracks(es, uses, max)
    ensures |es| <= max
  {
    if es.Keys != {} {
      var o := OldestExists(es, es.Keys);
      OldestIsLast(es, uses, max, o);
    }
  }

  // ----- invalidation: as if only the surviving keys had been used -----

  function Only(uses: seq<ShaderKey>, ks: set<ShaderKey>): (o: seq<ShaderKey>)
    ensures forall k :: k in o <==> k in uses && k in ks
  {
    if uses == [] then []
    else
      assert uses == uses[..|uses|-1] + [Last(uses)];
      Only(uses[..|uses|-1], ks) + if Last(uses) in ks then [Last(uses)] else []
  }

  lemma OnlySnoc(uses: seq<ShaderKey>, x: ShaderKey, ks: set<ShaderKey>)
    ensures Only(uses + [x], ks) == if x in ks then Only(uses, ks) + [x] else Only(uses, ks)
  {
    assert (uses + [x])[..|uses|] == uses;
  }

  lemma {:induction false} SinceOnly(uses: seq<ShaderKey>, ks: set<ShaderKey>, j: ShaderKey, k: ShaderKey)
    requires j in ks && k in ks
    ensures j in Since(Only(uses, ks), k) <==> j in Since(uses, k)
    decreases |uses|
  {
    if uses != [] {
      var before, x := uses[..|uses|-1], Last(uses);
      assert uses == before + [x];
      SinceOnly(before, ks, j, k);
      OnlySnoc(before, x, ks);
      SinceSnoc(before, x, k);
      if x in ks { SinceSnoc(Only(before, ks), x, k); }
    }
  }

  lemma RemovalTracks(es: Entries, uses: seq<ShaderKey>, max: nat, x: ShaderKey)
    requires Tracks(es, uses, max)
    ensures Tracks(es - {x}, Only(uses, (es - {x}).Keys), max)
  {
    var es' := es - {x};
    var ks := es'.Keys;
    var uses' := Only(uses, ks);
    Bounded(es, uses, max);
    forall k ensures k in es' <==> IsRecent(uses', max, k) {
      if k in es' {
        assert IsRecent(uses, max, k);
        SinceWithin(uses', k);
        SubsetSize(Keys(Since(uses', k)), es.Keys - {k});
      }
    }
    forall j, k | j in es' && k in es'
      ensures es'[j].lastUsedUs > es'[k].lastUsedUs <==> j in Since(uses', k)
    {
      SinceOnly(uses, ks, j, k);
    }
  }

  ghost predicate Sound(es: Entries, uses: seq<ShaderKey>, max: nat, c: Compiler) {
    max >= 1 && Tracks(es, uses, max) && Compiled(es, c)
  }

  lemma HitSound(es: Entries, uses: seq<ShaderKey>, max: nat, c: Compiler, x: ShaderKey, now: nat)
    requires Sound(es, uses, max, c) && Before(es, now) && x in es
    ensures Sound(es[x := Stamp(es[x], now)], uses + [x], max, c)
  {
    HitTracks(es, uses, max, x, now);
  }

  lemma MissSound(es: Entries, kept: Entries, uses: seq<ShaderKey>, max: nat, c: Compiler, e: CacheEntry)
    requires Sound(es, uses, max, c) && Before(es, e.lastUsedUs) && e.key !in es
    requires AfterEviction(es, kept, uses, max) && e.binary == Direct(c, e.spirv, e.key.stage)
    ensures Sound(kept[e.key := e], uses + [e.key], max, c)
  {
    MissTracks(es, kept, uses, max, e.key, e);
  }

  // ----- whole runs -----

  // An operation with the clock reading it takes.
  datatype Op =
    | Look(key: ShaderKey, now: nat)
    | Comp(key: ShaderKey, spirv: seq<byte>, now: nat)
    | Drop(key: ShaderKey)

  // The cache, its history, and the last clock reading.
  datatype Snap = Snap(es: Entries, uses: seq<ShaderKey>, clock: nat)

  // What the scan and the erasure may leave: ties and the iteration order are free.
  ghost predicate Evicted(es: Entries, kept: Entries, max: nat) {
    if |es| < max then kept == es
    else exists o :: o in es && (forall j :: j in es ==> es[o].lastUsedUs <= es[j].lastUsedUs) && kept == es - {o}
  }

  function NewEntry(c: Compiler, key: ShaderKey, spirv: seq<byte>, now: nat): CacheEntry {
    var binary := Direct(c, spirv, key.stage);
    CacheEntry(key, binary, spirv, now, 0, binary != [])
  }

  ghost predicate Next(s: Snap, s': Snap, op: Op, max: nat, c: Compiler) {
    match op
    case Look(k, now) =>
      s.clock < now == s'.clock &&
      (if k in s.es then s'.es == s.es[k := Stamp(s.es[k], now)] && s'.uses == s.uses + [k]
       else s'.es == s.es && s'.uses == s.uses)
    case Comp(k, spirv, now) =>
      s.clock < now == s'.clock && s'.uses == s.uses + [k] &&
      (if k in s.es then s'.es == s.es[k := Stamp(s.es[k], now)]
       else exists kept :: Evicted(s.es, kept, max) && s'.es == kept[k := NewEntry(c, k, spirv, now)])
    case Drop(k) =>
      s'.es == s.es - {k} && s'.uses == Only(s.uses, s'.es.Keys) && s'.clock == s.clock
  }

  ghost predicate Good(s: Snap, max: nat, c: Compiler) {
    Sound(s.es, s.uses, max, c) && Before(s.es, s.clock + 1)
  }

  lemma EvictedIsLast(es: Entries, kept: Entries, uses: seq<ShaderKey>, max: nat)
    requires Tracks(es, uses, max) && Evicted(es, kept, max) && max >= 1
    ensures AfterEviction(es, kept, uses, max)
  {
    if |es| >= max {
      var o :| o in es && (forall j :: j in es ==> es[o].lastUsedUs <= es[j].lastUsedUs) && kept == es - {o};
      OldestIsLast(es, uses, max, o);
    }
  }

  lemma CompKeepsGood(s: Snap, s': Snap, key: ShaderKey, spirv: seq<byte>, now: nat, max: nat, c: Compiler)
    requires Good(s, max, c) && key !in s.es && Next(s, s', Comp(key, spirv, now), max, c)
    ensures Good(s', max, c)
  {
    var e := NewEntry(c, key, spirv, now);
    var kept :| Evicted(s.es, kept, max) && s'.es == kept[key := e];
    EvictedIsLast(s.es, kept, s.uses, max);
    MissSound(s.es, kept, s.uses, max, c, e);
    assert forall k :: k in kept ==> k in s.es && kept[k] == s.es[k];
  }

  lemma HitIsNext(s: Snap, key: ShaderKey, now: nat, max: nat, c: Compiler)
    requires Good(s, max, c) && key in s.es && s.clock < now
    ensures var s' := Snap(s.es[key := Stamp(s.es[key], now)], s.uses + [key], now);
      Next(s, s', Look(key, now), max, c) && Good(s', max, c)
  {
    HitSound(s.es, s.uses, max, c, key, now);
  }

  lemma LookMissIsNext(s: Snap, key: ShaderKey, now: nat, max: nat, c: Compiler)
    requires Good(s, max, c) && key !in s.es && s.clock < now
    ensures Next(s, s.(clock := now), Look(key, now), max, c) && Good(s.(clock := now), max, c)
  {
  }

  lemma MissIsNext(s: Snap, kept: Entries, key: ShaderKey, spirv: seq<byte>, now: nat, max: nat, c: Compiler)
    requires Good(s, max, c) && key !in s.es && s.clock < now && Evicted(s.es, kept, max)
    ensures var s' := Snap(kept[key := NewEntry(c, key, spirv, now)], s.uses + [key], now);
      Next(s, s', Comp(key, spirv, now), max, c) && Good(s', max, c)
  {
    var s' := Snap(kept[key := NewEntry(c, key, spirv, now)], s.uses + [key], now);
    assert Next(s, s', Comp(key, spirv, now), max, c);
    CompKeepsGood(s, s', key, spirv, now, max, c);
  }

  lemma NextKeepsGood(s: Snap, s': Snap, op: Op, max: nat, c: Compiler)
    requires Good(s, max, c) && Next(s, s', op, max, c)
    ensures Good(s', max, c)
  {
    match op
    case Look(k, now) =>
      if k in s.es { HitSound(s.es, s.uses, max, c, k, now); }
    case Comp(k, spirv, now) =>
      if k in s.es { HitSound(s.es, s.uses, max, c, k, now); } else { CompKeepsGood(s, s', k, spirv, now, max, c); }
    case Drop(k) =>
      RemovalTracks(s.es, s.uses, max, k);
  }

  ghost predicate IsRun(states: seq<Snap>, ops: seq<Op>, max: nat, c: Compiler) {
    && |states| == |ops| + 1
    && states[0].es == map[] && states[0].uses == []
    && forall i :: 0 <= i < |ops| ==> Next(states[i], states[i + 1], ops[i], max, c)
  }

  lemma {:induction false} EveryStateIsGood(states: seq<Snap>, ops: seq<Op>, max: nat, c: Compiler, i: nat)
    requires max >= 1 && IsRun(states, ops, max, c) && i < |states|
    ensures Good(states[i], max, c)
    decreases i
  {
    if i > 0 {
      EveryStateIsGood(states, ops, max, c, i - 1);
      NextKeepsGood(states[i - 1], states[i], ops[i - 1], max, c);
    }
  }

  // How many of the operations from j up to i are a use of `k`.
  function UsesOf(ops: seq<Op>, j: nat, i: nat, k: ShaderKey): nat
    requires j <= i <= |ops|
    decreases i - j
  {
    if i == j then 0
    else UsesOf(ops, j, i - 1, k) + if !ops[i - 1].Drop? && ops[i - 1].key == k then 1 else 0
  }

  /** Operation j was the compile that `e` comes from: it missed, it was handed the source of `e` for that
      key, the binary is what the compiler makes of that source, and up to i every later use was a hit. */
  ghost predicate ComesFrom(
    states: seq<Snap>, ops: seq<Op>, c: Compiler, i: nat, k: ShaderKey, e: CacheEntry, j: nat)
    requires i <= |ops| && |states| == |ops| + 1
  {
    && j < i && ops[j].Comp? && ops[j].key == k && ops[j].spirv == e.spirv && k !in states[j].es
    && (forall m :: j < m <= i ==> k in states[m].es)
    && e.key == k
    && e.binary == (match c case Some(compile) => compile(ops[j].spirv, k.stage) case None => ops[j].spirv)
    && e.valid == (|e.binary| > 0)
    && e.hitCount == UsesOf(ops, j + 1, i, k)
  }

  lemma StepComesFrom(
    states: seq<Snap>, ops: seq<Op>, max: nat, c: Compiler, i: nat, k: ShaderKey, j: nat)
    requires IsRun(states, ops, max, c) && i < |ops| && k in states[i].es && k in states[i + 1].es
    requires ComesFrom(states, ops, c, i, k, states[i].es[k], j)
    ensures ComesFrom(states, ops, c, i + 1, k, states[i + 1].es[k], j)
  {
    assert Next(states[i], states[i + 1], ops[i], max, c);
  }

  lemma NewComesFrom(states: seq<Snap>, ops: seq<Op>, max: nat, c: Compiler, i: nat, k: ShaderKey)
    requires IsRun(states, ops, max, c) && i < |ops| && k !in states[i].es && k in states[i + 1].es
    ensures ComesFrom(states, ops, c, i + 1, k, states[i + 1].es[k], i)
  {
    assert Next(states[i], states[i + 1], ops[i], max, c);
  }

  /** At every point of every run each cached entry comes from a compile of the source that was handed in
      for its key, and counts the hits since. */
  lemma {:induction false} EveryEntryWasHandedIn(
    states: seq<Snap>, ops: seq<Op>, max: nat, c: Compiler, i: nat, k: ShaderKey)
    requires IsRun(states, ops, max, c) && i < |states| && k in states[i].es
    ensures exists j :: ComesFrom(states, ops, c, i, k, states[i].es[k], j)
    decreases i
  {
    if i > 0 {
      if k in states[i - 1].es {
        EveryEntryWasHandedIn(states, ops, max, c, i - 1, k);
        var j :| ComesFrom(states, ops, c, i - 1, k, states[i - 1].es[k], j);
        StepComesFrom(states, ops, max, c, i - 1, k, j);
      } else {
        NewComesFrom(states, ops, max, c, i - 1, k);
      }
    }
  }

  /** After any run with increasing clock readings the cached keys are exactly the `max` most recently used
      distinct ones, and each entry is a compile of the source that was handed in for its key. */
  lemma EveryRunIsRecent(states: seq<Snap>, ops: seq<Op>, max: nat, c: Compiler, i: nat)
    requires max >= 1 && IsRun(states, ops, max, c) && i < |states|
    ensures forall k :: k in states[i].es <==> IsRecent(states[i].uses, max, k)
    ensures forall k :: k in states[i].es ==> exists j :: ComesFrom(states, ops, c, i, k, states[i].es[k], j)
  {
    EveryStateIsGood(states, ops, max, c, i);
    forall k | k in states[i].es
      ensures exists j :: ComesFrom(states, ops, c, i, k, states[i].es[k], j)
    {
      EveryEntryWasHandedIn(states, ops, max, c, i, k);
    }
  }

  // The keys used by one operation.
  function Used(s: Snap, op: Op): seq<ShaderKey> {
    match op
    case Look(k, _) => if k in s.es then [k] else []
    case Comp(k, _, _) => [k]
    case Drop(_) => []
  }

  function Trace(states: seq<Snap>, ops: seq<Op>, i: nat): seq<ShaderKey>
    requires i <= |ops| && |states| == |ops| + 1
  {
    if i == 0 then [] else Trace(states, ops, i - 1) + Used(states[i - 1], ops[i - 1])
  }

  /** As long as nothing is invalidated the history is the real one: every hit and every compile, in order. */
  lemma {:induction false} HistoryIsExact(states: seq<Snap>, ops: seq<Op>, max: nat, c: Compiler, i: nat)
    requires IsRun(states, ops, max, c) && i <= |ops|
    requires forall j :: 0 <= j < i ==> !ops[j].Drop?
    ensures states[i].uses == Trace(states, ops, i)
    decreases i
  {
    if i > 0 {
      HistoryIsExact(states, ops, max, c, i - 1);
      assert Next(states[i - 1], states[i], ops[i - 1], max, c);
    }
  }

  // ----- operations -----

  // The scan for the oldest entry, over the unordered map.
  method FindOldest(es: Entries) returns (oldest: ShaderKey)
    requires es != map[]
    ensures oldest in es && forall j :: j in es ==> es[oldest].lastUsedUs <= es[j].lastUsedUs
  {
    var todo := es.Keys;
    oldest :| oldest in es;
    while todo != {}
      invariant todo <= es.Keys && oldest in es
      invariant forall j :: j in es && j !in todo ==> es[oldest].lastUsedUs <= es[j].lastUsedUs
      decreases |todo|
    {
      var k :| k in todo;
      if es[k].lastUsedUs < es[oldest].lastUsedUs { oldest := k; }
      todo := todo - {k};
    }
  }

  ghost predicate OthersAreOld(key: ShaderKey, before: Entries, after: Entries) {
    forall k :: k in after && k != key ==> k in before && after[k] == before[k]
  }

  lemma EvictedIsOld(es: Entries, kept: Entries, max: nat)
    requires Evicted(es, kept, max)
    ensures forall k :: k in kept ==> k in es && kept[k] == es[k]
  {
  }

  class CacheState {
    var entries: Entries
    const maxEntries: nat
    const compiler: Compiler
    var hits: nat
    var misses: nat
    var evictions: nat
    var compilations: nat
    // Every successful look-up and every compile, in order, and the last clock reading.
    ghost var uses: seq<ShaderKey>
    ghost var clock: nat

    constructor (maxEntries: nat, compiler: Compiler)
      requires maxEntries >= 1
      ensures Valid() && View() == Snap(map[], [], 0)
      ensures this.maxEntries == maxEntries && this.compiler == compiler
    {
      this.maxEntries, this.compiler := maxEntries, compiler;
      entries, uses, clock := map[], [], 0;
      hits, misses, evictions, compilations := 0, 0, 0, 0;
    }

    ghost function View(): Snap
      reads this
    {
      Snap(entries, uses, clock)
    }

    ghost predicate Valid()
      reads this
    {
      Good(View(), maxEntries, compiler)
    }

    /** A fresh compile of the given source for the given key. */
    ghost predicate IsCompileOf(e: CacheEntry, key: ShaderKey, spirv: seq<byte>, now: nat) {
      && e.key == key && e.spirv == spirv
      && e.binary == (match compiler case Some(compile) => compile(spirv, key.stage) case None => spirv)
      && e.valid == (|e.binary| > 0) && e.hitCount == 0 && e.lastUsedUs == now
    }

    // The stamping of a hit.
    method Touch(key: ShaderKey, now: nat)
      requires key in entries
      modifies this`entries, this`uses, this`clock, this`hits
      ensures View() == Snap(old(entries)[key := Stamp(old(entries)[key], now)], old(uses) + [key], now)
      ensures hits == old(hits) + 1
    {
      entries := entries[key := Stamp(entries[key], now)];
      uses := uses + [key];
      clock := now;
      hits := hits + 1;
    }

    method Lookup(key: ShaderKey, now: nat) returns (r: Option<CacheEntry>)
      requires Valid() && clock < now
      modifies this
      ensures Valid() && Next(old(View()), View(), Look(key, now), maxEntries, compiler)
      ensures r == if key in old(entries) then Some(entries[key]) else None
      ensures entries.Keys == old(entries).Keys
      ensures forall k :: k in entries && k != key ==> entries[k] == old(entries)[k]
      ensures r.Some? ==> r.value == old(entries)[key].(hitCount := old(entries)[key].hitCount + 1, lastUsedUs := now)
      ensures hits == old(hits) + (if r.Some? then 1 else 0) && misses == old(misses) + (if r.Some? then 0 else 1)
      ensures evictions == old(evictions) && compilations == old(compilations)
    {
      if key !in entries {
        LookMissIsNext(View(), key, now, maxEntries, compiler);
        misses := misses + 1;
        clock := now;
        return None;
      }
      HitIsNext(View(), key, now, maxEntries, compiler);
      Touch(key, now);
      r := Some(entries[key]);
    }

    // Makes room for one more entry.
    method Evict()
      requires maxEntries >= 1
      modifies this`entries, this`evictions
      ensures Evicted(old(entries), entries, maxEntries)
      ensures evictions == old(evictions) + if |old(entries)| >= maxEntries then 1 else 0
    {
      if |entries| >= maxEntries {
        var oldest := FindOldest(entries);
        entries := entries - {oldest};
        evictions := evictions + 1;
      }
    }

    method CompileNow(key: ShaderKey, spirv: seq<byte>, now: nat) returns (entry: CacheEntry)
      ensures entry == NewEntry(compiler, key, spirv, now) && IsCompileOf(entry, key, spirv, now)
    {
      var binary := if compiler.Some? then (compiler.value)(spirv, key.stage) else spirv;
      entry := CacheEntry(key, binary, spirv, now, 0, binary != []);
    }

    // The second half of Compile, on a miss; `before` is the state at the look-up.
    method CompileMissing(key: ShaderKey, spirv: seq<byte>, now: nat, ghost before: Snap) returns (entry: CacheEntry)
      requires Good(before, maxEntries, compiler) && before.clock < now == clock
      requires before.es == entries && before.uses == uses && key !in entries
      modifies this`entries, this`uses, this`evictions, this`compilations
      ensures Valid() && Next(before, View(), Comp(key, spirv, now), maxEntries, compiler)
      ensures key in entries && entries[key] == entry
      ensures IsCompileOf(entry, key, spirv, now)
      ensures OthersAreOld(key, old(entries), entries)
      ensures compilations == old(compilations) + 1
      ensures evictions == old(evictions) + if |old(entries)| >= maxEntries then 1 else 0
    {
      entry := CompileNow(key, spirv, now);
      Evict();
      ghost var kept := entries;
      EvictedIsOld(before.es, kept, maxEntries);
      entries := entries[key := entry];
      uses := uses + [key];
      compilations := compilations + 1;
      MissIsNext(before, kept, key, spirv, now, maxEntries, compiler);
    }

    // The clock is read once: by the look-up on a hit, for the new entry on a miss.
    method Compile(key: ShaderKey, spirv: seq<byte>, now: nat) returns (r: Option<CacheEntry>)
      requires Valid() && clock < now
      modifies this
      ensures Valid() && Next(old(View()), View(), Comp(key, spirv, now), maxEntries, compiler)
      ensures key in entries && r == Some(entries[key])
      ensures key in old(entries) ==>
        r.value == old(entries)[key].(hitCount := old(entries)[key].hitCount + 1, lastUsedUs := now)
      ensures key !in old(entries) ==> IsCompileOf(r.value, key, spirv, now)
      ensures OthersAreOld(key, old(entries), entries)
      ensures compilations == old(compilations) + (if key in old(entries) then 0 else 1)
      ensures evictions == old(evictions) +
        (if key !in old(entries) && |old(entries)| >= maxEntries then 1 else 0)
    {
      r := Lookup(key, now);
      if r.Some? { return; }
      var entry := CompileMissing(key, spirv, now, old(View()));
      r := Some(entry);
    }

    method Invalidate(key: ShaderKey) returns (found: bool)
      requires Valid()
      modifies this`entries, this`uses
      ensures Valid() && Next(old(View()), View(), Drop(key), maxEntries, compiler)
      ensures (found <==> key in old(entries)) && entries == old(entries) - {key}
    {
      ghost var before := View();
      found := key in entries;
      entries := entries - {key};
      uses := Only(uses, entries.Keys);
      NextKeepsGood(before, View(), Drop(key), maxEntries, compiler);
    }
  }
}
