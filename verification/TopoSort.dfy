/** Kahn's algorithm with a last-in first-out work list. The repository writes the same loop
    three times (dynamic linker, module registry, runtime manager); the maps it iterates are
    unordered, so both iterations below pick the next key arbitrarily. */
module TopoSort {
  import opened Graphs

  // How often `x` occurs in `s`.
  ghost function Times(s: seq<nat>, x: nat): nat {
    if s == [] then 0 else (if s[0] == x then 1 else 0) + Times(s[1..], x)
  }

  lemma {:induction false} TimesSnoc(s: seq<nat>, y: nat, x: nat)
    ensures Times(s + [y], x) == Times(s, x) + if x == y then 1 else 0
  {
    if s != [] {
      assert (s + [y])[1..] == s[1..] + [y];
      TimesSnoc(s[1..], y, x);
    }
  }

  lemma {:induction false} TimesMember(s: seq<nat>, x: nat)
    ensures Times(s, x) > 0 <==> x in s
  {
    if s != [] {
      TimesMember(s[1..], x);
      assert s == [s[0]] + s[1..];
    }
  }

  // How many entries of `deps` (with multiplicity) are still missing from `done`.
  ghost function Open(deps: seq<nat>, done: seq<nat>): nat {
    if deps == [] then 0
    else (if deps[0] in done then 0 else 1) + Open(deps[1..], done)
  }

  lemma {:induction false} OpenStep(deps: seq<nat>, done: seq<nat>, x: nat)
    requires x !in done
    ensures Open(deps, done) == Open(deps, done + [x]) + Times(deps, x)
  {
    if deps != [] {
      OpenStep(deps[1..], done, x);
      assert deps == [deps[0]] + deps[1..];
    }
  }

  lemma {:induction false} OpenZero(deps: seq<nat>, done: seq<nat>)
    ensures Open(deps, done) == 0 <==> forall d :: d in deps ==> d in done
  {
    if deps != [] {
      OpenZero(deps[1..], done);
      assert deps == [deps[0]] + deps[1..];
    }
  }

  lemma {:induction false} OpenNothing(deps: seq<nat>)
    ensures Open(deps, []) == |deps|
  {
    if deps != [] { OpenNothing(deps[1..]); }
  }

  // `adj[d]` of the source: operator[] yields an empty row for a key it has not seen.
  function Row(adj: map<nat, seq<nat>>, d: nat): seq<nat> {
    if d in adj then adj[d] else []
  }

  // The reverse adjacency lists hold every dependency, as often as it was declared.
  ghost predicate Mirrors(adj: map<nat, seq<nat>>, g: Graph, done: set<nat>) {
    forall d: nat, v: nat :: Times(Row(adj, d), v) == if v in g && v in done then Times(g[v], d) else 0
  }

  // The reverse rows once the entries `part` of the list of `m` have been pushed.
  ghost predicate MirrorsPart(adj: map<nat, seq<nat>>, g: Graph, done: set<nat>, m: nat, part: seq<nat>) {
    forall d: nat, v: nat :: Times(Row(adj, d), v) ==
      if v == m then Times(part, d) else if v in g && v in done then Times(g[v], d) else 0
  }

  lemma PushMirrors(adj: map<nat, seq<nat>>, g: Graph, done: set<nat>, m: nat, part: seq<nat>, dep: nat)
    requires MirrorsPart(adj, g, done, m, part) && m !in done
    ensures MirrorsPart(adj[dep := Row(adj, dep) + [m]], g, done, m, part + [dep])
  {
    var after := adj[dep := Row(adj, dep) + [m]];
    forall d: nat, v: nat ensures Times(Row(after, d), v) ==
      if v == m then Times(part + [dep], d) else if v in g && v in done then Times(g[v], d) else 0
    {
      TimesSnoc(Row(adj, d), m, v);
      TimesSnoc(part, dep, d);
      assert Row(after, d) == if d == dep then Row(adj, d) + [m] else Row(adj, d);
      assert Times(Row(adj, d), v) ==
        if v == m then Times(part, d) else if v in g && v in done then Times(g[v], d) else 0;
    }
  }

  lemma MirrorsWhole(adj: map<nat, seq<nat>>, g: Graph, done: set<nat>, m: nat)
    requires m in g && MirrorsPart(adj, g, done, m, g[m])
    ensures Mirrors(adj, g, done + {m})
  {
  }

  // The in-degrees of the modules in `done`.
  ghost function Degrees(g: Graph, done: set<nat>): map<nat, int>
    requires done <= g.Keys
  {
    map v | v in done :: |g[v]|
  }

  // The state of the first loop once the modules in `done` have been visited.
  ghost predicate Built(g: Graph, done: set<nat>, inDeg: map<nat, int>, adj: map<nat, seq<nat>>) {
    done <= g.Keys && inDeg == Degrees(g, done) && Mirrors(adj, g, done)
  }

  lemma NothingBuilt(g: Graph)
    ensures Built(g, {}, map[], map[])
  {
  }

  lemma OneMoreBuilt(g: Graph, done: set<nat>, m: nat, inDeg: map<nat, int>, adj: map<nat, seq<nat>>)
    requires m in g && done <= g.Keys && inDeg == Degrees(g, done)
    requires MirrorsPart(adj, g, done, m, g[m])
    ensures Built(g, done + {m}, inDeg[m := |g[m]|], adj)
  {
    MirrorsWhole(adj, g, done, m);
  }

  method AddModule(g: Graph, m: nat, ghost done: set<nat>, inDeg: map<nat, int>, adj: map<nat, seq<nat>>)
    returns (inDeg': map<nat, int>, adj': map<nat, seq<nat>>)
    requires m in g && m !in done && Built(g, done, inDeg, adj)
    ensures Built(g, done + {m}, inDeg', adj')
  {
    var deps := g[m];
    inDeg', adj' := inDeg, adj;
    if m !in inDeg' { inDeg' := inDeg'[m := 0]; }
    var k := 0;
    assert MirrorsPart(adj', g, done, m, deps[..0]) by {
      assert deps[..0] == [];
    }
    while k < |deps|
      invariant 0 <= k <= |deps|
      invariant inDeg' == inDeg[m := k]
      invariant MirrorsPart(adj', g, done, m, deps[..k])
    {
      var dep := deps[k];
      PushMirrors(adj', g, done, m, deps[..k], dep);
      assert deps[..k+1] == deps[..k] + [dep];
      adj' := adj'[dep := Row(adj', dep) + [m]];
      inDeg' := inDeg'[m := inDeg'[m] + 1];
      k := k + 1;
    }
    assert deps[..k] == deps;
    OneMoreBuilt(g, done, m, inDeg, adj');
  }

  method BuildReverse(g: Graph) returns (inDeg: map<nat, int>, adj: map<nat, seq<nat>>)
    ensures inDeg.Keys == g.Keys && forall v :: v in g ==> inDeg[v] == |g[v]|
    ensures Mirrors(adj, g, g.Keys)
  {
    inDeg, adj := map[], map[];
    NothingBuilt(g);
    ghost var done: set<nat> := {};
    var todo := g.Keys;
    while todo != {}
      invariant todo == g.Keys - done
      invariant Built(g, done, inDeg, adj)
      decreases |todo|
    {
      var m :| m in todo;
      inDeg, adj := AddModule(g, m, done, inDeg, adj);
      todo, done := todo - {m}, done + {m};
    }
    assert done == g.Keys;
  }

  // Bookkeeping of the main loop while the row of the node just emitted is `rest` short.
  ghost predicate Counts(g: Graph, inDeg: map<nat, int>, order: seq<nat>, rest: seq<nat>) {
    && inDeg.Keys == g.Keys
    && forall v :: v in g ==> inDeg[v] == Open(g[v], order) + Times(rest, v)
  }

  // Exactly the nodes with nothing left to wait for have been emitted or are waiting in q.
  ghost predicate Frontier(g: Graph, inDeg: map<nat, int>, order: seq<nat>, q: seq<nat>) {
    && inDeg.Keys == g.Keys
    && NoDup(order) && NoDup(q) && (forall v :: v in q ==> v !in order)
    && (forall v :: v in order || v in q <==> v in g && inDeg[v] == 0)
  }

  method Seed(g: Graph, inDeg: map<nat, int>) returns (q: seq<nat>)
    requires inDeg.Keys == g.Keys
    ensures Frontier(g, inDeg, [], q)
  {
    q := [];
    var todo := inDeg.Keys;
    while todo != {}
      invariant todo <= inDeg.Keys
      invariant NoDup(q)
      invariant forall v :: v in q <==> v in inDeg.Keys - todo && inDeg[v] == 0
      decreases |todo|
    {
      var v :| v in todo;
      if inDeg[v] == 0 { q := q + [v]; }
      todo := todo - {v};
    }
  }

  lemma EmittedDepsFirst(g: Graph, order: seq<nat>, cur: nat)
    requires DepsFirst(g, order) && cur !in order && cur in g && Open(g[cur], order) == 0
    ensures DepsFirst(g, order + [cur])
  {
    OpenZero(g[cur], order);
    DepsFirstSnoc(g, order, cur);
  }

  lemma CountsAfterEmit(g: Graph, inDeg: map<nat, int>, order: seq<nat>, cur: nat, row: seq<nat>)
    requires Counts(g, inDeg, order, []) && cur !in order
    requires forall v :: v in g ==> Times(row, v) == Times(g[v], cur)
    ensures Counts(g, inDeg, order + [cur], row)
  {
    forall v | v in g ensures inDeg[v] == Open(g[v], order + [cur]) + Times(row, v) {
      OpenStep(g[v], order, cur);
    }
  }

  lemma DrainedIsKahnResult(g: Graph, inDeg: map<nat, int>, order: seq<nat>)
    requires Counts(g, inDeg, order, []) && Frontier(g, inDeg, order, []) && DepsFirst(g, order)
    ensures KahnResult(g, order)
  {
    forall v: nat | v in g && v !in order ensures exists d :: d in g[v] && d !in order {
      OpenZero(g[v], order);
    }
  }

  // One pass over the row of the node just emitted.
  method Release(g: Graph, inDeg: map<nat, int>, order: seq<nat>, q: seq<nat>, row: seq<nat>)
    returns (inDeg': map<nat, int>, q': seq<nat>)
    requires Counts(g, inDeg, order, row) && Frontier(g, inDeg, order, q)
    requires forall v :: Times(row, v) > 0 ==> v in g
    ensures Counts(g, inDeg', order, []) && Frontier(g, inDeg', order, q')
  {
    inDeg', q' := inDeg, q;
    var j := 0;
    assert row[0..] == row;
    while j < |row|
      invariant 0 <= j <= |row|
      invariant Counts(g, inDeg', order, row[j..])
      invariant Frontier(g, inDeg', order, q')
    {
      var nxt := row[j];
      assert row[j..][1..] == row[j+1..];
      TimesMember(row, nxt);
      inDeg' := inDeg'[nxt := inDeg'[nxt] - 1];
      if inDeg'[nxt] == 0 { q' := q' + [nxt]; }
      j := j + 1;
    }
  }

  lemma FrontierAfterPop(g: Graph, inDeg: map<nat, int>, order: seq<nat>, rest: seq<nat>, cur: nat)
    requires Frontier(g, inDeg, order, rest + [cur])
    ensures cur !in order && cur in g && inDeg[cur] == 0
    ensures Frontier(g, inDeg, order + [cur], rest)
  {
    var q := rest + [cur];
    assert q[|rest|] == cur;
    assert forall i :: 0 <= i < |rest| ==> q[i] == rest[i];
  }

  // One turn of the main loop: pop the newest waiting node, emit it, release its row.
  method EmitNewest(g: Graph, adj: map<nat, seq<nat>>, inDeg: map<nat, int>, order: seq<nat>, q: seq<nat>)
    returns (inDeg': map<nat, int>, order': seq<nat>, q': seq<nat>)
    requires Counts(g, inDeg, order, []) && Frontier(g, inDeg, order, q) && DepsFirst(g, order)
    requires Mirrors(adj, g, g.Keys) && q != []
    ensures Counts(g, inDeg', order', []) && Frontier(g, inDeg', order', q') && DepsFirst(g, order')
    ensures order' == order + [Last(q)]
  {
    var cur := q[|q|-1];
    var rest := q[..|q|-1];
    assert q == rest + [cur];
    FrontierAfterPop(g, inDeg, order, rest, cur);
    EmittedDepsFirst(g, order, cur);
    CountsAfterEmit(g, inDeg, order, cur, Row(adj, cur));
    order' := order + [cur];
    inDeg', q' := Release(g, inDeg, order', rest, Row(adj, cur));
  }

  method KahnOrder(g: Graph) returns (order: seq<nat>)
    ensures KahnResult(g, order)
    ensures forall v: nat :: v in order <==> Grounded(g, v)
  {
    var inDeg, adj := BuildReverse(g);
    order := [];
    forall v | v in g ensures inDeg[v] == Open(g[v], order) { OpenNothing(g[v]); }
    var q := Seed(g, inDeg);
    while q != []
      invariant Counts(g, inDeg, order, []) && Frontier(g, inDeg, order, q) && DepsFirst(g, order)
      invariant |order| <= |g.Keys|
      decreases |g.Keys| - |order|
    {
      inDeg, order, q := EmitNewest(g, adj, inDeg, order, q);
      NoDupBound(order, g.Keys);
    }
    DrainedIsKahnResult(g, inDeg, order);
    KahnListsTheGrounded(g, order);
  }

  /** The module dependency graph is acyclic and complete exactly when every module is listed. */
  method TopologicalOrder(g: Graph) returns (order: seq<nat>)
    ensures KahnResult(g, order)
    ensures (forall v: nat :: v in g ==> v in order) <==> Acyclic(g) && Complete(g)
  {
    order := KahnOrder(g);
    KahnListsAll(g, order);
  }
}
