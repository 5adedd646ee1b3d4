/** Dependency graphs: a registered node maps to the list of nodes it depends on.
    A dependency need not be registered, and may be listed more than once. */
module Graphs {
  type Graph = map<nat, seq<nat>>

  // ModuleRegistry::GetDependencies: an unregistered node has no dependencies.
  function Deps(g: Graph, v: nat): seq<nat> {
    if v in g then g[v] else []
  }

  ghost predicate Edge(g: Graph, a: nat, b: nat) {
    b in Deps(g, a)
  }

  ghost predicate Walk(g: Graph, p: seq<nat>) {
    |p| > 0 && forall i :: 0 < i < |p| ==> Edge(g, p[i-1], p[i])
  }

  ghost predicate WalkFrom(g: Graph, p: seq<nat>, v: nat) {
    Walk(g, p) && p[0] == v
  }

  ghost predicate NoDup<T>(s: seq<T>) {
    forall i, j :: 0 <= i < j < |s| ==> s[i] != s[j]
  }

  function Last<T>(s: seq<T>): T
    requires |s| > 0
  {
    s[|s|-1]
  }

  /** No walk of at least one edge returns to where it started. */
  ghost predicate Acyclic(g: Graph) {
    forall p: seq<nat> :: Walk(g, p) && |p| > 1 ==> p[0] != Last(p)
  }

  /** Every dependency of a registered node is registered. */
  ghost predicate Complete(g: Graph) {
    forall v, d :: v in g && d in g[v] ==> d in g
  }

  /** The whole transitive dependency set of `v` is registered and free of cycles. */
  ghost predicate Grounded(g: Graph, v: nat) {
    forall p: seq<nat> :: WalkFrom(g, p, v) ==> Last(p) in g && NoDup(p)
  }

  /** Every node comes after all of its dependencies, and no node is repeated. */
  ghost predicate DepsFirst(g: Graph, s: seq<nat>) {
    NoDup(s) && forall i, d :: 0 <= i < |s| && Edge(g, s[i], d) ==> d in s[..i]
  }

  /** What a run of Kahn's loop leaves behind: a dependency-first list of registered
      nodes, each omitted node being held back by an omitted dependency. */
  ghost predicate KahnResult(g: Graph, order: seq<nat>) {
    && DepsFirst(g, order)
    && (forall v: nat :: v in order ==> v in g)
    && (forall v: nat :: v in g && v !in order ==> exists d :: d in g[v] && d !in order)
  }

  /** A walk whose last vertex occurs earlier in it: a lead-in followed by a cycle. */
  ghost predicate Lasso(g: Graph, p: seq<nat>) {
    |p| > 1 && Walk(g, p) && Last(p) in p[..|p|-1]
  }

  // ----- counting -----

  lemma {:induction false} NoDupBound<T>(s: seq<T>, universe: set<T>)
    requires NoDup(s) && forall x :: x in s ==> x in universe
    ensures |s| <= |universe|
  {
    if s != [] {
      var rest := universe - {s[0]};
      assert forall x :: x in s[1..] ==> x in rest;
      NoDupBound(s[1..], rest);
      assert universe == rest + {s[0]};
    }
  }

  lemma DepsFirstSnoc(g: Graph, s: seq<nat>, v: nat)
    requires DepsFirst(g, s) && v !in s
    requires forall d :: Edge(g, v, d) ==> d in s
    ensures DepsFirst(g, s + [v])
  {
    var t := s + [v];
    forall i, d | 0 <= i < |t| && Edge(g, t[i], d) ensures d in t[..i] {
      if i < |s| {
        assert d in s[..i];
        assert t[..i] == s[..i];
      } else {
        assert t[..i] == s;
      }
    }
  }

  // ----- walks -----

  lemma WalkTail(g: Graph, p: seq<nat>)
    requires Walk(g, p) && |p| > 1
    ensures Walk(g, p[1..])
  {
    forall i | 0 < i < |p[1..]| ensures Edge(g, p[1..][i-1], p[1..][i]) {
      assert Edge(g, p[(i+1)-1], p[i+1]);
    }
  }

  lemma SubWalk(g: Graph, p: seq<nat>, a: nat, b: nat)
    requires Walk(g, p) && a < b <= |p|
    ensures Walk(g, p[a..b])
  {
    forall i | 0 < i < b - a ensures Edge(g, p[a..b][i-1], p[a..b][i]) {
      assert Edge(g, p[(a+i)-1], p[a+i]);
    }
  }

  lemma ConsWalk(g: Graph, v: nat, p: seq<nat>)
    requires Walk(g, p) && Edge(g, v, p[0])
    ensures Walk(g, [v] + p)
  {
    var q := [v] + p;
    forall i | 0 < i < |q| ensures Edge(g, q[i-1], q[i]) {
      if i > 1 { assert Edge(g, p[(i-1)-1], p[i-1]); }
    }
  }

  lemma SnocWalk(g: Graph, p: seq<nat>, v: nat)
    requires Walk(g, p) && Edge(g, Last(p), v)
    ensures Walk(g, p + [v])
  {
    var q := p + [v];
    forall i | 0 < i < |q| ensures Edge(g, q[i-1], q[i]) {
      if i < |p| { assert Edge(g, p[i-1], p[i]); }
    }
  }

  // A walk that starts inside a dependency-first list runs strictly towards its front.
  lemma {:induction false} WalkDescends(g: Graph, s: seq<nat>, p: seq<nat>, k: nat)
    requires DepsFirst(g, s) && Walk(g, p) && k < |s| && p[0] == s[k]
    ensures NoDup(p)
    ensures forall i :: 0 < i < |p| ==> p[i] in s[..k]
    decreases |p|
  {
    if |p| > 1 {
      assert Edge(g, p[0], p[1]);
      assert p[1] in s[..k];
      var k' :| 0 <= k' < k && s[k'] == p[1];
      WalkTail(g, p);
      WalkDescends(g, s, p[1..], k');
      forall i | 0 < i < |p| ensures p[i] in s[..k] && p[i] != p[0] {
        if i > 1 {
          assert p[i] == p[1..][i-1];
          assert p[1..][i-1] in s[..k'];
        }
      }
      forall i, j | 0 <= i < j < |p| ensures p[i] != p[j] {
        if i > 0 { assert p[1..][i-1] != p[1..][j-1]; }
      }
    }
  }

  lemma InsideIsGrounded(g: Graph, s: seq<nat>, v: nat)
    requires DepsFirst(g, s) && v in s && forall u :: u in s ==> u in g
    ensures Grounded(g, v)
  {
    var k :| 0 <= k < |s| && s[k] == v;
    forall p: seq<nat> | WalkFrom(g, p, v) ensures Last(p) in g && NoDup(p) {
      WalkDescends(g, s, p, k);
      if |p| > 1 { assert p[|p|-1] in s[..k]; }
    }
  }

  // From an omitted node one can keep walking through omitted nodes.
  lemma {:induction false} StuckWalk(g: Graph, order: seq<nat>, v: nat, n: nat) returns (p: seq<nat>)
    requires KahnResult(g, order) && v !in order
    ensures WalkFrom(g, p, v)
    ensures Last(p) !in g || (|p| == n + 1 && forall x :: x in p ==> x in g)
    decreases n
  {
    p := [v];
    if n > 0 && v in g {
      var d :| d in g[v] && d !in order;
      var q := StuckWalk(g, order, d, n - 1);
      ConsWalk(g, v, q);
      p := [v] + q;
      assert Last(p) == Last(q);
    }
  }

  lemma OutsideIsNotGrounded(g: Graph, order: seq<nat>, v: nat)
    requires KahnResult(g, order) && v !in order
    ensures !Grounded(g, v)
  {
    var p := StuckWalk(g, order, v, |g.Keys|);
    if Last(p) in g && NoDup(p) {
      NoDupBound(p, g.Keys);
    }
    assert WalkFrom(g, p, v);
  }

  /** Whatever order the nodes were visited in, Kahn's loop lists exactly the nodes
      whose whole transitive dependency set is registered and acyclic. */
  lemma KahnListsTheGrounded(g: Graph, order: seq<nat>)
    requires KahnResult(g, order)
    ensures forall v: nat :: v in order <==> Grounded(g, v)
    ensures forall v: nat :: Grounded(g, v) ==> v in g
  {
    forall v: nat ensures v in order <==> Grounded(g, v) {
      if v in order { InsideIsGrounded(g, order, v); } else { OutsideIsNotGrounded(g, order, v); }
    }
    forall v: nat | Grounded(g, v) ensures v in g {
      assert WalkFrom(g, [v], v);
    }
  }

  lemma DuplicateClosesWalk(g: Graph, p: seq<nat>, i: nat, j: nat)
    requires Walk(g, p) && i < j < |p| && p[i] == p[j]
    ensures !Acyclic(g)
  {
    var c := p[i..j+1];
    SubWalk(g, p, i, j + 1);
    assert Walk(g, c) && |c| > 1 && c[0] == Last(c);
  }

  lemma LassoIsCyclic(g: Graph, p: seq<nat>)
    requires Lasso(g, p)
    ensures !Acyclic(g)
  {
    var i :| 0 <= i < |p| - 1 && p[i] == Last(p);
    DuplicateClosesWalk(g, p, i, |p| - 1);
  }

  lemma DepsFirstIsAcyclic(g: Graph, s: seq<nat>)
    requires DepsFirst(g, s) && forall v: nat :: v in g ==> v in s
    ensures Acyclic(g)
  {
    forall p: seq<nat> | Walk(g, p) && |p| > 1 ensures p[0] != Last(p) {
      assert Edge(g, p[0], p[1]);
      assert p[0] in s;
      var k :| 0 <= k < |s| && s[k] == p[0];
      WalkDescends(g, s, p, k);
    }
  }

  /** Kahn's loop lists every registered node exactly when the graph has no cycle and
      no dependency is missing. */
  lemma KahnListsAll(g: Graph, order: seq<nat>)
    requires KahnResult(g, order)
    ensures (forall v: nat :: v in g ==> v in order) <==> Acyclic(g) && Complete(g)
  {
    if forall v: nat :: v in g ==> v in order {
      DepsFirstIsAcyclic(g, order);
      forall v, d | v in g && d in g[v] ensures d in g {
        var k :| 0 <= k < |order| && order[k] == v;
        assert Edge(g, order[k], d);
        assert d in order[..k];
      }
    }
    if Acyclic(g) && Complete(g) {
      KahnListsTheGrounded(g, order);
      forall v: nat | v in g ensures v in order {
        CompleteWalks(g, v);
      }
    }
  }

  lemma CompleteWalks(g: Graph, v: nat)
    requires Acyclic(g) && Complete(g) && v in g
    ensures Grounded(g, v)
  {
    forall p: seq<nat> | WalkFrom(g, p, v) ensures Last(p) in g && NoDup(p) {
      CompleteWalkStays(g, p);
      forall i, j | 0 <= i < j < |p| ensures p[i] != p[j] {
        if p[i] == p[j] { DuplicateClosesWalk(g, p, i, j); }
      }
    }
  }

  lemma {:induction false} CompleteWalkStays(g: Graph, p: seq<nat>)
    requires Complete(g) && Walk(g, p) && p[0] in g
    ensures Last(p) in g
    decreases |p|
  {
    if |p| > 1 {
      assert Edge(g, p[0], p[1]);
      WalkTail(g, p);
      CompleteWalkStays(g, p[1..]);
    }
  }
}
