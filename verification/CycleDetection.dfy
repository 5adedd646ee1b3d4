/** DynamicLinker::DetectCycles: depth-first search with a recursion stack. */
module CycleDetection {
  import opened Options
  import opened Graphs

  /** The variables captured by the recursive lambda. `finished` lists the nodes the search
      has left for good, in the order it left them. */
  class Search {
    var visited: set<nat>
    var inStack: set<nat>
    var path: seq<nat>
    ghost var finished: seq<nat>

    constructor ()
      ensures visited == {} && inStack == {} && path == [] && finished == []
    {
      visited, inStack, path, finished := {}, {}, [], [];
    }

    ghost predicate Valid(g: Graph)
      reads this
    {
      && (forall v: nat :: v in inStack <==> v in path)
      && NoDup(path) && (path == [] || Walk(g, path))
      && (forall v: nat :: v in visited <==> v in inStack || v in finished)
      && (forall v: nat :: v in finished ==> v !in inStack)
      && DepsFirst(g, finished)
    }

    // Entering a node: it joins the visited set, the recursion stack and the path.
    method Enter(g: Graph, id: nat)
      requires Valid(g) && id !in visited
      requires path == [] || Edge(g, Last(path), id)
      modifies this
      ensures Valid(g)
      ensures path == old(path) + [id] && visited == old(visited) + {id} && finished == old(finished)
    {
      if path != [] { SnocWalk(g, path, id); }
      visited := visited + {id};
      inStack := inStack + {id};
      path := path + [id];
    }

    // Leaving a node whose dependencies have all been left before.
    method Leave(g: Graph, id: nat)
      requires Valid(g) && path != [] && Last(path) == id
      requires forall d :: Edge(g, id, d) ==> d in finished
      modifies this
      ensures Valid(g)
      ensures path == old(path)[..|old(path)|-1] && visited == old(visited)
      ensures finished == old(finished) + [id]
    {
      DepsFirstSnoc(g, finished, id);
      Shortened(g, path);
      inStack := inStack - {id};
      path := path[..|path|-1];
      finished := finished + [id];
    }

    // The lambda `dfs`. `nodes` bounds the search: it is closed under dependencies.
    method Dfs(g: Graph, id: nat, ghost nodes: set<nat>) returns (found: bool)
      requires Valid(g) && id !in visited
      requires path == [] || Edge(g, Last(path), id)
      requires visited <= nodes && id in nodes
      requires forall v, d: nat :: v in nodes && Edge(g, v, d) ==> d in nodes
      modifies this
      ensures found ==> Lasso(g, path)
      ensures !found ==> Valid(g) && path == old(path) && old(visited) <= visited <= nodes
      ensures !found ==> id in finished && old(finished) <= finished
      decreases nodes - visited
    {
      ghost var path0 := path;
      Enter(g, id);
      var deps := Deps(g, id);
      for k := 0 to |deps|
        invariant Valid(g) && path == path0 + [id]
        invariant old(visited) + {id} <= visited <= nodes
        invariant old(finished) <= finished
        invariant forall d :: d in deps[..k] ==> d in finished
      {
        var dep := deps[k];
        assert Edge(g, Last(path), dep);
        if dep !in visited {
          var hit := Dfs(g, dep, nodes);
          if hit { return true; }
        }
        if dep in inStack {
          SnocWalk(g, path, dep);
          path := path + [dep];
          assert path[..|path|-1] == path0 + [id];
          return true;
        }
        assert deps[..k+1] == deps[..k] + [dep];
      }
      assert deps[..|deps|] == deps;
      Leave(g, id);
      return false;
    }
  }

  lemma Shortened(g: Graph, path: seq<nat>)
    requires NoDup(path) && Walk(g, path)
    ensures var p := path[..|path|-1]; NoDup(p) && (p == [] || Walk(g, p))
    ensures forall v :: v in path[..|path|-1] <==> v in path && v != Last(path)
  {
    assert path == path[..|path|-1] + [Last(path)];
    if |path| > 1 { SubWalk(g, path, 0, |path| - 1); }
  }

  // Every node a search can meet: the registered ones and their dependencies.
  ghost function Nodes(g: Graph): (s: set<nat>)
    ensures forall v :: v in g ==> v in s
    ensures forall v, d: nat :: Edge(g, v, d) ==> d in s
  {
    g.Keys + set v, d | v in g && d in g[v] :: d
  }

  /** `modules` is the registry's load order. Finding nothing means the graph is acyclic;
      finding a path means that path runs into a cycle. */
  method DetectCycles(g: Graph, modules: seq<nat>) returns (r: Option<seq<nat>>)
    requires forall v: nat :: v in modules <==> v in g
    ensures r.Some? ==> Lasso(g, r.value)
    ensures r.None? <==> Acyclic(g)
  {
    var s := new Search();
    ghost var nodes := Nodes(g);
    for k := 0 to |modules|
      invariant s.Valid(g) && s.path == [] && s.visited <= nodes
      invariant forall i :: 0 <= i < k ==> modules[i] in s.finished
    {
      var m := modules[k];
      assert m in g;
      if m !in s.visited {
        s.path := [];
        ghost var seen := s.finished;
        var hit := s.Dfs(g, m, nodes);
        if hit {
          LassoIsCyclic(g, s.path);
          return Some(s.path);
        }
        assert forall i :: 0 <= i < k ==> modules[i] in seen;
      }
    }
    DepsFirstIsAcyclic(g, s.finished);
    r := None;
  }
}
