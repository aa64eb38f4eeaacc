/** The cycle guard: `forma_ciclo` and the depth-first search `tem_caminho`
    it runs over a pedigree's current edges. */
module CycleCheck {
  import opened Graph
  import opened Pedigrees

  /** Every individual named by an edge of es. */
  ghost function Nodes(es: seq<Edge>): set<int> {
    (set e | e in es :: e.parent) + (set e | e in es :: e.child)
  }

  /** `tem_caminho`: depth-first search from `start` for `target` along the
      pedigree's edges. The shared `visitados` set is passed in as `visited`
      and handed back, grown, as `visitedOut`. When the search fails, it has
      visited `start` and every node reachable from it that was not visited
      before, and `target` is not among them. */
  method HasPath(p: Pedigree, start: int, target: int, visited: set<int>)
    returns (found: bool, visitedOut: set<int>)
    requires start !in visited && target !in visited
    ensures visited <= visitedOut
    ensures found ==> Reachable(p.edges, start, target)
    ensures !found ==> start in visitedOut && target !in visitedOut
    ensures !found ==> Closed(p.edges, visitedOut - visited, visitedOut)
    decreases Nodes(p.edges) + {start} - visited
  {
    if start == target {
      ReachableRefl(p.edges, start);
      return true, visited;
    }
    visitedOut := visited + {start};
    for idx := 0 to |p.edges|
      invariant visited + {start} <= visitedOut
      invariant target !in visitedOut
      invariant Closed(p.edges, visitedOut - visited - {start}, visitedOut)
      invariant forall t :: 0 <= t < idx && p.edges[t].parent == start ==> p.edges[t].child in visitedOut
    {
      var e := p.edges[idx];
      if e.parent == start && e.child !in visitedOut {
        assert e.child in Nodes(p.edges);
        var sub, grown := HasPath(p, e.child, target, visitedOut);
        if sub {
          ReachableFromEdge(p.edges, e, target);
          return true, grown;
        }
        visitedOut := grown;
      }
    }
    found := false;
  }

  /** `forma_ciclo`: adding parent→child closes a directed cycle exactly when
      parent is already reachable from child (always so when they are equal). */
  method FormsCycle(p: Pedigree, parent: int, child: int) returns (cycle: bool)
    ensures cycle <==> Reachable(p.edges, child, parent)
    ensures parent == child ==> cycle
  {
    var visited: set<int> := {};
    var grown;
    cycle, grown := HasPath(p, child, parent, visited);
    if !cycle {
      ClosedBlocksReach(p.edges, grown, child, parent);
    }
  }
}
