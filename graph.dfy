/** Candidate parent→child edges, the reachability relation a list of them
    induces, and the acyclicity the search maintains. */
module Graph {

  /** A scored candidate edge `(pai, filho, pontuacao)`. */
  datatype Edge = Edge(parent: int, child: int, score: real)

  /** Every endpoint is an individual id of a population of size n. */
  predicate ValidCandidates(cands: seq<Edge>, n: nat) {
    forall e :: e in cands ==> 0 <= e.parent < n && 0 <= e.child < n
  }

  /** y is reached from x in at most `steps` parent→child steps along es. */
  ghost predicate ReachIn(es: seq<Edge>, x: int, y: int, steps: nat)
    decreases steps
  {
    x == y || (steps > 0 && exists e :: e in es && e.parent == x && ReachIn(es, e.child, y, steps - 1))
  }

  /** y is reached from x in zero or more steps along es. */
  ghost predicate Reachable(es: seq<Edge>, x: int, y: int) {
    exists steps: nat :: ReachIn(es, x, y, steps)
  }

  /** No directed cycle: a cycle through the edge u→v is exactly a way back from v to u. */
  ghost predicate Acyclic(es: seq<Edge>) {
    forall e :: e in es ==> !Reachable(es, e.child, e.parent)
  }

  /** Every edge whose parent is in `from` leads into `into`. */
  ghost predicate Closed(es: seq<Edge>, from: set<int>, into: set<int>) {
    forall e :: e in es && e.parent in from ==> e.child in into
  }

  /** Individual x is an endpoint of some edge of es. */
  ghost predicate Touches(es: seq<Edge>, x: int) {
    exists e :: e in es && (e.parent == x || e.child == x)
  }

  /** The edges es touch every individual 0 .. n-1. */
  ghost predicate Covers(es: seq<Edge>, n: nat) {
    forall x :: 0 <= x < n ==> Touches(es, x)
  }

  /** Each edge from position `from` on closed no cycle with the edges before it. */
  ghost predicate GuardedFrom(es: seq<Edge>, from: nat) {
    forall t :: from <= t < |es| ==> !Reachable(es[..t], es[t].child, es[t].parent)
  }

  /** The total score of a list of edges, summed from the left. */
  function SumScores(es: seq<Edge>): real {
    if es == [] then 0.0 else SumScores(es[..|es| - 1]) + es[|es| - 1].score
  }

  lemma {:induction false} SumScoresConcat(a: seq<Edge>, b: seq<Edge>)
    ensures SumScores(a + b) == SumScores(a) + SumScores(b)
    decreases |b|
  {
    if b == [] {
      assert a + b == a;
    } else {
      assert (a + b)[..|a + b| - 1] == a + b[..|b| - 1];
      SumScoresConcat(a, b[..|b| - 1]);
    }
  }

  /** The score of a sequence extending a is a's score plus that of the
      extension. */
  lemma SumScoresExtend(a: seq<Edge>, b: seq<Edge>)
    requires a <= b
    ensures SumScores(b) == SumScores(a) + SumScores(b[|a|..])
  {
    assert b == a + b[|a|..];
    SumScoresConcat(a, b[|a|..]);
  }

  /** Removing the edge at position k takes its score off the sum. */
  lemma SumScoresRemove(b: seq<Edge>, k: nat)
    requires k < |b|
    ensures SumScores(b) == SumScores(b[..k] + b[k + 1..]) + b[k].score
  {
    var x := b[k];
    assert b == b[..k] + [x] + b[k + 1..];
    SumScoresConcat(b[..k] + [x], b[k + 1..]);
    SumScoresConcat(b[..k], [x]);
    SumScoresConcat(b[..k], b[k + 1..]);
    assert SumScores([x]) == x.score by {
      assert [x][..0] == [];
    }
  }

  /** The last edge of a sits at some position k of b, and removing both
      leaves sequences with the same elements. */
  lemma RemoveMatching(a: seq<Edge>, b: seq<Edge>) returns (k: nat)
    requires multiset(a) == multiset(b) && a != []
    ensures k < |b| && b[k] == a[|a| - 1]
    ensures multiset(a[..|a| - 1]) == multiset(b[..k] + b[k + 1..])
  {
    var x, init := a[|a| - 1], a[..|a| - 1];
    assert a == init + [x];
    assert x in multiset(b);
    k :| 0 <= k < |b| && b[k] == x;
    var rest := b[..k] + b[k + 1..];
    assert b == b[..k] + [x] + b[k + 1..];
    assert multiset(a) == multiset(init) + multiset{x};
    assert multiset(b) == multiset(rest) + multiset{x};
    assert multiset(init) == multiset(a) - multiset{x};
    assert multiset(rest) == multiset(b) - multiset{x};
  }

  /** SumScores does not depend on the order of the edges. */
  lemma {:induction false} SumScoresPerm(a: seq<Edge>, b: seq<Edge>)
    requires multiset(a) == multiset(b)
    ensures SumScores(a) == SumScores(b)
    decreases |a|
  {
    if a == [] {
      assert |b| == |multiset(b)| == 0;
    } else {
      var k := RemoveMatching(a, b);
      SumScoresPerm(a[..|a| - 1], b[..k] + b[k + 1..]);
      SumScoresRemove(a, |a| - 1);
      SumScoresRemove(b, k);
    }
  }

  /** Every individual reaches itself in zero steps. */
  lemma ReachableRefl(es: seq<Edge>, x: int)
    ensures Reachable(es, x, x)
  {
    assert ReachIn(es, x, x, 0);
  }

  /** An edge u→v followed by a way from v to y is a way from u to y. */
  lemma ReachableFromEdge(es: seq<Edge>, e: Edge, y: int)
    requires e in es && Reachable(es, e.child, y)
    ensures Reachable(es, e.parent, y)
  {
    var m: nat :| ReachIn(es, e.child, y, m);
    assert ReachIn(es, e.parent, y, m + 1);
  }

  lemma {:induction false} ReachInTrans(es: seq<Edge>, x: int, y: int, z: int, m: nat)
    requires ReachIn(es, x, y, m) && Reachable(es, y, z)
    ensures Reachable(es, x, z)
    decreases m
  {
    if x != y {
      var e :| e in es && e.parent == x && ReachIn(es, e.child, y, m - 1);
      ReachInTrans(es, e.child, y, z, m - 1);
      ReachableFromEdge(es, e, z);
    }
  }

  /** Reachability is transitive. */
  lemma ReachableTrans(es: seq<Edge>, x: int, y: int, z: int)
    requires Reachable(es, x, y) && Reachable(es, y, z)
    ensures Reachable(es, x, z)
  {
    var m: nat :| ReachIn(es, x, y, m);
    ReachInTrans(es, x, y, z, m);
  }

  /** A way from x to y along es + [a] either avoids a, or goes from x to a's
      parent and from a's child to y along es alone. */
  lemma {:induction false} ReachInAppend(es: seq<Edge>, a: Edge, x: int, y: int, m: nat)
    requires ReachIn(es + [a], x, y, m)
    ensures Reachable(es, x, y) || (Reachable(es, x, a.parent) && Reachable(es, a.child, y))
    decreases m
  {
    if x == y {
      ReachableRefl(es, x);
    } else {
      var e :| e in es + [a] && e.parent == x && ReachIn(es + [a], e.child, y, m - 1);
      ReachInAppend(es, a, e.child, y, m - 1);
      if e in es {
        if Reachable(es, e.child, y) {
          ReachableFromEdge(es, e, y);
        } else {
          ReachableFromEdge(es, e, a.parent);
        }
      } else {
        assert e == a;
        ReachableRefl(es, x);
      }
    }
  }

  /** Appending an edge whose child does not reach its parent keeps a graph acyclic. */
  lemma AppendKeepsAcyclic(es: seq<Edge>, a: Edge)
    requires Acyclic(es) && !Reachable(es, a.child, a.parent)
    ensures Acyclic(es + [a])
  {
    forall e | e in es + [a]
      ensures !Reachable(es + [a], e.child, e.parent)
    {
      if Reachable(es + [a], e.child, e.parent) {
        var m: nat :| ReachIn(es + [a], e.child, e.parent, m);
        ReachInAppend(es, a, e.child, e.parent, m);
        if e != a && !Reachable(es, e.child, e.parent) {
          ReachableFromEdge(es, e, a.parent);
          ReachableTrans(es, a.child, e.parent, a.parent);
        }
      }
    }
  }

  /** Edges that each passed the cycle guard, on top of an acyclic prefix, form an acyclic graph. */
  lemma {:induction false} GuardedAcyclic(es: seq<Edge>, from: nat)
    requires from <= |es| && Acyclic(es[..from]) && GuardedFrom(es, from)
    ensures Acyclic(es)
    decreases |es|
  {
    if |es| > from {
      var init := es[..|es| - 1];
      assert init[..from] == es[..from];
      forall t | from <= t < |init|
        ensures !Reachable(init[..t], init[t].child, init[t].parent)
      {
        assert init[..t] == es[..t];
      }
      GuardedAcyclic(init, from);
      assert es == init + [es[|es| - 1]];
      AppendKeepsAcyclic(init, es[|es| - 1]);
    } else {
      assert es[..from] == es;
    }
  }

  lemma {:induction false} ClosedBlocksReachIn(es: seq<Edge>, s: set<int>, x: int, y: int, m: nat)
    requires Closed(es, s, s) && x in s && ReachIn(es, x, y, m)
    ensures y in s
    decreases m
  {
    if x != y {
      var e :| e in es && e.parent == x && ReachIn(es, e.child, y, m - 1);
      ClosedBlocksReachIn(es, s, e.child, y, m - 1);
    }
  }

  /** Nothing outside a set closed under the edges is reachable from inside it. */
  lemma ClosedBlocksReach(es: seq<Edge>, s: set<int>, x: int, y: int)
    requires Closed(es, s, s) && x in s && y !in s
    ensures !Reachable(es, x, y)
  {
    if Reachable(es, x, y) {
      var m: nat :| ReachIn(es, x, y, m);
      ClosedBlocksReachIn(es, s, x, y, m);
    }
  }

  /** Appending an edge touches exactly its two endpoints in addition. */
  lemma TouchesAppend(es: seq<Edge>, a: Edge, x: int)
    ensures Touches(es + [a], x) <==> Touches(es, x) || a.parent == x || a.child == x
  {
    if Touches(es, x) {
      var e :| e in es && (e.parent == x || e.child == x);
      assert e in es + [a];
    }
    if a.parent == x || a.child == x {
      assert a in es + [a];
    }
  }
}
