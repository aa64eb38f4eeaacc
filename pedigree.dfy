/** The `Pedigree` record: a candidate assignment of parent→child edges that
    is built up one edge at a time. */
module Pedigrees {
  import opened Graph

  /** The value a Pedigree object holds at one moment: population size,
      chosen edges (in order of acceptance), per-individual connected flags,
      running score, partition position and the candidate positions used. */
  datatype PedState = PedState(
    population: nat,
    edges: seq<Edge>,
    connected: seq<bool>,
    value: real,
    fixed: int,
    used: set<int>)
  {
    /** `esta_completo`: every individual is marked connected. */
    predicate Complete() {
      forall x :: 0 <= x < |connected| ==> connected[x]
    }

    /** `adicionar_conexao` on the value: append the edge, mark both ends,
        add the score, record the candidate position. */
    function Add(e: Edge, index: int): (r: PedState)
      requires 0 <= e.parent < |connected| && 0 <= e.child < |connected|
      ensures |r.connected| == |connected| && r.population == population && r.fixed == fixed
      ensures Complete() ==> r.Complete()
      ensures |r.edges| == |edges| + 1 && r.edges[..|edges|] == edges
    {
      this.(edges := edges + [e],
            connected := connected[e.parent := true][e.child := true],
            value := value + e.score,
            used := used + {index})
    }

    /** The de-duplication key `tuple(sorted(arestas))`: two edge lists have
        equal sorted tuples exactly when they hold the same multiset of edges. */
    function Key(): multiset<Edge> {
      multiset(edges)
    }
  }

  /** The value of `Pedigree(n)` straight after construction. */
  function Initial(n: nat): (s: PedState)
    ensures |s.connected| == n && s.edges == [] && s.used == {}
    ensures s.Complete() <==> n == 0
  {
    var s := PedState(n, [], seq(n, _ => false), 0.0, 0, {});
    assert n > 0 ==> !s.connected[0];
    s
  }

  /** The connected flags record exactly the individuals touched by the edges
      accepted from position `base` on. A pedigree built from scratch has
      base 0; a partition starts with fresh flags over a copied edge list, so
      its base is the length of that copy. */
  ghost predicate Tracks(s: PedState, base: nat) {
    && base <= |s.edges|
    && |s.connected| == s.population
    && forall x :: 0 <= x < s.population ==> (s.connected[x] <==> Touches(s.edges[base..], x))
  }

  lemma TracksInitial(n: nat)
    ensures Tracks(Initial(n), 0)
  {
  }

  /** Adding an edge keeps the flags in step with the edges. */
  lemma AddKeepsTracks(s: PedState, e: Edge, index: int, base: nat)
    requires Tracks(s, base)
    requires 0 <= e.parent < |s.connected| && 0 <= e.child < |s.connected|
    ensures Tracks(s.Add(e, index), base)
  {
    var r := s.Add(e, index);
    assert r.edges[base..] == s.edges[base..] + [e];
    forall x | 0 <= x < s.population
      ensures r.connected[x] <==> Touches(r.edges[base..], x)
    {
      TouchesAppend(s.edges[base..], e, x);
    }
  }

  /** With the flags in step with the edges from `base` on, `esta_completo`
      holds exactly when those edges touch every individual. */
  lemma CompleteIffCovers(s: PedState, base: nat)
    requires Tracks(s, base)
    ensures s.Complete() <==> Covers(s.edges[base..], s.population)
  {
  }

  /** The mutable record `Pedigree`. */
  class Pedigree {
    const population: nat
    var edges: seq<Edge>
    var connected: seq<bool>
    var value: real
    var fixed: int
    var usedIndices: set<int>

    ghost predicate Valid()
      reads this
    {
      |connected| == population
    }

    /** The record's current value. */
    function State(): PedState
      reads this
    {
      PedState(population, edges, connected, value, fixed, usedIndices)
    }

    constructor (n: nat)
      ensures Valid() && State() == Initial(n)
    {
      population := n;
      edges := [];
      connected := seq(n, _ => false);
      value := 0.0;
      fixed := 0;
      usedIndices := {};
    }

    /** `adicionar_conexao`: no validation; the caller has checked the edge. */
    method AddConnection(parent: int, child: int, score: real, index: int)
      requires Valid() && 0 <= parent < population && 0 <= child < population
      modifies this
      ensures Valid()
      ensures edges == old(edges) + [Edge(parent, child, score)]
      ensures connected == old(connected)[parent := true][child := true]
      ensures value == old(value) + score
      ensures usedIndices == old(usedIndices) + {index}
      ensures fixed == old(fixed)
      ensures State() == old(State()).Add(Edge(parent, child, score), index)
      ensures old(IsComplete()) ==> IsComplete()
    {
      edges := edges + [Edge(parent, child, score)];
      connected := connected[parent := true];
      connected := connected[child := true];
      value := value + score;
      usedIndices := usedIndices + {index};
    }

    /** `esta_completo`. */
    predicate IsComplete()
      reads this
    {
      State().Complete()
    }

    /** `__lt__`: ordered by running score alone. */
    predicate LessThan(other: Pedigree)
      reads this, other
    {
      value < other.value
    }

    /** The record's de-duplication key. */
    function Signature(): multiset<Edge>
      reads this
    {
      State().Key()
    }
  }

  /** `__lt__` is a strict order in which pedigrees of equal score are
      incomparable: a heap keyed on it leaves their relative order open. */
  lemma LessThanOrder(a: Pedigree, b: Pedigree, c: Pedigree)
    ensures !a.LessThan(a)
    ensures a.LessThan(b) ==> !b.LessThan(a)
    ensures a.LessThan(b) && b.LessThan(c) ==> a.LessThan(c)
    ensures (!a.LessThan(b) && !b.LessThan(a)) <==> a.value == b.value
  {
  }
}
