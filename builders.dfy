/** The two builders: `construir_pedigree` (forced prefix, then greedy fill)
    and `construir_pedigree_com_particao` (copy a pedigree, extend it greedily
    from a position). Each method is proved equal to a ghost function over
    PedState, and the lemmas below state what those functions guarantee. */
module Builders {
  import opened Graph
  import opened Pedigrees
  import opened CycleCheck

  datatype Option<T> = None | Some(value: T)

  /** Where a greedy scan ends: the pedigree value, the candidate positions it
      added (in the order added) and whether it stopped early because an
      addition made the pedigree complete. */
  datatype ScanResult = ScanResult(state: PedState, picked: seq<nat>, stopped: bool)

  /** What a caller of a builder sees of a scan: the pedigree it ends with and
      whether it stopped early (its picked positions are only for proofs). */
  ghost function Outcome(r: ScanResult): (PedState, bool) {
    (r.state, r.stopped)
  }

  /** Positions strictly increase: each is used once, in sorted-list order. */
  ghost predicate Increasing(idx: seq<nat>) {
    forall a, b :: 0 <= a < b < |idx| ==> idx[a] < idx[b]
  }

  /** Every position lies in lo .. hi-1. */
  ghost predicate Within(idx: seq<nat>, lo: int, hi: int) {
    forall k :: 0 <= k < |idx| ==> lo <= idx[k] < hi
  }

  /** The set of positions in idx. */
  ghost function Elems(idx: seq<nat>): set<int> {
    set x: int | x in idx
  }

  /** The positions 0 .. f-1 in order. */
  ghost function Range(f: nat): seq<nat> {
    seq(f, k => k)
  }

  /** The candidate edges at the given positions, in that order. */
  ghost function Pick(cands: seq<Edge>, idx: seq<nat>): (r: seq<Edge>)
    requires Within(idx, 0, |cands|)
    ensures |r| == |idx|
  {
    if idx == [] then [] else [cands[idx[0]]] + Pick(cands, idx[1..])
  }

  /** The positions of idx below j: for increasing idx, those accepted before
      position j was examined. */
  ghost function Below(idx: seq<nat>, j: int): (r: seq<nat>)
    ensures |r| <= |idx| && r == idx[..|r|]
  {
    if idx == [] || idx[0] >= j then [] else [idx[0]] + Below(idx[1..], j)
  }

  /** The greedy phase both builders share: from position i on, add each
      candidate whose position is unused and that closes no cycle; stop right
      after an addition that completes the pedigree. */
  ghost function Scan(cands: seq<Edge>, i: nat, s: PedState): ScanResult
    requires ValidCandidates(cands, |s.connected|)
    decreases |cands| - i
  {
    if i >= |cands| then ScanResult(s, [], false)
    else
      var e := cands[i];
      if i !in s.used && !Reachable(s.edges, e.child, e.parent) then
        var s' := s.Add(e, i);
        if s'.Complete() then ScanResult(s', [i], true)
        else
          var r := Scan(cands, i + 1, s');
          ScanResult(r.state, [i] + r.picked, r.stopped)
      else
        Scan(cands, i + 1, s)
  }

  /** One step of the scan over a position it passes by. */
  lemma ScanSkip(cands: seq<Edge>, i: nat, s: PedState)
    requires ValidCandidates(cands, |s.connected|) && i < |cands|
    requires i in s.used || Reachable(s.edges, cands[i].child, cands[i].parent)
    ensures Scan(cands, i, s) == Scan(cands, i + 1, s)
  {
  }

  /** One step of the scan over a position it takes: it stops there if the
      addition completed the pedigree, and goes on from the next one if not. */
  lemma ScanTake(cands: seq<Edge>, i: nat, s: PedState)
    requires ValidCandidates(cands, |s.connected|) && i < |cands|
    requires i !in s.used && !Reachable(s.edges, cands[i].child, cands[i].parent)
    ensures var s' := s.Add(cands[i], i);
      && (s'.Complete() ==> Scan(cands, i, s).state == s' && Scan(cands, i, s).stopped)
      && (!s'.Complete() ==> Scan(cands, i, s).state == Scan(cands, i + 1, s').state
                             && Scan(cands, i, s).stopped == Scan(cands, i + 1, s').stopped)
  {
  }

  /** A fresh pedigree with the first j candidates added unconditionally. */
  ghost function Forced(cands: seq<Edge>, j: nat, n: nat): (s: PedState)
    requires j <= |cands| && ValidCandidates(cands, n)
    ensures |s.connected| == n
    decreases j
  {
    if j == 0 then Initial(n) else Forced(cands, j - 1, n).Add(cands[j - 1], j - 1)
  }

  /** How many leading positions `i < fixo` holds for. */
  function ForcedLength(cands: seq<Edge>, fixo: int): (f: nat)
    ensures f <= |cands|
  {
    if fixo <= 0 then 0 else if fixo >= |cands| then |cands| else fixo
  }

  /** The value `construir_pedigree(cands, n, fixo)` returns. */
  ghost function Fill(cands: seq<Edge>, n: nat, fixo: int): PedState
    requires ValidCandidates(cands, n)
  {
    var f := ForcedLength(cands, fixo);
    Scan(cands, f, Forced(cands, f, n)).state.(fixed := fixo)
  }

  /** The candidate positions behind Fill's edges, in order. */
  ghost function FillIndices(cands: seq<Edge>, n: nat, fixo: int): seq<nat>
    requires ValidCandidates(cands, n)
  {
    var f := ForcedLength(cands, fixo);
    Range(f) + Scan(cands, f, Forced(cands, f, n)).picked
  }

  /** The copy `construir_pedigree_com_particao` starts from: the parent's
      edges, score and used positions, fresh connected flags, fixo + 1. */
  ghost function PartitionStart(parent: PedState, fixo: nat): PedState {
    PedState(parent.population, parent.edges, seq(parent.population, _ => false),
             parent.value, fixo + 1, parent.used)
  }

  /** The value `construir_pedigree_com_particao(parent, cands, fixo)` returns. */
  ghost function Partition(parent: PedState, cands: seq<Edge>, fixo: nat): Option<PedState>
    requires ValidCandidates(cands, parent.population)
  {
    var r := Scan(cands, fixo, PartitionStart(parent, fixo));
    if r.stopped then Some(r.state) else None
  }

  /** The candidate positions a partition added to the parent's edges. */
  ghost function PartitionPicks(parent: PedState, cands: seq<Edge>, fixo: nat): seq<nat>
    requires ValidCandidates(cands, parent.population)
  {
    Scan(cands, fixo, PartitionStart(parent, fixo)).picked
  }

  lemma {:induction false} PickConcat(cands: seq<Edge>, a: seq<nat>, b: seq<nat>)
    requires Within(a, 0, |cands|) && Within(b, 0, |cands|)
    ensures Within(a + b, 0, |cands|)
    ensures Pick(cands, a + b) == Pick(cands, a) + Pick(cands, b)
    decreases |a|
  {
    if a != [] {
      assert (a + b)[1..] == a[1..] + b;
      PickConcat(cands, a[1..], b);
    } else {
      assert a + b == b;
    }
  }

  lemma {:induction false} PickRange(cands: seq<Edge>, f: nat)
    requires f <= |cands|
    ensures Within(Range(f), 0, |cands|) && Pick(cands, Range(f)) == cands[..f]
    decreases f
  {
    if f > 0 {
      assert Range(f) == Range(f - 1) + [f - 1];
      PickConcat(cands, Range(f - 1), [f - 1]);
      PickRange(cands, f - 1);
      assert cands[..f] == cands[..f - 1] + [cands[f - 1]];
    }
  }

  /** Consing a position onto a scan's picks. */
  lemma ConsPicks(cands: seq<Edge>, i: nat, rest: seq<nat>)
    requires i < |cands| && Within(rest, i + 1, |cands|) && Increasing(rest)
    ensures Within([i] + rest, i, |cands|) && Increasing([i] + rest)
    ensures Pick(cands, [i] + rest) == [cands[i]] + Pick(cands, rest)
    ensures Elems([i] + rest) == {i} + Elems(rest)
  {
    var p := [i] + rest;
    assert p[1..] == rest;
    assert p[0] == i;
  }

  /** The scan's picks: strictly increasing positions from i on, none used
      before; it stops only after an addition that completed the pedigree. */
  lemma {:induction false} ScanShape(cands: seq<Edge>, i: nat, s: PedState)
    requires ValidCandidates(cands, |s.connected|)
    ensures var r := Scan(cands, i, s);
      && r.state.population == s.population && r.state.fixed == s.fixed
      && |r.state.connected| == |s.connected|
      && Increasing(r.picked) && Within(r.picked, i, |cands|)
      && (forall k :: 0 <= k < |r.picked| ==> r.picked[k] !in s.used)
      && (r.stopped ==> r.state.Complete() && r.picked != [])
    decreases |cands| - i
  {
    if i < |cands| {
      var e := cands[i];
      if i !in s.used && !Reachable(s.edges, e.child, e.parent) {
        var s' := s.Add(e, i);
        if !s'.Complete() {
          ScanShape(cands, i + 1, s');
          var r' := Scan(cands, i + 1, s');
          ConsPicks(cands, i, r'.picked);
          var p := [i] + r'.picked;
          forall k | 0 <= k < |p| ensures p[k] !in s.used {
            if k > 0 { assert p[k] == r'.picked[k - 1]; }
          }
        }
      } else {
        ScanShape(cands, i + 1, s);
      }
    }
  }

  /** The scan only appends: the edges at its picked positions, with their
      scores added to the value. */
  lemma {:induction false} ScanExtends(cands: seq<Edge>, i: nat, s: PedState)
    requires ValidCandidates(cands, |s.connected|)
    ensures var r := Scan(cands, i, s);
      && Within(r.picked, i, |cands|)
      && r.state.edges == s.edges + Pick(cands, r.picked)
    decreases |cands| - i
  {
    if i < |cands| {
      var e := cands[i];
      if i !in s.used && !Reachable(s.edges, e.child, e.parent) {
        var s' := s.Add(e, i);
        if s'.Complete() {
          ConsPicks(cands, i, []);
        } else {
          ScanExtends(cands, i + 1, s');
          ScanShape(cands, i + 1, s');
          ExtendsCons(cands, i, s, Scan(cands, i + 1, s'));
        }
      } else {
        ScanExtends(cands, i + 1, s);
      }
    }
  }

  /** ScanExtends's step over a position the scan took without completing. */
  lemma ExtendsCons(cands: seq<Edge>, i: nat, s: PedState, r': ScanResult)
    requires i < |cands| && 0 <= cands[i].parent < |s.connected| && 0 <= cands[i].child < |s.connected|
    requires Within(r'.picked, i + 1, |cands|) && Increasing(r'.picked)
    requires r'.state.edges == s.Add(cands[i], i).edges + Pick(cands, r'.picked)
    ensures Within([i] + r'.picked, i, |cands|)
    ensures r'.state.edges == s.edges + Pick(cands, [i] + r'.picked)
  {
    ConsPicks(cands, i, r'.picked);
    assert s.Add(cands[i], i).edges == s.edges + [cands[i]];
  }

  /** The scan adds the scores of the edges it appends to the value. */
  lemma {:induction false} ScanValue(cands: seq<Edge>, i: nat, s: PedState)
    requires ValidCandidates(cands, |s.connected|)
    ensures var r := Scan(cands, i, s);
      |s.edges| <= |r.state.edges| && r.state.value == s.value + SumScores(r.state.edges[|s.edges|..])
    decreases |cands| - i
  {
    var r := Scan(cands, i, s);
    ScanExtends(cands, i, s);
    if i < |cands| {
      var e := cands[i];
      if i !in s.used && !Reachable(s.edges, e.child, e.parent) {
        var s' := s.Add(e, i);
        assert s'.edges[|s.edges|..] == [e];
        assert SumScores([e]) == SumScores([]) + e.score;
        if !s'.Complete() {
          ScanValue(cands, i + 1, s');
          ScanExtends(cands, i + 1, s');
          var r' := Scan(cands, i + 1, s');
          assert r == r'.(picked := [i] + r'.picked);
          var tail := r'.state.edges[|s'.edges|..];
          assert r.state.edges[|s.edges|..] == [e] + tail;
          SumScoresConcat([e], tail);
        }
      } else {
        ScanValue(cands, i + 1, s);
      }
    }
  }

  /** The scan adds its picked positions to the used set. */
  lemma {:induction false} ScanUsed(cands: seq<Edge>, i: nat, s: PedState)
    requires ValidCandidates(cands, |s.connected|)
    ensures Scan(cands, i, s).state.used == s.used + Elems(Scan(cands, i, s).picked)
    decreases |cands| - i
  {
    if i < |cands| {
      var e := cands[i];
      if i !in s.used && !Reachable(s.edges, e.child, e.parent) {
        var s' := s.Add(e, i);
        if s'.Complete() {
          assert Scan(cands, i, s) == ScanResult(s', [i], true);
          assert Elems([i]) == {i};
        } else {
          ScanUsed(cands, i + 1, s');
          var r' := Scan(cands, i + 1, s');
          assert Scan(cands, i, s) == ScanResult(r'.state, [i] + r'.picked, r'.stopped);
          ElemsConcat([i], r'.picked);
          assert Elems([i]) == {i};
        }
      } else {
        assert Scan(cands, i, s) == Scan(cands, i + 1, s);
        ScanUsed(cands, i + 1, s);
      }
    }
  }

  /** Each addition uses a position not used before, so one used position per
      edge carries over. */
  lemma {:induction false} ScanUsedCount(cands: seq<Edge>, i: nat, s: PedState)
    requires ValidCandidates(cands, |s.connected|) && |s.used| == |s.edges|
    ensures |Scan(cands, i, s).state.used| == |Scan(cands, i, s).state.edges|
    decreases |cands| - i
  {
    if i < |cands| {
      var e := cands[i];
      if i !in s.used && !Reachable(s.edges, e.child, e.parent) {
        var s' := s.Add(e, i);
        assert |s'.used| == |s.used| + 1;
        if !s'.Complete() {
          ScanUsedCount(cands, i + 1, s');
        }
      } else {
        ScanUsedCount(cands, i + 1, s);
      }
    }
  }

  lemma ElemsConcat(a: seq<nat>, b: seq<nat>)
    ensures Elems(a + b) == Elems(a) + Elems(b)
  {
  }

  /** Every edge the scan adds passed the cycle guard `forma_ciclo` against
      the edges present at that moment. */
  lemma {:induction false} ScanGuarded(cands: seq<Edge>, i: nat, s: PedState)
    requires ValidCandidates(cands, |s.connected|)
    ensures GuardedFrom(Scan(cands, i, s).state.edges, |s.edges|)
    decreases |cands| - i
  {
    if i < |cands| {
      var e := cands[i];
      if i !in s.used && !Reachable(s.edges, e.child, e.parent) {
        var s' := s.Add(e, i);
        if !s'.Complete() {
          ScanGuarded(cands, i + 1, s');
          ScanExtends(cands, i + 1, s');
          var es := Scan(cands, i + 1, s').state.edges;
          assert Scan(cands, i, s).state.edges == es;
          assert es[..|s.edges|] == s.edges && es[|s.edges|] == e;
        } else {
          assert s'.edges[..|s.edges|] == s.edges;
        }
      } else {
        ScanGuarded(cands, i + 1, s);
      }
    }
  }

  /** The scan keeps the connected flags in step with the edges it adds, and
      exits early: after each of its additions but the last the pedigree was
      still incomplete. */
  lemma {:induction false} ScanTracks(cands: seq<Edge>, i: nat, s: PedState, base: nat)
    requires ValidCandidates(cands, |s.connected|) && Tracks(s, base)
    ensures var r := Scan(cands, i, s);
      && Tracks(r.state, base)
      && forall t :: |s.edges| < t < |r.state.edges| ==> !Covers(r.state.edges[base..t], s.population)
    decreases |cands| - i
  {
    if i < |cands| {
      var e := cands[i];
      if i !in s.used && !Reachable(s.edges, e.child, e.parent) {
        var s' := s.Add(e, i);
        AddKeepsTracks(s, e, i, base);
        if !s'.Complete() {
          ScanTracks(cands, i + 1, s', base);
          ScanExtends(cands, i + 1, s');
          var es := Scan(cands, i + 1, s').state.edges;
          assert Scan(cands, i, s).state.edges == es;
          var x :| 0 <= x < |s'.connected| && !s'.connected[x];
          assert es[base..|s'.edges|] == s'.edges[base..];
          assert !Touches(es[base..|s'.edges|], x);
        }
      } else {
        ScanTracks(cands, i + 1, s, base);
      }
    }
  }

  /** The other half of the guard, for a scan from position i over s that
      ended in r: every position it examined and did not take was already
      used or would have closed a cycle with the edges accepted before it
      (the first |s.edges| + |Below(r.picked, j)| edges of the result). A scan
      that stopped early examined the positions up to its last addition; one
      that did not stop examined them all. */
  ghost predicate MaximalFor(cands: seq<Edge>, i: nat, s: PedState, r: ScanResult) {
    && |r.state.edges| == |s.edges| + |r.picked|
    && forall j ::
         (i <= j < |cands| && j !in r.picked
          && (!r.stopped || (r.picked != [] && j < r.picked[|r.picked| - 1])))
         ==> (j in s.used
              || Reachable(r.state.edges[..|s.edges| + |Below(r.picked, j)|], cands[j].child, cands[j].parent))
  }

  lemma {:induction false} ScanMaximal(cands: seq<Edge>, i: nat, s: PedState)
    requires ValidCandidates(cands, |s.connected|)
    ensures MaximalFor(cands, i, s, Scan(cands, i, s))
    decreases |cands| - i
  {
    ScanExtends(cands, i, s);
    if i < |cands| {
      var e := cands[i];
      if i !in s.used && !Reachable(s.edges, e.child, e.parent) {
        var s' := s.Add(e, i);
        if s'.Complete() {
          assert Scan(cands, i, s) == ScanResult(s', [i], true);
        } else {
          ScanMaximal(cands, i + 1, s');
          ScanShape(cands, i + 1, s');
          var r' := Scan(cands, i + 1, s');
          assert Scan(cands, i, s) == ScanResult(r'.state, [i] + r'.picked, r'.stopped);
          MaximalAdd(cands, i, s, r');
        }
      } else {
        ScanMaximal(cands, i + 1, s);
        ScanShape(cands, i + 1, s);
        ScanExtends(cands, i + 1, s);
        assert Scan(cands, i, s) == Scan(cands, i + 1, s);
        MaximalSkip(cands, i, s, Scan(cands, i + 1, s));
      }
    }
  }

  /** ScanMaximal's step over a position the scan took without completing. */
  lemma MaximalAdd(cands: seq<Edge>, i: nat, s: PedState, r': ScanResult)
    requires i < |cands| && 0 <= cands[i].parent < |s.connected| && 0 <= cands[i].child < |s.connected|
    requires Within(r'.picked, i + 1, |cands|)
    requires MaximalFor(cands, i + 1, s.Add(cands[i], i), r')
    ensures MaximalFor(cands, i, s, ScanResult(r'.state, [i] + r'.picked, r'.stopped))
  {
    var s' := s.Add(cands[i], i);
    var p := [i] + r'.picked;
    var r := ScanResult(r'.state, p, r'.stopped);
    assert p[1..] == r'.picked;
    forall j | i <= j < |cands| && j !in p && (!r.stopped || (p != [] && j < p[|p| - 1]))
      ensures j in s.used || Reachable(r.state.edges[..|s.edges| + |Below(p, j)|], cands[j].child, cands[j].parent)
    {
      assert j != i && j !in r'.picked;
      assert Below(p, j) == [i] + Below(r'.picked, j);
      assert r'.stopped ==> r'.picked != [] && p[|p| - 1] == r'.picked[|r'.picked| - 1];
    }
  }

  /** ScanMaximal's step over a position the scan passed by. */
  lemma MaximalSkip(cands: seq<Edge>, i: nat, s: PedState, r: ScanResult)
    requires i < |cands|
    requires i in s.used || Reachable(s.edges, cands[i].child, cands[i].parent)
    requires Within(r.picked, i + 1, |cands|)
    requires |s.edges| <= |r.state.edges| && r.state.edges[..|s.edges|] == s.edges
    requires MaximalFor(cands, i + 1, s, r)
    ensures MaximalFor(cands, i, s, r)
  {
    assert r.picked != [] ==> r.picked[0] > i;
    assert Below(r.picked, i) == [];
  }

  /** The forced prefix: the first j candidates verbatim, their scores summed. */
  lemma {:induction false} ForcedEdges(cands: seq<Edge>, j: nat, n: nat)
    requires j <= |cands| && ValidCandidates(cands, n)
    ensures var s := Forced(cands, j, n);
      && s.population == n && s.fixed == 0
      && s.edges == cands[..j]
      && s.value == SumScores(cands[..j])
    decreases j
  {
    if j > 0 {
      ForcedEdges(cands, j - 1, n);
      assert cands[..j] == cands[..j - 1] + [cands[j - 1]];
      assert cands[..j][..j - 1] == cands[..j - 1];
    }
  }

  /** The positions 0 .. f-1 as a set. */
  lemma RangeElems(f: nat)
    ensures forall t :: t in Elems(Range(f)) <==> 0 <= t < f
  {
    forall t | 0 <= t < f ensures t in Elems(Range(f)) {
      assert Range(f)[t] == t;
    }
  }

  /** The forced prefix uses exactly positions 0 .. j-1, one per edge. */
  lemma {:induction false} ForcedUsed(cands: seq<Edge>, j: nat, n: nat)
    requires j <= |cands| && ValidCandidates(cands, n)
    ensures var s := Forced(cands, j, n);
      && (forall t :: t in s.used <==> 0 <= t < j)
      && |s.used| == j
    decreases j
  {
    if j > 0 {
      ForcedUsed(cands, j - 1, n);
      var s := Forced(cands, j - 1, n);
      assert Forced(cands, j, n).used == s.used + {j - 1};
      assert j - 1 !in s.used;
    }
  }

  /** The forced prefix's flags mark exactly the individuals its edges touch. */
  lemma {:induction false} ForcedTracks(cands: seq<Edge>, j: nat, n: nat)
    requires j <= |cands| && ValidCandidates(cands, n)
    ensures Tracks(Forced(cands, j, n), 0)
    decreases j
  {
    if j == 0 {
      TracksInitial(n);
    } else {
      ForcedTracks(cands, j - 1, n);
      ForcedEdges(cands, j - 1, n);
      AddKeepsTracks(Forced(cands, j - 1, n), cands[j - 1], j - 1, 0);
    }
  }

  /** What `construir_pedigree` guarantees about its edges: they are the
      candidates at strictly increasing positions, the first f of them the
      forced prefix 0 .. f-1 taken verbatim; and the returned partition
      position is the argument. */
  lemma FillIndexed(cands: seq<Edge>, n: nat, fixo: int)
    requires ValidCandidates(cands, n)
    ensures var r := Fill(cands, n, fixo);
      var idx := FillIndices(cands, n, fixo);
      var f := ForcedLength(cands, fixo);
      && r.population == n && r.fixed == fixo && |r.connected| == n
      && Increasing(idx) && Within(idx, 0, |cands|)
      && |idx| >= f && (forall t :: 0 <= t < f ==> idx[t] == t)
      && r.edges == Pick(cands, idx)
  {
    var f := ForcedLength(cands, fixo);
    var s0 := Forced(cands, f, n);
    ForcedEdges(cands, f, n);
    ScanShape(cands, f, s0);
    ScanExtends(cands, f, s0);
    var sc := Scan(cands, f, s0);
    PickRange(cands, f);
    PickConcat(cands, Range(f), sc.picked);
    IncreasingAfterRange(f, sc.picked);
  }

  /** The positions 0 .. f-1 followed by increasing positions from f on are
      increasing. */
  lemma IncreasingAfterRange(f: nat, picked: seq<nat>)
    requires Increasing(picked) && forall k :: 0 <= k < |picked| ==> f <= picked[k]
    ensures Increasing(Range(f) + picked)
  {
    var idx := Range(f) + picked;
    forall a, b | 0 <= a < b < |idx| ensures idx[a] < idx[b] {
      if b < f {
      } else if a < f {
        assert idx[b] == picked[b - f];
      } else {
        assert idx[a] == picked[a - f] && idx[b] == picked[b - f];
      }
    }
  }

  /** `construir_pedigree`'s used set holds exactly the positions of its
      edges, one per edge. */
  lemma FillUsed(cands: seq<Edge>, n: nat, fixo: int)
    requires ValidCandidates(cands, n)
    ensures var r := Fill(cands, n, fixo);
      && r.used == Elems(FillIndices(cands, n, fixo))
      && |r.used| == |r.edges|
  {
    var f := ForcedLength(cands, fixo);
    var s0 := Forced(cands, f, n);
    ForcedEdges(cands, f, n);
    ForcedUsed(cands, f, n);
    RangeElems(f);
    assert s0.used == Elems(Range(f)) by {
      forall t ensures t in s0.used <==> t in Elems(Range(f)) { }
    }
    ScanUsed(cands, f, s0);
    ScanUsedCount(cands, f, s0);
    ElemsConcat(Range(f), Scan(cands, f, s0).picked);
  }

  /** `construir_pedigree`'s value is the sum of its chosen scores, and its
      flags mark exactly the individuals its edges touch. */
  lemma FillValue(cands: seq<Edge>, n: nat, fixo: int)
    requires ValidCandidates(cands, n)
    ensures var r := Fill(cands, n, fixo);
      && r.value == SumScores(r.edges)
      && Tracks(r, 0)
  {
    var f := ForcedLength(cands, fixo);
    var s0 := Forced(cands, f, n);
    ForcedEdges(cands, f, n);
    ForcedTracks(cands, f, n);
    ScanExtends(cands, f, s0);
    ScanValue(cands, f, s0);
    ScanTracks(cands, f, s0, 0);
    var es := Scan(cands, f, s0).state.edges;
    assert es[..f] == cands[..f];
    SumScoresConcat(cands[..f], es[f..]);
    assert es == cands[..f] + es[f..];
  }

  /** `esta_completo` on what `construir_pedigree` returns holds exactly when
      its edges touch every individual. */
  lemma FillComplete(cands: seq<Edge>, n: nat, fixo: int)
    requires ValidCandidates(cands, n)
    ensures Fill(cands, n, fixo).Complete() <==> Covers(Fill(cands, n, fixo).edges, n)
  {
    var r := Fill(cands, n, fixo);
    FillValue(cands, n, fixo);
    FillIndexed(cands, n, fixo);
    CompleteIffCovers(r, 0);
    assert r.edges[0..] == r.edges;
  }

  /** The early exit of `construir_pedigree`: it is complete if the greedy
      loop stopped, and no greedy addition before the last one made it
      complete. */
  lemma FillExit(cands: seq<Edge>, n: nat, fixo: int)
    requires ValidCandidates(cands, n)
    ensures ForcedLength(cands, fixo) <= |Fill(cands, n, fixo).edges|
    ensures var f := ForcedLength(cands, fixo);
      Scan(cands, f, Forced(cands, f, n)).stopped ==> Fill(cands, n, fixo).Complete()
    ensures forall t :: ForcedLength(cands, fixo) < t < |Fill(cands, n, fixo).edges| ==>
      !Covers(Fill(cands, n, fixo).edges[..t], n)
  {
    var f := ForcedLength(cands, fixo);
    var s0 := Forced(cands, f, n);
    ForcedEdges(cands, f, n);
    ForcedTracks(cands, f, n);
    ScanShape(cands, f, s0);
    ScanTracks(cands, f, s0, 0);
    ScanExtends(cands, f, s0);
    var r := Scan(cands, f, s0).state;
    assert Fill(cands, n, fixo) == r.(fixed := fixo);
    var es := r.edges;
    forall t | f < t < |es| ensures !Covers(es[..t], n) {
      assert es[0..t] == es[..t];
    }
  }

  /** For a scan from position f over a state with f edges: every position
      from f on that it examined and did not take would have closed a cycle
      with the edges accepted before it. */
  ghost predicate SkippedCloseCycles(cands: seq<Edge>, f: nat, r: ScanResult) {
    && |r.state.edges| == f + |r.picked|
    && forall j ::
         (f <= j < |cands| && j !in r.picked
          && (!r.stopped || (r.picked != [] && j < r.picked[|r.picked| - 1])))
         ==> Reachable(r.state.edges[..f + |Below(r.picked, j)|], cands[j].child, cands[j].parent)
  }

  /** MaximalFor over a start state that used no position from f on. */
  lemma MaximalUnused(cands: seq<Edge>, f: nat, s: PedState, r: ScanResult)
    requires MaximalFor(cands, f, s, r) && |s.edges| == f
    requires forall j :: j in s.used ==> j < f
    ensures SkippedCloseCycles(cands, f, r)
  {
  }

  /** Every position from f on that `construir_pedigree` examined and did not
      take (all of them, if it never became complete) would have closed a
      cycle with the edges accepted before it. */
  lemma FillMaximal(cands: seq<Edge>, n: nat, fixo: int)
    requires ValidCandidates(cands, n)
    ensures var f := ForcedLength(cands, fixo);
      SkippedCloseCycles(cands, f, Scan(cands, f, Forced(cands, f, n)))
  {
    var f := ForcedLength(cands, fixo);
    var s0 := Forced(cands, f, n);
    ForcedEdges(cands, f, n);
    ForcedUsed(cands, f, n);
    ScanMaximal(cands, f, s0);
    MaximalUnused(cands, f, s0, Scan(cands, f, s0));
  }

  /** Every greedy edge of `construir_pedigree` passed the cycle guard, so
      with no forced prefix (the only way the search calls it) the result is
      acyclic. */
  lemma FillAcyclic(cands: seq<Edge>, n: nat, fixo: int)
    requires ValidCandidates(cands, n)
    ensures GuardedFrom(Fill(cands, n, fixo).edges, ForcedLength(cands, fixo))
    ensures fixo <= 0 ==> Acyclic(Fill(cands, n, fixo).edges)
  {
    var f := ForcedLength(cands, fixo);
    var s0 := Forced(cands, f, n);
    ForcedEdges(cands, f, n);
    ScanGuarded(cands, f, s0);
    if fixo <= 0 {
      GuardedAcyclic(Scan(cands, f, s0).state.edges, 0);
    }
  }

  /** What `construir_pedigree_com_particao` guarantees when it returns a
      pedigree: it is complete; the parent's edges are a proper prefix of its
      edges; the added edges sit at strictly increasing positions from fixo
      on that the parent had not used, and they alone touch every individual;
      its value is the parent's plus their scores; its partition position is
      fixo + 1; it returned at the first addition that completed it; every
      added edge passed the cycle guard, so an acyclic parent gives an
      acyclic partition; and one used position per edge carries over. */
  lemma PartitionFacts(parent: PedState, cands: seq<Edge>, fixo: nat)
    requires ValidCandidates(cands, parent.population)
    ensures Partition(parent, cands, fixo).Some? ==>
      var q := Partition(parent, cands, fixo).value;
      var picks := PartitionPicks(parent, cands, fixo);
      var base := |parent.edges|;
      && q.population == parent.population && q.fixed == fixo + 1
      && |q.connected| == q.population
      && q.Complete()
      && parent.edges < q.edges
      && Increasing(picks) && Within(picks, fixo, |cands|)
      && (forall k :: 0 <= k < |picks| ==> picks[k] !in parent.used)
      && q.edges[base..] == Pick(cands, picks)
      && q.used == parent.used + Elems(picks)
      && q.value == parent.value + SumScores(q.edges[base..])
      && Covers(q.edges[base..], q.population)
      && (forall t :: base < t < |q.edges| ==> !Covers(q.edges[base..t], q.population))
      && GuardedFrom(q.edges, base)
      && (Acyclic(parent.edges) ==> Acyclic(q.edges))
      && (|parent.used| == |parent.edges| ==> |q.used| == |q.edges|)
  {
    var s0 := PartitionStart(parent, fixo);
    var base := |parent.edges|;
    assert Tracks(s0, base);
    ScanShape(cands, fixo, s0);
    ScanExtends(cands, fixo, s0);
    ScanValue(cands, fixo, s0);
    ScanUsed(cands, fixo, s0);
    if |parent.used| == |parent.edges| {
      ScanUsedCount(cands, fixo, s0);
    }
    ScanGuarded(cands, fixo, s0);
    ScanTracks(cands, fixo, s0, base);
    var r := Scan(cands, fixo, s0);
    if r.stopped {
      assert r.state.edges[..base] == parent.edges;
      assert r.state.edges[base..] == Pick(cands, r.picked);
      CompleteIffCovers(r.state, base);
      if Acyclic(parent.edges) {
        GuardedAcyclic(r.state.edges, base);
      }
    }
  }

  /** The greedy scan from position i over s ends with the outcome `goal`. */
  ghost predicate Leads(cands: seq<Edge>, i: nat, s: PedState, goal: (PedState, bool))
    requires ValidCandidates(cands, |s.connected|)
  {
    Outcome(Scan(cands, i, s)) == goal
  }

  /** The body the two builders' greedy loops share at position i: add the
      candidate if its position is unused and it closes no cycle, and report
      whether that addition made the pedigree complete. If the scan from i
      over the old value ends with `goal`, then either this step stopped it
      there, or the scan from i + 1 over the new value ends there too. */
  method GreedyStep(p: Pedigree, cands: seq<Edge>, i: nat, ghost goal: (PedState, bool)) returns (done: bool)
    requires p.Valid() && ValidCandidates(cands, p.population) && i < |cands|
    requires Leads(cands, i, p.State(), goal)
    modifies p
    ensures p.Valid() && p.fixed == old(p.fixed)
    ensures done ==> goal == (p.State(), true)
    ensures !done ==> Leads(cands, i + 1, p.State(), goal)
  {
    var e := cands[i];
    assert e in cands;
    ghost var before := p.State();
    done := false;
    if i !in p.usedIndices {
      var cycle := FormsCycle(p, e.parent, e.child);
      if !cycle {
        ScanTake(cands, i, before);
        p.AddConnection(e.parent, e.child, e.score, i);
        done := p.IsComplete();
        return;
      }
    }
    ScanSkip(cands, i, before);
  }

  /** Where the loop of `construir_pedigree` stands before position i, with
      f the forced length: still in the forced prefix, holding its first i
      edges; or in the greedy phase, where the scan from i over the current
      value ends as the greedy scan from f over the whole prefix does. */
  ghost predicate FillLoop(cands: seq<Edge>, n: nat, f: nat, i: nat, s: PedState)
    requires f <= |cands| && ValidCandidates(cands, n)
  {
    && i <= |cands| && |s.connected| == n
    && (i <= f ==> s == Forced(cands, i, n))
    && (f <= i ==> Leads(cands, i, s, Outcome(Scan(cands, f, Forced(cands, f, n)))))
  }

  /** A forced step of the loop of `construir_pedigree`. */
  lemma FillLoopForced(cands: seq<Edge>, n: nat, fixo: int, i: nat, s: PedState)
    requires ValidCandidates(cands, n) && i < |cands| && i < fixo
    requires FillLoop(cands, n, ForcedLength(cands, fixo), i, s)
    ensures FillLoop(cands, n, ForcedLength(cands, fixo), i + 1, s.Add(cands[i], i))
  {
  }

  /** The loop of `construir_pedigree` in its greedy phase. */
  lemma FillLoopGreedy(cands: seq<Edge>, n: nat, fixo: int, i: nat, s: PedState)
    requires ValidCandidates(cands, n) && i <= |cands| && fixo <= i && |s.connected| == n
    ensures var f := ForcedLength(cands, fixo);
      && (FillLoop(cands, n, f, i, s) ==> Leads(cands, i, s, Outcome(Scan(cands, f, Forced(cands, f, n)))))
      && (f < i && Leads(cands, i, s, Outcome(Scan(cands, f, Forced(cands, f, n)))) ==> FillLoop(cands, n, f, i, s))
  {
  }

  /** Where the greedy scan of `construir_pedigree` ends, setting `fixo` gives Fill. */
  lemma FillEnd(cands: seq<Edge>, n: nat, fixo: int, s: PedState, stopped: bool)
    requires ValidCandidates(cands, n)
    requires var f := ForcedLength(cands, fixo); Outcome(Scan(cands, f, Forced(cands, f, n))) == (s, stopped)
    ensures s.(fixed := fixo) == Fill(cands, n, fixo)
  {
    var f := ForcedLength(cands, fixo);
    ForcedEdges(cands, f, n);
    ScanShape(cands, f, Forced(cands, f, n));
  }

  /** `construir_pedigree`: positions before fixo are added unconditionally;
      later ones only when unused and acyclic, stopping as soon as the
      pedigree is complete. */
  method BuildPedigree(cands: seq<Edge>, n: nat, fixo: int) returns (p: Pedigree)
    requires ValidCandidates(cands, n)
    ensures fresh(p) && p.Valid()
    ensures p.State() == Fill(cands, n, fixo)
  {
    ghost var f := ForcedLength(cands, fixo);
    ForcedEdges(cands, f, n);
    ghost var goal := Outcome(Scan(cands, f, Forced(cands, f, n)));
    p := new Pedigree(n);
    var i := 0;
    while i < |cands|
      invariant fresh(p) && p.Valid() && p.population == n
      invariant FillLoop(cands, n, f, i, p.State())
    {
      ghost var before := p.State();
      if i < fixo {
        var e := cands[i];
        assert e in cands;
        p.AddConnection(e.parent, e.child, e.score, i);
        FillLoopForced(cands, n, fixo, i, before);
      } else {
        FillLoopGreedy(cands, n, fixo, i, before);
        var done := GreedyStep(p, cands, i, goal);
        if done {
          FillEnd(cands, n, fixo, p.State(), true);
          break;
        }
        FillLoopGreedy(cands, n, fixo, i + 1, p.State());
      }
      i := i + 1;
    }
    if i == |cands| {
      assert Leads(cands, i, p.State(), goal);
      FillEnd(cands, n, fixo, p.State(), false);
    }
    p.fixed := fixo;
  }

  /** The loop of `construir_pedigree_com_particao` ran out of positions
      without completing the copy: the partition is None. */
  lemma PartitionNone(parent: PedState, cands: seq<Edge>, fixo: nat, i: nat, s: PedState)
    requires ValidCandidates(cands, parent.population) && |s.connected| == parent.population
    requires i >= |cands|
    requires Leads(cands, i, s, Outcome(Scan(cands, fixo, PartitionStart(parent, fixo))))
    ensures Partition(parent, cands, fixo) == None
  {
  }

  /** A step of that loop completed the copy s: the partition is s. */
  lemma PartitionSome(parent: PedState, cands: seq<Edge>, fixo: nat, s: PedState)
    requires ValidCandidates(cands, parent.population)
    requires Outcome(Scan(cands, fixo, PartitionStart(parent, fixo))) == (s, true)
    ensures Partition(parent, cands, fixo) == Some(s)
  {
  }

  /** `construir_pedigree_com_particao`: copy the parent's edges, score and
      used positions (never its flags), then extend greedily from fixo;
      return the copy as soon as it is complete, or null (`None`) if the
      candidates run out first. The parent is left as it was. */
  method BuildPartition(current: Pedigree, cands: seq<Edge>, fixo: nat) returns (r: Pedigree?)
    requires current.Valid() && ValidCandidates(cands, current.population)
    ensures current.State() == old(current.State())
    ensures r == null <==> Partition(current.State(), cands, fixo) == None
    ensures r != null ==> fresh(r) && r.Valid() && Partition(current.State(), cands, fixo) == Some(r.State())
  {
    var novo := new Pedigree(current.population);
    novo.edges := current.edges;
    novo.value := current.value;
    novo.usedIndices := current.usedIndices;
    novo.fixed := fixo + 1;
    assert novo.State() == PartitionStart(current.State(), fixo);
    ghost var goal := Outcome(Scan(cands, fixo, novo.State()));
    var i := fixo;
    while i < |cands|
      invariant fixo <= i && (i <= |cands| || i == fixo)
      invariant fresh(novo) && novo.Valid() && novo.population == current.population
      invariant Leads(cands, i, novo.State(), goal)
    {
      var done := GreedyStep(novo, cands, i, goal);
      if done {
        PartitionSome(current.State(), cands, fixo, novo.State());
        return novo;
      }
      i := i + 1;
    }
    PartitionNone(current.State(), cands, fixo, i, novo.State());
    return null;
  }
}
