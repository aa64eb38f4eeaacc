/** `particionamento_exclusivo`: the k-best search over pedigrees. The scores
    are sorted best first, a greedy pedigree seeds a max-priority queue, and
    each pedigree popped from the queue is emitted and then partitioned at
    every position from its `fixo` on; partitions not seen before (by their
    sorted edge list) are pushed. */
module Search {
  import opened Graph
  import opened Pedigrees
  import opened Builders

  /** Non-increasing by score. */
  ghost predicate SortedDesc(s: seq<Edge>) {
    forall a, b :: 0 <= a < b < |s| ==> s[a].score >= s[b].score
  }

  /** Insert e into a list sorted best first, after every element whose score
      is at least e's: equal scores keep their order of arrival. */
  function InsertDesc(e: Edge, sorted: seq<Edge>): (r: seq<Edge>)
    ensures multiset(r) == multiset(sorted) + multiset{e}
  {
    if sorted == [] then [e]
    else if sorted[0].score >= e.score then
      assert sorted == [sorted[0]] + sorted[1..];
      [sorted[0]] + InsertDesc(e, sorted[1..])
    else [e] + sorted
  }

  lemma {:induction false} InsertDescSorted(e: Edge, sorted: seq<Edge>)
    requires SortedDesc(sorted)
    ensures SortedDesc(InsertDesc(e, sorted))
    decreases |sorted|
  {
    if sorted != [] && sorted[0].score >= e.score {
      var t := InsertDesc(e, sorted[1..]);
      InsertDescSorted(e, sorted[1..]);
      var r := [sorted[0]] + t;
      forall b | 1 <= b < |r| ensures r[0].score >= r[b].score {
        assert r[b] in multiset(t);
        assert r[b] in multiset(sorted[1..]) || r[b] == e;
      }
    }
  }

  /** `sorted(pontuacoes, key=score, reverse=True)`: a stable sort, best score
      first, as an insertion sort over the candidates in input order. */
  function SortDesc(s: seq<Edge>): (r: seq<Edge>)
    ensures multiset(r) == multiset(s)
  {
    if s == [] then []
    else
      assert s == s[..|s| - 1] + [s[|s| - 1]];
      InsertDesc(s[|s| - 1], SortDesc(s[..|s| - 1]))
  }

  /** The sorted list is best first and holds exactly the candidates. */
  lemma {:induction false} SortDescSorted(s: seq<Edge>)
    ensures SortedDesc(SortDesc(s))
    ensures forall e :: e in SortDesc(s) <==> e in s
    decreases |s|
  {
    if s != [] {
      SortDescSorted(s[..|s| - 1]);
      InsertDescSorted(s[|s| - 1], SortDesc(s[..|s| - 1]));
    }
    forall e ensures e in SortDesc(s) <==> e in s {
      assert e in SortDesc(s) <==> e in multiset(SortDesc(s));
    }
  }

  /** The candidates of s whose score is x, in their order in s. */
  ghost function WithScore(s: seq<Edge>, x: real): seq<Edge> {
    if s == [] then [] else (if s[0].score == x then [s[0]] else []) + WithScore(s[1..], x)
  }

  lemma WithScoreCons(h: Edge, s: seq<Edge>, x: real)
    ensures WithScore([h] + s, x) == (if h.score == x then [h] else []) + WithScore(s, x)
  {
    assert ([h] + s)[0] == h && ([h] + s)[1..] == s;
  }

  lemma {:induction false} WithScoreConcat(a: seq<Edge>, b: seq<Edge>, x: real)
    ensures WithScore(a + b, x) == WithScore(a, x) + WithScore(b, x)
    decreases |a|
  {
    if a == [] {
      assert a + b == b;
    } else {
      var hd: seq<Edge> := if a[0].score == x then [a[0]] else [];
      WithScoreConcat(a[1..], b, x);
      calc {
        WithScore(a + b, x);
        { assert a + b == [a[0]] + (a[1..] + b); WithScoreCons(a[0], a[1..] + b, x); }
        hd + WithScore(a[1..] + b, x);
        hd + (WithScore(a[1..], x) + WithScore(b, x));
        { assert hd + (WithScore(a[1..], x) + WithScore(b, x)) == (hd + WithScore(a[1..], x)) + WithScore(b, x); }
        (hd + WithScore(a[1..], x)) + WithScore(b, x);
        { assert a == [a[0]] + a[1..]; WithScoreCons(a[0], a[1..], x); }
        WithScore(a, x) + WithScore(b, x);
      }
    }
  }

  lemma {:induction false} WithScoreNone(s: seq<Edge>, x: real)
    requires forall i :: 0 <= i < |s| ==> s[i].score != x
    ensures WithScore(s, x) == []
    decreases |s|
  {
    if s != [] {
      WithScoreNone(s[1..], x);
    }
  }

  /** The tail of a list sorted best first is sorted best first. */
  lemma SortedDescTail(sorted: seq<Edge>)
    requires SortedDesc(sorted) && sorted != []
    ensures SortedDesc(sorted[1..])
  {
    forall a, b | 0 <= a < b < |sorted[1..]| ensures sorted[1..][a].score >= sorted[1..][b].score {
      assert sorted[1..][a] == sorted[a + 1] && sorted[1..][b] == sorted[b + 1];
    }
  }

  /** Past an element of score at least e's, the insertion carries on in
      the tail. */
  lemma InsertDescKeep(e: Edge, sorted: seq<Edge>)
    requires sorted != [] && sorted[0].score >= e.score
    ensures InsertDesc(e, sorted) == [sorted[0]] + InsertDesc(e, sorted[1..])
  {
  }

  /** Inserting e puts it after every element of equal score. */
  lemma {:induction false} InsertDescWithScore(e: Edge, sorted: seq<Edge>, x: real)
    requires SortedDesc(sorted)
    ensures WithScore(InsertDesc(e, sorted), x) == WithScore(sorted, x) + (if e.score == x then [e] else [])
    decreases |sorted|
  {
    if sorted == [] || sorted[0].score < e.score {
      InsertDescFront(e, sorted, x);
    } else {
      var mine: seq<Edge> := if e.score == x then [e] else [];
      var h := sorted[0];
      var head: seq<Edge> := if h.score == x then [h] else [];
      SortedDescTail(sorted);
      InsertDescWithScore(e, sorted[1..], x);
      WithScoreCons(h, InsertDesc(e, sorted[1..]), x);
      WithScoreCons(h, sorted[1..], x);
      calc {
        WithScore(InsertDesc(e, sorted), x);
        { InsertDescKeep(e, sorted); }
        head + WithScore(InsertDesc(e, sorted[1..]), x);
        head + (WithScore(sorted[1..], x) + mine);
        { assert head + (WithScore(sorted[1..], x) + mine) == (head + WithScore(sorted[1..], x)) + mine; }
        (head + WithScore(sorted[1..], x)) + mine;
        { assert sorted == [h] + sorted[1..]; }
        WithScore(sorted, x) + mine;
      }
    }
  }

  /** When e goes to the front, every element after it scores less. */
  lemma InsertDescFront(e: Edge, sorted: seq<Edge>, x: real)
    requires SortedDesc(sorted) && (sorted == [] || sorted[0].score < e.score)
    ensures WithScore(InsertDesc(e, sorted), x) == WithScore(sorted, x) + (if e.score == x then [e] else [])
  {
    var mine: seq<Edge> := if e.score == x then [e] else [];
    WithScoreCons(e, sorted, x);
    assert InsertDesc(e, sorted) == [e] + sorted;
    if e.score == x {
      forall i | 0 <= i < |sorted| ensures sorted[i].score != x {
        assert sorted[0].score >= sorted[i].score;
      }
      WithScoreNone(sorted, x);
      assert mine + [] == mine == [] + mine;
    } else {
      assert [] + WithScore(sorted, x) == WithScore(sorted, x) + [];
    }
  }

  /** `sorted` is stable: the candidates of any one score keep their input
      order. */
  lemma {:induction false} SortDescStable(s: seq<Edge>, x: real)
    ensures WithScore(SortDesc(s), x) == WithScore(s, x)
    decreases |s|
  {
    if s != [] {
      var init, last := s[..|s| - 1], s[|s| - 1];
      assert s == init + [last];
      SortDescStable(init, x);
      SortDescSorted(init);
      InsertDescWithScore(last, SortDesc(init), x);
      WithScoreConcat(init, [last], x);
      assert WithScore([last], x) == (if last.score == x then [last] else []) by {
        assert [last][1..] == [];
      }
    }
  }

  /** Some pedigree of a non-empty queue has a value no other one exceeds. */
  lemma {:induction false} MaxIndex(queue: seq<Pedigree>) returns (m: nat)
    requires queue != []
    ensures m < |queue| && forall j :: 0 <= j < |queue| ==> queue[j].value <= queue[m].value
    decreases |queue|
  {
    var last := |queue| - 1;
    if last == 0 {
      m := 0;
    } else {
      var init := queue[..last];
      var k := MaxIndex(init);
      assert queue[k] == init[k];
      m := if queue[k].value < queue[last].value then last else k;
      forall j | 0 <= j < last
        ensures queue[j].value <= queue[m].value
      {
        assert queue[j] == init[j];
      }
    }
  }

  /** `heapq.heappop` on the queue of `(-valor, pedigree)` pairs: remove a
      pedigree of greatest value. Pedigrees of equal value are incomparable
      under `__lt__`, so which of them comes out is left open. */
  method PopMax(queue: seq<Pedigree>) returns (best: Pedigree, rest: seq<Pedigree>, ghost m: nat)
    requires queue != []
    ensures m < |queue| && best == queue[m] && rest == queue[..m] + queue[m + 1..]
    ensures forall q :: q in queue ==> !best.LessThan(q)
  {
    ghost var top := MaxIndex(queue);
    var i :| 0 <= i < |queue| && forall j :: 0 <= j < |queue| ==> queue[j].value <= queue[i].value;
    best, rest, m := queue[i], queue[..i] + queue[i + 1..], i;
  }

  /** What the search keeps true of every pedigree it holds: a well-formed
      value over n individuals whose edges form no cycle, with one used
      position per edge, `valor` the sum of its edges' scores, and a
      partition position inside the candidate list. */
  ghost predicate Good(s: PedState, n: nat, len: nat) {
    && |s.connected| == s.population == n
    && 0 <= s.fixed <= len
    && Acyclic(s.edges)
    && |s.used| == |s.edges|
    && s.value == SumScores(s.edges)
  }

  /** No two pedigrees of ss share a de-duplication key. */
  ghost predicate DistinctKeys(ss: seq<PedState>) {
    forall i, j :: 0 <= i < j < |ss| ==> ss[i].Key() != ss[j].Key()
  }

  /** s is what `construir_pedigree_com_particao` returns for `parent` at
      some position from the parent's `fixo` on. */
  ghost predicate IsPartition(sorted: seq<Edge>, parent: PedState, s: PedState) {
    && ValidCandidates(sorted, parent.population)
    && exists i: nat :: parent.fixed <= i < |sorted| && Partition(parent, sorted, i) == Some(s)
  }

  /** s is a partition of a pedigree emitted before position `upto`. */
  ghost predicate FromEarlier(sorted: seq<Edge>, results: seq<PedState>, upto: int, s: PedState) {
    exists j :: 0 <= j < upto && j < |results| && IsPartition(sorted, results[j], s)
  }

  /** The well-formed records ps hold the values ss, position by position. */
  ghost predicate Holds(ps: seq<Pedigree>, ss: seq<PedState>)
    reads ps
  {
    |ps| == |ss| && forall i :: 0 <= i < |ps| ==> ps[i].Valid() && ps[i].State() == ss[i]
  }

  /** What holds of the emitted pedigrees: all Good, no key twice, and each
      after the first a partition of an earlier one. */
  ghost predicate ResultsInv(sorted: seq<Edge>, n: nat, results: seq<PedState>) {
    && (forall s :: s in results ==> Good(s, n, |sorted|))
    && DistinctKeys(results)
    && (forall i :: 1 <= i < |results| ==> FromEarlier(sorted, results, i, results[i]))
  }

  /** What the search loop keeps true of the emitted pedigrees, the priority
      queue and the set `seen` of de-duplication keys: every pedigree is Good
      and has its key in seen; no key occurs twice among the emitted and
      queued pedigrees; every pedigree emitted after the first, and (once one
      was emitted) every queued one, is a partition of an emitted one. */
  ghost predicate SearchInv(sorted: seq<Edge>, n: nat, results: seq<PedState>, queue: seq<PedState>, seen: set<multiset<Edge>>) {
    && ResultsInv(sorted, n, results)
    && (forall s :: s in results ==> s.Key() in seen)
    && (forall s :: s in queue ==> Good(s, n, |sorted|) && s.Key() in seen)
    && DistinctKeys(queue)
    && (forall s, q :: s in results && q in queue ==> s.Key() != q.Key())
    && (results != [] ==> forall q :: q in queue ==> FromEarlier(sorted, results, |results|, q))
  }

  /** The seeded queue. */
  lemma SearchInvInitial(sorted: seq<Edge>, n: nat, initial: PedState)
    requires Good(initial, n, |sorted|)
    ensures SearchInv(sorted, n, [], [initial], {initial.Key()})
  {
  }

  /** Removing queue[m] leaves a sub-list of distinct keys, none of them m's. */
  lemma DistinctRemove(queue: seq<PedState>, m: nat)
    requires m < |queue| && DistinctKeys(queue)
    ensures var rest := queue[..m] + queue[m + 1..];
      && DistinctKeys(rest)
      && forall q :: q in rest ==> q in queue && q.Key() != queue[m].Key()
  {
    var rest := queue[..m] + queue[m + 1..];
    assert forall i :: 0 <= i < |rest| ==> rest[i] == queue[if i < m then i else i + 1];
  }

  /** Appending a partition of an earlier pedigree keeps every witness. */
  lemma ExtendsAppend(sorted: seq<Edge>, results: seq<PedState>, s: PedState)
    requires forall i :: 1 <= i < |results| ==> FromEarlier(sorted, results, i, results[i])
    requires results != [] ==> FromEarlier(sorted, results, |results|, s)
    ensures var r := results + [s];
      forall i :: 1 <= i < |r| ==> FromEarlier(sorted, r, i, r[i])
  {
    var r := results + [s];
    forall i | 1 <= i < |r| ensures FromEarlier(sorted, r, i, r[i]) {
      var j :| 0 <= j < i && j < |results| && IsPartition(sorted, results[j], r[i]);
      assert r[j] == results[j];
    }
  }

  /** The emitted pedigrees with queue[m] appended still satisfy ResultsInv. */
  lemma PopResultsInv(sorted: seq<Edge>, n: nat, results: seq<PedState>, queue: seq<PedState>, seen: set<multiset<Edge>>, m: nat)
    requires SearchInv(sorted, n, results, queue, seen) && m < |queue|
    ensures ResultsInv(sorted, n, results + [queue[m]])
  {
    var r := results + [queue[m]];
    assert queue[m] in queue;
    ExtendsAppend(sorted, results, queue[m]);
    forall i, j | 0 <= i < j < |r| ensures r[i].Key() != r[j].Key() {
      if j == |results| {
        assert r[i] in results;
      } else {
        assert r[i] == results[i] && r[j] == results[j];
      }
    }
  }

  /** Popping queue[m] and emitting it keeps the invariant. */
  lemma SearchInvPop(sorted: seq<Edge>, n: nat, results: seq<PedState>, queue: seq<PedState>, seen: set<multiset<Edge>>, m: nat)
    requires SearchInv(sorted, n, results, queue, seen) && m < |queue|
    requires results == [] ==> |queue| == 1
    ensures SearchInv(sorted, n, results + [queue[m]], queue[..m] + queue[m + 1..], seen)
  {
    PopResultsInv(sorted, n, results, queue, seen, m);
    PopQueueInv(sorted, n, results, queue, seen, m);
  }

  /** The rest of the queue after popping queue[m] keeps its part of the
      invariant against the grown list of emitted pedigrees. */
  lemma PopQueueInv(sorted: seq<Edge>, n: nat, results: seq<PedState>, queue: seq<PedState>, seen: set<multiset<Edge>>, m: nat)
    requires SearchInv(sorted, n, results, queue, seen) && m < |queue|
    requires results == [] ==> |queue| == 1
    ensures var rest := queue[..m] + queue[m + 1..];
      var r := results + [queue[m]];
      && (forall s :: s in r ==> s.Key() in seen)
      && (forall s :: s in rest ==> Good(s, n, |sorted|) && s.Key() in seen)
      && DistinctKeys(rest)
      && (forall s, q :: s in r && q in rest ==> s.Key() != q.Key())
      && (forall q :: q in rest ==> FromEarlier(sorted, r, |r|, q))
  {
    var rest := queue[..m] + queue[m + 1..];
    var r := results + [queue[m]];
    DistinctRemove(queue, m);
    assert queue[m] in queue;
    if results != [] {
      forall q | q in rest ensures FromEarlier(sorted, r, |r|, q) {
        var j :| 0 <= j < |results| && IsPartition(sorted, results[j], q);
        assert r[j] == results[j];
      }
    } else {
      assert rest == [];
    }
  }

  /** Pushing a Good partition of the last emitted pedigree with an unseen
      key keeps the invariant. */
  lemma SearchInvPush(sorted: seq<Edge>, n: nat, results: seq<PedState>, queue: seq<PedState>, seen: set<multiset<Edge>>, novo: PedState)
    requires SearchInv(sorted, n, results, queue, seen) && results != []
    requires Good(novo, n, |sorted|) && novo.Key() !in seen
    requires IsPartition(sorted, results[|results| - 1], novo)
    ensures SearchInv(sorted, n, results, queue + [novo], seen + {novo.Key()})
  {
    var q := queue + [novo];
    assert FromEarlier(sorted, results, |results|, novo);
    forall i, j | 0 <= i < j < |q| ensures q[i].Key() != q[j].Key() {
      if j == |queue| {
        assert q[i] in queue;
      } else {
        assert q[i] == queue[i] && q[j] == queue[j];
      }
    }
  }

  /** A partition of a Good pedigree is Good, complete, and extends it. */
  lemma PartitionGood(sorted: seq<Edge>, n: nat, current: PedState, fixo: nat, novo: PedState)
    requires ValidCandidates(sorted, n) && Good(current, n, |sorted|) && fixo < |sorted|
    requires Partition(current, sorted, fixo) == Some(novo)
    ensures Good(novo, n, |sorted|) && novo.Complete() && current.edges < novo.edges
  {
    PartitionFacts(current, sorted, fixo);
    PartitionValue(sorted, current, fixo, novo);
  }

  /** A partition's value is the sum of its edges' scores when its parent's is. */
  lemma PartitionValue(sorted: seq<Edge>, current: PedState, fixo: nat, novo: PedState)
    requires ValidCandidates(sorted, current.population) && current.value == SumScores(current.edges)
    requires Partition(current, sorted, fixo) == Some(novo)
    ensures novo.value == SumScores(novo.edges)
  {
    PartitionFacts(current, sorted, fixo);
    SumScoresExtend(current.edges, novo.edges);
  }

  /** The de-duplication keys of the pedigrees ss. */
  ghost function Keys(ss: seq<PedState>): set<multiset<Edge>> {
    set s | s in ss :: s.Key()
  }

  lemma KeysConcat(a: seq<PedState>, b: seq<PedState>)
    ensures Keys(a + b) == Keys(a) + Keys(b)
  {
    assert forall s :: s in a + b <==> s in a || s in b;
  }

  /** Removing position m takes away at most the key of queue[m]. */
  lemma KeysRemove(queue: seq<PedState>, m: nat)
    requires m < |queue|
    ensures Keys(queue) == Keys(queue[..m] + queue[m + 1..]) + {queue[m].Key()}
  {
    assert queue == queue[..m] + [queue[m]] + queue[m + 1..];
    KeysConcat(queue[..m] + [queue[m]], queue[m + 1..]);
    KeysConcat(queue[..m], [queue[m]]);
    KeysConcat(queue[..m], queue[m + 1..]);
  }

  /** Every partition of s, at a position from its `fixo` on, that
      `construir_pedigree_com_particao` returns has its key in seen. */
  ghost predicate PartitionsSeen(sorted: seq<Edge>, s: PedState, seen: set<multiset<Edge>>) {
    && ValidCandidates(sorted, s.population)
    && forall i: nat :: s.fixed <= i < |sorted| && Partition(s, sorted, i).Some? ==>
         Partition(s, sorted, i).value.Key() in seen
  }

  /** Every emitted pedigree has had its partitions considered against seen. */
  ghost predicate Explored(sorted: seq<Edge>, states: seq<PedState>, seen: set<multiset<Edge>>) {
    forall s :: s in states ==> PartitionsSeen(sorted, s, seen)
  }

  /** `seen_pedigrees` holds exactly the keys of the emitted and the queued
      pedigrees. */
  ghost predicate SeenExactly(states: seq<PedState>, qs: seq<PedState>, seen: set<multiset<Edge>>) {
    seen == Keys(states) + Keys(qs)
  }

  /** Every partition of every record in ps, at a position from its `fixo`
      on, has the key of some record in ps: nothing further can be found. */
  ghost predicate Exhausted(sorted: seq<Edge>, ps: seq<Pedigree>)
    reads ps
  {
    forall j, i: nat ::
      0 <= j < |ps| && ps[j].fixed <= i < |sorted| && ValidCandidates(sorted, ps[j].population)
      && Partition(ps[j].State(), sorted, i).Some? ==>
        exists r :: 0 <= r < |ps| && ps[r].Signature() == Partition(ps[j].State(), sorted, i).value.Key()
  }

  /** Once the queue is empty, every partition of an emitted pedigree has the
      key of an emitted one. */
  lemma ExhaustedFromStates(sorted: seq<Edge>, results: seq<Pedigree>, states: seq<PedState>)
    requires Holds(results, states) && Explored(sorted, states, Keys(states))
    ensures Exhausted(sorted, results)
  {
    forall j, i: nat | 0 <= j < |results| && results[j].fixed <= i < |sorted|
      && ValidCandidates(sorted, results[j].population) && Partition(results[j].State(), sorted, i).Some?
      ensures exists r :: 0 <= r < |results| && results[r].Signature() == Partition(results[j].State(), sorted, i).value.Key()
    {
      assert states[j] in states;
      var key := Partition(states[j], sorted, i).value.Key();
      var t :| t in states && t.Key() == key;
      var r :| 0 <= r < |states| && states[r] == t;
      assert results[r].Signature() == key;
    }
  }

  /** The loop of `particionamento_exclusivo` from the seeded queue on: while
      the queue is not empty and fewer than k pedigrees were emitted, take one
      round. The ghost `states` are the values of the returned records. When
      fewer than k come out, the queue ran empty, and then every partition of
      every result was found before (its key is a result's key). */
  method Search(sorted: seq<Edge>, n: nat, k: int, initial: Pedigree) returns (results: seq<Pedigree>, ghost states: seq<PedState>)
    requires ValidCandidates(sorted, n) && initial.Valid() && Good(initial.State(), n, |sorted|)
    ensures k <= 0 ==> results == []
    ensures k > 0 ==> 1 <= |results| <= k && results[0] == initial
    ensures Holds(results, states) && ResultsInv(sorted, n, states)
    ensures |results| < k ==> Exhausted(sorted, results)
    ensures BestFirst(sorted, results) && FirstSources(sorted, states)
  {
    var queue: seq<Pedigree> := [initial];
    ghost var qs := [initial.State()];
    var seen := {initial.Signature()};
    results, states := [], [];
    SearchInvInitial(sorted, n, initial.State());
    assert Keys(qs) == {initial.Signature()} by {
      assert forall s :: s in qs <==> s == initial.State();
    }
    while queue != [] && |results| < k
      invariant |results| <= if k < 0 then 0 else k
      invariant |results| == 0 ==> queue == [initial]
      invariant |results| > 0 ==> results[0] == initial
      invariant Holds(results, states) && Holds(queue, qs)
      invariant SearchInv(sorted, n, states, qs, seen)
      invariant SeenExactly(states, qs, seen) && Explored(sorted, states, seen)
      invariant BestFirstStates(sorted, states) && Canonical(sorted, states, qs)
      decreases k - |results|
    {
      ghost var m;
      results, states, queue, qs, seen, m := Round(sorted, n, results, states, queue, qs, seen);
    }
    if |results| < k {
      assert qs == [];
      ExhaustedFromStates(sorted, results, states);
    }
    BestFirstFromStates(sorted, results, states);
  }

  /** One round of the search loop: pop a pedigree of greatest value (no
      queued pedigree has a greater `valor`), emit it, and push its unseen
      partitions. Afterwards every partition of the emitted pedigree has its
      key in `seen'`, which grew by exactly the keys of the pushed ones. */
  method Round(sorted: seq<Edge>, n: nat, results: seq<Pedigree>, ghost states: seq<PedState>,
               queue: seq<Pedigree>, ghost qs: seq<PedState>, seen: set<multiset<Edge>>)
    returns (results': seq<Pedigree>, ghost states': seq<PedState>,
             queue': seq<Pedigree>, ghost qs': seq<PedState>, seen': set<multiset<Edge>>, ghost m: nat)
    requires ValidCandidates(sorted, n) && queue != []
    requires Holds(results, states) && Holds(queue, qs)
    requires SearchInv(sorted, n, states, qs, seen) && (states == [] ==> |qs| == 1)
    requires SeenExactly(states, qs, seen) && Explored(sorted, states, seen)
    requires BestFirstStates(sorted, states) && Canonical(sorted, states, qs)
    ensures |results'| == |results| + 1 && results'[..|results|] == results
    ensures results == [] ==> results' == queue
    ensures Holds(results', states') && Holds(queue', qs')
    ensures m < |queue| && results'[|results|] == queue[m] && states'[|states|] == qs[m]
    ensures forall q :: q in queue ==> q.value <= results'[|results|].value
    ensures |queue| - 1 <= |queue'| && queue'[..|queue| - 1] == queue[..m] + queue[m + 1..]
    ensures qs[m].population == n && 0 <= qs[m].fixed
    ensures qs' == qs[..m] + qs[m + 1..] + NewPartitions(qs[m], sorted, qs[m].fixed, seen)
    ensures forall j :: |queue| - 1 <= j < |qs'| ==> IsPartition(sorted, qs[m], qs'[j])
    ensures SearchInv(sorted, n, states', qs', seen')
    ensures seen' == seen + Keys(qs'[|queue| - 1..])
    ensures PartitionsSeen(sorted, states'[|states|], seen')
    ensures SeenExactly(states', qs', seen') && Explored(sorted, states', seen')
    ensures BestFirstStates(sorted, states') && Canonical(sorted, states', qs')
  {
    var current, rest;
    current, rest, m := PopMax(queue);
    PopStep(sorted, n, results, states, queue, qs, seen, m);
    results', states' := results + [current], states + [qs[m]];
    queue', qs' := rest, qs[..m] + qs[m + 1..];
    ghost var qsRest := qs';
    queue', seen', qs' := PushPartitions(sorted, n, current, queue', seen, states', qs');
    assert Holds(results', states');
    PushKeys(states', qsRest, seen, qs', seen');
    ExploredAppend(sorted, states, qs[m], seen, seen');
    CanonicalStep(sorted, n, states, qs, seen, m);
  }

  /** What popping a pedigree of greatest value, queue[m], keeps. */
  lemma PopStep(sorted: seq<Edge>, n: nat, results: seq<Pedigree>, states: seq<PedState>,
                queue: seq<Pedigree>, qs: seq<PedState>, seen: set<multiset<Edge>>, m: nat)
    requires ValidCandidates(sorted, n)
    requires Holds(results, states) && Holds(queue, qs) && m < |queue|
    requires SearchInv(sorted, n, states, qs, seen) && (states == [] ==> |qs| == 1)
    requires SeenExactly(states, qs, seen) && Explored(sorted, states, seen)
    requires BestFirstStates(sorted, states)
    requires forall q :: q in queue ==> !queue[m].LessThan(q)
    ensures Holds(results + [queue[m]], states + [qs[m]])
    ensures Holds(queue[..m] + queue[m + 1..], qs[..m] + qs[m + 1..])
    ensures SearchInv(sorted, n, states + [qs[m]], qs[..m] + qs[m + 1..], seen)
    ensures queue[m].Valid() && queue[m].State() == qs[m]
    ensures SeenExactly(states + [qs[m]], qs[..m] + qs[m + 1..], seen)
    ensures BestFirstStates(sorted, states + [qs[m]])
    ensures forall q :: q in queue ==> q.value <= queue[m].value
  {
    EmitStep(sorted, n, results, states, queue, qs, seen, m);
    MaxValues(queue, qs, m);
    BestFirstStep(sorted, n, states, qs, seen, qs[m]);
    PopKeys(states, qs, seen, m);
  }

  /** The popped pedigree's value is at least every queued value. */
  lemma MaxValues(queue: seq<Pedigree>, qs: seq<PedState>, m: nat)
    requires Holds(queue, qs) && m < |queue|
    requires forall q :: q in queue ==> !queue[m].LessThan(q)
    ensures forall q :: q in qs ==> q.value <= qs[m].value
  {
    forall q | q in qs ensures q.value <= qs[m].value {
      var t :| 0 <= t < |qs| && qs[t] == q;
      assert queue[t] in queue;
    }
  }

  /** Each emitted pedigree was a best pick: see BestAt. */
  ghost predicate BestFirstStates(sorted: seq<Edge>, ss: seq<PedState>) {
    forall i :: 0 <= i < |ss| ==> BestAt(sorted, ss, i)
  }

  /** A partition of a pedigree emitted before ss[i] whose key no pedigree
      emitted before ss[i] has scores no more than ss[i]. */
  ghost predicate BestAt(sorted: seq<Edge>, ss: seq<PedState>, i: int)
    requires 0 <= i < |ss|
  {
    forall j, p: nat ::
      0 <= j < i && ss[j].fixed <= p < |sorted| && ValidCandidates(sorted, ss[j].population)
      && Partition(ss[j], sorted, p).Some?
      && (forall t :: 0 <= t < i ==> ss[t].Key() != Partition(ss[j], sorted, p).value.Key())
      ==> Partition(ss[j], sorted, p).value.value <= ss[i].value
  }

  /** BestAt at i depends only on the first i + 1 pedigrees. */
  lemma BestAtPrefix(sorted: seq<Edge>, a: seq<PedState>, b: seq<PedState>, i: int)
    requires 0 <= i < |a| && i < |b| && a[..i + 1] == b[..i + 1]
    requires BestAt(sorted, a, i)
    ensures BestAt(sorted, b, i)
  {
    assert forall t :: 0 <= t <= i ==> a[t] == a[..i + 1][t] == b[..i + 1][t] == b[t];
  }

  /** BestFirstStates, said of the records holding the values. */
  ghost predicate BestFirst(sorted: seq<Edge>, ps: seq<Pedigree>)
    reads ps
  {
    forall i, j, p: nat ::
      0 <= j < i < |ps| && ps[j].fixed <= p < |sorted| && ValidCandidates(sorted, ps[j].population)
      && Partition(ps[j].State(), sorted, p).Some?
      && (forall t :: 0 <= t < i ==> ps[t].Signature() != Partition(ps[j].State(), sorted, p).value.Key())
      ==> Partition(ps[j].State(), sorted, p).value.value <= ps[i].value
  }

  lemma BestFirstFromStates(sorted: seq<Edge>, results: seq<Pedigree>, states: seq<PedState>)
    requires Holds(results, states) && BestFirstStates(sorted, states)
    ensures BestFirst(sorted, results)
  {
    forall i, j, p: nat |
      0 <= j < i < |results| && results[j].fixed <= p < |sorted| && ValidCandidates(sorted, results[j].population)
      && Partition(results[j].State(), sorted, p).Some?
      && (forall t :: 0 <= t < i ==> results[t].Signature() != Partition(results[j].State(), sorted, p).value.Key())
      ensures Partition(results[j].State(), sorted, p).value.value <= results[i].value
    {
      assert results[j].State() == states[j] && results[i].State() == states[i];
      assert forall t :: 0 <= t < i ==> results[t].State() == states[t];
      assert BestAt(sorted, states, i);
    }
  }

  /** Emitting a pedigree of greatest value in the queue keeps the emitted
      pedigrees a best-first sequence: a partition of an emitted pedigree
      whose key was not emitted yet was queued under that key, with the same
      value. */
  lemma BestFirstStep(sorted: seq<Edge>, n: nat, states: seq<PedState>, qs: seq<PedState>,
                      seen: set<multiset<Edge>>, cur: PedState)
    requires ValidCandidates(sorted, n) && SearchInv(sorted, n, states, qs, seen)
    requires SeenExactly(states, qs, seen) && Explored(sorted, states, seen)
    requires BestFirstStates(sorted, states)
    requires forall q :: q in qs ==> q.value <= cur.value
    ensures BestFirstStates(sorted, states + [cur])
  {
    var ss := states + [cur];
    forall i | 0 <= i < |states| ensures BestAt(sorted, ss, i) {
      assert ss[..i + 1] == states[..i + 1];
      BestAtPrefix(sorted, states, ss, i);
    }
    BestAtLast(sorted, n, states, qs, seen, cur);
  }

  /** The new last pedigree is a best pick. */
  lemma BestAtLast(sorted: seq<Edge>, n: nat, states: seq<PedState>, qs: seq<PedState>,
                   seen: set<multiset<Edge>>, cur: PedState)
    requires ValidCandidates(sorted, n) && SearchInv(sorted, n, states, qs, seen)
    requires SeenExactly(states, qs, seen) && Explored(sorted, states, seen)
    requires forall q :: q in qs ==> q.value <= cur.value
    ensures BestAt(sorted, states + [cur], |states|)
  {
    var ss := states + [cur];
    forall j, p: nat |
      0 <= j < |states| && ss[j].fixed <= p < |sorted| && ValidCandidates(sorted, ss[j].population)
      && Partition(ss[j], sorted, p).Some?
      && (forall t :: 0 <= t < |states| ==> ss[t].Key() != Partition(ss[j], sorted, p).value.Key())
      ensures Partition(ss[j], sorted, p).value.value <= ss[|states|].value
    {
      assert ss[j] == states[j];
      assert forall t :: 0 <= t < |states| ==> ss[t] == states[t];
      var q := QueuedTwin(sorted, n, states, qs, seen, j, p);
    }
  }

  /** A partition of an emitted pedigree whose key no emitted pedigree has
      is matched in the queue by a pedigree with that key, and so with the
      same edges up to order and the same value. */
  lemma QueuedTwin(sorted: seq<Edge>, n: nat, states: seq<PedState>, qs: seq<PedState>,
                   seen: set<multiset<Edge>>, j: int, p: nat) returns (q: PedState)
    requires ValidCandidates(sorted, n) && SearchInv(sorted, n, states, qs, seen)
    requires SeenExactly(states, qs, seen) && Explored(sorted, states, seen)
    requires 0 <= j < |states| && states[j].fixed <= p < |sorted|
    requires ValidCandidates(sorted, states[j].population) && Partition(states[j], sorted, p).Some?
    requires forall t :: 0 <= t < |states| ==> states[t].Key() != Partition(states[j], sorted, p).value.Key()
    ensures q in qs && q.Key() == Partition(states[j], sorted, p).value.Key()
    ensures q.value == Partition(states[j], sorted, p).value.value
  {
    var r := Partition(states[j], sorted, p).value;
    assert states[j] in states;
    forall s | s in states ensures s.Key() != r.Key() {
      var t :| 0 <= t < |states| && states[t] == s;
    }
    q :| q in qs && q.Key() == r.Key();
    PartitionGood(sorted, n, states[j], p, r);
    SumScoresPerm(q.edges, r.edges);
  }

  /** No partition met before position p of ss[j] by the inner loops (one
      of an earlier pedigree, or one of ss[j] at a smaller position) has key
      k. */
  ghost predicate Earliest(sorted: seq<Edge>, ss: seq<PedState>, j: int, p: nat, k: multiset<Edge>)
    requires 0 <= j < |ss|
  {
    forall j': int, p': nat ::
      0 <= j' <= j && ss[j'].fixed <= p' < |sorted| && (j' < j || p' < p)
      && ValidCandidates(sorted, ss[j'].population) && Partition(ss[j'], sorted, p').Some?
      ==> Partition(ss[j'], sorted, p').value.Key() != k
  }

  /** Among the partitions of ss[..lim], the first one the inner loops meet
      with q's key is q itself: it is the one they pushed. */
  ghost predicate FirstFrom(sorted: seq<Edge>, ss: seq<PedState>, lim: int, q: PedState)
    requires 0 <= lim <= |ss|
  {
    forall j: int, p: nat ::
      0 <= j < lim && ss[j].fixed <= p < |sorted| && ValidCandidates(sorted, ss[j].population)
      && Partition(ss[j], sorted, p).Some? && Partition(ss[j], sorted, p).value.Key() == q.Key()
      && Earliest(sorted, ss, j, p, q.Key())
      ==> Partition(ss[j], sorted, p) == Some(q)
  }

  /** Every emitted pedigree after the first is the first partition met with
      its key among those of the pedigrees emitted before it. */
  ghost predicate FirstSources(sorted: seq<Edge>, ss: seq<PedState>) {
    forall i :: 0 < i < |ss| ==> FirstFrom(sorted, ss, i, ss[i])
  }

  /** FirstSources, and every queued pedigree is the first partition met
      with its key among those of the emitted pedigrees. */
  ghost predicate Canonical(sorted: seq<Edge>, states: seq<PedState>, qs: seq<PedState>) {
    && FirstSources(sorted, states)
    && forall q :: q in qs ==> FirstFrom(sorted, states, |states|, q)
  }

  /** Among the partitions of parent from position i on, the first one with
      r's key is r. */
  ghost predicate FirstAfter(parent: PedState, sorted: seq<Edge>, i: nat, r: PedState)
    requires ValidCandidates(sorted, parent.population)
  {
    forall p: nat ::
      i <= p < |sorted| && Partition(parent, sorted, p).Some? && Partition(parent, sorted, p).value.Key() == r.Key()
      && (forall p': nat :: i <= p' < p && Partition(parent, sorted, p').Some? ==>
            Partition(parent, sorted, p').value.Key() != r.Key())
      ==> Partition(parent, sorted, p) == Some(r)
  }

  /** Each pedigree one inner loop pushes is the first partition it meets
      with that key. */
  lemma {:induction false} NewPartitionsFirst(parent: PedState, sorted: seq<Edge>, i: nat, seen: set<multiset<Edge>>)
    requires ValidCandidates(sorted, parent.population) && parent.fixed <= i
    ensures forall r :: r in NewPartitions(parent, sorted, i, seen) ==> FirstAfter(parent, sorted, i, r)
    decreases |sorted| - i
  {
    if i < |sorted| {
      var r0 := Partition(parent, sorted, i);
      var seen' := if r0.Some? && r0.value.Key() !in seen then seen + {r0.value.Key()} else seen;
      var rest := NewPartitions(parent, sorted, i + 1, seen');
      NewPartitionsFirst(parent, sorted, i + 1, seen');
      NewPartitionsFacts(parent, sorted, i + 1, seen');
      forall r | r in NewPartitions(parent, sorted, i, seen) ensures FirstAfter(parent, sorted, i, r) {
        if r in rest {
          assert r.Key() !in seen';
          FirstAfterStep(parent, sorted, i, r);
        }
      }
    }
  }

  /** A pedigree first met from position i + 1 on is first met from i on
      when the partition at i, if any, has another key. */
  lemma FirstAfterStep(parent: PedState, sorted: seq<Edge>, i: nat, r: PedState)
    requires ValidCandidates(sorted, parent.population) && FirstAfter(parent, sorted, i + 1, r)
    requires Partition(parent, sorted, i).Some? ==> Partition(parent, sorted, i).value.Key() != r.Key()
    ensures FirstAfter(parent, sorted, i, r)
  {
  }

  /** A pedigree pushed while cur is emitted is the first partition met with
      its key among those of ss + [cur]: no partition of an earlier pedigree
      has its key, because those keys are all in seen. */
  lemma FirstFromNew(sorted: seq<Edge>, ss: seq<PedState>, cur: PedState, seen: set<multiset<Edge>>, r: PedState)
    requires ValidCandidates(sorted, cur.population) && 0 <= cur.fixed
    requires Explored(sorted, ss, seen) && r.Key() !in seen
    requires FirstAfter(cur, sorted, cur.fixed, r)
    ensures FirstFrom(sorted, ss + [cur], |ss| + 1, r)
  {
    var ss' := ss + [cur];
    assert forall j :: 0 <= j < |ss| ==> ss'[j] == ss[j] && ss[j] in ss;
    forall j: int, p: nat |
      0 <= j < |ss'| && ss'[j].fixed <= p < |sorted| && ValidCandidates(sorted, ss'[j].population)
      && Partition(ss'[j], sorted, p).Some? && Partition(ss'[j], sorted, p).value.Key() == r.Key()
      && Earliest(sorted, ss', j, p, r.Key())
      ensures Partition(ss'[j], sorted, p) == Some(r)
    {
      if j == |ss| {
        assert ss'[j] == cur;
      }
    }
  }

  /** ss[..lim] and ss'[..lim] agree, so FirstFrom carries over. */
  lemma FirstFromPrefix(sorted: seq<Edge>, a: seq<PedState>, b: seq<PedState>, lim: int, q: PedState)
    requires 0 <= lim <= |a| && lim <= |b| && a[..lim] == b[..lim]
    requires FirstFrom(sorted, a, lim, q)
    ensures FirstFrom(sorted, b, lim, q)
  {
    assert forall t :: 0 <= t < lim ==> a[t] == a[..lim][t] == b[..lim][t] == b[t];
  }

  /** A queued pedigree stays the first partition met with its key when one
      more pedigree is emitted: it is already a partition of an earlier one. */
  lemma FirstFromLater(sorted: seq<Edge>, ss: seq<PedState>, cur: PedState, q: PedState)
    requires FirstFrom(sorted, ss, |ss|, q) && FromEarlier(sorted, ss, |ss|, q)
    ensures FirstFrom(sorted, ss + [cur], |ss| + 1, q)
  {
    var ss' := ss + [cur];
    var j0 :| 0 <= j0 < |ss| && IsPartition(sorted, ss[j0], q);
    var p0: nat :| ss[j0].fixed <= p0 < |sorted| && Partition(ss[j0], sorted, p0) == Some(q);
    assert forall t :: 0 <= t < |ss| ==> ss'[t] == ss[t];
    FirstFromPrefix(sorted, ss, ss', |ss|, q);
  }

  /** One round keeps the emitted and queued pedigrees the first ones met
      with their keys. */
  lemma CanonicalStep(sorted: seq<Edge>, n: nat, states: seq<PedState>, qs: seq<PedState>,
                      seen: set<multiset<Edge>>, m: nat)
    requires ValidCandidates(sorted, n) && SearchInv(sorted, n, states, qs, seen)
    requires (states == [] ==> |qs| == 1) && Explored(sorted, states, seen)
    requires Canonical(sorted, states, qs) && m < |qs|
    requires qs[m].population == n && 0 <= qs[m].fixed
    ensures Canonical(sorted, states + [qs[m]],
                      qs[..m] + qs[m + 1..] + NewPartitions(qs[m], sorted, qs[m].fixed, seen))
  {
    var ss := states + [qs[m]];
    assert qs[m] in qs;
    forall i | 0 < i < |ss| ensures FirstFrom(sorted, ss, i, ss[i]) {
      assert states[..i] == ss[..i];
      if i < |states| {
        FirstFromPrefix(sorted, states, ss, i, states[i]);
      } else {
        FirstFromPrefix(sorted, states, ss, i, qs[m]);
      }
    }
    var rest := qs[..m] + qs[m + 1..];
    forall q | q in rest ensures FirstFrom(sorted, ss, |ss|, q) {
      assert q in qs && states != [];
      FirstFromLater(sorted, states, qs[m], q);
    }
    var pushed := NewPartitions(qs[m], sorted, qs[m].fixed, seen);
    NewPartitionsFacts(qs[m], sorted, qs[m].fixed, seen);
    NewPartitionsFirst(qs[m], sorted, qs[m].fixed, seen);
    forall r | r in pushed ensures FirstFrom(sorted, ss, |ss|, r) {
      FirstFromNew(sorted, states, qs[m], seen, r);
    }
    assert forall q :: q in rest + pushed ==> q in rest || q in pushed;
  }

  /** Moving queue[m] to the emitted pedigrees leaves the set of keys alone. */
  lemma PopKeys(states: seq<PedState>, qs: seq<PedState>, seen: set<multiset<Edge>>, m: nat)
    requires SeenExactly(states, qs, seen) && m < |qs|
    ensures SeenExactly(states + [qs[m]], qs[..m] + qs[m + 1..], seen)
  {
    KeysRemove(qs, m);
    KeysConcat(states, [qs[m]]);
    assert Keys([qs[m]]) == {qs[m].Key()} by {
      assert forall s :: s in [qs[m]] <==> s == qs[m];
    }
  }

  /** Recording the keys of the pushed pedigrees keeps seen exact. */
  lemma PushKeys(states: seq<PedState>, qs: seq<PedState>, seen: set<multiset<Edge>>,
                 qs': seq<PedState>, seen': set<multiset<Edge>>)
    requires SeenExactly(states, qs, seen)
    requires |qs| <= |qs'| && qs'[..|qs|] == qs && seen' == seen + Keys(qs'[|qs|..])
    ensures SeenExactly(states, qs', seen')
  {
    assert qs' == qs + qs'[|qs|..];
    KeysConcat(qs, qs'[|qs|..]);
  }

  /** Growing seen keeps the emitted pedigrees explored, and a pedigree whose
      partitions are all seen may join them. */
  lemma ExploredAppend(sorted: seq<Edge>, states: seq<PedState>, s: PedState,
                       seen: set<multiset<Edge>>, seen': set<multiset<Edge>>)
    requires Explored(sorted, states, seen) && seen <= seen' && PartitionsSeen(sorted, s, seen')
    ensures Explored(sorted, states + [s], seen')
  {
    forall t | t in states + [s] ensures PartitionsSeen(sorted, t, seen') {
      if t != s {
        assert t in states;
      }
    }
  }

  /** The inner loop of `particionamento_exclusivo`: partition `current` (the
      pedigree just emitted) at every position from its `fixo` on, and push
      each partition whose key is not yet in `seen`. The queue only grows;
      afterwards every partition of `current` has its key in `seen'`, and
      `seen'` holds exactly `seen` and the keys of the pushed partitions. */
  method PushPartitions(sorted: seq<Edge>, n: nat, current: Pedigree, queue: seq<Pedigree>,
                        seen: set<multiset<Edge>>, ghost states: seq<PedState>, ghost qs: seq<PedState>)
    returns (queue': seq<Pedigree>, seen': set<multiset<Edge>>, ghost qs': seq<PedState>)
    requires ValidCandidates(sorted, n) && current.Valid()
    requires states != [] && current.State() == states[|states| - 1]
    requires Holds(queue, qs)
    requires SearchInv(sorted, n, states, qs, seen)
    ensures Holds(queue', qs')
    ensures SearchInv(sorted, n, states, qs', seen')
    ensures |queue| <= |queue'| && queue'[..|queue|] == queue && qs'[..|qs|] == qs
    ensures forall j :: |queue| <= j < |queue'| ==> IsPartition(sorted, current.State(), qs'[j])
    ensures seen' == seen + Keys(qs'[|qs|..])
    ensures PartitionsSeen(sorted, current.State(), seen')
    ensures current.population == n && 0 <= current.fixed
    ensures qs' == qs + NewPartitions(current.State(), sorted, current.fixed, seen)
  {
    assert states[|states| - 1] in states;
    ghost var cs := current.State();
    ghost var target := qs + NewPartitions(cs, sorted, cs.fixed, seen);
    assert qs[|qs|..] == [] && qs[..|qs|] == qs && queue[..|queue|] == queue;
    queue', seen', qs' := PushFrom(sorted, n, current, queue, seen, current.fixed, states, qs, seen, qs, cs, target);
    assert NewPartitions(cs, sorted, |sorted|, seen') == [];
    assert qs' + [] == qs';
  }

  /** The inner loop from position i on, with the queue `queue` and the
      keys `seen` left by the positions before i. */
  method PushFrom(sorted: seq<Edge>, n: nat, current: Pedigree, queue: seq<Pedigree>,
                  seen: set<multiset<Edge>>, i: nat, ghost states: seq<PedState>,
                  ghost qs0: seq<PedState>, ghost seen0: set<multiset<Edge>>, ghost qs: seq<PedState>,
                  ghost cs: PedState, ghost target: seq<PedState>)
    returns (queue': seq<Pedigree>, seen': set<multiset<Edge>>, ghost qs': seq<PedState>)
    requires ValidCandidates(sorted, n) && current.Valid()
    requires states != [] && current.State() == cs == states[|states| - 1]
    requires current.fixed <= i <= |sorted| && current.population == n
    requires Holds(queue, qs)
    requires PushInv(sorted, n, states, cs, qs0, seen0, qs, seen, i)
    requires Pending(cs, sorted, i, qs, seen, target)
    ensures Holds(queue', qs')
    ensures |queue| <= |queue'| && queue'[..|queue|] == queue
    ensures PushInv(sorted, n, states, cs, qs0, seen0, qs', seen', |sorted|)
    ensures Pending(cs, sorted, |sorted|, qs', seen', target)
  {
    queue', seen', qs' := queue, seen, qs;
    var j := i;
    while j < |sorted|
      invariant i <= j <= |sorted| && current.State() == cs
      invariant Holds(queue', qs')
      invariant |queue| <= |queue'| && queue'[..|queue|] == queue
      invariant PushInv(sorted, n, states, cs, qs0, seen0, qs', seen', j)
      invariant Pending(cs, sorted, j, qs', seen', target)
      decreases |sorted| - j
    {
      queue', seen', qs' := PushIfNew(sorted, n, current, queue', seen', j, states, qs0, seen0, qs', queue, cs, target);
      j := j + 1;
      assert Pending(cs, sorted, j, qs', seen', target);
    }
  }

  /** One position of the inner loop on values: the partition of `parent` at
      position i is appended, and its key recorded, exactly when there is one
      and its key is not in `seen`. */
  ghost predicate PushedAt(parent: PedState, sorted: seq<Edge>, i: nat, qs: seq<PedState>, seen: set<multiset<Edge>>,
                           qs': seq<PedState>, seen': set<multiset<Edge>>)
    requires ValidCandidates(sorted, parent.population)
  {
    var r := Partition(parent, sorted, i);
    if r.Some? && r.value.Key() !in seen then qs' == qs + [r.value] && seen' == seen + {r.value.Key()}
    else qs' == qs && seen' == seen
  }

  /** The partitions of `parent` that the inner loop pushes from position i
      on, when the keys in `seen` are already taken: at each position, the
      partition if there is one and its key is not taken yet, after which its
      key is taken. */
  ghost function NewPartitions(parent: PedState, sorted: seq<Edge>, i: nat, seen: set<multiset<Edge>>): seq<PedState>
    requires ValidCandidates(sorted, parent.population)
    decreases |sorted| - i
  {
    if i >= |sorted| then []
    else
      var r := Partition(parent, sorted, i);
      if r.Some? && r.value.Key() !in seen then [r.value] + NewPartitions(parent, sorted, i + 1, seen + {r.value.Key()})
      else NewPartitions(parent, sorted, i + 1, seen)
  }

  /** A pedigree whose key none of ss has, put in front of ss. */
  lemma DistinctCons(x: PedState, ss: seq<PedState>)
    requires DistinctKeys(ss) && forall q :: q in ss ==> q.Key() != x.Key()
    ensures DistinctKeys([x] + ss) && forall q :: q in [x] + ss <==> q == x || q in ss
  {
    var ps := [x] + ss;
    forall a, b | 0 <= a < b < |ps| ensures ps[a].Key() != ps[b].Key() {
      assert ps[b] == ss[b - 1] && ps[b] in ss;
      if a > 0 {
        assert ps[a] == ss[a - 1];
      }
    }
  }

  /** The pushed partitions are partitions of `parent`, none with a taken
      key and no two with the same key. */
  lemma {:induction false} NewPartitionsFacts(parent: PedState, sorted: seq<Edge>, i: nat, seen: set<multiset<Edge>>)
    requires ValidCandidates(sorted, parent.population) && parent.fixed <= i
    ensures var ps := NewPartitions(parent, sorted, i, seen);
      && DistinctKeys(ps)
      && forall q :: q in ps ==> q.Key() !in seen && IsPartition(sorted, parent, q)
    decreases |sorted| - i
  {
    if i < |sorted| {
      var r := Partition(parent, sorted, i);
      if r.Some? && r.value.Key() !in seen {
        var k := r.value.Key();
        var rest := NewPartitions(parent, sorted, i + 1, seen + {k});
        NewPartitionsFacts(parent, sorted, i + 1, seen + {k});
        assert IsPartition(sorted, parent, r.value);
        DistinctCons(r.value, rest);
      } else {
        NewPartitionsFacts(parent, sorted, i + 1, seen);
      }
    }
  }

  /** The queue `qs`, followed by the partitions still to be pushed from
      position i on, is `target`. */
  ghost predicate Pending(parent: PedState, sorted: seq<Edge>, i: nat, qs: seq<PedState>,
                          seen: set<multiset<Edge>>, target: seq<PedState>)
    requires ValidCandidates(sorted, parent.population)
  {
    qs + NewPartitions(parent, sorted, i, seen) == target
  }

  /** One more position done: what is still to be pushed shrinks by what
      was just pushed. */
  lemma NewPartitionsNext(parent: PedState, sorted: seq<Edge>, i: nat, qs: seq<PedState>, seen: set<multiset<Edge>>,
                          qs': seq<PedState>, seen': set<multiset<Edge>>, target: seq<PedState>)
    requires ValidCandidates(sorted, parent.population) && i < |sorted|
    requires PushedAt(parent, sorted, i, qs, seen, qs', seen')
    requires Pending(parent, sorted, i, qs, seen, target)
    ensures Pending(parent, sorted, i + 1, qs', seen', target)
  {
    var r := Partition(parent, sorted, i);
    if r.Some? && r.value.Key() !in seen {
      var rest := NewPartitions(parent, sorted, i + 1, seen');
      assert (qs + [r.value]) + rest == qs + ([r.value] + rest);
    }
  }

  /** One pass of the inner loop: build the partition of `current` at
      position i and push it, recording its key, if that key is not yet in
      `seen`. */
  method PushIfNew(sorted: seq<Edge>, n: nat, current: Pedigree, queue: seq<Pedigree>,
                   seen: set<multiset<Edge>>, i: nat, ghost states: seq<PedState>,
                   ghost qs0: seq<PedState>, ghost seen0: set<multiset<Edge>>, ghost qs: seq<PedState>,
                   ghost queue0: seq<Pedigree>, ghost cs: PedState, ghost target: seq<PedState>)
    returns (queue': seq<Pedigree>, seen': set<multiset<Edge>>, ghost qs': seq<PedState>)
    requires ValidCandidates(sorted, n) && current.Valid()
    requires states != [] && current.State() == cs == states[|states| - 1]
    requires current.fixed <= i < |sorted|
    requires Holds(queue, qs) && |queue0| <= |queue| && queue[..|queue0|] == queue0
    requires PushInv(sorted, n, states, cs, qs0, seen0, qs, seen, i)
    requires Pending(cs, sorted, i, qs, seen, target)
    ensures Holds(queue', qs')
    ensures |queue| <= |queue'| && queue'[..|queue|] == queue && queue'[..|queue0|] == queue0
    ensures PushInv(sorted, n, states, cs, qs0, seen0, qs', seen', i + 1)
    ensures PushedAt(cs, sorted, i, qs, seen, qs', seen')
    ensures Pending(cs, sorted, i + 1, qs', seen', target)
    ensures current.State() == cs
  {
    var novo := BuildPartition(current, sorted, i);
    assert Holds(queue, qs) && current.State() == cs;
    if novo != null && novo.Signature() !in seen {
      var p: Pedigree := novo;
      PushAdd(sorted, n, states, cs, qs0, seen0, qs, seen, i, p.State());
      HoldsAppend(queue, qs, p);
      queue', qs' := queue + [p], qs + [p.State()];
      seen' := seen + {p.Signature()};
    } else {
      PushSkip(sorted, n, states, cs, qs0, seen0, qs, seen, i);
      queue', seen', qs' := queue, seen, qs;
    }
    NewPartitionsNext(cs, sorted, i, qs, seen, qs', seen', target);
  }

  /** What the inner loop keeps true after considering the positions from
      `current.fixed` up to i: the search invariant; the queue `qs0` it
      started from as a prefix, followed only by partitions of `current`;
      `seen` is `seen0` and the keys of those partitions; and every partition
      of `current` at the positions considered has its key in `seen`. */
  ghost predicate PushInv(sorted: seq<Edge>, n: nat, states: seq<PedState>, current: PedState,
                          qs0: seq<PedState>, seen0: set<multiset<Edge>>,
                          qs: seq<PedState>, seen: set<multiset<Edge>>, i: int) {
    && SearchInv(sorted, n, states, qs, seen)
    && |qs0| <= |qs| && qs[..|qs0|] == qs0
    && (forall j :: |qs0| <= j < |qs| ==> IsPartition(sorted, current, qs[j]))
    && seen == seen0 + Keys(qs[|qs0|..])
    && ValidCandidates(sorted, current.population)
    && forall j: nat :: current.fixed <= j < i && Partition(current, sorted, j).Some? ==>
         Partition(current, sorted, j).value.Key() in seen
  }

  /** Pushing the partition at position i, whose key is new, and recording
      its key keeps the inner loop's invariant. */
  lemma PushAdd(sorted: seq<Edge>, n: nat, states: seq<PedState>, current: PedState,
                qs0: seq<PedState>, seen0: set<multiset<Edge>>,
                qs: seq<PedState>, seen: set<multiset<Edge>>, i: nat, novo: PedState)
    requires ValidCandidates(sorted, n) && states != [] && current == states[|states| - 1]
    requires PushInv(sorted, n, states, current, qs0, seen0, qs, seen, i)
    requires current.fixed <= i < |sorted| && Partition(current, sorted, i) == Some(novo)
    requires novo.Key() !in seen
    ensures PushInv(sorted, n, states, current, qs0, seen0, qs + [novo], seen + {novo.Key()}, i + 1)
  {
    assert current in states;
    PartitionGood(sorted, n, current, i, novo);
    assert IsPartition(sorted, current, novo);
    SearchInvPush(sorted, n, states, qs, seen, novo);
    AddedKeys(qs0, qs, novo);
  }

  /** Appending novo after the prefix qs0 adds exactly novo's key to the
      keys past the prefix. */
  lemma AddedKeys(qs0: seq<PedState>, qs: seq<PedState>, novo: PedState)
    requires |qs0| <= |qs| && qs[..|qs0|] == qs0
    ensures (qs + [novo])[..|qs0|] == qs0
    ensures Keys((qs + [novo])[|qs0|..]) == Keys(qs[|qs0|..]) + {novo.Key()}
  {
    var added := qs[|qs0|..];
    var q := qs + [novo];
    assert q[|qs0|..] == added + [novo];
    assert q[..|qs0|] == qs0;
    KeysConcat(added, [novo]);
    assert Keys([novo]) == {novo.Key()} by {
      assert forall s :: s in [novo] <==> s == novo;
    }
  }

  /** Passing over position i, whose partition is absent or already seen,
      keeps the inner loop's invariant. */
  lemma PushSkip(sorted: seq<Edge>, n: nat, states: seq<PedState>, current: PedState,
                 qs0: seq<PedState>, seen0: set<multiset<Edge>>,
                 qs: seq<PedState>, seen: set<multiset<Edge>>, i: nat)
    requires PushInv(sorted, n, states, current, qs0, seen0, qs, seen, i)
    requires current.fixed <= i < |sorted|
    requires Partition(current, sorted, i).Some? ==> Partition(current, sorted, i).value.Key() in seen
    ensures PushInv(sorted, n, states, current, qs0, seen0, qs, seen, i + 1)
  {
  }

  /** Moving queue[m] to the end of the emitted records keeps records and
      values in step and keeps the invariant. */
  lemma EmitStep(sorted: seq<Edge>, n: nat, results: seq<Pedigree>, states: seq<PedState>,
                 queue: seq<Pedigree>, qs: seq<PedState>, seen: set<multiset<Edge>>, m: nat)
    requires Holds(results, states) && Holds(queue, qs) && m < |queue|
    requires SearchInv(sorted, n, states, qs, seen) && (states == [] ==> |qs| == 1)
    ensures Holds(results + [queue[m]], states + [qs[m]])
    ensures Holds(queue[..m] + queue[m + 1..], qs[..m] + qs[m + 1..])
    ensures SearchInv(sorted, n, states + [qs[m]], qs[..m] + qs[m + 1..], seen)
    ensures queue[m].Valid() && queue[m].State() == (states + [qs[m]])[|states|]
  {
    SearchInvPop(sorted, n, states, qs, seen, m);
    HoldsRemove(queue, qs, m);
  }

  /** Appending a well-formed record and its value keeps them in step. */
  lemma HoldsAppend(ps: seq<Pedigree>, ss: seq<PedState>, p: Pedigree)
    requires Holds(ps, ss) && p.Valid()
    ensures Holds(ps + [p], ss + [p.State()])
  {
  }

  /** Removing position m from both sides keeps records and values in step. */
  lemma HoldsRemove(ps: seq<Pedigree>, ss: seq<PedState>, m: nat)
    requires Holds(ps, ss) && m < |ps|
    ensures Holds(ps[..m] + ps[m + 1..], ss[..m] + ss[m + 1..])
  {
    var r := ps[..m] + ps[m + 1..];
    assert forall i :: 0 <= i < |r| ==> r[i] == ps[if i < m then i else i + 1];
  }

  /** `particionamento_exclusivo(pontuacoes, n, k)`: at most k pedigrees, the
      first the greedy pedigree over the sorted scores, each later one what
      `construir_pedigree_com_particao` returned for an earlier one (so
      complete, and extending it by at least one edge); all are acyclic, with
      one used position per edge, and no two have the same sorted edge list.
      When fewer than k come out, every partition of every result has the
      sorted edge list of some result. */
  method ExclusivePartitioning(cands: seq<Edge>, n: nat, k: int) returns (results: seq<Pedigree>)
    requires ValidCandidates(cands, n)
    ensures ValidCandidates(SortDesc(cands), n)
    ensures k <= 0 ==> results == []
    ensures k > 0 ==> 1 <= |results| <= k && results[0].State() == Fill(SortDesc(cands), n, 0)
    ensures forall p :: p in results ==> p.Valid() && p.population == n && Acyclic(p.edges)
    ensures forall p :: p in results ==> |p.usedIndices| == |p.edges|
    ensures forall i, j :: 0 <= i < j < |results| ==> results[i].Signature() != results[j].Signature()
    ensures forall i :: 1 <= i < |results| ==>
      && results[i].IsComplete()
      && exists j :: 0 <= j < i && results[j].edges < results[i].edges
                     && IsPartition(SortDesc(cands), results[j].State(), results[i].State())
    ensures |results| < k ==> Exhausted(SortDesc(cands), results)
    ensures BestFirst(SortDesc(cands), results)
    ensures FirstSources(SortDesc(cands), StatesOf(results))
  {
    var sorted := SortDesc(cands);
    SortDescSorted(cands);
    var initial := BuildPedigree(sorted, n, 0);
    FillAcyclic(sorted, n, 0);
    FillUsed(sorted, n, 0);
    FillIndexed(sorted, n, 0);
    FillValue(sorted, n, 0);
    ghost var states;
    results, states := Search(sorted, n, k, initial);
    ResultsFacts(sorted, results, states, n);
    ResultsDescend(sorted, results, states, n);
    StatesOfHolds(results, states);
  }

  /** The values the records ps hold, position by position. */
  ghost function StatesOf(ps: seq<Pedigree>): (ss: seq<PedState>)
    reads ps
    ensures |ss| == |ps|
  {
    if ps == [] then [] else StatesOf(ps[..|ps| - 1]) + [ps[|ps| - 1].State()]
  }

  lemma {:induction false} StatesOfHolds(ps: seq<Pedigree>, ss: seq<PedState>)
    requires Holds(ps, ss)
    ensures StatesOf(ps) == ss
    decreases |ps|
  {
    if ps != [] {
      var k := |ps| - 1;
      assert Holds(ps[..k], ss[..k]);
      StatesOfHolds(ps[..k], ss[..k]);
      assert ss == ss[..k] + [ss[k]];
    }
  }

  /** What ResultsInv says of the values, said of the records holding them. */
  lemma ResultsFacts(sorted: seq<Edge>, results: seq<Pedigree>, states: seq<PedState>, n: nat)
    requires Holds(results, states) && ResultsInv(sorted, n, states)
    ensures forall p :: p in results ==> p.Valid() && p.population == n && Acyclic(p.edges)
    ensures forall p :: p in results ==> |p.usedIndices| == |p.edges|
    ensures forall i, j :: 0 <= i < j < |results| ==> results[i].Signature() != results[j].Signature()
  {
    forall p | p in results ensures p.Valid() && p.population == n && Acyclic(p.edges) && |p.usedIndices| == |p.edges| {
      var i :| 0 <= i < |results| && results[i] == p;
      assert states[i] in states;
    }
  }

  /** Every record after the first is a complete partition of an earlier one. */
  lemma ResultsDescend(sorted: seq<Edge>, results: seq<Pedigree>, states: seq<PedState>, n: nat)
    requires Holds(results, states) && ResultsInv(sorted, n, states)
    ensures forall i :: 1 <= i < |results| ==>
      && results[i].IsComplete()
      && exists j :: 0 <= j < i && results[j].edges < results[i].edges
                     && IsPartition(sorted, results[j].State(), results[i].State())
  {
    forall i | 1 <= i < |results|
      ensures && results[i].IsComplete()
              && exists j :: 0 <= j < i && results[j].edges < results[i].edges
                             && IsPartition(sorted, results[j].State(), results[i].State())
    {
      var j :| 0 <= j < i && j < |states| && IsPartition(sorted, states[j], states[i]);
      PartitionExtends(sorted, states[j], states[i]);
      assert results[j].State() == states[j];
    }
  }

  /** A partition is complete and extends its parent by at least one edge. */
  lemma PartitionExtends(sorted: seq<Edge>, parent: PedState, s: PedState)
    requires IsPartition(sorted, parent, s)
    ensures s.Complete() && parent.edges < s.edges
  {
    var i: nat :| parent.fixed <= i < |sorted| && Partition(parent, sorted, i) == Some(s);
    PartitionFacts(parent, sorted, i);
  }
}
