# Pedigree reconstruction by exclusive partitioning — a Dafny model

This project models `Reeconstruir_Pedigrees.py`. That file searches for the `k`
best pedigrees over a list of scored parent→child candidate edges
`(pai, filho, pontuacao)`. A pedigree is a set of chosen edges with no directed
cycle that should connect every individual `0 .. n_individuos-1`. The model has
five modules:

- `Graph` (graph.dfy): the `Edge` triple, a reachability predicate
  `Reachable` over an edge list, `Acyclic`, `Covers` (the edges touch every
  individual) and `SumScores`, with the lemmas about them.
- `Pedigrees` (pedigree.dfy): the mutable record `Pedigree`, written as a class
  whose fields are the source's `arestas`, `conectado`, `valor`, `fixo` and
  `indices_usados`. `PedState` is its value at one moment. It carries
  `Add` (`adicionar_conexao` on values), `Complete` (`esta_completo`) and `Key`
  (the de-duplication key).
- `CycleCheck` (cyclecheck.dfy): `tem_caminho` as the recursive method
  `HasPath`, which threads the shared `visitados` set through, and
  `forma_ciclo` as `FormsCycle`. Both are proved against `Reachable`.
- `Builders` (builders.dfy): `construir_pedigree` (`BuildPedigree`) and
  `construir_pedigree_com_particao` (`BuildPartition`). Both are loops over a
  fresh `Pedigree`. Each is proved equal to a ghost function (`Fill`,
  `Partition`) built on the shared greedy scan `Scan`. Lemmas then state what
  those functions guarantee.
- `Search` (search.dfy): `particionamento_exclusivo` (`ExclusivePartitioning`).
  It has a stable descending sort (`SortDesc`), a pop of a maximal element
  (`PopMax`), the outer loop (`Search`, `Round`) and the inner partition loop
  (`PushPartitions`, `PushFrom`, `PushIfNew`). These carry a loop invariant,
  `SearchInv`, over the emitted pedigrees, the queue and the `seen_pedigrees`
  set. The ghost function `NewPartitions` gives exactly what one inner loop
  appends, and `BestFirst` states that each emitted pedigree was a best pick
  from the partitions not yet emitted. `FirstSources` pins which of several
  partitions with the same edge multiset is emitted: the first one the inner
  loops met, which is the one they pushed.

Scores are `real`. The key `tuple(sorted(arestas))` is modelled as the multiset
of edge triples: two edge lists sort to the same tuple exactly when they hold
the same triples with the same multiplicities.

What the code does not do, and the model therefore does not claim:

- A partition does not drop the parent's edge at position `fixo`. The code
  copies every parent edge (Reeconstruir_Pedigrees.py:73) and only appends, so
  each partition strictly extends its parent (`PartitionExtends`).
- Results are not returned in non-increasing score order. A partition's
  `valor` is its parent's plus more scores, so a later result can score
  higher than an earlier one. The model proves no ordering between results.
  It proves that each pop takes a queue element of maximal `valor`
  (`PopMax`, `Round`). Across the whole run this makes the results
  best-first: every partition of an earlier result whose edge multiset had
  not been emitted yet scores no more than the next result (`BestFirst`,
  proved by `BestFirstStep`).
- A partition's `esta_completo` does not look at the edges it copied from its
  parent. The partition copies the parent's edges but starts with fresh
  `conectado` flags (Reeconstruir_Pedigrees.py:72), so only the edges it adds
  itself count towards completeness (`PartitionFacts`). For
  `construir_pedigree`, completeness is exactly "every individual appears in
  some edge" (`FillComplete`).
- There is no tie-break among pedigrees of equal `valor`: `__lt__` is false
  both ways, and the heap's layout decides. The model leaves the choice open
  (`PopMax`, `LessThanOrder`). Candidates of equal score do keep their input
  order in the sorted list, because `sorted` is stable (`SortDescStable`).

## Model

| member | source | states |
|---|---|---|
| `Pedigrees.Initial` | Reeconstruir_Pedigrees.py:4-10 | a fresh pedigree has no edges, no used positions and `n` flags, and is complete only when `n` is 0 |
| `Pedigrees.Pedigree.constructor` | Reeconstruir_Pedigrees.py:4-10 | the new record holds the initial value: no edges, all flags false, score 0, `fixo` 0, no used positions |
| `Pedigrees.PedState.Add` | Reeconstruir_Pedigrees.py:12-17 | adding an edge keeps the population, the flag count and `fixo`, extends the edge list by one with the old list as its prefix, and never undoes completeness |
| `Pedigrees.Pedigree.AddConnection` | Reeconstruir_Pedigrees.py:12-17 | appends exactly `(pai, filho, pontuacao)`, sets exactly the two endpoint flags, adds the score, records the index, leaves `fixo` and the population alone, and keeps a complete pedigree complete |
| `Pedigrees.AddKeepsTracks` | Reeconstruir_Pedigrees.py:13-15 | the flags stay equal to "touched by an edge" after each addition |
| `Pedigrees.CompleteIffCovers` | Reeconstruir_Pedigrees.py:19-20 | with the flags in step with the edges, `esta_completo` holds exactly when those edges touch every individual |
| `Pedigrees.LessThanOrder` | Reeconstruir_Pedigrees.py:22-24 | `__lt__` is a strict order on `valor`, and two pedigrees are incomparable exactly when their values are equal |
| `Graph.AppendKeepsAcyclic` | Reeconstruir_Pedigrees.py:87-90 | appending an edge whose child does not reach its parent keeps the edge graph acyclic |
| `Graph.GuardedAcyclic` | Reeconstruir_Pedigrees.py:62-63 | edges that each passed the cycle guard, on top of an acyclic prefix, form an acyclic graph |
| `CycleCheck.HasPath` | Reeconstruir_Pedigrees.py:92-101 | terminates, because each recursive call starts at a node not yet visited; a `True` answer means the target is reachable; a `False` answer leaves a visited set closed under the edges that excludes the target |
| `CycleCheck.FormsCycle` | Reeconstruir_Pedigrees.py:87-90 | true exactly when `pai` is reachable from `filho` in zero or more steps, so a self-loop is always rejected |
| `Builders.GreedyStep` | Reeconstruir_Pedigrees.py:81-84 | the loop body both builders share (also at lines 62-65): adds the candidate only if its position is unused and it closes no cycle; reports completeness after an addition; keeps `fixo`; matches one step of the greedy scan |
| `Builders.BuildPedigree` | Reeconstruir_Pedigrees.py:56-68 | the loop builds exactly the value `Fill` of the candidates, `n` and `fixo` |
| `Builders.ForcedEdges` | Reeconstruir_Pedigrees.py:60-61 | the forced prefix holds the first `fixo` candidates verbatim, with their scores summed |
| `Builders.FillIndexed` | Reeconstruir_Pedigrees.py:59-67 | the result's edges are the candidates at strictly increasing positions; the first of them are positions `0 .. fixo-1`; the result has population `n` and returns the argument as its `fixo` |
| `Builders.FillUsed` | Reeconstruir_Pedigrees.py:59-63 | the used set holds exactly the positions of the chosen edges, one per edge |
| `Builders.FillValue` | Reeconstruir_Pedigrees.py:59-63 | `valor` is the sum of the chosen scores, and the flags mark exactly the individuals the edges touch |
| `Builders.FillComplete` | Reeconstruir_Pedigrees.py:56-68 | the built pedigree is complete exactly when its edges touch every individual |
| `Builders.FillExit` | Reeconstruir_Pedigrees.py:59-65 | a loop that stopped early left the pedigree complete, and no greedy addition before the last one made it complete |
| `Builders.FillMaximal` | Reeconstruir_Pedigrees.py:62-65 | every position from `fixo` on that the loop examined and skipped (all of them if it never became complete) would have closed a cycle with the edges accepted before it |
| `Builders.FillAcyclic` | Reeconstruir_Pedigrees.py:62-63 | every greedy edge passed the cycle guard, so with `fixo <= 0` (the only value the search passes) the result is acyclic |
| `Builders.BuildPartition` | Reeconstruir_Pedigrees.py:70-85 | leaves the parent unchanged and returns `None` or a fresh pedigree holding exactly the value `Partition` of the parent, the candidates and `fixo` |
| `Builders.PartitionFacts` | Reeconstruir_Pedigrees.py:70-85 | a returned partition is complete; the parent's edges are a proper prefix of its edges; the added edges sit at strictly increasing positions from `fixo` on that the parent had not used, and they alone touch every individual; its value is the parent's plus their scores; its `fixo` is the argument plus 1; it returned at the first addition that completed it; an acyclic parent gives an acyclic partition; one used position per edge carries over |
| `Search.SortDesc` | Reeconstruir_Pedigrees.py:35 | the sorted list is a permutation of the candidates |
| `Search.SortDescSorted` | Reeconstruir_Pedigrees.py:35 | the sorted list is non-increasing by score and holds exactly the candidates |
| `Search.SortDescStable` | Reeconstruir_Pedigrees.py:35 | the sort is stable: for every score, the candidates with that score appear in the same order as in the input |
| `Search.PopMax` | Reeconstruir_Pedigrees.py:44 | removes one element of the queue, and no element of the queue has a greater `valor` than the one removed |
| `Search.PartitionGood` | Reeconstruir_Pedigrees.py:48-52 | a partition of an acyclic, well-counted pedigree is itself acyclic, well-counted and complete, and extends it |
| `Search.PartitionExtends` | Reeconstruir_Pedigrees.py:73 | a partition is complete and strictly extends its parent's edge list |
| `Search.SearchInvPop` | Reeconstruir_Pedigrees.py:44-45 | popping a queue element and emitting it keeps the search invariant: acyclic results, distinct keys among results and queue, each key recorded in `seen_pedigrees` |
| `Search.SearchInvPush` | Reeconstruir_Pedigrees.py:50-52 | pushing a partition whose key was not yet seen, and recording its key, keeps the search invariant |
| `Search.PushAdd` | Reeconstruir_Pedigrees.py:50-52 | pushing a partition whose key is new and recording that key keeps the inner loop's invariant, which includes that `seen_pedigrees` is the starting set plus the keys of the pushed partitions |
| `Search.PushIfNew` | Reeconstruir_Pedigrees.py:49-52 | one pass of the inner loop builds the partition at position `i`; if there is one and its key is not in `seen_pedigrees`, exactly that partition is appended to the queue and exactly its key is added to `seen_pedigrees`, and otherwise both are left as they were (`PushedAt`); the inner loop's invariant holds for the next position |
| `Search.PushFrom` | Reeconstruir_Pedigrees.py:48-52 | the inner loop from position `i` to the end only appends to the queue, keeps the inner loop's invariant, and appends exactly the rest of `NewPartitions` |
| `Search.PushPartitions` | Reeconstruir_Pedigrees.py:48-52 | the queue after the inner loop is exactly the old queue followed by `NewPartitions` of the popped pedigree from its `fixo` on; each appended pedigree is a partition of the popped one; the invariant holds; afterwards every partition of the popped pedigree at a position from its `fixo` on has its key in `seen_pedigrees`, which grew by exactly the keys of the appended pedigrees |
| `Search.NewPartitionsFacts` | Reeconstruir_Pedigrees.py:48-52 | the pushed pedigrees are partitions of the popped pedigree, none of them has a key already in `seen_pedigrees`, and no two of them share a key |
| `Search.NewPartitionsNext` | Reeconstruir_Pedigrees.py:49-52 | one pass of the inner loop consumes exactly the first position of what is still to be pushed: the queue plus the partitions still to come stays the same sequence |
| `Search.Round` | Reeconstruir_Pedigrees.py:43-52 | one round emits exactly one more pedigree, `queue[m]` (the seed in the first round), whose `valor` no queued pedigree exceeds; the new queue is the old one without position `m`, followed by exactly `NewPartitions` of the emitted pedigree, each of them a partition of it; the invariant holds; `seen_pedigrees` stays exactly the keys of the emitted and queued pedigrees; every partition of the emitted pedigree has its key in it; the emitted pedigrees stay best-first |
| `Search.QueuedTwin` | Reeconstruir_Pedigrees.py:44-52 | a partition of an emitted pedigree whose key no emitted pedigree has sits in the queue under that key, with the same `valor` |
| `Search.BestFirstStep` | Reeconstruir_Pedigrees.py:44-45 | emitting a queued pedigree of maximal `valor` keeps the emitted pedigrees best-first: every partition of an earlier one whose key was not emitted before it scores no more than it |
| `Search.BestFirstFromStates` | Reeconstruir_Pedigrees.py:43-45 | the best-first property of the emitted values carries over to the result records |
| `Search.NewPartitionsFirst` | Reeconstruir_Pedigrees.py:48-52 | each pedigree one inner loop pushes is the partition at the smallest position from the start position on that has its key; a later partition with that key finds the key in `seen_pedigrees` and is skipped |
| `Search.FirstFromNew` | Reeconstruir_Pedigrees.py:48-52 | a pushed partition is also the first partition met with its key among those of all emitted pedigrees, because the partitions of earlier ones have their keys in `seen_pedigrees` already |
| `Search.FirstFromLater` | Reeconstruir_Pedigrees.py:44-45 | emitting one more pedigree does not change which partition is met first with a queued pedigree's key, since that pedigree already came from an earlier one |
| `Search.CanonicalStep` | Reeconstruir_Pedigrees.py:43-52 | after one round, every emitted pedigree after the first and every queued pedigree is still the first partition met with its key |
| `Search.ExhaustedFromStates` | Reeconstruir_Pedigrees.py:43-52 | once the queue is empty and `seen_pedigrees` holds only keys of emitted pedigrees, every partition of every emitted pedigree has the key of an emitted one |
| `Search.Search` | Reeconstruir_Pedigrees.py:43-54 | the loop returns nothing when `k <= 0`, and otherwise between 1 and `k` pedigrees starting with the seed, all satisfying the results invariant; the results are best-first (`BestFirst`); every result after the first is exactly the partition that was pushed for its key, namely the first one the inner loops met with that key, taking earlier results first and smaller positions first (`FirstSources`); when fewer than `k` come out, every partition of every result has the key of some result, so the search found everything reachable |
| `Search.ExclusivePartitioning` | Reeconstruir_Pedigrees.py:29-54 | at most `k` results and none when `k <= 0`; the first is the greedy seed over the sorted candidates; every result is acyclic with one used position per edge; no two results have the same multiset of edges; every later result is complete and is a partition (a strict extension) of an earlier one; every result scores at least as much as every partition of an earlier result whose edge multiset had not been emitted before it; every result after the first equals the first partition, by earlier parent and then smaller position, among those of earlier results with its edge multiset, which is the one the loop pushed (`FirstSources`); with fewer than `k` results, every partition of every result has the sorted edge list of some result |
| `Search.PartitionValue` | Reeconstruir_Pedigrees.py:73-74 | a partition's `valor` is the sum of its edges' scores when its parent's is |
| `Graph.SumScoresPerm` | Reeconstruir_Pedigrees.py:16 | the summed `valor` depends only on the multiset of edges, so two pedigrees with the same key have the same `valor` |

## Left out

- The example data, the call and the `print` loop at Reeconstruir_Pedigrees.py:103-122, and `__str__`: demonstration I/O and string formatting.
- The internals of `heapq`: the queue is a sequence, and a pop removes some element of maximal `valor`. Which of several equal-valued pedigrees comes out first is not modelled, because it depends on the heap's layout.
- Floating-point rounding of scores: `pontuacao` and `valor` are exact reals.
- Python's recursion-depth limit in `tem_caminho`: only the reachability answer is modelled.
- Individual ids outside `0 .. n_individuos-1`: an id from `-n_individuos` to `-1` would be accepted by Python's negative indexing and mark individual `n_individuos` plus that id at `conectado[pai]`, and an id of `n_individuos` or more, or below `-n_individuos`, would raise `IndexError`. `ValidCandidates` requires every endpoint to lie in `0 .. n_individuos-1`, so the model excludes both cases.
- `Builders.BuildPartition` takes `fixo` as a natural number: its only caller passes positions from `range(ped.fixo, len(...))`, which start at 0 or above.
- The order of results: the source does not keep them in non-increasing score order, so no such property is stated. `BestFirst` states what the order does satisfy.
