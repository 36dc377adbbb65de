# WCC superstep kernel on one fragment

This project models the per-fragment kernel of the Weakly-Connected-Components
vertex program of the GraphScope Java demo (`WCC.java`). That kernel is
min-label propagation over one graph fragment.

- **State.** The context holds `comp_id`, one unsigned 64-bit label per local
  vertex. Inner (owned) vertices are `[0, innerNum)` and outer (ghost) vertices
  follow them. The context also holds the two "modified" bitsets
  `currModified` and `nextModified`.
- **`PEval`.** It seeds every label with the vertex's global id and then runs
  one pull round.
- **`IncEval`.** It clears `nextModified` and applies the received labels,
  marking in `currModified` each vertex they lower. It then picks pull or push
  by the rate of `currModified` against the inner vertex count.
- **Shared tail.** Both handlers signal continuation when an inner vertex is
  set in `nextModified`, and then copy `nextModified` into `currModified`.

The model has these parts:

- `bitset.dfy` (module `Bitset`) views the bitsets as `seq<bool>`. It defines
  `Cardinality` and `PartialEmpty`.
- `propagation.dfy` (module `Propagation`) holds the pure specification of the
  pull, push and receive rounds and of the message lists, with their lemmas.
- `rounds.dfy` (module `Rounds`) covers whole superstep handlers as functions
  (`PEvalRound`, `IncEvalRound`) and the properties of a round.
- `wcc.dfy` (module `Wcc`) has the class `WccContext`. Its fields are the
  `comp_id` array and the two bitset arrays. Its methods update them in place
  with loops, and each is proved equal to the specification functions above.

Modelling choices:

- **Labels.** Labels are integers in `[0, 2^64)`. On that range
  `Long.compareUnsigned` is the ordinary order.
- **Schedule.** The vertex loops run on a thread pool in the source. Here they
  run sequentially in index order: inner vertices first, then outer ones. So
  in a pull round, a vertex reads the new labels of the vertices before it and
  the old labels of the rest. This is one schedule the source allows.
  `compareAndSetMinUnsigned` follows a strict "greater than" test. With one
  writer at a time it behaves as a plain assignment of the smaller value.
- **Messages.** The message manager is replaced by values:
  - `IncEval` takes an inbox of `(local vertex, label)` messages.
  - Each handler returns an outbox of the messages sent by the outer vertices,
    in vertex order.
- **Strategy test.** The test `(double) cardinality / innerVerticesNum > 0.1`
  is modelled on exact rationals rather than doubles:
  - For `innerNum > 0` it is `10 * card > innerNum`. This equivalence is
    proved against the real-number quotient. The double test agrees with it
    while the count is below 2^53 and `innerNum` below about 8·10^15 (see
    "## Left out").
  - For `innerNum == 0`, the double division gives NaN when the count is zero
    (the comparison fails, so push is taken). It gives +Infinity when the count
    is positive (pull is taken). The model follows the code in both cases; it
    does not treat `innerNum == 0` as always taking push.
  - The count is over the whole `currModified` bitset, outer vertices
    included, as `getBitSet().cardinality()` counts it.
- **`PEval` and `nextModified`.** `PEval` does not clear `nextModified`, so its
  specification takes the prior bits as an input. The constructor leaves them
  empty.

## Model

| member | source | states |
|---|---|---|
| Bitset.Cardinality | analytical_engine/java/grape-demo/src/main/java/com/alibaba/graphscope/example/wcc/WCC.java:191 | the population count is at most the bitset size, and it is zero exactly when no bit is set |
| Bitset.CardinalityCountsTrue | analytical_engine/java/grape-demo/src/main/java/com/alibaba/graphscope/example/wcc/WCC.java:191 | the population count equals the number of `true` entries of the bitset |
| Bitset.PartialEmpty | analytical_engine/java/grape-demo/src/main/java/com/alibaba/graphscope/example/wcc/WCC.java:198 | `partialEmpty(lo, hi)` holds exactly when no bit in `[lo, hi)` is set |
| Propagation.NbrMin | analytical_engine/java/grape-demo/src/main/java/com/alibaba/graphscope/example/wcc/WCC.java:94-102 | the `newCid` accumulator after the incoming-neighbour scan is at most the vertex's own label and at most every neighbour's label |
| Propagation.NbrMinAttained | analytical_engine/java/grape-demo/src/main/java/com/alibaba/graphscope/example/wcc/WCC.java:97-102 | the scanned minimum is either the starting label or the label of one of the neighbours |
| Propagation.PullAt | analytical_engine/java/grape-demo/src/main/java/com/alibaba/graphscope/example/wcc/WCC.java:92-107 | definition: one vertex's pull step. It computes `NbrMin` of the current labels over the incoming neighbours, starting from the vertex's own label, and writes it only if strictly smaller; the result has the same size |
| Propagation.PullPrefix | analytical_engine/java/grape-demo/src/main/java/com/alibaba/graphscope/example/wcc/WCC.java:132-133 | definition: the pull steps of vertices `0 .. k-1` applied in index order, each reading the labels its predecessors left; the result has the same size |
| Propagation.Pull | analytical_engine/java/grape-demo/src/main/java/com/alibaba/graphscope/example/wcc/WCC.java:132-133 | definition: a whole pull round, the `outgoing` pass over the inner vertices followed by the `incoming` pass over the outer vertices, i.e. `PullPrefix` over all local vertices |
| Propagation.PullAtVertex | analytical_engine/java/grape-demo/src/main/java/com/alibaba/graphscope/example/wcc/WCC.java:92-107 | after a pull round, each vertex's label is the minimum of its old label and its incoming neighbours' labels, as read in index order |
| Propagation.PullLowers | analytical_engine/java/grape-demo/src/main/java/com/alibaba/graphscope/example/wcc/WCC.java:99-105 | a pull round never raises a label, and leaves every label at most each incoming neighbour's old label |
| Propagation.PullDrawsFrom | analytical_engine/java/grape-demo/src/main/java/com/alibaba/graphscope/example/wcc/WCC.java:99-104 | every label written by pull is a label some vertex held before the round |
| Propagation.PullFixpoint | analytical_engine/java/grape-demo/src/main/java/com/alibaba/graphscope/example/wcc/WCC.java:92-133 | a pull round changes no label, and so marks nothing, if and only if every label is at most each incoming neighbour's label |
| Propagation.PullStableUnchanged | analytical_engine/java/grape-demo/src/main/java/com/alibaba/graphscope/example/wcc/WCC.java:103-106 | if every label is at most each incoming neighbour's label, then the write guard fails for every vertex |
| Propagation.MsgsFor | analytical_engine/java/grape-demo/src/main/java/com/alibaba/graphscope/example/wcc/WCC.java:70-80 | definition: the messages from the vertices of `[lo, hi)` whose bit is set, in index order, each carrying that vertex's current label; empty for an empty range and at most one per vertex of the range |
| Propagation.MsgsForSound | analytical_engine/java/grape-demo/src/main/java/com/alibaba/graphscope/example/wcc/WCC.java:108-131 | every emitted message is for a vertex of the range whose bit is set, and carries that vertex's label; targets strictly ascend, so no vertex sends twice |
| Propagation.MsgsForComplete | analytical_engine/java/grape-demo/src/main/java/com/alibaba/graphscope/example/wcc/WCC.java:120-130 | every vertex of the range whose bit is set sends a message |
| Propagation.MsgsForNone | analytical_engine/java/grape-demo/src/main/java/com/alibaba/graphscope/example/wcc/WCC.java:70-80 | no bit set in the range means no message |
| Propagation.PushNbrs | analytical_engine/java/grape-demo/src/main/java/com/alibaba/graphscope/example/wcc/WCC.java:55-61 | definition: the source label `cid` pushed along the outgoing neighbour list in order; each neighbour whose label is greater than `cid` is set to `cid` |
| Propagation.PushPrefix | analytical_engine/java/grape-demo/src/main/java/com/alibaba/graphscope/example/wcc/WCC.java:63 | definition: the pushes of the inner vertices `0 .. k-1` that are set in `currModified`, in index order; each source pushes the label it holds when its turn comes |
| Propagation.Push | analytical_engine/java/grape-demo/src/main/java/com/alibaba/graphscope/example/wcc/WCC.java:63 | definition: a whole push round, `PushPrefix` over the inner vertices |
| Propagation.PushNbrsAt | analytical_engine/java/grape-demo/src/main/java/com/alibaba/graphscope/example/wcc/WCC.java:55-61 | after a source pushes `cid`, each listed neighbour holds the smaller of its label and `cid`, and every other vertex is untouched |
| Propagation.PushPrefixLowers | analytical_engine/java/grape-demo/src/main/java/com/alibaba/graphscope/example/wcc/WCC.java:57-58 | later push states are pointwise no greater than earlier ones, so push never raises a label |
| Propagation.PushSourceBound | analytical_engine/java/grape-demo/src/main/java/com/alibaba/graphscope/example/wcc/WCC.java:51-63 | for an active inner source, a neighbour above the source's label is lowered to it; after the round every outgoing neighbour is at most that label, and no label rose |
| Propagation.PushIdle | analytical_engine/java/grape-demo/src/main/java/com/alibaba/graphscope/example/wcc/WCC.java:63 | a push round with no active inner vertex changes no label |
| Propagation.PushOnlySources | analytical_engine/java/grape-demo/src/main/java/com/alibaba/graphscope/example/wcc/WCC.java:51-63 | only active inner vertices act as sources: after the pushes, a vertex either keeps its label or is an outgoing neighbour of some inner vertex set in `currModified`, and then holds the label that source had when it acted |
| Propagation.PushDrawsFrom | analytical_engine/java/grape-demo/src/main/java/com/alibaba/graphscope/example/wcc/WCC.java:57-58 | every label written by push is a label some vertex held before the round |
| Propagation.ReceiveAll | analytical_engine/java/grape-demo/src/main/java/com/alibaba/graphscope/example/wcc/WCC.java:175-189 | definition: the inbox messages applied in order; a message whose label is below the target vertex's label replaces it |
| Propagation.ReceiveAt | analytical_engine/java/grape-demo/src/main/java/com/alibaba/graphscope/example/wcc/WCC.java:175-181 | after receiving, each label is the minimum of its old value and the labels of the messages addressed to it |
| Propagation.ReceiveLowers | analytical_engine/java/grape-demo/src/main/java/com/alibaba/graphscope/example/wcc/WCC.java:177-178 | receiving never raises a label, and every label is an old label or a received one |
| Propagation.ReceiveOrderFree | analytical_engine/java/grape-demo/src/main/java/com/alibaba/graphscope/example/wcc/WCC.java:183-189 | two inboxes with the same messages in any order leave the same labels |
| Rounds.UsePull | analytical_engine/java/grape-demo/src/main/java/com/alibaba/graphscope/example/wcc/WCC.java:191-192 | pull is chosen exactly when the real rate `card / innerNum` exceeds one tenth; with `innerNum == 0` exactly when the count is positive |
| Rounds.RateComparison | analytical_engine/java/grape-demo/src/main/java/com/alibaba/graphscope/example/wcc/WCC.java:191-192 | for positive `innerNum`, `card / innerNum > 0.1` is equivalent to `10 * card > innerNum` |
| Rounds.Seeded | analytical_engine/java/grape-demo/src/main/java/com/alibaba/graphscope/example/wcc/WCC.java:146-155 | definition: the labels after the seeding loops, which are the global ids of the local vertices |
| Rounds.Finish | analytical_engine/java/grape-demo/src/main/java/com/alibaba/graphscope/example/wcc/WCC.java:198-201 | definition: the tail shared by both handlers. The state is the labels after the strategy round, with both bitsets equal to `nextModified`. Continuation is signalled iff an inner vertex is set in `nextModified`. The outbox comes from the outer vertices whose label dropped |
| Rounds.PEvalRound | analytical_engine/java/grape-demo/src/main/java/com/alibaba/graphscope/example/wcc/WCC.java:136-163 | definition: the outcome of `PEval`, which is a pull round on the seeded labels, with its drops added to the prior `nextModified`, then `Finish` |
| Rounds.IncEvalRound | analytical_engine/java/grape-demo/src/main/java/com/alibaba/graphscope/example/wcc/WCC.java:165-202 | definition: the outcome of `IncEval`. The inbox is applied and the lowered vertices are added to `currModified`. Pull runs if `UsePull` holds for its cardinality, push otherwise, starting from an empty `nextModified`. Then `Finish` |
| Rounds.PEvalBookkeeping | analytical_engine/java/grape-demo/src/main/java/com/alibaba/graphscope/example/wcc/WCC.java:157-162 | after `PEval`, continuation is signalled iff some inner vertex was already marked or its label dropped below its global id, and exactly the outer vertices whose label dropped below their global id send their new label |
| Rounds.PEvalSeeds | analytical_engine/java/grape-demo/src/main/java/com/alibaba/graphscope/example/wcc/WCC.java:146-157 | after `PEval`, every label is at most the vertex's own global id and each incoming neighbour's id, and is some vertex's global id; a vertex is marked iff it was marked already or its label dropped below its id |
| Rounds.IncEvalBookkeeping | analytical_engine/java/grape-demo/src/main/java/com/alibaba/graphscope/example/wcc/WCC.java:173-201 | after `IncEval`, a vertex is marked iff the strategy round dropped its label, continuation is signalled iff some inner label dropped, and exactly the outer vertices whose label dropped send their new label |
| Rounds.IncEvalLowers | analytical_engine/java/grape-demo/src/main/java/com/alibaba/graphscope/example/wcc/WCC.java:175-196 | `IncEval` never raises a label, and every label it leaves is an old label or a received one |
| Rounds.IncEvalQuiescent | analytical_engine/java/grape-demo/src/main/java/com/alibaba/graphscope/example/wcc/WCC.java:173-201 | with nothing marked and an empty inbox, `IncEval` chooses push, changes no label, marks nothing, sends nothing and does not continue |
| Rounds.IncEvalPullFixpoint | analytical_engine/java/grape-demo/src/main/java/com/alibaba/graphscope/example/wcc/WCC.java:191-201 | when pull is chosen and the inbox is empty, the round changes nothing, marks nothing, sends nothing and stops if and only if every label is at most each incoming neighbour's label |
| Wcc.WccContext.constructor | analytical_engine/java/grape-demo/src/main/java/com/alibaba/graphscope/example/wcc/WCC.java:141 | the context the handlers cast to: a label array and two distinct bitset arrays sized to the fragment, both bitsets empty |
| Wcc.WccContext.PullVertex | analytical_engine/java/grape-demo/src/main/java/com/alibaba/graphscope/example/wcc/WCC.java:92-107 | one vertex's pull step: the label becomes the neighbour minimum if that is strictly smaller, and the vertex is marked exactly then; nothing else changes |
| Wcc.WccContext.PullInner | analytical_engine/java/grape-demo/src/main/java/com/alibaba/graphscope/example/wcc/WCC.java:132 | the inner pass equals the pull steps of the inner vertices in order; outer labels are untouched, and marks are the old marks plus the dropped vertices |
| Wcc.WccContext.PullOuterVertex | analytical_engine/java/grape-demo/src/main/java/com/alibaba/graphscope/example/wcc/WCC.java:108-131 | one outer vertex's pull step, which appends its message exactly when its label dropped |
| Wcc.WccContext.PullOuter | analytical_engine/java/grape-demo/src/main/java/com/alibaba/graphscope/example/wcc/WCC.java:133 | the outer pass completes the pull round; its messages are exactly those of the outer vertices whose label dropped, with their new labels |
| Wcc.WccContext.PropagateLabelPull | analytical_engine/java/grape-demo/src/main/java/com/alibaba/graphscope/example/wcc/WCC.java:85-134 | the labels become the pull round of the old labels, `nextModified` gains exactly the dropped vertices, and the outbox holds the dropped outer vertices with their new labels |
| Wcc.WccContext.PushVertex | analytical_engine/java/grape-demo/src/main/java/com/alibaba/graphscope/example/wcc/WCC.java:51-62 | one source's push: the labels become the source label pushed along its outgoing neighbours; labels never rise and marks stay "old mark or dropped" |
| Wcc.WccContext.PropagateLabelPush | analytical_engine/java/grape-demo/src/main/java/com/alibaba/graphscope/example/wcc/WCC.java:44-83 | the labels become the push round of the active inner vertices, `nextModified` gains exactly the dropped vertices, and every outer vertex set in `nextModified` sends its final label |
| Wcc.WccContext.Receive | analytical_engine/java/grape-demo/src/main/java/com/alibaba/graphscope/example/wcc/WCC.java:175-189 | the labels become the inbox applied as minima, and `currModified` gains exactly the lowered vertices |
| Wcc.WccContext.FinishRound | analytical_engine/java/grape-demo/src/main/java/com/alibaba/graphscope/example/wcc/WCC.java:198-201 | continuation is signalled iff an inner vertex is set in `nextModified`, and `currModified` becomes equal to `nextModified` |
| Wcc.WccContext.Seed | analytical_engine/java/grape-demo/src/main/java/com/alibaba/graphscope/example/wcc/WCC.java:146-155 | every inner and outer vertex's label becomes its global id |
| Wcc.WccContext.PEval | analytical_engine/java/grape-demo/src/main/java/com/alibaba/graphscope/example/wcc/WCC.java:136-163 | the new state (labels, both bitsets), the continue signal and the outbox are those of `PEvalRound`, whose properties `PEvalSeeds` and `PEvalBookkeeping` prove |
| Wcc.WccContext.IncEval | analytical_engine/java/grape-demo/src/main/java/com/alibaba/graphscope/example/wcc/WCC.java:165-202 | the new state, the continue signal and the outbox are those of `IncEvalRound`, whose properties the `IncEval…` lemmas prove |

## Left out

- `PageRank.java` is not part of this model. Its substance is floating-point rank arithmetic and a global reduction.
- Concurrency is not modelled. This covers the thread pool, the chunking of `forEachVertex`, `ctx.executor` and the atomicity of `compareAndSetMinUnsigned`. Vertex loops run sequentially in index order, and CAS-min is a min assignment. Interleavings where threads read stale labels are therefore not covered.
- Message transport is replaced by an inbox and outbox of `(local vertex, label)` pairs. This covers `initChannels`, `syncStateOnOuterVertex`, `parallelProcess` and the `Unused` type markers. Mapping an outer vertex to its owner and delivering across workers are not modelled.
- Wcc.WccContext.PropagateLabelPush: the push sender boxes the label as a `DoubleMsg` (`WCC.java:72`), while the receiver reads a `LongMsg`. The model carries the exact label instead. It does not capture the precision lost above 2^53, or how a double payload is decoded as a long, because decoding the payload belongs to the message manager, which this model replaces by an inbox.
- Wcc.WccContext.Receive: the model requires every inbox message to target a valid local vertex. The source gets this from the message manager.
- Convergence across workers is not modelled: labels reaching the minimum global id of each component depends on the distributed driver. Only single-fragment superstep contracts are proved.
- Logging, the FFI type factory and the fragment's storage are left out. The global ids and the adjacency lists are given as input sequences. This includes the gid lookups `getInnerVertexGid` and `getOuterVertexGid`.
- `WCCContext.java` is not part of this model. The constructor `Wcc.WccContext.constructor` allocates the label array and two empty bitsets sized to the fragment. It models no initial label values, thread count or executor.
- `ForceContinue` is modelled as the returned `cont` flag.
- Rounds.UsePull: compares the exact quotient `card / innerNum` with one tenth. The source rounds the quotient to a double and compares it with the double `0.1`, which is slightly above one tenth. So when `10 * card` exceeds `innerNum` by a tiny relative margin, the source can still take push. That needs `innerNum` of about 8·10^15 or more, or a count of 2^53 or more. Floating-point rounding is not modelled.
- The model uses the fragment's inner vertex count `frag.innerNum` in three places. It stands for `ctx.innerVerticesNum` in the rate test (`WCC.java:191`); this assumes the context field equals the fragment's count, which is set in `WCCContext.java`, outside the scope of this model. It also stands for `(int) frag.getInnerVerticesNum()` in the continuation tests (`WCC.java:159`, `WCC.java:198`); this assumes the count is below 2^31, so the `int` cast does not truncate.
