# Kyoso graph: verified model

This project models the replicated scene graph of Kyoso and the algorithms that read it, and proves
what they are for. `dafny verify dfyconfig.toml` checks everything.

* **Replicated graph** (`Ids`, `Delta`, `Topology`, `TopologyStore`, `View`, `Reachability`, `Invariants`,
  `Compaction`, `IdSource`, `OpLog`, `Replica`, `BackendStore`, `Protocol`, `SnapshotSchemas`, `NodePlaces`,
  `EditsArrive`). Structural ops over tombstoned nodes and edges, with the cycle check guarding moves; the
  sequence-checked `apply_remote`; snapshots that drop tombstones; and a transition system of clients, server
  log and network in which ops are issued, drained, stamped in any order, delivered in any order any number of
  times, caught up on, published and restored. The specification is on values; the classes `GraphTopology`,
  `Backend`, `IdGen` and `InMemoryOpLog` are the in-place form and are proved equal to it method by method.
* **Subgraph matcher** (`Pattern`, `Plan`, `Search`, `Enumeration`, `Matches`, `Exactness`, `MatchSemantics`,
  `ListableMatches`, `SubgraphIterator`, `MatchIterator`, `SubgraphSearch`). The greedy planner, the search as a
  list of matches, a declarative definition of matches, the proof that both agree, and the explicit-stack
  iterator whose `next` is proved to hand out that list while committing to and undoing four structures in
  place; then how the list compares with the documented matches.
* **Sibling keys** (`OrderKeys`), **scene paths** (`ScenePaths`) and **their resolution** (`SceneResolution`).
* **Typed and opaque state** (`TypedSchemas`, `Opaque`, `Hydration`, `TargetHydration`, `SnapshotHydration`).
  Nested schemas with maps, their wire form, the server's schema-agnostic record, and hydration of typed
  documents from it.
* **Traversal** (`Bfs`, `Walks`, `PolicyWalks`, `DepthFirst`, `ShortestPaths`, `PathFinder`, `Preorder`,
  `OrderedDfs`).

## Where the code differs from its documentation

The model follows the code. Each difference is a theorem here.

* `OrderKey::between` is documented to stay within 'a' to 'z'. It leaves that alphabet exactly when
  `OrderKeys.Tight` holds (`OrderKeys.MiddleLetters`); between "a" and "aa" it gives "a`n". Among well-formed
  keys, of bytes from '`' to 'z' with a letter last, it works (`OrderKeys.BetweenFits`).
* `Backend::snapshot` is documented to hold schemas of live entities only. It holds those of every id created
  or targeted (`SnapshotSchemas.SnapshotKeys`, `RemovedNodeKeepsSchema`), and `IdSource.ResumedIdsAreFresh`
  needs that. The documentation holds exactly for the logs in which nothing that exists is removed, no edge is
  dead on arrival and properties go to entities of the log (`SnapshotSchemas.LiveOnlyIffUndisturbed`).
* `remove_node` is documented to return false for a removed node. It returns true for every id with a schema,
  which a removed node keeps (`SnapshotSchemas.RemoveAccepted`).
* A path is documented to round-trip. It does exactly when no part is the empty name with index 0 and no
  order key contains '/'. The parser itself produces such parts (`ScenePaths.ParserMakesMore`).
* `path_for` is documented to fail when an ancestor is not a `SceneNode`. It fails exactly when the entity or an
  ancestor has neither name nor key (`SceneResolution.NoPathIffNameless`, `StrangerHasAPath`); the path it gives
  resolves to the entity exactly under the condition of `SceneResolution.ResolveInvertsPath`. The index of a
  same-named sibling is cut to 16 bits, so the 65537th namesake's path leads to the first
  (`SceneResolution.NamesakeTooFar`).
* An anchor is documented to pin its slot. Only the first one does (`ListableMatches.SecondAnchorIgnored`). All
  are met on every graph exactly when no binding that passes the other checks misses a later one
  (`ListableMatches.AnchorsMetIff`), so always with at most one anchor.
* Matches are documented to bind distinct pattern edges to distinct graph edges. Parallel pattern edges can share
  one, because the join edge is not yet marked as used when constraints are checked
  (`ListableMatches.ParallelPatternEdgesShareAnEdge`); `MatchSemantics.RepeatsIffParallel` and
  `MatchSemantics.RepeatsIffJoinShared` say exactly when.
* Hydration is meant to restore typed state. With a map inside map values an entry can be lost
  (`Hydration.NestedMapsLoseEntries`); for all other schemas it is exact (`Hydration.FlatHydrates`), and for all
  schemas exactly when the document is traced (`Hydration.HydrationExact`).

## Conventions

Ids are pairs of unbounded naturals. Hash maps are maps, and a loop over one picks its elements in no
particular order; results that could depend on the order are proved not to, or are sorted as in the source.
A panic is `None` (`Panicked` for the iterator of matches). Leaf CRDTs are abstract: any state with a
deterministic effect of a delta under an op id and position. Graph views and predicates are total functions.
Where a loop over a graph needs the graph to be finite, a ghost parameter `world` names a finite set closed
under its edges; where it needs a finite tree, a ghost height does.

## Model

| member | source | states |
|---|---|---|
| Topology.ApplyKeepsAcyclic | crates/kyoso_graph_crdt/src/topology.rs:248-294 | no op, whatever ids it names, closes a loop in the visible parent relation |
| Topology.ApplyKeepsWellFormed | crates/kyoso_graph_crdt/src/topology.rs:208-294 | every op keeps the parent relation acyclic and every live edge between live nodes |
| View.WouldCreateCycle | crates/kyoso_graph_crdt/src/view.rs:82-98 | the unguarded loop ends on acyclic topologies and is true exactly when the target is the proposed parent or above it |
| View.Ancestors | crates/kyoso_graph_crdt/src/view.rs:103-118 | on any topology: a prefix of the parent chain without repetition; on an acyclic one exactly the proper ancestors, nearest first |
| View.Descendants | crates/kyoso_graph_crdt/src/view.rs:125-138 | exactly the nodes whose parent chain meets the root, each once, in whatever order the nodes are listed |
| View.Outgoing | crates/kyoso_graph_crdt/src/view.rs:189-200 | exactly the live edges that leave a node, each with its live far end |
| View.Incoming | crates/kyoso_graph_crdt/src/view.rs:201-210 | exactly the live edges that enter a node, each with its live far end |
| View.ConnectedComponent | crates/kyoso_graph_crdt/src/view.rs:142-163 | exactly the nodes connected to the start by live edges in either direction, each once |
| View.ComponentsPartition | crates/kyoso_graph_crdt/src/view.rs:142-163 | sharing a component is an equivalence on live nodes |
| Invariants.AcyclicIffChainsEnd | crates/kyoso_graph_crdt/src/invariants.rs:52-84 | the parent relation has a loop exactly when some live node's parent chain never ends |
| Invariants.LongChainEndless | crates/kyoso_graph_crdt/src/invariants.rs:56-78 | a chain of more steps than there are live nodes never ends: the step bound raises no false alarm |
| Invariants.WalkNeverEnds | crates/kyoso_graph_crdt/src/invariants.rs:57-83 | one bounded walk flags its start exactly when the chain of the start never ends |
| Invariants.CheckNoTreeCycles | crates/kyoso_graph_crdt/src/invariants.rs:52-84 | reports exactly the live nodes whose parent chain never reaches a root |
| Invariants.CheckNoOrphanEdges | crates/kyoso_graph_crdt/src/invariants.rs:87-109 | reports exactly the pairs of a live edge and an end of it that is not live |
| Invariants.CheckTopology | crates/kyoso_graph_crdt/src/invariants.rs:43-48 | on any topology: no violation exactly when the parent relation is acyclic and live edges join live nodes |
| Compaction.RestoreSnapshot | crates/kyoso_graph_crdt/src/topology.rs:296-352 | restoring a snapshot gives the topology without its tombstones |
| Compaction.SnapshotLists | crates/kyoso_graph_crdt/src/topology.rs:296-323 | a snapshot lists exactly the live nodes and edges with what the accessors read of them, ascending by peer and then by counter |
| Compaction.AccessorsIffVisible | crates/kyoso_graph_crdt/src/topology.rs:91-190 | two topologies answer every accessor alike, by id, in the listings and in the counts, exactly when they are equal without tombstones |
| Compaction.VisibleKeeps | crates/kyoso_graph_crdt/src/topology.rs:325-352 | dropping tombstones keeps what is visible and keeps the invariant |
| Compaction.SnapshotIffVisible | crates/kyoso_graph_crdt/src/topology.rs:296-323 | two topologies publish equal snapshots exactly when they are equal without tombstones |
| Compaction.StepAgrees | crates/kyoso_graph_crdt/src/topology.rs:208-294 | an op leaves two alike topologies alike exactly when it does not create a node under an id that only one of them remembers as removed |
| TopologyStore.GraphTopology.ApplyStructuralOp | crates/kyoso_graph_crdt/src/topology.rs:208-294 | the in-place op turns the maps into those of the specification and drops its own move from the tracker; what a move and an edge creation write is stated on the maps themselves |
| TopologyStore.GraphTopology.CascadeTombstones | crates/kyoso_graph_crdt/src/topology.rs:226-246 | tombstones every edge incident to the removed node and changes nothing else |
| TopologyStore.GraphTopology.RestoreState | crates/kyoso_graph_crdt/src/topology.rs:325-352 | the maps become those of the snapshot, the tracker is emptied |
| TopologyStore.GraphTopology.TrackPendingMove | crates/kyoso_graph_crdt/src/topology.rs:86-88 | records an in-flight move; the replicated maps stay as they are |
| IdSource.MintedAscend | crates/kyoso_crdt/src/id.rs:92-96 | under any interleaving of calls ids come out strictly ascending under one peer, so no two are equal |
| IdSource.ResumedIdsAreFresh | crates/kyoso_crdt/src/backend.rs:377-393 | after a restore no minted id is the id of a restored entity, tombstoned ones included |
| IdSource.IdGen.NextId | crates/kyoso_crdt/src/id.rs:122-125 | mints the next id of the shared counter and advances it by one |
| IdSource.IdGen.BumpUpTo | crates/kyoso_crdt/src/id.rs:149-154 | raises the counter to the given value, never lowers it |
| OpLog.SliceIsRange | crates/kyoso_crdt/src/log.rs:77-88 | a slice of a stamped log holds exactly the ops after the first bound up to the second, in order |
| OpLog.InMemoryOpLog.SliceOps | crates/kyoso_crdt/src/log.rs:77-88 | the slice of the stored ops |
| OpLog.InMemoryOpLog.DiffSince | crates/kyoso_crdt/src/log.rs:26-33 | the ops after a position up to the head |
| OpLog.InMemoryOpLog.Append | crates/kyoso_crdt/src/log.rs:91-96 | stamps the op with the next position and appends it |
| Replica.ReplayKeeps | crates/kyoso_crdt/src/backend.rs:291-333 | a replayed log counts its ops, is well-formed, and knows only nodes the log created |
| Replica.CompactionInvisible | crates/kyoso_crdt/src/backend.rs:361-393 | restoring the snapshot at k and applying the rest looks like full replay at every later point exactly when no op revives a node removed before k |
| Replica.CompactionInvisibleForDistinctIds | crates/kyoso_crdt/src/backend.rs:361-393 | with distinct node ids compaction is invisible: same snapshot, same accessors, same schemas |
| Replica.ReusedIdSplits | crates/kyoso_crdt/src/backend.rs:361-393 | a concrete log that re-creates a removed node's id splits a restored replica from full replay |
| SnapshotSchemas.SnapshotKeys | crates/kyoso_crdt/src/backend.rs:361-371 | for every log: the schemas of the snapshot are those of the ids the log creates and of the targets of its property ops |
| SnapshotSchemas.RemovedNodeKeepsSchema | crates/kyoso_crdt/src/backend.rs:357-371 | a concrete log after which the snapshot holds the schema of a removed node |
| SnapshotSchemas.LiveNodesStand | crates/kyoso_graph_crdt/src/topology.rs:208-246 | a node is live after a log exactly when some op created it and none removed it since |
| SnapshotSchemas.LiveEdgesStand | crates/kyoso_graph_crdt/src/topology.rs:208-270 | an edge is live after a log exactly when it was created between known nodes and since then neither it nor an end of it was removed; it then has the ends and the category of the op that made it |
| SnapshotSchemas.LiveOnlyIffStanding | crates/kyoso_crdt/src/backend.rs:357-371 | for every log: the snapshot holds schemas of live entities only exactly when all it creates or targets still stands |
| SnapshotSchemas.LiveOnlyIffUndisturbed | crates/kyoso_crdt/src/backend.rs:357-371 | with distinct ids, op by op: exactly when nothing that exists is removed, no edge is dead on arrival, and no property goes to an id that is never created |
| SnapshotSchemas.RunLiveOnlyIff | crates/kyoso_crdt/src/backend.rs:357-371 | the same for the log of every run of the system |
| SnapshotSchemas.RemoveAccepted | crates/kyoso_graph_crdt/src/graph_backend.rs:126-137 | `remove_node` is accepted exactly for ids with a schema, and agrees with its documentation exactly on those that are live or unknown |
| NodePlaces.NodePlaced | crates/kyoso_graph_crdt/src/topology.rs:271-287 | after any log a live node has the parent and the order key of the last op that moves it, and none before the first; an op moves a node that exists by then unless the new parent is it or lies below it |
| NodePlaces.LastMoveExists | crates/kyoso_graph_crdt/src/topology.rs:271-287 | of the ops that move a node one is the last |
| EditsArrive.EdgeArrives | crates/kyoso_graph_crdt/src/graph_backend.rs:168-180 | issued, drained, stamped and caught up on, an edge shows everywhere with its ends and category in their order exactly when both ends live at the head of the log |
| EditsArrive.MoveArrives | crates/kyoso_graph_crdt/src/graph_backend.rs:145-165 | so does a move: the node gets the new parent and key unless the move closes a loop at the head of the log |
| EditsArrive.PropertyArrives | crates/kyoso_graph_crdt/src/graph_backend.rs:229-240 | so does a property change: every client holds the effect of its delta on the record at the head of the log |
| Protocol.StepKeeps | crates/kyoso_crdt/src/backend.rs:253-393 | issuing, draining, stamping, delivering, catching up, publishing and rejoining each keep ids apart and every client in step with its prefix of the log |
| Protocol.RunKeeps | crates/kyoso_crdt/src/backend.rs:253-393 | the system invariant holds after every run from the start |
| Protocol.Convergence | crates/kyoso_crdt/src/backend.rs:291-333 | in every run every client shows what replaying its prefix of the log shows, so clients at one position show the same |
| Protocol.CatchUpReachesHead | crates/kyoso_crdt/src/log.rs:26-33 | after any run a catch-up diff brings a client to what the whole log shows: its position, its topology, and the properties of every node and followed entity |
| Protocol.FollowerShows | crates/kyoso_graph_crdt/src/graph_backend.rs:305-330 | a client in step publishes the snapshot of the replay and reads every node's properties like it |
| BackendStore.Backend.ApplyOp | crates/kyoso_crdt/src/backend.rs:291-333 | `apply_remote` in place: refused with the expected and the given position, ignored or applied |
| BackendStore.Backend.TakeSnapshot | crates/kyoso_crdt/src/backend.rs:361-371 | the snapshot of the current state, schemas of tombstoned entities included |
| BackendStore.Backend.RestoreFrom | crates/kyoso_crdt/src/backend.rs:377-393 | the state becomes that of the snapshot and the id counter passes the peer's own ids in it; pending ops stay |
| BackendStore.Backend.QueueOp | crates/kyoso_crdt/src/backend.rs:253-266 | mints an id and queues an unstamped op, leaving the confirmed state alone |
| BackendStore.Backend.DrainPending | crates/kyoso_crdt/src/backend.rs:269-271 | hands out all pending ops in order and empties the queue |
| BackendStore.Backend.AddNode | crates/kyoso_graph_crdt/src/graph_backend.rs:119-124 | queues a creation and writes the default schema of the new id ahead of the echo |
| BackendStore.Backend.RemoveNode | crates/kyoso_graph_crdt/src/graph_backend.rs:129-137 | queues a removal exactly when the node is live or has a schema |
| BackendStore.Backend.MutateNode | crates/kyoso_graph_crdt/src/graph_backend.rs:197-226 | queues the wire form of a mutation exactly when the target has a schema, and leaves the confirmed state alone |
| BackendStore.Backend.MoveNode | crates/kyoso_graph_crdt/src/graph_backend.rs:145-165 | queues and tracks the move exactly when the node is not on the parent chain of the proposed parent in the confirmed tree |
| BackendStore.Backend.AddRefEdge | crates/kyoso_graph_crdt/src/graph_backend.rs:168-180 | queues the creation of an edge of the given category from the first node to the second |
| BackendStore.Backend.RemoveEdge | crates/kyoso_graph_crdt/src/graph_backend.rs:187-195 | queues a removal exactly when the edge is live |
| BackendStore.Backend.SetNodeProperty | crates/kyoso_graph_crdt/src/graph_backend.rs:229-240 | queues a last-writer-wins replacement of one field |
| BackendStore.Backend.SetEdgeProperty | crates/kyoso_graph_crdt/src/graph_backend.rs:242-253 | queues a last-writer-wins replacement of one field of an edge |
| Pattern.PickFirst | crates/kyoso_graph/src/pattern.rs:273-279 | the first anchored slot if there is one, else the last slot of the highest degree |
| Pattern.PickNext | crates/kyoso_graph/src/pattern.rs:285-312 | the first unplaced slot that no other beats in joins to placed slots, then in degree |
| Pattern.ComputeOrder | crates/kyoso_graph/src/pattern.rs:260-316 | a slot order in which every choice is the greedy one |
| Pattern.DegreeCounts | crates/kyoso_graph/src/pattern.rs:266-273 | the degree of a slot is the number of pattern edges at it |
| Pattern.JoinsCount | crates/kyoso_graph/src/pattern.rs:289-296 | the joins of a slot are the pattern edges between it and placed slots |
| Plan.GreedyPickTouches | crates/kyoso_graph/src/pattern.rs:283-316 | in a pattern in one piece every greedy choice shares an edge with an earlier slot |
| Plan.CollectLinks | crates/kyoso_graph/src/pattern.rs:344-355 | the pattern edges between a slot and earlier slots, in edge order |
| Plan.FrontJoinsEarliest | crates/kyoso_graph/src/pattern.rs:357-360 | the link sorted to the front has the earliest placed anchor, and among those the lowest edge |
| Plan.PlanMeansOnePiece | crates/kyoso_graph/src/pattern.rs:326-397 | only a pattern in one piece has a plan in which every later step is joined |
| Plan.ComputePlan | crates/kyoso_graph/src/pattern.rs:260-397 | succeeds exactly for non-empty patterns in one piece; the plan permutes the slots, joins every later step to an earlier slot in the right direction, and binds every pattern edge once, at its later end |
| Plan.SelfLoopNeverBound | crates/kyoso_graph/src/pattern.rs:344-355 | a loop on one slot is bound by no step, so the finished match has no edge for it |
| Search.EdgeBoundOnce | crates/kyoso_graph/src/subgraph.rs:204-244 | a plan binds each pattern edge in exactly one step, that of its later end |
| Search.CommitBinds | crates/kyoso_graph/src/subgraph.rs:217-244 | a commit binds exactly the slot and edges of its step and keeps the used sets equal to what is bound |
| Enumeration.FoundIff | crates/kyoso_graph/src/subgraph.rs:262-306 | a match is found through a candidate list exactly when its own candidate is listed and admitted and it passes all later steps |
| Enumeration.BelowDistinct | crates/kyoso_graph/src/subgraph.rs:262-306 | with duplicate-free adjacency lists no match is found twice |
| SubgraphIterator.UndoCommit | crates/kyoso_graph/src/subgraph.rs:146-164 | undoing a commit restores all four structures to what they were before it |
| SubgraphIterator.StackBinds | crates/kyoso_graph/src/subgraph.rs:146-306 | a stack over a plan binds exactly the steps below its top, and the top's own once it has committed |
| SubgraphIterator.TopUnbound | crates/kyoso_graph/src/subgraph.rs:146-164 | unbinding the top frame keeps the stack consistent and loses no match |
| SubgraphIterator.TopCommitted | crates/kyoso_graph/src/subgraph.rs:262-306 | committing a candidate splits the matches to come into those below it and those after it, and lowers the work left |
| SubgraphIterator.TopPushed | crates/kyoso_graph/src/subgraph.rs:297-305 | a new frame for the next step stands for all matches below the current binding |
| MatchIterator.SubgraphMatches.constructor | crates/kyoso_graph/src/subgraph.rs:89-114 | a fresh iterator has the whole list of matches still to come |
| MatchIterator.SubgraphMatches.MakeStepIter | crates/kyoso_graph/src/subgraph.rs:116-144 | the anchor, all nodes, or the neighbours of the bound end in the join's direction |
| MatchIterator.SubgraphMatches.UnbindTop | crates/kyoso_graph/src/subgraph.rs:146-164 | in place: the four structures again hold exactly the commits on the stack |
| MatchIterator.SubgraphMatches.CloseCycles | crates/kyoso_graph/src/subgraph.rs:204-226 | the closing edges of a step, or none if one is missing, used, repeated or refused |
| MatchIterator.SubgraphMatches.TryCommit | crates/kyoso_graph/src/subgraph.rs:168-245 | commits an admissible candidate to all four structures, or changes nothing at all |
| MatchIterator.SubgraphMatches.CurrentMatch | crates/kyoso_graph/src/subgraph.rs:247-257 | the match read off the two arrays, or a panic exactly when an entry is not bound |
| MatchIterator.SubgraphMatches.Next | crates/kyoso_graph/src/subgraph.rs:262-306 | hands out the matches one by one in order, then ends, and always terminates; with a loop in the pattern it panics where it has found the rest |
| Matches.CheckedIff | crates/kyoso_graph/src/subgraph.rs:204-226 | the constraint loop succeeds with given edges exactly when each is the first listed one, unused, not repeated and accepted |
| Matches.FoundIffStepsSat | crates/kyoso_graph/src/subgraph.rs:262-306 | the search lists a match exactly when the match satisfies every step on its own |
| Exactness.SearchExact | crates/kyoso_graph/src/subgraph.rs:116-306 | on any consistent graph and for any pattern: the list holds exactly the embeddings of all but the loops at the first anchor whose closing edges are first listed and distinct within a step |
| MatchSemantics.SearchFindsFirstListed | crates/kyoso_graph/src/subgraph.rs:14-22 | on any consistent graph: the documented matches whose closing edges are first listed are exactly the listed ones that repeat no edge and meet all anchors |
| MatchSemantics.SearchFindsExactlyTheMatches | crates/kyoso_graph/src/subgraph.rs:14-22 | on a simple graph: each documented match is listed once, what else is listed repeats an edge or misses an anchor, and nothing else is if the pattern has no parallel edges and at most one anchor |
| MatchSemantics.RepeatsIffParallel | crates/kyoso_graph/src/subgraph.rs:18-20 | on a simple graph a listed match binds two pattern edges to one graph edge exactly when the pattern has parallel edges |
| MatchSemantics.RepeatsIffJoinShared | crates/kyoso_graph/src/subgraph.rs:186-226 | on any consistent graph it does exactly when the join edge of some step is the first listed edge of a constraint parallel to the join |
| MatchSemantics.LoopsUnchecked | crates/kyoso_graph/src/subgraph.rs:197-226 | on a simple graph a pattern with loops and no parallel edges gets as far as a match exactly when the rest of it embeds at the first anchor |
| ListableMatches.ListableIff | crates/kyoso_graph/src/subgraph.rs:116-306 | some graph makes the search list a binding exactly when its nodes are distinct, it passes all predicates and the first anchor, only parallel pattern edges share a graph edge, and no step has parallel constraints |
| ListableMatches.AnchorsMetIff | crates/kyoso_graph/src/pattern.rs:187-192 | all anchors are met on every graph exactly when no such binding misses a later anchor |
| ListableMatches.ParallelPatternEdgesShareAnEdge | crates/kyoso_graph/src/subgraph.rs:186-195 | a concrete pattern with parallel edges is matched with one graph edge bound twice |
| ListableMatches.SecondAnchorIgnored | crates/kyoso_graph/src/subgraph.rs:119-124 | a concrete pattern with two anchors is matched with the second anchor violated |
| SubgraphSearch.ListedPass | crates/kyoso_graph/src/subgraph.rs:177-219 | whatever is listed passes the predicate of each slot and of each pattern edge that has one |
| SubgraphSearch.CollectMatches | crates/kyoso_graph/src/traverse.rs:159-171 | planner, iterator and collection together, for any pattern: when it panics, and how what it finds compares with the documented matches |
| OrderKeys.LessIsLexicographic | crates/kyoso_graph/src/tree.rs:47-55 | one key is below another exactly when at the place where they part it has ended or has the lower byte |
| OrderKeys.BelowKeyBelow | crates/kyoso_graph/src/tree.rs:96-110 | `before` panics exactly on keys without a byte above 'a'; otherwise the result is smaller, no longer, and well-formed if the key is |
| OrderKeys.Before | crates/kyoso_graph/src/tree.rs:96-110 | the loop computes the specified key below, or none where it panics |
| OrderKeys.MiddleAbove | crates/kyoso_graph/src/tree.rs:112-130 | the midpoint of any two keys is above the lower one |
| OrderKeys.MiddleBelow | crates/kyoso_graph/src/tree.rs:112-130 | the midpoint is below the upper key exactly when that is not the lower one continued with nothing a letter could go under |
| OrderKeys.MiddleLength | crates/kyoso_graph/src/tree.rs:112-130 | the midpoint is at most one byte longer than the longer key |
| OrderKeys.MiddleWellFormed | crates/kyoso_graph/src/tree.rs:112-130 | the midpoint of keys over the byte below 'a' and the letters ends in a letter |
| OrderKeys.MiddleLetters | crates/kyoso_graph/src/tree.rs:84-94 | the documented alphabet is left exactly when the keys are tight, for all letter keys |
| OrderKeys.Midpoint | crates/kyoso_graph/src/tree.rs:112-130 | the loop computes the specified midpoint |
| OrderKeys.Between | crates/kyoso_graph/src/tree.rs:87-94 | the four cases of `between` |
| OrderKeys.BetweenFits | crates/kyoso_graph/src/tree.rs:87-130 | between well-formed neighbours: a well-formed key strictly between, at most one byte longer, except below a key of bytes up to 'a' |
| OrderKeys.BetweenLeavesTheAlphabet | crates/kyoso_graph/src/tree.rs:84-86 | between "a" and "aa" the result is not over the documented alphabet |
| OrderKeys.BetweenNeedsWellFormedKeys | crates/kyoso_graph/src/tree.rs:112-130 | for a key that ends below 'a' the result can be above both neighbours |
| OrderKeys.InsertKeepsSiblings | crates/kyoso_graph/src/tree.rs:47-55 | inserting a sibling keeps strict order without renumbering; only the very front can be exhausted |
| OrderKeys.InsertAllKeepsSiblings | crates/kyoso_graph/src/tree.rs:47-55 | any run of insertions at any places keeps the siblings in strict order |
| OrderKeys.FrontRunsOut | crates/kyoso_graph/src/tree.rs:106-109 | however often a sibling is inserted in front there are never more than five: all further insertions panic |
| ScenePaths.SplitUnescaped | apps/kyoso_agent/src/handle.rs:350-377 | the loop computes the specified segments or error |
| ScenePaths.SplitAtUnescapedHash | apps/kyoso_agent/src/handle.rs:324-345 | the loop computes the specified cut or error |
| ScenePaths.Unescape | apps/kyoso_agent/src/handle.rs:381-395 | the loop computes the specified text or error |
| ScenePaths.SplitPassesEscaped | apps/kyoso_agent/src/handle.rs:350-377 | escaped text goes through the splitter as part of one segment |
| ScenePaths.UnescapeInvertsEscape | apps/kyoso_agent/src/handle.rs:128-137 | unescaping escaped text gives the text back, whatever it contains |
| ScenePaths.ParseIndexInvertsDecimal | apps/kyoso_agent/src/handle.rs:314-317 | the parser of an index reads every printed 16-bit index back |
| ScenePaths.PartRoundTrip | apps/kyoso_agent/src/handle.rs:289-320 | every part but the empty name with index 0 parses back from its printed form, and only that one prints as nothing |
| ScenePaths.NamePrints | apps/kyoso_agent/src/handle.rs:90-128 | a name prints as itself exactly without the five special characters, each of which gets a backslash; an index other than 0 follows a '#' |
| ScenePaths.KeyPrints | apps/kyoso_agent/src/handle.rs:120-125 | a key prints as itself in brackets exactly without a closing bracket or backslash |
| ScenePaths.KeyEscapes | apps/kyoso_agent/src/handle.rs:120-137 | each of those two gets a backslash |
| ScenePaths.PathPrints | apps/kyoso_agent/src/handle.rs:228-239 | the root prints as a slash, and every part of another path follows a slash |
| ScenePaths.IndexIsNumber | apps/kyoso_agent/src/handle.rs:314-317 | an index is read exactly from decimal digits, after one plus sign at most, that make a number of 16 bits |
| ScenePaths.UnescapeFailsIff | apps/kyoso_agent/src/handle.rs:381-395 | unescaping fails exactly on text that ends right after an unescaped backslash |
| ScenePaths.PartFails | apps/kyoso_agent/src/handle.rs:289-305 | a segment is refused as empty, or as a malformed key, exactly when it is one |
| ScenePaths.SlashMissingIff | apps/kyoso_agent/src/handle.rs:270-287 | a path is refused for its first character exactly when it has one that is no slash |
| ScenePaths.DocumentedErrors | apps/kyoso_agent/src/handle.rs:242-255 | a concrete text for each documented error |
| ScenePaths.SplitCounts | apps/kyoso_agent/src/handle.rs:350-377 | a successful split has one segment more than there are unescaped delimiters |
| ScenePaths.RoundTrip | apps/kyoso_agent/src/handle.rs:228-287 | parsing the printed form gives the path back exactly when no part is the empty name with index 0 and no order key holds a slash |
| ScenePaths.PrintInjective | apps/kyoso_agent/src/handle.rs:228-239 | different well-formed paths print differently |
| ScenePaths.ParserMakesMore | apps/kyoso_agent/src/handle.rs:289-320 | the parser accepts text for parts that do not print back |
| SceneResolution.DisplayNameIs | apps/kyoso_agent/src/handle.rs:695-708 | the display name is a frame name that is not empty, or else a text content that is not |
| SceneResolution.IndexMeansEarlierSiblings | apps/kyoso_agent/src/handle.rs:732-756 | of two same-named siblings the lower place is that of the one without a key, with the lower key, or with an equal key and the lower entity |
| SceneResolution.NamedFinds | apps/kyoso_agent/src/handle.rs:758-779 | a name with an index finds exactly the child of that name which so many of its namesakes come before |
| SceneResolution.OrderedFinds | apps/kyoso_agent/src/handle.rs:781-790 | a key finds exactly the first child with it |
| SceneResolution.PartCountsNamesakes | apps/kyoso_agent/src/handle.rs:716-756 | the part of a named child holds its name and the number of namesakes before it, in 16 bits |
| SceneResolution.StepFaithful | apps/kyoso_agent/src/handle.rs:716-790 | the part made for a child finds that child again exactly when the child is a scene node, its index fits 16 bits, or it is the first with its key |
| SceneResolution.ComputePath | apps/kyoso_agent/src/handle.rs:649-667 | the two loops compute the parts along the ancestors, or none if one has neither name nor key |
| SceneResolution.NoPathIffNameless | apps/kyoso_agent/src/handle.rs:644-667 | there is no path exactly when the entity or an ancestor has neither name nor key, scene node or not |
| SceneResolution.StrangerHasAPath | apps/kyoso_agent/src/handle.rs:644-667 | a concrete scene in which an entity below a named ancestor that is no scene node has a path that leads nowhere |
| SceneResolution.PartFindsCutPlace | apps/kyoso_agent/src/handle.rs:732-776 | the part of a child at some place among its namesakes finds the one at the place that is left in 16 bits |
| SceneResolution.NamesakeTooFar | apps/kyoso_agent/src/handle.rs:732-776 | the part of the 65537th namesake finds the first |
| SceneResolution.ResolvePath | apps/kyoso_agent/src/handle.rs:606-619 | the loop computes the entity the parts lead to |
| SceneResolution.ResolveInvertsPath | apps/kyoso_agent/src/handle.rs:606-667 | the path made for an entity resolves to it exactly when every step of the way is faithful |
| SceneResolution.PrintedPathLeadsBack | apps/kyoso_agent/src/handle.rs:606-667 | in a scene of scene nodes with telling order keys and at most 65536 namesakes the path resolves to its entity, and its text parses back exactly when no key in use holds a slash |
| TypedSchemas.WireFormApplies | crates/kyoso_crdt_derive/src/lib.rs:101-209 | at every nesting depth the wire form of a delta does what the typed delta does, without error |
| TypedSchemas.AcceptedIsTyped | crates/kyoso_crdt_derive/src/lib.rs:131-160 | a wire delta that is accepted does what some well-kinded typed delta does |
| TypedSchemas.RefusedFor | crates/kyoso_crdt_derive/src/lib.rs:131-160 | which error a delta meets: a leaf of another kind, an unknown field, or a path that leads to no leaf |
| TypedSchemas.InstallRefusedFor | crates/kyoso_crdt_derive/src/lib.rs:161-189 | the same for the installation of a state |
| TypedSchemas.PutIsNoRemove | crates/kyoso_crdt/src/types/causal_map.rs:167-188 | the wire form of a put never reads as the removal of its key |
| TypedSchemas.ApplyShaped | crates/kyoso_crdt/src/types/causal_map.rs:107-118 | typed application keeps the shape of the schema |
| TypedSchemas.InstallShaped | crates/kyoso_crdt_derive/src/lib.rs:163-189 | installation keeps the shape of the schema, also when it fails |
| Opaque.WireMakes | crates/kyoso_crdt/src/opaque.rs:177-295 | the kind of field each wire form makes where there is none |
| Opaque.FamilyDecides | crates/kyoso_crdt/src/opaque.rs:177-295 | after a delta has succeeded at a path another succeeds there exactly when it is of the same family, keeping the kind; else it is refused and changes nothing |
| Opaque.PutsLeadDown | crates/kyoso_crdt/src/opaque.rs:250-258 | a put acts as its inner delta one segment further down |
| Opaque.OpaqueRecord.ApplyWire | crates/kyoso_crdt/src/opaque.rs:177-295 | in place: a field of a kind that takes the delta is made or changed at the path, any other is refused, a map removal drops exactly the subtree of its key; nothing else changes |
| Opaque.OpaqueRecord.Join | crates/kyoso_crdt/src/opaque.rs:128-138 | in place: field by field, in any order; a field of another kind keeps the left value |
| Opaque.OpaqueRecord.InstallState | crates/kyoso_crdt/src/opaque.rs:297-303 | replaces the field at the path |
| Opaque.StartsWithIsPrefix | crates/kyoso_crdt/src/opaque.rs:306-311 | the prefix test is true exactly of prefixes |
| Opaque.SubApplied | crates/kyoso_crdt/src/opaque.rs:177-295 | a delta below one segment acts on that part of the record alone, as on a record of its own |
| Opaque.JoinCommutesIff | crates/kyoso_crdt/src/opaque.rs:79-103 | records join alike in both orders exactly when they agree on the kinds of shared fields |
| Hydration.DeltaKeepsStep | crates/kyoso_crdt/src/opaque.rs:177-295 | typed application on the client and wire application on the server stay in step, with no error |
| Hydration.InStepUnique | crates/kyoso_crdt/src/opaque.rs:297-303 | a record determines the document all of whose map entries have a leaf in it |
| Hydration.InstallKeepsStep | crates/kyoso_crdt_derive/src/lib.rs:163-189 | installing one more field keeps the document in step with the fields installed so far |
| Hydration.HydrationExact | crates/kyoso_graph_sync/src/plugin.rs:366-411 | for every schema, run and order: installing the replayed record gives the typed replay exactly when every map entry of that has a leaf in the record |
| Hydration.FlatHydrates | crates/kyoso_graph_sync/src/plugin.rs:366-411 | for schemas without maps inside map values hydration gives the typed replay, whatever the run and the order |
| Hydration.NestedMapsLoseEntries | crates/kyoso_crdt/src/types/causal_map.rs:107-118 | for every schema with a map inside map values one delta exists after which hydration loses a map entry |
| TargetHydration.SchemaPartsApart | crates/kyoso_graph_sync/src/plugin.rs:395-397 | the part of the record below a schema name is the replay of that schema's changes alone |
| TargetHydration.HydrateTarget | crates/kyoso_graph_sync/src/plugin.rs:385-410 | for any record and order each registered schema gets the document its own fields make, and none without fields; where all of them route it is in step with them and loses nothing |
| TargetHydration.HydratedTarget | crates/kyoso_graph_sync/src/plugin.rs:385-410 | from the server's record of a target: the document of typed replay, exactly under the same condition |
| SnapshotHydration.ServerRecords | crates/kyoso_crdt/src/backend.rs:307-319 | the server's record of an entity is the replay of the property ops on it |
| SnapshotHydration.HydrateFromSnapshot | crates/kyoso_graph_sync/src/plugin.rs:366-411 | from op log through snapshot and hydration: every registered schema gets the document of its typed changes if it is flat, and else exactly when that document is traced |
| Bfs.SearchSteps | crates/kyoso_graph/src/traverse.rs:485-498 | taking one node from the queue keeps levels in order, distances true to walks, and what is near found |
| Bfs.TakenNearest | crates/kyoso_graph/src/traverse.rs:485-498 | a node handed out stands at its true shortest distance, however far the search has come |
| Bfs.SearchFinishes | crates/kyoso_graph/src/traverse.rs:485-498 | a finished search has found exactly the reachable nodes within the limit, each once, nearest first |
| Bfs.DiscoveredInOrder | crates/kyoso_graph/src/traverse.rs:485-498 | the neighbours of a node are discovered in the order of its list, each at its first place there |
| Walks.BfsIterWithDepth.Next | crates/kyoso_graph/src/traverse.rs:485-498 | hands out the nodes in the order of discovery and queues the undiscovered neighbours |
| Walks.CollectBfs | crates/kyoso_graph/src/traverse.rs:463-498 | each reachable node once, at its true distance, in non-decreasing order |
| ShortestPaths.BfsPath | crates/kyoso_graph/src/algo.rs:41-65 | a shortest path along edges, or none exactly when the goal is unreachable |
| ShortestPaths.UndirectedComponent | crates/kyoso_graph/src/algo.rs:83-96 | exactly what is connected to the start in either direction |
| ShortestPaths.AffectedSubgraph | crates/kyoso_graph/src/algo.rs:130-152 | exactly the ball of the given radius, or the connected component when no limit is given, each node once |
| ShortestPaths.BoundedBfs | apps/kyoso_agent/src/navigate.rs:166-192 | exactly the ball of the given radius without its centre; radius 1 when none is given |
| PolicyWalks.BfsWalk.Next | crates/kyoso_graph/src/traverse.rs:744-765 | yields the next node that is not pruned, and halts exactly at a stop, after which it yields nothing |
| PolicyWalks.CollectBfsWalk | crates/kyoso_graph/src/traverse.rs:704-765 | under a policy by entity that never stops: exactly the nodes reachable through visited nodes that are not pruned, each once |
| DepthFirst.TopExplored | crates/kyoso_graph/src/traverse.rs:874-911 | taking a new top off the stack and pushing its unvisited neighbours visits it and leaves the rest of recursive depth-first search |
| DepthFirst.ExploresAll | crates/kyoso_graph/src/traverse.rs:852-911 | recursive search under a policy by entity visits exactly what the policy lets it reach, each once |
| DepthFirst.DfsWalk.Next | crates/kyoso_graph/src/traverse.rs:888-911 | yields the node that recursive depth-first search yields next, with its depth and parent; after a stop nothing |
| DepthFirst.CollectDfsWalk | crates/kyoso_graph/src/traverse.rs:852-911 | a whole walk is recursive depth-first search; under a policy by entity that never stops it yields the same set as the breadth-first walk |
| PathFinder.Finder.Recurse | crates/kyoso_graph/src/algo.rs:210-236 | appends exactly the paths that go on from the shared buffer and leaves the buffer as it was |
| PathFinder.FoundPaths | crates/kyoso_graph/src/algo.rs:192-236 | exactly the simple directed paths of the requested length that pass the predicate, each once if no edges are parallel |
| PathFinder.FindPathsMatching | crates/kyoso_graph/src/algo.rs:192-208 | nothing for length 0 or a refused start, else those paths |
| Preorder.ChildrenInKeyOrder | crates/kyoso_graph/src/tree.rs:200-215 | exactly the children with a key, no key after a greater one |
| Preorder.EqualKeysStay | crates/kyoso_graph/src/tree.rs:200-215 | children with equal keys stay in child order |
| Preorder.WalkDfsWithDepth | crates/kyoso_graph/src/tree.rs:291-302 | the stack loop is recursive preorder over the key-sorted children, with depths |
| Preorder.PreorderVisits | crates/kyoso_graph/src/tree.rs:291-302 | preorder visits exactly what lies below, at its distance from the root |
| Preorder.PreorderDistinct | crates/kyoso_graph/src/tree.rs:291-302 | in a forest preorder visits nothing twice |
| OrderedDfs.FilterIdle | crates/kyoso_graph/src/traverse.rs:681-696 | pushing children that were visited already changes nothing |
| OrderedDfs.OrderedDfsIter.Next | crates/kyoso_graph/src/traverse.rs:681-696 | on any finite graph: yields what recursive depth-first search with the first child first visits next |
| OrderedDfs.ForestWhole | crates/kyoso_graph/src/traverse.rs:660-696 | on a forest that search is preorder |
| OrderedDfs.CollectOrderedDfs | crates/kyoso_graph/src/traverse.rs:660-696 | a whole run is that search, and on a forest preorder |

## Left out

- IdSource.IdGen.SetPeer: no property of ids minted before and after a change of peer, because the server hands out peers and is not part of this model.
- IdSource.MintedAscend: does not model the overflow of 64-bit counters.
- OrderKeys.Between: non-ASCII keys are not modelled; the source works on their UTF-8 bytes and may panic.
- SubgraphSearch.CollectMatches: on a graph with parallel edges the panic of a pattern with loops is stated through the list of matches (`CollectAll`), because which edges are looked up first then depends on the plan.
- MatchIterator.SubgraphMatches.constructor: the plan of the empty pattern is excluded, because the planner already panics on it.
- MatchIterator.SubgraphMatches.MakeStepIter: candidate lists are read at once rather than lazily; the borrowed graph cannot change in between.
- PolicyWalks.CollectBfsWalk: policies that look at depth or parent, or keep state between calls, get no statement about the set; after a stop the walk only yields nothing more.
- TypedSchemas.ApplyTyped: documents are values; the source updates fields of the document in place through the same recursion.
- BackendStore.Backend.MutateNode: takes the wire form of the mutation as given, because what a leaf makes of a mutation, sub-dots included, is not modelled.
- `mutate_schema_with_context`: the call for schemas outside the graph backend, which applies a change locally before the echo.
- The leaf CRDTs (registers, sets, counters, sequences, move trees): abstract, with decoding of stored bytes taken as faithful.
- Encoding and decoding of leaf values, postcard, serde, Bevy entities and queries, networking, the database and the user interface.
- `cross_check_cycle_detection`: a self-test that compares the cycle check with a walk.
- Message texts of invariant violations and errors, beyond the ids and kinds they name.
- Cost hints of iterators and of the matcher: estimates that are not upper bounds.
- `BfsIter`, `DfsIter`, `DfsIterWithDepth`, `OrderedBfsIter` and the edge-aware iterators: the same loops without depth, or in the other order.
- `upstream_nodes`, `downstream_nodes`, `same_component` and the neighbour batches of `algo.rs`: filters over the searches modelled here.
- `make_order_key`, node references with cached entities, and kind filters of navigation.
