# Memplex: a verified model of its replication, authorization and maintenance cores

This project models the parts of Memplex in which a small amount of code carries a large promise, and proves
those promises for all inputs and all runs:

- **Peer mesh** (`VersionVectors`, `MeshObjects`, `Utf8`, `MerkleTree`, `RfcSplit`, `Reconciliation`,
  `ConflictTable`, `Convergence`, `Losses`, `SuffixCollisions`, `PullsInTurn`, `PeerMeshTransport`): version
  vectors, the object Merkle tree, the per-object conflict table, the state transformer that applies a plan, the
  gossip loop over failing peers, and the narrow exchange from a manifest.
- **Lineage authorization** (`Lineage`, `SnapshotAuthorization`, `AuthorizationGate`): what it means for a derived
  record to be visible (a least fixed point over a possibly cyclic source graph), the iterative evaluator with its
  memo, the gate's own decision, and the stamping of derived records.
- **Smaller cores**: offline consolidation (`Clustering`, `Consolidation`, `SecondPass`) and what the
  authorization gate makes of it (`ForgottenSources`), bounded context assembly (`ContextAssembly`), the request
  metrics (`OperationsMetrics`), fact maintenance (`ImproveFacts`), NDCG (`Ranking`) and the ROUGE-L dynamic
  program (`CommonSubsequence`).

`dafny verify dfyconfig.toml` checks everything. Specifications are functions on values; the loops and the objects
that change state are methods and classes proved against them; the promises are lemmas about the functions.

## How the code is represented

- Text of the peer mesh is held as its UTF-8 bytes, one `char` per byte, so lexicographic order is the order of
  `sorted`; which byte strings are texts is decided by section 4 of RFC 3629 (`Utf8`). Payloads are any bytes.
  Everywhere else a `char` is a code point; context assembly counts these when it estimates tokens.
- Hashes are free terms: leaf, inner node and empty hash are three constructors, so nothing collides by
  construction. The eight digits that a union id appends are a function parameter of width 8 that *may* collide,
  because eight digits can.
- Dictionaries whose order matters are sequences; where a loop runs over a dictionary or set in an order that must
  not matter, the model takes an arbitrary order and the result is proved independent of it.
- Times are integers in microseconds. Divisions and logarithms are exact: Jaccard similarity is a fraction, NDCG is
  over `real` with an arbitrary increasing logarithm, the 95th percentile is the exact nearest rank.
- A replica is *consistent* if every object is stored under its own id and no object supersedes itself, and
  *well-formed* if moreover counts are not negative; every step is proved to keep both. The closed form of a pull and
  the gossip loop are modelled for any replicas and any answers.
- A function that both the code's model and its specification call is also characterized by a lemma that does not
  mention it: by names, literals, counts of records or positions.
- `hide` statements only keep definitions away from proofs that do not need them.

## Where the code and its documentation differ

The model follows the code; each difference is a lemma. The names in parentheses give the condition under which
the code does what the documentation says and, where it can fail, for most an example.

- `dominates` misses part of the documented order: a vector that only adds new replicas to a non-empty one does
  not dominate it (`DominatesVersusDocumented`), so not every bump dominates (`BumpDominates`,
  `NewReplicaIsMissed`).
- Merge commutes exactly if no entry that just one of the vectors has is negative (`MergeCommutes`,
  `NegativeEntryDoesNotCommute`); counts are read from the wire without a sign check.
- Leaves do not cover the vector or the supersession edge (`LeafIgnoresCausality`), so "identical object sets"
  holds up to those two.
- The tree duplicates an odd last node, which is not the split of section 2.1 of RFC 6962: the roots agree exactly
  if there are no leaves or a power of two of them (`AgreesWithStandardExactlyWhen`, `ThreeLeavesDiffer`). Roots
  identify the contents of all replicas drawn from a stock of objects exactly if the leaves tell these objects
  apart (`RootsIdentifyContentsExactlyWhen`); repeated leaves would defeat it (`RepeatedLeavesCollide`). Which
  leaves are ambiguous is known exactly (`AmbiguousExactlyWhen`, `NameAmbiguousExactlyWhen`, and `NulInIdCollides`
  as an example): it takes a NUL byte in an id or a kind, on one side at least. Since ids and kinds are texts, a
  payload can only be read as the end of a kind up to where it is one (`BytesThatAreNoText`).
- On consistent replicas the table never answers `SUPERSEDED` (`NeverSuperseded`). A live fact that names itself
  does get this answer, and makes an exception from idempotence, the only one (`PullIsIdempotent`,
  `RepeatedTurnIsIdempotent`, `SelfSupersessionIsNotIdempotent`).
- What is counted as a change need not be one: `UnchangedButCounted`. A pull changes nothing exactly under the
  condition of `PullIsIdentityExactlyWhen`.
- "Deletes win over concurrent presence" fails for a live immutable capture that is deleted remotely, and only
  there (`DeletesWin`, `DeletedCaptureStaysAlive`).
- "Neither side is lost" holds for a capture exactly if its union id is free or the side that prevails there holds
  it already (`CaptureKeptExactlyWhen`), and its payload survives anywhere exactly under the condition of
  `PayloadSurvivesExactlyWhen`; a suffix collision is enough to lose it (`CollidingSuffixLoses`).
- Mutual exchanges settle exactly if the chain of union ids that each suffix collision leads to runs into a known
  id (`ExchangesSettleExactlyWhen`). Without collisions two exchanges are enough (`TwoExchangesReachFixedPoint`);
  with a free chain every exchange registers a longer union id (`RunawayNeverSettles`). Pulls in turn always
  settle, whatever the suffixes (`PullsInTurnSettle`).
- The gate and the strict evaluator agree on a record exactly unless the lookup has another one under its id,
  passing and without sources, that its sources rest on (`GateAgreesExactlyWhen`, `StandInHidesCycle`).
- A promoted row survives a consolidation pass exactly if it has not expired, because what is forgotten is decided
  before anything is stamped (`RowSurvivesExactlyWhen`, `PromotedAndEvicted`). The gate takes a dropped row for a
  revoked source, so a promotion is visible for ever or never: exactly if none of its rows had expired when it was
  made (`VisibleForeverOrNever`, `HiddenFromEveryone`, `PromotedAndHidden`). A second pass at the same time is
  idle when expiry takes whole clusters (`SecondPassIsIdle`), and not always otherwise (`ExpiryFeedsASecondPass`):
  then its own gate decides, on what is left over (`SecondPassGate`).
- Fact maintenance lists at most 100000 facts. The whole store is left with one valid fact per slot exactly if no
  valid fact past the limit shares its slot with a live listed fact or with an earlier one past the limit
  (`OnePerSlotExactlyWhen`, `UnlistedFactStaysValid`).
- NDCG is documented as lying between 0 and 1. With a graded relevance function it does exactly when no unexpected
  item is more relevant than an expected one (`NormalizedExactlyWhenMembershipRanks`, `MisrankedPair`).
- Join and split of source references undo each other exactly for comma-free ids (`BoundIdsAreReadBack`).

## Model

| member | source | states |
|---|---|---|
| VersionVectors.DecideDominates | memplex/peer_mesh.py:63-71 | the flag loop with its early exit, in any order of the entries, decides dominance: nothing listed in the other vector is newer, and something is older or the other one is empty |
| VersionVectors.MergeInto | memplex/peer_mesh.py:76-80 | the entry-by-entry merge yields the pointwise maximum over the union of the replicas, in any order |
| VersionVectors.MergeLeastUpperBound | memplex/peer_mesh.py:76-80 | merge is an upper bound of both vectors and below every other one |
| VersionVectors.MergeAbsorbs | memplex/peer_mesh.py:76-80 | merging is idempotent, and absorbing the same vector twice is absorbing it once |
| VersionVectors.MergeCommutes | memplex/peer_mesh.py:76-80 | merge commutes if and only if no entry that just one vector has is negative |
| VersionVectors.NegativeEntryDoesNotCommute | memplex/peer_mesh.py:76-80 | a vector with a negative entry and the empty one merge differently from either side |
| VersionVectors.MergeAssociates | memplex/peer_mesh.py:76-80 | merge is associative on non-negative counts |
| VersionVectors.DominatesVersusDocumented | memplex/peer_mesh.py:48-71 | dominance implies the documented causal order, and misses exactly the vectors that only add replicas to a non-empty vector |
| VersionVectors.DominatesIsStrictPartialOrder | memplex/peer_mesh.py:63-74 | dominance is irreflexive, asymmetric and transitive |
| VersionVectors.BumpDominates | memplex/peer_mesh.py:58-71 | a bump dominates its origin if and only if the replica was listed already or nothing was |
| VersionVectors.BumpCounts | memplex/peer_mesh.py:58-61 | a bump adds one to the count of its replica, starting from nothing if it was not listed, and touches no other |
| VersionVectors.NewReplicaIsMissed | memplex/peer_mesh.py:58-71 | the first edit of a second replica is documented as newer but does not dominate |
| VersionVectors.DominatingMerge | memplex/peer_mesh.py:63-80 | merging a dominated vector into the dominating one changes nothing |
| VersionVectors.AbsorbedNeverDominates | memplex/peer_mesh.py:63-80 | no vector dominates one that has absorbed it |
| TextOrder.LessExactlyWhen | memplex/peer_mesh.py:123-123 | the order of sorted ids: a proper prefix comes first, otherwise the first difference decides |
| MerkleTree.LeafBytes | memplex/peer_mesh.py:136-146 | the hashed bytes are id, 0, kind, 0, 1 or 0 for the tombstone, payload |
| MerkleTree.LeafIdentifiesContent | memplex/peer_mesh.py:136-146 | leaf hashes are equal if and only if id, kind, tombstone and payload are, when ids and kinds have no NUL byte |
| MerkleTree.NameAmbiguousExactlyWhen | memplex/peer_mesh.py:136-146 | another object with the same tombstone and payload has the same leaf if and only if id or kind has a NUL byte |
| MerkleTree.AmbiguousExactlyWhen | memplex/peer_mesh.py:136-146 | any other object whose id and kind are texts has the same leaf if and only if id or kind has a NUL byte, or tombstone byte and payload begin with a text and a NUL byte that can be read as the end of a longer kind |
| MerkleTree.BytesThatAreNoText | memplex/peer_mesh.py:136-146 | an example of a payload with NUL bytes that no kind can take over, because what precedes them is not UTF-8 |
| MerkleTree.LeavesOfOneId | memplex/peer_mesh.py:136-146 | under one id, leaves are equal if and only if contents are, when the kinds are equal or have no NUL byte |
| MerkleTree.NulInIdCollides | memplex/peer_mesh.py:136-146 | an example of two objects that share a leaf |
| MerkleTree.RootInjective | memplex/peer_mesh.py:121-134 | two levels of one height without repeated nodes, of any sizes, have equal roots only if they are equal, although odd nodes are duplicated |
| MerkleTree.RepeatedLeavesCollide | memplex/peer_mesh.py:127-134 | with a repeated leaf two different levels share a root |
| RfcSplit.AgreesWithStandardExactlyWhen | memplex/peer_mesh.py:124-134 | the root is the one of section 2.1 of RFC 6962 if and only if there are no leaves or a power of two of them |
| RfcSplit.ThreeLeavesDiffer | memplex/peer_mesh.py:127-134 | an example: over three leaves the two trees are different |
| MerkleTree.EqualRootsMeanEqualContents | memplex/peer_mesh.py:164-171 | equal roots if and only if equal ids with equal kind, tombstone and payload, for replicas whose leaves tell their objects apart |
| MerkleTree.NulFreeLeavesTellApart | memplex/peer_mesh.py:136-146 | ids and kinds without NUL bytes on both sides are enough for that |
| MerkleTree.RootsIdentifyContentsExactlyWhen | memplex/peer_mesh.py:164-171 | roots identify the contents of all replicas drawn from a stock of objects if and only if leaves tell the objects of the stock apart |
| MerkleTree.LeafMapOfReplica | memplex/peer_mesh.py:121-125 | the leaves of a tree depend on the replica only, not on the order in which its objects are listed |
| MerkleTree.HashLeaves | memplex/peer_mesh.py:122-122 | the loop hashes every object, later ones replacing earlier ones with the same id |
| MerkleTree.LastObjectCounts | memplex/peer_mesh.py:122-122 | the leaf under an id is that of the last object listed with it |
| MerkleTree.BuildLevels | memplex/peer_mesh.py:124-134 | the while loop builds a tower of paired levels on the given hashes, ending in at most one node |
| MerkleTree.ObjectMerkleTree.constructor | memplex/peer_mesh.py:121-134 | the tree is valid and has the leaves of the given objects |
| MerkleTree.ObjectMerkleTree.RootHash | memplex/peer_mesh.py:148-152 | the root of the sorted leaves, the empty hash for no leaves |
| MerkleTree.ObjectMerkleTree.DivergentIds | memplex/peer_mesh.py:154-161 | exactly the ids whose leaves differ or are on one side only, sorted |
| Reconciliation.ResolveOne | memplex/peer_mesh.py:185-207 | the branches decide the conflict table |
| Reconciliation.Reconcile | memplex/peer_mesh.py:174-208 | the plan lists every id of either side once, in sorted order, with its resolution |
| Reconciliation.ReconciledKeepsWellKeyed | memplex/peer_mesh.py:215-306 | reconciling keeps every object under its own id, whatever the other side holds |
| Reconciliation.NeverSuperseded | memplex/peer_mesh.py:204-212 | supersession decides nothing on consistent replicas |
| Reconciliation.ApplyPlan | memplex/peer_mesh.py:226-306 | the loop applies the plan's items one after the other to a copy of the local state |
| Reconciliation.ApplyItemAt | memplex/peer_mesh.py:227-304 | one item changes its own id as the closed form says, registers at most one new union id, and leaves everything else alone |
| Reconciliation.ApplyingAPlanIsPull | memplex/peer_mesh.py:215-306 | applying a plan gives the closed form of a pull, whatever order the plan is in and whatever union ids clash, for any replicas that keep objects under their own ids |
| Reconciliation.ReconciledIsPull | memplex/peer_mesh.py:174-306 | reconciling and applying the sorted plan is a pull, supersession included |
| ConflictTable.OneSidedIsKept | memplex/peer_mesh.py:186-192 | an id of one side alone holds that side's object after a pull |
| ConflictTable.NewerPrevails | memplex/peer_mesh.py:194-197 | a dominating local object is untouched, a dominating remote one arrives whole, with the join of both vectors |
| ConflictTable.ConcurrentPair | memplex/peer_mesh.py:198-207 | what a pull leaves of a concurrent pair, by kind name, tombstones and supersession edges: whose data, deleted or not, and the join of both vectors |
| ConflictTable.NothingElseAppears | memplex/peer_mesh.py:239-255 | any other id after a pull is a known id of two concurrent captures that differ, a tilde, and the digits of the remote payload |
| Reconciliation.ReconciledExtends | memplex/peer_mesh.py:215-306 | for any counts and edges, no local id disappears and no entry of its vector is lowered |
| Reconciliation.PullKeepsConsistent | memplex/peer_mesh.py:215-306 | a pull keeps objects under their own ids and free of self-supersession |
| Reconciliation.PullKeepsWellFormed | memplex/peer_mesh.py:215-306 | a pull keeps replicas well-formed, and positive counts positive |
| Reconciliation.PulledPair | memplex/peer_mesh.py:227-281 | an id known to both sides keeps one side's data, and a vector that has lost nothing of the local one |
| Convergence.PairIdempotent | memplex/peer_mesh.py:174-306 | pulling an object a second time leaves it as the first pull made it, for all vectors, if and only if the first did not fetch a live fact that names itself as its successor (except from an empty vector over negative counts) |
| Convergence.NothingLeftToMint | memplex/peer_mesh.py:239-255 | a second pull from the same remote state registers no further union id |
| Convergence.PullIsIdempotent | memplex/peer_mesh.py:174-306 | pulling twice is pulling once, union ids included, for all replicas, if and only if no such fact is fetched |
| Convergence.PullIsIdentityExactlyWhen | memplex/peer_mesh.py:174-306 | a pull changes nothing if and only if the remote side has no new id, dominates and supersedes nowhere, and is absorbed wherever a union or a deletion is resolved |
| Convergence.PlansMirror | memplex/peer_mesh.py:184-208 | the two plans of an exchange mirror each other |
| Convergence.ExchangeConverges | memplex/peer_mesh.py:184-208 | one exchange makes every settled id (one side newer or alone, exactly one side deleted, or exactly one of two facts superseded) the same object on both sides, and leaves every other known id as different as it was |
| Convergence.DoubleDeletionsAgree | memplex/peer_mesh.py:266-281 | an id deleted on both sides stays deleted on both, with one vector |
| Convergence.DifferencesAfterExchange | memplex/peer_mesh.py:154-161 | what differs after one exchange is exactly the unsettled ids that differed before and the freshly registered union ids |
| Convergence.MintedAfterExchange | memplex/peer_mesh.py:239-255 | a further union id is registered after an exchange if and only if it continues a runaway suffix collision |
| Convergence.TwoExchangesReachFixedPoint | memplex/peer_mesh.py:174-306 | two exchanges reach a fixed point, the second one registering nothing, if and only if no suffix collision runs away |
| Convergence.RemainingDifferences | memplex/peer_mesh.py:154-161 | what still differs at that fixed point is exactly the unsettled ids that differed from the start and the union ids both sides registered for different captures |
| SuffixCollisions.RunawayNeverSettles | memplex/peer_mesh.py:243-255 | if no union id of its chain is known, a suffix collision registers a longer union id in every later exchange, without end |
| SuffixCollisions.ExchangesSettleExactlyWhen | memplex/peer_mesh.py:174-306 | some number of exchanges reaches a fixed point if and only if no suffix collision has a free chain |
| SuffixCollisions.BlockedChainsSettle | memplex/peer_mesh.py:243-255 | if every collision's chain meets a known id within n steps, n + 2 exchanges reach a fixed point |
| PullsInTurn.DifferencesInTurn | memplex/peer_mesh.py:154-161 | when one side pulls after the other, what differs afterwards is exactly the ids that stay unsettled and differed before, and the union ids the second side registers; unions and double deletions settle too if the merged vector dominates |
| PullsInTurn.CapturesKeptInTurn | memplex/peer_mesh.py:239-265 | pulling in turn leaves both captures of a union on both sides, although the second side may give up its own place |
| PullsInTurn.PullsInTurnSettle | memplex/peer_mesh.py:174-306 | when one side pulls, then the other, then the first again, neither has anything left to take, whatever the suffixes |
| Losses.PullKeepsEverything | memplex/peer_mesh.py:215-306 | no local id disappears and no vector goes backwards |
| Losses.PullLosesNothing | memplex/peer_mesh.py:239-265 | every id of both sides is there, both captures of a union are there, a newly registered one with its kind and vector and live, vectors only grow, and well-formedness and the premises on union ids are kept |
| Losses.RegisteredCapture | memplex/peer_mesh.py:243-255 | the remote one of two concurrent captures that differ is found under its free union id with its own kind, payload and vector, live and without an edge |
| Losses.CaptureKeptExactlyWhen | memplex/peer_mesh.py:239-255 | the remote capture of a union is found at its union id if and only if that id was free, or the side that prevails there already holds the capture |
| Losses.PayloadSurvivesExactlyWhen | memplex/peer_mesh.py:215-306 | a payload is held somewhere after a pull if and only if it prevails under a known id, or is a concurrent immutable capture with a free union id |
| Losses.OccupiedUnionIdLoses | memplex/peer_mesh.py:243-255 | if the union id of a capture is taken locally and nothing else carries it, the pull drops the capture |
| Losses.CollidingSuffixLoses | memplex/peer_mesh.py:243-255 | two payloads with one suffix give well-formed replicas between which a capture is lost |
| Losses.TombstoneLiftedOnlyByDominatingRemote | memplex/peer_mesh.py:191-206 | a local deletion is undone if and only if a live remote object dominates it |
| Losses.DeletesWin | memplex/peer_mesh.py:198-206 | of a concurrent pair the pulled object is deleted just when either was, if and only if it is not a remote deletion of a live immutable capture, nor a supersession |
| Losses.DeletedCaptureStaysAlive | memplex/peer_mesh.py:198-203 | an observation deleted remotely at the same time stays alive |
| Convergence.NarrowPullHasSameContents | memplex/peer_mesh.py:184-208 | pulling only what differs leaves the same contents as pulling everything, if and only if no object held with the same content on both sides is superseded |
| Convergence.PullOfSameContents | memplex/peer_mesh.py:164-171 | between replicas with equal contents a pull changes vectors only, under the same condition |
| PeerMeshTransport.NoChangesMeansIdentity | memplex/peer_mesh_transport.py:154-167 | a plan that counts no change leaves the local state exactly as it is, so not committing it is right |
| PeerMeshTransport.EqualRootsSkipNothing | memplex/peer_mesh_transport.py:128-131 | where leaves tell objects apart, the equal-root shortcut skips only a reconciliation that would change no content, if and only if it would supersede nothing; on consistent replicas it never would |
| PeerMeshTransport.TurnsKeepEverything | memplex/peer_mesh_transport.py:109-175 | through a whole pass, with any failures and whatever the peers send, no id disappears and no entry of a vector goes backwards |
| PeerMeshTransport.TurnsKeepWellFormed | memplex/peer_mesh_transport.py:109-175 | with well-formed answers the state stays well-formed through a pass, and vectors grow over all replicas |
| PeerMeshTransport.TurnsLoseNoCapture | memplex/peer_mesh_transport.py:109-175 | in every turn of a pass nothing is lost, and a capture that a union registered is still there when the pass is over, under its union id and with a vector that has not lost anything of its own |
| PeerMeshTransport.RepeatedTurnIsIdempotent | memplex/peer_mesh_transport.py:120-174 | a peer that answers twice in the same way, with whatever records, changes the local state only once, if and only if the first turn fetches no live fact that names itself, or leads to the root that the peer claims |
| PeerMeshTransport.SelfSupersessionIsNotIdempotent | memplex/peer_mesh_transport.py:120-174 | an example: such a fact is fetched by the first turn and deleted by the same answer in the second |
| PeerMeshTransport.CountChanges | memplex/peer_mesh_transport.py:154-164 | the number reported as changed is the number of ids resolved in one of the four ways that are applied to the local state |
| PeerMeshTransport.UnchangedButCounted | memplex/peer_mesh_transport.py:154-164 | an observation that both sides hold identically is counted as a change, although the pull is the identity |
| PeerMeshTransport.NothingCountedExactlyWhen | memplex/peer_mesh_transport.py:154-164 | no change is counted if and only if everything the peer has is known, and each such object is older than the local one or concurrent with it, live on both sides, no capture, and no fact that names the other side's id |
| PeerMeshTransport.EachPeerIsReported | memplex/peer_mesh_transport.py:109-175 | after a pass, the entry of each peer by what it answered: an error and nothing remembered, convergence, or the divergent ids by leaf with their resolutions; only a reconciliation has touched the local state |
| PeerMeshTransport.LastRecordCounts | memplex/peer_mesh_transport.py:141-144 | the object under an id is that of the last record sent with it |
| PeerMeshTransport.TakeTurn | memplex/peer_mesh_transport.py:120-174 | one peer's turn, whatever it sends, is failure, shortcut or reconciliation, and reports which; without reported changes the local state is the same |
| PeerMeshTransport.Exchange | memplex/peer_mesh_transport.py:145-174 | the second tier applies the reconciliation plan, and reports the divergent ids with their resolutions |
| PeerMeshTransport.PeerMeshService.GossipOnce | memplex/peer_mesh_transport.py:109-175 | the committed store, the summary and the remembered outcomes are those of the peers' turns in order, whichever requests failed and whatever was sent |
| PeerMeshTransport.DivergentIdsFromManifest | memplex/peer_mesh_transport.py:220-246 | what to fetch and what to send, each exactly and in sorted order |
| PeerMeshTransport.ManifestSplitsDivergentIds | memplex/peer_mesh_transport.py:220-246 | fetch and send ids are disjoint and together are the divergent ids |
| PeerMeshTransport.NarrowExchangeRefinesFull | memplex/peer_mesh_transport.py:207-217 | where kinds under one id agree or have no NUL byte, reconciling against the fetched objects only gives the contents of reconciling against all of them, if and only if an id `*` turns the request into a wildcard or nothing held with the same content on both sides is superseded; on consistent replicas nothing is |
| PeerMeshTransport.DivergentIdsAreDifferences | memplex/peer_mesh.py:154-161 | where kinds under one id agree or have no NUL byte, the ids a diff reports are exactly those whose contents differ |
| Lineage.AllowedIsFixedPoint | memplex/authorization.py:578-640 | allowed means: found, own checks pass, and every declared source is allowed |
| Lineage.AllowedIsLeast | memplex/authorization.py:578-640 | every set closed under that rule, finite or not, contains the allowed ids |
| Lineage.CycleIsNotAllowed | memplex/authorization.py:624-625 | nothing on a cycle of sources is allowed |
| Lineage.TransitiveSourcesAllowed | memplex/authorization.py:430-440 | a visible record's transitive sources are all visible |
| Lineage.RevocationNeverReveals | memplex/authorization.py:364-382 | if nothing was granted in between, what is visible afterwards was visible before |
| Lineage.DeletionOnlyRevokes | memplex/authorization.py:364-382 | deleting a record, revoking it or making its lookup fail grants nothing |
| Lineage.InheritedVerdict | memplex/authorization.py:617-621 | a record that passes its own checks gets the verdict, reason included, of its first source that is not allowed |
| Lineage.OwnFault | memplex/authorization.py:595-639 | the verdict on an id at fault itself, by what the lookup has: raising, absent with or without a reason, out of scope, changed |
| Lineage.SharedFault | memplex/authorization.py:614-639 | a record without a fault of its own is allowed without a reason if all its sources are, and otherwise has the verdict of the first one that is not, a raising lookup included |
| Lineage.CycleVerdict | memplex/authorization.py:624-625 | records whose refusal runs in a circle are refused as denied |
| SnapshotAuthorization.ClosedPath | memplex/authorization.py:609-625 | a path that waits for its own member has closed a cycle, and refusing both ends as denied is the true verdict |
| SnapshotAuthorization.Evaluator.constructor | memplex/authorization.py:558-576 | a fresh evaluator has no verdicts |
| SnapshotAuthorization.Evaluator.Check | memplex/authorization.py:578-640 | the verdict is the true one of what the evaluator sees (the lookup, with the queried record in its place, or with the caller's path denied), and so is every verdict stored by any sequence of calls; in strict mode no id is expanded twice; legacy mode agrees although it pushes ancestors again |
| SnapshotAuthorization.Evaluator.Search | memplex/authorization.py:591-640 | the loop terminates on every finite graph, cyclic ones included, with the verdict of the record it started from |
| SnapshotAuthorization.Evaluator.Step | memplex/authorization.py:591-639 | one iteration keeps the search state and comes closer to the end |
| SnapshotAuthorization.Evaluator.Expand | memplex/authorization.py:595-613 | the own checks of a frame visited for the first time, each refusal with its reason |
| SnapshotAuthorization.Evaluator.Visit | memplex/authorization.py:614-639 | one source of an opened frame: finish, consume a known verdict, refuse, or search it first |
| SnapshotAuthorization.Evaluator.Complete | memplex/authorization.py:586-589 | the verdict is stored, the id leaves the active set and the frame is popped |
| AuthorizationGate.IsNodeVisible | memplex/authorization.py:279-293 | visible if and only if the record passes its own checks and each source is allowed as seen from its path, for any record handed in; for a record that the lookup returns as it is, if and only if the least fixed point allows it; an own check that raises propagates |
| AuthorizationGate.SourcesStillVisible | memplex/authorization.py:430-481 | with own scope passed, the same answer by the loop over the sources, one evaluator serving all of them |
| AuthorizationGate.GateAgreesWithSnapshot | memplex/authorization.py:430-481 | the gate and a strict evaluator asked about the same record, whatever the lookup has under its id, and when they give the same allow bit |
| AuthorizationGate.GateAgreesExactlyWhen | memplex/authorization.py:430-481 | they agree if and only if there is no passing, source-free stand-in under the id that the sources rest on; so on records without sources, on records the lookup returns as they are, and without a stand-in |
| AuthorizationGate.OverlaidAllows | memplex/authorization.py:578-640 | the strict evaluator allows a queried record if and only if its own checks pass and its sources are allowed without it |
| AuthorizationGate.StandInHidesCycle | memplex/authorization.py:609-625 | an example: a stored record without sources hides the cycle that the queried one is on, from the gate only |
| AuthorizationGate.BoundIdsAreReadBack | memplex/authorization.py:400-428 | the read side sees exactly the bound ids, stably deduplicated, if and only if no bound id has a comma |
| Sequences.FirstOccurrencesAscend | memplex/authorization.py:420-428 | deduplicated references stand where each first occurs, in that order |
| AuthorizationGate.DerivedRecord.BindDerivationLineage | memplex/authorization.py:364-417 | references and version are written under their keys; by name, the visibility is "user" if some source is "user" or unknown, otherwise "session" if some source is, and "workspace" only if all are; on an error nothing changes |
| Clustering.IsNearDuplicate | memplex/consolidation.py:108-124 | true if and only if some text of the cluster is similar enough |
| Clustering.ClusterRows | memplex/consolidation.py:194-210 | the nested loops place every eligible row in the first cluster that accepts it |
| Clustering.OneMoreRow | memplex/consolidation.py:114-123 | a row that is stamped or empty is passed over; any other joins the first cluster with a text that shares at least three words and two fifths of all words with its own, or starts one |
| Clustering.ClustersPartition | memplex/consolidation.py:194-210 | every eligible row is in exactly one cluster, and nothing else is in any |
| Clustering.ClusteringIsStable | memplex/consolidation.py:194-210 | when whole clusters become ineligible, the others come out exactly as before |
| Consolidation.CanonicalText | memplex/consolidation.py:293-301 | a most frequent text of the cluster, the one seen first among equals |
| Consolidation.CanonicalIsUnique | memplex/consolidation.py:293-301 | there is only one such text |
| Consolidation.Measure | memplex/consolidation.py:423-443 | observations, earliest and latest time and lowest trust tier of a cluster |
| Consolidation.ObservationsAddUp | memplex/consolidation.py:427-439 | counts add up, an absent or zero one standing for one |
| Consolidation.RepeatedExactlyWhen | memplex/consolidation.py:423-446 | the gate passes if and only if there are enough observations and two times of the rows, of creation or last observation, lie so many days apart |
| Consolidation.PromotionOfRows | memplex/consolidation.py:423-483 | a promotion lists the ids of its rows in their order, and its times are the first and last of theirs |
| Consolidation.Promote | memplex/consolidation.py:417-483 | a cluster is promoted if and only if it was observed often enough over a long enough span, to the node its rows determine |
| Consolidation.ParagraphStore.Consolidate | memplex/consolidation.py:368-524 | the new rows, the new nodes with their lineage and the report of a pass; if an upsert raises, the nodes before it stay and no row is touched; if the publication raises, the resident changes have been made; either way the report says so |
| Consolidation.EvictedExactlyWhen | memplex/consolidation.py:485-494 | the evicted ids are those of unstamped rows whose age since creation, whenever they were last observed, exceeds the time to live in days |
| Consolidation.ParagraphStore.Commit | memplex/consolidation.py:499-521 | nodes are bound to their sources and upserted, expired rows dropped, promoted rows stamped, all others untouched and in place; all or no rows |
| Consolidation.BindLineage | memplex/consolidation.py:331-365 | references are the sources whose rows are there, and the visibility is clamped to theirs |
| Consolidation.RowUnderId | memplex/consolidation.py:346-356 | with distinct ids, a row is what is found under its id, and nothing is found under any other |
| Consolidation.BoundExactlyWhen | memplex/consolidation.py:331-365 | a committed node is bound if and only if the row of some source is there, and none under an empty id |
| Consolidation.PromotionVisibility | memplex/consolidation.py:331-365 | by name, a bound node is visible to the user alone if some source row is or has an unknown visibility, otherwise in the session if some row is, and in the workspace only if all rows are or say nothing |
| Consolidation.PromotionNeverWider | memplex/consolidation.py:331-365 | by name, a committed node is no wider than any row it was made from that is there, unless one is there under an empty id |
| SecondPass.StampsAreWhole | memplex/consolidation.py:509-516 | the stamps of a pass cover every promoted cluster wholly and touch no other |
| SecondPass.RowSurvivesExactlyWhen | memplex/consolidation.py:485-516 | a row, promoted or not, survives a pass if and only if it is stamped, has no readable creation time, or was created no longer ago than the time to live; and then only its stamp may change |
| SecondPass.LastStampCounts | memplex/consolidation.py:509-516 | a row is stamped with the last node that was made from it |
| SecondPass.LastNodeCounts | memplex/consolidation.py:499-508 | under an id is the last node upserted with it, or what was there before |
| SecondPass.PromotedAndEvicted | memplex/consolidation.py:485-516 | three repeats of which one is past its time are promoted, and that one is evicted in the same pass |
| SecondPass.LeftOverClusters | memplex/consolidation.py:194-210 | a second pass clusters what is left over as if the rows that have gone were still there, ineligible |
| SecondPass.SecondPassIsIdle | memplex/consolidation.py:368-524 | a second pass at the same time forgets nothing; and it promotes nothing and changes no row if no unpromoted cluster was partly expired |
| SecondPass.ExpiryFeedsASecondPass | memplex/consolidation.py:368-524 | an example in which an expired row had kept two others apart, so that only the second pass promotes them |
| ForgottenSources.VisibleForeverOrNever | memplex/consolidation.py:485-516 | after any later passes, whether they go through or not, a promotion whose row ids can be referred to is visible to the gate if and only if none of its rows had expired in the pass that made it |
| ForgottenSources.HiddenFromEveryone | memplex/authorization.py:430-440 | if one had expired, no request that is granted no more than what the store holds sees the promotion |
| ForgottenSources.NodeAllowedExactlyWhen | memplex/authorization.py:47-85 | a node of a store is visible if and only if the rows it declares are there |
| ForgottenSources.PromotedAndHidden | memplex/consolidation.py:485-516 | an example: three repeats of which one is past its time are promoted, and nobody ever sees the promotion |
| CommonSubsequence.LcsLength | benchmarks/metrics.py:240-255 | the two-row program returns the length of a longest common subsequence |
| Sequences.SubsequenceExactlyWhen | benchmarks/metrics.py:240-255 | a subsequence is what is found at some ascending positions |
| CommonSubsequence.CommonSubsequenceExists | benchmarks/metrics.py:240-255 | the recurrence's value is reached by some common subsequence |
| CommonSubsequence.NoLongerCommonSubsequence | benchmarks/metrics.py:240-255 | no common subsequence is longer than the recurrence's value |
| Ranking.NdcgAtK | benchmarks/metrics.py:96-139 | the loops compute discounted gain over ideal gain; an error for a cutoff that is not positive, 0 for an empty list or no ideal gain |
| Ranking.HitsFirstIsBest | benchmarks/metrics.py:122-135 | rearrangement: no order gains more than putting the hits first, and only that order gains as much |
| Ranking.SingleHit | benchmarks/metrics.py:116-139 | a single hit at place i, counted from 0, scores log(2) / log(i + 2), and 0 past the cutoff |
| Ranking.TwoItems | benchmarks/metrics.py:116-139 | the score of an unexpected item before an expected one, for any relevance function |
| Ranking.FirstOfTwo | benchmarks/metrics.py:116-139 | under a cutoff of one, only the first places of the list and of the ideal order count |
| Ranking.NdcgIsNormalized | benchmarks/metrics.py:96-139 | with binary relevance the score is between 0 and 1 on every list, and is 1 if and only if the list starts with all the hits that fit under the cutoff |
| Ranking.PartitionDoesNotLose | benchmarks/metrics.py:132-135 | moving expected items forward does not lose gain when no unexpected item is more relevant |
| Ranking.MisrankedPair | benchmarks/metrics.py:132-139 | an unexpected item that is more relevant than an expected one makes a score above 1 |
| Ranking.NormalizedExactlyWhenMembershipRanks | benchmarks/metrics.py:96-139 | for graded relevance the score stays between 0 and 1 on all lists and cutoffs if and only if no unexpected item is more relevant than an expected one |
| ContextAssembly.CandidateIds | memplex/context.py:191-205 | the distinct ids in order of first occurrence up to 500, with every other candidate counted as a duplicate or as past the limit |
| ContextAssembly.LimitHit | memplex/context.py:200-201 | the limit drops something if and only if there are more distinct ids than it allows |
| ContextAssembly.AssembleContext | memplex/context.py:270-314 | the context is the accepted fragments joined and within the budget of a token for every four characters and one more; accepted and dropped candidates add up, each drop under its reason; truncation is reported exactly |
| ContextAssembly.AdmitAll | memplex/context.py:294-308 | the loop admits the fragments that fit, one after the other |
| ContextAssembly.AllCounted | memplex/context.py:294-308 | every resolved id is either admitted or refused for one reason |
| ContextAssembly.NothingElseFits | memplex/context.py:302-305 | a fragment left out for the budget would not fit the final context either |
| ContextAssembly.LeftOutFragmentIsTooLong | memplex/context.py:301-305 | it and the blank line before it would bring the context to four characters for every token of the budget |
| ContextAssembly.NextFragment | memplex/context.py:301-307 | fragments are separated by one blank line |
| ContextAssembly.AdmittedInOrder | memplex/context.py:294-308 | accepted ids are candidates in order of first occurrence |
| ContextAssembly.AdmittedAreDistinct | memplex/context.py:191-205 | accepted ids are distinct |
| OperationsMetrics.Metrics.constructor | memplex/operations.py:826-841 | a fresh object has the counters of an empty history |
| OperationsMetrics.Metrics.BeginRequest | memplex/operations.py:853-855 | one more request has begun and is in flight |
| OperationsMetrics.Metrics.FinishRequest | memplex/operations.py:857-876 | a valid call is added, as the caller named it, to those that all counters follow; an invalid duration or an unbalanced call is refused and changes nothing |
| OperationsMetrics.Metrics.TakeSnapshot | memplex/operations.py:878-898 | the number of calls, those among them with a code from 100 to 499, requests in flight, and a duration of the window of the last ones that 95 percent of them do not exceed, while fewer are below it |
| OperationsMetrics.PercentileIsUnique | memplex/operations.py:886-889 | there is only one such duration |
| OperationsMetrics.Metrics.CountersByCall | memplex/operations.py:843-876 | every counter is the number of calls by method name, code and bucket bound |
| OperationsMetrics.ClassesAddUp | memplex/operations.py:868-876 | the status classes of a method add up to its requests |
| OperationsMetrics.MethodsAddUp | memplex/operations.py:878-885 | the methods add up to all requests, and their server errors to all failures |
| OperationsMetrics.BucketsAreCumulative | memplex/operations.py:869-873 | a bucket with a larger bound counts at least as many requests, and none more than there are |
| OperationsMetrics.SortedCounts | memplex/operations.py:886-889 | the i-th of the sorted samples has at least i+1 samples up to it and at most i below it |
| ImproveFacts.AtMostOneValidPerSlot | memplex/improve.py:66-98 | a slot keeps at most one valid fact, one that was live, and no live fact of the slot is newer |
| ImproveFacts.LiveSlotKeepsOne | memplex/improve.py:92-98 | a slot with a live fact keeps one |
| ImproveFacts.HistoryIsKept | memplex/improve.py:69-106 | no fact is removed or reordered, invalid facts are untouched, and only the invalidation changes |
| ImproveFacts.StaysValidExactlyWhen | memplex/improve.py:60-106 | a valid fact of the store stays valid, and as it was, if and only if it is past the listing limit, or its shelf life has not run out and no valid listed one in date of its slot was updated later, or at the same time and listed earlier; otherwise it is stamped |
| ImproveFacts.ValidIsInDate | memplex/improve.py:69-86 | a listed fact left valid has not reached the end of its shelf life |
| ImproveFacts.ReportedCounts | memplex/improve.py:66-106 | what is reported as expired are the listed valid facts that had run out, and as deduplicated the other ones that were stamped |
| ImproveFacts.ImproveIsIdempotent | memplex/improve.py:66-106 | a second pass at the same clock changes nothing |
| ImproveFacts.OnePerSlotExactlyWhen | memplex/improve.py:60-106 | every slot of the whole store keeps at most one valid fact if and only if no valid fact past the listing limit shares its slot with a live listed one or an earlier one past the limit |
| ImproveFacts.UnlistedFactStaysValid | memplex/improve.py:60-64 | one valid fact more than the limit, all in one slot, leaves two of them valid |
| ImproveFacts.Bucket | memplex/improve.py:69-88 | live facts by slot in listing order, and exactly the expired ones |
| ImproveFacts.Losers | memplex/improve.py:92-98 | exactly the live facts that another live fact of the slot outranks |
| ImproveFacts.SortBucket | memplex/improve.py:95-95 | newest first, listing order among equals |
| ImproveFacts.FactStore.Improve | memplex/improve.py:44-106 | the store after a pass with successful upserts, and the two counts of the report; facts beyond the listing limit stay as they are |

## Left out

- Losses.PullLosesNothing: like CapturesKeptInTurn and TurnsLoseNoCapture, needs that suffixes do not collide on the payloads in play and that union ids carry what they are named after, because without this a capture can be lost (CollidingSuffixLoses); PayloadSurvivesExactlyWhen needs neither.
- AuthorizationGate.IsNodeVisible: covers lookups that return the record with the id asked for; aliases and records without an identity take a path-sensitive legacy branch that is not modelled.
- AuthorizationGate.SourcesStillVisible: the same, aliases and identity-less records are not modelled.
- AuthorizationGate.GateAgreesWithSnapshot: the same; the strict evaluator need not terminate on lookups that are not faithful to ids.
- SnapshotAuthorization.Evaluator.Check: a strict evaluator that is asked about several records is only asked about records as the lookup returns them; one that is handed another record is asked about this one alone.
- Consolidation.ParagraphStore.Consolidate: what a later read recovers from durable storage after a failed publication is not modelled, only the resident state and the report.
- ForgottenSources.VisibleForeverOrNever: needs non-empty, comma-free row ids that no node has, and that the promotion is not replaced under its id; writes and deletions of rows between the passes, and rows that declare sources themselves, are not modelled.
- Wire format, hex decoding and HTTP: a peer's answer is a list of objects or a failure; a malformed record, which raises out of the gossip loop, is not modelled.
- Threads and locks: methods are the critical sections, run one after the other.
- SHA-256, HMAC and encryption: free terms, or function parameters.
- The per-record scope rules and content fingerprints of the authorization gate: each is one value per record; the reason for an absent id is one value per id.
- Consolidation with an embedder, the tokenizer, the preference pattern, the cadence text and the node digest: parameters, or not modelled.
- Paragraph rows that are not dictionaries.
- Rendering of one context fragment (resolution, ACL, expiry, injection scan, wrapper text): one answer per id. The candidate cache and the projection of results are not modelled.
- The Prometheus text, request admission and runtime lifecycle.
- Rebuilding the search index after fact maintenance, and floating-point rounding everywhere.
- Backup, signed evidence, configuration, command line, compaction, dataset loaders and benchmark runners: input and output, or single-branch validation.
