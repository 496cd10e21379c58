/** The gossip loop over configured peers, and the narrow exchange from an id manifest. */
module PeerMeshTransport {
  import opened Options
  import opened TextOrder
  import opened Utf8
  import opened VersionVectors
  import opened MeshObjects
  import opened MerkleTree
  import opened Reconciliation
  import opened Convergence
  import opened Losses

  // ----- what a peer answers -----

  datatype RootsReply = RootsFailed | RootIs(root: Digest)

  datatype ObjectsReply = ObjectsFailed | Objects(records: seq<MeshObject>)

  /** What one peer answers to the two requests of a pass; either request may fail. */
  datatype PeerReply = PeerReply(roots: RootsReply, objects: ObjectsReply)

  /** Records indexed by their id, later ones replacing earlier ones. */
  ghost function Index(records: seq<MeshObject>): Replica {
    if records == [] then map[]
    else Index(records[..|records| - 1])[records[|records| - 1].id := records[|records| - 1]]
  }

  /** Under an id is the last record sent with this id. */
  lemma {:induction false} LastRecordCounts(records: seq<MeshObject>, i: nat)
    requires i < |records| && forall j | i < j < |records| :: records[j].id != records[i].id
    ensures records[i].id in Index(records) && Index(records)[records[i].id] == records[i]
    decreases |records|
  {
    if i < |records| - 1 {
      LastRecordCounts(records[..|records| - 1], i);
    }
  }

  ghost predicate WellFormedRecord(o: MeshObject) {
    o.vector.NonNegative() && o.supersededBy != Some(o.id)
  }

  ghost predicate WellFormedReply(reply: PeerReply) {
    reply.objects.Objects? ==> forall i | 0 <= i < |reply.objects.records| :: WellFormedRecord(reply.objects.records[i])
  }

  ghost predicate AllWellFormed(replies: seq<PeerReply>) {
    forall i | 0 <= i < |replies| :: WellFormedReply(replies[i])
  }

  lemma {:induction false} IndexIsWellFormed(records: seq<MeshObject>)
    requires forall i | 0 <= i < |records| :: WellFormedRecord(records[i])
    ensures WellFormed(Index(records))
  {
    if records != [] {
      var n := |records| - 1;
      IndexIsWellFormed(records[..n]);
      assert WellFormedRecord(records[n]);
    }
  }

  lemma {:induction false} IndexIsWellKeyed(records: seq<MeshObject>)
    ensures WellKeyed(Index(records))
  {
    if records != [] {
      IndexIsWellKeyed(records[..|records| - 1]);
    }
  }

  method IndexRecords(records: seq<MeshObject>) returns (remote: Replica)
    ensures remote == Index(records)
  {
    remote := map[];
    for i := 0 to |records|
      invariant remote == Index(records[..i])
    {
      remote := remote[records[i].id := records[i]];
      assert records[..i + 1][..i] == records[..i];
    }
    assert records[..|records|] == records;
  }

  method ListValues(m: Replica) returns (objects: seq<MeshObject>)
    requires WellKeyed(m)
    ensures Lists(objects, m)
  {
    objects := [];
    var todo := m.Keys;
    while todo != {}
      invariant todo <= m.Keys
      invariant forall i | 0 <= i < |objects| :: objects[i].id in m && m[objects[i].id] == objects[i]
      invariant forall k | k in m.Keys - todo :: m[k] in objects
      decreases todo
    {
      var k :| k in todo;
      objects := objects + [m[k]];
      todo := todo - {k};
    }
  }

  // ----- one pass over the peers -----

  datatype Summary = PeerError | Converged | Exchanged(divergent: nat, changed: nat, resolutions: map<Id, Resolution>)

  predicate Changes(r: Resolution) {
    r in {FetchRemote, Union, RemoveWins, Superseded}
  }

  ghost function DivergentIds(local: Replica, remote: Replica): set<Id> {
    set k | k in local.Keys + remote.Keys && Get(Leaves(local), k) != Get(Leaves(remote), k)
  }

  ghost function ChangedIds(local: Replica, remote: Replica): set<Id> {
    set k | k in local.Keys + remote.Keys && Changes(ResolveAt(local, remote, k))
  }

  datatype Pass = Pass(local: Replica, summary: map<string, Summary>, lastGossip: map<string, Summary>)

  /** The peer's turn gets as far as reconciling with what it sent. */
  ghost predicate Reconciles(local: Replica, reply: PeerReply) {
    reply.roots.RootIs? && reply.roots.root != TreeRoot(local) && reply.objects.Objects?
  }

  /** The local state after one peer's turn: unchanged when a request fails or the roots agree, otherwise
      reconciled with what the peer sent. */
  ghost function TurnLocal(local: Replica, reply: PeerReply, suffix: Suffix): Replica {
    if Reconciles(local, reply) then Reconciled(local, Index(reply.objects.records), suffix) else local
  }

  /** What the pass reports about one peer; a failure is reported, but not remembered. */
  ghost function TurnSummary(local: Replica, reply: PeerReply): Summary {
    if reply.roots.RootsFailed? then PeerError
    else if reply.roots.root == TreeRoot(local) then Converged
    else if reply.objects.ObjectsFailed? then PeerError
    else ExchangeSummary(local, Index(reply.objects.records))
  }

  ghost function Turn(pass: Pass, peer: string, reply: PeerReply, suffix: Suffix): Pass {
    var entry := TurnSummary(pass.local, reply);
    Pass(TurnLocal(pass.local, reply, suffix),
         pass.summary[peer := entry],
         if entry == PeerError then pass.lastGossip else pass.lastGossip[peer := entry])
  }

  ghost function ExchangeSummary(local: Replica, remote: Replica): Summary {
    Exchanged(|Sorted(DivergentIds(local, remote))|, |ChangedIds(local, remote)|,
              map k | k in DivergentIds(local, remote) :: ResolveAt(local, remote, k))
  }

  ghost function Turns(pass: Pass, peers: seq<string>, replies: seq<PeerReply>, suffix: Suffix): Pass
    requires |peers| == |replies|
  {
    if peers == [] then pass
    else
      var n := |peers| - 1;
      Turn(Turns(pass, peers[..n], replies[..n], suffix), peers[n], replies[n], suffix)
  }

  /** A plan without changing resolutions leaves the local state exactly as it is. */
  lemma NoChangesMeansIdentity(local: Replica, remote: Replica, suffix: Suffix)
    requires ChangedIds(local, remote) == {}
    ensures Reconciled(local, remote, suffix) == local
  {
    var plan := PlanOf(local, remote);
    PlanOfIsPlan(local, remote);
    PlanIsApplicable(local, remote, plan);
    forall i | 0 <= i < |plan|
      ensures !Changes(plan[i].resolution)
    {
      assert plan[i].id !in ChangedIds(local, remote);
    }
    IdleItems(local, remote, plan, suffix);
  }

  lemma {:induction false} IdleItems(local: Replica, remote: Replica, plan: seq<PlanItem>, suffix: Suffix)
    requires forall i | 0 <= i < |plan| :: Applicable(local, remote, plan[i]) && !Changes(plan[i].resolution)
    ensures Applied(local, remote, plan, suffix) == local
  {
    if plan != [] {
      IdleItems(local, remote, plan[..|plan| - 1], suffix);
    }
  }

  /** Skipping a peer whose root equals the local one skips only what would not change any content, exactly unless
      it would mark an object as superseded; on consistent replicas it never would. */
  lemma EqualRootsSkipNothing(local: Replica, remote: Replica, suffix: Suffix)
    requires WellKeyed(local) && WellKeyed(remote) && LeavesTellApart(Held(local, remote)) && FixedWidth(suffix)
    requires TreeRoot(local) == TreeRoot(remote)
    ensures SameContents(Reconciled(local, remote, suffix), local) <==> NoneSupersededInPlace(local, remote)
    ensures Consistent(local) && Consistent(remote) ==> NoneSupersededInPlace(local, remote)
  {
    hide *;
    EqualRootsMeanEqualContents(local, remote);
    PullOfSameContents(local, remote, suffix);
    ReconciledIsPull(local, remote, suffix);
    if Consistent(local) && Consistent(remote) {
      ConsistentStayInPlace(local, remote);
    }
  }

  /** Through a whole pass, with whatever failures and whatever the peers send, no id disappears and no entry of
      a vector goes backwards. */
  lemma {:induction false} TurnsKeepEverything(pass: Pass, peers: seq<string>, replies: seq<PeerReply>, suffix: Suffix)
    requires |peers| == |replies| && WellKeyed(pass.local)
    ensures var after := Turns(pass, peers, replies, suffix).local;
            && WellKeyed(after)
            && forall k | k in pass.local :: k in after && Extends(after[k].vector, pass.local[k].vector)
  {
    if peers != [] {
      var n := |peers| - 1;
      var before := Turns(pass, peers[..n], replies[..n], suffix).local;
      TurnsKeepEverything(pass, peers[..n], replies[..n], suffix);
      TurnExtends(before, replies[n], suffix);
      hide TurnLocal;
    }
  }

  lemma TurnExtends(local: Replica, reply: PeerReply, suffix: Suffix)
    requires WellKeyed(local)
    ensures var after := TurnLocal(local, reply, suffix);
            WellKeyed(after) && forall k | k in local :: k in after && Extends(after[k].vector, local[k].vector)
  {
    if reply.objects.Objects? {
      var remote := Index(reply.objects.records);
      IndexIsWellKeyed(reply.objects.records);
      ReconciledKeepsWellKeyed(local, remote, suffix);
      ReconciledExtends(local, remote, suffix);
    }
  }

  /** With well-formed replies the state stays well-formed, and vectors grow over all replicas. */
  lemma {:induction false} TurnsKeepWellFormed(pass: Pass, peers: seq<string>, replies: seq<PeerReply>, suffix: Suffix)
    requires FixedWidth(suffix) && |peers| == |replies| && WellFormed(pass.local) && AllWellFormed(replies)
    ensures var after := Turns(pass, peers, replies, suffix).local;
            WellFormed(after) && forall k | k in pass.local :: k in after && Leq(pass.local[k].vector, after[k].vector)
  {
    if peers != [] {
      var n := |peers| - 1;
      TurnsKeepWellFormed(pass, peers[..n], replies[..n], suffix);
      assert WellFormedReply(replies[n]);
      TurnKeepsEverything(Turns(pass, peers[..n], replies[..n], suffix).local, replies[n], suffix);
    }
  }

  lemma TurnKeepsEverything(local: Replica, reply: PeerReply, suffix: Suffix)
    requires FixedWidth(suffix) && WellFormed(local) && WellFormedReply(reply)
    ensures var after := TurnLocal(local, reply, suffix);
            WellFormed(after) && forall k | k in local :: k in after && Leq(local[k].vector, after[k].vector)
  {
    if reply.objects.Objects? {
      var remote := Index(reply.objects.records);
      IndexIsWellFormed(reply.objects.records);
      ReconciledIsPull(local, remote, suffix);
      PullKeepsEverything(local, remote, suffix);
    }
  }

  /** A peer that answers twice in the same way changes the local state only the first time, exactly unless its
      answer makes the first turn fetch a live fact that names itself as its successor, and claims another root
      than the one that this turn leads to. */
  lemma RepeatedTurnIsIdempotent(local: Replica, reply: PeerReply, suffix: Suffix)
    requires FixedWidth(suffix) && WellKeyed(local)
    ensures var once := TurnLocal(local, reply, suffix);
            TurnLocal(once, reply, suffix) == once <==>
              !(&& Reconciles(local, reply) && Reconciles(once, reply)
                && exists o | o in Index(reply.objects.records).Values ::
                     FetchesSelfSuperseding(Get(local, o.id), Some(o)))
  {
    var once := TurnLocal(local, reply, suffix);
    if Reconciles(local, reply) && Reconciles(once, reply) {
      var remote := Index(reply.objects.records);
      IndexIsWellKeyed(reply.objects.records);
      ReconciledKeepsWellKeyed(local, remote, suffix);
      ReconciledIsPull(local, remote, suffix);
      ReconciledIsPull(once, remote, suffix);
      PullIsIdempotent(local, remote, suffix);
      hide Pull;
      hide FetchesSelfSuperseding;
      assert forall k | k in remote :: remote[k] in remote.Values && remote[k].id == k;
    }
  }

  /** An example: such a fact is fetched first, and turned into a tombstone by the same answer given again. */
  lemma SelfSupersessionIsNotIdempotent(o: MeshObject, root: Digest, suffix: Suffix)
    requires SelfSuperseding(o) && root != TreeRoot(map[]) && root != TreeRoot(map[o.id := o])
    ensures var reply := PeerReply(RootIs(root), Objects([o]));
            var once := TurnLocal(map[], reply, suffix);
            var twice := TurnLocal(once, reply, suffix);
            && once == map[o.id := o]
            && o.id in twice && twice[o.id].tombstone
  {
    var none: Replica, remote := map[], map[o.id := o];
    assert Index([o]) == remote by {
      assert [o][..0] == [];
    }
    SinglePlan(none, remote, o.id);
    SinglePlan(remote, remote, o.id);
    SingleItem(none, remote, PlanItem(o.id, FetchRemote), suffix);
    assert !o.vector.Dominates(o.vector);
    SingleItem(remote, remote, PlanItem(o.id, Superseded), suffix);
  }

  lemma SinglePlan(local: Replica, remote: Replica, k: Id)
    requires local.Keys + remote.Keys == {k}
    ensures PlanOf(local, remote) == [PlanItem(k, ResolveAt(local, remote, k))]
  {
    SingleSorted(k);
    SortedUnique(Sorted({k}), [k]);
    hide Resolve;
  }

  lemma SingleItem(local: Replica, remote: Replica, item: PlanItem, suffix: Suffix)
    requires PlanOf(local, remote) == [item] && Applicable(local, remote, item)
    ensures Reconciled(local, remote, suffix) == ApplyItem(local, local, remote, item, suffix)
  {
    var plan := [item];
    assert plan[..0] == [] && Applied(local, remote, plan[..0], suffix) == local;
    assert plan[|plan| - 1] == item;
    assert Applied(local, remote, plan, suffix) == ApplyItem(local, local, remote, item, suffix);
  }

  /** What is counted as a change need not be one: an observation that both sides hold as the same object is
      resolved as a union, reported and committed every time, and stays as it is. */
  lemma UnchangedButCounted(o: MeshObject, suffix: Suffix)
    requires o.kind == "observation" && FixedWidth(suffix)
    ensures var m := map[o.id := o]; ChangedIds(m, m) == {o.id} && Pull(m, m, suffix) == m
  {
    var m := map[o.id := o];
    assert ResolveAt(m, m, o.id) == Union;
    SameObject(o);
    PullIsIdentityExactlyWhen(m, m, suffix);
    MergeAbsorbs(o.vector, o.vector);
  }

  /** No change is counted exactly if everything the peer has is known, and each such object is older than the local
      one or left to the caller: concurrent, live, no capture, and no fact that names the other side's id. */
  lemma NothingCountedExactlyWhen(local: Replica, remote: Replica)
    ensures |ChangedIds(local, remote)| == 0 <==>
              remote.Keys <= local.Keys && forall k | k in remote && k in local :: LeftAlone(local[k], remote[k])
  {
    var changed := ChangedIds(local, remote);
    assert |changed| == 0 <==> changed == {};
    if changed == {} {
      forall k | k in remote
        ensures k in local && LeftAlone(local[k], remote[k])
      {
        assert k !in changed;
      }
    }
    if remote.Keys <= local.Keys && forall k | k in remote && k in local :: LeftAlone(local[k], remote[k]) {
      forall k | k in local || k in remote
        ensures k !in changed
      {
        assert k in remote ==> LeftAlone(local[k], remote[k]);
      }
    }
  }

  ghost predicate LeftAlone(l: MeshObject, r: MeshObject) {
    || l.vector.Dominates(r.vector)
    || (&& !r.vector.Dominates(l.vector)
        && l.kind != "observation" && l.kind != "raw_turn" && !l.tombstone && !r.tombstone
        && !(l.kind == "fact" && (l.supersededBy == Some(r.id) || r.supersededBy == Some(l.id))))
  }

  /** What a pass reports about a peer: an error if a request failed, convergence if its root is the local one, and
      otherwise the differences it was reconciled over.  Only errors are not remembered, and only a
      reconciliation touches the local state. */
  lemma EachPeerIsReported(pass: Pass, peers: seq<string>, replies: seq<PeerReply>, i: nat, suffix: Suffix)
    requires |peers| == |replies| && i < |peers| && peers[i] !in peers[i + 1..]
    ensures peers[i] in Turns(pass, peers, replies, suffix).summary
    ensures var (before, end) := (Turns(pass, peers[..i], replies[..i], suffix), Turns(pass, peers, replies, suffix));
            var (after, peer) := (Before(pass, peers, replies, i + 1, suffix), peers[i]);
            match replies[i]
            case PeerReply(RootsFailed, _) =>
              after == before.local && end.summary[peer] == PeerError && Remembers(end, before, peer)
            case PeerReply(RootIs(root), objects) =>
              if root == TreeRoot(before.local) then
                && after == before.local && end.summary[peer] == Converged
                && peer in end.lastGossip && end.lastGossip[peer] == Converged
              else if objects.ObjectsFailed? then
                after == before.local && end.summary[peer] == PeerError && Remembers(end, before, peer)
              else
                var remote := Index(objects.records);
                && after == Reconciled(before.local, remote, suffix)
                && end.summary[peer].Exchanged?
                && end.summary[peer].divergent == |DivergentIds(before.local, remote)|
                && end.summary[peer].changed == |ChangedIds(before.local, remote)|
                && (forall k :: k in end.summary[peer].resolutions <==>
                      && (k in before.local || k in remote)
                      && !(k in before.local && k in remote && Leaf(before.local[k]) == Leaf(remote[k])))
                && peer in end.lastGossip && end.lastGossip[peer] == end.summary[peer]
  {
    var end := Turns(pass, peers, replies, suffix);
    LaterPeersDoNotMatter(pass, peers, replies, i, |peers|, suffix);
    assert peers[..|peers|] == peers && replies[..|replies|] == replies;
    OneTurn(pass, peers, replies, i, suffix);
    hide Turns;
    hide TreeRoot;
    hide Reconciled;
    hide ChangedIds;
    if Reconciles(Before(pass, peers, replies, i, suffix), replies[i]) {
      DivergentByLeaf(Before(pass, peers, replies, i, suffix), Index(replies[i].objects.records));
    }
  }

  ghost predicate Remembers(end: Pass, before: Pass, peer: string) {
    && (peer in end.lastGossip <==> peer in before.lastGossip)
    && (peer in before.lastGossip ==> end.lastGossip[peer] == before.lastGossip[peer])
  }

  lemma DivergentByLeaf(local: Replica, remote: Replica)
    ensures forall k :: k in DivergentIds(local, remote) <==>
              && (k in local || k in remote)
              && !(k in local && k in remote && Leaf(local[k]) == Leaf(remote[k]))
    ensures |Sorted(DivergentIds(local, remote))| == |DivergentIds(local, remote)|
  {
    hide MerkleTree.Leaf;
    SortedSize(Sorted(DivergentIds(local, remote)));
  }

  lemma {:induction false} SortedSize(s: seq<Id>)
    requires StrictlySorted(s)
    ensures |s| == |Elements(s)|
  {
    if s != [] {
      var n := |s| - 1;
      SortedSize(s[..n]);
      assert s == s[..n] + [s[n]];
      assert Elements(s) == Elements(s[..n]) + {s[n]};
      if s[n] in Elements(s[..n]) {
        var i :| 0 <= i < n && s[i] == s[n];
        LessIsStrictTotalOrder(s[n], s[n], s[n]);
      }
    }
  }

  lemma OneTurn(pass: Pass, peers: seq<string>, replies: seq<PeerReply>, i: nat, suffix: Suffix)
    requires |peers| == |replies| && i < |peers|
    ensures Turns(pass, peers[..i + 1], replies[..i + 1], suffix) ==
            Turn(Turns(pass, peers[..i], replies[..i], suffix), peers[i], replies[i], suffix)
  {
    assert peers[..i + 1][..i] == peers[..i] && replies[..i + 1][..i] == replies[..i];
  }

  lemma {:induction false} LaterPeersDoNotMatter(pass: Pass, peers: seq<string>, replies: seq<PeerReply>, i: nat,
                                                 n: nat, suffix: Suffix)
    requires |peers| == |replies| && i < n <= |peers| && peers[i] !in peers[i + 1..]
    ensures var (now, later) := (Turns(pass, peers[..i + 1], replies[..i + 1], suffix),
                                 Turns(pass, peers[..n], replies[..n], suffix));
            && peers[i] in now.summary && peers[i] in later.summary
            && later.summary[peers[i]] == now.summary[peers[i]] && Remembers(later, now, peers[i])
    decreases n
  {
    OneTurn(pass, peers, replies, n - 1, suffix);
    hide *;
    var before := Turns(pass, peers[..n - 1], replies[..n - 1], suffix);
    if i + 1 < n {
      LaterPeersDoNotMatter(pass, peers, replies, i, n - 1, suffix);
      assert peers[n - 1] == peers[i + 1..][n - 1 - (i + 1)];
      OtherPeersTurn(Turns(pass, peers[..i + 1], replies[..i + 1], suffix), before, peers[n - 1], replies[n - 1],
                     peers[i], suffix);
    } else {
      OwnTurn(before, peers[i], replies[i], suffix);
    }
  }

  lemma OwnTurn(before: Pass, peer: string, reply: PeerReply, suffix: Suffix)
    ensures var now := Turn(before, peer, reply, suffix); peer in now.summary && Remembers(now, now, peer)
  {
  }

  lemma OtherPeersTurn(now: Pass, before: Pass, other: string, reply: PeerReply, peer: string, suffix: Suffix)
    requires other != peer && peer in before.summary && Remembers(before, now, peer)
    ensures var later := Turn(before, other, reply, suffix);
            peer in later.summary && later.summary[peer] == before.summary[peer] && Remembers(later, now, peer)
  {
    hide TurnSummary;
    hide TurnLocal;
  }

  // ----- captures along a pass -----

  /** The premises of `PullLosesNothing` on one side: its payloads are among the given ones, and its union ids
      carry what they are named after. */
  ghost predicate Honest(m: Replica, payloads: set<string>, suffix: Suffix) {
    Payloads(m) <= payloads && UnionIdsHonest(m, payloads, suffix)
  }

  ghost predicate HonestReply(reply: PeerReply, payloads: set<string>, suffix: Suffix) {
    reply.objects.Objects? ==> Honest(Index(reply.objects.records), payloads, suffix)
  }

  /** The local state before the turn of the `i`-th peer. */
  ghost function Before(pass: Pass, peers: seq<string>, replies: seq<PeerReply>, i: nat, suffix: Suffix): Replica
    requires |peers| == |replies| && i <= |peers|
  {
    Turns(pass, peers[..i], replies[..i], suffix).local
  }

  lemma NextTurn(pass: Pass, peers: seq<string>, replies: seq<PeerReply>, i: nat, suffix: Suffix)
    requires |peers| == |replies| && i < |peers|
    ensures Before(pass, peers, replies, i + 1, suffix) ==
            TurnLocal(Before(pass, peers, replies, i, suffix), replies[i], suffix)
  {
    assert peers[..i + 1][..i] == peers[..i] && replies[..i + 1][..i] == replies[..i];
  }

  lemma FirstTurn(pass: Pass, peers: seq<string>, replies: seq<PeerReply>, suffix: Suffix)
    requires |peers| == |replies|
    ensures Before(pass, peers, replies, 0, suffix) == pass.local
  {
  }

  /** Every id of `before` is there, and its vector has not gone backwards. */
  ghost predicate Grows(before: Replica, after: Replica) {
    forall k | k in before :: k in after && Leq(before[k].vector, after[k].vector)
  }

  lemma GrowsFromItself(m: Replica)
    ensures Grows(m, m)
  {
  }

  lemma GrowsFurther(a: Replica, b: Replica, c: Replica)
    requires Grows(a, b) && Grows(b, c)
    ensures Grows(a, c)
  {
    forall k | k in a
      ensures Leq(a[k].vector, c[k].vector)
    {
      assert Leq(a[k].vector, b[k].vector) && Leq(b[k].vector, c[k].vector);
    }
  }

  /** One turn drops no id and no capture, and keeps the premises. */
  lemma TurnLosesNothing(local: Replica, reply: PeerReply, payloads: set<string>, suffix: Suffix)
    requires FixedWidth(suffix) && DistinctSuffixes(payloads, suffix)
    requires WellFormed(local) && WellFormedReply(reply)
    requires Honest(local, payloads, suffix) && HonestReply(reply, payloads, suffix)
    ensures var after := TurnLocal(local, reply, suffix);
            && WellFormed(after) && Honest(after, payloads, suffix)
            && Grows(local, after)
            && (Reconciles(local, reply) ==> LosesNothing(local, Index(reply.objects.records), after, suffix))
  {
    if Reconciles(local, reply) {
      var remote := Index(reply.objects.records);
      IndexIsWellFormed(reply.objects.records);
      ReconciledIsPull(local, remote, suffix);
      PullLosesNothing(local, remote, payloads, suffix);
    }
  }

  /** The premises hold before every turn of a pass, and ids only come. */
  lemma {:induction false} TurnsStayHonest(pass: Pass, peers: seq<string>, replies: seq<PeerReply>, i: nat, j: nat,
                                           payloads: set<string>, suffix: Suffix)
    requires FixedWidth(suffix) && DistinctSuffixes(payloads, suffix) && |peers| == |replies| && i <= j <= |peers|
    requires WellFormed(pass.local) && Honest(pass.local, payloads, suffix)
    requires forall n | 0 <= n < |replies| :: WellFormedReply(replies[n]) && HonestReply(replies[n], payloads, suffix)
    ensures var local := Before(pass, peers, replies, j, suffix);
            && WellFormed(local) && Honest(local, payloads, suffix)
            && Grows(Before(pass, peers, replies, i, suffix), local)
    decreases j
  {
    hide *;
    if j == 0 {
      FirstTurn(pass, peers, replies, suffix);
    } else {
      TurnsStayHonest(pass, peers, replies, if i < j then i else j - 1, j - 1, payloads, suffix);
      NextTurn(pass, peers, replies, j - 1, suffix);
      TurnLosesNothing(Before(pass, peers, replies, j - 1, suffix), replies[j - 1], payloads, suffix);
      if i < j {
        GrowsFurther(Before(pass, peers, replies, i, suffix), Before(pass, peers, replies, j - 1, suffix),
                     Before(pass, peers, replies, j, suffix));
      }
    }
    GrowsFromItself(Before(pass, peers, replies, j, suffix));
  }

  /** Along a whole pass nothing is lost: every turn keeps what `PullLosesNothing` says, and a capture that a
      union has registered is still there, under its union id, when the pass is over. */
  lemma TurnsLoseNoCapture(pass: Pass, peers: seq<string>, replies: seq<PeerReply>, i: nat, payloads: set<string>,
                           suffix: Suffix)
    requires FixedWidth(suffix) && DistinctSuffixes(payloads, suffix) && |peers| == |replies| && i < |peers|
    requires WellFormed(pass.local) && Honest(pass.local, payloads, suffix)
    requires forall n | 0 <= n < |replies| :: WellFormedReply(replies[n]) && HonestReply(replies[n], payloads, suffix)
    requires Reconciles(Before(pass, peers, replies, i, suffix), replies[i])
    ensures var (before, remote) := (Before(pass, peers, replies, i, suffix), Index(replies[i].objects.records));
            var end := Turns(pass, peers, replies, suffix).local;
            && LosesNothing(before, remote, Before(pass, peers, replies, i + 1, suffix), suffix)
            && (before.Keys + remote.Keys <= end.Keys)
            && (forall k | k in before && k in remote && ResolveAt(before, remote, k) == Union ::
                  remote[k].payload == before[k].payload ||
                  (var u := UnionId(k, remote[k].payload, suffix);
                   && u in end && end[u].payload == remote[k].payload
                   && (u !in before && u !in remote ==> Leq(remote[k].vector, end[u].vector))))
  {
    var before, remote := Before(pass, peers, replies, i, suffix), Index(replies[i].objects.records);
    TurnsStayHonest(pass, peers, replies, i, i, payloads, suffix);
    NextTurn(pass, peers, replies, i, suffix);
    TurnLosesNothing(before, replies[i], payloads, suffix);
    TurnsStayHonest(pass, peers, replies, i + 1, |peers|, payloads, suffix);
    assert peers[..|peers|] == peers && replies[..|replies|] == replies;
    var end := Turns(pass, peers, replies, suffix).local;
    hide Resolve;
    hide TurnLocal;
    hide Turns;
    forall k | k in before && k in remote && ResolveAt(before, remote, k) == Union
      ensures remote[k].payload == before[k].payload ||
              (var u := UnionId(k, remote[k].payload, suffix);
               && u in end && end[u].payload == remote[k].payload
               && (u !in before && u !in remote ==> Leq(remote[k].vector, end[u].vector)))
    {
      assert remote[k].payload in Payloads(remote);
    }
  }

  class PeerMeshService {
    const peers: seq<string>
    const suffix: Suffix
    /** The state behind the `snapshot` and `commit` callbacks. */
    var store: Replica
    var lastGossip: map<string, Summary>

    constructor (peers: seq<string>, suffix: Suffix, store: Replica)
      ensures this.peers == peers && this.suffix == suffix && this.store == store && lastGossip == map[]
    {
      this.peers, this.suffix, this.store, lastGossip := peers, suffix, store, map[];
    }

    /** `gossip_once`: the store ends up as the loop's local state, whichever requests failed and whatever the
        peers sent. */
    method GossipOnce(replies: seq<PeerReply>) returns (summary: map<string, Summary>)
      requires |replies| == |peers| && WellKeyed(store)
      modifies this
      ensures Pass(store, summary, lastGossip) ==
              Turns(Pass(old(store), map[], old(lastGossip)), peers, replies, suffix)
      ensures WellKeyed(store)
      ensures FixedWidth(suffix) && WellFormed(old(store)) && AllWellFormed(replies) ==> WellFormed(store)
    {
      hide MerkleTree.Leaves;
      hide TurnLocal;
      hide TurnSummary;
      summary := map[];
      var local := store;
      var localTree := TreeOf(local);
      ghost var start := Pass(store, map[], lastGossip);
      for i := 0 to |peers|
        invariant store == local && WellKeyed(local)
        invariant fresh(localTree) && localTree.Valid() && localTree.leaves == Leaves(local)
        invariant Pass(local, summary, lastGossip) == Turns(start, peers[..i], replies[..i], suffix)
      {
        var peer, reply := peers[i], replies[i];
        assert peers[..i + 1][..i] == peers[..i] && replies[..i + 1][..i] == replies[..i];
        var next, entry := TakeTurn(local, localTree, reply, suffix);
        if entry.Exchanged? && entry.changed > 0 {
          store := next;
          local := next;
          localTree := TreeOf(local);
        }
        summary := summary[peer := entry];
        if entry != PeerError {
          lastGossip := lastGossip[peer := entry];
        }
      }
      assert peers[..|peers|] == peers && replies[..|replies|] == replies;
      if FixedWidth(suffix) && WellFormed(start.local) && AllWellFormed(replies) {
        TurnsKeepWellFormed(start, peers, replies, suffix);
      }
    }
  }

  /** One peer's turn up to the commit.  Unless the entry reports changes, there is nothing to commit. */
  method TakeTurn(local: Replica, localTree: ObjectMerkleTree, reply: PeerReply, suffix: Suffix)
    returns (next: Replica, entry: Summary)
    requires WellKeyed(local) && localTree.Valid() && localTree.leaves == Leaves(local)
    ensures next == TurnLocal(local, reply, suffix) && WellKeyed(next)
    ensures entry == TurnSummary(local, reply)
    ensures !(entry.Exchanged? && entry.changed > 0) ==> next == local
  {
    hide MerkleTree.Leaves;
    hide Reconciliation.Reconciled;
    if reply.roots.RootsFailed? {
      return local, PeerError;
    }
    var localRoot := localTree.RootHash();
    if localRoot == reply.roots.root {
      return local, Converged;
    }
    if reply.objects.ObjectsFailed? {
      return local, PeerError;
    }
    var remote := IndexRecords(reply.objects.records);
    IndexIsWellKeyed(reply.objects.records);
    ReconciledKeepsWellKeyed(local, remote, suffix);
    next, entry := Exchange(local, localTree, remote, suffix);
    if entry.changed == 0 {
      NoChangesMeansIdentity(local, remote, suffix);
    }
  }

  method TreeOf(m: Replica) returns (tree: ObjectMerkleTree)
    requires WellKeyed(m)
    ensures fresh(tree) && tree.Valid() && tree.leaves == Leaves(m)
  {
    var objects := ListValues(m);
    LeafMapOfReplica(objects, m);
    tree := new ObjectMerkleTree(objects);
  }

  /** The second tier of a peer's turn: diff, plan, apply and account. */
  method Exchange(local: Replica, localTree: ObjectMerkleTree, remote: Replica, suffix: Suffix)
    returns (next: Replica, entry: Summary)
    requires WellKeyed(local) && WellKeyed(remote)
    requires localTree.Valid() && localTree.leaves == Leaves(local)
    ensures next == Reconciled(local, remote, suffix)
    ensures entry == ExchangeSummary(local, remote)
  {
    var remoteTree := TreeOf(remote);
    var divergent := localTree.DivergentIds(remoteTree);
    assert Elements(divergent) == DivergentIds(local, remote);
    SortedUnique(divergent, Sorted(DivergentIds(local, remote)));
    var plan := Reconcile(local, remote);
    PlanIsApplicable(local, remote, plan);
    next := ApplyPlan(local, remote, plan, suffix);
    var changed := CountChanges(local, remote, plan);
    var resolutions := SelectResolutions(local, remote, plan, divergent);
    entry := Exchanged(|divergent|, changed, resolutions);
  }

  method SelectResolutions(local: Replica, remote: Replica, plan: seq<PlanItem>, divergent: seq<Id>)
    returns (resolutions: map<Id, Resolution>)
    requires IsPlan(plan, local, remote) && Elements(divergent) <= local.Keys + remote.Keys
    ensures resolutions == map k | k in Elements(divergent) :: ResolveAt(local, remote, k)
  {
    hide Resolve;
    resolutions := map[];
    for i := 0 to |plan|
      invariant forall k | k in resolutions :: k in divergent
      invariant forall j | 0 <= j < i && plan[j].id in divergent :: plan[j].id in resolutions
      invariant forall k | k in resolutions ::
                  (k in local || k in remote) && resolutions[k] == ResolveAt(local, remote, k)
    {
      if plan[i].id in divergent {
        resolutions := resolutions[plan[i].id := plan[i].resolution];
      }
    }
    forall k | k in Elements(divergent)
      ensures k in resolutions
    {
      assert k in local || k in remote;
      var i :| 0 <= i < |plan| && plan[i].id == k;
    }
    assert resolutions.Keys == Elements(divergent);
  }

  method CountChanges(local: Replica, remote: Replica, plan: seq<PlanItem>) returns (changed: nat)
    requires IsPlan(plan, local, remote)
    ensures changed == |ChangedIds(local, remote)|
  {
    hide IsPlan;
    hide Resolve;
    changed := 0;
    for i := 0 to |plan|
      invariant changed == ChangesIn(plan[..i])
    {
      assert plan[..i + 1][..i] == plan[..i];
      if Changes(plan[i].resolution) {
        changed := changed + 1;
      }
    }
    assert plan[..|plan|] == plan;
    PlanChanges(local, remote, plan);
  }

  lemma PlanChanges(local: Replica, remote: Replica, plan: seq<PlanItem>)
    requires IsPlan(plan, local, remote)
    ensures ChangesIn(plan) == |ChangedIds(local, remote)|
  {
    ChangesInCounts(plan);
    ChangingItemsAreChanges(local, remote, plan);
  }

  function ChangesIn(plan: seq<PlanItem>): nat {
    if plan == [] then 0
    else ChangesIn(plan[..|plan| - 1]) + if Changes(plan[|plan| - 1].resolution) then 1 else 0
  }

  ghost function ChangingItems(plan: seq<PlanItem>): set<Id> {
    if plan == [] then {}
    else ChangingItems(plan[..|plan| - 1]) + if Changes(plan[|plan| - 1].resolution) then {plan[|plan| - 1].id} else {}
  }

  lemma {:induction false} ChangingItemsAre(plan: seq<PlanItem>)
    ensures forall k ::
              k in ChangingItems(plan) <==>
              exists i :: 0 <= i < |plan| && plan[i].id == k && Changes(plan[i].resolution)
  {
    if plan != [] {
      var n := |plan| - 1;
      ChangingItemsAre(plan[..n]);
      assert plan == plan[..n] + [plan[n]];
    }
  }

  lemma {:induction false} ChangesInCounts(plan: seq<PlanItem>)
    requires forall i, j | 0 <= i < j < |plan| :: plan[i].id != plan[j].id
    ensures ChangesIn(plan) == |ChangingItems(plan)|
  {
    if plan != [] {
      var n := |plan| - 1;
      ChangesInCounts(plan[..n]);
      LastIsNew(plan);
    }
  }

  lemma LastIsNew(plan: seq<PlanItem>)
    requires plan != [] && forall i, j | 0 <= i < j < |plan| :: plan[i].id != plan[j].id
    ensures plan[|plan| - 1].id !in ChangingItems(plan[..|plan| - 1])
  {
    ChangingItemsAre(plan[..|plan| - 1]);
  }

  lemma ChangingItemsAreChanges(local: Replica, remote: Replica, plan: seq<PlanItem>)
    requires IsPlan(plan, local, remote)
    ensures ChangingItems(plan) == ChangedIds(local, remote)
  {
    hide Resolve;
    hide Changes;
    ChangingItemsAre(plan);
    forall k | k in ChangedIds(local, remote)
      ensures k in ChangingItems(plan)
    {
      var i :| 0 <= i < |plan| && plan[i].id == k;
      assert plan[i].resolution == ResolveAt(local, remote, k);
    }
  }

  // ----- narrow exchange -----

  /** What has to be fetched according to a manifest: listed ids whose leaf hash differs locally. */
  ghost function ToFetch(local: Replica, manifest: map<Id, Digest>): set<Id> {
    set k | k in manifest && Get(Leaves(local), k) != Some(manifest[k])
  }

  /** `divergent_ids_from_manifest`: what to fetch and what the remote side will fetch. */
  method DivergentIdsFromManifest(local: Replica, manifest: map<Id, Digest>)
    returns (fetchIds: seq<Id>, sendIds: seq<Id>)
    ensures IsSorted(fetchIds, ToFetch(local, manifest))
    ensures IsSorted(sendIds, local.Keys - manifest.Keys)
  {
    var hashes := map k | k in local :: Leaf(local[k]);
    assert hashes == Leaves(local);
    var all := SortIds(hashes.Keys + manifest.Keys);
    ghost var toFetch := ToFetch(local, manifest);
    ghost var toSend := local.Keys - manifest.Keys;
    fetchIds, sendIds := [], [];
    for i := 0 to |all|
      invariant IsSorted(fetchIds, toFetch * Elements(all[..i]))
      invariant IsSorted(sendIds, toSend * Elements(all[..i]))
    {
      assert all[i] in Elements(all);
      SelectNext(fetchIds, toFetch, all, i);
      SelectNext(sendIds, toSend, all, i);
      var lo, ro := Get(hashes, all[i]), Get(manifest, all[i]);
      if lo == ro {
        continue;
      }
      if ro.None? {
        sendIds := sendIds + [all[i]];
      } else {
        fetchIds := fetchIds + [all[i]];
      }
    }
    assert all[..|all|] == all;
    assert toFetch * Elements(all) == toFetch && toSend * Elements(all) == toSend;
  }

  /** `fetch_objects` of the in-memory wire: the listed objects it has, or all of them for the wildcard. */
  function FetchObjects(objects: Replica, ids: seq<Id>): Replica {
    if ids == ["*"] then objects else map k | k in ids && k in objects :: objects[k]
  }

  /** Fetch and send ids split the divergent ids of the two trees between them. */
  lemma ManifestSplitsDivergentIds(local: Replica, remote: Replica)
    ensures var (fetch, send) := (ToFetch(local, Leaves(remote)), local.Keys - Leaves(remote).Keys);
            fetch !! send && fetch + send == DivergentIds(local, remote)
  {
  }

  /** Under one id, the kinds agree or have no NUL bytes; the ids do not matter. */
  ghost predicate KindsClear(local: Replica, remote: Replica) {
    forall k | k in local && k in remote ::
      local[k].kind == remote[k].kind || (NUL !in local[k].kind && NUL !in remote[k].kind)
  }

  /** The narrow exchange refines the full one: pulling only what the manifest makes the loop fetch leaves
      the same contents as pulling the whole remote state, also when an object that happens to be called
      `*` turns the request into a wildcard; exactly unless the full pull marks an object as superseded that
      both sides hold with the same content, which on consistent replicas it never does. */
  lemma NarrowExchangeRefinesFull(local: Replica, remote: Replica, fetchIds: seq<Id>, suffix: Suffix)
    requires WellKeyed(local) && WellKeyed(remote) && KindsClear(local, remote) && FixedWidth(suffix)
    requires Elements(fetchIds) == ToFetch(local, Leaves(remote))
    ensures SameContents(Pull(local, FetchObjects(remote, fetchIds), suffix), Pull(local, remote, suffix)) <==>
              fetchIds == ["*"] || NoneSupersededInPlace(local, remote)
    ensures Consistent(local) && Consistent(remote) ==> NoneSupersededInPlace(local, remote)
  {
    if fetchIds != ["*"] {
      FetchedAreNarrowed(local, remote, fetchIds);
      NarrowPullHasSameContents(local, remote, suffix);
    }
    if Consistent(local) && Consistent(remote) {
      ConsistentStayInPlace(local, remote);
    }
    hide Pull;
    hide NoneSupersededInPlace;
    hide Consistent;
    hide Leaves;
  }

  lemma FetchedAreNarrowed(local: Replica, remote: Replica, fetchIds: seq<Id>)
    requires WellKeyed(local) && WellKeyed(remote) && KindsClear(local, remote)
    requires Elements(fetchIds) == ToFetch(local, Leaves(remote))
    requires fetchIds != ["*"]
    ensures FetchObjects(remote, fetchIds) == Narrowed(local, remote)
  {
    var fetched, narrowed := FetchObjects(remote, fetchIds), Narrowed(local, remote);
    forall k
      ensures k in fetched <==> k in narrowed
    {
      assert k in fetchIds <==> k in Elements(fetchIds);
      if k in local && k in remote {
        LeavesOfOneId(local[k], remote[k]);
      }
    }
    assert fetched.Keys == narrowed.Keys;
  }

  /** The ids a Merkle diff reports are exactly the ids whose contents differ. */
  lemma DivergentIdsAreDifferences(local: Replica, remote: Replica, k: Id)
    requires WellKeyed(local) && WellKeyed(remote) && KindsClear(local, remote)
    ensures k in DivergentIds(local, remote) <==> Differs(local, remote, k)
  {
    if k in local && k in remote {
      LeavesOfOneId(local[k], remote[k]);
    }
  }
}
