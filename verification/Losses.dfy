/** What pulls keep and what they can lose: ids, captures and deletions. */
module Losses {
  import opened Options
  import opened TextOrder
  import opened VersionVectors
  import opened MeshObjects
  import opened Reconciliation
  import opened Convergence

  // ----- nothing is lost -----

  lemma PullKeepsEverything(local: Replica, remote: Replica, suffix: Suffix)
    requires FixedWidth(suffix) && WellFormed(local) && WellFormed(remote)
    ensures var after := Pull(local, remote, suffix);
            WellFormed(after) && forall k | k in local :: k in after && Leq(local[k].vector, after[k].vector)
  {
    PullKeepsWellFormed(local, remote, suffix);
    forall k | k in local
      ensures Leq(local[k].vector, Pull(local, remote, suffix)[k].vector)
    {
      if k in remote {
        PulledPair(local[k], remote[k]);
      }
    }
  }

  ghost function Payloads(m: Replica): set<string> {
    set k | k in m :: m[k].payload
  }

  /** Within `payloads`, suffixes do not collide. */
  ghost predicate DistinctSuffixes(payloads: set<string>, suffix: Suffix) {
    forall p, q | p in payloads && q in payloads && suffix(p) == suffix(q) :: p == q
  }

  /** An object at the union id of a payload carries that payload. */
  ghost predicate UnionIdsHonest(m: Replica, payloads: set<string>, suffix: Suffix) {
    forall id, p | p in payloads && UnionId(id, p, suffix) in m :: m[UnionId(id, p, suffix)].payload == p
  }

  /** Every id of either side is there, of a union both captures are, and vectors have only grown. */
  ghost predicate LosesNothing(local: Replica, remote: Replica, after: Replica, suffix: Suffix) {
    && local.Keys + remote.Keys <= after.Keys
    && (forall k | k in local :: Leq(local[k].vector, after[k].vector))
    && (forall k | k in local && k in remote && ResolveAt(local, remote, k) == Union ::
          && after[k].payload == local[k].payload && Leq(remote[k].vector, after[k].vector)
          && (remote[k].payload == local[k].payload || HoldsCapture(local, remote, after, k, suffix)))
  }

  /** The remote capture of `k` is under its union id; and if no side knew this id before, it is there live, with
      its own kind and vector. */
  ghost predicate HoldsCapture(local: Replica, remote: Replica, after: Replica, k: Id, suffix: Suffix)
    requires k in remote
  {
    var u := UnionId(k, remote[k].payload, suffix);
    && u in after && after[u].payload == remote[k].payload
    && (u !in local && u !in remote ==>
          after[u].kind == remote[k].kind && after[u].vector == remote[k].vector && !after[u].tombstone)
  }

  /** A pull drops no id and no capture, and keeps the premises on union ids. */
  lemma PullLosesNothing(local: Replica, remote: Replica, payloads: set<string>, suffix: Suffix)
    requires WellFormed(local) && WellFormed(remote) && FixedWidth(suffix)
    requires Payloads(local) + Payloads(remote) <= payloads && DistinctSuffixes(payloads, suffix)
    requires UnionIdsHonest(local, payloads, suffix) && UnionIdsHonest(remote, payloads, suffix)
    ensures var pulled := Pull(local, remote, suffix);
            && WellFormed(pulled) && LosesNothing(local, remote, pulled, suffix)
            && Payloads(pulled) <= payloads && UnionIdsHonest(pulled, payloads, suffix)
  {
    assert forall k | k in local :: local[k].vector.NonNegative();
    hide *;
    PullKeepsEverything(local, remote, suffix);
    PullStaysHonest(local, remote, payloads, suffix);
    forall k | k in local && k in remote && ResolveAt(local, remote, k) == Union
      ensures UnionKept(local, remote, k, suffix)
    {
      assert Payloads(remote) <= Payloads(local) + Payloads(remote);
      UnionKeepsBoth(local, remote, k, payloads, suffix);
    }
    NothingLost(local, remote, suffix);
  }

  ghost predicate UnionKept(local: Replica, remote: Replica, k: Id, suffix: Suffix)
    requires FixedWidth(suffix) && k in local && k in remote
  {
    var pulled := Pull(local, remote, suffix);
    && pulled[k].payload == local[k].payload && Leq(remote[k].vector, pulled[k].vector)
    && (remote[k].payload == local[k].payload || HoldsCapture(local, remote, pulled, k, suffix))
  }

  lemma NothingLost(local: Replica, remote: Replica, suffix: Suffix)
    requires FixedWidth(suffix)
    requires forall k | k in local ::
               k in Pull(local, remote, suffix) && Leq(local[k].vector, Pull(local, remote, suffix)[k].vector)
    requires forall k | k in local && k in remote && ResolveAt(local, remote, k) == Union ::
               UnionKept(local, remote, k, suffix)
    ensures LosesNothing(local, remote, Pull(local, remote, suffix), suffix)
  {
    var pulled := Pull(local, remote, suffix);
    assert local.Keys + remote.Keys <= pulled.Keys;
    hide Pull;
    hide Resolve;
    hide Leq;
    hide HoldsCapture;
    forall k | k in local && k in remote && ResolveAt(local, remote, k) == Union
      ensures && pulled[k].payload == local[k].payload && Leq(remote[k].vector, pulled[k].vector)
              && (remote[k].payload == local[k].payload || HoldsCapture(local, remote, pulled, k, suffix))
    {
      assert UnionKept(local, remote, k, suffix);
    }
  }

  lemma UnionKeepsBoth(local: Replica, remote: Replica, k: Id, payloads: set<string>, suffix: Suffix)
    requires FixedWidth(suffix) && UnionIdsHonest(Pull(local, remote, suffix), payloads, suffix)
    requires Payloads(remote) <= payloads && k in local && k in remote && ResolveAt(local, remote, k) == Union
    requires local[k].vector.NonNegative()
    ensures UnionKept(local, remote, k, suffix)
  {
    UnionKeepsLocal(local[k], remote[k]);
    assert remote[k].payload in Payloads(remote);
    if Mints(local, remote, k, suffix) {
      MintingRegisters(local, remote, k, suffix);
      RegisteredCapture(local, remote, k, UnionId(k, remote[k].payload, suffix), suffix);
    }
    hide Resolve;
    hide Leq;
  }

  /** What a union registers: two captures that differ, neither newer than the other, and nothing under the union id
      yet.  The remote one is found there whole, with its kind and its vector, and live. */
  lemma RegisteredCapture(local: Replica, remote: Replica, k: Id, u: Id, suffix: Suffix)
    requires FixedWidth(suffix) && k in local && k in remote
    requires local[k].kind in {"observation", "raw_turn"} && local[k].payload != remote[k].payload
    requires !local[k].vector.Dominates(remote[k].vector) && !remote[k].vector.Dominates(local[k].vector)
    requires u == k + "~" + suffix(remote[k].payload) && u !in local && u !in remote
    ensures var pulled := Pull(local, remote, suffix);
            u in pulled && pulled[u] == MeshObject(u, remote[k].kind, remote[k].payload, remote[k].vector, false, None)
  {
    assert Mints(local, remote, k, suffix);
    MintingRegisters(local, remote, k, suffix);
    OriginOfUnionId(k, remote[k].payload, suffix);
    assert u in Pull(local, remote, suffix) && Pull(local, remote, suffix)[u] == MintedObject(remote[k], u);
    hide Pull;
    hide Mints;
    hide UnionId;
    hide FixedWidth;
    hide VersionVector.Dominates;
  }

  lemma PullStaysHonest(local: Replica, remote: Replica, payloads: set<string>, suffix: Suffix)
    requires FixedWidth(suffix) && Payloads(local) + Payloads(remote) <= payloads && DistinctSuffixes(payloads, suffix)
    requires UnionIdsHonest(local, payloads, suffix) && UnionIdsHonest(remote, payloads, suffix)
    ensures var pulled := Pull(local, remote, suffix);
            Payloads(pulled) <= payloads && UnionIdsHonest(pulled, payloads, suffix)
  {
    var pulled := Pull(local, remote, suffix);
    forall k | k in pulled
      ensures pulled[k].payload in payloads
    {
      PulledPayload(local, remote, k, suffix);
      assert Payloads(local) <= payloads && Payloads(remote) <= payloads;
      assert k in local ==> local[k].payload in Payloads(local);
      assert k in remote ==> remote[k].payload in Payloads(remote);
      assert Origin(k) in remote ==> remote[Origin(k)].payload in Payloads(remote);
    }
    forall id, p | p in payloads && UnionId(id, p, suffix) in pulled
      ensures pulled[UnionId(id, p, suffix)].payload == p
    {
      HonestAfterPull(local, remote, id, p, payloads, suffix);
    }
  }

  lemma HonestAfterPull(local: Replica, remote: Replica, id: Id, p: string, payloads: set<string>, suffix: Suffix)
    requires FixedWidth(suffix) && Payloads(remote) <= payloads && DistinctSuffixes(payloads, suffix)
    requires UnionIdsHonest(local, payloads, suffix) && UnionIdsHonest(remote, payloads, suffix)
    requires p in payloads && UnionId(id, p, suffix) in Pull(local, remote, suffix)
    ensures Pull(local, remote, suffix)[UnionId(id, p, suffix)].payload == p
  {
    var u := UnionId(id, p, suffix);
    PulledPayload(local, remote, u, suffix);
    hide Pull;
    if u !in local && u !in remote {
      MintedFrom(local, remote, u, id, p, suffix);
      var q := remote[id].payload;
      assert q in Payloads(remote);
      if p != q {
        SuffixesDiffer(id, p, q, suffix);
      }
    }
  }

  lemma MintedFrom(local: Replica, remote: Replica, u: Id, id: Id, p: string, suffix: Suffix)
    requires FixedWidth(suffix) && u == UnionId(id, p, suffix) && u !in local && u !in remote
    requires u in Pull(local, remote, suffix)
    ensures Origin(u) == id && id in remote && u == UnionId(id, remote[id].payload, suffix)
  {
    MintedOrigins(local, remote, suffix);
    OriginOfUnionId(id, p, suffix);
  }

  lemma UnionKeepsLocal(lo: MeshObject, ro: MeshObject)
    requires Resolve(Some(lo), Some(ro)) == Union
    ensures PulledObject(Some(lo), Some(ro)).payload == lo.payload
    ensures lo.vector.NonNegative() ==> Leq(ro.vector, PulledObject(Some(lo), Some(ro)).vector)
  {
  }

  lemma PulledPayload(local: Replica, remote: Replica, k: Id, suffix: Suffix)
    requires FixedWidth(suffix) && k in Pull(local, remote, suffix)
    ensures var p := Pull(local, remote, suffix)[k].payload;
            || (k in local && p == local[k].payload)
            || (k in remote && p == remote[k].payload)
            || (&& k !in local && k !in remote && Mints(local, remote, Origin(k), suffix)
                && p == remote[Origin(k)].payload)
  {
    if k in local || k in remote {
      ObjectPayload(Get(local, k), Get(remote, k));
    } else {
      MintedOrigins(local, remote, suffix);
    }
  }

  lemma ObjectPayload(lo: Option<MeshObject>, ro: Option<MeshObject>)
    requires lo.Some? || ro.Some?
    ensures var p := PulledObject(lo, ro).payload;
            (lo.Some? && p == lo.value.payload) || (ro.Some? && p == ro.value.payload)
  {
  }

  /** The pull leaves the remote side's payload at `k`: the remote object is alone, dominates, is the only
      deleted one of a concurrent pair that is not immutable, or is the only one of a concurrent pair of facts to
      name a successor. */
  ghost predicate RemotePrevails(local: Replica, remote: Replica, k: Id) {
    && k in remote
    && (k in local ==>
          && !local[k].vector.Dominates(remote[k].vector)
          && (|| remote[k].vector.Dominates(local[k].vector)
              || (!ImmutableKind(local[k].kind) && !local[k].tombstone && remote[k].tombstone)
              || (ResolveAt(local, remote, k) == Superseded && local[k].supersededBy != Some(remote[k].id))))
  }

  ghost function PrevailingPayload(local: Replica, remote: Replica, k: Id): string
    requires k in local || k in remote
  {
    if RemotePrevails(local, remote, k) then remote[k].payload else local[k].payload
  }

  lemma PrevailingIsPulled(local: Replica, remote: Replica, k: Id)
    requires k in local || k in remote
    ensures PulledObject(Get(local, k), Get(remote, k)).payload == PrevailingPayload(local, remote, k)
  {
  }

  /** Where a union registers the remote capture, that capture is found afterwards exactly if the union id was
      free on both sides, or the side that prevails there already holds it. */
  lemma CaptureKeptExactlyWhen(local: Replica, remote: Replica, k: Id, suffix: Suffix)
    requires FixedWidth(suffix) && k in local && k in remote
    requires ResolveAt(local, remote, k) == Union && local[k].payload != remote[k].payload
    ensures var (pulled, p) := (Pull(local, remote, suffix), remote[k].payload);
            var u := UnionId(k, p, suffix);
            u in pulled && (pulled[u].payload == p <==>
                              || (u !in local && u !in remote)
                              || (RemotePrevails(local, remote, u) && remote[u].payload == p)
                              || (!RemotePrevails(local, remote, u) && u in local && local[u].payload == p))
  {
    var u := UnionId(k, remote[k].payload, suffix);
    MintedOrigins(local, remote, suffix);
    OriginOfUnionId(k, remote[k].payload, suffix);
    if u in local || u in remote {
      PrevailingIsPulled(local, remote, u);
    }
    if Mints(local, remote, k, suffix) {
      MintingRegisters(local, remote, k, suffix);
    }
    hide Resolve;
    hide PulledObject;
    hide RemotePrevails;
  }

  /** A payload is held somewhere after a pull exactly if it prevails under some known id, or some concurrent
      immutable capture of the remote side carries it, differs from the local one and has a free union id. */
  lemma PayloadSurvivesExactlyWhen(local: Replica, remote: Replica, p: string, suffix: Suffix)
    requires FixedWidth(suffix)
    ensures p in Payloads(Pull(local, remote, suffix)) <==>
              || (exists k :: k in local.Keys + remote.Keys && PrevailingPayload(local, remote, k) == p)
              || (exists k ::
                    k in local.Keys * remote.Keys && Mints(local, remote, k, suffix) && remote[k].payload == p)
  {
    var pulled := Pull(local, remote, suffix);
    MintedOrigins(local, remote, suffix);
    forall k | k in local.Keys + remote.Keys
      ensures k in pulled && pulled[k].payload == PrevailingPayload(local, remote, k)
    {
      PrevailingIsPulled(local, remote, k);
    }
    forall k | k in local.Keys * remote.Keys && Mints(local, remote, k, suffix)
      ensures var u := UnionId(k, remote[k].payload, suffix); u in pulled && pulled[u].payload == remote[k].payload
    {
      MintingRegisters(local, remote, k, suffix);
      OriginOfUnionId(k, remote[k].payload, suffix);
    }
    hide Mints;
    hide PulledObject;
    hide RemotePrevails;
    if p in Payloads(pulled) {
      var j :| j in pulled && pulled[j].payload == p;
      if j !in local && j !in remote {
        assert Mints(local, remote, Origin(j), suffix) && remote[Origin(j)].payload == p by {
          MintedOrigins(local, remote, suffix);
        }
        MintsBothKnow(local, remote, Origin(j), suffix);
      }
    }
  }

  lemma MintsBothKnow(local: Replica, remote: Replica, k: Id, suffix: Suffix)
    requires Mints(local, remote, k, suffix)
    ensures k in local.Keys * remote.Keys
  {
  }

  /** When the union id of the remote capture already holds something else locally, and nothing else carries
      the capture, the pull drops it. */
  lemma OccupiedUnionIdLoses(local: Replica, remote: Replica, id: Id, suffix: Suffix)
    requires FixedWidth(suffix) && id in local && id in remote && ResolveAt(local, remote, id) == Union
    requires UnionId(id, remote[id].payload, suffix) in local && remote[id].payload !in Payloads(local)
    requires forall k | k in remote && k != id :: remote[k].payload != remote[id].payload
    ensures remote[id].payload in Payloads(remote) && remote[id].payload !in Payloads(Pull(local, remote, suffix))
  {
    var p := remote[id].payload;
    assert p in Payloads(remote) && !Mints(local, remote, id, suffix);
    PayloadSurvivesExactlyWhen(local, remote, p, suffix);
    forall k | k in local.Keys + remote.Keys
      ensures PrevailingPayload(local, remote, k) != p
    {
      assert k in local ==> local[k].payload in Payloads(local);
    }
    hide Resolve;
    hide Pull;
    hide RemotePrevails;
  }

  /** Two colliding suffixes are enough for that. */
  lemma CollidingSuffixLoses(suffix: Suffix, id: Id, mine: string, earlier: string, later: string)
    returns (local: Replica, remote: Replica)
    requires FixedWidth(suffix) && suffix(earlier) == suffix(later) && later != earlier && later != mine
    ensures WellFormed(local) && WellFormed(remote)
    ensures later in Payloads(remote) && later !in Payloads(Pull(local, remote, suffix))
  {
    var u := UnionId(id, earlier, suffix);
    OriginOfUnionId(id, earlier, suffix);
    var x := MeshObject(id, "observation", mine, VersionVector(map["a" := 1]), false, None);
    var y := MeshObject(u, "observation", earlier, VersionVector(map["b" := 1]), false, None);
    var z := MeshObject(id, "observation", later, VersionVector(map["b" := 2]), false, None);
    local, remote := map[id := x, u := y], map[id := z];
    assert z.payload == later && UnionId(id, later, suffix) == u;
    ConcurrentCaptures(x, z);
    TwoObjects(x, y);
    OneObject(z);
    hide *;
    assert ResolveAt(local, remote, id) == Union by { ResolvesAs(local, remote, id); }
    OccupiedUnionIdLoses(local, remote, id, suffix);
  }

  lemma ResolvesAs(local: Replica, remote: Replica, k: Id)
    requires k in local && k in remote
    ensures ResolveAt(local, remote, k) == Resolve(Some(local[k]), Some(remote[k]))
  {
  }

  lemma TwoObjects(x: MeshObject, y: MeshObject)
    requires x.id != y.id && x.vector.NonNegative() && y.vector.NonNegative()
    requires x.supersededBy.None? && y.supersededBy.None?
    ensures var m := map[x.id := x, y.id := y];
            && WellFormed(m) && x.id in m && m[x.id] == x && y.id in m
            && Payloads(m) == {x.payload, y.payload}
  {
    var m := map[x.id := x, y.id := y];
    assert m[x.id] == x && m[y.id] == y;
  }

  lemma OneObject(x: MeshObject)
    requires x.vector.NonNegative() && x.supersededBy.None?
    ensures var m := map[x.id := x];
            WellFormed(m) && m.Keys == {x.id} && m[x.id] == x
  {
  }

  lemma ConcurrentCaptures(lo: MeshObject, ro: MeshObject)
    requires lo.kind == ro.kind == "observation"
    requires lo.vector.counts.Keys == {"a"} && ro.vector.counts.Keys == {"b"}
    requires lo.vector.Positive() && ro.vector.Positive()
    ensures Resolve(Some(lo), Some(ro)) == Union
  {
    assert "b" in ro.vector.counts && lo.vector.Count("b") == 0;
    assert "a" in lo.vector.counts && ro.vector.Count("a") == 0;
  }

  // ----- deletions -----

  /** A deletion is undone only by a remote write that causally follows it. */
  lemma TombstoneLiftedOnlyByDominatingRemote(local: Replica, remote: Replica, k: Id, suffix: Suffix)
    requires FixedWidth(suffix) && k in local && local[k].tombstone
    ensures var pulled := Pull(local, remote, suffix);
            !pulled[k].tombstone <==>
              && k in remote && !remote[k].tombstone
              && remote[k].vector.Dominates(local[k].vector) && !local[k].vector.Dominates(remote[k].vector)
  {
  }

  /** Deletes win over concurrent presence, except that a pull keeps a live immutable capture against a
      concurrent remote deletion (what it then registers for the deleted side is live as well), and marks the
      superseded one of two live facts as deleted. */
  lemma DeletesWin(local: Replica, remote: Replica, k: Id, suffix: Suffix)
    requires FixedWidth(suffix) && k in local && k in remote
    requires !local[k].vector.Dominates(remote[k].vector) && !remote[k].vector.Dominates(local[k].vector)
    ensures var pulled := Pull(local, remote, suffix);
            (pulled[k].tombstone == (local[k].tombstone || remote[k].tombstone)) <==>
              !(ImmutableKind(local[k].kind) && remote[k].tombstone && !local[k].tombstone)
              && ResolveAt(local, remote, k) != Superseded
    ensures var (pulled, u) := (Pull(local, remote, suffix), UnionId(k, remote[k].payload, suffix));
            Mints(local, remote, k, suffix) ==> u in pulled && !pulled[u].tombstone
  {
    var pulled := Pull(local, remote, suffix);
    assert pulled[k] == PulledObject(Some(local[k]), Some(remote[k]));
    ConcurrentDeletion(local[k], remote[k]);
    MintedOrigins(local, remote, suffix);
    OriginOfUnionId(k, remote[k].payload, suffix);
    if Mints(local, remote, k, suffix) {
      MintingRegisters(local, remote, k, suffix);
    }
    hide Resolve;
    hide PulledObject;
    hide Mints;
  }

  lemma ConcurrentDeletion(lo: MeshObject, ro: MeshObject)
    requires !lo.vector.Dominates(ro.vector) && !ro.vector.Dominates(lo.vector)
    ensures (PulledObject(Some(lo), Some(ro)).tombstone == (lo.tombstone || ro.tombstone)) <==>
              !(ImmutableKind(lo.kind) && ro.tombstone && !lo.tombstone) && Resolve(Some(lo), Some(ro)) != Superseded
  {
  }

  /** An example: an observation that was deleted on the other side while it was edited here stays alive. */
  lemma DeletedCaptureStaysAlive(id: Id, suffix: Suffix) returns (local: Replica, remote: Replica)
    requires FixedWidth(suffix)
    ensures WellFormed(local) && WellFormed(remote)
    ensures id in local && id in remote && remote[id].tombstone && !remote[id].vector.Dominates(local[id].vector)
    ensures !Pull(local, remote, suffix)[id].tombstone
  {
    var x := MeshObject(id, "observation", "", VersionVector(map["a" := 1]), false, None);
    var y := MeshObject(id, "observation", "", VersionVector(map["b" := 1]), true, None);
    local, remote := map[id := x], map[id := y];
    OneObject(x);
    OneObject(y);
    ConcurrentCaptures(x, y);
  }
}
