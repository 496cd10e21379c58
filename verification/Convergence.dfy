/** What one pull, one exchange and repeated exchanges do to a pair of replicas. */
module Convergence {
  import opened Options
  import opened TextOrder
  import opened VersionVectors
  import opened MeshObjects
  import opened Reconciliation

  // ----- pulling twice -----

  /** A vector that has absorbed `v` and `w` is not dominated by either and absorbs them again unchanged. */
  lemma MergedVector(v: VersionVector, w: VersionVector)
    requires v.NonNegative() && w.NonNegative()
    ensures var m := v.Merge(w);
            && !v.Dominates(m) && !w.Dominates(m) && m.Merge(v) == m && m.Merge(w) == m
  {
    var m := v.Merge(w);
    MergeLeastUpperBound(v, w);
    AbsorbedNeverDominates(v, m);
    AbsorbedNeverDominates(w, m);
    MergeAbsorbs(v, w);
    assert m.Merge(v).counts == m.counts;
  }

  /** For all vectors, whatever the signs: having absorbed `w`, a vector that `w` did not dominate is not
      dominated by it, and absorbs it again unchanged; and so does `w` itself, having absorbed anything. */
  lemma AbsorbingVector(v: VersionVector, w: VersionVector)
    ensures v.Merge(w).Merge(w) == v.Merge(w)
    ensures !w.Dominates(v) ==> !w.Dominates(v.Merge(w))
    ensures w.Merge(v).Merge(w) == w.Merge(v) && !w.Dominates(w.Merge(v))
  {
    MergeAbsorbs(v, w);
    AbsorbsItself(w, v);
    if w.Dominates(v.Merge(w)) {
      DominatedBefore(v, w);
    }
  }

  lemma AbsorbsItself(w: VersionVector, v: VersionVector)
    ensures w.Merge(v).Merge(w) == w.Merge(v) && !w.Dominates(w.Merge(v))
  {
    var m := w.Merge(v);
    assert m.Merge(w).counts == m.counts;
    assert forall r | r in m.counts :: w.Count(r) <= m.counts[r];
  }

  lemma DominatedBefore(v: VersionVector, w: VersionVector)
    requires w.Dominates(v.Merge(w))
    ensures w.Dominates(v)
  {
    var m := v.Merge(w);
    forall r | r in v.counts
      ensures v.counts[r] <= w.Count(r)
    {
      assert m.counts[r] <= w.Count(r);
    }
    assert m.counts.Keys == v.counts.Keys + w.counts.Keys;
    if m.counts != map[] {
      var r :| r in m.counts && m.counts[r] < w.Count(r);
      assert r in v.counts && v.counts[r] < w.Count(r);
    }
  }

  /** An object that has absorbed the remote vector survives a pull as it is. */
  lemma AbsorbedObject(p: MeshObject, ro: MeshObject)
    requires !ro.vector.Dominates(p.vector) && p.vector.Merge(ro.vector) == p.vector
    requires
      || ImmutableKind(p.kind) || p.tombstone
      || (!ro.tombstone && !(SupersessionKind(p.kind) && SupersessionPair(p, ro)))
    ensures PulledObject(Some(p), Some(ro)) == p
  {
  }

  /** A live fact that names itself as its successor is fetched, and what is fetched does not dominate it at once:
      only where an empty vector has overruled negative counts, it does. */
  ghost predicate FetchesSelfSuperseding(lo: Option<MeshObject>, ro: Option<MeshObject>)
    requires lo.Some? || ro.Some?
  {
    && Resolve(lo, ro) == FetchRemote && SelfSuperseding(ro.value)
    && (lo.None? || ro.value.vector.counts != map[])
  }

  /** Pulling an object into what it has already been pulled into changes nothing, unless it is a live fact that
      names itself as its successor: once fetched, the second pull deletes it. */
  lemma PairIdempotent(lo: MeshObject, ro: MeshObject)
    ensures var p := PulledObject(Some(lo), Some(ro));
            PulledObject(Some(p), Some(ro)) == p <==>
              !FetchesSelfSuperseding(Some(lo), Some(ro))
  {
    var p, resolution := PulledObject(Some(lo), Some(ro)), Resolve(Some(lo), Some(ro));
    if resolution in {FetchRemote, Union, RemoveWins, Superseded} {
      AbsorbingVector(lo.vector, ro.vector);
      if resolution == FetchRemote && SelfSuperseding(ro) {
        FetchedDominates(ro.vector, lo.vector);
        SecondPullDeletes(p, ro);
      } else {
        AbsorbedObject(p, ro);
      }
    }
  }

  lemma SecondPullDeletes(p: MeshObject, ro: MeshObject)
    requires !ro.vector.Dominates(p.vector) && p == ro.(vector := p.vector) && SelfSuperseding(ro)
    requires p.vector.Merge(ro.vector) == p.vector
    ensures PulledObject(Some(p), Some(ro)) == p <==> p.vector.Dominates(ro.vector)
  {
  }

  lemma FetchedDominates(w: VersionVector, v: VersionVector)
    requires w.Dominates(v)
    ensures w.Merge(v).Dominates(w) <==> w.counts == map[]
  {
    var m := w.Merge(v);
    assert forall r | r in w.counts :: m.counts[r] == w.counts[r];
    if w.counts == map[] {
      var r :| r in v.counts;
      assert r in m.counts;
    }
  }

  lemma SameObject(o: MeshObject)
    ensures PulledObject(Some(o), Some(o)) == o <==> !SelfSuperseding(o)
  {
    MergeAbsorbs(o.vector, o.vector);
    assert !o.vector.Dominates(o.vector) && o.vector.Merge(o.vector) == o.vector;
    if SelfSuperseding(o) {
      SecondPullDeletes(o, o);
    } else {
      AbsorbedObject(o, o);
    }
  }

  /** A union that is resolved a second time was resolved as one the first time. */
  lemma UnionAgain(lo: MeshObject, ro: MeshObject)
    requires var p := PulledObject(Some(lo), Some(ro));
             Resolve(Some(p), Some(ro)) == Union && p.payload != ro.payload
    ensures Resolve(Some(lo), Some(ro)) == Union && lo.payload != ro.payload
  {
  }

  /** A second pull from the same remote state finds every union id already registered. */
  lemma NothingLeftToMint(local: Replica, remote: Replica, suffix: Suffix)
    requires FixedWidth(suffix)
    ensures MintedIds(Pull(local, remote, suffix), remote, suffix) == {}
  {
    var pulled := Pull(local, remote, suffix);
    forall id | id in pulled.Keys
      ensures !Mints(pulled, remote, id, suffix)
    {
      if
        && id in local && id in remote
        && ResolveAt(pulled, remote, id) == Union && pulled[id].payload != remote[id].payload
      {
        UnionAgain(local[id], remote[id]);
        var u := UnionId(id, remote[id].payload, suffix);
        assert Mints(local, remote, id, suffix) ==> u in MintedIds(local, remote, suffix);
        assert u in pulled;
      }
    }
  }

  /** Pulling is idempotent, union ids included, exactly unless a live fact that names itself as its successor is
      fetched. */
  lemma PullIsIdempotent(local: Replica, remote: Replica, suffix: Suffix)
    requires FixedWidth(suffix)
    ensures var pulled := Pull(local, remote, suffix);
            Pull(pulled, remote, suffix) == pulled <==>
              forall k | k in remote :: !FetchesSelfSuperseding(Get(local, k), Get(remote, k))
  {
    var pulled := Pull(local, remote, suffix);
    NothingLeftToMint(local, remote, suffix);
    SecondPullHasSameIds(local, remote, suffix);
    forall k | k in pulled
      ensures k in Pull(pulled, remote, suffix)
      ensures Pull(pulled, remote, suffix)[k] == pulled[k] <==>
                !(k in remote && FetchesSelfSuperseding(Get(local, k), Get(remote, k)))
    {
      SecondPullAt(local, remote, k, suffix);
    }
    assert remote.Keys <= pulled.Keys;
    hide Pull;
    hide FetchesSelfSuperseding;
  }

  lemma SecondPullHasSameIds(local: Replica, remote: Replica, suffix: Suffix)
    requires FixedWidth(suffix) && MintedIds(Pull(local, remote, suffix), remote, suffix) == {}
    ensures Pull(Pull(local, remote, suffix), remote, suffix).Keys == Pull(local, remote, suffix).Keys
  {
    hide PulledObject;
    hide MintedIds;
  }

  lemma SecondPullAt(local: Replica, remote: Replica, k: Id, suffix: Suffix)
    requires FixedWidth(suffix)
    requires var pulled := Pull(local, remote, suffix); k in pulled && k in Pull(pulled, remote, suffix)
    ensures var pulled := Pull(local, remote, suffix);
            Pull(pulled, remote, suffix)[k] == pulled[k] <==>
              !(k in remote && FetchesSelfSuperseding(Get(local, k), Get(remote, k)))
  {
    if k in remote && k in local {
      PairIdempotent(local[k], remote[k]);
    } else if k in remote {
      SameObject(remote[k]);
    }
  }

  // ----- pulling without effect -----

  /** A common object that a pull leaves as it is, with nothing to register for it. */
  ghost predicate Unmoved(local: Replica, remote: Replica, k: Id, suffix: Suffix)
    requires k in local && k in remote
  {
    var (l, r) := (local[k], remote[k]);
    var absorbed := l.vector.Merge(r.vector) == l.vector;
    match ResolveAt(local, remote, k)
    case FetchRemote => false
    case Union => absorbed && (l.payload == r.payload || UnionId(k, r.payload, suffix) in local)
    case RemoveWins => absorbed && l.tombstone
    case Superseded => false
    case _ => true
  }

  /** A pull is the identity exactly if the remote side has no new id, dominates and supersedes nowhere, and has
      been absorbed wherever a union or a deletion is resolved. */
  lemma PullIsIdentityExactlyWhen(local: Replica, remote: Replica, suffix: Suffix)
    requires FixedWidth(suffix)
    ensures Pull(local, remote, suffix) == local <==>
              remote.Keys <= local.Keys && forall k | k in local && k in remote :: Unmoved(local, remote, k, suffix)
  {
    var pulled := Pull(local, remote, suffix);
    if pulled == local {
      forall k | k in local && k in remote
        ensures Unmoved(local, remote, k, suffix)
      {
        IdentityLeavesUnmoved(local, remote, k, suffix);
      }
    }
    if remote.Keys <= local.Keys && forall k | k in local && k in remote :: Unmoved(local, remote, k, suffix) {
      forall k | k in local
        ensures !Mints(local, remote, k, suffix)
        ensures PulledObject(Get(local, k), Get(remote, k)) == local[k]
      {
        assert k in remote ==> Unmoved(local, remote, k, suffix);
      }
      hide PulledObject;
      hide Mints;
      hide Unmoved;
      assert MintedIds(local, remote, suffix) == {};
      assert pulled.Keys == local.Keys;
    }
  }

  lemma IdentityLeavesUnmoved(local: Replica, remote: Replica, k: Id, suffix: Suffix)
    requires FixedWidth(suffix) && Pull(local, remote, suffix) == local && k in local && k in remote
    ensures Unmoved(local, remote, k, suffix)
  {
    var pulled := Pull(local, remote, suffix);
    assert PulledObject(Some(local[k]), Some(remote[k])) == pulled[k] == local[k];
    if Mints(local, remote, k, suffix) {
      MintingRegisters(local, remote, k, suffix);
    }
    assert remote.Keys <= pulled.Keys;
    UnmovedPair(local[k], remote[k]);
    hide Pull;
    hide Resolve;
    hide PulledObject;
  }

  lemma UnmovedPair(lo: MeshObject, ro: MeshObject)
    ensures PulledObject(Some(lo), Some(ro)) == lo <==>
              match Resolve(Some(lo), Some(ro))
              case FetchRemote => false
              case Union => lo.vector.Merge(ro.vector) == lo.vector
              case RemoveWins => lo.vector.Merge(ro.vector) == lo.vector && lo.tombstone
              case Superseded => false
              case _ => true
  {
    if Resolve(Some(lo), Some(ro)) == FetchRemote {
      FetchIsSeen(lo, ro);
    }
  }

  /** Fetching a dominating object shows in the vector. */
  lemma FetchIsSeen(lo: MeshObject, ro: MeshObject)
    requires Resolve(Some(lo), Some(ro)) == FetchRemote
    ensures PulledObject(Some(lo), Some(ro)) != lo
  {
    AbsorbingVector(lo.vector, ro.vector);
  }

  // ----- a mutual exchange -----

  function Mirror(r: Resolution): Resolution {
    match r
    case FetchRemote => SendLocal
    case SendLocal => FetchRemote
    case _ => r
  }

  /** The ids one exchange settles: one side is causally newer or alone, exactly one side is deleted, or exactly one
      of two facts names the other side's id as its successor. */
  ghost predicate Settled(lo: Option<MeshObject>, ro: Option<MeshObject>)
    requires lo.Some? || ro.Some?
  {
    match Resolve(lo, ro)
    case SendLocal => true
    case FetchRemote => true
    case RemoveWins => lo.value.tombstone != ro.value.tombstone
    case Superseded => (lo.value.supersededBy == Some(ro.value.id)) != (ro.value.supersededBy == Some(lo.value.id))
    case _ => false
  }

  lemma PairExchange(lo: MeshObject, ro: MeshObject)
    requires lo.vector.Positive() && ro.vector.Positive() && lo.kind == ro.kind
    ensures var (l, r) := (Some(lo), Some(ro)); Resolve(r, l) == Mirror(Resolve(l, r))
    ensures var (l, r) := (Some(lo), Some(ro));
            Settled(l, r) ==> PulledObject(l, r) == PulledObject(r, l)
    ensures var (l, r) := (Some(lo), Some(ro));
            !Settled(l, r) && Resolve(l, r) != Superseded ==>
              ContentOf(PulledObject(l, r)) == ContentOf(lo) && ContentOf(PulledObject(r, l)) == ContentOf(ro)
    ensures var (l, r) := (Some(lo), Some(ro));
            !Settled(l, r) && Resolve(l, r) == Superseded ==>
              && ContentOf(PulledObject(l, r)) == ContentOf(lo.(tombstone := true)) && !lo.tombstone
              && ContentOf(PulledObject(r, l)) == ContentOf(ro.(tombstone := true)) && !ro.tombstone
    ensures var (l, r) := (Some(lo), Some(ro));
            Resolve(l, r) in {Union, RemoveWins, Superseded} ==>
              PulledObject(l, r).vector == PulledObject(r, l).vector == lo.vector.Merge(ro.vector)
  {
    DominatesIsStrictPartialOrder(lo.vector, ro.vector, lo.vector);
    MergeCommutes(lo.vector, ro.vector);
    if lo.vector.Dominates(ro.vector) {
      DominatingMerge(lo.vector, ro.vector);
    }
    if ro.vector.Dominates(lo.vector) {
      DominatingMerge(ro.vector, lo.vector);
    }
  }

  /** The two plans of an exchange mirror each other. */
  lemma PlansMirror(a: Replica, b: Replica, k: Id)
    requires Positive(a) && Positive(b) && KindsAgree(a, b)
    requires k in a || k in b
    ensures ResolveAt(b, a, k) == Mirror(ResolveAt(a, b, k))
  {
    if k in a && k in b {
      PairExchange(a[k], b[k]);
    }
  }

  /** `id` differs between two replicas in what the Merkle leaves cover. */
  ghost predicate Differs(a: Replica, b: Replica, k: Id) {
    if k in a && k in b then ContentOf(a[k]) != ContentOf(b[k]) else k in a || k in b
  }

  /** One mutual exchange: settled ids become identical objects on both sides, and every other known id
      differs afterwards exactly if it differed before. */
  lemma ExchangeConverges(a: Replica, b: Replica, k: Id, suffix: Suffix)
    requires Positive(a) && Positive(b) && KindsAgree(a, b) && FixedWidth(suffix)
    requires k in a || k in b
    ensures var (a', b') := (Pull(a, b, suffix), Pull(b, a, suffix));
            && k in a' && k in b'
            && (Settled(Get(a, k), Get(b, k)) ==> a'[k] == b'[k])
            && (!Settled(Get(a, k), Get(b, k)) ==> (Differs(a', b', k) <==> Differs(a, b, k)))
  {
    if k in a && k in b {
      PairExchange(a[k], b[k]);
    }
  }

  /** An id deleted on both sides stays deleted, with one vector; only the two payloads may remain apart. */
  lemma DoubleDeletionsAgree(a: Replica, b: Replica, k: Id, suffix: Suffix)
    requires Positive(a) && Positive(b) && KindsAgree(a, b) && FixedWidth(suffix)
    requires k in a && k in b && a[k].tombstone && b[k].tombstone
    ensures var (a', b') := (Pull(a, b, suffix), Pull(b, a, suffix));
            a'[k].tombstone && b'[k].tombstone && a'[k].vector == b'[k].vector
  {
    PairExchange(a[k], b[k]);
  }

  /** What differs after one exchange: the unsettled ids that differed before, and the ids it registered. */
  lemma DifferencesAfterExchange(a: Replica, b: Replica, k: Id, suffix: Suffix)
    requires Positive(a) && Positive(b) && KindsAgree(a, b) && FixedWidth(suffix)
    ensures Differs(Pull(a, b, suffix), Pull(b, a, suffix), k) <==>
              if k in a || k in b then !Settled(Get(a, k), Get(b, k)) && Differs(a, b, k)
              else k in MintedIds(a, b, suffix) + MintedIds(b, a, suffix)
  {
    if k in a || k in b {
      ExchangeConverges(a, b, k, suffix);
    } else {
      MintedOrigins(a, b, suffix);
      MintedOrigins(b, a, suffix);
    }
  }

  /** Neither side has anything left to take from the other. */
  ghost predicate AtRest(x: Replica, y: Replica, suffix: Suffix)
    requires FixedWidth(suffix)
  {
    Pull(x, y, suffix) == x && Pull(y, x, suffix) == y
  }

  // ----- the second exchange -----

  /** After one exchange the kinds still agree, and a union of different captures was one before. */
  lemma ExchangedPair(lo: MeshObject, ro: MeshObject)
    requires lo.vector.Positive() && ro.vector.Positive() && lo.kind == ro.kind
    ensures var (l, r) := (PulledObject(Some(lo), Some(ro)), PulledObject(Some(ro), Some(lo)));
            && l.kind == r.kind
            && (Resolve(Some(l), Some(r)) == Union && l.payload != r.payload ==>
                  && Resolve(Some(lo), Some(ro)) == Union && lo.payload != ro.payload
                  && l.payload == lo.payload && r.payload == ro.payload)
  {
    PairExchange(lo, ro);
  }

  /** After one exchange a further pull leaves either object of a pair alone. */
  lemma ExchangedPairIsStable(lo: MeshObject, ro: MeshObject)
    requires lo.vector.Positive() && ro.vector.Positive() && lo.kind == ro.kind
    requires !SelfSuperseding(lo) && !SelfSuperseding(ro)
    ensures var (l, r) := (PulledObject(Some(lo), Some(ro)), PulledObject(Some(ro), Some(lo)));
            PulledObject(Some(l), Some(r)) == l
  {
    PairExchange(lo, ro);
    var l, r := PulledObject(Some(lo), Some(ro)), PulledObject(Some(ro), Some(lo));
    if Settled(Some(lo), Some(ro)) {
      PulledPair(lo, ro);
      SameObject(l);
    } else if Resolve(Some(lo), Some(ro)) in {Union, RemoveWins, Superseded} {
      var m := lo.vector.Merge(ro.vector);
      MergeLeastUpperBound(lo.vector, ro.vector);
      DominatesIsStrictPartialOrder(m, m, m);
      MergeAbsorbs(m, m);
    }
  }

  lemma ExchangeOfOneSided(a: Replica, b: Replica, k: Id, suffix: Suffix)
    requires FixedWidth(suffix) && (k in a) != (k in b)
    ensures Pull(a, b, suffix)[k] == Pull(b, a, suffix)[k] == if k in a then a[k] else b[k]
  {
  }

  lemma SuffixesDiffer(id: Id, p: string, q: string, suffix: Suffix)
    requires suffix(p) != suffix(q)
    ensures UnionId(id, p, suffix) != UnionId(id, q, suffix)
  {
    assert UnionId(id, p, suffix)[|id| + 1..] == suffix(p);
    assert UnionId(id, q, suffix)[|id| + 1..] == suffix(q);
  }

  /** Two different payloads under `k` have one suffix, so that both sides register their captures under one
      and the same free id. */
  ghost predicate Collides(a: Replica, b: Replica, k: Id, suffix: Suffix) {
    Mints(a, b, k, suffix) && suffix(a[k].payload) == suffix(b[k].payload)
  }

  /** The union id which that one leads to is free as well. */
  ghost predicate RunsAway(a: Replica, b: Replica, k: Id, suffix: Suffix) {
    && Collides(a, b, k, suffix)
    && UnionId(UnionId(k, b[k].payload, suffix), b[k].payload, suffix) !in a.Keys + b.Keys
  }

  /** Whatever is still to be registered after an exchange stems from such an id. */
  lemma MintedAfterExchange(a: Replica, b: Replica, u: Id, suffix: Suffix)
    requires Positive(a) && Positive(b) && KindsAgree(a, b) && FixedWidth(suffix)
    ensures Mints(Pull(a, b, suffix), Pull(b, a, suffix), u, suffix) <==>
              RunsAway(a, b, Origin(u), suffix) && u == UnionId(Origin(u), b[Origin(u)].payload, suffix)
  {
    var a', b' := Pull(a, b, suffix), Pull(b, a, suffix);
    if RunsAway(a, b, Origin(u), suffix) {
      RegistersTwice(a, b, Origin(u), suffix);
    }
    MintedOrigins(a, b, suffix);
    MintedOrigins(b, a, suffix);
    if u in a && u in b {
      ExchangedPair(a[u], b[u]);
      var next := UnionId(u, b[u].payload, suffix);
      assert Mints(a, b, u, suffix) ==> next in MintedIds(a, b, suffix);
    } else if u in a || u in b {
      ExchangeOfOneSided(a, b, u, suffix);
    } else if u in a' && u in b' {
      RegisteredTwice(a, b, u, suffix);
    }
  }

  lemma RegistersTwice(a: Replica, b: Replica, k: Id, suffix: Suffix)
    requires Positive(a) && Positive(b) && KindsAgree(a, b) && FixedWidth(suffix) && RunsAway(a, b, k, suffix)
    ensures var u := UnionId(k, b[k].payload, suffix);
            u !in a && u !in b && u in Pull(a, b, suffix) && u in Pull(b, a, suffix)
  {
    PlansMirror(a, b, k);
    var u := UnionId(k, b[k].payload, suffix);
    assert u in MintedIds(a, b, suffix) && u in MintedIds(b, a, suffix);
  }

  /** An id that both sides have registered holds the two captures the other way round. */
  lemma RegisteredTwice(a: Replica, b: Replica, u: Id, suffix: Suffix)
    requires Positive(a) && Positive(b) && KindsAgree(a, b) && FixedWidth(suffix)
    requires u !in a && u !in b && u in Pull(a, b, suffix) && u in Pull(b, a, suffix)
    ensures var k := Origin(u);
            && Mints(a, b, k, suffix) && u == UnionId(k, b[k].payload, suffix)
            && suffix(a[k].payload) == suffix(b[k].payload)
    ensures var (a', b') := (Pull(a, b, suffix), Pull(b, a, suffix));
            && a'[u] == MintedObject(b[Origin(u)], u) && b'[u] == MintedObject(a[Origin(u)], u)
            && a'[u].kind == b'[u].kind && a'[u].payload != b'[u].payload && ResolveAt(a', b', u) == Union
    ensures Mints(Pull(a, b, suffix), Pull(b, a, suffix), u, suffix) <==> RunsAway(a, b, Origin(u), suffix)
  {
    var k := Origin(u);
    MintedOrigins(a, b, suffix);
    MintedOrigins(b, a, suffix);
    if suffix(a[k].payload) != suffix(b[k].payload) {
      SuffixesDiffer(k, a[k].payload, b[k].payload, suffix);
    }
    var next := UnionId(u, a[k].payload, suffix);
    OriginOfUnionId(u, a[k].payload, suffix);
    assert next !in MintedIds(a, b, suffix) && next !in MintedIds(b, a, suffix);
  }

  lemma ExchangeKeepsAgreement(a: Replica, b: Replica, suffix: Suffix)
    requires WellFormed(a) && WellFormed(b) && Positive(a) && Positive(b) && KindsAgree(a, b) && FixedWidth(suffix)
    ensures var (a', b') := (Pull(a, b, suffix), Pull(b, a, suffix));
            WellFormed(a') && WellFormed(b') && Positive(a') && Positive(b') && KindsAgree(a', b')
  {
    var a', b' := Pull(a, b, suffix), Pull(b, a, suffix);
    PullKeepsWellFormed(a, b, suffix);
    PullKeepsWellFormed(b, a, suffix);
    forall k | k in a' && k in b'
      ensures a'[k].kind == b'[k].kind
    {
      if k in a && k in b {
        ExchangedPair(a[k], b[k]);
      } else if k in a || k in b {
        ExchangeOfOneSided(a, b, k, suffix);
      } else {
        RegisteredTwice(a, b, k, suffix);
      }
    }
  }

  lemma NothingMintedAfterExchange(a: Replica, b: Replica, suffix: Suffix)
    requires Positive(a) && Positive(b) && KindsAgree(a, b) && FixedWidth(suffix)
    requires forall k :: !RunsAway(a, b, k, suffix)
    ensures MintedIds(Pull(a, b, suffix), Pull(b, a, suffix), suffix) == {}
  {
    var a', b' := Pull(a, b, suffix), Pull(b, a, suffix);
    forall u | u in a'.Keys
      ensures !Mints(a', b', u, suffix)
    {
      MintedAfterExchange(a, b, u, suffix);
    }
  }

  lemma RunsAwayBothWays(a: Replica, b: Replica, suffix: Suffix)
    requires Positive(a) && Positive(b) && KindsAgree(a, b)
    ensures forall k :: RunsAway(a, b, k, suffix) <==> RunsAway(b, a, k, suffix)
  {
    forall k
      ensures RunsAway(a, b, k, suffix) <==> RunsAway(b, a, k, suffix)
    {
      if k in a && k in b {
        PlansMirror(a, b, k);
      }
    }
  }

  lemma MintingRegisters(x: Replica, y: Replica, k: Id, suffix: Suffix)
    requires Mints(x, y, k, suffix)
    ensures UnionId(k, y[k].payload, suffix) in MintedIds(x, y, suffix)
  {
  }

  /** An exchange between replicas with nothing left to register leaves both at a fixed point. */
  lemma QuietExchangeIsFinal(x: Replica, y: Replica, suffix: Suffix)
    requires WellFormed(x) && WellFormed(y) && Positive(x) && Positive(y) && KindsAgree(x, y) && FixedWidth(suffix)
    requires MintedIds(x, y, suffix) == {} && MintedIds(y, x, suffix) == {}
    ensures var (x', y') := (Pull(x, y, suffix), Pull(y, x, suffix));
            x'.Keys == y'.Keys == x.Keys + y.Keys && Pull(x', y', suffix) == x'
  {
    hide Resolve;
    hide PulledObject;
    hide MintedIds;
    var x', y' := Pull(x, y, suffix), Pull(y, x, suffix);
    assert x'.Keys == y'.Keys == x.Keys + y.Keys;
    forall k
      ensures !RunsAway(x, y, k, suffix)
    {
      if RunsAway(x, y, k, suffix) {
        MintingRegisters(x, y, k, suffix);
      }
    }
    NothingMintedAfterExchange(x, y, suffix);
    forall k | k in x.Keys + y.Keys
      ensures PulledObject(Some(x'[k]), Some(y'[k])) == x'[k]
    {
      if k in x && k in y {
        ExchangedPairIsStable(x[k], y[k]);
      } else {
        ExchangeOfOneSided(x, y, k, suffix);
        SameObject(x'[k]);
      }
    }
    PullOfStablePairs(x', y', suffix);
  }

  lemma PullOfStablePairs(x: Replica, y: Replica, suffix: Suffix)
    requires FixedWidth(suffix) && x.Keys == y.Keys && MintedIds(x, y, suffix) == {}
    requires forall k | k in x :: PulledObject(Some(x[k]), Some(y[k])) == x[k]
    ensures Pull(x, y, suffix) == x
  {
    hide PulledObject;
    hide MintedIds;
  }

  /** Two exchanges reach a fixed point of the protocol, and the second one registers nothing new, exactly
      unless a suffix collision runs away. */
  lemma TwoExchangesReachFixedPoint(a: Replica, b: Replica, suffix: Suffix)
    requires WellFormed(a) && WellFormed(b) && Positive(a) && Positive(b) && KindsAgree(a, b) && FixedWidth(suffix)
    ensures var (a1, b1) := (Pull(a, b, suffix), Pull(b, a, suffix));
            var (a2, b2) := (Pull(a1, b1, suffix), Pull(b1, a1, suffix));
            (a2.Keys == b2.Keys == a1.Keys + b1.Keys && Pull(a2, b2, suffix) == a2 && Pull(b2, a2, suffix) == b2)
            <==> forall k :: !RunsAway(a, b, k, suffix)
  {
    var a1, b1 := Pull(a, b, suffix), Pull(b, a, suffix);
    ExchangeKeepsAgreement(a, b, suffix);
    if forall k :: !RunsAway(a, b, k, suffix) {
      RunsAwayBothWays(a, b, suffix);
      NothingMintedAfterExchange(a, b, suffix);
      NothingMintedAfterExchange(b, a, suffix);
      hide Pull;
      QuietExchangeIsFinal(a1, b1, suffix);
      QuietExchangeIsFinal(b1, a1, suffix);
    } else {
      var k :| RunsAway(a, b, k, suffix);
      var u := UnionId(k, b[k].payload, suffix);
      OriginOfUnionId(k, b[k].payload, suffix);
      MintedAfterExchange(a, b, u, suffix);
      assert UnionId(u, b1[u].payload, suffix) in MintedIds(a1, b1, suffix);
    }
  }

  /** The ids on which the replicas still differ after two exchanges: the unsettled ones that differed from the
      start (concurrent immutable captures, surfaced conflicts and double deletions), and the ids that both
      sides have registered for different captures. */
  lemma RemainingDifferences(a: Replica, b: Replica, k: Id, suffix: Suffix)
    requires WellFormed(a) && WellFormed(b) && Positive(a) && Positive(b) && KindsAgree(a, b) && FixedWidth(suffix)
    requires forall j :: !RunsAway(a, b, j, suffix)
    ensures var (a1, b1) := (Pull(a, b, suffix), Pull(b, a, suffix));
            Differs(Pull(a1, b1, suffix), Pull(b1, a1, suffix), k) <==>
              if k in a || k in b then !Settled(Get(a, k), Get(b, k)) && Differs(a, b, k)
              else k in MintedIds(a, b, suffix) * MintedIds(b, a, suffix)
  {
    var a1, b1 := Pull(a, b, suffix), Pull(b, a, suffix);
    ExchangeKeepsAgreement(a, b, suffix);
    RunsAwayBothWays(a, b, suffix);
    NothingMintedAfterExchange(a, b, suffix);
    NothingMintedAfterExchange(b, a, suffix);
    if k in a1 || k in b1 {
      UnsettledAfterExchange(a, b, k, suffix);
    }
    assert k in MintedIds(a, b, suffix) * MintedIds(b, a, suffix) ==> k in a1;
    hide Pull;
    hide Resolve;
    hide MintedIds;
    DifferencesAfterExchange(a1, b1, k, suffix);
  }

  /** What an exchange leaves for the next one to settle. */
  lemma UnsettledAfterExchange(a: Replica, b: Replica, k: Id, suffix: Suffix)
    requires Positive(a) && Positive(b) && KindsAgree(a, b) && FixedWidth(suffix)
    requires k in Pull(a, b, suffix) || k in Pull(b, a, suffix)
    ensures var (a1, b1) := (Pull(a, b, suffix), Pull(b, a, suffix));
            !Settled(Get(a1, k), Get(b1, k)) && Differs(a1, b1, k) <==>
              if k in a || k in b then !Settled(Get(a, k), Get(b, k)) && Differs(a, b, k)
              else k in MintedIds(a, b, suffix) * MintedIds(b, a, suffix)
  {
    var a1, b1 := Pull(a, b, suffix), Pull(b, a, suffix);
    if k in a && k in b {
      PairExchange(a[k], b[k]);
      if !Settled(Some(a[k]), Some(b[k])) && Differs(a, b, k) {
        StillUnsettled(a[k], b[k]);
      }
    } else if k in a || k in b {
      ExchangeOfOneSided(a, b, k, suffix);
    } else if k in a1 && k in b1 {
      RegisteredTwice(a, b, k, suffix);
    }
  }

  /** An exchange does not settle a pair that it leaves different. */
  lemma StillUnsettled(lo: MeshObject, ro: MeshObject)
    requires lo.vector.Positive() && ro.vector.Positive() && lo.kind == ro.kind
    requires !Settled(Some(lo), Some(ro)) && ContentOf(lo) != ContentOf(ro)
    ensures var (l, r) := (PulledObject(Some(lo), Some(ro)), PulledObject(Some(ro), Some(lo)));
            !Settled(Some(l), Some(r))
  {
    PairExchange(lo, ro);
  }

  // ----- narrow exchange -----

  /** The remote objects that are missing locally or differ in content. */
  ghost function Narrowed(local: Replica, remote: Replica): Replica {
    map k | k in remote && (k !in local || ContentOf(local[k]) != ContentOf(remote[k])) :: remote[k]
  }

  /** No object that both sides hold with the same content is resolved as superseded. */
  ghost predicate NoneSupersededInPlace(local: Replica, remote: Replica) {
    forall k | k in local && k in remote :: !SupersededInPlace(local[k], remote[k])
  }

  ghost predicate SupersededInPlace(lo: MeshObject, ro: MeshObject) {
    ContentOf(lo) == ContentOf(ro) && Resolve(Some(lo), Some(ro)) == Superseded
  }

  lemma ConsistentStayInPlace(local: Replica, remote: Replica)
    requires Consistent(local) && Consistent(remote)
    ensures NoneSupersededInPlace(local, remote)
  {
    forall k | k in local && k in remote {
      NeverSuperseded(local, remote, k);
    }
  }

  lemma SameContentPair(lo: MeshObject, ro: MeshObject)
    requires ContentOf(lo) == ContentOf(ro)
    ensures ContentOf(PulledObject(Some(lo), Some(ro))) == ContentOf(lo) <==>
              Resolve(Some(lo), Some(ro)) != Superseded
  {
  }

  lemma NarrowMints(local: Replica, remote: Replica, id: Id, suffix: Suffix)
    ensures Mints(local, Narrowed(local, remote), id, suffix) <==> Mints(local, remote, id, suffix)
  {
  }

  lemma NarrowAt(local: Replica, remote: Replica, k: Id, suffix: Suffix)
    requires FixedWidth(suffix)
    ensures var (some, all) := (Pull(local, Narrowed(local, remote), suffix), Pull(local, remote, suffix));
            && (k in some <==> k in all)
            && (k in some ==>
                  (ContentOf(some[k]) == ContentOf(all[k]) <==>
                     !(k in local && k in remote && SupersededInPlace(local[k], remote[k]))))
  {
    var narrowed := Narrowed(local, remote);
    MintedOrigins(local, remote, suffix);
    MintedOrigins(local, narrowed, suffix);
    NarrowMints(local, remote, Origin(k), suffix);
    if k in local && k in remote && ContentOf(local[k]) == ContentOf(remote[k]) {
      SameContentPair(local[k], remote[k]);
      assert PulledObject(Some(local[k]), None) == local[k];
    }
    hide Resolve;
    hide PulledObject;
    hide Mints;
  }

  /** Pulling only the differing objects leaves the same contents as pulling everything, exactly unless pulling
      everything marks an object as superseded that both sides hold with the same content. */
  lemma NarrowPullHasSameContents(local: Replica, remote: Replica, suffix: Suffix)
    requires FixedWidth(suffix)
    ensures SameContents(Pull(local, Narrowed(local, remote), suffix), Pull(local, remote, suffix)) <==>
              NoneSupersededInPlace(local, remote)
  {
    var some, all := Pull(local, Narrowed(local, remote), suffix), Pull(local, remote, suffix);
    assert local.Keys <= some.Keys;
    hide Pull;
    hide Narrowed;
    hide ContentOf;
    hide SupersededInPlace;
    forall k
      ensures k in some <==> k in all
    {
      NarrowAt(local, remote, k, suffix);
    }
    assert some.Keys == all.Keys;
    forall k | k in some
      ensures ContentOf(some[k]) == ContentOf(all[k]) <==>
                !(k in local && k in remote && SupersededInPlace(local[k], remote[k]))
    {
      NarrowAt(local, remote, k, suffix);
    }
  }

  /** Replicas with the same contents have nothing to give each other but vectors, with the same exception. */
  lemma PullOfSameContents(local: Replica, remote: Replica, suffix: Suffix)
    requires FixedWidth(suffix) && SameContents(local, remote)
    ensures SameContents(Pull(local, remote, suffix), local) <==> NoneSupersededInPlace(local, remote)
  {
    NarrowPullHasSameContents(local, remote, suffix);
    assert Narrowed(local, remote) == map[];
    NothingToPull(local, suffix);
  }

  lemma NothingToPull(local: Replica, suffix: Suffix)
    requires FixedWidth(suffix)
    ensures Pull(local, map[], suffix) == local
  {
  }
}
