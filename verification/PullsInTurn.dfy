/** One side pulls after the other, as gossip loops do: what one round leaves, and that three pulls settle. */
module PullsInTurn {
  import opened Options
  import opened TextOrder
  import opened VersionVectors
  import opened MeshObjects
  import opened Reconciliation
  import opened Convergence
  import opened Losses

  /** What is settled when the second side pulls from what the first one made of both: also facts that name each
      other, and the unions and double deletions whose merged vector dominates the second side's. */
  ghost predicate SettledInTurn(lo: Option<MeshObject>, ro: Option<MeshObject>)
    requires lo.Some? || ro.Some?
  {
    || Settled(lo, ro) || Resolve(lo, ro) == Superseded
    || (Resolve(lo, ro) in {Union, RemoveWins} && lo.value.vector.Merge(ro.value.vector).Dominates(ro.value.vector))
  }

  lemma PairInTurn(lo: MeshObject, ro: MeshObject)
    requires lo.vector.Positive() && ro.vector.Positive() && lo.kind == ro.kind && !SelfSuperseding(ro)
    ensures var l := PulledObject(Some(lo), Some(ro));
            var r := PulledObject(Some(ro), Some(l));
            if SettledInTurn(Some(lo), Some(ro)) then l == r
            else ContentOf(l) == ContentOf(lo) && ContentOf(r) == ContentOf(ro)
  {
    PairExchange(lo, ro);
    if Resolve(Some(lo), Some(ro)) == SendLocal {
      DominatingMerge(lo.vector, ro.vector);
    } else if Resolve(Some(lo), Some(ro)) == FetchRemote {
      DominatingMerge(ro.vector, lo.vector);
      SameObject(ro);
    } else if Resolve(Some(lo), Some(ro)) in {Union, RemoveWins, Superseded} {
      MergedInTurn(lo, ro);
    }
  }

  lemma MergedInTurn(lo: MeshObject, ro: MeshObject)
    requires lo.vector.Positive() && ro.vector.Positive() && lo.kind == ro.kind
    requires Resolve(Some(lo), Some(ro)) in {Union, RemoveWins, Superseded}
    ensures var l := PulledObject(Some(lo), Some(ro));
            var r := PulledObject(Some(ro), Some(l));
            if SettledInTurn(Some(lo), Some(ro)) then l == r
            else ContentOf(l) == ContentOf(lo) && ContentOf(r) == ContentOf(ro)
  {
    var m := lo.vector.Merge(ro.vector);
    assert !ro.vector.Dominates(m) && m.Merge(ro.vector) == m && ro.vector.Merge(m) == m by {
      MergedVector(lo.vector, ro.vector);
      MergeLeastUpperBound(lo.vector, ro.vector);
      MergeCommutes(m, ro.vector);
    }
    hide VersionVector.Merge;
    hide VersionVector.Dominates;
    hide VersionVector.Positive;
    var l := PulledObject(Some(lo), Some(ro));
    assert l.vector == m && l.kind == ro.kind;
  }

  /** When `b` pulls after `a` has pulled from it, what differs afterwards are the ids that stay unsettled and
      differed before, and the union ids that `b` registers. */
  lemma DifferencesInTurn(a: Replica, b: Replica, k: Id, suffix: Suffix)
    requires WellFormed(a) && WellFormed(b) && Positive(a) && Positive(b) && KindsAgree(a, b) && FixedWidth(suffix)
    ensures var a1 := Pull(a, b, suffix);
            var b1 := Pull(b, a1, suffix);
            && a1.Keys <= b1.Keys
            && (Differs(a1, b1, k) <==>
                  if k in a || k in b then !SettledInTurn(Get(a, k), Get(b, k)) && Differs(a, b, k)
                  else k in MintedIds(b, a1, suffix))
  {
    var a1 := Pull(a, b, suffix);
    assert a1.Keys <= Pull(b, a1, suffix).Keys;
    if k in a || k in b {
      KnownInTurn(a, b, k, suffix);
    } else {
      NewInTurn(a, b, k, suffix);
    }
    hide *;
  }

  lemma KnownInTurn(a: Replica, b: Replica, k: Id, suffix: Suffix)
    requires Consistent(b) && Positive(a) && Positive(b) && KindsAgree(a, b) && FixedWidth(suffix)
    requires k in a || k in b
    ensures var a1 := Pull(a, b, suffix);
            Differs(a1, Pull(b, a1, suffix), k) <==> !SettledInTurn(Get(a, k), Get(b, k)) && Differs(a, b, k)
  {
    if k in a && k in b {
      PairInTurn(a[k], b[k]);
      hide SettledInTurn;
    } else if k in b {
      SameObject(b[k]);
    }
    hide MintedIds;
  }

  lemma NewInTurn(a: Replica, b: Replica, k: Id, suffix: Suffix)
    requires FixedWidth(suffix) && k !in a && k !in b
    ensures var a1 := Pull(a, b, suffix);
            Differs(a1, Pull(b, a1, suffix), k) <==> k in MintedIds(b, a1, suffix)
  {
    MintedOrigins(b, Pull(a, b, suffix), suffix);
  }

  /** Pulling in turn loses no capture of a union either, although the second side may give up its own place for
      the first side's capture: then it finds its own under the union id. */
  lemma CapturesKeptInTurn(a: Replica, b: Replica, k: Id, payloads: set<string>, suffix: Suffix)
    requires WellFormed(a) && WellFormed(b) && Positive(a) && Positive(b) && KindsAgree(a, b) && FixedWidth(suffix)
    requires Payloads(a) + Payloads(b) <= payloads && DistinctSuffixes(payloads, suffix)
    requires UnionIdsHonest(a, payloads, suffix) && UnionIdsHonest(b, payloads, suffix)
    requires k in a && k in b && ResolveAt(a, b, k) == Union
    ensures var a1 := Pull(a, b, suffix);
            var b1 := Pull(b, a1, suffix);
            {a[k].payload, b[k].payload} <= Payloads(a1) && {a[k].payload, b[k].payload} <= Payloads(b1)
  {
    var a1 := Pull(a, b, suffix);
    var b1 := Pull(b, a1, suffix);
    var p, q := a[k].payload, b[k].payload;
    PullLosesNothing(a, b, payloads, suffix);
    PullKeepsWellFormed(a, b, suffix);
    PullLosesNothing(b, a1, payloads, suffix);
    SecondSideKeeps(a[k], b[k]);
    assert p in Payloads(a) && q in Payloads(b);
    assert a1[k].payload == p;
    hide PulledObject;
    hide Resolve;
    var up, uq := UnionId(k, p, suffix), UnionId(k, q, suffix);
    assert p != q ==> uq in a1 && a1[uq].payload == q;
    assert uq in a1 ==> uq in b1 && b1[uq].payload == q;
  }

  lemma SecondSideKeeps(lo: MeshObject, ro: MeshObject)
    requires lo.vector.Positive() && ro.vector.Positive() && lo.kind == ro.kind && Resolve(Some(lo), Some(ro)) == Union
    ensures var l := PulledObject(Some(lo), Some(ro));
            && l.payload == lo.payload
            && (Resolve(Some(ro), Some(l)) == Union || PulledObject(Some(ro), Some(l)).payload == lo.payload)
  {
    MergedVector(lo.vector, ro.vector);
  }

  // ----- three pulls settle -----

  /** After a round, the first side's object of a pair absorbs the second side's without change. */
  lemma RoundIsStable(lo: MeshObject, ro: MeshObject)
    requires lo.vector.Positive() && ro.vector.Positive() && lo.kind == ro.kind
    requires !SelfSuperseding(lo) && !SelfSuperseding(ro)
    ensures var l := PulledObject(Some(lo), Some(ro));
            var r := PulledObject(Some(ro), Some(l));
            && PulledObject(Some(l), Some(r)) == l && PulledObject(Some(r), Some(l)) == r
            && (Resolve(Some(l), Some(r)) == Union && l.payload != r.payload ==>
                  && Resolve(Some(l), Some(ro)) == Union && l.payload != ro.payload && r.payload == ro.payload)
  {
    var l := PulledObject(Some(lo), Some(ro));
    var r := PulledObject(Some(ro), Some(l));
    PairInTurn(lo, ro);
    PairIdempotent(ro, l);
    if SettledInTurn(Some(lo), Some(ro)) {
      SameObject(l);
    } else if Resolve(Some(lo), Some(ro)) in {Union, RemoveWins} {
      MergedRound(lo, ro);
    }
  }

  lemma MergedRound(lo: MeshObject, ro: MeshObject)
    requires lo.vector.Positive() && ro.vector.Positive() && lo.kind == ro.kind
    requires Resolve(Some(lo), Some(ro)) in {Union, RemoveWins} && !SettledInTurn(Some(lo), Some(ro))
    ensures var l := PulledObject(Some(lo), Some(ro));
            var r := PulledObject(Some(ro), Some(l));
            && PulledObject(Some(l), Some(r)) == l
            && (Resolve(Some(l), Some(r)) == Union && l.payload != r.payload ==>
                  && Resolve(Some(l), Some(ro)) == Union && l.payload != ro.payload && r.payload == ro.payload)
  {
    var m := lo.vector.Merge(ro.vector);
    assert !ro.vector.Dominates(m) && ro.vector.Merge(m) == m && m.Merge(m) == m && !m.Dominates(m) by {
      MergedVector(lo.vector, ro.vector);
      MergeLeastUpperBound(lo.vector, ro.vector);
      MergeCommutes(m, ro.vector);
      MergeAbsorbs(m, m);
    }
    hide VersionVector.Merge;
    hide VersionVector.Dominates;
    hide VersionVector.Positive;
    var l := PulledObject(Some(lo), Some(ro));
    assert l.vector == m && l.kind == ro.kind;
    var r := PulledObject(Some(ro), Some(l));
    assert r.vector == m && r.kind == ro.kind;
  }

  /** The two replicas after a round hold stable pairs, and the first side has nothing left to register. */
  lemma AfterRound(a: Replica, b: Replica, k: Id, suffix: Suffix)
    requires Consistent(a) && Consistent(b) && Positive(a) && Positive(b) && KindsAgree(a, b) && FixedWidth(suffix)
    requires k in Pull(a, b, suffix)
    ensures var a1 := Pull(a, b, suffix);
            var b1 := Pull(b, a1, suffix);
            && k in b1 && PulledObject(Some(a1[k]), Some(b1[k])) == a1[k]
            && PulledObject(Some(b1[k]), Some(a1[k])) == b1[k]
            && !Mints(a1, b1, k, suffix)
  {
    var a1 := Pull(a, b, suffix);
    var b1 := Pull(b, a1, suffix);
    if k in a && k in b {
      RoundIsStable(a[k], b[k]);
      NothingLeftToMint(a, b, suffix);
      if Mints(a1, b, k, suffix) {
        MintingRegisters(a1, b, k, suffix);
      }
      assert b.Keys <= a1.Keys <= b1.Keys;
    } else {
      OneSidedRound(a, b, k, suffix);
      SameObject(a1[k]);
    }
    hide Pull;
    hide PulledObject;
    hide Resolve;
  }

  lemma OneSidedRound(a: Replica, b: Replica, k: Id, suffix: Suffix)
    requires FixedWidth(suffix) && k in Pull(a, b, suffix) && !(k in a && k in b) && Consistent(b)
    ensures var a1 := Pull(a, b, suffix); k in Pull(b, a1, suffix) && Pull(b, a1, suffix)[k] == a1[k]
  {
    if k in b {
      SameObject(b[k]);
    }
  }

  /** Whatever the suffixes, pulls in turn settle: after the first side has pulled, then the second, then the first
      again, neither has anything left to take. */
  lemma PullsInTurnSettle(a: Replica, b: Replica, suffix: Suffix)
    requires Consistent(a) && Consistent(b) && Positive(a) && Positive(b) && KindsAgree(a, b) && FixedWidth(suffix)
    ensures var a1 := Pull(a, b, suffix);
            var b1 := Pull(b, a1, suffix);
            AtRest(Pull(a1, b1, suffix), b1, suffix)
  {
    var a1 := Pull(a, b, suffix);
    var b1 := Pull(b, a1, suffix);
    PullKeepsConsistent(a, b, suffix);
    PullKeepsConsistent(b, a1, suffix);
    forall k | k in a1
      ensures k in b1 && PulledObject(Some(a1[k]), Some(b1[k])) == a1[k]
      ensures PulledObject(Some(b1[k]), Some(a1[k])) == b1[k] && !Mints(a1, b1, k, suffix)
    {
      AfterRound(a, b, k, suffix);
    }
    NothingLeftToMint(b, a1, suffix);
    forall k | k in a1
      ensures !Mints(b1, a1, k, suffix)
    {
      if Mints(b1, a1, k, suffix) {
        MintingRegisters(b1, a1, k, suffix);
      }
    }
    hide Pull;
    hide Mints;
    StableSubset(a1, b1, suffix);
  }

  /** If the first replica's objects are all there on the other side, in stable pairs with nothing to register,
      one more pull of the first side brings both to rest. */
  lemma StableSubset(x: Replica, y: Replica, suffix: Suffix)
    requires FixedWidth(suffix) && x.Keys <= y.Keys && Consistent(y)
    requires forall k | k in x :: PulledObject(Some(x[k]), Some(y[k])) == x[k] && !Mints(x, y, k, suffix)
    requires forall k | k in x :: PulledObject(Some(y[k]), Some(x[k])) == y[k] && !Mints(y, x, k, suffix)
    ensures AtRest(Pull(x, y, suffix), y, suffix)
  {
    var z := Pull(x, y, suffix);
    NothingMinted(x, y, suffix);
    assert z.Keys == y.Keys;
    forall k | k in z
      ensures PulledObject(Some(z[k]), Some(y[k])) == z[k] && PulledObject(Some(y[k]), Some(z[k])) == y[k]
      ensures !Mints(z, y, k, suffix) && !Mints(y, z, k, suffix)
    {
      StableAt(x, y, k, suffix);
    }
    hide Pull;
    hide PulledObject;
    hide Mints;
    NothingMinted(z, y, suffix);
    NothingMinted(y, z, suffix);
    PullOfStablePairs(z, y, suffix);
    PullOfStablePairs(y, z, suffix);
  }

  lemma NothingMinted(x: Replica, y: Replica, suffix: Suffix)
    requires forall k | k in x :: !Mints(x, y, k, suffix)
    ensures MintedIds(x, y, suffix) == {}
  {
    hide Mints;
  }

  lemma StableAt(x: Replica, y: Replica, k: Id, suffix: Suffix)
    requires FixedWidth(suffix) && x.Keys <= y.Keys && k in y && MintedIds(x, y, suffix) == {} && Consistent(y)
    requires k in x ==> PulledObject(Some(x[k]), Some(y[k])) == x[k] && !Mints(x, y, k, suffix)
    requires k in x ==> PulledObject(Some(y[k]), Some(x[k])) == y[k] && !Mints(y, x, k, suffix)
    ensures var z := Pull(x, y, suffix);
            && k in z && z.Keys == y.Keys
            && PulledObject(Some(z[k]), Some(y[k])) == z[k] && PulledObject(Some(y[k]), Some(z[k])) == y[k]
            && !Mints(z, y, k, suffix) && !Mints(y, z, k, suffix)
  {
    var z := Pull(x, y, suffix);
    assert z[k] == if k in x then x[k] else y[k];
    if k !in x {
      SameObject(y[k]);
    }
    hide Pull;
    hide Resolve;
    hide PulledObject;
  }
}
