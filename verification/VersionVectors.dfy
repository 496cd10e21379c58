/** Per-object causal clocks: the vector operations of the peer mesh. */
module VersionVectors {
  import opened Numbers

  type ReplicaName = string

  /** Edit counts by replica; a replica that is not listed counts as 0. */
  datatype VersionVector = VersionVector(counts: map<ReplicaName, int>) {

    function Count(r: ReplicaName): int {
      if r in counts then counts[r] else 0
    }

    ghost predicate NonNegative() {
      forall r | r in counts :: 0 <= counts[r]
    }

    ghost predicate Positive() {
      forall r | r in counts :: 0 < counts[r]
    }

    function Bump(r: ReplicaName): VersionVector {
      VersionVector(counts[r := Count(r) + 1])
    }

    /** Dominance as the source decides it: only the replicas listed in `other` are compared. */
    ghost predicate Dominates(other: VersionVector) {
      && (forall r | r in other.counts :: other.counts[r] <= Count(r))
      && ((exists r | r in other.counts :: other.counts[r] < Count(r)) || (other.counts == map[] && counts != map[]))
    }

    function Merge(other: VersionVector): VersionVector {
      VersionVector(map r | r in counts.Keys + other.counts.Keys ::
                      if r in other.counts then Max(Count(r), other.counts[r]) else counts[r])
    }
  }

  /** The pointwise order, over all replicas. */
  ghost predicate Leq(v: VersionVector, w: VersionVector) {
    forall r :: v.Count(r) <= w.Count(r)
  }

  /** The causal order of the documentation: every component at least as large, one larger. */
  ghost predicate CausallyAfter(v: VersionVector, w: VersionVector) {
    Leq(w, v) && exists r :: w.Count(r) < v.Count(r)
  }

  /** `w` lists everything that `v` lists, at no lower count. */
  ghost predicate Extends(w: VersionVector, v: VersionVector) {
    v.counts.Keys <= w.counts.Keys && forall r | r in v.counts :: v.counts[r] <= w.counts[r]
  }

  /** Merging from either side extends a vector, whatever the signs of its counts. */
  lemma MergeExtends(v: VersionVector, w: VersionVector)
    ensures Extends(v.Merge(w), v) && Extends(w.Merge(v), v)
  {
  }

  /** `dominates`: one pass over the other vector's entries, in any order, with a flag and an early exit. */
  method DecideDominates(self: VersionVector, other: VersionVector) returns (result: bool)
    ensures result == self.Dominates(other)
  {
    var strictlyGreater := false;
    var todo := other.counts.Keys;
    while todo != {}
      invariant todo <= other.counts.Keys
      invariant forall r | r in other.counts.Keys - todo :: other.counts[r] <= self.Count(r)
      invariant strictlyGreater <==> exists r | r in other.counts.Keys - todo :: other.counts[r] < self.Count(r)
      decreases todo
    {
      var replica :| replica in todo;
      var count, mine := other.counts[replica], self.Count(replica);
      if mine < count {
        return false;
      }
      todo := todo - {replica};
      assert replica in other.counts.Keys - todo;
      if mine > count {
        strictlyGreater := true;
      }
    }
    assert other.counts.Keys - todo == other.counts.Keys;
    result := strictlyGreater || (other.counts == map[] && self.counts != map[]);
  }

  /** `merge`: copy one vector, then raise it entry by entry to the other, in any order. */
  method MergeInto(self: VersionVector, other: VersionVector) returns (result: VersionVector)
    ensures result == self.Merge(other)
  {
    var merged := self.counts;
    var todo := other.counts.Keys;
    while todo != {}
      invariant todo <= other.counts.Keys
      invariant merged.Keys == self.counts.Keys + (other.counts.Keys - todo)
      invariant forall r | r in merged ::
          merged[r] == if r in other.counts && r !in todo then Max(self.Count(r), other.counts[r]) else self.counts[r]
      decreases todo
    {
      var replica :| replica in todo;
      var previous := if replica in merged then merged[replica] else 0;
      merged := merged[replica := Max(previous, other.counts[replica])];
      todo := todo - {replica};
    }
    result := VersionVector(merged);
    assert result.counts == self.Merge(other).counts;
  }

  // ----- merge is the least upper bound -----

  lemma MergeLeastUpperBound(v: VersionVector, w: VersionVector)
    requires v.NonNegative() && w.NonNegative()
    ensures Leq(v, v.Merge(w)) && Leq(w, v.Merge(w))
    ensures forall u | Leq(v, u) && Leq(w, u) :: Leq(v.Merge(w), u)
    ensures v.Merge(w).NonNegative()
    ensures v.Positive() && w.Positive() ==> v.Merge(w).Positive()
  {
    var m := v.Merge(w);
    assert forall r :: m.Count(r) == Max(v.Count(r), w.Count(r));
    forall u | Leq(v, u) && Leq(w, u)
      ensures Leq(m, u)
    {
      assert forall r :: v.Count(r) <= u.Count(r) && w.Count(r) <= u.Count(r);
    }
  }

  lemma MergeAbsorbs(v: VersionVector, w: VersionVector)
    ensures v.Merge(v) == v
    ensures v.Merge(w).Merge(w) == v.Merge(w)
  {
    assert v.Merge(v).counts == v.counts;
    assert v.Merge(w).Merge(w).counts == v.Merge(w).counts;
  }

  /** Merge commutes unless an entry that only one of the vectors has is negative. */
  lemma MergeCommutes(v: VersionVector, w: VersionVector)
    ensures v.Merge(w) == w.Merge(v) <==>
            && (forall r | r in v.counts.Keys - w.counts.Keys :: 0 <= v.counts[r])
            && (forall r | r in w.counts.Keys - v.counts.Keys :: 0 <= w.counts[r])
  {
    var vw, wv := v.Merge(w).counts, w.Merge(v).counts;
    if v.Merge(w) == w.Merge(v) {
      forall r | r in v.counts.Keys - w.counts.Keys
        ensures 0 <= v.counts[r]
      {
        assert vw[r] == wv[r];
      }
      forall r | r in w.counts.Keys - v.counts.Keys
        ensures 0 <= w.counts[r]
      {
        assert vw[r] == wv[r];
      }
    } else {
      assert vw.Keys == wv.Keys;
      var r :| r in vw && vw[r] != wv[r];
      assert r !in v.counts || r !in w.counts;
    }
  }

  lemma MergeAssociates(u: VersionVector, v: VersionVector, w: VersionVector)
    requires u.NonNegative() && v.NonNegative() && w.NonNegative()
    ensures u.Merge(v).Merge(w) == u.Merge(v.Merge(w))
  {
    var left, right := u.Merge(v).Merge(w).counts, u.Merge(v.Merge(w)).counts;
    assert left.Keys == right.Keys;
    forall r | r in left
      ensures left[r] == right[r]
    {
    }
    assert left == right;
  }

  // ----- dominance -----

  /** What dominance says of the documented order: it is sound for it, and what it misses is exactly the
      vectors that only add new replicas to a non-empty vector. */
  lemma DominatesVersusDocumented(v: VersionVector, w: VersionVector)
    requires v.Positive() && w.Positive()
    ensures v.Dominates(w) ==> CausallyAfter(v, w)
    ensures (CausallyAfter(v, w) && !v.Dominates(w)) <==>
            && w.counts != map[] && w.counts.Keys < v.counts.Keys
            && forall r | r in w.counts :: v.counts[r] == w.counts[r]
  {
    if v.Dominates(w) {
      assert Leq(w, v);
      if w.counts == map[] {
        var r :| r in v.counts;
        assert w.Count(r) < v.Count(r);
      } else {
        var r :| r in w.counts && w.counts[r] < v.Count(r);
        assert w.Count(r) < v.Count(r);
      }
    }
    if CausallyAfter(v, w) && !v.Dominates(w) {
      MissedOnlyNewReplicas(v, w);
    }
    if w.counts != map[] && w.counts.Keys < v.counts.Keys && forall r | r in w.counts :: v.counts[r] == w.counts[r] {
      assert !(v.counts.Keys <= w.counts.Keys);
      var r :| r in v.counts.Keys && r !in w.counts.Keys;
      assert w.Count(r) < v.Count(r);
    }
  }

  lemma MissedOnlyNewReplicas(v: VersionVector, w: VersionVector)
    requires v.Positive() && w.Positive() && CausallyAfter(v, w) && !v.Dominates(w)
    ensures w.counts != map[] && w.counts.Keys < v.counts.Keys && forall r | r in w.counts :: v.counts[r] == w.counts[r]
  {
    forall r | r in w.counts
      ensures r in v.counts && v.counts[r] == w.counts[r]
    {
      assert w.Count(r) <= v.Count(r);
    }
    var r :| w.Count(r) < v.Count(r);
    assert r in v.counts && r !in w.counts;
  }

  /** Dominance is a strict partial order, and no two vectors dominate each other. */
  lemma DominatesIsStrictPartialOrder(u: VersionVector, v: VersionVector, w: VersionVector)
    requires u.NonNegative() && v.NonNegative() && w.NonNegative()
    ensures !v.Dominates(v)
    ensures !(v.Dominates(w) && w.Dominates(v))
    ensures u.Dominates(v) && v.Dominates(w) ==> u.Dominates(w)
  {
    if u.Dominates(v) && v.Dominates(w) {
      if w.counts == map[] {
        var r :| r in v.counts && v.counts[r] < u.Count(r);
        assert r in u.counts;
      } else {
        forall r | r in w.counts
          ensures w.counts[r] <= u.Count(r)
        {
          assert w.counts[r] <= v.Count(r);
        }
        var r :| r in w.counts && w.counts[r] < v.Count(r);
        assert r in v.counts && v.counts[r] <= u.Count(r);
      }
    }
  }

  /** A bump dominates its origin exactly when the replica was already listed, or nothing was. */
  lemma BumpDominates(v: VersionVector, r: ReplicaName)
    ensures v.Bump(r).Dominates(v) <==> r in v.counts || v.counts == map[]
  {
    if r in v.counts {
      assert v.counts[r] < v.Bump(r).Count(r);
    }
  }

  /** An example of what dominance misses: the first edit of replica "b" on top of one edit of "a". */
  lemma NewReplicaIsMissed()
    ensures var v := VersionVector(map["a" := 1]);
            CausallyAfter(v.Bump("b"), v) && !v.Bump("b").Dominates(v)
  {
    var v := VersionVector(map["a" := 1]);
    assert "a" in v.counts && "b" !in v.counts;
    BumpDominates(v, "b");
    assert v.Count("b") < v.Bump("b").Count("b");
  }

  /** An example of vectors that do not commute: a negative entry is raised to 0 only from the other side. */
  lemma NegativeEntryDoesNotCommute()
    ensures var (v, w) := (VersionVector(map["a" := -1]), VersionVector(map[])); v.Merge(w) != w.Merge(v)
  {
    var v, w := VersionVector(map["a" := -1]), VersionVector(map[]);
    assert v.Merge(w).counts["a"] == -1;
    assert w.Merge(v).counts["a"] == 0;
  }

  /** A bump adds one to the count of one replica, listed or not, and touches no other. */
  lemma BumpCounts(v: VersionVector, r: ReplicaName, other: ReplicaName)
    ensures v.Bump(r).counts.Keys == v.counts.Keys + {r}
    ensures r in v.counts ==> v.Bump(r).counts[r] == v.counts[r] + 1
    ensures r !in v.counts ==> v.Bump(r).counts[r] == 1
    ensures other != r && other in v.counts ==> v.Bump(r).counts[other] == v.counts[other]
  {
  }

  /** A dominating vector already contains what it dominates. */
  lemma DominatingMerge(v: VersionVector, w: VersionVector)
    requires v.NonNegative() && w.NonNegative() && v.Dominates(w)
    ensures Leq(w, v)
    ensures w.Positive() ==> v.Merge(w) == v
  {
    if w.Positive() {
      assert v.Merge(w).counts == v.counts;
    }
  }

  /** A vector never dominates one that has absorbed it. */
  lemma AbsorbedNeverDominates(v: VersionVector, m: VersionVector)
    requires v.NonNegative() && m.NonNegative() && v.counts.Keys <= m.counts.Keys && Leq(v, m)
    ensures !v.Dominates(m)
  {
    assert forall r | r in m.counts :: v.Count(r) <= m.counts[r];
  }
}
