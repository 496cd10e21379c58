/** The conflict table as it shows in what a pull stores: every case named by vectors, kinds and flags. */
module ConflictTable {
  import opened Options
  import opened TextOrder
  import opened VersionVectors
  import opened MeshObjects
  import opened Reconciliation

  /** `m` lists what either vector lists: the larger count where both do, and a count that one alone lists as it is,
      unless that is negative. */
  ghost predicate IsJoin(m: VersionVector, v: VersionVector, w: VersionVector) {
    && m.counts.Keys == v.counts.Keys + w.counts.Keys
    && (forall r | r in v.counts && r in w.counts ::
          m.counts[r] == if v.counts[r] < w.counts[r] then w.counts[r] else v.counts[r])
    && (forall r | r in v.counts && r !in w.counts && 0 <= v.counts[r] :: m.counts[r] == v.counts[r])
    && (forall r | r in w.counts && r !in v.counts && 0 <= w.counts[r] :: m.counts[r] == w.counts[r])
  }

  lemma MergeIsJoin(v: VersionVector, w: VersionVector)
    ensures IsJoin(v.Merge(w), v, w) && IsJoin(w.Merge(v), v, w)
  {
  }

  /** An id of one side alone holds that side's object. */
  lemma OneSidedIsKept(local: Replica, remote: Replica, k: Id, suffix: Suffix)
    requires FixedWidth(suffix) && (k in local) != (k in remote)
    ensures var pulled := Pull(local, remote, suffix);
            k in pulled && pulled[k] == if k in local then local[k] else remote[k]
  {
  }

  /** A side that is causally newer prevails: the local one untouched, the remote one with the joined vector. */
  lemma NewerPrevails(local: Replica, remote: Replica, k: Id, suffix: Suffix)
    requires FixedWidth(suffix) && k in local && k in remote
    ensures var (l, r) := (local[k], remote[k]);
            k in Pull(local, remote, suffix) &&
            var p := Pull(local, remote, suffix)[k];
            && (l.vector.Dominates(r.vector) ==> p == l)
            && (!l.vector.Dominates(r.vector) && r.vector.Dominates(l.vector) ==>
                  p == r.(vector := p.vector) && IsJoin(p.vector, l.vector, r.vector))
  {
    MergeIsJoin(local[k].vector, remote[k].vector);
    hide VersionVector.Merge;
    hide VersionVector.Dominates;
  }

  /** Of a concurrent pair, observations and raw turns keep the local data; otherwise a deleted side prevails, the
      local one first; two live facts of which one names the other's id are marked as deleted, the local one's
      data first if it names the remote one; and everything else is left to the caller. */
  lemma ConcurrentPair(local: Replica, remote: Replica, k: Id, suffix: Suffix)
    requires FixedWidth(suffix) && k in local && k in remote
    requires !local[k].vector.Dominates(remote[k].vector) && !remote[k].vector.Dominates(local[k].vector)
    ensures var (l, r) := (local[k], remote[k]);
            k in Pull(local, remote, suffix) &&
            var p := Pull(local, remote, suffix)[k];
            if l.kind == "observation" || l.kind == "raw_turn" then
              p == l.(vector := p.vector) && IsJoin(p.vector, l.vector, r.vector)
            else if l.tombstone || r.tombstone then
              && p == (if l.tombstone then l else r).(vector := p.vector, tombstone := true)
              && IsJoin(p.vector, l.vector, r.vector)
            else if l.kind == "fact" && (l.supersededBy == Some(r.id) || r.supersededBy == Some(l.id)) then
              && p == (if l.supersededBy == Some(r.id) then l else r).(vector := p.vector, tombstone := true)
              && IsJoin(p.vector, l.vector, r.vector)
            else p == l
  {
    MergeIsJoin(local[k].vector, remote[k].vector);
    hide VersionVector.Merge;
    hide VersionVector.Dominates;
  }

  /** Any other id that a pull leaves is a registered union id: a known id of a concurrent pair of captures, a
      tilde, and the digits of the remote payload. */
  lemma NothingElseAppears(local: Replica, remote: Replica, u: Id, suffix: Suffix)
    requires FixedWidth(suffix) && u in Pull(local, remote, suffix) && u !in local && u !in remote
    ensures exists k ::
              && k in local && k in remote && local[k].kind in {"observation", "raw_turn"}
              && !local[k].vector.Dominates(remote[k].vector) && !remote[k].vector.Dominates(local[k].vector)
              && local[k].payload != remote[k].payload && u == k + "~" + suffix(remote[k].payload)
  {
    MintedOrigins(local, remote, suffix);
    var k := Origin(u);
    assert u == UnionId(k, remote[k].payload, suffix) == k + "~" + suffix(remote[k].payload);
    hide VersionVector.Dominates;
  }
}
