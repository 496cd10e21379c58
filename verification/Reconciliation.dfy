/** The per-object conflict table (`reconcile`) and the state transformer that applies it (`apply_plan`). */
module Reconciliation {
  import opened Options
  import opened TextOrder
  import opened VersionVectors
  import opened MeshObjects

  datatype Resolution = FetchRemote | SendLocal | Union | Superseded | RemoveWins | Conflict

  predicate ImmutableKind(kind: string) {
    kind in {"observation", "raw_turn"}
  }

  predicate SupersessionKind(kind: string) {
    kind == "fact"
  }

  predicate SupersessionPair(lo: MeshObject, ro: MeshObject) {
    lo.supersededBy == Some(ro.id) || ro.supersededBy == Some(lo.id)
  }

  // ----- reconcile -----

  /** The conflict table for one id that at least one side knows. */
  ghost function Resolve(lo: Option<MeshObject>, ro: Option<MeshObject>): Resolution
    requires lo.Some? || ro.Some?
  {
    if ro.None? then SendLocal
    else if lo.None? then FetchRemote
    else if lo.value.vector.Dominates(ro.value.vector) then SendLocal
    else if ro.value.vector.Dominates(lo.value.vector) then FetchRemote
    else if ImmutableKind(lo.value.kind) then Union
    else if lo.value.tombstone || ro.value.tombstone then RemoveWins
    else if SupersessionKind(lo.value.kind) && SupersessionPair(lo.value, ro.value) then Superseded
    else Conflict
  }

  ghost function ResolveAt(local: Replica, remote: Replica, k: Id): Resolution
    requires k in local || k in remote
  {
    Resolve(Get(local, k), Get(remote, k))
  }

  datatype PlanItem = PlanItem(id: Id, resolution: Resolution)

  /** `plan` lists the resolution of every known id once, in some order. */
  ghost predicate IsPlan(plan: seq<PlanItem>, local: Replica, remote: Replica) {
    && (forall i, j | 0 <= i < j < |plan| :: plan[i].id != plan[j].id)
    && (forall i | 0 <= i < |plan| ::
          (plan[i].id in local || plan[i].id in remote) && plan[i].resolution == ResolveAt(local, remote, plan[i].id))
    && (forall k | k in local || k in remote :: exists i :: 0 <= i < |plan| && plan[i].id == k)
  }

  /** The plan that `reconcile` makes: every known id in sorted order, with its resolution. */
  ghost function PlanOf(local: Replica, remote: Replica): seq<PlanItem> {
    var ids := Sorted(local.Keys + remote.Keys);
    SortedMembers(local.Keys + remote.Keys);
    seq(|ids|, i requires 0 <= i < |ids| && ids[i] in local.Keys + remote.Keys =>
      PlanItem(ids[i], ResolveAt(local, remote, ids[i])))
  }

  lemma PlanOfIsPlan(local: Replica, remote: Replica)
    ensures IsPlan(PlanOf(local, remote), local, remote)
  {
    SortedMembers(local.Keys + remote.Keys);
    ListedInOrder(Sorted(local.Keys + remote.Keys), PlanOf(local, remote), local, remote);
  }

  /** `reconcile`: one pass over all ids in sorted order. */
  method Reconcile(local: Replica, remote: Replica) returns (plan: seq<PlanItem>)
    ensures IsPlan(plan, local, remote)
    ensures plan == PlanOf(local, remote)
  {
    hide Resolve;
    var ids := SortIds(local.Keys + remote.Keys);
    SortedUnique(ids, Sorted(local.Keys + remote.Keys));
    plan := [];
    for n := 0 to |ids|
      invariant |plan| == n
      invariant forall i | 0 <= i < n :: plan[i].id == ids[i]
      invariant forall i | 0 <= i < n ::
          ids[i] in local.Keys + remote.Keys && plan[i].resolution == ResolveAt(local, remote, ids[i])
    {
      var id := ids[n];
      assert id in Elements(ids);
      var lo, ro := Get(local, id), Get(remote, id);
      var resolution := ResolveOne(lo, ro);
      plan := plan + [PlanItem(id, resolution)];
    }
    ListedInOrder(ids, plan, local, remote);
  }

  lemma ListedInOrder(ids: seq<Id>, plan: seq<PlanItem>, local: Replica, remote: Replica)
    requires IsSorted(ids, local.Keys + remote.Keys) && |plan| == |ids|
    requires forall i | 0 <= i < |plan| :: plan[i].id == ids[i]
    requires forall i | 0 <= i < |plan| ::
               ids[i] in local.Keys + remote.Keys && plan[i].resolution == ResolveAt(local, remote, ids[i])
    ensures IsPlan(plan, local, remote)
  {
    hide Resolve;
    forall i, j | 0 <= i < j < |plan|
      ensures plan[i].id != plan[j].id
    {
      LessIsStrictTotalOrder(ids[i], ids[j], ids[i]);
    }
    forall k | k in local || k in remote
      ensures exists i :: 0 <= i < |plan| && plan[i].id == k
    {
      assert k in Elements(ids);
      var i :| 0 <= i < |ids| && ids[i] == k;
      assert plan[i].id == k;
    }
  }

  method ResolveOne(lo: Option<MeshObject>, ro: Option<MeshObject>) returns (resolution: Resolution)
    requires lo.Some? || ro.Some?
    ensures resolution == Resolve(lo, ro)
  {
    if ro.None? {
      return SendLocal;
    }
    if lo.None? {
      return FetchRemote;
    }
    var l, r := lo.value, ro.value;
    var localNewer := DecideDominates(l.vector, r.vector);
    if localNewer {
      return SendLocal;
    }
    var remoteNewer := DecideDominates(r.vector, l.vector);
    if remoteNewer {
      return FetchRemote;
    }
    if ImmutableKind(l.kind) {
      resolution := Union;
    } else if l.tombstone || r.tombstone {
      resolution := RemoveWins;
    } else if SupersessionKind(l.kind) && SupersessionPair(l, r) {
      resolution := Superseded;
    } else {
      resolution := Conflict;
    }
  }

  /** A live fact that names itself as its successor. */
  predicate SelfSuperseding(o: MeshObject) {
    SupersessionKind(o.kind) && !o.tombstone && o.supersededBy == Some(o.id)
  }

  /** On well-formed replicas a supersession edge never decides anything: both sides of a pair share one id,
      so the edge would have to lead from an object to itself. */
  lemma NeverSuperseded(local: Replica, remote: Replica, k: Id)
    requires Consistent(local) && Consistent(remote)
    requires k in local || k in remote
    ensures ResolveAt(local, remote, k) != Superseded
  {
  }

  // ----- apply_plan -----

  /** The eight hexadecimal digits of a payload's digest. */
  type Suffix = string -> string

  ghost predicate FixedWidth(suffix: Suffix) {
    forall p :: |suffix(p)| == 8
  }

  function UnionId(id: Id, payload: string, suffix: Suffix): Id {
    id + "~" + suffix(payload)
  }

  /** The object registered under the union id `u` for the remote side's capture. */
  function MintedObject(ro: MeshObject, u: Id): MeshObject {
    MeshObject(u, ro.kind, ro.payload, ro.vector, false, None)
  }

  /** What the source asserts of a plan item. */
  predicate Applicable(local: Replica, remote: Replica, item: PlanItem) {
    && (item.resolution == FetchRemote ==> item.id in remote)
    && (item.resolution == RemoveWins ==> (item.id in local && local[item.id].tombstone) || item.id in remote)
  }

  /** The effect of one plan item on the state under construction. */
  function ApplyItem(next: Replica, local: Replica, remote: Replica, item: PlanItem, suffix: Suffix): Replica
    requires Applicable(local, remote, item)
  {
    var id, lo, ro := item.id, Get(local, item.id), Get(remote, item.id);
    match item.resolution
    case FetchRemote =>
      next[id := ro.value.(vector := if lo.Some? then ro.value.vector.Merge(lo.value.vector) else ro.value.vector)]
    case Union =>
      if lo.None? || ro.None? then next else
      var unionId := UnionId(id, ro.value.payload, suffix);
      var differs := id !in next || next[id].payload != ro.value.payload;
      var kept :=
        if differs && unionId !in next then
          next[unionId := MintedObject(ro.value, unionId)]
        else next;
      if id in kept then kept[id := kept[id].(vector := kept[id].vector.Merge(ro.value.vector))] else kept
    case RemoveWins =>
      var winner := if lo.Some? && lo.value.tombstone then lo.value else ro.value;
      var merged := if lo.Some? && ro.Some? then lo.value.vector.Merge(ro.value.vector) else winner.vector;
      next[id := winner.(vector := merged, tombstone := true)]
    case Superseded =>
      if lo.None? || ro.None? then next else
      var remoteSupersedes := lo.value.supersededBy == Some(ro.value.id);
      var superseding := if remoteSupersedes then ro.value else lo.value;
      var superseded := if remoteSupersedes then lo.value else ro.value;
      var merged := lo.value.vector.Merge(ro.value.vector);
      next[superseding.id := superseding.(vector := merged, tombstone := false, supersededBy := None)]
          [superseded.id := superseded.(vector := merged, tombstone := true, supersededBy := Some(superseding.id))]
    case SendLocal => next
    case Conflict => next
  }

  ghost function Applied(local: Replica, remote: Replica, plan: seq<PlanItem>, suffix: Suffix): Replica
    requires forall i | 0 <= i < |plan| :: Applicable(local, remote, plan[i])
  {
    if plan == [] then local
    else
      var n := |plan| - 1;
      ApplyItem(Applied(local, remote, plan[..n], suffix), local, remote, plan[n], suffix)
  }

  /** `apply_plan`: the plan's items in order, on a copy of the local state. */
  method ApplyPlan(local: Replica, remote: Replica, plan: seq<PlanItem>, suffix: Suffix) returns (next: Replica)
    requires forall i | 0 <= i < |plan| :: Applicable(local, remote, plan[i])
    ensures next == Applied(local, remote, plan, suffix)
  {
    next := local;
    for i := 0 to |plan|
      invariant next == Applied(local, remote, plan[..i], suffix)
    {
      next := ApplyItem(next, local, remote, plan[i], suffix);
      assert plan[..i + 1][..i] == plan[..i];
    }
    assert plan[..|plan|] == plan;
  }

  lemma PlanIsApplicable(local: Replica, remote: Replica, plan: seq<PlanItem>)
    requires IsPlan(plan, local, remote)
    ensures forall i | 0 <= i < |plan| :: Applicable(local, remote, plan[i])
  {
  }

  /** The local state after reconciling with the remote one: the sorted plan, applied. */
  ghost function Reconciled(local: Replica, remote: Replica, suffix: Suffix): Replica {
    PlanOfIsPlan(local, remote);
    PlanIsApplicable(local, remote, PlanOf(local, remote));
    Applied(local, remote, PlanOf(local, remote), suffix)
  }

  lemma {:induction false} AppliedKeepsWellKeyed(local: Replica, remote: Replica, plan: seq<PlanItem>, suffix: Suffix)
    requires WellKeyed(local) && WellKeyed(remote)
    requires forall i | 0 <= i < |plan| :: Applicable(local, remote, plan[i])
    ensures WellKeyed(Applied(local, remote, plan, suffix))
  {
    if plan != [] {
      AppliedKeepsWellKeyed(local, remote, plan[..|plan| - 1], suffix);
    }
  }

  /** Nothing that applying a plan does makes a local id disappear, or lowers an entry of its vector. */
  lemma {:induction false} AppliedExtends(local: Replica, remote: Replica, plan: seq<PlanItem>, suffix: Suffix, k: Id)
    requires WellKeyed(local) && WellKeyed(remote) && k in local
    requires forall i | 0 <= i < |plan| :: Applicable(local, remote, plan[i])
    ensures var after := Applied(local, remote, plan, suffix); k in after && Extends(after[k].vector, local[k].vector)
  {
    if plan != [] {
      var n := |plan| - 1;
      AppliedExtends(local, remote, plan[..n], suffix, k);
      ItemExtends(Applied(local, remote, plan[..n], suffix), local, remote, plan[n], suffix, k);
    }
  }

  lemma ItemExtends(next: Replica, local: Replica, remote: Replica, item: PlanItem, suffix: Suffix, k: Id)
    requires WellKeyed(local) && WellKeyed(remote) && k in local && Applicable(local, remote, item)
    requires k in next && Extends(next[k].vector, local[k].vector)
    ensures var after := ApplyItem(next, local, remote, item, suffix);
            k in after && Extends(after[k].vector, local[k].vector)
  {
    if item.id in remote {
      MergeExtends(next[k].vector, remote[item.id].vector);
      MergeExtends(local[k].vector, remote[item.id].vector);
    }
    hide VersionVector.Merge;
  }

  lemma ReconciledExtends(local: Replica, remote: Replica, suffix: Suffix)
    requires WellKeyed(local) && WellKeyed(remote)
    ensures var after := Reconciled(local, remote, suffix);
            forall k | k in local :: k in after && Extends(after[k].vector, local[k].vector)
  {
    PlanOfIsPlan(local, remote);
    PlanIsApplicable(local, remote, PlanOf(local, remote));
    forall k | k in local {
      AppliedExtends(local, remote, PlanOf(local, remote), suffix, k);
    }
  }

  lemma ReconciledKeepsWellKeyed(local: Replica, remote: Replica, suffix: Suffix)
    requires WellKeyed(local) && WellKeyed(remote)
    ensures WellKeyed(Reconciled(local, remote, suffix))
  {
    PlanOfIsPlan(local, remote);
    PlanIsApplicable(local, remote, PlanOf(local, remote));
    AppliedKeepsWellKeyed(local, remote, PlanOf(local, remote), suffix);
  }

  // ----- one pull, in closed form -----

  /** What a known id holds after a pull. */
  ghost function PulledObject(lo: Option<MeshObject>, ro: Option<MeshObject>): MeshObject
    requires lo.Some? || ro.Some?
  {
    match Resolve(lo, ro)
    case FetchRemote =>
      ro.value.(vector := if lo.Some? then ro.value.vector.Merge(lo.value.vector) else ro.value.vector)
    case Union => lo.value.(vector := lo.value.vector.Merge(ro.value.vector))
    case RemoveWins =>
      var winner := if lo.value.tombstone then lo.value else ro.value;
      winner.(vector := lo.value.vector.Merge(ro.value.vector), tombstone := true)
    case Superseded =>
      var superseded := if lo.value.supersededBy == Some(ro.value.id) then lo.value else ro.value;
      superseded.(vector := lo.value.vector.Merge(ro.value.vector), tombstone := true)
    case _ => lo.value
  }

  /** A union of two different payloads registers the remote one under an id neither side knows yet. */
  ghost predicate Mints(local: Replica, remote: Replica, id: Id, suffix: Suffix) {
    && id in local && id in remote
    && ResolveAt(local, remote, id) == Union
    && local[id].payload != remote[id].payload
    && UnionId(id, remote[id].payload, suffix) !in local.Keys + remote.Keys
  }

  ghost function MintedIds(local: Replica, remote: Replica, suffix: Suffix): set<Id> {
    set id | id in local.Keys && Mints(local, remote, id, suffix) :: UnionId(id, remote[id].payload, suffix)
  }

  /** The id a union id was made from: everything before the `~` and the eight digits. */
  function Origin(u: Id): Id {
    if |u| < 9 then "" else u[..|u| - 9]
  }

  lemma OriginOfUnionId(id: Id, payload: string, suffix: Suffix)
    requires FixedWidth(suffix)
    ensures Origin(UnionId(id, payload, suffix)) == id
    ensures UnionId(id, payload, suffix) != id
  {
    var u := UnionId(id, payload, suffix);
    assert |u| == |id| + 9;
    assert u[..|id|] == id;
  }

  lemma MintedOrigins(local: Replica, remote: Replica, suffix: Suffix)
    requires FixedWidth(suffix)
    ensures forall u :: u in MintedIds(local, remote, suffix) <==>
              Mints(local, remote, Origin(u), suffix) && u == UnionId(Origin(u), remote[Origin(u)].payload, suffix)
  {
    forall u
      ensures u in MintedIds(local, remote, suffix) <==>
                Mints(local, remote, Origin(u), suffix) && u == UnionId(Origin(u), remote[Origin(u)].payload, suffix)
    {
      if u in MintedIds(local, remote, suffix) {
        var id :| id in local.Keys && Mints(local, remote, id, suffix) && u == UnionId(id, remote[id].payload, suffix);
        OriginOfUnionId(id, remote[id].payload, suffix);
      }
    }
  }

  /** The local state after pulling everything from the remote one. */
  ghost function Pull(local: Replica, remote: Replica, suffix: Suffix): Replica
    requires FixedWidth(suffix)
  {
    MintedOrigins(local, remote, suffix);
    map k | k in local.Keys + remote.Keys + MintedIds(local, remote, suffix) ::
      if k in local || k in remote then PulledObject(Get(local, k), Get(remote, k))
      else MintedObject(remote[Origin(k)], k)
  }

  /** What the state under construction holds at `k` once the ids in `done` have been handled. */
  ghost predicate PartlyAt(next: Replica, done: set<Id>, local: Replica, remote: Replica, suffix: Suffix, k: Id) {
    && ((k in local || k in remote) && k in done ==>
          k in next && next[k] == PulledObject(Get(local, k), Get(remote, k)))
    && (k in local && k !in done ==> k in next && next[k] == local[k])
    && (k !in local && k !in remote ==>
          && (k in next <==> Origin(k) in done && k in MintedIds(local, remote, suffix))
          && (k in next && Origin(k) in remote ==> next[k] == MintedObject(remote[Origin(k)], k)))
  }

  ghost predicate PartlyPulled(next: Replica, done: set<Id>, local: Replica, remote: Replica, suffix: Suffix) {
    forall k :: PartlyAt(next, done, local, remote, suffix, k)
  }

  /** A known id, under which either side has an object with this id, if any. */
  ghost predicate KeyedAt(local: Replica, remote: Replica, k: Id) {
    && (k in local || k in remote)
    && (k in local ==> local[k].id == k)
    && (k in remote ==> remote[k].id == k)
  }

  /** The union id an item registers, if it does. */
  ghost predicate Registers(next: Replica, local: Replica, remote: Replica, item: PlanItem, suffix: Suffix) {
    && item.resolution == Union && item.id in local && item.id in remote
    && (item.id !in next || next[item.id].payload != remote[item.id].payload)
    && UnionId(item.id, remote[item.id].payload, suffix) !in next
  }

  /** An item touches its own id and at most one new union id. */
  lemma ApplyItemAt(next: Replica, local: Replica, remote: Replica, item: PlanItem, suffix: Suffix)
    requires FixedWidth(suffix)
    requires KeyedAt(local, remote, item.id) && item.resolution == ResolveAt(local, remote, item.id)
    requires item.id in local ==> item.id in next && next[item.id] == local[item.id]
    ensures Applicable(local, remote, item)
    ensures var after := ApplyItem(next, local, remote, item, suffix);
            && item.id in after
            && after[item.id] == PulledObject(Get(local, item.id), Get(remote, item.id))
    ensures var after := ApplyItem(next, local, remote, item, suffix);
            if Registers(next, local, remote, item, suffix) then
              var u := UnionId(item.id, remote[item.id].payload, suffix);
              && after.Keys == next.Keys + {u}
              && after[u] == MintedObject(remote[item.id], u)
              && forall k | k in next && k != item.id :: after[k] == next[k]
            else
              && after.Keys == next.Keys + {item.id}
              && forall k | k in next && k != item.id :: after[k] == next[k]
  {
    if item.id in remote {
      OriginOfUnionId(item.id, remote[item.id].payload, suffix);
    }
  }

  lemma ApplyItemPulls(next: Replica, done: set<Id>, local: Replica, remote: Replica, item: PlanItem, suffix: Suffix)
    requires FixedWidth(suffix)
    requires PartlyPulled(next, done, local, remote, suffix)
    requires item.id !in done && KeyedAt(local, remote, item.id)
    requires item.resolution == ResolveAt(local, remote, item.id)
    ensures Applicable(local, remote, item)
    ensures PartlyPulled(ApplyItem(next, local, remote, item, suffix), done + {item.id}, local, remote, suffix)
  {
    assert PartlyAt(next, done, local, remote, suffix, item.id);
    ApplyItemAt(next, local, remote, item, suffix);
    var after := ApplyItem(next, local, remote, item, suffix);
    forall k
      ensures PartlyAt(after, done + {item.id}, local, remote, suffix, k)
    {
      ApplyItemPullsAt(next, done, local, remote, item, suffix, k);
    }
  }

  lemma ApplyItemPullsAt(next: Replica, done: set<Id>, local: Replica, remote: Replica, item: PlanItem,
                         suffix: Suffix, k: Id)
    requires FixedWidth(suffix)
    requires PartlyPulled(next, done, local, remote, suffix)
    requires item.id !in done && KeyedAt(local, remote, item.id)
    requires item.resolution == ResolveAt(local, remote, item.id)
    requires Applicable(local, remote, item)
    ensures PartlyAt(ApplyItem(next, local, remote, item, suffix), done + {item.id}, local, remote, suffix, k)
  {
    assert PartlyAt(next, done, local, remote, suffix, item.id);
    assert PartlyAt(next, done, local, remote, suffix, k);
    assert item.id in remote ==>
        PartlyAt(next, done, local, remote, suffix, UnionId(item.id, remote[item.id].payload, suffix));
    ApplyItemAt(next, local, remote, item, suffix);
    hide ApplyItem;
    hide PartlyPulled;
    hide Resolve;
    hide PulledObject;
    MintedOrigins(local, remote, suffix);
    if item.id in remote {
      OriginOfUnionId(item.id, remote[item.id].payload, suffix);
    }
  }

  ghost function PlanIds(plan: seq<PlanItem>): set<Id> {
    set i | 0 <= i < |plan| :: plan[i].id
  }

  lemma PlanIdsGrow(plan: seq<PlanItem>, n: nat)
    requires 0 < n <= |plan|
    ensures PlanIds(plan[..n]) == PlanIds(plan[..n - 1]) + {plan[n - 1].id}
    ensures (forall i, j | 0 <= i < j < |plan| :: plan[i].id != plan[j].id) ==>
              plan[n - 1].id !in PlanIds(plan[..n - 1])
  {
    var all, some := plan[..n], plan[..n - 1];
    forall id | id in PlanIds(all)
      ensures id in PlanIds(some) || id == plan[n - 1].id
    {
      var i :| 0 <= i < n && all[i].id == id;
      assert i < n - 1 ==> some[i].id == id;
    }
    forall id | id in PlanIds(some)
      ensures id in PlanIds(all)
    {
      var i :| 0 <= i < n - 1 && some[i].id == id;
      assert all[i].id == id;
    }
    assert all[n - 1].id in PlanIds(all);
  }

  lemma {:induction false} PrefixPulls(local: Replica, remote: Replica, plan: seq<PlanItem>, n: nat, suffix: Suffix)
    requires FixedWidth(suffix) && n <= |plan|
    requires forall i, j | 0 <= i < j < |plan| :: plan[i].id != plan[j].id
    requires forall i | 0 <= i < |plan| :: Sound(local, remote, plan[i])
    ensures forall i | 0 <= i < n :: Applicable(local, remote, plan[..n][i])
    ensures PartlyPulled(Applied(local, remote, plan[..n], suffix), PlanIds(plan[..n]), local, remote, suffix)
  {
    if n > 0 {
      PrefixPulls(local, remote, plan, n - 1, suffix);
      assert plan[..n][..n - 1] == plan[..n - 1];
      var next := Applied(local, remote, plan[..n - 1], suffix);
      PlanIdsGrow(plan, n);
      assert Sound(local, remote, plan[n - 1]);
      ApplyItemPulls(next, PlanIds(plan[..n - 1]), local, remote, plan[n - 1], suffix);
    }
  }

  /** A plan item as `reconcile` produces it. */
  ghost predicate Sound(local: Replica, remote: Replica, item: PlanItem) {
    && KeyedAt(local, remote, item.id)
    && item.resolution == ResolveAt(local, remote, item.id)
    && Applicable(local, remote, item)
  }

  lemma FullyPulled(next: Replica, done: set<Id>, local: Replica, remote: Replica, suffix: Suffix)
    requires FixedWidth(suffix)
    requires PartlyPulled(next, done, local, remote, suffix)
    requires local.Keys + remote.Keys <= done
    ensures next == Pull(local, remote, suffix)
  {
    MintedOrigins(local, remote, suffix);
    var pulled := Pull(local, remote, suffix);
    forall k
      ensures k in next <==> k in pulled
      ensures k in next ==> next[k] == pulled[k]
    {
      assert PartlyAt(next, done, local, remote, suffix, k);
    }
    assert next.Keys == pulled.Keys;
  }

  /** Applying a reconciliation plan is the closed form, in whatever order the plan lists the ids: neither
      the order nor a clash between a minted union id and a fetched id can change the outcome. */
  lemma ApplyingAPlanIsPull(local: Replica, remote: Replica, plan: seq<PlanItem>, suffix: Suffix)
    requires WellKeyed(local) && WellKeyed(remote) && FixedWidth(suffix)
    requires IsPlan(plan, local, remote)
    ensures forall i | 0 <= i < |plan| :: Applicable(local, remote, plan[i])
    ensures Applied(local, remote, plan, suffix) == Pull(local, remote, suffix)
  {
    hide Resolve;
    hide PartlyPulled;
    PlanIsApplicable(local, remote, plan);
    forall i | 0 <= i < |plan|
      ensures Sound(local, remote, plan[i])
    {
      assert Applicable(local, remote, plan[i]);
    }
    PrefixPulls(local, remote, plan, |plan|, suffix);
    assert plan[..|plan|] == plan;
    forall k | k in local.Keys + remote.Keys
      ensures k in PlanIds(plan)
    {
      var i :| 0 <= i < |plan| && plan[i].id == k;
    }
    FullyPulled(Applied(local, remote, plan, suffix), PlanIds(plan), local, remote, suffix);
  }

  lemma ReconciledIsPull(local: Replica, remote: Replica, suffix: Suffix)
    requires WellKeyed(local) && WellKeyed(remote) && FixedWidth(suffix)
    ensures Reconciled(local, remote, suffix) == Pull(local, remote, suffix)
  {
    PlanOfIsPlan(local, remote);
    ApplyingAPlanIsPull(local, remote, PlanOf(local, remote), suffix);
  }

  /** A pull keeps replicas consistent, whatever their counts. */
  lemma PullKeepsConsistent(local: Replica, remote: Replica, suffix: Suffix)
    requires Consistent(local) && Consistent(remote) && FixedWidth(suffix)
    ensures Consistent(Pull(local, remote, suffix))
  {
    var pulled := Pull(local, remote, suffix);
    MintedOrigins(local, remote, suffix);
    forall k | k in pulled
      ensures pulled[k].id == k && pulled[k].supersededBy != Some(k)
    {
      if k in local || k in remote {
        ConsistentPair(Get(local, k), Get(remote, k), k);
      }
    }
    hide PulledObject;
  }

  lemma ConsistentPair(lo: Option<MeshObject>, ro: Option<MeshObject>, k: Id)
    requires lo.Some? || ro.Some?
    requires lo.Some? ==> lo.value.id == k && lo.value.supersededBy != Some(k)
    requires ro.Some? ==> ro.value.id == k && ro.value.supersededBy != Some(k)
    ensures PulledObject(lo, ro).id == k && PulledObject(lo, ro).supersededBy != Some(k)
  {
  }

  /** A pull keeps replicas well-formed. */
  lemma PullKeepsWellFormed(local: Replica, remote: Replica, suffix: Suffix)
    requires WellFormed(local) && WellFormed(remote) && FixedWidth(suffix)
    ensures WellFormed(Pull(local, remote, suffix))
    ensures Positive(local) && Positive(remote) ==> Positive(Pull(local, remote, suffix))
  {
    var pulled := Pull(local, remote, suffix);
    MintedOrigins(local, remote, suffix);
    forall k | k in pulled
      ensures pulled[k].id == k && pulled[k].vector.NonNegative() && pulled[k].supersededBy != Some(k)
      ensures Positive(local) && Positive(remote) ==> pulled[k].vector.Positive()
    {
      if k in local && k in remote {
        PulledPair(local[k], remote[k]);
      }
    }
  }

  /** What an id known to both sides holds after a pull: one side's data, and a vector that has not lost
      anything of the local one. */
  lemma PulledPair(lo: MeshObject, ro: MeshObject)
    requires lo.vector.NonNegative() && ro.vector.NonNegative()
    ensures var p := PulledObject(Some(lo), Some(ro));
            && (|| p == lo.(vector := p.vector, tombstone := p.tombstone)
                || p == ro.(vector := p.vector, tombstone := p.tombstone))
            && p.vector in {lo.vector, lo.vector.Merge(ro.vector), ro.vector.Merge(lo.vector)}
            && p.vector.NonNegative() && Leq(lo.vector, p.vector) && lo.vector.counts.Keys <= p.vector.counts.Keys
            && (lo.vector.Positive() && ro.vector.Positive() ==> p.vector.Positive())
  {
    MergeLeastUpperBound(lo.vector, ro.vector);
    MergeLeastUpperBound(ro.vector, lo.vector);
  }
}
