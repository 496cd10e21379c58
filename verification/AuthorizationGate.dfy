/** The gate's own visibility decision, and the lineage a derived record is stamped with. */
module AuthorizationGate {
  import opened Options
  import opened Lineage
  import opened Sequences
  import opened SnapshotAuthorization

  /** What the gate answers; an own check that raises is not caught here. */
  datatype Answer = Visible(visible: bool) | Raised

  /** The lookup as the gate hands it to the evaluator: an absent id is always reported as a lookup error. */
  function LegacySnapshot(g: Snapshot): Snapshot {
    g.(failure := _ => "lookup_error")
  }

  lemma LegacySnapshotAllows(g: Snapshot, id: NodeId)
    ensures Allowed(LegacySnapshot(g), id) <==> Allowed(g, id)
    ensures TrueVerdict(LegacySnapshot(g), id).allowed == TrueVerdict(g, id).allowed
  {
    var h := LegacySnapshot(g);
    if depth: nat :| AllowedWithin(g, id, depth) {
      FailureReasonIsIrrelevant(g, h.failure, id, depth);
    }
    if depth: nat :| AllowedWithin(h, id, depth) {
      FailureReasonIsIrrelevant(g, h.failure, id, depth);
    }
  }

  /** What the gate decides for a record that its caller hands in: own checks, and every source allowed as seen
      from this record's path. */
  ghost predicate GateAllows(g: Snapshot, node: Node) {
    && OwnChecksPass(node)
    && forall i | 0 <= i < |node.sources| :: Allowed(Guarded(g, {node.id}), node.sources[i])
  }

  /** `is_node_visible`: own scope first, then the lineage. */
  method IsNodeVisible(g: Snapshot, node: Node) returns (answer: Answer)
    requires Faithful(g)
    ensures answer == if node.scope == ScopeRaises || (node.scope == InScope && node.facts == FactsRaise) then Raised
                      else Visible(GateAllows(g, node))
    ensures answer.Visible? && Resolves(g, node) ==> answer.visible == TrueVerdict(g, node.id).allowed
  {
    if Resolves(g, node) {
      GateOfStoredRecord(g, node);
    }
    if node.scope == ScopeRaises {
      return Raised;
    }
    if node.scope == OutOfScope {
      return Visible(false);
    }
    answer := SourcesStillVisible(g, node);
  }

  /** `_sources_still_visible`: each source is looked up and checked by an evaluator that knows this node to
      be on the path.  One evaluator, with its memo, serves all sources. */
  method SourcesStillVisible(g: Snapshot, node: Node) returns (answer: Answer)
    requires Faithful(g) && node.scope == InScope
    ensures answer == if node.facts == FactsRaise then Raised else Visible(GateAllows(g, node))
  {
    if node.facts == FactsRaise {
      return Raised;
    }
    if node.facts == FactsChanged {
      return Visible(false);
    }
    var h := LegacySnapshot(g);
    ghost var view := Guarded(h, {node.id});
    GuardedView(h, {node.id});
    GuardedLegacy(g, {node.id});
    var evaluator := new Evaluator(h, Some({node.id}), None);
    for k := 0 to |node.sources|
      invariant fresh(evaluator) && evaluator.Valid() && evaluator.view == view
      invariant evaluator.table == h && evaluator.legacyPath == Some({node.id})
      invariant forall i | 0 <= i < k :: Allowed(view, node.sources[i])
    {
      var source := node.sources[k];
      if !Lookup(h, source).Found? {
        AllowedIsFixedPoint(view, source);
        return Visible(false);
      }
      var verdict := evaluator.Check(Lookup(h, source).node);
      if !verdict.allowed {
        return Visible(false);
      }
    }
    return Visible(true);
  }

  /** What is reported for absent ids does not matter to what the gate allows. */
  lemma GuardedLegacy(g: Snapshot, callers: set<NodeId>)
    ensures forall id :: Allowed(Guarded(LegacySnapshot(g), callers), id) <==> Allowed(Guarded(g, callers), id)
  {
    assert Guarded(LegacySnapshot(g), callers) == LegacySnapshot(Guarded(g, callers));
    forall id
      ensures Allowed(LegacySnapshot(Guarded(g, callers)), id) <==> Allowed(Guarded(g, callers), id)
    {
      LegacySnapshotAllows(Guarded(g, callers), id);
    }
  }

  // ----- the gate and the snapshot evaluator -----

  /** The snapshot without a record. */
  function Removed(g: Snapshot, id: NodeId): Snapshot {
    g.(nodes := g.nodes - {id}, raising := g.raising - {id})
  }

  /** The lookup has, under the queried record's id, a passing record without sources. */
  ghost predicate StandIn(g: Snapshot, node: Node) {
    Lookup(g, node.id).Found? && OwnChecksPass(Lookup(g, node.id).node) && Lookup(g, node.id).node.sources == []
  }

  ghost predicate AllAllowed(g: Snapshot, ids: seq<NodeId>) {
    forall i | 0 <= i < |ids| :: Allowed(g, ids[i])
  }

  /** Up to a depth at which `id` itself is not allowed, nothing else rests on it. */
  lemma {:induction false} NotRestingOn(g: Snapshot, n: Node, id: NodeId, depth: nat)
    requires AllowedWithin(Overlaid(g, n), id, depth) && !AllowedWithin(Overlaid(g, n), n.id, depth)
    ensures AllowedWithin(Removed(g, n.id), id, depth)
    decreases depth
  {
    var o, r := Overlaid(g, n), Removed(g, n.id);
    assert Lookup(o, id) == Lookup(r, id);
    var sources := Lookup(o, id).node.sources;
    forall i | 0 <= i < |sources|
      ensures AllowedWithin(r, sources[i], depth - 1)
    {
      if AllowedWithin(o, n.id, depth - 1) {
        DeeperIsAllowed(o, n.id, depth - 1, depth);
      }
      NotRestingOn(g, n, sources[i], depth - 1);
    }
  }

  /** Putting a record in does not take anything away from the others. */
  lemma {:induction false} RemovedIsLess(g: Snapshot, h: Snapshot, gone: NodeId, id: NodeId, depth: nat)
    requires forall x | x != gone :: Lookup(h, x) == Lookup(g, x)
    requires AllowedWithin(Removed(g, gone), id, depth)
    ensures AllowedWithin(h, id, depth)
    decreases depth
  {
    assert id != gone && Lookup(Removed(g, gone), id) == Lookup(g, id);
    var sources := Lookup(g, id).node.sources;
    forall i | 0 <= i < |sources|
      ensures AllowedWithin(h, sources[i], depth - 1)
    {
      RemovedIsLess(g, h, gone, sources[i], depth - 1);
    }
  }

  lemma {:induction false} FirstDepth(g: Snapshot, id: NodeId, depth: nat) returns (least: nat)
    requires AllowedWithin(g, id, depth)
    ensures least <= depth && AllowedWithin(g, id, least) && (least > 0 ==> !AllowedWithin(g, id, least - 1))
  {
    if AllowedWithin(g, id, depth - 1) {
      least := FirstDepth(g, id, depth - 1);
    } else {
      least := depth;
    }
  }

  /** No record supports itself: the queried one is allowed exactly if its sources are allowed without it. */
  lemma OverlaidAllows(g: Snapshot, n: Node)
    ensures Allowed(Overlaid(g, n), n.id) <==> OwnChecksPass(n) && AllAllowed(Removed(g, n.id), n.sources)
  {
    var o, r := Overlaid(g, n), Removed(g, n.id);
    if Allowed(o, n.id) {
      var some: nat :| AllowedWithin(o, n.id, some);
      var depth := FirstDepth(o, n.id, some);
      forall i | 0 <= i < |n.sources|
        ensures Allowed(r, n.sources[i])
      {
        NotRestingOn(g, n, n.sources[i], depth - 1);
      }
    }
    if OwnChecksPass(n) && AllAllowed(r, n.sources) {
      forall i | 0 <= i < |n.sources|
        ensures Allowed(o, n.sources[i])
      {
        var depth: nat :| AllowedWithin(r, n.sources[i], depth);
        RemovedIsLess(g, o, n.id, n.sources[i], depth);
      }
      AllowedIsFixedPoint(o, n.id);
    }
  }

  /** Seen from the path of a record, an id is allowed as if that record were not there, unless a stand-in is. */
  lemma GuardedAllows(g: Snapshot, node: Node, id: NodeId)
    requires Faithful(g)
    ensures StandIn(g, node) ==> Guarded(g, {node.id}) == g
    ensures !StandIn(g, node) ==> (Allowed(Guarded(g, {node.id}), id) <==> Allowed(Removed(g, node.id), id))
  {
    var guarded, r := Guarded(g, {node.id}), Removed(g, node.id);
    if StandIn(g, node) {
      assert guarded.nodes == g.nodes;
    } else {
      if depth: nat :| AllowedWithin(guarded, id, depth) {
        GuardedIsRemoved(g, node, id, depth);
      }
      if depth: nat :| AllowedWithin(r, id, depth) {
        RemovedIsLess(g, guarded, node.id, id, depth);
      }
    }
  }

  lemma {:induction false} GuardedIsRemoved(g: Snapshot, node: Node, id: NodeId, depth: nat)
    requires !StandIn(g, node) && AllowedWithin(Guarded(g, {node.id}), id, depth)
    ensures AllowedWithin(Removed(g, node.id), id, depth)
    decreases depth
  {
    var sources := Lookup(Guarded(g, {node.id}), id).node.sources;
    forall i | 0 <= i < |sources|
      ensures AllowedWithin(Removed(g, node.id), sources[i], depth - 1)
    {
      GuardedIsRemoved(g, node, sources[i], depth - 1);
    }
  }

  /** The gate's decision in terms of what is allowed without the record, or beside its stand-in. */
  lemma GateDecides(g: Snapshot, node: Node)
    requires Faithful(g)
    ensures GateAllows(g, node) <==>
              OwnChecksPass(node) && AllAllowed(if StandIn(g, node) then g else Removed(g, node.id), node.sources)
  {
    forall i | 0 <= i < |node.sources|
      ensures StandIn(g, node) ==> Guarded(g, {node.id}) == g
      ensures !StandIn(g, node) ==>
                (Allowed(Guarded(g, {node.id}), node.sources[i]) <==> Allowed(Removed(g, node.id), node.sources[i]))
    {
      GuardedAllows(g, node, node.sources[i]);
    }
  }

  /** The gate and the strict evaluator agree on a queried record, whatever the lookup has under its id, exactly
      unless a stand-in there carries sources that would not be allowed without it.  In particular they agree
      on records without sources, on records the lookup returns as they are, and where there is no stand-in. */
  lemma GateAgreesExactlyWhen(g: Snapshot, node: Node)
    requires Faithful(g)
    ensures (GateAllows(g, node) <==> Allowed(Overlaid(g, node), node.id)) <==>
              !(&& StandIn(g, node) && OwnChecksPass(node)
                && AllAllowed(g, node.sources) && !AllAllowed(Removed(g, node.id), node.sources))
    ensures node.sources == [] || Resolves(g, node) || !StandIn(g, node) ==>
              (GateAllows(g, node) <==> Allowed(Overlaid(g, node), node.id))
  {
    GateDecides(g, node);
    OverlaidAllows(g, node);
    if AllAllowed(Removed(g, node.id), node.sources) {
      forall i | 0 <= i < |node.sources|
        ensures Allowed(g, node.sources[i])
      {
        var depth: nat :| AllowedWithin(Removed(g, node.id), node.sources[i], depth);
        RemovedIsLess(g, g, node.id, node.sources[i], depth);
      }
    }
  }

  lemma GateOfStoredRecord(g: Snapshot, node: Node)
    requires Faithful(g) && Resolves(g, node)
    ensures GateAllows(g, node) == TrueVerdict(g, node.id).allowed
  {
    GateAgreesExactlyWhen(g, node);
    assert Overlaid(g, node) == g;
  }

  /** An example of disagreement: "x" is handed in with the source "y", which has the source "x", and the lookup
      has another "x", without sources.  The gate lets it through; the strict evaluator refuses the cycle. */
  lemma StandInHidesCycle(failure: NodeId -> string)
    ensures var x := Node("x", InScope, FactsMatch, ["y"]);
            var stored := Node("x", InScope, FactsMatch, []);
            var y := Node("y", InScope, FactsMatch, ["x"]);
            var g := Snapshot(map["x" := stored, "y" := y], {}, failure);
            Faithful(g) && GateAllows(g, x) && !Allowed(Overlaid(g, x), "x")
  {
    var x, stored := Node("x", InScope, FactsMatch, ["y"]), Node("x", InScope, FactsMatch, []);
    var y := Node("y", InScope, FactsMatch, ["x"]);
    var g := Snapshot(map["x" := stored, "y" := y], {}, failure);
    assert Lookup(g, "x") == Found(stored) && Lookup(g, "y") == Found(y);
    AllowedIsFixedPoint(g, "x");
    AllowedIsFixedPoint(g, "y");
    GateDecides(g, x);
    AllowedIsFixedPoint(Removed(g, "x"), "y");
    AllowedIsFixedPoint(Removed(g, "x"), "x");
    assert Lookup(Removed(g, "x"), "y") == Found(y) && y.sources[0] == "x" && x.sources[0] == "y";
    assert !AllAllowed(Removed(g, "x"), x.sources);
    OverlaidAllows(g, x);
  }

  /** The gate, and a strict evaluator asked about the same record: where they agree. */
  method GateAgreesWithSnapshot(g: Snapshot, node: Node) returns (gate: Answer, snapshot: Verdict)
    requires Faithful(g)
    ensures gate.Raised? <==> node.scope == ScopeRaises || (node.scope == InScope && node.facts == FactsRaise)
    ensures snapshot == TrueVerdict(Overlaid(g, node), node.id)
    ensures Resolves(g, node) ==> snapshot == TrueVerdict(g, node.id)
    ensures gate.Visible? ==>
              (gate.visible == snapshot.allowed <==>
                 !(&& StandIn(g, node) && OwnChecksPass(node)
                   && AllAllowed(g, node.sources) && !AllAllowed(Removed(g, node.id), node.sources)))
    ensures gate.Visible? && (node.sources == [] || Resolves(g, node) || !StandIn(g, node)) ==>
              gate.visible == snapshot.allowed
  {
    gate := IsNodeVisible(g, node);
    var evaluator := new Evaluator(g, None, Some(node));
    snapshot := evaluator.Check(node);
    GateAgreesExactlyWhen(g, node);
    assert Resolves(g, node) ==> Overlaid(g, node) == g;
  }

  // ----- stamping a derived record -----

  function Join(ids: seq<string>): string {
    if ids == [] then ""
    else if |ids| == 1 then ids[0]
    else ids[0] + "," + Join(ids[1..])
  }

  /** `str.split(",")`: always at least one part. */
  function Split(s: string): (parts: seq<string>)
    ensures parts != []
    decreases |s|
  {
    if s == [] then [""]
    else if s[0] == ',' then [""] + Split(s[1..])
    else
      var rest := Split(s[1..]);
      [[s[0]] + rest[0]] + rest[1..]
  }

  function NonEmpty(parts: seq<string>): seq<string> {
    if parts == [] then []
    else (if parts[0] == "" then [] else [parts[0]]) + NonEmpty(parts[1..])
  }

  /** `_source_ids` of a record whose declared references are `refs`. */
  function SourceIds(refs: string): seq<string> {
    if refs == "" then [] else FirstOccurrences(NonEmpty(Split(refs)))
  }

  lemma {:induction false} SplitHasNoCommas(s: string)
    ensures forall i | 0 <= i < |Split(s)| :: ',' !in Split(s)[i]
  {
    if s != [] {
      SplitHasNoCommas(s[1..]);
    }
  }

  lemma {:induction false} SplitPrefix(id: string, rest: string)
    requires ',' !in id
    ensures Split(id + "," + rest) == [id] + Split(rest)
  {
    var s := id + "," + rest;
    if id == [] {
      assert s[1..] == rest;
    } else {
      SplitPrefix(id[1..], rest);
      assert s[1..] == id[1..] + "," + rest;
      assert [id[0]] + id[1..] == id;
    }
  }

  lemma {:induction false} SplitSingle(id: string)
    requires ',' !in id
    ensures Split(id) == [id]
  {
    if id != [] {
      SplitSingle(id[1..]);
      assert [id[0]] + id[1..] == id;
    }
  }

  ghost predicate CommaFree(ids: seq<string>) {
    forall i | 0 <= i < |ids| :: ',' !in ids[i]
  }

  lemma {:induction false} SplitJoin(ids: seq<string>)
    requires ids != [] && CommaFree(ids)
    ensures Split(Join(ids)) == ids
  {
    if |ids| == 1 {
      SplitSingle(ids[0]);
    } else {
      SplitJoin(ids[1..]);
      SplitPrefix(ids[0], Join(ids[1..]));
    }
  }

  lemma {:induction false} NonEmptyKeeps(parts: seq<string>)
    ensures forall x :: x in NonEmpty(parts) <==> x in parts && x != ""
    ensures (forall i | 0 <= i < |parts| :: parts[i] != "") ==> NonEmpty(parts) == parts
  {
    if parts != [] {
      NonEmptyKeeps(parts[1..]);
      assert parts == [parts[0]] + parts[1..];
    }
  }

  lemma JoinIsNotEmpty(ids: seq<string>)
    requires ids != [] && forall i | 0 <= i < |ids| :: ids[i] != ""
    ensures Join(ids) != ""
  {
  }

  /** Joining and splitting undo each other exactly for comma-free ids: only then does the read side see
      the bound ids, each once and in order of first mention. */
  lemma BoundIdsAreReadBack(ids: seq<string>)
    requires ids != [] && forall i | 0 <= i < |ids| :: ids[i] != ""
    ensures SourceIds(Join(ids)) == FirstOccurrences(ids) <==> CommaFree(ids)
  {
    JoinIsNotEmpty(ids);
    if CommaFree(ids) {
      SplitJoin(ids);
      NonEmptyKeeps(ids);
    }
    if SourceIds(Join(ids)) == FirstOccurrences(ids) {
      var parts := Split(Join(ids));
      forall i | 0 <= i < |ids|
        ensures ',' !in ids[i]
      {
        FirstOccurrencesMembers(ids);
        FirstOccurrencesMembers(NonEmpty(parts));
        NonEmptyKeeps(parts);
        SplitHasNoCommas(Join(ids));
        assert ids[i] in parts;
      }
    }
  }

  /** Lower is more restrictive; an unknown visibility ranks below all. */
  function Rank(visibility: string): int {
    if visibility == "user" then 0
    else if visibility == "session" then 1
    else if visibility == "workspace" then 2
    else -1
  }

  /** A source as the stamp reads it: its id, and its visibility stripped and in lower case. */
  datatype SourceRecord = SourceRecord(id: string, visibility: string)

  datatype StampError = NoSources | MissingSourceId

  ghost function SourceRefs(sources: seq<SourceRecord>): seq<string> {
    seq(|sources|, i requires 0 <= i < |sources| => sources[i].id)
  }

  /** `visibility` is the widest one that no source is narrower than, a source with an unknown visibility being
      narrowest: by name, without regard to how visibilities are compared. */
  ghost predicate Clamped(visibility: string, sources: seq<SourceRecord>) {
    visibility ==
    if exists i :: 0 <= i < |sources| && sources[i].visibility !in {"session", "workspace"} then "user"
    else if exists i :: 0 <= i < |sources| && sources[i].visibility == "session" then "session"
    else "workspace"
  }

  const SOURCE_REFS: string := "memplex_source_refs"
  const DERIVATION: string := "memplex_derivation"

  class DerivedRecord {
    var namespace: map<string, string>
    var visibility: string

    constructor ()
      ensures namespace == map[] && visibility == ""
    {
      namespace, visibility := map[], "";
    }

    /** `bind_derivation_lineage`: on success the references read back as the bound ids, and the visibility
        is the widest one that no source is narrower than; on an error the record is untouched. */
    method BindDerivationLineage(sources: seq<SourceRecord>, derivationVersion: string)
      returns (error: Option<StampError>)
      modifies this
      ensures error == if sources == [] then Some(NoSources)
                       else if exists i :: 0 <= i < |sources| && sources[i].id == "" then Some(MissingSourceId)
                       else None
      ensures error.Some? ==> unchanged(this)
      ensures error.None? ==>
                && namespace ==
                     old(namespace)["memplex_source_refs" := Join(SourceRefs(sources))]
                                   ["memplex_derivation" := derivationVersion]
                && Clamped(visibility, sources)
    {
      if sources == [] {
        return Some(NoSources);
      }
      var ids: seq<string>, mostRestrictive := [], 2;
      for k := 0 to |sources|
        invariant ids == SourceRefs(sources[..k])
        invariant forall i | 0 <= i < k :: sources[i].id != "" && mostRestrictive <= Rank(sources[i].visibility)
        invariant k == 0 ==> mostRestrictive == 2
        invariant k > 0 ==> exists i :: 0 <= i < k && mostRestrictive == Rank(sources[i].visibility)
        invariant unchanged(this)
      {
        if sources[k].id == "" {
          return Some(MissingSourceId);
        }
        ids := ids + [sources[k].id];
        var rank := Rank(sources[k].visibility);
        if k == 0 || rank < mostRestrictive {
          mostRestrictive := rank;
        }
      }
      assert sources[..|sources|] == sources;
      namespace := namespace[SOURCE_REFS := Join(ids)][DERIVATION := derivationVersion];
      if mostRestrictive <= 0 {
        visibility := "user";
      } else if mostRestrictive == 1 {
        visibility := "session";
      } else {
        visibility := "workspace";
      }
      return None;
    }
  }
}
