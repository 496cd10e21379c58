/** What it means for a derived record to be visible: the least fixed point over the declared sources.

    A node's own checks (scope and content match) are decided outside this model and appear as values; the
    lookup is a finite table that may also raise. */
module Lineage {
  import opened Options

  type NodeId = string

  datatype Scope = InScope | OutOfScope | ScopeRaises

  datatype Facts = FactsMatch | FactsChanged | FactsRaise

  /** A record with its own checks and its declared source ids. */
  datatype Node = Node(id: NodeId, scope: Scope, facts: Facts, sources: seq<NodeId>)

  datatype LookupResult = Found(node: Node) | Absent | Raises

  /** The records a request can see, the ids whose lookup raises, and the reason reported for an absent id. */
  datatype Snapshot = Snapshot(nodes: map<NodeId, Node>, raising: set<NodeId>, failure: NodeId -> string)

  function Lookup(g: Snapshot, id: NodeId): LookupResult {
    if id in g.raising then Raises else if id in g.nodes then Found(g.nodes[id]) else Absent
  }

  /** Looking up an id never yields a record with another id. */
  ghost predicate Faithful(g: Snapshot) {
    forall id | id in g.nodes :: g.nodes[id].id == id
  }

  predicate OwnChecksPass(n: Node) {
    n.scope == InScope && n.facts == FactsMatch
  }

  // ----- allowed: the least fixed point -----

  ghost predicate AllowedWithin(g: Snapshot, id: NodeId, depth: nat)
    decreases depth
  {
    && depth > 0
    && Lookup(g, id).Found?
    && OwnChecksPass(Lookup(g, id).node)
    && forall i | 0 <= i < |Lookup(g, id).node.sources| :: AllowedWithin(g, Lookup(g, id).node.sources[i], depth - 1)
  }

  ghost predicate Allowed(g: Snapshot, id: NodeId) {
    exists depth: nat :: AllowedWithin(g, id, depth)
  }

  lemma {:induction false} DeeperIsAllowed(g: Snapshot, id: NodeId, m: nat, n: nat)
    requires m <= n && AllowedWithin(g, id, m)
    ensures AllowedWithin(g, id, n)
    decreases m
  {
    var sources := Lookup(g, id).node.sources;
    forall i | 0 <= i < |sources|
      ensures AllowedWithin(g, sources[i], n - 1)
    {
      DeeperIsAllowed(g, sources[i], m - 1, n - 1);
    }
  }

  lemma {:induction false} CommonDepth(g: Snapshot, ids: seq<NodeId>) returns (depth: nat)
    requires forall i | 0 <= i < |ids| :: Allowed(g, ids[i])
    ensures forall i | 0 <= i < |ids| :: AllowedWithin(g, ids[i], depth)
  {
    if ids == [] {
      depth := 0;
    } else {
      var n := |ids| - 1;
      var rest := CommonDepth(g, ids[..n]);
      assert Allowed(g, ids[n]);
      var last: nat :| AllowedWithin(g, ids[n], last);
      depth := if last < rest then rest else last;
      forall i | 0 <= i < |ids|
        ensures AllowedWithin(g, ids[i], depth)
      {
        if i < n {
          assert ids[..n][i] == ids[i];
        }
        DeeperIsAllowed(g, ids[i], if i < n then rest else last, depth);
      }
    }
  }

  /** `Allowed` is a fixed point: own checks pass, and every declared source exists and is allowed. */
  lemma AllowedIsFixedPoint(g: Snapshot, id: NodeId)
    ensures Allowed(g, id) <==>
              && Lookup(g, id).Found? && OwnChecksPass(Lookup(g, id).node)
              && forall i | 0 <= i < |Lookup(g, id).node.sources| :: Allowed(g, Lookup(g, id).node.sources[i])
  {
    if Allowed(g, id) {
      var depth: nat :| AllowedWithin(g, id, depth);
      var sources := Lookup(g, id).node.sources;
      forall i | 0 <= i < |sources|
        ensures Allowed(g, sources[i])
      {
        assert AllowedWithin(g, sources[i], depth - 1);
      }
    }
    if
      && Lookup(g, id).Found? && OwnChecksPass(Lookup(g, id).node)
      && forall i | 0 <= i < |Lookup(g, id).node.sources| :: Allowed(g, Lookup(g, id).node.sources[i])
    {
      var depth := CommonDepth(g, Lookup(g, id).node.sources);
      assert AllowedWithin(g, id, depth + 1);
    }
  }

  /** Whatever the rule lets in because of members of the set is in the set. */
  ghost predicate ClosedUnderRule(g: Snapshot, ids: iset<NodeId>) {
    forall x |
      && Lookup(g, x).Found? && OwnChecksPass(Lookup(g, x).node)
      && (forall i | 0 <= i < |Lookup(g, x).node.sources| :: Lookup(g, x).node.sources[i] in ids)
      :: x in ids
  }

  /** `Allowed` is the least such set: every set closed under the rule, finite or not, contains it. */
  lemma AllowedIsLeast(g: Snapshot, closed: iset<NodeId>, id: NodeId)
    requires ClosedUnderRule(g, closed) && Allowed(g, id)
    ensures id in closed
  {
    var depth: nat :| AllowedWithin(g, id, depth);
    WithinClosed(g, closed, id, depth);
  }

  lemma {:induction false} WithinClosed(g: Snapshot, closed: iset<NodeId>, id: NodeId, depth: nat)
    requires ClosedUnderRule(g, closed) && AllowedWithin(g, id, depth)
    ensures id in closed
    decreases depth
  {
    var sources := Lookup(g, id).node.sources;
    forall i | 0 <= i < |sources|
      ensures sources[i] in closed
    {
      WithinClosed(g, closed, sources[i], depth - 1);
    }
  }

  /** Nothing on a cycle is allowed: if every member of a set has a source in the set, none is. */
  lemma {:induction false} CycleIsNotAllowed(g: Snapshot, cycle: set<NodeId>, id: NodeId, depth: nat)
    requires forall x | x in cycle && Lookup(g, x).Found? ::
               exists i :: 0 <= i < |Lookup(g, x).node.sources| && Lookup(g, x).node.sources[i] in cycle
    requires id in cycle
    ensures !AllowedWithin(g, id, depth)
    decreases depth
  {
    if AllowedWithin(g, id, depth) {
      var i :| 0 <= i < |Lookup(g, id).node.sources| && Lookup(g, id).node.sources[i] in cycle;
      CycleIsNotAllowed(g, cycle, Lookup(g, id).node.sources[i], depth - 1);
    }
  }

  // ----- consequences of the definition -----

  /** `path` leads from its first id to its last along declared sources. */
  ghost predicate IsSourcePath(g: Snapshot, path: seq<NodeId>) {
    && path != []
    && forall i | 0 <= i < |path| - 1 :: Lookup(g, path[i]).Found? && path[i + 1] in Lookup(g, path[i]).node.sources
  }

  /** A visible record's transitive sources are all visible. */
  lemma {:induction false} TransitiveSourcesAllowed(g: Snapshot, path: seq<NodeId>)
    requires IsSourcePath(g, path) && Allowed(g, path[0])
    ensures Allowed(g, path[|path| - 1])
  {
    if |path| > 1 {
      AllowedIsFixedPoint(g, path[0]);
      var sources := Lookup(g, path[0]).node.sources;
      assert path[1] in sources;
      var i :| 0 <= i < |sources| && sources[i] == path[1];
      var rest := path[1..];
      assert forall j | 0 <= j < |rest| :: rest[j] == path[j + 1];
      TransitiveSourcesAllowed(g, rest);
    }
  }

  /** Nothing was granted between `before` and `after`: a record that passes its own checks afterwards passed
      them before, and did not declare more sources then. */
  ghost predicate OnlyRevoked(before: Snapshot, after: Snapshot) {
    forall id | Lookup(after, id).Found? && OwnChecksPass(Lookup(after, id).node) ::
      && Lookup(before, id).Found? && OwnChecksPass(Lookup(before, id).node)
      && forall i | 0 <= i < |Lookup(before, id).node.sources| ::
           Lookup(before, id).node.sources[i] in Lookup(after, id).node.sources
  }

  /** Deleting or revoking records never makes another record visible. */
  lemma RevocationNeverReveals(before: Snapshot, after: Snapshot, id: NodeId)
    requires OnlyRevoked(before, after) && Allowed(after, id)
    ensures Allowed(before, id)
  {
    var depth: nat :| AllowedWithin(after, id, depth);
    RevocationWithin(before, after, id, depth);
  }

  lemma {:induction false} RevocationWithin(before: Snapshot, after: Snapshot, id: NodeId, depth: nat)
    requires OnlyRevoked(before, after) && AllowedWithin(after, id, depth)
    ensures AllowedWithin(before, id, depth)
    decreases depth
  {
    var sourcesNow, sourcesThen := Lookup(after, id).node.sources, Lookup(before, id).node.sources;
    forall i | 0 <= i < |sourcesThen|
      ensures AllowedWithin(before, sourcesThen[i], depth - 1)
    {
      assert sourcesThen[i] in sourcesNow;
      var j :| 0 <= j < |sourcesNow| && sourcesNow[j] == sourcesThen[i];
      RevocationWithin(before, after, sourcesThen[i], depth - 1);
    }
  }

  /** Deleting one record, revoking its scope, or invalidating its content only revokes. */
  lemma DeletionOnlyRevokes(g: Snapshot, id: NodeId, revoked: Node)
    requires id in g.nodes && !OwnChecksPass(revoked)
    ensures OnlyRevoked(g, g.(nodes := g.nodes - {id}))
    ensures OnlyRevoked(g, g.(nodes := g.nodes[id := revoked]))
    ensures OnlyRevoked(g, g.(raising := g.raising + {id}))
  {
  }

  // ----- the reason of a refusal -----

  datatype Verdict = Verdict(allowed: bool, reason: string)

  /** A lookup that gives no reason leaves the id "missing". */
  function AbsenceReason(g: Snapshot, id: NodeId): string {
    if g.failure(id) == "" then "missing" else g.failure(id)
  }

  /** The reason to refuse an id on its own account. */
  ghost function DirectRefusal(g: Snapshot, id: NodeId): Option<string> {
    match Lookup(g, id)
    case Raises => Some("lookup_error")
    case Absent => Some(AbsenceReason(g, id))
    case Found(n) =>
      if n.scope == ScopeRaises then Some("lookup_error")
      else if n.scope == OutOfScope then Some("denied")
      else if n.facts == FactsRaise then Some("lookup_error")
      else if n.facts == FactsChanged then Some("source_changed")
      else None
  }

  /** The number of sources that precede the first one that is not allowed. */
  ghost function FirstBlocked(g: Snapshot, sources: seq<NodeId>): (k: nat)
    ensures k <= |sources|
    ensures forall i | 0 <= i < k :: Allowed(g, sources[i])
    ensures k < |sources| ==> !Allowed(g, sources[k])
  {
    if sources == [] || !Allowed(g, sources[0]) then 0 else 1 + FirstBlocked(g, sources[1..])
  }

  /** Follow the first blocked source, at most `depth` records deep, to the record that is at fault. */
  ghost function RefusalWithin(g: Snapshot, id: NodeId, depth: nat): Option<string>
    decreases depth
  {
    if depth == 0 then None
    else if DirectRefusal(g, id).Some? then DirectRefusal(g, id)
    else
      var sources := Lookup(g, id).node.sources;
      var k := FirstBlocked(g, sources);
      if k == |sources| then None else RefusalWithin(g, sources[k], depth - 1)
  }

  /** The reason at the end of the chain of first blocked sources; a chain without an end is a cycle. */
  ghost function Refusal(g: Snapshot, id: NodeId): string {
    if exists depth: nat :: RefusalWithin(g, id, depth).Some? then
      var depth: nat :| RefusalWithin(g, id, depth).Some?;
      RefusalWithin(g, id, depth).value
    else "denied"
  }

  ghost function TrueVerdict(g: Snapshot, id: NodeId): Verdict {
    if Allowed(g, id) then Verdict(true, "") else Verdict(false, Refusal(g, id))
  }

  lemma {:induction false} DeeperRefusal(g: Snapshot, id: NodeId, m: nat, n: nat)
    requires m <= n && RefusalWithin(g, id, m).Some?
    ensures RefusalWithin(g, id, n) == RefusalWithin(g, id, m)
    decreases m
  {
    if DirectRefusal(g, id).None? {
      var sources := Lookup(g, id).node.sources;
      DeeperRefusal(g, sources[FirstBlocked(g, sources)], m - 1, n - 1);
    }
  }

  lemma RefusalIs(g: Snapshot, id: NodeId, depth: nat)
    requires RefusalWithin(g, id, depth).Some?
    ensures Refusal(g, id) == RefusalWithin(g, id, depth).value
  {
    var other: nat :| RefusalWithin(g, id, other).Some? && Refusal(g, id) == RefusalWithin(g, id, other).value;
    if other <= depth {
      DeeperRefusal(g, id, other, depth);
    } else {
      DeeperRefusal(g, id, depth, other);
    }
  }

  lemma DirectVerdict(g: Snapshot, id: NodeId)
    requires DirectRefusal(g, id).Some?
    ensures TrueVerdict(g, id) == Verdict(false, DirectRefusal(g, id).value)
  {
    AllowedIsFixedPoint(g, id);
    assert RefusalWithin(g, id, 1) == DirectRefusal(g, id);
    RefusalIs(g, id, 1);
  }

  /** A record that is not at fault itself inherits the verdict of its first blocked source. */
  lemma InheritedVerdict(g: Snapshot, id: NodeId, k: nat)
    requires Lookup(g, id).Found? && OwnChecksPass(Lookup(g, id).node)
    requires k < |Lookup(g, id).node.sources| && !Allowed(g, Lookup(g, id).node.sources[k])
    requires forall i | 0 <= i < k :: Allowed(g, Lookup(g, id).node.sources[i])
    ensures TrueVerdict(g, id) == TrueVerdict(g, Lookup(g, id).node.sources[k])
  {
    var source := Lookup(g, id).node.sources[k];
    AllowedIsFixedPoint(g, id);
    assert FirstBlocked(g, Lookup(g, id).node.sources) == k;
    if exists depth: nat :: RefusalWithin(g, source, depth).Some? {
      var depth: nat :| RefusalWithin(g, source, depth).Some?;
      assert RefusalWithin(g, id, depth + 1) == RefusalWithin(g, source, depth);
      RefusalIs(g, source, depth);
      RefusalIs(g, id, depth + 1);
    } else {
      forall depth: nat
        ensures RefusalWithin(g, id, depth).None?
      {
        if depth > 0 {
          assert RefusalWithin(g, id, depth) == RefusalWithin(g, source, depth - 1);
        }
      }
    }
  }

  /** The verdict on an id that is at fault itself, by what the lookup has for it. */
  lemma OwnFault(g: Snapshot, id: NodeId)
    ensures id in g.raising ==> TrueVerdict(g, id) == Verdict(false, "lookup_error")
    ensures id !in g.raising && id !in g.nodes ==>
              TrueVerdict(g, id) == Verdict(false, if g.failure(id) == "" then "missing" else g.failure(id))
    ensures id !in g.raising && id in g.nodes ==>
              var (scope, facts) := (g.nodes[id].scope, g.nodes[id].facts);
              && (scope.ScopeRaises? ==> TrueVerdict(g, id) == Verdict(false, "lookup_error"))
              && (scope.OutOfScope? ==> TrueVerdict(g, id) == Verdict(false, "denied"))
              && (scope.InScope? && facts.FactsRaise? ==> TrueVerdict(g, id) == Verdict(false, "lookup_error"))
              && (scope.InScope? && facts.FactsChanged? ==> TrueVerdict(g, id) == Verdict(false, "source_changed"))
  {
    if DirectRefusal(g, id).Some? {
      DirectVerdict(g, id);
    }
    hide TrueVerdict;
  }

  /** A record with no fault of its own is allowed without reason if all sources are, and otherwise shares the fault of
      its first blocked source: so a source whose lookup raises, or that is absent, is the reason of the record. */
  lemma SharedFault(g: Snapshot, id: NodeId)
    requires id !in g.raising && id in g.nodes && g.nodes[id].scope.InScope? && g.nodes[id].facts.FactsMatch?
    ensures (forall i | 0 <= i < |g.nodes[id].sources| :: TrueVerdict(g, g.nodes[id].sources[i]).allowed) ==>
              TrueVerdict(g, id) == Verdict(true, "")
    ensures forall k |
              && 0 <= k < |g.nodes[id].sources| && !TrueVerdict(g, g.nodes[id].sources[k]).allowed
              && (forall i | 0 <= i < k :: TrueVerdict(g, g.nodes[id].sources[i]).allowed) ::
              && TrueVerdict(g, id) == TrueVerdict(g, g.nodes[id].sources[k])
              && (g.nodes[id].sources[k] in g.raising ==> TrueVerdict(g, id) == Verdict(false, "lookup_error"))
  {
    var sources := g.nodes[id].sources;
    AllowedIsFixedPoint(g, id);
    forall k |
      && 0 <= k < |sources| && !TrueVerdict(g, sources[k]).allowed
      && (forall i | 0 <= i < k :: TrueVerdict(g, sources[i]).allowed)
      ensures TrueVerdict(g, id) == TrueVerdict(g, sources[k])
      ensures sources[k] in g.raising ==> TrueVerdict(g, id) == Verdict(false, "lookup_error")
    {
      forall i | 0 <= i < k
        ensures Allowed(g, sources[i])
      {
        assert TrueVerdict(g, sources[i]).allowed;
      }
      InheritedVerdict(g, id, k);
      OwnFault(g, sources[k]);
    }
    if forall i | 0 <= i < |sources| :: TrueVerdict(g, sources[i]).allowed {
      forall i | 0 <= i < |sources|
        ensures Allowed(g, sources[i])
      {
        assert TrueVerdict(g, sources[i]).allowed;
      }
    }
  }

  /** `x` is not at fault itself, and its first blocked source is in `cycle`. */
  ghost predicate BlockedInside(g: Snapshot, cycle: set<NodeId>, x: NodeId) {
    && Lookup(g, x).Found? && OwnChecksPass(Lookup(g, x).node)
    && var sources := Lookup(g, x).node.sources;
       FirstBlocked(g, sources) < |sources| && sources[FirstBlocked(g, sources)] in cycle
  }

  lemma {:induction false} CycleHasNoEnd(g: Snapshot, cycle: set<NodeId>, id: NodeId, depth: nat)
    requires forall x | x in cycle :: BlockedInside(g, cycle, x)
    requires id in cycle
    ensures RefusalWithin(g, id, depth).None?
    decreases depth
  {
    assert BlockedInside(g, cycle, id);
    if depth > 0 {
      var sources := Lookup(g, id).node.sources;
      CycleHasNoEnd(g, cycle, sources[FirstBlocked(g, sources)], depth - 1);
    }
  }

  lemma CycleVerdict(g: Snapshot, cycle: set<NodeId>, id: NodeId)
    requires forall x | x in cycle :: BlockedInside(g, cycle, x)
    requires id in cycle
    ensures TrueVerdict(g, id) == Verdict(false, "denied")
  {
    assert BlockedInside(g, cycle, id);
    AllowedIsFixedPoint(g, id);
    forall depth: nat {
      CycleHasNoEnd(g, cycle, id, depth);
    }
  }

  /** What is reported for absent ids has no influence on what is allowed. */
  lemma {:induction false} FailureReasonIsIrrelevant(g: Snapshot, failure: NodeId -> string, id: NodeId, depth: nat)
    ensures AllowedWithin(g, id, depth) <==> AllowedWithin(g.(failure := failure), id, depth)
    decreases depth
  {
    var h := g.(failure := failure);
    assert Lookup(h, id) == Lookup(g, id);
    if depth > 0 && Lookup(g, id).Found? {
      var sources := Lookup(g, id).node.sources;
      forall i | 0 <= i < |sources|
        ensures AllowedWithin(g, sources[i], depth - 1) <==> AllowedWithin(h, sources[i], depth - 1)
      {
        FailureReasonIsIrrelevant(g, failure, sources[i], depth - 1);
      }
    }
  }
}
