/** What the authorization gate makes of consolidation: a promotion whose rows were partly past their time loses
    them in the commit that creates it, and is hidden from then on; any other one stays visible. */
module ForgottenSources {
  import opened Options
  import opened Clustering
  import opened Consolidation
  import opened SecondPass
  import Access = Lineage
  import Gate = AuthorizationGate
  import Sequences

  /** The episodic rows and the typed nodes of a store. */
  datatype State = State(rows: seq<Row>, nodes: map<Text, Promotion>)

  function DeclaredSources(node: Promotion): seq<Text> {
    if node.lineage.Unbound? then [] else Gate.SourceIds(node.lineage.refs)
  }

  /** The store as served to a request with access to everything in it: a lookup prefers nodes to rows, and rows
      declare no sources. */
  ghost function Served(s: State, failure: Text -> string): Access.Snapshot {
    Access.Snapshot(
      map id | id in s.nodes.Keys + IdsOf(s.rows) ::
        Access.Node(id, Access.InScope, Access.FactsMatch,
                    if id in s.nodes then DeclaredSources(s.nodes[id]) else []),
      {}, failure)
  }

  // ----- what a committed node declares -----

  lemma {:induction false} AllViewed(sources: seq<Text>, rows: seq<Row>)
    requires forall id | id in sources :: RowWith(rows, id).Some?
    ensures Gate.SourceRefs(SourceViews(sources, rows)) == sources
  {
    if sources != [] {
      var n := |sources| - 1;
      assert sources[n] in sources && forall id | id in sources[..n] :: id in sources;
      AllViewed(sources[..n], rows);
    }
  }

  /** Ids that a list of references can carry. */
  ghost predicate Referable(ids: seq<Text>) {
    "" !in ids && Gate.CommaFree(ids)
  }

  lemma DeclaresItsRows(node: Promotion, rows: seq<Row>)
    requires IsBound(node, rows) && node.sources != [] && Referable(node.sources)
    requires forall id | id in node.sources :: RowWith(rows, id).Some?
    ensures forall id :: id in DeclaredSources(node) <==> id in node.sources
  {
    assert SourceIsThere(node.sources[0], node, rows);
    BoundExactlyWhen(node, rows);
    AllViewed(node.sources, rows);
    Gate.BoundIdsAreReadBack(node.sources);
    Sequences.FirstOccurrencesMembers(node.sources);
  }

  lemma {:induction false} RowIsFound(rows: seq<Row>, id: Text)
    ensures RowWith(rows, id).Some? <==> id in IdsOf(rows)
  {
    if rows != [] {
      RowIsFound(rows[1..], id);
      if id in IdsOf(rows) {
        var i :| 0 <= i < |rows| && rows[i].id == id;
        assert i > 0 ==> rows[1..][i - 1].id == id;
      }
      if id in IdsOf(rows[1..]) {
        var i :| 0 <= i < |rows| - 1 && rows[1..][i].id == id;
        assert rows[i + 1].id == id;
      }
    }
  }

  lemma RowsOfDue(rows: seq<Row>, p: Policy, k: nat)
    requires k < |Due(rows, p)|
    ensures Due(rows, p)[k] != [] && forall i | 0 <= i < |Due(rows, p)[k]| :: Due(rows, p)[k][i] in rows
  {
    var parseable, c := Parseable(rows), Due(rows, p)[k];
    var clusters := Clusters(parseable, p.tokens);
    hide Repeated;
    PromotedClustersAre(clusters, p);
    assert c in Due(rows, p);
    var m :| 0 <= m < |clusters| && clusters[m] == c;
    ClustersAreNotEmpty(parseable, p.tokens);
    ParseableAreRows(rows);
    forall i | 0 <= i < |c|
      ensures c[i] in rows
    {
      ClusteredRowsAreRows(parseable, p.tokens, m, i);
    }
  }

  lemma {:induction false} ParseableAreRows(rows: seq<Row>)
    ensures forall row | row in Parseable(rows) :: row in rows
  {
    if rows != [] {
      ParseableAreRows(rows[..|rows| - 1]);
      assert rows == rows[..|rows| - 1] + [rows[|rows| - 1]];
    }
  }

  lemma IdOfRow(c: Cluster, row: Row)
    requires row in c
    ensures row.id in SourceIds(c) && row.id in IdsOf(c)
  {
    var i :| 0 <= i < |c| && c[i] == row;
    assert SourceIds(c)[i] == row.id;
  }

  lemma RowOfId(c: Cluster, id: Text)
    requires id in SourceIds(c)
    ensures exists row :: row in c && row.id == id
  {
    var i :| 0 <= i < |c| && SourceIds(c)[i] == id;
    assert c[i] in c;
  }

  // ----- passes -----

  datatype Pass = Pass(now: int, policy: Policy, committed: seq<Promotion>)

  /** The pass went through: its nodes, with their lineage, are upserted, and the rows have settled. */
  ghost predicate Completes(s: State, t: State, pass: Pass) {
    && PromotesAll(pass.committed, Due(s.rows, pass.policy), pass.now, pass.policy)
    && (forall i | 0 <= i < |pass.committed| :: IsBound(pass.committed[i], s.rows))
    && t == State(Settled(s.rows, Stamps(pass.committed), pass.now, pass.policy), Upserted(s.nodes, pass.committed))
  }

  /** The pass went through, or an upsert raised and no row was touched. */
  ghost predicate Runs(s: State, t: State, pass: Pass) {
    Completes(s, t, pass) || t == State(s.rows, Upserted(s.nodes, pass.committed))
  }

  ghost predicate IsRun(states: seq<State>, passes: seq<Pass>) {
    && |states| == |passes| + 1
    && (passes != [] ==> Runs(states[0], states[1], passes[0]) && IsRun(states[1..], passes[1..]))
  }

  ghost predicate StampedWherePresent(ids: set<Text>, rows: seq<Row>) {
    forall i | 0 <= i < |rows| && rows[i].id in ids :: rows[i].consolidatedInto != ""
  }

  /** Of stamped rows a pass drops none, and it brings none back. */
  lemma StampedRowsStay(rows: seq<Row>, ids: set<Text>, stamps: map<Text, Text>, now: int, p: Policy)
    requires StampedWherePresent(ids, rows) && forall id | id in stamps :: stamps[id] != ""
    ensures var settled := Settled(rows, stamps, now, p);
            StampedWherePresent(ids, settled) && IdsOf(settled) * ids == IdsOf(rows) * ids
  {
    var settled := Settled(rows, stamps, now, p);
    forall j | 0 <= j < |settled|
      ensures settled[j].id in IdsOf(rows) && (settled[j].id in ids ==> settled[j].consolidatedInto != "")
    {
      var i := SettledRowsWereThere(rows, stamps, now, p, j);
      assert rows[i].id == settled[j].id;
    }
    forall id | id in IdsOf(rows) * ids
      ensures id in IdsOf(settled)
    {
      var i :| 0 <= i < |rows| && rows[i].id == id;
      SettledRow(rows, stamps, now, p, i);
    }
  }

  lemma {:induction false} StampedRowsStayInRun(states: seq<State>, passes: seq<Pass>, ids: set<Text>)
    requires IsRun(states, passes) && StampedWherePresent(ids, states[0].rows)
    ensures IdsOf(states[|passes|].rows) * ids == IdsOf(states[0].rows) * ids
    decreases |passes|
  {
    if passes != [] {
      StampedRowsStayInPass(states[0], states[1], passes[0], ids);
      hide Runs;
      StampedRowsStayInRun(states[1..], passes[1..], ids);
    }
  }

  lemma StampedRowsStayInPass(s: State, t: State, pass: Pass, ids: set<Text>)
    requires Runs(s, t, pass) && StampedWherePresent(ids, s.rows)
    ensures StampedWherePresent(ids, t.rows) && IdsOf(t.rows) * ids == IdsOf(s.rows) * ids
  {
    if Completes(s, t, pass) {
      StampsAreNotEmpty(pass.committed, Due(s.rows, pass.policy), pass.now, pass.policy);
      StampedRowsStay(s.rows, ids, Stamps(pass.committed), pass.now, pass.policy);
    }
  }

  /** The pass stamps the rows it promotes: those that are left carry a stamp. */
  lemma PromotedRowsAreStamped(s: State, t: State, pass: Pass, k: nat)
    requires Completes(s, t, pass) && k < |pass.committed|
    ensures pass.committed[k].sources == SourceIds(Due(s.rows, pass.policy)[k])
    ensures StampedWherePresent(IdsOf(Due(s.rows, pass.policy)[k]), t.rows)
  {
    var c, stamps := Due(s.rows, pass.policy)[k], Stamps(pass.committed);
    assert Promotes(pass.committed[k], c, pass.now, pass.policy);
    StampsAreNotEmpty(pass.committed, Due(s.rows, pass.policy), pass.now, pass.policy);
    hide Due;
    hide Promotes;
    forall j | 0 <= j < |t.rows| && t.rows[j].id in IdsOf(c)
      ensures t.rows[j].consolidatedInto != ""
    {
      StampOf(pass.committed, t.rows[j].id);
      SourcesAreIds(c, t.rows[j].id);
      var r := SettledRowsWereThere(s.rows, stamps, pass.now, pass.policy, j);
    }
  }

  /** Of the rows it promotes the pass keeps exactly those that have not expired. */
  lemma PromotedRowStaysExactlyWhen(s: State, t: State, pass: Pass, row: Row)
    requires DistinctRowIds(s.rows) && Completes(s, t, pass) && row in s.rows
    ensures row.id in IdsOf(t.rows) <==> !TooOld(row, pass.now, pass.policy.ttlDays)
    ensures RowWith(s.rows, row.id).Some?
  {
    var r :| 0 <= r < |s.rows| && s.rows[r] == row;
    RowIsFound(s.rows, row.id);
    assert t.rows == Settled(s.rows, Stamps(pass.committed), pass.now, pass.policy);
    hide Completes;
    hide Settled;
    hide Stamps;
    hide TooOld;
    hide RowWith;
    RowSurvivesExactlyWhen(s.rows, Stamps(pass.committed), pass.now, pass.policy, r);
  }

  // ----- what becomes of a promotion -----

  /** In a store, a node is visible exactly if the rows it declares are there. */
  lemma NodeAllowedExactlyWhen(s: State, id: Text, failure: Text -> string)
    requires id in s.nodes && forall x | x in DeclaredSources(s.nodes[id]) :: x !in s.nodes
    ensures Access.Allowed(Served(s, failure), id) <==>
              forall x | x in DeclaredSources(s.nodes[id]) :: x in IdsOf(s.rows)
  {
    var g, sources := Served(s, failure), DeclaredSources(s.nodes[id]);
    Access.AllowedIsFixedPoint(g, id);
    forall i | 0 <= i < |sources|
      ensures Access.Allowed(g, sources[i]) <==> sources[i] in IdsOf(s.rows)
    {
      assert sources[i] in sources;
      Access.AllowedIsFixedPoint(g, sources[i]);
    }
  }

  /** The node is the one stored under its id, and no node is stored under the id of one of its rows. */
  ghost predicate StillThere(node: Promotion, s: State) {
    && node.id in s.nodes && s.nodes[node.id] == node
    && forall id | id in node.sources :: id !in s.nodes
  }

  /** A promotion is visible for ever or never: whatever passes follow the one that makes it, and whether they go
      through or not, it is visible after them exactly if none of its rows had expired when it was made. */
  lemma VisibleForeverOrNever(states: seq<State>, passes: seq<Pass>, k: nat, failure: Text -> string)
    requires passes != [] && IsRun(states, passes) && DistinctRowIds(states[0].rows)
    requires Completes(states[0], states[1], passes[0]) && k < |passes[0].committed|
    requires var node := passes[0].committed[k]; Referable(node.sources) && StillThere(node, states[|passes|])
    ensures var pass := passes[0];
            Access.Allowed(Served(states[|passes|], failure), pass.committed[k].id) <==>
            forall row | row in Due(states[0].rows, pass.policy)[k] :: !TooOld(row, pass.now, pass.policy.ttlDays)
  {
    var pass, last := passes[0], states[|passes|];
    var node, c := pass.committed[k], Due(states[0].rows, pass.policy)[k];
    PromotedRowsAreStamped(states[0], states[1], pass, k);
    StampedRowsStayInRun(states[1..], passes[1..], IdsOf(c));
    RowsOfDue(states[0].rows, pass.policy, k);
    assert IsBound(node, states[0].rows);
    hide Due;
    hide IsBound;
    hide IsRun;
    hide Completes;
    forall row | row in c
      ensures row.id in node.sources && RowWith(states[0].rows, row.id).Some?
      ensures row.id in IdsOf(last.rows) <==> !TooOld(row, pass.now, pass.policy.ttlDays)
    {
      PromotedRowStaysExactlyWhen(states[0], states[1], pass, row);
      IdOfRow(c, row);
      assert row.id in IdsOf(last.rows) * IdsOf(c) <==> row.id in IdsOf(states[1].rows) * IdsOf(c);
    }
    forall id | id in node.sources
      ensures exists row :: row in c && row.id == id
    {
      RowOfId(c, id);
    }
    DeclaresItsRows(node, states[0].rows);
    NodeAllowedExactlyWhen(last, node.id, failure);
  }

  /** A request that is granted no more than what the store holds does not see such a promotion either. */
  lemma HiddenFromEveryone(states: seq<State>, passes: seq<Pass>, k: nat, row: Row, request: Access.Snapshot)
    requires passes != [] && IsRun(states, passes) && DistinctRowIds(states[0].rows)
    requires Completes(states[0], states[1], passes[0]) && k < |passes[0].committed|
    requires var node := passes[0].committed[k]; Referable(node.sources) && StillThere(node, states[|passes|])
    requires Access.OnlyRevoked(Served(states[|passes|], request.failure), request)
    requires row in Due(states[0].rows, passes[0].policy)[k] && TooOld(row, passes[0].now, passes[0].policy.ttlDays)
    ensures !Access.Allowed(request, passes[0].committed[k].id)
  {
    VisibleForeverOrNever(states, passes, k, request.failure);
    if Access.Allowed(request, passes[0].committed[k].id) {
      Access.RevocationNeverReveals(Served(states[|passes|], request.failure), request, passes[0].committed[k].id);
    }
  }

  /** An example: the three repeats are promoted, and the promotion is never visible to anyone. */
  lemma PromotedAndHidden(p: Policy, text: Text, after: State, committed: seq<Promotion>, request: Access.Snapshot)
    requires DefaultKnobs(p) && text != "" && |p.tokens(text)| >= 3
    requires Completes(State(ThreeRepeats(text), map[]), after, Pass(91 * DAY, p, committed))
    requires Access.OnlyRevoked(Served(after, request.failure), request)
    ensures |committed| == 1 && committed[0].id in after.nodes && !Access.Allowed(request, committed[0].id)
  {
    var rows, before, pass := ThreeRepeats(text), State(ThreeRepeats(text), map[]), Pass(91 * DAY, p, committed);
    RepeatsAreDue(p, text);
    assert Promotes(committed[0], rows, 91 * DAY, p) && committed == [committed[0]];
    OneNode(committed[0], text, p);
    FirstRepeatExpired(p, text);
    OneRun(before, after, pass);
    hide Due;
    hide Completes;
    hide ThreeRepeats;
    hide DefaultKnobs;
    hide IsRun;
    hide TooOld;
    hide Referable;
    hide StillThere;
    hide Upserted;
    HiddenFromEveryone([before, after], [pass], 0, rows[0], request);
  }

  lemma RepeatsAreDue(p: Policy, text: Text)
    requires DefaultKnobs(p) && text != "" && |p.tokens(text)| >= 3
    ensures Due(ThreeRepeats(text), p) == [ThreeRepeats(text)]
  {
    RepeatsCluster(p, text);
    RepeatsAreRepeated(p, text);
    hide Repeated;
    hide ThreeRepeats;
    hide Clusters;
    GateSingle(ThreeRepeats(text), p);
  }

  lemma FirstRepeatExpired(p: Policy, text: Text)
    requires DefaultKnobs(p)
    ensures var rows := ThreeRepeats(text);
            |rows| == 3 && rows[0] in rows && TooOld(rows[0], 91 * DAY, p.ttlDays) && DistinctRowIds(rows)
  {
  }

  lemma OneNode(node: Promotion, text: Text, p: Policy)
    requires Promotes(node, ThreeRepeats(text), 91 * DAY, p)
    ensures Referable(node.sources)
    ensures forall s: State | s.nodes == Upserted(map[], [node]) :: StillThere(node, s)
  {
    var digest :| node.id == "consol-" + digest;
    assert [node][..0] == [];
    assert node.sources == ["a", "b", "c"];
    assert Upserted(map[], [node]) == map[node.id := node];
  }

  lemma OneRun(s: State, t: State, pass: Pass)
    requires Completes(s, t, pass)
    ensures IsRun([s, t], [pass])
  {
    hide Completes;
    assert [s, t][1..] == [t] && [pass][1..] == [];
    assert IsRun([t], []);
    assert Runs(s, t, pass);
  }
}
