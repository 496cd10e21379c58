/** What a consolidation pass leaves over, and what a second pass at the same time makes of it. */
module SecondPass {
  import opened Options
  import opened Clustering
  import opened Consolidation

  // ----- stamps -----

  lemma {:induction false} StampOf(nodes: seq<Promotion>, id: Text)
    ensures id in Stamps(nodes) <==> exists i :: 0 <= i < |nodes| && id in nodes[i].sources
    ensures id in Stamps(nodes) ==> exists i :: 0 <= i < |nodes| && Stamps(nodes)[id] == nodes[i].id
  {
    if nodes != [] {
      var n := |nodes| - 1;
      StampOf(nodes[..n], id);
      if id in nodes[n].sources {
        assert Stamps(nodes)[id] == nodes[n].id;
      } else {
        assert id in Stamps(nodes) <==> id in Stamps(nodes[..n]);
        assert id in Stamps(nodes) ==> Stamps(nodes)[id] == Stamps(nodes[..n])[id];
        hide Stamps;
        assert forall i | 0 <= i < n :: nodes[..n][i] == nodes[i];
      }
    }
  }

  /** The stamp of an id is the last node that was made from its row. */
  lemma {:induction false} LastStampCounts(nodes: seq<Promotion>, i: nat, id: Text)
    requires i < |nodes| && id in nodes[i].sources
    requires forall j | i < j < |nodes| :: id !in nodes[j].sources
    ensures id in Stamps(nodes) && Stamps(nodes)[id] == nodes[i].id
    decreases |nodes|
  {
    if i < |nodes| - 1 {
      LastStampCounts(nodes[..|nodes| - 1], i, id);
      assert id !in nodes[|nodes| - 1].sources;
    }
  }

  /** Under an id is the last node upserted with it, and what was there before if none was. */
  lemma {:induction false} LastNodeCounts(store: map<Text, Promotion>, nodes: seq<Promotion>, i: nat)
    requires i <= |nodes|
    ensures i < |nodes| && (forall j | i < j < |nodes| :: nodes[j].id != nodes[i].id) ==>
              nodes[i].id in Upserted(store, nodes) && Upserted(store, nodes)[nodes[i].id] == nodes[i]
    ensures forall id | id in store && (forall j | 0 <= j < |nodes| :: nodes[j].id != id) ::
              id in Upserted(store, nodes) && Upserted(store, nodes)[id] == store[id]
  {
    if nodes != [] {
      var n := |nodes| - 1;
      LastNodeCounts(store, nodes[..n], if i < n then i else n);
      assert forall j | 0 <= j < n :: nodes[..n][j] == nodes[j];
    }
  }

  lemma {:induction false} PromotedClustersAre(clusters: seq<Cluster>, p: Policy)
    ensures forall c: Cluster :: c in PromotedClusters(clusters, p) <==> c in clusters && Repeated(c, p)
  {
    if clusters != [] {
      var n := |clusters| - 1;
      PromotedClustersAre(clusters[..n], p);
      assert clusters == clusters[..n] + [clusters[n]];
    }
  }

  lemma {:induction false} SeparateAt(clusters: seq<Cluster>, i: nat, j: nat)
    requires Separate(clusters) && i < j < |clusters|
    ensures IdsOf(clusters[i]) !! IdsOf(clusters[j])
  {
    if i == 0 {
      IncludedIds(clusters[1..], j - 1);
    } else {
      SeparateAt(clusters[1..], i - 1, j - 1);
    }
  }

  lemma {:induction false} IncludedIds(clusters: seq<Cluster>, j: nat)
    requires j < |clusters|
    ensures IdsOf(clusters[j]) <= IdsIn(clusters)
  {
    if j > 0 {
      IncludedIds(clusters[1..], j - 1);
    }
  }

  lemma {:induction false} KeptAre(clusters: seq<Cluster>, dropped: set<Text>)
    ensures forall c: Cluster | c in Kept(clusters, dropped) :: c in clusters && (c != [] ==> c[0].id !in dropped)
  {
    if clusters != [] {
      KeptAre(clusters[1..], dropped);
    }
  }

  /** A stamped id comes from a promoted cluster, and every id of a promoted cluster is stamped. */
  lemma StampedIds(clusters: seq<Cluster>, nodes: seq<Promotion>, now: int, p: Policy, id: Text)
    requires PromotesAll(nodes, PromotedClusters(clusters, p), now, p)
    ensures id in Stamps(nodes) <==>
            exists m :: 0 <= m < |clusters| && Repeated(clusters[m], p) && id in IdsOf(clusters[m])
  {
    hide Repeated;
    var due := PromotedClusters(clusters, p);
    PromotedClustersAre(clusters, p);
    StampOf(nodes, id);
    if id in Stamps(nodes) {
      var n :| 0 <= n < |nodes| && id in nodes[n].sources;
      assert Promotes(nodes[n], due[n], now, p) && due[n] in due;
      SourcesAreIds(due[n], id);
      var m :| 0 <= m < |clusters| && clusters[m] == due[n];
      assert Repeated(clusters[m], p) && id in IdsOf(clusters[m]);
    }
    if m :| 0 <= m < |clusters| && Repeated(clusters[m], p) && id in IdsOf(clusters[m]) {
      assert clusters[m] in due;
      var n :| 0 <= n < |due| && due[n] == clusters[m];
      assert Promotes(nodes[n], due[n], now, p);
      SourcesAreIds(due[n], id);
    }
  }

  lemma SourcesAreIds(cluster: Cluster, id: Text)
    ensures id in SourceIds(cluster) <==> id in IdsOf(cluster)
  {
    if id in IdsOf(cluster) {
      var i :| 0 <= i < |cluster| && cluster[i].id == id;
      assert SourceIds(cluster)[i] == id;
    }
  }

  lemma SeparateIndices(clusters: seq<Cluster>, k: nat, m: nat, id: Text)
    requires Separate(clusters) && k < |clusters| && m < |clusters| && id in IdsOf(clusters[k])
    requires id in IdsOf(clusters[m])
    ensures k == m
  {
    if m < k {
      SeparateAt(clusters, m, k);
    } else if k < m {
      SeparateAt(clusters, k, m);
    }
  }

  /** The ids of a cluster are stamped exactly if the cluster is promoted. */
  lemma StampedCluster(clusters: seq<Cluster>, nodes: seq<Promotion>, now: int, p: Policy, k: nat, i: nat)
    requires Separate(clusters) && PromotesAll(nodes, PromotedClusters(clusters, p), now, p)
    requires k < |clusters| && i < |clusters[k]|
    ensures clusters[k][i].id in Stamps(nodes) <==> Repeated(clusters[k], p)
  {
    hide Repeated;
    hide Stamps;
    var id := clusters[k][i].id;
    StampedIds(clusters, nodes, now, p, id);
    assert id in IdsOf(clusters[k]);
    if id in Stamps(nodes) {
      var m :| 0 <= m < |clusters| && Repeated(clusters[m], p) && id in IdsOf(clusters[m]);
      SeparateIndices(clusters, k, m, id);
    }
  }

  /** The promoted clusters are whole clusters of the pass, and all that its stamps touch. */
  lemma StampsAreWhole(clusters: seq<Cluster>, nodes: seq<Promotion>, now: int, p: Policy)
    requires Separate(clusters) && forall i | 0 <= i < |clusters| :: clusters[i] != []
    requires PromotesAll(nodes, PromotedClusters(clusters, p), now, p)
    ensures AllWhole(clusters, Stamps(nodes).Keys)
    ensures forall c: Cluster | c in clusters && Repeated(c, p) :: c[0].id in Stamps(nodes)
  {
    hide Repeated;
    hide Stamps;
    forall k | 0 <= k < |clusters|
      ensures Whole(clusters[k], Stamps(nodes).Keys)
      ensures Repeated(clusters[k], p) ==> clusters[k][0].id in Stamps(nodes)
    {
      forall i | 0 <= i < |clusters[k]|
        ensures clusters[k][i].id in Stamps(nodes) <==> Repeated(clusters[k], p)
      {
        StampedCluster(clusters, nodes, now, p, k, i);
      }
    }
  }

  lemma {:induction false} NoPromotedClusters(clusters: seq<Cluster>, p: Policy)
    requires forall c: Cluster | c in clusters :: !Repeated(c, p)
    ensures PromotedClusters(clusters, p) == []
  {
    if clusters != [] {
      assert clusters[|clusters| - 1] in clusters;
      NoPromotedClusters(clusters[..|clusters| - 1], p);
    }
  }

  lemma ReadOneMore(rows: seq<Row>, row: Row, now: int, p: Policy)
    ensures Parseable(rows + [row]) == Parseable(rows) + if row.created.Some? then [row] else []
    ensures ExpiredIds(rows + [row], now, p) == ExpiredIds(rows, now, p) + if Expired(row, now, p) then [row.id] else []
  {
    assert (rows + [row])[..|rows|] == rows;
  }

  // ----- what a pass leaves over -----

  lemma {:induction false} SettledRow(rows: seq<Row>, stamps: map<Text, Text>, now: int, p: Policy, i: nat)
    requires i < |rows| && !Expired(rows[i], now, p)
    ensures exists j :: 0 <= j < |Settled(rows, stamps, now, p)| && Settled(rows, stamps, now, p)[j].id == rows[i].id
    decreases |rows|
  {
    var n := |rows| - 1;
    var before, all := Settled(rows[..n], stamps, now, p), Settled(rows, stamps, now, p);
    if i < n {
      SettledRow(rows[..n], stamps, now, p, i);
      var j :| 0 <= j < |before| && before[j].id == rows[i].id;
      assert all[j] == before[j];
    } else {
      assert all[|before|].id == rows[i].id;
    }
  }

  lemma {:induction false} SettledRowsWereThere(rows: seq<Row>, stamps: map<Text, Text>, now: int, p: Policy, j: nat)
    returns (i: nat)
    requires j < |Settled(rows, stamps, now, p)|
    ensures i < |rows| && !Expired(rows[i], now, p) && Settled(rows, stamps, now, p)[j] == Stamped(rows[i], stamps)
  {
    var n := |rows| - 1;
    if j < |Settled(rows[..n], stamps, now, p)| {
      i := SettledRowsWereThere(rows[..n], stamps, now, p, j);
    } else {
      i := n;
    }
  }

  /** A row, promoted by the pass or not, survives it exactly if it is not too old; and then it is as it was, except
      that a promoted one bears its stamp. */
  lemma RowSurvivesExactlyWhen(rows: seq<Row>, stamps: map<Text, Text>, now: int, p: Policy, i: nat)
    requires DistinctRowIds(rows) && i < |rows|
    ensures (exists j :: 0 <= j < |Settled(rows, stamps, now, p)| && Settled(rows, stamps, now, p)[j].id == rows[i].id)
       <==> !TooOld(rows[i], now, p.ttlDays)
    ensures forall j | 0 <= j < |Settled(rows, stamps, now, p)| && Settled(rows, stamps, now, p)[j].id == rows[i].id ::
              Settled(rows, stamps, now, p)[j] ==
              if rows[i].id in stamps then rows[i].(consolidatedInto := stamps[rows[i].id]) else rows[i]
  {
    var settled := Settled(rows, stamps, now, p);
    if !Expired(rows[i], now, p) {
      SettledRow(rows, stamps, now, p, i);
    }
    forall j | 0 <= j < |settled| && settled[j].id == rows[i].id
      ensures !Expired(rows[i], now, p) && settled[j] == Stamped(rows[i], stamps)
    {
      var k := SettledRowsWereThere(rows, stamps, now, p, j);
      assert k == i;
    }
  }

  // ----- a second pass at the same time -----

  lemma SettledOneMore(rows: seq<Row>, row: Row, stamps: map<Text, Text>, now: int, p: Policy)
    ensures Settled(rows + [row], stamps, now, p) ==
            if Expired(row, now, p) then Settled(rows, stamps, now, p)
            else Settled(rows, stamps, now, p) + [Stamped(row, stamps)]
  {
    assert (rows + [row])[..|rows|] == rows;
  }

  lemma StampedIsNotExpired(row: Row, stamps: map<Text, Text>, now: int, p: Policy)
    requires !Expired(row, now, p) && forall id | id in stamps :: stamps[id] != ""
    ensures !Expired(Stamped(row, stamps), now, p)
  {
  }

  lemma {:induction false} NothingExpiredIsLeft(rows: seq<Row>, stamps: map<Text, Text>, now: int, p: Policy)
    requires forall id | id in stamps :: stamps[id] != ""
    ensures ExpiredIds(Settled(rows, stamps, now, p), now, p) == []
  {
    if rows == [] {
      assert Settled(rows, stamps, now, p) == [];
    } else {
      hide Settled;
      hide ExpiredIds;
      hide Expired;
      hide Stamped;
      var n := |rows| - 1;
      NothingExpiredIsLeft(rows[..n], stamps, now, p);
      SettledOneMore(rows[..n], rows[n], stamps, now, p);
      assert rows == rows[..n] + [rows[n]];
      if !Expired(rows[n], now, p) {
        StampedIsNotExpired(rows[n], stamps, now, p);
        ReadOneMore(Settled(rows[..n], stamps, now, p), Stamped(rows[n], stamps), now, p);
      }
    }
  }

  predicate Gone(row: Row, stamps: map<Text, Text>, now: int, p: Policy) {
    Expired(row, now, p) || row.id in stamps
  }

  function Blot(row: Row, stamps: map<Text, Text>, now: int, p: Policy): Row {
    if Gone(row, stamps, now, p) then row.(consolidatedInto := "gone") else row
  }

  /** The rows with those that a pass forgets or stamps blotted out in place. */
  function Blotted(rows: seq<Row>, stamps: map<Text, Text>, now: int, p: Policy): seq<Row> {
    seq(|rows|, i requires 0 <= i < |rows| => Blot(rows[i], stamps, now, p))
  }

  lemma ClusterOneMore(rows: seq<Row>, row: Row, tokens: Tokens)
    ensures Clusters(rows + [row], tokens) ==
            if Eligible(row) then Place(Clusters(rows, tokens), row, tokens) else Clusters(rows, tokens)
  {
    assert (rows + [row])[..|rows|] == rows;
  }

  /** A second pass clusters what is left over as if the rows that have gone were still there, ineligible. */
  lemma {:induction false} LeftOverClusters(rows: seq<Row>, stamps: map<Text, Text>, now: int, p: Policy)
    requires forall id | id in stamps :: stamps[id] != ""
    ensures Clusters(Parseable(Settled(rows, stamps, now, p)), p.tokens) ==
            Clusters(Blotted(Parseable(rows), stamps, now, p), p.tokens)
  {
    if rows == [] {
      assert Settled(rows, stamps, now, p) == [] && Parseable(rows) == [];
      assert Blotted([], stamps, now, p) == [];
    } else {
      var n := |rows| - 1;
      LeftOverClusters(rows[..n], stamps, now, p);
      LeftOverOneMore(rows[..n], rows[n], stamps, now, p);
      assert rows == rows[..n] + [rows[n]];
    }
  }

  lemma LeftOverOneMore(rows: seq<Row>, row: Row, stamps: map<Text, Text>, now: int, p: Policy)
    requires forall id | id in stamps :: stamps[id] != ""
    requires Clusters(Parseable(Settled(rows, stamps, now, p)), p.tokens) ==
             Clusters(Blotted(Parseable(rows), stamps, now, p), p.tokens)
    ensures Clusters(Parseable(Settled(rows + [row], stamps, now, p)), p.tokens) ==
            Clusters(Blotted(Parseable(rows + [row]), stamps, now, p), p.tokens)
  {
    var settled := Settled(rows, stamps, now, p);
    var left, blotted := Parseable(settled), Blotted(Parseable(rows), stamps, now, p);
    var after, blot := Stamped(row, stamps), Blot(row, stamps, now, p);
    SettledOneMore(rows, row, stamps, now, p);
    ReadOneMore(settled, after, now, p);
    ReadOneMore(rows, row, now, p);
    ClusterOneMore(left, after, p.tokens);
    ClusterOneMore(blotted, blot, p.tokens);
    BlottedOneMore(Parseable(rows), row, stamps, now, p);
    hide Settled;
    hide Parseable;
    hide Blotted;
    hide Clusters;
    hide Place;
    if row.created.None? {
      assert Parseable(rows + [row]) == Parseable(rows);
      assert Parseable(settled + [after]) == left;
    }
  }

  lemma BlottedOneMore(rows: seq<Row>, row: Row, stamps: map<Text, Text>, now: int, p: Policy)
    ensures Blotted(rows + [row], stamps, now, p) == Blotted(rows, stamps, now, p) + [Blot(row, stamps, now, p)]
  {
  }

  /** No cluster that the pass leaves unpromoted has both expired and unexpired rows. */
  ghost predicate ExpiresWhole(rows: seq<Row>, now: int, p: Policy) {
    forall c: Cluster | c in Clusters(Parseable(rows), p.tokens) && !Repeated(c, p) ::
      (forall i | 0 <= i < |c| :: Expired(c[i], now, p)) || (forall i | 0 <= i < |c| :: !Expired(c[i], now, p))
  }

  ghost function GoneIds(rows: seq<Row>, stamps: map<Text, Text>, now: int, p: Policy): set<Text> {
    set i | 0 <= i < |rows| && Gone(rows[i], stamps, now, p) :: rows[i].id
  }

  lemma GoneById(rows: seq<Row>, stamps: map<Text, Text>, now: int, p: Policy, row: Row)
    requires DistinctRowIds(rows) && row in rows
    ensures row.id in GoneIds(rows, stamps, now, p) <==> Gone(row, stamps, now, p)
  {
    var i :| 0 <= i < |rows| && rows[i] == row;
    if row.id in GoneIds(rows, stamps, now, p) {
      var j :| 0 <= j < |rows| && Gone(rows[j], stamps, now, p) && rows[j].id == row.id;
      assert i == j;
    }
  }

  lemma BlottedIsDropped(rows: seq<Row>, stamps: map<Text, Text>, now: int, p: Policy)
    requires DistinctRowIds(rows)
    ensures DroppedFrom(rows, Blotted(rows, stamps, now, p), GoneIds(rows, stamps, now, p))
  {
    forall i | 0 <= i < |rows|
      ensures rows[i].id in GoneIds(rows, stamps, now, p) <==> Gone(rows[i], stamps, now, p)
    {
      GoneById(rows, stamps, now, p, rows[i]);
    }
  }

  /** What has gone are whole clusters, the promoted ones among them. */
  lemma GoneIsWhole(rows: seq<Row>, nodes: seq<Promotion>, now: int, p: Policy)
    requires DistinctRowIds(Parseable(rows)) && ExpiresWhole(rows, now, p) && PromotesAll(nodes, Due(rows, p), now, p)
    ensures var clusters := Clusters(Parseable(rows), p.tokens);
            var gone := GoneIds(Parseable(rows), Stamps(nodes), now, p);
            && AllWhole(clusters, gone)
            && forall c: Cluster | c in clusters && Repeated(c, p) :: c[0].id in gone
  {
    var parseable, stamps := Parseable(rows), Stamps(nodes);
    var clusters, gone := Clusters(parseable, p.tokens), GoneIds(parseable, stamps, now, p);
    ClustersPartition(parseable, p.tokens);
    ClustersAreNotEmpty(parseable, p.tokens);
    forall k | 0 <= k < |clusters|
      ensures Whole(clusters[k], gone)
      ensures Repeated(clusters[k], p) ==> clusters[k][0].id in gone
    {
      GoneCluster(rows, nodes, now, p, k);
    }
  }

  lemma GoneCluster(rows: seq<Row>, nodes: seq<Promotion>, now: int, p: Policy, k: nat)
    requires DistinctRowIds(Parseable(rows)) && ExpiresWhole(rows, now, p) && PromotesAll(nodes, Due(rows, p), now, p)
    requires k < |Clusters(Parseable(rows), p.tokens)|
    ensures var c := Clusters(Parseable(rows), p.tokens)[k];
            var gone := GoneIds(Parseable(rows), Stamps(nodes), now, p);
            Whole(c, gone) && c != [] && (Repeated(c, p) ==> c[0].id in gone)
  {
    var parseable, stamps := Parseable(rows), Stamps(nodes);
    var clusters, gone := Clusters(parseable, p.tokens), GoneIds(parseable, stamps, now, p);
    var c := clusters[k];
    ClustersPartition(parseable, p.tokens);
    ClustersAreNotEmpty(parseable, p.tokens);
    assert c in clusters;
    assert !Repeated(c, p) ==>
        (forall i | 0 <= i < |c| :: Expired(c[i], now, p)) || (forall i | 0 <= i < |c| :: !Expired(c[i], now, p));
    hide Repeated;
    hide Stamps;
    hide Expired;
    hide GoneIds;
    hide PromotesAll;
    forall i | 0 <= i < |c|
      ensures c[i].id in gone <==> Expired(c[i], now, p) || Repeated(c, p)
    {
      StampedCluster(clusters, nodes, now, p, k, i);
      ClusteredRowsAreRows(parseable, p.tokens, k, i);
      GoneById(parseable, stamps, now, p, c[i]);
    }
  }

  /** A second pass at the same time finds nothing to forget, and nothing to promote either unless the first one
      left a cluster partly expired: what is left over clusters exactly as it did before. */
  lemma SecondPassIsIdle(rows: seq<Row>, nodes: seq<Promotion>, now: int, p: Policy)
    requires DistinctRowIds(rows) && PromotesAll(nodes, Due(rows, p), now, p)
    ensures var settled := Settled(rows, Stamps(nodes), now, p);
            && ExpiredIds(settled, now, p) == []
            && (ExpiresWhole(rows, now, p) ==> Due(settled, p) == [] && Settled(settled, map[], now, p) == settled)
  {
    var parseable, stamps := Parseable(rows), Stamps(nodes);
    var settled, clusters := Settled(rows, stamps, now, p), Clusters(Parseable(rows), p.tokens);
    StampsAreNotEmpty(nodes, Due(rows, p), now, p);
    NothingExpiredIsLeft(rows, stamps, now, p);
    if ExpiresWhole(rows, now, p) {
      var gone := GoneIds(parseable, stamps, now, p);
      ParseableKeepsDistinct(rows);
      GoneIsWhole(rows, nodes, now, p);
      LeftOverClusters(rows, stamps, now, p);
      BlottedIsDropped(parseable, stamps, now, p);
      ClusteringIsStable(parseable, Blotted(parseable, stamps, now, p), gone, p.tokens);
      KeptAre(clusters, gone);
      NoPromotedClusters(Kept(clusters, gone), p);
      NothingSettles(settled, now, p);
    }
  }

  /** What the second pass promotes is decided by its own gate on the rows that neither expired nor were promoted,
      clustered anew in the places of the first pass. */
  lemma SecondPassGate(rows: seq<Row>, nodes: seq<Promotion>, now: int, p: Policy)
    requires PromotesAll(nodes, Due(rows, p), now, p)
    ensures Due(Settled(rows, Stamps(nodes), now, p), p) == [] <==>
              forall c: Cluster | c in Clusters(Blotted(Parseable(rows), Stamps(nodes), now, p), p.tokens) ::
                !Repeated(c, p)
  {
    var left := Clusters(Blotted(Parseable(rows), Stamps(nodes), now, p), p.tokens);
    StampsAreNotEmpty(nodes, Due(rows, p), now, p);
    LeftOverClusters(rows, Stamps(nodes), now, p);
    PromotedClustersAre(left, p);
    if forall c: Cluster | c in left :: !Repeated(c, p) {
      NoPromotedClusters(left, p);
    }
    hide Repeated;
  }

  // ----- examples -----

  /** The knobs as they are by default. */
  ghost predicate DefaultKnobs(p: Policy) {
    p.minObservations == 3 && p.minSpanDays == 1 && p.ttlDays == 90
  }

  function Observed(id: Text, text: Text, day: int, count: int): Row {
    Row(id, text, Some(day * DAY), None, count, 3, "", "")
  }

  /** One statement on the first day, and twice again ninety days later. */
  function ThreeRepeats(text: Text): seq<Row> {
    [Observed("a", text, 0, 1), Observed("b", text, 90, 1), Observed("c", text, 90, 1)]
  }

  /** A day later a pass promotes them, and in the same commit forgets the first of the rows it has promoted. */
  lemma PromotedAndEvicted(p: Policy, text: Text, nodes: seq<Promotion>)
    requires DefaultKnobs(p) && text != "" && |p.tokens(text)| >= 3
    requires PromotesAll(nodes, Due(ThreeRepeats(text), p), 91 * DAY, p)
    ensures var settled := Settled(ThreeRepeats(text), Stamps(nodes), 91 * DAY, p);
            "a" in Stamps(nodes) && forall j | 0 <= j < |settled| :: settled[j].id != "a"
  {
    var rows := ThreeRepeats(text);
    RepeatsCluster(p, text);
    RepeatsAreRepeated(p, text);
    assert DistinctRowIds(rows) && Expired(rows[0], 91 * DAY, p);
    var clusters := [rows];
    assert rows[0].id == "a" && "a" in IdsOf(clusters[0]);
    hide Settled;
    hide Stamps;
    hide Repeated;
    StampedIds(clusters, nodes, 91 * DAY, p, "a");
    RowSurvivesExactlyWhen(rows, Stamps(nodes), 91 * DAY, p, 0);
  }

  lemma RepeatsCluster(p: Policy, text: Text)
    requires text != "" && |p.tokens(text)| >= 3
    ensures Clusters(Parseable(ThreeRepeats(text)), p.tokens) == [ThreeRepeats(text)]
  {
    var rows := ThreeRepeats(text);
    AllParseable(rows);
    SimilarToItself(text, p.tokens);
    ClusterOneMore([], rows[0], p.tokens);
    ClusterOneMore([rows[0]], rows[1], p.tokens);
    ClusterOneMore([rows[0], rows[1]], rows[2], p.tokens);
    assert [] + [rows[0]] == [rows[0]] && [rows[0]] + [rows[1]] == [rows[0], rows[1]];
    assert [rows[0], rows[1]] + [rows[2]] == rows;
    assert NearDuplicate(text, [rows[0]], p.tokens) && NearDuplicate(text, [rows[0], rows[1]], p.tokens) by {
      assert [rows[0]][0].text == text && [rows[0], rows[1]][0].text == text;
    }
  }

  lemma SimilarToItself(text: Text, tokens: Tokens)
    requires |tokens(text)| >= 3
    ensures Similar(text, text, tokens)
  {
    var s := tokens(text);
    assert s * s == s && s + s == s;
  }

  lemma {:induction false} AllParseable(rows: seq<Row>)
    requires Dated(rows)
    ensures Parseable(rows) == rows
  {
    if rows != [] {
      AllParseable(rows[..|rows| - 1]);
    }
  }

  lemma RepeatsAreRepeated(p: Policy, text: Text)
    requires DefaultKnobs(p)
    ensures Repeated(ThreeRepeats(text), p)
  {
    var rows := ThreeRepeats(text);
    ObservedOneMore(rows, 0);
    ObservedOneMore(rows, 1);
    ObservedOneMore(rows, 2);
    assert rows[..3] == rows;
    assert IsEarliest(0, rows) by { assert rows[0].created.value == 0; }
    assert IsLatest(90 * DAY, rows) by { assert rows[1].created.value == 90 * DAY; }
  }

  /** The words of three statements: the second shares three words with either of the others. */
  function Words(text: Text): set<Text> {
    if text == "early" then {"1", "2", "3"}
    else if text == "bridge" then {"1", "2", "3", "4", "5", "6"}
    else if text == "late" then {"4", "5", "6"}
    else {}
  }

  lemma BridgeIsSimilar()
    ensures Similar("bridge", "early", Words) && Similar("bridge", "late", Words) && !Similar("late", "early", Words)
  {
    var early, bridge, late := Words("early"), Words("bridge"), Words("late");
    assert early * bridge == early && early + bridge == bridge && |early| == 3 && |bridge| == 6;
    assert late * bridge == late && late + bridge == bridge && |late| == 3;
    assert bridge * early == early && bridge + early == bridge;
    assert bridge * late == late && bridge + late == bridge;
    assert late * early == {};
  }

  /** A statement that expires, one that is unlike it, and one that is like both. */
  function Early(): Row {
    Observed("e", "early", 0, 1)
  }

  function Late(): Row {
    Observed("l", "late", 90, 2)
  }

  function Bridge(): Row {
    Observed("b", "bridge", 89, 1)
  }

  function BridgedRows(): seq<Row> {
    [Early(), Late(), Bridge()]
  }

  function LeftOver(): seq<Row> {
    [Late(), Bridge()]
  }

  /** On the day after, a pass promotes nothing and forgets the early statement; but a second pass at the same
      time then finds the other two together, and promotes them. */
  lemma ExpiryFeedsASecondPass(p: Policy)
    requires DefaultKnobs(p) && p.tokens == Words
    ensures DistinctRowIds(BridgedRows()) && Due(BridgedRows(), p) == []
    ensures Settled(BridgedRows(), map[], 91 * DAY, p) == LeftOver() && Due(LeftOver(), p) == [LeftOver()]
  {
    NothingDueAtFirst(p);
    LeftOverIsDue(p);
    BridgedLeftOver(p);
    hide Due;
    hide Settled;
  }

  lemma NothingDueAtFirst(p: Policy)
    requires DefaultKnobs(p) && p.tokens == Words
    ensures Due(BridgedRows(), p) == []
  {
    AllParseable(BridgedRows());
    BridgeIsSimilar();
    BridgedGates(p);
    FirstFitOfThree(Early(), Late(), Bridge(), Words);
    GatePair([Early(), Bridge()], [Late()], p);
    hide PromotedClusters;
    hide Clusters;
    hide Repeated;
    hide Parseable;
    hide Similar;
  }

  lemma LeftOverIsDue(p: Policy)
    requires DefaultKnobs(p) && p.tokens == Words
    ensures Due(LeftOver(), p) == [LeftOver()]
  {
    AllParseable(LeftOver());
    BridgeIsSimilar();
    BridgedGates(p);
    OneCluster(Late(), Bridge(), Words);
    GateSingle(LeftOver(), p);
    hide PromotedClusters;
    hide Clusters;
    hide Repeated;
    hide Parseable;
    hide Similar;
  }

  lemma GatePair(c: Cluster, d: Cluster, p: Policy)
    requires !Repeated(c, p) && !Repeated(d, p)
    ensures PromotedClusters([c, d], p) == []
  {
    hide Repeated;
    assert [c, d][..1] == [c] && [c][..0] == [];
    assert PromotedClusters([c], p) == [];
  }

  lemma GateSingle(c: Cluster, p: Policy)
    requires Repeated(c, p)
    ensures PromotedClusters([c], p) == [c]
  {
    hide Repeated;
    assert [c][..0] == [];
  }

  lemma BridgedLeftOver(p: Policy)
    requires DefaultKnobs(p)
    ensures Settled(BridgedRows(), map[], 91 * DAY, p) == LeftOver()
  {
    var none: map<Text, Text>, now := map[], 91 * DAY;
    SettledOneMore([], Early(), none, now, p);
    SettledOneMore([Early()], Late(), none, now, p);
    SettledOneMore([Early(), Late()], Bridge(), none, now, p);
    assert Expired(Early(), now, p) && !Expired(Late(), now, p) && !Expired(Bridge(), now, p);
    assert [] + [Early()] == [Early()] && [Early()] + [Late()] == [Early(), Late()];
    assert [Early(), Late()] + [Bridge()] == BridgedRows();
    assert Settled([], none, now, p) == [];
    hide Settled;
    hide Expired;
  }

  /** What one more row does to known clusters. */
  lemma Joins(rows: seq<Row>, clusters: seq<Cluster>, row: Row, tokens: Tokens, i: nat)
    requires Clusters(rows, tokens) == clusters && Eligible(row) && i <= |clusters|
    requires forall j | 0 <= j < i :: !NearDuplicate(row.text, clusters[j], tokens)
    requires i < |clusters| ==> NearDuplicate(row.text, clusters[i], tokens)
    ensures Clusters(rows + [row], tokens) ==
            if i < |clusters| then clusters[i := clusters[i] + [row]] else clusters + [[row]]
  {
    hide NearDuplicate;
    hide Eligible;
    ClusterOneMore(rows, row, tokens);
    PlaceAt(clusters, row, tokens, i);
    hide Clusters;
    hide Place;
  }

  lemma SingleCluster(row: Row, tokens: Tokens)
    requires Eligible(row)
    ensures Clusters([row], tokens) == [[row]]
  {
    assert Clusters([], tokens) == [] && [] + [row] == [row];
    Joins([], [], row, tokens, 0);
  }

  lemma NearSingle(text: Text, row: Row, tokens: Tokens)
    ensures NearDuplicate(text, [row], tokens) <==> Similar(text, row.text, tokens)
  {
    assert [row][0] == row;
  }

  lemma OneCluster(first: Row, second: Row, tokens: Tokens)
    requires Eligible(first) && Eligible(second) && Similar(second.text, first.text, tokens)
    ensures Clusters([first, second], tokens) == [[first, second]]
  {
    SingleCluster(first, tokens);
    NearSingle(second.text, first, tokens);
    hide *;
    Joins([first], [[first]], second, tokens, 0);
    assert [first] + [second] == [first, second];
    assert [[first]][0 := [first, second]] == [[first, second]];
  }

  lemma TwoClusters(first: Row, second: Row, tokens: Tokens)
    requires Eligible(first) && Eligible(second) && !Similar(second.text, first.text, tokens)
    ensures Clusters([first, second], tokens) == [[first], [second]]
  {
    SingleCluster(first, tokens);
    NearSingle(second.text, first, tokens);
    hide *;
    Joins([first], [[first]], second, tokens, 1);
    assert [first] + [second] == [first, second];
    assert [[first]] + [[second]] == [[first], [second]];
  }

  /** The bridge joins the earlier of two clusters. */
  lemma FirstFitOfThree(early: Row, late: Row, bridge: Row, tokens: Tokens)
    requires Eligible(early) && Eligible(late) && Eligible(bridge)
    requires Similar(bridge.text, early.text, tokens) && !Similar(late.text, early.text, tokens)
    ensures Clusters([early, late, bridge], tokens) == [[early, bridge], [late]]
  {
    TwoClusters(early, late, tokens);
    NearSingle(bridge.text, early, tokens);
    hide *;
    var clusters := [[early], [late]];
    Joins([early, late], clusters, bridge, tokens, 0);
    assert [early, late] + [bridge] == [early, late, bridge];
    assert clusters[0] + [bridge] == [early, bridge];
    assert clusters[0 := [early, bridge]] == [[early, bridge], [late]];
  }

  lemma BridgedGates(p: Policy)
    requires DefaultKnobs(p)
    ensures !Repeated([Early(), Bridge()], p) && !Repeated([Late()], p) && Repeated(LeftOver(), p)
  {
    CountOfTwo(Early(), Bridge());
    CountOfTwo(Late(), Bridge());
    assert [Late()][..0] == [];
    assert IsEarliest(89 * DAY, LeftOver()) by { assert LeftOver()[1].created.value == 89 * DAY; }
    assert IsLatest(90 * DAY, LeftOver()) by { assert LeftOver()[0].created.value == 90 * DAY; }
  }

  lemma CountOfTwo(x: Row, y: Row)
    ensures Observations([x, y]) == CountOf(x) + CountOf(y)
  {
    assert [x, y][..1] == [x] && [x][..0] == [];
    assert Observations([x]) == CountOf(x);
  }

  lemma StampsAreNotEmpty(nodes: seq<Promotion>, clusters: seq<Cluster>, now: int, p: Policy)
    requires PromotesAll(nodes, clusters, now, p)
    ensures forall id | id in Stamps(nodes) :: Stamps(nodes)[id] != ""
  {
    forall id | id in Stamps(nodes)
      ensures exists i :: 0 <= i < |nodes| && Stamps(nodes)[id] == nodes[i].id
    {
      StampOf(nodes, id);
    }
    forall i | 0 <= i < |nodes|
      ensures nodes[i].id != ""
    {
      assert Promotes(nodes[i], clusters[i], now, p);
    }
  }

  lemma {:induction false} ParseableKeepsDistinct(rows: seq<Row>)
    requires DistinctRowIds(rows)
    ensures DistinctRowIds(Parseable(rows))
    ensures forall i | 0 <= i < |Parseable(rows)| :: exists j :: 0 <= j < |rows| && rows[j].id == Parseable(rows)[i].id
  {
    if rows != [] {
      var n := |rows| - 1;
      ParseableKeepsDistinct(rows[..n]);
      var before := Parseable(rows[..n]);
      forall i | 0 <= i < |before|
        ensures before[i].id != rows[n].id
        ensures exists j :: 0 <= j < |rows| && rows[j].id == before[i].id
      {
        var j :| 0 <= j < n && rows[..n][j].id == before[i].id;
        assert rows[j].id == before[i].id;
      }
      assert rows[n].id == rows[n].id;
    }
  }
}
