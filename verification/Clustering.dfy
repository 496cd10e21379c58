/** First-fit lexical clustering of the episodic rows. */
module Clustering {
  import opened Options

  type Text = string

  /** One paragraph row; the text is already stripped, times are in microseconds, and an empty
      `consolidatedInto` means that the row carries no stamp.  The visibility is stripped and in lower case; an
      empty one stands for none. */
  datatype Row = Row(
    id: Text,
    text: Text,
    created: Option<int>,
    lastObserved: Option<int>,
    observationCount: int,
    trustTier: int,
    visibility: Text,
    consolidatedInto: Text)

  type Cluster = seq<Row>

  /** The content words of a text. */
  type Tokens = Text -> set<Text>

  predicate Eligible(row: Row) {
    row.consolidatedInto == "" && row.text != ""
  }

  /** Jaccard similarity of at least 0.4 (as a fraction, without rounding) and three shared words. */
  predicate Similar(a: Text, b: Text, tokens: Tokens) {
    var s, t := tokens(a), tokens(b);
    s != {} && t != {} && 5 * |s * t| >= 2 * |s + t| && |s * t| >= 3
  }

  predicate NearDuplicate(text: Text, cluster: Cluster, tokens: Tokens) {
    exists i :: 0 <= i < |cluster| && Similar(text, cluster[i].text, tokens)
  }

  /** A row joins the first cluster that has a near duplicate of it, or starts a new one. */
  function Place(clusters: seq<Cluster>, row: Row, tokens: Tokens): seq<Cluster> {
    if clusters == [] then [[row]]
    else if NearDuplicate(row.text, clusters[0], tokens) then [clusters[0] + [row]] + clusters[1..]
    else [clusters[0]] + Place(clusters[1..], row, tokens)
  }

  function Clusters(rows: seq<Row>, tokens: Tokens): seq<Cluster> {
    if rows == [] then []
    else
      var n := |rows| - 1;
      var before := Clusters(rows[..n], tokens);
      if Eligible(rows[n]) then Place(before, rows[n], tokens) else before
  }

  // ----- the loops -----

  /** `_near_duplicate`. */
  method IsNearDuplicate(text: Text, cluster: Cluster, tokens: Tokens) returns (near: bool)
    ensures near == NearDuplicate(text, cluster, tokens)
  {
    for i := 0 to |cluster|
      invariant forall j | 0 <= j < i :: !Similar(text, cluster[j].text, tokens)
    {
      if Similar(text, cluster[i].text, tokens) {
        return true;
      }
    }
    return false;
  }

  /** `_cluster`: every row in turn, scanning the clusters built so far until one accepts it. */
  method ClusterRows(rows: seq<Row>, tokens: Tokens) returns (clusters: seq<Cluster>)
    ensures clusters == Clusters(rows, tokens)
  {
    clusters := [];
    for n := 0 to |rows|
      invariant clusters == Clusters(rows[..n], tokens)
    {
      var row := rows[n];
      assert rows[..n + 1][..n] == rows[..n];
      if !Eligible(row) {
        continue;
      }
      var placed, i := false, 0;
      while i < |clusters| && !placed
        invariant 0 <= i <= |clusters|
        invariant placed ==> i < |clusters| && NearDuplicate(row.text, clusters[i], tokens)
        invariant forall j | 0 <= j < i :: !NearDuplicate(row.text, clusters[j], tokens)
        decreases |clusters| - i, !placed
      {
        placed := IsNearDuplicate(row.text, clusters[i], tokens);
        if !placed {
          i := i + 1;
        }
      }
      PlaceAt(clusters, row, tokens, i);
      clusters := if placed then clusters[i := clusters[i] + [row]] else clusters + [[row]];
    }
    assert rows[..|rows|] == rows;
  }

  lemma {:induction false} PlaceAt(clusters: seq<Cluster>, row: Row, tokens: Tokens, i: nat)
    requires i <= |clusters| && forall j | 0 <= j < i :: !NearDuplicate(row.text, clusters[j], tokens)
    requires i < |clusters| ==> NearDuplicate(row.text, clusters[i], tokens)
    ensures Place(clusters, row, tokens) ==
            if i < |clusters| then clusters[i := clusters[i] + [row]] else clusters + [[row]]
  {
    if clusters != [] && i > 0 {
      assert !NearDuplicate(row.text, clusters[0], tokens);
      PlaceAt(clusters[1..], row, tokens, i - 1);
      assert clusters == [clusters[0]] + clusters[1..];
    }
  }

  /** Two texts share at least three words, and these are at least two fifths of all their words. */
  ghost predicate Overlap(a: Text, b: Text, tokens: Tokens) {
    && 3 <= |tokens(a) * tokens(b)|
    && 0.4 * (|tokens(a) + tokens(b)| as real) <= |tokens(a) * tokens(b)| as real
  }

  lemma SimilarIsOverlap(a: Text, b: Text, tokens: Tokens)
    ensures Similar(a, b, tokens) <==> Overlap(a, b, tokens)
  {
    var s, t := tokens(a), tokens(b);
    if |s * t| >= 3 {
      assert s * t != {};
      var x :| x in s * t;
    }
  }

  /** What one more row does, in terms of the words alone: a row that is stamped or has no text is passed over; any
      other one joins the first cluster that has a text overlapping with its own, or starts a cluster. */
  lemma OneMoreRow(rows: seq<Row>, row: Row, tokens: Tokens) returns (k: nat)
    ensures Clusters([], tokens) == []
    ensures var clusters := Clusters(rows, tokens);
            && k <= |clusters|
            && (row.consolidatedInto != "" || row.text == "" ==> Clusters(rows + [row], tokens) == clusters)
            && (row.consolidatedInto == "" && row.text != "" ==>
                  && (forall j, i | 0 <= j < k && 0 <= i < |clusters[j]| ::
                        !Overlap(row.text, clusters[j][i].text, tokens))
                  && (k < |clusters| ==>
                        exists i :: 0 <= i < |clusters[k]| && Overlap(row.text, clusters[k][i].text, tokens))
                  && Clusters(rows + [row], tokens) ==
                     if k < |clusters| then clusters[k := clusters[k] + [row]] else clusters + [[row]])
  {
    var clusters := Clusters(rows, tokens);
    assert (rows + [row])[..|rows|] == rows;
    k := 0;
    while k < |clusters| && !NearDuplicate(row.text, clusters[k], tokens)
      invariant 0 <= k <= |clusters|
      invariant forall j | 0 <= j < k :: !NearDuplicate(row.text, clusters[j], tokens)
    {
      k := k + 1;
    }
    PlaceAt(clusters, row, tokens, k);
    forall other: Text
      ensures Similar(row.text, other, tokens) <==> Overlap(row.text, other, tokens)
    {
      SimilarIsOverlap(row.text, other, tokens);
    }
    hide Similar;
    hide Overlap;
    hide Place;
  }

  // ----- every eligible row is in exactly one cluster -----

  ghost function IdsOf(cluster: Cluster): set<Text> {
    set i | 0 <= i < |cluster| :: cluster[i].id
  }

  ghost function IdsIn(clusters: seq<Cluster>): set<Text> {
    if clusters == [] then {} else IdsOf(clusters[0]) + IdsIn(clusters[1..])
  }

  /** No cluster is empty, and no id is in two of them. */
  ghost predicate Separate(clusters: seq<Cluster>) {
    clusters != [] ==> clusters[0] != [] && IdsOf(clusters[0]) !! IdsIn(clusters[1..]) && Separate(clusters[1..])
  }

  ghost predicate DistinctRowIds(rows: seq<Row>) {
    forall i, j | 0 <= i < j < |rows| :: rows[i].id != rows[j].id
  }

  ghost function EligibleIds(rows: seq<Row>): set<Text> {
    set i | 0 <= i < |rows| && Eligible(rows[i]) :: rows[i].id
  }

  lemma IdsOfAppend(cluster: Cluster, row: Row)
    ensures IdsOf(cluster + [row]) == IdsOf(cluster) + {row.id}
  {
    var longer := cluster + [row];
    forall id | id in IdsOf(cluster) + {row.id}
      ensures id in IdsOf(longer)
    {
      if id == row.id {
        assert longer[|cluster|].id == id;
      } else {
        var i :| 0 <= i < |cluster| && cluster[i].id == id;
        assert longer[i].id == id;
      }
    }
  }

  lemma {:induction false} PlaceSeparates(clusters: seq<Cluster>, row: Row, tokens: Tokens)
    requires Separate(clusters) && row.id !in IdsIn(clusters)
    ensures Separate(Place(clusters, row, tokens)) && IdsIn(Place(clusters, row, tokens)) == IdsIn(clusters) + {row.id}
  {
    IdsOfAppend([], row);
    assert [] + [row] == [row];
    if clusters != [] {
      IdsOfAppend(clusters[0], row);
      var placed := Place(clusters, row, tokens);
      if NearDuplicate(row.text, clusters[0], tokens) {
        assert placed[1..] == clusters[1..];
      } else {
        PlaceSeparates(clusters[1..], row, tokens);
        assert placed[1..] == Place(clusters[1..], row, tokens);
      }
    }
  }

  /** The clusters partition the eligible rows: every eligible id is in a cluster, nothing else is, and none
      is in two. */
  lemma {:induction false} ClustersPartition(rows: seq<Row>, tokens: Tokens)
    requires DistinctRowIds(rows)
    ensures Separate(Clusters(rows, tokens)) && IdsIn(Clusters(rows, tokens)) == EligibleIds(rows)
  {
    if rows != [] {
      var n := |rows| - 1;
      ClustersPartition(rows[..n], tokens);
      var before := EligibleIds(rows[..n]);
      forall id | id in EligibleIds(rows)
        ensures id in before || (Eligible(rows[n]) && id == rows[n].id)
      {
        var i :| 0 <= i < |rows| && Eligible(rows[i]) && rows[i].id == id;
        assert i < n ==> rows[..n][i] == rows[i];
      }
      forall id | id in before
        ensures id in EligibleIds(rows) && id != rows[n].id
      {
        var i :| 0 <= i < n && Eligible(rows[..n][i]) && rows[..n][i].id == id;
        assert rows[i].id == id;
      }
      if Eligible(rows[n]) {
        PlaceSeparates(Clusters(rows[..n], tokens), rows[n], tokens);
      }
    }
  }

  // ----- removing whole clusters does not disturb the others -----

  /** All of the cluster is dropped, or none of it. */
  ghost predicate Whole(cluster: Cluster, dropped: set<Text>) {
    || (forall i | 0 <= i < |cluster| :: cluster[i].id in dropped)
    || (forall i | 0 <= i < |cluster| :: cluster[i].id !in dropped)
  }

  ghost predicate AllWhole(clusters: seq<Cluster>, dropped: set<Text>) {
    forall i | 0 <= i < |clusters| :: clusters[i] != [] && Whole(clusters[i], dropped)
  }

  ghost function Kept(clusters: seq<Cluster>, dropped: set<Text>): seq<Cluster> {
    if clusters == [] then []
    else
      var rest := Kept(clusters[1..], dropped);
      if clusters[0] != [] && clusters[0][0].id in dropped then rest else [clusters[0]] + rest
  }

  lemma {:induction false} PlaceAmongKept(clusters: seq<Cluster>, row: Row, tokens: Tokens, dropped: set<Text>)
    requires AllWhole(Place(clusters, row, tokens), dropped)
    requires forall i | 0 <= i < |clusters| :: clusters[i] != []
    ensures AllWhole(clusters, dropped)
    ensures Kept(Place(clusters, row, tokens), dropped) ==
            if row.id in dropped then Kept(clusters, dropped) else Place(Kept(clusters, dropped), row, tokens)
  {
    var placed := Place(clusters, row, tokens);
    if clusters == [] {
      assert placed[0][0] == row;
    } else if NearDuplicate(row.text, clusters[0], tokens) {
      var joined := clusters[0] + [row];
      assert placed[0] == joined && joined[|clusters[0]|] == row && joined[0] == clusters[0][0];
      assert Whole(joined, dropped);
      assert forall i | 0 <= i < |clusters[0]| :: joined[i] == clusters[0][i];
      assert placed[1..] == clusters[1..];
      assert forall i | 1 <= i < |clusters| :: placed[i] == clusters[i];
      assert joined[0].id in dropped <==> row.id in dropped;
    } else {
      assert placed[0] == clusters[0];
      assert placed[1..] == Place(clusters[1..], row, tokens);
      assert forall i | 0 <= i < |placed| - 1 :: placed[1..][i] == placed[i + 1];
      PlaceAmongKept(clusters[1..], row, tokens, dropped);
      assert forall i | 0 < i < |clusters| :: clusters[i] == clusters[1..][i - 1];
    }
  }

  /** The rows after some of them have been dropped, that is, made ineligible. */
  ghost predicate DroppedFrom(rows: seq<Row>, rest: seq<Row>, dropped: set<Text>) {
    && |rest| == |rows|
    && forall i | 0 <= i < |rows| :: if rows[i].id in dropped then !Eligible(rest[i]) else rest[i] == rows[i]
  }

  /** The rows of the clusters are rows of the list. */
  lemma {:induction false} ClusteredRowsAreRows(rows: seq<Row>, tokens: Tokens, k: nat, i: nat)
    requires k < |Clusters(rows, tokens)| && i < |Clusters(rows, tokens)[k]|
    ensures Clusters(rows, tokens)[k][i] in rows
  {
    if rows != [] {
      var n := |rows| - 1;
      var before, row := Clusters(rows[..n], tokens), rows[n];
      if Eligible(row) {
        PlacedRow(before, row, tokens, k, i);
      }
      if Clusters(rows, tokens)[k][i] != row {
        ClusteredRowsAreRows(rows[..n], tokens, k, i);
      }
      assert rows == rows[..n] + [row];
    }
  }

  lemma {:induction false} PlacedRow(clusters: seq<Cluster>, row: Row, tokens: Tokens, k: nat, i: nat)
    requires k < |Place(clusters, row, tokens)| && i < |Place(clusters, row, tokens)[k]|
    ensures var placed := Place(clusters, row, tokens)[k][i];
            placed == row || (k < |clusters| && i < |clusters[k]| && placed == clusters[k][i])
  {
    if clusters != [] && !NearDuplicate(row.text, clusters[0], tokens) && k > 0 {
      PlacedRow(clusters[1..], row, tokens, k - 1, i);
    }
  }

  lemma {:induction false} ClustersAreNotEmpty(rows: seq<Row>, tokens: Tokens)
    ensures forall i | 0 <= i < |Clusters(rows, tokens)| :: Clusters(rows, tokens)[i] != []
  {
    if rows != [] {
      var n := |rows| - 1;
      ClustersAreNotEmpty(rows[..n], tokens);
      PlaceKeepsNotEmpty(Clusters(rows[..n], tokens), rows[n], tokens);
    }
  }

  lemma {:induction false} PlaceKeepsNotEmpty(clusters: seq<Cluster>, row: Row, tokens: Tokens)
    requires forall i | 0 <= i < |clusters| :: clusters[i] != []
    ensures forall i | 0 <= i < |Place(clusters, row, tokens)| :: Place(clusters, row, tokens)[i] != []
  {
    if clusters != [] && !NearDuplicate(row.text, clusters[0], tokens) {
      PlaceKeepsNotEmpty(clusters[1..], row, tokens);
    }
  }

  /** Clustering is stable under removal of whole clusters: the others come out exactly as before. */
  lemma {:induction false} ClusteringIsStable(rows: seq<Row>, rest: seq<Row>, dropped: set<Text>, tokens: Tokens)
    requires DroppedFrom(rows, rest, dropped)
    requires AllWhole(Clusters(rows, tokens), dropped)
    ensures Clusters(rest, tokens) == Kept(Clusters(rows, tokens), dropped)
  {
    if rows != [] {
      var n := |rows| - 1;
      var before := Clusters(rows[..n], tokens);
      ClustersAreNotEmpty(rows[..n], tokens);
      if Eligible(rows[n]) {
        PlaceAmongKept(before, rows[n], tokens, dropped);
      }
      assert DroppedFrom(rows[..n], rest[..n], dropped);
      ClusteringIsStable(rows[..n], rest[..n], dropped, tokens);
    }
  }
}
