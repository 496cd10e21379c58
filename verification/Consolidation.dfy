/** One offline consolidation pass: promotion of repeated statements, forgetting of old one-offs. */
module Consolidation {
  import opened Numbers
  import opened Options
  import opened Clustering
  import Gate = AuthorizationGate

  const DAY := 86_400_000_000

  /** The knobs of a pass, and the text functions it relies on. */
  datatype Policy = Policy(
    minObservations: int,
    minSpanDays: int,
    ttlDays: int,
    tokens: Tokens,
    digest: Text -> Text,
    cadence: (int, int) -> Text,
    looksLikePreference: Text -> bool)

  /** The source references and the visibility that a node is stamped with when it is committed. */
  datatype Lineage = Unbound | Bound(refs: Text, derivation: Text, visibility: Text)

  datatype Promotion = Promotion(
    preference: bool,
    id: Text,
    text: Text,
    trustTier: int,
    earliest: int,
    latest: int,
    observations: int,
    consolidatedAt: int,
    sources: seq<Text>,
    lineage: Lineage)

  // ----- what a cluster amounts to -----

  ghost predicate Dated(rows: seq<Row>) {
    forall i | 0 <= i < |rows| :: rows[i].created.Some?
  }

  function LastSeen(row: Row): int
    requires row.created.Some?
  {
    if row.lastObserved.Some? then row.lastObserved.value else row.created.value
  }

  /** An absent or zero count stands for one observation. */
  function CountOf(row: Row): int {
    if row.observationCount == 0 then 1 else row.observationCount
  }

  function Observations(cluster: Cluster): int {
    if cluster == [] then 0 else Observations(cluster[..|cluster| - 1]) + CountOf(cluster[|cluster| - 1])
  }

  ghost predicate IsEarliest(t: int, cluster: Cluster)
    requires Dated(cluster)
  {
    && (forall i | 0 <= i < |cluster| :: t <= cluster[i].created.value && t <= LastSeen(cluster[i]))
    && exists i :: 0 <= i < |cluster| && (t == cluster[i].created.value || t == LastSeen(cluster[i]))
  }

  ghost predicate IsLatest(t: int, cluster: Cluster)
    requires Dated(cluster)
  {
    && (forall i | 0 <= i < |cluster| :: cluster[i].created.value <= t && LastSeen(cluster[i]) <= t)
    && exists i :: 0 <= i < |cluster| && (t == cluster[i].created.value || t == LastSeen(cluster[i]))
  }

  ghost predicate IsLowestTier(t: int, cluster: Cluster) {
    && (forall i | 0 <= i < |cluster| :: t <= cluster[i].trustTier)
    && exists i :: 0 <= i < |cluster| && t == cluster[i].trustTier
  }

  function Occurrences(cluster: Cluster, text: Text): nat {
    if cluster == [] then 0
    else Occurrences(cluster[..|cluster| - 1], text) + if cluster[|cluster| - 1].text == text then 1 else 0
  }

  /** The most frequent text of the cluster, the one seen first among equals. */
  ghost predicate IsCanonical(text: Text, cluster: Cluster) {
    exists k :: 0 <= k < |cluster| && cluster[k].text == text && MostFrequentAt(cluster, k)
  }

  ghost predicate MostFrequentAt(cluster: Cluster, k: nat)
    requires k < |cluster|
  {
    && (forall i | 0 <= i < |cluster| :: Occurrences(cluster, cluster[i].text) <= Occurrences(cluster, cluster[k].text))
    && (forall i | 0 <= i < k :: Occurrences(cluster, cluster[i].text) < Occurrences(cluster, cluster[k].text))
  }

  lemma CanonicalIsUnique(cluster: Cluster, s: Text, t: Text)
    requires IsCanonical(s, cluster) && IsCanonical(t, cluster)
    ensures s == t
  {
    var i :| 0 <= i < |cluster| && cluster[i].text == s && MostFrequentAt(cluster, i);
    var j :| 0 <= j < |cluster| && cluster[j].text == t && MostFrequentAt(cluster, j);
  }

  /** How often each text occurs, and where it is first seen. */
  ghost predicate IsTally(counts: map<Text, nat>, order: map<Text, nat>, cluster: Cluster) {
    && counts.Keys == order.Keys
    && (forall t :: Occurrences(cluster, t) == if t in counts then counts[t] else 0)
    && (forall t | t in order :: order[t] < |cluster| && cluster[order[t]].text == t)
    && (forall j | 0 <= j < |cluster| :: cluster[j].text in counts && order[cluster[j].text] <= j)
  }

  method Tally(cluster: Cluster) returns (counts: map<Text, nat>, order: map<Text, nat>)
    ensures IsTally(counts, order, cluster)
  {
    counts, order := map[], map[];
    for i := 0 to |cluster|
      invariant IsTally(counts, order, cluster[..i])
    {
      var text := cluster[i].text;
      TallyOneMore(counts, order, cluster, i);
      order := if text in order then order else order[text := i];
      counts := counts[text := (if text in counts then counts[text] else 0) + 1];
    }
    assert cluster[..|cluster|] == cluster;
  }

  lemma TallyOneMore(counts: map<Text, nat>, order: map<Text, nat>, cluster: Cluster, i: nat)
    requires i < |cluster| && IsTally(counts, order, cluster[..i])
    ensures var text := cluster[i].text;
            IsTally(counts[text := (if text in counts then counts[text] else 0) + 1],
                    if text in order then order else order[text := i],
                    cluster[..i + 1])
  {
    CountOneMore(cluster, i);
    hide Occurrences;
    assert forall j | 0 <= j < i :: cluster[..i][j] == cluster[j];
    assert forall j | 0 <= j <= i :: cluster[..i + 1][j] == cluster[j];
  }

  lemma CountOneMore(cluster: Cluster, i: nat)
    requires i < |cluster|
    ensures forall t ::
              Occurrences(cluster[..i + 1], t) == Occurrences(cluster[..i], t) + if cluster[i].text == t then 1 else 0
  {
    assert cluster[..i + 1][..i] == cluster[..i];
  }

  /** `_canonical_text`: the maximum over the tallied texts, taken in any order. */
  method CanonicalText(cluster: Cluster) returns (text: Text)
    requires cluster != []
    ensures IsCanonical(text, cluster)
  {
    var counts, order := Tally(cluster);
    text := cluster[0].text;
    var todo := counts.Keys;
    while todo != {}
      invariant todo <= counts.Keys && text in counts
      invariant forall t | t in counts.Keys - todo ::
                  counts[t] < counts[text] || (counts[t] == counts[text] && order[text] <= order[t])
      decreases todo
    {
      var t :| t in todo;
      todo := todo - {t};
      if counts[text] < counts[t] || (counts[text] == counts[t] && order[t] < order[text]) {
        text := t;
      }
    }
    TallyMaximum(counts, order, cluster, text);
  }

  lemma TallyMaximum(counts: map<Text, nat>, order: map<Text, nat>, cluster: Cluster, text: Text)
    requires IsTally(counts, order, cluster) && text in counts
    requires forall t | t in counts ::
               counts[t] < counts[text] || (counts[t] == counts[text] && order[text] <= order[t])
    ensures IsCanonical(text, cluster)
  {
    var k := order[text];
    forall i | 0 <= i < |cluster|
      ensures Occurrences(cluster, cluster[i].text) <= Occurrences(cluster, cluster[k].text)
      ensures i < k ==> Occurrences(cluster, cluster[i].text) < Occurrences(cluster, cluster[k].text)
    {
      assert cluster[i].text in counts;
    }
    assert MostFrequentAt(cluster, k);
  }

  /** The gate: enough observations over a long enough span. */
  ghost predicate Repeated(cluster: Cluster, p: Policy) {
    && Dated(cluster)
    && Observations(cluster) >= p.minObservations
    && exists first, last ::
         IsEarliest(first, cluster) && IsLatest(last, cluster) && last - first >= p.minSpanDays * DAY
  }

  /** `node` is what the cluster is promoted to. */
  ghost predicate Promotes(node: Promotion, cluster: Cluster, now: int, p: Policy) {
    && Dated(cluster)
    && IsEarliest(node.earliest, cluster) && IsLatest(node.latest, cluster)
    && IsLowestTier(node.trustTier, cluster)
    && node.observations == Observations(cluster) && node.consolidatedAt == now
    && node.sources == SourceIds(cluster)
    && exists canonical ::
         && IsCanonical(canonical, cluster)
         && node.id == "consol-" + p.digest(canonical)
         && node.text == canonical + p.cadence(node.observations, node.latest - node.earliest)
         && node.preference == p.looksLikePreference(canonical)
  }

  function SourceIds(cluster: Cluster): seq<Text> {
    seq(|cluster|, i requires 0 <= i < |cluster| => cluster[i].id)
  }

  lemma ObservedOneMore(cluster: Cluster, i: nat)
    requires i < |cluster|
    ensures Observations(cluster[..i + 1]) == Observations(cluster[..i]) + CountOf(cluster[i])
  {
    assert cluster[..i + 1][..i] == cluster[..i];
  }

  /** The pass over a cluster's rows that gathers counts, times and trust tiers. */
  method Measure(cluster: Cluster) returns (observations: int, earliest: int, latest: int, tier: int)
    requires cluster != [] && Dated(cluster)
    ensures observations == Observations(cluster)
    ensures IsEarliest(earliest, cluster) && IsLatest(latest, cluster) && IsLowestTier(tier, cluster)
  {
    earliest, latest := cluster[0].created.value, cluster[0].created.value;
    observations, tier := 0, cluster[0].trustTier;
    assert Observations(cluster[..0]) == 0;
    hide *;
    for i := 0 to |cluster|
      invariant observations == Observations(cluster[..i])
      invariant i == 0 ==> earliest == latest == cluster[0].created.value && tier == cluster[0].trustTier
      invariant DatedPrefix(cluster, i)
      invariant i > 0 ==> IsEarliest(earliest, cluster[..i]) && IsLatest(latest, cluster[..i])
      invariant i > 0 ==> IsLowestTier(tier, cluster[..i])
    {
      var row := cluster[i];
      ObservedOneMore(cluster, i);
      MeasuredOneMore(cluster, i, earliest, latest, tier);
      earliest := Min(earliest, Min(row.created.value, LastSeen(row)));
      latest := Max(latest, Max(row.created.value, LastSeen(row)));
      tier := Min(tier, row.trustTier);
      observations := observations + CountOf(row);
    }
    assert cluster[..|cluster|] == cluster;
  }

  ghost predicate DatedPrefix(cluster: Cluster, i: int) {
    0 <= i <= |cluster| && Dated(cluster) && Dated(cluster[..i])
  }

  lemma MeasuredOneMore(cluster: Cluster, i: nat, earliest: int, latest: int, tier: int)
    requires i < |cluster| && DatedPrefix(cluster, i)
    requires i == 0 ==> earliest == latest == cluster[0].created.value && tier == cluster[0].trustTier
    requires i > 0 ==> IsEarliest(earliest, cluster[..i]) && IsLatest(latest, cluster[..i])
    requires i > 0 ==> IsLowestTier(tier, cluster[..i])
    ensures DatedPrefix(cluster, i + 1) && Dated(cluster) && cluster[i].created.Some?
    ensures var row := cluster[i];
            && IsEarliest(Min(earliest, Min(row.created.value, LastSeen(row))), cluster[..i + 1])
            && IsLatest(Max(latest, Max(row.created.value, LastSeen(row))), cluster[..i + 1])
            && IsLowestTier(Min(tier, row.trustTier), cluster[..i + 1])
  {
    var before, after := cluster[..i], cluster[..i + 1];
    assert forall j | 0 <= j < i :: after[j] == before[j];
    assert after[i] == cluster[i];
    hide LastSeen;
  }

  /** Absent and zero counts stand for one observation; all others add up. */
  lemma ObservationsAddUp(cluster: Cluster, row: Row)
    ensures Observations([]) == 0
    ensures Observations(cluster + [row]) ==
            Observations(cluster) + if row.observationCount == 0 then 1 else row.observationCount
  {
    assert (cluster + [row])[..|cluster|] == cluster;
  }

  /** A row's times: when it was created, and when it was last observed if that is known. */
  ghost predicate IsTimeOf(t: int, row: Row) {
    row.created == Some(t) || row.lastObserved == Some(t)
  }

  lemma EarliestByTimes(t: int, cluster: Cluster)
    requires Dated(cluster)
    ensures IsEarliest(t, cluster) <==>
              && (forall i, u | 0 <= i < |cluster| && IsTimeOf(u, cluster[i]) :: t <= u)
              && exists i :: 0 <= i < |cluster| && IsTimeOf(t, cluster[i])
  {
    forall i | 0 <= i < |cluster|
      ensures IsTimeOf(cluster[i].created.value, cluster[i]) && IsTimeOf(LastSeen(cluster[i]), cluster[i])
    {
    }
  }

  lemma LatestByTimes(t: int, cluster: Cluster)
    requires Dated(cluster)
    ensures IsLatest(t, cluster) <==>
              && (forall i, u | 0 <= i < |cluster| && IsTimeOf(u, cluster[i]) :: u <= t)
              && exists i :: 0 <= i < |cluster| && IsTimeOf(t, cluster[i])
  {
    forall i | 0 <= i < |cluster|
      ensures IsTimeOf(cluster[i].created.value, cluster[i]) && IsTimeOf(LastSeen(cluster[i]), cluster[i])
    {
    }
  }

  /** The promotion gate by times: enough observations, and two times of the cluster's rows so many days apart. */
  lemma RepeatedExactlyWhen(cluster: Cluster, p: Policy)
    requires cluster != [] && Dated(cluster)
    ensures Repeated(cluster, p) <==>
              && Observations(cluster) >= p.minObservations
              && exists i, j, t, u ::
                   && 0 <= i < |cluster| && 0 <= j < |cluster| && IsTimeOf(t, cluster[i]) && IsTimeOf(u, cluster[j])
                   && u - t >= p.minSpanDays * 86_400_000_000
  {
    var first, last := SpanOf(cluster);
    EarliestByTimes(first, cluster);
    LatestByTimes(last, cluster);
    hide IsTimeOf;
    if Repeated(cluster, p) {
      var a, b :| IsEarliest(a, cluster) && IsLatest(b, cluster) && b - a >= p.minSpanDays * DAY;
      EarliestByTimes(a, cluster);
      LatestByTimes(b, cluster);
      var i :| 0 <= i < |cluster| && IsTimeOf(a, cluster[i]);
      var j :| 0 <= j < |cluster| && IsTimeOf(b, cluster[j]);
    }
    if
      exists i, j, t, u ::
        && 0 <= i < |cluster| && 0 <= j < |cluster| && IsTimeOf(t, cluster[i]) && IsTimeOf(u, cluster[j])
        && u - t >= p.minSpanDays * 86_400_000_000
    {
      assert last - first >= p.minSpanDays * DAY;
    }
  }

  lemma {:induction false} SpanOf(cluster: Cluster) returns (first: int, last: int)
    requires cluster != [] && Dated(cluster)
    ensures IsEarliest(first, cluster) && IsLatest(last, cluster)
  {
    var n := |cluster| - 1;
    var row := cluster[n];
    first, last := row.created.value, row.created.value;
    if n > 0 {
      first, last := SpanOf(cluster[..n]);
    }
    assert n > 0 ==> forall j | 0 <= j < n :: cluster[j] == cluster[..n][j];
    first := Min(first, Min(row.created.value, LastSeen(row)));
    last := Max(last, Max(row.created.value, LastSeen(row)));
    hide LastSeen;
  }

  /** A promotion carries its rows' ids in their order, and the first and last of their times. */
  lemma PromotionOfRows(node: Promotion, cluster: Cluster, now: int, p: Policy)
    requires Promotes(node, cluster, now, p)
    ensures |node.sources| == |cluster| && forall i | 0 <= i < |cluster| :: node.sources[i] == cluster[i].id
    ensures forall i, t | 0 <= i < |cluster| && IsTimeOf(t, cluster[i]) :: node.earliest <= t <= node.latest
    ensures exists i :: 0 <= i < |cluster| && IsTimeOf(node.earliest, cluster[i])
    ensures exists i :: 0 <= i < |cluster| && IsTimeOf(node.latest, cluster[i])
  {
    EarliestByTimes(node.earliest, cluster);
    LatestByTimes(node.latest, cluster);
    hide IsTimeOf;
  }

  method Promote(cluster: Cluster, now: int, p: Policy) returns (promotion: Option<Promotion>)
    requires cluster != [] && Dated(cluster)
    ensures promotion.Some? <==> Repeated(cluster, p)
    ensures promotion.Some? ==> Promotes(promotion.value, cluster, now, p) && promotion.value.lineage.Unbound?
  {
    var observations, earliest, latest, tier := Measure(cluster);
    if observations < p.minObservations || latest - earliest < p.minSpanDays * DAY {
      return None;
    }
    var canonical := CanonicalText(cluster);
    return Some(Promotion(p.looksLikePreference(canonical), "consol-" + p.digest(canonical),
                          canonical + p.cadence(observations, latest - earliest), tier, earliest, latest,
                          observations, now, SourceIds(cluster), Unbound));
  }

  // ----- lineage -----

  /** The sources whose rows are there, with their visibility; a row without one counts as "workspace". */
  function SourceViews(sources: seq<Text>, rows: seq<Row>): seq<Gate.SourceRecord> {
    if sources == [] then []
    else
      var n := |sources| - 1;
      var row := RowWith(rows, sources[n]);
      SourceViews(sources[..n], rows) +
      if row.None? then [] else [Gate.SourceRecord(sources[n], VisibilityOf(row.value))]
  }

  function VisibilityOf(row: Row): Text {
    if row.visibility == "" then "workspace" else row.visibility
  }

  function RowWith(rows: seq<Row>, id: Text): Option<Row> {
    if rows == [] then None else if rows[0].id == id then Some(rows[0]) else RowWith(rows[1..], id)
  }

  /** With distinct ids, every row is found under its own id. */
  lemma {:induction false} RowUnderId(rows: seq<Row>, id: Text)
    requires DistinctRowIds(rows)
    ensures forall i | 0 <= i < |rows| :: RowWith(rows, id) == Some(rows[i]) <==> rows[i].id == id
    ensures (forall i | 0 <= i < |rows| :: rows[i].id != id) ==> RowWith(rows, id).None?
  {
    if rows != [] {
      RowUnderId(rows[1..], id);
      assert forall i | 0 < i < |rows| :: rows[i] == rows[1..][i - 1];
    }
  }

  /** The node's references are its sources, and its visibility is clamped to theirs. */
  ghost predicate IsBound(node: Promotion, rows: seq<Row>) {
    var views := SourceViews(node.sources, rows);
    match node.lineage
    case Unbound => views == [] || exists i :: 0 <= i < |views| && views[i].id == ""
    case Bound(refs, derivation, visibility) =>
      && views != [] && (forall i | 0 <= i < |views| :: views[i].id != "")
      && refs == Gate.Join(Gate.SourceRefs(views)) && derivation == "v1"
      && Gate.Clamped(visibility, views)
  }

  /** `_bind_cluster_lineage`; a source without an id leaves the node unbound. */
  method BindLineage(node: Promotion, rows: seq<Row>) returns (bound: Promotion)
    ensures bound == node.(lineage := bound.lineage)
    ensures node.lineage.Unbound? ==> IsBound(bound, rows)
  {
    var views := [];
    for i := 0 to |node.sources|
      invariant views == SourceViews(node.sources[..i], rows)
    {
      assert node.sources[..i + 1][..i] == node.sources[..i];
      var row := RowWith(rows, node.sources[i]);
      if row.Some? {
        views := views + [Gate.SourceRecord(node.sources[i], VisibilityOf(row.value))];
      }
    }
    assert node.sources[..|node.sources|] == node.sources;
    if views == [] {
      return node;
    }
    var record := new Gate.DerivedRecord();
    var error := record.BindDerivationLineage(views, "v1");
    if error.Some? {
      return node;
    }
    var namespace := record.namespace;
    return node.(lineage := Bound(namespace[Gate.SOURCE_REFS], namespace[Gate.DERIVATION], record.visibility));
  }

  lemma {:induction false} SourceViewsHave(sources: seq<Text>, rows: seq<Row>, i: nat)
    requires i < |sources| && RowWith(rows, sources[i]).Some?
    ensures Gate.SourceRecord(sources[i], VisibilityOf(RowWith(rows, sources[i]).value)) in SourceViews(sources, rows)
    decreases |sources|
  {
    var n := |sources| - 1;
    if i < n {
      SourceViewsHave(sources[..n], rows, i);
    }
  }

  lemma {:induction false} ViewsAreOfSources(sources: seq<Text>, rows: seq<Row>)
    ensures forall x | x in SourceViews(sources, rows) ::
              && x.id in sources && RowWith(rows, x.id).Some?
              && x.visibility == VisibilityOf(RowWith(rows, x.id).value)
  {
    if sources != [] {
      ViewsAreOfSources(sources[..|sources| - 1], rows);
      assert sources == sources[..|sources| - 1] + [sources[|sources| - 1]];
    }
  }

  ghost predicate SourceIsThere(id: Text, node: Promotion, rows: seq<Row>) {
    id in node.sources && RowWith(rows, id).Some?
  }

  /** A committed node is bound exactly if the row of some source is there, and none without an id. */
  lemma BoundExactlyWhen(node: Promotion, rows: seq<Row>)
    requires IsBound(node, rows)
    ensures node.lineage.Bound? <==> (exists id :: SourceIsThere(id, node, rows)) && !SourceIsThere("", node, rows)
  {
    var views := SourceViews(node.sources, rows);
    ViewsAreOfSources(node.sources, rows);
    assert forall i | 0 <= i < |views| :: views[i] in views && SourceIsThere(views[i].id, node, rows);
    forall id | SourceIsThere(id, node, rows)
      ensures exists i :: 0 <= i < |views| && views[i].id == id
    {
      var i :| 0 <= i < |node.sources| && node.sources[i] == id;
      SourceViewsHave(node.sources, rows, i);
      var k :| 0 <= k < |views| && views[k] == Gate.SourceRecord(id, VisibilityOf(RowWith(rows, id).value));
    }
    if views != [] {
      assert SourceIsThere(views[0].id, node, rows);
    }
  }

  /** The source `id` of the node has a row with this visibility. */
  ghost predicate SourceHas(id: Text, visibility: Text, node: Promotion, rows: seq<Row>) {
    SourceIsThere(id, node, rows) && RowWith(rows, id).value.visibility == visibility
  }

  /** What a committed node is visible as, by name: to the user alone as soon as a row is, or has an unknown
      visibility; otherwise in the session as soon as a row is; and in the workspace only if all rows are, by name
      or for want of a visibility. */
  lemma PromotionVisibility(node: Promotion, rows: seq<Row>)
    requires IsBound(node, rows) && node.lineage.Bound?
    ensures node.lineage.visibility ==
            if exists id, v :: SourceHas(id, v, node, rows) && v !in {"session", "workspace", ""} then "user"
            else if exists id :: SourceHas(id, "session", node, rows) then "session"
            else "workspace"
  {
    var views := SourceViews(node.sources, rows);
    assert Gate.Clamped(node.lineage.visibility, views);
    NarrowestView(node, rows, "user");
    NarrowestView(node, rows, "session");
    hide SourceViews;
    hide SourceHas;
    hide IsBound;
  }

  /** Whether some view is that narrow can be read off the rows. */
  lemma NarrowestView(node: Promotion, rows: seq<Row>, bound: Text)
    requires bound in {"user", "session"}
    ensures var views := SourceViews(node.sources, rows);
            if bound == "user" then
              (exists k :: 0 <= k < |views| && views[k].visibility !in {"session", "workspace"}) <==>
              exists id, v :: SourceHas(id, v, node, rows) && v !in {"session", "workspace", ""}
            else
              (exists k :: 0 <= k < |views| && views[k].visibility == "session") <==>
              exists id :: SourceHas(id, "session", node, rows)
  {
    var views := SourceViews(node.sources, rows);
    hide SourceViews;
    hide SourceHas;
    if bound == "user" {
      if k :| 0 <= k < |views| && views[k].visibility !in {"session", "workspace"} {
        var v := SourceOfView(node, rows, k);
      }
      if id, v :| SourceHas(id, v, node, rows) && v !in {"session", "workspace", ""} {
        var k := ViewOfSource(node, rows, id, v);
      }
    } else {
      if k :| 0 <= k < |views| && views[k].visibility == "session" {
        var v := SourceOfView(node, rows, k);
      }
      if id :| SourceHas(id, "session", node, rows) {
        var k := ViewOfSource(node, rows, id, "session");
      }
    }
  }

  lemma ViewOfSource(node: Promotion, rows: seq<Row>, id: Text, v: Text) returns (k: nat)
    requires SourceHas(id, v, node, rows)
    ensures var views := SourceViews(node.sources, rows);
            k < |views| && views[k].visibility == if v == "" then "workspace" else v
  {
    var views := SourceViews(node.sources, rows);
    var i :| 0 <= i < |node.sources| && node.sources[i] == id;
    SourceViewsHave(node.sources, rows, i);
    k :| 0 <= k < |views| && views[k] == Gate.SourceRecord(id, VisibilityOf(RowWith(rows, id).value));
  }

  lemma SourceOfView(node: Promotion, rows: seq<Row>, k: nat) returns (v: Text)
    requires k < |SourceViews(node.sources, rows)|
    ensures var view := SourceViews(node.sources, rows)[k];
            SourceHas(view.id, v, node, rows) && view.visibility == if v == "" then "workspace" else v
  {
    var view := SourceViews(node.sources, rows)[k];
    ViewsAreOfSources(node.sources, rows);
    assert view in SourceViews(node.sources, rows);
    v := RowWith(rows, view.id).value.visibility;
  }

  /** A committed node is bound, and never wider than a row it was made from. */
  lemma PromotionNeverWider(node: Promotion, rows: seq<Row>, id: Text)
    requires IsBound(node, rows) && SourceIsThere(id, node, rows) && !SourceIsThere("", node, rows)
    ensures node.lineage.Bound?
    ensures match RowWith(rows, id).value.visibility
            case "" => node.lineage.visibility in {"user", "session", "workspace"}
            case "workspace" => node.lineage.visibility in {"user", "session", "workspace"}
            case "session" => node.lineage.visibility in {"user", "session"}
            case _ => node.lineage.visibility == "user"
  {
    BoundExactlyWhen(node, rows);
    PromotionVisibility(node, rows);
    assert SourceHas(id, RowWith(rows, id).value.visibility, node, rows);
  }

  // ----- the pass -----

  /** The rows whose creation time can be read. */
  function Parseable(rows: seq<Row>): seq<Row> {
    if rows == [] then []
    else Parseable(rows[..|rows| - 1]) + if rows[|rows| - 1].created.Some? then [rows[|rows| - 1]] else []
  }

  ghost function PromotedClusters(clusters: seq<Cluster>, p: Policy): seq<Cluster> {
    if clusters == [] then []
    else
      var n := |clusters| - 1;
      PromotedClusters(clusters[..n], p) + if Repeated(clusters[n], p) then [clusters[n]] else []
  }

  /** Past its time to live without ever having been consolidated. */
  predicate Expired(row: Row, now: int, p: Policy) {
    row.consolidatedInto == "" && row.created.Some? && now - row.created.value > p.ttlDays * DAY
  }

  /** Its age, counted from its creation and not from when it was last observed, exceeds the time to live in days,
      and it bears no stamp. */
  ghost predicate TooOld(row: Row, now: int, ttlDays: int) {
    row.consolidatedInto == "" && row.created.Some? && now - row.created.value > ttlDays * 86_400_000_000
  }

  /** What a pass reports as evicted are the ids of the rows that are too old. */
  lemma {:induction false} EvictedExactlyWhen(rows: seq<Row>, now: int, p: Policy, id: Text)
    ensures id in ExpiredIds(rows, now, p) <==>
              exists i :: 0 <= i < |rows| && rows[i].id == id && TooOld(rows[i], now, p.ttlDays)
  {
    if rows != [] {
      var n := |rows| - 1;
      EvictedExactlyWhen(rows[..n], now, p, id);
      if i :| 0 <= i < |rows| && rows[i].id == id && TooOld(rows[i], now, p.ttlDays) {
        assert i < n ==> rows[..n][i] == rows[i];
      }
      if i :| 0 <= i < n && rows[..n][i].id == id && TooOld(rows[..n][i], now, p.ttlDays) {
        assert rows[i] == rows[..n][i];
      }
    }
  }

  ghost predicate PromotesAll(nodes: seq<Promotion>, clusters: seq<Cluster>, now: int, p: Policy) {
    && |nodes| == |clusters|
    && forall i | 0 <= i < |nodes| :: Promotes(nodes[i], clusters[i], now, p)
  }

  /** The stamps of the promoted rows, later nodes overriding earlier ones. */
  function Stamps(nodes: seq<Promotion>): map<Text, Text> {
    if nodes == [] then map[]
    else
      var n := |nodes| - 1;
      Stamps(nodes[..n]) + map id | id in nodes[n].sources :: nodes[n].id
  }

  function Upserted(store: map<Text, Promotion>, nodes: seq<Promotion>): map<Text, Promotion> {
    if nodes == [] then store
    else Upserted(store, nodes[..|nodes| - 1])[nodes[|nodes| - 1].id := nodes[|nodes| - 1]]
  }

  /** The rows after the commit: expired ones gone, promoted ones stamped, the others untouched and in place. */
  function Settled(rows: seq<Row>, stamps: map<Text, Text>, now: int, p: Policy): seq<Row> {
    if rows == [] then []
    else
      var n := |rows| - 1;
      var row := rows[n];
      Settled(rows[..n], stamps, now, p) +
      if Expired(row, now, p) then []
      else [Stamped(row, stamps)]
  }

  function Stamped(row: Row, stamps: map<Text, Text>): Row {
    if row.id in stamps then row.(consolidatedInto := stamps[row.id]) else row
  }

  function ExpiredIds(rows: seq<Row>, now: int, p: Policy): seq<Text> {
    if rows == [] then []
    else
      var n := |rows| - 1;
      ExpiredIds(rows[..n], now, p) + if Expired(rows[n], now, p) then [rows[n].id] else []
  }

  /** The clusters a pass promotes. */
  ghost function Due(rows: seq<Row>, p: Policy): seq<Cluster> {
    PromotedClusters(Clusters(Parseable(rows), p.tokens), p)
  }

  lemma {:induction false} ParseableIsDated(rows: seq<Row>)
    ensures Dated(Parseable(rows))
  {
    if rows != [] {
      ParseableIsDated(rows[..|rows| - 1]);
    }
  }

  lemma {:induction false} ClustersAreDated(rows: seq<Row>, tokens: Tokens)
    requires Dated(rows)
    ensures forall i | 0 <= i < |Clusters(rows, tokens)| :: Dated(Clusters(rows, tokens)[i])
  {
    if rows != [] {
      var n := |rows| - 1;
      ClustersAreDated(rows[..n], tokens);
      PlacedAreDated(Clusters(rows[..n], tokens), rows[n], tokens);
    }
  }

  lemma {:induction false} PlacedAreDated(clusters: seq<Cluster>, row: Row, tokens: Tokens)
    requires row.created.Some? && forall i | 0 <= i < |clusters| :: Dated(clusters[i])
    ensures forall i | 0 <= i < |Place(clusters, row, tokens)| :: Dated(Place(clusters, row, tokens)[i])
  {
    if clusters != [] && !NearDuplicate(row.text, clusters[0], tokens) {
      PlacedAreDated(clusters[1..], row, tokens);
    }
  }

  /** The nodes as promoted, with their lineage bound to the rows. */
  ghost predicate BoundAll(nodes: seq<Promotion>, promoted: seq<Promotion>, rows: seq<Row>) {
    && |nodes| == |promoted|
    && forall i | 0 <= i < |nodes| :: IsBound(nodes[i], rows) && nodes[i] == promoted[i].(lineage := nodes[i].lineage)
  }

  ghost predicate AllUnbound(nodes: seq<Promotion>) {
    forall i | 0 <= i < |nodes| :: nodes[i].lineage.Unbound?
  }

  lemma BoundStillPromotes(nodes: seq<Promotion>, promoted: seq<Promotion>, rows: seq<Row>, clusters: seq<Cluster>,
                           now: int, p: Policy)
    requires BoundAll(nodes, promoted, rows) && PromotesAll(promoted, clusters, now, p)
    ensures PromotesAll(nodes, clusters, now, p)
  {
    forall i | 0 <= i < |nodes|
      ensures Promotes(nodes[i], clusters[i], now, p)
    {
      assert Promotes(promoted[i], clusters[i], now, p);
    }
  }

  lemma {:induction false} BoundHaveSameStamps(nodes: seq<Promotion>, promoted: seq<Promotion>, rows: seq<Row>)
    requires BoundAll(nodes, promoted, rows)
    ensures Stamps(nodes) == Stamps(promoted)
  {
    if nodes != [] {
      var n := |nodes| - 1;
      BoundHaveSameStamps(nodes[..n], promoted[..n], rows);
    }
  }

  /** What goes wrong while a pass commits: an upsert raises, or the durable publication at the end does. */
  datatype Failure = NoFailure | UpsertRaises(at: nat) | PublishRaises

  /** How many of the nodes are upserted. */
  ghost function Upserts(found: seq<Promotion>, failure: Failure): nat {
    if failure.UpsertRaises? && failure.at < |found| then failure.at else |found|
  }

  datatype Report = Report(skipped: nat, clusters: nat, promoted: seq<Text>, evicted: seq<Text>, commitFailed: bool)

  class ParagraphStore {
    /** The episodic rows, in insertion order. */
    var paragraphs: seq<Row>
    /** The typed nodes by id. */
    var nodes: map<Text, Promotion>

    constructor (paragraphs: seq<Row>, nodes: map<Text, Promotion>)
      ensures this.paragraphs == paragraphs && this.nodes == nodes
    {
      this.paragraphs, this.nodes := paragraphs, nodes;
    }

    /** `consolidate`.  If the upsert of a node raises, the nodes before it stay upserted and no row is touched;
        if the publication raises, all changes have been made to the resident state.  Either way nothing is
        reported as promoted or evicted.  `promoted` are the nodes found, `committed` those upserted, with their
        lineage. */
    method Consolidate(now: int, p: Policy, failure: Failure)
      returns (report: Report, ghost promoted: seq<Promotion>, ghost committed: seq<Promotion>)
      modifies this
      ensures PromotesAll(promoted, Due(old(paragraphs), p), now, p)
      ensures |committed| == Upserts(promoted, failure)
      ensures BoundAll(committed, promoted[..|committed|], old(paragraphs))
      ensures nodes == Upserted(old(nodes), committed)
      ensures if |committed| < |promoted| then paragraphs == old(paragraphs)
              else
                && PromotesAll(committed, Due(old(paragraphs), p), now, p)
                && paragraphs == Settled(old(paragraphs), Stamps(committed), now, p)
      ensures report.commitFailed <==>
                || |committed| < |promoted|
                || (failure.PublishRaises? && (promoted != [] || ExpiredIds(old(paragraphs), now, p) != []))
      ensures report.promoted == if report.commitFailed then [] else NodeIds(promoted)
      ensures !report.commitFailed ==>
                && |report.promoted| == |promoted|
                && forall i | 0 <= i < |promoted| :: report.promoted[i] == promoted[i].id
      ensures report.evicted == if report.commitFailed then [] else ExpiredIds(old(paragraphs), now, p)
      ensures !report.commitFailed ==>
                forall id :: id in report.evicted <==>
                  exists i :: 0 <= i < |old(paragraphs)| && old(paragraphs)[i].id == id
                              && TooOld(old(paragraphs)[i], now, p.ttlDays)
      ensures report.skipped == |old(paragraphs)| - |Parseable(old(paragraphs))|
      ensures report.clusters == |Clusters(Parseable(old(paragraphs)), p.tokens)|
    {
      var rows := paragraphs;
      var parseable := Read(rows);
      ParseableIsDated(rows);
      var clusters := ClusterRows(parseable, p.tokens);
      ClustersAreDated(parseable, p.tokens);
      ClustersAreNotEmpty(parseable, p.tokens);
      var found := PromoteAll(clusters, now, p);
      var evicted := FindExpired(rows, now, p);
      promoted, committed := found, [];
      forall id {
        EvictedExactlyWhen(rows, now, p, id);
      }
      hide TooOld;
      report := Report(|rows| - |parseable|, |clusters|, [], [], false);
      if found == [] && evicted == [] {
        NothingSettles(rows, now, p);
        return;
      }
      var done;
      done, committed := Commit(found, now, p, failure);
      if |committed| == |found| {
        assert found[..|committed|] == found;
        BoundStillPromotes(committed, found, rows, Due(rows, p), now, p);
      }
      if !done {
        report := report.(commitFailed := true);
        return;
      }
      report := report.(promoted := NodeIds(found), evicted := evicted);
    }

    /** The commit: bind and upsert the nodes, drop the expired rows, stamp the promoted ones, publish. */
    method Commit(found: seq<Promotion>, now: int, p: Policy, failure: Failure)
      returns (done: bool, ghost committed: seq<Promotion>)
      requires AllUnbound(found)
      modifies this
      ensures |committed| == Upserts(found, failure)
      ensures done <==> |committed| == |found| && !failure.PublishRaises?
      ensures BoundAll(committed, found[..|committed|], old(paragraphs))
      ensures nodes == Upserted(old(nodes), committed)
      ensures paragraphs ==
              if |committed| < |found| then old(paragraphs)
              else Settled(old(paragraphs), Stamps(committed), now, p)
    {
      done, committed := UpsertAll(found, failure);
      if done {
        assert found[..|committed|] == found;
        BoundHaveSameStamps(committed, found, paragraphs);
        paragraphs := Settle(paragraphs, Stamps(found), now, p);
        done := !failure.PublishRaises?;
      }
    }

    /** The upserts, up to one that raises. */
    method UpsertAll(found: seq<Promotion>, failure: Failure) returns (done: bool, ghost committed: seq<Promotion>)
      requires AllUnbound(found)
      modifies this`nodes
      ensures |committed| == Upserts(found, failure)
      ensures done <==> |committed| == |found|
      ensures BoundAll(committed, found[..|committed|], paragraphs)
      ensures nodes == Upserted(old(nodes), committed)
    {
      hide IsBound;
      committed := [];
      for i := 0 to |found|
        invariant |committed| == i && BoundAll(committed, found[..i], paragraphs)
        invariant failure.UpsertRaises? ==> i <= failure.at
        invariant nodes == Upserted(old(nodes), committed)
      {
        var node := BindLineage(found[i], paragraphs);
        if failure == UpsertRaises(i) {
          return false, committed;
        }
        nodes := nodes[node.id := node];
        BoundOneMore(committed, node, found, i, paragraphs);
        committed := committed + [node];
        assert committed[..i] + [node] == committed;
      }
      return true, committed;
    }
  }

  lemma BoundOneMore(committed: seq<Promotion>, node: Promotion, found: seq<Promotion>, i: nat, rows: seq<Row>)
    requires i < |found| && BoundAll(committed, found[..i], rows)
    requires IsBound(node, rows) && node == found[i].(lineage := node.lineage)
    ensures BoundAll(committed + [node], found[..i + 1], rows)
    ensures |committed| == i && (committed + [node])[..i] == committed
  {
    hide IsBound;
    assert forall j | 0 <= j < i :: found[..i][j] == found[..i + 1][j];
  }

  function NodeIds(nodes: seq<Promotion>): seq<Text> {
    seq(|nodes|, i requires 0 <= i < |nodes| => nodes[i].id)
  }

  method Settle(rows: seq<Row>, stamps: map<Text, Text>, now: int, p: Policy) returns (settled: seq<Row>)
    ensures settled == Settled(rows, stamps, now, p)
  {
    settled := [];
    for i := 0 to |rows|
      invariant settled == Settled(rows[..i], stamps, now, p)
    {
      var row := rows[i];
      assert rows[..i + 1][..i] == rows[..i];
      if !Expired(row, now, p) {
        settled := settled + [Stamped(row, stamps)];
      }
    }
    assert rows[..|rows|] == rows;
  }

  method Read(rows: seq<Row>) returns (parseable: seq<Row>)
    ensures parseable == Parseable(rows) && |parseable| <= |rows|
  {
    parseable := [];
    for i := 0 to |rows|
      invariant parseable == Parseable(rows[..i]) && |parseable| <= i
    {
      assert rows[..i + 1][..i] == rows[..i];
      if rows[i].created.Some? {
        parseable := parseable + [rows[i]];
      }
    }
    assert rows[..|rows|] == rows;
  }

  method PromoteAll(clusters: seq<Cluster>, now: int, p: Policy) returns (nodes: seq<Promotion>)
    requires forall i | 0 <= i < |clusters| :: clusters[i] != [] && Dated(clusters[i])
    ensures PromotesAll(nodes, PromotedClusters(clusters, p), now, p) && AllUnbound(nodes)
  {
    nodes := [];
    for i := 0 to |clusters|
      invariant PromotesAll(nodes, PromotedClusters(clusters[..i], p), now, p) && AllUnbound(nodes)
    {
      assert clusters[..i + 1][..i] == clusters[..i];
      var promotion := Promote(clusters[i], now, p);
      if promotion.Some? {
        nodes := nodes + [promotion.value];
      }
    }
    assert clusters[..|clusters|] == clusters;
  }

  method FindExpired(rows: seq<Row>, now: int, p: Policy) returns (ids: seq<Text>)
    ensures ids == ExpiredIds(rows, now, p)
  {
    ids := [];
    for i := 0 to |rows|
      invariant ids == ExpiredIds(rows[..i], now, p)
    {
      assert rows[..i + 1][..i] == rows[..i];
      if Expired(rows[i], now, p) {
        ids := ids + [rows[i].id];
      }
    }
    assert rows[..|rows|] == rows;
  }

  lemma {:induction false} NothingSettles(rows: seq<Row>, now: int, p: Policy)
    requires ExpiredIds(rows, now, p) == []
    ensures Settled(rows, map[], now, p) == rows
  {
    if rows != [] {
      var n := |rows| - 1;
      NothingSettles(rows[..n], now, p);
      assert rows == rows[..n] + [rows[n]];
    }
  }
}
