/** The maintenance pass over facts: expire, then keep the newest currently-valid fact of each slot. */
module ImproveFacts {
  import opened Numbers
  import opened Options
  import opened TextOrder

  /** The shelf life of a fact; a malformed one never expires it. */
  datatype Shelf = NoShelf | Malformed | Until(time: int)

  /** The slot is the stripped, lower-cased pair of subject and predicate. */
  datatype Slot = Slot(subject: string, predicate_: string)

  datatype Fact = Fact(
    id: Id,
    slot: Slot,
    updatedAt: string,
    validUntil: Shelf,
    invalidAt: Option<string>,
    claim: string)

  const LIST_LIMIT := 100_000

  predicate Expired(fact: Fact, clock: int) {
    fact.invalidAt.None? && fact.validUntil.Until? && fact.validUntil.time <= clock
  }

  /** Currently valid, and not past its shelf life: what the pass buckets by slot. */
  predicate Live(fact: Fact, clock: int) {
    fact.invalidAt.None? && !Expired(fact, clock)
  }

  /** `facts[i]` outranks `facts[j]`: updated later, or listed earlier with the same stamp. */
  ghost predicate Outranks(facts: seq<Fact>, i: nat, j: nat)
    requires i < |facts| && j < |facts|
  {
    Less(facts[j].updatedAt, facts[i].updatedAt) || (facts[i].updatedAt == facts[j].updatedAt && i < j)
  }

  lemma OutranksIsStrictTotalOrder(facts: seq<Fact>, i: nat, j: nat, k: nat)
    requires i < |facts| && j < |facts| && k < |facts|
    ensures !Outranks(facts, i, i)
    ensures i == j || Outranks(facts, i, j) || Outranks(facts, j, i)
    ensures Outranks(facts, i, j) && Outranks(facts, j, k) ==> Outranks(facts, i, k)
  {
    LessIsStrictTotalOrder(facts[i].updatedAt, facts[j].updatedAt, facts[k].updatedAt);
    LessIsStrictTotalOrder(facts[k].updatedAt, facts[j].updatedAt, facts[i].updatedAt);
    LessIsStrictTotalOrder(facts[j].updatedAt, facts[i].updatedAt, facts[j].updatedAt);
  }

  /** Some live fact of the same slot outranks `facts[i]`. */
  ghost predicate Superseded(facts: seq<Fact>, i: nat, clock: int)
    requires i < |facts|
  {
    exists j :: 0 <= j < |facts| && Live(facts[j], clock) && facts[j].slot == facts[i].slot && Outranks(facts, j, i)
  }

  /** What the pass makes of the `i`-th listed fact. */
  ghost function Maintained(facts: seq<Fact>, i: nat, clock: int, stamp: string): Fact
    requires i < |facts|
  {
    if Expired(facts[i], clock) || (Live(facts[i], clock) && Superseded(facts, i, clock)) then
      facts[i].(invalidAt := Some(stamp))
    else facts[i]
  }

  /** The facts that the pass supersedes, and those it expires. */
  ghost function LoserSet(facts: seq<Fact>, clock: int): set<nat> {
    set i: nat | i < |facts| && Live(facts[i], clock) && Superseded(facts, i, clock)
  }

  ghost function ExpiredSet(facts: seq<Fact>, clock: int): set<nat> {
    set i: nat | i < |facts| && Expired(facts[i], clock)
  }

  ghost function Improved(facts: seq<Fact>, clock: int, stamp: string): seq<Fact> {
    seq(|facts|, i requires 0 <= i < |facts| => Maintained(facts, i, clock, stamp))
  }

  // ----- what the pass guarantees -----

  /** At most one fact of a slot stays valid; it is one that was live, and none that was live is newer. */
  lemma AtMostOneValidPerSlot(facts: seq<Fact>, clock: int, stamp: string, i: nat)
    requires i < |facts| && Improved(facts, clock, stamp)[i].invalidAt.None?
    ensures var improved := Improved(facts, clock, stamp);
            && improved[i] == facts[i] && Live(facts[i], clock)
            && (forall j | 0 <= j < |facts| && j != i && facts[j].slot == facts[i].slot :: improved[j].invalidAt.Some?)
            && (forall j | 0 <= j < |facts| && Live(facts[j], clock) && facts[j].slot == facts[i].slot ::
                  !Less(facts[i].updatedAt, facts[j].updatedAt))
  {
    var improved := Improved(facts, clock, stamp);
    forall j | 0 <= j < |facts| && facts[j].slot == facts[i].slot
      ensures j != i ==> improved[j].invalidAt.Some?
      ensures Live(facts[j], clock) ==> !Less(facts[i].updatedAt, facts[j].updatedAt)
    {
      OutranksIsStrictTotalOrder(facts, i, j, i);
      LessIsStrictTotalOrder(facts[i].updatedAt, facts[j].updatedAt, facts[i].updatedAt);
    }
  }

  lemma {:induction false} BestOf(facts: seq<Fact>, members: set<nat>) returns (best: nat)
    requires members != {} && forall i | i in members :: i < |facts|
    ensures best in members && forall i | i in members && i != best :: Outranks(facts, best, i)
  {
    var x :| x in members;
    if members == {x} {
      best := x;
    } else {
      var rest := members - {x};
      assert rest != {};
      best := BestOf(facts, rest);
      OutranksIsStrictTotalOrder(facts, best, x, x);
      if Outranks(facts, x, best) {
        forall i | i in rest && i != best {
          OutranksIsStrictTotalOrder(facts, x, best, i);
        }
        best := x;
      }
    }
  }

  /** A slot with a live fact keeps one: maintenance never empties a slot that has something to say. */
  lemma LiveSlotKeepsOne(facts: seq<Fact>, clock: int, stamp: string, i: nat)
    requires i < |facts| && Live(facts[i], clock)
    ensures exists j ::
              0 <= j < |facts| && facts[j].slot == facts[i].slot && Improved(facts, clock, stamp)[j].invalidAt.None?
  {
    var members := set j: nat | j < |facts| && Live(facts[j], clock) && facts[j].slot == facts[i].slot;
    assert i in members;
    var best := BestOf(facts, members);
    forall j | 0 <= j < |facts| && Live(facts[j], clock) && facts[j].slot == facts[best].slot
      ensures !Outranks(facts, j, best)
    {
      assert j in members;
      OutranksIsStrictTotalOrder(facts, best, j, best);
    }
    assert Improved(facts, clock, stamp)[best].invalidAt.None?;
  }

  /** Nothing is removed or reordered, already-invalid facts are untouched, and only `invalidAt` changes. */
  lemma HistoryIsKept(facts: seq<Fact>, clock: int, stamp: string, i: nat)
    requires i < |facts|
    ensures var improved := Improved(facts, clock, stamp);
            && |improved| == |facts|
            && improved[i].(invalidAt := facts[i].invalidAt) == facts[i]
            && (facts[i].invalidAt.Some? ==> improved[i] == facts[i])
  {
  }

  /** A second pass at the same clock changes nothing. */
  lemma ImproveIsIdempotent(facts: seq<Fact>, clock: int, stamp: string)
    ensures var improved := Improved(facts, clock, stamp); Improved(improved, clock, stamp) == improved
  {
    var improved := Improved(facts, clock, stamp);
    forall i | 0 <= i < |improved|
      ensures Maintained(improved, i, clock, stamp) == improved[i]
    {
      if Live(improved[i], clock) {
        AtMostOneValidPerSlot(facts, clock, stamp, i);
        OutranksIsStrictTotalOrder(improved, i, i, i);
      }
    }
  }

  // ----- the listing limit -----

  /** The whole store after a pass: only the first `LIST_LIMIT` facts are listed and maintained. */
  ghost function Stored(facts: seq<Fact>, clock: int, stamp: string): seq<Fact> {
    var n := Min(LIST_LIMIT, |facts|);
    Improved(facts[..n], clock, stamp) + facts[n..]
  }

  ghost predicate OneValidPerSlot(facts: seq<Fact>) {
    forall i, j | 0 <= i < j < |facts| && facts[i].invalidAt.None? && facts[j].invalidAt.None? ::
      facts[i].slot != facts[j].slot
  }

  /** `facts[j]` is past the limit and valid, and its slot has a live listed fact or an earlier valid fact past
      the limit. */
  ghost predicate Overlooked(facts: seq<Fact>, clock: int, i: nat, j: nat)
    requires i < j < |facts|
  {
    && LIST_LIMIT <= j && facts[j].invalidAt.None? && facts[i].slot == facts[j].slot
    && if i < LIST_LIMIT then Live(facts[i], clock) else facts[i].invalidAt.None?
  }

  /** Every slot of the whole store is left with at most one valid fact exactly if no fact is overlooked. */
  lemma OnePerSlotExactlyWhen(facts: seq<Fact>, clock: int, stamp: string)
    ensures OneValidPerSlot(Stored(facts, clock, stamp)) <==>
              forall i, j | 0 <= i < j < |facts| :: !Overlooked(facts, clock, i, j)
  {
    var stored := Stored(facts, clock, stamp);
    if OneValidPerSlot(stored) {
      forall i, j | 0 <= i < j < |facts|
        ensures !Overlooked(facts, clock, i, j)
      {
        assert LIST_LIMIT <= j ==> stored[j] == facts[j];
        if Overlooked(facts, clock, i, j) {
          var k := OverlookedRival(facts, clock, stamp, i, j);
        }
      }
    } else {
      var i, j :|
        && 0 <= i < j < |stored|
        && stored[i].invalidAt.None? && stored[j].invalidAt.None? && stored[i].slot == stored[j].slot;
      ValidPairIsOverlooked(facts, clock, stamp, i, j);
    }
  }

  lemma OverlookedRival(facts: seq<Fact>, clock: int, stamp: string, i: nat, j: nat) returns (k: nat)
    requires i < j < |facts| && Overlooked(facts, clock, i, j)
    ensures k < j && Stored(facts, clock, stamp)[k].invalidAt.None?
    ensures Stored(facts, clock, stamp)[k].slot == facts[j].slot
  {
    if i < LIST_LIMIT {
      var listed := facts[..LIST_LIMIT];
      LiveSlotKeepsOne(listed, clock, stamp, i);
      k :| 0 <= k < |listed| && listed[k].slot == listed[i].slot && Improved(listed, clock, stamp)[k].invalidAt.None?;
    } else {
      k := i;
    }
  }

  lemma ValidPairIsOverlooked(facts: seq<Fact>, clock: int, stamp: string, i: nat, j: nat)
    requires i < j < |facts|
    requires var stored := Stored(facts, clock, stamp);
             stored[i].invalidAt.None? && stored[j].invalidAt.None? && stored[i].slot == stored[j].slot
    ensures Overlooked(facts, clock, i, j)
  {
    var n := Min(LIST_LIMIT, |facts|);
    if i < n {
      AtMostOneValidPerSlot(facts[..n], clock, stamp, i);
      assert j >= n;
    }
  }

  /** Its shelf life can be read and has come to an end. */
  ghost predicate RunOut(fact: Fact, clock: int) {
    match fact.validUntil
    case NoShelf => false
    case Malformed => false
    case Until(time) => time <= clock
  }

  /** `facts[j]` is listed, valid and in date, about the same slot as `facts[i]`, and updated later, or at the same time
      but listed earlier. */
  ghost predicate Rivals(facts: seq<Fact>, i: nat, j: nat, clock: int)
    requires i < |facts| && j < |facts|
  {
    && j < 100_000 && facts[j].invalidAt.None? && !RunOut(facts[j], clock) && facts[j].slot == facts[i].slot
    && (Less(facts[i].updatedAt, facts[j].updatedAt) || (facts[i].updatedAt == facts[j].updatedAt && j < i))
  }

  /** Which valid facts of the store stay valid: those past the listing limit, and the listed ones that have not run
      out and have no rival.  The others are stamped; nothing else changes. */
  lemma StaysValidExactlyWhen(facts: seq<Fact>, clock: int, stamp: string, i: nat)
    requires i < |facts| && facts[i].invalidAt.None?
    ensures var stored := Stored(facts, clock, stamp);
            && |stored| == |facts|
            && stored[i] ==
               if
                 || i >= 100_000
                 || (!RunOut(facts[i], clock) && forall j | 0 <= j < |facts| :: !Rivals(facts, i, j, clock))
               then facts[i] else facts[i].(invalidAt := Some(stamp))
  {
    var n := Min(LIST_LIMIT, |facts|);
    if i < n {
      var listed := facts[..n];
      if Live(listed[i], clock) && Superseded(listed, i, clock) {
        var j :|
          0 <= j < |listed| && Live(listed[j], clock) && listed[j].slot == listed[i].slot && Outranks(listed, j, i);
        assert Rivals(facts, i, j, clock);
      }
      if j :| 0 <= j < |facts| && Rivals(facts, i, j, clock) {
        assert Live(listed[j], clock) && Outranks(listed, j, i);
      }
    }
  }

  /** A listed fact left valid is in date. */
  lemma ValidIsInDate(facts: seq<Fact>, clock: int, stamp: string, i: nat)
    requires i < |facts| && i < 100_000 && Stored(facts, clock, stamp)[i].invalidAt.None?
    ensures facts[i].validUntil.Until? ==> clock < facts[i].validUntil.time
  {
    if facts[i].invalidAt.None? {
      StaysValidExactlyWhen(facts, clock, stamp, i);
    }
  }

  /** What a pass reports: the listed valid facts that had run out, and the other ones that it stamped. */
  lemma ReportedCounts(facts: seq<Fact>, clock: int, stamp: string)
    ensures var (listed, stored) := (facts[..Min(LIST_LIMIT, |facts|)], Stored(facts, clock, stamp));
            && |stored| == |facts|
            && ExpiredSet(listed, clock) ==
               (set i: nat | i < |facts| && i < 100_000 && facts[i].invalidAt.None? && RunOut(facts[i], clock))
            && LoserSet(listed, clock) ==
               (set i: nat | && i < |facts| && facts[i].invalidAt.None? && !RunOut(facts[i], clock)
                             && stored[i].invalidAt.Some?)
  {
  }

  /** An example: one more valid fact about one slot than the listing takes. */
  lemma UnlistedFactStaysValid(slot: Slot, clock: int, stamp: string) returns (facts: seq<Fact>)
    ensures |facts| == LIST_LIMIT + 1 && DistinctFactIds(facts)
    ensures !OneValidPerSlot(Stored(facts, clock, stamp))
  {
    facts := seq(LIST_LIMIT + 1, i requires 0 <= i => Fact(seq(i, _ => 'x'), slot, "", NoShelf, None, ""));
    forall i, j | 0 <= i < j < |facts|
      ensures facts[i].id != facts[j].id
    {
      assert |facts[i].id| == i && |facts[j].id| == j;
    }
    assert Overlooked(facts, clock, 0, LIST_LIMIT);
    OnePerSlotExactlyWhen(facts, clock, stamp);
  }

  // ----- the store -----

  ghost predicate DistinctFactIds(facts: seq<Fact>) {
    forall i, j | 0 <= i < j < |facts| :: facts[i].id != facts[j].id
  }

  class FactStore {
    var facts: seq<Fact>

    constructor (facts: seq<Fact>)
      ensures this.facts == facts
    {
      this.facts := facts;
    }

    /** `add_fact`: replaces the fact with the same id, or appends. */
    method AddFact(fact: Fact)
      requires DistinctFactIds(facts)
      modifies this
      ensures if exists i :: 0 <= i < |old(facts)| && old(facts)[i].id == fact.id then
                |facts| == |old(facts)| &&
                forall i | 0 <= i < |facts| ::
                  facts[i] == if old(facts)[i].id == fact.id then fact else old(facts)[i]
              else facts == old(facts) + [fact]
    {
      for i := 0 to |facts|
        invariant facts == old(facts)
        invariant forall j | 0 <= j < i :: facts[j].id != fact.id
      {
        if facts[i].id == fact.id {
          facts := facts[i := fact];
          return;
        }
      }
      facts := facts + [fact];
    }

    /** `improve_facts`: at most `LIST_LIMIT` facts are listed and maintained; what lies beyond stays as it is. */
    method Improve(clock: int, stamp: string) returns (deduplicated: nat, expired: nat)
      requires DistinctFactIds(facts)
      modifies this
      ensures var n := Min(LIST_LIMIT, |old(facts)|);
              && facts == Stored(old(facts), clock, stamp)
              && deduplicated == |LoserSet(old(facts)[..n], clock)|
              && expired == |ExpiredSet(old(facts)[..n], clock)|
      ensures && |facts| == |old(facts)|
              && expired == |set i: nat | && i < |facts| && i < 100_000 && old(facts)[i].invalidAt.None?
                                          && RunOut(old(facts)[i], clock)|
              && deduplicated == |set i: nat | && i < |facts| && old(facts)[i].invalidAt.None?
                                               && !RunOut(old(facts)[i], clock) && facts[i].invalidAt.Some?|
    {
      ReportedCounts(facts, clock, stamp);
      var n := Min(LIST_LIMIT, |facts|);
      var listed := facts[..n];
      var buckets, expiredIndices := Bucket(listed, clock);
      var losers := Losers(listed, buckets, clock);
      deduplicated, expired := |losers|, |expiredIndices|;
      Persist(listed, losers + expiredIndices, stamp);
      assert facts[..n] == Improved(listed, clock, stamp);
      assert facts == facts[..n] + facts[n..];
    }

    /** The listed facts to update are stamped and written back one by one. */
    method Persist(listed: seq<Fact>, updates: seq<nat>, stamp: string)
      requires DistinctFactIds(facts) && listed <= facts && forall i | i in updates :: i < |listed|
      modifies this
      ensures |facts| == |old(facts)|
      ensures forall i | 0 <= i < |facts| ::
                facts[i] == if i in updates then old(facts)[i].(invalidAt := Some(stamp)) else old(facts)[i]
    {
      ghost var start := facts;
      for k := 0 to |updates|
        invariant |facts| == |start|
        invariant forall i | 0 <= i < |facts| ::
                    facts[i] == if i in updates[..k] then start[i].(invalidAt := Some(stamp)) else start[i]
      {
        var i := updates[k];
        assert i in updates;
        assert facts[i].id == start[i].id;
        label before:
        AddFact(listed[i].(invalidAt := Some(stamp)));
        assert updates[..k + 1] == updates[..k] + [i];
        forall j | 0 <= j < |facts|
          ensures facts[j] == if j in updates[..k + 1] then start[j].(invalidAt := Some(stamp)) else start[j]
        {
          assert old@before(facts)[j].id == start[j].id;
        }
      }
      assert updates[..|updates|] == updates;
    }
  }

  /** The pass over the listing: live facts by slot, in listing order, and the expired ones. */
  method Bucket(listed: seq<Fact>, clock: int) returns (buckets: map<Slot, seq<nat>>, expired: seq<nat>)
    ensures forall s | s in buckets :: IsBucket(buckets[s], listed, s, clock)
    ensures forall i | 0 <= i < |listed| && Live(listed[i], clock) :: listed[i].slot in buckets
    ensures forall i: nat :: i in expired <==> i < |listed| && Expired(listed[i], clock)
    ensures |expired| == |ExpiredSet(listed, clock)|
  {
    buckets, expired := map[], [];
    hide IsBucket;
    for i := 0 to |listed|
      invariant forall s | s in buckets :: IsBucket(buckets[s], listed[..i], s, clock)
      invariant forall j | 0 <= j < i && Live(listed[j], clock) :: listed[j].slot in buckets
      invariant forall j: nat :: j in expired <==> j < i && Expired(listed[j], clock)
      invariant NoRepeats(expired)
    {
      var fact := listed[i];
      BucketsGrow(buckets, listed, i, clock);
      if fact.invalidAt.Some? {
        continue;
      }
      if Expired(fact, clock) {
        expired := expired + [i];
        continue;
      }
      buckets := buckets[fact.slot := (if fact.slot in buckets then buckets[fact.slot] else []) + [i]];
    }
    assert listed[..|listed|] == listed;
    SizeOfListing(expired, ExpiredSet(listed, clock));
  }

  ghost predicate NoRepeats(s: seq<nat>) {
    forall a, b | 0 <= a < b < |s| :: s[a] != s[b]
  }

  lemma {:induction false} SizeOfListing(s: seq<nat>, members: set<nat>)
    requires NoRepeats(s) && forall i :: i in s <==> i in members
    ensures |s| == |members|
  {
    if s == [] {
      assert members == {};
    } else {
      var n := |s| - 1;
      assert s == s[..n] + [s[n]];
      SizeOfListing(s[..n], members - {s[n]});
    }
  }

  /** The live facts of a slot, each once, in listing order. */
  ghost predicate IsBucket(bucket: seq<nat>, listed: seq<Fact>, s: Slot, clock: int) {
    && (forall a, b | 0 <= a < b < |bucket| :: bucket[a] < bucket[b])
    && (forall i: nat :: i in bucket <==> i < |listed| && Live(listed[i], clock) && listed[i].slot == s)
  }

  /** A slot's bucket after the `i`-th fact has been seen. */
  function Extended(bucket: seq<nat>, listed: seq<Fact>, i: nat, s: Slot, clock: int): seq<nat>
    requires i < |listed|
  {
    if Live(listed[i], clock) && listed[i].slot == s then bucket + [i] else bucket
  }

  lemma BucketsGrow(buckets: map<Slot, seq<nat>>, listed: seq<Fact>, i: nat, clock: int)
    requires i < |listed| && forall s | s in buckets :: IsBucket(buckets[s], listed[..i], s, clock)
    requires forall j | 0 <= j < i && Live(listed[j], clock) :: listed[j].slot in buckets
    ensures forall s | s in buckets :: IsBucket(Extended(buckets[s], listed, i, s, clock), listed[..i + 1], s, clock)
    ensures var s := listed[i].slot;
            s !in buckets ==> IsBucket(Extended([], listed, i, s, clock), listed[..i + 1], s, clock)
  {
    forall s | s in buckets
      ensures IsBucket(Extended(buckets[s], listed, i, s, clock), listed[..i + 1], s, clock)
    {
      BucketGrows(buckets[s], listed, i, s, clock);
    }
    if listed[i].slot !in buckets {
      BucketGrows([], listed, i, listed[i].slot, clock);
    }
  }

  lemma BucketGrows(bucket: seq<nat>, listed: seq<Fact>, i: nat, s: Slot, clock: int)
    requires i < |listed| && IsBucket(bucket, listed[..i], s, clock)
    ensures IsBucket(Extended(bucket, listed, i, s, clock), listed[..i + 1], s, clock)
  {
    assert forall a | 0 <= a < |bucket| :: bucket[a] in bucket;
    assert forall j | 0 <= j < i :: listed[..i + 1][j] == listed[..i][j];
  }

  /** All but the first of each sorted bucket. */
  method Losers(listed: seq<Fact>, buckets: map<Slot, seq<nat>>, clock: int) returns (losers: seq<nat>)
    requires forall s | s in buckets :: IsBucket(buckets[s], listed, s, clock)
    requires forall i | 0 <= i < |listed| && Live(listed[i], clock) :: listed[i].slot in buckets
    ensures forall i: nat :: i in losers <==> i < |listed| && Live(listed[i], clock) && Superseded(listed, i, clock)
    ensures |losers| == |LoserSet(listed, clock)|
  {
    losers := [];
    var todo := buckets.Keys;
    while todo != {}
      invariant todo <= buckets.Keys
      invariant forall i: nat :: i in losers <==>
          i < |listed| && Live(listed[i], clock) && listed[i].slot !in todo && Superseded(listed, i, clock)
      invariant NoRepeats(losers)
      decreases todo
    {
      var s :| s in todo;
      todo := todo - {s};
      assert forall a | 0 <= a < |buckets[s]| :: buckets[s][a] in buckets[s];
      var sorted := SortBucket(listed, buckets[s]);
      LosersOfSlot(listed, buckets[s], sorted, s, clock);
      if |sorted| >= 2 {
        MoreLosers(listed, losers, sorted);
        losers := losers + sorted[1..];
      }
    }
    SizeOfListing(losers, LoserSet(listed, clock));
  }

  lemma MoreLosers(listed: seq<Fact>, losers: seq<nat>, sorted: seq<nat>)
    requires NoRepeats(losers) && IsRanking(sorted, listed) && sorted != []
    requires forall i | i in losers :: i !in sorted
    ensures NoRepeats(losers + sorted[1..])
  {
    var all := losers + sorted[1..];
    forall a, b | 0 <= a < b < |all|
      ensures all[a] != all[b]
    {
      if a < |losers| && b >= |losers| {
        assert losers[a] in losers && sorted[b - |losers| + 1] in sorted;
      } else if a >= |losers| {
        OutranksIsStrictTotalOrder(listed, all[a], all[a], all[a]);
        assert Outranks(listed, sorted[a - |losers| + 1], sorted[b - |losers| + 1]);
      }
    }
  }

  /** `bucket.sort(key=updated, reverse=True)`: newest first, listing order among equals. */
  method SortBucket(listed: seq<Fact>, bucket: seq<nat>) returns (sorted: seq<nat>)
    requires forall a | 0 <= a < |bucket| :: bucket[a] < |listed|
    requires forall a, b | 0 <= a < b < |bucket| :: bucket[a] < bucket[b]
    ensures IsRanking(sorted, listed) && forall i :: i in sorted <==> i in bucket
  {
    sorted := [];
    for k := 0 to |bucket|
      invariant IsRanking(sorted, listed)
      invariant forall i :: i in sorted <==> i in bucket[..k]
    {
      sorted := InsertRanked(listed, sorted, bucket[k]);
    }
    assert bucket[..|bucket|] == bucket;
  }

  ghost predicate IsRanking(sorted: seq<nat>, listed: seq<Fact>) {
    && (forall a | 0 <= a < |sorted| :: sorted[a] < |listed|)
    && (forall a, b | 0 <= a < b < |sorted| :: Outranks(listed, sorted[a], sorted[b]))
  }

  method InsertRanked(listed: seq<Fact>, sorted: seq<nat>, x: nat) returns (result: seq<nat>)
    requires IsRanking(sorted, listed) && x < |listed| && x !in sorted
    ensures IsRanking(result, listed) && forall i :: i in result <==> i == x || i in sorted
  {
    var k := |sorted|;
    var found := false;
    while k > 0 && !found
      invariant 0 <= k <= |sorted|
      invariant forall a | k <= a < |sorted| :: Outranks(listed, x, sorted[a])
      invariant found ==> k > 0 && Outranks(listed, sorted[k - 1], x)
      decreases k, !found
    {
      var y := sorted[k - 1];
      assert y in sorted;
      OutranksIsStrictTotalOrder(listed, y, x, x);
      var newer := IsLess(listed[y].updatedAt, listed[x].updatedAt);
      if newer || (listed[x].updatedAt == listed[y].updatedAt && x < y) {
        k := k - 1;
      } else {
        found := true;
      }
    }
    result := sorted[..k] + [x] + sorted[k..];
    RankedInsertion(listed, sorted, x, k);
  }

  lemma RankedInsertion(listed: seq<Fact>, sorted: seq<nat>, x: nat, k: nat)
    requires IsRanking(sorted, listed) && x < |listed| && k <= |sorted|
    requires forall a | k <= a < |sorted| :: Outranks(listed, x, sorted[a])
    requires k > 0 ==> Outranks(listed, sorted[k - 1], x)
    ensures var result := sorted[..k] + [x] + sorted[k..];
            IsRanking(result, listed) && forall i :: i in result <==> i == x || i in sorted
  {
    forall a | 0 <= a < k
      ensures Outranks(listed, sorted[a], x)
    {
      OutranksIsStrictTotalOrder(listed, sorted[a], sorted[k - 1], x);
    }
    hide Outranks;
    var result := sorted[..k] + [x] + sorted[k..];
    forall a | 0 <= a < |result|
      ensures result[a] == if a < k then sorted[a] else if a == k then x else sorted[a - 1]
    {
    }
    forall a, b | 0 <= a < b < |result|
      ensures result[a] < |listed| && result[b] < |listed| && Outranks(listed, result[a], result[b])
    {
      if a < k && b == k {
        assert Outranks(listed, sorted[a], x);
      } else if a == k {
        assert Outranks(listed, x, sorted[b - 1]);
      } else {
        assert Outranks(listed, sorted[if a < k then a else a - 1], sorted[if b < k then b else b - 1]);
      }
    }
    InsertedMembers(sorted, x, k);
  }

  lemma InsertedMembers(sorted: seq<nat>, x: nat, k: nat)
    requires k <= |sorted|
    ensures forall i :: i in sorted[..k] + [x] + sorted[k..] <==> i == x || i in sorted
  {
    assert sorted == sorted[..k] + sorted[k..];
  }

  lemma LosersOfSlot(listed: seq<Fact>, bucket: seq<nat>, sorted: seq<nat>, s: Slot, clock: int)
    requires IsBucket(bucket, listed, s, clock) && IsRanking(sorted, listed) && forall i :: i in sorted <==> i in bucket
    ensures forall i: nat | i < |listed| && Live(listed[i], clock) && listed[i].slot == s ::
              Superseded(listed, i, clock) <==> |sorted| >= 2 && i in sorted[1..]
    ensures forall i | i in sorted :: i < |listed| && Live(listed[i], clock) && listed[i].slot == s
  {
    forall i: nat | i < |listed| && Live(listed[i], clock) && listed[i].slot == s
      ensures Superseded(listed, i, clock) <==> |sorted| >= 2 && i in sorted[1..]
    {
      assert i in sorted;
      var a :| 0 <= a < |sorted| && sorted[a] == i;
      if a > 0 {
        assert sorted[1..][a - 1] == i;
        assert sorted[0] in sorted;
        assert Outranks(listed, sorted[0], i);
      } else {
        forall j: nat | j < |listed| && Live(listed[j], clock) && listed[j].slot == s
          ensures !Outranks(listed, j, i)
        {
          assert j in sorted;
          var b :| 0 <= b < |sorted| && sorted[b] == j;
          OutranksIsStrictTotalOrder(listed, i, j, i);
        }
        forall b | 0 <= b < |sorted| - 1
          ensures sorted[1..][b] != i
        {
          OutranksIsStrictTotalOrder(listed, i, i, i);
        }
      }
    }
  }
}
