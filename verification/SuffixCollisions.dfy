/** Exchanges under colliding union suffixes: when they settle, and when they never do. */
module SuffixCollisions {
  import opened Numbers
  import opened Options
  import opened TextOrder
  import opened VersionVectors
  import opened MeshObjects
  import opened Reconciliation
  import opened Convergence

  // ----- a suffix collision that runs away -----

  /** Both replicas after `n` exchanges. */
  ghost function AfterExchanges(a: Replica, b: Replica, n: nat, suffix: Suffix): (Replica, Replica)
    requires FixedWidth(suffix)
    decreases n
  {
    if n == 0 then (a, b) else AfterExchanges(Pull(a, b, suffix), Pull(b, a, suffix), n - 1, suffix)
  }

  /** `id`, with the same union suffix appended `n` times. */
  function UnionChain(id: Id, digits: string, n: nat): Id {
    if n == 0 then id else UnionChain(id, digits, n - 1) + "~" + digits
  }

  lemma {:induction false} LongerChain(id: Id, digits: string, n: nat)
    ensures UnionChain(id + "~" + digits, digits, n) == UnionChain(id, digits, n + 1)
  {
    if n > 0 {
      LongerChain(id, digits, n - 1);
    }
  }

  ghost predicate ChainIsFree(a: Replica, b: Replica, id: Id, digits: string) {
    forall n: nat | n > 0 :: UnionChain(id, digits, n) !in a.Keys + b.Keys
  }

  /** Unless an id is in its way, the collision never settles: every further exchange registers a union id that
      is longer than the one before. */
  lemma {:induction false} RunawayNeverSettles(a: Replica, b: Replica, k: Id, digits: string, n: nat, suffix: Suffix)
    requires WellFormed(a) && WellFormed(b) && Positive(a) && Positive(b) && KindsAgree(a, b) && FixedWidth(suffix)
    requires Mints(a, b, k, suffix) && suffix(a[k].payload) == suffix(b[k].payload) == digits
    requires ChainIsFree(a, b, k, digits)
    ensures var (x, y) := AfterExchanges(a, b, n, suffix); UnionChain(k, digits, n + 1) in MintedIds(x, y, suffix)
    decreases n
  {
    hide *;
    if n == 0 {
      FirstCollision(a, b, k, digits, suffix);
    } else {
      LaterCollision(a, b, k, digits, n, suffix);
      RunawayNeverSettles(Pull(a, b, suffix), Pull(b, a, suffix), k + "~" + digits, digits, n - 1, suffix);
    }
  }

  lemma FirstCollision(a: Replica, b: Replica, k: Id, digits: string, suffix: Suffix)
    requires FixedWidth(suffix) && Mints(a, b, k, suffix) && suffix(b[k].payload) == digits
    ensures var (x, y) := AfterExchanges(a, b, 0, suffix); UnionChain(k, digits, 1) in MintedIds(x, y, suffix)
  {
    assert UnionChain(k, digits, 1) == UnionId(k, b[k].payload, suffix);
  }

  lemma LaterCollision(a: Replica, b: Replica, k: Id, digits: string, n: nat, suffix: Suffix)
    requires WellFormed(a) && WellFormed(b) && Positive(a) && Positive(b) && KindsAgree(a, b) && FixedWidth(suffix)
    requires Mints(a, b, k, suffix) && suffix(a[k].payload) == suffix(b[k].payload) == digits
    requires ChainIsFree(a, b, k, digits) && n > 0
    ensures var (a1, b1, u) := (Pull(a, b, suffix), Pull(b, a, suffix), k + "~" + digits);
            && WellFormed(a1) && WellFormed(b1) && Positive(a1) && Positive(b1) && KindsAgree(a1, b1)
            && Mints(a1, b1, u, suffix) && u in a1 && u in b1
            && suffix(a1[u].payload) == suffix(b1[u].payload) == digits
            && ChainIsFree(a1, b1, u, digits)
            && AfterExchanges(a, b, n, suffix) == AfterExchanges(a1, b1, n - 1, suffix)
            && UnionChain(k, digits, n + 1) == UnionChain(u, digits, n)
  {
    assert |digits| == 8;
    hide ChainIsFree;
    hide UnionChain;
    ExchangeKeepsAgreement(a, b, suffix);
    FreeChainRunsAway(a, b, k, suffix);
    NextCollision(a, b, k, suffix);
    NextChainIsFree(a, b, k, digits, suffix);
    LongerChain(k, digits, n);
  }

  lemma FreeChainRunsAway(a: Replica, b: Replica, k: Id, suffix: Suffix)
    requires Mints(a, b, k, suffix) && suffix(a[k].payload) == suffix(b[k].payload)
    requires ChainIsFree(a, b, k, suffix(b[k].payload))
    ensures RunsAway(a, b, k, suffix)
  {
    var digits := suffix(b[k].payload);
    assert UnionChain(k, digits, 1) == k + "~" + digits;
    assert UnionChain(k, digits, 2) == UnionId(UnionId(k, b[k].payload, suffix), b[k].payload, suffix);
    hide Mints;
  }

  lemma NextChainIsFree(a: Replica, b: Replica, k: Id, digits: string, suffix: Suffix)
    requires FixedWidth(suffix) && |digits| == 8 && ChainIsFree(a, b, k, digits)
    ensures ChainIsFree(Pull(a, b, suffix), Pull(b, a, suffix), k + "~" + digits, digits)
  {
    hide Pull;
    forall n: nat | n > 0
      ensures UnionChain(k + "~" + digits, digits, n) !in Pull(a, b, suffix).Keys + Pull(b, a, suffix).Keys
    {
      LongerChain(k, digits, n);
      ChainStaysFree(a, b, k, digits, n, suffix);
    }
  }

  lemma NextCollision(a: Replica, b: Replica, k: Id, suffix: Suffix)
    requires Positive(a) && Positive(b) && KindsAgree(a, b) && FixedWidth(suffix) && RunsAway(a, b, k, suffix)
    ensures k in b
    ensures var (a1, b1, u) := (Pull(a, b, suffix), Pull(b, a, suffix), k + "~" + suffix(b[k].payload));
            && Mints(a1, b1, u, suffix) && u in a1 && u in b1
            && suffix(a1[u].payload) == suffix(b1[u].payload) == suffix(b[k].payload)
  {
    var u := UnionId(k, b[k].payload, suffix);
    OriginOfUnionId(k, b[k].payload, suffix);
    RegistersTwice(a, b, k, suffix);
    RegisteredTwice(a, b, u, suffix);
  }

  lemma ChainStaysFree(a: Replica, b: Replica, k: Id, digits: string, m: nat, suffix: Suffix)
    requires FixedWidth(suffix) && |digits| == 8 && m > 0
    requires UnionChain(k, digits, m) !in a.Keys + b.Keys && UnionChain(k, digits, m + 1) !in a.Keys + b.Keys
    ensures UnionChain(k, digits, m + 1) !in Pull(a, b, suffix).Keys + Pull(b, a, suffix).Keys
  {
    var id := UnionChain(k, digits, m + 1);
    assert id == UnionChain(k, digits, m) + "~" + digits;
    assert Origin(id) == UnionChain(k, digits, m);
    MintedOrigins(a, b, suffix);
    MintedOrigins(b, a, suffix);
  }

  // ----- when exchanges settle -----

  /** Every colliding id meets a known id within `n` steps of its chain of union ids. */
  ghost predicate BlockedWithin(a: Replica, b: Replica, n: nat, suffix: Suffix) {
    forall k | Collides(a, b, k, suffix) ::
      exists m: nat :: 0 < m <= n && UnionChain(k, suffix(b[k].payload), m) in a.Keys + b.Keys
  }

  /** Exchanges settle exactly if the union ids that each suffix collision leads to run into a known id. */
  lemma ExchangesSettleExactlyWhen(a: Replica, b: Replica, suffix: Suffix)
    requires WellFormed(a) && WellFormed(b) && Positive(a) && Positive(b) && KindsAgree(a, b) && FixedWidth(suffix)
    ensures (exists n: nat :: AtRest(AfterExchanges(a, b, n, suffix).0, AfterExchanges(a, b, n, suffix).1, suffix))
       <==> (forall k | Collides(a, b, k, suffix) :: !ChainIsFree(a, b, k, suffix(b[k].payload)))
  {
    if k :| Collides(a, b, k, suffix) && ChainIsFree(a, b, k, suffix(b[k].payload)) {
      forall n: nat
        ensures !AtRest(AfterExchanges(a, b, n, suffix).0, AfterExchanges(a, b, n, suffix).1, suffix)
      {
        CollisionNeverRests(a, b, k, n, suffix);
      }
    } else {
      var n := BlockedSomewhere(a, b, suffix);
      BlockedChainsSettle(a, b, n, suffix);
    }
  }

  lemma CollisionNeverRests(a: Replica, b: Replica, k: Id, n: nat, suffix: Suffix)
    requires WellFormed(a) && WellFormed(b) && Positive(a) && Positive(b) && KindsAgree(a, b) && FixedWidth(suffix)
    requires Collides(a, b, k, suffix) && ChainIsFree(a, b, k, suffix(b[k].payload))
    ensures var (x, y) := AfterExchanges(a, b, n, suffix); !AtRest(x, y, suffix)
  {
    var (x, y) := AfterExchanges(a, b, n, suffix);
    RunawayNeverSettles(a, b, k, suffix(b[k].payload), n, suffix);
    MintedIsNew(x, y, UnionChain(k, suffix(b[k].payload), n + 1), suffix);
  }

  lemma MintedIsNew(x: Replica, y: Replica, u: Id, suffix: Suffix)
    requires FixedWidth(suffix) && u in MintedIds(x, y, suffix)
    ensures u in Pull(x, y, suffix) && u !in x
  {
  }

  lemma {:induction false} LengthBound(ids: set<Id>) returns (n: nat)
    ensures forall id | id in ids :: |id| <= n
  {
    if ids == {} {
      n := 0;
    } else {
      var id :| id in ids;
      var rest := LengthBound(ids - {id});
      n := Max(rest, |id|);
    }
  }

  lemma {:induction false} ChainLength(id: Id, digits: string, n: nat)
    ensures n <= |UnionChain(id, digits, n)|
  {
    if n > 0 {
      ChainLength(id, digits, n - 1);
    }
  }

  /** A chain that is not free is blocked within as many steps as the longest known id has characters. */
  lemma BlockedSomewhere(a: Replica, b: Replica, suffix: Suffix) returns (n: nat)
    requires forall k | Collides(a, b, k, suffix) :: !ChainIsFree(a, b, k, suffix(b[k].payload))
    ensures BlockedWithin(a, b, n, suffix)
  {
    n := LengthBound(a.Keys + b.Keys);
    forall k | Collides(a, b, k, suffix)
      ensures exists m: nat :: 0 < m <= n && UnionChain(k, suffix(b[k].payload), m) in a.Keys + b.Keys
    {
      var m: nat :| m > 0 && UnionChain(k, suffix(b[k].payload), m) in a.Keys + b.Keys;
      ChainLength(k, suffix(b[k].payload), m);
    }
  }

  lemma {:induction false} BlockedChainsSettle(a: Replica, b: Replica, n: nat, suffix: Suffix)
    requires WellFormed(a) && WellFormed(b) && Positive(a) && Positive(b) && KindsAgree(a, b) && FixedWidth(suffix)
    requires BlockedWithin(a, b, n, suffix)
    ensures var (x, y) := AfterExchanges(a, b, n + 2, suffix); AtRest(x, y, suffix)
    decreases n
  {
    hide *;
    var a1, b1 := Pull(a, b, suffix), Pull(b, a, suffix);
    NextExchange(a, b, n + 2, suffix);
    if n == 0 {
      NoStepsNoCollision(a, b, suffix);
      NextExchange(a1, b1, 1, suffix);
      RestAfterTwo(a, b, suffix);
    } else {
      ExchangeKeepsAgreement(a, b, suffix);
      BlockedSooner(a, b, n, suffix);
      BlockedChainsSettle(a1, b1, n - 1, suffix);
    }
  }

  lemma NoStepsNoCollision(a: Replica, b: Replica, suffix: Suffix)
    requires BlockedWithin(a, b, 0, suffix)
    ensures forall k :: !RunsAway(a, b, k, suffix)
  {
    hide Mints;
  }

  lemma RestAfterTwo(a: Replica, b: Replica, suffix: Suffix)
    requires WellFormed(a) && WellFormed(b) && Positive(a) && Positive(b) && KindsAgree(a, b) && FixedWidth(suffix)
    requires forall k :: !RunsAway(a, b, k, suffix)
    ensures var (a1, b1) := (Pull(a, b, suffix), Pull(b, a, suffix));
            AtRest(Pull(a1, b1, suffix), Pull(b1, a1, suffix), suffix)
  {
    hide Pull;
    hide RunsAway;
    TwoExchangesReachFixedPoint(a, b, suffix);
  }

  lemma NextExchange(a: Replica, b: Replica, n: nat, suffix: Suffix)
    requires FixedWidth(suffix) && n > 0
    ensures AfterExchanges(a, b, n, suffix) == AfterExchanges(Pull(a, b, suffix), Pull(b, a, suffix), n - 1, suffix)
    ensures AfterExchanges(a, b, 0, suffix) == (a, b)
    ensures n == 1 ==> AfterExchanges(a, b, 1, suffix) == (Pull(a, b, suffix), Pull(b, a, suffix))
  {
    hide Pull;
  }

  /** After an exchange every collision is one step closer to the id that blocks it. */
  lemma BlockedSooner(a: Replica, b: Replica, n: nat, suffix: Suffix)
    requires Positive(a) && Positive(b) && KindsAgree(a, b) && FixedWidth(suffix)
    requires BlockedWithin(a, b, n, suffix) && n > 0
    ensures BlockedWithin(Pull(a, b, suffix), Pull(b, a, suffix), n - 1, suffix)
  {
    var a1, b1 := Pull(a, b, suffix), Pull(b, a, suffix);
    forall u | Collides(a1, b1, u, suffix)
      ensures exists m: nat :: 0 < m <= n - 1 && UnionChain(u, suffix(b1[u].payload), m) in a1.Keys + b1.Keys
    {
      var m := NextBlock(a, b, u, n, suffix);
    }
  }

  lemma NextBlock(a: Replica, b: Replica, u: Id, n: nat, suffix: Suffix) returns (m: nat)
    requires Positive(a) && Positive(b) && KindsAgree(a, b) && FixedWidth(suffix)
    requires BlockedWithin(a, b, n, suffix) && n > 0 && Collides(Pull(a, b, suffix), Pull(b, a, suffix), u, suffix)
    ensures var (a1, b1) := (Pull(a, b, suffix), Pull(b, a, suffix));
            u in b1 && 0 < m <= n - 1 && UnionChain(u, suffix(b1[u].payload), m) in a1.Keys + b1.Keys
  {
    CollisionStep(a, b, u, suffix);
    m := ShorterChain(a, b, Origin(u), n, suffix);
    hide *;
  }

  /** A collision that is left after an exchange continues one that was there before. */
  lemma CollisionStep(a: Replica, b: Replica, u: Id, suffix: Suffix)
    requires Positive(a) && Positive(b) && KindsAgree(a, b) && FixedWidth(suffix)
    requires Collides(Pull(a, b, suffix), Pull(b, a, suffix), u, suffix)
    ensures var (b1, k) := (Pull(b, a, suffix), Origin(u));
            && Collides(a, b, k, suffix) && k in b && u == k + "~" + suffix(b[k].payload)
            && u in b1 && suffix(b1[u].payload) == suffix(b[k].payload)
            && u !in a && u !in b
    ensures a.Keys + b.Keys <= Pull(a, b, suffix).Keys + Pull(b, a, suffix).Keys
  {
    MintedAfterExchange(a, b, u, suffix);
    RegistersTwice(a, b, Origin(u), suffix);
    RegisteredTwice(a, b, u, suffix);
  }

  lemma ShorterChain(a: Replica, b: Replica, k: Id, n: nat, suffix: Suffix) returns (m: nat)
    requires BlockedWithin(a, b, n, suffix) && Collides(a, b, k, suffix) && k in b
    requires k + "~" + suffix(b[k].payload) !in a.Keys + b.Keys
    ensures var digits := suffix(b[k].payload);
            0 < m <= n - 1 && UnionChain(k + "~" + digits, digits, m) in a.Keys + b.Keys
  {
    hide Collides;
    var digits := suffix(b[k].payload);
    var steps: nat :| 0 < steps <= n && UnionChain(k, digits, steps) in a.Keys + b.Keys;
    assert UnionChain(k, digits, 1) == k + "~" + digits;
    m := steps - 1;
    LongerChain(k, digits, m);
  }
}
