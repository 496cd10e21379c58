/** Normalized discounted cumulative gain, in exact arithmetic. */
module Ranking {
  import opened Numbers

  type Item = string

  /** The logarithm used for discounting, of which only this is used: positive from 2 on, and increasing. */
  type Log = nat -> real

  ghost predicate Increasing(log2: Log) {
    forall i, j | 2 <= i < j :: 0.0 < log2(i) < log2(j)
  }

  lemma LogIsPositive(log2: Log, i: nat)
    requires Increasing(log2) && 2 <= i
    ensures 0.0 < log2(i)
  {
    assert log2(i) < log2(i + 1);
  }

  type Relevance = Item -> real

  /** The default: 1 for an expected item, 0 for any other. */
  function Binary(expected: set<Item>): Relevance {
    (item: Item) => if item in expected then 1.0 else 0.0
  }

  function Take(items: seq<Item>, k: nat): seq<Item> {
    if k < |items| then items[..k] else items
  }

  ghost function Dcg(items: seq<Item>, relevance: Relevance, log2: Log): real
    requires Increasing(log2)
  {
    if items == [] then 0.0
    else
      LogIsPositive(log2, |items| + 1);
      Dcg(items[..|items| - 1], relevance, log2) + relevance(items[|items| - 1]) / log2(|items| + 1)
  }

  /** The stable partition: expected items first, each part in retrieved order. */
  function Select(items: seq<Item>, expected: set<Item>, wanted: bool): seq<Item> {
    if items == [] then []
    else
      var n := |items| - 1;
      Select(items[..n], expected, wanted) + if (items[n] in expected) == wanted then [items[n]] else []
  }

  function IdealOrder(retrieved: seq<Item>, expected: set<Item>): seq<Item> {
    Select(retrieved, expected, true) + Select(retrieved, expected, false)
  }

  ghost function Ndcg(retrieved: seq<Item>, expected: set<Item>, k: nat, relevance: Relevance, log2: Log): real
    requires Increasing(log2)
  {
    var ideal := Dcg(Take(IdealOrder(retrieved, expected), k), relevance, log2);
    if retrieved == [] || ideal == 0.0 then 0.0 else Dcg(Take(retrieved, k), relevance, log2) / ideal
  }

  // ----- the computation -----

  method ComputeDcg(items: seq<Item>, relevance: Relevance, log2: Log) returns (result: real)
    requires Increasing(log2)
    ensures result == Dcg(items, relevance, log2)
  {
    result := 0.0;
    for i := 0 to |items|
      invariant result == Dcg(items[..i], relevance, log2)
    {
      LogIsPositive(log2, i + 2);
      assert items[..i + 1][..i] == items[..i];
      result := result + relevance(items[i]) / log2(i + 2);
    }
    assert items[..|items|] == items;
  }

  datatype Score = CutoffNotPositive | Score(value: real)

  /** `ndcg_at_k`; an error for a cutoff that is not positive. */
  method NdcgAtK(retrieved: seq<Item>, expected: set<Item>, k: int, relevance: Relevance, log2: Log)
    returns (score: Score)
    requires Increasing(log2)
    ensures score == if k <= 0 then CutoffNotPositive else Score(Ndcg(retrieved, expected, k, relevance, log2))
  {
    if k <= 0 {
      return CutoffNotPositive;
    }
    if retrieved == [] {
      return Score(0.0);
    }
    var value := ComputeDcg(Take(retrieved, k), relevance, log2);
    var wanted, unwanted := [], [];
    for i := 0 to |retrieved|
      invariant wanted == Select(retrieved[..i], expected, true) && unwanted == Select(retrieved[..i], expected, false)
    {
      assert retrieved[..i + 1][..i] == retrieved[..i];
      if retrieved[i] in expected {
        wanted := wanted + [retrieved[i]];
      } else {
        unwanted := unwanted + [retrieved[i]];
      }
    }
    assert retrieved[..|retrieved|] == retrieved;
    var ideal := ComputeDcg(Take(wanted + unwanted, k), relevance, log2);
    return Score(if ideal == 0.0 then 0.0 else value / ideal);
  }

  // ----- binary relevance -----

  /** How many of the items are expected, repeats counted. */
  function Hits(items: seq<Item>, expected: set<Item>): (h: nat)
    ensures h <= |items|
  {
    if items == [] then 0
    else Hits(items[..|items| - 1], expected) + if items[|items| - 1] in expected then 1 else 0
  }

  ghost predicate LeadsWith(items: seq<Item>, expected: set<Item>, m: nat) {
    m <= |items| && forall i | 0 <= i < m :: items[i] in expected
  }

  /** Discount weights by place, counted from 0. */
  type Weights = nat -> real

  ghost predicate Decreasing(w: Weights) {
    forall i: nat, j: nat | i < j :: 0.0 < w(j) < w(i)
  }

  function Discounts(log2: Log): Weights {
    (i: nat) => if log2(i + 2) == 0.0 then 0.0 else 1.0 / log2(i + 2)
  }

  lemma DiscountsDecrease(log2: Log)
    requires Increasing(log2)
    ensures Decreasing(Discounts(log2))
  {
    var w := Discounts(log2);
    forall i: nat, j: nat | i < j
      ensures 0.0 < w(j) < w(i)
    {
      DiscountsAt(log2, w, i, j);
    }
  }

  lemma DiscountsAt(log2: Log, w: Weights, i: nat, j: nat)
    requires Increasing(log2) && w == Discounts(log2) && i < j
    ensures 0.0 < w(j) < w(i)
  {
    assert 0.0 < log2(i + 2) < log2(j + 2);
    Reciprocal(log2(i + 2), log2(j + 2));
  }

  lemma Reciprocal(x: real, y: real)
    requires 0.0 < x < y
    ensures 0.0 < 1.0 / y < 1.0 / x
  {
    var u, v := 1.0 / x, 1.0 / y;
    assert u * x == 1.0 && v * y == 1.0;
    assert (u - v) * x == v * (y - x);
    PositiveFactor(v, y);
    assert v * (y - x) > 0.0;
    PositiveFactor(u - v, x);
  }

  lemma PositiveFactor(a: real, x: real)
    requires 0.0 < x && 0.0 < a * x
    ensures 0.0 < a
  {
  }

  /** The gain of the hits among the items. */
  ghost function Gain(items: seq<Item>, expected: set<Item>, w: Weights): real {
    if items == [] then 0.0
    else
      var n := |items| - 1;
      Gain(items[..n], expected, w) + if items[n] in expected then w(n) else 0.0
  }

  lemma {:induction false} BinaryDcgIsGain(items: seq<Item>, expected: set<Item>, log2: Log)
    requires Increasing(log2)
    ensures Dcg(items, Binary(expected), log2) == Gain(items, expected, Discounts(log2))
  {
    if items != [] {
      var n := |items| - 1;
      BinaryDcgIsGain(items[..n], expected, log2);
      LogIsPositive(log2, n + 2);
      assert 0.0 / log2(n + 2) == 0.0;
    }
  }

  /** The gain of `m` hits in the first `m` places. */
  ghost function Best(m: nat, w: Weights): real {
    if m == 0 then 0.0 else Best(m - 1, w) + w(m - 1)
  }

  lemma {:induction false} LeadingHits(items: seq<Item>, expected: set<Item>, m: nat)
    requires LeadsWith(items, expected, m)
    ensures m <= Hits(items, expected)
  {
    if items != [] {
      var n := |items| - 1;
      LeadingHits(items[..n], expected, if m <= n then m else n);
    }
  }

  /** Rearrangement: no order gains more than putting the hits first, and only that order gains as much. */
  lemma {:induction false} HitsFirstIsBest(items: seq<Item>, expected: set<Item>, w: Weights)
    requires Decreasing(w)
    ensures var (gain, h) := (Gain(items, expected, w), Hits(items, expected));
            0.0 <= gain <= Best(h, w) && (gain == Best(h, w) <==> LeadsWith(items, expected, h))
  {
    if items != [] {
      var n := |items| - 1;
      var h := Hits(items[..n], expected);
      HitsFirstIsBest(items[..n], expected, w);
      WeightOrder(w, h, n);
      LeadersOfPrefix(items, expected, h);
      hide LeadsWith;
      hide Decreasing;
    }
  }

  lemma WeightOrder(w: Weights, h: nat, n: nat)
    requires Decreasing(w) && h <= n
    ensures 0.0 < w(n) <= w(h) && (h < n ==> w(n) < w(h))
  {
    assert w(n + 1) < w(n);
  }

  /** The last item extends the leading hits only if everything before it is a hit, and it is one itself. */
  lemma LeadersOfPrefix(items: seq<Item>, expected: set<Item>, h: nat)
    requires items != [] && h == Hits(items[..|items| - 1], expected)
    ensures LeadsWith(items, expected, h) <==> LeadsWith(items[..|items| - 1], expected, h)
    ensures items[|items| - 1] in expected ==> (LeadsWith(items, expected, h + 1) <==> h == |items| - 1)
    ensures h == |items| - 1 ==> LeadsWith(items[..|items| - 1], expected, h)
  {
    var n := |items| - 1;
    if h < n {
      assert LeadsWith(items, expected, h + 1) == LeadsWith(items[..n], expected, h + 1);
      MissingLeader(items[..n], expected, h);
    } else {
      AllHits(items[..n], expected);
    }
  }

  lemma {:induction false} AllHits(items: seq<Item>, expected: set<Item>)
    requires Hits(items, expected) == |items|
    ensures LeadsWith(items, expected, |items|)
  {
    if items != [] {
      AllHits(items[..|items| - 1], expected);
    }
  }

  /** A list with fewer hits than items does not start with one more hit than it has. */
  lemma MissingLeader(items: seq<Item>, expected: set<Item>, h: nat)
    requires h == Hits(items, expected) && h < |items|
    ensures !LeadsWith(items, expected, h + 1)
  {
    if LeadsWith(items, expected, h + 1) {
      LeadingHits(items, expected, h + 1);
    }
  }

  lemma {:induction false} BestGrows(m: nat, n: nat, w: Weights)
    requires Decreasing(w) && m <= n
    ensures Best(m, w) <= Best(n, w) && (m < n ==> Best(m, w) < Best(n, w))
  {
    if m < n {
      BestGrows(m, n - 1, w);
      assert w(n) < w(n - 1);
    }
  }

  lemma {:induction false} SelectHits(items: seq<Item>, expected: set<Item>)
    ensures |Select(items, expected, true)| == Hits(items, expected)
    ensures |Select(items, expected, false)| == |items| - Hits(items, expected)
    ensures forall i | 0 <= i < |Select(items, expected, true)| :: Select(items, expected, true)[i] in expected
    ensures forall i | 0 <= i < |Select(items, expected, false)| :: Select(items, expected, false)[i] !in expected
  {
    if items != [] {
      SelectHits(items[..|items| - 1], expected);
    }
  }

  lemma {:induction false} HitsOfPrefix(items: seq<Item>, expected: set<Item>, k: nat)
    requires k <= |items|
    ensures Hits(items[..k], expected) <= Hits(items, expected)
    decreases |items|
  {
    if k < |items| {
      var n := |items| - 1;
      HitsOfPrefix(items[..n], expected, k);
      assert items[..n][..k] == items[..k];
    } else {
      assert items[..k] == items;
    }
  }

  lemma {:induction false} HitsWhenLeading(items: seq<Item>, expected: set<Item>, m: nat)
    requires LeadsWith(items, expected, m) && forall i | m <= i < |items| :: items[i] !in expected
    ensures Hits(items, expected) == m
  {
    if items != [] {
      HitsWhenLeading(items[..|items| - 1], expected, Min(m, |items| - 1));
    }
  }

  /** The ideal order's gain is the best one for the hits that fit under the cutoff. */
  lemma IdealGain(retrieved: seq<Item>, expected: set<Item>, k: nat, w: Weights)
    requires Decreasing(w)
    ensures Gain(Take(IdealOrder(retrieved, expected), k), expected, w) == Best(Min(Hits(retrieved, expected), k), w)
  {
    SelectHits(retrieved, expected);
    var ideal, m := Take(IdealOrder(retrieved, expected), k), Min(Hits(retrieved, expected), k);
    assert LeadsWith(ideal, expected, m);
    HitsWhenLeading(ideal, expected, m);
    HitsFirstIsBest(ideal, expected, w);
  }

  /** The number of hits a cutoff of `k` has room for. */
  function Achievable(retrieved: seq<Item>, expected: set<Item>, k: nat): nat {
    Min(Hits(retrieved, expected), k)
  }

  /** With binary relevance the score lies between 0 and 1 for every list, repeats included.  It is 0 without
      any hit; otherwise it is 1 exactly when the list starts with all the hits that fit under the cutoff. */
  lemma NdcgIsNormalized(retrieved: seq<Item>, expected: set<Item>, k: nat, log2: Log)
    requires Increasing(log2) && k > 0
    ensures 0.0 <= Ndcg(retrieved, expected, k, Binary(expected), log2) <= 1.0
    ensures Hits(retrieved, expected) == 0 ==> Ndcg(retrieved, expected, k, Binary(expected), log2) == 0.0
    ensures Hits(retrieved, expected) > 0 ==>
              (Ndcg(retrieved, expected, k, Binary(expected), log2) == 1.0 <==>
               LeadsWith(retrieved, expected, Achievable(retrieved, expected, k)))
  {
    var top, m, w := Take(retrieved, k), Achievable(retrieved, expected, k), Discounts(log2);
    DiscountsDecrease(log2);
    BinaryDcgIsGain(top, expected, log2);
    BinaryDcgIsGain(Take(IdealOrder(retrieved, expected), k), expected, log2);
    IdealGain(retrieved, expected, k, w);
    GainUnderCutoff(retrieved, expected, k, w);
    BestGrows(0, m, w);
    if m > 0 {
      Ratio(Gain(top, expected, w), Best(m, w));
    }
  }

  lemma GainUnderCutoff(retrieved: seq<Item>, expected: set<Item>, k: nat, w: Weights)
    requires Decreasing(w)
    ensures var (gain, m) := (Gain(Take(retrieved, k), expected, w), Achievable(retrieved, expected, k));
            0.0 <= gain <= Best(m, w) && (gain == Best(m, w) <==> LeadsWith(retrieved, expected, m))
  {
    var top, m := Take(retrieved, k), Achievable(retrieved, expected, k);
    var h := Hits(top, expected);
    HitsFirstIsBest(top, expected, w);
    HitsOfPrefix(retrieved, expected, |top|);
    assert retrieved[..|top|] == top;
    BestGrows(h, m, w);
    assert LeadsWith(retrieved, expected, m) <==> LeadsWith(top, expected, m);
    if LeadsWith(top, expected, m) {
      LeadingHits(top, expected, m);
    }
  }

  lemma Ratio(x: real, y: real)
    requires 0.0 <= x <= y && 0.0 < y
    ensures 0.0 <= x / y <= 1.0 && (x / y == 1.0 <==> x == y)
  {
    var q := x / y;
    assert q * y == x;
  }

  /** A single hit, at place `i` counted from 0, scores by the logarithm of its place, and nothing past the cutoff. */
  lemma SingleHit(retrieved: seq<Item>, expected: set<Item>, k: nat, i: nat, log2: Log)
    requires Increasing(log2) && k > 0 && i < |retrieved|
    requires forall j | 0 <= j < |retrieved| :: retrieved[j] in expected <==> j == i
    ensures 0.0 < log2(2) && 0.0 < log2(i + 2)
    ensures Ndcg(retrieved, expected, k, Binary(expected), log2) == if i < k then log2(2) / log2(i + 2) else 0.0
  {
    var top, w := Take(retrieved, k), Discounts(log2);
    LogIsPositive(log2, 2);
    LogIsPositive(log2, i + 2);
    DiscountsDecrease(log2);
    BinaryDcgIsGain(top, expected, log2);
    BinaryDcgIsGain(Take(IdealOrder(retrieved, expected), k), expected, log2);
    IdealGain(retrieved, expected, k, w);
    OneHit(retrieved, expected, i, w);
    assert Best(1, w) == w(0);
    if i < k {
      OneHit(top, expected, i, w);
      QuotientOfReciprocals(log2(2), log2(i + 2));
    } else {
      NoHit(top, expected, w);
      assert 0.0 / w(0) == 0.0;
    }
    hide Dcg;
    hide Gain;
  }

  lemma QuotientOfReciprocals(x: real, y: real)
    requires 0.0 < x && 0.0 < y
    ensures 0.0 < 1.0 / x && (1.0 / y) / (1.0 / x) == x / y
  {
    var u, v, q := 1.0 / x, 1.0 / y, x / y;
    assert u * x == 1.0 && v * y == 1.0 && q * y == x;
    assert v * x == q * (y * v) == q;
    assert (v * x) * u == v * (x * u) == v;
    assert (v / u) * u == v;
    assert v / u == v * x;
  }

  lemma {:induction false} OneHit(items: seq<Item>, expected: set<Item>, i: nat, w: Weights)
    requires i < |items| && forall j | 0 <= j < |items| :: items[j] in expected <==> j == i
    ensures Hits(items, expected) == 1 && Gain(items, expected, w) == w(i)
  {
    var n := |items| - 1;
    if i < n {
      OneHit(items[..n], expected, i, w);
    } else {
      NoHit(items[..n], expected, w);
    }
  }

  lemma {:induction false} NoHit(items: seq<Item>, expected: set<Item>, w: Weights)
    requires forall j | 0 <= j < |items| :: items[j] !in expected
    ensures Hits(items, expected) == 0 && Gain(items, expected, w) == 0.0
  {
    if items != [] {
      NoHit(items[..|items| - 1], expected, w);
    }
  }

  // ----- graded relevance -----

  ghost predicate NonNegative(relevance: Relevance) {
    forall item :: 0.0 <= relevance(item)
  }

  /** No unexpected item of the list is more relevant than an expected one. */
  ghost predicate MembershipRanks(retrieved: seq<Item>, expected: set<Item>, relevance: Relevance) {
    forall x, z | x in retrieved && z in retrieved && x in expected && z !in expected :: relevance(z) <= relevance(x)
  }

  /** Discounts that vanish from the cutoff on. */
  function CutoffDiscounts(log2: Log, k: nat): Weights {
    var w := Discounts(log2);
    (i: nat) => if i < k then w(i) else 0.0
  }

  ghost predicate NonIncreasing(w: Weights) {
    forall i: nat, j: nat | i <= j :: 0.0 <= w(j) <= w(i)
  }

  lemma CutoffDiscountsDoNotIncrease(log2: Log, k: nat)
    requires Increasing(log2)
    ensures NonIncreasing(CutoffDiscounts(log2, k))
  {
    var w := Discounts(log2);
    assert Decreasing(w) by { DiscountsDecrease(log2); }
    forall i: nat, j: nat | i <= j
      ensures 0.0 <= CutoffDiscounts(log2, k)(j) <= CutoffDiscounts(log2, k)(i)
    {
      assert 0.0 < w(j + 1) < w(j) && (i < j ==> w(j) < w(i));
    }
  }

  ghost function Weighted(items: seq<Item>, relevance: Relevance, w: Weights): real {
    if items == [] then 0.0
    else
      var n := |items| - 1;
      Weighted(items[..n], relevance, w) + Times(relevance(items[n]), w(n))
  }

  /** A product, named so that sums of products can be handled without their arithmetic. */
  function Times(x: real, y: real): real {
    x * y
  }

  lemma WeightedOneMore(items: seq<Item>, item: Item, relevance: Relevance, w: Weights)
    ensures Weighted(items + [item], relevance, w) == Weighted(items, relevance, w) + Times(relevance(item), w(|items|))
  {
    hide Times;
    assert (items + [item])[..|items|] == items;
  }

  lemma {:induction false} DcgIsWeighted(items: seq<Item>, k: nat, relevance: Relevance, log2: Log)
    requires Increasing(log2)
    ensures Dcg(Take(items, k), relevance, log2) == Weighted(items, relevance, CutoffDiscounts(log2, k))
  {
    if items != [] {
      var n := |items| - 1;
      DcgIsWeighted(items[..n], k, relevance, log2);
      LogIsPositive(log2, n + 2);
      Quotient(relevance(items[n]), log2(n + 2));
      Nothing(relevance(items[n]));
      CutoffDiscountAt(log2, k, n);
      hide Times;
      if n < k {
        assert Take(items, k) == items && Take(items[..n], k) == items[..n];
      } else {
        assert Take(items, k) == Take(items[..n], k);
      }
    }
  }

  lemma CutoffDiscountAt(log2: Log, k: nat, i: nat)
    requires Increasing(log2)
    ensures 0.0 < log2(i + 2)
    ensures CutoffDiscounts(log2, k)(i) == if i < k then 1.0 / log2(i + 2) else 0.0
  {
    LogIsPositive(log2, i + 2);
    var w := Discounts(log2);
    assert w(i) == 1.0 / log2(i + 2);
  }

  lemma Quotient(x: real, y: real)
    requires y != 0.0
    ensures x / y == Times(x, 1.0 / y)
  {
  }

  lemma Nothing(x: real)
    ensures Times(x, 0.0) == 0.0
  {
  }

  lemma Exchange(x: real, z: real, u: real, v: real)
    requires z <= x && v <= u
    ensures Times(z, u) + Times(x, v) <= Times(x, u) + Times(z, v)
  {
    assert 0.0 <= (x - z) * (u - v);
  }

  /** Moving an item forward, past items that are no more relevant, does not lose gain. */
  lemma {:induction false} MovingForward(before: seq<Item>, passed: seq<Item>, item: Item, relevance: Relevance,
                                         w: Weights)
    requires NonIncreasing(w) && forall i | 0 <= i < |passed| :: relevance(passed[i]) <= relevance(item)
    ensures Weighted(before + passed + [item], relevance, w) <= Weighted(before + [item] + passed, relevance, w)
  {
    hide Times;
    if passed == [] {
      assert before + passed + [item] == before + [item] + passed;
    } else {
      var m := |passed| - 1;
      var rest, last := passed[..m], passed[m];
      MovingForward(before, rest, item, relevance, w);
      assert passed == rest + [last];
      assert before + passed == (before + rest) + [last];
      assert before + [item] + passed == (before + [item] + rest) + [last];
      var at := |before| + m;
      WeightedOneMore(before + rest, last, relevance, w);
      WeightedOneMore(before + passed, item, relevance, w);
      WeightedOneMore(before + rest, item, relevance, w);
      WeightedOneMore(before + [item] + rest, last, relevance, w);
      assert w(at + 1) <= w(at);
      Exchange(relevance(item), relevance(last), w(at), w(at + 1));
    }
  }

  lemma {:induction false} SelectMembers(items: seq<Item>, expected: set<Item>, wanted: bool)
    ensures forall x | x in Select(items, expected, wanted) :: x in items && (x in expected) == wanted
  {
    if items != [] {
      SelectMembers(items[..|items| - 1], expected, wanted);
    }
  }

  lemma {:induction false} PartitionDoesNotLose(items: seq<Item>, expected: set<Item>, relevance: Relevance, w: Weights)
    requires NonIncreasing(w) && MembershipRanks(items, expected, relevance)
    ensures Weighted(items, relevance, w) <= Weighted(IdealOrder(items, expected), relevance, w)
  {
    if items == [] {
      assert IdealOrder(items, expected) == items;
    } else {
      var n := |items| - 1;
      var front, last := items[..n], items[n];
      var wanted, unwanted := Select(front, expected, true), Select(front, expected, false);
      assert items == front + [last] && IdealOrder(front, expected) == wanted + unwanted;
      assert MembershipRanks(front, expected, relevance);
      PartitionDoesNotLose(front, expected, relevance, w);
      PartitionOneMore(items, expected);
      SelectMembers(front, expected, false);
      assert last in expected ==> forall i | 0 <= i < |unwanted| :: relevance(unwanted[i]) <= relevance(last);
      hide *;
      WeightedOneMore(front, last, relevance, w);
      WeightedOneMore(wanted + unwanted, last, relevance, w);
      if last in expected {
        MovingForward(wanted, unwanted, last, relevance, w);
      }
    }
  }

  lemma PartitionOneMore(items: seq<Item>, expected: set<Item>)
    requires items != []
    ensures var n := |items| - 1;
            var (wanted, unwanted) := (Select(items[..n], expected, true), Select(items[..n], expected, false));
            var last := items[n];
            && |wanted + unwanted| == n
            && IdealOrder(items, expected) ==
               if last in expected then wanted + [last] + unwanted else wanted + unwanted + [last]
  {
    SelectHits(items[..|items| - 1], expected);
  }

  lemma {:induction false} WeightedIsNotNegative(items: seq<Item>, relevance: Relevance, w: Weights)
    requires NonIncreasing(w) && NonNegative(relevance)
    ensures 0.0 <= Weighted(items, relevance, w)
  {
    if items != [] {
      var n := |items| - 1;
      WeightedIsNotNegative(items[..n], relevance, w);
      assert 0.0 <= w(n + 1) <= w(n);
      assert 0.0 <= relevance(items[n]) * w(n);
    }
  }

  lemma GradedScoreIsNormalized(retrieved: seq<Item>, expected: set<Item>, k: nat, relevance: Relevance, log2: Log)
    requires Increasing(log2) && NonNegative(relevance) && MembershipRanks(retrieved, expected, relevance)
    ensures 0.0 <= Ndcg(retrieved, expected, k, relevance, log2) <= 1.0
  {
    var w := CutoffDiscounts(log2, k);
    CutoffDiscountsDoNotIncrease(log2, k);
    DcgIsWeighted(retrieved, k, relevance, log2);
    DcgIsWeighted(IdealOrder(retrieved, expected), k, relevance, log2);
    PartitionDoesNotLose(retrieved, expected, relevance, w);
    WeightedIsNotNegative(retrieved, relevance, w);
    var (gain, ideal) := (Weighted(retrieved, relevance, w), Weighted(IdealOrder(retrieved, expected), relevance, w));
    hide *;
    if ideal > 0.0 {
      Ratio(gain, ideal);
    }
  }

  /** An unexpected item that is more relevant than an expected one, ranked before it, scores more than 1. */
  lemma MisrankedPair(x: Item, z: Item, expected: set<Item>, relevance: Relevance, log2: Log)
    requires Increasing(log2) && x in expected && z !in expected && 0.0 <= relevance(x) < relevance(z)
    ensures Ndcg([z, x], expected, 2, relevance, log2) > 1.0
  {
    IdealOfTwo(x, z, expected);
    DcgOfTwo(z, x, relevance, log2);
    DcgOfTwo(x, z, relevance, log2);
    assert Take([z, x], 2) == [z, x] && Take([x, z], 2) == [x, z];
    LargerFirst(relevance(x), relevance(z), log2(2), log2(3));
    hide *;
  }

  /** The score of an unexpected item before an expected one, for any relevance. */
  lemma TwoItems(x: Item, z: Item, expected: set<Item>, relevance: Relevance, log2: Log)
    requires Increasing(log2) && x in expected && z !in expected
    ensures 0.0 < log2(2) < log2(3)
    ensures var gain := relevance(z) / log2(2) + relevance(x) / log2(3);
            var ideal := relevance(x) / log2(2) + relevance(z) / log2(3);
            Ndcg([z, x], expected, 2, relevance, log2) == if ideal == 0.0 then 0.0 else gain / ideal
  {
    IdealOfTwo(x, z, expected);
    DcgOfTwo(z, x, relevance, log2);
    DcgOfTwo(x, z, relevance, log2);
    assert Take([z, x], 2) == [z, x] && Take([x, z], 2) == [x, z];
    NdcgIs([z, x], expected, 2, relevance, log2);
    hide *;
  }

  /** Under a cutoff of one only the first places of both orders count. */
  lemma FirstOfTwo(x: Item, z: Item, expected: set<Item>, relevance: Relevance, log2: Log)
    requires Increasing(log2) && x in expected && z !in expected
    ensures 0.0 < log2(2)
    ensures var (gain, ideal) := (relevance(z) / log2(2), relevance(x) / log2(2));
            Ndcg([z, x], expected, 1, relevance, log2) == if ideal == 0.0 then 0.0 else gain / ideal
  {
    IdealOfTwo(x, z, expected);
    DcgOfOne(z, relevance, log2);
    DcgOfOne(x, relevance, log2);
    assert Take([z, x], 1) == [z] && Take([x, z], 1) == [x];
    NdcgIs([z, x], expected, 1, relevance, log2);
    hide *;
  }

  lemma DcgOfOne(x: Item, relevance: Relevance, log2: Log)
    requires Increasing(log2)
    ensures 0.0 < log2(2) && Dcg([x], relevance, log2) == relevance(x) / log2(2)
  {
    LogIsPositive(log2, 2);
    assert [x][..0] == [];
  }

  lemma NdcgIs(retrieved: seq<Item>, expected: set<Item>, k: nat, relevance: Relevance, log2: Log)
    requires Increasing(log2) && retrieved != []
    ensures var ideal := Dcg(Take(IdealOrder(retrieved, expected), k), relevance, log2);
            Ndcg(retrieved, expected, k, relevance, log2) ==
            if ideal == 0.0 then 0.0 else Dcg(Take(retrieved, k), relevance, log2) / ideal
  {
    hide Dcg;
  }

  /** With graded relevance the score stays between 0 and 1 on every list and cutoff exactly when no unexpected
      item is more relevant than an expected one. */
  lemma NormalizedExactlyWhenMembershipRanks(expected: set<Item>, relevance: Relevance, log2: Log)
    requires Increasing(log2) && NonNegative(relevance)
    ensures (forall retrieved: seq<Item>, k: nat | k > 0 :: 0.0 <= Ndcg(retrieved, expected, k, relevance, log2) <= 1.0)
       <==> (forall x, z | x in expected && z !in expected :: relevance(z) <= relevance(x))
  {
    if forall x, z | x in expected && z !in expected :: relevance(z) <= relevance(x) {
      forall retrieved: seq<Item>, k: nat | k > 0
        ensures 0.0 <= Ndcg(retrieved, expected, k, relevance, log2) <= 1.0
      {
        assert MembershipRanks(retrieved, expected, relevance);
        GradedScoreIsNormalized(retrieved, expected, k, relevance, log2);
      }
    } else {
      var x, z :| x in expected && z !in expected && relevance(x) < relevance(z);
      assert 0.0 <= relevance(x);
      MisrankedPair(x, z, expected, relevance, log2);
    }
  }

  lemma LargerFirst(r: real, s: real, x: real, y: real)
    requires 0.0 <= r < s && 0.0 < x < y
    ensures 0.0 < r / x + s / y
    ensures (s / x + r / y) / (r / x + s / y) > 1.0
  {
    Reciprocal(x, y);
    var u, v := 1.0 / x, 1.0 / y;
    Quotient(r, x);
    Quotient(s, x);
    Quotient(r, y);
    Quotient(s, y);
    LargerTimesLarger(r, s, v, u);
    var gain, ideal := Times(s, u) + Times(r, v), Times(r, u) + Times(s, v);
    hide *;
    ProperRatio(gain, ideal);
  }

  lemma LargerTimesLarger(r: real, s: real, v: real, u: real)
    requires 0.0 <= r < s && 0.0 < v < u
    ensures 0.0 < Times(r, u) + Times(s, v) < Times(s, u) + Times(r, v)
  {
    assert 0.0 <= r * u && 0.0 < s * v;
    assert 0.0 < (s - r) * (u - v);
  }

  lemma IdealOfTwo(x: Item, z: Item, expected: set<Item>)
    requires x in expected && z !in expected
    ensures IdealOrder([z, x], expected) == [x, z]
  {
    assert [z, x][..1] == [z] && [z][..0] == [];
    assert Select([z], expected, true) == [] && Select([z], expected, false) == [z];
  }

  lemma DcgOfTwo(x: Item, y: Item, relevance: Relevance, log2: Log)
    requires Increasing(log2)
    ensures 0.0 < log2(2) < log2(3)
    ensures Dcg([x, y], relevance, log2) == relevance(x) / log2(2) + relevance(y) / log2(3)
  {
    LogIsPositive(log2, 2);
    LogIsPositive(log2, 3);
    assert [x, y][..1] == [x] && [x][..0] == [];
    assert Dcg([x], relevance, log2) == relevance(x) / log2(2);
  }

  lemma ProperRatio(x: real, y: real)
    requires 0.0 < y < x
    ensures x / y > 1.0
  {
    assert (x / y) * y == x;
    assert (x / y - 1.0) * y == x - y;
    PositiveFactor(x / y - 1.0, y);
  }
}
