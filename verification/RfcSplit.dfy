/** The tree as it is built against the split of section 2.1 of RFC 6962. */
module RfcSplit {
  import opened MerkleTree

  function PowerOfTwo(h: nat): (p: nat)
    ensures p > 0
  {
    if h == 0 then 1 else 2 * PowerOfTwo(h - 1)
  }

  /** The largest power of two below `n`. */
  function SplitPoint(n: nat): (k: nat)
    requires n > 1
    ensures 0 < k < n <= 2 * k
  {
    if n <= 2 then 1 else 2 * SplitPoint((n + 1) / 2)
  }

  lemma {:induction false} SplitPointIsPower(n: nat) returns (h: nat)
    requires n > 1
    ensures SplitPoint(n) == PowerOfTwo(h)
  {
    if n <= 2 {
      h := 0;
    } else {
      var half := SplitPointIsPower((n + 1) / 2);
      h := half + 1;
    }
  }

  /** The Merkle tree hash of section 2.1. */
  ghost function Mth(level: seq<Digest>): Digest
    decreases |level|
  {
    if level == [] then EmptyHash
    else if |level| == 1 then level[0]
    else
      var k := SplitPoint(|level|);
      NodeHash(Mth(level[..k]), Mth(level[k..]))
  }

  /** All paths from the root down to a digest of the given height have `h` nodes. */
  ghost predicate Perfect(d: Digest, h: nat) {
    if h == 0 then !d.NodeHash? else d.NodeHash? && Perfect(d.left, h - 1) && Perfect(d.right, h - 1)
  }

  ghost predicate AllPerfect(level: seq<Digest>, h: nat) {
    forall i | 0 <= i < |level| :: Perfect(level[i], h)
  }

  /** The tree that is built is always perfect, because odd nodes are duplicated. */
  lemma {:induction false} RootIsPerfect(level: seq<Digest>, h: nat) returns (height: nat)
    requires level != [] && AllPerfect(level, h)
    ensures Perfect(Root(level), height)
    decreases |level|
  {
    if |level| == 1 {
      height := h;
    } else {
      height := RootIsPerfect(PairUp(level), h + 1);
    }
  }

  /** The tree of the standard is perfect only over a power of two of leaves. */
  lemma {:induction false} PerfectSize(level: seq<Digest>, h: nat)
    requires level != [] && AllPerfect(level, 0) && Perfect(Mth(level), h)
    ensures |level| == PowerOfTwo(h)
    decreases |level|
  {
    if |level| > 1 {
      var k := SplitPoint(|level|);
      PerfectSize(level[..k], h - 1);
      PerfectSize(level[k..], h - 1);
    }
  }

  lemma {:induction false} HalvesOf(h: nat)
    ensures SplitPoint(PowerOfTwo(h + 1)) == PowerOfTwo(h)
  {
    if h > 0 {
      HalvesOf(h - 1);
    }
  }

  /** Over twice a power of two of nodes, the tree that is built is made of its two halves. */
  lemma {:induction false} RootOfHalves(level: seq<Digest>, h: nat)
    requires |level| == PowerOfTwo(h + 1)
    ensures Root(level) == NodeHash(Root(level[..PowerOfTwo(h)]), Root(level[PowerOfTwo(h)..]))
    decreases h
  {
    var k := PowerOfTwo(h);
    var left, right, up := level[..k], level[k..], PairUp(level);
    if h == 0 {
      assert up == [NodeHash(level[0], level[1])];
    } else {
      RootOfHalves(up, h - 1);
      assert up[..PowerOfTwo(h - 1)] == PairUp(left);
      assert up[PowerOfTwo(h - 1)..] == PairUp(right);
    }
  }

  lemma {:induction false} SameOverPowers(level: seq<Digest>, h: nat)
    requires |level| == PowerOfTwo(h)
    ensures Root(level) == Mth(level)
    decreases h
  {
    if h > 0 {
      var k := PowerOfTwo(h - 1);
      HalvesOf(h - 1);
      RootOfHalves(level, h - 1);
      SameOverPowers(level[..k], h - 1);
      SameOverPowers(level[k..], h - 1);
    }
  }

  /** The root is the one of the standard exactly if there is no leaf, or a power of two of them. */
  lemma AgreesWithStandardExactlyWhen(leaves: seq<Digest>)
    requires forall i | 0 <= i < |leaves| :: leaves[i].LeafHash?
    ensures Root(leaves) == Mth(leaves) <==> leaves == [] || exists h: nat :: |leaves| == PowerOfTwo(h)
  {
    if leaves != [] && Root(leaves) == Mth(leaves) {
      var h := RootIsPerfect(leaves, 0);
      PerfectSize(leaves, h);
    }
    if h: nat :| |leaves| == PowerOfTwo(h) {
      SameOverPowers(leaves, h);
    }
  }

  /** An example: three leaves. */
  lemma ThreeLeavesDiffer(a: Digest, b: Digest, c: Digest)
    ensures Root([a, b, c]) == NodeHash(NodeHash(a, b), NodeHash(c, c))
    ensures Mth([a, b, c]) == NodeHash(NodeHash(a, b), c)
  {
    var level, up := [a, b, c], [NodeHash(a, b), NodeHash(c, c)];
    assert PairUp(level) == up;
    assert PairUp(up) == [NodeHash(up[0], up[1])];
    assert Root(level) == Root(up) == Root(PairUp(up)) == NodeHash(up[0], up[1]);
    assert SplitPoint(3) == 2 && level[..2] == [a, b] && level[2..] == [c];
    TwoLeaves(a, b);
    assert Mth(level) == NodeHash(Mth(level[..2]), Mth(level[2..]));
  }

  lemma TwoLeaves(a: Digest, b: Digest)
    ensures Mth([a, b]) == NodeHash(a, b)
  {
    var level := [a, b];
    assert level[..1] == [a] && level[1..] == [b];
    assert Mth(level) == NodeHash(Mth(level[..1]), Mth(level[1..]));
  }
}
