/** The Merkle tree over a replica's objects in id order.

    Hashing is a free term algebra: the domain tags 0x00 (leaf), 0x01 (inner node) and the hash of the
    empty string become three constructors, so distinct pre-images have distinct digests. */
module MerkleTree {
  import opened Sequences
  import opened Options
  import opened TextOrder
  import opened Utf8
  import opened MeshObjects

  datatype Digest = EmptyHash | LeafHash(preimage: string) | NodeHash(left: Digest, right: Digest)

  const SOH: char := '\U{1}'

  function Leaf(o: MeshObject): Digest {
    LeafHash(o.id + [NUL] + o.kind + [NUL] + Tail(o))
  }

  /** What follows id and kind: the tombstone byte and the payload. */
  function Tail(o: MeshObject): string {
    [if o.tombstone then SOH else NUL] + o.payload
  }

  // ----- leaves -----

  ghost predicate NulFree(m: Replica) {
    forall k | k in m :: NUL !in m[k].id && NUL !in m[k].kind
  }

  lemma SplitAtNul(a: string, x: string, b: string, y: string)
    requires NUL !in a && NUL !in b
    requires a + [NUL] + x == b + [NUL] + y
    ensures a == b && x == y
  {
    var s, t := a + [NUL] + x, b + [NUL] + y;
    FirstNul(a, x);
    FirstNul(b, y);
    assert a == s[..|a|] && b == t[..|b|];
    assert x == s[|a| + 1..] && y == t[|b| + 1..];
  }

  lemma FirstNul(a: string, x: string)
    requires NUL !in a
    ensures var s := a + [NUL] + x; s[|a|] == NUL && forall i | 0 <= i < |a| :: s[i] != NUL
  {
  }

  /** Without NUL bytes in id and kind, the leaf hash identifies exactly the hashed content. */
  lemma LeafIdentifiesContent(o: MeshObject, p: MeshObject)
    requires NUL !in o.id && NUL !in o.kind && NUL !in p.id && NUL !in p.kind
    ensures Leaf(o) == Leaf(p) <==> ContentOf(o) == ContentOf(p)
  {
    if Leaf(o) == Leaf(p) {
      assert Leaf(o).preimage == o.id + [NUL] + (o.kind + [NUL] + Tail(o));
      assert Leaf(p).preimage == p.id + [NUL] + (p.kind + [NUL] + Tail(p));
      SplitAtNul(o.id, o.kind + [NUL] + Tail(o), p.id, p.kind + [NUL] + Tail(p));
      SplitAtNul(o.kind, Tail(o), p.kind, Tail(p));
      EqualTails(o, p);
    }
  }

  lemma EqualTails(o: MeshObject, p: MeshObject)
    requires Tail(o) == Tail(p)
    ensures o.tombstone == p.tombstone && o.payload == p.payload
  {
    assert Tail(o)[0] == Tail(p)[0] && Tail(o)[1..] == o.payload && Tail(p)[1..] == p.payload;
  }

  /** Leaves do not see the vector or the supersession edge. */
  lemma LeafIgnoresCausality(o: MeshObject, p: MeshObject)
    requires p == o.(vector := p.vector, supersededBy := p.supersededBy)
    ensures Leaf(o) == Leaf(p)
  {
  }

  /** The hashed bytes: id, 0, kind, 0, the tombstone as 1 or 0, payload. */
  lemma LeafBytes(o: MeshObject)
    ensures Leaf(o) == LeafHash(o.id + "\0" + o.kind + "\0" + (if o.tombstone then "\U{1}" else "\0") + o.payload)
  {
    assert Leaf(o).preimage == o.id + "\0" + o.kind + "\0" + ((if o.tombstone then "\U{1}" else "\0") + o.payload);
  }

  // ----- which leaves are ambiguous -----

  /** Id and kind are texts; a payload is any sequence of bytes. */
  ghost predicate Named(o: MeshObject) {
    IsText(o.id) && IsText(o.kind)
  }

  /** Another object, with other hashed content, has the same leaf. */
  ghost predicate Ambiguous(o: MeshObject) {
    exists p: MeshObject :: Named(p) && Leaf(p) == Leaf(o) && ContentOf(p) != ContentOf(o)
  }

  /** The same, for an object that differs in id and kind only. */
  ghost predicate AmbiguousName(o: MeshObject) {
    exists p: MeshObject ::
      Leaf(p) == Leaf(o) && ContentOf(p) != ContentOf(o) && p.tombstone == o.tombstone && p.payload == o.payload
  }

  /** A NUL byte of the tail follows a text, and is followed by a byte that could be a tombstone byte. */
  ghost predicate FlagAfterNul(tail: string) {
    exists j :: 0 <= j < |tail| - 1 && IsText(tail[..j]) && tail[j] == NUL && tail[j + 1] in {NUL, SOH}
  }

  /** Id and kind can be confused exactly if one of them has a NUL byte. */
  lemma NameAmbiguousExactlyWhen(o: MeshObject)
    ensures AmbiguousName(o) <==> NUL in o.id || NUL in o.kind
  {
    if NUL in o.id || NUL in o.kind {
      ShiftedName(o);
    }
    if p: MeshObject :|
      Leaf(p) == Leaf(o) && ContentOf(p) != ContentOf(o) && p.tombstone == o.tombstone && p.payload == o.payload
    {
      if NUL !in o.id && NUL !in o.kind {
        assert Leaf(o).preimage == o.id + [NUL] + o.kind + ([NUL] + Tail(o));
        assert Leaf(p).preimage == p.id + [NUL] + p.kind + ([NUL] + Tail(p));
        SameEnd(o.id + [NUL] + o.kind, p.id + [NUL] + p.kind, [NUL] + Tail(o));
        assert NUL !in p.id && NUL !in p.kind by { OneNul(o.id, o.kind, p.id, p.kind); }
        LeafIdentifiesContent(o, p);
      }
    }
  }

  lemma SameEnd(x: string, y: string, end: string)
    requires x + end == y + end
    ensures x == y
  {
    assert |x| == |y|;
    assert x == (x + end)[..|x|] && y == (y + end)[..|x|];
  }

  /** A text with a single NUL byte splits at it in one way only. */
  lemma OneNul(a: string, b: string, x: string, y: string)
    requires NUL !in a && NUL !in b && a + [NUL] + b == x + [NUL] + y
    ensures NUL !in x && NUL !in y
  {
    var s := a + [NUL] + b;
    FirstNul(a, b);
    assert s[|x|] == NUL by { assert s == x + [NUL] + y; }
    assert forall i | |a| < i < |s| :: s[i] == b[i - |a| - 1];
    assert |x| == |a|;
    assert x == s[..|a|] == a && y == s[|a| + 1..] == b;
  }

  /** Moving the boundary between id and kind to another NUL byte. */
  lemma ShiftedName(o: MeshObject)
    requires NUL in o.id || NUL in o.kind
    ensures AmbiguousName(o)
    ensures Named(o) ==> Ambiguous(o)
  {
    var p: MeshObject;
    if NUL in o.id {
      var i :| 0 <= i < |o.id| && o.id[i] == NUL;
      p := ShiftLeft(o, i);
    } else {
      var i :| 0 <= i < |o.kind| && o.kind[i] == NUL;
      p := ShiftRight(o, i);
    }
    assert Tail(p) == Tail(o);
    assert Leaf(p) == Leaf(o) && ContentOf(p) != ContentOf(o);
  }

  lemma ShiftLeft(o: MeshObject, i: nat) returns (p: MeshObject)
    requires i < |o.id| && o.id[i] == NUL
    ensures p == o.(id := p.id, kind := p.kind) && |p.id| < |o.id|
    ensures p.id + [NUL] + p.kind == o.id + [NUL] + o.kind && (Named(o) ==> Named(p))
  {
    var before, after := o.id[..i], o.id[i + 1..];
    assert o.id == before + [NUL] + after;
    p := o.(id := before, kind := after + [NUL] + o.kind);
    TextAroundNul(before, after);
    TextAroundNul(after, o.kind);
    assert p.id + [NUL] + p.kind == o.id + [NUL] + o.kind;
  }

  lemma ShiftRight(o: MeshObject, i: nat) returns (p: MeshObject)
    requires i < |o.kind| && o.kind[i] == NUL
    ensures p == o.(id := p.id, kind := p.kind) && |o.id| < |p.id|
    ensures p.id + [NUL] + p.kind == o.id + [NUL] + o.kind && (Named(o) ==> Named(p))
  {
    var before, after := o.kind[..i], o.kind[i + 1..];
    assert o.kind == before + [NUL] + after;
    p := o.(id := o.id + [NUL] + before, kind := after);
    TextAroundNul(before, after);
    TextAroundNul(o.id, before);
    assert p.id + [NUL] + p.kind == o.id + [NUL] + o.kind;
  }

  /** An object's leaf is ambiguous exactly if its id or kind has a NUL byte, or its tail holds a NUL byte that
      can be taken for the end of a longer kind. */
  lemma AmbiguousExactlyWhen(o: MeshObject)
    requires Named(o)
    ensures Ambiguous(o) <==> NUL in o.id || NUL in o.kind || FlagAfterNul(Tail(o))
  {
    if NUL in o.id || NUL in o.kind {
      ShiftedName(o);
    } else if FlagAfterNul(Tail(o)) {
      LongerKind(o);
    }
    if p: MeshObject :| Named(p) && Leaf(p) == Leaf(o) && ContentOf(p) != ContentOf(o) {
      if NUL !in o.id && NUL !in o.kind {
        OtherReading(o, p);
      }
    }
  }

  lemma LongerKind(o: MeshObject)
    requires Named(o) && FlagAfterNul(Tail(o))
    ensures Ambiguous(o)
  {
    var t := Tail(o);
    var j :| 0 <= j < |t| - 1 && IsText(t[..j]) && t[j] == NUL && t[j + 1] in {NUL, SOH};
    var p := TailAsKind(o, j);
    assert Named(p) && Leaf(p) == Leaf(o) && ContentOf(p) != ContentOf(o);
  }

  lemma TailAsKind(o: MeshObject, j: nat) returns (p: MeshObject)
    requires Named(o) && j < |Tail(o)| - 1 && IsText(Tail(o)[..j])
    requires Tail(o)[j] == NUL && Tail(o)[j + 1] in {NUL, SOH}
    ensures Named(p) && Leaf(p) == Leaf(o) && ContentOf(p) != ContentOf(o)
  {
    var t := Tail(o);
    p := o.(kind := o.kind + [NUL] + t[..j], tombstone := t[j + 1] == SOH, payload := t[j + 2..]);
    TextAroundNul(o.kind, t[..j]);
    assert t[j + 1..] == Tail(p);
    Regroup(o.id, o.kind, t, j);
    assert |p.kind| > |o.kind|;
    hide *;
  }

  lemma Regroup(a: string, b: string, t: string, j: nat)
    requires j < |t| && t[j] == NUL
    ensures a + [NUL] + (b + [NUL] + t[..j]) + [NUL] + t[j + 1..] == a + [NUL] + b + [NUL] + t
  {
    assert t == t[..j] + [NUL] + t[j + 1..];
  }

  lemma OtherReading(o: MeshObject, p: MeshObject)
    requires NUL !in o.id && NUL !in o.kind && Named(o) && Named(p)
    requires Leaf(p) == Leaf(o) && ContentOf(p) != ContentOf(o)
    ensures FlagAfterNul(Tail(o))
  {
    var s, t, end := Leaf(o).preimage, Tail(o), |o.id| + 1 + |o.kind| + 1;
    var cut := |p.id| + 1 + |p.kind|;
    assert s == o.id + [NUL] + o.kind + [NUL] + t == p.id + [NUL] + p.kind + [NUL] + Tail(p);
    if cut < end {
      SameReading(o, p);
    } else {
      LaterReading(o, p);
    }
  }

  lemma SameReading(o: MeshObject, p: MeshObject)
    requires NUL !in o.id && NUL !in o.kind && Leaf(p) == Leaf(o)
    requires |p.id| + |p.kind| <= |o.id| + |o.kind|
    ensures ContentOf(p) == ContentOf(o)
  {
    var s, end := Leaf(o).preimage, |o.id| + 1 + |o.kind| + 1;
    assert s == o.id + [NUL] + o.kind + [NUL] + Tail(o) == p.id + [NUL] + p.kind + [NUL] + Tail(p);
    assert s[|p.id|] == NUL && s[|p.id| + 1 + |p.kind|] == NUL;
    assert forall i | 0 <= i < |o.id| :: s[i] == o.id[i];
    assert forall i | 0 <= i < |o.kind| :: s[|o.id| + 1 + i] == o.kind[i];
    assert |p.id| == |o.id| && |p.kind| == |o.kind|;
    assert p.id == s[..|o.id|] == o.id;
    assert p.kind == s[|o.id| + 1..end - 1] == o.kind;
    assert Tail(p) == s[end..] == Tail(o);
    EqualTails(o, p);
  }

  lemma LaterReading(o: MeshObject, p: MeshObject)
    requires Named(o) && Named(p) && Leaf(p) == Leaf(o)
    requires |p.id| + |p.kind| > |o.id| + |o.kind|
    ensures FlagAfterNul(Tail(o))
  {
    var head, name, t := o.id + [NUL] + o.kind, p.id + [NUL] + p.kind, Tail(o);
    var j := |name| - |head| - 1;
    assert head + [NUL] + t == name + [NUL] + Tail(p);
    TextAroundNul(p.id, p.kind);
    hide IsText;
    LaterCut(head, t, name, Tail(p), j);
    TextAroundNul(head, t[..j]);
  }

  lemma LaterCut(head: string, t: string, name: string, u: string, j: nat)
    requires head + [NUL] + t == name + [NUL] + u && |name| == |head| + 1 + j && u != ""
    ensures j < |t| - 1 && t[j] == NUL && t[j + 1] == u[0] && name == head + [NUL] + t[..j]
  {
    var s := head + [NUL] + t;
    assert t == s[|head| + 1..];
    assert s[|name|] == NUL && s[|name| + 1] == u[0];
    assert name == s[..|name|];
  }

  /** An example: the payload FF 00 00 does not make the leaf of ("a", "b") ambiguous, because FF is in no text. */
  lemma BytesThatAreNoText(o: MeshObject)
    requires o.id == "a" && o.kind == "b" && !o.tombstone && o.payload == ['\U{FF}', NUL, NUL]
    ensures Named(o) && !Ambiguous(o)
  {
    var t := Tail(o);
    assert IsText("a") && IsText("b") by { assert "a"[1..] == "" && "b"[1..] == ""; }
    assert t == [NUL, '\U{FF}', NUL, NUL];
    assert !IsText(t[..2]) by {
      assert t[..2][1..] == ['\U{FF}'];
      assert FirstLength(['\U{FF}']) == 0;
    }
    AmbiguousExactlyWhen(o);
    assert t[..2] == [NUL, '\U{FF}'];
  }

  /** For one id the kind alone matters: equal kinds, or kinds without NUL bytes, keep leaves apart. */
  lemma LeavesOfOneId(o: MeshObject, p: MeshObject)
    requires o.id == p.id && (o.kind == p.kind || (NUL !in o.kind && NUL !in p.kind))
    ensures Leaf(o) == Leaf(p) <==> ContentOf(o) == ContentOf(p)
  {
    if Leaf(o) == Leaf(p) {
      var begin := |o.id| + 1;
      assert Leaf(o).preimage[begin..] == o.kind + [NUL] + Tail(o);
      assert Leaf(p).preimage[begin..] == p.kind + [NUL] + Tail(p);
      if o.kind == p.kind {
        assert Tail(o) == (o.kind + [NUL] + Tail(o))[|o.kind| + 1..];
        assert Tail(p) == (p.kind + [NUL] + Tail(p))[|p.kind| + 1..];
      } else {
        SplitAtNul(o.kind, Tail(o), p.kind, Tail(p));
      }
      EqualTails(o, p);
    }
  }

  /** With a NUL byte in an id: "a", NUL, "b" of kind "c" against "a" of kind "b", NUL, "c". */
  lemma NulInIdCollides(o: MeshObject, p: MeshObject)
    requires o.id == "a" + [NUL] + "b" && o.kind == "c"
    requires p == o.(id := "a", kind := "b" + [NUL] + "c")
    ensures Leaf(o) == Leaf(p) && ContentOf(o) != ContentOf(p)
  {
    assert o.id + [NUL] + o.kind == p.id + [NUL] + p.kind;
  }

  // ----- levels -----

  /** The next level: neighbours are hashed in pairs, an odd last node with itself. */
  function PairUp(level: seq<Digest>): seq<Digest> {
    seq((|level| + 1) / 2, i requires 0 <= i < (|level| + 1) / 2 =>
      NodeHash(level[2 * i], if 2 * i + 1 < |level| then level[2 * i + 1] else level[2 * i]))
  }

  /** The root over a level. */
  ghost function Root(level: seq<Digest>): Digest
    decreases |level|
  {
    if level == [] then EmptyHash
    else if |level| == 1 then level[0]
    else Root(PairUp(level))
  }

  function Height(d: Digest): nat {
    match d
    case NodeHash(left, _) => 1 + Height(left)
    case _ => 0
  }

  ghost predicate Uniform(level: seq<Digest>, h: nat) {
    forall i | 0 <= i < |level| :: level[i] != EmptyHash && Height(level[i]) == h
  }

  lemma {:induction false} RootHeight(level: seq<Digest>, h: nat)
    requires level != [] && Uniform(level, h)
    ensures Height(Root(level)) >= h && Root(level) != EmptyHash
    ensures |level| > 1 ==> Height(Root(level)) > h
    decreases |level|
  {
    if |level| > 1 {
      RootHeight(PairUp(level), h + 1);
    }
  }

  /** Equal roots of two levels of one height force equal levels, of whatever sizes, if none repeats a node. */
  lemma {:induction false} RootInjective(s: seq<Digest>, t: seq<Digest>, h: nat)
    requires Distinct(s) && Distinct(t) && Uniform(s, h) && Uniform(t, h)
    requires Root(s) == Root(t)
    ensures s == t
    decreases |s| + |t|
  {
    if s != [] { RootHeight(s, h); }
    if t != [] { RootHeight(t, h); }
    if |s| > 1 && |t| > 1 {
      PairUpKeepsDistinct(s);
      PairUpKeepsDistinct(t);
      RootInjective(PairUp(s), PairUp(t), h + 1);
      PairUpInjective(s, t);
    }
  }

  lemma PairUpKeepsDistinct(level: seq<Digest>)
    requires Distinct(level)
    ensures Distinct(PairUp(level))
  {
    var up := PairUp(level);
    forall i, j | 0 <= i < j < |up|
      ensures up[i] != up[j]
    {
      assert level[2 * i] != level[2 * j];
    }
  }

  lemma PairUpInjective(s: seq<Digest>, t: seq<Digest>)
    requires Distinct(s) && Distinct(t) && PairUp(s) == PairUp(t)
    ensures s == t
  {
    var up, ut := PairUp(s), PairUp(t);
    forall i | 0 <= i < |s| && i < |t|
      ensures s[i] == t[i]
    {
      assert up[i / 2] == ut[i / 2];
    }
    LastPairIsTwin(s);
    LastPairIsTwin(t);
  }

  /** The last pair is a node and its copy exactly when the level is odd. */
  lemma LastPairIsTwin(level: seq<Digest>)
    requires Distinct(level)
    ensures level != [] ==>
              var last := PairUp(level)[|PairUp(level)| - 1]; last.left == last.right <==> |level| % 2 == 1
  {
    if |level| > 1 && |level| % 2 == 0 {
      assert level[|level| - 2] != level[|level| - 1];
    }
  }

  /** A repeated leaf defeats the root: duplicating the odd last leaf by hand changes nothing. */
  lemma RepeatedLeavesCollide(a: Digest, b: Digest, c: Digest)
    ensures Root([a, b, c]) == Root([a, b, c, c])
  {
    var s, t := [a, b, c], [a, b, c, c];
    assert PairUp(s) == [NodeHash(a, b), NodeHash(c, c)] == PairUp(t);
  }

  // ----- the tree of a replica -----

  ghost function Leaves(m: Replica): map<Id, Digest> {
    map k | k in m :: Leaf(m[k])
  }

  ghost function InOrder(leaves: map<Id, Digest>): seq<Digest> {
    var ids := Sorted(leaves.Keys);
    SortedMembers(leaves.Keys);
    seq(|ids|, i requires 0 <= i < |ids| => leaves[ids[i]])
  }

  /** The root hash of the tree over a replica. */
  ghost function TreeRoot(m: Replica): Digest {
    Root(InOrder(Leaves(m)))
  }

  /** No two of the objects share a leaf, except for what leaves do not cover. */
  ghost predicate LeavesTellApart(objects: iset<MeshObject>) {
    forall o, p | o in objects && p in objects && Leaf(o) == Leaf(p) :: ContentOf(o) == ContentOf(p)
  }

  ghost predicate Within(m: Replica, objects: iset<MeshObject>) {
    forall k | k in m :: m[k] in objects
  }

  ghost function Held(a: Replica, b: Replica): iset<MeshObject> {
    iset o | o in a.Values || o in b.Values
  }

  lemma HeldHolds(a: Replica, b: Replica)
    ensures Within(a, Held(a, b)) && Within(b, Held(a, b))
  {
  }

  /** Ids and kinds without NUL bytes are enough. */
  lemma NulFreeLeavesTellApart(a: Replica, b: Replica)
    requires NulFree(a) && NulFree(b)
    ensures LeavesTellApart(Held(a, b))
  {
    forall o, p | o in Held(a, b) && p in Held(a, b) && Leaf(o) == Leaf(p)
      ensures ContentOf(o) == ContentOf(p)
    {
      LeafIdentifiesContent(o, p);
    }
  }

  /** Equal roots are exactly equal object sets, up to what the leaves cover.  Nothing is assumed about sizes,
      so the duplication of odd nodes never confuses two replicas. */
  lemma EqualRootsMeanEqualContents(a: Replica, b: Replica)
    requires WellKeyed(a) && WellKeyed(b) && LeavesTellApart(Held(a, b))
    ensures TreeRoot(a) == TreeRoot(b) <==> SameContents(a, b)
  {
    HeldHolds(a, b);
    EqualRootsWithin(a, b, Held(a, b));
  }

  lemma EqualRootsWithin(a: Replica, b: Replica, objects: iset<MeshObject>)
    requires WellKeyed(a) && WellKeyed(b) && Within(a, objects) && Within(b, objects) && LeavesTellApart(objects)
    ensures TreeRoot(a) == TreeRoot(b) <==> SameContents(a, b)
  {
    if TreeRoot(a) == TreeRoot(b) {
      LeavesAreDistinct(a, objects);
      LeavesAreDistinct(b, objects);
      RootInjective(InOrder(Leaves(a)), InOrder(Leaves(b)), 0);
      EqualLeavesMeanIncludedContents(a, b, objects);
      EqualLeavesMeanIncludedContents(b, a, objects);
    }
    if SameContents(a, b) {
      SameContentsSameLeaves(a, b);
    }
  }

  lemma SameContentsSameLeaves(a: Replica, b: Replica)
    requires SameContents(a, b)
    ensures Leaves(a) == Leaves(b)
  {
    forall k | k in a
      ensures Leaf(a[k]) == Leaf(b[k])
    {
      assert ContentOf(a[k]) == ContentOf(b[k]);
    }
  }

  /** Roots identify the contents of all replicas drawn from a stock of objects exactly if leaves tell these
      objects apart. */
  lemma RootsIdentifyContentsExactlyWhen(objects: iset<MeshObject>)
    ensures LeavesTellApart(objects) <==>
              forall a, b | WellKeyed(a) && WellKeyed(b) && Within(a, objects) && Within(b, objects) ::
                TreeRoot(a) == TreeRoot(b) <==> SameContents(a, b)
  {
    if LeavesTellApart(objects) {
      forall a, b | WellKeyed(a) && WellKeyed(b) && Within(a, objects) && Within(b, objects)
        ensures TreeRoot(a) == TreeRoot(b) <==> SameContents(a, b)
      {
        EqualRootsWithin(a, b, objects);
      }
    } else {
      var o, p :| o in objects && p in objects && Leaf(o) == Leaf(p) && ContentOf(o) != ContentOf(p);
      var a, b := map[o.id := o], map[p.id := p];
      SingleRoot(o);
      SingleRoot(p);
      assert WellKeyed(a) && WellKeyed(b) && Within(a, objects) && Within(b, objects);
      assert o.id in a && (o.id in b ==> b[o.id] == p);
      assert !SameContents(a, b);
    }
  }

  lemma SingleRoot(o: MeshObject)
    ensures TreeRoot(map[o.id := o]) == Leaf(o)
  {
    var m := map[o.id := o];
    assert Leaves(m) == map[o.id := Leaf(o)];
    SingleSorted(o.id);
    SortedUnique(Sorted({o.id}), [o.id]);
    assert Leaves(m).Keys == {o.id};
    assert InOrder(Leaves(m)) == [Leaf(o)];
  }

  lemma LeavesAreDistinct(m: Replica, objects: iset<MeshObject>)
    requires WellKeyed(m) && Within(m, objects) && LeavesTellApart(objects)
    ensures Distinct(InOrder(Leaves(m))) && Uniform(InOrder(Leaves(m)), 0)
  {
    var ids, hashes := Sorted(Leaves(m).Keys), InOrder(Leaves(m));
    SortedMembers(Leaves(m).Keys);
    forall i, j | 0 <= i < j < |hashes|
      ensures hashes[i] != hashes[j]
    {
      assert Less(ids[i], ids[j]);
      LessIsStrictTotalOrder(ids[i], ids[j], ids[i]);
      assert ContentOf(m[ids[i]]) != ContentOf(m[ids[j]]);
    }
  }

  lemma EqualLeavesMeanIncludedContents(a: Replica, b: Replica, objects: iset<MeshObject>)
    requires WellKeyed(a) && WellKeyed(b) && Within(a, objects) && Within(b, objects) && LeavesTellApart(objects)
    requires InOrder(Leaves(a)) == InOrder(Leaves(b))
    ensures forall k | k in a :: k in b && ContentOf(a[k]) == ContentOf(b[k])
  {
    var idsA, idsB := Sorted(Leaves(a).Keys), Sorted(Leaves(b).Keys);
    SortedMembers(Leaves(b).Keys);
    forall k | k in a
      ensures k in b && ContentOf(a[k]) == ContentOf(b[k])
    {
      assert k in Elements(idsA);
      var i :| 0 <= i < |idsA| && idsA[i] == k;
      assert InOrder(Leaves(a))[i] == InOrder(Leaves(b))[i];
      assert Leaf(a[k]) == Leaf(b[idsB[i]]);
    }
  }

  // ----- the tree as it is built -----

  /** Later objects replace earlier ones with the same id, as in a dictionary. */
  ghost function LeafMap(objects: seq<MeshObject>): map<Id, Digest> {
    if objects == [] then map[]
    else LeafMap(objects[..|objects| - 1])[objects[|objects| - 1].id := Leaf(objects[|objects| - 1])]
  }

  /** The leaf under an id is that of the last object listed with this id. */
  lemma {:induction false} LastObjectCounts(objects: seq<MeshObject>, i: nat)
    requires i < |objects| && forall j | i < j < |objects| :: objects[j].id != objects[i].id
    ensures objects[i].id in LeafMap(objects) && LeafMap(objects)[objects[i].id] == Leaf(objects[i])
    decreases |objects|
  {
    if i < |objects| - 1 {
      LastObjectCounts(objects[..|objects| - 1], i);
    }
  }

  /** `objects` lists the values of `m`, in any order. */
  ghost predicate Lists(objects: seq<MeshObject>, m: Replica) {
    && (forall i | 0 <= i < |objects| :: objects[i].id in m && m[objects[i].id] == objects[i])
    && (forall k | k in m :: m[k] in objects)
  }

  lemma {:induction false} LeafMapHasIds(objects: seq<MeshObject>, id: Id)
    ensures id in LeafMap(objects) <==> exists i :: 0 <= i < |objects| && objects[i].id == id
  {
    if objects != [] {
      var n := |objects| - 1;
      LeafMapHasIds(objects[..n], id);
      assert forall i | 0 <= i < n :: objects[..n][i] == objects[i];
      assert id in LeafMap(objects) <==> id in LeafMap(objects[..n]) || objects[n].id == id;
      hide LeafMap;
    }
  }

  lemma {:induction false} LeafMapHasLeaves(objects: seq<MeshObject>, m: Replica, id: Id)
    requires forall i | 0 <= i < |objects| :: objects[i].id in m && m[objects[i].id] == objects[i]
    requires id in LeafMap(objects)
    ensures id in m && LeafMap(objects)[id] == Leaf(m[id])
  {
    if objects != [] && objects[|objects| - 1].id != id {
      LeafMapHasLeaves(objects[..|objects| - 1], m, id);
    }
  }

  /** The tree built from a replica's values has the replica's leaves, whatever order they are listed in. */
  lemma LeafMapOfReplica(objects: seq<MeshObject>, m: Replica)
    requires WellKeyed(m) && Lists(objects, m)
    ensures LeafMap(objects) == Leaves(m)
  {
    hide LeafMap;
    forall k
      ensures k in m <==> k in LeafMap(objects)
      ensures k in LeafMap(objects) ==> LeafMap(objects)[k] == Leaf(m[k])
    {
      LeafMapHasIds(objects, k);
      if k in m {
        var i :| 0 <= i < |objects| && objects[i] == m[k];
        assert objects[i].id == k;
      }
      if k in LeafMap(objects) {
        LeafMapHasLeaves(objects, m, k);
      }
    }
    assert LeafMap(objects).Keys == Leaves(m).Keys;
  }

  method HashLeaves(objects: seq<MeshObject>) returns (leaves: map<Id, Digest>)
    ensures leaves == LeafMap(objects)
  {
    leaves := map[];
    for i := 0 to |objects|
      invariant leaves == LeafMap(objects[..i])
    {
      leaves := leaves[objects[i].id := Leaf(objects[i])];
      assert objects[..i + 1][..i] == objects[..i];
    }
    assert objects[..|objects|] == objects;
  }

  /** One level on top of another, down to the root. */
  ghost predicate IsTower(levels: seq<seq<Digest>>) {
    && levels != []
    && forall i | 0 <= i < |levels| - 1 :: |levels[i]| > 1 && levels[i + 1] == PairUp(levels[i])
  }

  method BuildLevels(hashes: seq<Digest>) returns (levels: seq<seq<Digest>>)
    ensures IsTower(levels) && levels[0] == hashes && |levels[|levels| - 1]| <= 1
  {
    levels := [hashes];
    var current := hashes;
    while |current| > 1
      invariant IsTower(levels) && levels[0] == hashes && current == levels[|levels| - 1]
      decreases |current|
    {
      var next := [];
      for i := 0 to (|current| + 1) / 2
        invariant next == PairUp(current)[..i]
      {
        var left := current[2 * i];
        var right := if 2 * i + 1 < |current| then current[2 * i + 1] else current[2 * i];
        next := next + [NodeHash(left, right)];
      }
      levels := levels + [next];
      current := next;
    }
  }

  /** The ids that lead to different leaves, or to a leaf on one side only. */
  ghost function Differing(mine: map<Id, Digest>, others: map<Id, Digest>): set<Id> {
    set k | k in mine.Keys + others.Keys && Get(mine, k) != Get(others, k)
  }

  class ObjectMerkleTree {
    var leaves: map<Id, Digest>
    var ids: seq<Id>
    var levels: seq<seq<Digest>>

    ghost predicate Valid()
      reads this
    {
      && IsSorted(ids, leaves.Keys)
      && IsTower(levels)
      && levels[0] == InOrder(leaves)
      && |levels[|levels| - 1]| <= 1
    }

    constructor (objects: seq<MeshObject>)
      ensures Valid() && leaves == LeafMap(objects)
    {
      leaves, ids, levels := map[], [], [];
      new;
      var hashed := HashLeaves(objects);
      leaves := hashed;
      ids := SortIds(hashed.Keys);
      SortedUnique(ids, Sorted(hashed.Keys));
      SortedMembers(hashed.Keys);
      var listing := ids;
      var hashes := seq(|listing|, i requires 0 <= i < |listing| && listing[i] in hashed => hashed[listing[i]]);
      levels := BuildLevels(hashes);
    }

    /** The root property: the only node of the last level. */
    method RootHash() returns (root: Digest)
      requires Valid()
      ensures root == Root(InOrder(leaves))
    {
      LevelsShareRoot(levels);
      root := if levels[0] == [] then EmptyHash else levels[|levels| - 1][0];
    }

    /** The ids whose leaves differ, sorted: the worklist after a root mismatch. */
    method DivergentIds(other: ObjectMerkleTree) returns (divergent: seq<Id>)
      requires Valid() && other.Valid()
      ensures IsSorted(divergent, Differing(leaves, other.leaves))
    {
      var all := SortIds(leaves.Keys + other.leaves.Keys);
      ghost var differing := Differing(leaves, other.leaves);
      divergent := [];
      for i := 0 to |all|
        invariant IsSorted(divergent, differing * Elements(all[..i]))
      {
        assert all[i] in Elements(all);
        SelectNext(divergent, differing, all, i);
        if Get(leaves, all[i]) != Get(other.leaves, all[i]) {
          divergent := divergent + [all[i]];
        }
      }
      assert all[..|all|] == all;
      assert differing * Elements(all) == differing;
    }
  }

  lemma {:induction false} LevelsShareRoot(levels: seq<seq<Digest>>)
    requires IsTower(levels)
    ensures Root(levels[0]) == Root(levels[|levels| - 1])
    ensures |levels| > 1 ==> |levels[|levels| - 1]| >= 1
  {
    if |levels| > 1 {
      assert levels[1] == PairUp(levels[0]);
      var upper := levels[1..];
      assert forall i | 0 <= i < |upper| :: upper[i] == levels[i + 1];
      LevelsShareRoot(upper);
    }
  }
}
