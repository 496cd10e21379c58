/** Lexicographic order on text, and the sorted listing of a set of ids.  Text is held as its UTF-8 bytes,
    one `char` per byte, so this is also the order of the code points. */
module TextOrder {

  type Id = string

  ghost predicate Less(a: Id, b: Id) {
    b != [] && (a == [] || a[0] < b[0] || (a[0] == b[0] && Less(a[1..], b[1..])))
  }

  lemma {:induction false} LessIsStrictTotalOrder(a: Id, b: Id, c: Id)
    ensures !Less(a, a)
    ensures a == b || Less(a, b) || Less(b, a)
    ensures Less(a, b) && Less(b, c) ==> Less(a, c)
    decreases |a| + |b| + |c|
  {
    if a != [] && b != [] {
      if c != [] {
        LessIsStrictTotalOrder(a[1..], b[1..], c[1..]);
      } else {
        LessIsStrictTotalOrder(a[1..], b[1..], []);
      }
      assert a[0] == b[0] && a[1..] == b[1..] ==> a == [a[0]] + a[1..] == b;
    } else if a != [] {
      LessIsStrictTotalOrder(a[1..], [], []);
    }
  }

  method IsLess(a: Id, b: Id) returns (less: bool)
    ensures less == Less(a, b)
  {
    var i := 0;
    while i < |a| && i < |b| && a[i] == b[i]
      invariant i <= |a| && i <= |b|
      invariant Less(a, b) == Less(a[i..], b[i..])
    {
      i := i + 1;
    }
    less := i < |b| && (i == |a| || a[i] < b[i]);
  }

  /** The order of `sorted`: a proper prefix comes first, and otherwise the first difference decides. */
  lemma {:induction false} LessExactlyWhen(a: Id, b: Id)
    ensures Less(a, b) <==>
              exists k :: 0 <= k <= |a| && k < |b| && a[..k] == b[..k] && (k == |a| || a[k] < b[k])
    decreases |a|
  {
    if a == [] || b == [] {
      assert b != [] ==> a[..0] == b[..0] && 0 <= 0 <= |a|;
    } else {
      LessExactlyWhen(a[1..], b[1..]);
      if k :| 0 <= k <= |a| && k < |b| && a[..k] == b[..k] && (k == |a| || a[k] < b[k]) {
        if k > 0 {
          assert a[..k][0] == b[..k][0];
          assert a[1..][..k - 1] == a[..k][1..] == b[..k][1..] == b[1..][..k - 1];
        }
      }
      if k :|
        && 0 <= k <= |a[1..]| && k < |b[1..]| && a[1..][..k] == b[1..][..k]
        && (k == |a[1..]| || a[1..][k] < b[1..][k])
      {
        if a[0] == b[0] {
          assert a[..k + 1] == [a[0]] + a[1..][..k] == b[..k + 1];
        }
      }
      if a[0] < b[0] {
        assert a[..0] == b[..0];
      }
    }
  }

  ghost predicate StrictlySorted(s: seq<Id>) {
    forall i, j | 0 <= i < j < |s| :: Less(s[i], s[j])
  }

  ghost function Elements(s: seq<Id>): set<Id> {
    set x | x in s
  }

  /** `s` is what `sorted(ids)` returns. */
  ghost predicate IsSorted(s: seq<Id>, ids: set<Id>) {
    StrictlySorted(s) && Elements(s) == ids
  }

  lemma {:induction false} SortedUnique(s: seq<Id>, t: seq<Id>)
    requires StrictlySorted(s) && StrictlySorted(t) && Elements(s) == Elements(t)
    ensures s == t
  {
    NoElements(s);
    NoElements(t);
    if s != [] {
      assert s[0] in Elements(t) && t[0] in Elements(s);
      var i :| 0 <= i < |t| && t[i] == s[0];
      var j :| 0 <= j < |s| && s[j] == t[0];
      LessIsStrictTotalOrder(s[0], t[0], s[0]);
      assert s[0] == t[0];
      forall x
        ensures x in Elements(s[1..]) <==> x in Elements(t[1..])
      {
        TailElements(s, x);
        TailElements(t, x);
      }
      SortedUnique(s[1..], t[1..]);
      assert s == [s[0]] + s[1..] && t == [t[0]] + t[1..];
    }
  }

  lemma NoElements(s: seq<Id>)
    ensures Elements(s) == {} <==> s == []
  {
    if s != [] {
      assert s[0] in Elements(s);
    }
  }

  lemma TailElements(s: seq<Id>, x: Id)
    requires s != [] && StrictlySorted(s)
    ensures x in Elements(s[1..]) <==> x in Elements(s) && x != s[0]
  {
    LessIsStrictTotalOrder(s[0], s[0], s[0]);
    if x in Elements(s) && x != s[0] {
      var i :| 0 <= i < |s| && s[i] == x;
      assert s[1..][i - 1] == x;
    }
    if x in Elements(s[1..]) {
      var i :| 0 <= i < |s[1..]| && s[1..][i] == x;
      assert Less(s[0], s[i + 1]);
    }
  }

  /** `sorted(ids)`: insertion of the ids one at a time. */
  method SortIds(ids: set<Id>) returns (s: seq<Id>)
    ensures IsSorted(s, ids)
  {
    s := [];
    var todo := ids;
    while todo != {}
      invariant todo <= ids
      invariant IsSorted(s, ids - todo)
      decreases todo
    {
      var x :| x in todo;
      assert x !in Elements(s);
      s := Insert(s, x);
      todo := todo - {x};
    }
  }

  method Insert(s: seq<Id>, x: Id) returns (t: seq<Id>)
    requires StrictlySorted(s) && x !in Elements(s)
    ensures IsSorted(t, Elements(s) + {x})
  {
    var k := 0;
    var below := true;
    while k < |s| && below
      invariant 0 <= k <= |s|
      invariant forall i | 0 <= i < k :: Less(s[i], x)
      invariant !below ==> k < |s| && Less(x, s[k])
      decreases |s| - k, below
    {
      LessIsStrictTotalOrder(s[k], x, x);
      assert s[k] in Elements(s);
      below := IsLess(s[k], x);
      if below {
        k := k + 1;
      }
    }
    t := s[..k] + [x] + s[k..];
    forall i | k <= i < |s|
      ensures Less(x, s[i])
    {
      LessIsStrictTotalOrder(x, s[k], s[i]);
    }
    assert forall y :: y in t <==> y in s[..k] || y == x || y in s[k..];
    assert s == s[..k] + s[k..];
  }

  /** Selecting from a sorted listing in one pass keeps the selection sorted. */
  lemma SelectNext(s: seq<Id>, chosen: set<Id>, all: seq<Id>, i: nat)
    requires StrictlySorted(all) && i < |all| && IsSorted(s, chosen * Elements(all[..i]))
    ensures IsSorted(if all[i] in chosen then s + [all[i]] else s, chosen * Elements(all[..i + 1]))
  {
    var t := if all[i] in chosen then s + [all[i]] else s;
    assert all[..i + 1] == all[..i] + [all[i]];
    forall j | 0 <= j < |s|
      ensures Less(s[j], all[i])
    {
      assert s[j] in Elements(s);
    }
    assert forall x :: x in Elements(t) <==> x in Elements(s) || (x == all[i] && all[i] in chosen);
    assert forall x :: x in Elements(all[..i + 1]) <==> x in Elements(all[..i]) || x == all[i];
  }

  lemma SortedExists(ids: set<Id>)
    ensures exists s :: IsSorted(s, ids)
  {
    if ids == {} {
      assert IsSorted([], ids);
    } else {
      var m := Least(ids);
      SortedExists(ids - {m});
      var rest :| IsSorted(rest, ids - {m});
      var s := [m] + rest;
      forall i, j | 0 <= i < j < |s|
        ensures Less(s[i], s[j])
      {
        assert s[j] == rest[j - 1] && s[j] in Elements(rest);
      }
      assert forall x :: x in s <==> x == m || x in Elements(rest);
      assert Elements(s) == {m} + (ids - {m}) == ids;
      assert IsSorted(s, ids);
    }
  }

  lemma {:induction false} Least(ids: set<Id>) returns (m: Id)
    requires ids != {}
    ensures m in ids && forall x | x in ids && x != m :: Less(m, x)
  {
    var y :| y in ids;
    if ids == {y} {
      m := y;
    } else {
      var rest := ids - {y};
      assert rest != {};
      m := Least(rest);
      LessIsStrictTotalOrder(m, y, y);
      if Less(y, m) {
        forall x | x in rest && x != m {
          LessIsStrictTotalOrder(y, m, x);
        }
        m := y;
      }
    }
  }

  /** The sorted listing of a set, as a value for specifications. */
  ghost function Sorted(ids: set<Id>): (s: seq<Id>)
    ensures IsSorted(s, ids)
  {
    SortedExists(ids);
    var s :| IsSorted(s, ids);
    s
  }

  lemma SortedMembers(ids: set<Id>)
    ensures forall i | 0 <= i < |Sorted(ids)| :: Sorted(ids)[i] in ids
  {
    forall i | 0 <= i < |Sorted(ids)|
      ensures Sorted(ids)[i] in ids
    {
      assert Sorted(ids)[i] in Elements(Sorted(ids));
    }
  }

  lemma SingleSorted(x: Id)
    ensures IsSorted([x], {x})
  {
    assert forall y :: y in Elements([x]) <==> y == x;
  }
}
