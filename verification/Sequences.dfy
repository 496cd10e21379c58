/** Distinct elements, first occurrences and subsequences. */
module Sequences {

  ghost predicate Distinct<T(!new)>(s: seq<T>) {
    forall i, j | 0 <= i < j < |s| :: s[i] != s[j]
  }

  /** Stable removal of duplicates: the distinct elements in order of first occurrence. */
  function FirstOccurrences<T(==)>(s: seq<T>): seq<T> {
    if s == [] then []
    else
      var n := |s| - 1;
      var before := FirstOccurrences(s[..n]);
      if s[n] in before then before else before + [s[n]]
  }

  lemma {:induction false} FirstOccurrencesMembers<T(!new)>(s: seq<T>)
    ensures forall x :: x in FirstOccurrences(s) <==> x in s
  {
    if s != [] {
      var n := |s| - 1;
      FirstOccurrencesMembers(s[..n]);
      assert s == s[..n] + [s[n]];
    }
  }

  lemma {:induction false} FirstOccurrencesAreDistinct<T(!new)>(s: seq<T>)
    ensures Distinct(FirstOccurrences(s))
  {
    if s != [] {
      FirstOccurrencesAreDistinct(s[..|s| - 1]);
    }
  }

  /** An element of `s` that does not occur before position `i` there. */
  ghost predicate OccursFirstAt<T(!new)>(s: seq<T>, i: nat, x: T) {
    i < |s| && s[i] == x && x !in s[..i]
  }

  /** Every element is taken where it first occurs, and these places ascend. */
  lemma {:induction false} FirstOccurrencesAscend<T(!new)>(s: seq<T>, k: nat, m: nat) returns (i: nat, j: nat)
    requires k < m < |FirstOccurrences(s)|
    ensures i < j
    ensures OccursFirstAt(s, i, FirstOccurrences(s)[k]) && OccursFirstAt(s, j, FirstOccurrences(s)[m])
  {
    var n := |s| - 1;
    var before := FirstOccurrences(s[..n]);
    if m < |before| {
      i, j := FirstOccurrencesAscend(s[..n], k, m);
      assert s[..n][..i] == s[..i] && s[..n][..j] == s[..j];
    } else {
      j := n;
      FirstOccurrencesMembers(s[..n]);
      assert before[k] in s[..n];
      i := FirstPlace(s[..n], before[k]);
      assert s[..n][..i] == s[..i];
    }
  }

  lemma {:induction false} FirstPlace<T(!new)>(s: seq<T>, x: T) returns (i: nat)
    requires x in s
    ensures OccursFirstAt(s, i, x)
  {
    var n := |s| - 1;
    if x in s[..n] {
      i := FirstPlace(s[..n], x);
      assert s[..n][..i] == s[..i];
    } else {
      i := n;
    }
  }

  /** `s` is obtained from `t` by leaving out elements. */
  ghost predicate IsSubsequence<T(!new)>(s: seq<T>, t: seq<T>) {
    || s == []
    || (t != [] &&
        (|| IsSubsequence(s, t[..|t| - 1])
         || (s[|s| - 1] == t[|t| - 1] && IsSubsequence(s[..|s| - 1], t[..|t| - 1]))))
  }

  lemma {:induction false} SubsequenceMembers<T(!new)>(s: seq<T>, t: seq<T>)
    requires IsSubsequence(s, t)
    ensures forall x | x in s :: x in t
  {
    if s != [] {
      if IsSubsequence(s, t[..|t| - 1]) {
        SubsequenceMembers(s, t[..|t| - 1]);
      } else {
        SubsequenceMembers(s[..|s| - 1], t[..|t| - 1]);
        assert s == s[..|s| - 1] + [s[|s| - 1]];
      }
    }
  }

  /** `places` are ascending positions of `t` that hold the elements of `s`. */
  ghost predicate Embeds<T(!new)>(s: seq<T>, t: seq<T>, places: seq<nat>) {
    && |places| == |s|
    && (forall i | 0 <= i < |s| :: places[i] < |t| && t[places[i]] == s[i])
    && (forall i, j | 0 <= i < j < |places| :: places[i] < places[j])
  }

  /** A subsequence is what is found at some ascending positions. */
  lemma SubsequenceExactlyWhen<T(!new)>(s: seq<T>, t: seq<T>)
    ensures IsSubsequence(s, t) <==> exists places :: Embeds(s, t, places)
  {
    if IsSubsequence(s, t) {
      var places := PlacesOf(s, t);
    }
    if places :| Embeds(s, t, places) {
      EmbeddedIsSubsequence(s, t, places);
    }
  }

  lemma {:induction false} PlacesOf<T(!new)>(s: seq<T>, t: seq<T>) returns (places: seq<nat>)
    requires IsSubsequence(s, t)
    ensures Embeds(s, t, places)
    decreases |t|
  {
    if s == [] {
      places := [];
    } else if IsSubsequence(s, t[..|t| - 1]) {
      places := PlacesOf(s, t[..|t| - 1]);
    } else {
      places := PlacesOf(s[..|s| - 1], t[..|t| - 1]);
      places := places + [|t| - 1];
    }
  }

  lemma {:induction false} EmbeddedIsSubsequence<T(!new)>(s: seq<T>, t: seq<T>, places: seq<nat>)
    requires Embeds(s, t, places)
    ensures IsSubsequence(s, t)
    decreases |t|
  {
    if s != [] {
      var n := |s| - 1;
      assert places[n] < |t|;
      if places[n] == |t| - 1 {
        assert Embeds(s[..n], t[..|t| - 1], places[..n]);
        EmbeddedIsSubsequence(s[..n], t[..|t| - 1], places[..n]);
      } else {
        assert Embeds(s, t[..|t| - 1], places);
        EmbeddedIsSubsequence(s, t[..|t| - 1], places);
      }
    }
  }

  /** A subsequence of distinct elements is distinct. */
  lemma {:induction false} SubsequenceIsDistinct<T(!new)>(s: seq<T>, t: seq<T>)
    requires IsSubsequence(s, t) && Distinct(t)
    ensures Distinct(s)
  {
    if s != [] {
      var n := |t| - 1;
      if IsSubsequence(s, t[..n]) {
        SubsequenceIsDistinct(s, t[..n]);
      } else {
        var before, last := s[..|s| - 1], s[|s| - 1];
        SubsequenceIsDistinct(before, t[..n]);
        SubsequenceMembers(before, t[..n]);
        forall i | 0 <= i < |before|
          ensures s[i] != last
        {
          assert before[i] in t[..n];
        }
      }
    }
  }
}
