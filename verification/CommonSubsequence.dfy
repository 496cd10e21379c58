/** The two-row dynamic program behind ROUGE-L. */
module CommonSubsequence {
  import opened Numbers
  import opened Sequences

  type Token = string

  ghost predicate IsCommon(s: seq<Token>, a: seq<Token>, b: seq<Token>) {
    IsSubsequence(s, a) && IsSubsequence(s, b)
  }

  /** The recurrence that the program tabulates. */
  ghost function Lcs(a: seq<Token>, b: seq<Token>): nat {
    if a == [] || b == [] then 0
    else if a[|a| - 1] == b[|b| - 1] then Lcs(a[..|a| - 1], b[..|b| - 1]) + 1
    else Max(Lcs(a[..|a| - 1], b), Lcs(a, b[..|b| - 1]))
  }

  lemma {:induction false} SubsequenceOfLonger(s: seq<Token>, t: seq<Token>, x: Token)
    requires IsSubsequence(s, t)
    ensures IsSubsequence(s, t + [x]) && IsSubsequence(s + [x], t + [x])
  {
    assert (t + [x])[..|t|] == t && (s + [x])[..|s|] == s;
  }

  lemma {:induction false} ShorterSubsequence(s: seq<Token>, t: seq<Token>)
    requires IsSubsequence(s, t) && s != []
    ensures t != [] && IsSubsequence(s[..|s| - 1], t[..|t| - 1])
  {
    if IsSubsequence(s, t[..|t| - 1]) {
      ShorterSubsequence(s, t[..|t| - 1]);
      WeakenSubsequence(s[..|s| - 1], t[..|t| - 1]);
    }
  }

  lemma WeakenSubsequence(s: seq<Token>, t: seq<Token>)
    requires t != [] && IsSubsequence(s, t[..|t| - 1])
    ensures IsSubsequence(s, t)
  {
  }

  /** A common subsequence of the computed length exists. */
  lemma {:induction false} CommonSubsequenceExists(a: seq<Token>, b: seq<Token>) returns (s: seq<Token>)
    ensures IsCommon(s, a, b) && |s| == Lcs(a, b)
    decreases |a| + |b|
  {
    if a == [] || b == [] {
      s := [];
    } else {
      var a', b', x := a[..|a| - 1], b[..|b| - 1], a[|a| - 1];
      if x == b[|b| - 1] {
        s := CommonSubsequenceExists(a', b');
        SubsequenceOfLonger(s, a', x);
        SubsequenceOfLonger(s, b', x);
        assert a' + [x] == a && b' + [x] == b;
        s := s + [x];
      } else if Lcs(a', b) < Lcs(a, b') {
        s := CommonSubsequenceExists(a, b');
        WeakenSubsequence(s, b);
      } else {
        s := CommonSubsequenceExists(a', b);
        WeakenSubsequence(s, a);
      }
    }
  }

  /** No common subsequence is longer. */
  lemma {:induction false} NoLongerCommonSubsequence(s: seq<Token>, a: seq<Token>, b: seq<Token>)
    requires IsCommon(s, a, b)
    ensures |s| <= Lcs(a, b)
    decreases |a| + |b|
  {
    if s != [] {
      var a', b' := a[..|a| - 1], b[..|b| - 1];
      if a[|a| - 1] == b[|b| - 1] {
        ShorterSubsequence(s, a);
        ShorterSubsequence(s, b);
        NoLongerCommonSubsequence(s[..|s| - 1], a', b');
      } else if IsSubsequence(s, a') {
        NoLongerCommonSubsequence(s, a', b);
      } else {
        NoLongerCommonSubsequence(s, a, b');
      }
    }
  }

  lemma LcsOfEmpty(a: seq<Token>, b: seq<Token>)
    ensures forall j | 0 <= j <= |b| :: Lcs(a[..0], b[..j]) == 0
    ensures Lcs(a, b[..0]) == 0
  {
  }

  lemma LcsStep(a: seq<Token>, b: seq<Token>, i: nat, j: nat)
    requires 1 <= i <= |a| && 1 <= j <= |b|
    ensures Lcs(a[..i], b[..j]) ==
            if a[i - 1] == b[j - 1] then Lcs(a[..i - 1], b[..j - 1]) + 1
            else Max(Lcs(a[..i - 1], b[..j]), Lcs(a[..i], b[..j - 1]))
  {
    assert a[..i][..i - 1] == a[..i - 1] && b[..j][..j - 1] == b[..j - 1];
  }

  /** `_lcs_length`: row by row, keeping two rows. */
  method LcsLength(a: seq<Token>, b: seq<Token>) returns (length: nat)
    ensures exists s :: IsCommon(s, a, b) && |s| == length
    ensures forall s | IsCommon(s, a, b) :: |s| <= length
  {
    hide IsSubsequence;
    LcsOfEmpty(a, b);
    hide Lcs;
    var m, n := |a|, |b|;
    var prev := new nat[n + 1](_ => 0);
    var curr := new nat[n + 1](_ => 0);
    for i := 1 to m + 1
      invariant fresh(prev) && fresh(curr) && prev != curr && prev.Length == curr.Length == n + 1
      invariant forall j | 0 <= j <= n :: prev[j] == Lcs(a[..i - 1], b[..j])
      invariant curr[0] == 0
    {
      LcsOfEmpty(a[..i], b);
      for j := 1 to n + 1
        invariant forall k | 0 <= k <= n :: prev[k] == Lcs(a[..i - 1], b[..k])
        invariant forall k | 0 <= k < j :: curr[k] == Lcs(a[..i], b[..k])
      {
        LcsStep(a, b, i, j);
        if a[i - 1] == b[j - 1] {
          curr[j] := prev[j - 1] + 1;
        } else {
          curr[j] := Max(prev[j], curr[j - 1]);
        }
      }
      prev, curr := curr, new nat[n + 1](_ => 0);
    }
    assert a[..m] == a && b[..n] == b;
    length := prev[n];
    var s := CommonSubsequenceExists(a, b);
    forall s | IsCommon(s, a, b) {
      NoLongerCommonSubsequence(s, a, b);
    }
  }
}
