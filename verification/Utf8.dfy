/** Which byte strings are the UTF-8 encoding of a text (section 4 of RFC 3629), one `char` per byte. */
module Utf8 {

  const NUL: char := '\0'

  predicate InRange(c: char, low: int, high: int) {
    low <= c as int <= high
  }

  predicate Continues(s: string, i: nat, low: int, high: int) {
    i < |s| && InRange(s[i], low, high)
  }

  /** The number of bytes of the first encoded code point; 0 if the string does not start with one. */
  function FirstLength(s: string): nat {
    if s == "" then 0
    else if InRange(s[0], 0x00, 0x7F) then 1
    else if InRange(s[0], 0xC2, 0xDF) then
      if Continues(s, 1, 0x80, 0xBF) then 2 else 0
    else if InRange(s[0], 0xE0, 0xEF) then
      var low := if s[0] as int == 0xE0 then 0xA0 else 0x80;
      var high := if s[0] as int == 0xED then 0x9F else 0xBF;
      if Continues(s, 1, low, high) && Continues(s, 2, 0x80, 0xBF) then 3 else 0
    else if InRange(s[0], 0xF0, 0xF4) then
      var low := if s[0] as int == 0xF0 then 0x90 else 0x80;
      var high := if s[0] as int == 0xF4 then 0x8F else 0xBF;
      if Continues(s, 1, low, high) && Continues(s, 2, 0x80, 0xBF) && Continues(s, 3, 0x80, 0xBF) then 4 else 0
    else 0
  }

  predicate IsText(s: string) {
    s == "" || (0 < FirstLength(s) <= |s| && IsText(s[FirstLength(s)..]))
  }

  /** A NUL byte ends what an incomplete code point could still take, so what precedes it decides. */
  lemma FirstBeforeNul(a: string, b: string)
    requires a != ""
    ensures FirstLength(a + [NUL] + b) == FirstLength(a) <= |a|
  {
    var s := a + [NUL] + b;
    assert forall i | 0 <= i < |a| :: s[i] == a[i];
    assert s[|a|] == NUL;
    assert forall low, high | 0 < low :: !Continues(s, |a|, low, high);
  }

  /** Texts can be joined and split at a NUL byte. */
  lemma {:induction false} TextAroundNul(a: string, b: string)
    ensures IsText(a + [NUL] + b) <==> IsText(a) && IsText(b)
    decreases |a|
  {
    var s := a + [NUL] + b;
    if a == "" {
      assert s == [NUL] + b && s[1..] == b;
    } else {
      FirstBeforeNul(a, b);
      var n := FirstLength(a);
      if n > 0 {
        TextAroundNul(a[n..], b);
        assert s[n..] == a[n..] + [NUL] + b;
      }
    }
  }
}
