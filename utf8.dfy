/** UTF-8 well-formedness as Go's `utf8.ValidString` checks it: no overlong forms,
    no surrogates (U+D800..U+DFFF), nothing above U+10FFFF, no truncated sequence. */
module Utf8 {
  import opened Bytes

  predicate IsCont(b: byte) { 0x80 <= b <= 0xBF }

  /** Length of the well-formed encoding that starts `s`, or 0 if `s` does not start with one. */
  function SeqLen(s: Bytes): (n: nat)
    requires s != []
    ensures n <= 4 && n <= |s|
  {
    var b := s[0];
    if b < 0x80 then 1
    else if 0xC2 <= b <= 0xDF then
      (if |s| >= 2 && IsCont(s[1]) then 2 else 0)
    else if 0xE0 <= b <= 0xEF then
      var lo := if b == 0xE0 then 0xA0 else 0x80;
      var hi := if b == 0xED then 0x9F else 0xBF;
      (if |s| >= 3 && lo <= s[1] <= hi && IsCont(s[2]) then 3 else 0)
    else if 0xF0 <= b <= 0xF4 then
      var lo := if b == 0xF0 then 0x90 else 0x80;
      var hi := if b == 0xF4 then 0x8F else 0xBF;
      (if |s| >= 4 && lo <= s[1] <= hi && IsCont(s[2]) && IsCont(s[3]) then 4 else 0)
    else 0
  }

  predicate Valid(s: Bytes)
    decreases |s|
  {
    s == [] || (SeqLen(s) > 0 && Valid(s[SeqLen(s)..]))
  }

  predicate IsAscii(s: Bytes) { forall i :: 0 <= i < |s| ==> s[i] < 0x80 }

  /** Every ASCII string is valid UTF-8. */
  lemma {:induction false} AsciiValid(s: Bytes)
    requires IsAscii(s)
    ensures Valid(s)
  {
    if s != [] {
      assert SeqLen(s) == 1;
      AsciiValid(s[1..]);
    }
  }

  /** Examples: a lone continuation byte, a surrogate and an overlong NUL are all rejected. */
  lemma Rejections()
    ensures !Valid([0x80]) && !Valid([0xED, 0xA0, 0x80]) && !Valid([0xC0, 0x80])
    ensures Valid([0xE2, 0x82, 0xAC])  // U+20AC
  {
    assert SeqLen([0xE2, 0x82, 0xAC]) == 3;
    assert [0xE2, 0x82, 0xAC][3..] == [];
  }
}
