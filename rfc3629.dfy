/** The UTF-8 syntax of section 4 of RFC 3629, as a reference against which the
    scanner's shape check is measured. The standard's grammar is accepted by the
    check, but the check accepts more: it never looks at the value a group encodes. */
module Rfc3629 {
  import opened Utf8Shape

  /** UTF8-tail = %x80-BF */
  predicate IsTail(b: bv8) {
    0x80 <= b <= 0xBF
  }

  /** The length of the UTF8-char of section 4 that s starts with, or 0 when s
      does not start with one. */
  function CharLength(s: seq<bv8>): nat
    requires s != []
  {
    var b := s[0];
    if b <= 0x7F then 1
    else if 0xC2 <= b <= 0xDF then
      if 2 <= |s| && IsTail(s[1]) then 2 else 0
    else if 0xE0 <= b <= 0xEF then
      var lo: bv8 := if b == 0xE0 then 0xA0 else 0x80;
      var hi: bv8 := if b == 0xED then 0x9F else 0xBF;
      if 3 <= |s| && lo <= s[1] <= hi && IsTail(s[2]) then 3 else 0
    else if 0xF0 <= b <= 0xF4 then
      var lo: bv8 := if b == 0xF0 then 0x90 else 0x80;
      var hi: bv8 := if b == 0xF4 then 0x8F else 0xBF;
      if 4 <= |s| && lo <= s[1] <= hi && IsTail(s[2]) && IsTail(s[3]) then 4 else 0
    else 0
  }

  /** UTF8-octets = *( UTF8-char ) */
  predicate WellFormed(s: seq<bv8>)
    decreases |s|
  {
    if s == [] then true
    else
      var n := CharLength(s);
      0 < n && WellFormed(s[n..])
  }

  /** A UTF8-char of the standard is one group of the shape check. */
  lemma CharIsGroup(s: seq<bv8>)
    requires s != [] && CharLength(s) > 0
    ensures SequenceLength(s[0]) == CharLength(s)
    ensures ContinuationsFollow(s, CharLength(s))
  {
  }

  /** Every byte string in the standard's UTF-8 syntax passes the shape check. */
  lemma {:induction false} WellFormedIsWellShaped(s: seq<bv8>)
    requires WellFormed(s)
    ensures WellShaped(s)
    decreases |s|
  {
    if s != [] {
      CharIsGroup(s);
      WellFormedIsWellShaped(s[CharLength(s)..]);
    }
  }

  /** The converse fails: an overlong encoding of U+0000, the surrogate U+D800 and
      the value 0x110000 all pass the shape check, outside the standard's syntax. */
  lemma ShapeCheckAcceptsMore()
    ensures WellShaped([0xC0, 0x80]) && !WellFormed([0xC0, 0x80])
    ensures WellShaped([0xED, 0xA0, 0x80]) && !WellFormed([0xED, 0xA0, 0x80])
    ensures WellShaped([0xF4, 0x90, 0x80, 0x80]) && !WellFormed([0xF4, 0x90, 0x80, 0x80])
  {
    var overlong: seq<bv8> := [0xC0, 0x80];
    assert SequenceLength(overlong[0]) == 2 && overlong[2..] == [];
    var surrogate: seq<bv8> := [0xED, 0xA0, 0x80];
    assert SequenceLength(surrogate[0]) == 3 && surrogate[3..] == [];
    var tooLarge: seq<bv8> := [0xF4, 0x90, 0x80, 0x80];
    assert SequenceLength(tooLarge[0]) == 4 && tooLarge[4..] == [];
  }
}
