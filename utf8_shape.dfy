/** The byte-level UTF-8 shape check of the file scanner (IsValidUtf8).
    A chunk is accepted when it splits into groups, each a lead byte followed by
    exactly the number of continuation bytes its bit pattern announces. Only the
    bit patterns are looked at: overlong forms, surrogates and values above
    U+10FFFF pass (see module Rfc3629 for the comparison with the standard). */
module Utf8Shape {

  /** A continuation byte has the bit pattern 10xxxxxx. */
  predicate IsContinuation(b: bv8) {
    b & 0xC0 == 0x80
  }

  /** The number of bytes a group that starts with `lead` occupies, read off the
      lead's bit pattern (0xxxxxxx, 110xxxxx, 1110xxxx, 11110xxx); 0 when the
      byte cannot start a group. */
  function SequenceLength(lead: bv8): (n: nat)
    ensures n <= 4
    ensures n == 1 <==> lead < 0x80
    ensures n == 2 <==> 0xC0 <= lead <= 0xDF
    ensures n == 3 <==> 0xE0 <= lead <= 0xEF
    ensures n == 4 <==> 0xF0 <= lead <= 0xF7
    ensures n == 0 <==> IsContinuation(lead) || lead >= 0xF8
  {
    if lead <= 0x7F then 1
    else if lead & 0xE0 == 0xC0 then 2
    else if lead & 0xF0 == 0xE0 then 3
    else if lead & 0xF8 == 0xF0 then 4
    else 0
  }

  /** The bytes s[1..n] are all continuation bytes. */
  predicate ContinuationsFollow(s: seq<bv8>, n: nat)
    requires n <= |s|
  {
    forall k | 1 <= k < n :: IsContinuation(s[k])
  }

  /** s is a succession of complete groups: the language IsValidUtf8 accepts. */
  predicate WellShaped(s: seq<bv8>)
    decreases |s|
  {
    if s == [] then true
    else
      var n := SequenceLength(s[0]);
      0 < n <= |s| && ContinuationsFollow(s, n) && WellShaped(s[n..])
  }

  /** One step of WellShaped, taken at position i of s. */
  lemma UnfoldAt(s: seq<bv8>, i: nat)
    requires i < |s|
    ensures WellShaped(s[i..]) <==>
      var n := SequenceLength(s[i]);
      0 < n && i + n <= |s| && ContinuationsFollow(s[i..], n) && WellShaped(s[i + n..])
  {
    var n := SequenceLength(s[i]);
    if 0 < n && i + n <= |s| {
      assert s[i..][n..] == s[i + n..];
    }
  }

  /** IsValidUtf8(bytes, length): checks the first `length` bytes of the buffer.
      The result depends on bytes[..length] only; a non-positive length is accepted. */
  method IsValidUtf8(bytes: array<bv8>, length: int) returns (ok: bool)
    requires length <= bytes.Length
    ensures length <= 0 ==> ok
    ensures 0 <= length ==> ok == WellShaped(bytes[..length])
  {
    ghost var end := if length < 0 then 0 else length;
    ghost var s := bytes[..end];
    var i := 0;
    while i < length
      invariant 0 <= i <= end
      invariant WellShaped(s) == WellShaped(s[i..])
    {
      UnfoldAt(s, i);
      var b := bytes[i];
      assert s[i..][0] == b;
      assert forall k | i < k < end :: s[i..][k - i] == bytes[k];
      if b <= 0x7F {
        i := i + 1;
        continue;
      } else if b & 0xE0 == 0xC0 {
        assert SequenceLength(b) == 2;
        if i + 1 >= length || bytes[i + 1] & 0xC0 != 0x80 {
          return false;
        }
        i := i + 2;
      } else if b & 0xF0 == 0xE0 {
        assert SequenceLength(b) == 3;
        if i + 2 >= length || bytes[i + 1] & 0xC0 != 0x80 || bytes[i + 2] & 0xC0 != 0x80 {
          return false;
        }
        i := i + 3;
      } else if b & 0xF8 == 0xF0 {
        assert SequenceLength(b) == 4;
        if i + 3 >= length || bytes[i + 1] & 0xC0 != 0x80 || bytes[i + 2] & 0xC0 != 0x80 || bytes[i + 3] & 0xC0 != 0x80 {
          return false;
        }
        i := i + 4;
      } else {
        assert SequenceLength(b) == 0;
        return false;
      }
    }
    assert s[i..] == [];
    return true;
  }

  /** Bytes that are all at most 0x7F are always accepted. */
  lemma {:induction false} AsciiIsWellShaped(s: seq<bv8>)
    requires forall k | 0 <= k < |s| :: s[k] <= 0x7F
    ensures WellShaped(s)
    decreases |s|
  {
    if s != [] {
      AsciiIsWellShaped(s[1..]);
    }
  }

  /** Once a prefix made of complete groups has been consumed, acceptance of the
      rest is decided by the rest alone. */
  lemma {:induction false} PrefixTransparent(pre: seq<bv8>, t: seq<bv8>)
    requires WellShaped(pre)
    ensures WellShaped(pre + t) <==> WellShaped(t)
    decreases |pre|
  {
    if pre != [] {
      var n := SequenceLength(pre[0]);
      var whole := pre + t;
      assert whole[0] == pre[0];
      assert forall k | 1 <= k < n :: whole[k] == pre[k];
      assert whole[n..] == pre[n..] + t;
      PrefixTransparent(pre[n..], t);
    } else {
      assert pre + t == t;
    }
  }

  /** Two accepted byte strings are accepted one after the other. */
  lemma ConcatWellShaped(a: seq<bv8>, b: seq<bv8>)
    requires WellShaped(a) && WellShaped(b)
    ensures WellShaped(a + b)
  {
    PrefixTransparent(a, b);
  }

  /** A lead byte 10xxxxxx or 11111xxx at a group boundary makes the result false. */
  lemma BadLeadRejected(pre: seq<bv8>, t: seq<bv8>)
    requires WellShaped(pre)
    requires t != [] && (IsContinuation(t[0]) || t[0] & 0xF8 == 0xF8)
    ensures !WellShaped(pre + t)
  {
    PrefixTransparent(pre, t);
  }

  /** A 2-, 3- or 4-byte lead at a group boundary whose continuation bytes would
      reach the end of the checked bytes makes the result false, whatever follows
      in the array beyond the checked length. */
  lemma TruncatedSequenceRejected(pre: seq<bv8>, t: seq<bv8>)
    requires WellShaped(pre)
    requires t != [] && |t| < SequenceLength(t[0])
    ensures !WellShaped(pre + t)
  {
    PrefixTransparent(pre, t);
  }
}
