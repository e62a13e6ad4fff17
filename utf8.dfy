/**
 * Well-formed UTF-8 (RFC 3629, section 4): the check `String::from_utf8`
 * makes on percent-decoded bytes.
 */
module Utf8 {

  import opened Bytes

  predicate InRange(b: Byte, lo: int, hi: int) {
    lo <= b as int <= hi
  }

  predicate IsContinuation(b: Byte) {
    InRange(b, 0x80, 0xBF)
  }

  /** The length of the well-formed encoded character at the front of `s`,
      or 0 when the front of `s` is not one. */
  function FirstCharLength(s: Bytes): (n: nat)
    requires |s| > 0
    ensures n <= 4 && n <= |s|
  {
    var b := s[0] as int;
    if b < 0x80 then 1
    else if 0xC2 <= b <= 0xDF then
      if |s| >= 2 && IsContinuation(s[1]) then 2 else 0
    else if 0xE0 <= b <= 0xEF then
      var lo := if b == 0xE0 then 0xA0 else 0x80;
      var hi := if b == 0xED then 0x9F else 0xBF;
      if |s| >= 3 && InRange(s[1], lo, hi) && IsContinuation(s[2]) then 3 else 0
    else if 0xF0 <= b <= 0xF4 then
      var lo := if b == 0xF0 then 0x90 else 0x80;
      var hi := if b == 0xF4 then 0x8F else 0xBF;
      if |s| >= 4 && InRange(s[1], lo, hi) && IsContinuation(s[2]) && IsContinuation(s[3]) then 4 else 0
    else 0
  }

  /** `s` is a sequence of well-formed encoded characters. */
  predicate ValidUtf8(s: Bytes)
    decreases |s|
  {
    |s| == 0 || (FirstCharLength(s) > 0 && ValidUtf8(s[FirstCharLength(s)..]))
  }

  predicate IsAscii(s: Bytes) {
    forall i :: 0 <= i < |s| ==> s[i] as int < 0x80
  }

  lemma {:induction false} AsciiIsValid(s: Bytes)
    requires IsAscii(s)
    ensures ValidUtf8(s)
    decreases |s|
  {
    if |s| > 0 {
      assert FirstCharLength(s) == 1;
      AsciiIsValid(s[1..]);
    }
  }

  /** A byte that starts no encoded character is rejected. */
  lemma StrayByteIsInvalid(s: Bytes)
    requires |s| > 0 && InRange(s[0], 0x80, 0xC1)
    ensures !ValidUtf8(s)
  {
  }
}
