/**
 * Percent-encoding of bytes, as `url::percent_encode` and
 * `url::percent_decode` do it. Which bytes an encode set escapes is a
 * parameter: `url::DEFAULT_ENCODE_SET` is not part of this model.
 */
module Percent {

  import opened Bytes

  /** An encode set: the bytes it escapes. */
  type EncodeSet = Byte -> bool

  predicate IsHexDigit(b: Byte) {
    ('0' <= b <= '9') || ('a' <= b <= 'f') || ('A' <= b <= 'F')
  }

  function HexValue(b: Byte): (v: nat)
    requires IsHexDigit(b)
    ensures v < 16
  {
    if '0' <= b <= '9' then b as int - '0' as int
    else if 'a' <= b <= 'f' then b as int - 'a' as int + 10
    else b as int - 'A' as int + 10
  }

  /** The upper-case hexadecimal digit for `d`. */
  function HexDigit(d: nat): (b: Byte)
    requires d < 16
    ensures IsHexDigit(b) && HexValue(b) == d
  {
    if d < 10 then ('0' as int + d) as char else ('A' as int + d - 10) as char
  }

  /** One byte in its encoded form: `%XX` when the set escapes it, else itself. */
  function EncodeByte(escapes: EncodeSet, b: Byte): (r: Bytes)
  {
    if escapes(b) then ['%', HexDigit(b as int / 16), HexDigit(b as int % 16)] else [b]
  }

  /** `percent_encode`: every byte the set escapes becomes `%XX`. */
  function Encode(escapes: EncodeSet, s: Bytes): (r: Bytes)
    ensures forall i :: 0 <= i < |s| && !escapes(s[i]) ==> s[i] in r
    ensures forall b :: b in r ==> (b in s && !escapes(b)) || b == '%' || IsHexDigit(b)
    ensures |r| == 0 <==> |s| == 0
    ensures |s| > 0 ==> r[|r| - 1] == (if escapes(s[|s| - 1]) then HexDigit(s[|s| - 1] as int % 16) else s[|s| - 1])
  {
    if |s| == 0 then [] else EncodeByte(escapes, s[0]) + Encode(escapes, s[1..])
  }

  /** `percent_decode`: `%` followed by two hexadecimal digits (either case)
      becomes the byte they denote; every other byte is kept. */
  function Decode(s: Bytes): (r: Bytes)
    ensures |r| <= |s|
    decreases |s|
  {
    if |s| == 0 then []
    else if s[0] == '%' && |s| >= 3 && IsHexDigit(s[1]) && IsHexDigit(s[2]) then
      [(HexValue(s[1]) * 16 + HexValue(s[2])) as char] + Decode(s[3..])
    else [s[0]] + Decode(s[1..])
  }

  /** Text without `%` is its own decoding. */
  lemma {:induction false} DecodeWithoutPercent(s: Bytes)
    requires '%' !in s
    ensures Decode(s) == s
    decreases |s|
  {
    if |s| > 0 {
      DecodeWithoutPercent(s[1..]);
    }
  }

  /** A byte no encode set escapes passes through unchanged. */
  lemma {:induction false} EncodeUnescaped(escapes: EncodeSet, s: Bytes)
    requires forall i :: 0 <= i < |s| ==> !escapes(s[i])
    ensures Encode(escapes, s) == s
    decreases |s|
  {
    if |s| > 0 {
      EncodeUnescaped(escapes, s[1..]);
    }
  }

  /** One encoded byte is read back as that byte, whatever follows it. */
  lemma DecodeEncodedByte(escapes: EncodeSet, b: Byte, rest: Bytes)
    requires b == '%' ==> escapes(b)
    ensures Decode(EncodeByte(escapes, b) + rest) == [b] + Decode(rest)
  {
    var e := EncodeByte(escapes, b) + rest;
    if escapes(b) {
      var hi, lo := b as int / 16, b as int % 16;
      assert hi * 16 + lo == b as int;
      assert HexValue(e[1]) == hi && HexValue(e[2]) == lo;
      assert e[3..] == rest;
    } else {
      assert e[1..] == rest;
    }
  }

  /** Decoding undoes encoding, provided every `%` in the text is escaped
      (an unescaped `%41` would be read back as `A`). */
  lemma {:induction false} DecodeEncode(escapes: EncodeSet, s: Bytes)
    requires forall i :: 0 <= i < |s| && s[i] == '%' ==> escapes(s[i])
    ensures Decode(Encode(escapes, s)) == s
    decreases |s|
  {
    if |s| > 0 {
      DecodeEncode(escapes, s[1..]);
      DecodeEncodedByte(escapes, s[0], Encode(escapes, s[1..]));
      assert s == [s[0]] + s[1..];
    }
  }
}
