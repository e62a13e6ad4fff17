/**
 * Byte strings and the `str` operations the cookie codec uses: `trim`,
 * `to_ascii_lower`, `split(';')` and `splitn(1, '=')`.
 *
 * A Rust `&str` is a sequence of UTF-8 bytes. Here one byte is a `char`
 * whose code is below 256, so that ASCII string literals are byte strings.
 */
module Bytes {

  import opened Wrappers

  type Byte = c: char | c as int < 256
  type Bytes = seq<Byte>

  /** `char::is_whitespace` on the ASCII range: tab, line feed, vertical tab,
      form feed, carriage return and space. */
  predicate IsWhitespace(b: Byte) {
    b == ' ' || ('\t' <= b <= '\r')
  }

  predicate NoLeadingWhitespace(s: Bytes) {
    |s| == 0 || !IsWhitespace(s[0])
  }

  predicate NoTrailingWhitespace(s: Bytes) {
    |s| == 0 || !IsWhitespace(s[|s| - 1])
  }

  /** `trim_left`: drops the whitespace in front. */
  function TrimStart(s: Bytes): (r: Bytes)
    ensures |r| <= |s| && r == s[|s| - |r|..]
    ensures forall i :: 0 <= i < |s| - |r| ==> IsWhitespace(s[i])
    ensures NoLeadingWhitespace(r)
  {
    if |s| > 0 && IsWhitespace(s[0]) then TrimStart(s[1..]) else s
  }

  /** `trim_right`: drops the whitespace at the end. */
  function TrimEnd(s: Bytes): (r: Bytes)
    ensures |r| <= |s| && r == s[..|r|]
    ensures forall i :: |r| <= i < |s| ==> IsWhitespace(s[i])
    ensures NoTrailingWhitespace(r)
  {
    if |s| > 0 && IsWhitespace(s[|s| - 1]) then TrimEnd(s[..|s| - 1]) else s
  }

  /** `trim`: the part of `s` between its leading and its trailing whitespace. */
  function Trim(s: Bytes): (r: Bytes)
    ensures NoLeadingWhitespace(r) && NoTrailingWhitespace(r)
    ensures |r| <= |s|
  {
    var t := TrimStart(s);
    var r := TrimEnd(t);
    assert |r| > 0 ==> r[0] == t[0];
    r
  }

  /** What trimming removes is whitespace at the two ends and nothing else:
      the result is the stretch of `s` after its leading whitespace, and
      every byte after that stretch is whitespace too. With the ends of the
      result not being whitespace (the ensures of `Trim`), this fixes the
      result. */
  lemma TrimIsMiddle(s: Bytes)
    ensures var i := |s| - |TrimStart(s)|;
            && i + |Trim(s)| <= |s|
            && (forall k :: 0 <= k < |Trim(s)| ==> Trim(s)[k] == s[i + k])
            && (forall k :: 0 <= k < i ==> IsWhitespace(s[k]))
            && (forall k :: i + |Trim(s)| <= k < |s| ==> IsWhitespace(s[k]))
  {
    var t := TrimStart(s);
    var r := TrimEnd(t);
    assert Trim(s) == r;
    MiddleOf(s, t, r);
  }

  /** A prefix `r` of a suffix `t` of `s` is the stretch of `s` that starts
      where `t` does, and what follows `r` in `t` follows it in `s`. */
  lemma MiddleOf(s: Bytes, t: Bytes, r: Bytes)
    requires |t| <= |s| && t == s[|s| - |t|..]
    requires |r| <= |t| && r == t[..|r|]
    requires forall k :: |r| <= k < |t| ==> IsWhitespace(t[k])
    ensures var i := |s| - |t|;
            && i + |r| <= |s|
            && (forall k :: 0 <= k < |r| ==> r[k] == s[i + k])
            && (forall k :: i + |r| <= k < |s| ==> IsWhitespace(s[k]))
  {
    var i := |s| - |t|;
    forall k | 0 <= k < |r|
      ensures r[k] == s[i + k]
    {
      assert r[k] == t[k];
    }
    forall k | i + |r| <= k < |s|
      ensures IsWhitespace(s[k])
    {
      assert s[k] == t[k - i];
    }
  }

  lemma TrimNoop(s: Bytes)
    requires NoLeadingWhitespace(s) && NoTrailingWhitespace(s)
    ensures Trim(s) == s
  {
  }

  lemma TrimIdempotent(s: Bytes)
    ensures Trim(Trim(s)) == Trim(s)
  {
    TrimNoop(Trim(s));
  }

  /** Whitespace in front of a string makes no difference to its trimmed form. */
  lemma TrimAfterWhitespace(w: Byte, s: Bytes)
    requires IsWhitespace(w)
    ensures Trim([w] + s) == Trim(s)
  {
    assert ([w] + s)[1..] == s;
  }

  function LowerByte(b: Byte): (r: Byte)
  {
    if 'A' <= b <= 'Z' then (b as int + 32) as char else b
  }

  /** `to_ascii_lower`: upper-case ASCII letters become lower-case, every
      other byte is kept. */
  function ToAsciiLower(s: Bytes): (r: Bytes)
    ensures |r| == |s|
  {
    if |s| == 0 then [] else [LowerByte(s[0])] + ToAsciiLower(s[1..])
  }

  /** Lowering works byte by byte. */
  lemma {:induction false} ToAsciiLowerAt(s: Bytes)
    ensures forall i :: 0 <= i < |s| ==> ToAsciiLower(s)[i] == LowerByte(s[i])
    decreases |s|
  {
    if |s| > 0 {
      ToAsciiLowerAt(s[1..]);
    }
  }

  /** No upper-case ASCII letter is left after lowering. */
  lemma ToAsciiLowerIdempotent(s: Bytes)
    ensures ToAsciiLower(ToAsciiLower(s)) == ToAsciiLower(s)
  {
    ToAsciiLowerAt(s);
    ToAsciiLowerAt(ToAsciiLower(s));
  }

  /** The position of the first `b` in `s`, or `|s|` when there is none. */
  function IndexOf(s: Bytes, b: Byte): (i: nat)
    ensures i <= |s|
    ensures i < |s| ==> s[i] == b
    ensures forall j :: 0 <= j < i ==> s[j] != b
  {
    if |s| == 0 then 0 else if s[0] == b then 0 else 1 + IndexOf(s[1..], b)
  }

  /** `splitn(1, sep)` followed by two `next()`s: the text before the first
      `sep` and everything after it, or `None` when `sep` does not occur. */
  function SplitOnce(s: Bytes, sep: Byte): (r: Option<(Bytes, Bytes)>)
    ensures r.None? <==> sep !in s
    ensures r.Some? ==> s == r.value.0 + [sep] + r.value.1 && sep !in r.value.0
  {
    var i := IndexOf(s, sep);
    if i == |s| then None
    else
      assert s == s[..i] + [sep] + s[i + 1..];
      Some((s[..i], s[i + 1..]))
  }

  lemma SplitOnceOf(a: Bytes, sep: Byte, b: Bytes)
    requires sep !in a
    ensures IndexOf(a + [sep] + b, sep) == |a|
    ensures SplitOnce(a + [sep] + b, sep) == Some((a, b))
  {
    var s := a + [sep] + b;
    assert s[|a|] == sep;
    assert s[..|a|] == a;
    assert s[|a| + 1..] == b;
  }

  /** Rust's `split(sep)`: the pieces between the separators, always at least
      one (an empty string gives one empty piece). */
  function SplitOn(s: Bytes, sep: Byte): (r: seq<Bytes>)
    ensures |r| > 0
    ensures forall i :: 0 <= i < |r| ==> sep !in r[i]
    ensures JoinWith(r, sep) == s
    decreases |s|
  {
    var i := IndexOf(s, sep);
    if i == |s| then [s]
    else
      var rest := SplitOn(s[i + 1..], sep);
      assert s == s[..i] + [sep] + s[i + 1..];
      [s[..i]] + rest
  }

  /** The pieces again, with `sep` between each two. */
  function JoinWith(parts: seq<Bytes>, sep: Byte): Bytes
    requires |parts| > 0
  {
    if |parts| == 1 then parts[0] else parts[0] + [sep] + JoinWith(parts[1..], sep)
  }

  lemma {:induction false} SplitOnJoin(a: Bytes, sep: Byte, b: Bytes)
    requires sep !in a
    ensures SplitOn(a + [sep] + b, sep) == [a] + SplitOn(b, sep)
  {
    var s := a + [sep] + b;
    SplitOnceOf(a, sep, b);
    assert IndexOf(s, sep) == |a|;
    assert s[..|a|] == a;
    assert s[|a| + 1..] == b;
  }

  lemma SplitOnNone(s: Bytes, sep: Byte)
    requires sep !in s
    ensures SplitOn(s, sep) == [s]
  {
  }
}
