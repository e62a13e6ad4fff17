/**
 * Decimal text for `u64`: `from_str::<u64>` (reading a `Max-Age` value)
 * and the `{}` formatting of a `u64` (writing one).
 */
module Decimal {

  import opened Wrappers
  import opened Bytes

  const U64_LIMIT: int := 0x1_0000_0000_0000_0000

  type U64 = n: int | 0 <= n < U64_LIMIT

  predicate IsDigit(b: Byte) {
    '0' <= b <= '9'
  }

  predicate AllDigits(s: Bytes) {
    forall i :: 0 <= i < |s| ==> IsDigit(s[i])
  }

  /** The number a string of decimal digits denotes (leading zeros allowed). */
  function DigitsValue(s: Bytes): nat
    requires AllDigits(s)
    decreases |s|
  {
    if |s| == 0 then 0
    else DigitsValue(s[..|s| - 1]) * 10 + (s[|s| - 1] as int - '0' as int)
  }

  /** `from_str::<u64>`: fails on the empty string, on any byte that is not a
      decimal digit (a sign included) and on a value that does not fit. */
  function ParseU64(s: Bytes): (r: Option<U64>)
    ensures r.Some? <==> |s| > 0 && AllDigits(s) && DigitsValue(s) < U64_LIMIT
    ensures r.Some? ==> r.value == DigitsValue(s)
  {
    if |s| == 0 then None
    else
      AccumulateFrom(s, 0, 0);
      Accumulate(0, s)
  }

  /** The digit loop of `from_str`, left to right: each digit multiplies the
      number read so far by ten and adds itself, and a step whose result
      does not fit in a `u64` (the checked multiply or the checked add
      overflows) ends the loop with `None`, as does a byte that is not a
      digit. */
  function Accumulate(acc: U64, s: Bytes): Option<U64>
    decreases |s|
  {
    if |s| == 0 then Some(acc)
    else if !IsDigit(s[0]) then None
    else
      var next := acc * 10 + (s[0] as int - '0' as int);
      if next >= U64_LIMIT then None else Accumulate(next, s[1..])
  }

  /** A prefix of a digit string denotes no more than the whole string. */
  lemma {:induction false} DigitsValuePrefix(s: Bytes, i: nat)
    requires AllDigits(s) && i <= |s|
    ensures AllDigits(s[..i]) && DigitsValue(s[..i]) <= DigitsValue(s)
    decreases |s|
  {
    if i < |s| {
      var p := s[..|s| - 1];
      assert p[..i] == s[..i];
      DigitsValuePrefix(p, i);
    } else {
      assert s[..i] == s;
    }
  }

  /** The loop started after the digits `s[..i]`, with their value read, ends
      with the value of all of `s` when that fits, and fails otherwise. */
  lemma {:induction false} AccumulateFrom(s: Bytes, i: nat, acc: U64)
    requires i <= |s| && AllDigits(s[..i]) && acc == DigitsValue(s[..i])
    ensures Accumulate(acc, s[i..]) ==
            if AllDigits(s) && DigitsValue(s) < U64_LIMIT then Some(DigitsValue(s)) else None
    decreases |s| - i
  {
    if i == |s| {
      assert s[..i] == s;
    } else {
      var rest := s[i..];
      assert rest[0] == s[i] && rest[1..] == s[i + 1..];
      var q := s[..i + 1];
      assert q[..i] == s[..i] && q[i] == s[i];
      if IsDigit(s[i]) {
        assert AllDigits(q);
        var next := acc * 10 + (s[i] as int - '0' as int);
        assert DigitsValue(q) == next;
        if next >= U64_LIMIT {
          if AllDigits(s) {
            DigitsValuePrefix(s, i + 1);
          }
        } else {
          AccumulateFrom(s, i + 1, next);
        }
      }
    }
  }

  function Digit(d: nat): (b: Byte)
    requires d < 10
    ensures IsDigit(b) && b as int - '0' as int == d
  {
    ('0' as int + d) as char
  }

  /** `{}` on an unsigned number: its decimal digits, without leading zeros. */
  function Render(n: nat): (r: Bytes)
    ensures |r| > 0 && AllDigits(r)
    ensures DigitsValue(r) == n
    ensures r[0] == '0' ==> n == 0
    ensures |r| > 1 ==> r[0] != '0'
    decreases n
  {
    if n < 10 then [Digit(n)]
    else
      var r := Render(n / 10) + [Digit(n % 10)];
      assert r[..|r| - 1] == Render(n / 10);
      r
  }

  /** Reading back what was written gives the number again. */
  lemma ParseRender(n: U64)
    ensures ParseU64(Render(n)) == Some(n)
  {
  }
}
