/**
 * The order of `String` keys in a `TreeMap`: byte-wise lexicographic, a
 * proper prefix first. `Ascending` lists a key set in that order, as
 * iterating a `TreeMap` does.
 */
module Ordered {

  import opened Bytes

  predicate LexLe(a: Bytes, b: Bytes)
    decreases |a|
  {
    |a| == 0 || (|b| > 0 && (a[0] < b[0] || (a[0] == b[0] && LexLe(a[1..], b[1..]))))
  }

  lemma {:induction false} LexLeTotal(a: Bytes, b: Bytes)
    ensures LexLe(a, b) || LexLe(b, a)
    decreases |a|
  {
    if |a| > 0 && |b| > 0 && a[0] == b[0] {
      LexLeTotal(a[1..], b[1..]);
    }
  }

  lemma {:induction false} LexLeAntisymmetric(a: Bytes, b: Bytes)
    requires LexLe(a, b) && LexLe(b, a)
    ensures a == b
    decreases |a|
  {
    if |a| > 0 {
      LexLeAntisymmetric(a[1..], b[1..]);
      assert a == [a[0]] + a[1..] && b == [b[0]] + b[1..];
    }
  }

  lemma {:induction false} LexLeTransitive(a: Bytes, b: Bytes, c: Bytes)
    requires LexLe(a, b) && LexLe(b, c)
    ensures LexLe(a, c)
    decreases |a|
  {
    if |a| > 0 && a[0] == b[0] && b[0] == c[0] {
      LexLeTransitive(a[1..], b[1..], c[1..]);
    }
  }

  predicate IsLeast(k: Bytes, keys: set<Bytes>) {
    k in keys && forall x :: x in keys ==> LexLe(k, x)
  }

  lemma {:induction false} LeastExists(keys: set<Bytes>)
    requires keys != {}
    ensures exists k :: IsLeast(k, keys)
    decreases keys
  {
    var x :| x in keys;
    if keys != {x} {
      LeastExists(keys - {x});
      var m :| IsLeast(m, keys - {x});
      LexLeTotal(x, m);
      if LexLe(x, m) {
        forall y | y in keys ensures LexLe(x, y) {
          if y != x { LexLeTransitive(x, m, y); } else { LexLeTotal(x, x); }
        }
        assert IsLeast(x, keys);
      } else {
        assert IsLeast(m, keys);
      }
    } else {
      assert LexLe(x, x) by { LexLeTotal(x, x); }
      assert IsLeast(x, keys);
    }
  }

  lemma LeastUnique(keys: set<Bytes>)
    ensures forall k, k' :: IsLeast(k, keys) && IsLeast(k', keys) ==> k == k'
  {
    forall k, k' | IsLeast(k, keys) && IsLeast(k', keys) ensures k == k' {
      LexLeAntisymmetric(k, k');
    }
  }

  /** The keys in ascending order, each once. */
  function Ascending(keys: set<Bytes>): (r: seq<Bytes>)
    ensures forall k :: k in r <==> k in keys
    ensures forall i, j :: 0 <= i < j < |r| ==> LexLe(r[i], r[j]) && r[i] != r[j]
    decreases keys
  {
    if keys == {} then []
    else
      LeastExists(keys);
      LeastUnique(keys);
      var k :| IsLeast(k, keys);
      var rest := Ascending(keys - {k});
      assert forall i :: 0 <= i < |rest| ==> rest[i] in keys - {k};
      [k] + rest
  }

  /** A sequence of distinct elements that are all `k` has at most one. */
  lemma AtMostOne(r: seq<Bytes>, k: Bytes)
    ensures (forall x :: x in r ==> x == k) && (forall i, j :: 0 <= i < j < |r| ==> r[i] != r[j]) ==> |r| <= 1
  {
    if 1 < |r| {
      assert r[0] in r && r[1] in r;
    }
  }

  /** A single key is its own ascending order. */
  lemma AscendingSingle(k: Bytes)
    ensures Ascending({k}) == [k]
  {
    var r := Ascending({k});
    AtMostOne(r, k);
    assert k in r;
  }
}
