/**
  The pieces of JavaScript's built-in behaviour that the wallpaper store, the
  colour extractor and the listing endpoint depend on: optional values, the
  `%` operator on numbers, string interpolation of a missing array element,
  ASCII case folding for case-insensitive regular expressions, and the
  insertion order of a `Map` that is trimmed by deleting its first key.
*/
module Js {

  datatype Option<T> = None | Some(value: T)

  /** No element occurs twice (the keys of a `Map`, in insertion order). */
  predicate Distinct<T(==)>(s: seq<T>)
  {
    forall i, j :: 0 <= i < j < |s| ==> s[i] != s[j]
  }

  /** `a % n` on JavaScript numbers for a positive integer `n`: the quotient
      is truncated toward zero, so the remainder takes the sign of `a`
      (unlike Dafny's Euclidean `%`). */
  function Rem(a: int, n: int): (r: int)
    requires n > 0
    ensures -n < r < n
    ensures a >= 0 ==> 0 <= r
    ensures a < 0 ==> r <= 0 && r == -((-a) % n)
    ensures a >= 0 ==> r == a % n
  {
    if a >= 0 then a % n else -((-a) % n)
  }

  /** `${s[i]}`: an index outside the array reads `undefined`, which a
      template literal renders as the text "undefined". */
  function At(s: seq<string>, i: int): string
  {
    if 0 <= i < |s| then s[i] else "undefined"
  }

  function LowerChar(c: char): char
  {
    if 'A' <= c <= 'Z' then (c as int + 32) as char else c
  }

  /** Case folding as a regular expression with the `i` flag (and without
      `u`) applies it to ASCII text: only A-Z are affected. */
  function LowerAscii(s: string): (r: string)
    ensures |r| == |s|
    ensures forall k :: 0 <= k < |s| ==> r[k] == LowerChar(s[k])
  {
    if s == [] then [] else [LowerChar(s[0])] + LowerAscii(s[1..])
  }

  predicate EndsWith(s: string, suffix: string)
  {
    |suffix| <= |s| && s[|s| - |suffix|..] == suffix
  }

  /** `a` is obtained from `b` by deleting elements, keeping the order. */
  predicate IsSubsequence<T(==)>(a: seq<T>, b: seq<T>)
    decreases |b|
  {
    a == [] ||
    (b != [] && ((a[0] == b[0] && IsSubsequence(a[1..], b[1..])) || IsSubsequence(a, b[1..])))
  }

  lemma SubsequenceOfCons<T>(a: seq<T>, x: T, b: seq<T>)
    requires IsSubsequence(a, b)
    ensures IsSubsequence(a, [x] + b)
  {
    assert ([x] + b)[1..] == b;
  }

  /** `m.set(k, v)` on a JavaScript `Map` whose keys, in insertion order, are
      `keys`, followed by `if (m.size > cap) m.delete(m.keys().next().value)`.
      Setting a key that is already present keeps its position. */
  function SetThenEvict<K(==)>(keys: seq<K>, k: K, cap: nat): seq<K>
  {
    var grown := if k in keys then keys else keys + [k];
    if |grown| > cap then grown[1..] else grown
  }

  /** What one `SetThenEvict` does to a map that respected its bound: the
      bound still holds, the key just set is present, a key that was already
      there keeps the map as it was, and otherwise exactly the earliest
      inserted key is dropped when the new key does not fit. */
  lemma SetThenEvictBounded<K>(keys: seq<K>, k: K, cap: nat)
    requires Distinct(keys) && |keys| <= cap && cap >= 1
    ensures var r := SetThenEvict(keys, k, cap);
      && Distinct(r)
      && |r| <= cap
      && k in r
      && (k in keys ==> r == keys)
      && (k !in keys && |keys| < cap ==> r == keys + [k])
      && (k !in keys && |keys| == cap ==> r == keys[1..] + [k] && keys[0] !in r)
      && (forall u :: u in r <==> u == k || (u in keys && !(k !in keys && |keys| == cap && u == keys[0])))
  {
    var r := SetThenEvict(keys, k, cap);
    if k !in keys {
      var grown := keys + [k];
      assert Distinct(grown) by {
        forall i, j | 0 <= i < j < |grown| ensures grown[i] != grown[j] {
          if j == |keys| { assert grown[i] == keys[i]; }
        }
      }
      if |keys| == cap {
        assert r == grown[1..] == keys[1..] + [k];
        assert keys[0] !in r by {
          forall i | 0 <= i < |r| ensures r[i] != keys[0] {
            assert r[i] == grown[i + 1];
            assert keys[0] == grown[0];
          }
        }
        forall u | u in keys && u != keys[0] ensures u in r {
          var i :| 0 <= i < |keys| && keys[i] == u;
          assert i != 0;
          assert r[i - 1] == u;
        }
      }
    }
  }

  /** Any sequence of sets keeps a bounded map bounded: the bound
      is an invariant of `SetThenEvict`. */
  lemma {:induction false} SetManyThenEvictBounded<K>(keys: seq<K>, ks: seq<K>, cap: nat)
    requires Distinct(keys) && |keys| <= cap && cap >= 1
    ensures var r := SetAllThenEvict(keys, ks, cap);
      Distinct(r) && |r| <= cap && (ks != [] ==> ks[|ks| - 1] in r)
    decreases |ks|
  {
    if ks != [] {
      SetThenEvictBounded(keys, ks[0], cap);
      SetManyThenEvictBounded(SetThenEvict(keys, ks[0], cap), ks[1..], cap);
      if |ks| == 1 {
        assert SetAllThenEvict(SetThenEvict(keys, ks[0], cap), ks[1..], cap) == SetThenEvict(keys, ks[0], cap);
      }
    }
  }

  /** `SetThenEvict` applied to each key of `ks` in turn. */
  function SetAllThenEvict<K(==)>(keys: seq<K>, ks: seq<K>, cap: nat): seq<K>
    decreases |ks|
  {
    if ks == [] then keys else SetAllThenEvict(SetThenEvict(keys, ks[0], cap), ks[1..], cap)
  }
}
