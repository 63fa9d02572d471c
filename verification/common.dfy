/** Shared vocabulary of the converter model: integer positions, optional
    values, powers of two, bit lengths and a few sequence helpers. */
module Common {

  /** An integer block coordinate (x, y, z). */
  datatype Pos = Pos(x: int, y: int, z: int)

  datatype Option<+T> = None | Some(value: T)

  /** 2^n on unbounded integers. */
  function Pow2(n: nat): (r: nat)
    ensures r >= 1
  {
    if n == 0 then 1 else Pow2(n - 1) + Pow2(n - 1)
  }

  lemma {:induction false} Pow2Add(a: nat, b: nat)
    ensures Pow2(a + b) == Pow2(a) * Pow2(b)
  {
    if a > 0 {
      Pow2Add(a - 1, b);
      assert Pow2(a + b) == 2 * Pow2(a - 1 + b);
    }
  }

  lemma {:induction false} Pow2Mono(a: nat, b: nat)
    requires a <= b
    ensures Pow2(a) <= Pow2(b)
  {
    if a < b {
      Pow2Mono(a, b - 1);
    }
  }

  /** Python's int.bit_length() of a non-negative value: the number of
      binary digits, 0 for 0. */
  function BitLength(n: nat): (r: nat)
    ensures n < Pow2(r)
    ensures r > 0 ==> Pow2(r - 1) <= n
    ensures n == 0 <==> r == 0
  {
    if n == 0 then 0 else 1 + BitLength(n / 2)
  }

  /** Python's int.bit_length() on any integer: the bit length of |n|. */
  function PyBitLength(n: int): nat
  {
    if n < 0 then BitLength(-n) else BitLength(n)
  }

  /** The least b with n < 2^b is BitLength(n). */
  lemma {:induction false} BitLengthLeast(n: nat, b: nat)
    requires n < Pow2(b)
    ensures BitLength(n) <= b
  {
    if n > 0 {
      BitLengthLeast(n / 2, b - 1);
    }
  }

  /** Ceiling division of naturals, the `(n + d - 1) // d` idiom. */
  function CeilDiv(n: nat, d: nat): nat
    requires d > 0
  {
    (n + d - 1) / d
  }

  lemma CeilDivBounds(n: nat, d: nat)
    requires d > 0
    ensures CeilDiv(n, d) * d >= n
    ensures CeilDiv(n, d) * d < n + d
  {
    var q := CeilDiv(n, d);
    var m := n + d - 1;
    assert m == (m / d) * d + m % d;
  }

  function Min(a: int, b: int): int { if a <= b then a else b }
  function Max(a: int, b: int): int { if a >= b then a else b }
  function Abs(a: int): nat { if a < 0 then -a else a }

  /** Python's `int()` of a float: truncation toward zero. */
  function Trunc(f: real): (r: int)
    ensures Abs(r) as real <= (if f < 0.0 then -f else f) < Abs(r) as real + 1.0
    ensures (r < 0 ==> f < 0.0) && (f < 0.0 ==> r <= 0)
  {
    if f >= 0.0 then f.Floor else -((-f).Floor)
  }

  /** No element occurs twice. */
  predicate Distinct<T(==)>(s: seq<T>)
  {
    forall i, j :: 0 <= i < j < |s| ==> s[i] != s[j]
  }

  /** The index of the first occurrence of x in s. */
  function IndexOf<T(==)>(s: seq<T>, x: T): (i: nat)
    requires x in s
    ensures i < |s| && s[i] == x
    ensures forall j :: 0 <= j < i ==> s[j] != x
  {
    if s[0] == x then 0 else 1 + IndexOf(s[1..], x)
  }

  lemma IndexOfDistinct<T>(s: seq<T>, i: nat)
    requires Distinct(s) && i < |s|
    ensures IndexOf(s, s[i]) == i
  {
  }

  /** The dictionary view of a sequence of (key, value) pairs. */
  predicate DistinctKeys<K(==), V>(s: seq<(K, V)>)
  {
    forall i, j :: 0 <= i < j < |s| ==> s[i].0 != s[j].0
  }

  /** The key set of a list of pairs. */
  function Keys<K(==), V(==)>(s: seq<(K, V)>): set<K>
  {
    set p | p in s :: p.0
  }

  lemma KeysCons<K, V>(x: (K, V), s: seq<(K, V)>)
    ensures Keys([x] + s) == {x.0} + Keys(s)
  {
    var r := [x] + s;
    forall k | k in Keys(r) ensures k in {x.0} + Keys(s) {
      var p :| p in r && p.0 == k;
      if p != x { assert p in s; }
    }
    forall k | k in Keys(s) ensures k in Keys(r) {
      var p :| p in s && p.0 == k;
      assert p in r;
    }
    assert x in r;
  }

  /** Keys stay distinct under a new head exactly when its key is new. */
  lemma DistinctKeysCons<K, V>(x: (K, V), s: seq<(K, V)>)
    ensures DistinctKeys([x] + s) <==> DistinctKeys(s) && x.0 !in Keys(s)
  {
    var r := [x] + s;
    if DistinctKeys(r) {
      forall i, j | 0 <= i < j < |s| ensures s[i].0 != s[j].0 {
        assert r[i + 1] == s[i] && r[j + 1] == s[j];
      }
      forall p | p in s ensures p.0 != x.0 {
        var i :| 0 <= i < |s| && s[i] == p;
        assert r[0] == x && r[i + 1] == p;
      }
    }
    if DistinctKeys(s) && x.0 !in Keys(s) {
      forall i, j | 0 <= i < j < |r| ensures r[i].0 != r[j].0 {
        if i == 0 {
          assert r[j] == s[j - 1];
          assert r[j] in s;
        } else {
          assert r[i] == s[i - 1] && r[j] == s[j - 1];
        }
      }
    }
  }

  /** `d[key] = value` on a dictionary: replace in place, or append a new key.
      Its properties are stated by AssignFacts and AssignLookup, to be
      brought in where they are needed. */
  function Assign<K(==), V(==)>(d: seq<(K, V)>, key: K, value: V): seq<(K, V)>
  {
    if |d| == 0 then [(key, value)]
    else if d[0].0 == key then [(key, value)] + d[1..]
    else [d[0]] + Assign(d[1..], key, value)
  }

  /** After `d[key] = value` the keys are the old ones plus `key`, and the
      new pair is present. */
  lemma {:induction false} AssignKeys<K, V>(d: seq<(K, V)>, key: K, value: V)
    ensures Keys(Assign(d, key, value)) == Keys(d) + {key}
    ensures (key, value) in Assign(d, key, value)
  {
    if |d| > 0 {
      assert d == [d[0]] + d[1..];
      KeysCons(d[0], d[1..]);
      if d[0].0 == key {
        KeysCons((key, value), d[1..]);
      } else {
        AssignKeys(d[1..], key, value);
        KeysCons(d[0], Assign(d[1..], key, value));
      }
    }
  }

  /** A fresh key is appended at the end. */
  lemma {:induction false} AssignFresh<K, V>(d: seq<(K, V)>, key: K, value: V)
    requires key !in Keys(d)
    ensures Assign(d, key, value) == d + [(key, value)]
  {
    if |d| > 0 {
      assert d == [d[0]] + d[1..];
      KeysCons(d[0], d[1..]);
      AssignFresh(d[1..], key, value);
    }
  }

  /** Every pair after the write is an old one or the new one. */
  lemma {:induction false} AssignPairs<K, V>(d: seq<(K, V)>, key: K, value: V)
    ensures forall p :: p in Assign(d, key, value) ==> p in d || p == (key, value)
  {
    if |d| > 0 && d[0].0 != key {
      AssignPairs(d[1..], key, value);
    }
  }

  /** Distinct keys stay distinct. */
  lemma {:induction false} AssignDistinct<K, V>(d: seq<(K, V)>, key: K, value: V)
    requires DistinctKeys(d)
    ensures DistinctKeys(Assign(d, key, value))
  {
    if |d| > 0 {
      assert d == [d[0]] + d[1..];
      DistinctKeysCons(d[0], d[1..]);
      if d[0].0 == key {
        DistinctKeysCons((key, value), d[1..]);
      } else {
        var rest := Assign(d[1..], key, value);
        AssignDistinct(d[1..], key, value);
        AssignKeys(d[1..], key, value);
        KeysCons(d[0], d[1..]);
        DistinctKeysCons(d[0], rest);
      }
    }
  }

  /** dict.get(key): the value stored under a key, if any. */
  function Lookup<K(==), V>(s: seq<(K, V)>, key: K): Option<V>
  {
    if |s| == 0 then None
    else if s[0].0 == key then Some(s[0].1)
    else Lookup(s[1..], key)
  }

  /** A lookup fails exactly when no pair carries the key, and a value it
      finds is stored with that key. */
  lemma {:induction false} LookupFacts<K, V>(s: seq<(K, V)>, key: K)
    ensures Lookup(s, key).None? <==> forall i :: 0 <= i < |s| ==> s[i].0 != key
    ensures Lookup(s, key).Some? ==> exists i :: 0 <= i < |s| && s[i] == (key, Lookup(s, key).value)
  {
    if |s| > 0 && s[0].0 != key {
      LookupFacts(s[1..], key);
      assert forall i :: 1 <= i < |s| ==> s[1..][i - 1] == s[i];
      if Lookup(s, key).Some? {
        var j :| 0 <= j < |s| - 1 && s[1..][j] == (key, Lookup(s, key).value);
        assert s[j + 1] == (key, Lookup(s, key).value);
      }
    }
  }

  lemma LookupCons<K, V>(s: seq<(K, V)>, key: K)
    requires |s| > 0
    ensures Lookup(s, key) == if s[0].0 == key then Some(s[0].1) else Lookup(s[1..], key)
  {
  }

  /** Reading back after `d[key] = value` gives the new value under `key`
      and the old one under every other key. */
  lemma {:induction false} AssignLookup<K, V>(d: seq<(K, V)>, key: K, value: V, k: K)
    ensures Lookup(Assign(d, key, value), k) == if k == key then Some(value) else Lookup(d, k)
  {
    if |d| > 0 {
      var r := Assign(d, key, value);
      if d[0].0 == key {
        assert r[1..] == d[1..];
      } else {
        AssignLookup(d[1..], key, value, k);
        assert r[1..] == Assign(d[1..], key, value);
      }
    }
  }

  /** With distinct keys every stored pair is what a lookup finds. */
  lemma {:induction false} LookupDistinct<K, V>(s: seq<(K, V)>, i: nat)
    requires DistinctKeys(s) && i < |s|
    ensures Lookup(s, s[i].0) == Some(s[i].1)
  {
    if i > 0 {
      assert DistinctKeys(s[1..]);
      assert s[1..][i - 1] == s[i];
      LookupDistinct(s[1..], i - 1);
    }
  }

  /** The smallest element of a non-empty sequence (Python's min()). */
  function MinOf(s: seq<int>): (m: int)
    requires |s| > 0
    ensures m in s
    ensures forall i :: 0 <= i < |s| ==> m <= s[i]
  {
    if |s| == 1 then s[0] else Min(s[0], MinOf(s[1..]))
  }

  /** Moving every element by the same amount moves the minimum by it. */
  lemma MinOfShift(s: seq<int>, t: seq<int>, c: int)
    requires |s| == |t| > 0
    requires forall i :: 0 <= i < |s| ==> t[i] == s[i] - c
    ensures MinOf(t) == MinOf(s) - c
  {
    var j :| 0 <= j < |t| && t[j] == MinOf(t);
    var k :| 0 <= k < |s| && s[k] == MinOf(s);
    assert MinOf(s) <= s[j];
    assert MinOf(t) <= t[k];
  }

  /** The largest element of a non-empty sequence (Python's max()). */
  function MaxOf(s: seq<int>): (m: int)
    requires |s| > 0
    ensures m in s
    ensures forall i :: 0 <= i < |s| ==> s[i] <= m
  {
    if |s| == 1 then s[0] else Max(s[0], MaxOf(s[1..]))
  }
}
