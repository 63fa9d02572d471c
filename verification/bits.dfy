/** Bit arithmetic on unbounded naturals, the way Python's `int` does it:
    bitwise or, shifts as multiplication/division by powers of two, fixed-width
    fields, little-endian byte strings and big-endian u32 fields. */
module Bits {
  import opened Common

  /** A byte value. */
  type Byte = b: nat | b < 256

  // ---------------------------------------------------------------------
  // Division facts

  lemma DivModUnique(n: int, d: int, q: int, r: int)
    requires d > 0 && 0 <= r < d && n == q * d + r
    ensures n / d == q && n % d == r
  {
    var q0 := n / d;
    var r0 := n % d;
    assert n == q0 * d + r0;
    var e := q - q0;
    assert e * d == q * d - q0 * d;
    MulBand(e, d);
  }

  /** A non-zero multiple of d is at least d away from 0. */
  lemma MulBand(e: int, d: int)
    requires d > 0
    ensures e >= 1 ==> e * d >= d
    ensures e <= -1 ==> e * d <= -d
  {
    if e >= 1 {
      MulMonoLeft(1, e, d);
    }
    if e <= -1 {
      MulMonoLeft(e, -1, d);
    }
  }

  lemma Distrib(p: int, x: int, y: int)
    ensures p * (x + y) == p * x + p * y
  {
  }

  lemma MulAssoc(a: int, b: int, c: int)
    ensures a * (b * c) == (a * b) * c
  {
  }

  lemma MulComm(a: int, b: int)
    ensures a * b == b * a
  {
  }

  lemma MulAssocComm(p: int, d: int, q: int)
    ensures p * (d * q) == d * (p * q)
  {
  }

  lemma MulMonoLeft(a: int, b: int, c: int)
    requires a <= b && c >= 0
    ensures a * c <= b * c
  {
    assert b * c - a * c == (b - a) * c;
  }

  /** Dividing by a*b is dividing by a, then by b; the remainder splits likewise. */
  lemma DivModMul(x: nat, a: nat, b: nat)
    requires a > 0 && b > 0
    ensures x / (a * b) == (x / a) / b
    ensures x % (a * b) == x % a + a * ((x / a) % b)
  {
    var y := x / a;
    var q := y / b;
    var m := y % b;
    var r := x % a + a * m;
    assert x == a * y + x % a;
    assert y == b * q + m;
    Distrib(a, b * q, m);
    MulAssoc(a, b, q);
    assert x == (a * b) * q + r;
    MulMonoLeft(m, b - 1, a);
    Distrib(a, b, -1);
    MulComm(a, b);
    DivModUnique(x, a * b, q, r);
  }

  lemma DivPow2Add(x: nat, a: nat, b: nat)
    ensures x / Pow2(a + b) == (x / Pow2(a)) / Pow2(b)
    ensures x % Pow2(a + b) == x % Pow2(a) + Pow2(a) * ((x / Pow2(a)) % Pow2(b))
  {
    Pow2Add(a, b);
    DivModMul(x, Pow2(a), Pow2(b));
  }

  /** A value below 2^k is its own remainder and has no bits at or above k. */
  lemma SmallDivMod(x: nat, k: nat)
    requires x < Pow2(k)
    ensures x / Pow2(k) == 0 && x % Pow2(k) == x
  {
    DivModUnique(x, Pow2(k), 0, x);
  }

  lemma MulNonneg(a: nat, b: nat)
    ensures a * b >= 0
  {
  }

  /** Python's `x << s`. */
  function Shl(x: nat, s: nat): (r: nat)
    ensures r == x * Pow2(s)
  {
    MulNonneg(x, Pow2(s));
    x * Pow2(s)
  }

  /** Python's `x >> s`. */
  function Shr(x: nat, s: nat): (r: nat)
    ensures r == x / Pow2(s)
  {
    x / Pow2(s)
  }

  // ---------------------------------------------------------------------
  // Bitwise or

  /** Python's `a | b` on non-negative integers. */
  function Or(a: nat, b: nat): nat
    decreases a + b
  {
    if a == 0 then b
    else if b == 0 then a
    else 2 * Or(a / 2, b / 2) + (if a % 2 == 1 || b % 2 == 1 then 1 else 0)
  }

  /** Or-ing a value into bits that are all zero is addition. */
  lemma {:induction false} OrDisjoint(a: nat, b: nat, s: nat)
    requires a < Pow2(s)
    ensures Or(a, b * Pow2(s)) == a + b * Pow2(s)
  {
    if s > 0 && a != 0 && b != 0 {
      var h := b * Pow2(s - 1);
      assert b * Pow2(s) == 2 * h;
      assert (2 * h) / 2 == h && (2 * h) % 2 == 0;
      OrDisjoint(a / 2, b, s - 1);
      assert Or(a, 2 * h) == 2 * Or(a / 2, h) + a % 2;
    }
  }

  /** Shifting right commutes with or. */
  lemma {:induction false} OrDivPow2(a: nat, b: nat, k: nat)
    ensures Or(a, b) / Pow2(k) == Or(a / Pow2(k), b / Pow2(k))
  {
    if k > 0 {
      OrDivPow2(a / 2, b / 2, k - 1);
      OrHalf(a, b);
      HalveThenDiv(Or(a, b), k);
      HalveThenDiv(a, k);
      HalveThenDiv(b, k);
    }
  }

  /** `x >> k` is `(x >> 1) >> (k - 1)`. */
  lemma HalveThenDiv(x: nat, k: nat)
    requires k > 0
    ensures x / Pow2(k) == (x / 2) / Pow2(k - 1)
  {
    DivModMul(x, 2, Pow2(k - 1));
  }

  lemma OrHalf(a: nat, b: nat)
    ensures Or(a, b) / 2 == Or(a / 2, b / 2)
  {
    if a != 0 && b != 0 {
      var o := Or(a / 2, b / 2);
      var bit := if a % 2 == 1 || b % 2 == 1 then 1 else 0;
      assert Or(a, b) == 2 * o + bit;
      DivModUnique(Or(a, b), 2, o, bit);
    }
  }

  /** Or-ing in an even number keeps the lowest bit. */
  lemma OrLowBit(a: nat, c: nat)
    requires c % 2 == 0
    ensures Or(a, c) % 2 == a % 2
  {
    if a != 0 && c != 0 {
      var o := Or(a / 2, c / 2);
      assert Or(a, c) == 2 * o + (if a % 2 == 1 then 1 else 0);
    }
  }

  /** Or-ing in a value shifted to bit s leaves every bit below s alone. */
  lemma {:induction false} OrLowBits(a: nat, b: nat, s: nat, k: nat)
    requires k <= s
    ensures Or(a, b * Pow2(s)) % Pow2(k) == a % Pow2(k)
  {
    if k > 0 {
      var c := b * Pow2(s);
      var h := b * Pow2(s - 1);
      assert c == 2 * h;
      assert c / 2 == h && c % 2 == 0;
      OrLowBit(a, c);
      OrHalf(a, c);
      DivPow2Add(Or(a, c), 1, k - 1);
      DivPow2Add(a, 1, k - 1);
      OrLowBits(a / 2, b, s - 1, k - 1);
    }
  }

  // ---------------------------------------------------------------------
  // Little-endian base-2^w numbers

  /** The number whose consecutive w-bit fields, lowest first, are s. */
  function Radix(s: seq<nat>, w: nat): nat
  {
    if |s| == 0 then 0 else s[0] + Pow2(w) * Radix(s[1..], w)
  }

  /** Every entry fits in w bits. */
  predicate Fits(s: seq<nat>, w: nat)
  {
    forall i :: 0 <= i < |s| ==> s[i] < Pow2(w)
  }

  /** The w-bit field number j of x. */
  function Field(x: nat, j: nat, w: nat): nat
  {
    (x / Pow2(j * w)) % Pow2(w)
  }

  lemma {:induction false} RadixBound(s: seq<nat>, w: nat)
    requires Fits(s, w)
    ensures Radix(s, w) < Pow2(|s| * w)
  {
    if |s| > 0 {
      var tail := s[1..];
      assert Fits(tail, w) by {
        forall i | 0 <= i < |tail| ensures tail[i] < Pow2(w) {
          assert tail[i] == s[i + 1];
        }
      }
      RadixBound(tail, w);
      Pow2Step(|tail|, w);
      DigitBelow(s[0], Radix(tail, w), Pow2(w), Pow2(|tail| * w));
    }
  }

  /** A digit below p under a number below q stays below p * q. */
  lemma DigitBelow(a: nat, t: nat, p: nat, q: nat)
    requires a < p && t < q
    ensures a + p * t < p * q
  {
    MulMonoLeft(t + 1, q, p);
    assert (t + 1) * p == p * t + p;
    assert q * p == p * q;
  }

  /** Appending a field puts it just above the existing ones. */
  lemma {:induction false} RadixAppend(s: seq<nat>, d: nat, w: nat)
    ensures Radix(s + [d], w) == Radix(s, w) + d * Pow2(|s| * w)
  {
    if |s| > 0 {
      var t := s[1..];
      assert (s + [d])[1..] == t + [d];
      RadixAppend(t, d, w);
      Pow2Step(|t|, w);
      ShiftAbove(s[0], Pow2(w), Radix(t, w), d, Pow2(|t| * w));
    }
  }

  /** One more field is w more bits. */
  lemma Pow2Step(n: nat, w: nat)
    ensures Pow2((n + 1) * w) == Pow2(w) * Pow2(n * w)
  {
    assert (n + 1) * w == w + n * w;
    Pow2Add(w, n * w);
  }

  /** The arithmetic step of RadixAppend. */
  lemma ShiftAbove(a: int, p: int, u: int, d: int, q: int)
    ensures a + p * (u + d * q) == (a + p * u) + d * (p * q)
  {
    Distrib(p, u, d * q);
    MulAssocComm(p, d, q);
  }

  /** Field j of x is field j - 1 of x >> w. */
  lemma FieldShift(x: nat, j: nat, w: nat)
    requires j > 0
    ensures Field(x, j, w) == Field(x / Pow2(w), j - 1, w)
  {
    assert j * w == w + (j - 1) * w;
    DivPow2Add(x, w, (j - 1) * w);
  }

  /** Reading field j of a radix number gives entry j, and 0 past the end. */
  lemma {:induction false} RadixField(s: seq<nat>, w: nat, j: nat)
    requires Fits(s, w)
    ensures Field(Radix(s, w), j, w) == if j < |s| then s[j] else 0
  {
    var x := Radix(s, w);
    if |s| == 0 {
      assert x == 0;
    } else {
      var t := Radix(s[1..], w);
      assert x == s[0] + Pow2(w) * t;
      MulComm(Pow2(w), t);
      DivModUnique(x, Pow2(w), t, s[0]);
      if j == 0 {
        assert 0 * w == 0 && Pow2(0) == 1;
        assert Field(x, 0, w) == x % Pow2(w);
      } else {
        FieldShift(x, j, w);
        assert Fits(s[1..], w);
        RadixField(s[1..], w, j - 1);
      }
    }
  }

  // ---------------------------------------------------------------------
  // Little-endian bytes

  /** The n low-order bytes of x, least significant first. */
  function LE(x: nat, n: nat): (r: seq<Byte>)
    ensures |r| == n
  {
    if n == 0 then [] else [x % 256] + LE(x / 256, n - 1)
  }

  /** The value of a little-endian byte string. */
  function FromLE(bs: seq<Byte>): nat
  {
    if |bs| == 0 then 0 else bs[0] + 256 * FromLE(bs[1..])
  }

  lemma Pow2Byte(n: nat)
    ensures Pow2(8 * n + 8) == 256 * Pow2(8 * n)
    ensures Pow2(8) == 256
  {
    Pow2Add(8, 8 * n);
    assert Pow2(8) == 256 by {
      assert Pow2(4) == 16;
    }
  }

  /** Reading n little-endian bytes back gives x modulo 2^(8n). */
  lemma {:induction false} FromLEOfLE(x: nat, n: nat)
    ensures FromLE(LE(x, n)) == x % Pow2(8 * n)
  {
    if n > 0 {
      FromLEOfLE(x / 256, n - 1);
      Pow2Byte(n - 1);
      DivPow2Add(x, 8, 8 * (n - 1));
    }
  }

  /** Byte i of the little-endian encoding is `(x >> 8*i) & 255`. */
  lemma {:induction false} LEByte(x: nat, n: nat, i: nat)
    requires i < n
    ensures LE(x, n)[i] == (x / Pow2(8 * i)) % 256
  {
    if i > 0 {
      LEByte(x / 256, n - 1, i - 1);
      Pow2Byte(i - 1);
      DivPow2Add(x, 8, 8 * (i - 1));
    }
  }

  /** Encoding a + b bytes is encoding a bytes, then the next b bytes. */
  lemma {:induction false} LESplit(x: nat, a: nat, b: nat)
    ensures LE(x, a + b) == LE(x, a) + LE(x / Pow2(8 * a), b)
  {
    if a > 0 {
      LESplit(x / 256, a - 1, b);
      Pow2Byte(a - 1);
      DivPow2Add(x, 8, 8 * (a - 1));
    }
  }

  // ---------------------------------------------------------------------
  // Big-endian u32 (struct.pack('>I', n))

  const U32Limit: nat := 0x1_0000_0000

  /** The four big-endian bytes of n. */
  function U32BE(n: nat): (r: seq<Byte>)
    requires n < U32Limit
    ensures |r| == 4
  {
    [n / 0x100_0000, (n / 0x1_0000) % 256, (n / 0x100) % 256, n % 256]
  }

  /** struct.unpack('>I', bs). */
  function ReadU32BE(bs: seq<Byte>): nat
    requires |bs| == 4
  {
    var b0: nat := bs[0];
    var b1: nat := bs[1];
    var b2: nat := bs[2];
    var b3: nat := bs[3];
    ((b0 * 256 + b1) * 256 + b2) * 256 + b3
  }

  lemma U32RoundTrip(n: nat)
    requires n < U32Limit
    ensures ReadU32BE(U32BE(n)) == n
  {
    var q1 := n / 256;
    var q2 := q1 / 256;
    var q3 := q2 / 256;
    DivModMul(n, 256, 256);
    DivModMul(n, 256 * 256, 256);
    assert n / 0x1_0000 == q2 && n / 0x100_0000 == q3;
    assert q2 == q3 * 256 + q2 % 256;
    assert q1 == q2 * 256 + q1 % 256;
    assert n == q1 * 256 + n % 256;
  }

  /** Every four bytes are the encoding of the value they read as. */
  lemma U32Surjective(bs: seq<Byte>)
    requires |bs| == 4
    ensures ReadU32BE(bs) < U32Limit
    ensures U32BE(ReadU32BE(bs)) == bs
  {
    var b0: nat := bs[0];
    var b1: nat := bs[1];
    var b2: nat := bs[2];
    var b3: nat := bs[3];
    var h2 := b0 * 256 + b1;
    var h1 := h2 * 256 + b2;
    var n := h1 * 256 + b3;
    DivModUnique(n, 256, h1, b3);
    DivModUnique(h1, 256, h2, b2);
    DivModUnique(h2, 256, b0, b1);
    DivModMul(n, 256, 256);
    DivModMul(n, 256 * 256, 256);
    assert n / 0x1_0000 == h2;
    assert n / 0x100_0000 == b0;
  }
}
