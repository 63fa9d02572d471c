/** Triple loops flattened into one sequence. `Nest(n1, n2, n3)` lists the
    index triples (a, b, c) with a < n1, b < n2, c < n3 in the order three
    nested `for` loops visit them, `a` outermost and `c` innermost; the
    triple visited at step t satisfies t == (a * n2 + b) * n3 + c. */
module Grid {

  datatype Triple = Triple(a: nat, b: nat, c: nat)

  /** The innermost loop at fixed (a, b). */
  function Row(a: nat, b: nat, n3: nat): (r: seq<Triple>)
    ensures |r| == n3
    ensures forall c :: 0 <= c < n3 ==> r[c] == Triple(a, b, c)
  {
    seq(n3, c requires 0 <= c < n3 => Triple(a, b, c))
  }

  /** The two inner loops at fixed a: rows b = 0 .. n2-1. */
  function Plane(a: nat, n2: nat, n3: nat): seq<Triple>
  {
    if n2 == 0 then [] else Plane(a, n2 - 1, n3) + Row(a, n2 - 1, n3)
  }

  /** All three loops: planes a = 0 .. n1-1. */
  function Nest(n1: nat, n2: nat, n3: nat): seq<Triple>
  {
    if n1 == 0 then [] else Nest(n1 - 1, n2, n3) + Plane(n1 - 1, n2, n3)
  }

  predicate InBox(t: Triple, n1: nat, n2: nat, n3: nat)
  {
    t.a < n1 && t.b < n2 && t.c < n3
  }

  /** Position of a triple in the flattened order. */
  function Flat(t: Triple, n2: nat, n3: nat): nat
  {
    (t.a * n2 + t.b) * n3 + t.c
  }

  lemma MulLe(a: nat, b: nat, n: nat)
    requires a <= b
    ensures a * n <= b * n
  {
  }

  lemma MulPred(m: nat, n: nat)
    requires m > 0
    ensures (m - 1) * n + n == m * n
  {
  }

  lemma FlatSplit(t: Triple, n2: nat, n3: nat)
    ensures Flat(t, n2, n3) == t.a * (n2 * n3) + (t.b * n3 + t.c)
  {
    assert (t.a * n2 + t.b) * n3 == t.a * n2 * n3 + t.b * n3;
    assert t.a * n2 * n3 == t.a * (n2 * n3);
  }

  /** Below index q*n + r with r < n lies nothing of a block starting later. */
  lemma BlockBelow(a: nat, m: nat, k: nat, n: nat)
    requires a < m && k < n
    ensures a * n + k < m * n
  {
    MulLe(a + 1, m, n);
  }

  lemma {:induction false} PlaneLength(a: nat, n2: nat, n3: nat)
    ensures |Plane(a, n2, n3)| == n2 * n3
  {
    if n2 > 0 {
      PlaneLength(a, n2 - 1, n3);
      MulPred(n2, n3);
    }
  }

  lemma {:induction false} NestLength(n1: nat, n2: nat, n3: nat)
    ensures |Nest(n1, n2, n3)| == n1 * (n2 * n3)
  {
    if n1 > 0 {
      NestLength(n1 - 1, n2, n3);
      PlaneLength(n1 - 1, n2, n3);
      MulPred(n1, n2 * n3);
    }
  }

  /** Row b of plane a sits at offset b * n3 inside the plane. */
  lemma {:induction false} PlaneIndex(a: nat, n2: nat, n3: nat, b: nat, c: nat)
    requires b < n2 && c < n3
    ensures b * n3 + c < |Plane(a, n2, n3)|
    ensures Plane(a, n2, n3)[b * n3 + c] == Triple(a, b, c)
  {
    PlaneLength(a, n2, n3);
    PlaneLength(a, n2 - 1, n3);
    BlockBelow(b, n2, c, n3);
    if b < n2 - 1 {
      PlaneIndex(a, n2 - 1, n3, b, c);
      BlockBelow(b, n2 - 1, c, n3);
    }
  }

  /** Every in-range triple is visited at step `Flat`. */
  lemma {:induction false} NestIndex(n1: nat, n2: nat, n3: nat, t: Triple)
    requires InBox(t, n1, n2, n3)
    ensures Flat(t, n2, n3) < |Nest(n1, n2, n3)|
    ensures Nest(n1, n2, n3)[Flat(t, n2, n3)] == t
  {
    var p := n2 * n3;
    var k := t.b * n3 + t.c;
    NestLength(n1, n2, n3);
    NestLength(n1 - 1, n2, n3);
    PlaneIndex(t.a, n2, n3, t.b, t.c);
    PlaneLength(t.a, n2, n3);
    FlatSplit(t, n2, n3);
    BlockBelow(t.a, n1, k, p);
    if t.a < n1 - 1 {
      NestIndex(n1 - 1, n2, n3, t);
      BlockBelow(t.a, n1 - 1, k, p);
    }
  }

  /** Conversely every step visits an in-range triple. */
  lemma {:induction false} NestElements(n1: nat, n2: nat, n3: nat, i: nat)
    requires i < |Nest(n1, n2, n3)|
    ensures InBox(Nest(n1, n2, n3)[i], n1, n2, n3)
    ensures Flat(Nest(n1, n2, n3)[i], n2, n3) == i
  {
    NestLength(n1 - 1, n2, n3);
    var prefix := Nest(n1 - 1, n2, n3);
    if i < |prefix| {
      NestElements(n1 - 1, n2, n3, i);
    } else {
      PlaneElements(n1 - 1, n2, n3, i - |prefix|);
      FlatSplit(Nest(n1, n2, n3)[i], n2, n3);
    }
  }

  lemma {:induction false} PlaneElements(a: nat, n2: nat, n3: nat, j: nat)
    requires j < |Plane(a, n2, n3)|
    ensures Plane(a, n2, n3)[j].a == a
    ensures Plane(a, n2, n3)[j].b < n2 && Plane(a, n2, n3)[j].c < n3
    ensures Plane(a, n2, n3)[j].b * n3 + Plane(a, n2, n3)[j].c == j
  {
    PlaneLength(a, n2 - 1, n3);
    var prefix := Plane(a, n2 - 1, n3);
    if j < |prefix| {
      PlaneElements(a, n2 - 1, n3, j);
    }
  }

  /** A triple is visited iff it is in range, and no triple twice. */
  lemma NestMembership(n1: nat, n2: nat, n3: nat, t: Triple)
    ensures t in Nest(n1, n2, n3) <==> InBox(t, n1, n2, n3)
  {
    if InBox(t, n1, n2, n3) {
      NestIndex(n1, n2, n3, t);
    }
    if t in Nest(n1, n2, n3) {
      var i :| 0 <= i < |Nest(n1, n2, n3)| && Nest(n1, n2, n3)[i] == t;
      NestElements(n1, n2, n3, i);
    }
  }

  lemma NestDistinct(n1: nat, n2: nat, n3: nat, i: nat, j: nat)
    requires i < j < |Nest(n1, n2, n3)|
    ensures Nest(n1, n2, n3)[i] != Nest(n1, n2, n3)[j]
  {
    NestElements(n1, n2, n3, i);
    NestElements(n1, n2, n3, j);
  }
}
