/** The block-data stream of the Sponge schematic converter
    (`encode_block_data`): every id takes the same number of bits, packed
    lowest bits first into 64-bit words that may be split across an id,
    each word written as eight little-endian bytes, and a final partial
    word written whole. */
module SchemEncode {
  import opened Common
  import opened Bits

  /** The width of one packed word. */
  const WordBits: nat := 64
  const WordBytes: nat := 8

  /** The bits per id: one for a palette of at most one state, otherwise
      the bit length of the largest id (and never less than one). */
  function Width(paletteSize: nat): (w: nat)
    ensures w >= 1
  {
    if paletteSize <= 1 then 1 else Max(PyBitLength(paletteSize - 1), 1)
  }

  /** Every id of the palette fits in the width. */
  lemma WidthCovers(paletteSize: nat, id: nat)
    requires id < paletteSize
    ensures id < Pow2(Width(paletteSize))
  {
    if paletteSize >= 2 {
      var n: nat := paletteSize - 1;
      assert PyBitLength(paletteSize - 1) == BitLength(n);
      Pow2Mono(BitLength(n), Width(paletteSize));
    } else {
      assert Pow2(1) == 2;
    }
  }

  /** For a palette of two or more states no narrower width would do. */
  lemma WidthLeast(paletteSize: nat)
    requires paletteSize >= 2
    ensures Pow2(Width(paletteSize) - 1) < paletteSize
  {
    var n: nat := paletteSize - 1;
    assert PyBitLength(paletteSize - 1) == BitLength(n);
  }

  /** The reference encoding: the ids as one little-endian base-2^w number,
      written in as many whole 8-byte words as the bits need. */
  function Encoded(blocks: seq<nat>, w: nat): seq<Byte>
  {
    LE(Radix(blocks, w), 8 * CeilDiv(|blocks| * w, 64))
  }

  /** The reader's side: id i is the w-bit field i of the byte string read
      as one little-endian number. */
  function Decode(data: seq<Byte>, w: nat, n: nat): (r: seq<nat>)
    ensures |r| == n
  {
    seq(n, i requires 0 <= i < n => Field(FromLE(data), i, w))
  }

  /** Decoding the reference encoding gives back the ids, whenever each of
      them fits in the width. */
  lemma DecodeEncoded(blocks: seq<nat>, w: nat)
    requires Fits(blocks, w)
    ensures Decode(Encoded(blocks, w), w, |blocks|) == blocks
  {
    var n := 8 * CeilDiv(|blocks| * w, 64);
    var x := Radix(blocks, w);
    RadixBound(blocks, w);
    CeilDivBounds(|blocks| * w, 64);
    Pow2Mono(|blocks| * w, 8 * n);
    FromLEOfLE(x, n);
    SmallDivMod(x, 8 * n);
    forall i | 0 <= i < |blocks| ensures Decode(Encoded(blocks, w), w, |blocks|)[i] == blocks[i] {
      RadixField(blocks, w, i);
    }
  }

  /** The eight bytes `(cur >> 8*i) & 255` for i = 0 .. 7. */
  function Word(cur: nat): (r: seq<Byte>)
    ensures r == LE(cur, WordBytes)
  {
    var r := seq(8, i requires 0 <= i < 8 => (cur / Pow2(8 * i)) % 256);
    forall i | 0 <= i < 8 ensures r[i] == LE(cur, WordBytes)[i] {
      LEByte(cur, WordBytes, i);
    }
    r
  }

  /** `(x + c * p) // p == x // p + c`. */
  lemma DivAddMultiple(x: nat, c: nat, p: nat)
    requires p > 0
    ensures (x + c * p) / p == x / p + c
  {
    DivModUnique(x + c * p, p, x / p + c, x % p);
  }

  /** A number below 2^(a+b) shifted right by a is below 2^b. */
  lemma ShiftedBelow(x: nat, a: nat, b: nat)
    requires x < Pow2(a + b)
    ensures x / Pow2(a) < Pow2(b)
  {
    DivPow2Add(x, a, b);
    SmallDivMod(x, a + b);
    var y := x / Pow2(a);
    DivModUnique(y, Pow2(b), y / Pow2(b), y % Pow2(b));
  }

  /** A prefix of ids that fit also fits. */
  lemma FitsPrefix(s: seq<nat>, w: nat, k: nat)
    requires Fits(s, w) && k <= |s|
    ensures Fits(s[..k], w)
  {
    assert forall i :: 0 <= i < k ==> s[..k][i] == s[i];
  }

  /** Or-ing the next id in at bit `used` of the pending word is adding the
      next field to the number the stream spells out. */
  lemma StepValue(x: nat, m: nat, id: nat, q: nat, used: nat)
    requires x < Pow2(m) && m == 64 * q + used
    ensures x / Pow2(64 * q) < Pow2(used)
    ensures (x + id * Pow2(m)) / Pow2(64 * q) == x / Pow2(64 * q) + id * Pow2(used)
  {
    ShiftedBelow(x, 64 * q, used);
    Pow2Add(64 * q, used);
    DivStep(x, id, Pow2(64 * q), Pow2(used), Pow2(m));
  }

  /** Or-ing a value in above the bits in use is adding it there. */
  lemma OrShl(a: nat, id: nat, s: nat)
    requires a < Pow2(s)
    ensures Or(a, Shl(id, s)) == a + id * Pow2(s)
  {
    OrDisjoint(a, id, s);
  }

  /** `(x + c * (p * u)) // p == x // p + c * u`. */
  lemma DivStep(x: nat, c: nat, p: nat, u: nat, pu: nat)
    requires p > 0 && pu == p * u
    ensures (x + c * pu) / p == x / p + c * u
  {
    MulComm(p, u);
    MulAssoc(c, u, p);
    MulNonneg(c, u);
    DivAddMultiple(x, c * u, p);
  }

  /** Adding a multiple of 2^m leaves the bytes below bit m alone. */
  lemma {:induction false} LowBytesKept(x: nat, c: nat, m: nat, n: nat)
    requires 8 * n <= m
    ensures LE(x + c * Pow2(m), n) == LE(x, n)
  {
    if n > 0 {
      var d := c * Pow2(m - 8);
      ByteAbove(c, m);
      ByteShift(x, d);
      LowBytesKept(x / 256, c, m - 8, n - 1);
    }
  }

  lemma ByteAbove(c: nat, m: nat)
    requires m >= 8
    ensures c * Pow2(m) == (c * Pow2(m - 8)) * 256
  {
    var p := Pow2(m - 8);
    Pow2Add(8, m - 8);
    Pow2Byte(0);
    assert Pow2(m) == 256 * p;
    MulAssoc(c, 256, p);
    MulComm(256, p);
    MulAssoc(c, p, 256);
  }

  lemma ByteShift(x: nat, d: nat)
    ensures (x + d * 256) % 256 == x % 256 && (x + d * 256) / 256 == x / 256 + d
  {
    DivModUnique(x + d * 256, 256, x / 256 + d, x % 256);
  }

  /** The outer loop's step on the number the stream spells out. */
  lemma OuterStep(blocks: seq<nat>, w: nat, k: nat, q: nat, used: nat)
    requires Fits(blocks, w) && k < |blocks|
    requires k * w == 64 * q + used
    ensures Or(Radix(blocks[..k], w) / Pow2(64 * q), Shl(blocks[k], used)) ==
      Radix(blocks[..k + 1], w) / Pow2(64 * q)
    ensures LE(Radix(blocks[..k + 1], w), 8 * q) == LE(Radix(blocks[..k], w), 8 * q)
  {
    var done := blocks[..k];
    assert blocks[..k + 1] == done + [blocks[k]];
    FitsPrefix(blocks, w, k);
    RadixBound(done, w);
    RadixAppend(done, blocks[k], w);
    NumStep(Radix(done, w), Radix(blocks[..k + 1], w), k * w, blocks[k], q, used);
  }

  /** OuterStep on the numbers alone: y is x with `id` added at bit m. */
  lemma NumStep(x: nat, y: nat, m: nat, id: nat, q: nat, used: nat)
    requires x < Pow2(m) && m == 64 * q + used && y == x + id * Pow2(m)
    ensures Or(x / Pow2(64 * q), Shl(id, used)) == y / Pow2(64 * q)
    ensures LE(y, 8 * q) == LE(x, 8 * q)
  {
    StepValue(x, m, id, q, used);
    OrShl(Shr(x, 64 * q), id, used);
    LowBytesKept(x, id, m, 8 * q);
  }

  lemma MulSucc(k: nat, w: nat)
    ensures (k + 1) * w == k * w + w
  {
  }

  /** Flushing one word: the eight bytes of the pending word extend the
      written bytes, and the pending word drops its low 64 bits. */
  lemma FlushValue(x: nat, q: nat)
    ensures LE(x, 8 * q) + LE(x / Pow2(64 * q), WordBytes) == LE(x, 8 * (q + 1))
    ensures (x / Pow2(64 * q)) / Pow2(64) == x / Pow2(64 * (q + 1))
  {
    assert 8 * (8 * q) == 64 * q;
    LESplit(x, 8 * q, WordBytes);
    assert 64 * (q + 1) == 64 * q + 64;
    DivPow2Add(x, 64 * q, 64);
  }

  /** One pass of the inner loop keeps the written bytes and the pending
      word in step with the number the stream spells out. */
  lemma FlushStep(x: nat, q: nat, cur: nat, data: seq<Byte>)
    requires cur == x / Pow2(64 * q) && data == LE(x, 8 * q)
    ensures data + Word(cur) == LE(x, 8 * (q + 1))
    ensures Shr(cur, WordBits) == x / Pow2(64 * (q + 1))
  {
    FlushValue(x, q);
  }

  /** The inner loop: write out every complete 64-bit word of the pending
      bits. `x` is the number the whole stream spells out so far and `q`
      the number of words already written. */
  method FlushFull(data: seq<Byte>, cur: nat, used: nat, ghost fits: bool, ghost x: nat, ghost q: nat, ghost total: nat)
    returns (data': seq<Byte>, cur': nat, used': nat, ghost q': nat)
    requires total == 64 * q + used && |data| == 8 * q
    requires fits ==> cur == x / Pow2(64 * q) && data == LE(x, 8 * q)
    ensures used' < 64 && total == 64 * q' + used' && |data'| == 8 * q'
    ensures fits ==> cur' == x / Pow2(64 * q') && data' == LE(x, 8 * q')
  {
    data', cur', used', q' := data, cur, used, q;
    while used' >= 64
      invariant total == 64 * q' + used' && |data'| == 8 * q'
      invariant fits ==> cur' == x / Pow2(64 * q') && data' == LE(x, 8 * q')
    {
      if fits {
        FlushStep(x, q', cur', data');
      }
      data' := data' + Word(cur');
      cur' := Shr(cur', WordBits);
      used' := used' - 64;
      q' := q' + 1;
    }
  }

  /** `encode_block_data(blocks, palette_size)`, following the source's
      loops. The output always has 8 bytes per started 64-bit word, and
      when every id fits in the width it is the reference encoding. */
  method EncodeBlockData(blocks: seq<nat>, paletteSize: nat) returns (data: seq<Byte>)
    ensures |data| == 8 * CeilDiv(|blocks| * Width(paletteSize), 64)
    ensures Fits(blocks, Width(paletteSize)) ==> data == Encoded(blocks, Width(paletteSize))
  {
    var w := Width(paletteSize);
    ghost var fits := Fits(blocks, w);
    data := [];
    var cur: nat := 0;
    var used: nat := 0;
    ghost var q: nat := 0;
    ghost var total: nat := 0;
    var k := 0;
    while k < |blocks|
      invariant 0 <= k <= |blocks| && total == k * w
      invariant used < 64 && total == 64 * q + used && |data| == 8 * q
      invariant fits ==> cur == Radix(blocks[..k], w) / Pow2(64 * q)
      invariant fits ==> data == LE(Radix(blocks[..k], w), 8 * q)
    {
      if fits {
        OuterStep(blocks, w, k, q, used);
      }
      cur := Or(cur, Shl(blocks[k], used));
      used := used + w;
      MulSucc(k, w);
      total := total + w;
      k := k + 1;
      ghost var x := Radix(blocks[..k], w);
      data, cur, used, q := FlushFull(data, cur, used, fits, x, q, total);
    }
    assert blocks[..k] == blocks;
    FinalWords(total, q, used);
    if used > 0 {
      FlushValue(Radix(blocks, w), q);
      data := data + Word(cur);
    }
  }

  /** A last partial word is written out; an empty one is not. */
  lemma FinalWords(total: nat, q: nat, used: nat)
    requires used < 64 && total == 64 * q + used
    ensures CeilDiv(total, 64) == if used > 0 then q + 1 else q
  {
    if used > 0 {
      DivModUnique(total + 63, 64, q + 1, used - 1);
    } else {
      DivModUnique(total + 63, 64, q, 63);
    }
  }

  // ---------------------------------------------------------------------
  // One byte per block
  // ---------------------------------------------------------------------

  /** The one-byte form of an id, used by the classic format's `Blocks`
      array and by the fallback when the packed encoding raises: ids above
      255 become id 0, the first state the region's scan met, which need
      not be air. */
  function LegacyByte(id: nat): (b: Byte)
    ensures b == id <==> id <= 255
    ensures b != id ==> b == 0
  {
    if id <= 255 then id else 0
  }

  /** The fallback byte list: one byte per block, in block order. */
  function LegacyBytes(blocks: seq<nat>): (r: seq<Byte>)
    ensures |r| == |blocks|
    ensures forall i :: 0 <= i < |blocks| ==> r[i] == LegacyByte(blocks[i])
  {
    seq(|blocks|, i requires 0 <= i < |blocks| => LegacyByte(blocks[i]))
  }
}
