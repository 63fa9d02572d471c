/** The word-aligned block-state packer of the blueprint format
    (`pack_data_array`): palette indices are stored in 64-bit words at a fixed
    width of at least 4 bits, no entry straddles two words, and every word is
    written as a signed 64-bit value. */
module Packing {
  import opened Common
  import opened Bits

  /** Slots in one chunk (16 x 16 x 16). */
  const ChunkVolume: nat := 4096

  const Pow63: nat := 0x8000_0000_0000_0000
  const Pow64: nat := 0x1_0000_0000_0000_0000

  /** `max(4, (palette_size - 1).bit_length())`; Python's bit_length of -1 is 1. */
  function BitsPerBlock(paletteSize: nat): nat
  {
    Max(4, PyBitLength(paletteSize - 1))
  }

  /** The palettes the packer can handle: 64 // bits must not be 0. */
  predicate PackablePalette(paletteSize: nat)
  {
    paletteSize <= Pow64
  }

  function BlocksPerLong(paletteSize: nat): (k: nat)
    requires PackablePalette(paletteSize)
    ensures 1 <= k <= 16
  {
    BitsPerBlockAtMost64(paletteSize);
    64 / BitsPerBlock(paletteSize)
  }

  /** The bits of a word that hold entries; the rest stay zero. */
  function UsedBits(paletteSize: nat): nat
    requires PackablePalette(paletteSize)
  {
    MulNonneg(BlocksPerLong(paletteSize), BitsPerBlock(paletteSize));
    BlocksPerLong(paletteSize) * BitsPerBlock(paletteSize)
  }

  function NumLongs(paletteSize: nat): nat
    requires PackablePalette(paletteSize)
  {
    BitsPerBlockAtMost64(paletteSize);
    CeilDiv(ChunkVolume, BlocksPerLong(paletteSize))
  }

  lemma Pow64Value()
    ensures Pow2(64) == Pow64 && Pow2(63) == Pow63
  {
    Pow2Byte(0);
    assert Pow2(8) == 256;
    Pow2Add(8, 8);
    assert Pow2(16) == 0x1_0000;
    Pow2Add(16, 16);
    assert Pow2(32) == 0x1_0000_0000;
    Pow2Add(32, 32);
    assert Pow2(64) == Pow64;
    Pow2Add(31, 32);
    Pow2Add(15, 16);
    Pow2Add(7, 8);
    assert Pow2(7) == 128;
    assert Pow2(15) == 0x8000;
    assert Pow2(31) == 0x8000_0000;
  }

  /** The width is between 4 and 64, and one word holds at least one entry. */
  lemma BitsPerBlockAtMost64(paletteSize: nat)
    requires PackablePalette(paletteSize)
    ensures 4 <= BitsPerBlock(paletteSize) <= 64
    ensures 1 <= 64 / BitsPerBlock(paletteSize) <= 16
  {
    Pow64Value();
    if paletteSize >= 1 {
      BitLengthLeast(paletteSize - 1, 64);
    }
    WordCapacity(BitsPerBlock(paletteSize));
  }

  lemma WordCapacity(b: nat)
    requires 4 <= b <= 64
    ensures 1 <= 64 / b <= 16
  {
    var q := 64 / b;
    assert 64 == q * b + 64 % b;
    MulMonoLeft(4, b, q);
    assert q * 4 <= q * b;
    assert q == 0 ==> q * b == 0;
  }

  /** Every id of the palette fits in the chosen width. */
  lemma BitsPerBlockCovers(paletteSize: nat, id: nat)
    requires id < paletteSize
    ensures id < Pow2(BitsPerBlock(paletteSize))
  {
    var b := PyBitLength(paletteSize - 1);
    assert id <= paletteSize - 1 < Pow2(b);
    Pow2Mono(b, BitsPerBlock(paletteSize));
  }

  /** `bits` is the least width of at least 4 that addresses every id. */
  lemma BitsPerBlockLeast(paletteSize: nat, w: nat)
    requires paletteSize >= 1 && w >= 4 && paletteSize - 1 < Pow2(w)
    ensures BitsPerBlock(paletteSize) <= w
  {
    var n: nat := paletteSize - 1;
    assert PyBitLength(paletteSize - 1) == BitLength(n);
    BitLengthLeast(n, w);
  }

  /** Any palette of at most 16 entries packs at 4 bits into 256 words. */
  lemma SmallPaletteShape(paletteSize: nat)
    requires paletteSize <= 16
    ensures BitsPerBlock(paletteSize) == 4
    ensures BlocksPerLong(paletteSize) == 16
    ensures NumLongs(paletteSize) == 256
  {
    if paletteSize >= 1 {
      assert Pow2(4) == 16;
      BitLengthLeast(paletteSize - 1, 4);
    }
  }

  /** Words as a consumer reads them: the unsigned value of a signed word. */
  function Unsigned(v: int): nat
  {
    v % Pow64
  }

  /** The sign fix-up applied to every packed word: values of 2^63 or more
      lose 2^64. On a 64-bit word this is its two's-complement value. */
  function SignWord(u: nat): (v: int)
    ensures u < Pow64 ==> -(Pow63 as int) <= v < Pow63 && Unsigned(v) == u
  {
    if u >= Pow63 then u - Pow64 else u
  }

  /** The consumer's view of entry i of a k-per-word, w-bit packing:
      field `i mod k` of the unsigned value of word `i div k`. */
  function ReadEntry(packed: seq<int>, i: nat, k: nat, w: nat): nat
    requires k > 0 && i < |packed| * k
  {
    DivBelow(i, k, |packed|);
    Field(Unsigned(packed[i / k]), i % k, w)
  }

  /** Entry i of data, or 0 past its end (an unused slot). */
  function EntryOr0(data: seq<nat>, i: nat): nat
  {
    if i < |data| then data[i] else 0
  }

  /** The entries of data that land in word w once the first n are packed. */
  function WordEntries(data: seq<nat>, w: nat, k: nat, n: nat): seq<nat>
    requires n <= |data|
  {
    data[Min(w * k, n)..Min((w + 1) * k, n)]
  }

  /** i // k and i % k place i in word i // k, slot i % k. */
  lemma Placement(i: nat, k: nat)
    requires k > 0
    ensures (i / k) * k <= i < (i / k + 1) * k
    ensures i == (i / k) * k + i % k
  {
  }

  lemma MulStep(a: nat, b: nat, k: nat)
    requires a < b
    ensures (a + 1) * k <= b * k
  {
    MulMonoLeft(a + 1, b, k);
  }

  /** An index below n * k lies in one of the first n words. */
  lemma DivBelow(i: nat, k: nat, n: nat)
    requires k > 0 && i < n * k
    ensures i / k < n
  {
    Placement(i, k);
    if n <= i / k {
      MulMonoLeft(n, i / k, k);
    }
  }

  /** Packing entry i changes only the entries of word i // k. */
  lemma WordEntriesStep(data: seq<nat>, w: nat, k: nat, i: nat)
    requires k > 0 && i < |data|
    ensures w != i / k ==> WordEntries(data, w, k, i + 1) == WordEntries(data, w, k, i)
    ensures w == i / k ==> WordEntries(data, w, k, i + 1) == WordEntries(data, w, k, i) + [data[i]]
    ensures w == i / k ==> |WordEntries(data, w, k, i)| == i % k
  {
    var w0 := i / k;
    Placement(i, k);
    if w < w0 {
      MulStep(w, w0, k);
    } else if w > w0 {
      MulStep(w0, w, k);
    }
  }

  /** One step of the packing loop: `packed[i // k] |= x << (i % k) * bits`. */
  function PackEntry(words: seq<nat>, i: nat, x: nat, k: nat, bits: nat): (r: seq<nat>)
    requires k > 0 && i / k < |words|
    ensures |r| == |words|
  {
    words[i / k := Or(words[i / k], Shl(x, (i % k) * bits))]
  }

  /** Every word holds exactly the entries packed into it so far. */
  ghost predicate WordsHold(words: seq<nat>, data: seq<nat>, k: nat, bits: nat, n: nat)
    requires n <= |data|
  {
    forall w :: 0 <= w < |words| ==> words[w] == Radix(WordEntries(data, w, k, n), bits)
  }

  /** One iteration of the packing loop keeps WordsHold. */
  lemma PackStep(words: seq<nat>, data: seq<nat>, k: nat, bits: nat, i: nat)
    requires k > 0 && i < |data| && i / k < |words|
    requires Fits(data, bits)
    requires WordsHold(words, data, k, bits, i)
    ensures WordsHold(PackEntry(words, i, data[i], k, bits), data, k, bits, i + 1)
  {
    forall w | 0 <= w < |words|
      ensures PackEntry(words, i, data[i], k, bits)[w] == Radix(WordEntries(data, w, k, i + 1), bits)
    {
      PackStepWord(words, data, k, bits, i, w);
    }
  }

  lemma PackStepWord(words: seq<nat>, data: seq<nat>, k: nat, bits: nat, i: nat, w: nat)
    requires k > 0 && i < |data| && i / k < |words| && w < |words|
    requires Fits(data, bits)
    requires words[w] == Radix(WordEntries(data, w, k, i), bits)
    ensures PackEntry(words, i, data[i], k, bits)[w] == Radix(WordEntries(data, w, k, i + 1), bits)
  {
    WordEntriesStep(data, w, k, i);
    if w == i / k {
      var off := (i % k) * bits;
      var prior := WordEntries(data, w, k, i);
      WordEntriesFit(data, w, k, i, bits);
      RadixBound(prior, bits);
      assert |prior| * bits == off;
      OrDisjoint(words[w], data[i], off);
      RadixAppend(prior, data[i], bits);
    }
  }

  /** After the loop, word w holds a radix number of at most k fields. */
  lemma WordBound(words: seq<nat>, data: seq<nat>, k: nat, bits: nat, w: nat)
    requires k > 0 && k * bits <= 64 && w < |words|
    requires Fits(data, bits)
    requires WordsHold(words, data, k, bits, |data|)
    ensures words[w] < Pow2(k * bits) <= Pow2(64)
  {
    var e := WordEntries(data, w, k, |data|);
    WordEntriesFit(data, w, k, |data|, bits);
    WordEntriesShort(data, w, k, |data|);
    RadixBound(e, bits);
    MulMonoLeft(|e|, k, bits);
    Pow2Mono(|e| * bits, k * bits);
    Pow2Mono(k * bits, 64);
  }

  /** A word never receives more than k entries. */
  lemma WordEntriesShort(data: seq<nat>, w: nat, k: nat, n: nat)
    requires n <= |data|
    ensures |WordEntries(data, w, k, n)| <= k
  {
    assert (w + 1) * k == w * k + k;
  }

  /** The entries of a word are entries of the data, so they fit as well. */
  lemma WordEntriesFit(data: seq<nat>, w: nat, k: nat, n: nat, bits: nat)
    requires n <= |data| && Fits(data, bits)
    ensures Fits(WordEntries(data, w, k, n), bits)
  {
    var lo := Min(w * k, n);
    var e := WordEntries(data, w, k, n);
    forall j | 0 <= j < |e| ensures e[j] < Pow2(bits) {
      assert e[j] == data[lo + j];
    }
  }

  /** After the loop, slot i reads back entry i, or 0 past the data. */
  lemma WordRead(words: seq<nat>, data: seq<nat>, k: nat, bits: nat, i: nat)
    requires k > 0 && i / k < |words|
    requires Fits(data, bits)
    requires WordsHold(words, data, k, bits, |data|)
    ensures Field(words[i / k], i % k, bits) == EntryOr0(data, i)
  {
    Placement(i, k);
    var w := i / k;
    var e := WordEntries(data, w, k, |data|);
    WordEntriesFit(data, w, k, |data|, bits);
    RadixField(e, bits, i % k);
    if i < |data| {
      assert e[i % k] == data[i];
    }
  }

  /** The signed words read back as the unsigned words they came from. */
  lemma SignedReadBack(words: seq<nat>, packed: seq<int>, data: seq<nat>, k: nat, bits: nat)
    requires k > 0 && k * bits <= 64
    requires |packed| == |words| && forall w :: 0 <= w < |words| ==> packed[w] == SignWord(words[w])
    requires Fits(data, bits)
    requires WordsHold(words, data, k, bits, |data|)
    ensures forall w :: 0 <= w < |packed| ==> -(Pow63 as int) <= packed[w] < Pow63
    ensures forall w :: 0 <= w < |packed| ==> Unsigned(packed[w]) < Pow2(k * bits)
    ensures forall i :: 0 <= i < |packed| * k ==>
      ReadEntry(packed, i, k, bits) == EntryOr0(data, i)
  {
    Pow64Value();
    forall w | 0 <= w < |words|
      ensures words[w] < Pow2(k * bits) <= Pow64
      ensures Unsigned(packed[w]) == words[w]
    {
      WordBound(words, data, k, bits, w);
    }
    forall i: nat | i < |packed| * k
      ensures ReadEntry(packed, i, k, bits) == EntryOr0(data, i)
    {
      DivBelow(i, k, |packed|);
      var w := i / k;
      assert Unsigned(packed[w]) == words[w];
      assert ReadEntry(packed, i, k, bits) == Field(words[w], i % k, bits);
      WordRead(words, data, k, bits, i);
    }
  }

  /** The packing loop on unsigned words: entry i is or-ed into word
      i div k at slot i mod k. */
  method PackWords(data: seq<nat>, bits: nat, k: nat, n: nat) returns (words: seq<nat>)
    requires k > 0 && |data| <= n * k
    ensures |words| == n
    ensures Fits(data, bits) ==> WordsHold(words, data, k, bits, |data|)
  {
    words := seq(n, _ => 0);
    var i := 0;
    while i < |data|
      invariant 0 <= i <= |data|
      invariant |words| == n
      invariant Fits(data, bits) ==> WordsHold(words, data, k, bits, i)
    {
      DivBelow(i, k, n);
      if Fits(data, bits) {
        PackStep(words, data, k, bits, i);
      }
      words := PackEntry(words, i, data[i], k, bits);
      i := i + 1;
    }
  }

  /** pack_data_array(data, palette_size). */
  method PackDataArray(data: seq<nat>, paletteSize: nat) returns (packed: seq<int>)
    requires PackablePalette(paletteSize)
    requires |data| <= NumLongs(paletteSize) * BlocksPerLong(paletteSize)
    ensures |packed| == NumLongs(paletteSize)
    ensures Fits(data, BitsPerBlock(paletteSize)) ==>
      forall w :: 0 <= w < |packed| ==> -(Pow63 as int) <= packed[w] < Pow63
    ensures Fits(data, BitsPerBlock(paletteSize)) ==>
      forall w :: 0 <= w < |packed| ==> Unsigned(packed[w]) < Pow2(UsedBits(paletteSize))
    ensures Fits(data, BitsPerBlock(paletteSize)) ==>
      forall i :: 0 <= i < |packed| * BlocksPerLong(paletteSize) ==>
        ReadEntry(packed, i, BlocksPerLong(paletteSize), BitsPerBlock(paletteSize))
          == EntryOr0(data, i)
  {
    BitsPerBlockAtMost64(paletteSize);
    var bits := BitsPerBlock(paletteSize);
    var k := BlocksPerLong(paletteSize);
    var n := NumLongs(paletteSize);
    var words := PackWords(data, bits, k, n);
    packed := seq(n, w requires 0 <= w < n => SignWord(words[w]));
    if Fits(data, bits) {
      Placement(64, bits);
      SignedReadBack(words, packed, data, k, bits);
    }
  }
}
