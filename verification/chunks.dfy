/** `create_chunks`: the blueprint's block data is cut into 16x16x16 chunks.
    A local position goes to chunk (x // 16, y // 16, z // 16) and, inside
    it, to slot (y % 16) * 256 + (z % 16) * 16 + x % 16. Every chunk keeps its
    own palette dictionary in which `minecraft:structure_void` is id 0 and new
    states take the next id. */
module Chunks {
  import opened Common
  import opened Packing
  import opened Palette

  const StructureVoid: string := "minecraft:structure_void"
  const Side: int := 16

  /** The chunk a position falls in. Python's `//` floors, which for the
      positive divisor 16 is Dafny's Euclidean `/`. */
  function ChunkOf(p: Pos): Pos
  {
    Pos(p.x / Side, p.y / Side, p.z / Side)
  }

  /** The slot of a position inside its chunk (y-major, then z, then x). */
  function SlotOf(p: Pos): nat
  {
    (p.y % Side) * 256 + (p.z % Side) * Side + p.x % Side
  }

  /** The offset inside a chunk that a slot stands for. */
  function SlotOffset(slot: nat): Pos
  {
    Pos(slot % Side, slot / 256, slot / Side % Side)
  }

  /** The position at an offset inside a chunk. */
  function At(chunk: Pos, offset: Pos): Pos
  {
    Pos(Side * chunk.x + offset.x, Side * chunk.y + offset.y, Side * chunk.z + offset.z)
  }

  lemma SlotDigits(a: int, b: int, c: int)
    requires 0 <= a < 16 && 0 <= b < 16 && 0 <= c < 16
    ensures 0 <= a * 256 + b * 16 + c < ChunkVolume
    ensures SlotOffset(a * 256 + b * 16 + c) == Pos(c, a, b)
  {
    var s := a * 256 + b * 16 + c;
    assert s == (a * 16 + b) * 16 + c;
    assert s / 16 == a * 16 + b;
    assert s / 256 == a;
  }

  /** Every position lands in a slot of the chunk volume, and the chunk and
      slot together give the position back. */
  lemma SlotRoundTrip(p: Pos)
    ensures SlotOf(p) < ChunkVolume
    ensures At(ChunkOf(p), SlotOffset(SlotOf(p))) == p
  {
    SlotDigits(p.y % 16, p.z % 16, p.x % 16);
  }

  /** Conversely every (chunk, slot) pair is the image of exactly one
      position, so chunking is a bijection between positions and pairs. */
  lemma SlotSurjective(chunk: Pos, slot: nat)
    requires slot < ChunkVolume
    ensures ChunkOf(At(chunk, SlotOffset(slot))) == chunk
    ensures SlotOf(At(chunk, SlotOffset(slot))) == slot
  {
    var o := SlotOffset(slot);
    var p := At(chunk, o);
    assert 0 <= o.x < 16 && 0 <= o.y < 16 && 0 <= o.z < 16;
    assert p.x / 16 == chunk.x && p.x % 16 == o.x;
    assert p.y / 16 == chunk.y && p.y % 16 == o.y;
    assert p.z / 16 == chunk.z && p.z % 16 == o.z;
    assert slot == o.y * 256 + o.z * 16 + o.x;
  }

  lemma SlotInjective(p: Pos, q: Pos)
    requires ChunkOf(p) == ChunkOf(q) && SlotOf(p) == SlotOf(q)
    ensures p == q
  {
    SlotRoundTrip(p);
    SlotRoundTrip(q);
  }

  // ---------------------------------------------------------------------
  // Chunk records
  // ---------------------------------------------------------------------

  /** A chunk: its key, its palette dictionary (state -> id) and its 4096
      palette ids. */
  datatype Chunk = Chunk(pos: Pos, palette: seq<(string, nat)>, data: seq<nat>)

  /** A chunk under construction together with its `palette_index` counter. */
  datatype Building = Building(chunk: Chunk, nextId: nat)

  function NewChunk(key: Pos): Building
  {
    Building(Chunk(key, [(StructureVoid, 0)], seq(ChunkVolume, _ => 0)), 1)
  }

  /** Ids stay contiguous: the palette holds ids 0 .. n-1 in insertion
      order with structure void at 0, the counter is the next free id, and
      every slot holds an id of the palette. */
  predicate Wf(b: Building)
  {
    var c := b.chunk;
    |c.data| == ChunkVolume && |c.palette| >= 1 && c.palette[0] == (StructureVoid, 0) &&
    DistinctKeys(c.palette) &&
    (forall i :: 0 <= i < |c.palette| ==> c.palette[i].1 == i) &&
    b.nextId == |c.palette| &&
    (forall j :: 0 <= j < |c.data| ==> c.data[j] < |c.palette|)
  }

  /** The state a slot of a well-formed chunk holds. */
  function StateIn(c: Chunk, slot: nat): string
    requires slot < |c.data| && c.data[slot] < |c.palette|
  {
    c.palette[c.data[slot]].0
  }

  lemma LookupId(pal: seq<(string, nat)>, s: string)
    requires forall i :: 0 <= i < |pal| ==> pal[i].1 == i
    requires s in Keys(pal)
    ensures var v := Lookup<string, nat>(pal, s); v.Some? && v.value < |pal| && pal[v.value].0 == s
  {
    LookupFacts(pal, s);
    var p :| p in pal && p.0 == s;
    var i :| 0 <= i < |pal| && pal[i] == p;
    assert pal[i].0 == s;
    var j :| 0 <= j < |pal| && pal[j] == (s, Lookup(pal, s).value);
    assert pal[j].1 == j;
  }

  /** `if block_state not in chunk['palette']`: a new state takes the next
      id; known states and their ids stay as they are. */
  function AddToPalette(b: Building, s: string): (r: Building)
    requires Wf(b)
    ensures Wf(r) && r.chunk.pos == b.chunk.pos && r.chunk.data == b.chunk.data
    ensures s in Keys(r.chunk.palette)
    ensures |b.chunk.palette| <= |r.chunk.palette|
    ensures r.chunk.palette[..|b.chunk.palette|] == b.chunk.palette
  {
    var c := b.chunk;
    if s !in Keys(c.palette) then
      var pal := Assign(c.palette, s, b.nextId);
      AssignFresh(c.palette, s, b.nextId);
      assert pal == c.palette + [(s, b.nextId)];
      Building(Chunk(c.pos, pal, c.data), b.nextId + 1)
    else b
  }

  /** One voxel's write: add the state to the chunk palette if new, then
      store its chunk id in the slot. */
  function Place(b: Building, slot: nat, s: string): (r: Building)
    requires Wf(b) && slot < ChunkVolume
    ensures Wf(r) && r.chunk.pos == b.chunk.pos
    ensures |b.chunk.palette| <= |r.chunk.palette|
    ensures r.chunk.palette[..|b.chunk.palette|] == b.chunk.palette
    ensures StateIn(r.chunk, slot) == s
    ensures forall j :: 0 <= j < ChunkVolume && j != slot ==> r.chunk.data[j] == b.chunk.data[j]
  {
    var nb := AddToPalette(b, s);
    LookupId(nb.chunk.palette, s);
    var id := Lookup<string, nat>(nb.chunk.palette, s).value;
    Building(nb.chunk.(data := nb.chunk.data[slot := id]), nb.nextId)
  }

  // ---------------------------------------------------------------------
  // The chunk dictionary
  // ---------------------------------------------------------------------

  type ChunkDict = seq<(Pos, Building)>

  /** Every stored chunk is well formed and keyed by its own position. */
  predicate AllWf(d: ChunkDict)
  {
    DistinctKeys(d) && forall p :: p in d ==> Wf(p.1) && p.1.chunk.pos == p.0
  }

  lemma LookupWf(d: ChunkDict, key: Pos)
    requires AllWf(d) && Lookup(d, key).Some?
    ensures Wf(Lookup(d, key).value) && Lookup(d, key).value.chunk.pos == key
  {
    LookupFacts(d, key);
    var i :| 0 <= i < |d| && d[i] == (key, Lookup(d, key).value);
    assert d[i] in d;
  }

  lemma AssignWf(d: ChunkDict, key: Pos, b: Building)
    requires AllWf(d) && Wf(b) && b.chunk.pos == key
    ensures AllWf(Assign(d, key, b))
  {
    AssignPairs(d, key, b);
    AssignDistinct(d, key, b);
  }

  /** The chunk the voxel's key names, created empty if absent. */
  function Ensure(d: ChunkDict, key: Pos): (r: ChunkDict)
    requires AllWf(d)
    ensures AllWf(r) && Lookup(r, key).Some?
  {
    if Lookup(d, key).None? then
      AssignLookup(d, key, NewChunk(key), key);
      AssignWf(d, key, NewChunk(key));
      Assign(d, key, NewChunk(key))
    else d
  }

  /** One iteration of the loop over `positions.items()`. */
  function ChunkStep(d: ChunkDict, palette: seq<string>, e: (Pos, nat)): (r: ChunkDict)
    requires AllWf(d)
    ensures AllWf(r)
  {
    var key := ChunkOf(e.0);
    var d1 := Ensure(d, key);
    if !Named(palette, e.1) then d1
    else
      LookupWf(d1, key);
      SlotRoundTrip(e.0);
      var b := Place(Lookup(d1, key).value, SlotOf(e.0), StateOfId(palette, e.1).value);
      AssignWf(d1, key, b);
      Assign(d1, key, b)
  }

  function BuildChunks(palette: seq<string>, positions: seq<(Pos, nat)>): (r: ChunkDict)
    ensures AllWf(r)
  {
    if |positions| == 0 then []
    else ChunkStep(BuildChunks(palette, positions[..|positions| - 1]), palette, positions[|positions| - 1])
  }

  /** `create_chunks(palette, positions, dimensions)`: the chunks in the
      order they were first created. The chunk ranges the source derives from
      `dimensions` are never read, so the dimensions are not a parameter. */
  function CreateChunks(palette: seq<string>, positions: seq<(Pos, nat)>): (r: seq<Chunk>)
    ensures |r| == |BuildChunks(palette, positions)|
    ensures forall i :: 0 <= i < |r| ==> r[i] == BuildChunks(palette, positions)[i].1.chunk
  {
    var d := BuildChunks(palette, positions);
    seq(|d|, i requires 0 <= i < |d| => d[i].1.chunk)
  }

  // ---------------------------------------------------------------------
  // What create_chunks computes
  // ---------------------------------------------------------------------

  /** The chunk one step leaves under `key`: the existing or a fresh one,
      with the voxel written into it when its state is usable. */
  function Touched(d: ChunkDict, palette: seq<string>, e: (Pos, nat)): Building
    requires AllWf(d)
  {
    var key := ChunkOf(e.0);
    var base := if Lookup(d, key).Some? then (LookupWf(d, key); Lookup(d, key).value) else NewChunk(key);
    SlotRoundTrip(e.0);
    if Named(palette, e.1) then Place(base, SlotOf(e.0), StateOfId(palette, e.1).value) else base
  }

  /** A step only changes the chunk its voxel falls in. */
  lemma StepLookup(d: ChunkDict, palette: seq<string>, e: (Pos, nat), k: Pos)
    requires AllWf(d)
    ensures Lookup(ChunkStep(d, palette, e), k) ==
      if k == ChunkOf(e.0) then Some(Touched(d, palette, e)) else Lookup(d, k)
  {
    var key := ChunkOf(e.0);
    var d1 := Ensure(d, key);
    if Lookup(d, key).None? {
      AssignLookup(d, key, NewChunk(key), k);
    }
    assert Lookup(d1, k) == if k == key && Lookup(d, key).None? then Some(NewChunk(key)) else Lookup(d, k);
    if Named(palette, e.1) {
      LookupWf(d1, key);
      SlotRoundTrip(e.0);
      var b := Place(Lookup(d1, key).value, SlotOf(e.0), StateOfId(palette, e.1).value);
      AssignLookup(d1, key, b, k);
    }
  }

  /** The chunk keys of the positions, in order (with repeats). */
  function KeysOf(positions: seq<(Pos, nat)>): (r: seq<Pos>)
    ensures |r| == |positions|
    ensures forall i :: 0 <= i < |r| ==> r[i] == ChunkOf(positions[i].0)
  {
    seq(|positions|, i requires 0 <= i < |positions| => ChunkOf(positions[i].0))
  }

  /** A chunk exists exactly for the keys some position maps to, whether or
      not that position's state was written. */
  lemma {:induction false} ChunkKeys(palette: seq<string>, positions: seq<(Pos, nat)>, k: Pos)
    ensures Lookup(BuildChunks(palette, positions), k).Some? <==> k in KeysOf(positions)
  {
    if |positions| > 0 {
      var init := positions[..|positions| - 1];
      var e := positions[|positions| - 1];
      var d := BuildChunks(palette, init);
      assert positions[..|positions| - 1] == init;
      assert BuildChunks(palette, positions) == ChunkStep(d, palette, e);
      ChunkKeys(palette, init, k);
      StepLookup(d, palette, e, k);
      assert KeysOf(positions) == KeysOf(init) + [ChunkOf(e.0)];
      assert k in KeysOf(positions) <==> k in KeysOf(init) || k == ChunkOf(e.0);
    }
  }

  /** The slot `j` of the chunk under `k` holds state `s`. */
  ghost predicate HoldsState(d: ChunkDict, k: Pos, j: nat, s: string)
  {
    Lookup(d, k).Some? &&
    var c := Lookup(d, k).value.chunk;
    j < |c.data| && c.data[j] < |c.palette| && c.palette[c.data[j]].0 == s
  }

  /** A voxel whose state is usable ends up in its slot as that state. */
  ghost predicate AllWritten(d: ChunkDict, palette: seq<string>, ps: seq<(Pos, nat)>)
  {
    forall i :: 0 <= i < |ps| && Named(palette, ps[i].1) ==>
      HoldsState(d, ChunkOf(ps[i].0), SlotOf(ps[i].0), palette[ps[i].1])
  }

  /** No usable voxel maps to slot `j` of chunk `k`. */
  ghost predicate Unwritten(palette: seq<string>, ps: seq<(Pos, nat)>, k: Pos, j: nat)
  {
    forall i :: 0 <= i < |ps| && Named(palette, ps[i].1) ==>
      ChunkOf(ps[i].0) != k || SlotOf(ps[i].0) != j
  }

  ghost predicate ZeroElsewhere(d: ChunkDict, palette: seq<string>, ps: seq<(Pos, nat)>)
  {
    forall k: Pos, j: nat :: Lookup(d, k).Some? && j < ChunkVolume && Unwritten(palette, ps, k, j) ==>
      j < |Lookup(d, k).value.chunk.data| && Lookup(d, k).value.chunk.data[j] == 0
  }

  lemma WrittenStep(d: ChunkDict, palette: seq<string>, ps: seq<(Pos, nat)>, e: (Pos, nat))
    requires AllWf(d) && AllWritten(d, palette, ps)
    requires forall i :: 0 <= i < |ps| ==> ps[i].0 != e.0
    ensures AllWritten(ChunkStep(d, palette, e), palette, ps + [e])
  {
    var r := ChunkStep(d, palette, e);
    var ps' := ps + [e];
    var key := ChunkOf(e.0);
    SlotRoundTrip(e.0);
    forall i | 0 <= i < |ps'| && Named(palette, ps'[i].1)
      ensures HoldsState(r, ChunkOf(ps'[i].0), SlotOf(ps'[i].0), palette[ps'[i].1])
    {
      var q := ps'[i];
      var k := ChunkOf(q.0);
      StepLookup(d, palette, e, k);
      if i == |ps| {
        assert q == e;
      } else {
        assert q == ps[i];
        if k == key {
          LookupWf(d, key);
          if SlotOf(q.0) == SlotOf(e.0) {
            SlotInjective(q.0, e.0);
          }
          SlotRoundTrip(q.0);
        }
      }
    }
  }

  lemma ZeroStep(d: ChunkDict, palette: seq<string>, ps: seq<(Pos, nat)>, e: (Pos, nat))
    requires AllWf(d) && ZeroElsewhere(d, palette, ps)
    ensures ZeroElsewhere(ChunkStep(d, palette, e), palette, ps + [e])
  {
    var r := ChunkStep(d, palette, e);
    var ps' := ps + [e];
    forall k: Pos, j: nat | Lookup(r, k).Some? && j < ChunkVolume && Unwritten(palette, ps', k, j)
      ensures j < |Lookup(r, k).value.chunk.data| && Lookup(r, k).value.chunk.data[j] == 0
    {
      StepLookup(d, palette, e, k);
      assert Unwritten(palette, ps, k, j) by {
        forall i | 0 <= i < |ps| && Named(palette, ps[i].1)
          ensures ChunkOf(ps[i].0) != k || SlotOf(ps[i].0) != j
        {
          assert ps'[i] == ps[i];
        }
      }
      if k == ChunkOf(e.0) {
        if Lookup(d, k).Some? {
          LookupWf(d, k);
        }
        if Named(palette, e.1) {
          assert ps'[|ps|] == e;
        }
      }
    }
  }

  /** A voxel whose id names a non-empty state is stored in the chunk and
      slot its position maps to, as the chunk id of that state; every other
      slot keeps structure void (id 0). */
  lemma {:induction false} ChunkContents(palette: seq<string>, positions: seq<(Pos, nat)>)
    requires DistinctKeys(positions)
    ensures AllWritten(BuildChunks(palette, positions), palette, positions)
    ensures ZeroElsewhere(BuildChunks(palette, positions), palette, positions)
  {
    if |positions| > 0 {
      var init := positions[..|positions| - 1];
      var e := positions[|positions| - 1];
      assert positions == init + [e];
      assert DistinctKeys(init);
      ChunkContents(palette, init);
      WrittenStep(BuildChunks(palette, init), palette, init, e);
      ZeroStep(BuildChunks(palette, init), palette, init, e);
    }
  }

  /** The chunk keys of a chunk list. */
  function PositionsOf(chunks: seq<Chunk>): (r: seq<Pos>)
    ensures |r| == |chunks|
    ensures forall i :: 0 <= i < |r| ==> r[i] == chunks[i].pos
  {
    seq(|chunks|, i requires 0 <= i < |chunks| => chunks[i].pos)
  }

  /** Every chunk create_chunks returns is a well-formed 16x16x16 chunk with
      structure void at id 0, contiguous ids, and slots that all name an id
      of its palette. */
  lemma CreateChunksWellFormed(palette: seq<string>, positions: seq<(Pos, nat)>, c: Chunk)
    requires c in CreateChunks(palette, positions)
    ensures |c.data| == ChunkVolume && |c.palette| >= 1 && c.palette[0] == (StructureVoid, 0)
    ensures DistinctKeys(c.palette) && (forall i :: 0 <= i < |c.palette| ==> c.palette[i].1 == i)
    ensures forall j :: 0 <= j < ChunkVolume ==> c.data[j] < |c.palette|
  {
    var d := BuildChunks(palette, positions);
    var r := CreateChunks(palette, positions);
    var m :| 0 <= m < |r| && r[m] == c;
    assert d[m] in d;
  }

  /** No two returned chunks share a chunk key. */
  lemma CreateChunksDistinct(palette: seq<string>, positions: seq<(Pos, nat)>)
    ensures Distinct(PositionsOf(CreateChunks(palette, positions)))
  {
    var d := BuildChunks(palette, positions);
    var r := CreateChunks(palette, positions);
    forall i, j | 0 <= i < j < |r| ensures r[i].pos != r[j].pos {
      assert d[i] in d && d[j] in d;
    }
  }

  /** There is a chunk exactly for each chunk key some position maps to. */
  lemma CreateChunksKeys(palette: seq<string>, positions: seq<(Pos, nat)>, k: Pos)
    ensures k in PositionsOf(CreateChunks(palette, positions)) <==> k in KeysOf(positions)
  {
    var d := BuildChunks(palette, positions);
    var r := CreateChunks(palette, positions);
    ChunkKeys(palette, positions, k);
    if k in PositionsOf(r) {
      var m :| 0 <= m < |r| && PositionsOf(r)[m] == k;
      assert d[m] in d;
      LookupDistinct(d, m);
    }
    if Lookup(d, k).Some? {
      LookupFacts(d, k);
      var m :| 0 <= m < |d| && d[m] == (k, Lookup(d, k).value);
      assert d[m] in d;
      assert PositionsOf(r)[m] == k;
    }
  }

  /** In the returned chunks every voxel with a non-empty state sits in the
      slot its position maps to, as that chunk's id for its state, and every
      slot no such voxel maps to holds structure void. */
  lemma CreateChunksContents(palette: seq<string>, positions: seq<(Pos, nat)>)
    requires DistinctKeys(positions)
    ensures forall c, i ::
      (c in CreateChunks(palette, positions) && 0 <= i < |positions| &&
       Named(palette, positions[i].1) && c.pos == ChunkOf(positions[i].0)) ==>
        SlotOf(positions[i].0) < |c.data| && c.data[SlotOf(positions[i].0)] < |c.palette| &&
        StateIn(c, SlotOf(positions[i].0)) == palette[positions[i].1]
    ensures forall c, j ::
      (c in CreateChunks(palette, positions) && 0 <= j < ChunkVolume &&
       Unwritten(palette, positions, c.pos, j)) ==> j < |c.data| && c.data[j] == 0
  {
    var d := BuildChunks(palette, positions);
    var r := CreateChunks(palette, positions);
    ChunkContents(palette, positions);
    forall c | c in r
      ensures Lookup(d, c.pos).Some? && Lookup(d, c.pos) == Some(Building(c, Lookup(d, c.pos).value.nextId))
    {
      var m :| 0 <= m < |r| && r[m] == c;
      assert d[m] in d;
      LookupDistinct(d, m);
    }
  }
}
