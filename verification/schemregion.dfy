/** The block part of `convert_region_to_schematic`: the chain of fallbacks
    that settles the region's dimensions, the scan of every cell with y
    outermost, then z, then x, which hands each cell's state text to
    get_block_id, and the one-byte layout of the classic format. The
    region itself comes from litemapy and is a parameter: its size fields,
    the lengths of its coordinate ranges, its corners, and indexing, where
    None stands for an exception raised by `region[x, y, z]`. */
module SchemRegion {
  import opened Common
  import opened Bits
  import opened StateString
  import opened Palette
  import opened Grid
  import opened SchemBlocks
  import opened SchemEncode

  /** What the converter asks of a litemapy region. */
  datatype RegionInfo = RegionInfo(width: int, height: int, length: int,
                                   xLen: nat, yLen: nat, zLen: nat,
                                   lo: Pos, hi: Pos)

  datatype Dims = Dims(w: nat, h: nat, l: nat)

  // ---------------------------------------------------------------------
  // Dimensions
  // ---------------------------------------------------------------------

  /** The size fields, else the range lengths, else `|max - min| + 1` on
      every axis; None is the `return None` for dimensions that are still
      not positive. The last fallback is positive on every axis, so the
      chain always settles on positive dimensions, and sizes that are
      positive to begin with are kept. */
  function Dimensions(r: RegionInfo): (d: Option<Dims>)
    ensures d.Some? && d.value.w >= 1 && d.value.h >= 1 && d.value.l >= 1
    ensures r.width > 0 && r.height > 0 && r.length > 0 ==>
      d == Some(Dims(r.width, r.height, r.length))
  {
    var (w, h, l) :=
      if r.width > 0 && r.height > 0 && r.length > 0 then (r.width, r.height, r.length)
      else if r.xLen > 0 && r.yLen > 0 && r.zLen > 0 then (r.xLen as int, r.yLen as int, r.zLen as int)
      else (Abs(r.hi.x - r.lo.x) + 1, Abs(r.hi.y - r.lo.y) + 1, Abs(r.hi.z - r.lo.z) + 1);
    if w <= 0 || h <= 0 || l <= 0 then None else Some(Dims(w, h, l))
  }

  // ---------------------------------------------------------------------
  // The scan
  // ---------------------------------------------------------------------

  /** The cells in scan order, as (rel_y, rel_z, rel_x). */
  function Cells(d: Dims): seq<Triple>
  {
    Nest(d.h, d.l, d.w)
  }

  /** The absolute coordinates of a cell. */
  function CellPos(lo: Pos, t: Triple): Pos
  {
    Pos(lo.x + t.c, lo.y + t.a, lo.z + t.b)
  }

  /** The state text get_block_id receives for a cell: the block's state
      string, or `minecraft:air` when indexing the region raises. */
  function CellText(at: Pos -> Option<BlockState>, p: Pos): string
  {
    match at(p)
      case None => "minecraft:air"
      case Some(b) => CreateBlockStateString(b)
  }

  /** The state texts of a region, in scan order. */
  function Texts(at: Pos -> Option<BlockState>, lo: Pos, d: Dims): (r: seq<string>)
    ensures |r| == |Cells(d)|
    ensures forall i :: 0 <= i < |r| ==> r[i] == CellText(at, CellPos(lo, Cells(d)[i]))
  {
    var cells := Cells(d);
    seq(|cells|, i requires 0 <= i < |cells| => CellText(at, CellPos(lo, cells[i])))
  }

  /** get_block_id on each text in turn: the ids appended to `blocks` and
      the table afterwards. */
  function Assign(texts: seq<string>, t: IdTable): (r: (seq<nat>, IdTable))
    ensures |r.0| == |texts|
  {
    if |texts| == 0 then ([], t)
    else
      var (bs, t1) := Assign(texts[..|texts| - 1], t);
      var (id, t2) := GetBlockId(t1, texts[|texts| - 1]);
      (bs + [id], t2)
  }

  /** Starting from the reset table, the ids handed out are the first-seen
      palette of the texts: the table lists exactly `Build(texts)`, and
      each text's id is its position there. */
  lemma {:induction false} AssignPalette(texts: seq<string>)
    ensures Good(Assign(texts, EmptyTable).1)
    ensures States(Assign(texts, EmptyTable).1) == Build(texts)
    ensures forall i :: 0 <= i < |texts| ==>
      texts[i] in Build(texts) && Assign(texts, EmptyTable).0[i] == IndexOf(Build(texts), texts[i])
  {
    var r := Assign(texts, EmptyTable);
    if |texts| == 0 {
      assert States(r.1) == [];
    } else {
      var init := texts[..|texts| - 1];
      var s := texts[|texts| - 1];
      AssignPalette(init);
      var r1 := Assign(init, EmptyTable);
      GetBlockIdSpec(r1.1, s);
      forall i | 0 <= i < |texts|
        ensures texts[i] in Build(texts) && r.0[i] == IndexOf(Build(texts), texts[i])
      {
        if i < |texts| - 1 {
          assert texts[i] == init[i];
          assert r.0[i] == r1.0[i];
          IdStable(Build(init), s, texts[i]);
        }
      }
    }
  }

  /** The blocks of a region: the ids in scan order and the id table. */
  datatype Scanned = Scanned(dims: Dims, blocks: seq<nat>, table: IdTable)

  /** The block loop of `convert_region_to_schematic`, after the table is
      reset; None is the `return None` for invalid dimensions. */
  function ScanRegion(r: RegionInfo, at: Pos -> Option<BlockState>): Option<Scanned>
  {
    match Dimensions(r)
      case None => None
      case Some(d) =>
        var (bs, t) := Assign(Texts(at, r.lo, d), EmptyTable);
        Some(Scanned(d, bs, t))
  }

  lemma ScanOf(r: RegionInfo, at: Pos -> Option<BlockState>)
    ensures var d := Dimensions(r).value;
      var a := Assign(Texts(at, r.lo, d), EmptyTable);
      ScanRegion(r, at) == Some(Scanned(d, a.0, a.1))
  {
  }

  /** The scan never takes the invalid-dimensions exit, covers the box
      once (`len(blocks) == width * height * length`), and leaves a good
      table holding the first-seen palette of the cells in scan order. */
  lemma ScanShape(r: RegionInfo, at: Pos -> Option<BlockState>)
    ensures ScanRegion(r, at).Some?
    ensures var s := ScanRegion(r, at).value;
      |s.blocks| == s.dims.w * s.dims.h * s.dims.l &&
      Good(s.table) && FirstSeen(States(s.table), Texts(at, r.lo, s.dims))
  {
    ScanOf(r, at);
    var s := ScanRegion(r, at).value;
    var d := s.dims;
    var texts := Texts(at, r.lo, d);
    var n := |texts|;
    assert |s.blocks| == n;
    NestLength(d.h, d.l, d.w);
    Volume(d.w, d.h, d.l);
    AssignPalette(texts);
    BuildFirstSeen(texts);
  }

  lemma Volume(w: nat, h: nat, l: nat)
    ensures h * (l * w) == w * h * l
  {
    MulAssoc(h, l, w);
    MulComm(h * l, w);
    MulAssoc(w, h, l);
  }

  /** The cell visited at step i holds the block whose id is blocks[i]. */
  lemma ScanStep(r: RegionInfo, at: Pos -> Option<BlockState>, i: nat)
    requires i < |Cells(Dimensions(r).value)|
    ensures var s := ScanRegion(r, at).value;
      i < |s.blocks| &&
      Lookup(s.table.palette, CellText(at, CellPos(r.lo, Cells(s.dims)[i]))) == Some(s.blocks[i])
  {
    ScanOf(r, at);
    var s := ScanRegion(r, at).value;
    var texts := Texts(at, r.lo, s.dims);
    var text := texts[i];
    AssignPalette(texts);
    assert text in States(s.table) && s.blocks[i] == IndexOf(States(s.table), text);
    LookupGood(s.table, text);
  }

  /** `blocks[(y * length + z) * width + x]` is the id the palette gives
      the state of cell (x, y, z). */
  lemma ScanIndex(r: RegionInfo, at: Pos -> Option<BlockState>, x: nat, y: nat, z: nat)
    requires var d := Dimensions(r).value; x < d.w && y < d.h && z < d.l
    ensures var s := ScanRegion(r, at).value;
      var i := Flat(Triple(y, z, x), s.dims.l, s.dims.w);
      var text := CellText(at, Pos(r.lo.x + x, r.lo.y + y, r.lo.z + z));
      i < |s.blocks| && Lookup(s.table.palette, text) == Some(s.blocks[i])
  {
    var d := Dimensions(r).value;
    var t := Triple(y, z, x);
    NestIndex(d.h, d.l, d.w, t);
    ScanCell(r, at, t, Flat(t, d.l, d.w));
    assert CellPos(r.lo, t) == Pos(r.lo.x + x, r.lo.y + y, r.lo.z + z);
  }

  /** ScanStep for the cell t visited at step i. */
  lemma ScanCell(r: RegionInfo, at: Pos -> Option<BlockState>, t: Triple, i: nat)
    requires i < |Cells(Dimensions(r).value)| && Cells(Dimensions(r).value)[i] == t
    ensures var s := ScanRegion(r, at).value;
      i < |s.blocks| && Lookup(s.table.palette, CellText(at, CellPos(r.lo, t))) == Some(s.blocks[i])
  {
    ScanOf(r, at);
    ScanStep(r, at, i);
  }

  /** Every id the scan hands out is below the palette size, so it fits in
      the encoder's width and the packed data decodes back to the ids. */
  lemma ScanEncodes(r: RegionInfo, at: Pos -> Option<BlockState>)
    ensures var s := ScanRegion(r, at).value;
      var w := Width(|s.table.palette|);
      Fits(s.blocks, w) && Decode(Encoded(s.blocks, w), w, |s.blocks|) == s.blocks
  {
    var s := ScanRegion(r, at).value;
    var texts := Texts(at, r.lo, s.dims);
    AssignPalette(texts);
    var w := Width(|s.table.palette|);
    forall i | 0 <= i < |s.blocks| ensures s.blocks[i] < Pow2(w) {
      WidthCovers(|s.table.palette|, s.blocks[i]);
    }
    DecodeEncoded(s.blocks, w);
  }

  // ---------------------------------------------------------------------
  // The classic format
  // ---------------------------------------------------------------------

  function Zeros(n: nat): (r: seq<Byte>)
    ensures |r| == n && forall i :: 0 <= i < n ==> r[i] == 0
  {
    seq(n, _ => 0)
  }

  /** The classic `Blocks` array after the first k cells of the scan:
      zeros, with the byte of each scanned cell's id written at
      `(rel_y * length + rel_z) * width + rel_x`. */
  function LegacyArray(d: Dims, blocks: seq<nat>, k: nat): (arr: seq<Byte>)
    requires |blocks| == |Cells(d)| && k <= |blocks|
    ensures |arr| == |blocks|
  {
    if k == 0 then Zeros(|blocks|)
    else
      var arr := LegacyArray(d, blocks, k - 1);
      NestElements(d.h, d.l, d.w, k - 1);
      arr[Flat(Cells(d)[k - 1], d.l, d.w) := LegacyByte(blocks[k - 1])]
  }

  /** The write index of the k-th scanned cell is k, so after k cells the
      array holds the bytes of the first k ids and zeros after them. */
  lemma {:induction false} LegacyArrayPrefix(d: Dims, blocks: seq<nat>, k: nat)
    requires |blocks| == |Cells(d)| && k <= |blocks|
    ensures forall i :: 0 <= i < |blocks| ==>
      LegacyArray(d, blocks, k)[i] == if i < k then LegacyByte(blocks[i]) else 0
  {
    if k > 0 {
      LegacyArrayPrefix(d, blocks, k - 1);
      NestElements(d.h, d.l, d.w, k - 1);
    }
  }

  /** The finished classic array is the one-byte form of the ids. */
  lemma LegacyArrayBytes(d: Dims, blocks: seq<nat>)
    requires |blocks| == |Cells(d)|
    ensures LegacyArray(d, blocks, |blocks|) == LegacyBytes(blocks)
  {
    LegacyArrayPrefix(d, blocks, |blocks|);
  }
}
