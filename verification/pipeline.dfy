/** The integer core of `convert_litematic_to_bp`: bounding box, palette
    and positions, block entities, the optional re-collection over the box
    that also holds the entities, the banner alignment step, and the chunk
    list with its fallback. Loading the schematic, the header, thumbnail
    pixels, NBT encoding and writing the file are not part of this model. */
module Pipeline {
  import opened Common
  import opened NbtValues
  import opened Palette
  import opened Scan
  import opened Packing
  import opened Chunks
  import opened TileEntities
  import opened Banner

  /** The chunk written when create_chunks returns nothing: a chunk at the
      origin whose palette is just air at id 0 and whose every slot holds
      that id. */
  function FallbackChunk(): (c: Chunk)
    ensures c.pos == Pos(0, 0, 0) && c.palette == [(Air, 0)]
    ensures |c.data| == ChunkVolume && forall j :: 0 <= j < ChunkVolume ==> c.data[j] == 0
  {
    Chunk(Pos(0, 0, 0), [(Air, 0)], seq(ChunkVolume, _ => 0))
  }

  /** What the conversion has built once it gets past every early return:
      the box the blocks were collected over, the palette and positions,
      the block entities and the chunks. */
  datatype Scene = Scene(bounds: Bounds, palette: seq<string>, positions: seq<(Pos, nat)>,
                         entities: seq<Nbt>, chunks: seq<Chunk>)

  /** `return False` when the region holds no block, an exception that
      escapes, or the scene that goes on to be written. */
  datatype Outcome = NoBlocks | Crashed | Built(scene: Scene)

  /** `combined_bounds + (non_air_count,)`. */
  function BoxBounds(box: Box, count: nat): Bounds
  {
    Bounds(box.lo.x, box.hi.x, box.lo.y, box.hi.y, box.lo.z, box.hi.z, count)
  }

  /** `(width, height, length)`: `max - min + 1` on each axis. */
  function Size(b: Bounds): Pos
  {
    Pos(b.maxX - b.minX + 1, b.maxY - b.minY + 1, b.maxZ - b.minZ + 1)
  }

  function ChunksOrFallback(palette: seq<string>, positions: seq<(Pos, nat)>): seq<Chunk>
  {
    var chunks := CreateChunks(palette, positions);
    if |chunks| == 0 then [FallbackChunk()] else chunks
  }

  /** The box the final palette and positions come from: the block box, or
      the combined box once there are block entities. */
  function ScanBounds(b: Bounds, tes: seq<Nbt>, box: Box): Bounds
  {
    if |tes| == 0 then b else BoxBounds(box, b.count)
  }

  /** Everything after extract_tile_entities: the re-collection and banner
      step when there are block entities, then the chunks. */
  function Assemble(region: Region, b: Bounds, tes: seq<Nbt>, box: Box): Scene
  {
    var sb := ScanBounds(b, tes, box);
    var c := CollectBlocks(region, sb);
    var ents := if |tes| == 0 then tes else Align(c.palette, c.positions, tes);
    Scene(sb, c.palette, c.positions, ents, ChunksOrFallback(c.palette, c.positions))
  }

  /** The conversion as written, up to the chunk list. `loaded` is what nbtlib read from the
      file's first region (None when loading raised) and `str` is Python's
      `str()` on an id value; both come from code outside this model. The
      bare `[]` extract_tile_entities returns on a load failure cannot be
      unpacked into two names, so the conversion raises then as well as
      when some block entity's coordinates do not convert. Whenever loading
      succeeds it is the corrected conversion. */
  function ConvertAsWritten(region: Region, loaded: Option<seq<PyValue>>, str: PyValue -> string): (r: Outcome)
    ensures r == NoBlocks <==> |RegionNonAir(region)| == 0
    ensures r == Crashed <==>
      |RegionNonAir(region)| > 0 && (loaded.None? || RawPositions(loaded.value).None?)
    ensures loaded.Some? ==> r == Convert(region, loaded, str)
  {
    var b := FindBoundingBox(region);
    if b.count == 0 then NoBlocks
    else
      match ExtractAsWritten(loaded, b, str)
        case None => Crashed
        case Some(ret) =>
          match Unpack(ret)
            case None => Crashed
            case Some((tes, box)) => Built(Assemble(region, b, tes, box))
  }

  /** The conversion up to the chunk list, with the corrected extraction,
      where a load failure means no block entities. It stops early exactly
      when the region holds no block, and up to the chunk list it raises
      exactly when some block entity's coordinates do not convert. The
      palette parse of `create_block_data_nbt`, which comes later, can
      still raise (`StateString.CommaValueRejected`). */
  function Convert(region: Region, loaded: Option<seq<PyValue>>, str: PyValue -> string): (r: Outcome)
    ensures r == NoBlocks <==> |RegionNonAir(region)| == 0
    ensures r == Crashed <==> |RegionNonAir(region)| > 0 && loaded.Some? && RawPositions(loaded.value).None?
  {
    var b := FindBoundingBox(region);
    if b.count == 0 then NoBlocks
    else
      match Extract(loaded, b, str)
        case None => Crashed
        case Some((tes, box)) => Built(Assemble(region, b, tes, box))
  }

  // ---------------------------------------------------------------------
  // Properties
  // ---------------------------------------------------------------------

  /** The block box of a region with blocks is not empty on any axis. */
  lemma RegionHasBlock(region: Region)
    requires FindBoundingBox(region).count > 0
    ensures var b := FindBoundingBox(region); b.minX <= b.maxX && b.minY <= b.maxY && b.minZ <= b.maxZ
  {
    var nac := RegionNonAir(region);
    ScanOrderFacts(region.lo, region.hi);
    assert nac[0] in nac;
  }

  /** The box extract_tile_entities returns contains the block box. */
  lemma ExtractedBox(loaded: Option<seq<PyValue>>, b: Bounds, str: PyValue -> string)
    requires Extract(loaded, b, str).Some?
    ensures var box := Extract(loaded, b, str).value.1;
      box.lo.x <= b.minX && box.lo.y <= b.minY && box.lo.z <= b.minZ &&
      box.hi.x >= b.maxX && box.hi.y >= b.maxY && box.hi.z >= b.maxZ
  {
    if loaded.Some? {
      CombinedBoxCovers(b, RawPositions(loaded.value).value);
    }
  }

  /** The scene's box contains the block box, is at least one block wide
      on every axis, and the palette and positions are collected over it. */
  lemma SceneBox(region: Region, loaded: Option<seq<PyValue>>, str: PyValue -> string)
    requires Convert(region, loaded, str).Built?
    ensures var s := Convert(region, loaded, str).scene;
      var b := FindBoundingBox(region);
      s.bounds.minX <= b.minX && s.bounds.minY <= b.minY && s.bounds.minZ <= b.minZ &&
      s.bounds.maxX >= b.maxX && s.bounds.maxY >= b.maxY && s.bounds.maxZ >= b.maxZ &&
      Size(s.bounds).x >= 1 && Size(s.bounds).y >= 1 && Size(s.bounds).z >= 1 &&
      CollectBlocks(region, s.bounds) == Collected(s.palette, s.positions)
  {
    var b := FindBoundingBox(region);
    var tes := Extract(loaded, b, str).value.0;
    var box := Extract(loaded, b, str).value.1;
    assert Convert(region, loaded, str).scene == Assemble(region, b, tes, box);
    RegionHasBlock(region);
    ExtractedBox(loaded, b, str);
  }

  /** Every non-air block of the region is in the scene, keyed by its
      offset from the scene's minimum corner and mapped to the id of its
      state. */
  lemma SceneHoldsBlocks(region: Region, loaded: Option<seq<PyValue>>, str: PyValue -> string, p: Pos)
    requires Convert(region, loaded, str).Built?
    requires InBounds(p, region.lo, region.hi) && !IsAir(region.at(p))
    ensures var s := Convert(region, loaded, str).scene;
      StateAt(region.at, p) in s.palette &&
      Lookup(s.positions, Sub(p, BoundsLo(s.bounds))) == Some(IndexOf(s.palette, StateAt(region.at, p)))
  {
    var s := Convert(region, loaded, str).scene;
    var b := FindBoundingBox(region);
    SceneBox(region, loaded, str);
    assert InBounds(p, BoundsLo(b), BoundsHi(b));
    CollectBlocksFound(region, s.bounds, p);
  }

  /** The scene is never empty, so create_chunks always returns chunks and
      the fallback chunk is never used. */
  lemma FallbackUnused(region: Region, loaded: Option<seq<PyValue>>, str: PyValue -> string)
    requires Convert(region, loaded, str).Built?
    ensures var s := Convert(region, loaded, str).scene;
      |s.positions| > 0 && s.chunks == CreateChunks(s.palette, s.positions) && |s.chunks| > 0
  {
    var s := Convert(region, loaded, str).scene;
    var nac := RegionNonAir(region);
    ScanOrderFacts(region.lo, region.hi);
    assert nac[0] in nac;
    SceneHoldsBlocks(region, loaded, str, nac[0]);
    var k := Sub(nac[0], BoundsLo(s.bounds));
    LookupFacts(s.positions, k);
    var i :| 0 <= i < |s.positions| && s.positions[i] == (k, Lookup(s.positions, k).value);
    CreateChunksKeys(s.palette, s.positions, ChunkOf(k));
    assert KeysOf(s.positions)[i] == ChunkOf(k);
    var b := FindBoundingBox(region);
    assert s == Assemble(region, b, Extract(loaded, b, str).value.0, Extract(loaded, b, str).value.1);
  }

  /** Every block entity that extract_tile_entities keeps carries integer
      coordinates, so the banner step never stops part-way here. */
  lemma ExtractedHavePos(loaded: Option<seq<PyValue>>, b: Bounds, str: PyValue -> string)
    requires Extract(loaded, b, str).Some?
    ensures forall i :: 0 <= i < |Extract(loaded, b, str).value.0| ==>
      EntityPos(Extract(loaded, b, str).value.0[i]).Some?
  {
    if loaded.Some? {
      var tes := loaded.value;
      var box := Extract(loaded, b, str).value.1;
      var out := Extract(loaded, b, str).value.0;
      ProcessAllKept(tes, box.lo, str);
      forall i | 0 <= i < |out| ensures EntityPos(out[i]).Some? {
        assert out[i] in out;
        var j :| 0 <= j < |tes| && ProcessEntity(tes[j], box.lo, str) == Some(out[i]);
        ProcessedHasPos(tes[j], box.lo, str);
      }
    }
  }

  /** A processed entity carries integer x, y and z. */
  lemma ProcessedHasPos(te: PyValue, origin: Pos, str: PyValue -> string)
    requires ProcessEntity(te, origin, str).Some?
    ensures EntityPos(ProcessEntity(te, origin, str).value).Some?
  {
    EntityFields(te, origin, str, Corrected(RawPos(te).value, FacingOf(te)));
  }

  /** With block entities, the scene's entities are the extracted ones,
      one for one, with every key but the coordinates unchanged, and when
      banners are present on both sides the smallest banner entity
      coordinate equals the smallest banner block coordinate. */
  lemma SceneBanners(region: Region, loaded: Option<seq<PyValue>>, str: PyValue -> string)
    requires Convert(region, loaded, str).Built?
    ensures var s := Convert(region, loaded, str).scene;
      var tes := Extract(loaded, FindBoundingBox(region), str).value.0;
      |s.entities| == |tes| &&
      (forall i :: 0 <= i < |tes| ==> tes[i].NCompound? ==> SameOutside(s.entities[i], tes[i])) &&
      (|tes| > 0 && Delta(s.palette, s.positions, tes).Some? ==>
        var ents := BannerEntities(s.entities);
        ents.Some? && |ents.value| > 0 && MinPos(ents.value) == MinPos(BannerBlocks(s.palette, s.positions)))
  {
    var s := Convert(region, loaded, str).scene;
    var b := FindBoundingBox(region);
    var tes := Extract(loaded, b, str).value.0;
    assert s == Assemble(region, b, tes, Extract(loaded, b, str).value.1);
    ExtractedHavePos(loaded, b, str);
    if |tes| > 0 {
      forall i | 0 <= i < |tes| && tes[i].NCompound? ensures SameOutside(s.entities[i], tes[i]) {
        AlignKeepsOthers(s.palette, s.positions, tes, i);
      }
      if Delta(s.palette, s.positions, tes).Some? {
        AlignAchieved(s.palette, s.positions, tes);
      }
    }
  }
}
