# Litematic converters: a Dafny model

This project models the integer core of two Python converters for
Litematica schematics (`.litematic`).

- `litematic_to_bp_converter.py` writes an Axiom blueprint (`.bp`). The model covers:
  - the bounding box of the non-air blocks, and the re-collection of the palette and positions over it;
  - the block-state text, and its parse back into a palette compound;
  - the tile-entity extraction, with the facing correction and the combined box;
  - `convert_nbt_value`;
  - the banner alignment shift;
  - the 16×16×16 chunking, with the fallback chunk;
  - the packing of a chunk's ids into signed 64-bit words;
  - the face culling and face corners of the thumbnail;
  - the length-prefixed file framing.
- `litematic_to_schem_advanced.py` (`AdvancedLitematicConverter`) writes a Sponge schematic. The model covers:
  - block-name normalisation and the state text;
  - the per-region id table (`get_block_id`);
  - the dimension fallbacks and the y → z → x block loop of `convert_region_to_schematic`;
  - the variable-width little-endian id packing (`encode_block_data`);
  - the one-byte classic layout;
  - the tile-entity and banner conversions.

Inputs the converters get from libraries become parameters. Each one is a plain value or a total function:

- a region's blocks. On the schematic side this is `at: Pos -> Option<BlockState>`, where None is an exception from `region[x, y, z]`. On the blueprint side `at: Pos -> BlockState` is total, and a read that raises counts as air. That is exact, since `find_bounding_box` and `collect_blocks` skip air and an exception alike (lines 439-445 and 461-470);
- what `nbtlib.load` produced;
- Python's `str()`;
- which values nbtlib's tag constructors accept.

Python dictionaries are sequences of pairs with distinct keys, kept in insertion order. Python integers are unbounded, and so are Dafny's. Where the code relies on a fixed width, the model writes it out:

- the signed 64-bit words of the packer;
- `struct.pack('>I')`, which raises for values of 2^32 and above;
- the 0..255 byte of the classic layout.

The files follow the program:

- `common.dfy`, `bits.dfy` and `grid.dfy` hold shared helpers: powers of two, dictionary lookups, bit fields, little- and big-endian bytes, triple loops.
- `statestring.dfy`, `palette.dfy`, `scan.dfy`, `chunks.dfy`, `packing.dfy`, `nbtvalues.dfy`, `tileentities.dfy`, `banner.dfy`, `thumbnail.dfy`, `container.dfy` and `pipeline.dfy` model the blueprint converter.
- `schemblocks.dfy`, `schemencode.dfy`, `schemregion.dfy` and `schementities.dfy` model the schematic converter.

## Notes on the code

- `extract_tile_entities` builds the combined box from the entities' uncorrected coordinates (lines 492-509). The facing correction at lines 520-532 changes only each entity's local position (lines 533-535), so a corrected position can lie outside the box (`TileEntities.CombinedBoxCovers` covers the block box and every uncorrected position, not the corrected ones).
- Whenever there are tile entities, `collect_blocks` runs a second time over the combined box (lines 688-696), whether or not that box is larger than the block box.
- The fallback chunk has the palette `{minecraft:air: 0}` and 4096 zeros (lines 729-731). It is never used: a region with no blocks returns at line 677, so every scene that reaches `create_chunks` has a block (`Pipeline.FallbackUnused`).

## Model

| member | source | states |
|---|---|---|
| Common.Trunc | litematic_to_bp_converter.py:520-522 | `int()` of a float truncates toward zero: the result's magnitude is the float's magnitude rounded down, and its sign is the float's |
| Bits.U32RoundTrip | litematic_to_bp_converter.py:636 | `struct.pack('>I', n)` is four big-endian bytes that read back as n for every n below 2^32 |
| Packing.BitsPerBlockAtMost64 | litematic_to_bp_converter.py:362-363 | for any palette the packer can handle, the width is between the floor of 4 and 64, and one word holds 1 to 16 entries |
| Packing.BitsPerBlockCovers | litematic_to_bp_converter.py:362 | every id below the palette size fits in the chosen width |
| Packing.BitsPerBlockLeast | litematic_to_bp_converter.py:362 | the width is the least one of at least 4 that addresses every id |
| Packing.SmallPaletteShape | litematic_to_bp_converter.py:362-364 | a palette of at most 16 states packs at 4 bits, 16 entries per word, into 256 words |
| Packing.SignWord | litematic_to_bp_converter.py:370-372 | the sign fix-up maps every 64-bit word to a signed 64-bit value whose two's-complement bits are the word |
| Packing.PackDataArray | litematic_to_bp_converter.py:361-373 | the packer returns `num_longs` words. When the ids fit the width (as chunk ids below the palette size do, `Packing.BitsPerBlockCovers`), each word is a signed 64-bit value and slot `i mod k` of word `i div k` of the unsigned words reads back id i, and 0 past the data |
| StateString.SortPropsFacts | litematic_to_bp_converter.py:424 | `sorted(props.items())` is a permutation of the properties, in strictly increasing key order |
| StateString.FormatOrderIndependent | litematic_to_bp_converter.py:409-427 | the state text depends only on the set of properties, not on the order the dictionary holds them in |
| StateString.SplitJoin | litematic_to_bp_converter.py:425 | splitting a `','.join` of comma-free pieces on `,` gives the pieces back |
| StateString.SplitOnce | litematic_to_bp_converter.py:383-388 | `split(sep, 1)` unpacked into two names fails exactly when the separator is absent; otherwise it splits at the first separator |
| StateString.ParseEntry | litematic_to_bp_converter.py:380-395 | the palette-entry parse can fail only on a state ending in a bracketed suffix. A state without one becomes a compound with just its name; a bracketed one is named by the text before its first `[` |
| StateString.CommaValueFormat | litematic_to_bp_converter.py:409-428 | a property value holding a comma is written into the state text unescaped, as `name[k=v1,v2]` |
| StateString.CommaValueRejected | litematic_to_bp_converter.py:382-388 | parsing `name[k=v1,v2]` back fails whenever `v2` has no `=`: the comma splits the value, and the piece `v2` cannot be unpacked into key and value |
| StateString.ParseFormat | litematic_to_bp_converter.py:380-395 | parsing a state text reads back the id, and the properties in sorted order, whenever the id has no `[` and no key or value holds the separators |
| Palette.AddState | litematic_to_bp_converter.py:464-466 | adding a state appends it only when new; the old ids stay, and the states stay distinct |
| Palette.IdStable | litematic_to_bp_converter.py:464-468 | an id, once handed out, never changes |
| Palette.BuildFirstSeen | litematic_to_bp_converter.py:456-468 | the palette built over a scan lists every distinct state once, ordered by first appearance |
| Palette.FirstSeenUnique | litematic_to_bp_converter.py:456-468 | that ordering determines the palette completely |
| Palette.StateOfId | litematic_to_bp_converter.py:619-623 | scanning the palette's (state, id) pairs for the first one carrying the id finds a state exactly for the ids below the palette size, and it is the state at that position |
| Palette.FindFrom | litematic_to_bp_converter.py:98-101 | the scan over the pairs from any position on finds the state at the id's position when the id lies in the rest of the palette, and nothing otherwise |
| Scan.ScanOrderFacts | litematic_to_bp_converter.py:434-436 | the x → y → z loops visit every position of the box, and each exactly once |
| Scan.FindBoundingBox | litematic_to_bp_converter.py:430-448 | the count is the number of non-air blocks. With none, all seven values are 0. Otherwise the box holds every non-air block, and each bound is the coordinate of one |
| Scan.BoundingBoxTight | litematic_to_bp_converter.py:430-448 | any box holding every non-air block contains the bounding box |
| Scan.CollectBlocksPalette | litematic_to_bp_converter.py:451-471 | collect_blocks' palette is the first-seen palette of the non-air states of the box, and it holds no air |
| Scan.CollectBlocksDistinct | litematic_to_bp_converter.py:467-468 | collect_blocks writes one position entry per cell |
| Scan.CollectBlocksFound | litematic_to_bp_converter.py:456-470 | every non-air block of the box is keyed by its offset from the box's minimum corner, and mapped to the id of its state |
| Scan.CollectBlocksEntries | litematic_to_bp_converter.py:456-470 | every position entry is such an offset, mapped to that block's id |
| Chunks.SlotRoundTrip | litematic_to_bp_converter.py:607-629 | floor division and modulo by 16 put every position in a chunk and a slot below 4096, and the pair gives the position back |
| Chunks.SlotSurjective | litematic_to_bp_converter.py:607-629 | every (chunk, slot) pair is the image of a position |
| Chunks.SlotInjective | litematic_to_bp_converter.py:607-629 | two positions with the same chunk and slot are equal |
| Chunks.AddToPalette | litematic_to_bp_converter.py:626-628 | a new state takes the chunk's next id, and known states keep theirs |
| Chunks.Place | litematic_to_bp_converter.py:626-630 | one voxel write sets its slot to the state's chunk id and leaves every other slot alone |
| Chunks.ChunkKeys | litematic_to_bp_converter.py:613-617 | a chunk is created exactly for the chunk keys some position maps to |
| Chunks.CreateChunksWellFormed | litematic_to_bp_converter.py:614-631 | each chunk has 4096 slots and structure void at id 0. Its ids are contiguous, and every slot holds an id of its palette |
| Chunks.CreateChunksDistinct | litematic_to_bp_converter.py:613-631 | no two returned chunks share a key |
| Chunks.CreateChunksKeys | litematic_to_bp_converter.py:605-631 | the chunk keys returned are exactly those of the positions |
| Chunks.CreateChunksContents | litematic_to_bp_converter.py:605-631 | every voxel with a non-empty state sits in the slot its position maps to, as its chunk's id for that state; every other slot holds structure void |
| NbtValues.ValueNoByte | litematic_to_bp_converter.py:556-561 | a bool is caught by the int test, so no Byte tag is ever built |
| NbtValues.ValueOutcome | litematic_to_bp_converter.py:551-593 | only None is dropped, and a conversion raises exactly when some list inside the value starts with a dict but holds a non-dict, or is any other list whose items other than None become tags of two kinds, which `nbtlib.List` refuses |
| NbtValues.ValueKind | litematic_to_bp_converter.py:553-586 | a value that converts becomes the tag kind its `isinstance` branch picks: String for str and other objects, Int for int and bool, Float for float, List for list, Compound for dict |
| NbtValues.MixedListRaises | litematic_to_bp_converter.py:576-581 | `[1, "a"]` raises: its items convert to an Int and a String, and `nbtlib.List` refuses the mix |
| NbtValues.RoundTrip | litematic_to_bp_converter.py:551-593 | converting a canonical tag (no Byte, distinct keys, every list of one element kind), read as a Python value, gives the tag back |
| NbtValues.ValueCanonical | litematic_to_bp_converter.py:551-593 | without None inside, every converted value is a canonical tag, and it is a compound exactly for a dict |
| NbtValues.Idempotent | litematic_to_bp_converter.py:551-593 | converting a converted value changes nothing |
| TileEntities.CorrectionStepsBack | litematic_to_bp_converter.py:523-532 | the facing correction moves an entity one block against its facing (a missing facing counts as south), and stepping forward undoes it |
| TileEntities.RawPositions | litematic_to_bp_converter.py:491-497 | the min/max over entity coordinates succeeds exactly when every entity's coordinates convert |
| TileEntities.CombinedBoxCovers | litematic_to_bp_converter.py:491-516 | the combined box contains the block box and every uncorrected entity position, and each of its bounds is attained |
| TileEntities.LoadFailureUnpackFails | litematic_to_bp_converter.py:488-490 | as written, the load-failure path returns a bare `[]`, which the caller cannot unpack into two names |
| TileEntities.Extract | litematic_to_bp_converter.py:474-549 | a load failure gives no entities and the block box unchanged. Any other input gives what the code returns, unpacked into the entities and the combined box |
| TileEntities.EntityKept | litematic_to_bp_converter.py:518-547 | an entity is kept exactly when its coordinates convert and none of its copied values raises, where a value raises on a dict-headed list with a non-dict item or a list of two tag kinds |
| TileEntities.EntityFields | litematic_to_bp_converter.py:533-538 | a kept entity holds its corrected position, relative to the combined minimum, under x, y and z, and its id text under id |
| TileEntities.EntityCopies | litematic_to_bp_converter.py:539-543 | a kept entity holds every other non-None value, converted, under its own key |
| TileEntities.ProcessAllKept | litematic_to_bp_converter.py:517-547 | the returned entities are exactly the kept ones, in order |
| Banner.BannerBlocksMembers | litematic_to_bp_converter.py:699-701 | the banner blocks are exactly the positions whose state contains `banner` in any letter case |
| Banner.BannerEntities | litematic_to_bp_converter.py:706-708 | the banner-entity coordinates are read exactly when every banner entity's coordinates convert |
| Banner.ShiftOneFacts | litematic_to_bp_converter.py:716-718 | an entity with readable coordinates moves by exactly `-d` and keeps every other key |
| Banner.ShiftAllBanners | litematic_to_bp_converter.py:715-718 | after a completed shift, the banner entities are the same ones, in order, each moved by `-d` |
| Banner.ShiftAllStops | litematic_to_bp_converter.py:698-725 | an entity without readable coordinates stops the loop there: earlier entities are shifted, later ones are untouched |
| Banner.AlignAchieved | litematic_to_bp_converter.py:698-725 | after the step, the smallest banner-entity coordinate equals the smallest banner-block coordinate |
| Banner.AlignIdempotent | litematic_to_bp_converter.py:698-725 | aligning twice is aligning once |
| Banner.AlignKeepsOthers | litematic_to_bp_converter.py:715-718 | the step changes nothing but the three coordinates |
| Thumbnail.CullMembers | litematic_to_bp_converter.py:107-113 | a face is kept exactly when the neighbouring cell in its direction is empty |
| Thumbnail.IsolatedSixFaces | litematic_to_bp_converter.py:107-113 | an isolated block shows all six faces, in the converter's order |
| Thumbnail.SharedFaceHidden | litematic_to_bp_converter.py:110-113 | a face shared by two blocks is drawn by neither |
| Thumbnail.SceneFacesMembers | litematic_to_bp_converter.py:97-116 | a face is collected exactly when its block has a named state and its neighbour is not in the scene |
| Thumbnail.NoInnerFace | litematic_to_bp_converter.py:97-113 | no collected face lies between two blocks of the scene |
| Thumbnail.FaceCorners | litematic_to_bp_converter.py:188-203 | each face has four distinct corners, which are exactly the cube corners on that side |
| Thumbnail.FaceCentre | litematic_to_bp_converter.py:116-119 | the corners average to the face centre: the cube centre plus half the face's step |
| Thumbnail.UnknownFaceEmpty | litematic_to_bp_converter.py:204 | a name that is none of the six has no corners |
| Container.WriteBp | litematic_to_bp_converter.py:634-656 | the file starts with the magic. It succeeds exactly when every section length fits in 32 bits. When one does not, the file keeps only what was written before it: the magic alone, the magic and the framed header, or the magic and the framed header and thumbnail |
| Container.ReadWrite | litematic_to_bp_converter.py:634-656 | reading a written file gives back the three sections |
| Container.WriteRead | litematic_to_bp_converter.py:634-656 | every file the reader accepts is exactly what writing its sections produces |
| Pipeline.FallbackChunk | litematic_to_bp_converter.py:729-731 | the fallback chunk sits at the origin, has palette `minecraft:air` at id 0, and holds 0 in all 4096 slots |
| Pipeline.Convert | litematic_to_bp_converter.py:673-731 | up to the chunk list, with the corrected extraction, where a load failure gives no tile entities: the conversion stops early exactly when the region has no block, and it raises exactly when some entity's coordinates do not convert |
| Pipeline.ConvertAsWritten | litematic_to_bp_converter.py:673-731 | as written and up to the chunk list, the conversion stops early exactly when the region has no block, and raises exactly when loading the tile entities fails (the bare `[]` does not unpack at lines 685-686) or some entity's coordinates do not convert; when loading succeeds it equals the corrected conversion |
| Pipeline.SceneBox | litematic_to_bp_converter.py:673-696 | the scene's box contains the block box, spans at least one block on each axis, and is the box the palette was collected over |
| Pipeline.SceneHoldsBlocks | litematic_to_bp_converter.py:683-696 | every non-air block of the region is in the scene at its offset, with its state's id |
| Pipeline.FallbackUnused | litematic_to_bp_converter.py:727-731 | create_chunks always returns chunks here, so the fallback is never used |
| Pipeline.ExtractedHavePos | litematic_to_bp_converter.py:533-538 | every extracted entity has integer coordinates |
| Pipeline.SceneBanners | litematic_to_bp_converter.py:685-725 | the scene's entities match the extracted ones one for one, and differ only in coordinates. When banners are present on both sides, the minima agree |
| SchemBlocks.ConvertBlockName | litematic_to_schem_advanced.py:63-67 | the result carries a namespace and ends with the given name; it equals the name exactly when the name already had a namespace |
| SchemBlocks.ConvertBlockNameIdempotent | litematic_to_schem_advanced.py:63-67 | normalising twice is normalising once |
| SchemBlocks.CreateOrderIndependent | litematic_to_schem_advanced.py:69-90 | the state text does not depend on the dictionary order of the properties |
| SchemBlocks.SchemAgreesWithBlueprint | litematic_to_schem_advanced.py:69-90 | for a namespaced id, the schematic converter's state text is the blueprint converter's |
| SchemBlocks.CreateParses | litematic_to_schem_advanced.py:69-90 | the state text parses back as the normalised id and the sorted properties |
| SchemBlocks.GetBlockIdSpec | litematic_to_schem_advanced.py:92-96 | the table keeps ids 0..n-1 in insertion order and grows as the first-seen palette does; the id returned is the state's position, below the counter |
| SchemBlocks.IdsInjective | litematic_to_schem_advanced.py:92-96 | two different states never share an id |
| SchemEncode.WidthCovers | litematic_to_schem_advanced.py:284-287 | every id below the palette size fits in the width |
| SchemEncode.WidthLeast | litematic_to_schem_advanced.py:284-287 | for two or more states, one bit fewer would not address every id |
| SchemEncode.EncodeBlockData | litematic_to_schem_advanced.py:283-302 | the output is `ceil(n·w/64)` eight-byte words. When the ids fit the width, it is the little-endian bytes of the number whose w-bit field i is id i |
| SchemEncode.DecodeEncoded | litematic_to_schem_advanced.py:283-302 | reading w-bit field i of the encoded bytes gives back id i |
| SchemEncode.LegacyByte | litematic_to_schem_advanced.py:401-404 | the classic byte is the id exactly when the id is at most 255, and 0 otherwise |
| SchemEncode.LegacyBytes | litematic_to_schem_advanced.py:438-443 | the simple encoding is the classic byte of each id, in order |
| SchemRegion.Dimensions | litematic_to_schem_advanced.py:306-331 | the fallbacks always settle on positive dimensions, so the invalid-dimensions exit is never taken; positive size fields are kept |
| SchemRegion.AssignPalette | litematic_to_schem_advanced.py:343-398 | starting from the reset table, the ids handed out are positions in the first-seen palette of the cell texts |
| SchemRegion.ScanShape | litematic_to_schem_advanced.py:343-398 | `len(blocks)` is width·height·length, and the table is the first-seen palette of the cells in y → z → x order |
| SchemRegion.ScanIndex | litematic_to_schem_advanced.py:374-398 | `blocks[(y·length + z)·width + x]` is the id the table gives the state of cell (x, y, z), or of air when indexing raises |
| SchemRegion.ScanEncodes | litematic_to_schem_advanced.py:429-433 | every id fits the width for the final palette size, so the packed data decodes back to the block ids |
| SchemRegion.LegacyArrayBytes | litematic_to_schem_advanced.py:399-405 | the classic `Blocks` array, written at the index formula, ends up as the one-byte form of the ids in scan order |
| SchemEntities.CopyDataLookup | litematic_to_schem_advanced.py:149-172 | `Data` holds each key except id, x, y and z whose value nbtlib accepts, with bools as ints |
| SchemEntities.ConvertTileEntity | litematic_to_schem_advanced.py:133-144 | an entity without a non-empty dict of data gives None, and a banner id goes to the banner converter |
| SchemEntities.ConvertTileEntitySpec | litematic_to_schem_advanced.py:142-177 | a non-banner entity converts exactly when its coordinates do. The result carries the id text, the position, and the copied data |
| SchemEntities.ConvertTileEntityKeeps | litematic_to_schem_advanced.py:149-167 | a non-bool value that nbtlib accepts reads back unchanged from `Data` |
| SchemEntities.PatternOf | litematic_to_schem_advanced.py:117-120 | a pattern reads `color` and `pattern`, defaulting to `white` and `minecraft:base`, and fails on an item without `.get` |
| SchemEntities.PatternList | litematic_to_schem_advanced.py:116-120 | a list of patterns converts exactly when every item is a dict, one pattern per item |
| SchemEntities.ConvertBannerTileEntity | litematic_to_schem_advanced.py:121-125 | a converted banner has id `minecraft:banner`, and its data holds exactly `patterns` and `id` |
| SchemEntities.BannerSpec | litematic_to_schem_advanced.py:98-131 | a banner converts exactly when it has data, a banner id (or none), coordinates and readable patterns; the position and patterns are the entity's |
| SchemEntities.BannerPatternList | litematic_to_schem_advanced.py:113-120 | with a list of patterns, each item becomes one pattern compound, with the defaults filled in |

## Left out

- Loading the schematic (litemapy, nbtlib, gzip, temporary files), writing files, the GUI, `main`, and every `print`, statistic and debug branch (`DEBUG` is False). These are I/O or diagnostics.
- `create_header_nbt`, `create_block_data_nbt`'s NBT tree assembly and NBT serialisation. These are library encoding; the palette parse and the packing they call are modelled.
- The thumbnail's camera, depth sort, projection, lighting, colours and PNG encoding, and `get_block_color`. These are floating point and Pillow; the face culling and corners are modelled.
- `get_tile_entities_from_region`, `create_modern_schematic_nbt`, the banner-count mismatch report, and the rest of the schematic converter's file handling. They discover litemapy's attributes by reflection or assemble library objects; their results are parameters of the model.
- NbtValues.ConvertValue: every list tag counts as one element kind for `nbtlib.List`, so a list of lists never raises, whatever the inner lists hold. This is how nbtlib treats lists of lists with different element types: it gives them the generic list type.
- TileEntities.ProcessEntity: nbtlib's `Int` range check on the local coordinates (lines 536-537) is not modelled. A local coordinate outside the signed 32-bit range would make the per-entity `try` skip the entity, but the model keeps it.
- Banner.Step: nbtlib's `Int` range check on the shifted coordinates (lines 716-718) is not modelled. A shifted coordinate outside the signed 32-bit range would stop the shift there, but the model's step never fails on an integer.
- NbtValues.ConvertValue: nbtlib's `Int` range check is not modelled, so an int outside the signed 32-bit range converts instead of raising. nbtlib is not part of this model.
- TileEntities.IntOf: a Python float is a Dafny `real`, so NaN and the infinities are not represented. `int()` raises on them, which at lines 492-497 fails the whole extraction and at lines 520-522 skips the entity; the model has no such input. Common.Trunc likewise covers finite floats only.
- TileEntities.IntOf: `int()` of a string is not modelled; a string coordinate counts as one that does not convert. Parsing Python integer literals is outside this model.
- SchemEntities.PosOf: numpy's conversion inside `nbtlib.IntArray` is taken to be `int()`. Ints, bools and floats convert and anything else raises, so digit strings and 32-bit overflow are not modelled.
- SchemEntities.Patterns: an object of another type is treated as not iterable; what iterating such an object would give is unknown.
- SchemEncode.LegacyByte: the bytes are modelled as 0..255. nbtlib's `ByteArray` is signed, so ids 128..255 depend on numpy's handling of out-of-range values, which is not part of this model.
- SchemEncode.EncodeBlockData: the fallback to the simple encoding (lines 434-445) is modelled by `LegacyBytes`, but not as a branch. The packing cannot raise on natural numbers, so only the `ByteArray` conversion can trigger the fallback, and that conversion is not modelled.
- Packing.PackDataArray: requires a palette of at most 2^64 states and at most `num_longs · 64 // bits` entries. For a larger palette `64 // bits` is 0 and the source raises ZeroDivisionError; more entries than slots raise IndexError. The model does not reproduce either error, and the converter only ever passes a chunk's 4096 entries.
- Pipeline.Convert: the outcome covers the conversion up to the chunk list (lines 673-731). Later, `create_block_data_nbt` (line 735, outside any `try`) parses every chunk palette state, and a state that `StateString.ParseEntry` rejects raises ValueError there. An example is a property value holding a comma, such as `minecraft:x[a=b,c]` (`StateString.CommaValueFormat` and `StateString.CommaValueRejected`). That later crash is not part of `Crashed`.
- Pipeline.ConvertAsWritten: covers the same span and leaves out the same later crash.
- Pipeline.Convert: `create_chunks` receives dimensions that it never reads (lines 597-603 compute unused ranges), so the model's CreateChunks has no dimensions parameter.
- Banner.Lower: only ASCII letters are lower-cased. This is exact for the `'banner' in s.lower()` test, because no other character lower-cases to one of its letters.
- The region classes of litemapy: their size fields, ranges and block indexing are parameters (`Scan.Region`, `SchemRegion.RegionInfo`).

## Findings

| source | as written | input that shows it | evidently intended | confidence | as-written member | corrected member |
|---|---|---|---|---|---|---|
| litematic_to_bp_converter.py:488-490 | on an exception while loading tile entities, `extract_tile_entities` returns a bare `[]`, and the caller at lines 685-686 unpacks it into two names | any `.litematic` file whose NBT load or region navigation raises inside the `try` at lines 477-487 | a load failure means no tile entities and the block box unchanged, as in the no-entities branch at lines 513-516 | not executed; the unpack of an empty list raises ValueError in Python | Pipeline.ConvertAsWritten | Pipeline.Convert |
