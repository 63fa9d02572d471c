/** `convert_tile_entity` and `convert_banner_tile_entity` of the Sponge
    schematic converter: a litemapy tile entity's NBT data becomes a
    compound `{Id, Pos: [x, y, z], Data}`. A banner is rebuilt from its
    patterns alone; any other entity keeps every key but the id and the
    coordinates in `Data`. How litemapy exposes the tile entities is not
    part of this model; `data` is the entity's `data` attribute (None when
    it has none), `str` is Python's `str()` on a value and `wraps` says
    which values nbtlib's tag constructors accept. */
module SchemEntities {
  import opened Common
  import opened NbtValues
  import opened TileEntities

  /** The wrapped tile entity. `Data` is kept as the Python values nbtlib
      wraps: the copy loop picks the tag by the value's Python kind (String
      for str, Int for int and bool, Float for float, List for list,
      Compound for dict), so only a bool changes, into an int (`Retag`). A
      Byte, Short or Long tag read from the file is an int here and comes
      out as an Int, and a Double as a Float. */
  datatype SchemEntity = SchemEntity(id: string, pos: Pos, data: seq<(string, PyValue)>)

  const BannerId: string := "minecraft:banner"

  /** `hasattr(te, 'data') and te.data`, and then `.get` working: only a
      non-empty dict gets past the first lines of either converter; an
      empty dict is falsy and any other value has no `.get`, which raises
      inside the `try`. */
  predicate HasData(data: Option<PyValue>)
  {
    data.Some? && data.value.PDict? && |data.value.entries| > 0
  }

  /** `nbtlib.String(v)`: the text of a string, `str()` of anything else. */
  function Text(v: PyValue, str: PyValue -> string): string
  {
    if v.PStr? then v.s else str(v)
  }

  /** `nbtlib.IntArray([x, y, z])` of `te.get(k, 0)`: coordinates that
      convert to integers, or None when one raises. */
  function PosOf(te: PyValue): (r: Option<Pos>)
    requires te.PDict?
    ensures r == RawPos(te)
  {
    var x, y, z := Coord(te, "x"), Coord(te, "y"), Coord(te, "z");
    if x.Some? && y.Some? && z.Some? then Some(Pos(x.value, y.value, z.value)) else None
  }

  // ---------------------------------------------------------------------
  // Ordinary tile entities
  // ---------------------------------------------------------------------

  /** The tag one value becomes. A `bool` is an `int` to `isinstance`, so
      it becomes an Int; every other value keeps its kind and content. */
  function Retag(v: PyValue): (r: PyValue)
    ensures !v.PBool? ==> r == v
    ensures v.PBool? ==> r == PInt(if v.b then 1 else 0)
  {
    if v.PBool? then PInt(if v.b then 1 else 0) else v
  }

  /** The copy loop: every entry whose key is not id, x, y or z, in order.
      `wraps(v)` says whether the nbtlib constructor the value's kind picks
      accepts it (an `Int` outside the signed 32-bit range, or a list nbtlib
      cannot give one element type, raises); a value it rejects is skipped
      by the `try` around each key, and the copy goes on. */
  function CopyData(entries: seq<(string, PyValue)>, wraps: PyValue -> bool): (r: seq<(string, PyValue)>)
    ensures |r| <= |entries|
  {
    if |entries| == 0 then []
    else
      var rest := CopyData(entries[1..], wraps);
      if Reserved(entries[0].0) || !wraps(entries[0].1) then rest
      else [(entries[0].0, Retag(entries[0].1))] + rest
  }

  /** `Data` answers a key exactly as the entity does, with bools read as
      ints, except that id, x, y and z are gone and so is a value nbtlib
      rejects. */
  lemma {:induction false} CopyDataLookup(entries: seq<(string, PyValue)>, wraps: PyValue -> bool, k: string)
    requires DistinctKeys(entries)
    ensures Lookup(CopyData(entries, wraps), k) ==
      if Reserved(k) then None
      else match Lookup(entries, k)
        case None => None
        case Some(v) => if wraps(v) then Some(Retag(v)) else None
  {
    if |entries| > 0 {
      var tail := entries[1..];
      assert DistinctKeys(tail) by {
        forall i, j | 0 <= i < j < |tail| ensures tail[i].0 != tail[j].0 {
          assert tail[i] == entries[i + 1] && tail[j] == entries[j + 1];
        }
      }
      CopyDataLookup(tail, wraps, k);
      LookupCons(entries, k);
      if entries[0].0 == k {
        assert forall i :: 0 <= i < |tail| ==> tail[i].0 != k by {
          forall i | 0 <= i < |tail| ensures tail[i].0 != k {
            assert tail[i] == entries[i + 1];
          }
        }
        LookupFacts(tail, k);
      }
      var rest := CopyData(tail, wraps);
      if !Reserved(entries[0].0) && wraps(entries[0].1) {
        LookupCons([(entries[0].0, Retag(entries[0].1))] + rest, k);
      }
    }
  }

  /** The wrapping of a non-banner entity (lines after the banner test). */
  function WrapEntity(te: PyValue, id: PyValue, str: PyValue -> string, wraps: PyValue -> bool): Option<SchemEntity>
    requires te.PDict?
  {
    match PosOf(te)
      case None => None
      case Some(p) => Some(SchemEntity(Text(id, str), p, CopyData(te.entries, wraps)))
  }

  /** `convert_tile_entity`. None when the entity has no data or a step
      raises; a banner is handed to the banner converter. */
  function ConvertTileEntity(data: Option<PyValue>, str: PyValue -> string, wraps: PyValue -> bool): (r: Option<SchemEntity>)
    ensures !HasData(data) ==> r.None?
    ensures HasData(data) && Get(data.value, "id", PStr("unknown")).value == PStr(BannerId) ==>
      r == ConvertBannerTileEntity(data, str)
  {
    if !HasData(data) then None
    else
      var te := data.value;
      var id := Get(te, "id", PStr("unknown")).value;
      if id == PStr(BannerId) then ConvertBannerTileEntity(data, str)
      else WrapEntity(te, id, str, wraps)
  }

  /** A non-banner entity converts exactly when its coordinates do, and
      then carries its id, its position and every other key. */
  lemma ConvertTileEntitySpec(data: Option<PyValue>, str: PyValue -> string, wraps: PyValue -> bool, k: string)
    requires HasData(data) && DistinctKeys(data.value.entries)
    requires Get(data.value, "id", PStr("unknown")).value != PStr(BannerId)
    ensures var r := ConvertTileEntity(data, str, wraps);
      var te := data.value;
      (r.Some? <==> RawPos(te).Some?) &&
      (r.Some? ==>
        r.value.id == Text(Get(te, "id", PStr("unknown")).value, str) &&
        r.value.pos == RawPos(te).value &&
        Lookup(r.value.data, k) ==
          if Reserved(k) then None
          else match Lookup(te.entries, k)
            case None => None
            case Some(v) => if wraps(v) then Some(Retag(v)) else None)
  {
    CopyDataLookup(data.value.entries, wraps, k);
  }

  /** No value but a bool changes on the way through: whatever key the
      entity has besides the id and coordinates, with a value nbtlib
      accepts, can be read back from `Data` unchanged. */
  lemma ConvertTileEntityKeeps(data: Option<PyValue>, str: PyValue -> string, wraps: PyValue -> bool, k: string)
    requires HasData(data) && DistinctKeys(data.value.entries) && !Reserved(k)
    requires Get(data.value, "id", PStr("unknown")).value != PStr(BannerId)
    requires ConvertTileEntity(data, str, wraps).Some?
    requires Lookup(data.value.entries, k).Some? && !Lookup(data.value.entries, k).value.PBool?
    requires wraps(Lookup(data.value.entries, k).value)
    ensures Lookup(ConvertTileEntity(data, str, wraps).value.data, k) == Lookup(data.value.entries, k)
  {
    ConvertTileEntitySpec(data, str, wraps, k);
  }

  // ---------------------------------------------------------------------
  // Banners
  // ---------------------------------------------------------------------

  /** One banner pattern: `(color, pattern)`. */
  datatype Pattern = Pattern(color: string, pattern: string)

  /** `pattern_data.get('color', 'white')` and
      `pattern_data.get('pattern', 'minecraft:base')`, each through
      `nbtlib.String`; None when the item has no `.get`. */
  function PatternOf(item: PyValue, str: PyValue -> string): (r: Option<Pattern>)
    ensures r.Some? <==> item.PDict?
    ensures item.PDict? && Lookup(item.entries, "color").None? ==> r.value.color == "white"
    ensures item.PDict? && Lookup(item.entries, "pattern").None? ==> r.value.pattern == "minecraft:base"
    ensures item.PDict? && Lookup(item.entries, "color").Some? ==>
      r.value.color == Text(Lookup(item.entries, "color").value, str)
    ensures item.PDict? && Lookup(item.entries, "pattern").Some? ==>
      r.value.pattern == Text(Lookup(item.entries, "pattern").value, str)
  {
    if !item.PDict? then None
    else
      var c := Get(item, "color", PStr("white")).value;
      var p := Get(item, "pattern", PStr("minecraft:base")).value;
      Some(Pattern(Text(c, str), Text(p, str)))
  }

  /** The loop over a list of patterns; one item without `.get` raises. */
  function PatternList(items: seq<PyValue>, str: PyValue -> string): (r: Option<seq<Pattern>>)
    ensures r.Some? <==> forall i :: 0 <= i < |items| ==> items[i].PDict?
    ensures r.Some? ==> |r.value| == |items|
    ensures r.Some? ==> forall i :: 0 <= i < |items| ==> Some(r.value[i]) == PatternOf(items[i], str)
  {
    if |items| == 0 then Some([])
    else
      var init := PatternList(items[..|items| - 1], str);
      var last := PatternOf(items[|items| - 1], str);
      if init.Some? && last.Some? then Some(init.value + [last.value])
      else
        assert forall i :: 0 <= i < |items| - 1 ==> items[..|items| - 1][i] == items[i];
        None
  }

  /** `for pattern_data in nbt_data['patterns']`: a list is walked item by
      item; iterating an empty dict or string gives nothing, and a
      non-empty one gives keys or characters, which have no `.get`; any
      other value is not iterable and raises. */
  function Patterns(v: PyValue, str: PyValue -> string): Option<seq<Pattern>>
  {
    match v
      case PList(items) => PatternList(items, str)
      case PDict(entries) => if |entries| == 0 then Some([]) else None
      case PStr(s) => if |s| == 0 then Some([]) else None
      case _ => None
  }

  /** A pattern as the compound written into `Data.patterns`. */
  function PatternValue(p: Pattern): PyValue
  {
    PDict([("color", PStr(p.color)), ("pattern", PStr(p.pattern))])
  }

  function PatternValues(ps: seq<Pattern>): (r: seq<PyValue>)
    ensures |r| == |ps| && forall i :: 0 <= i < |ps| ==> r[i] == PatternValue(ps[i])
  {
    seq(|ps|, i requires 0 <= i < |ps| => PatternValue(ps[i]))
  }

  /** The patterns of a banner entity: none when the key is absent. */
  function BannerPatterns(te: PyValue, str: PyValue -> string): Option<seq<Pattern>>
    requires te.PDict?
  {
    match Lookup(te.entries, "patterns")
      case None => Some([])
      case Some(v) => Patterns(v, str)
  }

  /** `convert_banner_tile_entity`: only an entity whose id is the banner's
      (or missing) converts, and the result keeps nothing of the entity but
      its position and patterns. */
  function ConvertBannerTileEntity(data: Option<PyValue>, str: PyValue -> string): (r: Option<SchemEntity>)
    ensures r.Some? ==> r.value.id == BannerId && |r.value.data| == 2
    ensures r.Some? ==> r.value.data[0].0 == "patterns" && r.value.data[1] == ("id", PStr(BannerId))
  {
    if !HasData(data) then None
    else
      var te := data.value;
      if Get(te, "id", PStr(BannerId)).value != PStr(BannerId) then None
      else
        match PosOf(te)
          case None => None
          case Some(p) =>
            match BannerPatterns(te, str)
              case None => None
              case Some(ps) =>
                Some(SchemEntity(BannerId, p, [("patterns", PList(PatternValues(ps))), ("id", PStr(BannerId))]))
  }

  /** A banner converts exactly when it has data, a banner id (or none),
      coordinates that convert and patterns that read; its position is the
      entity's and its patterns are read one for one, with the defaults
      white and `minecraft:base`. */
  lemma BannerSpec(data: Option<PyValue>, str: PyValue -> string)
    ensures var r := ConvertBannerTileEntity(data, str);
      r.Some? <==>
        HasData(data) && Get(data.value, "id", PStr(BannerId)).value == PStr(BannerId) &&
        RawPos(data.value).Some? && BannerPatterns(data.value, str).Some?
    ensures var r := ConvertBannerTileEntity(data, str);
      r.Some? ==>
        var ps := BannerPatterns(data.value, str).value;
        r.value.pos == RawPos(data.value).value &&
        r.value.data[0].1 == PList(PatternValues(ps))
  {
  }

  /** An entity with a list of pattern compounds keeps each pattern's
      colour and design, with the defaults filled in. */
  lemma BannerPatternList(data: Option<PyValue>, str: PyValue -> string, i: nat)
    requires ConvertBannerTileEntity(data, str).Some?
    requires Lookup(data.value.entries, "patterns").Some?
    requires var v := Lookup(data.value.entries, "patterns").value; v.PList? && i < |v.items|
    ensures var item := Lookup(data.value.entries, "patterns").value.items[i];
      var ps := ConvertBannerTileEntity(data, str).value.data[0].1.items;
      i < |ps| && item.PDict? && ps[i] == PatternValue(PatternOf(item, str).value)
  {
    BannerSpec(data, str);
  }
}
