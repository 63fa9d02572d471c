/** `extract_tile_entities`: the tile entities of the litematic's first
    region are rebuilt as blueprint block entities. Each entity's position
    is corrected one block against its facing, made local to a combined box
    that covers the block box and every (uncorrected) entity position, and
    its remaining keys are copied through `convert_nbt_value`.

    Reading the file (`nbtlib.load` and the walk to the region's
    `TileEntities` or `BlockEntities` list) is a parameter: `None` stands
    for any exception raised inside that `try`, `Some(tes)` for the list
    found (empty when the region has neither key). Python's `str()` of a
    non-string id is a parameter as well. */
module TileEntities {
  import opened Common
  import opened NbtValues
  import opened Scan

  // ---------------------------------------------------------------------
  // Coordinates and facing
  // ---------------------------------------------------------------------

  /** `int(value)` for the values a coordinate can hold: ints and bools
      directly, floats truncated toward zero; anything else raises. */
  function IntOf(v: PyValue): (r: Option<int>)
    ensures v.PInt? ==> r == Some(v.i)
  {
    match v
      case PInt(i) => Some(i)
      case PBool(b) => Some(if b then 1 else 0)
      case PFloat(f) => Some(Trunc(f))
      case _ => None
  }

  /** `te.get(key, default)`; None when `te` is not a dict (no `.get`). */
  function Get(te: PyValue, key: string, default: PyValue): Option<PyValue>
  {
    if !te.PDict? then None
    else match Lookup(te.entries, key)
      case Some(v) => Some(v)
      case None => Some(default)
  }

  /** `int(te.get(key, 0))`. */
  function Coord(te: PyValue, key: string): Option<int>
  {
    match Get(te, key, PInt(0))
      case None => None
      case Some(v) => IntOf(v)
  }

  /** The uncorrected position of an entity, if all three coordinates convert. */
  function RawPos(te: PyValue): Option<Pos>
  {
    var x, y, z := Coord(te, "x"), Coord(te, "y"), Coord(te, "z");
    if x.Some? && y.Some? && z.Some? then Some(Pos(x.value, y.value, z.value)) else None
  }

  /** `te.get('Facing', te.get('facing', 'south'))`. */
  function FacingOf(te: PyValue): PyValue
    requires te.PDict?
  {
    match Lookup(te.entries, "Facing")
      case Some(f) => f
      case None =>
        match Lookup(te.entries, "facing")
          case Some(f) => f
          case None => PStr("south")
  }

  /** The horizontal step a facing points along (x grows east, z south). */
  function FacingStep(facing: PyValue): (int, int)
  {
    if facing == PStr("east") then (1, 0)
    else if facing == PStr("west") then (-1, 0)
    else if facing == PStr("north") then (0, -1)
    else if facing == PStr("south") then (0, 1)
    else (0, 0)
  }

  /** The facing correction of lines 525-532. */
  function Corrected(p: Pos, facing: PyValue): Pos
  {
    if facing == PStr("east") then Pos(p.x - 1, p.y, p.z)
    else if facing == PStr("west") then Pos(p.x + 1, p.y, p.z)
    else if facing == PStr("north") then Pos(p.x, p.y, p.z + 1)
    else if facing == PStr("south") then Pos(p.x, p.y, p.z - 1)
    else p
  }

  /** The correction moves an entity one block back against the direction
      it faces, and stepping forward again restores the original position;
      a missing facing counts as south and any other value moves nothing. */
  lemma CorrectionStepsBack(te: PyValue)
    requires te.PDict?
    ensures var p := RawPos(te);
      p.Some? ==>
        var s := FacingStep(FacingOf(te));
        var c := Corrected(p.value, FacingOf(te));
        c == Pos(p.value.x - s.0, p.value.y, p.value.z - s.1) &&
        Pos(c.x + s.0, c.y, c.z + s.1) == p.value
    ensures Lookup(te.entries, "Facing").None? && Lookup(te.entries, "facing").None? ==>
      FacingStep(FacingOf(te)) == (0, 1)
  {
  }

  // ---------------------------------------------------------------------
  // The combined box
  // ---------------------------------------------------------------------

  /** The positions of all entities, or None when one coordinate fails
      (which raises out of the min/max at lines 492-497). */
  function RawPositions(tes: seq<PyValue>): (r: Option<seq<Pos>>)
    ensures r.Some? <==> forall i :: 0 <= i < |tes| ==> RawPos(tes[i]).Some?
    ensures r.Some? ==> |r.value| == |tes|
    ensures r.Some? ==> forall i :: 0 <= i < |tes| ==> r.value[i] == RawPos(tes[i]).value
  {
    if |tes| == 0 then Some([])
    else
      var init := RawPositions(tes[..|tes| - 1]);
      var last := RawPos(tes[|tes| - 1]);
      if init.Some? && last.Some? then Some(init.value + [last.value])
      else
        assert forall i :: 0 <= i < |tes| - 1 ==> tes[..|tes| - 1][i] == tes[i];
        None
  }

  function Xs(ps: seq<Pos>): (r: seq<int>)
    ensures |r| == |ps| && forall i :: 0 <= i < |ps| ==> r[i] == ps[i].x
  {
    seq(|ps|, i requires 0 <= i < |ps| => ps[i].x)
  }

  function Ys(ps: seq<Pos>): (r: seq<int>)
    ensures |r| == |ps| && forall i :: 0 <= i < |ps| ==> r[i] == ps[i].y
  {
    seq(|ps|, i requires 0 <= i < |ps| => ps[i].y)
  }

  function Zs(ps: seq<Pos>): (r: seq<int>)
    ensures |r| == |ps| && forall i :: 0 <= i < |ps| ==> r[i] == ps[i].z
  {
    seq(|ps|, i requires 0 <= i < |ps| => ps[i].z)
  }

  /** The block box as `(min, max)` corners. */
  function BlockBox(b: Bounds): Box
  {
    Box(BoundsLo(b), BoundsHi(b))
  }

  /** Lines 491-516: with entities, the per-axis min/max of the block box
      and the uncorrected entity positions; without, the block box. */
  function CombinedBox(b: Bounds, ps: seq<Pos>): Box
  {
    if |ps| == 0 then BlockBox(b)
    else
      Box(Pos(Min(b.minX, MinOf(Xs(ps))), Min(b.minY, MinOf(Ys(ps))), Min(b.minZ, MinOf(Zs(ps)))),
          Pos(Max(b.maxX, MaxOf(Xs(ps))), Max(b.maxY, MaxOf(Ys(ps))), Max(b.maxZ, MaxOf(Zs(ps)))))
  }

  /** The combined box contains the block box and every uncorrected entity
      position, and it is the least such box: each bound is a bound of the
      block box or the coordinate of some entity. */
  lemma CombinedBoxCovers(b: Bounds, ps: seq<Pos>)
    ensures var c := CombinedBox(b, ps);
      c.lo.x <= b.minX && c.lo.y <= b.minY && c.lo.z <= b.minZ &&
      c.hi.x >= b.maxX && c.hi.y >= b.maxY && c.hi.z >= b.maxZ
    ensures forall p :: p in ps ==> InBounds(p, CombinedBox(b, ps).lo, CombinedBox(b, ps).hi)
    ensures var c := CombinedBox(b, ps);
      (c.lo.x == b.minX || c.lo.x in Xs(ps)) && (c.hi.x == b.maxX || c.hi.x in Xs(ps)) &&
      (c.lo.y == b.minY || c.lo.y in Ys(ps)) && (c.hi.y == b.maxY || c.hi.y in Ys(ps)) &&
      (c.lo.z == b.minZ || c.lo.z in Zs(ps)) && (c.hi.z == b.maxZ || c.hi.z in Zs(ps))
  {
    forall p | p in ps ensures InBounds(p, CombinedBox(b, ps).lo, CombinedBox(b, ps).hi) {
      var i :| 0 <= i < |ps| && ps[i] == p;
      assert Xs(ps)[i] == p.x && Ys(ps)[i] == p.y && Zs(ps)[i] == p.z;
    }
  }

  // ---------------------------------------------------------------------
  // One entity
  // ---------------------------------------------------------------------

  /** `str(tile_entity.get('id', ''))`. */
  function IdText(te: PyValue, str: PyValue -> string): string
    requires te.PDict?
  {
    var v := Lookup(te.entries, "id");
    if v.None? then ""
    else if v.value.PStr? then v.value.s
    else str(v.value)
  }

  predicate Reserved(key: string)
  {
    key == "x" || key == "y" || key == "z" || key == "id"
  }

  /** The copy loop of lines 539-543 from entry i on; None when a
      conversion raises, which drops the whole entity. */
  function CopyRest(entries: seq<(string, PyValue)>, i: nat, acc: seq<(string, Nbt)>): Option<seq<(string, Nbt)>>
    requires i <= |entries|
    decreases |entries| - i
  {
    if i == |entries| then Some(acc)
    else if Reserved(entries[i].0) then CopyRest(entries, i + 1, acc)
    else match ConvertValue(entries[i].1)
      case Raises => None
      case Dropped => CopyRest(entries, i + 1, acc)
      case Value(t) => CopyRest(entries, i + 1, Assign(acc, entries[i].0, t))
  }

  /** The compound each kept entity starts from (lines 536-538). */
  function Head(te: PyValue, c: Pos, origin: Pos, str: PyValue -> string): seq<(string, Nbt)>
    requires te.PDict?
  {
    [("x", NInt(c.x - origin.x)), ("y", NInt(c.y - origin.y)),
     ("z", NInt(c.z - origin.z)), ("id", NString(IdText(te, str)))]
  }

  lemma HeadFields(te: PyValue, c: Pos, origin: Pos, str: PyValue -> string)
    requires te.PDict?
    ensures var h := Head(te, c, origin, str);
      Lookup(h, "x") == Some(NInt(c.x - origin.x)) &&
      Lookup(h, "y") == Some(NInt(c.y - origin.y)) &&
      Lookup(h, "z") == Some(NInt(c.z - origin.z)) &&
      Lookup(h, "id") == Some(NString(IdText(te, str)))
  {
    var a, b, d, e := NInt(c.x - origin.x), NInt(c.y - origin.y), NInt(c.z - origin.z), NString(IdText(te, str));
    assert Head(te, c, origin, str) == [("x", a), ("y", b), ("z", d), ("id", e)];
    LookupFour(a, b, d, e);
  }

  lemma LookupFour<V>(a: V, b: V, c: V, d: V)
    ensures var h := [("x", a), ("y", b), ("z", c), ("id", d)];
      Lookup(h, "x") == Some(a) && Lookup(h, "y") == Some(b) &&
      Lookup(h, "z") == Some(c) && Lookup(h, "id") == Some(d)
  {
    var h := [("x", a), ("y", b), ("z", c), ("id", d)];
    assert "x"[0] != "y"[0] && "x"[0] != "z"[0] && "y"[0] != "z"[0];
    assert |"id"| != |"x"|;
    LookupCons(h, "y");
    LookupCons(h[1..], "z");
    LookupCons(h, "z");
    LookupCons(h[1..][1..], "id");
    LookupCons(h[1..], "id");
    LookupCons(h, "id");
  }

  /** The block entity built from one tile entity, or None when the `try`
      of lines 519-547 catches an exception and skips it. */
  function ProcessEntity(te: PyValue, origin: Pos, str: PyValue -> string): Option<Nbt>
  {
    match RawPos(te)
      case None => None
      case Some(p) =>
        var c := Corrected(p, FacingOf(te));
        match CopyRest(te.entries, 0, Head(te, c, origin, str))
          case None => None
          case Some(es) => Some(NCompound(es))
  }

  /** The loop of lines 518-547: entities that fail are skipped. */
  function ProcessAll(tes: seq<PyValue>, origin: Pos, str: PyValue -> string): (r: seq<Nbt>)
    ensures |r| <= |tes|
  {
    if |tes| == 0 then []
    else
      var init := ProcessAll(tes[..|tes| - 1], origin, str);
      match ProcessEntity(tes[|tes| - 1], origin, str)
        case None => init
        case Some(n) => init + [n]
  }

  // ---------------------------------------------------------------------
  // The whole function
  // ---------------------------------------------------------------------

  /** What `extract_tile_entities` hands back: the source returns either a
      bare empty list (load failure) or the pair (entities, combined box). */
  datatype Returned = BareList | Pair(entities: seq<Nbt>, combined: Box)

  /** The function as written. None is an exception escaping it: a
      coordinate that does not convert fails the min/max of lines 492-497,
      which sit outside every `try`. */
  function ExtractAsWritten(loaded: Option<seq<PyValue>>, b: Bounds, str: PyValue -> string): Option<Returned>
  {
    match loaded
      case None => Some(BareList)
      case Some(tes) =>
        match RawPositions(tes)
          case None => None
          case Some(ps) =>
            var box := CombinedBox(b, ps);
            Some(Pair(ProcessAll(tes, box.lo, str), box))
  }

  /** The caller's `tile_entities, combined_bounds = ...`: unpacking a bare
      empty list into two names raises ValueError. */
  function Unpack(r: Returned): Option<(seq<Nbt>, Box)>
  {
    match r
      case BareList => None
      case Pair(es, box) => Some((es, box))
  }

  /** The load-failure path does not give the caller "no entities": its
      bare `[]` cannot be unpacked, so the conversion stops with an
      uncaught ValueError. */
  lemma LoadFailureUnpackFails(b: Bounds, str: PyValue -> string)
    ensures ExtractAsWritten(None, b, str).Some?
    ensures Unpack(ExtractAsWritten(None, b, str).value).None?
  {
  }

  /** The evidently intended behaviour: a load failure means no entities
      and the block box unchanged. Otherwise identical to the source. */
  function Extract(loaded: Option<seq<PyValue>>, b: Bounds, str: PyValue -> string): (r: Option<(seq<Nbt>, Box)>)
    ensures loaded.None? ==> r == Some(([], BlockBox(b)))
    ensures loaded.Some? ==> r == (match ExtractAsWritten(loaded, b, str)
                                     case None => None
                                     case Some(ret) => Unpack(ret))
  {
    match loaded
      case None => Some(([], BlockBox(b)))
      case Some(tes) =>
        match RawPositions(tes)
          case None => None
          case Some(ps) =>
            var box := CombinedBox(b, ps);
            Some((ProcessAll(tes, box.lo, str), box))
  }

  // ---------------------------------------------------------------------
  // What one entity becomes
  // ---------------------------------------------------------------------

  /** The copy loop fails exactly when some copied value raises; it stores
      every copied value that is not None under its own key, converted, and
      leaves every other key as it was. */
  lemma {:induction false} CopyRestFacts(entries: seq<(string, PyValue)>, i: nat, acc: seq<(string, Nbt)>)
    requires i <= |entries| && DistinctKeys(entries)
    ensures CopyRest(entries, i, acc).Some? <==>
      forall j :: i <= j < |entries| && !Reserved(entries[j].0) ==> Regular(entries[j].1)
    ensures CopyRest(entries, i, acc).Some? ==>
      forall j :: i <= j < |entries| && !Reserved(entries[j].0) && !entries[j].1.PNone? ==>
        Lookup(CopyRest(entries, i, acc).value, entries[j].0).Some? &&
        Value(Lookup(CopyRest(entries, i, acc).value, entries[j].0).value) == ConvertValue(entries[j].1)
    ensures CopyRest(entries, i, acc).Some? ==>
      forall k :: Reserved(k) || (forall j :: i <= j < |entries| ==> entries[j].0 != k || entries[j].1.PNone?) ==>
        Lookup(CopyRest(entries, i, acc).value, k) == Lookup(acc, k)
    decreases |entries| - i
  {
    if i < |entries| {
      var e := entries[i];
      ValueOutcome(e.1);
      if Reserved(e.0) {
        CopyRestFacts(entries, i + 1, acc);
      } else if ConvertValue(e.1).Value? {
        var t := ConvertValue(e.1).tag;
        var acc' := Assign(acc, e.0, t);
        CopyRestFacts(entries, i + 1, acc');
        forall k ensures Lookup(acc', k) == if k == e.0 then Some(t) else Lookup(acc, k) {
          AssignLookup(acc, e.0, t, k);
        }
      } else {
        CopyRestFacts(entries, i + 1, acc);
      }
    }
  }

  /** The copy loop never touches a reserved key. */
  lemma {:induction false} CopyRestReserved(entries: seq<(string, PyValue)>, i: nat, acc: seq<(string, Nbt)>, k: string)
    requires i <= |entries| && Reserved(k)
    ensures CopyRest(entries, i, acc).Some? ==> Lookup(CopyRest(entries, i, acc).value, k) == Lookup(acc, k)
    decreases |entries| - i
  {
    if i < |entries| {
      var e := entries[i];
      if !Reserved(e.0) && ConvertValue(e.1).Value? {
        var acc' := Assign(acc, e.0, ConvertValue(e.1).tag);
        CopyRestReserved(entries, i + 1, acc', k);
        AssignLookup(acc, e.0, ConvertValue(e.1).tag, k);
      } else {
        CopyRestReserved(entries, i + 1, acc, k);
      }
    }
  }

  /** An entity is kept exactly when its coordinates convert and none of
      its copied values raises. */
  lemma EntityKept(te: PyValue, origin: Pos, str: PyValue -> string)
    requires te.PDict? && DistinctKeys(te.entries)
    ensures ProcessEntity(te, origin, str).Some? <==>
      RawPos(te).Some? &&
      forall j :: 0 <= j < |te.entries| && !Reserved(te.entries[j].0) ==> Regular(te.entries[j].1)
  {
    if RawPos(te).Some? {
      var c := Corrected(RawPos(te).value, FacingOf(te));
      CopyRestFacts(te.entries, 0, Head(te, c, origin, str));
    }
  }

  /** A kept entity reads, under a reserved key, what the head it was
      built from holds there. */
  lemma EntityReserved(te: PyValue, origin: Pos, str: PyValue -> string, k: string)
    requires te.PDict? && Reserved(k)
    requires ProcessEntity(te, origin, str).Some?
    ensures RawPos(te).Some? && ProcessEntity(te, origin, str).value.NCompound?
    ensures Lookup(ProcessEntity(te, origin, str).value.entries, k) ==
      Lookup(Head(te, Corrected(RawPos(te).value, FacingOf(te)), origin, str), k)
  {
    var c := Corrected(RawPos(te).value, FacingOf(te));
    CopyRestReserved(te.entries, 0, Head(te, c, origin, str), k);
  }

  /** A kept entity holds its corrected position `c` relative to the
      combined minimum under x, y and z, and its id text under id. */
  lemma EntityFields(te: PyValue, origin: Pos, str: PyValue -> string, c: Pos)
    requires te.PDict?
    requires ProcessEntity(te, origin, str).Some?
    requires RawPos(te).Some? && c == Corrected(RawPos(te).value, FacingOf(te))
    ensures ProcessEntity(te, origin, str).value.NCompound?
    ensures var es := ProcessEntity(te, origin, str).value.entries;
      Lookup(es, "x") == Some(NInt(c.x - origin.x)) &&
      Lookup(es, "y") == Some(NInt(c.y - origin.y)) &&
      Lookup(es, "z") == Some(NInt(c.z - origin.z)) &&
      Lookup(es, "id") == Some(NString(IdText(te, str)))
  {
    EntityReserved(te, origin, str, "x");
    EntityReserved(te, origin, str, "y");
    EntityReserved(te, origin, str, "z");
    EntityReserved(te, origin, str, "id");
    HeadFields(te, c, origin, str);
  }

  /** A kept entity holds every other key whose value is not None,
      converted. */
  lemma EntityCopies(te: PyValue, origin: Pos, str: PyValue -> string)
    requires te.PDict? && DistinctKeys(te.entries)
    requires ProcessEntity(te, origin, str).Some?
    ensures ProcessEntity(te, origin, str).value.NCompound?
    ensures var es := ProcessEntity(te, origin, str).value.entries;
      forall j :: 0 <= j < |te.entries| && !Reserved(te.entries[j].0) && !te.entries[j].1.PNone? ==>
        Lookup(es, te.entries[j].0).Some? &&
        Value(Lookup(es, te.entries[j].0).value) == ConvertValue(te.entries[j].1)
  {
    var c := Corrected(RawPos(te).value, FacingOf(te));
    CopyRestFacts(te.entries, 0, Head(te, c, origin, str));
  }

  /** The returned entities are, in order, the entities that were kept. */
  lemma {:induction false} ProcessAllKept(tes: seq<PyValue>, origin: Pos, str: PyValue -> string)
    ensures forall n :: n in ProcessAll(tes, origin, str) <==>
      exists i :: 0 <= i < |tes| && ProcessEntity(tes[i], origin, str) == Some(n)
  {
    if |tes| > 0 {
      var init := tes[..|tes| - 1];
      ProcessAllKept(init, origin, str);
      forall n ensures (exists i :: 0 <= i < |init| && ProcessEntity(init[i], origin, str) == Some(n)) <==>
        (exists i :: 0 <= i < |tes| - 1 && ProcessEntity(tes[i], origin, str) == Some(n))
      {
        assert forall i :: 0 <= i < |init| ==> init[i] == tes[i];
      }
    }
  }
}
