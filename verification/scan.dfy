/** The blueprint converter's view of a litemapy region: the bounding box of
    its non-air blocks (`find_bounding_box`) and the insertion-ordered palette
    and position map collected inside a box (`collect_blocks`). A region is a
    total map from coordinates to block states plus the coordinate ranges its
    `xrange()`, `yrange()` and `zrange()` iterate. */
module Scan {
  import opened Common
  import opened StateString
  import opened Grid
  import opened Palette

  const Air: string := "minecraft:air"

  /** The ranges are inclusive: x runs lo.x .. hi.x (empty when hi.x < lo.x). */
  datatype Region = Region(lo: Pos, hi: Pos, at: Pos -> BlockState)

  predicate IsAir(b: BlockState)
  {
    b.id == Air
  }

  function Extent(lo: int, hi: int): nat
  {
    if hi >= lo then hi - lo + 1 else 0
  }

  predicate InBounds(p: Pos, lo: Pos, hi: Pos)
  {
    lo.x <= p.x <= hi.x && lo.y <= p.y <= hi.y && lo.z <= p.z <= hi.z
  }

  function Sub(p: Pos, q: Pos): Pos
  {
    Pos(p.x - q.x, p.y - q.y, p.z - q.z)
  }

  function Shift(t: Triple, lo: Pos): Pos
  {
    Pos(lo.x + t.a, lo.y + t.b, lo.z + t.c)
  }

  /** The positions `for x: for y: for z:` visits over lo..hi. */
  function ScanOrder(lo: Pos, hi: Pos): (r: seq<Pos>)
  {
    var n := Nest(Extent(lo.x, hi.x), Extent(lo.y, hi.y), Extent(lo.z, hi.z));
    seq(|n|, i requires 0 <= i < |n| => Shift(n[i], lo))
  }

  /** The x -> y -> z scan visits exactly the box, each position once. */
  lemma ScanOrderFacts(lo: Pos, hi: Pos)
    ensures forall p :: p in ScanOrder(lo, hi) <==> InBounds(p, lo, hi)
    ensures Distinct(ScanOrder(lo, hi))
  {
    ScanOrderMembers(lo, hi);
    ScanOrderDistinct(lo, hi);
  }

  lemma ScanOrderMembers(lo: Pos, hi: Pos)
    ensures forall p :: p in ScanOrder(lo, hi) <==> InBounds(p, lo, hi)
  {
    var ex, ey, ez := Extent(lo.x, hi.x), Extent(lo.y, hi.y), Extent(lo.z, hi.z);
    var n := Nest(ex, ey, ez);
    var s := ScanOrder(lo, hi);
    forall p | p in s ensures InBounds(p, lo, hi) {
      var i :| 0 <= i < |s| && s[i] == p;
      NestElements(ex, ey, ez, i);
    }
    forall p | InBounds(p, lo, hi) ensures p in s {
      var t := Triple(p.x - lo.x, p.y - lo.y, p.z - lo.z);
      NestIndex(ex, ey, ez, t);
      assert s[Flat(t, ey, ez)] == p;
    }
  }

  lemma ScanOrderDistinct(lo: Pos, hi: Pos)
    ensures Distinct(ScanOrder(lo, hi))
  {
    var ex, ey, ez := Extent(lo.x, hi.x), Extent(lo.y, hi.y), Extent(lo.z, hi.z);
    var s := ScanOrder(lo, hi);
    forall i, j | 0 <= i < j < |s| ensures s[i] != s[j] {
      NestDistinct(ex, ey, ez, i, j);
    }
  }

  /** The non-air positions among `cells`, in scan order. */
  function NonAirCells(cells: seq<Pos>, at: Pos -> BlockState): (r: seq<Pos>)
    ensures forall p :: p in r <==> p in cells && !IsAir(at(p))
    ensures |r| <= |cells|
  {
    if |cells| == 0 then []
    else
      var init := NonAirCells(cells[..|cells| - 1], at);
      var p := cells[|cells| - 1];
      assert cells == cells[..|cells| - 1] + [p];
      if IsAir(at(p)) then init else init + [p]
  }

  lemma NonAirDistinct(cells: seq<Pos>, at: Pos -> BlockState)
    requires Distinct(cells)
    ensures Distinct(NonAirCells(cells, at))
  {
    if |cells| > 0 {
      var c := cells[..|cells| - 1];
      assert Distinct(c);
      NonAirDistinct(c, at);
      assert cells[|cells| - 1] !in c;
    }
  }

  // ---------------------------------------------------------------------
  // find_bounding_box
  // ---------------------------------------------------------------------

  datatype Box = Box(lo: Pos, hi: Pos)

  /** One scan step: widen the box to cover a non-air position, count it. */
  function Visit(acc: (Option<Box>, nat), p: Pos, b: BlockState): (Option<Box>, nat)
  {
    if IsAir(b) then acc
    else match acc.0
      case None => (Some(Box(p, p)), acc.1 + 1)
      case Some(bx) =>
        (Some(Box(Pos(Min(bx.lo.x, p.x), Min(bx.lo.y, p.y), Min(bx.lo.z, p.z)),
                  Pos(Max(bx.hi.x, p.x), Max(bx.hi.y, p.y), Max(bx.hi.z, p.z)))),
         acc.1 + 1)
  }

  /** Every bound of the box is the coordinate of some non-air cell. */
  ghost predicate Attained(bx: Box, cells: seq<Pos>, at: Pos -> BlockState)
  {
    (exists q :: q in cells && !IsAir(at(q)) && q.x == bx.lo.x) &&
    (exists q :: q in cells && !IsAir(at(q)) && q.x == bx.hi.x) &&
    (exists q :: q in cells && !IsAir(at(q)) && q.y == bx.lo.y) &&
    (exists q :: q in cells && !IsAir(at(q)) && q.y == bx.hi.y) &&
    (exists q :: q in cells && !IsAir(at(q)) && q.z == bx.lo.z) &&
    (exists q :: q in cells && !IsAir(at(q)) && q.z == bx.hi.z)
  }

  /** The running min/max/count over a scan: the box holds every non-air
      cell seen, each of its bounds is attained, and the count is the number
      of non-air cells. */
  function BoxScan(cells: seq<Pos>, at: Pos -> BlockState): (r: (Option<Box>, nat))
    ensures r.1 == |NonAirCells(cells, at)|
    ensures r.0.None? <==> r.1 == 0
    ensures r.0.Some? ==>
      forall q :: q in cells && !IsAir(at(q)) ==> InBounds(q, r.0.value.lo, r.0.value.hi)
    ensures r.0.Some? ==> Attained(r.0.value, cells, at)
  {
    if |cells| == 0 then (None, 0)
    else
      var c := cells[..|cells| - 1];
      var p := cells[|cells| - 1];
      assert cells == c + [p];
      var acc := BoxScan(c, at);
      var r := Visit(acc, p, at(p));
      assert acc.0.None? ==> forall q :: q in c ==> IsAir(at(q)) by {
        if acc.0.None? { assert |NonAirCells(c, at)| == 0; }
      }
      VisitCovers(acc, c, p, at);
      StepAttained(acc, c, p, at);
      r
  }

  /** One scan step keeps every bound attained. */
  lemma StepAttained(acc: (Option<Box>, nat), c: seq<Pos>, p: Pos, at: Pos -> BlockState)
    requires acc.0.Some? ==> Attained(acc.0.value, c, at)
    ensures var r := Visit(acc, p, at(p));
      r.0.Some? ==> Attained(r.0.value, c + [p], at)
  {
    if IsAir(at(p)) {
      if acc.0.Some? {
        AttainedGrow(acc.0.value, c, p, at);
      }
    } else if acc.0.Some? {
      VisitAttained(acc.0.value, p, c, at);
    } else {
      assert p in c + [p];
    }
  }

  /** Attained bounds stay attained when more cells are scanned. */
  lemma AttainedGrow(bx: Box, c: seq<Pos>, p: Pos, at: Pos -> BlockState)
    requires Attained(bx, c, at)
    ensures Attained(bx, c + [p], at)
  {
    var q1 :| q1 in c && !IsAir(at(q1)) && q1.x == bx.lo.x;
    var q2 :| q2 in c && !IsAir(at(q2)) && q2.x == bx.hi.x;
    var q3 :| q3 in c && !IsAir(at(q3)) && q3.y == bx.lo.y;
    var q4 :| q4 in c && !IsAir(at(q4)) && q4.y == bx.hi.y;
    var q5 :| q5 in c && !IsAir(at(q5)) && q5.z == bx.lo.z;
    var q6 :| q6 in c && !IsAir(at(q6)) && q6.z == bx.hi.z;
    assert q1 in c + [p] && q2 in c + [p] && q3 in c + [p];
    assert q4 in c + [p] && q5 in c + [p] && q6 in c + [p];
  }

  /** Widening keeps every non-air cell seen so far inside the box and adds
      the new one. */
  lemma VisitCovers(acc: (Option<Box>, nat), c: seq<Pos>, p: Pos, at: Pos -> BlockState)
    requires acc.0.Some? ==> forall q :: q in c && !IsAir(at(q)) ==> InBounds(q, acc.0.value.lo, acc.0.value.hi)
    requires acc.0.None? ==> forall q :: q in c ==> IsAir(at(q))
    ensures var r := Visit(acc, p, at(p));
      r.0.Some? ==> forall q :: q in c + [p] && !IsAir(at(q)) ==> InBounds(q, r.0.value.lo, r.0.value.hi)
  {
  }

  lemma VisitAttained(bx: Box, p: Pos, c: seq<Pos>, at: Pos -> BlockState)
    requires Attained(bx, c, at) && !IsAir(at(p))
    ensures Visit((Some(bx), 0), p, at(p)).0.Some?
    ensures Attained(Visit((Some(bx), 0), p, at(p)).0.value, c + [p], at)
  {
    var nb := Visit((Some(bx), 0), p, at(p)).0.value;
    assert p in c + [p];
    forall q | q in c ensures q in c + [p] { }
    var q1 :| q1 in c && !IsAir(at(q1)) && q1.x == bx.lo.x;
    var q2 :| q2 in c && !IsAir(at(q2)) && q2.x == bx.hi.x;
    var q3 :| q3 in c && !IsAir(at(q3)) && q3.y == bx.lo.y;
    var q4 :| q4 in c && !IsAir(at(q4)) && q4.y == bx.hi.y;
    var q5 :| q5 in c && !IsAir(at(q5)) && q5.z == bx.lo.z;
    var q6 :| q6 in c && !IsAir(at(q6)) && q6.z == bx.hi.z;
    assert q1 in c + [p] && q2 in c + [p] && q3 in c + [p];
    assert q4 in c + [p] && q5 in c + [p] && q6 in c + [p];
  }

  /** find_bounding_box's 7-tuple: min/max per axis and the non-air count. */
  datatype Bounds = Bounds(minX: int, maxX: int, minY: int, maxY: int,
                           minZ: int, maxZ: int, count: nat)

  function BoundsLo(b: Bounds): Pos { Pos(b.minX, b.minY, b.minZ) }
  function BoundsHi(b: Bounds): Pos { Pos(b.maxX, b.maxY, b.maxZ) }

  /** The non-air cells of a region, in scan order. */
  function RegionNonAir(region: Region): seq<Pos>
  {
    NonAirCells(ScanOrder(region.lo, region.hi), region.at)
  }

  /** find_bounding_box(region). */
  function FindBoundingBox(region: Region): (b: Bounds)
    ensures b.count == |RegionNonAir(region)|
    ensures b.count == 0 ==> b == Bounds(0, 0, 0, 0, 0, 0, 0)
    ensures b.count > 0 ==>
      forall p :: InBounds(p, region.lo, region.hi) && !IsAir(region.at(p)) ==>
        InBounds(p, BoundsLo(b), BoundsHi(b))
    ensures b.count > 0 ==>
      Attained(Box(BoundsLo(b), BoundsHi(b)), ScanOrder(region.lo, region.hi), region.at)
  {
    ScanOrderFacts(region.lo, region.hi);
    var r := BoxScan(ScanOrder(region.lo, region.hi), region.at);
    match r.0
      case None => Bounds(0, 0, 0, 0, 0, 0, 0)
      case Some(bx) => Bounds(bx.lo.x, bx.hi.x, bx.lo.y, bx.hi.y, bx.lo.z, bx.hi.z, r.1)
  }

  /** The box is exactly the tightest one: any box holding every non-air
      block contains it, and it holds every non-air block of the region. */
  lemma BoundingBoxTight(region: Region, lo: Pos, hi: Pos)
    requires FindBoundingBox(region).count > 0
    requires forall p :: InBounds(p, region.lo, region.hi) && !IsAir(region.at(p)) ==> InBounds(p, lo, hi)
    ensures InBounds(BoundsLo(FindBoundingBox(region)), lo, hi)
    ensures InBounds(BoundsHi(FindBoundingBox(region)), lo, hi)
  {
    var b := FindBoundingBox(region);
    var cells := ScanOrder(region.lo, region.hi);
    ScanOrderFacts(region.lo, region.hi);
    var bx := Box(BoundsLo(b), BoundsHi(b));
    assert Attained(bx, cells, region.at);
    forall q | q in cells && !IsAir(region.at(q)) ensures InBounds(q, lo, hi) && InBounds(q, bx.lo, bx.hi) {
    }
    WithinWitnesses(bx, cells, region.at, lo, hi);
  }

  /** A box whose bounds are attained by cells that lie in both boxes is
      inside the other box. */
  lemma WithinWitnesses(bx: Box, cells: seq<Pos>, at: Pos -> BlockState, lo: Pos, hi: Pos)
    requires Attained(bx, cells, at)
    requires forall q :: q in cells && !IsAir(at(q)) ==> InBounds(q, lo, hi) && InBounds(q, bx.lo, bx.hi)
    ensures InBounds(bx.lo, lo, hi) && InBounds(bx.hi, lo, hi)
  {
    var q1 :| q1 in cells && !IsAir(at(q1)) && q1.x == bx.lo.x;
    var q2 :| q2 in cells && !IsAir(at(q2)) && q2.x == bx.hi.x;
    var q3 :| q3 in cells && !IsAir(at(q3)) && q3.y == bx.lo.y;
    var q4 :| q4 in cells && !IsAir(at(q4)) && q4.y == bx.hi.y;
    var q5 :| q5 in cells && !IsAir(at(q5)) && q5.z == bx.lo.z;
    var q6 :| q6 in cells && !IsAir(at(q6)) && q6.z == bx.hi.z;
    assert InBounds(q1, lo, hi) && InBounds(q2, lo, hi) && InBounds(q3, lo, hi);
    assert InBounds(q4, lo, hi) && InBounds(q5, lo, hi) && InBounds(q6, lo, hi);
    assert InBounds(q1, bx.lo, bx.hi) && InBounds(q2, bx.lo, bx.hi) && InBounds(q3, bx.lo, bx.hi);
    assert InBounds(q4, bx.lo, bx.hi) && InBounds(q5, bx.lo, bx.hi) && InBounds(q6, bx.lo, bx.hi);
  }

  // ---------------------------------------------------------------------
  // collect_blocks
  // ---------------------------------------------------------------------

  /** The state text of the block at a position. */
  function StateAt(at: Pos -> BlockState, p: Pos): string
  {
    BlockStateString(at(p))
  }

  /** The states of the non-air cells, in scan order (with repeats). */
  function StatesOf(cells: seq<Pos>, at: Pos -> BlockState): (r: seq<string>)
    ensures |r| == |NonAirCells(cells, at)|
    ensures forall i :: 0 <= i < |r| ==> r[i] == StateAt(at, NonAirCells(cells, at)[i])
  {
    var n := NonAirCells(cells, at);
    seq(|n|, i requires 0 <= i < |n| => StateAt(at, n[i]))
  }

  /** `(palette, positions)`: the palette lists states by id (id = index),
      positions maps local coordinates to palette ids in insertion order. */
  datatype Collected = Collected(palette: seq<string>, positions: seq<(Pos, nat)>)

  /** One step of the triple loop at absolute position p. */
  function CollectStep(acc: Collected, p: Pos, origin: Pos, b: BlockState): Collected
  {
    if IsAir(b) then acc
    else
      var s := BlockStateString(b);
      var palette := AddState(acc.palette, s);
      Collected(palette, Assign(acc.positions, Sub(p, origin), IndexOf(palette, s)))
  }

  function CollectCells(cells: seq<Pos>, origin: Pos, at: Pos -> BlockState): Collected
  {
    if |cells| == 0 then Collected([], [])
    else
      var p := cells[|cells| - 1];
      CollectStep(CollectCells(cells[..|cells| - 1], origin, at), p, origin, at(p))
  }

  /** The position entry a non-air cell contributes. */
  function Entry(palette: seq<string>, origin: Pos, at: Pos -> BlockState, p: Pos): (Pos, nat)
    requires StateAt(at, p) in palette
  {
    (Sub(p, origin), IndexOf(palette, StateAt(at, p)))
  }

  /** The positions are the non-air cells in scan order, each keyed by its
      offset from the origin and mapped to the id of its state. */
  ghost predicate PositionsFrom(positions: seq<(Pos, nat)>, palette: seq<string>,
                                nac: seq<Pos>, origin: Pos, at: Pos -> BlockState)
  {
    |positions| == |nac| &&
    forall i :: 0 <= i < |nac| ==>
      StateAt(at, nac[i]) in palette && positions[i] == Entry(palette, origin, at, nac[i])
  }

  /** The palette collected from a scan is the first-seen palette of the
      non-air states. */
  lemma {:induction false} CollectPalette(cells: seq<Pos>, origin: Pos, at: Pos -> BlockState)
    ensures CollectCells(cells, origin, at).palette == Build(StatesOf(cells, at))
  {
    if |cells| > 0 {
      var c := cells[..|cells| - 1];
      var p := cells[|cells| - 1];
      assert cells == c + [p];
      CollectPalette(c, origin, at);
      StatesOfSnoc(c, p, at);
    }
  }

  /** One more scanned cell adds its state when it is not air. */
  lemma StatesOfSnoc(c: seq<Pos>, p: Pos, at: Pos -> BlockState)
    ensures StatesOf(c + [p], at) ==
      if IsAir(at(p)) then StatesOf(c, at) else StatesOf(c, at) + [StateAt(at, p)]
  {
    var cells := c + [p];
    assert cells[..|cells| - 1] == c;
    if IsAir(at(p)) {
      assert NonAirCells(cells, at) == NonAirCells(c, at);
    } else {
      var st := StatesOf(cells, at);
      assert st[..|st| - 1] == StatesOf(c, at);
    }
  }

  lemma {:induction false} CollectPositions(cells: seq<Pos>, origin: Pos, at: Pos -> BlockState)
    requires Distinct(cells)
    ensures var c := CollectCells(cells, origin, at);
      PositionsFrom(c.positions, c.palette, NonAirCells(cells, at), origin, at)
  {
    if |cells| > 0 {
      var c := cells[..|cells| - 1];
      var p := cells[|cells| - 1];
      assert cells == c + [p];
      assert Distinct(c);
      CollectPositions(c, origin, at);
      if IsAir(at(p)) {
        assert NonAirCells(cells, at) == NonAirCells(c, at);
      } else {
        assert p !in c;
        PositionsStep(CollectCells(c, origin, at), NonAirCells(c, at), p, origin, at);
      }
    }
  }

  lemma PositionsStep(acc: Collected, nac: seq<Pos>, p: Pos, origin: Pos, at: Pos -> BlockState)
    requires PositionsFrom(acc.positions, acc.palette, nac, origin, at)
    requires p !in nac && !IsAir(at(p))
    ensures var r := CollectStep(acc, p, origin, at(p));
      PositionsFrom(r.positions, r.palette, nac + [p], origin, at)
  {
    var r := CollectStep(acc, p, origin, at(p));
    var s := StateAt(at, p);
    var nac' := nac + [p];
    FreshKey(acc, nac, p, origin, at);
    AssignFresh(acc.positions, Sub(p, origin), IndexOf(r.palette, s));
    assert r.positions == acc.positions + [(Sub(p, origin), IndexOf(r.palette, s))];
    forall i | 0 <= i < |nac|
      ensures StateAt(at, nac'[i]) in r.palette
      ensures r.positions[i] == Entry(r.palette, origin, at, nac'[i])
    {
      assert nac'[i] == nac[i];
      IdStable(acc.palette, s, StateAt(at, nac[i]));
    }
  }

  /** A cell not yet scanned has no entry yet. */
  lemma FreshKey(acc: Collected, nac: seq<Pos>, p: Pos, origin: Pos, at: Pos -> BlockState)
    requires PositionsFrom(acc.positions, acc.palette, nac, origin, at)
    requires p !in nac
    ensures Sub(p, origin) !in Keys(acc.positions)
  {
    forall e | e in acc.positions ensures e.0 != Sub(p, origin) {
      var i :| 0 <= i < |acc.positions| && acc.positions[i] == e;
      assert nac[i] in nac;
    }
  }

  /** collect_blocks(region, bounds): the scan runs over the bounds' box,
      whatever the region's own ranges are. */
  function CollectBlocks(region: Region, b: Bounds): Collected
  {
    CollectCells(ScanOrder(BoundsLo(b), BoundsHi(b)), BoundsLo(b), region.at)
  }

  /** The states collect_blocks sees, in scan order. */
  function BoxStates(region: Region, b: Bounds): seq<string>
  {
    StatesOf(ScanOrder(BoundsLo(b), BoundsHi(b)), region.at)
  }

  /** A state is scanned iff some non-air cell holds it. */
  lemma StatesMembership(cells: seq<Pos>, at: Pos -> BlockState, s: string)
    ensures s in StatesOf(cells, at) <==> exists p :: p in cells && !IsAir(at(p)) && StateAt(at, p) == s
  {
    var nac := NonAirCells(cells, at);
    var st := StatesOf(cells, at);
    if s in st {
      var i :| 0 <= i < |st| && st[i] == s;
      assert nac[i] in nac;
    }
    if exists p :: p in cells && !IsAir(at(p)) && StateAt(at, p) == s {
      var p :| p in cells && !IsAir(at(p)) && StateAt(at, p) == s;
      assert p in nac;
      var i :| 0 <= i < |nac| && nac[i] == p;
      assert st[i] == s;
    }
  }

  /** collect_blocks' palette: no air, contiguous ids handed out in
      first-seen x -> y -> z order, one per distinct state of the box. */
  lemma CollectBlocksPalette(region: Region, b: Bounds)
    ensures FirstSeen(CollectBlocks(region, b).palette, BoxStates(region, b))
    ensures forall s :: s in CollectBlocks(region, b).palette <==>
      exists p :: InBounds(p, BoundsLo(b), BoundsHi(b)) && !IsAir(region.at(p)) && StateAt(region.at, p) == s
  {
    var cells := ScanOrder(BoundsLo(b), BoundsHi(b));
    CollectPalette(cells, BoundsLo(b), region.at);
    BuildFirstSeen(BoxStates(region, b));
    ScanOrderFacts(BoundsLo(b), BoundsHi(b));
    forall s ensures s in BoxStates(region, b) <==>
      exists p :: InBounds(p, BoundsLo(b), BoundsHi(b)) && !IsAir(region.at(p)) && StateAt(region.at, p) == s
    {
      StatesMembership(cells, region.at, s);
    }
  }

  /** collect_blocks' positions have one key per cell. */
  lemma CollectBlocksDistinct(region: Region, b: Bounds)
    ensures DistinctKeys(CollectBlocks(region, b).positions)
  {
    var lo, hi := BoundsLo(b), BoundsHi(b);
    var cells := ScanOrder(lo, hi);
    ScanOrderDistinct(lo, hi);
    CollectPositions(cells, lo, region.at);
    var c := CollectBlocks(region, b);
    var nac := NonAirCells(cells, region.at);
    NonAirDistinct(cells, region.at);
    forall i, j | 0 <= i < j < |c.positions| ensures c.positions[i].0 != c.positions[j].0 {
      assert c.positions[i].0 == Sub(nac[i], lo) && c.positions[j].0 == Sub(nac[j], lo);
      assert nac[i] != nac[j];
    }
  }

  /** Every non-air block of the box is keyed by its offset from the box's
      minimum corner and mapped to the id of its state. */
  lemma CollectBlocksFound(region: Region, b: Bounds, p: Pos)
    requires InBounds(p, BoundsLo(b), BoundsHi(b)) && !IsAir(region.at(p))
    ensures var c := CollectBlocks(region, b);
      StateAt(region.at, p) in c.palette &&
      Lookup(c.positions, Sub(p, BoundsLo(b))) == Some(IndexOf(c.palette, StateAt(region.at, p)))
  {
    var lo, hi := BoundsLo(b), BoundsHi(b);
    var cells := ScanOrder(lo, hi);
    ScanOrderFacts(lo, hi);
    CollectPositions(cells, lo, region.at);
    CollectBlocksDistinct(region, b);
    var c := CollectBlocks(region, b);
    var nac := NonAirCells(cells, region.at);
    assert p in nac;
    var i :| 0 <= i < |nac| && nac[i] == p;
    LookupDistinct(c.positions, i);
  }

  /** Nothing else is keyed: every entry is the offset of a non-air block of
      the box, mapped to the id of that block's state. */
  lemma CollectBlocksEntries(region: Region, b: Bounds, e: (Pos, nat))
    requires e in CollectBlocks(region, b).positions
    ensures var c := CollectBlocks(region, b);
      var p := Pos(e.0.x + b.minX, e.0.y + b.minY, e.0.z + b.minZ);
      InBounds(p, BoundsLo(b), BoundsHi(b)) && !IsAir(region.at(p)) &&
      e.1 < |c.palette| && c.palette[e.1] == StateAt(region.at, p)
  {
    var lo, hi := BoundsLo(b), BoundsHi(b);
    var cells := ScanOrder(lo, hi);
    ScanOrderFacts(lo, hi);
    CollectPositions(cells, lo, region.at);
    var c := CollectBlocks(region, b);
    var nac := NonAirCells(cells, region.at);
    var i :| 0 <= i < |c.positions| && c.positions[i] == e;
    assert nac[i] in nac;
    assert Pos(e.0.x + b.minX, e.0.y + b.minY, e.0.z + b.minZ) == nac[i];
  }
}
