/** The banner alignment shift of `convert_litematic_to_bp`. Banners are the
    block entities whose positions drift most visibly, so after the scene has
    been re-collected over the combined box, the converter compares the
    smallest banner block coordinate with the smallest banner entity
    coordinate on each axis and, when they differ, moves every entity by the
    difference. The whole step sits in a `try` whose handler does nothing: an
    exception part-way leaves the entities as far as they had been changed.

    `'banner' in s.lower()` is decided on ASCII-lowered text: no character
    outside ASCII lower-cases to any of the letters of "banner", so the
    test gives the same answer. */
module Banner {
  import opened Common
  import opened NbtValues
  import opened Palette
  import opened Scan
  import opened TileEntities

  // ---------------------------------------------------------------------
  // Which blocks are banners
  // ---------------------------------------------------------------------

  function LowerChar(c: char): char
  {
    if 'A' <= c <= 'Z' then (c as int + 32) as char else c
  }

  function Lower(s: string): (r: string)
    ensures |r| == |s| && forall i :: 0 <= i < |s| ==> r[i] == LowerChar(s[i])
  {
    seq(|s|, i requires 0 <= i < |s| => LowerChar(s[i]))
  }

  /** Python's `sub in s`. */
  predicate Contains(s: string, sub: string)
    decreases |s|
  {
    sub <= s || (|s| > 0 && Contains(s[1..], sub))
  }

  /** `sub` occurs in `s` starting at offset `i`. */
  predicate OccursAt(s: string, sub: string, i: int)
  {
    0 <= i && i + |sub| <= |s| && s[i..i + |sub|] == sub
  }

  /** `sub in s` holds exactly when `sub` occurs at some offset of `s`. */
  lemma {:induction false} ContainsAt(s: string, sub: string)
    ensures Contains(s, sub) <==> exists i :: OccursAt(s, sub, i)
    decreases |s|
  {
    OccursStart(s, sub);
    if sub <= s {
    } else if |s| > 0 {
      ContainsAt(s[1..], sub);
      if exists i :: OccursAt(s, sub, i) {
        var i :| OccursAt(s, sub, i);
        OccursShift(s, sub, i);
      }
      if exists i :: OccursAt(s[1..], sub, i) {
        var i :| OccursAt(s[1..], sub, i);
        OccursShift(s, sub, i + 1);
      }
    }
  }

  lemma OccursStart(s: string, sub: string)
    ensures OccursAt(s, sub, 0) <==> sub <= s
  {
  }

  /** An occurrence past the first character is one in the rest. */
  lemma OccursShift(s: string, sub: string, i: int)
    requires |s| > 0 && i >= 1
    ensures OccursAt(s, sub, i) <==> OccursAt(s[1..], sub, i - 1)
  {
    if i + |sub| <= |s| {
      assert s[1..][i - 1..i - 1 + |sub|] == s[i..i + |sub|];
    }
  }

  /** `idx_to_state.get(idx, '')`. */
  function StateText(palette: seq<string>, id: nat): string
  {
    match StateOfId(palette, id)
      case Some(s) => s
      case None => ""
  }

  predicate IsBannerState(s: string)
  {
    Contains(Lower(s), "banner")
  }

  /** The coordinates (in scan order) whose block state names a banner. */
  function BannerBlocks(palette: seq<string>, positions: seq<(Pos, nat)>): (r: seq<Pos>)
    ensures |r| <= |positions|
  {
    if |positions| == 0 then []
    else
      (if IsBannerState(StateText(palette, positions[0].1)) then [positions[0].0] else []) +
      BannerBlocks(palette, positions[1..])
  }

  /** The banner blocks are exactly the scanned coordinates whose state
      names a banner, in scan order. */
  lemma {:induction false} BannerBlocksMembers(palette: seq<string>, positions: seq<(Pos, nat)>, p: Pos)
    ensures p in BannerBlocks(palette, positions) <==>
      exists j :: 0 <= j < |positions| && positions[j].0 == p && IsBannerState(StateText(palette, positions[j].1))
  {
    if |positions| > 0 {
      BannerBlocksMembers(palette, positions[1..], p);
      var rest := positions[1..];
      if exists j :: 0 <= j < |rest| && rest[j].0 == p && IsBannerState(StateText(palette, rest[j].1)) {
        var j :| 0 <= j < |rest| && rest[j].0 == p && IsBannerState(StateText(palette, rest[j].1));
        assert positions[j + 1] == rest[j];
      }
      if exists j :: 0 <= j < |positions| && positions[j].0 == p && IsBannerState(StateText(palette, positions[j].1)) {
        var j :| 0 <= j < |positions| && positions[j].0 == p && IsBannerState(StateText(palette, positions[j].1));
        if j > 0 {
          assert rest[j - 1] == positions[j];
        }
      }
    }
  }

  // ---------------------------------------------------------------------
  // Entity coordinates
  // ---------------------------------------------------------------------

  /** `int()` of a tag: ints as they are, floats truncated; a missing key
      or a container raises (None). A string is treated as failing too, as
      `TileEntities.IntOf` does; none occurs here, since the entity head
      always writes Int tags for x, y and z. */
  function IntOfTag(v: Option<Nbt>): Option<int>
  {
    if v.None? then None
    else if v.value.NInt? then Some(v.value.i)
    else if v.value.NByte? then Some(v.value.b)
    else if v.value.NFloat? then Some(Trunc(v.value.f))
    else None
  }

  /** `int(te[key])`. */
  function TagCoord(te: Nbt, key: string): Option<int>
  {
    if te.NCompound? then IntOfTag(Lookup(te.entries, key)) else None
  }

  function EntityPos(te: Nbt): Option<Pos>
  {
    var x, y, z := TagCoord(te, "x"), TagCoord(te, "y"), TagCoord(te, "z");
    if x.Some? && y.Some? && z.Some? then Some(Pos(x.value, y.value, z.value)) else None
  }

  /** `te.get('id') == 'minecraft:banner'`. */
  predicate IsBannerEntity(te: Nbt)
  {
    te.NCompound? && Lookup(te.entries, "id") == Some(NString("minecraft:banner"))
  }

  /** The positions of the banner entities, in order; None when one of them
      raises in `int()`. */
  function BannerEntities(tes: seq<Nbt>): (r: Option<seq<Pos>>)
    ensures r.Some? <==> forall i :: 0 <= i < |tes| && IsBannerEntity(tes[i]) ==> EntityPos(tes[i]).Some?
  {
    if |tes| == 0 then Some([])
    else
      var rest := BannerEntities(tes[1..]);
      assert forall i :: 1 <= i < |tes| ==> tes[1..][i - 1] == tes[i];
      if !IsBannerEntity(tes[0]) then rest
      else if EntityPos(tes[0]).None? || rest.None? then None
      else Some([EntityPos(tes[0]).value] + rest.value)
  }

  /** The per-axis minimum of a non-empty list of positions. */
  function MinPos(ps: seq<Pos>): Pos
    requires |ps| > 0
  {
    Pos(MinOf(Xs(ps)), MinOf(Ys(ps)), MinOf(Zs(ps)))
  }

  // ---------------------------------------------------------------------
  // The shift
  // ---------------------------------------------------------------------

  /** `te[key] = Int(int(te[key]) - delta)`; None when `int()` raises. */
  function Step(te: Nbt, key: string, delta: int): Option<Nbt>
  {
    var v := TagCoord(te, key);
    if v.None? then None else Some(NCompound(Assign(te.entries, key, NInt(v.value - delta))))
  }

  /** The writes `te[key] = Int(int(te[key]) - delta)` for each (key,
      delta) in turn, each reading what the previous ones left; the first
      that raises stops them, with the earlier writes kept. The flag says
      whether all of them happened. */
  function Writes(te: Nbt, moves: seq<(string, int)>): (Nbt, bool)
    decreases |moves|
  {
    if |moves| == 0 then (te, true)
    else match Step(te, moves[0].0, moves[0].1)
      case None => (te, false)
      case Some(t) => Writes(t, moves[1..])
  }

  /** The x, y and z writes for one entity, in that order. */
  function Moves(d: Pos): seq<(string, int)>
  {
    [("x", d.x), ("y", d.y), ("z", d.z)]
  }

  function ShiftOne(te: Nbt, d: Pos): (Nbt, bool)
  {
    Writes(te, Moves(d))
  }

  /** The loop over every entity; it stops at the first failure. */
  function ShiftAll(tes: seq<Nbt>, d: Pos): (r: (seq<Nbt>, bool))
    ensures |r.0| == |tes|
  {
    if |tes| == 0 then ([], true)
    else
      var first := ShiftOne(tes[0], d);
      if !first.1 then ([first.0] + tes[1..], false)
      else
        var rest := ShiftAll(tes[1..], d);
        ([first.0] + rest.0, rest.1)
  }

  /** The difference the step corrects, or None when it does not shift:
      no banner blocks, a banner entity whose coordinates raise, or no banner
      entity at all (`min()` of an empty sequence raises). */
  function Delta(palette: seq<string>, positions: seq<(Pos, nat)>, tes: seq<Nbt>): Option<Pos>
  {
    var blocks := BannerBlocks(palette, positions);
    var ents := BannerEntities(tes);
    if |blocks| == 0 || ents.None? || |ents.value| == 0 then None
    else Some(Sub(MinPos(ents.value), MinPos(blocks)))
  }

  /** The entities after the step. */
  function Align(palette: seq<string>, positions: seq<(Pos, nat)>, tes: seq<Nbt>): (r: seq<Nbt>)
    ensures |r| == |tes|
  {
    match Delta(palette, positions, tes)
      case None => tes
      case Some(d) => if d == Pos(0, 0, 0) then tes else ShiftAll(tes, d).0
  }

  // ---------------------------------------------------------------------
  // Properties
  // ---------------------------------------------------------------------

  /** Only the three coordinates are keys the shift may touch. */
  predicate Coordinate(k: string)
  {
    k == "x" || k == "y" || k == "z"
  }

  lemma StepIs(te: Nbt, key: string, delta: int)
    requires TagCoord(te, key).Some?
    ensures Step(te, key, delta) == Some(NCompound(Assign(te.entries, key, NInt(TagCoord(te, key).value - delta))))
  {
  }

  /** Writing `key` makes `int()` read the written int there. */
  lemma WriteSame(te: Nbt, key: string, n: int)
    requires te.NCompound?
    ensures TagCoord(NCompound(Assign(te.entries, key, NInt(n))), key) == Some(n)
  {
    AssignLookup(te.entries, key, NInt(n), key);
  }

  /** Writing a key already present keeps the set of keys. */
  lemma WriteKeys(te: Nbt, key: string, v: Nbt)
    requires TagCoord(te, key).Some?
    ensures Keys(Assign(te.entries, key, v)) == Keys(te.entries)
  {
    AssignKeys(te.entries, key, v);
    LookupKey(te.entries, key);
  }

  /** Writing `key` leaves every other key as it was. */
  lemma WriteOther(te: Nbt, key: string, v: Nbt, k: string)
    requires te.NCompound? && k != key
    ensures Lookup(Assign(te.entries, key, v), k) == Lookup(te.entries, k)
    ensures TagCoord(NCompound(Assign(te.entries, key, v)), k) == TagCoord(te, k)
  {
    AssignLookup(te.entries, key, v, k);
  }

  /** One write on a readable key stores the coordinate moved by `-delta`. */
  lemma StepStores(te: Nbt, key: string, delta: int)
    requires TagCoord(te, key).Some?
    ensures Step(te, key, delta).Some? && Step(te, key, delta).value.NCompound?
    ensures Lookup(Step(te, key, delta).value.entries, key) == Some(NInt(TagCoord(te, key).value - delta))
  {
    StepIs(te, key, delta);
    AssignLookup(te.entries, key, NInt(TagCoord(te, key).value - delta), key);
  }

  /** ... so `int()` reads it back. */
  lemma StepFacts(te: Nbt, key: string, delta: int)
    requires TagCoord(te, key).Some?
    ensures Step(te, key, delta).Some? && Step(te, key, delta).value.NCompound?
    ensures TagCoord(Step(te, key, delta).value, key) == Some(TagCoord(te, key).value - delta)
  {
    StepStores(te, key, delta);
    ReadInt(Step(te, key, delta).value, key, TagCoord(te, key).value - delta);
  }

  lemma ReadInt(t: Nbt, key: string, n: int)
    requires t.NCompound? && Lookup(t.entries, key) == Some(NInt(n))
    ensures TagCoord(t, key) == Some(n)
  {
  }

  /** One write on a readable key keeps the set of keys. */
  lemma StepKeys(te: Nbt, key: string, delta: int)
    requires TagCoord(te, key).Some?
    ensures Step(te, key, delta).Some? && Step(te, key, delta).value.NCompound?
    ensures Keys(Step(te, key, delta).value.entries) == Keys(te.entries)
  {
    StepIs(te, key, delta);
    WriteKeys(te, key, NInt(TagCoord(te, key).value - delta));
  }

  /** One write leaves every other key as it was. */
  lemma StepOther(te: Nbt, key: string, delta: int, k: string)
    requires TagCoord(te, key).Some? && k != key
    ensures Step(te, key, delta).Some? && Step(te, key, delta).value.NCompound?
    ensures Lookup(Step(te, key, delta).value.entries, k) == Lookup(te.entries, k)
    ensures TagCoord(Step(te, key, delta).value, k) == TagCoord(te, k)
  {
    StepIs(te, key, delta);
    WriteOther(te, key, NInt(TagCoord(te, key).value - delta), k);
  }

  /** Writes on readable keys all happen, and a key none of them names
      keeps its value. */
  lemma {:induction false} WritesOther(te: Nbt, moves: seq<(string, int)>, k: string)
    requires te.NCompound?
    requires forall i :: 0 <= i < |moves| ==> TagCoord(te, moves[i].0).Some? && moves[i].0 != k
    ensures Writes(te, moves).1 && Writes(te, moves).0.NCompound?
    ensures Lookup(Writes(te, moves).0.entries, k) == Lookup(te.entries, k)
    decreases |moves|
  {
    if |moves| > 0 {
      var key, delta := moves[0].0, moves[0].1;
      StepOther(te, key, delta, k);
      var t := Step(te, key, delta).value;
      var rest := moves[1..];
      forall i | 0 <= i < |rest| ensures TagCoord(t, rest[i].0).Some? && rest[i].0 != k {
        assert rest[i] == moves[i + 1];
        if rest[i].0 == key {
          StepFacts(te, key, delta);
        } else {
          StepOther(te, key, delta, rest[i].0);
        }
      }
      WritesOther(t, rest, k);
    }
  }

  /** Writes on distinct readable keys all happen, and the `i`-th key ends
      up moved by its own delta. */
  lemma {:induction false} WritesMoved(te: Nbt, moves: seq<(string, int)>, i: nat)
    requires te.NCompound? && DistinctKeys(moves) && i < |moves|
    requires forall j :: 0 <= j < |moves| ==> TagCoord(te, moves[j].0).Some?
    ensures Writes(te, moves).1 && Writes(te, moves).0.NCompound?
    ensures TagCoord(Writes(te, moves).0, moves[i].0) == Some(TagCoord(te, moves[i].0).value - moves[i].1)
    decreases |moves|
  {
    var key, delta := moves[0].0, moves[0].1;
    StepFacts(te, key, delta);
    var t := Step(te, key, delta).value;
    var rest := moves[1..];
    assert Writes(te, moves).0 == Writes(t, rest).0;
    if i == 0 {
      forall j | 0 <= j < |rest| ensures TagCoord(t, rest[j].0).Some? && rest[j].0 != key {
        assert rest[j] == moves[j + 1];
        StepOther(te, key, delta, rest[j].0);
      }
      WritesOther(t, rest, key);
      TagCoordSame(Writes(t, rest).0, t, key);
    } else {
      forall j | 0 <= j < |rest| ensures TagCoord(t, rest[j].0) == TagCoord(te, rest[j].0) {
        assert rest[j] == moves[j + 1];
        StepOther(te, key, delta, rest[j].0);
      }
      assert DistinctKeys(rest);
      assert rest[i - 1] == moves[i];
      WritesMoved(t, rest, i - 1);
    }
  }

  /** Writes on readable keys keep the set of keys. */
  lemma {:induction false} WritesKeys(te: Nbt, moves: seq<(string, int)>)
    requires te.NCompound? && DistinctKeys(moves)
    requires forall i :: 0 <= i < |moves| ==> TagCoord(te, moves[i].0).Some?
    ensures Writes(te, moves).0.NCompound?
    ensures Keys(Writes(te, moves).0.entries) == Keys(te.entries)
    decreases |moves|
  {
    if |moves| > 0 {
      var key, delta := moves[0].0, moves[0].1;
      StepKeys(te, key, delta);
      var t := Step(te, key, delta).value;
      var rest := moves[1..];
      forall i | 0 <= i < |rest| ensures TagCoord(t, rest[i].0).Some? {
        assert rest[i] == moves[i + 1];
        StepOther(te, key, delta, rest[i].0);
      }
      WritesKeys(t, rest);
    }
  }

  /** An entity with three readable coordinates is moved by exactly `-d`
      and keeps its id and every other key. */
  lemma ShiftOneFacts(te: Nbt, d: Pos)
    requires EntityPos(te).Some?
    ensures ShiftOne(te, d).1 && ShiftOne(te, d).0.NCompound?
    ensures EntityPos(ShiftOne(te, d).0) == Some(Sub(EntityPos(te).value, d))
    ensures forall k :: !Coordinate(k) ==> Lookup(ShiftOne(te, d).0.entries, k) == Lookup(te.entries, k)
  {
    var m := Moves(d);
    assert "x"[0] != "y"[0] && "x"[0] != "z"[0] && "y"[0] != "z"[0];
    var r := Writes(te, m).0;
    var p := EntityPos(te).value;
    assert m[0].0 == "x" && m[1].0 == "y" && m[2].0 == "z";
    WritesMoved(te, m, 0);
    assert TagCoord(r, "x") == Some(p.x - d.x);
    WritesMoved(te, m, 1);
    assert TagCoord(r, "y") == Some(p.y - d.y);
    WritesMoved(te, m, 2);
    assert TagCoord(r, "z") == Some(p.z - d.z);
    forall k | !Coordinate(k) ensures Lookup(r.entries, k) == Lookup(te.entries, k) {
      WritesOther(te, m, k);
    }
  }

  /** The shift adds no key and removes none. */
  lemma ShiftOneKeys(te: Nbt, d: Pos)
    requires EntityPos(te).Some?
    ensures ShiftOne(te, d).0.NCompound?
    ensures Keys(ShiftOne(te, d).0.entries) == Keys(te.entries)
  {
    assert "x"[0] != "y"[0] && "x"[0] != "z"[0] && "y"[0] != "z"[0];
    WritesKeys(te, Moves(d));
  }

  /** `int(te[key])` depends only on what `te` holds under `key`. */
  lemma TagCoordSame(a: Nbt, b: Nbt, key: string)
    requires a.NCompound? && b.NCompound?
    requires Lookup(a.entries, key) == Lookup(b.entries, key)
    ensures TagCoord(a, key) == TagCoord(b, key)
  {
  }

  lemma LookupKey<K, V>(s: seq<(K, V)>, k: K)
    requires Lookup(s, k).Some?
    ensures k in Keys(s)
  {
    LookupFacts(s, k);
    var i :| 0 <= i < |s| && s[i] == (k, Lookup(s, k).value);
  }

  /** When every entity has readable coordinates the loop completes, and
      each entity comes out moved by `-d` with everything else kept. */
  lemma {:induction false} ShiftAllFacts(tes: seq<Nbt>, d: Pos)
    requires forall i :: 0 <= i < |tes| ==> EntityPos(tes[i]).Some?
    ensures ShiftAll(tes, d).1
    ensures forall i :: 0 <= i < |tes| ==>
      ShiftAll(tes, d).0[i] == ShiftOne(tes[i], d).0
  {
    if |tes| > 0 {
      ShiftOneFacts(tes[0], d);
      ShiftAllFacts(tes[1..], d);
      var rest := ShiftAll(tes[1..], d).0;
      forall i | 1 <= i < |tes| ensures ShiftAll(tes, d).0[i] == ShiftOne(tes[i], d).0 {
        assert ShiftAll(tes, d).0[i] == rest[i - 1];
        assert tes[1..][i - 1] == tes[i];
      }
    }
  }

  /** The shift keeps an entity a banner, or not a banner. */
  lemma ShiftOneBanner(te: Nbt, d: Pos)
    requires EntityPos(te).Some?
    ensures IsBannerEntity(ShiftOne(te, d).0) == IsBannerEntity(te)
  {
    ShiftOneFacts(te, d);
    assert !Coordinate("id");
  }

  /** Every position moved by `-d`. */
  function Moved(ps: seq<Pos>, d: Pos): (r: seq<Pos>)
    ensures |r| == |ps| && forall i :: 0 <= i < |ps| ==> r[i] == Sub(ps[i], d)
  {
    seq(|ps|, i requires 0 <= i < |ps| => Sub(ps[i], d))
  }

  /** After a completed shift the banner entities are the same ones, in the
      same order, each moved by `-d`. */
  lemma {:induction false} ShiftAllBanners(tes: seq<Nbt>, d: Pos)
    requires forall i :: 0 <= i < |tes| ==> EntityPos(tes[i]).Some?
    ensures BannerEntities(tes).Some? && BannerEntities(ShiftAll(tes, d).0).Some?
    ensures BannerEntities(ShiftAll(tes, d).0).value == Moved(BannerEntities(tes).value, d)
  {
    if |tes| > 0 {
      var rest := tes[1..];
      ShiftOneFacts(tes[0], d);
      ShiftOneBanner(tes[0], d);
      ShiftAllFacts(rest, d);
      ShiftAllBanners(rest, d);
      var out := ShiftAll(tes, d).0;
      assert out == [ShiftOne(tes[0], d).0] + ShiftAll(rest, d).0;
      assert out[1..] == ShiftAll(rest, d).0;
      assert tes[1..] == rest;
    }
  }

  /** Moving every position by `-d` moves the per-axis minimum by `-d`. */
  lemma MinPosMoved(ps: seq<Pos>, d: Pos)
    requires |ps| > 0
    ensures MinPos(Moved(ps, d)) == Sub(MinPos(ps), d)
  {
    MinXMoved(ps, d);
    MinYMoved(ps, d);
    MinZMoved(ps, d);
  }

  lemma MinXMoved(ps: seq<Pos>, d: Pos)
    requires |ps| > 0
    ensures MinOf(Xs(Moved(ps, d))) == MinOf(Xs(ps)) - d.x
  {
    MinOfShift(Xs(ps), Xs(Moved(ps, d)), d.x);
  }

  lemma MinYMoved(ps: seq<Pos>, d: Pos)
    requires |ps| > 0
    ensures MinOf(Ys(Moved(ps, d))) == MinOf(Ys(ps)) - d.y
  {
    MinOfShift(Ys(ps), Ys(Moved(ps, d)), d.y);
  }

  lemma MinZMoved(ps: seq<Pos>, d: Pos)
    requires |ps| > 0
    ensures MinOf(Zs(Moved(ps, d))) == MinOf(Zs(ps)) - d.z
  {
    MinOfShift(Zs(ps), Zs(Moved(ps, d)), d.z);
  }

  /** When the step has a difference to correct and every entity has
      readable coordinates, it achieves what it is for: afterwards the
      smallest banner entity coordinate equals the smallest banner block
      coordinate on every axis. */
  lemma AlignAchieved(palette: seq<string>, positions: seq<(Pos, nat)>, tes: seq<Nbt>)
    requires Delta(palette, positions, tes).Some?
    requires forall i :: 0 <= i < |tes| ==> EntityPos(tes[i]).Some?
    ensures var ents := BannerEntities(Align(palette, positions, tes));
      ents.Some? && |ents.value| > 0 &&
      MinPos(ents.value) == MinPos(BannerBlocks(palette, positions))
  {
    var d := Delta(palette, positions, tes).value;
    var ents := BannerEntities(tes).value;
    var blocks := BannerBlocks(palette, positions);
    assert d == Sub(MinPos(ents), MinPos(blocks));
    SubSub(MinPos(ents), MinPos(blocks));
    if d == Pos(0, 0, 0) {
      assert Align(palette, positions, tes) == tes;
    } else {
      assert Align(palette, positions, tes) == ShiftAll(tes, d).0;
      ShiftedMin(tes, d);
    }
  }

  lemma SubSub(a: Pos, b: Pos)
    ensures Sub(a, Sub(a, b)) == b
    ensures Sub(a, b) == Pos(0, 0, 0) ==> a == b
  {
  }

  /** Shifting every entity by `-d` moves the smallest banner entity
      coordinate by `-d` as well. */
  lemma ShiftedMin(tes: seq<Nbt>, d: Pos)
    requires forall i :: 0 <= i < |tes| ==> EntityPos(tes[i]).Some?
    requires BannerEntities(tes).Some? && |BannerEntities(tes).value| > 0
    ensures var after := BannerEntities(ShiftAll(tes, d).0);
      after.Some? && |after.value| == |BannerEntities(tes).value| &&
      MinPos(after.value) == Sub(MinPos(BannerEntities(tes).value), d)
  {
    ShiftAllBanners(tes, d);
    MinPosMoved(BannerEntities(tes).value, d);
  }

  /** Aligning twice is aligning once, when every entity has readable
      coordinates: the second pass finds nothing left to correct. */
  lemma AlignIdempotent(palette: seq<string>, positions: seq<(Pos, nat)>, tes: seq<Nbt>)
    requires forall i :: 0 <= i < |tes| ==> EntityPos(tes[i]).Some?
    ensures Align(palette, positions, Align(palette, positions, tes)) == Align(palette, positions, tes)
  {
    var out := Align(palette, positions, tes);
    if Delta(palette, positions, tes).Some? {
      var d := Delta(palette, positions, tes).value;
      if d != Pos(0, 0, 0) {
        AlignAchieved(palette, positions, tes);
        ShiftAllFacts(tes, d);
        assert Delta(palette, positions, out) == Some(Pos(0, 0, 0));
      }
    }
  }

  /** Two tags that are compounds and agree on every key but the three
      coordinates. */
  ghost predicate SameOutside(a: Nbt, b: Nbt)
  {
    a.NCompound? && b.NCompound? &&
    forall k :: !Coordinate(k) ==> Lookup(a.entries, k) == Lookup(b.entries, k)
  }

  /** The step never changes anything but the three coordinates. */
  lemma AlignKeepsOthers(palette: seq<string>, positions: seq<(Pos, nat)>, tes: seq<Nbt>, i: nat)
    requires forall j :: 0 <= j < |tes| ==> EntityPos(tes[j]).Some?
    requires i < |tes| && tes[i].NCompound?
    ensures SameOutside(Align(palette, positions, tes)[i], tes[i])
  {
    var delta := Delta(palette, positions, tes);
    if delta.Some? && delta.value != Pos(0, 0, 0) {
      ShiftAllFacts(tes, delta.value);
      ShiftOneFacts(tes[i], delta.value);
    }
  }

  /** An entity without readable coordinates stops the loop where it
      stands: the entities before it are shifted, it keeps what its own
      completed writes left, and the ones after it are untouched. */
  lemma {:induction false} ShiftAllStops(tes: seq<Nbt>, d: Pos, i: nat)
    requires i < |tes| && EntityPos(tes[i]).None?
    requires forall j :: 0 <= j < i ==> EntityPos(tes[j]).Some?
    ensures !ShiftAll(tes, d).1
    ensures forall j :: 0 <= j < i ==> ShiftAll(tes, d).0[j] == ShiftOne(tes[j], d).0
    ensures ShiftAll(tes, d).0[i] == ShiftOne(tes[i], d).0
    ensures forall j :: i < j < |tes| ==> ShiftAll(tes, d).0[j] == tes[j]
  {
    var rest := tes[1..];
    if i == 0 {
      ShiftOneFails(tes[0], d);
    } else {
      ShiftOneFacts(tes[0], d);
      forall j | 0 <= j < i - 1 ensures EntityPos(rest[j]).Some? {
        assert rest[j] == tes[j + 1];
      }
      ShiftAllStops(rest, d, i - 1);
      var out := ShiftAll(tes, d).0;
      assert out == [ShiftOne(tes[0], d).0] + ShiftAll(rest, d).0;
      forall j | 1 <= j < |tes| ensures out[j] == ShiftAll(rest, d).0[j - 1] && rest[j - 1] == tes[j] {
      }
    }
  }

  /** An entity missing a readable coordinate makes its own writes stop. */
  lemma ShiftOneFails(te: Nbt, d: Pos)
    requires EntityPos(te).None?
    ensures !ShiftOne(te, d).1
  {
    var m := Moves(d);
    if TagCoord(te, "x").Some? {
      StepFacts(te, "x", d.x);
      var a := Step(te, "x", d.x).value;
      assert "x"[0] != "y"[0] && "x"[0] != "z"[0] && "y"[0] != "z"[0];
      StepOther(te, "x", d.x, "y");
      StepOther(te, "x", d.x, "z");
      assert Writes(te, m) == Writes(a, m[1..]);
      if TagCoord(te, "y").Some? {
        var b := Step(a, "y", d.y).value;
        StepOther(a, "y", d.y, "z");
        assert Writes(a, m[1..]) == Writes(b, m[2..]);
      }
    }
  }
}
