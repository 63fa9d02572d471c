/** The integer part of the blueprint thumbnail: which faces of which blocks
    are drawn, and the corner list of each face. A face is drawn only when
    the neighbouring cell in its direction holds no block, so faces shared
    by two blocks are never drawn. Camera, depth sort, projection, shading
    and image encoding are floating point and library work and are not part
    of this model. */
module Thumbnail {
  import opened Common
  import opened Palette

  /** The six faces of a block. */
  datatype Direction = Top | Bottom | East | West | South | North
  {
    /** The unit step to the neighbour on this side. */
    function Offset(): Pos
    {
      match this
        case Top => Pos(0, 1, 0)
        case Bottom => Pos(0, -1, 0)
        case East => Pos(1, 0, 0)
        case West => Pos(-1, 0, 0)
        case South => Pos(0, 0, 1)
        case North => Pos(0, 0, -1)
    }

    function Name(): string
    {
      match this
        case Top => "top"
        case Bottom => "bottom"
        case East => "east"
        case West => "west"
        case South => "south"
        case North => "north"
    }
  }

  /** The six directions in the order the converter tries them. */
  const Directions: seq<Direction> := [Top, Bottom, East, West, South, North]

  function Add(p: Pos, q: Pos): Pos
  {
    Pos(p.x + q.x, p.y + q.y, p.z + q.z)
  }

  function Neg(p: Pos): Pos
  {
    Pos(-p.x, -p.y, -p.z)
  }

  // ---------------------------------------------------------------------
  // Face culling
  // ---------------------------------------------------------------------

  /** The faces of the block at `p` that are kept, in direction order. */
  function Cull(p: Pos, occupied: set<Pos>, ds: seq<Direction>): (r: seq<Direction>)
    ensures |r| <= |ds|
  {
    if |ds| == 0 then []
    else
      (if Add(p, ds[0].Offset()) !in occupied then [ds[0]] else []) + Cull(p, occupied, ds[1..])
  }

  function KeptFaces(p: Pos, occupied: set<Pos>): seq<Direction>
  {
    Cull(p, occupied, Directions)
  }

  /** A direction is kept exactly when it is one of those tried and the
      neighbour it points to is empty. */
  lemma {:induction false} CullMembers(p: Pos, occupied: set<Pos>, ds: seq<Direction>, f: Direction)
    ensures f in Cull(p, occupied, ds) <==> f in ds && Add(p, f.Offset()) !in occupied
  {
    if |ds| > 0 {
      CullMembers(p, occupied, ds[1..], f);
      assert ds == [ds[0]] + ds[1..];
    }
  }

  /** With no neighbour in any direction, every direction is kept, in order. */
  lemma {:induction false} CullAll(p: Pos, occupied: set<Pos>, ds: seq<Direction>)
    requires forall i :: 0 <= i < |ds| ==> Add(p, ds[i].Offset()) !in occupied
    ensures Cull(p, occupied, ds) == ds
  {
    if |ds| > 0 {
      CullAll(p, occupied, ds[1..]);
    }
  }

  /** Face `i` of the block at `p` is kept iff its neighbour is absent. */
  lemma FaceKept(p: Pos, occupied: set<Pos>, i: nat)
    requires i < |Directions|
    ensures Directions[i] in KeptFaces(p, occupied) <==> Add(p, Directions[i].Offset()) !in occupied
  {
    CullMembers(p, occupied, Directions, Directions[i]);
  }

  /** An isolated block shows all six faces. */
  lemma IsolatedSixFaces(p: Pos, occupied: set<Pos>)
    requires forall i :: 0 <= i < |Directions| ==> Add(p, Directions[i].Offset()) !in occupied
    ensures KeptFaces(p, occupied) == Directions && |KeptFaces(p, occupied)| == 6
  {
    CullAll(p, occupied, Directions);
  }

  /** When two neighbouring cells are both occupied, the face between them
      is drawn by neither block. */
  lemma SharedFaceHidden(p: Pos, occupied: set<Pos>, i: nat)
    requires i < |Directions| && p in occupied && Add(p, Directions[i].Offset()) in occupied
    ensures Directions[i] !in KeptFaces(p, occupied)
    ensures forall f :: f in KeptFaces(Add(p, Directions[i].Offset()), occupied) ==> f.Offset() != Neg(Directions[i].Offset())
  {
    var d := Directions[i].Offset();
    var q := Add(p, d);
    FaceKept(p, occupied, i);
    forall f | f in KeptFaces(q, occupied) ensures f.Offset() != Neg(d) {
      CullMembers(q, occupied, Directions, f);
      StepBack(p, d, f.Offset());
    }
  }

  /** Stepping by d and then by -d comes back to the start. */
  lemma StepBack(p: Pos, d: Pos, e: Pos)
    ensures e == Neg(d) ==> Add(Add(p, d), e) == p
  {
  }

  // ---------------------------------------------------------------------
  // The faces of the whole scene
  // ---------------------------------------------------------------------

  /** One face to draw: the block and the face direction. */
  datatype FaceAt = FaceAt(block: Pos, dir: Direction)

  function FacesOf(p: Pos, faces: seq<Direction>): (r: seq<FaceAt>)
    ensures |r| == |faces| && forall k :: 0 <= k < |r| ==> r[k] == FaceAt(p, faces[k])
  {
    seq(|faces|, k requires 0 <= k < |faces| => FaceAt(p, faces[k]))
  }

  /** The faces collected by the loop over `positions`, before the depth
      sort: blocks whose id names no state are skipped, and neighbours are
      looked up among all of the scene's coordinates. */
  function SceneFaces(palette: seq<string>, occupied: set<Pos>, ps: seq<(Pos, nat)>): seq<FaceAt>
  {
    if |ps| == 0 then []
    else
      OwnFaces(palette, occupied, ps[0]) + SceneFaces(palette, occupied, ps[1..])
  }

  /** The faces one position entry contributes. */
  function OwnFaces(palette: seq<string>, occupied: set<Pos>, b: (Pos, nat)): seq<FaceAt>
  {
    if Named(palette, b.1) then FacesOf(b.0, KeptFaces(b.0, occupied)) else []
  }

  lemma OwnFacesMembers(palette: seq<string>, occupied: set<Pos>, b: (Pos, nat), fa: FaceAt)
    ensures fa in OwnFaces(palette, occupied, b) <==>
      Named(palette, b.1) && fa.block == b.0 && fa.dir in KeptFaces(b.0, occupied)
  {
    var own := OwnFaces(palette, occupied, b);
    if fa in own {
      var k :| 0 <= k < |own| && own[k] == fa;
    }
    if Named(palette, b.1) && fa.block == b.0 && fa.dir in KeptFaces(b.0, occupied) {
      var k :| 0 <= k < |KeptFaces(b.0, occupied)| && KeptFaces(b.0, occupied)[k] == fa.dir;
      assert own[k] == fa;
    }
  }

  /** A named entry for a block exists in a list exactly when it is the
      first entry or exists in the rest. */
  lemma NamedCons(palette: seq<string>, ps: seq<(Pos, nat)>, block: Pos)
    requires |ps| > 0
    ensures (exists j :: 0 <= j < |ps| && ps[j].0 == block && Named(palette, ps[j].1)) <==>
      (ps[0].0 == block && Named(palette, ps[0].1)) ||
      (exists j :: 0 <= j < |ps[1..]| && ps[1..][j].0 == block && Named(palette, ps[1..][j].1))
  {
    var rest := ps[1..];
    if exists j :: 0 <= j < |rest| && rest[j].0 == block && Named(palette, rest[j].1) {
      var j :| 0 <= j < |rest| && rest[j].0 == block && Named(palette, rest[j].1);
      assert ps[j + 1] == rest[j];
    }
    if exists j :: 0 <= j < |ps| && ps[j].0 == block && Named(palette, ps[j].1) {
      var j :| 0 <= j < |ps| && ps[j].0 == block && Named(palette, ps[j].1);
      if j > 0 {
        assert rest[j - 1] == ps[j];
      }
    }
  }

  function CreateFaces(palette: seq<string>, positions: seq<(Pos, nat)>): seq<FaceAt>
  {
    SceneFaces(palette, Keys(positions), positions)
  }

  /** A face is drawn exactly when its block is in the scene with a named
      state and the neighbouring cell holds no block of the scene. */
  lemma {:induction false} SceneFacesMembers(palette: seq<string>, occupied: set<Pos>, ps: seq<(Pos, nat)>, fa: FaceAt)
    ensures fa in SceneFaces(palette, occupied, ps) <==>
      (exists j :: 0 <= j < |ps| && ps[j].0 == fa.block && Named(palette, ps[j].1)) &&
      fa.dir in Directions && Add(fa.block, fa.dir.Offset()) !in occupied
  {
    if |ps| > 0 {
      var rest := ps[1..];
      SceneFacesMembers(palette, occupied, rest, fa);
      CullMembers(ps[0].0, occupied, Directions, fa.dir);
      NamedCons(palette, ps, fa.block);
      OwnFacesMembers(palette, occupied, ps[0], fa);
    }
  }

  /** No face lies between two blocks of the scene. */
  lemma NoInnerFace(palette: seq<string>, positions: seq<(Pos, nat)>, fa: FaceAt)
    requires fa in CreateFaces(palette, positions)
    ensures Add(fa.block, fa.dir.Offset()) !in Keys(positions)
  {
    SceneFacesMembers(palette, Keys(positions), positions, fa);
  }

  // ---------------------------------------------------------------------
  // Face corners
  // ---------------------------------------------------------------------

  /** The four corners of a named face of the unit cube at (x, y, z), or
      nothing for an unknown name. */
  function FaceVertices(x: int, y: int, z: int, name: string): seq<Pos>
  {
    if name == "top" then [Pos(x, y + 1, z), Pos(x + 1, y + 1, z), Pos(x + 1, y + 1, z + 1), Pos(x, y + 1, z + 1)]
    else if name == "bottom" then [Pos(x, y, z + 1), Pos(x + 1, y, z + 1), Pos(x + 1, y, z), Pos(x, y, z)]
    else if name == "north" then [Pos(x, y, z), Pos(x + 1, y, z), Pos(x + 1, y + 1, z), Pos(x, y + 1, z)]
    else if name == "south" then [Pos(x + 1, y, z + 1), Pos(x, y, z + 1), Pos(x, y + 1, z + 1), Pos(x + 1, y + 1, z + 1)]
    else if name == "west" then [Pos(x, y, z + 1), Pos(x, y, z), Pos(x, y + 1, z), Pos(x, y + 1, z + 1)]
    else if name == "east" then [Pos(x + 1, y, z), Pos(x + 1, y, z + 1), Pos(x + 1, y + 1, z + 1), Pos(x + 1, y + 1, z)]
    else []
  }

  /** A corner of the unit cube at `p`: each coordinate is the block's own
      or one more. */
  predicate CubeCorner(p: Pos, v: Pos)
  {
    (v.x == p.x || v.x == p.x + 1) && (v.y == p.y || v.y == p.y + 1) && (v.z == p.z || v.z == p.z + 1)
  }

  /** The cube corners on the side the step points to: along the step's
      axis the coordinate is fixed at the far side (+1) or the near side. */
  predicate OnFace(p: Pos, step: Pos, v: Pos)
  {
    CubeCorner(p, v) &&
    (step.x == 1 ==> v.x == p.x + 1) && (step.x == -1 ==> v.x == p.x) &&
    (step.y == 1 ==> v.y == p.y + 1) && (step.y == -1 ==> v.y == p.y) &&
    (step.z == 1 ==> v.z == p.z + 1) && (step.z == -1 ==> v.z == p.z)
  }

  function Sum(vs: seq<Pos>): Pos
  {
    if |vs| == 0 then Pos(0, 0, 0) else Add(vs[0], Sum(vs[1..]))
  }

  /** The four corners of the face `d` of the block at `p`. */
  function Corners(p: Pos, d: Direction): seq<Pos>
  {
    FaceVertices(p.x, p.y, p.z, d.Name())
  }

  /** Each of the six faces has four distinct corners, which are exactly
      the cube corners on that side. */
  lemma FaceCorners(p: Pos, d: Direction)
    ensures |Corners(p, d)| == 4 && Distinct(Corners(p, d))
    ensures forall v :: v in Corners(p, d) <==> OnFace(p, d.Offset(), v)
  {
    var vs := Corners(p, d);
    assert |vs| == 4;
    forall v | OnFace(p, d.Offset(), v) ensures v in vs {
      assert v == vs[0] || v == vs[1] || v == vs[2] || v == vs[3];
    }
  }

  /** The corners sum to four times the face centre the converter uses for
      the face's depth: four times the cube centre plus twice the step. */
  lemma FaceCentre(p: Pos, d: Direction)
    ensures Sum(Corners(p, d)) ==
      Pos(4 * p.x + 2 + 2 * d.Offset().x, 4 * p.y + 2 + 2 * d.Offset().y, 4 * p.z + 2 + 2 * d.Offset().z)
  {
    var vs := Corners(p, d);
    assert |vs| == 4;
    Sum4(vs);
  }

  /** The sum of four points, unrolled. */
  lemma Sum4(vs: seq<Pos>)
    requires |vs| == 4
    ensures Sum(vs) == Add(vs[0], Add(vs[1], Add(vs[2], vs[3])))
  {
    assert vs[3..][1..] == [] && vs[2..][1..] == vs[3..] && vs[1..][1..] == vs[2..];
    assert Sum(vs[3..]) == vs[3];
    assert Sum(vs[2..]) == Add(vs[2], vs[3]);
    assert Sum(vs[1..]) == Add(vs[1], Add(vs[2], vs[3]));
  }

  /** A name that is none of the six has no corners. */
  lemma UnknownFaceEmpty(x: int, y: int, z: int, name: string)
    requires forall i :: 0 <= i < |Directions| ==> Directions[i].Name() != name
    ensures FaceVertices(x, y, z, name) == []
  {
    assert Directions[0].Name() == "top" && Directions[1].Name() == "bottom";
    assert Directions[2].Name() == "east" && Directions[3].Name() == "west";
    assert Directions[4].Name() == "south" && Directions[5].Name() == "north";
  }
}
