/** Day 18, "Boiling Boulders": a lava droplet scanned as unit cubes, stored in a grid
    of voxels with a margin of one empty voxel all round; its surface area, and the
    area left once the air pockets inside it are filled by flooding steam in from
    the corner of the grid. */
module Day18 {
  import opened Common

  datatype Point = Point(x: int, y: int, z: int)
  {
    /** The six face neighbours, in the order -x, +x, -y, +y, -z, +z. */
    function Neighbors(): (ns: seq<Point>)
      ensures |ns| == 6
      ensures forall i :: 0 <= i < |ns| ==> Adjacent(this, ns[i])
      ensures forall i, j :: 0 <= i < j < |ns| ==> ns[i] != ns[j]
    {
      [this.(x := x - 1), this.(x := x + 1), this.(y := y - 1),
       this.(y := y + 1), this.(z := z - 1), this.(z := z + 1)]
    }
  }

  /** Two points one unit apart along exactly one axis: cubes that share a face. */
  predicate Adjacent(p: Point, q: Point)
  {
    Abs(p.x - q.x) + Abs(p.y - q.y) + Abs(p.z - q.z) == 1
  }

  /** The neighbours are exactly the adjacent points. */
  lemma AdjacentNeighbor(p: Point, q: Point)
    requires Adjacent(p, q)
    ensures q in p.Neighbors()
  {
    var ns := p.Neighbors();
    if q.x != p.x {
      assert q.y == p.y && q.z == p.z;
      assert q == ns[0] || q == ns[1];
    } else if q.y != p.y {
      assert q.z == p.z;
      assert q == ns[2] || q == ns[3];
    } else {
      assert q == ns[4] || q == ns[5];
    }
  }

  /** `VoxelContent`. */
  datatype Content = Empty | Lava | Steam | Air

  /** The contents of a grid of voxels, by position. */
  type Grid = map<Point, Content>

  /** The dimensions of a grid; its voxels are the points with coordinates from 0 up to
      them. */
  datatype Extent = Extent(width: nat, height: nat, depth: nat)
  {
    /** `Contains`. */
    predicate Holds(p: Point)
    {
      0 <= p.x < width && 0 <= p.y < height && 0 <= p.z < depth
    }

    /** A voxel in the outermost layer. */
    predicate OnBorder(p: Point)
    {
      p.x == 0 || p.y == 0 || p.z == 0 || p.x == width - 1 || p.y == height - 1 || p.z == depth - 1
    }
  }

  // Surface area

  /** The face of a lava voxel toward `n` is exposed when `n` lies outside the grid or
      holds Empty or Steam. */
  predicate Exposed(g: Grid, n: Point)
  {
    n !in g || g[n] == Empty || g[n] == Steam
  }

  /** How many of the points are exposed. */
  function ExposedAmong(g: Grid, ns: seq<Point>): (c: nat)
    ensures c <= |ns|
  {
    if ns == [] then 0
    else ExposedAmong(g, ns[..|ns| - 1]) + (if Exposed(g, ns[|ns| - 1]) then 1 else 0)
  }

  /** What a voxel adds to the total being taken: its exposed faces, or 1 per lava cube. */
  datatype Measure = Faces | Cubes

  function CellValue(g: Grid, m: Measure, p: Point): nat
  {
    if p in g && g[p] == Lava then
      (match m case Faces => ExposedAmong(g, p.Neighbors()) case Cubes => 1)
    else 0
  }

  /** The voxels (x, y, z) with z < k, summed. */
  function Column(g: Grid, m: Measure, x: int, y: int, k: nat): nat
  {
    if k == 0 then 0 else Column(g, m, x, y, k - 1) + CellValue(g, m, Point(x, y, k - 1))
  }

  /** The columns (x, y) with y < k, summed. */
  function Plane(g: Grid, m: Measure, x: int, depth: nat, k: nat): nat
  {
    if k == 0 then 0 else Plane(g, m, x, depth, k - 1) + Column(g, m, x, k - 1, depth)
  }

  /** The planes x < k, summed: the total over the grid in the order of `Voxels()`. */
  function Total(g: Grid, m: Measure, e: Extent, k: nat): nat
  {
    if k == 0 then 0 else Total(g, m, e, k - 1) + Plane(g, m, k - 1, e.depth, e.height)
  }

  /** The number of lava faces that touch no other lava and no air. */
  function SurfaceArea(g: Grid, e: Extent): nat
  {
    Total(g, Faces, e, e.width)
  }

  function LavaCount(g: Grid, e: Extent): nat
  {
    Total(g, Cubes, e, e.width)
  }

  lemma {:induction false} ColumnBound(g: Grid, x: int, y: int, k: nat)
    ensures Column(g, Faces, x, y, k) <= 6 * Column(g, Cubes, x, y, k)
  {
    if k > 0 {
      ColumnBound(g, x, y, k - 1);
    }
  }

  lemma {:induction false} PlaneBound(g: Grid, x: int, depth: nat, k: nat)
    ensures Plane(g, Faces, x, depth, k) <= 6 * Plane(g, Cubes, x, depth, k)
  {
    if k > 0 {
      PlaneBound(g, x, depth, k - 1);
      ColumnBound(g, x, k - 1, depth);
    }
  }

  lemma {:induction false} TotalBound(g: Grid, e: Extent, k: nat)
    ensures Total(g, Faces, e, k) <= 6 * Total(g, Cubes, e, k)
  {
    if k > 0 {
      TotalBound(g, e, k - 1);
      PlaneBound(g, k - 1, e.depth, e.height);
    }
  }

  /** Each lava cube has six faces, so the surface area is at most six per cube. */
  lemma AreaBound(g: Grid, e: Extent)
    ensures SurfaceArea(g, e) <= 6 * LavaCount(g, e)
  {
    TotalBound(g, e, e.width);
  }

  /** `after` has the same voxels and the same lava as `before`, and a voxel that is
      Empty or Steam in `after` was Empty or Steam in `before`: filling Empty voxels
      with Steam or Air is such a change. */
  ghost predicate Refills(before: Grid, after: Grid)
  {
    (forall p :: p in before <==> p in after)
    && (forall p :: p in after ==> (after[p] == Lava <==> before[p] == Lava))
    && (forall p :: p in after && (after[p] == Empty || after[p] == Steam) ==>
                     before[p] == Empty || before[p] == Steam)
  }

  lemma {:induction false} ExposedShrinks(before: Grid, after: Grid, ns: seq<Point>)
    requires Refills(before, after)
    ensures ExposedAmong(after, ns) <= ExposedAmong(before, ns)
  {
    if ns != [] {
      ExposedShrinks(before, after, ns[..|ns| - 1]);
    }
  }

  lemma {:induction false} ColumnShrinks(before: Grid, after: Grid, x: int, y: int, k: nat)
    requires Refills(before, after)
    ensures Column(after, Faces, x, y, k) <= Column(before, Faces, x, y, k)
  {
    if k > 0 {
      ColumnShrinks(before, after, x, y, k - 1);
      var p := Point(x, y, k - 1);
      if p in after && after[p] == Lava {
        ExposedShrinks(before, after, p.Neighbors());
      }
    }
  }

  lemma {:induction false} PlaneShrinks(before: Grid, after: Grid, x: int, depth: nat, k: nat)
    requires Refills(before, after)
    ensures Plane(after, Faces, x, depth, k) <= Plane(before, Faces, x, depth, k)
  {
    if k > 0 {
      PlaneShrinks(before, after, x, depth, k - 1);
      ColumnShrinks(before, after, x, k - 1, depth);
    }
  }

  lemma {:induction false} TotalShrinks(before: Grid, after: Grid, e: Extent, k: nat)
    requires Refills(before, after)
    ensures Total(after, Faces, e, k) <= Total(before, Faces, e, k)
  {
    if k > 0 {
      TotalShrinks(before, after, e, k - 1);
      PlaneShrinks(before, after, k - 1, e.depth, e.height);
    }
  }

  /** Filling air pockets can only hide faces: the exterior area is at most the
      surface area. */
  lemma AreaShrinks(before: Grid, after: Grid, e: Extent)
    requires Refills(before, after)
    ensures SurfaceArea(after, e) <= SurfaceArea(before, e)
  {
    TotalShrinks(before, after, e, e.width);
  }

  // The flood fill, on values

  /** Every Empty neighbour of `q` in the grid is in `rest`. */
  ghost predicate Covered(g: Grid, q: Point, rest: seq<Point>)
  {
    forall n :: n in q.Neighbors() && n in g && g[n] == Empty ==> n in rest
  }

  /** The stack of the fill holds voxels of the grid that are Empty or Steam, and every
      Steam voxel on it has its Empty neighbours above it: popping it pushes nothing. */
  ghost predicate Pending(g: Grid, s: seq<Point>)
  {
    (forall i :: 0 <= i < |s| ==> s[i] in g && (g[s[i]] == Empty || g[s[i]] == Steam))
    && (forall i :: 0 <= i < |s| && s[i] in g && g[s[i]] == Steam ==> Covered(g, s[i], s[i + 1..]))
  }

  /** The steam spreads: every Empty neighbour of a Steam voxel is still on the stack. */
  ghost predicate Spreading(g: Grid, s: seq<Point>)
  {
    forall p :: p in g && g[p] == Steam ==> Covered(g, p, s)
  }

  /** The points that are Empty voxels of the grid, in order. */
  function EmptyAmong(g: Grid, ns: seq<Point>): (r: seq<Point>)
    ensures forall n :: n in r <==> n in ns && n in g && g[n] == Empty
  {
    if ns == [] then []
    else
      var n := ns[|ns| - 1];
      EmptyAmong(g, ns[..|ns| - 1]) + (if n in g && g[n] == Empty then [n] else [])
  }

  /** Looking at one more neighbour adds it exactly when it is Empty. */
  lemma EmptyAmongStep(g: Grid, ns: seq<Point>, i: nat)
    requires i < |ns|
    ensures EmptyAmong(g, ns[..i + 1])
            == EmptyAmong(g, ns[..i]) + (if ns[i] in g && g[ns[i]] == Empty then [ns[i]] else [])
  {
    assert ns[..i + 1][..i] == ns[..i];
  }

  /** Every voxel that is done turns from Empty into Air. */
  function Converted(c: Content, done: bool): Content
  {
    if done && c == Empty then Air else c
  }

  /** The grid with every Empty voxel turned into Air. */
  function Aired(g: Grid): Grid
  {
    map p | p in g :: Converted(g[p], true)
  }

  /** No voxel is Empty. */
  ghost predicate NoEmpty(g: Grid)
  {
    forall p :: p in g ==> g[p] != Empty
  }

  /** No Steam voxel touches Air: the steam reached everything it could. */
  ghost predicate Sealed(g: Grid)
  {
    forall p, n :: p in g && g[p] == Steam && n in p.Neighbors() && n in g ==> g[n] != Air
  }

  /** `g` is `g0`, which holds only Empty and Lava, with some Empty voxels turned into
      Steam. */
  ghost predicate Flooded(g0: Grid, g: Grid)
  {
    (forall p :: p in g0 <==> p in g)
    && (forall p :: p in g0 ==> g0[p] == Empty || g0[p] == Lava)
    && (forall p :: p in g ==> (g[p] == Lava <==> g0[p] == Lava) && g[p] != Air)
  }

  /** The invariant of the fill loop, from the grid `g0` it started on. */
  ghost predicate Filling(g0: Grid, g: Grid, s: seq<Point>)
  {
    Pending(g, s) && Spreading(g, s) && Flooded(g0, g) && Origin() in g
    && (Origin() in s || g[Origin()] == Steam)
  }

  /** One turn of the fill loop keeps its invariant and makes progress. */
  lemma FillTurn(g0: Grid, g: Grid, s: seq<Point>)
    requires s != [] && Filling(g0, g, s)
    ensures var t := s[|s| - 1];
            var g' := g[t := Steam];
            var s' := s[..|s| - 1] + EmptyAmong(g', t.Neighbors());
            Filling(g0, g', s')
            && (|EmptyCells(g')| < |EmptyCells(g)| || (g' == g && |s'| < |s|))
  {
    PopStep(g, s);
    var t := s[|s| - 1];
    FloodedStep(g0, g, t);
    OriginStep(g, s, EmptyAmong(g[t := Steam], t.Neighbors()));
  }

  lemma FloodedStep(g0: Grid, g: Grid, t: Point)
    requires Flooded(g0, g) && t in g && (g[t] == Empty || g[t] == Steam)
    ensures Flooded(g0, g[t := Steam])
  {
  }

  lemma OriginStep(g: Grid, s: seq<Point>, pushed: seq<Point>)
    requires s != [] && Origin() in g && (Origin() in s || g[Origin()] == Steam)
    ensures var t := s[|s| - 1];
            var g' := g[t := Steam];
            Origin() in s[..|s| - 1] + pushed || g'[Origin()] == Steam
  {
    var t := s[|s| - 1];
    if t != Origin() && Origin() in s {
      var i :| 0 <= i < |s| && s[i] == Origin();
      assert s[..|s| - 1][i] == Origin();
    }
  }

  /** When the stack is empty, turning the Empty voxels that are left into Air leaves no
      Steam voxel next to Air. */
  lemma FloodOutcome(g0: Grid, g: Grid)
    requires Flooded(g0, g) && Spreading(g, [])
    ensures Refills(g0, Aired(g)) && NoEmpty(Aired(g)) && Sealed(Aired(g))
  {
    var a := Aired(g);
    forall p, n | p in a && a[p] == Steam && n in p.Neighbors() && n in a
      ensures a[n] != Air
    {
      assert Covered(g, p, []);
    }
  }

  lemma {:induction false} EmptyAmongNone(g: Grid, ns: seq<Point>)
    requires forall n :: n in ns ==> n !in g || g[n] != Empty
    ensures EmptyAmong(g, ns) == []
  {
    if ns != [] {
      EmptyAmongNone(g, ns[..|ns| - 1]);
    }
  }

  ghost function EmptyCells(g: Grid): set<Point>
  {
    set p | p in g && g[p] == Empty
  }

  /** The Steam voxels keep their Empty neighbours on the stack. */
  lemma SpreadingStep(g: Grid, s: seq<Point>)
    requires s != [] && Pending(g, s) && Spreading(g, s)
    ensures var t := s[|s| - 1];
            var g' := g[t := Steam];
            Spreading(g', s[..|s| - 1] + EmptyAmong(g', t.Neighbors()))
  {
    var t := s[|s| - 1];
    var g' := g[t := Steam];
    var s' := s[..|s| - 1] + EmptyAmong(g', t.Neighbors());
    forall p | p in g' && g'[p] == Steam
      ensures Covered(g', p, s')
    {
      forall n | n in p.Neighbors() && n in g' && g'[n] == Empty
        ensures n in s'
      {
        if p != t {
          assert Covered(g, p, s);
          assert n in s && n != t;
          var i :| 0 <= i < |s| && s[i] == n;
          assert s'[i] == n;
        }
      }
    }
  }

  /** Every Steam voxel on the stack still has its Empty neighbours above it. */
  lemma PendingStep(g: Grid, s: seq<Point>)
    requires s != [] && Pending(g, s)
    ensures var t := s[|s| - 1];
            var g' := g[t := Steam];
            Pending(g', s[..|s| - 1] + EmptyAmong(g', t.Neighbors()))
  {
    var k := |s| - 1;
    var t := s[k];
    var g' := g[t := Steam];
    var ns := EmptyAmong(g', t.Neighbors());
    var s' := s[..k] + ns;
    forall i | 0 <= i < |s'| && s'[i] in g' && g'[s'[i]] == Steam
      ensures Covered(g', s'[i], s'[i + 1..])
    {
      assert i < k;
      assert s'[i + 1..] == s[i + 1..k] + ns;
      if s[i] != t {
        forall n | n in s[i].Neighbors() && n in g' && g'[n] == Empty
          ensures n in s'[i + 1..]
        {
          assert n in s[i + 1..];
          var j :| i + 1 <= j < |s| && s[j] == n;
          assert j < k;
          assert s[i + 1..k][j - i - 1] == n;
        }
      }
    }
  }

  /** One turn of the fill loop keeps both invariants; popping a Steam voxel pushes
      nothing and popping an Empty one leaves one Empty voxel fewer. */
  lemma PopStep(g: Grid, s: seq<Point>)
    requires s != [] && Pending(g, s) && Spreading(g, s)
    ensures var t := s[|s| - 1];
            var g' := g[t := Steam];
            var s' := s[..|s| - 1] + EmptyAmong(g', t.Neighbors());
            Pending(g', s') && Spreading(g', s')
            && (g[t] == Steam ==> g' == g && s' == s[..|s| - 1])
            && (g[t] == Empty ==> |EmptyCells(g')| < |EmptyCells(g)|)
  {
    var t := s[|s| - 1];
    var g' := g[t := Steam];
    PendingStep(g, s);
    SpreadingStep(g, s);
    if g[t] == Steam {
      assert g' == g;
      assert s[|s|..] == [];
      assert Covered(g, t, []);
      EmptyAmongNone(g, t.Neighbors());
    } else {
      assert EmptyCells(g') == EmptyCells(g) - {t};
    }
  }

  // The grid

  /** `VoxelGrid`: the voxels of the droplet's bounding box plus a margin of one. */
  class VoxelGrid {
    const width: int
    const height: int
    const depth: int
    const voxels: array3<Content>

    predicate Valid()
    {
      voxels.Length0 == width && voxels.Length1 == height && voxels.Length2 == depth
    }

    function Size(): Extent
      requires Valid()
    {
      Extent(width, height, depth)
    }

    /** The indexer `this[p]`. */
    function At(p: Point): Content
      reads voxels
      requires Valid() && Size().Holds(p)
    {
      voxels[p.x, p.y, p.z]
    }

    ghost function Points(): set<Point>
      requires Valid()
    {
      set x, y, z | 0 <= x < width && 0 <= y < height && 0 <= z < depth :: Point(x, y, z)
    }

    /** The contents of every voxel, as a map. */
    ghost function Snapshot(): (g: Grid)
      reads voxels
      requires Valid()
      ensures forall p :: p in g <==> Size().Holds(p)
      ensures forall p :: p in g ==> g[p] == At(p)
    {
      assert forall p :: Size().Holds(p) ==> Point(p.x, p.y, p.z) in Points();
      map p | p in Points() :: At(p)
    }

    /** Only Empty and Lava voxels: a grid as the constructor leaves it. */
    ghost predicate Pristine()
      reads voxels
      requires Valid()
    {
      forall p :: Size().Holds(p) ==> At(p) == Empty || At(p) == Lava
    }

    /** The constructor, from the cubes of the scan (see `ScanExtent` and `Scanned`). */
    constructor(cubes: seq<Point>)
      requires Indexable(cubes)
      ensures Valid() && fresh(voxels) && Size() == ScanExtent(cubes)
      ensures forall p :: Size().Holds(p) ==> At(p) == Scanned(cubes, p)
      ensures Pristine()
      ensures NoNegative(cubes) ==> forall p :: Size().Holds(p) && Size().OnBorder(p) ==> At(p) == Empty
    {
      var e := ScanExtent(cubes);
      var grid := LavaVoxels(cubes, e);
      width, height, depth, voxels := e.width, e.height, e.depth, grid;
      new;
      forall p | Size().Holds(p) && Size().OnBorder(p) && NoNegative(cubes)
        ensures At(p) == Empty
      {
        BorderEmpty(cubes, p);
      }
    }

    /** The inner `foreach` of `CountSurfaceArea`: the exposed faces of `p`. */
    method CountExposed(p: Point) returns (c: nat)
      requires Valid()
      ensures c == ExposedAmong(Snapshot(), p.Neighbors())
    {
      ghost var g := Snapshot();
      var ns := p.Neighbors();
      c := 0;
      var i := 0;
      while i < |ns|
        invariant 0 <= i <= |ns|
        invariant c == ExposedAmong(g, ns[..i])
      {
        var n := ns[i];
        assert ns[..i + 1][..i] == ns[..i];
        if !Size().Holds(n) || At(n) == Empty || At(n) == Steam {
          c := c + 1;
        }
        i := i + 1;
      }
      assert ns[..i] == ns;
    }

    /** The innermost loop of `CountSurfaceArea`: the exposed faces of the lava voxels
        of one column. */
    method CountColumn(x: int, y: int) returns (count: nat)
      requires Valid() && 0 <= x < width && 0 <= y < height
      ensures count == Column(Snapshot(), Faces, x, y, depth)
    {
      ghost var g := Snapshot();
      count := 0;
      var z := 0;
      while z < depth
        invariant 0 <= z <= depth
        invariant count == Column(g, Faces, x, y, z)
      {
        var p := Point(x, y, z);
        if At(p) == Lava {
          var faces := CountExposed(p);
          count := count + faces;
        }
        z := z + 1;
      }
    }

    /** The middle loop of `CountSurfaceArea`: one plane of constant x. */
    method CountPlane(x: int) returns (count: nat)
      requires Valid() && 0 <= x < width
      ensures count == Plane(Snapshot(), Faces, x, depth, height)
    {
      ghost var g := Snapshot();
      count := 0;
      var y := 0;
      while y < height
        invariant 0 <= y <= height
        invariant count == Plane(g, Faces, x, depth, y)
      {
        var c := CountColumn(x, y);
        count := count + c;
        y := y + 1;
      }
    }

    /** `CountSurfaceArea`: the lava faces whose neighbour is outside the grid, Empty or
        Steam, counted voxel by voxel. */
    method CountSurfaceArea() returns (count: nat)
      requires Valid()
      ensures count == SurfaceArea(Snapshot(), Size())
    {
      ghost var g := Snapshot();
      count := 0;
      var x := 0;
      while x < width
        invariant 0 <= x <= width
        invariant count == Total(g, Faces, Size(), x)
      {
        var c := CountPlane(x);
        count := count + c;
        x := x + 1;
      }
    }

    /** The inner `foreach` of the fill: `stack` with the Empty neighbours of `p` pushed. */
    method PushEmptyNeighbors(stack: seq<Point>, p: Point) returns (r: seq<Point>)
      requires Valid()
      ensures r == stack + EmptyAmong(Snapshot(), p.Neighbors())
    {
      ghost var g := Snapshot();
      var ns := p.Neighbors();
      var pushed := [];
      var i := 0;
      while i < |ns|
        invariant 0 <= i <= |ns|
        invariant pushed == EmptyAmong(g, ns[..i])
      {
        var n := ns[i];
        EmptyAmongStep(g, ns, i);
        assert (n in g && g[n] == Empty) == (Size().Holds(n) && At(n) == Empty);
        if Size().Holds(n) && At(n) == Empty {
          pushed := pushed + [n];
        }
        i := i + 1;
      }
      assert ns[..i] == ns;
      r := stack + pushed;
    }

    /** Sets one voxel to Steam. */
    method MarkSteam(t: Point)
      requires Valid() && Size().Holds(t)
      modifies voxels
      ensures Snapshot() == old(Snapshot())[t := Steam]
    {
      voxels[t.x, t.y, t.z] := Steam;
    }

    /** The second loop of `FillAirPockets`: every Empty voxel becomes Air. */
    method EmptyToAir()
      requires Valid()
      modifies voxels
      ensures Snapshot() == Aired(old(Snapshot()))
    {
      var x := 0;
      while x < width
        invariant 0 <= x <= width
        invariant forall p :: Size().Holds(p) ==> At(p) == Converted(old(At(p)), p.x < x)
      {
        var y := 0;
        while y < height
          invariant 0 <= y <= height
          invariant forall p :: Size().Holds(p) ==>
                      At(p) == Converted(old(At(p)), p.x < x || (p.x == x && p.y < y))
        {
          var z := 0;
          while z < depth
            invariant 0 <= z <= depth
            invariant forall p :: Size().Holds(p) ==>
                        At(p) == Converted(old(At(p)), p.x < x || (p.x == x && (p.y < y || (p.y == y && p.z < z))))
          {
            if voxels[x, y, z] == Empty {
              voxels[x, y, z] := Air;
            }
            z := z + 1;
          }
          y := y + 1;
        }
        x := x + 1;
      }
    }

    /** `FillAirPockets`: steam floods from (0, 0, 0) through Empty voxels, one voxel
        popped from a stack at a time; every voxel still Empty afterwards is an air
        pocket inside the droplet and becomes Air. */
    method FillAirPockets()
      requires Valid() && Pristine() && Size().Holds(Origin()) && At(Origin()) == Empty
      modifies voxels
      ensures Refills(old(Snapshot()), Snapshot())
      ensures NoEmpty(Snapshot()) && Snapshot()[Origin()] == Steam
      ensures Sealed(Snapshot())
    {
      ghost var g0 := Snapshot();
      ghost var g := g0;
      var stack := [Origin()];
      while stack != []
        invariant g == Snapshot() && Filling(g0, g, stack)
        decreases |EmptyCells(g)|, |stack|
      {
        var t := stack[|stack| - 1];
        FillTurn(g0, g, stack);
        MarkSteam(t);
        g := g[t := Steam];
        stack := PushEmptyNeighbors(stack[..|stack| - 1], t);
      }
      EmptyToAir();
      FloodOutcome(g0, g);
    }
  }

  /** Cubes the constructor can store: at least one (`Max` fails on none), and no
      coordinate below -1 (the shifted index would be negative). */
  predicate Indexable(cubes: seq<Point>)
  {
    cubes != [] && forall i :: 0 <= i < |cubes| ==> cubes[i].x >= -1 && cubes[i].y >= -1 && cubes[i].z >= -1
  }

  /** Cubes with no negative coordinate, as the scan is taken to be. */
  predicate NoNegative(cubes: seq<Point>)
  {
    forall i :: 0 <= i < |cubes| ==> cubes[i].x >= 0 && cubes[i].y >= 0 && cubes[i].z >= 0
  }

  /** Each axis of the grid is as long as the largest coordinate along it plus three:
      one for the voxel at coordinate 0 and a margin of one at each end. */
  function ScanExtent(cubes: seq<Point>): (e: Extent)
    requires Indexable(cubes)
    ensures forall i :: 0 <= i < |cubes| ==> e.Holds(Shifted(cubes[i]))
    ensures e.Holds(Origin())
  {
    var mx, my, mz := MaxAlong(cubes, X), MaxAlong(cubes, Y), MaxAlong(cubes, Z);
    assert Coord(cubes[0], X) <= mx && Coord(cubes[0], Y) <= my && Coord(cubes[0], Z) <= mz;
    var e := Extent(mx + 3, my + 3, mz + 3);
    assert forall i :: 0 <= i < |cubes| ==>
      Coord(cubes[i], X) <= mx && Coord(cubes[i], Y) <= my && Coord(cubes[i], Z) <= mz;
    e
  }

  /** The voxel that holds a cube: one step up each axis, past the margin. */
  function Shifted(c: Point): Point
  {
    Point(c.x + 1, c.y + 1, c.z + 1)
  }

  /** A cube at (x, y, z) is the Lava voxel at (x + 1, y + 1, z + 1); all others are Empty. */
  function Scanned(cubes: seq<Point>, p: Point): Content
  {
    if Point(p.x - 1, p.y - 1, p.z - 1) in cubes then Lava else Empty
  }

  /** With no negative coordinate the outermost layer of the grid holds no lava; in
      particular (0, 0, 0) is Empty. */
  lemma BorderEmpty(cubes: seq<Point>, p: Point)
    requires Indexable(cubes) && NoNegative(cubes)
    requires ScanExtent(cubes).Holds(p) && ScanExtent(cubes).OnBorder(p)
    ensures Scanned(cubes, p) == Empty
  {
    var q := Point(p.x - 1, p.y - 1, p.z - 1);
    forall i | 0 <= i < |cubes|
      ensures cubes[i] != q
    {
      assert Coord(cubes[i], X) <= MaxAlong(cubes, X) && Coord(cubes[i], Y) <= MaxAlong(cubes, Y)
             && Coord(cubes[i], Z) <= MaxAlong(cubes, Z);
    }
  }

  /** The voxels of the constructor: a new grid of Empty voxels with the lava of the
      cubes filled in. */
  method LavaVoxels(cubes: seq<Point>, e: Extent) returns (grid: array3<Content>)
    requires Indexable(cubes) && e == ScanExtent(cubes)
    ensures fresh(grid) && grid.Length0 == e.width && grid.Length1 == e.height && grid.Length2 == e.depth
    ensures forall i, j, k :: 0 <= i < e.width && 0 <= j < e.height && 0 <= k < e.depth ==>
              grid[i, j, k] == Scanned(cubes, Point(i, j, k))
  {
    grid := new Content[e.width, e.height, e.depth]((i, j, k) => Empty);
    ghost var placed: set<Point> := {};
    var n := 0;
    while n < |cubes|
      invariant 0 <= n <= |cubes|
      invariant forall q :: q in placed <==> q in cubes[..n]
      invariant forall i, j, k :: 0 <= i < e.width && 0 <= j < e.height && 0 <= k < e.depth ==>
                  grid[i, j, k] == if Point(i - 1, j - 1, k - 1) in placed then Lava else Empty
    {
      var c := cubes[n];
      assert e.Holds(Shifted(c));
      grid[c.x + 1, c.y + 1, c.z + 1] := Lava;
      PrefixMembers(cubes, n);
      placed := placed + {c};
      n := n + 1;
    }
    assert cubes[..n] == cubes;
    forall i, j, k | 0 <= i < e.width && 0 <= j < e.height && 0 <= k < e.depth
      ensures grid[i, j, k] == Scanned(cubes, Point(i, j, k))
    {
      var q := Point(i - 1, j - 1, k - 1);
      assert q in placed <==> q in cubes;
    }
  }

  /** The elements of a longer prefix: those of the shorter one and the next. */
  lemma PrefixMembers<T>(s: seq<T>, n: nat)
    requires n < |s|
    ensures forall q :: q in s[..n + 1] <==> q in s[..n] || q == s[n]
  {
    assert s[..n + 1] == s[..n] + [s[n]];
  }

  const X := 0
  const Y := 1
  const Z := 2

  /** The coordinate of `p` along an axis. */
  function Coord(p: Point, axis: int): int
  {
    if axis == X then p.x else if axis == Y then p.y else p.z
  }

  function Origin(): Point { Point(0, 0, 0) }

  /** `cubes.Max(p => p.X)` and its like. */
  function MaxAlong(cubes: seq<Point>, axis: int): (m: int)
    requires cubes != []
    ensures forall i :: 0 <= i < |cubes| ==> Coord(cubes[i], axis) <= m
    ensures exists i :: 0 <= i < |cubes| && Coord(cubes[i], axis) == m
  {
    var last := Coord(cubes[|cubes| - 1], axis);
    if |cubes| == 1 then last
    else
      var m := Max(MaxAlong(cubes[..|cubes| - 1], axis), last);
      assert forall i :: 0 <= i < |cubes| - 1 ==> cubes[..|cubes| - 1][i] == cubes[i];
      m
  }

  // Parsing

  /** One scan line, `x,y,z`: the first three of its comma-separated numbers. */
  function ParseCube(line: string): (r: Result<Point>)
  {
    match ParseInts(Split(Trim(line), ','))
    case Err(e) => Err(e)
    case Ok(values) =>
      if |values| < 3 then Err("Index was outside the bounds of the array.")
      else Ok(Point(values[0], values[1], values[2]))
  }

  function CubeText(p: Point): string
  {
    IntToString(p.x) + [','] + IntToString(p.y) + [','] + IntToString(p.z)
  }

  lemma CubeTextSplit(p: Point)
    ensures Split(Trim(CubeText(p)), ',') == [IntToString(p.x), IntToString(p.y), IntToString(p.z)]
  {
    var a, b, c := IntToString(p.x), IntToString(p.y), IntToString(p.z);
    var t := CubeText(p);
    assert t[0] == a[0] && t[|t| - 1] == c[|c| - 1];
    TrimUnpadded(t);
    assert ',' !in a && ',' !in b && ',' !in c;
    SplitThree(a, b, c);
  }

  lemma SplitThree(a: string, b: string, c: string)
    requires ',' !in a && ',' !in b && ',' !in c
    ensures Split(a + [','] + b + [','] + c, ',') == [a, b, c]
  {
    assert Join([b, c], ',') == b + [','] + c;
    assert [a, b, c][1..] == [b, c];
    assert a + [','] + b + [','] + c == a + [','] + (b + [','] + c);
    SplitJoin([a, b, c], ',');
  }

  /** A cube's scan line reads back as that cube. */
  lemma ParseCubeText(p: Point)
    ensures ParseCube(CubeText(p)) == Ok(p)
  {
    CubeTextSplit(p);
    ParseThree(IntToString(p.x), IntToString(p.y), IntToString(p.z), p.x, p.y, p.z);
  }

  lemma ParseThree(a: string, b: string, c: string, x: int, y: int, z: int)
    requires ParseInt(a) == Some(x) && ParseInt(b) == Some(y) && ParseInt(c) == Some(z)
    ensures ParseInts([a, b, c]) == Ok([x, y, z])
  {
    ParseIntsAll([a, b, c], [x, y, z]);
  }

  function ParseCubes(lines: seq<string>): (r: Result<seq<Point>>)
    ensures r.Ok? ==> |r.value| == |lines|
    ensures r.Ok? ==> forall i :: 0 <= i < |lines| ==> ParseCube(lines[i]) == Ok(r.value[i])
  {
    if lines == [] then Ok([])
    else
      match ParseCube(lines[0])
      case Err(e) => Err(e)
      case Ok(p) =>
        match ParseCubes(lines[1..])
        case Err(e) => Err(e)
        case Ok(rest) =>
          var r := [p] + rest;
          assert forall i :: 0 < i < |lines| ==> r[i] == rest[i - 1] && lines[i] == lines[1..][i - 1];
          Ok(r)
  }

  /** A grid for the cubes: `Max` over no cubes fails, and so does a coordinate that
      indexes outside the grid. */
  method NewGrid(cubes: seq<Point>) returns (r: Result<VoxelGrid>)
    ensures r.Ok? <==> Indexable(cubes)
    ensures r.Ok? ==> fresh(r.value.voxels) && r.value.Valid() && r.value.Pristine()
                      && r.value.Size() == ScanExtent(cubes)
    ensures r.Ok? && NoNegative(cubes) ==> r.value.At(Origin()) == Empty
  {
    if cubes == [] {
      return Err("Sequence contains no elements");
    }
    var i := 0;
    while i < |cubes|
      invariant 0 <= i <= |cubes|
      invariant forall j :: 0 <= j < i ==> cubes[j].x >= -1 && cubes[j].y >= -1 && cubes[j].z >= -1
    {
      if cubes[i].x < -1 || cubes[i].y < -1 || cubes[i].z < -1 {
        return Err("Index was outside the bounds of the array.");
      }
      i := i + 1;
    }
    var grid := new VoxelGrid(cubes);
    return Ok(grid);
  }

  /** `ComputeSolution1`: the surface area of the droplet. */
  method ComputeSolution1(grid: VoxelGrid) returns (area: nat)
    requires grid.Valid()
    ensures area == SurfaceArea(grid.Snapshot(), grid.Size())
    ensures area <= 6 * LavaCount(grid.Snapshot(), grid.Size())
  {
    area := grid.CountSurfaceArea();
    AreaBound(grid.Snapshot(), grid.Size());
  }

  /** `ComputeSolution2`: the exterior surface area, after the air pockets are filled. */
  method ComputeSolution2(grid: VoxelGrid) returns (area: nat)
    requires grid.Valid() && grid.Pristine() && grid.Size().Holds(Origin()) && grid.At(Origin()) == Empty
    modifies grid.voxels
    ensures area == SurfaceArea(grid.Snapshot(), grid.Size())
    ensures area <= old(SurfaceArea(grid.Snapshot(), grid.Size()))
  {
    grid.FillAirPockets();
    area := grid.CountSurfaceArea();
    AreaShrinks(old(grid.Snapshot()), grid.Snapshot(), grid.Size());
  }
}
