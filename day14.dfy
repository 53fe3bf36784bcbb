/** Day 14: sand pours from (500, 0) into a cave of rock walls. Each grain falls down,
    down-left or down-right while it can and comes to rest otherwise; part 1 counts the
    grains that rest before one falls out of the walls' bounding box, part 2 adds an
    endless floor two rows below the lowest wall and counts the grains until the source
    is blocked. */
module Day14 {
  import opened Common

  datatype Point = Point(x: int, y: int)
  {
    /** `operator +`. */
    function Plus(v: Vector): Point
    {
      Point(x + v.x, y + v.y)
    }
  }

  datatype Vector = Vector(x: int, y: int)

  /** `LineSegment`: a wall from `a` to `b`. */
  datatype Segment = Segment(a: Point, b: Point)
  {
    /** The sign vector from `a` toward `b`, the step of `Points`. */
    function Step(): Vector
    {
      Vector(Sign(b.x - a.x), Sign(b.y - a.y))
    }

    /** The number of steps from `a` to `b`. */
    function Length(): nat
    {
      Max(Abs(b.x - a.x), Abs(b.y - a.y))
    }

    /** Horizontal, vertical or at 45 degrees: the only segments whose stepping walk
        reaches `b` (on any other the walk of `Points` never ends). */
    predicate Straight()
    {
      a.x == b.x || a.y == b.y || Abs(b.x - a.x) == Abs(b.y - a.y)
    }

    /** The point k steps from `a`. */
    function PointAt(k: int): Point
    {
      Point(a.x + k * Step().x, a.y + k * Step().y)
    }

    /** `operator -`: the segment moved `offset` columns to the left. */
    function Minus(offset: int): (s: Segment)
      ensures s.a == Point(a.x - offset, a.y) && s.b == Point(b.x - offset, b.y)
      ensures s.Step() == Step() && s.Length() == Length()
      ensures Straight() ==> s.Straight()
    {
      Segment(Point(a.x - offset, a.y), Point(b.x - offset, b.y))
    }
  }

  /** The points `Points` yields, in order. */
  function PointsOf(s: Segment): (r: seq<Point>)
    ensures |r| == s.Length() + 1
  {
    seq(s.Length() + 1, k requires 0 <= k <= s.Length() => s.PointAt(k))
  }

  /** The walk of a straight segment starts at `a`, ends at `b`, and every point is one
      step from the previous one. */
  lemma PointsOfEnds(s: Segment)
    requires s.Straight()
    ensures PointsOf(s)[0] == s.a
    ensures PointsOf(s)[s.Length()] == s.b
    ensures forall k :: 0 < k <= s.Length() ==> PointsOf(s)[k] == PointsOf(s)[k - 1].Plus(s.Step())
  {
    var n := s.Length();
    assert PointsOf(s)[n] == s.PointAt(n);
    assert n * Sign(s.b.x - s.a.x) == s.b.x - s.a.x by { SignScale(n, s.b.x - s.a.x); }
    assert n * Sign(s.b.y - s.a.y) == s.b.y - s.a.y by { SignScale(n, s.b.y - s.a.y); }
    forall k | 0 < k <= n ensures PointsOf(s)[k] == PointsOf(s)[k - 1].Plus(s.Step()) {
      assert PointsOf(s)[k - 1] == s.PointAt(k - 1);
      assert (k - 1) * s.Step().x + s.Step().x == k * s.Step().x;
      assert (k - 1) * s.Step().y + s.Step().y == k * s.Step().y;
    }
  }

  lemma SignScale(n: int, d: int)
    requires d == 0 || Abs(d) == n
    ensures n * Sign(d) == d
  {
  }

  /** Before its last step the walk has not reached `b`. */
  lemma PointsOfApart(s: Segment, k: int)
    requires s.Straight() && 0 <= k < s.Length()
    ensures s.PointAt(k) != s.b
  {
    var dx, dy := s.b.x - s.a.x, s.b.y - s.a.y;
    if Abs(dx) == s.Length() {
      assert k * Sign(dx) != dx by {
        if dx > 0 { assert k * Sign(dx) == k; } else { assert k * Sign(dx) == -k; }
      }
    } else {
      assert Abs(dy) == s.Length();
      assert k * Sign(dy) != dy by {
        if dy > 0 { assert k * Sign(dy) == k; } else { assert k * Sign(dy) == -k; }
      }
    }
  }

  /** `Points`: the stepping walk from `a` to `b`. */
  method Points(s: Segment) returns (points: seq<Point>)
    requires s.Straight()
    ensures points == PointsOf(s)
  {
    var v := s.Step();
    var point := s.a;
    points := [];
    ghost var k := 0;
    PointsOfEnds(s);
    while point != s.b
      invariant 0 <= k <= s.Length()
      invariant point == s.PointAt(k)
      invariant points == PointsOf(s)[..k]
      decreases s.Length() - k
    {
      if k < s.Length() {
        assert PointsOf(s)[k + 1] == PointsOf(s)[k].Plus(v);
      }
      points := points + [point];
      point := point.Plus(v);
      k := k + 1;
      if k < s.Length() {
        PointsOfApart(s, k);
      }
    }
    if k < s.Length() {
      PointsOfApart(s, k);
    }
    assert k == s.Length();
    points := points + [s.b];
  }

  /** `BoundingBox`. */
  datatype Box = Box(lower: Point, upper: Point)
  {
    /** `Contains`: both coordinates within the corners, inclusive. */
    predicate Contains(p: Point)
    {
      !(p.x < lower.x) && !(p.x > upper.x) && !(p.y < lower.y) && !(p.y > upper.y)
    }
  }

  lemma BoxContains(box: Box, p: Point)
    ensures box.Contains(p) <==> box.lower.x <= p.x <= box.upper.x && box.lower.y <= p.y <= box.upper.y
  {
  }

  /** `Moves`: down, down-left, down-right, tried in this order. */
  const Moves: seq<Vector> := [Vector(0, 1), Vector(-1, 1), Vector(1, 1)]

  /** The smallest column of the walls. */
  function MinX(walls: seq<Segment>): (m: int)
    requires walls != []
    ensures forall i :: 0 <= i < |walls| ==> m <= walls[i].a.x && m <= walls[i].b.x
    ensures exists i :: 0 <= i < |walls| && (m == walls[i].a.x || m == walls[i].b.x)
  {
    var w := walls[|walls| - 1];
    if |walls| == 1 then Min(w.a.x, w.b.x) else Min(MinX(walls[..|walls| - 1]), Min(w.a.x, w.b.x))
  }

  /** The largest column of the walls, attained by a wall end. */
  function MaxX(walls: seq<Segment>): (m: int)
    requires walls != []
    ensures forall i :: 0 <= i < |walls| ==> m >= walls[i].a.x && m >= walls[i].b.x
    ensures exists i :: 0 <= i < |walls| && (m == walls[i].a.x || m == walls[i].b.x)
  {
    var w := walls[|walls| - 1];
    if |walls| == 1 then Max(w.a.x, w.b.x) else Max(MaxX(walls[..|walls| - 1]), Max(w.a.x, w.b.x))
  }

  /** The lowest row of the walls (rows grow downward), attained by a wall end. */
  function MaxY(walls: seq<Segment>): (m: int)
    requires walls != []
    ensures forall i :: 0 <= i < |walls| ==> m >= walls[i].a.y && m >= walls[i].b.y
    ensures exists i :: 0 <= i < |walls| && (m == walls[i].a.y || m == walls[i].b.y)
  {
    var w := walls[|walls| - 1];
    if |walls| == 1 then Max(w.a.y, w.b.y) else Max(MaxY(walls[..|walls| - 1]), Max(w.a.y, w.b.y))
  }

  lemma WallsSpan(walls: seq<Segment>)
    requires walls != []
    ensures MinX(walls) <= MaxX(walls)
  {
    assert MinX(walls) <= walls[0].a.x <= MaxX(walls);
  }

  /** The cells of one segment. */
  function CellsOf(s: Segment): set<Point>
  {
    set k | 0 <= k < |PointsOf(s)| :: PointsOf(s)[k]
  }

  /** A straight segment's cells include both ends. */
  lemma CellsOfEnds(s: Segment)
    requires s.Straight()
    ensures s.a in CellsOf(s) && s.b in CellsOf(s)
  {
    PointsOfEnds(s);
  }

  /** The rock cells of the walls moved `offset` columns to the left. */
  function WallCells(walls: seq<Segment>, offset: int): set<Point>
  {
    if walls == [] then {}
    else WallCells(walls[..|walls| - 1], offset) + CellsOf(walls[|walls| - 1].Minus(offset))
  }

  /** Adds the cells of one wall, point by point along its walk. */
  method AddWall(cells: set<Point>, w: Segment) returns (r: set<Point>)
    requires w.Straight()
    ensures r == cells + CellsOf(w)
  {
    var points := Points(w);
    r := cells;
    var j := 0;
    while j < |points|
      invariant 0 <= j <= |points|
      invariant r == cells + set k | 0 <= k < j :: points[k]
    {
      r := r + {points[j]};
      j := j + 1;
    }
  }

  /** The walls' loop of the constructor: every wall, shifted `offset` columns left, added cell
      by cell. */
  method AddWalls(walls: seq<Segment>, offset: int) returns (cells: set<Point>)
    requires AllStraight(walls)
    ensures cells == WallCells(walls, offset)
  {
    cells := {};
    var i := 0;
    while i < |walls|
      invariant 0 <= i <= |walls|
      invariant cells == WallCells(walls[..i], offset)
    {
      assert walls[..i + 1][..i] == walls[..i];
      cells := AddWall(cells, walls[i].Minus(offset));
      i := i + 1;
    }
    assert walls[..i] == walls;
  }

  predicate AllStraight(walls: seq<Segment>)
  {
    forall i :: 0 <= i < |walls| ==> walls[i].Straight()
  }

  /** The outcome of pouring sand: the grains that came to rest and the occupied cells. */
  datatype Filled = Filled(count: nat, occupied: set<Point>)

  class Cave
  {
    const bb: Box
    const source: Point
    const floorHeight: int
    var occupied: set<Point>

    /** The corner and source rows the constructor sets up. */
    predicate Shaped()
    {
      bb.lower.y == 0 && source.y == 0
    }

    predicate HasEndlessFloor()
    {
      floorHeight > 0
    }

    /** `IsOccupied`, for a given set of occupied cells: rock or sand, or the floor row. */
    predicate IsOccupiedIn(occ: set<Point>, pos: Point)
    {
      pos in occ || (HasEndlessFloor() && pos.y == floorHeight)
    }

    /** `IsInside`: inside the bounding box, whose columns do not matter with a floor. */
    predicate IsInside(pos: Point)
    {
      bb.Contains(if HasEndlessFloor() then Point(0, pos.y) else pos)
    }

    /** With a floor, being inside depends on the row alone. */
    lemma InsideWithFloor(pos: Point)
      requires HasEndlessFloor() && 0 <= bb.upper.x && bb.lower.x <= 0
      ensures IsInside(pos) <==> bb.lower.y <= pos.y <= bb.upper.y
    {
    }

    /** The first of the moves from index i that leads out of the box or to a free cell. */
    function FirstMove(occ: set<Point>, pos: Point, i: nat): (r: Option<Point>)
      requires i <= |Moves|
      ensures r.Some? ==> r.value.y == pos.y + 1 && Abs(r.value.x - pos.x) <= 1
      ensures r.Some? ==> !IsInside(r.value) || !IsOccupiedIn(occ, r.value)
      ensures r.None? <==> forall j :: i <= j < |Moves| ==> IsInside(pos.Plus(Moves[j])) && IsOccupiedIn(occ, pos.Plus(Moves[j]))
      decreases |Moves| - i
    {
      if i == |Moves| then None
      else
        var next := pos.Plus(Moves[i]);
        if !IsInside(next) || !IsOccupiedIn(occ, next) then Some(next) else FirstMove(occ, pos, i + 1)
    }

    /** Where a grain at `pos` comes to rest, or None when it falls out of the box. */
    function Settle(occ: set<Point>, pos: Point): (r: Option<Point>)
      requires Shaped()
      ensures r.Some? ==> IsInside(r.value) && FirstMove(occ, r.value, 0).None?
      ensures r.Some? ==> r.value.y >= pos.y && Abs(r.value.x - pos.x) <= r.value.y - pos.y
      ensures r.Some? && r.value != pos ==> !IsOccupiedIn(occ, r.value)
      decreases bb.upper.y + 1 - pos.y
    {
      if !IsInside(pos) then None
      else
        match FirstMove(occ, pos, 0)
        case None => Some(pos)
        case Some(next) => Settle(occ, next)
    }

    /** Within the triangle a grain from the source can reach. */
    predicate Below(pos: Point)
    {
      pos.y >= 0 && Abs(pos.x - source.x) <= pos.y
    }

    /** The cells a grain from the source can reach: a triangle below the source. */
    function Region(): set<Point>
    {
      set y, x | 0 <= y <= bb.upper.y && source.x - y <= x <= source.x + y :: Point(x, y)
    }

    /** The reachable cells still free. */
    function Room(occ: set<Point>): nat
    {
      |Region() - occ|
    }

    lemma InRegion(p: Point)
      requires 0 <= p.y <= bb.upper.y && Abs(p.x - source.x) <= p.y
      ensures p in Region()
    {
    }

    /** The grains that come to rest when sand keeps pouring, the current grain being at
        `pos`: each grain settles, is added and is counted, until one falls out, stops on
        an occupied cell, or fills the source. */
    function FillFrom(occ: set<Point>, pos: Point): (f: Filled)
      requires Shaped() && Below(pos)
      decreases |Region() - occ|
    {
      match Settle(occ, pos)
      case None => Filled(0, occ)
      case Some(p) =>
        if IsOccupiedIn(occ, p) then Filled(0, occ)
        else if p == source then Filled(1, occ + {p})
        else
          assert p in Region() by { InRegion(p); }
          assert Region() - (occ + {p}) == (Region() - occ) - {p};
          var rest := FillFrom(occ + {p}, source);
          Filled(rest.count + 1, rest.occupied)
    }

    /** A grain that can still move continues from its next cell. */
    lemma FillFromMove(occ: set<Point>, pos: Point, next: Point)
      requires Shaped() && Below(pos)
      requires IsInside(pos) && FirstMove(occ, pos, 0) == Some(next)
      ensures Below(next)
      ensures FillFrom(occ, pos) == FillFrom(occ, next)
    {
    }

    /** A grain that cannot move on an occupied cell ends the pouring. */
    lemma FillFromBlocked(occ: set<Point>, pos: Point)
      requires Shaped() && Below(pos)
      requires IsInside(pos) && FirstMove(occ, pos, 0).None? && IsOccupiedIn(occ, pos)
      ensures FillFrom(occ, pos) == Filled(0, occ)
    {
    }

    /** A grain that cannot move comes to rest on its free cell; on the source it is the
        last grain, and otherwise the next grain starts at the source. */
    lemma FillFromRest(occ: set<Point>, pos: Point)
      requires Shaped() && Below(pos)
      requires IsInside(pos) && FirstMove(occ, pos, 0).None? && !IsOccupiedIn(occ, pos)
      ensures pos == source ==> FillFrom(occ, pos) == Filled(1, occ + {pos})
      ensures pos != source ==>
                var rest := FillFrom(occ + {pos}, source);
                FillFrom(occ, pos) == Filled(rest.count + 1, rest.occupied)
      ensures Room(occ + {pos}) < Room(occ)
    {
      InRegion(pos);
      assert Region() - (occ + {pos}) == (Region() - occ) - {pos};
    }

    /** A grain outside the box has fallen out: nothing more comes to rest. */
    lemma FillFromOutside(occ: set<Point>, pos: Point)
      requires Shaped() && Below(pos)
      requires !IsInside(pos)
      ensures FillFrom(occ, pos) == Filled(0, occ)
    {
    }

    /** Every grain that comes to rest occupies a new cell and is counted exactly once. */
    lemma {:induction false} FillFromCounts(occ: set<Point>, pos: Point)
      requires Shaped() && Below(pos)
      ensures occ <= FillFrom(occ, pos).occupied
      ensures |FillFrom(occ, pos).occupied| == |occ| + FillFrom(occ, pos).count
      decreases |Region() - occ|
    {
      match Settle(occ, pos)
      case None =>
      case Some(p) =>
        if !IsOccupiedIn(occ, p) && p != source {
          assert p in Region() by { InRegion(p); }
          assert Region() - (occ + {p}) == (Region() - occ) - {p};
          FillFromCounts(occ + {p}, source);
        }
    }

    /** Pouring ends with the source blocked or with a grain that falls out of the box. */
    lemma {:induction false} FillFromStops(occ: set<Point>)
      requires Shaped()
      ensures var f := FillFrom(occ, source);
              IsOccupiedIn(f.occupied, source) || Settle(f.occupied, source).None?
      decreases |Region() - occ|
    {
      match Settle(occ, source)
      case None =>
      case Some(p) =>
        if !IsOccupiedIn(occ, p) && p != source {
          assert p in Region() by { InRegion(p); }
          assert Region() - (occ + {p}) == (Region() - occ) - {p};
          FillFromStops(occ + {p});
        }
    }

    /** The floor is the bottom row of the box, and column 0 lies inside it. */
    predicate FloorAtBottom()
    {
      HasEndlessFloor() ==> floorHeight == bb.upper.y && bb.lower.x <= 0 <= bb.upper.x
    }

    /** Above the floor a grain always comes to rest: it cannot step onto the floor row,
        and the box's columns do not matter. */
    lemma {:induction false} FloorCatches(occ: set<Point>, pos: Point)
      requires Shaped() && FloorAtBottom() && HasEndlessFloor() && Below(pos) && pos.y < floorHeight
      ensures Settle(occ, pos).Some?
      decreases floorHeight - pos.y
    {
      InsideWithFloor(pos);
      match FirstMove(occ, pos, 0)
      case None =>
      case Some(next) =>
        InsideWithFloor(next);
        FloorCatches(occ, next);
    }

    /** With a floor, pouring always ends with the source itself filled. */
    lemma FloorFillsSource(occ: set<Point>)
      requires Shaped() && FloorAtBottom() && HasEndlessFloor()
      ensures IsOccupiedIn(FillFrom(occ, source).occupied, source)
    {
      FillFromStops(occ);
      FloorCatches(FillFrom(occ, source).occupied, source);
    }

    /** The `Cave` constructor: the bounding box of the walls shifted so that its columns
        start at 0, with a floor two rows below the lowest wall when asked for, and the
        rock cells of all walls. */
    constructor(walls: seq<Segment>, hasFloor: bool)
      requires walls != [] && AllStraight(walls)
      ensures var offset := MinX(walls);
              var height := if hasFloor then MaxY(walls) + 2 else MaxY(walls);
              bb == Box(Point(0, 0), Point(MaxX(walls) - offset, height))
              && source == Point(500 - offset, 0)
              && floorHeight == (if hasFloor then MaxY(walls) + 2 else -1)
              && occupied == WallCells(walls, offset)
      ensures Shaped() && FloorAtBottom()
    {
      var offset := MinX(walls);
      var height := MaxY(walls);
      WallsSpan(walls);
      if hasFloor {
        floorHeight := height + 2;
        height := height + 2;
      } else {
        floorHeight := -1;
      }
      bb := Box(Point(0, 0), Point(MaxX(walls) - offset, height));
      source := Point(500 - offset, 0);
      var cells := AddWalls(walls, offset);
      occupied := cells;
    }

    /** The `foreach` over `Moves`: the first move out of the box or onto a free cell. */
    method TryMoves(pos: Point) returns (moved: bool, newPos: Point)
      ensures moved <==> FirstMove(occupied, pos, 0).Some?
      ensures moved ==> FirstMove(occupied, pos, 0) == Some(newPos)
    {
      moved, newPos := false, pos;
      var i := 0;
      while i < |Moves|
        invariant 0 <= i <= |Moves|
        invariant FirstMove(occupied, pos, 0) == FirstMove(occupied, pos, i)
      {
        newPos := pos.Plus(Moves[i]);
        if !IsInside(newPos) || !IsOccupiedIn(occupied, newPos) {
          moved := true;
          return;
        }
        i := i + 1;
      }
    }

    /** `FillWithSand`: pours grains from the source one cell at a time until a grain
        falls out of the box, a grain cannot move and has no place to rest, or the source
        itself is filled; returns the number of grains that came to rest. */
    method FillWithSand() returns (count: nat)
      requires Shaped()
      modifies this
      ensures Filled(count, occupied) == FillFrom(old(occupied), source)
    {
      count := 0;
      var pos := source;
      while IsInside(pos)
        invariant Below(pos)
        invariant FillFrom(old(occupied), source)
                  == Filled(count + FillFrom(occupied, pos).count, FillFrom(occupied, pos).occupied)
        decreases Room(occupied), bb.upper.y + 1 - pos.y
      {
        var moved, newPos := TryMoves(pos);
        if moved {
          FillFromMove(occupied, pos, newPos);
          pos := newPos;
          continue;
        }
        if !IsOccupiedIn(occupied, pos) {
          FillFromRest(occupied, pos);
          occupied := occupied + {pos};
          count := count + 1;
          if pos == source {
            break;
          }
          pos := source;
        } else {
          FillFromBlocked(occupied, pos);
          break;
        }
      }
      if !IsInside(pos) {
        FillFromOutside(occupied, pos);
      }
    }
  }

  // Parsing

  /** The index of the first `" -> "` at or after `i`. */
  function ArrowAt(s: string, i: nat): (r: Option<nat>)
    ensures r.Some? ==> i <= r.value && r.value + 4 <= |s| && s[r.value..r.value + 4] == " -> "
    decreases |s| - i
  {
    if i + 4 > |s| then None
    else if s[i..i + 4] == " -> " then Some(i)
    else ArrowAt(s, i + 1)
  }

  /** `line.Split(" -> ")`. */
  function SplitArrows(s: string): (parts: seq<string>)
    ensures |parts| >= 1
    decreases |s|
  {
    match ArrowAt(s, 0)
    case None => [s]
    case Some(k) => [s[..k]] + SplitArrows(s[k + 4..])
  }

  /** `Point.FromString`: the first two of the comma-separated numbers. */
  function ParsePoint(xy: string): (r: Result<Point>)
  {
    match ParseInts(Split(Trim(xy), ','))
    case Err(e) => Err(e)
    case Ok(values) =>
      if |values| < 2 then Err("Index was outside the bounds of the array.")
      else Ok(Point(values[0], values[1]))
  }

  /** The text of a point in a scan line, `x,y`. */
  function PointText(p: Point): string
  {
    IntToString(p.x) + [','] + IntToString(p.y)
  }

  /** `Point.FromString` reads a point's text back. */
  lemma ParsePointText(p: Point)
    ensures ParsePoint(PointText(p)) == Ok(p)
  {
    PointTextSplit(p);
    ParseTwo(IntToString(p.x), IntToString(p.y), p.x, p.y);
  }

  lemma ParseTwo(a: string, b: string, x: int, y: int)
    requires ParseInt(a) == Some(x) && ParseInt(b) == Some(y)
    ensures ParseInts([a, b]) == Ok([x, y])
  {
    ParseIntsAll([a, b], [x, y]);
  }

  lemma PointTextSplit(p: Point)
    ensures Split(Trim(PointText(p)), ',') == [IntToString(p.x), IntToString(p.y)]
  {
    var a, b := IntToString(p.x), IntToString(p.y);
    var t := PointText(p);
    assert t[0] == a[0] && t[|t| - 1] == b[|b| - 1];
    TrimUnpadded(t);
    assert ',' !in a && ',' !in b;
    assert Join([a, b], ',') == t;
    SplitJoin([a, b], ',');
  }

  /** Every part read as a point, or the first part's error. */
  function ParsePoints(parts: seq<string>): (r: Result<seq<Point>>)
    ensures r.Ok? ==> |r.value| == |parts| && forall k :: 0 <= k < |parts| ==> ParsePoint(parts[k]) == Ok(r.value[k])
    ensures r.Err? ==> exists k :: 0 <= k < |parts| && ParsePoint(parts[k]) == Err(r.message)
  {
    if parts == [] then Ok([])
    else
      match ParsePoint(parts[0])
      case Err(e) => Err(e)
      case Ok(p) =>
        match ParsePoints(parts[1..])
        case Err(e) => Err(e)
        case Ok(rest) => Ok([p] + rest)
  }

  /** The walls of one line: a segment between each point and the next. */
  function Chain(points: seq<Point>): (walls: seq<Segment>)
    ensures |walls| == if points == [] then 0 else |points| - 1
    ensures forall i :: 0 <= i < |walls| ==> walls[i] == Segment(points[i], points[i + 1])
  {
    if |points| < 2 then [] else [Segment(points[0], points[1])] + Chain(points[1..])
  }

  /** The walls of all lines, in order. */
  function ParseWalls(lines: seq<string>): Result<seq<Segment>>
  {
    if lines == [] then Ok([])
    else
      match ParseWalls(lines[..|lines| - 1])
      case Err(e) => Err(e)
      case Ok(front) =>
        match ParsePoints(SplitArrows(lines[|lines| - 1]))
        case Err(e) => Err(e)
        case Ok(points) => Ok(front + Chain(points))
  }

  /** A cave for the walls; `Min` over no walls fails. */
  method NewCave(walls: seq<Segment>, hasFloor: bool) returns (r: Result<Cave>)
    requires AllStraight(walls)
    ensures r.Ok? <==> walls != []
    ensures r.Ok? ==> fresh(r.value) && r.value.Shaped() && r.value.occupied == WallCells(walls, MinX(walls))
    ensures r.Ok? ==> r.value.source == Point(500 - MinX(walls), 0)
    ensures r.Ok? ==> r.value.floorHeight == (if hasFloor then MaxY(walls) + 2 else -1)
    ensures r.Ok? ==> r.value.bb == Box(Point(0, 0), Point(MaxX(walls) - MinX(walls), if hasFloor then MaxY(walls) + 2 else MaxY(walls)))
  {
    if walls == [] {
      return Err("Sequence contains no elements");
    }
    var cave := new Cave(walls, hasFloor);
    return Ok(cave);
  }

  /** `ComputeSolution1` and `ComputeSolution2`: the grains that come to rest in the cave
      without and with a floor. */
  method ComputeSolution(walls: seq<Segment>, hasFloor: bool) returns (r: Result<nat>, ghost cave: Cave?)
    requires AllStraight(walls)
    ensures r.Ok? <==> walls != []
    ensures r.Ok? ==> cave != null && cave.Shaped() && cave.source == Point(500 - MinX(walls), 0)
                      && cave.floorHeight == (if hasFloor then MaxY(walls) + 2 else -1)
                      && cave.bb == Box(Point(0, 0), Point(MaxX(walls) - MinX(walls), if hasFloor then MaxY(walls) + 2 else MaxY(walls)))
                      && r.value == cave.FillFrom(WallCells(walls, MinX(walls)), cave.source).count
  {
    var made := NewCave(walls, hasFloor);
    if made.Err? {
      return Err(made.message), null;
    }
    var c := made.value;
    var count := c.FillWithSand();
    return Ok(count), c;
  }
}
