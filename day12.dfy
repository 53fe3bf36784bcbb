/** Day 12, "Hill Climbing Algorithm": a height map of letters, searched backwards from
    the summit `E` for the start `S` (part 1) or for the nearest lowest square (part 2),
    climbing at most one level per step. */
module Day12 {
  import opened Common

  datatype Point = Point(x: int, y: int)

  /** An entry of the priority queue: a square and the steps taken to reach it. */
  datatype Entry = Entry(pos: Point, steps: int)

  // Heights

  /** `Encoding.ASCII.GetBytes`: a character outside ASCII becomes `?`. */
  function AsciiByte(c: char): int
  {
    if c as int < 128 then c as int else '?' as int
  }

  /** The height stored for a character of the map: `S` is 0, `E` is 27 and any other
      character its ASCII code minus 96. */
  function Decode(c: char): int
  {
    if c == 'S' then 0 else if c == 'E' then 27 else AsciiByte(c) - 96
  }

  /** The letters `a` to `z` are the heights 1 to 26, in order. */
  lemma DecodeLetter(c: char)
    requires 'a' <= c <= 'z'
    ensures Decode(c) == c as int - 'a' as int + 1 && 1 <= Decode(c) <= 26
  {
  }

  /** `GetHeight`: a stored height clamped into [1, 26]. */
  function Clamp(h: int): (r: int)
    ensures 1 <= r <= 26
    ensures 1 <= h <= 26 ==> r == h
    ensures h <= 1 ==> r == 1
    ensures h >= 26 ==> r == 26
  {
    Max(1, Min(26, h))
  }

  /** Once clamped, the start counts as an `a` and the summit as a `z`. */
  lemma MarkerHeights()
    ensures Clamp(Decode('S')) == Clamp(Decode('a')) == 1
    ensures Clamp(Decode('E')) == Clamp(Decode('z')) == 26
  {
  }

  /** Squares that share an edge. */
  predicate Orthogonal(p: Point, q: Point)
  {
    Abs(p.x - q.x) + Abs(p.y - q.y) == 1
  }

  /** The smallest step count in a nonempty queue, at some index. */
  function MinIndex(q: seq<Entry>): (i: nat)
    requires q != []
    ensures i < |q| && forall j :: 0 <= j < |q| ==> q[i].steps <= q[j].steps
  {
    if |q| == 1 then 0
    else
      var i := MinIndex(q[..|q| - 1]);
      assert forall j :: 0 <= j < |q| - 1 ==> q[..|q| - 1][j] == q[j];
      if q[|q| - 1].steps < q[i].steps then |q| - 1 else i
  }

  /** The squares of the queue. */
  ghost function Positions(q: seq<Entry>): set<Point>
  {
    set k | 0 <= k < |q| :: q[k].pos
  }

  /** `s` without its element at `i`. */
  function Remove<T>(s: seq<T>, i: nat): (r: seq<T>)
    requires i < |s|
    ensures |r| == |s| - 1
    ensures forall k :: 0 <= k < i ==> r[k] == s[k]
    ensures forall k :: i <= k < |r| ==> r[k] == s[k + 1]
  {
    s[..i] + s[i + 1..]
  }

  lemma PositionsRemove(q: seq<Entry>, i: nat)
    requires i < |q|
    ensures Positions(q) == Positions(Remove(q, i)) + {q[i].pos}
  {
    var r := Remove(q, i);
    forall p | p in Positions(q)
      ensures p in Positions(r) + {q[i].pos}
    {
      var k :| 0 <= k < |q| && q[k].pos == p;
      if k < i {
        assert r[k].pos == p;
      } else if k > i {
        assert r[k - 1].pos == p;
      }
    }
    forall p | p in Positions(r)
      ensures p in Positions(q)
    {
      var k :| 0 <= k < |r| && r[k].pos == p;
      if k < i {
        assert q[k].pos == p;
      } else {
        assert q[k + 1].pos == p;
      }
    }
  }

  lemma PositionsAppend(a: seq<Entry>, b: seq<Entry>)
    ensures Positions(a + b) == Positions(a) + Positions(b)
  {
    var ab := a + b;
    forall p | p in Positions(ab)
      ensures p in Positions(a) + Positions(b)
    {
      var k :| 0 <= k < |ab| && ab[k].pos == p;
      if k >= |a| {
        assert b[k - |a|].pos == p;
      }
    }
    forall p | p in Positions(a) + Positions(b)
      ensures p in Positions(ab)
    {
      if p in Positions(a) {
        var k :| 0 <= k < |a| && a[k].pos == p;
        assert ab[k].pos == p;
      } else {
        var k :| 0 <= k < |b| && b[k].pos == p;
        assert ab[|a| + k].pos == p;
      }
    }
  }

  /** `stepsToStartingPositions.Values.Min()`. */
  ghost function MinValue(m: map<Point, int>): (r: int)
    requires m != map[]
    ensures r in m.Values && forall p :: p in m ==> r <= m[p]
    decreases m.Keys
  {
    var p :| p in m;
    var rest := m - {p};
    assert rest.Keys < m.Keys;
    assert forall q :: q in m ==> q == p || q in rest;
    if rest == map[] then
      m[p]
    else
      var r := MinValue(rest);
      assert forall q :: q in m ==> q == p || q in rest;
      Min(m[p], r)
  }

  /** `Map`: the heights of the squares, indexed by column and row. */
  class Map {
    const rows: int
    const cols: int
    const heights: array2<int>

    predicate Valid()
    {
      heights.Length0 == cols && heights.Length1 == rows
    }

    predicate InGrid(p: Point)
    {
      0 <= p.x < cols && 0 <= p.y < rows
    }

    ghost function Cells(): set<Point>
    {
      set x, y | 0 <= x < cols && 0 <= y < rows :: Point(x, y)
    }

    /** `GetHeight`. */
    function GetHeight(p: Point): int
      reads heights
      requires Valid() && InGrid(p)
    {
      Clamp(heights[p.x, p.y])
    }

    /** A step of the backward search, from `p` to a neighbour `q` from which `p` can be
        climbed to: `q` at most one level below `p`. */
    predicate Step(p: Point, q: Point)
      reads heights
      requires Valid()
    {
      InGrid(p) && InGrid(q) && Orthogonal(p, q) && GetHeight(p) <= GetHeight(q) + 1
    }

    /** A backward walk from `from` to `to`; reversed, it climbs from `to` to `from`. */
    ghost predicate Walk(path: seq<Point>, from: Point, to: Point)
      reads heights
      requires Valid()
    {
      |path| >= 1 && path[0] == from && path[|path| - 1] == to && InGrid(from) && InGrid(to)
      && forall i :: 0 <= i < |path| - 1 ==> Step(path[i], path[i + 1])
    }

    /** `to` is reached from `from` in `steps` steps. */
    ghost predicate Reaches(from: Point, to: Point, steps: int)
      reads heights
      requires Valid()
    {
      exists path :: Walk(path, from, to) && |path| == steps + 1
    }

    ghost predicate Reachable(from: Point, to: Point)
      reads heights
      requires Valid()
    {
      exists path :: Walk(path, from, to)
    }

    /** The constructor: one row per line, as many columns as the first line has
        characters, each square the decoded height of its character. */
    constructor(lines: seq<string>)
      requires Rectangular(lines)
      ensures Valid() && fresh(heights) && rows == |lines| && cols == |lines[0]|
      ensures forall x, y :: 0 <= x < cols && 0 <= y < rows ==> heights[x, y] == Decode(lines[y][x])
    {
      var r, c := |lines|, |lines[0]|;
      var h := new int[c, r]((i, j) => 0);
      var y := 0;
      while y < r
        invariant 0 <= y <= r
        invariant forall i, j :: 0 <= i < c && 0 <= j < y ==> h[i, j] == Decode(lines[j][i])
      {
        var x := 0;
        while x < c
          invariant 0 <= x <= c
          invariant forall i, j :: 0 <= i < c && 0 <= j < y ==> h[i, j] == Decode(lines[j][i])
          invariant forall i :: 0 <= i < x ==> h[i, y] == Decode(lines[y][i])
        {
          h[x, y] := Decode(lines[y][x]);
          x := x + 1;
        }
        y := y + 1;
      }
      rows, cols, heights := r, c, h;
    }

    /** The first square with stored height `h`, column by column: the squares of the
        columns before `x` and of column `x` from row `y` on are searched. */
    function FirstFrom(h: int, x: nat, y: nat): (r: Option<Point>)
      reads heights
      requires Valid()
      ensures r.Some? ==> InGrid(r.value) && heights[r.value.x, r.value.y] == h
      decreases cols - x, rows - y
    {
      if x >= cols || cols <= 0 then None
      else if y >= rows then FirstFrom(h, x + 1, 0)
      else if heights[x, y] == h then Some(Point(x, y))
      else FirstFrom(h, x, y + 1)
    }

    function First(h: int): Option<Point>
      reads heights
      requires Valid()
    {
      FirstFrom(h, 0, 0)
    }

    /** No square before (x, y) in column order holds `h`. */
    predicate NoneBefore(h: int, x: int, y: int)
      reads heights
      requires Valid()
    {
      forall i, j :: 0 <= i < cols && 0 <= j < rows && (i < x || (i == x && j < y)) ==> heights[i, j] != h
    }

    lemma {:induction false} FirstFromMeaning(h: int, x: nat, y: nat)
      requires Valid() && NoneBefore(h, x, y)
      ensures FirstFrom(h, x, y).Some? ==> NoneBefore(h, FirstFrom(h, x, y).value.x, FirstFrom(h, x, y).value.y)
      ensures FirstFrom(h, x, y).None? ==> forall i, j :: 0 <= i < cols && 0 <= j < rows ==> heights[i, j] != h
      decreases cols - x, rows - y
    {
      if x >= cols || cols <= 0 {
      } else if y >= rows {
        FirstFromMeaning(h, x + 1, 0);
      } else if heights[x, y] != h {
        FirstFromMeaning(h, x, y + 1);
      }
    }

    /** `First` is the first square with height `h` in column order, or there is none. */
    lemma FirstMeaning(h: int)
      requires Valid()
      ensures First(h).Some? ==> heights[First(h).value.x, First(h).value.y] == h
                                 && NoneBefore(h, First(h).value.x, First(h).value.y)
      ensures First(h).None? <==> forall i, j :: 0 <= i < cols && 0 <= j < rows ==> heights[i, j] != h
    {
      FirstFromMeaning(h, 0, 0);
    }

    /** `FindPoint`: column by column, the first square with stored height `h`. */
    method FindPoint(h: int) returns (r: Option<Point>)
      requires Valid()
      ensures r == First(h)
    {
      var x := 0;
      while x < cols
        invariant 0 <= x <= cols || cols <= 0
        invariant First(h) == FirstFrom(h, x, 0)
      {
        var y := 0;
        while y < rows
          invariant 0 <= y <= rows
          invariant First(h) == FirstFrom(h, x, y)
        {
          if heights[x, y] == h {
            return Some(Point(x, y));
          }
          y := y + 1;
        }
        x := x + 1;
      }
      return None;
    }

    /** What expanding `pos` does to the queue `q`, giving `r`: `q` is kept as a prefix,
        every entry after it is a step from `pos` to a square not in `visited`, one step
        further than `pos`, and every such square is among them. */
    ghost predicate Expands(pos: Point, steps: int, visited: set<Point>, q: seq<Entry>, r: seq<Entry>)
      reads heights
      requires Valid()
    {
      |r| >= |q| && (forall j :: 0 <= j < |q| ==> r[j] == q[j])
      && (forall j :: |q| <= j < |r| ==> r[j].steps == steps + 1 && r[j].pos !in visited && Step(pos, r[j].pos))
      && (forall n :: Step(pos, n) && n !in visited ==> exists j :: |q| <= j < |r| && r[j].pos == n)
    }

    /** The nested `for` loops over dx and dy: every neighbour of `pos` sharing an edge,
        on the map, not visited and reachable from `pos` is enqueued one step further. */
    method ExpandNeighbors(pos: Point, steps: int, visited: set<Point>, queue: seq<Entry>)
      returns (r: seq<Entry>)
      requires Valid() && InGrid(pos)
      ensures Expands(pos, steps, visited, queue, r)
    {
      r := queue;
      var dx := -1;
      while dx <= 1
        invariant -1 <= dx <= 2
        invariant |r| >= |queue| && forall j :: 0 <= j < |queue| ==> r[j] == queue[j]
        invariant forall j :: |queue| <= j < |r| ==> r[j].steps == steps + 1 && r[j].pos !in visited && Step(pos, r[j].pos)
        invariant forall n :: Step(pos, n) && n !in visited && n.x < pos.x + dx ==> exists j :: |queue| <= j < |r| && r[j].pos == n
      {
        r := ExpandColumn(pos, steps, visited, dx, r);
        dx := dx + 1;
      }
    }

    /** The inner `for` loop over dy, for one dx: the squares of column `pos.x + dx`. */
    method ExpandColumn(pos: Point, steps: int, visited: set<Point>, dx: int, r0: seq<Entry>)
      returns (r: seq<Entry>)
      requires Valid() && InGrid(pos) && -1 <= dx <= 1
      ensures |r| >= |r0| && forall j :: 0 <= j < |r0| ==> r[j] == r0[j]
      ensures forall j :: |r0| <= j < |r| ==> r[j].steps == steps + 1 && r[j].pos !in visited && Step(pos, r[j].pos)
      ensures forall n :: Step(pos, n) && n !in visited && n.x == pos.x + dx ==> exists j :: |r0| <= j < |r| && r[j].pos == n
    {
      r := r0;
      var dy := -1;
      while dy <= 1
        invariant -1 <= dy <= 2
        invariant |r| >= |r0| && forall j :: 0 <= j < |r0| ==> r[j] == r0[j]
        invariant forall j :: |r0| <= j < |r| ==> r[j].steps == steps + 1 && r[j].pos !in visited && Step(pos, r[j].pos)
        invariant forall n :: Step(pos, n) && n !in visited && n.x == pos.x + dx && n.y < pos.y + dy ==>
                    exists j :: |r0| <= j < |r| && r[j].pos == n
      {
        if (dx == 0) != (dy == 0) {
          var neighbor := Point(pos.x + dx, pos.y + dy);
          if 0 <= neighbor.x < cols && 0 <= neighbor.y < rows && neighbor !in visited
             && GetHeight(pos) <= GetHeight(neighbor) + 1 {
            ghost var prev := r;
            r := r + [Entry(neighbor, steps + 1)];
            assert forall j :: 0 <= j < |prev| ==> r[j] == prev[j];
          }
        }
        forall n | Step(pos, n) && n !in visited && n == Point(pos.x + dx, pos.y + dy)
          ensures exists j :: |r0| <= j < |r| && r[j].pos == n
        {
          assert r[|r| - 1].pos == n;
        }
        dy := dy + 1;
      }
    }

    lemma InCells(p: Point)
      requires InGrid(p)
      ensures p in Cells()
    {
      assert p == Point(p.x, p.y);
    }

    /** Every queued entry is the end of a backward walk from `origin` of its steps. */
    ghost predicate Queued(origin: Point, q: seq<Entry>, walks: seq<seq<Point>>)
      reads heights
      requires Valid()
    {
      |walks| == |q| && forall k :: 0 <= k < |q| ==> Walk(walks[k], origin, q[k].pos) && |walks[k]| == q[k].steps + 1
    }

    /** Every recorded square has height 1 and is the end of a backward walk of its steps. */
    ghost predicate Recorded(origin: Point, found: map<Point, int>, walks: map<Point, seq<Point>>)
      reads heights
      requires Valid()
    {
      forall p :: p in found ==>
        InGrid(p) && GetHeight(p) == 1 && p in walks && Walk(walks[p], origin, p) && |walks[p]| == found[p] + 1
    }

    lemma RecordedAdd(origin: Point, found: map<Point, int>, walks: map<Point, seq<Point>>, p: Point, steps: int,
                      w: seq<Point>)
      requires Valid() && Recorded(origin, found, walks) && Walk(w, origin, p) && |w| == steps + 1
      requires GetHeight(p) == 1
      ensures Recorded(origin, found[p := steps], walks[p := w])
    {
    }

    /** Every step out of `visited` lands in `visited` or on a queued square. */
    ghost predicate Frontier(visited: set<Point>, queued: set<Point>)
      reads heights
      requires Valid()
    {
      forall p, n :: p in visited && Step(p, n) ==> n in visited || n in queued
    }

    /** The walks to the entries `added` from `pos`, each `w` extended by one square. */
    ghost function Extended(w: seq<Point>, added: seq<Entry>): (r: seq<seq<Point>>)
      ensures |r| == |added| && forall k :: 0 <= k < |added| ==> r[k] == w + [added[k].pos]
    {
      seq(|added|, k requires 0 <= k < |added| => w + [added[k].pos])
    }

    lemma QueuedRemove(origin: Point, q: seq<Entry>, walks: seq<seq<Point>>, i: nat)
      requires Valid() && Queued(origin, q, walks) && i < |q|
      ensures Queued(origin, Remove(q, i), Remove(walks, i))
      ensures Walk(walks[i], origin, q[i].pos) && |walks[i]| == q[i].steps + 1
      ensures InGrid(q[i].pos)
    {
    }

    lemma WalkExtend(path: seq<Point>, from: Point, to: Point, n: Point)
      requires Valid() && Walk(path, from, to) && Step(to, n)
      ensures Walk(path + [n], from, n)
    {
      var ext := path + [n];
      forall i | 0 <= i < |ext| - 1
        ensures Step(ext[i], ext[i + 1])
      {
        if i < |path| - 1 {
          assert ext[i] == path[i] && ext[i + 1] == path[i + 1];
        }
      }
    }

    lemma QueuedExtend(origin: Point, q: seq<Entry>, walks: seq<seq<Point>>, w: seq<Point>, e: Entry,
                       visited: set<Point>, r: seq<Entry>)
      requires Valid() && Queued(origin, q, walks) && Walk(w, origin, e.pos) && |w| == e.steps + 1
      requires Expands(e.pos, e.steps, visited, q, r)
      ensures Queued(origin, r, walks + Extended(w, r[|q|..]))
    {
      var ext := Extended(w, r[|q|..]);
      var walks' := walks + ext;
      forall k | 0 <= k < |r|
        ensures Walk(walks'[k], origin, r[k].pos) && |walks'[k]| == r[k].steps + 1
      {
        if k >= |q| {
          assert walks'[k] == w + [r[k].pos];
          WalkExtend(w, origin, e.pos, r[k].pos);
        } else {
          assert walks'[k] == walks[k] && r[k] == q[k];
        }
      }
    }

    /** Dequeuing a visited square keeps the frontier. */
    lemma FrontierSkip(visited: set<Point>, q: seq<Entry>, i: nat)
      requires Valid() && i < |q| && Frontier(visited, Positions(q)) && q[i].pos in visited
      ensures Frontier(visited, Positions(Remove(q, i)))
    {
      PositionsRemove(q, i);
    }

    /** Visiting a square and enqueuing its neighbours keeps the frontier. */
    lemma FrontierExpand(visited: set<Point>, q: seq<Entry>, i: nat, r: seq<Entry>)
      requires Valid() && i < |q| && Frontier(visited, Positions(q))
      requires Expands(q[i].pos, q[i].steps, visited + {q[i].pos}, Remove(q, i), r)
      ensures Frontier(visited + {q[i].pos}, Positions(r))
      ensures Positions(Remove(q, i)) <= Positions(r)
    {
      var e := q[i];
      var visited' := visited + {e.pos};
      var rest := Remove(q, i);
      PositionsRemove(q, i);
      forall n | n in Positions(rest)
        ensures n in Positions(r)
      {
        var j :| 0 <= j < |rest| && rest[j].pos == n;
        assert r[j].pos == n;
      }
      forall p, n | p in visited' && Step(p, n) && n !in visited'
        ensures n in Positions(r)
      {
        if p == e.pos {
          var j :| |rest| <= j < |r| && r[j].pos == n;
          assert r[j].pos == n;
        }
      }
    }

    /** A backward walk that starts in a set closed under steps stays in it. */
    lemma {:induction false} WalkStaysIn(path: seq<Point>, from: Point, to: Point, s: set<Point>)
      requires Valid() && Walk(path, from, to) && from in s && Frontier(s, {})
      ensures to in s
      decreases |path|
    {
      if |path| > 1 {
        var front := path[..|path| - 1];
        forall i | 0 <= i < |front| - 1
          ensures Step(front[i], front[i + 1])
        {
          assert front[i] == path[i] && front[i + 1] == path[i + 1];
        }
        assert Walk(front, from, path[|path| - 2]);
        WalkStaysIn(front, from, path[|path| - 2], s);
        assert Step(path[|path| - 2], to);
      }
    }

    /** The invariant of the search loop: the queue holds walks, the recorded squares
        hold walks, the visited squares are on the map with every one of height 1
        recorded, the origin has been visited or is queued, and every step out of the
        visited squares is visited or queued. */
    ghost predicate Searching(origin: Point, queue: seq<Entry>, walks: seq<seq<Point>>, visited: set<Point>,
                              found: map<Point, int>, foundWalks: map<Point, seq<Point>>)
      reads heights
      requires Valid()
    {
      Queued(origin, queue, walks) && Recorded(origin, found, foundWalks)
      && (forall p :: p in visited ==> InGrid(p) && (GetHeight(p) == 1 ==> p in found))
      && (origin in visited || origin in Positions(queue))
      && Frontier(visited, Positions(queue))
    }

    /** Recording the dequeued entry when its square has height 1. */
    ghost function RecordFound(found: map<Point, int>, e: Entry): map<Point, int>
      reads heights
      requires Valid() && InGrid(e.pos)
    {
      if GetHeight(e.pos) == 1 then found[e.pos := e.steps] else found
    }

    ghost function RecordWalk(walks: map<Point, seq<Point>>, p: Point, w: seq<Point>): map<Point, seq<Point>>
      reads heights
      requires Valid() && InGrid(p)
    {
      if GetHeight(p) == 1 then walks[p := w] else walks
    }

    /** A turn that dequeues an already visited square keeps the invariant. */
    lemma SkipTurn(origin: Point, queue: seq<Entry>, walks: seq<seq<Point>>, visited: set<Point>,
                   found: map<Point, int>, foundWalks: map<Point, seq<Point>>, i: nat)
      requires Valid() && Searching(origin, queue, walks, visited, found, foundWalks)
      requires i < |queue| && queue[i].pos in visited
      ensures Searching(origin, Remove(queue, i), Remove(walks, i), visited,
                        RecordFound(found, queue[i]), RecordWalk(foundWalks, queue[i].pos, walks[i]))
    {
      QueuedRemove(origin, queue, walks, i);
      PositionsRemove(queue, i);
      FrontierSkip(visited, queue, i);
      if GetHeight(queue[i].pos) == 1 {
        RecordedAdd(origin, found, foundWalks, queue[i].pos, queue[i].steps, walks[i]);
      }
    }

    /** A turn that visits the dequeued square and enqueues its neighbours keeps the
        invariant. */
    lemma VisitTurn(origin: Point, queue: seq<Entry>, walks: seq<seq<Point>>, visited: set<Point>,
                    found: map<Point, int>, foundWalks: map<Point, seq<Point>>, i: nat, r: seq<Entry>)
      requires Valid() && Searching(origin, queue, walks, visited, found, foundWalks)
      requires i < |queue| && queue[i].pos !in visited
      requires Expands(queue[i].pos, queue[i].steps, visited + {queue[i].pos}, Remove(queue, i), r)
      ensures InGrid(queue[i].pos)
      ensures Searching(origin, r, Remove(walks, i) + Extended(walks[i], r[|queue| - 1..]), visited + {queue[i].pos},
                        RecordFound(found, queue[i]), RecordWalk(foundWalks, queue[i].pos, walks[i]))
    {
      var e := queue[i];
      QueuedRemove(origin, queue, walks, i);
      PositionsRemove(queue, i);
      FrontierExpand(visited, queue, i, r);
      QueuedExtend(origin, Remove(queue, i), Remove(walks, i), walks[i], e, visited + {e.pos}, r);
      if GetHeight(e.pos) == 1 {
        RecordedAdd(origin, found, foundWalks, e.pos, e.steps, walks[i]);
      }
    }

    /** Once the queue is empty, the recorded squares are exactly the squares of height 1
        the origin reaches, each with the steps of a walk to it. */
    lemma SearchDone(origin: Point, walks: seq<seq<Point>>, visited: set<Point>,
                     found: map<Point, int>, foundWalks: map<Point, seq<Point>>)
      requires Valid() && Searching(origin, [], walks, visited, found, foundWalks)
      ensures forall p :: p in found ==> InGrid(p) && GetHeight(p) == 1 && Reaches(origin, p, found[p])
      ensures forall p :: InGrid(p) && GetHeight(p) == 1 && Reachable(origin, p) ==> p in found
    {
      assert Positions([]) == {};
      forall p | InGrid(p) && GetHeight(p) == 1 && Reachable(origin, p)
        ensures p in found
      {
        var path :| Walk(path, origin, p);
        WalkStaysIn(path, origin, p, visited);
      }
      forall p | p in found
        ensures Reaches(origin, p, found[p])
      {
        assert Walk(foundWalks[p], origin, p) && |foundWalks[p]| == found[p] + 1;
      }
    }

    /** Visiting a square of the map not yet visited leaves fewer to visit. */
    lemma VisitShrinks(visited: set<Point>, p: Point)
      requires InGrid(p) && p !in visited
      ensures p in Cells() && |Cells() - (visited + {p})| < |Cells() - visited|
    {
      InCells(p);
      assert Cells() - (visited + {p}) == (Cells() - visited) - {p};
    }

    /** The `while` loop of `FindPath`: a search backwards from `origin` that dequeues an
        entry with the fewest steps (ties in any order), records the steps of every
        dequeued square of height 1, and expands each square once. Returns
        `stepsToStartingPositions`. */
    method Search(origin: Point) returns (found: map<Point, int>)
      requires Valid() && InGrid(origin)
      ensures forall p :: p in found ==> InGrid(p) && GetHeight(p) == 1 && Reaches(origin, p, found[p])
      ensures forall p :: InGrid(p) && GetHeight(p) == 1 && Reachable(origin, p) ==> p in found
    {
      var queue := [Entry(origin, 0)];
      ghost var walks := [[origin]];
      var visited: set<Point> := {};
      found := map[];
      ghost var foundWalks: map<Point, seq<Point>> := map[];
      assert queue[0].pos == origin;
      while queue != []
        invariant Searching(origin, queue, walks, visited, found, foundWalks)
        invariant visited <= Cells()
        decreases |Cells() - visited|, |queue|
      {
        queue, walks, visited, found, foundWalks := Turn(origin, queue, walks, visited, found, foundWalks);
      }
      SearchDone(origin, walks, visited, found, foundWalks);
    }

    /** One turn of the search: dequeue an entry with the fewest steps, record it when
        its square has height 1, and expand its square unless it was visited before. */
    method Turn(origin: Point, queue: seq<Entry>, ghost walks: seq<seq<Point>>, visited: set<Point>,
                found: map<Point, int>, ghost foundWalks: map<Point, seq<Point>>)
      returns (queue': seq<Entry>, ghost walks': seq<seq<Point>>, visited': set<Point>,
               found': map<Point, int>, ghost foundWalks': map<Point, seq<Point>>)
      requires Valid() && InGrid(origin) && queue != [] && visited <= Cells()
      requires Searching(origin, queue, walks, visited, found, foundWalks)
      ensures Searching(origin, queue', walks', visited', found', foundWalks') && visited' <= Cells()
      ensures |Cells() - visited'| < |Cells() - visited|
              || (visited' == visited && |queue'| < |queue|)
    {
      ghost var least := MinIndex(queue);
      var i :| 0 <= i < |queue| && forall j :: 0 <= j < |queue| ==> queue[i].steps <= queue[j].steps;
      var e := queue[i];
      var rest := Remove(queue, i);
      QueuedRemove(origin, queue, walks, i);
      found' := found;
      if GetHeight(e.pos) == 1 {
        found' := found[e.pos := e.steps];
      }
      foundWalks' := RecordWalk(foundWalks, e.pos, walks[i]);
      if e.pos in visited {
        SkipTurn(origin, queue, walks, visited, found, foundWalks, i);
        queue', walks', visited' := rest, Remove(walks, i), visited;
        return;
      }
      VisitShrinks(visited, e.pos);
      visited' := visited + {e.pos};
      queue' := ExpandNeighbors(e.pos, e.steps, visited', rest);
      VisitTurn(origin, queue, walks, visited, found, foundWalks, i, queue');
      walks' := Remove(walks, i) + Extended(walks[i], queue'[|queue| - 1..]);
    }

    /** `FindPath`: the search from the summit `E` (stored height 27), then for part 1
        the steps recorded for the start `S` (stored height 0), otherwise the fewest
        steps recorded for any square of height 1. */
    method FindPath(part: int) returns (r: Result<int>)
      requires Valid()
      ensures First(27).None? ==> r == Err("No destination")
      ensures First(27).Some? && First(0).None? ==> r == Err("No starting point")
      ensures First(27).Some? && First(0).Some? && part == 1 ==>
                var origin, destination := First(27).value, First(0).value;
                (r.Ok? <==> Reachable(origin, destination))
                && (r.Ok? ==> Reaches(origin, destination, r.value))
                && (r.Err? ==> r.message == "The given key was not present in the dictionary.")
      ensures First(27).Some? && First(0).Some? && part != 1 ==>
                var origin := First(27).value;
                (r.Ok? <==> exists p :: InGrid(p) && GetHeight(p) == 1 && Reachable(origin, p))
                && (r.Ok? ==> exists p :: InGrid(p) && GetHeight(p) == 1 && Reaches(origin, p, r.value))
                && (r.Err? ==> r.message == "Sequence contains no elements")
    {
      var origin := FindPoint(27);
      if origin.None? {
        return Err("No destination");
      }
      var destination := FindPoint(0);
      if destination.None? {
        return Err("No starting point");
      }
      var found := Search(origin.value);
      if part == 1 {
        if destination.value in found {
          return Ok(found[destination.value]);
        }
        return Err("The given key was not present in the dictionary.");
      }
      if found == map[] {
        return Err("Sequence contains no elements");
      }
      ghost var lowest := MinValue(found);
      var least :| least in found.Values && forall p :: p in found ==> least <= found[p];
      ghost var p :| p in found && found[p] == least;
      return Ok(least);
    }
  }

  /** The map of `lines`, or the error of indexing a missing line or character. */
  method NewMap(lines: seq<string>) returns (r: Result<Map>)
    ensures r.Ok? <==> Rectangular(lines)
    ensures r.Err? ==> r.message == "Index was outside the bounds of the array."
    ensures r.Ok? ==> fresh(r.value.heights) && r.value.Valid()
                      && r.value.rows == |lines| && r.value.cols == |lines[0]|
                      && forall x, y :: 0 <= x < |lines[0]| && 0 <= y < |lines| ==>
                           r.value.heights[x, y] == Decode(lines[y][x])
  {
    if lines == [] {
      return Err("Index was outside the bounds of the array.");
    }
    var y := 0;
    while y < |lines|
      invariant 0 <= y <= |lines|
      invariant forall j :: 0 <= j < y ==> |lines[j]| >= |lines[0]|
    {
      if |lines[y]| < |lines[0]| {
        return Err("Index was outside the bounds of the array.");
      }
      y := y + 1;
    }
    var m := new Map(lines);
    return Ok(m);
  }

  /** Lines the constructor can index: at least one, none shorter than the first. */
  predicate Rectangular(lines: seq<string>)
  {
    lines != [] && forall y :: 0 <= y < |lines| ==> |lines[y]| >= |lines[0]|
  }
}
