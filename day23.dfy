/** Day 23: elves spread out on an unbounded grid. In each round every elf with a
    neighbour proposes to step toward the first of four sides (tried in a rotating
    order) whose three cells are free; the proposals whose target no other elf chose
    are carried out. Part 1 counts the empty tiles of the elves' bounding box after ten
    rounds, part 2 counts the rounds until no elf moves. */
module Day23 {
  import opened Common

  datatype Direction = North | South | West | East

  /** `NextDirection`: the enum's next member, wrapping from `East` back to `North`. */
  function NextDirection(d: Direction): (r: Direction)
    ensures r != d
  {
    match d
    case North => South
    case South => West
    case West => East
    case East => North
  }

  /** `d` advanced k times. */
  function Advance(d: Direction, k: nat): Direction
  {
    if k == 0 then d else NextDirection(Advance(d, k - 1))
  }

  /** Four advances come back to the start, and no fewer do. */
  lemma AdvanceCycle(d: Direction)
    ensures Advance(d, 4) == d
    ensures Advance(d, 1) != d && Advance(d, 2) != d && Advance(d, 3) != d
  {
    match d
    case North =>
    case South =>
    case West =>
    case East =>
  }

  /** The order in which `Directions` yields the sides: the current one first. */
  function DirectionsFrom(d: Direction): seq<Direction>
  {
    [Advance(d, 0), Advance(d, 1), Advance(d, 2), Advance(d, 3)]
  }

  /** Every side is tried exactly once, starting at `d`. */
  lemma DirectionsOnce(d: Direction)
    ensures DirectionsFrom(d)[0] == d
    ensures forall x :: x in DirectionsFrom(d)
    ensures forall i, j :: 0 <= i < j < 4 ==> DirectionsFrom(d)[i] != DirectionsFrom(d)[j]
  {
    var ds := DirectionsFrom(d);
    assert ds == [d, NextDirection(d), NextDirection(NextDirection(d)), NextDirection(NextDirection(NextDirection(d)))];
    match d {
      case North => assert ds == [North, South, West, East];
      case South => assert ds == [South, West, East, North];
      case West => assert ds == [West, East, North, South];
      case East => assert ds == [East, North, South, West];
    }
    assert North in ds && South in ds && West in ds && East in ds;
    EveryDirection(ds);
  }

  lemma EveryDirection(ds: seq<Direction>)
    requires North in ds && South in ds && West in ds && East in ds
    ensures forall x :: x in ds
  {
    forall x ensures x in ds {
      match x
      case North =>
      case South =>
      case West =>
      case East =>
    }
  }

  datatype Elf = Elf(x: int, y: int)
  {
    /** `Neighbors()`: the eight surrounding cells, column by column. */
    function Neighbors(): seq<Elf>
    {
      [Elf(x - 1, y - 1), Elf(x - 1, y), Elf(x - 1, y + 1),
       Elf(x, y - 1), Elf(x, y + 1),
       Elf(x + 1, y - 1), Elf(x + 1, y), Elf(x + 1, y + 1)]
    }

    /** `Neighbors(direction)`: the three cells on one side, the straight step first. */
    function Toward(d: Direction): seq<Elf>
    {
      match d
      case North => [Elf(x, y - 1), Elf(x - 1, y - 1), Elf(x + 1, y - 1)]
      case South => [Elf(x, y + 1), Elf(x - 1, y + 1), Elf(x + 1, y + 1)]
      case West => [Elf(x - 1, y), Elf(x - 1, y + 1), Elf(x - 1, y - 1)]
      case East => [Elf(x + 1, y), Elf(x + 1, y + 1), Elf(x + 1, y - 1)]
    }

    /** A cell touching this one, diagonals included. */
    predicate Adjacent(c: Elf)
    {
      c != this && Abs(c.x - x) <= 1 && Abs(c.y - y) <= 1
    }

    /** A cell on side `d`: the row above or below, or the column left or right. */
    predicate OnSide(d: Direction, c: Elf)
    {
      Adjacent(c) &&
      match d
      case North => c.y == y - 1
      case South => c.y == y + 1
      case West => c.x == x - 1
      case East => c.x == x + 1
    }

    /** One step in direction `d`. */
    function Step(d: Direction): Elf
    {
      match d
      case North => Elf(x, y - 1)
      case South => Elf(x, y + 1)
      case West => Elf(x - 1, y)
      case East => Elf(x + 1, y)
    }
  }

  /** The eight neighbours are exactly the adjacent cells, each listed once. */
  lemma NeighborsAround(e: Elf)
    ensures |e.Neighbors()| == 8
    ensures forall c :: c in e.Neighbors() <==> e.Adjacent(c)
    ensures forall i, j :: 0 <= i < j < 8 ==> e.Neighbors()[i] != e.Neighbors()[j]
  {
    forall c | e.Adjacent(c) ensures c in e.Neighbors() {
      assert c.x == e.x - 1 || c.x == e.x || c.x == e.x + 1;
      assert c.y == e.y - 1 || c.y == e.y || c.y == e.y + 1;
    }
  }

  /** The three cells of a side are exactly the adjacent cells on that side, and the
      first is the straight step. */
  lemma TowardSide(e: Elf, d: Direction)
    ensures |e.Toward(d)| == 3 && e.Toward(d)[0] == e.Step(d)
    ensures forall c :: c in e.Toward(d) <==> e.OnSide(d, c)
  {
    forall c | e.OnSide(d, c) ensures c in e.Toward(d) {
      assert c.x == e.x - 1 || c.x == e.x || c.x == e.x + 1;
      assert c.y == e.y - 1 || c.y == e.y || c.y == e.y + 1;
    }
  }

  /** None of the cells holds an elf (`!cells.Any(_elves.Contains)`). */
  predicate Free(elves: set<Elf>, cells: seq<Elf>)
  {
    forall i :: 0 <= i < |cells| ==> cells[i] !in elves
  }

  /** Some neighbour holds an elf: only such elves propose. */
  predicate Crowded(elves: set<Elf>, e: Elf)
  {
    !Free(elves, e.Neighbors())
  }

  /** The step toward the first side in `ds` whose three cells are free. */
  function FirstFree(elves: set<Elf>, e: Elf, ds: seq<Direction>): Option<Elf>
  {
    if ds == [] then None
    else if Free(elves, e.Toward(ds[0])) then Some(e.Toward(ds[0])[0])
    else FirstFree(elves, e, ds[1..])
  }

  /** The proposal is the straight step toward the first free side of `ds`, and there is
      none when no side is free. */
  lemma {:induction false} FirstFreeMeaning(elves: set<Elf>, e: Elf, ds: seq<Direction>)
    ensures FirstFree(elves, e, ds).Some? ==>
              exists i :: 0 <= i < |ds| && Free(elves, e.Toward(ds[i])) && FirstFree(elves, e, ds).value == e.Step(ds[i])
                          && forall j :: 0 <= j < i ==> !Free(elves, e.Toward(ds[j]))
    ensures FirstFree(elves, e, ds).None? <==> forall i :: 0 <= i < |ds| ==> !Free(elves, e.Toward(ds[i]))
  {
    if ds != [] {
      TowardSide(e, ds[0]);
      FirstFreeMeaning(elves, e, ds[1..]);
      if !Free(elves, e.Toward(ds[0])) && FirstFree(elves, e, ds).Some? {
        var i :| 0 <= i < |ds[1..]| && Free(elves, e.Toward(ds[1..][i])) && FirstFree(elves, e, ds[1..]).value == e.Step(ds[1..][i])
                 && forall j :: 0 <= j < i ==> !Free(elves, e.Toward(ds[1..][j]));
        assert forall j :: 0 <= j < i + 1 ==> !Free(elves, e.Toward(ds[j])) by {
          forall j | 0 < j < i + 1 ensures !Free(elves, e.Toward(ds[j])) {
            assert ds[j] == ds[1..][j - 1];
          }
        }
        assert ds[i + 1] == ds[1..][i];
      }
      if FirstFree(elves, e, ds).None? {
        forall i | 0 <= i < |ds| ensures !Free(elves, e.Toward(ds[i])) {
          if i > 0 { assert ds[i] == ds[1..][i - 1]; }
        }
      }
    }
  }

  /** A free side's straight step is an unoccupied cell touching the elf. */
  lemma StepFree(elves: set<Elf>, e: Elf, d: Direction)
    requires Free(elves, e.Toward(d))
    ensures e.Step(d) !in elves && e.Adjacent(e.Step(d))
  {
    TowardSide(e, d);
    assert e.Toward(d)[0] == e.Step(d);
  }

  /** Every crowded elf that has a free side proposes the step toward it. */
  function Proposals(elves: set<Elf>, ds: seq<Direction>): map<Elf, Elf>
  {
    map e | e in elves && Crowded(elves, e) && FirstFree(elves, e, ds).Some? :: FirstFree(elves, e, ds).value
  }

  lemma ProposalsEq(elves: set<Elf>, ds: seq<Direction>, proposals: map<Elf, Elf>)
    requires forall k :: k in proposals <==> k in elves && Crowded(elves, k) && FirstFree(elves, k, ds).Some?
    requires forall k :: k in proposals ==> Some(proposals[k]) == FirstFree(elves, k, ds)
    ensures proposals == Proposals(elves, ds)
  {
    assert proposals.Keys == Proposals(elves, ds).Keys;
  }

  /** The proposals whose target no other elf chose. */
  function UniqueMoves(proposals: map<Elf, Elf>): (m: map<Elf, Elf>)
    ensures m.Keys <= proposals.Keys
    ensures forall k :: k in m ==> m[k] == proposals[k]
    ensures forall k :: k in proposals ==>
              (k in m <==> forall k' :: k' in proposals && proposals[k'] == proposals[k] ==> k' == k)
  {
    map k | k in proposals && (forall k' :: k' in proposals && proposals[k'] == proposals[k] ==> k' == k) :: proposals[k]
  }

  /** The moves of one round when the sides are tried starting at `d`. */
  function Moves(elves: set<Elf>, d: Direction): map<Elf, Elf>
  {
    UniqueMoves(Proposals(elves, DirectionsFrom(d)))
  }

  /** The targets of the given keys. */
  function Image(moves: map<Elf, Elf>, keys: set<Elf>): set<Elf>
    requires keys <= moves.Keys
  {
    set k | k in keys :: moves[k]
  }

  /** Moving one more elf: it leaves its cell, which no earlier target took, and enters
      its target. */
  lemma ApplyStep(elves: set<Elf>, moves: map<Elf, Elf>, done: set<Elf>, k: Elf)
    requires moves.Keys <= elves && moves.Values !! elves
    requires done <= moves.Keys && k in moves && k !in done
    ensures ((elves - done) + Image(moves, done)) - {k} + {moves[k]}
            == (elves - (done + {k})) + Image(moves, done + {k})
  {
    assert k !in Image(moves, done);
    assert Image(moves, done + {k}) == Image(moves, done) + {moves[k]};
  }

  lemma ImageAll(moves: map<Elf, Elf>)
    ensures Image(moves, moves.Keys) == moves.Values
  {
    forall v | v in moves.Values ensures v in Image(moves, moves.Keys) {
      var k :| k in moves && moves[k] == v;
    }
  }

  /** The elves after one round: the movers leave their cells for their targets. */
  function Round(elves: set<Elf>, d: Direction): set<Elf>
  {
    var m := Moves(elves, d);
    (elves - m.Keys) + m.Values
  }

  /** A move starts at a crowded elf and goes one straight step to a free cell touching it. */
  lemma MoveTarget(elves: set<Elf>, d: Direction, k: Elf)
    requires k in Moves(elves, d)
    ensures k in elves && Crowded(elves, k)
    ensures Moves(elves, d)[k] !in elves && k.Adjacent(Moves(elves, d)[k])
    ensures exists s :: Moves(elves, d)[k] == k.Step(s)
  {
    var ds := DirectionsFrom(d);
    var p := Proposals(elves, ds);
    assert k in p && Moves(elves, d)[k] == p[k];
    assert FirstFree(elves, k, ds) == Some(p[k]);
    FirstFreeMeaning(elves, k, ds);
    var i :| 0 <= i < |ds| && Free(elves, k.Toward(ds[i])) && p[k] == k.Step(ds[i]);
    StepFree(elves, k, ds[i]);
  }

  /** The movers are elves, and their targets are free cells. */
  lemma MovesValid(elves: set<Elf>, d: Direction)
    ensures Moves(elves, d).Keys <= elves && Moves(elves, d).Values !! elves
  {
    var m := Moves(elves, d);
    forall k | k in m ensures k in elves && m[k] !in elves {
      MoveTarget(elves, d, k);
    }
  }

  /** No two movers share a target. */
  lemma MovesInjective(elves: set<Elf>, d: Direction)
    ensures forall a, b :: a in Moves(elves, d) && b in Moves(elves, d) && Moves(elves, d)[a] == Moves(elves, d)[b] ==> a == b
  {
  }

  /** An injective map has as many values as keys. */
  lemma {:induction false} InjectiveValues(m: map<Elf, Elf>)
    requires forall a, b :: a in m && b in m && m[a] == m[b] ==> a == b
    ensures |m.Values| == |m.Keys|
    decreases |m.Keys|
  {
    if m.Keys != {} {
      var k :| k in m.Keys;
      var rest := m - {k};
      assert rest.Keys == m.Keys - {k};
      assert rest.Values == m.Values - {m[k]} by {
        forall v | v in m.Values - {m[k]} ensures v in rest.Values {
          var a :| a in m && m[a] == v;
          assert a in rest;
        }
      }
      InjectiveValues(rest);
    }
  }

  /** A round never changes the number of elves: movers leave distinct cells and enter
      distinct free ones. */
  lemma RoundKeepsCount(elves: set<Elf>, d: Direction)
    ensures |Round(elves, d)| == |elves|
  {
    var m := Moves(elves, d);
    forall k | k in m ensures k in elves && m[k] !in elves {
      MoveTarget(elves, d, k);
    }
    MovesInjective(elves, d);
    InjectiveValues(m);
    assert m.Keys <= elves;
    assert (elves - m.Keys) !! m.Values;
    assert |elves - m.Keys| == |elves| - |m.Keys|;
  }

  /** Some elf moves exactly when the round changes the elves. */
  lemma RoundChanges(elves: set<Elf>, d: Direction)
    ensures |Moves(elves, d)| > 0 <==> Round(elves, d) != elves
  {
    var m := Moves(elves, d);
    if |m| > 0 {
      var k :| k in m;
      MoveTarget(elves, d, k);
      forall v | v in m.Values ensures v != k {
        var a :| a in m && m[a] == v;
        MoveTarget(elves, d, a);
      }
      assert k !in Round(elves, d);
    } else {
      assert m.Keys == {};
      assert m.Values == {};
    }
  }

  /** What `MoveElves` needs about the moves it collected: they are the round's moves, each
      leaves an elf's cell for a free one, and some exist exactly when the round changes
      the elves. */
  lemma RoundStep(elves: set<Elf>, d: Direction, ds: seq<Direction>, proposals: map<Elf, Elf>, unique: map<Elf, Elf>)
    requires ds == DirectionsFrom(d) && proposals == Proposals(elves, ds) && unique == UniqueMoves(proposals)
    ensures unique == Moves(elves, d)
    ensures unique.Keys <= elves && unique.Values !! elves
    ensures Round(elves, d) == (elves - unique.Keys) + unique.Values
    ensures |unique| > 0 <==> Round(elves, d) != elves
    ensures |Round(elves, d)| == |elves|
  {
    MovesValid(elves, d);
    RoundChanges(elves, d);
    RoundKeepsCount(elves, d);
  }

  /** The cells after carrying out a round's moves are the round's result. */
  lemma RoundIs(elves: set<Elf>, d: Direction, unique: map<Elf, Elf>, after: set<Elf>)
    requires Round(elves, d) == (elves - unique.Keys) + unique.Values
    requires after == (elves - unique.Keys) + unique.Values
    ensures after == Round(elves, d)
  {
  }

  /** The elves marked `#` in row `row`, up to column |line|. */
  function RowElves(line: string, row: int): set<Elf>
  {
    if line == [] then {}
    else
      var col := |line| - 1;
      RowElves(line[..col], row) + (if line[col] == '#' then {Elf(col, row)} else {})
  }

  /** The elves of a map, one per `#`, at (column, row). */
  function ElvesIn(lines: seq<string>): set<Elf>
  {
    if lines == [] then {}
    else ElvesIn(lines[..|lines| - 1]) + RowElves(lines[|lines| - 1], |lines| - 1)
  }

  lemma {:induction false} RowElvesMeaning(line: string, row: int, e: Elf)
    ensures e in RowElves(line, row) <==> e.y == row && 0 <= e.x < |line| && line[e.x] == '#'
  {
    if line != [] {
      var col := |line| - 1;
      RowElvesMeaning(line[..col], row, e);
    }
  }

  /** An elf stands exactly on each `#` of the map. */
  lemma {:induction false} ElvesInMeaning(lines: seq<string>, e: Elf)
    ensures e in ElvesIn(lines) <==> 0 <= e.y < |lines| && 0 <= e.x < |lines[e.y]| && lines[e.y][e.x] == '#'
  {
    if lines != [] {
      var n := |lines| - 1;
      ElvesInMeaning(lines[..n], e);
      RowElvesMeaning(lines[n], n, e);
    }
  }

  /** The bounding box of a set of elves, corners inclusive. */
  datatype Box = Box(xMin: int, yMin: int, xMax: int, yMax: int)

  /** Every elf lies in the box and each side of the box touches an elf. */
  predicate Tight(elves: set<Elf>, b: Box)
  {
    (forall e :: e in elves ==> b.xMin <= e.x <= b.xMax && b.yMin <= e.y <= b.yMax)
    && (exists e :: e in elves && e.x == b.xMin) && (exists e :: e in elves && e.x == b.xMax)
    && (exists e :: e in elves && e.y == b.yMin) && (exists e :: e in elves && e.y == b.yMax)
  }

  /** The cells (x0 .. x0 + w - 1, y). */
  function RowCells(x0: int, w: nat, y: int): (r: set<Elf>)
    ensures |r| == w
    ensures forall c :: c in r <==> c.y == y && x0 <= c.x < x0 + w
  {
    if w == 0 then {} else RowCells(x0, w - 1, y) + {Elf(x0 + w - 1, y)}
  }

  /** The cells of a w by h rectangle with corner (x0, y0). */
  function RectCells(x0: int, w: nat, y0: int, h: nat): (r: set<Elf>)
    ensures |r| == w * h
    ensures forall c :: c in r <==> x0 <= c.x < x0 + w && y0 <= c.y < y0 + h
  {
    if h == 0 then {}
    else
      var front := RectCells(x0, w, y0, h - 1);
      var row := RowCells(x0, w, y0 + h - 1);
      assert front !! row;
      assert |front + row| == |front| + |row|;
      front + row
  }

  /** The box holds at least as many tiles as there are elves in it. */
  lemma BoxHoldsElves(elves: set<Elf>, b: Box)
    requires Tight(elves, b)
    ensures b.xMin <= b.xMax && b.yMin <= b.yMax
    ensures (b.xMax - b.xMin + 1) * (b.yMax - b.yMin + 1) >= |elves|
  {
    var e :| e in elves && e.x == b.xMin;
    var w, h := b.xMax - b.xMin + 1, b.yMax - b.yMin + 1;
    var rect := RectCells(b.xMin, w, b.yMin, h);
    assert elves <= rect;
    SubsetCount(elves, rect);
  }

  lemma {:induction false} SubsetCount(a: set<Elf>, b: set<Elf>)
    requires a <= b
    ensures |a| <= |b|
    decreases |a|
  {
    if a != {} {
      var x :| x in a;
      SubsetCount(a - {x}, b - {x});
    }
  }

  class Grove
  {
    var elves: set<Elf>
    var direction: Direction
    var rounds: int

    /** `Grove`: an elf on every `#` of the map, the first side tried being north. */
    constructor(lines: seq<string>)
      ensures elves == ElvesIn(lines) && direction == North && rounds == 0
    {
      var cells: set<Elf> := {};
      var row := 0;
      while row < |lines|
        invariant 0 <= row <= |lines|
        invariant cells == ElvesIn(lines[..row])
      {
        assert lines[..row + 1][..row] == lines[..row];
        var line := lines[row];
        ghost var before := cells;
        var col := 0;
        while col < |line|
          invariant 0 <= col <= |line|
          invariant cells == before + RowElves(line[..col], row)
        {
          assert line[..col + 1][..col] == line[..col];
          if line[col] == '#' {
            cells := cells + {Elf(col, row)};
          }
          col := col + 1;
        }
        assert line[..col] == line;
        row := row + 1;
      }
      assert lines[..row] == lines;
      elves := cells;
      direction := North;
      rounds := 0;
    }

    /** `Directions`: the four sides, the current one first. */
    method Directions() returns (ds: seq<Direction>)
      ensures ds == DirectionsFrom(direction)
    {
      AdvanceCycle(direction);
      var d := direction;
      ds := [d];
      d := NextDirection(d);
      while d != direction
        invariant 1 <= |ds| <= 4
        invariant ds == DirectionsFrom(direction)[..|ds|]
        invariant d == Advance(direction, |ds|)
        decreases 4 - |ds|
      {
        ds := ds + [d];
        d := NextDirection(d);
      }
    }

    /** The inner `foreach` over the sides: the step toward the first free one. */
    method Propose(e: Elf, ds: seq<Direction>) returns (target: Option<Elf>)
      ensures target == FirstFree(elves, e, ds)
    {
      var i := 0;
      while i < |ds|
        invariant 0 <= i <= |ds|
        invariant FirstFree(elves, e, ds) == FirstFree(elves, e, ds[i..])
      {
        assert ds[i..][1..] == ds[i + 1..];
        assert ds[i..][0] == ds[i];
        var cells := e.Toward(ds[i]);
        if Free(elves, cells) {
          return Some(cells[0]);
        }
        i := i + 1;
      }
      return None;
    }

    /** The proposals of all crowded elves, collected elf by elf. */
    method CollectProposals(ds: seq<Direction>) returns (proposals: map<Elf, Elf>)
      ensures proposals == Proposals(elves, ds)
    {
      proposals := map[];
      var rest := elves;
      while rest != {}
        invariant rest <= elves
        invariant forall k :: k in proposals <==> k in elves - rest && Crowded(elves, k) && FirstFree(elves, k, ds).Some?
        invariant forall k :: k in proposals ==> Some(proposals[k]) == FirstFree(elves, k, ds)
        decreases |rest|
      {
        var e :| e in rest;
        if Crowded(elves, e) {
          var target := Propose(e, ds);
          if target.Some? {
            proposals := proposals[e := target.value];
          }
        }
        rest := rest - {e};
      }
      ProposalsEq(elves, ds, proposals);
    }

    /** The `foreach` over the unique proposals: each mover leaves its cell and enters its
        target; the targets are free cells, so the order does not matter. */
    method ApplyMoves(moves: map<Elf, Elf>)
      requires moves.Keys <= elves && moves.Values !! elves
      modifies this
      ensures elves == (old(elves) - moves.Keys) + moves.Values
      ensures direction == old(direction) && rounds == old(rounds)
    {
      var rest := moves.Keys;
      while rest != {}
        invariant rest <= moves.Keys
        invariant elves == (old(elves) - (moves.Keys - rest)) + Image(moves, moves.Keys - rest)
        invariant direction == old(direction) && rounds == old(rounds)
        decreases |rest|
      {
        var k :| k in rest;
        ApplyStep(old(elves), moves, moves.Keys - rest, k);
        elves := elves - {k};
        elves := elves + {moves[k]};
        assert moves.Keys - (rest - {k}) == (moves.Keys - rest) + {k};
        rest := rest - {k};
      }
      assert moves.Keys - rest == moves.Keys;
      ImageAll(moves);
    }

    /** `MoveElves`: one round; the next round starts with the next side. Returns whether
        any elf moved. */
    method MoveElves() returns (moved: bool)
      modifies this
      ensures elves == Round(old(elves), old(direction))
      ensures direction == NextDirection(old(direction)) && rounds == old(rounds) + 1
      ensures moved <==> |Moves(old(elves), old(direction))| > 0
      ensures moved <==> elves != old(elves)
      ensures |elves| == |old(elves)|
    {
      ghost var e0, d0 := elves, direction;
      var ds := Directions();
      // The sides were read above; the next round starts with the next side.
      direction := NextDirection(direction);
      rounds := rounds + 1;
      var proposals := CollectProposals(ds);
      assert elves == e0;
      var unique := UniqueMoves(proposals);
      RoundStep(e0, d0, ds, proposals, unique);
      ApplyMoves(unique);
      RoundIs(e0, d0, unique, elves);
      moved := |unique| > 0;
    }

    /** `CountEmptyTiles`: the tiles of the elves' bounding box that hold no elf; `Min`
        over no elves fails. */
    method CountEmptyTiles() returns (r: Result<int>)
      ensures r.Err? <==> elves == {}
      ensures r.Ok? ==> exists b :: Tight(elves, b) && r.value == (b.xMax - b.xMin + 1) * (b.yMax - b.yMin + 1) - |elves|
      ensures r.Ok? ==> r.value >= 0
    {
      if elves == {} {
        return Err("Sequence contains no elements");
      }
      var first :| first in elves;
      var b := Box(first.x, first.y, first.x, first.y);
      var seen := {first};
      while seen != elves
        invariant first in seen && seen <= elves
        invariant Tight(seen, b)
        decreases |elves - seen|
      {
        var e :| e in elves - seen;
        b := Box(Min(b.xMin, e.x), Min(b.yMin, e.y), Max(b.xMax, e.x), Max(b.yMax, e.y));
        seen := seen + {e};
      }
      BoxHoldsElves(elves, b);
      var size := (b.xMax - b.xMin + 1) * (b.yMax - b.yMin + 1);
      return Ok(size - |elves|);
    }
  }

  /** The elves after `n` rounds, the first one proposing from direction `d`. */
  function AfterRounds(elves: set<Elf>, d: Direction, n: nat): set<Elf>
  {
    if n == 0 then elves else Round(AfterRounds(elves, d, n - 1), Advance(d, n - 1))
  }

  /** One call of `MoveElves` extends the rounds played so far by one. */
  method NextRound(grove: Grove, ghost elves0: set<Elf>, ghost d0: Direction, ghost i: nat) returns (moved: bool)
    requires grove.elves == AfterRounds(elves0, d0, i) && grove.direction == Advance(d0, i)
    modifies grove
    ensures grove.elves == AfterRounds(elves0, d0, i + 1) && grove.direction == Advance(d0, i + 1)
    ensures |grove.elves| == |old(grove.elves)| && grove.rounds == old(grove.rounds) + 1
    ensures moved <==> RoundMoved(elves0, d0, i + 1)
  {
    moved := grove.MoveElves();
  }

  /** `n` calls of `MoveElves`. */
  method RunRounds(grove: Grove, n: nat)
    modifies grove
    ensures grove.elves == AfterRounds(old(grove.elves), old(grove.direction), n)
    ensures grove.direction == Advance(old(grove.direction), n)
    ensures |grove.elves| == |old(grove.elves)| && grove.rounds == old(grove.rounds) + n
  {
    var i := 0;
    while i < n
      invariant 0 <= i <= n
      invariant grove.elves == AfterRounds(old(grove.elves), old(grove.direction), i)
      invariant grove.direction == Advance(old(grove.direction), i)
      invariant |grove.elves| == |old(grove.elves)| && grove.rounds == old(grove.rounds) + i
    {
      var _ := NextRound(grove, old(grove.elves), old(grove.direction), i);
      i := i + 1;
    }
  }

  /** The rounds played before the empty tiles are counted. */
  const CountedRounds: nat := 10

  /** `ComputeSolution1`: the empty tiles after ten rounds. */
  method ComputeSolution1(grove: Grove) returns (r: Result<int>)
    modifies grove
    ensures grove.elves == AfterRounds(old(grove.elves), old(grove.direction), CountedRounds)
    ensures |grove.elves| == |old(grove.elves)| && grove.rounds == old(grove.rounds) + CountedRounds
    ensures r.Err? <==> grove.elves == {}
    ensures r.Ok? ==> r.value >= 0
    ensures r.Ok? ==> exists b :: Tight(grove.elves, b) && r.value == (b.xMax - b.xMin + 1) * (b.yMax - b.yMin + 1) - |grove.elves|
  {
    RunRounds(grove, CountedRounds);
    r := grove.CountEmptyTiles();
  }

  /** `ComputeSolution2`: rounds until one in which no elf moves, that round included;
      None when that does not happen within `maxRounds` rounds. `n` rounds are played. */
  method ComputeSolution2(grove: Grove, maxRounds: nat) returns (r: Option<int>, ghost n: nat)
    modifies grove
    ensures |grove.elves| == |old(grove.elves)|
    ensures n <= maxRounds && grove.rounds == old(grove.rounds) + n
    ensures grove.elves == AfterRounds(old(grove.elves), old(grove.direction), n)
    ensures r.Some? ==> r.value == grove.rounds && 1 <= n
                        && !RoundMoved(old(grove.elves), old(grove.direction), n)
                        && exists d :: NextDirection(d) == grove.direction && |Moves(grove.elves, d)| == 0
    ensures r.None? ==> n == maxRounds
  {
    var moved := true;
    var i := 0;
    n := 0;
    while moved && i < maxRounds
      invariant n == i <= maxRounds
      invariant |grove.elves| == |old(grove.elves)| && grove.rounds == old(grove.rounds) + n
      invariant grove.elves == AfterRounds(old(grove.elves), old(grove.direction), n)
      invariant grove.direction == Advance(old(grove.direction), n)
      invariant !moved ==> 1 <= n && !RoundMoved(old(grove.elves), old(grove.direction), n)
    {
      moved := NextRound(grove, old(grove.elves), old(grove.direction), n);
      i, n := i + 1, n + 1;
    }
    if moved {
      r := None;
    } else {
      SettledAfter(old(grove.elves), old(grove.direction), n);
      r := Some(grove.rounds);
    }
  }

  /** Round `k` (counted from one) had a unique proposal, which is what `MoveElves` reports. */
  ghost predicate RoundMoved(elves: set<Elf>, d: Direction, k: nat)
    requires k >= 1
  {
    |Moves(AfterRounds(elves, d, k - 1), Advance(d, k - 1))| > 0
  }

  /** A round reports a move exactly when it changes the elves. */
  lemma RoundMovedMeaning(elves: set<Elf>, d: Direction, k: nat)
    requires k >= 1
    ensures RoundMoved(elves, d, k) <==> AfterRounds(elves, d, k) != AfterRounds(elves, d, k - 1)
  {
    RoundChanges(AfterRounds(elves, d, k - 1), Advance(d, k - 1));
  }

  /** After a round without a move, the same round played again would have no move either. */
  lemma SettledAfter(elves: set<Elf>, d: Direction, n: nat)
    requires n >= 1 && !RoundMoved(elves, d, n)
    ensures NextDirection(Advance(d, n - 1)) == Advance(d, n)
    ensures |Moves(AfterRounds(elves, d, n), Advance(d, n - 1))| == 0
  {
    RoundMovedMeaning(elves, d, n);
  }
}
