/** Day 22, "Monkey Map": a board of open tiles and walls with void around it, walked
    along a path of turns and step counts; a step off the board or into the void
    wraps round to the far side of the same row or column, and a wall ends the
    current run of steps. */
module Day22 {
  import opened Common

  datatype Tile = Void | Open | Wall

  /** The board's reading of a scan character. */
  function TileOf(ch: char): (t: Tile)
    ensures t == Open <==> ch == '.'
    ensures t == Wall <==> ch == '#'
  {
    match ch
    case '.' => Open
    case '#' => Wall
    case _ => Void
  }

  datatype Facing = Right | Down | Left | Up
  {
    /** The enum value, also the facing's share of the password. */
    function Value(): nat
    {
      match this
      case Right => 0
      case Down => 1
      case Left => 2
      case Up => 3
    }
  }

  /** The facing with enum value `v`. */
  function FacingOf(v: nat): (f: Facing)
    requires v < 4
    ensures f.Value() == v
  {
    if v == 0 then Right else if v == 1 then Down else if v == 2 then Left else Up
  }

  /** A clockwise quarter turn: the next enum value, with Up back to Right. */
  function TurnRight(f: Facing): (r: Facing)
    ensures r.Value() == (f.Value() + 1) % 4
  {
    if f == Up then Right else FacingOf(f.Value() + 1)
  }

  /** An anticlockwise quarter turn: the previous enum value, with Right back to Up. */
  function TurnLeft(f: Facing): (r: Facing)
    ensures r.Value() == (f.Value() + 3) % 4
  {
    if f == Right then Up else FacingOf(f.Value() - 1)
  }

  /** The two turns undo each other, and four right turns are no turn at all. */
  lemma TurnsCancel(f: Facing)
    ensures TurnLeft(TurnRight(f)) == f && TurnRight(TurnLeft(f)) == f
    ensures TurnRight(TurnRight(TurnRight(TurnRight(f)))) == f
  {
  }

  datatype Position = Position(row: int, column: int, facing: Facing)

  /** The final password: 1000 per row, 4 per column (both counted from one), plus
      the facing. */
  function Password(p: Position): int
  {
    1000 * (p.row + 1) + 4 * (p.column + 1) + p.facing.Value()
  }

  /** On a board less than 250 columns wide the password determines the position. */
  lemma PasswordDecodes(p: Position)
    requires p.row >= 0 && 0 <= p.column < 249
    ensures Password(p) / 1000 == p.row + 1
    ensures (Password(p) % 1000) / 4 == p.column + 1
    ensures Password(p) % 4 == p.facing.Value()
  {
    var low := 4 * (p.column + 1) + p.facing.Value();
    ModUnique(Password(p), 1000, p.row + 1, low);
    ModUnique(low, 4, p.column + 1, p.facing.Value());
    ModUnique(Password(p), 4, 250 * (p.row + 1) + p.column + 1, p.facing.Value());
  }

  /** One token of the path: a turn, or a number of steps forward. */
  datatype Move = R | L | Forward(steps: nat)

  /** The tile a scan shows at row `r`, column `c`: past the end of a line there is
      void. */
  function TileAt(scan: seq<string>, r: nat, c: nat): Tile
    requires r < |scan|
  {
    if c < |scan[r]| then TileOf(scan[r][c]) else Void
  }

  /** The length of the longest line. */
  function MaxLength(scan: seq<string>): (w: nat)
    ensures forall r :: 0 <= r < |scan| ==> |scan[r]| <= w
    ensures scan != [] ==> exists r :: 0 <= r < |scan| && |scan[r]| == w
  {
    if scan == [] then 0
    else
      var w := MaxLength(scan[..|scan| - 1]);
      assert forall r :: 0 <= r < |scan| - 1 ==> scan[r] == scan[..|scan| - 1][r];
      if |scan[|scan| - 1]| > w then |scan[|scan| - 1]| else w
  }

  /** `(r1, c1)` comes strictly before `(r2, c2)` in row-major order. */
  predicate Before(r1: int, c1: int, r2: int, c2: int)
  {
    r1 < r2 || (r1 == r2 && c1 < c2)
  }

  ghost predicate HasOpen(scan: seq<string>)
  {
    exists r: nat, c: nat :: r < |scan| && c < |scan[r]| && TileAt(scan, r, c) == Open
  }

  /** `p` is the first open tile of the scan in row-major order, facing right. */
  ghost predicate IsStart(scan: seq<string>, p: Position)
  {
    p.facing == Right && 0 <= p.row < |scan| && 0 <= p.column < |scan[p.row]| &&
    TileAt(scan, p.row, p.column) == Open &&
    forall r: nat, c: nat :: r < |scan| && c < |scan[r]| && Before(r, c, p.row, p.column) ==> TileAt(scan, r, c) != Open
  }

  class Map {
    const width: int
    const height: int
    const tiles: array2<Tile>
    var position: Position

    /** The board has the size it claims. */
    ghost predicate Shape()
    {
      tiles.Length0 == height && tiles.Length1 == width
    }

    /** `p` lies on the board, on a tile that is not void. */
    ghost predicate OnBoard(p: Position)
      reads tiles
    {
      Shape() && 0 <= p.row < height && 0 <= p.column < width && tiles[p.row, p.column] != Void
    }

    /** The walker stands on an open tile. */
    ghost predicate Valid()
      reads this, tiles
    {
      OnBoard(position) && tiles[position.row, position.column] == Open
    }

    /** Builds the board from the scan lines: `width` is the longest line, every
        cell the scan does not cover is void, and the walker starts on the first open
        tile facing right (or at the top-left corner when there is none). The source
        reads the longest line of an empty scan, which fails, hence the
        precondition. */
    constructor(scan: seq<string>)
      requires |scan| > 0
      ensures width == MaxLength(scan) && height == |scan| && Shape() && fresh(tiles)
      ensures forall r, c :: 0 <= r < height && 0 <= c < width ==> tiles[r, c] == TileAt(scan, r, c)
      ensures HasOpen(scan) ==> IsStart(scan, position) && Valid()
      ensures !HasOpen(scan) ==> position == Position(0, 0, Right)
    {
      var w := MaxLength(scan);
      var h := |scan|;
      var m := new Tile[h, w]((r, c) => Void);
      var start := Position(0, 0, Right);
      var found := false;
      for row := 0 to h
        invariant forall r, c :: 0 <= r < h && 0 <= c < w ==> m[r, c] == (if r < row then TileAt(scan, r, c) else Void)
        invariant found ==> IsStart(scan, start) && start.row < row
        invariant !found ==> start == Position(0, 0, Right)
        invariant !found ==> forall r: nat, c: nat :: r < row && c < |scan[r]| ==> TileAt(scan, r, c) != Open
      {
        var line := scan[row];
        for col := 0 to |line|
          invariant forall r, c :: 0 <= r < h && 0 <= c < w ==>
            m[r, c] == (if r < row || (r == row && c < col) then TileAt(scan, r, c) else Void)
          invariant found ==> IsStart(scan, start) && start.row <= row
          invariant !found ==> start == Position(0, 0, Right)
          invariant !found ==> forall r: nat, c: nat :: r < |scan| && c < |scan[r]| && Before(r, c, row, col) ==> TileAt(scan, r, c) != Open
        {
          m[row, col] := TileOf(line[col]);
          if !found && m[row, col] == Open {
            start := Position(row, col, Right);
            found := true;
          }
        }
      }
      width := w;
      height := h;
      tiles := m;
      position := start;
      new;
      if HasOpen(scan) {
        var r: nat, c: nat :| r < |scan| && c < |scan[r]| && TileAt(scan, r, c) == Open;
        assert found;
        assert tiles[start.row, start.column] == TileAt(scan, start.row, start.column);
      }
    }

    /** The first column in `[from, limit)` of row `r` that is not void, or `limit`
        when there is none. */
    function FirstInRow(r: int, from: int, limit: int): (c: int)
      requires Shape() && 0 <= r < height && 0 <= from <= limit <= width
      reads tiles
      ensures from <= c <= limit
      ensures c < limit ==> tiles[r, c] != Void
      ensures forall k :: from <= k < c ==> tiles[r, k] == Void
      decreases limit - from
    {
      if from == limit || tiles[r, from] != Void then from else FirstInRow(r, from + 1, limit)
    }

    /** The last column in `(bound, width)` of row `r` that is not void, or `bound`
        when there is none. */
    function LastInRow(r: int, bound: int, top: int): (c: int)
      requires Shape() && 0 <= r < height && -1 <= bound < top <= width
      reads tiles
      ensures bound <= c < top
      ensures c > bound ==> tiles[r, c] != Void
      ensures forall k :: c < k < top ==> tiles[r, k] == Void
      decreases top - bound
    {
      if top - 1 == bound || tiles[r, top - 1] != Void then top - 1 else LastInRow(r, bound, top - 1)
    }

    /** The first row in `[from, limit)` of column `c` that is not void, or `limit`. */
    function FirstInColumn(c: int, from: int, limit: int): (r: int)
      requires Shape() && 0 <= c < width && 0 <= from <= limit <= height
      reads tiles
      ensures from <= r <= limit
      ensures r < limit ==> tiles[r, c] != Void
      ensures forall k :: from <= k < r ==> tiles[k, c] == Void
      decreases limit - from
    {
      if from == limit || tiles[from, c] != Void then from else FirstInColumn(c, from + 1, limit)
    }

    /** The last row in `(bound, height)` of column `c` that is not void, or `bound`. */
    function LastInColumn(c: int, bound: int, top: int): (r: int)
      requires Shape() && 0 <= c < width && -1 <= bound < top <= height
      reads tiles
      ensures bound <= r < top
      ensures r > bound ==> tiles[r, c] != Void
      ensures forall k :: r < k < top ==> tiles[k, c] == Void
      decreases top - bound
    {
      if top - 1 == bound || tiles[top - 1, c] != Void then top - 1 else LastInColumn(c, bound, top - 1)
    }

    /** The tile one step to the right of `p`: the next column if it is on the board
        and not void, otherwise the first non-void tile of the row, counted from the
        left edge. */
    function RightOf(p: Position): (q: Position)
      requires OnBoard(p)
      reads tiles
      ensures OnBoard(q) && q.row == p.row && q.facing == p.facing
      ensures p.column + 1 < width && tiles[p.row, p.column + 1] != Void ==> q.column == p.column + 1
      ensures p.column + 1 >= width || tiles[p.row, p.column + 1] == Void ==>
        forall k :: 0 <= k < q.column ==> tiles[p.row, k] == Void
    {
      var col := p.column + 1;
      if col >= width || tiles[p.row, col] == Void then p.(column := FirstInRow(p.row, 0, col))
      else p.(column := col)
    }

    /** The tile one step to the left of `p`, wrapping to the last non-void tile of
        the row. */
    function LeftOf(p: Position): (q: Position)
      requires OnBoard(p)
      reads tiles
      ensures OnBoard(q) && q.row == p.row && q.facing == p.facing
      ensures p.column - 1 >= 0 && tiles[p.row, p.column - 1] != Void ==> q.column == p.column - 1
      ensures p.column - 1 < 0 || tiles[p.row, p.column - 1] == Void ==>
        forall k :: q.column < k < width ==> tiles[p.row, k] == Void
    {
      var col := p.column - 1;
      if col < 0 || tiles[p.row, col] == Void then p.(column := LastInRow(p.row, col, width))
      else p.(column := col)
    }

    /** The tile one step below `p`, wrapping to the first non-void tile of the
        column, counted from the top edge. */
    function BelowOf(p: Position): (q: Position)
      requires OnBoard(p)
      reads tiles
      ensures OnBoard(q) && q.column == p.column && q.facing == p.facing
      ensures p.row + 1 < height && tiles[p.row + 1, p.column] != Void ==> q.row == p.row + 1
      ensures p.row + 1 >= height || tiles[p.row + 1, p.column] == Void ==>
        forall k :: 0 <= k < q.row ==> tiles[k, p.column] == Void
    {
      var row := p.row + 1;
      if row >= height || tiles[row, p.column] == Void then p.(row := FirstInColumn(p.column, 0, row))
      else p.(row := row)
    }

    /** The tile one step above `p`, wrapping to the last non-void tile of the
        column. */
    function AboveOf(p: Position): (q: Position)
      requires OnBoard(p)
      reads tiles
      ensures OnBoard(q) && q.column == p.column && q.facing == p.facing
      ensures p.row - 1 >= 0 && tiles[p.row - 1, p.column] != Void ==> q.row == p.row - 1
      ensures p.row - 1 < 0 || tiles[p.row - 1, p.column] == Void ==>
        forall k :: q.row < k < height ==> tiles[k, p.column] == Void
    {
      var row := p.row - 1;
      if row < 0 || tiles[row, p.column] == Void then p.(row := LastInColumn(p.column, row, height))
      else p.(row := row)
    }

    /** The tile one step ahead of `p` in its facing. */
    function Ahead(p: Position): (q: Position)
      requires OnBoard(p)
      reads tiles
      ensures OnBoard(q) && q.facing == p.facing
    {
      match p.facing
      case Right => RightOf(p)
      case Down => BelowOf(p)
      case Left => LeftOf(p)
      case Up => AboveOf(p)
    }

    /** Where `n` steps forward from `p` end: each step moves ahead unless the tile
        ahead is a wall, and then the walker stays put. */
    function Advance(p: Position, n: nat): (q: Position)
      requires OnBoard(p) && tiles[p.row, p.column] == Open
      reads tiles
      ensures OnBoard(q) && tiles[q.row, q.column] == Open && q.facing == p.facing
    {
      if n == 0 then p
      else
        var prev := Advance(p, n - 1);
        var next := Ahead(prev);
        if tiles[next.row, next.column] == Wall then prev else next
    }

    /** Once the tile ahead is a wall, further steps do not move the walker: a wall
        ends the run of steps. */
    lemma {:induction false} Blocked(p: Position, i: nat, n: nat)
      requires OnBoard(p) && tiles[p.row, p.column] == Open && i <= n
      requires var at := Advance(p, i); var next := Ahead(at); tiles[next.row, next.column] == Wall
      ensures Advance(p, n) == Advance(p, i)
      decreases n
    {
      if n > i {
        Blocked(p, i, n - 1);
      }
    }

    /** The position after one move. */
    function Apply(p: Position, m: Move): (q: Position)
      requires OnBoard(p) && tiles[p.row, p.column] == Open
      reads tiles
      ensures OnBoard(q) && tiles[q.row, q.column] == Open
    {
      match m
      case R => p.(facing := TurnRight(p.facing))
      case L => p.(facing := TurnLeft(p.facing))
      case Forward(n) => Advance(p, n)
    }

    /** The position after a sequence of moves. */
    function Walk(p: Position, moves: seq<Move>): (q: Position)
      requires OnBoard(p) && tiles[p.row, p.column] == Open
      reads tiles
      ensures OnBoard(q) && tiles[q.row, q.column] == Open
    {
      if moves == [] then p else Apply(Walk(p, moves[..|moves| - 1]), moves[|moves| - 1])
    }

    method TileOnTheRight() returns (p: Position)
      requires OnBoard(position)
      ensures p == RightOf(position)
    {
      var col := position.column + 1;
      if col >= width || tiles[position.row, col] == Void {
        for c := 0 to col
          invariant col == position.column + 1
          invariant forall k :: 0 <= k < c ==> tiles[position.row, k] == Void
        {
          if tiles[position.row, c] != Void {
            col := c;
            break;
          }
        }
      }
      return position.(column := col);
    }

    method TileOnTheLeft() returns (p: Position)
      requires OnBoard(position)
      ensures p == LeftOf(position)
    {
      var col := position.column - 1;
      if col < 0 || tiles[position.row, col] == Void {
        var c := width - 1;
        while c > col
          invariant col == position.column - 1 && col <= c < width
          invariant forall k :: c < k < width ==> tiles[position.row, k] == Void
        {
          if tiles[position.row, c] != Void {
            col := c;
            break;
          }
          c := c - 1;
        }
      }
      return position.(column := col);
    }

    method TileBelow() returns (p: Position)
      requires OnBoard(position)
      ensures p == BelowOf(position)
    {
      var row := position.row + 1;
      if row >= height || tiles[row, position.column] == Void {
        for r := 0 to row
          invariant row == position.row + 1
          invariant forall k :: 0 <= k < r ==> tiles[k, position.column] == Void
        {
          if tiles[r, position.column] != Void {
            row := r;
            break;
          }
        }
      }
      return position.(row := row);
    }

    method TileAbove() returns (p: Position)
      requires OnBoard(position)
      ensures p == AboveOf(position)
    {
      var row := position.row - 1;
      if row < 0 || tiles[row, position.column] == Void {
        var r := height - 1;
        while r > row
          invariant row == position.row - 1 && row <= r < height
          invariant forall k :: r < k < height ==> tiles[k, position.column] == Void
        {
          if tiles[r, position.column] != Void {
            row := r;
            break;
          }
          r := r - 1;
        }
      }
      return position.(row := row);
    }

    /** Takes up to `steps` steps forward, stopping in front of a wall. */
    method MoveForward(steps: nat)
      requires Valid()
      modifies this
      ensures Valid() && position == Advance(old(position), steps)
    {
      ghost var from := position;
      for k := 0 to steps
        invariant Valid()
        invariant position == Advance(from, k)
      {
        var candidate;
        match position.facing {
          case Right => candidate := TileOnTheRight();
          case Down => candidate := TileBelow();
          case Left => candidate := TileOnTheLeft();
          case Up => candidate := TileAbove();
        }
        assert candidate == Ahead(position);
        if tiles[candidate.row, candidate.column] == Wall {
          Blocked(from, k, steps);
          break;
        }
        assert Advance(from, k + 1) == candidate;
        position := candidate;
      }
    }

    /** Follows the moves from the current position and returns the password of
        where they end; the walker stays on open tiles throughout. */
    method FollowPath(moves: seq<Move>) returns (password: int)
      requires Valid()
      modifies this
      ensures Valid()
      ensures position == Walk(old(position), moves)
      ensures password == Password(position)
    {
      ghost var start := position;
      for i := 0 to |moves|
        invariant Valid()
        invariant position == Walk(start, moves[..i])
      {
        assert moves[..i + 1][..i] == moves[..i];
        var move := moves[i];
        ghost var before := position;
        if move == R {
          position := position.(facing := TurnRight(position.facing));
        } else if move == L {
          position := position.(facing := TurnLeft(position.facing));
        } else {
          MoveForward(move.steps);
        }
        assert position == Apply(before, move);
      }
      assert moves[..|moves|] == moves;
      password := Password(position);
    }
  }

  /** A line with nothing but white space ends the board. */
  predicate Blank(line: string)
  {
    Trim(line) == ""
  }

  /** The board lines: the lines before the first blank one. */
  function BoardLines(input: seq<string>): (scan: seq<string>)
    ensures |scan| <= |input| && scan == input[..|scan|]
    ensures forall i :: 0 <= i < |scan| ==> !Blank(scan[i])
    ensures |scan| < |input| ==> Blank(input[|scan|])
  {
    if input == [] || Blank(input[0]) then []
    else [input[0]] + BoardLines(input[1..])
  }

  const EmptyError := "Sequence contains no elements"

  /** Splits the puzzle input into the board lines and the path, the last line
      trimmed. The board is built first, and taking the longest line of an empty
      board fails. */
  function ParseInput(input: seq<string>): (r: Result<(seq<string>, string)>)
    ensures r.Err? <==> input == [] || Blank(input[0])
    ensures r.Err? ==> r.message == EmptyError
    ensures r.Ok? ==> r.value.0 == BoardLines(input) && r.value.0 != [] && r.value.1 == Trim(input[|input| - 1])
  {
    var scan := BoardLines(input);
    if scan == [] then Err(EmptyError) else Ok((scan, Trim(input[|input| - 1])))
  }

  /** The first open tile is unique. */
  lemma StartUnique(scan: seq<string>, p: Position, q: Position)
    requires IsStart(scan, p) && IsStart(scan, q)
    ensures p == q
  {
  }

  /** Part one: builds the board and follows the path from the start; the
      password is that of the walk's end. */
  method ComputeSolution1(scan: seq<string>, moves: seq<Move>) returns (password: int, board: Map)
    requires |scan| > 0 && HasOpen(scan)
    ensures fresh(board) && board.Valid() && password == Password(board.position)
    ensures board.width == MaxLength(scan) && board.height == |scan|
    ensures forall r, c :: 0 <= r < board.height && 0 <= c < board.width ==> board.tiles[r, c] == TileAt(scan, r, c)
    ensures exists start :: (IsStart(scan, start) && board.OnBoard(start) &&
      board.tiles[start.row, start.column] == Open && board.position == board.Walk(start, moves))
  {
    board := new Map(scan);
    ghost var start := board.position;
    password := board.FollowPath(moves);
  }
}
