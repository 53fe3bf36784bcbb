/** Day 09: a rope of knots on the integer grid. The head moves one step at a time and every
    other knot follows its predecessor when they no longer touch; the answer is the number
    of different positions of the last knot. */
module Day09 {
  import opened Common

  datatype Vector = Vector(x: int, y: int)

  datatype Knot = Knot(x: int, y: int)
  {
    /** `operator +`. */
    function Plus(v: Vector): Knot
    {
      Knot(x + v.x, y + v.y)
    }

    /** `DistanceTo(other) > 1.5`, decided on the squared distance: the square root of
        d exceeds 1.5 exactly when 4 * d exceeds 9. */
    predicate FarFrom(other: Knot)
    {
      4 * ((x - other.x) * (x - other.x) + (y - other.y) * (y - other.y)) > 9
    }

    /** `StepToward`: the sign of each coordinate difference. */
    function StepToward(other: Knot): (v: Vector)
      ensures -1 <= v.x <= 1 && -1 <= v.y <= 1
      ensures v.x == Sign(other.x - x) && v.y == Sign(other.y - y)
    {
      Vector(Sign(other.x - x), Sign(other.y - y))
    }
  }

  /** Both coordinates differ by at most one (the knots overlap or are neighbours). */
  predicate Touching(a: Knot, b: Knot)
  {
    Abs(a.x - b.x) <= 1 && Abs(a.y - b.y) <= 1
  }

  /** Both coordinates differ by at most two. */
  predicate Near(a: Knot, b: Knot)
  {
    Abs(a.x - b.x) <= 2 && Abs(a.y - b.y) <= 2
  }

  predicate IsKingStep(v: Vector)
  {
    -1 <= v.x <= 1 && -1 <= v.y <= 1
  }

  /** For integer coordinates the distance exceeds 1.5 exactly when the knots do not touch. */
  lemma FarIffNotTouching(a: Knot, b: Knot)
    ensures a.FarFrom(b) <==> !Touching(a, b)
  {
    var dx, dy := a.x - b.x, a.y - b.y;
    if Abs(dx) >= 2 {
      assert dx * dx >= 4 by { MultiplyAtLeast(Abs(dx), 2); }
    } else if Abs(dy) >= 2 {
      assert dy * dy >= 4 by { MultiplyAtLeast(Abs(dy), 2); }
    } else {
      assert dx * dx <= 1 && dy * dy <= 1;
    }
  }

  lemma MultiplyAtLeast(a: nat, b: nat)
    requires a >= b
    ensures a * a >= b * b
  {
  }

  /** The new position of `tail` behind `head`. */
  function Follow(head: Knot, tail: Knot): Knot
  {
    if tail.FarFrom(head) then tail.Plus(tail.StepToward(head)) else tail
  }

  /** A knot that was at most two away follows into touching distance, moving at most one
      step in each coordinate. */
  lemma FollowTouches(head: Knot, tail: Knot)
    requires Near(head, tail)
    ensures Touching(head, Follow(head, tail))
    ensures Near(Follow(head, tail), tail) && Touching(Follow(head, tail), tail)
  {
    FarIffNotTouching(tail, head);
  }

  /** The knots from index i on follow their predecessors one after the other. */
  function PullFrom(knots: seq<Knot>, i: nat): (r: seq<Knot>)
    requires 1 <= i
    ensures |r| == |knots|
    ensures forall j :: 0 <= j < i && j < |knots| ==> r[j] == knots[j]
    decreases |knots| - i
  {
    if i >= |knots| then knots
    else PullFrom(knots[i := Follow(knots[i - 1], knots[i])], i + 1)
  }

  /** One move of the head, followed by the rest of the rope. */
  function StepRope(knots: seq<Knot>, v: Vector): (r: seq<Knot>)
    requires |knots| >= 1
    ensures |r| == |knots| && r[0] == knots[0].Plus(v)
  {
    PullFrom(knots[0 := knots[0].Plus(v)], 1)
  }

  /** Every knot touches its predecessor. */
  predicate AllTouching(knots: seq<Knot>)
  {
    forall j :: 1 <= j < |knots| ==> Touching(knots[j - 1], knots[j])
  }

  /** Pulling from index i leaves every knot touching its predecessor, when the knots before
      i already touch, knot i is at most two away and the knots behind it touch. */
  lemma {:induction false} PullTouching(knots: seq<Knot>, i: nat)
    requires 1 <= i <= |knots|
    requires forall j :: 1 <= j < i ==> Touching(knots[j - 1], knots[j])
    requires i < |knots| ==> Near(knots[i - 1], knots[i])
    requires forall j :: i < j < |knots| ==> Touching(knots[j - 1], knots[j])
    ensures AllTouching(PullFrom(knots, i))
    decreases |knots| - i
  {
    if i < |knots| {
      var moved := Follow(knots[i - 1], knots[i]);
      FollowTouches(knots[i - 1], knots[i]);
      var next := knots[i := moved];
      if i + 1 < |knots| {
        assert Touching(knots[i], knots[i + 1]);
        assert Near(next[i], next[i + 1]);
      }
      PullTouching(next, i + 1);
    }
  }

  /** A king step of the head keeps the whole rope touching. */
  lemma StepRopeTouching(knots: seq<Knot>, v: Vector)
    requires |knots| >= 1 && AllTouching(knots) && IsKingStep(v)
    ensures AllTouching(StepRope(knots, v))
  {
    var moved := knots[0 := knots[0].Plus(v)];
    if |knots| > 1 {
      assert Touching(knots[0], knots[1]);
      assert Near(moved[0], moved[1]);
    }
    PullTouching(moved, 1);
  }

  /** The rope after each of the moves in turn. */
  function RopeAfter(knots: seq<Knot>, moves: seq<Vector>): (r: seq<Knot>)
    requires |knots| >= 1
    ensures |r| == |knots|
  {
    if moves == [] then knots
    else StepRope(RopeAfter(knots, moves[..|moves| - 1]), moves[|moves| - 1])
  }

  /** The positions of the last knot after each of the moves. */
  function Trail(knots: seq<Knot>, moves: seq<Vector>): set<Knot>
    requires |knots| >= 1
  {
    if moves == [] then {}
    else
      var r := RopeAfter(knots, moves);
      Trail(knots, moves[..|moves| - 1]) + {r[|r| - 1]}
  }

  /** `Moves`: the unit vectors of the four directions. */
  function MoveVector(c: char): (v: Option<Vector>)
    ensures v.Some? ==> IsKingStep(v.value) && Abs(v.value.x) + Abs(v.value.y) == 1
  {
    match c
    case 'U' => Some(Vector(0, 1))
    case 'D' => Some(Vector(0, -1))
    case 'L' => Some(Vector(-1, 0))
    case 'R' => Some(Vector(1, 0))
    case _ => None
  }

  /** One instruction line "D n": n copies of the direction's vector (none for n <= 0);
      an unknown direction fails only when it would be used. */
  function ParseLine(line: string): (r: Result<seq<Vector>>)
    ensures r.Ok? <==> |line| >= 2 && ParseInt(line[2..]).Some?
                       && (ParseInt(line[2..]).value <= 0 || MoveVector(line[0]).Some?)
    ensures r.Ok? ==> |line| >= 2 && ParseInt(line[2..]).Some?
                      && |r.value| == (if ParseInt(line[2..]).value > 0 then ParseInt(line[2..]).value else 0)
    ensures r.Ok? ==> |line| >= 2 && forall k :: 0 <= k < |r.value| ==> Some(r.value[k]) == MoveVector(line[0])
  {
    if |line| < 2 then Err("Index was outside the bounds of the array")
    else
      match ParseInt(line[2..])
      case None => Err("Input string was not in a correct format")
      case Some(steps) =>
        if steps <= 0 then Ok([])
        else
          match MoveVector(line[0])
          case None => Err("The given key was not present in the dictionary.")
          case Some(v) => Ok(seq(steps, _ => v))
  }

  /** `"X n"` for one of the four letters X and a natural n expands to n unit moves in
      that direction. */
  lemma ParseLineText(c: char, n: nat)
    requires MoveVector(c).Some?
    ensures ParseLine([c, ' '] + NatToString(n)) == Ok(seq(n, _ => MoveVector(c).value))
  {
    var line := [c, ' '] + NatToString(n);
    assert line[2..] == NatToString(n);
    assert line[0] == c;
    ParseNatText(n);
    if n == 0 {
      assert seq(n, _ => MoveVector(c).value) == [];
    }
  }

  /** `ParseInstructions`: the moves of all lines in order. */
  function ParseInstructions(lines: seq<string>): (r: Result<seq<Vector>>)
    ensures r.Ok? ==> forall k :: 0 <= k < |r.value| ==> IsKingStep(r.value[k])
  {
    if lines == [] then Ok([])
    else
      match ParseInstructions(lines[..|lines| - 1])
      case Err(m) => Err(m)
      case Ok(front) =>
        match ParseLine(lines[|lines| - 1])
        case Err(m) => Err(m)
        case Ok(moves) =>
          assert forall k :: 0 <= k < |moves| ==> IsKingStep(moves[k]) by {
            forall k | 0 <= k < |moves| ensures IsKingStep(moves[k]) {
              assert Some(moves[k]) == MoveVector(lines[|lines| - 1][0]);
            }
          }
          Ok(front + moves)
  }

  /** `count` knots at the origin. */
  function Origin(count: nat): (r: seq<Knot>)
    ensures |r| == count && forall j :: 0 <= j < count ==> r[j] == Knot(0, 0)
    ensures AllTouching(r)
  {
    seq(count, _ => Knot(0, 0))
  }

  class Rope
  {
    var knots: seq<Knot>
    var tailPositions: set<Knot>

    /** The rope keeps its knots touching and has recorded where its tail is. */
    predicate Valid()
      reads this
    {
      |knots| >= 1 && AllTouching(knots) && knots[|knots| - 1] in tailPositions
    }

    /** `Rope(knots)`: all knots at the origin, which is the first tail position. */
    constructor(count: nat)
      requires count >= 1
      ensures Valid()
      ensures knots == Origin(count) && tailPositions == {Knot(0, 0)}
    {
      knots := Origin(count);
      tailPositions := {Knot(0, 0)};
    }

    /** `Move`: every move steps the head and pulls the other knots along in order, then
        records the position of the last knot. */
    method Move(moves: seq<Vector>)
      requires Valid()
      requires forall k :: 0 <= k < |moves| ==> IsKingStep(moves[k])
      modifies this
      ensures Valid()
      ensures knots == RopeAfter(old(knots), moves)
      ensures tailPositions == old(tailPositions) + Trail(old(knots), moves)
    {
      ghost var start := knots;
      var m := 0;
      while m < |moves|
        invariant 0 <= m <= |moves|
        invariant Valid()
        invariant knots == RopeAfter(start, moves[..m])
        invariant tailPositions == old(tailPositions) + Trail(start, moves[..m])
      {
        assert moves[..m + 1][..m] == moves[..m];
        StepRopeTouching(knots, moves[m]);
        StepHead(moves[m]);
        tailPositions := tailPositions + {knots[|knots| - 1]};
        m := m + 1;
      }
      assert moves[..m] == moves;
    }

    /** One pass of `Move`'s loop body: the head takes the step and each later knot, in
        order, moves toward its predecessor when the two no longer touch. */
    method StepHead(v: Vector)
      requires |knots| >= 1
      modifies this`knots
      ensures knots == StepRope(old(knots), v)
    {
      ghost var target := StepRope(knots, v);
      knots := knots[0 := knots[0].Plus(v)];
      var i := 1;
      while i < |knots|
        invariant 1 <= i <= |knots|
        invariant PullFrom(knots, i) == target
      {
        var head := knots[i - 1];
        var tail := knots[i];
        if tail.FarFrom(head) {
          knots := knots[i := tail.Plus(tail.StepToward(head))];
        } else {
          knots := knots[i := tail];
        }
        i := i + 1;
      }
    }

    /** `TailPositions`: the number of different tail positions. */
    function TailPositions(): (n: nat)
      reads this
      requires Valid()
      ensures n >= 1
    {
      assert knots[|knots| - 1] in tailPositions;
      |tailPositions|
    }
  }

  /** `ComputeSolution`: a rope of `count` knots follows all instructions. */
  method ComputeSolution(lines: seq<string>, count: nat) returns (r: Result<nat>)
    requires count >= 1
    ensures r.Ok? <==> ParseInstructions(lines).Ok?
    ensures r.Ok? ==> r.value >= 1
                      && r.value == |{Knot(0, 0)} + Trail(Origin(count), ParseInstructions(lines).value)|
  {
    var moves := ParseInstructions(lines);
    if moves.Err? {
      return Err(moves.message);
    }
    var rope := new Rope(count);
    rope.Move(moves.value);
    var n := rope.TailPositions();
    return Ok(n);
  }
}
