/** Day 02: a rock-paper-scissors strategy guide. Each line names the opponent's shape
    (A, B, C) and a response letter (X, Y, Z), which part 1 reads as a shape and part 2
    as the outcome to aim for. */
module Day02 {
  import opened Common

  datatype Shape = Rock | Paper | Scissors
  datatype Outcome = Lose | Draw | Win

  /** The three round kinds of the source, named after both readings of X, Y and Z. */
  datatype Response = RockOrLose | PaperOrDraw | ScissorsOrWin
  {
    function AsShape(): Shape
    {
      match this
      case RockOrLose => Rock
      case PaperOrDraw => Paper
      case ScissorsOrWin => Scissors
    }

    function AsOutcome(): Outcome
    {
      match this
      case RockOrLose => Lose
      case PaperOrDraw => Draw
      case ScissorsOrWin => Win
    }

    /** The class constants `ShapeScore`. */
    function ShapeScore(): int
    {
      match this
      case RockOrLose => 1
      case PaperOrDraw => 2
      case ScissorsOrWin => 3
    }

    /** The class constants `OutcomeScore`. */
    function OutcomeScore(): int
    {
      match this
      case RockOrLose => 0
      case PaperOrDraw => 3
      case ScissorsOrWin => 6
    }
  }

  /** Rock defeats scissors, scissors defeat paper, paper defeats rock. */
  predicate Defeats(a: Shape, b: Shape)
  {
    (a == Rock && b == Scissors) || (a == Scissors && b == Paper) || (a == Paper && b == Rock)
  }

  function OutcomeOf(mine: Shape, theirs: Shape): Outcome
  {
    if mine == theirs then Draw else if Defeats(mine, theirs) then Win else Lose
  }

  function ShapeValue(s: Shape): int
  {
    match s
    case Rock => 1
    case Paper => 2
    case Scissors => 3
  }

  function OutcomeValue(o: Outcome): int
  {
    match o
    case Lose => 0
    case Draw => 3
    case Win => 6
  }

  /** The shape that reaches the wanted outcome against `theirs`. */
  function ShapeFor(wanted: Outcome, theirs: Shape): (s: Shape)
    ensures OutcomeOf(s, theirs) == wanted
  {
    match (wanted, theirs)
    case (Draw, _) => theirs
    case (Win, Rock) => Paper
    case (Win, Paper) => Scissors
    case (Win, Scissors) => Rock
    case (Lose, Rock) => Scissors
    case (Lose, Paper) => Rock
    case (Lose, Scissors) => Paper
  }

  /** Only one shape reaches a given outcome against a given shape. */
  lemma ShapeForUnique(s: Shape, theirs: Shape)
    ensures ShapeFor(OutcomeOf(s, theirs), theirs) == s
  {
  }

  function OpponentShape(c: char): Option<Shape>
  {
    match c
    case 'A' => Some(Rock)
    case 'B' => Some(Paper)
    case 'C' => Some(Scissors)
    case _ => None
  }

  /** `Score` of the round constructors: the response's shape score plus the outcome score,
      and only the shape score when the opponent letter is not A, B or C. */
  function Score(response: Response, opponent: char): (s: int)
    ensures OpponentShape(opponent).Some? ==>
              s == ShapeValue(response.AsShape()) + OutcomeValue(OutcomeOf(response.AsShape(), OpponentShape(opponent).value))
    ensures OpponentShape(opponent).None? ==> s == ShapeValue(response.AsShape())
    ensures 1 <= s <= 9
  {
    response.ShapeScore() +
      match (response, opponent)
      case (RockOrLose, 'A') => PaperOrDraw.OutcomeScore()
      case (RockOrLose, 'B') => RockOrLose.OutcomeScore()
      case (RockOrLose, 'C') => ScissorsOrWin.OutcomeScore()
      case (PaperOrDraw, 'A') => ScissorsOrWin.OutcomeScore()
      case (PaperOrDraw, 'B') => PaperOrDraw.OutcomeScore()
      case (PaperOrDraw, 'C') => RockOrLose.OutcomeScore()
      case (ScissorsOrWin, 'A') => RockOrLose.OutcomeScore()
      case (ScissorsOrWin, 'B') => ScissorsOrWin.OutcomeScore()
      case (ScissorsOrWin, 'C') => PaperOrDraw.OutcomeScore()
      case _ => 0
  }

  /** `AlternativeScore`: the outcome score plus the shape score of the shape that reaches
      that outcome, and only the outcome score for an unknown opponent letter. */
  function AlternativeScore(response: Response, opponent: char): (s: int)
    ensures OpponentShape(opponent).Some? ==>
              s == OutcomeValue(response.AsOutcome()) + ShapeValue(ShapeFor(response.AsOutcome(), OpponentShape(opponent).value))
    ensures OpponentShape(opponent).None? ==> s == OutcomeValue(response.AsOutcome())
    ensures 0 <= s <= 9
  {
    response.OutcomeScore() +
      match (response, opponent)
      case (RockOrLose, 'A') => ScissorsOrWin.ShapeScore()
      case (RockOrLose, 'B') => RockOrLose.ShapeScore()
      case (RockOrLose, 'C') => PaperOrDraw.ShapeScore()
      case (PaperOrDraw, 'A') => RockOrLose.ShapeScore()
      case (PaperOrDraw, 'B') => PaperOrDraw.ShapeScore()
      case (PaperOrDraw, 'C') => ScissorsOrWin.ShapeScore()
      case (ScissorsOrWin, 'A') => PaperOrDraw.ShapeScore()
      case (ScissorsOrWin, 'B') => ScissorsOrWin.ShapeScore()
      case (ScissorsOrWin, 'C') => RockOrLose.ShapeScore()
      case _ => 0
  }

  /** Answering the opponent's own shape is a draw: the shape score plus 3. */
  lemma MirrorIsDraw(response: Response, opponent: char)
    requires OpponentShape(opponent) == Some(response.AsShape())
    ensures Score(response, opponent) == response.ShapeScore() + 3
  {
  }

  /** With a known opponent shape both scores lie in 1..9. */
  lemma ScoresInRange(response: Response, opponent: char)
    requires OpponentShape(opponent).Some?
    ensures 1 <= AlternativeScore(response, opponent) <= 9
  {
  }

  datatype Round = Round(response: Response, opponent: char)

  /** The letter X, Y or Z at position 2, or None for any other letter. */
  function ResponseOf(c: char): Option<Response>
  {
    match c
    case 'X' => Some(RockOrLose)
    case 'Y' => Some(PaperOrDraw)
    case 'Z' => Some(ScissorsOrWin)
    case _ => None
  }

  /** The indices of the lines that name a response letter. */
  function RoundLines(lines: seq<string>): set<int>
  {
    set i | 0 <= i < |lines| && |lines[i]| >= 3 && ResponseOf(lines[i][2]).Some?
  }

  /** Some line names this round's response letter and opponent letter. */
  predicate FromSomeLine(lines: seq<string>, round: Round)
  {
    exists i :: 0 <= i < |lines| && |lines[i]| >= 3 && ResponseOf(lines[i][2]) == Some(round.response)
                && round.opponent == lines[i][0]
  }

  /** One more line adds its index to the round lines exactly when it names a response. */
  lemma RoundLinesStep(lines: seq<string>)
    requires |lines| > 0 && |lines[|lines| - 1]| >= 3
    ensures var n := |lines| - 1;
            RoundLines(lines) == RoundLines(lines[..n]) + (if ResponseOf(lines[n][2]).Some? then {n} else {})
  {
    var n := |lines| - 1;
    assert forall i :: 0 <= i < n ==> lines[..n][i] == lines[i];
  }

  /** A round taken from a prefix of the lines is taken from the lines. */
  lemma FromPrefix(lines: seq<string>, n: nat, round: Round)
    requires n <= |lines| && FromSomeLine(lines[..n], round)
    ensures FromSomeLine(lines, round)
  {
    var i :| 0 <= i < n && |lines[..n][i]| >= 3 && ResponseOf(lines[..n][i][2]) == Some(round.response)
             && round.opponent == lines[..n][i][0];
    assert lines[..n][i] == lines[i];
  }

  /** The round one line names on its own: none when its response letter is not X, Y or Z. */
  function LineRound(line: string): seq<Round>
    requires |line| >= 3
  {
    match ResponseOf(line[2])
    case None => []
    case Some(response) => [Round(response, line[0])]
  }

  /** The rounds of the lines, read first line first. */
  function RoundsOf(lines: seq<string>): seq<Round>
    requires forall i :: 0 <= i < |lines| ==> |lines[i]| >= 3
  {
    if lines == [] then [] else LineRound(lines[0]) + RoundsOf(lines[1..])
  }

  /** Reading one more line appends its round, if any, after the rounds read so far. */
  lemma {:induction false} RoundsOfAppend(lines: seq<string>, line: string)
    requires forall i :: 0 <= i < |lines| ==> |lines[i]| >= 3
    requires |line| >= 3
    ensures RoundsOf(lines + [line]) == RoundsOf(lines) + LineRound(line)
  {
    if lines != [] {
      assert (lines + [line])[1..] == lines[1..] + [line];
      RoundsOfAppend(lines[1..], line);
    }
  }

  /** Reading the last line after the others adds its round, if any, to the rounds so far. */
  lemma ReadLastLine(lines: seq<string>, front: seq<Round>)
    requires |lines| > 0 && |lines[|lines| - 1]| >= 3
    requires var n := |lines| - 1;
             |front| == |RoundLines(lines[..n])| && forall k :: 0 <= k < |front| ==> FromSomeLine(lines[..n], front[k])
    ensures var rounds := front + LineRound(lines[|lines| - 1]);
            |rounds| == |RoundLines(lines)| && forall k :: 0 <= k < |rounds| ==> FromSomeLine(lines, rounds[k])
  {
    var n := |lines| - 1;
    var rounds := front + LineRound(lines[n]);
    RoundLinesStep(lines);
    assert n !in RoundLines(lines[..n]);
    forall k | 0 <= k < |rounds| ensures FromSomeLine(lines, rounds[k]) {
      if k < |front| {
        FromPrefix(lines, n, front[k]);
      }
    }
  }

  /** The puzzle constructor: a line with a response letter other than X, Y, Z adds no round;
      a line shorter than three characters is an index error. The rounds are those of the
      lines in their order: round `k` comes from the `k`-th line that names a response. */
  function ParseRounds(lines: seq<string>): (r: Result<seq<Round>>)
    ensures r.Ok? <==> forall i :: 0 <= i < |lines| ==> |lines[i]| >= 3
    ensures r.Ok? ==> |r.value| == |RoundLines(lines)|
    ensures r.Ok? ==> forall k :: 0 <= k < |r.value| ==> FromSomeLine(lines, r.value[k])
    ensures r.Ok? ==> r.value == RoundsOf(lines)
  {
    if lines == [] then Ok([])
    else
      var n := |lines| - 1;
      var line := lines[n];
      LongLinesStep(lines);
      match ParseRounds(lines[..n])
      case Err(m) => Err(m)
      case Ok(front) =>
        if |line| < 3 then Err("Index was outside the bounds of the array")
        else
          ReadLastLine(lines, front);
          assert lines == lines[..n] + [line];
          RoundsOfAppend(lines[..n], line);
          Ok(front + LineRound(line))
  }

  /** All lines are long enough exactly when all but the last are and the last one is. */
  lemma LongLinesStep(lines: seq<string>)
    requires lines != []
    ensures var n := |lines| - 1;
            (forall i :: 0 <= i < |lines| ==> |lines[i]| >= 3)
            <==> (forall i :: 0 <= i < n ==> |lines[..n][i]| >= 3) && |lines[n]| >= 3
  {
    var n := |lines| - 1;
    assert forall i :: 0 <= i < n ==> lines[..n][i] == lines[i];
  }

  /** `ComputeSolution1`: the sum of the scores. */
  function ComputeSolution1(rounds: seq<Round>): (total: int)
    ensures |rounds| <= total <= 9 * |rounds|
  {
    if rounds == [] then 0
    else
      var last := rounds[|rounds| - 1];
      ComputeSolution1(rounds[..|rounds| - 1]) + Score(last.response, last.opponent)
  }

  /** `ComputeSolution2`: the sum of the alternative scores. */
  function ComputeSolution2(rounds: seq<Round>): (total: int)
    ensures 0 <= total <= 9 * |rounds|
  {
    if rounds == [] then 0
    else
      var last := rounds[|rounds| - 1];
      ComputeSolution2(rounds[..|rounds| - 1]) + AlternativeScore(last.response, last.opponent)
  }

  /** Both totals add up round by round. */
  lemma {:induction false} TotalsAppend(a: seq<Round>, b: seq<Round>)
    ensures ComputeSolution1(a + b) == ComputeSolution1(a) + ComputeSolution1(b)
    ensures ComputeSolution2(a + b) == ComputeSolution2(a) + ComputeSolution2(b)
  {
    if b == [] {
      assert a + b == a;
    } else {
      var n := |b| - 1;
      assert (a + b)[..|a + b| - 1] == a + b[..n];
      TotalsAppend(a, b[..n]);
    }
  }
}
