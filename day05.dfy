/** Day 05: stacks of crates rearranged by a crane. The crane of part 1 moves one crate at a
    time; the crane of part 2 moves a whole block at once. Each stack is a sequence from the
    bottom crate to the top crate. */
module Day05 {
  import opened Common

  datatype Move = Move(items: int, origin: int, destination: int)

  /** The length of the run of decimal digits at the front of `s`. */
  function DigitRunLength(s: string): (n: nat)
    ensures n <= |s| && IsDigits(s[..n]) && (n == |s| || !IsDigit(s[n]))
  {
    if s == [] || !IsDigit(s[0]) then 0
    else
      var n := DigitRunLength(s[1..]);
      assert s[..n + 1] == [s[0]] + s[1..][..n];
      n + 1
  }

  /** `Regex.Matches(s, @"\d+")`: the values of the maximal runs of digits, left to right. */
  function DigitRuns(s: string): (r: seq<nat>)
    decreases |s|
  {
    if s == [] then []
    else if !IsDigit(s[0]) then DigitRuns(s[1..])
    else
      var n := DigitRunLength(s);
      [DigitsValue(s[..n])] + DigitRuns(s[n..])
  }

  /** The `Move` constructor: the first three numbers of the line, origin and destination
      made zero-based. */
  function ParseMove(line: string): (r: Result<Move>)
    ensures r.Ok? <==> |DigitRuns(line)| >= 3
    ensures r.Ok? ==> r.value.items == DigitRuns(line)[0]
                      && r.value.origin + 1 == DigitRuns(line)[1]
                      && r.value.destination + 1 == DigitRuns(line)[2]
  {
    var numbers := DigitRuns(line);
    if |numbers| < 3 then Err("Index was outside the bounds of the array")
    else Ok(Move(numbers[0], numbers[1] as int - 1, numbers[2] as int - 1))
  }

  /** The `count` group of `\s(?<count>\d+)\s*$`: the digits at the end of the row (before
      trailing white space), which must follow a white-space character. */
  function StackCount(row: string): (r: Result<nat>)
  {
    var t := row[..|row| - TrailingSpace(row)];
    var k := DigitSuffixStart(t);
    if k < |t| && k > 0 && IsWhiteSpace(t[k - 1]) then Ok(DigitsValue(t[k..]))
    else Err("Input string was not in a correct format")
  }

  /** Where the run of digits at the end of `s` begins. */
  function DigitSuffixStart(s: string): (k: nat)
    ensures k <= |s| && IsDigits(s[k..]) && (k == 0 || !IsDigit(s[k - 1]))
  {
    if s == [] || !IsDigit(s[|s| - 1]) then |s|
    else
      var p := s[..|s| - 1];
      var k := DigitSuffixStart(p);
      assert s[k..] == p[k..] + [s[|s| - 1]];
      assert forall i :: k <= i < |s| ==> IsDigit(s[i]) by {
        forall i | k <= i < |s| ensures IsDigit(s[i]) {
          if i < |s| - 1 {
            assert s[i] == p[k..][i - k];
          }
        }
      }
      assert k > 0 ==> s[k - 1] == p[k - 1];
      k
  }

  /** A row ending in white space, a run of digits and any trailing white space gives the
      value of that run as the stack count. */
  lemma StackCountReads(front: string, digits: string, trail: string)
    requires |front| > 0 && IsWhiteSpace(front[|front| - 1])
    requires |digits| > 0 && IsDigits(digits)
    requires forall i :: 0 <= i < |trail| ==> IsWhiteSpace(trail[i])
    ensures StackCount(front + digits + trail) == Ok(DigitsValue(digits))
  {
    var row := front + digits + trail;
    var t := front + digits;
    assert IsDigit(t[|t| - 1]);
    TrailingSpaceOf(t, trail);
    assert row == t + trail;
    assert row[..|row| - TrailingSpace(row)] == t;
    DigitSuffixOf(front, digits);
    assert t[|front| - 1] == front[|front| - 1];
    StackCountAt(row, t, |front|);
    assert t[|front|..] == digits;
  }

  /** `StackCount` once the trailing white space and the digit run are located. */
  lemma StackCountAt(row: string, t: string, k: nat)
    requires |t| <= |row| && row[..|row| - TrailingSpace(row)] == t
    requires DigitSuffixStart(t) == k && 0 < k < |t| && IsWhiteSpace(t[k - 1])
    ensures StackCount(row) == Ok(DigitsValue(t[k..]))
  {
  }

  /** Trailing white space after a last character that is not white space is exactly
      what `TrailingSpace` counts. */
  lemma TrailingSpaceOf(t: string, trail: string)
    requires |t| > 0 && IsDigit(t[|t| - 1])
    requires forall i :: 0 <= i < |trail| ==> IsWhiteSpace(trail[i])
    ensures TrailingSpace(t + trail) == |trail|
  {
    var row := t + trail;
    assert !IsWhiteSpace(row[|t| - 1]);
    assert forall i :: |t| <= i < |row| ==> row[i] == trail[i - |t|];
  }

  /** Digits after a white-space character start where `DigitSuffixStart` says. */
  lemma DigitSuffixOf(front: string, digits: string)
    requires |front| > 0 && IsWhiteSpace(front[|front| - 1])
    requires IsDigits(digits)
    ensures DigitSuffixStart(front + digits) == |front|
  {
    var t := front + digits;
    assert !IsDigit(t[|front| - 1]);
    assert forall i :: |front| <= i < |t| ==> t[i] == digits[i - |front|];
  }

  /** A diagram row holds a crate for stack k at column 1 + 4k (the row must also reach
      the column behind it). */
  predicate HasCrate(row: string, k: nat)
  {
    |row| > 1 + 4 * k + 1 && !IsWhiteSpace(row[1 + 4 * k])
  }

  /** Stack k of the diagram rows (top row first), from the bottom crate to the top one. */
  function Column(rows: seq<string>, k: nat): (c: seq<char>)
    ensures |c| <= |rows|
  {
    if rows == [] then []
    else Column(rows[1..], k) + (if HasCrate(rows[0], k) then [rows[0][1 + 4 * k]] else [])
  }

  /** The loop of the `Puzzle` constructor that reads the diagram from the bottom row up. */
  method ParseStacks(rows: seq<string>, count: nat) returns (stacks: array<seq<char>>)
    ensures fresh(stacks) && stacks.Length == count
    ensures forall k :: 0 <= k < count ==> stacks[k] == Column(rows, k)
  {
    stacks := new seq<char>[count](_ => []);
    var j := |rows|;
    while j > 0
      invariant 0 <= j <= |rows|
      invariant forall k :: 0 <= k < count ==> stacks[k] == Column(rows[j..], k)
    {
      j := j - 1;
      var line := rows[j];
      assert rows[j..][1..] == rows[j + 1..];
      var k := 0;
      while k < count
        invariant 0 <= k <= count
        invariant forall q :: 0 <= q < k ==> stacks[q] == Column(rows[j..], q)
        invariant forall q :: k <= q < count ==> stacks[q] == Column(rows[j + 1..], q)
      {
        var idx := 1 + 4 * k;
        if |line| > idx + 1 && !IsWhiteSpace(line[idx]) {
          stacks[k] := stacks[k] + [line[idx]];
        }
        k := k + 1;
      }
    }
  }

  /** The index of the first row without '[', if there is one. */
  function FirstPlainRow(input: seq<string>): (i: Option<nat>)
    ensures i.Some? ==> i.value < |input| && '[' !in input[i.value]
                        && forall j :: 0 <= j < i.value ==> '[' in input[j]
    ensures i.None? ==> forall j :: 0 <= j < |input| ==> '[' in input[j]
  {
    if input == [] then None
    else if '[' !in input[0] then Some(0)
    else
      match FirstPlainRow(input[1..])
      case None => None
      case Some(i) => Some(i + 1)
  }

  datatype Puzzle = Puzzle(stacks: seq<seq<char>>, moves: seq<Move>)

  /** The moves of the lines after the diagram and the blank line. */
  function ParseMoves(lines: seq<string>): (r: Result<seq<Move>>)
    ensures r.Ok? ==> |r.value| == |lines|
                      && forall j :: 0 <= j < |lines| ==> ParseMove(lines[j]) == Ok(r.value[j])
  {
    if lines == [] then Ok([])
    else
      match ParseMove(lines[0])
      case Err(m) => Err(m)
      case Ok(first) =>
        match ParseMoves(lines[1..])
        case Err(m) => Err(m)
        case Ok(rest) => Ok([first] + rest)
  }

  /** The `Puzzle` constructor: the diagram above the numbering row, then the moves from two
      lines below it. */
  method ParsePuzzle(input: seq<string>) returns (r: Result<Puzzle>)
    ensures r.Ok? ==> FirstPlainRow(input).Some?
    ensures r.Ok? ==> var i := FirstPlainRow(input).value;
                      StackCount(input[i]).Ok?
                      && |r.value.stacks| == StackCount(input[i]).value
                      && (forall k :: 0 <= k < |r.value.stacks| ==> r.value.stacks[k] == Column(input[..i], k))
                      && ParseMoves(if i + 2 <= |input| then input[i + 2..] else []) == Ok(r.value.moves)
  {
    var i := 0;
    while i < |input| && '[' in input[i]
      invariant 0 <= i <= |input|
      invariant forall j :: 0 <= j < i ==> '[' in input[j]
    {
      i := i + 1;
    }
    if i == |input| {
      return Err("Index was outside the bounds of the array");
    }
    var count := StackCount(input[i]);
    if count.Err? {
      return Err(count.message);
    }
    var stacks := ParseStacks(input[..i], count.value);
    var moves := ParseMoves(if i + 2 <= |input| then input[i + 2..] else []);
    if moves.Err? {
      return Err(moves.message);
    }
    return Ok(Puzzle(stacks[..], moves.value));
  }

  function Reverse(s: seq<char>): (r: seq<char>)
    ensures |r| == |s| && forall i :: 0 <= i < |s| ==> r[i] == s[|s| - 1 - i]
  {
    if s == [] then [] else [s[|s| - 1]] + Reverse(s[..|s| - 1])
  }

  /** The number of crates actually moved: no more than the origin holds. */
  function Moved(items: int, available: nat): (n: nat)
    ensures n <= available && (items >= 0 ==> n <= items)
  {
    if items <= 0 then 0 else Min(items, available)
  }

  predicate InRange(stacks: seq<seq<char>>, m: Move)
  {
    0 <= m.origin < |stacks| && 0 <= m.destination < |stacks|
  }

  /** The stacks after `n` crates went from the origin to the destination: one at a time
      (the block lands reversed) or, for part 2, as a block that keeps its order. Moving onto
      the same stack changes nothing. */
  function Transfer(stacks: seq<seq<char>>, o: nat, d: nat, n: nat, keepOrder: bool): (r: seq<seq<char>>)
    requires o < |stacks| && d < |stacks| && n <= |stacks[o]|
    ensures |r| == |stacks|
  {
    if o == d then stacks
    else
      var src := stacks[o];
      var block := src[|src| - n..];
      stacks[o := src[..|src| - n]][d := stacks[d] + (if keepOrder then block else Reverse(block))]
  }

  /** One move of the given crane, or the index error of `stacks[move.Origin]`. */
  function ApplyMove(stacks: seq<seq<char>>, m: Move, keepOrder: bool): (r: Result<seq<seq<char>>>)
    ensures r.Ok? <==> InRange(stacks, m)
  {
    if !InRange(stacks, m) then Err("Index was outside the bounds of the array")
    else Ok(Transfer(stacks, m.origin, m.destination, Moved(m.items, |stacks[m.origin]|), keepOrder))
  }

  /** All moves in order. */
  function ApplyMoves(stacks: seq<seq<char>>, moves: seq<Move>, keepOrder: bool): (r: Result<seq<seq<char>>>)
    ensures r.Ok? ==> |r.value| == |stacks|
  {
    if moves == [] then Ok(stacks)
    else
      match ApplyMoves(stacks, moves[..|moves| - 1], keepOrder)
      case Err(m) => Err(m)
      case Ok(s) => ApplyMove(s, moves[|moves| - 1], keepOrder)
  }

  /** A move of at most one crate is the same for both cranes. */
  lemma CranesAgreeOnOneCrate(stacks: seq<seq<char>>, o: nat, d: nat, n: nat)
    requires o < |stacks| && d < |stacks| && n <= 1 && n <= |stacks[o]|
    ensures Transfer(stacks, o, d, n, false) == Transfer(stacks, o, d, n, true)
  {
    var src := stacks[o];
    var block := src[|src| - n..];
    assert |Reverse(block)| == n;
    assert Reverse(block) == block;
  }

  /** The total number of crates. */
  function CrateCount(stacks: seq<seq<char>>): nat
  {
    if stacks == [] then 0 else CrateCount(stacks[..|stacks| - 1]) + |stacks[|stacks| - 1]|
  }

  lemma {:induction false} CrateCountUpdate(stacks: seq<seq<char>>, k: nat, s: seq<char>)
    requires k < |stacks|
    ensures CrateCount(stacks[k := s]) + |stacks[k]| == CrateCount(stacks) + |s|
  {
    var n := |stacks| - 1;
    if k < n {
      assert stacks[k := s][..n] == stacks[..n][k := s];
      CrateCountUpdate(stacks[..n], k, s);
    } else {
      assert stacks[k := s][..n] == stacks[..n];
    }
  }

  /** Both cranes keep the number of crates. */
  lemma TransferKeepsCount(stacks: seq<seq<char>>, o: nat, d: nat, n: nat, keepOrder: bool)
    requires o < |stacks| && d < |stacks| && n <= |stacks[o]|
    ensures CrateCount(Transfer(stacks, o, d, n, keepOrder)) == CrateCount(stacks)
  {
    if o != d {
      var src := stacks[o];
      var block := src[|src| - n..];
      var moved := if keepOrder then block else Reverse(block);
      var s1 := stacks[o := src[..|src| - n]];
      assert |moved| == n;
      assert s1[d] == stacks[d];
      assert Transfer(stacks, o, d, n, keepOrder) == s1[d := stacks[d] + moved];
      CrateCountUpdate(stacks, o, src[..|src| - n]);
      CrateCountUpdate(s1, d, stacks[d] + moved);
    }
  }

  lemma {:induction false} ApplyMovesKeepsCount(stacks: seq<seq<char>>, moves: seq<Move>, keepOrder: bool)
    requires ApplyMoves(stacks, moves, keepOrder).Ok?
    ensures CrateCount(ApplyMoves(stacks, moves, keepOrder).value) == CrateCount(stacks)
  {
    if moves != [] {
      var front := moves[..|moves| - 1];
      ApplyMovesKeepsCount(stacks, front, keepOrder);
      var s := ApplyMoves(stacks, front, keepOrder).value;
      var m := moves[|moves| - 1];
      TransferKeepsCount(s, m.origin, m.destination, Moved(m.items, |s[m.origin]|), keepOrder);
    }
  }

  /** The top crate of every stack (`Peek`), failing on an empty stack. */
  function Tops(stacks: seq<seq<char>>): (r: Result<string>)
    ensures r.Ok? <==> forall k :: 0 <= k < |stacks| ==> stacks[k] != []
    ensures r.Ok? ==> |r.value| == |stacks| && forall k :: 0 <= k < |stacks| ==> r.value[k] == stacks[k][|stacks[k]| - 1]
  {
    if stacks == [] then Ok([])
    else
      var n := |stacks| - 1;
      var last := stacks[n];
      match Tops(stacks[..n])
      case Err(m) => Err(m)
      case Ok(front) =>
        if last == [] then Err("Stack empty.") else Ok(front + [last[|last| - 1]])
  }

  /** `CloneStacks`: a new array with the same stacks in the same order. */
  method CloneStacks(stacks: seq<seq<char>>) returns (copy: array<seq<char>>)
    ensures fresh(copy) && copy[..] == stacks
  {
    copy := new seq<char>[|stacks|](k requires 0 <= k < |stacks| => stacks[k]);
  }

  /** Part 1's crane on one move: pops and pushes one crate at a time while the origin is
      not empty. */
  method MoveOneAtATime(stacks: array<seq<char>>, m: Move)
    requires InRange(stacks[..], m)
    modifies stacks
    ensures stacks[..] == ApplyMove(old(stacks[..]), m, false).value
  {
    ghost var start := stacks[..];
    var src, dst := m.origin, m.destination;
    var i := 0;
    TransferNone(start, src, dst, false);
    while i < m.items && |stacks[src]| > 0
      invariant 0 <= i
      invariant src != dst ==> i <= Moved(m.items, |start[src]|) && |stacks[src]| == |start[src]| - i
      invariant stacks[..] == Transfer(start, src, dst, if src == dst then 0 else i, false)
      decreases |stacks[src]| + (if m.items > i then m.items - i else 0)
    {
      ghost var before := stacks[..];
      var top := stacks[src][|stacks[src]| - 1];
      stacks[src] := stacks[src][..|stacks[src]| - 1];
      stacks[dst] := stacks[dst] + [top];
      i := i + 1;
      if src == dst {
        assert stacks[src] == before[src];
        assert stacks[..] == before;
      } else {
        TransferStepOne(start, src, dst, i);
        assert stacks[..] == before[src := before[src][..|before[src]| - 1]][dst := before[dst] + [top]];
      }
    }
    if src != dst {
      assert i == Moved(m.items, |start[src]|);
    }
  }

  /** Moving no crate changes nothing. */
  lemma TransferNone(stacks: seq<seq<char>>, o: nat, d: nat, keepOrder: bool)
    requires o < |stacks| && d < |stacks|
    ensures Transfer(stacks, o, d, 0, keepOrder) == stacks
  {
    var src := stacks[o];
    assert src[..|src|] == src && src[|src|..] == [];
    assert stacks[d] + [] == stacks[d];
    assert stacks[o := src] == stacks;
  }

  lemma TransferStepOne(stacks: seq<seq<char>>, o: nat, d: nat, n: nat)
    requires o < |stacks| && d < |stacks| && o != d && 0 < n <= |stacks[o]|
    ensures var before := Transfer(stacks, o, d, n - 1, false);
            var top := before[o][|before[o]| - 1];
            Transfer(stacks, o, d, n, false) == before[o := before[o][..|before[o]| - 1]][d := before[d] + [top]]
  {
    var src := stacks[o];
    var b0 := src[|src| - (n - 1)..];
    var b1 := src[|src| - n..];
    assert b1 == [src[|src| - n]] + b0;
    ReversePrepend(src[|src| - n], b0);
    var before := Transfer(stacks, o, d, n - 1, false);
    assert before[o] == src[..|src| - (n - 1)];
    assert before[o][..|before[o]| - 1] == src[..|src| - n];
    assert before[d] + [src[|src| - n]] == stacks[d] + Reverse(b1);
    assert before[o := src[..|src| - n]][d := stacks[d] + Reverse(b1)]
           == stacks[o := src[..|src| - n]][d := stacks[d] + Reverse(b1)];
  }

  lemma ReversePrepend(x: char, s: seq<char>)
    ensures Reverse([x] + s) == Reverse(s) + [x]
  {
    var r, t := Reverse([x] + s), Reverse(s) + [x];
    assert |r| == |t|;
    forall i | 0 <= i < |r| ensures r[i] == t[i] {
      if i < |s| {
        assert r[i] == s[|s| - 1 - i];
      }
    }
  }

  /** Part 2's crane on one move: pops onto a temporary stack, then pushes the temporary
      stack's items, top first, onto the destination. */
  method MoveBlock(stacks: array<seq<char>>, m: Move)
    requires InRange(stacks[..], m)
    modifies stacks
    ensures stacks[..] == ApplyMove(old(stacks[..]), m, true).value
  {
    ghost var start := stacks[..];
    var src, dst := m.origin, m.destination;
    var tmp := PopCrates(stacks, src, m.items);
    PushCrates(stacks, dst, tmp);
    BlockMove(start, src, dst, Moved(m.items, |start[src]|));
  }

  /** Popping the top `n` crates onto a temporary stack and pushing them back from it onto
      the destination moves them as a block. */
  lemma BlockMove(start: seq<seq<char>>, src: nat, dst: nat, n: nat)
    requires src < |start| && dst < |start| && n <= |start[src]|
    ensures var len := |start[src]|;
            var mid := start[src := start[src][..len - n]];
            mid[dst := mid[dst] + Reverse(Reverse(start[src][len - n..]))] == Transfer(start, src, dst, n, true)
  {
    var len := |start[src]|;
    var block := start[src][len - n..];
    ReverseReverse(block);
    if src == dst {
      assert start[src][..len - n] + block == start[src];
    }
  }

  /** The first loop of part 2: up to `items` crates go from the origin onto a temporary
      stack, which then lists them top first. */
  method PopCrates(stacks: array<seq<char>>, src: nat, items: int) returns (tmp: seq<char>)
    requires src < stacks.Length
    modifies stacks
    ensures var len := |old(stacks[src])|;
            var n := Moved(items, len);
            stacks[..] == old(stacks[..])[src := old(stacks[src])[..len - n]]
            && tmp == Reverse(old(stacks[src])[len - n..])
  {
    ghost var start := stacks[..];
    ghost var whole := stacks[src];
    tmp := [];
    var i := 0;
    assert whole[..|whole|] == whole && whole[|whole|..] == [];
    assert start[src := whole] == start;
    while i < items && |stacks[src]| > 0
      invariant 0 <= i <= Moved(items, |whole|)
      invariant stacks[..] == start[src := whole[..|whole| - i]]
      invariant tmp == Reverse(whole[|whole| - i..])
    {
      var top := stacks[src][|stacks[src]| - 1];
      stacks[src] := stacks[src][..|stacks[src]| - 1];
      tmp := tmp + [top];
      i := i + 1;
      assert stacks[src] == whole[..|whole| - i];
      assert forall k :: 0 <= k < stacks.Length && k != src ==> stacks[k] == start[k];
      assert stacks[..] == start[src := whole[..|whole| - i]];
      assert whole[|whole| - i..] == [top] + whole[|whole| - (i - 1)..];
      ReversePrepend(top, whole[|whole| - (i - 1)..]);
    }
  }

  /** The second loop of part 2: the temporary stack's items, top first, are pushed onto the
      destination, which ends with them in reverse. */
  method PushCrates(stacks: array<seq<char>>, dst: nat, tmp: seq<char>)
    requires dst < stacks.Length
    modifies stacks
    ensures stacks[..] == old(stacks[..])[dst := old(stacks[dst]) + Reverse(tmp)]
  {
    ghost var start := stacks[..];
    ghost var base := stacks[dst];
    var j := |tmp|;
    assert tmp[j..] == [] && base + [] == base;
    assert start[dst := base] == start;
    while j > 0
      invariant 0 <= j <= |tmp|
      invariant stacks[..] == start[dst := base + Reverse(tmp[j..])]
    {
      j := j - 1;
      stacks[dst] := stacks[dst] + [tmp[j]];
      assert tmp[j..] == [tmp[j]] + tmp[j + 1..];
      ReversePrepend(tmp[j], tmp[j + 1..]);
      assert stacks[dst] == base + Reverse(tmp[j..]);
      assert forall k :: 0 <= k < stacks.Length && k != dst ==> stacks[k] == start[k];
      assert stacks[..] == start[dst := base + Reverse(tmp[j..])];
    }
    assert tmp[0..] == tmp;
  }

  lemma ReverseReverse(s: seq<char>)
    ensures Reverse(Reverse(s)) == s
  {
    var r := Reverse(Reverse(s));
    assert |r| == |s|;
    forall i | 0 <= i < |s| ensures r[i] == s[i] {
      assert r[i] == Reverse(s)[|s| - 1 - i];
    }
  }

  /** Runs all moves with the chosen crane on a clone and reads the tops. */
  method Rearrange(stacks: seq<seq<char>>, moves: seq<Move>, keepOrder: bool) returns (r: Result<string>)
    ensures ApplyMoves(stacks, moves, keepOrder).Err? ==> r.Err?
    ensures ApplyMoves(stacks, moves, keepOrder).Ok? ==> r == Tops(ApplyMoves(stacks, moves, keepOrder).value)
  {
    var working := CloneStacks(stacks);
    var i := 0;
    while i < |moves|
      invariant 0 <= i <= |moves|
      invariant ApplyMoves(stacks, moves[..i], keepOrder) == Ok(working[..])
    {
      assert moves[..i + 1][..i] == moves[..i];
      assert ApplyMoves(stacks, moves[..i + 1], keepOrder) == ApplyMove(working[..], moves[i], keepOrder);
      if !InRange(working[..], moves[i]) {
        ApplyMovesErrorPersists(stacks, moves, keepOrder, i + 1);
        return Err("Index was outside the bounds of the array");
      }
      if keepOrder {
        MoveBlock(working, moves[i]);
      } else {
        MoveOneAtATime(working, moves[i]);
      }
      i := i + 1;
    }
    assert moves[..i] == moves;
    r := Tops(working[..]);
  }

  lemma {:induction false} ApplyMovesErrorPersists(stacks: seq<seq<char>>, moves: seq<Move>, keepOrder: bool, n: nat)
    requires 0 < n <= |moves| && ApplyMoves(stacks, moves[..n], keepOrder).Err?
    ensures ApplyMoves(stacks, moves, keepOrder).Err?
    decreases |moves| - n
  {
    if n < |moves| {
      assert moves[..n + 1][..n] == moves[..n];
      ApplyMovesErrorPersists(stacks, moves, keepOrder, n + 1);
    } else {
      assert moves[..n] == moves;
    }
  }

  /** `ComputeSolution1`: the tops after the one-crate-at-a-time crane. */
  method ComputeSolution1(puzzle: Puzzle) returns (r: Result<string>)
    ensures ApplyMoves(puzzle.stacks, puzzle.moves, false).Ok? ==>
              r == Tops(ApplyMoves(puzzle.stacks, puzzle.moves, false).value)
    ensures ApplyMoves(puzzle.stacks, puzzle.moves, false).Err? ==> r.Err?
  {
    r := Rearrange(puzzle.stacks, puzzle.moves, false);
  }

  /** `ComputeSolution2`: the tops after the block-moving crane. */
  method ComputeSolution2(puzzle: Puzzle) returns (r: Result<string>)
    ensures ApplyMoves(puzzle.stacks, puzzle.moves, true).Ok? ==>
              r == Tops(ApplyMoves(puzzle.stacks, puzzle.moves, true).value)
    ensures ApplyMoves(puzzle.stacks, puzzle.moves, true).Err? ==> r.Err?
  {
    r := Rearrange(puzzle.stacks, puzzle.moves, true);
  }
}
