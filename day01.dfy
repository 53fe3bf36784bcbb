/** Day 01: calorie lists. Blank lines separate the elves; each elf carries the sum of the
    numbers above the next blank line. Part 1 is the largest total, part 2 the sum of the
    three largest. */
module Day01 {
  import opened Common

  /** `string.IsNullOrWhiteSpace`. */
  predicate IsBlank(line: string)
  {
    forall i :: 0 <= i < |line| ==> IsWhiteSpace(line[i])
  }

  function BlankCount(lines: seq<string>): nat
  {
    if lines == [] then 0
    else BlankCount(lines[..|lines| - 1]) + (if IsBlank(lines[|lines| - 1]) then 1 else 0)
  }

  /** The numbers on the non-blank lines, in order, or an error for a line that is not one. */
  function Numbers(lines: seq<string>): Result<seq<int>>
  {
    if lines == [] then Ok([])
    else
      var line := lines[|lines| - 1];
      match Numbers(lines[..|lines| - 1])
      case Err(m) => Err(m)
      case Ok(front) =>
        if IsBlank(line) then Ok(front)
        else
          match ParseInt(line)
          case None => Err("Input string was not in a correct format")
          case Some(v) => Ok(front + [v])
  }

  /** The non-blank lines since the last blank line. */
  function OpenGroup(lines: seq<string>): seq<string>
  {
    if lines == [] || IsBlank(lines[|lines| - 1]) then []
    else OpenGroup(lines[..|lines| - 1]) + [lines[|lines| - 1]]
  }

  /** The lines split at the blank lines: one group per elf, the last one still open. */
  function Groups(lines: seq<string>): (g: seq<seq<string>>)
    ensures |g| == BlankCount(lines) + 1
    ensures g[|g| - 1] == OpenGroup(lines)
  {
    if lines == [] then [[]]
    else
      var front := Groups(lines[..|lines| - 1]);
      var line := lines[|lines| - 1];
      if IsBlank(line) then front + [[]]
      else front[..|front| - 1] + [front[|front| - 1] + [line]]
  }

  /** `totals` holds the total of every group but the last, open one. */
  predicate ClosedTotals(totals: seq<int>, groups: seq<seq<string>>)
  {
    |groups| == |totals| + 1
    && forall k :: 0 <= k < |totals| ==> Numbers(groups[k]).Ok? && totals[k] == Sum(Numbers(groups[k]).value)
  }

  /** `totals` holds the total of every group. */
  predicate AllTotals(totals: seq<int>, groups: seq<seq<string>>)
  {
    |groups| == |totals|
    && forall k :: 0 <= k < |totals| ==> Numbers(groups[k]).Ok? && totals[k] == Sum(Numbers(groups[k]).value)
  }

  /** Adding the total of the open group gives the totals of all groups. */
  lemma CloseGroup(totals: seq<int>, groups: seq<seq<string>>, elf: int)
    requires ClosedTotals(totals, groups)
    requires Numbers(groups[|groups| - 1]).Ok? && elf == Sum(Numbers(groups[|groups| - 1]).value)
    ensures AllTotals(totals + [elf], groups)
  {
    var t := totals + [elf];
    forall k | 0 <= k < |t| ensures Numbers(groups[k]).Ok? && t[k] == Sum(Numbers(groups[k]).value) {
      if k < |totals| {
        assert t[k] == totals[k];
      }
    }
  }

  /** A blank line closes the open group with its total and opens an empty one. */
  lemma ClosedTotalsBlank(totals: seq<int>, lines: seq<string>, i: nat, elf: int)
    requires i < |lines| && IsBlank(lines[i]) && ClosedTotals(totals, Groups(lines[..i]))
    requires Numbers(OpenGroup(lines[..i])).Ok? && elf == Sum(Numbers(OpenGroup(lines[..i])).value)
    ensures ClosedTotals(totals + [elf], Groups(lines[..i + 1]))
  {
    var g := Groups(lines[..i]);
    CloseGroup(totals, g, elf);
    assert lines[..i + 1][..i] == lines[..i];
    assert Groups(lines[..i + 1]) == g + [[]];
    assert forall k :: 0 <= k < |g| ==> (g + [[]])[k] == g[k];
  }

  /** Any other line joins the open group and leaves the closed ones alone. */
  lemma ClosedTotalsNumber(totals: seq<int>, lines: seq<string>, i: nat)
    requires i < |lines| && !IsBlank(lines[i]) && ClosedTotals(totals, Groups(lines[..i]))
    ensures ClosedTotals(totals, Groups(lines[..i + 1]))
  {
    assert lines[..i + 1][..i] == lines[..i];
    var g, g' := Groups(lines[..i]), Groups(lines[..i + 1]);
    assert forall k :: 0 <= k < |totals| ==> g'[k] == g[k];
  }

  /** What the loop of `CaloriesPerElf` knows after the first `i` lines: every closed group
      has its total in `totals`, and `elf` is the total of the open one. */
  predicate Scanned(lines: seq<string>, i: nat, totals: seq<int>, elf: int)
    requires i <= |lines|
  {
    && Numbers(lines[..i]).Ok?
    && |totals| == BlankCount(lines[..i])
    && ClosedTotals(totals, Groups(lines[..i]))
    && Sum(totals) + elf == Sum(Numbers(lines[..i]).value)
    && Numbers(OpenGroup(lines[..i])).Ok? && elf == Sum(Numbers(OpenGroup(lines[..i])).value)
  }

  /** A blank line closes the open group. */
  lemma ScannedBlank(lines: seq<string>, i: nat, totals: seq<int>, elf: int)
    requires i < |lines| && IsBlank(lines[i]) && Scanned(lines, i, totals, elf)
    ensures Scanned(lines, i + 1, totals + [elf], 0)
  {
    assert lines[..i + 1][..i] == lines[..i];
    ClosedTotalsBlank(totals, lines, i, elf);
    SumAppend(totals, [elf]);
  }

  /** A number line adds its value to the open group. */
  lemma ScannedNumber(lines: seq<string>, i: nat, totals: seq<int>, elf: int, v: int)
    requires i < |lines| && !IsBlank(lines[i]) && ParseInt(lines[i]) == Some(v)
    requires Scanned(lines, i, totals, elf)
    ensures Scanned(lines, i + 1, totals, elf + v)
  {
    var line := lines[i];
    assert lines[..i + 1][..i] == lines[..i];
    var front := Numbers(lines[..i]).value;
    assert Numbers(lines[..i + 1]).value == front + [v];
    SumAppend(front, [v]);
    var group := OpenGroup(lines[..i]);
    assert OpenGroup(lines[..i + 1]) == group + [line];
    assert (group + [line])[..|group|] == group;
    SumAppend(Numbers(group).value, [v]);
    ClosedTotalsNumber(totals, lines, i);
  }

  /** A line that is neither blank nor a number fails the whole input. */
  lemma ScannedError(lines: seq<string>, i: nat, totals: seq<int>, elf: int)
    requires i < |lines| && !IsBlank(lines[i]) && ParseInt(lines[i]).None?
    requires Scanned(lines, i, totals, elf)
    ensures Numbers(lines).Err?
  {
    assert lines[..i + 1][..i] == lines[..i];
    NumbersErrorPersists(lines, i + 1);
  }

  /** After the last line, closing the open group gives the totals of all groups. */
  lemma ScannedAll(lines: seq<string>, totals: seq<int>, elf: int)
    requires Scanned(lines, |lines|, totals, elf)
    ensures var t := totals + [elf];
      && Numbers(lines).Ok?
      && |t| == BlankCount(lines) + 1
      && Sum(t) == Sum(Numbers(lines).value)
      && Numbers(OpenGroup(lines)).Ok? && t[|t| - 1] == Sum(Numbers(OpenGroup(lines)).value)
      && AllTotals(t, Groups(lines))
  {
    assert lines[..|lines|] == lines;
    CloseGroup(totals, Groups(lines), elf);
    SumAppend(totals, [elf]);
  }

  /** The loop of the `Puzzle` constructor: one total per elf, closed by each blank line and
      once more after the last line. There is one more total than there are blank lines,
      the totals add up to the sum of all numbers, and the last total is the sum of the
      numbers after the last blank line. */
  method CaloriesPerElf(lines: seq<string>) returns (r: Result<seq<int>>)
    ensures r.Ok? <==> Numbers(lines).Ok?
    ensures r.Ok? ==> |r.value| == BlankCount(lines) + 1
    ensures r.Ok? ==> Sum(r.value) == Sum(Numbers(lines).value)
    ensures r.Ok? ==> Numbers(OpenGroup(lines)).Ok?
                      && r.value[|r.value| - 1] == Sum(Numbers(OpenGroup(lines)).value)
    ensures r.Ok? ==> AllTotals(r.value, Groups(lines))
  {
    var ok, totals, elf := Scan(lines);
    if !ok {
      return Err("Input string was not in a correct format");
    }
    ScannedAll(lines, totals, elf);
    return Ok(totals + [elf]);
  }

  /** The line loop itself: it stops at the first line that is neither blank nor a number,
      and otherwise ends with every closed total and the open one. */
  method Scan(lines: seq<string>) returns (ok: bool, totals: seq<int>, elf: int)
    ensures ok ==> Scanned(lines, |lines|, totals, elf)
    ensures !ok ==> Numbers(lines).Err?
  {
    totals := [];
    elf := 0;
    var i := 0;
    assert Groups(lines[..0]) == [[]];
    while i < |lines|
      invariant 0 <= i <= |lines|
      invariant Scanned(lines, i, totals, elf)
    {
      var line := lines[i];
      if IsBlank(line) {
        ScannedBlank(lines, i, totals, elf);
        totals := totals + [elf];
        elf := 0;
      } else {
        var v := ParseInt(line);
        if v.None? {
          ScannedError(lines, i, totals, elf);
          return false, totals, elf;
        }
        ScannedNumber(lines, i, totals, elf, v.value);
        elf := elf + v.value;
      }
      i := i + 1;
    }
    ok := true;
  }

  /** Once a line fails to parse, the whole input fails. */
  lemma {:induction false} NumbersErrorPersists(lines: seq<string>, n: nat)
    requires 0 < n <= |lines| && Numbers(lines[..n]).Err?
    ensures Numbers(lines).Err?
    decreases |lines| - n
  {
    if n < |lines| {
      assert lines[..n + 1][..n] == lines[..n];
      NumbersErrorPersists(lines, n + 1);
    } else {
      assert lines[..n] == lines;
    }
  }

  /** `ComputeSolution1`: the first of the totals sorted in descending order, which is the
      largest total. */
  function ComputeSolution1(totals: seq<int>): (r: Result<int>)
    ensures r.Ok? <==> totals != []
    ensures r.Ok? ==> r.value in totals && forall i :: 0 <= i < |totals| ==> totals[i] <= r.value
  {
    var sorted := SortDescending(totals);
    if sorted == [] then Err("Sequence contains no elements")
    else
      assert multiset(sorted) == multiset(totals);
      assert sorted[0] in multiset(sorted);
      assert forall i :: 0 <= i < |totals| ==> totals[i] in multiset(sorted);
      Ok(sorted[0])
  }

  /** a >= b >= c are three of the totals, and no other total is larger than c. */
  predicate IsTopThree(totals: multiset<int>, a: int, b: int, c: int)
  {
    a >= b >= c && multiset{a, b, c} <= totals
    && forall x :: x in totals - multiset{a, b, c} ==> x <= c
  }

  /** `ComputeSolution2`: the sum of the first three sorted totals (fewer when there are
      fewer elves), which is the sum of the three largest totals. */
  function ComputeSolution2(totals: seq<int>): (r: int)
    ensures |totals| >= 3 ==> exists a, b, c :: IsTopThree(multiset(totals), a, b, c) && r == a + b + c
    ensures |totals| < 3 ==> r == Sum(totals)
  {
    var sorted := SortDescending(totals);
    var top := sorted[..if |sorted| < 3 then |sorted| else 3];
    SortedTop(totals);
    Sum(top)
  }

  /** The first three sorted totals are a top three with their sum; with fewer totals the
      prefix is all of them, in another order, with the same sum. */
  lemma SortedTop(totals: seq<int>)
    ensures var sorted := SortDescending(totals);
            var top := sorted[..if |sorted| < 3 then |sorted| else 3];
            && (|totals| < 3 ==> Sum(top) == Sum(totals))
            && (|totals| >= 3 ==> IsTopThree(multiset(totals), sorted[0], sorted[1], sorted[2])
                                  && Sum(top) == sorted[0] + sorted[1] + sorted[2])
  {
    var sorted := SortDescending(totals);
    var top := sorted[..if |sorted| < 3 then |sorted| else 3];
    if |totals| < 3 {
      assert top == sorted;
      SumPermutation(sorted, totals);
    } else {
      DescendingTopThree(sorted);
      SumThree(top);
    }
  }

  lemma SumThree(s: seq<int>)
    requires |s| == 3
    ensures Sum(s) == s[0] + s[1] + s[2]
  {
    assert s[..2][..1] == s[..1] && s[..1][..0] == [];
    assert Sum(s[..1]) == s[0];
    assert Sum(s[..2]) == s[0] + s[1];
  }

  /** The head of a descending sequence holds its three largest elements. */
  lemma DescendingTopThree(sorted: seq<int>)
    requires Descending(sorted) && |sorted| >= 3
    ensures IsTopThree(multiset(sorted), sorted[0], sorted[1], sorted[2])
  {
    var rest := sorted[3..];
    assert sorted == [sorted[0], sorted[1], sorted[2]] + rest;
    assert multiset(sorted) - multiset{sorted[0], sorted[1], sorted[2]} == multiset(rest);
    forall x | x in multiset(rest) ensures x <= sorted[2] {
      assert x in rest;
      var k :| 0 <= k < |rest| && rest[k] == x;
      assert sorted[k + 3] == x;
    }
  }
}
