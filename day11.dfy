/** Day 11, "Monkey in the Middle": monkeys pass items between their queues, each
    inspection changing the item's worry level and choosing the recipient by a
    divisibility test. */
module Day11 {
  import opened Common

  const FormatError := "Input string was not in a correct format."
  const IndexError := "Index was outside the bounds of the array."
  const RangeError := "Index was out of range. Must be non-negative and less than the size of the collection. (Parameter 'index')"
  const RecipientError := "Recipients of items not set"
  const DivideError := "Attempted to divide by zero."

  // Worry levels

  /** The operation of a monkey: `old * old`, `old + k` or `old * k`. */
  datatype Operation = Square | Add(k: int) | Multiply(k: int)

  /** The operation applied to a worry level (a `long`; with `int` operands it does not
      overflow). */
  function Apply(op: Operation, v: int): int
  {
    match op
    case Square => v * v
    case Add(k) => v + k
    case Multiply(k) => v * k
  }

  /** The `(int)` cast of a `long`: the low 32 bits, read as a signed number. */
  function ToInt32(v: int): (r: int)
    ensures -0x8000_0000 <= r < 0x8000_0000
    ensures -0x8000_0000 <= v < 0x8000_0000 ==> r == v
    ensures (r - v) % 0x1_0000_0000 == 0
  {
    (v + 0x8000_0000) % 0x1_0000_0000 - 0x8000_0000
  }

  /** `_inspectItem`: the operation, then division by three when there is no scaling
      factor and the remainder modulo the scaling factor otherwise, cast to `int`. */
  function Inspect(op: Operation, scaling: int, v: int): int
  {
    var w := Apply(op, v);
    ToInt32(if scaling == 0 then TruncDiv(w, 3) else TruncRem(w, scaling))
  }

  /** An operation that never makes a non-negative worry level negative. */
  predicate Monotone(op: Operation)
  {
    match op
    case Square => true
    case Add(k) => k >= 0
    case Multiply(k) => k >= 0
  }

  /** With a scaling factor that fits an `int`, a non-negative worry level stays in
      [0, scaling) and is the operation's result modulo the factor. */
  lemma InspectScaled(op: Operation, scaling: int, v: int)
    requires Monotone(op) && v >= 0 && 0 < scaling <= 0x8000_0000
    ensures Inspect(op, scaling, v) == Apply(op, v) % scaling
    ensures 0 <= Inspect(op, scaling, v) < scaling
  {
    var w := Apply(op, v);
    assert w >= 0 by {
      match op
      case Square =>
      case Add(k) =>
      case Multiply(k) => assert v * k >= 0;
    }
  }

  /** Without a scaling factor, the worry level is the operation's result divided by
      three, as long as that fits an `int`. */
  lemma InspectUnscaled(op: Operation, v: int)
    requires 0 <= Apply(op, v) < 3 * 0x8000_0000
    ensures Inspect(op, 0, v) == Apply(op, v) / 3
  {
  }

  /** The product of all divisors (`Aggregate(1L, ...)`). */
  function Product(divisors: seq<int>): int
  {
    if divisors == [] then 1 else Product(divisors[..|divisors| - 1]) * divisors[|divisors| - 1]
  }

  lemma {:induction false} ProductPositive(divisors: seq<int>)
    requires forall i :: 0 <= i < |divisors| ==> divisors[i] > 0
    ensures Product(divisors) > 0
  {
    if divisors != [] {
      ProductPositive(divisors[..|divisors| - 1]);
    }
  }

  /** Every divisor divides the product. */
  lemma {:induction false} ProductMultiple(divisors: seq<int>, k: nat)
    requires k < |divisors| && divisors[k] > 0
    ensures Product(divisors) % divisors[k] == 0
  {
    var front := divisors[..|divisors| - 1];
    var last := divisors[|divisors| - 1];
    if k == |divisors| - 1 {
      MultipleOf(Product(front), last);
    } else {
      ProductMultiple(front, k);
      var q := Product(front) / divisors[k];
      assert Product(divisors) == (q * last) * divisors[k];
      MultipleOf(q * last, divisors[k]);
    }
  }

  lemma MultipleOf(a: int, d: int)
    requires d > 0
    ensures (a * d) % d == 0
  {
    ModUnique(a * d, d, a, 0);
  }

  /** Reducing a worry level modulo a multiple of `d` keeps its divisibility by `d`. */
  lemma ReductionKeepsDivisibility(v: int, scaling: int, d: int)
    requires v >= 0 && d > 0 && scaling > 0 && scaling % d == 0
    ensures (v % scaling) % d == 0 <==> v % d == 0
  {
    var q := v / scaling;
    var m := scaling / d;
    var r := v % scaling;
    assert scaling == m * d;
    assert v == r + (q * m) * d by {
      assert v == q * scaling + r;
      assert q * scaling == q * (m * d) == (q * m) * d;
    }
    ModShift(r, q * m, d);
  }

  lemma ModShift(r: int, n: int, d: int)
    requires d > 0
    ensures (r + n * d) % d == r % d
  {
    var q, m := r / d, r % d;
    assert r == q * d + m;
    assert r + n * d == (q + n) * d + m;
    ModUnique(r + n * d, d, q + n, m);
  }

  /** The worry levels of `values` after inspection, in order. */
  function Inspected(op: Operation, scaling: int, values: seq<int>): (r: seq<int>)
    ensures |r| == |values|
  {
    if values == [] then [] else Inspected(op, scaling, values[..|values| - 1]) + [Inspect(op, scaling, values[|values| - 1])]
  }

  /** Each item is inspected on its own: item `i` of the result is item `i` inspected. */
  lemma {:induction false} InspectedMeaning(op: Operation, scaling: int, values: seq<int>)
    ensures forall i :: 0 <= i < |values| ==> Inspected(op, scaling, values)[i] == Inspect(op, scaling, values[i])
  {
    if values != [] {
      var front := values[..|values| - 1];
      InspectedMeaning(op, scaling, front);
      assert forall i :: 0 <= i < |front| ==> values[i] == front[i];
    }
  }

  /** The inspected worry levels that go to the true recipient (`toTrue`) or to the false
      one, in order. */
  function Thrown(op: Operation, scaling: int, d: int, values: seq<int>, toTrue: bool): seq<int>
    requires d != 0
  {
    if values == [] then []
    else
      var w := Inspect(op, scaling, values[|values| - 1]);
      var front := Thrown(op, scaling, d, values[..|values| - 1], toTrue);
      if (TruncRem(w, d) == 0) == toTrue then front + [w] else front
  }

  /** The two recipients split the inspected items between them: nothing is created or
      lost. */
  lemma {:induction false} ThrownSplit(op: Operation, scaling: int, d: int, values: seq<int>)
    requires d != 0
    ensures multiset(Thrown(op, scaling, d, values, true)) + multiset(Thrown(op, scaling, d, values, false))
            == multiset(Inspected(op, scaling, values))
    ensures |Thrown(op, scaling, d, values, true)| + |Thrown(op, scaling, d, values, false)| == |values|
  {
    if values != [] {
      var front := values[..|values| - 1];
      ThrownSplit(op, scaling, d, front);
      assert Inspected(op, scaling, values) == Inspected(op, scaling, front) + [Inspect(op, scaling, values[|values| - 1])];
    }
  }

  /** Those sent to the true recipient are divisible by `d`, the others are not. */
  lemma {:induction false} ThrownTest(op: Operation, scaling: int, d: int, values: seq<int>, toTrue: bool)
    requires d != 0
    ensures forall w :: w in Thrown(op, scaling, d, values, toTrue) ==> (TruncRem(w, d) == 0) == toTrue
  {
    if values != [] {
      ThrownTest(op, scaling, d, values[..|values| - 1], toTrue);
    }
  }

  // Parsing

  /** `sep` occurs in `s` at index `j`. */
  predicate Occurs(s: string, sep: string, j: nat)
  {
    j + |sep| <= |s| && s[j..j + |sep|] == sep
  }

  /** The first index at which `sep` occurs in `s`. */
  function IndexOf(s: string, sep: string): (r: Option<nat>)
    requires sep != []
    ensures r.Some? ==> Occurs(s, sep, r.value) && forall j :: 0 <= j < r.value ==> !Occurs(s, sep, j)
    ensures r.None? ==> forall j :: 0 <= j ==> !Occurs(s, sep, j)
    decreases |s|
  {
    if |s| < |sep| then None
    else if s[..|sep|] == sep then Some(0)
    else
      var tail := s[1..];
      assert !Occurs(s, sep, 0) by {
        assert s[0..|sep|] == s[..|sep|];
      }
      assert forall j: nat :: 1 <= j ==> (Occurs(s, sep, j) <==> Occurs(tail, sep, j - 1)) by {
        forall j: nat | 1 <= j
          ensures Occurs(s, sep, j) <==> Occurs(tail, sep, j - 1)
        {
          if j + |sep| <= |s| {
            var here, there := s[j..j + |sep|], tail[j - 1..j - 1 + |sep|];
            assert forall k :: 0 <= k < |sep| ==> here[k] == there[k];
            assert here == there;
          }
        }
      }
      match IndexOf(tail, sep)
      case None => None
      case Some(i) => Some(i + 1)
  }

  /** `string.Split(sep)` with a string separator: the pieces between the occurrences of
      `sep` found from left to right. */
  function SplitOn(s: string, sep: string): (parts: seq<string>)
    requires sep != []
    ensures |parts| >= 1
    decreases |s|
  {
    match IndexOf(s, sep)
    case None => [s]
    case Some(i) => [s[..i]] + SplitOn(s[i + |sep|..], sep)
  }

  /** LINQ `Last()` of the pieces of a split, which are never empty. */
  function Last(parts: seq<string>): string
    requires parts != []
  {
    parts[|parts| - 1]
  }

  /** Text in which the separator cannot start does not split. */
  lemma SplitOnAbsent(s: string, sep: string)
    requires sep != [] && sep[0] !in s
    ensures SplitOn(s, sep) == [s]
  {
    assert forall j: nat :: j < |s| ==> s[j] != sep[0];
  }

  /** The operation written after `new = `: `old * old` squares, `old +` adds the number
      after ` + `, and anything else multiplies by the number after ` * `. */
  function ParseOperation(op: string): (r: Result<Operation>)
    ensures r.Err? ==> r.message == FormatError
  {
    if op == "old * old" then Ok(Square)
    else if |op| >= 5 && op[..5] == "old +" then
      match ParseInt(Last(SplitOn(op, " + ")))
      case None => Err(FormatError)
      case Some(k) => Ok(Add(k))
    else
      match ParseInt(Last(SplitOn(op, " * ")))
      case None => Err(FormatError)
      case Some(k) => Ok(Multiply(k))
  }

  lemma ParseSquareText()
    ensures ParseOperation("old * old") == Ok(Square)
  {
  }

  /** `old + k` parses to adding k, for any text of k that `int.Parse` reads. */
  lemma ParseAddText(n: string, k: int)
    requires ' ' !in n && ParseInt(n) == Some(k)
    ensures ParseOperation("old + " + n) == Ok(Add(k))
  {
    var s := "old + " + n;
    NumberSplit(s, " + ", n);
    assert s[..5] == "old +";
  }

  /** `old * k` parses to multiplying by k, for any text of k that `int.Parse` reads. */
  lemma ParseMultiplyText(n: string, k: int)
    requires ' ' !in n && ParseInt(n) == Some(k)
    ensures ParseOperation("old * " + n) == Ok(Multiply(k))
  {
    var s := "old * " + n;
    NumberSplit(s, " * ", n);
    assert !(|s| >= 5 && s[..5] == "old +") by {
      assert s[..5][4] == s[4] == '*';
    }
    OldIsNotNumber();
    assert s != "old * old" by {
      assert s[6..] == n;
      assert "old * old"[6..] == "old";
    }
    assert Last(SplitOn(s, " * ")) == n;
  }

  lemma OldIsNotNumber()
    ensures ParseInt("old") == None
  {
    TrimUnpadded("old");
    assert !IsDigit("old"[0]);
  }

  /** The text after `old` and a three-character separator splits off. */
  lemma NumberSplit(s: string, sep: string, n: string)
    requires |sep| == 3 && sep[0] == ' ' && s == "old" + sep + n && ' ' !in n
    ensures Last(SplitOn(s, sep)) == n
  {
    SplitOnAbsent(n, sep);
    assert Occurs(s, sep, 3) by {
      assert s[3..6] == sep;
    }
    forall j: nat | j < 3
      ensures !Occurs(s, sep, j)
    {
      assert s[j..j + 3][0] == s[j];
    }
    assert s[6..] == n;
  }

  // The notes

  /** What the first pass reads of a monkey: its divisor and its operation. */
  datatype Header = Header(divisibleBy: int, operation: Operation)

  /** What the second pass reads of a monkey: its starting items and the indices of the
      monkeys it throws to when the test holds and when it does not. */
  datatype Holding = Holding(items: seq<int>, ifTrue: nat, ifFalse: nat)

  /** The divisor on a `Test: divisible by d` line: the last space-separated word. */
  function DivisorOf(line: string): Option<int>
  {
    ParseInt(Last(Split(Trim(line), ' ')))
  }

  /** The operation on an `Operation: new = ...` line: the text after the first `=`. */
  function OperationOf(line: string): Result<Operation>
  {
    var parts := Split(line, '=');
    if |parts| < 2 then Err(IndexError) else ParseOperation(Trim(parts[1]))
  }

  /** The number of blocks of seven lines that start at lines 0, 7, 14, ... before line `n`. */
  function Blocks(n: nat): (r: nat)
    ensures forall m: nat :: m < r <==> 7 * m < n
  {
    (n + 6) / 7
  }

  /** Block `i` (its first line is line `i`) holds the divisor and operation of `h`. */
  predicate HeaderAt(lines: seq<string>, i: nat, h: Header)
  {
    i + 3 < |lines|
    && DivisorOf(lines[i + 3]) == Some(h.divisibleBy)
    && OperationOf(lines[i + 2]) == Ok(h.operation)
  }

  /** The header of the block that starts at line `i`. */
  function ParseHeader(lines: seq<string>, i: nat): (r: Result<Header>)
    ensures r.Ok? ==> HeaderAt(lines, i, r.value)
    ensures forall h :: HeaderAt(lines, i, h) ==> r == Ok(h)
    ensures r.Err? ==> r.message in {IndexError, FormatError}
  {
    if i + 3 >= |lines| then Err(IndexError)
    else
      match DivisorOf(lines[i + 3])
      case None => Err(FormatError)
      case Some(d) =>
        match OperationOf(lines[i + 2])
        case Err(e) => Err(e)
        case Ok(op) => Ok(Header(d, op))
  }

  /** The first pass of the constructor, over the blocks starting at lines 0, 7, 14, ...:
      the header of every block, or the failure of the first block that does not read. */
  function ParseHeaders(lines: seq<string>): (r: Result<seq<Header>>)
    ensures r.Ok? ==> |r.value| == Blocks(|lines|)
                      && forall m :: 0 <= m < |r.value| ==> ParseHeader(lines, 7 * m) == Ok(r.value[m])
    ensures r.Err? ==> exists m :: 0 <= m < Blocks(|lines|) && ParseHeader(lines, 7 * m) == Err(r.message)
                                   && forall j :: 0 <= j < m ==> ParseHeader(lines, 7 * j).Ok?
  {
    var n := Blocks(|lines|);
    var rs := seq(n, m requires 0 <= m < n => ParseHeader(lines, 7 * m));
    assert forall m :: 0 <= m < n ==> ParseHeader(lines, 7 * m) == rs[m];
    AllOk(rs)
  }

  /** `GetRecipient`: the monkey number after the word `monkey`, which must index one of
      the `count` monkeys. */
  function Recipient(line: string, count: nat): (r: Result<nat>)
    ensures r.Ok? ==> r.value < count
  {
    match ParseInt(Trim(Last(SplitOn(line, "monkey"))))
    case None => Err(FormatError)
    case Some(k) => if 0 <= k < count then Ok(k) else Err(RangeError)
  }

  /** The starting items on a `Starting items: ...` line: the text after the last `: `,
      split at `, `, each piece parsed. */
  function ItemsOf(line: string): Result<seq<int>>
  {
    ParseInts(SplitOn(Last(SplitOn(line, ": ")), ", "))
  }

  /** Block `m` holds the items and recipients of `h`. */
  predicate HoldingAt(lines: seq<string>, count: nat, m: nat, h: Holding)
  {
    7 * m + 5 < |lines|
    && ItemsOf(lines[7 * m + 1]) == Ok(h.items)
    && Recipient(lines[7 * m + 4], count) == Ok(h.ifTrue)
    && Recipient(lines[7 * m + 5], count) == Ok(h.ifFalse)
  }

  /** What a monkey's holding is read from: exactly the block that holds it. */
  lemma HoldingMeaning(lines: seq<string>, count: nat, m: nat)
    ensures ParseHolding(lines, count, m).Ok? ==> HoldingAt(lines, count, m, ParseHolding(lines, count, m).value)
    ensures forall h :: HoldingAt(lines, count, m, h) ==> ParseHolding(lines, count, m) == Ok(h)
  {
  }

  /** The items and recipients of monkey `m`. */
  function ParseHolding(lines: seq<string>, count: nat, m: nat): (r: Result<Holding>)
    ensures r.Ok? ==> r.value.ifTrue < count && r.value.ifFalse < count
  {
    var i := 7 * m;
    if i + 1 >= |lines| then Err(IndexError)
    else
      match ItemsOf(lines[i + 1])
      case Err(e) => Err(e)
      case Ok(items) =>
        if i + 4 >= |lines| then Err(IndexError)
        else
          match Recipient(lines[i + 4], count)
          case Err(e) => Err(e)
          case Ok(t) =>
            if i + 5 >= |lines| then Err(IndexError)
            else
              match Recipient(lines[i + 5], count)
              case Err(e) => Err(e)
              case Ok(f) => Ok(Holding(items, t, f))
  }

  /** The values of a sequence of results, or the first error among them. */
  function AllOk<T>(rs: seq<Result<T>>): (r: Result<seq<T>>)
    ensures r.Ok? ==> |r.value| == |rs| && forall k :: 0 <= k < |rs| ==> rs[k] == Ok(r.value[k])
    ensures r.Err? ==> exists k :: 0 <= k < |rs| && rs[k] == Err(r.message) && forall j :: 0 <= j < k ==> rs[j].Ok?
  {
    if rs == [] then Ok([])
    else
      match rs[0]
      case Err(e) => Err(e)
      case Ok(v) =>
        var tail := AllOk(rs[1..]);
        assert forall k :: 1 <= k < |rs| ==> rs[k] == rs[1..][k - 1];
        match tail
        case Err(e) =>
          var k :| 0 <= k < |rs[1..]| && rs[1..][k] == Err(e) && forall j :: 0 <= j < k ==> rs[1..][j].Ok?;
          assert rs[k + 1] == Err(e);
          Err(e)
        case Ok(vs) => Ok([v] + vs)
  }

  /** The second pass of the constructor: the items and recipients of every monkey, or
      the failure of the first monkey whose block does not read. */
  function ParseHoldings(lines: seq<string>, count: nat): (r: Result<seq<Holding>>)
    ensures r.Ok? ==> |r.value| == count
                      && forall m :: 0 <= m < count ==> ParseHolding(lines, count, m) == Ok(r.value[m])
    ensures r.Err? ==> exists m :: 0 <= m < count && ParseHolding(lines, count, m) == Err(r.message)
                                   && forall j :: 0 <= j < m ==> ParseHolding(lines, count, j).Ok?
  {
    var rs := seq(count, m requires 0 <= m < count => ParseHolding(lines, count, m));
    assert forall m :: 0 <= m < count ==> ParseHolding(lines, count, m) == rs[m];
    AllOk(rs)
  }

  /** No monkey throws to itself. */
  predicate Outward(holdings: seq<Holding>)
  {
    forall m :: 0 <= m < |holdings| ==> holdings[m].ifTrue != m && holdings[m].ifFalse != m
  }

  /** The notes: both passes, and no monkey that throws to itself (which the source would
      follow into a loop that need not end). */
  function ParseNotes(lines: seq<string>): (r: Result<(seq<Header>, seq<Holding>)>)
    ensures r.Ok? ==> |r.value.0| == |r.value.1| && Outward(r.value.1)
    ensures r.Ok? ==> forall m :: 0 <= m < |r.value.1| ==> r.value.1[m].ifTrue < |r.value.0| && r.value.1[m].ifFalse < |r.value.0|
  {
    match ParseHeaders(lines)
    case Err(e) => Err(e)
    case Ok(headers) =>
      match ParseHoldings(lines, |headers|)
      case Err(e) => Err(e)
      case Ok(holdings) =>
        if Outward(holdings) then Ok((headers, holdings)) else Err(SelfError)
  }

  const SelfError := "A monkey throws to itself"

  /** The divisors, in monkey order. */
  function Divisors(headers: seq<Header>): (r: seq<int>)
    ensures |r| == |headers| && forall m :: 0 <= m < |headers| ==> r[m] == headers[m].divisibleBy
  {
    if headers == [] then [] else Divisors(headers[..|headers| - 1]) + [headers[|headers| - 1].divisibleBy]
  }

  // Monkey business

  /** `OrderDescending().Take(2).Aggregate(1L, ...)`: the product of the two largest
      counts (of fewer when there are fewer). */
  function MonkeyBusiness(counts: seq<int>): int
  {
    var s := SortDescending(counts);
    if |s| == 0 then 1 else if |s| == 1 then s[0] else s[0] * s[1]
  }

  /** No two monkeys inspected more between them than the two busiest. */
  lemma MonkeyBusinessBound(counts: seq<int>, i: nat, j: nat)
    requires forall k :: 0 <= k < |counts| ==> counts[k] >= 0
    requires i < |counts| && j < |counts| && i != j
    ensures counts[i] * counts[j] <= MonkeyBusiness(counts)
  {
    var s := SortDescending(counts);
    var p, q := TwoPositions(s, counts[i], counts[j]) by {
      PairIn(counts, i, j);
    }
    if p < q {
      MulMono(s[p], s[q], s[0], s[1]);
    } else {
      MulMono(s[q], s[p], s[0], s[1]);
    }
  }

  /** The same bound for every pair of monkeys. */
  lemma MonkeyBusinessBounds(counts: seq<int>)
    requires forall k :: 0 <= k < |counts| ==> counts[k] >= 0
    ensures forall i, j :: 0 <= i < |counts| && 0 <= j < |counts| && i != j ==> counts[i] * counts[j] <= MonkeyBusiness(counts)
  {
    forall i, j | 0 <= i < |counts| && 0 <= j < |counts| && i != j
      ensures counts[i] * counts[j] <= MonkeyBusiness(counts)
    {
      MonkeyBusinessBound(counts, i, j);
    }
  }

  /** The product of the two busiest is the product of two different monkeys' counts. */
  lemma MonkeyBusinessAttained(counts: seq<int>)
    requires |counts| >= 2
    ensures exists i, j :: 0 <= i < |counts| && 0 <= j < |counts| && i != j && MonkeyBusiness(counts) == counts[i] * counts[j]
  {
    var s := SortDescending(counts);
    PairIn(s, 0, 1);
    var i, j := TwoPositions(counts, s[0], s[1]);
  }

  /** Two different positions hold two values of the bag. */
  lemma PairIn(s: seq<int>, i: nat, j: nat)
    requires i < |s| && j < |s| && i != j
    ensures multiset{s[i], s[j]} <= multiset(s)
  {
    RemoveMultiset(s, i);
    var rest := s[..i] + s[i + 1..];
    if j < i {
      assert rest[j] == s[j];
    } else {
      assert rest[j - 1] == s[j];
    }
  }

  /** A bag that holds `a` and `b` (twice, if they are equal) has them at two different
      positions. */
  lemma TwoPositions(s: seq<int>, a: int, b: int) returns (p: nat, q: nat)
    requires multiset{a, b} <= multiset(s)
    ensures p < |s| && q < |s| && p != q && s[p] == a && s[q] == b
  {
    assert a in multiset(s);
    p :| p < |s| && s[p] == a;
    RemoveMultiset(s, p);
    var rest := s[..p] + s[p + 1..];
    assert b in multiset(rest);
    var k :| 0 <= k < |rest| && rest[k] == b;
    q := if k < p then k else k + 1;
    assert rest[k] == s[q];
  }

  lemma RemoveMultiset(s: seq<int>, i: nat)
    requires i < |s|
    ensures multiset(s) == multiset{s[i]} + multiset(s[..i] + s[i + 1..])
  {
    assert s == s[..i] + [s[i]] + s[i + 1..];
  }

  lemma MulMono(a: int, b: int, c: int, d: int)
    requires 0 <= a <= c && 0 <= b <= d
    ensures a * b <= c * d
  {
  }

  /** What a recipient of the given side receives from `values`: its share, or every
      item when the monkey throws both ways to the same recipient. */
  function Delivered(op: Operation, scaling: int, d: int, values: seq<int>, same: bool, toTrue: bool): seq<int>
    requires d != 0
  {
    if same then Inspected(op, scaling, values) else Thrown(op, scaling, d, values, toTrue)
  }

  /** Inspecting one more item adds it at the back of the recipient the test picks. */
  lemma DeliveredStep(op: Operation, scaling: int, d: int, values: seq<int>, n: nat, same: bool, toTrue: bool)
    requires d != 0 && n < |values|
    ensures var w := Inspect(op, scaling, values[n]);
            Delivered(op, scaling, d, values[..n + 1], same, toTrue)
            == Delivered(op, scaling, d, values[..n], same, toTrue)
               + (if same || (TruncRem(w, d) == 0) == toTrue then [w] else [])
  {
    assert values[..n + 1][..n] == values[..n];
  }

  // The troop as values

  /** What a monkey does with an item: its operation, test, scaling factor and the
      positions of the two monkeys it throws to. */
  datatype Rule = Rule(operation: Operation, divisibleBy: int, scaling: int, ifTrue: nat, ifFalse: nat)

  /** The troop between two turns: the queue of every monkey and how many items each
      has inspected. */
  datatype Snapshot = Snapshot(queues: seq<seq<int>>, counts: seq<int>)

  /** Each monkey throws to two others of the troop. */
  predicate Aimed(rules: seq<Rule>)
  {
    forall i :: 0 <= i < |rules| ==>
      rules[i].ifTrue < |rules| && rules[i].ifFalse < |rules| && rules[i].ifTrue != i && rules[i].ifFalse != i
  }

  /** One rule, one queue and one count per monkey, and the rules are aimed. */
  predicate Fits(rules: seq<Rule>, s: Snapshot)
  {
    |s.queues| == |rules| && |s.counts| == |rules| && Aimed(rules)
  }

  /** Monkey `k` throws its whole queue: the items it inspects join the back of the
      queues of its recipients, in order, and its count grows by their number. */
  function Throw(rules: seq<Rule>, s: Snapshot, k: nat): (r: Snapshot)
    requires Fits(rules, s) && k < |rules| && rules[k].divisibleBy != 0
    ensures Fits(rules, r)
  {
    var rule := rules[k];
    var items := s.queues[k];
    var emptied := s.queues[k := []];
    var queues :=
      if rule.ifTrue == rule.ifFalse then
        emptied[rule.ifTrue := emptied[rule.ifTrue] + Inspected(rule.operation, rule.scaling, items)]
      else
        emptied[rule.ifTrue := emptied[rule.ifTrue] + Thrown(rule.operation, rule.scaling, rule.divisibleBy, items, true)]
               [rule.ifFalse := emptied[rule.ifFalse] + Thrown(rule.operation, rule.scaling, rule.divisibleBy, items, false)];
    Snapshot(queues, s.counts[k := s.counts[k] + |items|])
  }

  /** The turn of monkey `k`: nothing happens when it holds nothing; otherwise a zero
      divisor fails on the first item, and any other divisor throws the whole queue. */
  function TurnModel(rules: seq<Rule>, s: Snapshot, k: nat): (r: Result<Snapshot>)
    requires Fits(rules, s) && k < |rules|
    ensures r.Ok? ==> Fits(rules, r.value)
    ensures r.Err? <==> s.queues[k] != [] && rules[k].divisibleBy == 0
  {
    if s.queues[k] == [] then Ok(s)
    else if rules[k].divisibleBy == 0 then Err(DivideError)
    else Ok(Throw(rules, s, k))
  }

  /** The turns of the first `k` monkeys, in order, stopping at the first that fails. */
  function TurnsUpTo(rules: seq<Rule>, s: Snapshot, k: nat): (r: Result<Snapshot>)
    requires Fits(rules, s) && k <= |rules|
    ensures r.Ok? ==> Fits(rules, r.value)
  {
    if k == 0 then Ok(s)
    else match TurnsUpTo(rules, s, k - 1)
      case Err(e) => Err(e)
      case Ok(t) => TurnModel(rules, t, k - 1)
  }

  /** One round: the turns of all monkeys. */
  function RoundModel(rules: seq<Rule>, s: Snapshot): (r: Result<Snapshot>)
    requires Fits(rules, s)
    ensures r.Ok? ==> Fits(rules, r.value)
  {
    TurnsUpTo(rules, s, |rules|)
  }

  /** `n` rounds, stopping at the first turn that fails. */
  function Rounds(rules: seq<Rule>, s: Snapshot, n: nat): (r: Result<Snapshot>)
    requires Fits(rules, s)
    ensures r.Ok? ==> Fits(rules, r.value)
  {
    if n == 0 then Ok(s)
    else match Rounds(rules, s, n - 1)
      case Err(e) => Err(e)
      case Ok(t) => RoundModel(rules, t)
  }

  /** Once a turn has failed, the later turns do not run. */
  lemma {:induction false} TurnsStayFailed(rules: seq<Rule>, s: Snapshot, k: nat, j: nat)
    requires Fits(rules, s) && k <= j <= |rules| && TurnsUpTo(rules, s, k).Err?
    ensures TurnsUpTo(rules, s, j).Err?
    decreases j
  {
    if k < j {
      TurnsStayFailed(rules, s, k, j - 1);
    }
  }

  /** The turns up to monkey `k + 1` are those up to `k` followed by the turn of `k`. */
  lemma TurnsNext(rules: seq<Rule>, s: Snapshot, k: nat, t: Snapshot)
    requires Fits(rules, s) && k < |rules| && TurnsUpTo(rules, s, k) == Ok(t)
    ensures TurnsUpTo(rules, s, k + 1) == TurnModel(rules, t, k)
  {
  }

  /** `n + 1` rounds are `n` rounds followed by one more. */
  lemma RoundsNext(rules: seq<Rule>, s: Snapshot, n: nat, t: Snapshot)
    requires Fits(rules, s) && Rounds(rules, s, n) == Ok(t)
    ensures Rounds(rules, s, n + 1) == RoundModel(rules, t)
  {
  }

  /** Once a round has failed, the later rounds do not run. */
  lemma {:induction false} RoundsStayFailed(rules: seq<Rule>, s: Snapshot, k: nat, n: nat)
    requires Fits(rules, s) && k <= n && Rounds(rules, s, k).Err?
    ensures Rounds(rules, s, n).Err?
    decreases n
  {
    if k < n {
      RoundsStayFailed(rules, s, k, n - 1);
    }
  }

  /** The number of items in all queues. */
  function ItemCount(queues: seq<seq<int>>): (n: nat)
  {
    if queues == [] then 0 else ItemCount(queues[..|queues| - 1]) + |queues[|queues| - 1]|
  }

  /** A turn moves items between queues but neither loses nor makes any. */
  lemma ThrowKeepsItems(rules: seq<Rule>, s: Snapshot, k: nat)
    requires Fits(rules, s) && k < |rules| && rules[k].divisibleBy != 0
    ensures ItemCount(Throw(rules, s, k).queues) == ItemCount(s.queues)
  {
    var rule := rules[k];
    var items := s.queues[k];
    ThrownSplit(rule.operation, rule.scaling, rule.divisibleBy, items);
    var emptied := s.queues[k := []];
    ItemCountUpdate(s.queues, k, []);
    if rule.ifTrue == rule.ifFalse {
      ItemCountUpdate(emptied, rule.ifTrue, emptied[rule.ifTrue] + Inspected(rule.operation, rule.scaling, items));
    } else {
      var once := emptied[rule.ifTrue := emptied[rule.ifTrue] + Thrown(rule.operation, rule.scaling, rule.divisibleBy, items, true)];
      ItemCountUpdate(emptied, rule.ifTrue, once[rule.ifTrue]);
      ItemCountUpdate(once, rule.ifFalse, emptied[rule.ifFalse] + Thrown(rule.operation, rule.scaling, rule.divisibleBy, items, false));
    }
  }

  lemma {:induction false} ItemCountUpdate(queues: seq<seq<int>>, i: nat, q: seq<int>)
    requires i < |queues|
    ensures ItemCount(queues[i := q]) == ItemCount(queues) - |queues[i]| + |q|
    decreases |queues|
  {
    var n := |queues| - 1;
    if i < n {
      ItemCountUpdate(queues[..n], i, q);
      assert queues[i := q][..n] == queues[..n][i := q];
    } else {
      assert queues[i := q][..n] == queues[..n];
    }
  }

  /** A turn that succeeds, told monkey by monkey: the thrower's queue is empty and its
      count grew by what it held, its recipients received what `Throw` sends them, and
      every other monkey is untouched. Such a troop is the one `TurnModel` yields, with
      as many items in play. */
  lemma TurnOutcome(rules: seq<Rule>, s: Snapshot, k: nat, t: Snapshot)
    requires Fits(rules, s) && k < |rules|
    requires |t.queues| == |rules| && |t.counts| == |rules|
    requires t.queues[k] == [] && t.counts[k] == s.counts[k] + |s.queues[k]|
    requires forall i :: 0 <= i < |rules| && i != k ==> t.counts[i] == s.counts[i]
    requires var rule := rules[k];
             forall i :: 0 <= i < |rules| && i != k && i != rule.ifTrue && i != rule.ifFalse ==> t.queues[i] == s.queues[i]
    requires var rule := rules[k];
             rule.divisibleBy == 0 ==>
               s.queues[k] == [] && t.queues[rule.ifTrue] == s.queues[rule.ifTrue] && t.queues[rule.ifFalse] == s.queues[rule.ifFalse]
    requires var rule := rules[k];
             rule.divisibleBy != 0 && rule.ifTrue == rule.ifFalse ==>
               t.queues[rule.ifTrue] == s.queues[rule.ifTrue] + Inspected(rule.operation, rule.scaling, s.queues[k])
    requires var rule := rules[k];
             rule.divisibleBy != 0 && rule.ifTrue != rule.ifFalse ==>
               t.queues[rule.ifTrue] == s.queues[rule.ifTrue] + Thrown(rule.operation, rule.scaling, rule.divisibleBy, s.queues[k], true)
               && t.queues[rule.ifFalse] == s.queues[rule.ifFalse] + Thrown(rule.operation, rule.scaling, rule.divisibleBy, s.queues[k], false)
    ensures TurnModel(rules, s, k) == Ok(t)
    ensures ItemCount(t.queues) == ItemCount(s.queues)
  {
    if s.queues[k] == [] {
      var rule := rules[k];
      if rule.divisibleBy != 0 {
        assert Inspected(rule.operation, rule.scaling, []) == [];
        assert Thrown(rule.operation, rule.scaling, rule.divisibleBy, [], true) == [];
        assert Thrown(rule.operation, rule.scaling, rule.divisibleBy, [], false) == [];
      }
      assert forall i :: 0 <= i < |rules| ==> t.queues[i] == s.queues[i];
      assert forall i :: 0 <= i < |rules| ==> t.counts[i] == s.counts[i];
      assert t == s;
    } else {
      var e := Throw(rules, s, k);
      assert forall i :: 0 <= i < |rules| ==> t.queues[i] == e.queues[i];
      assert forall i :: 0 <= i < |rules| ==> t.counts[i] == e.counts[i];
      assert t == e;
      ThrowKeepsItems(rules, s, k);
    }
  }

  /** Rounds that succeed keep the number of items in play. */
  lemma {:induction false} RoundsKeepItems(rules: seq<Rule>, s: Snapshot, n: nat)
    requires Fits(rules, s) && Rounds(rules, s, n).Ok?
    ensures ItemCount(Rounds(rules, s, n).value.queues) == ItemCount(s.queues)
  {
    if n > 0 {
      var t := Rounds(rules, s, n - 1).value;
      RoundsKeepItems(rules, s, n - 1);
      TurnsKeepItems(rules, t, |rules|);
    }
  }

  lemma {:induction false} TurnsKeepItems(rules: seq<Rule>, s: Snapshot, k: nat)
    requires Fits(rules, s) && k <= |rules| && TurnsUpTo(rules, s, k).Ok?
    ensures ItemCount(TurnsUpTo(rules, s, k).value.queues) == ItemCount(s.queues)
  {
    if k > 0 {
      var t := TurnsUpTo(rules, s, k - 1).value;
      TurnsKeepItems(rules, s, k - 1);
      if t.queues[k - 1] != [] {
        ThrowKeepsItems(rules, t, k - 1);
      }
    }
  }

  // The monkeys

  /** A monkey: the queue of worry levels it holds, its test, its operation, the two
      monkeys it throws to and how many items it has inspected. */
  class Monkey {
    var items: seq<int>
    const divisibleBy: int
    const operation: Operation
    var trueDest: Monkey?
    var falseDest: Monkey?
    var inspected: int
    var scalingFactor: int

    constructor(divisibleBy: int, operation: Operation)
      ensures this.divisibleBy == divisibleBy && this.operation == operation
      ensures items == [] && trueDest == null && falseDest == null
      ensures inspected == 0 && scalingFactor == 0
    {
      this.divisibleBy := divisibleBy;
      this.operation := operation;
      items := [];
      trueDest := null;
      falseDest := null;
      inspected := 0;
      scalingFactor := 0;
    }

    /** Everything about a monkey except the items it holds. */
    function Wiring(): (Monkey?, Monkey?, int, int)
      reads this
    {
      (trueDest, falseDest, inspected, scalingFactor)
    }

    /** `AddItem`: the value joins the back of the queue. */
    method AddItem(value: int)
      modifies this
      ensures items == old(items) + [value]
      ensures Wiring() == old(Wiring())
    {
      items := items + [value];
    }

    /** `InspectItems`: the monkey inspects its items front to back and throws each to
        the monkey its test picks, until it holds none. */
    method InspectItems() returns (failure: Option<string>)
      requires trueDest != this && falseDest != this
      modifies this, trueDest, falseDest
      ensures trueDest == old(trueDest) && falseDest == old(falseDest)
      ensures scalingFactor == old(scalingFactor)
      ensures trueDest == null || falseDest == null ==>
                failure == Some(RecipientError) && items == old(items) && inspected == old(inspected)
      ensures trueDest != null && falseDest != null ==>
                trueDest.Wiring() == old(trueDest.Wiring()) && falseDest.Wiring() == old(falseDest.Wiring())
      ensures trueDest != null && falseDest != null && divisibleBy == 0 ==>
                trueDest.items == old(trueDest.items) && falseDest.items == old(falseDest.items)
                && inspected == old(inspected)
                && if old(items) == [] then failure == None && items == []
                   else failure == Some(DivideError) && items == old(items)[1..]
      ensures trueDest != null && falseDest != null && divisibleBy != 0 ==>
                failure == None && items == [] && inspected == old(inspected) + |old(items)|
                && (trueDest != falseDest ==>
                      trueDest.items == old(trueDest.items) + Thrown(operation, scalingFactor, divisibleBy, old(items), true)
                      && falseDest.items == old(falseDest.items) + Thrown(operation, scalingFactor, divisibleBy, old(items), false))
                && (trueDest == falseDest ==>
                      trueDest.items == old(trueDest.items) + Inspected(operation, scalingFactor, old(items)))
    {
      if trueDest == null || falseDest == null {
        return Some(RecipientError);
      }
      var t, f := trueDest, falseDest;
      ghost var values := items;
      ghost var n := 0;
      while items != []
        invariant 0 <= n <= |values| && items == values[n..]
        invariant trueDest == t && falseDest == f && scalingFactor == old(scalingFactor)
        invariant inspected == old(inspected) + n
        invariant divisibleBy == 0 ==> n == 0
        invariant t.Wiring() == old(t.Wiring()) && f.Wiring() == old(f.Wiring())
        invariant divisibleBy == 0 ==> t.items == old(t.items) && f.items == old(f.items)
        invariant divisibleBy != 0 ==>
                    t.items == old(t.items) + Delivered(operation, scalingFactor, divisibleBy, values[..n], t == f, true)
                    && f.items == old(f.items) + Delivered(operation, scalingFactor, divisibleBy, values[..n], t == f, false)
        decreases |items|
      {
        var value := items[0];
        items := items[1..];
        var newValue := Inspect(operation, scalingFactor, value);
        if divisibleBy == 0 {
          return Some(DivideError);
        }
        DeliveredStep(operation, scalingFactor, divisibleBy, values, n, t == f, true);
        DeliveredStep(operation, scalingFactor, divisibleBy, values, n, t == f, false);
        if TruncRem(newValue, divisibleBy) == 0 {
          t.AddItem(newValue);
        } else {
          f.AddItem(newValue);
        }
        inspected := inspected + 1;
        n := n + 1;
      }
      assert values[..n] == values;
      return None;
    }
  }

  /** The queue of every monkey. */
  ghost function Queues(ms: seq<Monkey>): (r: seq<seq<int>>)
    reads ms
    ensures |r| == |ms|
  {
    if ms == [] then [] else Queues(ms[..|ms| - 1]) + [ms[|ms| - 1].items]
  }

  /** Queue `i` is the queue of monkey `i`. */
  lemma {:induction false} QueuesMeaning(ms: seq<Monkey>)
    ensures forall i :: 0 <= i < |ms| ==> Queues(ms)[i] == ms[i].items
  {
    if ms != [] {
      var front := ms[..|ms| - 1];
      QueuesMeaning(front);
      assert forall i :: 0 <= i < |front| ==> ms[i] == front[i];
    }
  }

  /** How many items each monkey inspected. */
  function Inspections(ms: seq<Monkey>): (r: seq<int>)
    reads ms
    ensures |r| == |ms|
  {
    if ms == [] then [] else Inspections(ms[..|ms| - 1]) + [ms[|ms| - 1].inspected]
  }

  /** Count `i` is the count of monkey `i`. */
  lemma {:induction false} InspectionsMeaning(ms: seq<Monkey>)
    ensures forall i :: 0 <= i < |ms| ==> Inspections(ms)[i] == ms[i].inspected
  {
    if ms != [] {
      var front := ms[..|ms| - 1];
      InspectionsMeaning(front);
      assert forall i :: 0 <= i < |front| ==> ms[i] == front[i];
    }
  }

  /** The troop of monkeys; `rules` holds, by position, what each monkey does with an
      item and the positions of the two monkeys it throws to. */
  class Puzzle {
    const monkeys: seq<Monkey>
    ghost const rules: seq<Rule>

    constructor(monkeys: seq<Monkey>, ghost rules: seq<Rule>)
      ensures this.monkeys == monkeys && this.rules == rules
    {
      this.monkeys := monkeys;
      this.rules := rules;
    }

    /** Monkey `i` follows `rules[i]`: its operation, divisor and scaling factor, and it
        throws to the two monkeys the rule names. */
    ghost predicate Follows(i: nat)
      requires i < |monkeys| && |rules| == |monkeys| && Aimed(rules)
      reads this, monkeys
    {
      var rule := rules[i];
      rule == Rule(monkeys[i].operation, monkeys[i].divisibleBy, monkeys[i].scalingFactor, rule.ifTrue, rule.ifFalse)
      && monkeys[i].trueDest == monkeys[rule.ifTrue] && monkeys[i].falseDest == monkeys[rule.ifFalse]
    }

    /** The monkeys are different objects, each follows its rule and throws to two others
        of the troop, and the inspection counts are not negative. */
    ghost predicate Valid()
      reads this, monkeys
    {
      |rules| == |monkeys| && Aimed(rules)
      && (forall i, j :: 0 <= i < j < |monkeys| ==> monkeys[i] != monkeys[j])
      && (forall i :: 0 <= i < |monkeys| ==> Follows(i))
      && (forall i :: 0 <= i < |monkeys| ==> monkeys[i].inspected >= 0)
    }

    /** The queues and inspection counts of the troop, as values. */
    ghost function State(): (s: Snapshot)
      reads this, monkeys
      ensures |s.queues| == |monkeys| && |s.counts| == |monkeys|
    {
      Snapshot(Queues(monkeys), Inspections(monkeys))
    }

    /** The number of items in play. */
    ghost function Total(): int
      reads this, monkeys
    {
      ItemCount(Queues(monkeys))
    }

    /** One round: every monkey in turn inspects and throws all its items, as
        `RoundFrom` does on the troop's values. Items move between monkeys but none is
        lost or made. */
    method Round() returns (failure: Option<string>)
      requires Valid()
      modifies monkeys
      ensures Valid()
      ensures failure.None? ==> Total() == old(Total())
      ensures failure.Some? ==> failure.value == DivideError
      ensures failure.Some? <==> RoundModel(rules, old(State())).Err?
      ensures failure.None? ==> RoundModel(rules, old(State())) == Ok(State())
    {
      ghost var s0, total := State(), Total();
      var k := 0;
      while k < |monkeys|
        invariant 0 <= k <= |monkeys|
        invariant Valid() && Total() == total
        invariant TurnsUpTo(rules, s0, k) == Ok(State())
      {
        TurnsNext(rules, s0, k, State());
        failure := Turn(k);
        if failure.Some? {
          TurnsStayFailed(rules, s0, k + 1, |monkeys|);
          return;
        }
        k := k + 1;
      }
      failure := None;
    }

    /** The turn of monkey `k` within a round: it empties its queue into the two monkeys
        it throws to, which keeps the number of items in play. */
    method Turn(k: nat) returns (failure: Option<string>)
      requires Valid() && k < |monkeys|
      modifies monkeys
      ensures Valid()
      ensures failure.None? ==> Total() == old(Total()) && monkeys[k].items == []
      ensures failure.Some? ==> failure.value == DivideError
      ensures failure.Some? <==> TurnModel(rules, old(State()), k).Err?
      ensures failure.None? ==> TurnModel(rules, old(State()), k) == Ok(State())
    {
      var m := monkeys[k];
      ghost var s0 := State();
      QueuesMeaning(monkeys);
      InspectionsMeaning(monkeys);
      assert Follows(k);
      ghost var (a, b) := (rules[k].ifTrue, rules[k].ifFalse);
      assert s0.queues[k] == m.items && rules[k] == Rule(m.operation, m.divisibleBy, m.scalingFactor, a, b);
      assert s0.queues[a] == monkeys[a].items && s0.queues[b] == monkeys[b].items && s0.counts[k] == m.inspected;
      failure := m.InspectItems();
      ghost var q := Queues(monkeys);
      ghost var c := Inspections(monkeys);
      QueuesMeaning(monkeys);
      InspectionsMeaning(monkeys);
      forall i | 0 <= i < |monkeys|
        ensures monkeys[i].trueDest == old(monkeys[i].trueDest)
        ensures monkeys[i].falseDest == old(monkeys[i].falseDest)
        ensures monkeys[i].inspected >= old(monkeys[i].inspected)
        ensures monkeys[i].scalingFactor == old(monkeys[i].scalingFactor)
        ensures i != k ==> c[i] == s0.counts[i]
        ensures i != k && i != a && i != b ==> q[i] == s0.queues[i]
      {
      }
      assert forall i :: 0 <= i < |monkeys| ==> Follows(i) by {
        forall i | 0 <= i < |monkeys|
          ensures Follows(i)
        {
          assert old(Follows(i));
        }
      }
      if failure.Some? {
        return;
      }
      TurnOutcome(rules, s0, k, Snapshot(q, c));
    }

    /** The loop of `ComputeSolution`: the given number of rounds, as `Rounds` runs
        them on the troop's values, stopping at the first failure. */
    method PlayRounds(rounds: int) returns (failure: Option<string>)
      requires Valid()
      modifies monkeys
      ensures Valid()
      ensures failure.Some? ==> failure.value == DivideError
      ensures failure.None? ==> Total() == old(Total())
      ensures failure.Some? <==> Rounds(rules, old(State()), Max(rounds, 0)).Err?
      ensures failure.None? ==> Rounds(rules, old(State()), Max(rounds, 0)) == Ok(State())
    {
      ghost var s0, total := State(), Total();
      var n := if rounds < 0 then 0 else rounds;
      for i := 0 to n
        invariant Valid() && Total() == total && Fits(rules, s0)
        invariant Rounds(rules, s0, i) == Ok(State())
      {
        failure := PlayRound(s0, i);
        if failure.Some? {
          RoundsStayFailed(rules, s0, i + 1, n);
          return;
        }
      }
      failure := None;
    }

    /** Round `n + 1` of a game that started from `s0`. */
    method PlayRound(ghost s0: Snapshot, ghost n: nat) returns (failure: Option<string>)
      requires Valid() && Fits(rules, s0) && Rounds(rules, s0, n) == Ok(State())
      modifies monkeys
      ensures Valid()
      ensures failure.Some? ==> failure.value == DivideError && Rounds(rules, s0, n + 1).Err?
      ensures failure.None? ==> Total() == old(Total()) && Rounds(rules, s0, n + 1) == Ok(State())
    {
      RoundsNext(rules, s0, n, State());
      failure := Round();
    }

    /** `ComputeSolution`: the given number of rounds, then the product of the two
        largest inspection counts, which no two monkeys' counts exceed. */
    method ComputeSolution(rounds: int) returns (r: Result<int>)
      requires Valid()
      modifies monkeys
      ensures Valid()
      ensures r.Err? ==> r.message == DivideError
      ensures r.Ok? ==> Total() == old(Total()) && r.value == MonkeyBusiness(Inspections(monkeys))
      ensures r.Ok? ==> forall i, j :: 0 <= i < |monkeys| && 0 <= j < |monkeys| && i != j ==>
                          monkeys[i].inspected * monkeys[j].inspected <= r.value
      ensures r.Ok? && |monkeys| >= 2 ==>
                exists i, j :: 0 <= i < |monkeys| && 0 <= j < |monkeys| && i != j
                               && r.value == monkeys[i].inspected * monkeys[j].inspected
      ensures r.Err? <==> Rounds(rules, old(State()), Max(rounds, 0)).Err?
      ensures r.Ok? ==> Rounds(rules, old(State()), Max(rounds, 0)) == Ok(State())
                        && r.value == MonkeyBusiness(Rounds(rules, old(State()), Max(rounds, 0)).value.counts)
    {
      var failure := PlayRounds(rounds);
      if failure.Some? {
        return Err(failure.value);
      }
      var v := Score();
      r := Ok(v);
    }

    /** The product of the two largest inspection counts, which no two monkeys' counts
        exceed and which two different monkeys attain. */
    method Score() returns (v: int)
      requires Valid()
      ensures v == MonkeyBusiness(Inspections(monkeys)) && v == MonkeyBusiness(State().counts)
      ensures forall i, j :: 0 <= i < |monkeys| && 0 <= j < |monkeys| && i != j ==>
                monkeys[i].inspected * monkeys[j].inspected <= v
      ensures |monkeys| >= 2 ==>
                exists i, j :: 0 <= i < |monkeys| && 0 <= j < |monkeys| && i != j
                               && v == monkeys[i].inspected * monkeys[j].inspected
    {
      var counts := Inspections(monkeys);
      InspectionsMeaning(monkeys);
      assert State().counts == counts;
      v := MonkeyBusiness(counts);
      MonkeyBusinessBounds(counts);
      if |monkeys| >= 2 {
        MonkeyBusinessAttained(counts);
      }
    }
  }

  /** The rule of every monkey as its block of the notes describes it, the scaling
      factor being the product of all divisors when scaling and 0 otherwise. */
  function RulesFor(headers: seq<Header>, holdings: seq<Holding>, scale: bool): (r: seq<Rule>)
    requires |holdings| == |headers|
    ensures |r| == |headers|
    ensures forall m :: 0 <= m < |headers| ==>
              r[m] == Rule(headers[m].operation, headers[m].divisibleBy, if scale then Product(Divisors(headers)) else 0,
                           holdings[m].ifTrue, holdings[m].ifFalse)
    ensures Outward(holdings) && (forall m :: 0 <= m < |holdings| ==> holdings[m].ifTrue < |headers| && holdings[m].ifFalse < |headers|)
            ==> Aimed(r)
  {
    RulesFrom(headers, holdings, if scale then Product(Divisors(headers)) else 0, |headers|)
  }

  /** The rules of the first `n` monkeys, with the given scaling factor. */
  function RulesFrom(headers: seq<Header>, holdings: seq<Holding>, scaling: int, n: nat): (r: seq<Rule>)
    requires |holdings| == |headers| && n <= |headers|
    ensures |r| == n
    ensures forall m :: 0 <= m < n ==>
              r[m] == Rule(headers[m].operation, headers[m].divisibleBy, scaling, holdings[m].ifTrue, holdings[m].ifFalse)
  {
    if n == 0 then []
    else RulesFrom(headers, holdings, scaling, n - 1)
         + [Rule(headers[n - 1].operation, headers[n - 1].divisibleBy, scaling, holdings[n - 1].ifTrue, holdings[n - 1].ifFalse)]
  }

  /** The troop is the one the notes describe, before any round: each monkey has the
      divisor, operation, items and recipients of its block, the common scaling factor
      (the product of all divisors) when scaling, and has inspected nothing. */
  ghost predicate Built(p: Puzzle, headers: seq<Header>, holdings: seq<Holding>, scale: bool)
    reads p, p.monkeys
  {
    |p.monkeys| == |headers| && |holdings| == |headers| && p.rules == RulesFor(headers, holdings, scale)
    && forall m :: 0 <= m < |p.monkeys| ==>
         p.monkeys[m].divisibleBy == headers[m].divisibleBy
         && p.monkeys[m].operation == headers[m].operation
         && p.monkeys[m].items == holdings[m].items
         && p.monkeys[m].inspected == 0
         && p.monkeys[m].scalingFactor == (if scale then Product(Divisors(headers)) else 0)
  }

  /** `new Puzzle(inputFile, scale)`, from the lines of the input file: it fails exactly
      when the notes do not read, and otherwise builds the troop they describe. */
  method NewPuzzle(lines: seq<string>, scale: bool) returns (r: Result<Puzzle>)
    ensures r.Err? <==> ParseNotes(lines).Err?
    ensures r.Err? ==> r.message == ParseNotes(lines).message
    ensures r.Ok? ==> fresh(r.value) && r.value.Valid()
                      && Built(r.value, ParseNotes(lines).value.0, ParseNotes(lines).value.1, scale)
  {
    var notes := ParseNotes(lines);
    if notes.Err? {
      return Err(notes.message);
    }
    var p := Build(notes.value.0, notes.value.1, scale);
    r := Ok(p);
  }

  /** Monkeys made from the notes follow the rules the notes describe. */
  lemma TroopFollows(p: Puzzle, headers: seq<Header>, holdings: seq<Holding>, scale: bool)
    requires |p.monkeys| == |headers| && |holdings| == |headers| && Outward(holdings)
    requires forall m :: 0 <= m < |holdings| ==> holdings[m].ifTrue < |headers| && holdings[m].ifFalse < |headers|
    requires p.rules == RulesFor(headers, holdings, scale)
    requires forall i :: 0 <= i < |p.monkeys| ==>
               p.monkeys[i].divisibleBy == headers[i].divisibleBy && p.monkeys[i].operation == headers[i].operation
    requires forall i :: 0 <= i < |p.monkeys| ==> Connected(p.monkeys, holdings, i, scale, Product(Divisors(headers)))
    ensures Aimed(p.rules) && forall i :: 0 <= i < |p.monkeys| ==> p.Follows(i)
  {
    forall i | 0 <= i < |p.monkeys|
      ensures p.Follows(i)
    {
      assert Connected(p.monkeys, holdings, i, scale, Product(Divisors(headers)));
      assert p.rules[i].ifTrue == holdings[i].ifTrue && p.rules[i].ifFalse == holdings[i].ifFalse;
    }
  }

  /** Monkeys made from the headers and connected by the holdings are the troop the
      notes describe. */
  lemma ConnectedBuilt(p: Puzzle, headers: seq<Header>, holdings: seq<Holding>, scale: bool)
    requires |p.monkeys| == |headers| && |holdings| == |headers| && p.rules == RulesFor(headers, holdings, scale)
    requires forall m :: 0 <= m < |holdings| ==> holdings[m].ifTrue < |headers| && holdings[m].ifFalse < |headers|
    requires forall i :: 0 <= i < |p.monkeys| ==>
               p.monkeys[i].divisibleBy == headers[i].divisibleBy && p.monkeys[i].operation == headers[i].operation
               && p.monkeys[i].inspected == 0
    requires forall i :: 0 <= i < |p.monkeys| ==> Connected(p.monkeys, holdings, i, scale, Product(Divisors(headers)))
    ensures Built(p, headers, holdings, scale)
  {
    forall m | 0 <= m < |p.monkeys|
      ensures p.monkeys[m].items == holdings[m].items
      ensures p.monkeys[m].scalingFactor == (if scale then Product(Divisors(headers)) else 0)
    {
      assert Connected(p.monkeys, holdings, m, scale, Product(Divisors(headers)));
    }
  }

  /** The troop from notes that read: both passes of the constructor. */
  method Build(headers: seq<Header>, holdings: seq<Holding>, scale: bool) returns (p: Puzzle)
    requires |holdings| == |headers| && Outward(holdings)
    requires forall m :: 0 <= m < |holdings| ==> holdings[m].ifTrue < |headers| && holdings[m].ifFalse < |headers|
    ensures fresh(p) && p.Valid() && Built(p, headers, holdings, scale)
  {
    var ms, divs := CreateMonkeys(headers);
    var scalingFactor := Product(divs);
    Connect(ms, holdings, scale, scalingFactor);
    p := new Puzzle(ms, RulesFor(headers, holdings, scale));
    Assemble(p, headers, holdings, scale, scalingFactor);
  }

  /** A troop whose monkeys were created from the headers and connected by the holdings
      is valid and is the one the notes describe. */
  lemma Assemble(p: Puzzle, headers: seq<Header>, holdings: seq<Holding>, scale: bool, scalingFactor: int)
    requires |p.monkeys| == |headers| && |holdings| == |headers| && Outward(holdings)
    requires forall m :: 0 <= m < |holdings| ==> holdings[m].ifTrue < |headers| && holdings[m].ifFalse < |headers|
    requires scalingFactor == Product(Divisors(headers)) && p.rules == RulesFor(headers, holdings, scale)
    requires forall i, j :: 0 <= i < j < |p.monkeys| ==> p.monkeys[i] != p.monkeys[j]
    requires forall i :: 0 <= i < |p.monkeys| ==>
               p.monkeys[i].divisibleBy == headers[i].divisibleBy && p.monkeys[i].operation == headers[i].operation
               && p.monkeys[i].inspected == 0
    requires forall i :: 0 <= i < |p.monkeys| ==> Connected(p.monkeys, holdings, i, scale, scalingFactor)
    ensures p.Valid() && Built(p, headers, holdings, scale)
  {
    TroopFollows(p, headers, holdings, scale);
    ConnectedBuilt(p, headers, holdings, scale);
  }

  /** The constructor's first pass: a new monkey per header, holding nothing yet, and
      the list of divisors. */
  method CreateMonkeys(headers: seq<Header>) returns (ms: seq<Monkey>, divs: seq<int>)
    ensures |ms| == |headers| && divs == Divisors(headers)
    ensures forall i, j :: 0 <= i < j < |ms| ==> ms[i] != ms[j]
    ensures forall i :: 0 <= i < |ms| ==>
              fresh(ms[i]) && ms[i].divisibleBy == headers[i].divisibleBy && ms[i].operation == headers[i].operation
              && ms[i].items == [] && ms[i].inspected == 0 && ms[i].scalingFactor == 0
  {
    ms, divs := [], [];
    var m := 0;
    while m < |headers|
      invariant 0 <= m <= |headers| && |ms| == m && divs == Divisors(headers[..m])
      invariant forall i, j :: 0 <= i < j < m ==> ms[i] != ms[j]
      invariant forall i :: 0 <= i < m ==>
                  fresh(ms[i]) && ms[i].divisibleBy == headers[i].divisibleBy && ms[i].operation == headers[i].operation
                  && ms[i].items == [] && ms[i].inspected == 0 && ms[i].scalingFactor == 0
    {
      var monkey := new Monkey(headers[m].divisibleBy, headers[m].operation);
      assert headers[..m + 1][..m] == headers[..m];
      divs := divs + [headers[m].divisibleBy];
      ms := ms + [monkey];
      m := m + 1;
    }
    assert headers[..m] == headers;
  }

  /** Monkey `i` holds its starting items, throws to its two recipients and has the
      scaling factor. */
  ghost predicate Connected(ms: seq<Monkey>, holdings: seq<Holding>, i: nat, scale: bool, scalingFactor: int)
    requires i < |ms| && i < |holdings| && holdings[i].ifTrue < |ms| && holdings[i].ifFalse < |ms|
    reads ms[i]
  {
    ms[i].items == holdings[i].items
    && ms[i].trueDest == ms[holdings[i].ifTrue] && ms[i].falseDest == ms[holdings[i].ifFalse]
    && ms[i].scalingFactor == (if scale then scalingFactor else 0)
  }

  /** The constructor's second pass: every monkey gets the scaling factor when scaling,
      its starting items in order, and its two recipients. */
  method Connect(ms: seq<Monkey>, holdings: seq<Holding>, scale: bool, scalingFactor: int)
    requires |ms| == |holdings|
    requires forall i, j :: 0 <= i < j < |ms| ==> ms[i] != ms[j]
    requires forall i :: 0 <= i < |holdings| ==> holdings[i].ifTrue < |ms| && holdings[i].ifFalse < |ms|
    requires forall i :: 0 <= i < |ms| ==> ms[i].items == [] && ms[i].scalingFactor == 0
    modifies ms
    ensures forall i :: 0 <= i < |ms| ==> ms[i].inspected == old(ms[i].inspected)
    ensures forall i :: 0 <= i < |ms| ==> Connected(ms, holdings, i, scale, scalingFactor)
  {
    var m := 0;
    while m < |ms|
      invariant 0 <= m <= |ms|
      invariant forall i :: 0 <= i < |ms| ==> ms[i].inspected == old(ms[i].inspected)
      invariant forall i :: 0 <= i < m ==> Connected(ms, holdings, i, scale, scalingFactor)
      invariant forall i :: m <= i < |ms| ==> ms[i].items == [] && ms[i].scalingFactor == 0
    {
      var monkey := ms[m];
      if scale {
        monkey.scalingFactor := scalingFactor;
      }
      var items := holdings[m].items;
      for j := 0 to |items|
        invariant monkey.items == items[..j]
        invariant monkey.scalingFactor == (if scale then scalingFactor else 0)
        invariant monkey.inspected == old(monkey.inspected)
        modifies monkey
      {
        monkey.AddItem(items[j]);
        assert items[..j + 1] == items[..j] + [items[j]];
      }
      assert items[..|items|] == items;
      monkey.trueDest := ms[holdings[m].ifTrue];
      monkey.falseDest := ms[holdings[m].ifFalse];
      m := m + 1;
    }
  }
}
