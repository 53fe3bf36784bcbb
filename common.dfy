/** Helpers shared by the puzzle models: failure-carrying wrappers, .NET-style
    whitespace trimming, sums and a stable insertion sort. */
module Common {

  /** A value that may be absent (a C# nullable or a `null` reference). */
  datatype Option<T> = None | Some(value: T)

  /** The outcome of an operation that the C# code ends by throwing an exception. */
  datatype Result<T> = Ok(value: T) | Err(message: string)

  function Max(a: int, b: int): int { if a >= b then a else b }
  function Min(a: int, b: int): int { if a <= b then a else b }
  function Abs(a: int): nat { if a >= 0 then a else -a }

  /** Math.Sign */
  function Sign(a: int): int { if a > 0 then 1 else if a < 0 then -1 else 0 }

  /** C#'s integer `/`: the quotient rounded toward zero. */
  function TruncDiv(a: int, b: int): (q: int)
    requires b != 0
    ensures a >= 0 && b > 0 ==> q == a / b
  {
    if a >= 0 then (if b > 0 then a / b else -(a / -b))
    else (if b > 0 then -(-a / b) else -a / -b)
  }

  /** C#'s integer `%` (and the remainder of `Math.DivRem`): it takes the sign of the dividend. */
  function TruncRem(a: int, b: int): (r: int)
    requires b != 0
    ensures a == TruncDiv(a, b) * b + r
    ensures a >= 0 ==> 0 <= r < Abs(b)
    ensures a < 0 ==> r <= 0 && r + Abs(b) > 0
  {
    if a >= 0 then
      (if b > 0 then a % b
       else assert a == (a / -b) * -b + a % -b; a % -b)
    else
      (if b > 0 then assert -a == (-a / b) * b + -a % b; -(-a % b)
       else assert -a == (-a / -b) * -b + -a % -b; -(-a % -b))
  }

  /** Euclidean division has one quotient and one remainder. */
  lemma ModUnique(a: int, d: int, q: int, r: int)
    requires d > 0 && 0 <= r < d && a == q * d + r
    ensures a / d == q && a % d == r
  {
    var q2, r2 := a / d, a % d;
    assert (q2 - q) * d == r - r2;
    if q2 > q {
      MulAtLeast(q2 - q, d);
    } else if q2 < q {
      MulAtMost(q2 - q, d);
    }
  }

  lemma MulAtLeast(x: int, d: int)
    requires x >= 1 && d > 0
    ensures x * d >= d
  {
  }

  lemma MulAtMost(x: int, d: int)
    requires x <= -1 && d > 0
    ensures x * d <= -d
  {
  }

  /** The ASCII characters that `char.IsWhiteSpace` accepts (non-ASCII input is not modelled). */
  predicate IsWhiteSpace(c: char)
  {
    c == ' ' || c == '\t' || c == '\n' || c == '\r' || c == '\U{B}' || c == '\U{C}'
  }

  /** The number of white-space characters at the front of `s`. */
  function LeadingSpace(s: string): (n: nat)
    ensures n <= |s|
    ensures forall k :: 0 <= k < n ==> IsWhiteSpace(s[k])
    ensures n == |s| || !IsWhiteSpace(s[n])
  {
    if s != [] && IsWhiteSpace(s[0]) then 1 + LeadingSpace(s[1..]) else 0
  }

  /** The number of white-space characters at the back of `s`. */
  function TrailingSpace(s: string): (n: nat)
    ensures n <= |s|
    ensures forall k :: |s| - n <= k < |s| ==> IsWhiteSpace(s[k])
    ensures n == |s| || !IsWhiteSpace(s[|s| - n - 1])
  {
    if s != [] && IsWhiteSpace(s[|s| - 1]) then 1 + TrailingSpace(s[..|s| - 1]) else 0
  }

  /** `string.Trim()`: drops leading and trailing white space and keeps the rest in order. */
  function Trim(s: string): (r: string)
    ensures LeadingSpace(s) + |r| <= |s|
    ensures r == s[LeadingSpace(s)..LeadingSpace(s) + |r|]
    ensures forall k :: 0 <= k < LeadingSpace(s) || LeadingSpace(s) + |r| <= k < |s| ==> IsWhiteSpace(s[k])
    ensures r == [] || (!IsWhiteSpace(r[0]) && !IsWhiteSpace(r[|r| - 1]))
  {
    var t := s[LeadingSpace(s)..];
    t[..|t| - TrailingSpace(t)]
  }

  /** The sum of a sequence (LINQ `Sum`). */
  function Sum(s: seq<int>): int
  {
    if s == [] then 0 else Sum(s[..|s| - 1]) + s[|s| - 1]
  }

  lemma {:induction false} SumAppend(a: seq<int>, b: seq<int>)
    ensures Sum(a + b) == Sum(a) + Sum(b)
  {
    if b == [] {
      assert a + b == a;
    } else {
      assert (a + b)[..|a + b| - 1] == a + b[..|b| - 1];
      SumAppend(a, b[..|b| - 1]);
    }
  }

  /** Taking the last element out of `a` and an equal element out of a permutation `b` of
      it leaves permutations of each other. */
  lemma RemoveLast<T>(a: seq<T>, b: seq<T>, k: nat)
    requires a != [] && multiset(a) == multiset(b) && k < |b| && b[k] == a[|a| - 1]
    ensures multiset(a[..|a| - 1]) == multiset(b[..k] + b[k + 1..])
  {
    var y := b[k];
    assert a == a[..|a| - 1] + [y];
    assert b == b[..k] + [y] + b[k + 1..];
    assert multiset(a[..|a| - 1]) == multiset(a) - multiset{y};
    assert multiset(b[..k] + b[k + 1..]) == multiset(b) - multiset{y};
  }

  /** Reordering a sequence keeps its sum. */
  lemma {:induction false} SumPermutation(a: seq<int>, b: seq<int>)
    requires multiset(a) == multiset(b)
    ensures Sum(a) == Sum(b)
    decreases |a|
  {
    if a != [] {
      var x := a[|a| - 1];
      assert a == a[..|a| - 1] + [x];
      assert x in multiset(b);
      var k :| 0 <= k < |b| && b[k] == x;
      assert b == b[..k] + [x] + b[k + 1..];
      var rest := b[..k] + b[k + 1..];
      RemoveLast(a, b, k);
      SumPermutation(a[..|a| - 1], rest);
      SumAppend(b[..k] + [x], b[k + 1..]);
      SumAppend(b[..k], [x]);
      SumAppend(b[..k], b[k + 1..]);
      assert Sum([x]) == x by { assert [x][..0] == []; }
    } else {
      assert |b| == |multiset(b)| == 0;
    }
  }

  lemma {:induction false} SumNonNegative(s: seq<int>)
    requires forall i :: 0 <= i < |s| ==> s[i] >= 0
    ensures Sum(s) >= 0
  {
    if s != [] {
      SumNonNegative(s[..|s| - 1]);
    }
  }

  /** No element is smaller than a later one. */
  predicate Descending(s: seq<int>)
  {
    forall i, j :: 0 <= i < j < |s| ==> s[i] >= s[j]
  }

  /** Inserts `x` in front of the first element that is not larger. */
  function InsertDescending(x: int, s: seq<int>): (r: seq<int>)
    requires Descending(s)
    ensures Descending(r)
    ensures multiset(r) == multiset(s) + multiset{x}
    ensures |r| == |s| + 1 && r[0] == (if s == [] then x else Max(x, s[0]))
  {
    if s == [] || x >= s[0] then [x] + s
    else
      var rest := InsertDescending(x, s[1..]);
      var r := [s[0]] + rest;
      assert s == [s[0]] + s[1..];
      assert forall j :: 1 <= j < |r| ==> r[j] == rest[j - 1] && rest[0] >= rest[j - 1];
      r
  }

  /** A sort into descending order (LINQ `OrderBy(x => -x)`). */
  function SortDescending(s: seq<int>): (r: seq<int>)
    ensures Descending(r)
    ensures multiset(r) == multiset(s)
    ensures |r| == |s|
  {
    if s == [] then []
    else
      assert s == [s[0]] + s[1..];
      InsertDescending(s[0], SortDescending(s[1..]))
  }

  /** Joins the parts with `sep` between neighbours (`string.Join`). */
  function Join(parts: seq<string>, sep: char): string
  {
    if parts == [] then []
    else if |parts| == 1 then parts[0]
    else parts[0] + [sep] + Join(parts[1..], sep)
  }

  /** `string.Split(sep)`: the pieces between the separators, empty ones included. */
  function Split(s: string, sep: char): (parts: seq<string>)
    ensures |parts| >= 1
    ensures forall i :: 0 <= i < |parts| ==> sep !in parts[i]
    ensures Join(parts, sep) == s
  {
    if s == [] then [[]]
    else if s[0] == sep then [[]] + Split(s[1..], sep)
    else
      var rest := Split(s[1..], sep);
      assert s == [s[0]] + s[1..];
      [[s[0]] + rest[0]] + rest[1..]
  }

  lemma {:induction false} SplitJoin(parts: seq<string>, sep: char)
    requires |parts| >= 1 && forall i :: 0 <= i < |parts| ==> sep !in parts[i]
    ensures Split(Join(parts, sep), sep) == parts
  {
    if |parts| == 1 {
      SplitNoSeparator(parts[0], sep);
    } else {
      var tail := parts[1..];
      SplitJoin(tail, sep);
      SplitPrefix(parts[0], Join(tail, sep), sep);
      assert [parts[0]] + tail == parts;
    }
  }

  lemma {:induction false} SplitNoSeparator(s: string, sep: char)
    requires sep !in s
    ensures Split(s, sep) == [s]
  {
    if s != [] {
      SplitNoSeparator(s[1..], sep);
      assert s == [s[0]] + s[1..];
    }
  }

  lemma {:induction false} SplitPrefix(a: string, b: string, sep: char)
    requires sep !in a
    ensures Split(a + [sep] + b, sep) == [a] + Split(b, sep)
  {
    if a == [] {
      assert a + [sep] + b == [sep] + b;
      assert ([sep] + b)[1..] == b;
    } else {
      assert (a + [sep] + b)[1..] == a[1..] + [sep] + b;
      SplitPrefix(a[1..], b, sep);
      assert [a[0]] + a[1..] == a;
    }
  }

  predicate IsDigit(c: char) { '0' <= c <= '9' }

  function DigitsValue(s: string): (n: nat)
    requires forall i :: 0 <= i < |s| ==> IsDigit(s[i])
  {
    if s == [] then 0
    else
      assert IsDigit(s[|s| - 1]);
      DigitsValue(s[..|s| - 1]) * 10 + (s[|s| - 1] as int - '0' as int)
  }

  predicate IsDigits(s: string)
  {
    forall i :: 0 <= i < |s| ==> IsDigit(s[i])
  }

  /** An optional sign followed by at least one decimal digit; None otherwise. */
  function ParseSigned(s: string): (r: Option<int>)
    ensures r.Some? <==> (|s| > 0 && IsDigits(s))
                         || (|s| > 1 && (s[0] == '-' || s[0] == '+') && IsDigits(s[1..]))
    ensures |s| > 0 && IsDigits(s) ==> r == Some(DigitsValue(s) as int)
    ensures |s| > 1 && s[0] == '-' && IsDigits(s[1..]) ==> r == Some(0 - DigitsValue(s[1..]))
    ensures |s| > 1 && s[0] == '+' && IsDigits(s[1..]) ==> r == Some(DigitsValue(s[1..]) as int)
  {
    if |s| > 1 && s[0] == '-' && IsDigits(s[1..]) then Some(0 - DigitsValue(s[1..]))
    else if |s| > 1 && s[0] == '+' && IsDigits(s[1..]) then Some(DigitsValue(s[1..]) as int)
    else if |s| > 0 && IsDigits(s) then Some(DigitsValue(s) as int)
    else None
  }

  /** `int.Parse` with its default number style: white space around an optional sign and
      decimal digits. */
  function ParseInt(s: string): Option<int>
  {
    ParseSigned(Trim(s))
  }

  /** Text without white space at either end is its own trimmed form. */
  lemma TrimUnpadded(s: string)
    requires s == [] || (!IsWhiteSpace(s[0]) && !IsWhiteSpace(s[|s| - 1]))
    ensures Trim(s) == s
  {
    if s != [] {
      assert LeadingSpace(s) == 0;
      assert TrailingSpace(s) == 0;
    }
  }

  /** `int.Parse` of every string, in order; the first malformed one fails. */
  function ParseInts(parts: seq<string>): (r: Result<seq<int>>)
    ensures r.Ok? ==> |r.value| == |parts|
    ensures r.Ok? ==> forall i :: 0 <= i < |parts| ==> ParseInt(parts[i]) == Some(r.value[i])
  {
    if parts == [] then Ok([])
    else
      match ParseInt(parts[0])
      case None => Err("Input string was not in a correct format.")
      case Some(v) =>
        match ParseInts(parts[1..])
        case Err(e) => Err(e)
        case Ok(rest) => Ok([v] + rest)
  }

  /** When every string parses, `ParseInts` yields exactly their values. */
  lemma {:induction false} ParseIntsAll(parts: seq<string>, values: seq<int>)
    requires |values| == |parts|
    requires forall i :: 0 <= i < |parts| ==> ParseInt(parts[i]) == Some(values[i])
    ensures ParseInts(parts) == Ok(values)
  {
    if parts != [] {
      ParseIntsAll(parts[1..], values[1..]);
      assert [values[0]] + values[1..] == values;
    }
  }

  /** The decimal digits of a natural number, without leading zeros ("0" for zero). */
  function NatToString(n: nat): (s: string)
    ensures |s| > 0 && forall i :: 0 <= i < |s| ==> IsDigit(s[i])
    ensures DigitsValue(s) == n
  {
    var last := ['0' + (n % 10) as char];
    if n < 10 then
      assert last[..0] == [];
      last
    else
      var front := NatToString(n / 10);
      var s := front + last;
      assert s[..|s| - 1] == front;
      s
  }

  /** `int.Parse` reads the decimal text of a natural number back. */
  lemma ParseNatText(n: nat)
    ensures ParseInt(NatToString(n)) == Some(n as int)
  {
    var s := NatToString(n);
    TrimUnpadded(s);
  }

  /** The decimal text of an integer, with a minus sign when negative. */
  function IntToString(n: int): (s: string)
    ensures ParseInt(s) == Some(n)
    ensures |s| > 0 && IsDigit(s[|s| - 1]) && (IsDigit(s[0]) || s[0] == '-')
    ensures forall i :: 0 < i < |s| ==> IsDigit(s[i])
  {
    if n >= 0 then ParseNatText(n); NatToString(n)
    else
      var digits := NatToString(-n);
      var s := "-" + digits;
      assert s[1..] == digits;
      TrimUnpadded(s);
      s
  }
}
