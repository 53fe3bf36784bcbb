/** Day 03: rucksacks whose items are letters with priorities 1..52. Part 1 finds the
    item in both halves of each rucksack, part 2 the item common to each group of three. */
module Day03 {
  import opened Common

  predicate IsUpper(c: char) { 'A' <= c <= 'Z' }

  /** `Encoding.ASCII.GetBytes` for one character: characters beyond ASCII become '?'. */
  function AsciiByte(c: char): int
  {
    if c as int < 128 then c as int else '?' as int
  }

  /** The priority of one item: upper-case letters count from 27, everything else from 'a' = 1. */
  function Priority(c: char): (p: int)
    ensures 'a' <= c <= 'z' ==> 1 <= p <= 26 && p == (c as int - 'a' as int) + 1
    ensures 'A' <= c <= 'Z' ==> 27 <= p <= 52 && p == (c as int - 'A' as int) + 27
  {
    if IsUpper(c) then AsciiByte(c) - 38 else AsciiByte(c) - 96
  }

  /** Distinct letters have distinct priorities. */
  lemma PriorityInjective(c: char, d: char)
    requires ('a' <= c <= 'z' || 'A' <= c <= 'Z') && ('a' <= d <= 'z' || 'A' <= d <= 'Z')
    requires Priority(c) == Priority(d)
    ensures c == d
  {
  }

  function Priorities(s: string): (r: seq<int>)
    ensures |r| == |s| && forall i :: 0 <= i < |s| ==> r[i] == Priority(s[i])
  {
    seq(|s|, i requires 0 <= i < |s| => Priority(s[i]))
  }

  /** The priorities of two texts joined are the priorities of each, joined. */
  lemma PrioritiesAppend(a: string, b: string)
    ensures Priorities(a + b) == Priorities(a) + Priorities(b)
  {
    var l, r := Priorities(a + b), Priorities(a) + Priorities(b);
    forall i | 0 <= i < |l| ensures l[i] == r[i] {
      if i < |a| {
        assert (a + b)[i] == a[i];
      } else {
        assert (a + b)[i] == b[i - |a|];
      }
    }
  }

  /** The position of the first occurrence of v in a. */
  function FirstIndex(a: seq<int>, v: int): (i: nat)
    requires v in a
    ensures i < |a| && a[i] == v && forall k :: 0 <= k < i ==> a[k] != v
  {
    if a[0] == v then 0 else 1 + FirstIndex(a[1..], v)
  }

  lemma {:induction false} FirstIndexPrefix(a: seq<int>, n: nat, v: int)
    requires n <= |a| && v in a[..n]
    ensures v in a && FirstIndex(a, v) == FirstIndex(a[..n], v)
  {
    var i := FirstIndex(a[..n], v);
    assert forall k :: 0 <= k < n ==> a[..n][k] == a[k];
    assert a[i] == v && forall k :: 0 <= k < i ==> a[k] != v;
  }

  /** u and v both occur in p, and u occurs first. */
  predicate Before(p: seq<int>, u: int, v: int)
  {
    u in p && v in p && FirstIndex(p, u) < FirstIndex(p, v)
  }

  /** The elements of r appear in the order of their first occurrence in p. */
  predicate OrderedBy(r: seq<int>, p: seq<int>)
  {
    forall i, j :: 0 <= i < j < |r| ==> Before(p, r[i], r[j])
  }

  /** LINQ `Intersect`: the distinct elements of a that occur in b, in the order of their
      first occurrence in a. */
  function Intersect(a: seq<int>, b: seq<int>): seq<int>
  {
    if a == [] then []
    else
      var n := |a| - 1;
      var r := Intersect(a[..n], b);
      if a[n] in b && a[n] !in r then r + [a[n]] else r
  }

  /** The intersection holds exactly the shared elements, ordered by first occurrence in a. */
  lemma {:induction false} IntersectSpec(a: seq<int>, b: seq<int>)
    ensures forall v :: v in Intersect(a, b) <==> v in a && v in b
    ensures OrderedBy(Intersect(a, b), a)
  {
    if a != [] {
      var n := |a| - 1;
      IntersectSpec(a[..n], b);
      var r := Intersect(a[..n], b);
      assert a == a[..n] + [a[n]];
      forall i | 0 <= i < |r| ensures r[i] in a && FirstIndex(a, r[i]) == FirstIndex(a[..n], r[i]) {
        FirstIndexPrefix(a, n, r[i]);
      }
      var x := a[n];
      if x in b && x !in r {
        assert x in a[..n] ==> x in r;
        assert x !in a[..n];
        var r' := r + [x];
        assert FirstIndex(a, x) == n;
        assert forall i :: 0 <= i < |r| ==> r'[i] == r[i];
      }
    }
  }

  lemma OrderedByPrefix(a: seq<int>, n: nat, p: seq<int>)
    requires n <= |a| && OrderedBy(a, p)
    ensures OrderedBy(a[..n], p)
  {
    var b := a[..n];
    forall i, j | 0 <= i < j < |b|
      ensures Before(p, b[i], b[j])
    {
      assert b[i] == a[i] && b[j] == a[j];
    }
  }

  /** Intersecting keeps an order inherited from another sequence. */
  lemma {:induction false} IntersectKeepsOrder(a: seq<int>, b: seq<int>, p: seq<int>)
    requires OrderedBy(a, p)
    ensures OrderedBy(Intersect(a, b), p)
  {
    if a != [] {
      var n := |a| - 1;
      OrderedByPrefix(a, n, p);
      IntersectKeepsOrder(a[..n], b, p);
      IntersectSpec(a[..n], b);
      var r := Intersect(a[..n], b);
      if a[n] in b && a[n] !in r {
        forall i | 0 <= i < |r| ensures Before(p, r[i], a[n]) {
          assert r[i] in r;
          assert r[i] in a[..n];
          var m :| 0 <= m < n && a[..n][m] == r[i];
          assert a[m] == r[i];
        }
      }
    }
  }

  /** An element that is before `r`'s head in `p` is not in `r` at all. */
  lemma HeadIsFirst(r: seq<int>, p: seq<int>, v: int)
    requires r != [] && OrderedBy(r, p) && r[0] in p
    requires v in p && FirstIndex(p, v) < FirstIndex(p, r[0])
    ensures v !in r
  {
    forall k | 0 <= k < |r| ensures r[k] != v {
      if k > 0 {
        assert Before(p, r[0], r[k]);
      }
    }
  }

  /** LINQ `First`: an error on an empty sequence. */
  function First(s: seq<int>): (r: Result<int>)
    ensures r.Ok? <==> s != []
    ensures r.Ok? ==> r.value == s[0]
  {
    if s == [] then Err("Sequence contains no elements") else Ok(s[0])
  }

  datatype Rucksack = Rucksack(left: seq<int>, right: seq<int>)
  {
    function AllPriorities(): seq<int> { left + right }
  }

  /** The `Rucksack` constructor: the first half of the content (rounded down) and the rest. */
  function MakeRucksack(content: string): (r: Rucksack)
    ensures |r.left| == |content| / 2 && |r.left| + |r.right| == |content|
    ensures r.AllPriorities() == Priorities(content)
  {
    var n := |content| / 2;
    assert content == content[..n] + content[n..];
    PrioritiesAppend(content[..n], content[n..]);
    Rucksack(Priorities(content[..n]), Priorities(content[n..]))
  }

  /** `DuplicateItemPriority`: the first item of the `Intersect` of both compartments. */
  function DuplicateItemPriority(r: Rucksack): Result<int>
  {
    First(Intersect(r.left, r.right))
  }

  /** The duplicate exists exactly when the compartments share a priority, and it is the
      first left-compartment priority that also occurs on the right. */
  lemma DuplicateItemIsFirstShared(r: Rucksack)
    ensures DuplicateItemPriority(r).Ok? <==> exists v :: v in r.left && v in r.right
    ensures DuplicateItemPriority(r).Ok? ==>
              var d := DuplicateItemPriority(r).value;
              exists i :: 0 <= i < |r.left| && r.left[i] == d && d in r.right
                          && forall k :: 0 <= k < i ==> r.left[k] !in r.right
  {
    var common := Intersect(r.left, r.right);
    IntersectSpec(r.left, r.right);
    if common != [] {
      var i := FirstIndex(r.left, common[0]);
      forall k | 0 <= k < i ensures r.left[k] !in r.right {
        HeadIsFirst(common, r.left, r.left[k]);
      }
    }
  }

  predicate InAll(v: int, others: seq<Rucksack>)
  {
    forall j :: 0 <= j < |others| ==> v in others[j].AllPriorities()
  }

  /** The running `Aggregate` of `Intersect` over the other rucksacks. */
  function CommonPriorities(mine: seq<int>, others: seq<Rucksack>): seq<int>
  {
    if others == [] then mine
    else
      var n := |others| - 1;
      Intersect(CommonPriorities(mine, others[..n]), others[n].AllPriorities())
  }

  /** The running intersection holds the priorities found in every rucksack, ordered by
      their first occurrence in this one. */
  lemma {:induction false} CommonPrioritiesSpec(mine: seq<int>, others: seq<Rucksack>)
    ensures forall v :: v in CommonPriorities(mine, others) <==> v in mine && InAll(v, others)
    ensures others != [] ==> OrderedBy(CommonPriorities(mine, others), mine)
  {
    if others != [] {
      var n := |others| - 1;
      CommonPrioritiesSpec(mine, others[..n]);
      var front := CommonPriorities(mine, others[..n]);
      IntersectSpec(front, others[n].AllPriorities());
      if n > 0 {
        IntersectKeepsOrder(front, others[n].AllPriorities(), mine);
      } else {
        assert front == mine;
      }
      forall v ensures InAll(v, others) <==> InAll(v, others[..n]) && v in others[n].AllPriorities() {
        if InAll(v, others[..n]) && v in others[n].AllPriorities() {
          forall j | 0 <= j < |others| ensures v in others[j].AllPriorities() {
            if j < n { assert others[j] == others[..n][j]; }
          }
        }
      }
    }
  }

  /** `CommonItemPriority`: the first item of the running intersection. */
  function CommonItemPriority(r: Rucksack, others: seq<Rucksack>): Result<int>
  {
    First(CommonPriorities(r.AllPriorities(), others))
  }

  /** The common item exists exactly when some priority of this rucksack (left, then right)
      occurs in every other rucksack, and it is the first such priority. */
  lemma CommonItemIsFirstShared(r: Rucksack, others: seq<Rucksack>)
    ensures CommonItemPriority(r, others).Ok? <==> exists v :: v in r.AllPriorities() && InAll(v, others)
    ensures CommonItemPriority(r, others).Ok? ==>
              var d := CommonItemPriority(r, others).value;
              var mine := r.AllPriorities();
              exists i :: 0 <= i < |mine| && mine[i] == d && InAll(d, others)
                          && forall k :: 0 <= k < i ==> !InAll(mine[k], others)
  {
    var mine := r.AllPriorities();
    var common := CommonPriorities(mine, others);
    CommonPrioritiesSpec(mine, others);
    if common != [] && others == [] {
      assert InAll(mine[0], others);
    } else if common != [] {
      var i := FirstIndex(mine, common[0]);
      forall k | 0 <= k < i ensures !InAll(mine[k], others) {
        HeadIsFirst(common, mine, mine[k]);
      }
    }
  }

  /** `ComputeSolution1`: the sum of the duplicate priorities, failing on the first rucksack
      without one. */
  function ComputeSolution1(rucksacks: seq<Rucksack>): (total: Result<int>)
    ensures total.Ok? <==> forall i :: 0 <= i < |rucksacks| ==> DuplicateItemPriority(rucksacks[i]).Ok?
  {
    if rucksacks == [] then Ok(0)
    else
      match ComputeSolution1(rucksacks[..|rucksacks| - 1])
      case Err(m) => Err(m)
      case Ok(front) =>
        match DuplicateItemPriority(rucksacks[|rucksacks| - 1])
        case Err(m) => Err(m)
        case Ok(p) => Ok(front + p)
  }

  /** The common priority of the group of three starting at `start`. */
  function GroupPriority(first: Rucksack, second: Rucksack, third: Rucksack): Result<int>
  {
    CommonItemPriority(first, [second, third])
  }

  /** The sum that part 2 accumulates for the groups starting at `start`, `start + 3`, …:
      a group needs two more rucksacks behind its first (`GetRange(i + 1, 2)`). */
  function GroupTotal(rucksacks: seq<Rucksack>, start: nat): (total: Result<int>)
    requires start <= |rucksacks| + 2
    decreases |rucksacks| + 2 - start
  {
    if start >= |rucksacks| then Ok(0)
    else if start + 3 > |rucksacks| then Err("Offset and length were out of bounds")
    else
      match GroupPriority(rucksacks[start], rucksacks[start + 1], rucksacks[start + 2])
      case Err(m) => Err(m)
      case Ok(p) =>
        match GroupTotal(rucksacks, start + 3)
        case Err(m) => Err(m)
        case Ok(rest) => Ok(p + rest)
  }

  lemma AddThree(x: int)
    requires x % 3 == 0
    ensures (x + 3) % 3 == 0
  {
  }

  /** Part 2 succeeds only when the rucksacks come in whole groups of three. */
  lemma {:induction false} GroupsOfThree(rucksacks: seq<Rucksack>, start: nat)
    requires start <= |rucksacks| && GroupTotal(rucksacks, start).Ok?
    ensures (|rucksacks| - start) % 3 == 0
    decreases |rucksacks| - start
  {
    if start < |rucksacks| {
      GroupsOfThree(rucksacks, start + 3);
      AddThree(|rucksacks| - (start + 3));
    }
  }

  /** A partial sum plus the outcome of the remaining groups. */
  function Offset(r: Result<int>, d: int): Result<int>
  {
    match r
    case Ok(v) => Ok(d + v)
    case Err(m) => Err(m)
  }

  /** One group of the total: its error, or its priority added to the later groups. */
  lemma GroupTotalStep(rucksacks: seq<Rucksack>, i: nat)
    requires i + 3 <= |rucksacks|
    ensures GroupPriority(rucksacks[i], rucksacks[i + 1], rucksacks[i + 2]).Err? ==> GroupTotal(rucksacks, i) == Err(GroupPriority(rucksacks[i], rucksacks[i + 1], rucksacks[i + 2]).message)
    ensures GroupPriority(rucksacks[i], rucksacks[i + 1], rucksacks[i + 2]).Ok? ==>
              GroupTotal(rucksacks, i) == Offset(GroupTotal(rucksacks, i + 3), GroupPriority(rucksacks[i], rucksacks[i + 1], rucksacks[i + 2]).value)
  {
  }

  lemma OffsetZero(r: Result<int>)
    ensures Offset(r, 0) == r
  {
  }

  lemma OffsetOffset(r: Result<int>, a: int, b: int)
    ensures Offset(Offset(r, a), b) == Offset(r, b + a)
  {
  }

  /** `ComputeSolution2`: adds the common priority of each group of three. */
  method ComputeSolution2(rucksacks: seq<Rucksack>) returns (total: Result<int>)
    ensures total == GroupTotal(rucksacks, 0)
  {
    var result := 0;
    var i := 0;
    ghost var goal := GroupTotal(rucksacks, 0);
    OffsetZero(goal);
    assert goal == Offset(GroupTotal(rucksacks, 0), 0);
    while i < |rucksacks|
      invariant 0 <= i <= |rucksacks| + 2
      invariant goal == Offset(GroupTotal(rucksacks, i), result)
      decreases |rucksacks| - i
    {
      if i + 3 > |rucksacks| {
        assert GroupTotal(rucksacks, i) == Err("Offset and length were out of bounds");
        return Err("Offset and length were out of bounds");
      }
      var p := GroupPriority(rucksacks[i], rucksacks[i + 1], rucksacks[i + 2]);
      GroupTotalStep(rucksacks, i);
      if p.Err? {
        return Err(p.message);
      }
      OffsetOffset(GroupTotal(rucksacks, i + 3), p.value, result);
      assert goal == Offset(GroupTotal(rucksacks, i + 3), result + p.value);
      result := result + p.value;
      i := i + 3;
    }
    return Ok(result);
  }
}
