/** Day 13: distress-signal packets, nested lists of integers, compared element by element.
    A packet is kept as a table of flat lists: each nested list is replaced by a negative
    number that refers to an earlier entry of the table, and the packet itself is the last
    entry. */
module Day13 {
  import opened Common

  /** The table of a packet (`_lut`): entry k is referred to by the value -(k + 1). */
  type Table = seq<seq<int>>

  /** Every reference of an entry points to an earlier entry. */
  predicate Backward(lut: Table)
  {
    forall i, j :: 0 <= i < |lut| && 0 <= j < |lut[i]| && lut[i][j] < 0 ==> -lut[i][j] - 1 < i
  }

  /** A table built from a packet: at least one entry and only backward references. */
  predicate ValidTable(lut: Table)
  {
    |lut| >= 1 && Backward(lut)
  }

  /** A list as `CompareLists` sees it: an entry of the table, or the singleton list that
      `WrapOrLookUp` makes around a plain number. */
  datatype Ref = Entry(index: nat) | Single(value: int)

  predicate ValidRef(lut: Table, r: Ref)
  {
    match r
    case Entry(i) => i < |lut|
    case Single(v) => v >= 0
  }

  /** The elements of the list a reference stands for. */
  function Items(lut: Table, r: Ref): seq<int>
    requires ValidRef(lut, r)
  {
    match r
    case Entry(i) => lut[i]
    case Single(v) => [v]
  }

  /** `WrapOrLookUp`: a negative value looks up its entry, any other value is wrapped in a
      one-element list. */
  function WrapOrLookUp(value: int): (r: Ref)
    ensures value < 0 ==> r == Entry(-value - 1)
    ensures value >= 0 ==> r == Single(value)
  {
    if value < 0 then Entry(-value - 1) else Single(value)
  }

  /** A measure that shrinks with every nested comparison. */
  function Rank(r: Ref): nat
  {
    match r
    case Entry(i) => i + 1
    case Single(_) => 0
  }

  /** The element at `i` of a valid list is a valid reference once wrapped, and of a smaller
      rank when it is a reference. */
  lemma WrapValid(lut: Table, r: Ref, i: nat)
    requires Backward(lut) && ValidRef(lut, r) && i < |Items(lut, r)|
    ensures ValidRef(lut, WrapOrLookUp(Items(lut, r)[i]))
    ensures Items(lut, r)[i] < 0 ==> Rank(WrapOrLookUp(Items(lut, r)[i])) < Rank(r)
    ensures Items(lut, r)[i] >= 0 ==> Rank(WrapOrLookUp(Items(lut, r)[i])) == 0
  {
    if r.Entry? {
      assert Items(lut, r)[i] == lut[r.index][i];
    }
  }

  /** `CompareLists`: Some(true) when `a` (in `p`) comes before `b` (in `q`), Some(false)
      when after, None when no decision is reached. */
  function CompareLists(p: Table, a: Ref, q: Table, b: Ref): Option<bool>
    requires Backward(p) && Backward(q) && ValidRef(p, a) && ValidRef(q, b)
    decreases Rank(a) + Rank(b), 1, 0
  {
    CompareFrom(p, a, q, b, 0)
  }

  /** The loop of `CompareLists` from position `i` on. */
  function CompareFrom(p: Table, a: Ref, q: Table, b: Ref, i: nat): Option<bool>
    requires Backward(p) && Backward(q) && ValidRef(p, a) && ValidRef(q, b)
    decreases Rank(a) + Rank(b), 0, |Items(p, a)| - i
  {
    var xs, ys := Items(p, a), Items(q, b);
    if i >= |xs| then (if |xs| < |ys| then Some(true) else None)
    else if i >= |ys| then Some(false)
    else
      var v1, v2 := xs[i], ys[i];
      if v1 >= 0 && v2 >= 0 then
        if v1 < v2 then Some(true)
        else if v1 > v2 then Some(false)
        else CompareFrom(p, a, q, b, i + 1)
      else
        WrapValid(p, a, i);
        WrapValid(q, b, i);
        var result := CompareLists(p, WrapOrLookUp(v1), q, WrapOrLookUp(v2));
        if result.Some? then result else CompareFrom(p, a, q, b, i + 1)
  }

  /** The outermost list of a packet (`Content`). */
  function Content(p: Table): (r: Ref)
    requires ValidTable(p)
    ensures ValidRef(p, r)
  {
    Entry(|p| - 1)
  }

  /** `CompareTo`: 1 for the right order, -1 for the wrong one, 0 when undecided. */
  function CompareTo(p: Table, q: Table): (c: int)
    requires ValidTable(p) && ValidTable(q)
    ensures -1 <= c <= 1
  {
    match CompareLists(p, Content(p), q, Content(q))
    case None => 0
    case Some(true) => 1
    case Some(false) => -1
  }

  /** A list compared with itself reaches no decision. */
  lemma {:induction false} CompareListsSelf(p: Table, a: Ref)
    requires Backward(p) && ValidRef(p, a)
    ensures CompareLists(p, a, p, a) == None
    decreases Rank(a) + Rank(a), 1, 0
  {
    CompareFromSelf(p, a, 0);
  }

  lemma {:induction false} CompareFromSelf(p: Table, a: Ref, i: nat)
    requires Backward(p) && ValidRef(p, a)
    ensures CompareFrom(p, a, p, a, i) == None
    decreases Rank(a) + Rank(a), 0, |Items(p, a)| - i
  {
    var xs := Items(p, a);
    if i < |xs| {
      var v := xs[i];
      if v < 0 {
        WrapValid(p, a, i);
        CompareListsSelf(p, WrapOrLookUp(v));
      }
      CompareFromSelf(p, a, i + 1);
    }
  }

  /** A packet compared with itself gives 0. */
  lemma CompareToSelf(p: Table)
    requires ValidTable(p)
    ensures CompareTo(p, p) == 0
  {
    CompareListsSelf(p, Content(p));
  }

  /** The opposite decision. */
  function Flip(r: Option<bool>): Option<bool>
  {
    match r
    case None => None
    case Some(b) => Some(!b)
  }

  /** Comparing the other way round flips the decision. */
  lemma {:induction false} CompareListsFlip(p: Table, a: Ref, q: Table, b: Ref)
    requires Backward(p) && Backward(q) && ValidRef(p, a) && ValidRef(q, b)
    ensures CompareLists(q, b, p, a) == Flip(CompareLists(p, a, q, b))
    decreases Rank(a) + Rank(b), 1, 0
  {
    CompareFromFlip(p, a, q, b, 0);
  }

  lemma {:induction false} CompareFromFlip(p: Table, a: Ref, q: Table, b: Ref, i: nat)
    requires Backward(p) && Backward(q) && ValidRef(p, a) && ValidRef(q, b)
    requires i <= |Items(p, a)| && i <= |Items(q, b)|
    ensures CompareFrom(q, b, p, a, i) == Flip(CompareFrom(p, a, q, b, i))
    decreases Rank(a) + Rank(b), 0, |Items(p, a)| - i
  {
    var xs, ys := Items(p, a), Items(q, b);
    if i < |xs| && i < |ys| {
      var v1, v2 := xs[i], ys[i];
      if v1 < 0 || v2 < 0 {
        WrapValid(p, a, i);
        WrapValid(q, b, i);
        CompareListsFlip(p, WrapOrLookUp(v1), q, WrapOrLookUp(v2));
      }
      if !(v1 >= 0 && v2 >= 0 && v1 != v2) {
        CompareFromFlip(p, a, q, b, i + 1);
      }
    }
  }

  /** Swapping the packets negates `CompareTo`. */
  lemma CompareToFlip(p: Table, q: Table)
    requires ValidTable(p) && ValidTable(q)
    ensures CompareTo(q, p) == -CompareTo(p, q)
  {
    CompareListsFlip(p, Content(p), q, Content(q));
  }

  /** A packet as nested lists of natural numbers. */
  datatype Tree = Int(n: nat) | List(items: seq<Tree>)

  /** The table the `Packet` constructor builds for a list: the nested lists in the order the
      innermost-first rewriting meets them (children before parents, left to right), each
      replaced in its parent by -(its 1-based index), and the list itself last. */
  function FlattenList(items: seq<Tree>, lut: Table): Table
    decreases items, 1
  {
    var (rest, values) := FlattenItems(items, lut);
    rest + [values]
  }

  /** The elements of a list: numbers stay, nested lists are added to the table first. */
  function FlattenItems(items: seq<Tree>, lut: Table): (Table, seq<int>)
    decreases items, 0
  {
    if items == [] then (lut, [])
    else
      match items[0]
      case Int(n) =>
        var (rest, values) := FlattenItems(items[1..], lut);
        (rest, [n] + values)
      case List(xs) =>
        var inner := FlattenList(xs, lut);
        var (rest, values) := FlattenItems(items[1..], inner);
        (rest, [-|inner|] + values)
  }

  /** The packet of a list. */
  function MakePacket(items: seq<Tree>): Table
  {
    FlattenList(items, [])
  }

  /** The nested list an entry of the table stands for. */
  function Decode(lut: Table, i: nat): Tree
    requires Backward(lut) && i < |lut|
    decreases i, 1, 0
  {
    List(DecodeAll(lut, i, lut[i]))
  }

  /** The elements of a list whose references all point below `bound`. */
  function DecodeAll(lut: Table, bound: nat, values: seq<int>): seq<Tree>
    requires Backward(lut) && bound <= |lut|
    requires forall k :: 0 <= k < |values| && values[k] < 0 ==> -values[k] - 1 < bound
    decreases bound, 0, |values|
  {
    if values == [] then []
    else [DecodeValue(lut, bound, values[0])] + DecodeAll(lut, bound, values[1..])
  }

  function DecodeValue(lut: Table, bound: nat, v: int): Tree
    requires Backward(lut) && bound <= |lut| && (v < 0 ==> -v - 1 < bound)
    decreases bound, 0, 0
  {
    if v < 0 then Decode(lut, -v - 1) else Int(v)
  }

  /** All references of `values` point below `bound`. */
  predicate RefsBelow(values: seq<int>, bound: nat)
  {
    forall k :: 0 <= k < |values| && values[k] < 0 ==> -values[k] - 1 < bound
  }

  /** Entries that are already in the table decode the same after more entries are added. */
  lemma {:induction false} DecodeAllFrame(lut: Table, ext: Table, bound: nat, values: seq<int>)
    requires Backward(lut) && Backward(ext) && |lut| <= |ext| && ext[..|lut|] == lut
    requires bound <= |lut| && RefsBelow(values, bound)
    ensures DecodeAll(ext, bound, values) == DecodeAll(lut, bound, values)
    decreases bound, 0, |values|
  {
    if values != [] {
      var v := values[0];
      if v < 0 {
        var j := -v - 1;
        assert lut[j] == ext[j];
        assert RefsBelow(lut[j], j);
        DecodeAllFrame(lut, ext, j, lut[j]);
        assert Decode(ext, j) == Decode(lut, j);
      }
      assert DecodeValue(ext, bound, v) == DecodeValue(lut, bound, v);
      DecodeAllFrame(lut, ext, bound, values[1..]);
    }
  }

  /** Flattening the elements of a list extends the table with backward references only,
      and the values decode back to the elements. */
  lemma {:induction false} FlattenItemsSpec(items: seq<Tree>, lut: Table)
    requires Backward(lut)
    ensures var r := FlattenItems(items, lut);
            Backward(r.0) && |lut| <= |r.0| && r.0[..|lut|] == lut
            && RefsBelow(r.1, |r.0|) && DecodeAll(r.0, |r.0|, r.1) == items
    decreases items, 0
  {
    if items != [] {
      match items[0]
      case Int(n) =>
        FlattenItemsSpec(items[1..], lut);
        FlattenNumberStep(n, items, lut);
      case List(xs) =>
        FlattenListSpec(xs, lut);
        var inner := FlattenList(xs, lut);
        FlattenItemsSpec(items[1..], inner);
        FlattenListStep(xs, items, lut);
    }
  }

  /** A number in front keeps its value. */
  lemma FlattenNumberStep(n: nat, items: seq<Tree>, lut: Table)
    requires items != [] && items[0] == Int(n)
    requires var r := FlattenItems(items[1..], lut);
             Backward(r.0) && RefsBelow(r.1, |r.0|) && DecodeAll(r.0, |r.0|, r.1) == items[1..]
    ensures var r := FlattenItems(items, lut);
            r.0 == FlattenItems(items[1..], lut).0
            && RefsBelow(r.1, |r.0|) && DecodeAll(r.0, |r.0|, r.1) == items
  {
    var t := FlattenItems(items[1..], lut);
    var values := [n as int] + t.1;
    assert FlattenItems(items, lut) == (t.0, values);
    assert values[1..] == t.1;
    assert items == [Int(n)] + items[1..];
  }

  /** A nested list in front is added to the table and referred to by its index. */
  lemma FlattenListStep(xs: seq<Tree>, items: seq<Tree>, lut: Table)
    requires items != [] && items[0] == List(xs)
    requires var inner := FlattenList(xs, lut);
             Backward(inner) && |lut| < |inner| && inner[..|lut|] == lut && Decode(inner, |inner| - 1) == List(xs)
    requires var inner := FlattenList(xs, lut);
             var r := FlattenItems(items[1..], inner);
             Backward(r.0) && |inner| <= |r.0| && r.0[..|inner|] == inner
             && RefsBelow(r.1, |r.0|) && DecodeAll(r.0, |r.0|, r.1) == items[1..]
    ensures var r := FlattenItems(items, lut);
            Backward(r.0) && |lut| <= |r.0| && r.0[..|lut|] == lut
            && RefsBelow(r.1, |r.0|) && DecodeAll(r.0, |r.0|, r.1) == items
  {
    var inner := FlattenList(xs, lut);
    var t := FlattenItems(items[1..], inner);
    assert FlattenItems(items, lut) == (t.0, [-|inner|] + t.1);
    assert t.0[..|lut|] == t.0[..|inner|][..|lut|];
    ReferToNested(xs, inner, t.0, t.1);
    assert items == [List(xs)] + items[1..];
  }

  /** The reference to a nested list that is the last entry of `inner` decodes to it in any
      extension of `inner`. */
  lemma ReferToNested(xs: seq<Tree>, inner: Table, rest: Table, tail: seq<int>)
    requires Backward(inner) && |inner| >= 1 && Decode(inner, |inner| - 1) == List(xs)
    requires Backward(rest) && |inner| <= |rest| && rest[..|inner|] == inner
    requires RefsBelow(tail, |rest|)
    ensures RefsBelow([-|inner|] + tail, |rest|)
    ensures DecodeAll(rest, |rest|, [-|inner|] + tail) == [List(xs)] + DecodeAll(rest, |rest|, tail)
  {
    var k := |inner| - 1;
    PrependRef(-|inner|, tail, |rest|);
    DecodeFrame(inner, rest, k);
    assert DecodeValue(rest, |rest|, -|inner|) == Decode(rest, k);
    DecodeCons(rest, |rest|, -|inner|, tail);
  }

  /** Decoding a value in front of others puts its tree in front of theirs. */
  lemma DecodeCons(lut: Table, bound: nat, v: int, tail: seq<int>)
    requires Backward(lut) && bound <= |lut| && (v < 0 ==> -v - 1 < bound)
    requires RefsBelow(tail, bound) && RefsBelow([v] + tail, bound)
    ensures DecodeAll(lut, bound, [v] + tail) == [DecodeValue(lut, bound, v)] + DecodeAll(lut, bound, tail)
  {
    assert ([v] + tail)[1..] == tail;
  }

  /** A reference below the bound in front keeps all references below it. */
  lemma PrependRef(v: int, tail: seq<int>, bound: nat)
    requires v < 0 ==> -v - 1 < bound
    requires RefsBelow(tail, bound)
    ensures RefsBelow([v] + tail, bound)
  {
    var values := [v] + tail;
    forall k | 0 <= k < |values| && values[k] < 0 ensures -values[k] - 1 < bound {
      if k > 0 {
        assert values[k] == tail[k - 1];
      }
    }
  }

  /** An entry decodes the same in any extension of the table. */
  lemma DecodeFrame(lut: Table, ext: Table, i: nat)
    requires Backward(lut) && Backward(ext) && |lut| <= |ext| && ext[..|lut|] == lut
    requires i < |lut|
    ensures Decode(ext, i) == Decode(lut, i)
  {
    assert ext[i] == lut[i];
    assert RefsBelow(lut[i], i);
    DecodeAllFrame(lut, ext, i, lut[i]);
  }

  /** Flattening a list adds its nested lists and then the list itself as the last entry,
      which decodes back to the list. */
  lemma {:induction false} FlattenListSpec(items: seq<Tree>, lut: Table)
    requires Backward(lut)
    ensures var r := FlattenList(items, lut);
            Backward(r) && |lut| < |r| && r[..|lut|] == lut && Decode(r, |r| - 1) == List(items)
    decreases items, 1
  {
    FlattenItemsSpec(items, lut);
    var rest, values := FlattenItems(items, lut).0, FlattenItems(items, lut).1;
    var r := rest + [values];
    assert r[..|rest|] == rest;
    assert r[..|lut|] == rest[..|lut|];
    assert Backward(r) by {
      forall i, j | 0 <= i < |r| && 0 <= j < |r[i]| && r[i][j] < 0
        ensures -r[i][j] - 1 < i
      {
        if i < |rest| {
          assert r[i] == rest[i];
        }
      }
    }
    DecodeAllFrame(rest, r, |rest|, values);
  }

  /** The table of a packet is valid, and its `Content` decodes back to the packet. */
  lemma MakePacketRoundTrip(items: seq<Tree>)
    ensures ValidTable(MakePacket(items))
    ensures Decode(MakePacket(items), |MakePacket(items)| - 1) == List(items)
  {
    FlattenListSpec(items, []);
  }

  /** The divider packets `[[2]]` and `[[6]]`. */
  function Divider(n: nat): (p: Table)
    ensures ValidTable(p)
  {
    var entry: seq<int> := [n];
    [entry, [-1]]
  }

  lemma DividerTable(n: nat)
    ensures MakePacket([List([Int(n)])]) == Divider(n)
  {
    var empty: Table := [];
    var entry: seq<int> := [n];
    var none: seq<Tree> := [];
    assert [Int(n)][1..] == none;
    assert FlattenItems(none, empty) == (empty, []);
    var noValues: seq<int> := [];
    assert [n as int] + noValues == entry;
    assert FlattenItems([Int(n)], empty) == (empty, entry);
    assert FlattenList([Int(n)], empty) == [entry];
    assert [List([Int(n)])][1..] == none;
    assert FlattenItems(none, [entry]) == ([entry], noValues);
    assert [-1] + noValues == [-1];
    assert FlattenItems([List([Int(n)])], empty) == ([entry], [-1]);
  }

  /** [[2]] comes before [[6]]. */
  lemma DividersOrdered()
    ensures CompareTo(Divider(2), Divider(6)) == 1
  {
    var two, six := Divider(2), Divider(6);
    assert CompareFrom(two, Entry(0), six, Entry(0), 0) == Some(true);
    assert CompareLists(two, Entry(0), six, Entry(0)) == Some(true);
    assert CompareFrom(two, Entry(1), six, Entry(1), 0) == Some(true);
  }

  predicate AllValid(packets: seq<Table>)
  {
    forall k :: 0 <= k < |packets| ==> ValidTable(packets[k])
  }

  /** The score of the first `n` pairs: pair k (counted from 1) adds k when its packets are
      in the right order or undecided. */
  function PairScore(packets: seq<Table>, n: nat): int
    requires AllValid(packets) && 2 * n <= |packets|
  {
    if n == 0 then 0
    else PairScore(packets, n - 1) + (if CompareTo(packets[2 * n - 2], packets[2 * n - 1]) >= 0 then n else 0)
  }

  /** The score is at most 1 + 2 + ... + n = n(n + 1)/2, and exactly that when every pair is
      ordered. */
  lemma {:induction false} PairScoreBounds(packets: seq<Table>, n: nat)
    requires AllValid(packets) && 2 * n <= |packets|
    ensures 0 <= 2 * PairScore(packets, n) <= n * (n + 1)
    ensures (forall k :: 0 <= k < n ==> CompareTo(packets[2 * k], packets[2 * k + 1]) >= 0)
            ==> 2 * PairScore(packets, n) == n * (n + 1)
  {
    if n > 0 {
      PairScoreBounds(packets, n - 1);
      assert (n - 1) * n + 2 * n == n * (n + 1);
      if forall k :: 0 <= k < n ==> CompareTo(packets[2 * k], packets[2 * k + 1]) >= 0 {
        assert CompareTo(packets[2 * (n - 1)], packets[2 * (n - 1) + 1]) >= 0;
        assert PairScore(packets, n) == PairScore(packets, n - 1) + n;
      }
    }
  }

  /** `ComputeSolution1`: walks the packets two at a time; an odd count fails on the missing
      partner of the last packet. */
  method ComputeSolution1(packets: seq<Table>) returns (r: Result<int>)
    requires AllValid(packets)
    ensures r.Ok? <==> |packets| % 2 == 0
    ensures r.Ok? ==> r.value == PairScore(packets, |packets| / 2)
  {
    var score := 0;
    var i := 0;
    while i < |packets|
      invariant 0 <= i <= |packets| && i % 2 == 0
      invariant score == PairScore(packets, i / 2)
    {
      if i + 1 >= |packets| {
        return Err("Index was out of range");
      }
      if CompareTo(packets[i], packets[i + 1]) >= 0 {
        score := score + 1 + i / 2;
      }
      i := i + 2;
    }
    return Ok(score);
  }

  /** The number of packets that `CompareTo` puts strictly before `x`. */
  function CountBefore(packets: seq<Table>, x: Table): (n: nat)
    requires AllValid(packets) && ValidTable(x)
    ensures n <= |packets|
  {
    if packets == [] then 0
    else CountBefore(packets[..|packets| - 1], x) + (if CompareTo(packets[|packets| - 1], x) == 1 then 1 else 0)
  }

  /** A packet is never counted before itself. */
  lemma {:induction false} CountBeforeSelf(packets: seq<Table>, x: Table)
    requires AllValid(packets) && ValidTable(x)
    ensures CountBefore(packets + [x], x) == CountBefore(packets, x)
  {
    CompareToSelf(x);
    assert (packets + [x])[..|packets|] == packets;
  }

  /** `ComputeSolution2`: the product of the 1-based positions of the two dividers in the
      packets put in order, each position being one more than the number of packets before
      the divider. */
  function ComputeSolution2(packets: seq<Table>): (r: int)
    requires AllValid(packets)
    ensures r >= 2
  {
    var all := packets + [Divider(2), Divider(6)];
    var two := 1 + CountBefore(all, Divider(2));
    var six := 1 + CountBefore(all, Divider(6));
    assert all == packets + [Divider(2)] + [Divider(6)];
    assert six >= 2 by {
      DividersOrdered();
      assert CountBefore(packets + [Divider(2)], Divider(6)) >= 1;
    }
    assert two * six >= 1 * six;
    two * six
  }

  /** Counting the packets before `x` adds up over concatenated lists. */
  lemma {:induction false} CountBeforeAppend(a: seq<Table>, b: seq<Table>, x: Table)
    requires AllValid(a) && AllValid(b) && ValidTable(x)
    ensures AllValid(a + b) && CountBefore(a + b, x) == CountBefore(a, x) + CountBefore(b, x)
    decreases |b|
  {
    assert forall k :: 0 <= k < |a + b| ==> (a + b)[k] == if k < |a| then a[k] else b[k - |a|];
    if b == [] {
      assert a + b == a;
    } else {
      var front := b[..|b| - 1];
      assert (a + b)[..|a + b| - 1] == a + front;
      CountBeforeAppend(a, front, x);
    }
  }

  /** Taking one packet out of a list takes its own contribution out of the count. */
  lemma CountBeforeRemove(b: seq<Table>, k: nat, x: Table)
    requires AllValid(b) && ValidTable(x) && k < |b|
    ensures AllValid(b[..k] + b[k + 1..])
    ensures CountBefore(b, x) == CountBefore(b[..k] + b[k + 1..], x) + (if CompareTo(b[k], x) == 1 then 1 else 0)
  {
    var left, right := b[..k], b[k + 1..];
    assert b == left + [b[k]] + right;
    assert AllValid(left) && AllValid(right) && AllValid([b[k]]);
    CountBeforeAppend(left + [b[k]], right, x);
    CountBeforeAppend(left, [b[k]], x);
    CountBeforeAppend(left, right, x);
    assert [b[k]][..0] == [];
  }

  /** The count does not depend on the order of the packets. */
  lemma {:induction false} CountBeforePermutation(a: seq<Table>, b: seq<Table>, x: Table)
    requires AllValid(a) && AllValid(b) && ValidTable(x) && multiset(a) == multiset(b)
    ensures CountBefore(a, x) == CountBefore(b, x)
    decreases |a|
  {
    if a == [] {
      assert |b| == |multiset(b)| == 0;
    } else {
      var y := a[|a| - 1];
      assert y in multiset(b) by {
        assert y in multiset(a);
      }
      var k :| 0 <= k < |b| && b[k] == y;
      RemoveLast(a, b, k);
      var front, rest := a[..|a| - 1], b[..k] + b[k + 1..];
      CountBeforeRemove(b, k, x);
      CountBeforePermutation(front, rest, x);
    }
  }

  /** `Sort` followed by `Reverse`: no packet compares below a later one. */
  predicate DescendingOrder(sorted: seq<Table>)
    requires AllValid(sorted)
  {
    forall i, j :: 0 <= i < j < |sorted| ==> CompareTo(sorted[i], sorted[j]) >= 0
  }

  /** No packet other than the one at `idx` compares equal to it, so its place in any
      descending order is fixed. */
  predicate Untied(sorted: seq<Table>, idx: nat)
    requires AllValid(sorted) && idx < |sorted|
  {
    forall i :: 0 <= i < |sorted| && i != idx ==> CompareTo(sorted[i], sorted[idx]) != 0
  }

  /** In a descending order, the packets before an untied packet are exactly the ones that
      compare before it. */
  lemma {:induction false} CountBeforeSorted(sorted: seq<Table>, idx: nat, n: nat)
    requires AllValid(sorted) && DescendingOrder(sorted)
    requires idx < |sorted| && Untied(sorted, idx) && n <= |sorted|
    ensures CountBefore(sorted[..n], sorted[idx]) == if n <= idx then n else idx
    decreases n
  {
    var x := sorted[idx];
    if n > 0 {
      CountBeforeSorted(sorted, idx, n - 1);
      assert sorted[..n][..n - 1] == sorted[..n - 1];
      var p := sorted[n - 1];
      assert sorted[..n][n - 1] == p;
      if n - 1 < idx {
        assert CompareTo(p, x) >= 0 && CompareTo(p, x) != 0;
      } else if n - 1 == idx {
        CompareToSelf(x);
      } else {
        assert CompareTo(x, p) >= 0 && CompareTo(p, x) != 0;
        CompareToFlip(x, p);
      }
    }
  }

  /** The decoder key is the product of the dividers' 1-based positions in the packets put
      in descending order, whichever such order the sort picks, as long as no other
      packet compares equal to a divider. */
  lemma KeyFromSortedOrder(packets: seq<Table>, sorted: seq<Table>, two: nat, six: nat)
    requires AllValid(packets) && AllValid(sorted)
    requires multiset(sorted) == multiset(packets + [Divider(2), Divider(6)])
    requires DescendingOrder(sorted)
    requires two < |sorted| && sorted[two] == Divider(2) && Untied(sorted, two)
    requires six < |sorted| && sorted[six] == Divider(6) && Untied(sorted, six)
    ensures ComputeSolution2(packets) == (1 + two) * (1 + six)
  {
    var all := packets + [Divider(2), Divider(6)];
    assert forall k :: 0 <= k < |all| ==> all[k] == if k < |packets| then packets[k] else [Divider(2), Divider(6)][k - |packets|];
    assert AllValid(all);
    CountBeforePermutation(all, sorted, Divider(2));
    CountBeforePermutation(all, sorted, Divider(6));
    assert sorted[..|sorted|] == sorted;
    CountBeforeSorted(sorted, two, |sorted|);
    CountBeforeSorted(sorted, six, |sorted|);
  }
}
