/** Day 20, "Grove Positioning System": the numbers of an encrypted file sit in a
    circular doubly linked list; mixing moves each number, in the file's order, as
    many places forward or backward as its value says (modulo the length of the
    circle without it), and the grove coordinates are the numbers 1000, 2000 and 3000
    places after the zero. */
module Day20 {
  import opened Common

  class Item {
    const value: int
    var prev: Item?
    var next: Item?

    constructor(v: int)
      ensures value == v && prev == null && next == null
    {
      value := v;
      prev := null;
      next := null;
    }
  }

  /** The index after `k` in a circle of `n` places. */
  function Succ(k: int, n: int): int
  {
    if k + 1 >= n then 0 else k + 1
  }

  /** The index before `k` in a circle of `n` places. */
  function Pred(k: int, n: int): int
  {
    if k <= 0 then n - 1 else k - 1
  }

  /** Stepping forward from a remainder is taking the remainder one further on. */
  lemma SuccMod(a: int, m: int)
    requires m >= 1
    ensures Succ(a % m, m) == (a + 1) % m
  {
    if a % m + 1 < m {
      ModUnique(a + 1, m, a / m, a % m + 1);
    } else {
      ModUnique(a + 1, m, a / m + 1, 0);
    }
  }

  /** Stepping backward from a remainder is taking the remainder one further back. */
  lemma PredMod(a: int, m: int)
    requires m >= 1
    ensures Pred(a % m, m) == (a - 1) % m
  {
    if a % m > 0 {
      ModUnique(a - 1, m, a / m, a % m - 1);
    } else {
      ModUnique(a - 1, m, a / m - 1, m - 1);
    }
  }

  predicate Distinct(r: seq<Item>)
  {
    forall i, j :: 0 <= i < j < |r| ==> r[i] != r[j]
  }

  /** The place `k` of the circle `r` and the place after it point at each other. */
  ghost predicate LinkedAt(r: seq<Item>, k: int)
    requires 0 <= k < |r|
    reads r
  {
    r[k].next == r[Succ(k, |r|)] && r[Succ(k, |r|)].prev == r[k]
  }

  /** The items of `r` form a circle in the order of `r`, next and previous links
      mirroring each other. */
  ghost predicate Ring(r: seq<Item>)
    reads r
  {
    forall k :: 0 <= k < |r| ==> LinkedAt(r, k)
  }

  /** `r` without its item at `j`. */
  function Remove(r: seq<Item>, j: int): (rest: seq<Item>)
    requires 0 <= j < |r|
    ensures |rest| == |r| - 1
    ensures forall k :: 0 <= k < j ==> rest[k] == r[k]
    ensures forall k :: j <= k < |rest| ==> rest[k] == r[k + 1]
  {
    r[..j] + r[j + 1..]
  }

  /** `r` with `x` inserted after its item at `t`. */
  function InsertAfter(r: seq<Item>, t: int, x: Item): (s: seq<Item>)
    requires 0 <= t < |r|
    ensures |s| == |r| + 1 && s[t + 1] == x
    ensures forall k :: 0 <= k <= t ==> s[k] == r[k]
    ensures forall k :: t + 1 < k < |s| ==> s[k] == r[k - 1]
  {
    r[..t + 1] + [x] + r[t + 1..]
  }

  /** Where mixing re-inserts the item at `j` of the circle `r` once it has been
      taken out: after the item `|v| mod (n - 1)` places beyond its old successor
      when its value `v` is positive, or that many places before its old
      predecessor otherwise. */
  function Target(r: seq<Item>, j: int): (t: int)
    requires 1 <= j < |r|
    ensures 0 <= t < |r| - 1
  {
    var m := |r| - 1;
    var v := r[j].value;
    var s := Abs(v) % m;
    if v > 0 then (j + s - 1) % m else (j - 1 - s) % m
  }

  /** One step of mixing: the item at `j` moves to its new place; every other item
      keeps its place relative to the first, which stays put. */
  function MoveOne(r: seq<Item>, j: int): (s: seq<Item>)
    requires 1 <= j < |r|
    ensures |s| == |r| && s[0] == r[0]
    ensures s[Target(r, j) + 1] == r[j]
    ensures Remove(s, Target(r, j) + 1) == Remove(r, j)
    ensures multiset(s) == multiset(r)
  {
    var t := Target(r, j);
    ReinsertSpec(r, j, t);
    InsertAfter(Remove(r, j), t, r[j])
  }

  /** Taking the item at `j` out and putting it back after place `t` of the rest keeps the
      items, and taking it out again gives the same rest. */
  lemma ReinsertSpec(r: seq<Item>, j: int, t: int)
    requires 0 <= j < |r| && 0 <= t < |r| - 1
    ensures var s := InsertAfter(Remove(r, j), t, r[j]);
            Remove(s, t + 1) == Remove(r, j) && multiset(s) == multiset(r)
  {
    var rest := Remove(r, j);
    var s := InsertAfter(rest, t, r[j]);
    assert Remove(s, t + 1) == rest;
    MultisetSplice(rest, t + 1, [r[j]]);
    MultisetSplice(r[..j], j, r[j + 1..]);
    assert r[..j] + r[j + 1..] == rest;
    assert r == r[..j] + [r[j]] + r[j + 1..];
    MultisetSplice(r[..j] + r[j + 1..], j, [r[j]]);
  }

  /** Putting `x` into `a` at place `k` adds the items of `x` to those of `a`. */
  lemma MultisetSplice<T>(a: seq<T>, k: int, x: seq<T>)
    requires 0 <= k <= |a|
    ensures multiset(a[..k] + x + a[k..]) == multiset(a) + multiset(x)
  {
    assert a == a[..k] + a[k..];
  }

  /** A number that moves a whole number of turns round the rest of the circle, either
      way, stays where it is. */
  lemma WholeTurnStays(r: seq<Item>, j: int)
    requires 1 <= j < |r| && r[j].value % (|r| - 1) == 0
    ensures MoveOne(r, j) == r
  {
    var m := |r| - 1;
    ModUnique(j - 1, m, 0, j - 1);
    var v := r[j].value;
    if v < 0 {
      ModUnique(-v, m, -(v / m), 0);
    }
    assert Target(r, j) == j - 1;
    var s := MoveOne(r, j);
    forall k | 0 <= k < |r|
      ensures s[k] == r[k]
    {
      if k < j {
        assert s[k] == Remove(r, j)[k];
      } else if k > j {
        assert s[k] == Remove(r, j)[k - 1];
      }
    }
  }

  /** The index of `x` in `r`, or -1 when it is absent. */
  function IndexOf(r: seq<Item>, x: Item): (k: int)
    ensures -1 <= k < |r|
    ensures k >= 0 ==> r[k] == x
    ensures k < 0 ==> x !in r
  {
    if r == [] then -1
    else if r[|r| - 1] == x then |r| - 1
    else IndexOf(r[..|r| - 1], x)
  }

  /** Mixing `x`: the zero, kept first, does not move. */
  function MoveItem(r: seq<Item>, x: Item): (s: seq<Item>)
    ensures |s| == |r|
  {
    var j := IndexOf(r, x);
    if j >= 1 then MoveOne(r, j) else r
  }

  /** Mixing the circle `r` once, moving the items in the order `order`. */
  function MixRing(r: seq<Item>, order: seq<Item>): (s: seq<Item>)
    ensures |s| == |r|
  {
    if order == [] then r else MoveItem(MixRing(r, order[..|order| - 1]), order[|order| - 1])
  }

  /** Takes the item at `j` out of the circle `r` by linking its neighbours to each
      other; the item keeps its own links into the rest of the circle. */
  method Unlink(ghost r: seq<Item>, item: Item, ghost j: int)
    requires 1 <= j < |r| && r[j] == item && Ring(r) && Distinct(r)
    modifies r[j - 1], r[Succ(j, |r|)]
    ensures Ring(Remove(r, j))
    ensures item.next == Remove(r, j)[j % (|r| - 1)] && item.prev == Remove(r, j)[j - 1]
  {
    assert LinkedAt(r, j - 1) && LinkedAt(r, j);
    var previous := item.prev;
    var next := item.next;
    previous.next := next;
    next.prev := previous;
    ghost var n := |r|;
    ghost var rest := Remove(r, j);
    ghost var m := n - 1;
    forall k | 0 <= k < m
      ensures LinkedAt(rest, k)
    {
      var big := if k < j then k else k + 1;
      assert rest[k] == r[big];
      if k != j - 1 {
        assert rest[Succ(k, m)] == r[Succ(big, n)];
        assert old(LinkedAt(r, big));
        assert r[big] != previous && r[Succ(big, n)] != next;
      }
    }
    assert rest[j % m] == next by {
      if j < m {
        ModUnique(j, m, 0, j);
      } else {
        ModUnique(j, m, 1, 0);
      }
    }
  }

  /** Puts `item` back into the circle `rest` after `neighbor`, the item at `t`. */
  method Link(ghost rest: seq<Item>, item: Item, neighbor: Item, ghost t: int)
    requires 0 <= t < |rest| && rest[t] == neighbor && Ring(rest) && Distinct(rest) && item !in rest
    modifies item, neighbor, rest[Succ(t, |rest|)]
    ensures Ring(InsertAfter(rest, t, item))
  {
    assert LinkedAt(rest, t);
    ghost var after := rest[Succ(t, |rest|)];
    item.prev := neighbor;
    item.next := neighbor.next;
    item.prev.next := item;
    item.next.prev := item;
    ghost var m := |rest|;
    ghost var s := InsertAfter(rest, t, item);
    forall k | 0 <= k < m + 1
      ensures LinkedAt(s, k)
    {
      if k == t + 1 {
        assert s[Succ(k, m + 1)] == after;
      } else if k != t {
        var small := if k < t + 1 then k else k - 1;
        assert s[k] == rest[small];
        assert s[Succ(k, m + 1)] == rest[Succ(small, m)];
        assert old(LinkedAt(rest, small));
        assert rest[small] != neighbor && rest[Succ(small, m)] != after;
      }
    }
  }

  /** Walks from `item`, just taken out of the circle at `j`, to the item it is to be
      re-inserted after: `|v| mod m` steps forward from its old predecessor for a
      positive value, or one step more backward from the item otherwise. */
  method FindNeighbor(ghost r: seq<Item>, item: Item, ghost j: int, count: int) returns (neighbor: Item)
    requires 1 <= j < |r| && r[j] == item && count == |r|
    requires Ring(Remove(r, j))
    requires item.next == Remove(r, j)[j % (|r| - 1)] && item.prev == Remove(r, j)[j - 1]
    ensures neighbor == Remove(r, j)[Target(r, j)]
  {
    ghost var rest := Remove(r, j);
    ghost var m := |r| - 1;
    var steps := Abs(item.value) % (count - 1);
    if item.value > 0 {
      neighbor := item.prev;
      ModUnique(j - 1, m, 0, j - 1);
      for i := 0 to steps
        invariant neighbor == rest[(j - 1 + i) % m]
      {
        assert LinkedAt(rest, (j - 1 + i) % m);
        SuccMod(j - 1 + i, m);
        neighbor := neighbor.next;
      }
    } else {
      neighbor := item;
      for i := 0 to steps + 1
        invariant i == 0 ==> neighbor == item
        invariant i > 0 ==> neighbor == rest[(j - i) % m]
      {
        if i == 0 {
          ModUnique(j - 1, m, 0, j - 1);
        } else {
          PredMod(j - i, m);
          assert LinkedAt(rest, (j - i - 1) % m);
        }
        neighbor := neighbor.prev;
      }
    }
  }

  /** The move as written for a positive value that is a whole number of turns of
      the rest of the circle: no step is taken from the item itself, so it is linked
      after itself and drops out of the circle, which closes without it. */
  method MoveWholeTurnAsWritten(ghost r: seq<Item>, item: Item, ghost j: int, count: int)
    requires 1 <= j < |r| && r[j] == item && Ring(r) && Distinct(r) && count == |r|
    requires item.value > 0 && item.value % (count - 1) == 0
    modifies r
    ensures Ring(Remove(r, j)) && item !in Remove(r, j)
    ensures item.next == item && item.prev == item
  {
    Unlink(r, item, j);
    DistinctRemove(r, j);
    // The walk forward takes `value mod (count - 1)` = 0 steps.
    var neighbor := item;
    item.prev := neighbor;
    item.next := neighbor.next;
    item.prev.next := item;
    item.next.prev := item;
  }

  lemma DistinctRemove(r: seq<Item>, j: int)
    requires 0 <= j < |r| && Distinct(r)
    ensures Distinct(Remove(r, j)) && r[j] !in Remove(r, j)
  {
    var rest := Remove(r, j);
    forall a, b | 0 <= a < b < |rest|
      ensures rest[a] != rest[b]
    {
      var a', b' := if a < j then a else a + 1, if b < j then b else b + 1;
      assert rest[a] == r[a'] && rest[b] == r[b'];
    }
    forall k | 0 <= k < |rest|
      ensures rest[k] != r[j]
    {
      assert rest[k] == r[if k < j then k else k + 1];
    }
  }

  lemma DistinctInsert(r: seq<Item>, t: int, x: Item)
    requires 0 <= t < |r| && Distinct(r) && x !in r
    ensures Distinct(InsertAfter(r, t, x))
  {
    var s := InsertAfter(r, t, x);
    forall a, b | 0 <= a < b < |s|
      ensures s[a] != s[b]
    {
      if a != t + 1 && b != t + 1 {
        var a', b' := if a <= t then a else a - 1, if b <= t then b else b - 1;
        assert s[a] == r[a'] && s[b] == r[b'];
      } else if a == t + 1 {
        assert s[b] == r[b - 1];
      } else {
        assert s[a] == r[a];
      }
    }
  }

  /** The place of `r` read at place `k` of the circle read from place `z` on. */
  function Shifted(k: int, z: int, n: int): int
  {
    if k + z < n then k + z else k + z - n
  }

  /** The circle read from place `z` on. */
  function Rotate(r: seq<Item>, z: int): (s: seq<Item>)
    requires 0 <= z < |r|
    ensures |s| == |r| && s[0] == r[z]
    ensures forall k :: 0 <= k < |r| ==> s[k] == r[Shifted(k, z, |r|)]
    ensures multiset(s) == multiset(r)
  {
    assert r == r[..z] + r[z..];
    r[z..] + r[..z]
  }

  /** A circle is a circle from whichever place it is read. */
  lemma RotateRing(r: seq<Item>, z: int)
    requires 0 <= z < |r| && Ring(r) && Distinct(r)
    ensures Ring(Rotate(r, z)) && Distinct(Rotate(r, z))
  {
    var s := Rotate(r, z);
    var n := |r|;
    forall k | 0 <= k < n
      ensures LinkedAt(s, k)
    {
      assert LinkedAt(r, Shifted(k, z, n));
      assert s[Succ(k, n)] == r[Succ(Shifted(k, z, n), n)];
    }
    forall a, b | 0 <= a < b < n
      ensures s[a] != s[b]
    {
      assert s[a] == r[Shifted(a, z, n)] && s[b] == r[Shifted(b, z, n)];
    }
  }

  /** Two sequences with the same multiset hold the same items. */
  lemma SameItems(r: seq<Item>, items: seq<Item>)
    requires multiset(r) == multiset(items)
    ensures forall x :: x in r <==> x in items
    ensures forall i :: 0 <= i < |r| ==> r[i] in items
  {
    forall x
      ensures x in r <==> x in items
    {
      assert x in r <==> x in multiset(r);
      assert x in items <==> x in multiset(items);
    }
  }

  /** Moves the item at `j` of the circle `r` to its new place: takes it out, walks
      to its new neighbour and links it in again. */
  method Relocate(ghost r: seq<Item>, item: Item, ghost j: int, count: int)
    requires 1 <= j < |r| && r[j] == item && Ring(r) && Distinct(r) && count == |r|
    modifies r
    ensures Ring(MoveOne(r, j)) && Distinct(MoveOne(r, j))
  {
    Unlink(r, item, j);
    var neighbor := FindNeighbor(r, item, j, count);
    ghost var rest := Remove(r, j);
    DistinctRemove(r, j);
    ghost var t := Target(r, j);
    assert rest[Succ(t, |rest|)] in r by {
      assert rest[Succ(t, |rest|)] == r[if Succ(t, |rest|) < j then Succ(t, |rest|) else Succ(t, |rest|) + 1];
    }
    assert neighbor in r by {
      assert rest[t] == r[if t < j then t else t + 1];
    }
    Link(rest, item, neighbor, t);
    DistinctInsert(rest, t, item);
  }

  /** Links distinct items into a circle in the order given. */
  method LinkInOrder(its: seq<Item>)
    requires |its| >= 1 && Distinct(its)
    modifies its
    ensures Ring(its)
  {
    var n := |its|;
    its[0].prev := its[n - 1];
    its[n - 1].next := its[0];
    for i := 1 to n
      invariant forall k :: 1 <= k < i ==> its[k].prev == its[k - 1]
      invariant its[0].prev == its[n - 1] && its[n - 1].next == its[0]
    {
      its[i].prev := its[i - 1];
    }
    for i := 0 to n - 1
      invariant forall k :: 1 <= k < n ==> its[k].prev == its[k - 1]
      invariant its[0].prev == its[n - 1] && its[n - 1].next == its[0]
      invariant forall k :: 0 <= k < i ==> its[k].next == its[k + 1]
    {
      its[i].next := its[i + 1];
    }
    forall k | 0 <= k < n
      ensures LinkedAt(its, k)
    {
      if k + 1 < n {
        assert its[k + 1].prev == its[k];
      }
    }
  }

  /** The input holds exactly one zero. */
  ghost predicate OneZero(values: seq<int>)
  {
    exists z :: 0 <= z < |values| && values[z] == 0 && forall k :: 0 <= k < |values| && values[k] == 0 ==> k == z
  }

  /** The index of the first zero, or the length when there is none. */
  function ZeroIndex(values: seq<int>): (z: int)
    ensures 0 <= z <= |values|
    ensures z < |values| ==> values[z] == 0
    ensures forall k :: 0 <= k < z ==> values[k] != 0
  {
    if values == [] then 0 else if values[0] == 0 then 0 else 1 + ZeroIndex(values[1..])
  }

  function Scaled(values: seq<int>, key: int): (r: seq<int>)
    ensures |r| == |values| && forall i :: 0 <= i < |values| ==> r[i] == values[i] * key
  {
    seq(|values|, i requires 0 <= i < |values| => values[i] * key)
  }

  function Values(items: seq<Item>): (r: seq<int>)
    ensures |r| == |items| && forall i :: 0 <= i < |items| ==> r[i] == items[i].value
  {
    seq(|items|, i requires 0 <= i < |items| => items[i].value)
  }

  /** The three numbers 1000, 2000 and 3000 places after the first one (the zero). */
  function GroveSum(r: seq<Item>): int
    requires |r| >= 1
  {
    r[1000 % |r|].value + r[2000 % |r|].value + r[3000 % |r|].value
  }

  class Decryptor {
    const items: seq<Item>
    const zero: Item
    /** The circle read from the zero on. */
    ghost var ring: seq<Item>

    ghost predicate Valid()
      reads this, items, ring
    {
      |items| >= 1 && Distinct(items) && |ring| == |items| && ring[0] == zero &&
      Distinct(ring) && multiset(ring) == multiset(items) && Ring(ring)
    }

    /** Wraps every number, times the key, in an item (the zero in the one shared
        zero item) and links the items into a circle in input order. */
    constructor(values: seq<int>, key: int)
      requires OneZero(values)
      ensures Valid() && Values(items) == Scaled(values, key)
      ensures forall i :: 0 <= i < |items| ==> fresh(items[i])
      ensures ring == Rotate(items, ZeroIndex(values))
    {
      var z := new Item(0);
      var its: seq<Item> := [];
      ghost var zi :| 0 <= zi < |values| && values[zi] == 0 && forall k :: 0 <= k < |values| && values[k] == 0 ==> k == zi;
      for i := 0 to |values|
        invariant |its| == i && Distinct(its)
        invariant forall k :: 0 <= k < i ==> its[k].value == values[k] * key
        invariant forall k :: 0 <= k < i ==> (its[k] == z <==> k == zi)
        invariant forall k :: 0 <= k < i ==> fresh(its[k])
      {
        var it: Item;
        if values[i] == 0 {
          it := z;
        } else {
          it := new Item(values[i] * key);
        }
        its := its + [it];
      }
      LinkInOrder(its);
      assert ZeroIndex(values) == zi;
      RotateRing(its, zi);
      items := its;
      zero := z;
      ring := Rotate(its, zi);
    }

    /** Moves one item to its new place in the circle. */
    method Move(item: Item)
      requires Valid() && item != zero && item in items
      modifies this, items
      ensures Valid() && ring == MoveItem(old(ring), item)
    {
      ghost var r := ring;
      SameItems(r, items);
      ghost var j := IndexOf(r, item);
      Relocate(r, item, j, |items|);
      ring := MoveOne(r, j);
    }

    /** Mixes once: moves every item but the zero, in input order. */
    method Mix()
      requires Valid()
      modifies this, items
      ensures Valid() && ring == MixRing(old(ring), items)
    {
      for i := 0 to |items|
        invariant Valid() && ring == MixRing(old(ring), items[..i])
      {
        assert items[..i + 1][..i] == items[..i];
        var item := items[i];
        if item == zero {
          assert IndexOf(ring, item) == 0;
          continue;
        }
        Move(item);
      }
      assert items[..|items|] == items;
    }

    /** Sums the numbers 1000, 2000 and 3000 places after the zero. */
    method GroveCoordinates() returns (sum: int)
      requires Valid()
      ensures sum == GroveSum(ring)
    {
      sum := 0;
      var item := zero;
      ghost var n := |ring|;
      for i := 1 to 3001
        invariant item == ring[(i - 1) % n]
        invariant sum == (if i > 1000 then ring[1000 % n].value else 0) +
                         (if i > 2000 then ring[2000 % n].value else 0) +
                         (if i > 3000 then ring[3000 % n].value else 0)
      {
        assert LinkedAt(ring, (i - 1) % n);
        SuccMod(i - 1, n);
        item := item.next;
        if i % 1000 == 0 {
          sum := sum + item.value;
        }
      }
    }
  }

  /** Mixing `times` times over. */
  function MixTimes(r: seq<Item>, order: seq<Item>, times: nat): (s: seq<Item>)
    ensures |s| == |r|
  {
    if times == 0 then r else MixRing(MixTimes(r, order, times - 1), order)
  }

  /** Mixing rearranges the circle: the same items, the first one still first. */
  lemma {:induction false} MixRingPermutes(r: seq<Item>, order: seq<Item>)
    requires |r| >= 1
    ensures MixRing(r, order)[0] == r[0]
    ensures multiset(MixRing(r, order)) == multiset(r)
  {
    if order != [] {
      MixRingPermutes(r, order[..|order| - 1]);
    }
  }

  /** Repeated mixing rearranges the circle as well. */
  lemma {:induction false} MixTimesPermutes(r: seq<Item>, order: seq<Item>, times: nat)
    requires |r| >= 1
    ensures MixTimes(r, order, times)[0] == r[0]
    ensures multiset(MixTimes(r, order, times)) == multiset(r)
  {
    if times > 0 {
      MixTimesPermutes(r, order, times - 1);
      MixRingPermutes(MixTimes(r, order, times - 1), order);
    }
  }

  /** Part 1: one mix of the numbers as they are, then the grove coordinates. */
  method ComputeSolution1(values: seq<int>) returns (sum: int, decryptor: Decryptor)
    requires OneZero(values)
    ensures Values(decryptor.items) == values && decryptor.Valid()
    ensures sum == GroveSum(MixRing(Rotate(decryptor.items, ZeroIndex(values)), decryptor.items))
  {
    decryptor := new Decryptor(values, 1);
    assert Scaled(values, 1) == values;
    decryptor.Mix();
    sum := decryptor.GroveCoordinates();
  }

  /** The decryption key of part 2. */
  const DecryptionKey := 811589153

  /** Part 2: ten mixes of the numbers times the decryption key, then the grove
      coordinates. */
  method ComputeSolution2(values: seq<int>) returns (sum: int, decryptor: Decryptor)
    requires OneZero(values)
    ensures Values(decryptor.items) == Scaled(values, DecryptionKey) && decryptor.Valid()
    ensures sum == GroveSum(MixTimes(Rotate(decryptor.items, ZeroIndex(values)), decryptor.items, 10))
  {
    decryptor := new Decryptor(values, DecryptionKey);
    ghost var start := decryptor.ring;
    for i := 0 to 10
      invariant decryptor.Valid() && decryptor.ring == MixTimes(start, decryptor.items, i)
      invariant Values(decryptor.items) == Scaled(values, DecryptionKey)
    {
      decryptor.Mix();
    }
    sum := decryptor.GroveCoordinates();
  }
}
