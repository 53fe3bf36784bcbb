/** Day 17: rocks of five fixed shapes fall into a chamber seven cells wide and
    are pushed left or right by a repeating pattern of jets. The chamber is a
    growing list of 7-bit rows (bit 6 is the leftmost cell, bit 0 the rightmost,
    row 0 lies on the floor); a rock is a short list of rows, its bottom row first.
    A repetition of the chamber's top rows, rock index and jet index is detected
    by fingerprints, and the height after 10^12 rocks is extrapolated from it. */
module Day17 {
  import opened Common

  datatype JetDirection = Left | Right

  /** Every row keeps the bit above the seventh column clear. */
  predicate WithinWidth(rows: seq<bv8>)
  {
    forall i :: 0 <= i < |rows| ==> rows[i] & 0x80 == 0
  }

  datatype Rock = Rock(rows: seq<bv8>)
  {
    function Height(): nat { |rows| }
  }

  predicate TouchesLeftWall(rock: Rock)
  {
    exists i :: 0 <= i < |rock.rows| && rock.rows[i] & 0x40 != 0
  }

  predicate TouchesRightWall(rock: Rock)
  {
    exists i :: 0 <= i < |rock.rows| && rock.rows[i] & 0x01 != 0
  }

  /** One column to the left (towards bit 6); the ninth bit is dropped, as the source's `& 0xFF` does. */
  function ShiftLeft(row: bv8): bv8 { row << 1 }

  /** One column to the right (towards bit 0). */
  function ShiftRight(row: bv8): bv8 { row >> 1 }

  /** `Rock.operator +`: a jet moves the rock one column unless a wall is in the way.
      What the move does to each row is stated by `PushMeaning`. */
  function Push(rock: Rock, direction: JetDirection): (r: Rock)
    ensures |r.rows| == |rock.rows|
  {
    if direction == Left then
      if TouchesLeftWall(rock) then rock
      else Rock(seq(|rock.rows|, i requires 0 <= i < |rock.rows| => ShiftLeft(rock.rows[i])))
    else
      if TouchesRightWall(rock) then rock
      else Rock(seq(|rock.rows|, i requires 0 <= i < |rock.rows| => ShiftRight(rock.rows[i])))
  }

  /** A push keeps a rock within the chamber's width. */
  lemma PushWithinWidth(rock: Rock, direction: JetDirection)
    requires WithinWidth(rock.rows)
    ensures WithinWidth(Push(rock, direction).rows)
  {
  }

  /** A push blocked by a wall leaves the rock alone; any other push shifts every row by one
      column towards the jet's side, into the column the wall left clear, and keeps the rock
      within the chamber's width. */
  lemma PushMeaning(rock: Rock, direction: JetDirection)
    ensures var r := Push(rock, direction);
            && (WithinWidth(rock.rows) ==> WithinWidth(r.rows))
            && (direction == Left && TouchesLeftWall(rock) ==> r == rock)
            && (direction == Right && TouchesRightWall(rock) ==> r == rock)
            && (direction == Left && !TouchesLeftWall(rock) && WithinWidth(rock.rows) ==>
                  forall i :: 0 <= i < |r.rows| ==> r.rows[i] >> 1 == rock.rows[i] && r.rows[i] & 0x01 == 0)
            && (direction == Right && !TouchesRightWall(rock) && WithinWidth(rock.rows) ==>
                  forall i :: 0 <= i < |r.rows| ==> r.rows[i] << 1 == rock.rows[i] && r.rows[i] & 0x40 == 0)
  {
  }

  /** A push to the right that was not blocked is undone by a push to the left. */
  lemma PushRightThenLeft(rock: Rock)
    requires WithinWidth(rock.rows) && !TouchesRightWall(rock)
    ensures Push(Push(rock, Right), Left) == rock
  {
    var r := Push(rock, Right);
    PushMeaning(rock, Right);
    assert !TouchesLeftWall(r) by {
      forall i | 0 <= i < |r.rows| ensures r.rows[i] & 0x40 == 0 { }
    }
    var l := Push(r, Left);
    PushMeaning(r, Left);
    forall i | 0 <= i < |l.rows| ensures l.rows[i] == rock.rows[i] {
      assert l.rows[i] == r.rows[i] << 1;
    }
  }

  /** The five rock shapes, in the order they fall. */
  const Shapes: seq<Rock> := [
    Rock([0x1E]),
    Rock([0x08, 0x1C, 0x08]),
    Rock([0x1C, 0x04, 0x04]),
    Rock([0x10, 0x10, 0x10, 0x10]),
    Rock([0x18, 0x18])
  ]

  lemma ShapesFit()
    ensures |Shapes| == 5
    ensures forall k :: 0 <= k < 5 ==> WithinWidth(Shapes[k].rows) && 1 <= |Shapes[k].rows| <= 4
  {
  }

  /** Each shape lies within the chamber's width and is one to four rows high. */
  lemma ShapeFits(k: int)
    requires 0 <= k < |Shapes|
    ensures WithinWidth(Shapes[k].rows) && 1 <= |Shapes[k].rows| <= 4
  {
    ShapesFit();
  }

  /** The top rows of the chamber together with the next rock and jet indices. */
  datatype Fingerprint = Fingerprint(rows: seq<bv8>, rock: int, jet: int)
  {
    /** `Fingerprint.Equals`: a missing fingerprint is never equal; otherwise the indices,
        the row counts and the rows pairwise must agree. */
    function Equals(other: Option<Fingerprint>): (r: bool)
      ensures r <==> other == Some(this)
    {
      match other
      case None => false
      case Some(o) =>
        if rock != o.rock || jet != o.jet then false
        else if |rows| != |o.rows| then false
        else
          var same := forall i :: 0 <= i < |rows| ==> rows[i] == o.rows[i];
          assert same ==> rows == o.rows;
          same
    }
  }

  /** A value of the fingerprint dictionary with its key (height, rocks). */
  datatype FingerprintEntry = FingerprintEntry(height: int, rocks: int, fp: Fingerprint)

  const FingerprintWindow := 25
  const JetIndexObservationPeriod := 50000

  /** `TakeLast(n)`: the last n elements, or all of them when there are fewer. */
  function TakeLast(rows: seq<bv8>, n: nat): (r: seq<bv8>)
    ensures |r| == Min(n, |rows|)
    ensures forall i :: 0 <= i < |r| ==> r[i] == rows[|rows| - |r| + i]
  {
    rows[|rows| - Min(n, |rows|)..]
  }

  /** The jet constructor: the trimmed text, '<' as Left and every other character as Right. */
  function ParseJets(text: string): (jets: seq<JetDirection>)
    ensures |jets| == |Trim(text)|
    ensures forall i :: 0 <= i < |jets| ==> (jets[i] == Left <==> Trim(text)[i] == '<')
  {
    var t := Trim(text);
    seq(|t|, i requires 0 <= i < |t| => if t[i] == '<' then Left else Right)
  }

  /** The rock placed with its bottom row at height y would hit the floor or a settled cell.
      Rows at or above the chamber's height are empty. */
  predicate Collision(rows: seq<bv8>, rock: Rock, y: int)
  {
    y < 0 || exists i :: 0 <= i < |rock.rows| && 0 <= y + i < |rows| && rows[y + i] & rock.rows[i] != 0
  }

  lemma NoCollisionAboveTop(rows: seq<bv8>, rock: Rock, y: int)
    requires y >= |rows|
    ensures !Collision(rows, rock, y)
  {
  }

  /** The chamber row at height k, empty above the top. */
  function RowAt(rows: seq<bv8>, k: int): bv8
  {
    if 0 <= k < |rows| then rows[k] else 0
  }

  /** The row of a rock resting at height y that lies at height k, empty outside the rock. */
  function RockRowAt(rock: Rock, y: int, k: int): bv8
  {
    if y <= k < y + |rock.rows| then rock.rows[k - y] else 0
  }

  /** The row at height k contributed by the first `count` rows of a rock resting at height y. */
  function MergedRowAt(rock: Rock, y: int, count: int, k: int): bv8
    requires 0 <= count <= |rock.rows|
    ensures count == |rock.rows| ==> MergedRowAt(rock, y, count, k) == RockRowAt(rock, y, k)
  {
    if y <= k < y + count then rock.rows[k - y] else 0
  }

  /** `rows` is `before` with the first `count` rows of a rock resting at height y merged in. */
  predicate MergedUpTo(before: seq<bv8>, rock: Rock, y: int, count: int, rows: seq<bv8>)
    requires 0 <= count <= |rock.rows|
  {
    && |rows| == Max(|before|, y + count)
    && forall k :: 0 <= k < |rows| ==> rows[k] == RowAt(before, k) | MergedRowAt(rock, y, count, k)
  }

  /** Merging the next rock row above the top appends it. */
  lemma MergeAppend(before: seq<bv8>, rock: Rock, y: int, i: int, rows: seq<bv8>)
    requires 0 <= y && 0 <= i < |rock.rows| && y + i >= |rows|
    requires MergedUpTo(before, rock, y, i, rows)
    ensures MergedUpTo(before, rock, y, i + 1, rows + [rock.rows[i]])
  {
    var r := rows + [rock.rows[i]];
    forall k | 0 <= k < |r| ensures r[k] == RowAt(before, k) | MergedRowAt(rock, y, i + 1, k) {
      if k < |rows| {
        assert MergedRowAt(rock, y, i + 1, k) == MergedRowAt(rock, y, i, k);
      } else {
        assert RowAt(before, k) == 0;
      }
    }
  }

  /** Merging the next rock row below the top ORs it into the row at its height. */
  lemma MergeOr(before: seq<bv8>, rock: Rock, y: int, i: int, rows: seq<bv8>)
    requires 0 <= y && 0 <= i < |rock.rows| && y + i < |rows|
    requires MergedUpTo(before, rock, y, i, rows)
    ensures MergedUpTo(before, rock, y, i + 1, rows[y + i := rows[y + i] | rock.rows[i]])
  {
    var r := rows[y + i := rows[y + i] | rock.rows[i]];
    forall k | 0 <= k < |r| ensures r[k] == RowAt(before, k) | MergedRowAt(rock, y, i + 1, k) {
      if k != y + i {
        assert MergedRowAt(rock, y, i + 1, k) == MergedRowAt(rock, y, i, k);
      } else {
        assert MergedRowAt(rock, y, i, k) == 0;
      }
    }
  }

  /** With every rock row merged in, the rows are the settled chamber. */
  lemma MergedAll(before: seq<bv8>, rock: Rock, y: int, rows: seq<bv8>)
    requires 0 <= y <= |before|
    requires MergedUpTo(before, rock, y, |rock.rows|, rows)
    ensures rows == Settle(before, rock, y)
  {
    SettleMeaning(before, rock, y);
  }

  /** The chamber after a rock has settled with its bottom row at height y. */
  function Settle(rows: seq<bv8>, rock: Rock, y: nat): (r: seq<bv8>)
    requires y <= |rows|
    ensures |r| == Max(|rows|, y + |rock.rows|)
  {
    seq(Max(|rows|, y + |rock.rows|), k => RowAt(rows, k) | RockRowAt(rock, y, k))
  }

  /** Settling keeps the rows below the rock and every settled cell, and adds every cell
      of the rock: each row is the old row ORed with the rock's row at that height. */
  lemma SettleMeaning(rows: seq<bv8>, rock: Rock, y: nat)
    requires y <= |rows|
    ensures var r := Settle(rows, rock, y);
            && (forall k :: 0 <= k < y ==> r[k] == rows[k])
            && (forall k :: 0 <= k < |rows| ==> r[k] & rows[k] == rows[k])
            && (forall i :: 0 <= i < |rock.rows| ==> r[y + i] & rock.rows[i] == rock.rows[i])
            && (forall k :: 0 <= k < |r| ==> r[k] == RowAt(rows, k) | RockRowAt(rock, y, k))
  {
  }

  lemma SettleWithinWidth(rows: seq<bv8>, rock: Rock, y: nat)
    requires y <= |rows| && WithinWidth(rows) && WithinWidth(rock.rows)
    ensures WithinWidth(Settle(rows, rock, y))
  {
    var r := Settle(rows, rock, y);
    SettleMeaning(rows, rock, y);
    forall k | 0 <= k < |r| ensures r[k] & 0x80 == 0 {
      assert RowAt(rows, k) & 0x80 == 0;
      assert RockRowAt(rock, y, k) & 0x80 == 0;
    }
  }

  /** A rock that did not collide where it settled shares no cell with the chamber,
      so the settled chamber holds exactly the bits of both. */
  lemma SettleDisjoint(rows: seq<bv8>, rock: Rock, y: nat, k: int)
    requires y <= |rows| && !Collision(rows, rock, y) && 0 <= k < |rows|
    ensures RowAt(rows, k) & RockRowAt(rock, y, k) == 0
  {
    if y <= k < y + |rock.rows| {
      assert rows[y + (k - y)] & rock.rows[k - y] == 0;
    }
  }

  /** The fall of `DropRock` from height y with jet j next: push the rock by the jet (kept
      only if it does not collide), then rest if one row lower collides and otherwise drop
      one row. The result is the resting height, the rock as pushed and the next jet index. */
  function FallFrom(rows: seq<bv8>, jets: seq<JetDirection>, rock: Rock, y: int, j: int): (r: (int, Rock, int))
    requires 0 <= j < |jets| && 0 <= y
    ensures 0 <= r.0 <= y && r.0 <= |rows| && 0 <= r.2 < |jets| && |r.1.rows| == |rock.rows|
    decreases y
  {
    var pushed := Push(rock, jets[j]);
    var next := Advance(j, |jets|);
    var moved := if Collision(rows, pushed, y) then rock else pushed;
    if Collision(rows, moved, y - 1) then
      assert y <= |rows| by {
        if y > |rows| {
          NoCollisionAboveTop(rows, moved, y - 1);
        }
      }
      (y, moved, next)
    else FallFrom(rows, jets, moved, y - 1, next)
  }

  /** The rock ends where one row lower collides. */
  lemma {:induction false} FallFromRests(rows: seq<bv8>, jets: seq<JetDirection>, rock: Rock, y: int, j: int)
    requires 0 <= j < |jets| && 0 <= y
    ensures var r := FallFrom(rows, jets, rock, y, j); Collision(rows, r.1, r.0 - 1)
    decreases y
  {
    var pushed := Push(rock, jets[j]);
    var moved := if Collision(rows, pushed, y) then rock else pushed;
    if !Collision(rows, moved, y - 1) {
      FallFromRests(rows, jets, moved, y - 1, Advance(j, |jets|));
    }
  }

  /** A rock that starts clear of the stack ends clear of it. */
  lemma {:induction false} FallFromClear(rows: seq<bv8>, jets: seq<JetDirection>, rock: Rock, y: int, j: int)
    requires 0 <= j < |jets| && 0 <= y && !Collision(rows, rock, y)
    ensures var r := FallFrom(rows, jets, rock, y, j); !Collision(rows, r.1, r.0)
    decreases y
  {
    var pushed := Push(rock, jets[j]);
    var moved := if Collision(rows, pushed, y) then rock else pushed;
    if !Collision(rows, moved, y - 1) {
      FallFromClear(rows, jets, moved, y - 1, Advance(j, |jets|));
    }
  }

  /** A rock inside the walls stays inside them while it falls. */
  lemma {:induction false} FallFromWithinWidth(rows: seq<bv8>, jets: seq<JetDirection>, rock: Rock, y: int, j: int)
    requires 0 <= j < |jets| && 0 <= y && WithinWidth(rock.rows)
    ensures WithinWidth(FallFrom(rows, jets, rock, y, j).1.rows)
    decreases y
  {
    var pushed := Push(rock, jets[j]);
    PushWithinWidth(rock, jets[j]);
    var moved := if Collision(rows, pushed, y) then rock else pushed;
    if !Collision(rows, moved, y - 1) {
      FallFromWithinWidth(rows, jets, moved, y - 1, Advance(j, |jets|));
    }
  }

  /** A fall from the spawn height, three rows above the top, with jet `start` next, ends
      clear of the stack, resting on it or the floor, having used one jet per height. */
  lemma FallFromSpawn(rows: seq<bv8>, jets: seq<JetDirection>, shape: Rock, start: int, y: int, rock: Rock, next: int)
    requires 0 <= start < |jets| && WithinWidth(shape.rows)
    requires (y, rock, next) == FallFrom(rows, jets, shape, |rows| + 3, start)
    ensures 0 <= next < |jets| && 0 <= y <= |rows|
    ensures |rock.rows| == |shape.rows| && WithinWidth(rock.rows)
    ensures !Collision(rows, rock, y) && Collision(rows, rock, y - 1)
    ensures next == (start + |rows| + 4 - y) % |jets|
  {
    FallFromRests(rows, jets, shape, |rows| + 3, start);
    NoCollisionAboveTop(rows, shape, |rows| + 3);
    FallFromClear(rows, jets, shape, |rows| + 3, start);
    FallFromWithinWidth(rows, jets, shape, |rows| + 3, start);
    SpawnJets(rows, jets, shape, start);
  }

  lemma SpawnJets(rows: seq<bv8>, jets: seq<JetDirection>, shape: Rock, start: int)
    requires 0 <= start < |jets|
    ensures var r := FallFrom(rows, jets, shape, |rows| + 3, start); r.2 == (start + |rows| + 4 - r.0) % |jets|
  {
    assert start % |jets| == start;
    FallFromJets(rows, jets, shape, |rows| + 3, start);
  }

  /** One step of `FallFrom`: push (unless blocked), then rest or drop by one. */
  lemma FallStep(rows: seq<bv8>, jets: seq<JetDirection>, rock: Rock, y: int, j: int, moved: Rock)
    requires 0 <= j < |jets| && 0 <= y
    requires moved == if Collision(rows, Push(rock, jets[j]), y) then rock else Push(rock, jets[j])
    ensures Collision(rows, moved, y - 1) ==> FallFrom(rows, jets, rock, y, j) == (y, moved, Advance(j, |jets|))
    ensures !Collision(rows, moved, y - 1) ==>
              FallFrom(rows, jets, rock, y, j) == FallFrom(rows, jets, moved, y - 1, Advance(j, |jets|))
  {
  }

  /** The fall uses one jet per height it visits, from the spawn height down to the
      resting height. */
  lemma {:induction false} FallFromJets(rows: seq<bv8>, jets: seq<JetDirection>, rock: Rock, y: int, a: nat)
    requires |jets| > 0 && 0 <= y
    ensures var r := FallFrom(rows, jets, rock, y, a % |jets|); r.2 == (a + y + 1 - r.0) % |jets|
    decreases y
  {
    var pushed := Push(rock, jets[a % |jets|]);
    var moved := if Collision(rows, pushed, y) then rock else pushed;
    AdvanceIsSuccessorModulo(a, |jets|);
    if !Collision(rows, moved, y - 1) {
      FallFromJets(rows, jets, moved, y - 1, a + 1);
    }
  }

  /** The index that follows i in a cycle of length n (the `if (++i >= n) i = 0` idiom). */
  function Advance(i: int, n: int): int
  {
    if i + 1 >= n then 0 else i + 1
  }

  lemma AdvanceBelow(i: int, n: int)
    requires 0 <= i < n
    ensures Advance(i, n) == (i + 1) % n
  {
    if i + 1 < n {
      ModUnique(i + 1, n, 0, i + 1);
    } else {
      ModUnique(i + 1, n, 1, 0);
    }
  }

  lemma {:induction false} AdvanceIsSuccessorModulo(a: nat, n: int)
    requires n > 0
    ensures Advance(a % n, n) == (a + 1) % n
  {
    var q, r := a / n, a % n;
    assert a == q * n + r;
    if r + 1 < n {
      ModUnique(a + 1, n, q, r + 1);
    } else {
      ModUnique(a + 1, n, q + 1, 0);
    }
  }

  /** `MaxBy(item => item.Value).Key`: the first key, in insertion order, whose count is largest. */
  function FirstMaxKey(order: seq<int>, counts: map<int, int>): (k: int)
    requires |order| > 0 && forall j :: 0 <= j < |order| ==> order[j] in counts
    ensures k in order
    ensures forall j :: 0 <= j < |order| ==> counts[order[j]] <= counts[k]
    ensures exists i :: 0 <= i < |order| && order[i] == k && forall j :: 0 <= j < i ==> counts[order[j]] < counts[k]
  {
    if |order| == 1 then order[0]
    else
      var last := order[|order| - 1];
      var m := FirstMaxKey(order[..|order| - 1], counts);
      if counts[last] > counts[m] then last else m
  }

  /** The first entry whose fingerprint equals `fp`, or -1 (the `foreach ... break` search). */
  function FirstMatch(entries: seq<FingerprintEntry>, fp: Fingerprint): (m: int)
    ensures -1 <= m < |entries|
    ensures m >= 0 ==> entries[m].fp == fp && forall j :: 0 <= j < m ==> entries[j].fp != fp
    ensures m == -1 ==> forall j :: 0 <= j < |entries| ==> entries[j].fp != fp
  {
    if |entries| == 0 then -1
    else
      var m := FirstMatch(entries[..|entries| - 1], fp);
      if m >= 0 then m else if entries[|entries| - 1].fp == fp then |entries| - 1 else -1
  }

  /** What the next drop depends on: the stack and the indices of the next shape and jet. */
  datatype Tower = Tower(rows: seq<bv8>, shape: int, jet: int)

  /** One rock dropped: the next shape falls from three rows above the top under the jets,
      settles where it rests, and the shape index moves on cyclically while the jet index
      moves on by the jets the fall used. The stack grows by at most one shape's height. */
  function Drop(jets: seq<JetDirection>, t: Tower): (r: Tower)
    requires 0 <= t.shape < |Shapes| && 0 <= t.jet < |jets|
    ensures 0 <= r.shape < |Shapes| && 0 <= r.jet < |jets|
    ensures |t.rows| <= |r.rows|
  {
    var f := FallFrom(t.rows, jets, Shapes[t.shape], |t.rows| + 3, t.jet);
    Tower(Settle(t.rows, f.1, f.0), (t.shape + 1) % |Shapes|, f.2)
  }

  /** A drop raises the stack by at most four rows, the height of the tallest shape. */
  lemma DropGrowth(jets: seq<JetDirection>, t: Tower)
    requires 0 <= t.shape < |Shapes| && 0 <= t.jet < |jets|
    ensures |Drop(jets, t).rows| <= |t.rows| + 4
  {
    ShapeFits(t.shape);
  }

  /** A drop spelled out: the settle of the fall from three rows above the top. */
  lemma DropUnfold(jets: seq<JetDirection>, t: Tower)
    requires 0 <= t.shape < |Shapes| && 0 <= t.jet < |jets|
    ensures var f := FallFrom(t.rows, jets, Shapes[t.shape], |t.rows| + 3, t.jet);
            Drop(jets, t) == Tower(Settle(t.rows, f.1, f.0), (t.shape + 1) % |Shapes|, f.2)
  {
    DropRows(jets, t);
    DropJet(jets, t);
  }

  lemma DropRows(jets: seq<JetDirection>, t: Tower)
    requires 0 <= t.shape < |Shapes| && 0 <= t.jet < |jets|
    ensures var f := FallFrom(t.rows, jets, Shapes[t.shape], |t.rows| + 3, t.jet);
            Drop(jets, t).rows == Settle(t.rows, f.1, f.0)
  {
  }

  lemma DropJet(jets: seq<JetDirection>, t: Tower)
    requires 0 <= t.shape < |Shapes| && 0 <= t.jet < |jets|
    ensures Drop(jets, t).jet == FallFrom(t.rows, jets, Shapes[t.shape], |t.rows| + 3, t.jet).2
  {
  }

  /** `n` rocks dropped one after the other. */
  function Drops(jets: seq<JetDirection>, t: Tower, n: nat): (r: Tower)
    requires 0 <= t.shape < |Shapes| && 0 <= t.jet < |jets|
    ensures 0 <= r.shape < |Shapes| && 0 <= r.jet < |jets|
    ensures |t.rows| <= |r.rows| <= |t.rows| + 4 * n
  {
    if n == 0 then t else DropGrowth(jets, Drops(jets, t, n - 1)); Drop(jets, Drops(jets, t, n - 1))
  }

  /** Every cell filled in `small` is filled in `big`, row by row from the floor. */
  predicate Covers(big: seq<bv8>, small: seq<bv8>)
  {
    |small| <= |big| && forall k :: 0 <= k < |small| ==> big[k] & small[k] == small[k]
  }

  lemma CoversTransitive(a: seq<bv8>, b: seq<bv8>, c: seq<bv8>)
    requires Covers(a, b) && Covers(b, c)
    ensures Covers(a, c)
  {
    forall k | 0 <= k < |c| ensures a[k] & c[k] == c[k] {
      assert a[k] & b[k] == b[k] && b[k] & c[k] == c[k];
    }
  }

  /** A drop never clears a cell. */
  lemma DropCovers(jets: seq<JetDirection>, t: Tower)
    requires 0 <= t.shape < |Shapes| && 0 <= t.jet < |jets|
    ensures Covers(Drop(jets, t).rows, t.rows)
  {
    var f := FallFrom(t.rows, jets, Shapes[t.shape], |t.rows| + 3, t.jet);
    DropUnfold(jets, t);
    SettleMeaning(t.rows, f.1, f.0);
  }

  /** Nor does any number of drops. */
  lemma {:induction false} DropsCover(jets: seq<JetDirection>, t: Tower, n: nat)
    requires 0 <= t.shape < |Shapes| && 0 <= t.jet < |jets|
    ensures Covers(Drops(jets, t, n).rows, t.rows)
  {
    if n > 0 {
      DropsCover(jets, t, n - 1);
      DropsCoverStep(jets, t, n);
    } else {
      assert Covers(t.rows, t.rows);
    }
  }

  lemma DropsCoverStep(jets: seq<JetDirection>, t: Tower, n: nat)
    requires 0 <= t.shape < |Shapes| && 0 <= t.jet < |jets| && n > 0
    requires Covers(Drops(jets, t, n - 1).rows, t.rows)
    ensures Covers(Drops(jets, t, n).rows, t.rows)
  {
    var p := Drops(jets, t, n - 1);
    DropCovers(jets, p);
    CoversTransitive(Drop(jets, p).rows, p.rows, t.rows);
  }

  /** The `period` rocks after the first `n` raise the stack by exactly `length` rows; `m` is `n + period`. */
  ghost predicate PeriodAt(jets: seq<JetDirection>, t: Tower, n: nat, m: nat, length: int)
    requires 0 <= t.shape < |Shapes| && 0 <= t.jet < |jets|
  {
    |Drops(jets, t, m).rows| == |Drops(jets, t, n).rows| + length
  }

  /** From `from` rocks on, every `period` more rocks raise the stack by exactly `length` rows. */
  ghost predicate Periodic(jets: seq<JetDirection>, t: Tower, from: nat, period: nat, length: int)
    requires 0 <= t.shape < |Shapes| && 0 <= t.jet < |jets|
  {
    forall n: nat, m: nat :: from <= n && m == n + period ==> PeriodAt(jets, t, n, m, length)
  }

  /** `k` copies of `x` added up. */
  ghost function Scaled(k: nat, x: int): (r: int)
    ensures x >= 0 ==> r >= 0
  {
    if k == 0 then 0 else Scaled(k - 1, x) + x
  }

  /** Adding up `k` copies of `x` is multiplying `x` by `k`. */
  lemma {:induction false} ScaledIsProduct(k: nat, x: int)
    ensures Scaled(k, x) == k * x
  {
    if k > 0 {
      ScaledIsProduct(k - 1, x);
    }
  }

  /** A height that grows by `length` every `period` steps from `from` on grows by `k * length` over `k` periods. */
  lemma {:induction false} HeightsAdd(height: nat -> int, from: nat, period: nat, length: int,
                                      d: nat, k: nat, total: nat)
    requires forall n: nat, m: nat :: from <= n && m == n + period ==> height(m) == height(n) + length
    requires from <= d && total == d + Scaled(k, period)
    ensures height(total) == height(d) + Scaled(k, length)
  {
    if k > 0 {
      var m: nat := d + Scaled(k - 1, period);
      HeightsAdd(height, from, period, length, d, k - 1, m);
    }
  }

  /** If the stack is periodic from `from` rocks on, `k` more periods after `d >= from` rocks add `k * length` rows. */
  lemma PeriodsAdd(jets: seq<JetDirection>, t: Tower, from: nat, period: nat, length: int,
                   d: nat, k: nat, total: nat)
    requires 0 <= t.shape < |Shapes| && 0 <= t.jet < |jets|
    requires Periodic(jets, t, from, period, length) && from <= d && total == d + Scaled(k, period)
    ensures |Drops(jets, t, total).rows| == |Drops(jets, t, d).rows| + Scaled(k, length)
  {
    var height := (n: nat) => |Drops(jets, t, n).rows|;
    forall n: nat, m: nat | from <= n && m == n + period
      ensures height(m) == height(n) + length
    {
      assert PeriodAt(jets, t, n, m, length);
    }
    HeightsAdd(height, from, period, length, d, k, total);
  }

  class Chamber
  {
    const jets: seq<JetDirection>
    var rows: seq<bv8>
    var rocks: int
    var nextRockIndex: int
    var nextJetIndex: int

    // `_jetIndices`: how often each jet index followed a settled rock, with its keys in insertion order.
    var jetCounts: map<int, int>
    var jetOrder: seq<int>
    var cycleJetIndex: int
    // `_fingerprints`, in insertion order.
    var fingerprints: seq<FingerprintEntry>
    var cycleLength: int
    var cycleRocks: int

    function Height(): nat
      reads this
    {
      |rows|
    }

    /** The part of the chamber a drop depends on. */
    function State(): Tower
      reads this
    {
      Tower(rows, nextRockIndex, nextJetIndex)
    }

    predicate CycleDetected()
      reads this
    {
      cycleLength > 0
    }

    ghost predicate Valid()
      reads this
    {
      && 0 <= nextRockIndex < |Shapes|
      && 0 <= nextJetIndex && (nextJetIndex < |jets| || nextJetIndex == 0)
      && WithinWidth(rows)
      && 0 <= rocks
      && (|rows| > 0 ==> |jetOrder| > 0)
      && (forall j :: 0 <= j < |jetOrder| ==> jetOrder[j] in jetCounts)
      && (forall k :: k in jetCounts ==> k in jetOrder)
      && (cycleJetIndex == -1 || cycleJetIndex in jetCounts)
      && (forall j :: 0 <= j < |fingerprints| ==> fingerprints[j].rocks <= rocks && 0 <= fingerprints[j].height <= |rows|)
      && 0 <= cycleLength && 0 <= cycleRocks
      && (cycleLength > 0 ==> cycleRocks > 0)
    }

    /** The chamber constructor: parses the jets and starts empty. */
    constructor (text: string)
      ensures Valid()
      ensures jets == ParseJets(text)
      ensures rows == [] && rocks == 0 && nextRockIndex == 0 && nextJetIndex == 0
      ensures jetCounts == map[] && jetOrder == [] && cycleJetIndex == -1
      ensures fingerprints == [] && cycleLength == 0 && cycleRocks == 0
    {
      jets := ParseJets(text);
      rows := [];
      rocks := 0;
      nextRockIndex := 0;
      nextJetIndex := 0;
      jetCounts := map[];
      jetOrder := [];
      cycleJetIndex := -1;
      fingerprints := [];
      cycleLength := 0;
      cycleRocks := 0;
    }

    /** `Collides`: the floor, or a settled cell under one of the rock's rows. */
    method Collides(rock: Rock, y: int) returns (c: bool)
      ensures c == Collision(rows, rock, y)
    {
      if y < 0 {
        return true;
      }
      var i := 0;
      while i < |rock.rows|
        invariant 0 <= i <= |rock.rows|
        invariant forall j :: 0 <= j < i ==> y + j < |rows| && rows[y + j] & rock.rows[j] == 0
      {
        var row := y + i;
        if row >= |rows| {
          return false;
        }
        if rows[row] & rock.rows[i] != 0 {
          return true;
        }
        i := i + 1;
      }
      return false;
    }

    /** The falling part of `DropRock`: spawn three rows above the top, then alternate a jet
        push (kept only if it does not collide) and a fall (stopping when it would collide).
        The jet index advances once per push; the caller stores the final index. */
    method Fall(shape: Rock, start: int) returns (y: int, rock: Rock, next: int)
      requires 0 <= start < |jets|
      ensures (y, rock, next) == FallFrom(rows, jets, shape, |rows| + 3, start)
    {
      rock := shape;
      y := |rows| + 3;
      next := start;
      while y >= 0
        invariant 0 <= y
        invariant 0 <= next < |jets|
        invariant FallFrom(rows, jets, rock, y, next) == FallFrom(rows, jets, shape, |rows| + 3, start)
        decreases y
      {
        var down;
        rock, down := Step(rock, y, next);
        next := Advance(next, |jets|);
        if down {
          return;
        }
        y := y - 1;
      }
    }

    /** One round of the loop in `Fall`: a jet push, kept unless it collides, then the test
        whether the rock can drop one row. */
    method Step(rock: Rock, y: int, j: int) returns (moved: Rock, down: bool)
      requires 0 <= j < |jets| && 0 <= y
      ensures down ==> FallFrom(rows, jets, rock, y, j) == (y, moved, Advance(j, |jets|))
      ensures !down ==> 0 < y && FallFrom(rows, jets, rock, y, j) == FallFrom(rows, jets, moved, y - 1, Advance(j, |jets|))
    {
      var pushed := Push(rock, jets[j]);
      var blocked := Collides(pushed, y);
      moved := if blocked then rock else pushed;
      down := Collides(moved, y - 1);
      FallStep(rows, jets, rock, y, j, moved);
    }

    /** The settling part of `DropRock`: OR-merges rows below the top and appends the rest. */
    method Merge(rock: Rock, y: int)
      requires 0 <= y <= |rows|
      modifies this`rows
      ensures rows == Settle(old(rows), rock, y)
    {
      ghost var before := rows;
      var i := 0;
      while i < |rock.rows|
        invariant 0 <= i <= |rock.rows|
        invariant MergedUpTo(before, rock, y, i, rows)
      {
        var row := y + i;
        if row >= |rows| {
          MergeAppend(before, rock, y, i, rows);
          rows := rows + [rock.rows[i]];
        } else {
          MergeOr(before, rock, y, i, rows);
          rows := rows[row := rows[row] | rock.rows[i]];
        }
        i := i + 1;
      }
      MergedAll(before, rock, y, rows);
    }

    /** `Merge`, together with the facts about the merged rows that `Land` passes on. */
    method MergeWithin(rock: Rock, y: int)
      requires 0 <= y <= |rows| && WithinWidth(rows) && WithinWidth(rock.rows)
      modifies this`rows
      ensures rows == Settle(old(rows), rock, y)
      ensures WithinWidth(rows) && |rows| == Max(old(|rows|), y + |rock.rows|)
    {
      ghost var before := rows;
      Merge(rock, y);
      SettleWithinWidth(before, rock, y);
    }

    /** The fingerprinting part of `DropRock`, run once the rock count has been raised:
        count jet indices while the chamber is at most 50000 high, then fix the anchor
        index once, then compare fingerprints whenever the jet index equals the anchor
        and no cycle has been found yet. */
    method Observe()
      requires 0 <= nextRockIndex < |Shapes| && 0 <= nextJetIndex
      requires |rows| > JetIndexObservationPeriod ==> |jetOrder| > 0
      requires forall j :: 0 <= j < |jetOrder| ==> jetOrder[j] in jetCounts
      requires forall k :: k in jetCounts ==> k in jetOrder
      requires cycleJetIndex == -1 || cycleJetIndex in jetCounts
      requires forall j :: 0 <= j < |fingerprints| ==> fingerprints[j].rocks < rocks && 0 <= fingerprints[j].height <= |rows|
      requires 0 <= cycleLength && 0 <= cycleRocks && (cycleLength > 0 ==> cycleRocks > 0)
      modifies this`jetCounts, this`jetOrder, this`cycleJetIndex, this`fingerprints, this`cycleLength, this`cycleRocks
      ensures |rows| > 0 ==> |jetOrder| > 0
      ensures forall j :: 0 <= j < |jetOrder| ==> jetOrder[j] in jetCounts
      ensures forall k :: k in jetCounts ==> k in jetOrder
      ensures cycleJetIndex == -1 || cycleJetIndex in jetCounts
      ensures forall j :: 0 <= j < |fingerprints| ==> fingerprints[j].rocks <= rocks && 0 <= fingerprints[j].height <= |rows|
      ensures 0 <= cycleLength && 0 <= cycleRocks && (cycleLength > 0 ==> cycleRocks > 0)
      // while observing, the current jet index is counted once
      ensures |rows| <= JetIndexObservationPeriod ==>
                && jetCounts == old(jetCounts)[nextJetIndex := (if nextJetIndex in old(jetCounts) then old(jetCounts)[nextJetIndex] else 0) + 1]
                && jetOrder == (if nextJetIndex in old(jetCounts) then old(jetOrder) else old(jetOrder) + [nextJetIndex])
                && unchanged(this`cycleJetIndex, this`fingerprints, this`cycleLength, this`cycleRocks)
      ensures |rows| > JetIndexObservationPeriod ==> jetCounts == old(jetCounts) && jetOrder == old(jetOrder)
      // the anchor is chosen exactly once, right after the observation period
      ensures |rows| > JetIndexObservationPeriod && old(cycleJetIndex) < 0 ==>
                && cycleJetIndex == FirstMaxKey(jetOrder, jetCounts)
                && unchanged(this`fingerprints, this`cycleLength, this`cycleRocks)
      ensures old(cycleJetIndex) >= 0 ==> cycleJetIndex == old(cycleJetIndex)
      ensures (cycleLength != old(cycleLength) || cycleRocks != old(cycleRocks)) ==>
                old(cycleJetIndex) >= 0 && nextJetIndex == cycleJetIndex && |rows| > JetIndexObservationPeriod
      // fingerprints are compared only at the anchor and only until a cycle is known
      ensures old(cycleJetIndex) >= 0 && !(nextJetIndex == cycleJetIndex && old(cycleLength) == 0) ==>
                unchanged(this`fingerprints, this`cycleLength, this`cycleRocks)
      ensures |rows| > JetIndexObservationPeriod && old(cycleJetIndex) >= 0 && nextJetIndex == cycleJetIndex && old(cycleLength) == 0 ==>
                var fp := Fingerprint(TakeLast(rows, FingerprintWindow), nextRockIndex, nextJetIndex);
                var m := FirstMatch(old(fingerprints), fp);
                && fingerprints == old(fingerprints) + [FingerprintEntry(|rows|, rocks, fp)]
                && (m == -1 ==> cycleLength == old(cycleLength) && cycleRocks == old(cycleRocks))
                && (m >= 0 ==> cycleLength == |rows| - old(fingerprints)[m].height
                               && cycleRocks == rocks - old(fingerprints)[m].rocks)
    {
      if |rows| <= JetIndexObservationPeriod {
        if nextJetIndex in jetCounts {
          jetCounts := jetCounts[nextJetIndex := jetCounts[nextJetIndex] + 1];
        } else {
          jetCounts := jetCounts[nextJetIndex := 0 + 1];
          jetOrder := jetOrder + [nextJetIndex];
        }
      } else if cycleJetIndex < 0 {
        cycleJetIndex := FirstMaxKey(jetOrder, jetCounts);
      } else if nextJetIndex == cycleJetIndex && cycleLength == 0 {
        CompareFingerprint();
      }
    }

    /** The comparing part of `Observe`: looks for an earlier entry with the current
        fingerprint, takes the cycle from the first one found, and records the current
        entry either way. */
    method CompareFingerprint()
      requires 0 <= nextRockIndex && 0 <= nextJetIndex
      requires forall j :: 0 <= j < |fingerprints| ==> fingerprints[j].rocks < rocks && 0 <= fingerprints[j].height <= |rows|
      requires 0 <= cycleLength && 0 <= cycleRocks && (cycleLength > 0 ==> cycleRocks > 0)
      modifies this`fingerprints, this`cycleLength, this`cycleRocks
      ensures forall j :: 0 <= j < |fingerprints| ==> fingerprints[j].rocks <= rocks && 0 <= fingerprints[j].height <= |rows|
      ensures 0 <= cycleLength && 0 <= cycleRocks && (cycleLength > 0 ==> cycleRocks > 0)
      ensures var fp := Fingerprint(TakeLast(rows, FingerprintWindow), nextRockIndex, nextJetIndex);
              var m := FirstMatch(old(fingerprints), fp);
              && fingerprints == old(fingerprints) + [FingerprintEntry(|rows|, rocks, fp)]
              && (m == -1 ==> cycleLength == old(cycleLength) && cycleRocks == old(cycleRocks))
              && (m >= 0 ==> cycleLength == |rows| - old(fingerprints)[m].height
                             && cycleRocks == rocks - old(fingerprints)[m].rocks)
    {
      var fp := Fingerprint(TakeLast(rows, FingerprintWindow), nextRockIndex, nextJetIndex);
      var i := 0;
      while i < |fingerprints|
        invariant 0 <= i <= |fingerprints|
        invariant forall j :: 0 <= j < i ==> fingerprints[j].fp != fp
        invariant cycleLength == old(cycleLength) && cycleRocks == old(cycleRocks)
      {
        if fingerprints[i].fp.Equals(Some(fp)) {
          cycleLength := |rows| - fingerprints[i].height;
          cycleRocks := rocks - fingerprints[i].rocks;
          break;
        }
        i := i + 1;
      }
      fingerprints := fingerprints + [FingerprintEntry(|rows|, rocks, fp)];
    }

    /** The part of `DropRock` that moves the rock: it falls from three rows above the top
        and is merged into the chamber where it rests. */
    method Land(shape: Rock) returns (ghost y: int, ghost rock: Rock)
      requires WithinWidth(rows) && WithinWidth(shape.rows) && 0 <= nextJetIndex < |jets|
      modifies this`rows, this`nextJetIndex
      ensures (y, rock, nextJetIndex) == FallFrom(old(rows), jets, shape, old(|rows|) + 3, old(nextJetIndex))
      ensures rows == Settle(old(rows), rock, y) && WithinWidth(rows)
    {
      var restY, rested, next := Fall(shape, nextJetIndex);
      FallFromSpawn(rows, jets, shape, nextJetIndex, restY, rested, next);
      nextJetIndex := next;
      MergeWithin(rested, restY);
      y, rock := restY, rested;
    }

    /** `DropRock`: drops the next rock until it rests, merges it into the chamber and
        updates the cycle detection. The rock that settled and its height are returned
        as ghost results so that callers can speak about them. */
    /** The first part of `DropRock`: takes the next shape, moves the shape index on and
        lets the rock fall and settle. The chamber's tower becomes its drop. */
    method Place()
      requires Valid() && |jets| > 0
      modifies this`rows, this`nextRockIndex, this`nextJetIndex
      ensures State() == Drop(jets, old(State()))
      ensures WithinWidth(rows) && old(|rows|) <= |rows| <= old(|rows|) + 4
      ensures 0 <= nextRockIndex < |Shapes| && 0 <= nextJetIndex < |jets|
    {
      ghost var before := State();
      var shape := Shapes[nextRockIndex];
      ShapeFits(nextRockIndex);
      AdvanceBelow(nextRockIndex, |Shapes|);
      nextRockIndex := Advance(nextRockIndex, |Shapes|);
      ghost var y, rock := Land(shape);
      DropUnfold(jets, before);
      DropGrowth(jets, before);
    }

    /** The second part of `DropRock`: counts the rock and updates the cycle detection. */
    method Record()
      requires 0 <= nextRockIndex < |Shapes| && 0 <= nextJetIndex < |jets|
      requires WithinWidth(rows) && 0 <= rocks
      requires |rows| > JetIndexObservationPeriod ==> |jetOrder| > 0
      requires forall j :: 0 <= j < |jetOrder| ==> jetOrder[j] in jetCounts
      requires forall k :: k in jetCounts ==> k in jetOrder
      requires cycleJetIndex == -1 || cycleJetIndex in jetCounts
      requires forall j :: 0 <= j < |fingerprints| ==> fingerprints[j].rocks <= rocks && 0 <= fingerprints[j].height <= |rows|
      requires 0 <= cycleLength && 0 <= cycleRocks && (cycleLength > 0 ==> cycleRocks > 0)
      modifies this`rocks, this`jetCounts, this`jetOrder, this`cycleJetIndex, this`fingerprints, this`cycleLength, this`cycleRocks
      ensures Valid()
      ensures rocks == old(rocks) + 1
      ensures old(cycleLength) > 0 ==> cycleLength == old(cycleLength) && cycleRocks == old(cycleRocks)
      ensures (cycleLength != old(cycleLength) || cycleRocks != old(cycleRocks)) ==>
                old(cycleJetIndex) >= 0 && nextJetIndex == cycleJetIndex && |rows| > JetIndexObservationPeriod
      ensures old(cycleJetIndex) >= 0 ==> cycleJetIndex == old(cycleJetIndex)
    {
      rocks := rocks + 1;
      Observe();
    }

    /** `DropRock`: drops the next rock until it rests, merges it into the chamber and
        updates the cycle detection. */
    method DropRock()
      requires Valid() && |jets| > 0
      modifies this
      ensures Valid()
      ensures rocks == old(rocks) + 1
      ensures State() == Drop(jets, old(State()))
      ensures old(cycleLength) > 0 ==> cycleLength == old(cycleLength) && cycleRocks == old(cycleRocks)
      ensures (cycleLength != old(cycleLength) || cycleRocks != old(cycleRocks)) ==>
                old(cycleJetIndex) >= 0 && nextJetIndex == cycleJetIndex && |rows| > JetIndexObservationPeriod
      ensures old(cycleJetIndex) >= 0 ==> cycleJetIndex == old(cycleJetIndex)
    {
      Place();
      Record();
    }

    /** `DropRock` on a chamber whose tower is the `n`-th drop from `start`: afterwards it
        is the next one. */
    method DropNext(ghost start: Tower, ghost n: nat) returns (ghost next: nat)
      requires Valid() && |jets| > 0
      requires 0 <= start.shape < |Shapes| && 0 <= start.jet < |jets|
      requires State() == Drops(jets, start, n)
      modifies this
      ensures Valid()
      ensures rocks == old(rocks) + 1
      ensures next == n + 1 && State() == Drops(jets, start, next)
      ensures old(cycleLength) > 0 ==> cycleLength == old(cycleLength) && cycleRocks == old(cycleRocks)
    {
      DropRock();
      next := n + 1;
    }
  }

  const Iterations := 1000000000000

  /** `ComputeSolution1`: drops 2022 rocks and reports the height. */
  method ComputeSolution1(chamber: Chamber) returns (height: int)
    requires chamber.Valid() && |chamber.jets| > 0
    modifies chamber
    ensures chamber.Valid()
    ensures chamber.rocks == old(chamber.rocks) + 2022
    ensures chamber.State() == Drops(chamber.jets, old(chamber.State()), chamber.rocks - old(chamber.rocks))
    ensures height == |chamber.rows|
    ensures old(|chamber.rows|) <= height <= old(|chamber.rows|) + 4 * 2022
    ensures Covers(chamber.rows, old(chamber.rows))
  {
    ghost var start := chamber.State();
    var i := 0;
    while i < 2022
      invariant 0 <= i <= 2022
      invariant chamber.Valid()
      invariant chamber.rocks == old(chamber.rocks) + i
      invariant chamber.State() == Drops(chamber.jets, start, i)
    {
      chamber.DropRock();
      i := i + 1;
    }
    DropsCover(chamber.jets, start, i);
    height := chamber.Height();
  }

  /** The number of whole cycles skipped as written, `(iterations - i) / CycleRocks`. The rock
      at counter i has already been dropped at that point, so only `iterations - i - 1`
      rocks are still due. */
  function CyclesAsWritten(i: int, period: int): (cycles: int)
    requires i < Iterations && period > 0
    ensures cycles >= 0 && i + cycles * period <= Iterations
  {
    (Iterations - i) / period
  }

  /** When the cycle length divides `iterations - i`, the as-written skip lands the counter on
      `iterations` itself, so after the loop's `i++` one rock more than 10^12 has been counted. */
  lemma CyclesAsWrittenOvershoot(i: int, period: int)
    requires i < Iterations && period > 0 && (Iterations - i) % period == 0
    ensures i + CyclesAsWritten(i, period) * period + 1 == Iterations + 1
  {
  }

  /** A concrete instance: a cycle of 35 rocks detected when the counter is 10^12 - 35. */
  lemma CyclesAsWrittenExample()
    ensures CyclesAsWritten(Iterations - 35, 35) == 1
    ensures Iterations - 35 + CyclesAsWritten(Iterations - 35, 35) * 35 + 1 > Iterations
  {
  }

  /** The corrected skip: as many whole cycles as fit in the `iterations - i - 1` rocks still due. */
  function CyclesDue(i: int, period: int): (cycles: int)
    requires i < Iterations && period > 0
    ensures cycles >= 0
    ensures i + cycles * period + 1 <= Iterations
    ensures Iterations - (i + cycles * period + 1) < period
  {
    (Iterations - i - 1) / period
  }

  /** Skipping `skip` cycles moves the counter and the height by nothing exactly when no
      cycle is skipped, and forward otherwise. */
  lemma SkipProducts(skip: int, length: int, period: int)
    requires skip >= 0 && length > 0 && period > 0
    ensures skip == 0 ==> skip * length == 0 && skip * period == 0
    ensures skip > 0 ==> skip * length > 0 && skip * period > 0
  {
  }

  /** `ComputeSolution2`, with the corrected skip: continues dropping rocks (the loop counter
      starts at 2022) and, the first time a cycle is known, skips as many whole cycles as
      still fit below 10^12, adding their height as an offset. The result is the chamber
      height plus that offset, and the rocks dropped plus the rocks skipped are exactly the
      remaining 10^12 - 2022. The chamber ends as the `dropped`-th drop from where it started,
      and if from there on every detected cycle of rocks raises the stack by the detected
      cycle height, the result is the height the whole 10^12 - 2022 drops would reach. */
  method ComputeSolution2(chamber: Chamber) returns (height: int, ghost cycles: int, ghost dropped: nat)
    requires chamber.Valid() && |chamber.jets| > 0
    modifies chamber
    ensures chamber.Valid()
    ensures cycles >= 0 && (cycles > 0 ==> chamber.CycleDetected())
    ensures chamber.rocks - old(chamber.rocks) + Scaled(cycles, chamber.cycleRocks) == Iterations - 2022
    ensures height == |chamber.rows| + Scaled(cycles, chamber.cycleLength)
    ensures height >= old(|chamber.rows|)
    ensures dropped == chamber.rocks - old(chamber.rocks)
    ensures chamber.State() == Drops(chamber.jets, old(chamber.State()), dropped)
    ensures Periodic(chamber.jets, old(chamber.State()), dropped, chamber.cycleRocks, chamber.cycleLength) ==>
              height == |Drops(chamber.jets, old(chamber.State()), Iterations - 2022).rows|
  {
    ghost var start := chamber.State();
    dropped := 0;
    var offset := 0;
    cycles := 0;
    ghost var skipped := 0;
    ghost var length, period := 0, 0;
    var i := 2022;
    while i < Iterations
      invariant 2022 <= i <= Iterations
      invariant chamber.Valid()
      invariant cycles >= 0
      invariant cycles == 0 ==> offset == 0 && skipped == 0
      invariant cycles > 0 ==> && chamber.CycleDetected() && offset > 0
                               && chamber.cycleLength == length && chamber.cycleRocks == period
                               && offset == Scaled(cycles, length) && skipped == Scaled(cycles, period)
      invariant chamber.rocks - old(chamber.rocks) + skipped == i - 2022
      invariant |chamber.rows| >= old(|chamber.rows|)
      invariant dropped == chamber.rocks - old(chamber.rocks)
      invariant chamber.State() == Drops(chamber.jets, start, dropped)
      decreases Iterations - i
    {
      dropped := chamber.DropNext(start, dropped);
      if chamber.CycleDetected() && offset == 0 {
        var skip := CyclesDue(i, chamber.cycleRocks);
        length, period := chamber.cycleLength, chamber.cycleRocks;
        SkipProducts(skip, length, period);
        ScaledIsProduct(skip, length);
        ScaledIsProduct(skip, period);
        skipped := skip * period;
        i := i + skip * chamber.cycleRocks;
        offset := skip * chamber.cycleLength;
        cycles := skip;
      }
      i := i + 1;
    }
    height := chamber.Height() + offset;
    if Periodic(chamber.jets, start, dropped, chamber.cycleRocks, chamber.cycleLength) {
      PeriodsAdd(chamber.jets, start, dropped, chamber.cycleRocks, chamber.cycleLength, dropped, cycles, Iterations - 2022);
    }
  }
}
