/** Day 15: sensors on the integer grid, each reporting its closest beacon by Manhattan
    distance. Part 1 counts the positions of one row where no beacon can be; part 2 looks
    for the one position no sensor covers, among the points just outside two sensors
    whose covered areas leave a gap of width one between them. */
module Day15 {
  import opened Common

  datatype Point = Point(x: int, y: int)
  {
    /** `Distance`: the Manhattan distance. */
    function Distance(other: Point): (d: nat)
      ensures d == 0 <==> this == other
    {
      Abs(x - other.x) + Abs(y - other.y)
    }
  }

  /** `HorizontalRange`: the columns `from` to `to` of one row, both included. */
  datatype Range = Range(from: int, to: int)
  {
    /** `Width`. */
    function Width(): int
    {
      to - from + 1
    }

    predicate Contains(x: int)
    {
      from <= x <= to
    }

    /** `Overlaps`: the two ranges share a column (for ranges that are not empty). */
    predicate Overlaps(other: Range)
    {
      Max(from, other.from) <= Min(to, other.to)
    }

    /** `operator +`: the smallest range containing both. */
    function Plus(other: Range): (r: Range)
      ensures r.from <= from && r.from <= other.from && r.to >= to && r.to >= other.to
      ensures r.from == from || r.from == other.from
      ensures r.to == to || r.to == other.to
    {
      Range(Min(from, other.from), Max(to, other.to))
    }

    /** `CompareTo`: a null range comes first; otherwise ranges are ordered by `from`.
        (An argument that is not a range cannot be expressed here.) */
    function CompareTo(other: Option<Range>): (c: int)
      ensures other.None? ==> c == 1
      ensures other.Some? ==> (c < 0 <==> from < other.value.from) && (c == 0 <==> from == other.value.from)
      ensures -1 <= c <= 1
    {
      match other
      case None => 1
      case Some(r) => if from < r.from then -1 else if from == r.from then 0 else 1
    }
  }

  /** The distance is symmetric. */
  lemma DistanceSymmetric(p: Point, q: Point)
    ensures p.Distance(q) == q.Distance(p)
  {
  }

  /** `Overlaps` is symmetric; for ranges that are not empty it holds exactly when some
      column lies in both. */
  lemma OverlapsMeaning(a: Range, b: Range)
    ensures a.Overlaps(b) <==> b.Overlaps(a)
    ensures a.Overlaps(b) ==> a.Contains(Max(a.from, b.from)) && b.Contains(Max(a.from, b.from))
    ensures forall x :: a.Contains(x) && b.Contains(x) ==> a.Overlaps(b)
  {
  }

  /** The columns of a range. */
  function Cells(r: Range): (c: set<int>)
    ensures forall x :: x in c <==> r.Contains(x)
    decreases r.to - r.from
  {
    if r.from > r.to then {} else Cells(Range(r.from, r.to - 1)) + {r.to}
  }

  /** A range that is not empty has as many columns as its width. */
  lemma {:induction false} CellsCount(r: Range)
    requires r.from <= r.to
    ensures |Cells(r)| == r.Width()
    decreases r.to - r.from
  {
    if r.from < r.to {
      var shorter := Range(r.from, r.to - 1);
      CellsCount(shorter);
      assert Cells(r) == Cells(shorter) + {r.to};
    } else {
      assert Cells(r) == {r.from};
    }
  }

  /** The hull of two overlapping ranges covers exactly their columns. */
  lemma PlusContains(a: Range, b: Range, x: int)
    requires a.from <= a.to && b.from <= b.to && a.Overlaps(b)
    ensures a.Plus(b).Contains(x) <==> a.Contains(x) || b.Contains(x)
  {
  }

  /** A sensor, the beacon closest to it and the distance between the two. */
  datatype Sensor = Sensor(position: Point, beacon: Point, radius: nat)

  /** The radius is the distance to the beacon, as the constructor computes it. */
  predicate ValidSensor(s: Sensor)
  {
    s.radius == s.position.Distance(s.beacon)
  }

  /** `Covers`: the position is no farther from the sensor than its beacon. */
  predicate Covers(s: Sensor, p: Point)
  {
    s.position.Distance(p) <= s.radius
  }

  /** A sensor covers its own beacon. */
  lemma CoversBeacon(s: Sensor)
    requires ValidSensor(s)
    ensures Covers(s, s.beacon)
  {
  }

  /** `CoveredRange`: the columns of row y that the sensor covers, centred on the sensor's
      column; null when the row is out of reach. */
  function CoveredRange(s: Sensor, y: int): (r: Option<Range>)
    ensures r.None? <==> Abs(y - s.position.y) > s.radius
    ensures r.Some? ==> r.value.from <= r.value.to
                        && r.value.from + r.value.to == 2 * s.position.x
                        && r.value.to - s.position.x == s.radius - Abs(y - s.position.y)
  {
    var p := Point(s.position.x, y);
    var distance := p.Distance(s.position);
    if distance > s.radius then None
    else Some(Range(p.x - (s.radius - distance), p.x + (s.radius - distance)))
  }

  /** The covered range of a row holds exactly the covered points of the row. */
  lemma CoveredRangeExact(s: Sensor, y: int, x: int)
    ensures (CoveredRange(s, y).Some? && CoveredRange(s, y).value.Contains(x)) <==> Covers(s, Point(x, y))
  {
  }

  // Parsing

  /** The characters of the report pattern `[0-9\-]+`. */
  predicate IsNumberChar(c: char)
  {
    IsDigit(c) || c == '-'
  }

  /** The length of the run of pattern characters at the front of `s`. */
  function TokenLength(s: string): (n: nat)
    ensures n <= |s| && (n == |s| || !IsNumberChar(s[n]))
    ensures forall k :: 0 <= k < n ==> IsNumberChar(s[k])
  {
    if s == [] || !IsNumberChar(s[0]) then 0 else 1 + TokenLength(s[1..])
  }

  /** `ReportPattern().Matches(report)`: the maximal runs of pattern characters. */
  function Tokens(s: string): (r: seq<string>)
    ensures forall i :: 0 <= i < |r| ==> |r[i]| > 0
    decreases |s|
  {
    if s == [] then []
    else if !IsNumberChar(s[0]) then Tokens(s[1..])
    else
      var n := TokenLength(s);
      [s[..n]] + Tokens(s[n..])
  }

  /** The `Sensor` constructor: the first four numbers are the sensor and beacon
      coordinates, and the radius is their distance. */
  function ParseSensor(report: string): (r: Result<Sensor>)
    ensures r.Ok? ==> ValidSensor(r.value)
    ensures r.Ok? ==> ParseInts(Tokens(report)).Ok?
    ensures r.Ok? ==> var n := ParseInts(Tokens(report)).value;
                      |n| >= 4 && r.value.position == Point(n[0], n[1]) && r.value.beacon == Point(n[2], n[3])
  {
    match ParseInts(Tokens(report))
    case Err(e) => Err(e)
    case Ok(n) =>
      if |n| < 4 then Err("Index was outside the bounds of the array.")
      else
        var position, beacon := Point(n[0], n[1]), Point(n[2], n[3]);
        Ok(Sensor(position, beacon, position.Distance(beacon)))
  }

  /** The `Puzzle` constructor: one sensor per line. */
  function ParseSensors(lines: seq<string>): (r: Result<seq<Sensor>>)
    ensures r.Ok? ==> |r.value| == |lines| && forall i :: 0 <= i < |lines| ==> ParseSensor(lines[i]) == Ok(r.value[i])
  {
    if lines == [] then Ok([])
    else
      match ParseSensor(lines[0])
      case Err(e) => Err(e)
      case Ok(s) =>
        match ParseSensors(lines[1..])
        case Err(e) => Err(e)
        case Ok(rest) => Ok([s] + rest)
  }

  predicate AllValid(sensors: seq<Sensor>)
  {
    forall i :: 0 <= i < |sensors| ==> ValidSensor(sensors[i])
  }

  // Part 1

  /** The covered ranges of a row, skipping the sensors out of reach, in sensor order. */
  function CoveredRanges(sensors: seq<Sensor>, y: int): (r: seq<Range>)
    ensures |r| <= |sensors|
    ensures NonEmpty(r)
  {
    if sensors == [] then []
    else
      var n := |sensors| - 1;
      match CoveredRange(sensors[n], y)
      case None => CoveredRanges(sensors[..n], y)
      case Some(range) => CoveredRanges(sensors[..n], y) + [range]
  }

  predicate NonEmpty(ranges: seq<Range>)
  {
    forall i :: 0 <= i < |ranges| ==> ranges[i].from <= ranges[i].to
  }

  /** The columns in any of the ranges. */
  function Covered(ranges: seq<Range>): (c: set<int>)
    ensures forall x :: x in c <==> exists k :: 0 <= k < |ranges| && ranges[k].Contains(x)
  {
    CellsUnion(ranges);
    UnionOfCells(ranges)
  }

  function UnionOfCells(ranges: seq<Range>): set<int>
  {
    set k, x | 0 <= k < |ranges| && x in Cells(ranges[k]) :: x
  }

  lemma CellsUnion(ranges: seq<Range>)
    ensures forall x :: x in UnionOfCells(ranges) <==> exists k :: 0 <= k < |ranges| && ranges[k].Contains(x)
  {
    var c := UnionOfCells(ranges);
    forall x | x in c ensures exists k :: 0 <= k < |ranges| && ranges[k].Contains(x) {
      var k, x' :| 0 <= k < |ranges| && x' in Cells(ranges[k]) && x' == x;
      assert ranges[k].Contains(x);
    }
    forall x, k | 0 <= k < |ranges| && ranges[k].Contains(x) ensures x in c {
      assert x in Cells(ranges[k]);
    }
  }

  /** A column is in a covered range of row y exactly when some sensor covers it. */
  lemma CoveredRangesExact(sensors: seq<Sensor>, y: int, x: int)
    ensures x in Covered(CoveredRanges(sensors, y)) <==> exists i :: 0 <= i < |sensors| && Covers(sensors[i], Point(x, y))
  {
    if x in Covered(CoveredRanges(sensors, y)) {
      CoveredRangesSound(sensors, y, x);
    }
    if exists i :: 0 <= i < |sensors| && Covers(sensors[i], Point(x, y)) {
      var i :| 0 <= i < |sensors| && Covers(sensors[i], Point(x, y));
      CoveredRangesComplete(sensors, y, x, i);
    }
  }

  /** A covered column of the row lies in a covered range. */
  lemma {:induction false} CoveredRangesComplete(sensors: seq<Sensor>, y: int, x: int, i: nat)
    requires i < |sensors| && Covers(sensors[i], Point(x, y))
    ensures x in Covered(CoveredRanges(sensors, y))
  {
    var n := |sensors| - 1;
    var front := sensors[..n];
    var ranges := CoveredRanges(front, y);
    var last := CoveredRange(sensors[n], y);
    if last.Some? {
      assert CoveredRanges(sensors, y) == ranges + [last.value];
      CoveredSnoc(ranges, last.value);
    }
    if i < n {
      assert front[i] == sensors[i];
      CoveredRangesComplete(front, y, x, i);
    } else {
      CoveredRangeExact(sensors[n], y, x);
    }
  }

  /** A column in a covered range is covered by some sensor. */
  lemma {:induction false} CoveredRangesSound(sensors: seq<Sensor>, y: int, x: int)
    requires x in Covered(CoveredRanges(sensors, y))
    ensures exists i :: 0 <= i < |sensors| && Covers(sensors[i], Point(x, y))
  {
    var n := |sensors| - 1;
    var front := sensors[..n];
    var ranges := CoveredRanges(front, y);
    var last := CoveredRange(sensors[n], y);
    if last.Some? {
      assert CoveredRanges(sensors, y) == ranges + [last.value];
      CoveredSnoc(ranges, last.value);
    }
    if x in Covered(ranges) {
      CoveredRangesSound(front, y, x);
      var i :| 0 <= i < n && Covers(front[i], Point(x, y));
      assert front[i] == sensors[i];
    } else {
      CoveredRangeExact(sensors[n], y, x);
    }
  }

  lemma CoveredSnoc(ranges: seq<Range>, r: Range)
    ensures Covered(ranges + [r]) == Covered(ranges) + Cells(r)
  {
    var all := ranges + [r];
    forall x | x in Covered(all) ensures x in Covered(ranges) + Cells(r) {
      var k :| 0 <= k < |all| && all[k].Contains(x);
      if k < |ranges| {
        assert ranges[k] == all[k];
      }
    }
    forall x | x in Covered(ranges) ensures x in Covered(all) {
      var k :| 0 <= k < |ranges| && ranges[k].Contains(x);
      assert all[k] == ranges[k];
    }
    assert all[|ranges|] == r;
  }

  /** Ranges in ascending order of `from`. */
  predicate SortedByFrom(ranges: seq<Range>)
  {
    forall j, k :: 0 <= j < k < |ranges| ==> ranges[j].from <= ranges[k].from
  }

  /** Inserts a range in front of the first range that does not start before it. */
  function InsertByFrom(r: Range, ranges: seq<Range>): (s: seq<Range>)
    requires SortedByFrom(ranges)
    ensures SortedByFrom(s) && multiset(s) == multiset(ranges) + multiset{r}
    ensures |s| > 0 && (s[0] == r || (ranges != [] && s[0] == ranges[0]))
  {
    if ranges == [] then [r]
    else if r.from <= ranges[0].from then InsertFront(r, ranges); [r] + ranges
    else
      var rest := InsertByFrom(r, ranges[1..]);
      assert ranges == [ranges[0]] + ranges[1..];
      InsertBehind(ranges[0], r, ranges[1..], rest);
      [ranges[0]] + rest
  }

  /** A range that starts no later than sorted ranges goes in front of them. */
  lemma InsertFront(r: Range, ranges: seq<Range>)
    requires SortedByFrom(ranges) && ranges != [] && r.from <= ranges[0].from
    ensures SortedByFrom([r] + ranges) && multiset([r] + ranges) == multiset(ranges) + multiset{r}
  {
    var s := [r] + ranges;
    forall j, k | 0 <= j < k < |s| ensures s[j].from <= s[k].from {
      assert s[k] == ranges[k - 1];
      if j > 0 {
        assert s[j] == ranges[j - 1];
      } else {
        assert ranges[0].from <= ranges[k - 1].from;
      }
    }
  }

  /** A range that starts before `r` stays in front when `r` goes into the ranges after
      it. */
  lemma InsertBehind(x: Range, r: Range, tail: seq<Range>, rest: seq<Range>)
    requires SortedByFrom([x] + tail) && x.from < r.from
    requires SortedByFrom(rest) && multiset(rest) == multiset(tail) + multiset{r}
    requires |rest| > 0 && (rest[0] == r || (tail != [] && rest[0] == tail[0]))
    ensures SortedByFrom([x] + rest) && multiset([x] + rest) == multiset([x] + tail) + multiset{r}
  {
    if rest[0] != r {
      var xs := [x] + tail;
      assert xs[0] == x && xs[1] == tail[0] && xs[0].from <= xs[1].from;
    }
    assert x.from <= rest[0].from;
    var s := [x] + rest;
    forall j, k | 0 <= j < k < |s| ensures s[j].from <= s[k].from {
      if j > 0 {
        assert s[j] == rest[j - 1] && s[k] == rest[k - 1];
      } else {
        assert s[k] == rest[k - 1] && rest[0].from <= rest[k - 1].from;
      }
    }
  }

  /** `Order()`: a stable sort by `CompareTo`, that is by `from`. */
  function SortByFrom(ranges: seq<Range>): (s: seq<Range>)
    ensures SortedByFrom(s) && multiset(s) == multiset(ranges)
  {
    if ranges == [] then []
    else
      assert ranges == [ranges[0]] + ranges[1..];
      InsertByFrom(ranges[0], SortByFrom(ranges[1..]))
  }

  /** Reordering ranges covers the same columns and keeps them non-empty. */
  lemma SameElements(a: seq<Range>, b: seq<Range>)
    requires multiset(a) == multiset(b)
    ensures Covered(a) == Covered(b)
    ensures NonEmpty(a) ==> NonEmpty(b)
  {
    forall x | x in Covered(a) ensures x in Covered(b) {
      var k :| 0 <= k < |a| && a[k].Contains(x);
      assert a[k] in multiset(b);
      var j :| 0 <= j < |b| && b[j] == a[k];
    }
    forall x | x in Covered(b) ensures x in Covered(a) {
      var k :| 0 <= k < |b| && b[k].Contains(x);
      assert b[k] in multiset(a);
      var j :| 0 <= j < |a| && a[j] == b[k];
    }
    if NonEmpty(a) {
      forall k | 0 <= k < |b| ensures b[k].from <= b[k].to {
        assert b[k] in multiset(a);
        var j :| 0 <= j < |a| && a[j] == b[k];
      }
    }
  }

  /** No two neighbouring ranges overlap. */
  predicate Separated(ranges: seq<Range>)
  {
    forall i :: 0 <= i < |ranges| - 1 ==> !ranges[i].Overlaps(ranges[i + 1])
  }

  /** The merge loop of `ComputeSolution1`: while two neighbours overlap, the first such
      pair is replaced by its hull. */
  method MergeRanges(ranges: seq<Range>) returns (merged: seq<Range>)
    requires SortedByFrom(ranges) && NonEmpty(ranges)
    ensures SortedByFrom(merged) && NonEmpty(merged) && Separated(merged)
    ensures Covered(merged) == Covered(ranges)
    ensures |merged| <= |ranges|
  {
    merged := ranges;
    var more := true;
    while more
      invariant SortedByFrom(merged) && NonEmpty(merged) && |merged| <= |ranges|
      invariant Covered(merged) == Covered(ranges)
      invariant !more ==> Separated(merged)
      decreases |merged| + (if more then 1 else 0)
    {
      more := false;
      var i := 0;
      while i < |merged| - 1
        invariant 0 <= i <= |merged|
        invariant forall k :: 0 <= k < i && k < |merged| - 1 ==> !merged[k].Overlaps(merged[k + 1])
      {
        if merged[i].Overlaps(merged[i + 1]) {
          MergeStep(merged, i);
          merged := merged[..i] + [merged[i].Plus(merged[i + 1])] + merged[i + 2..];
          more := true;
          break;
        }
        i := i + 1;
      }
    }
  }

  /** Replacing an overlapping pair by its hull keeps the order and the columns. */
  lemma MergeStep(ranges: seq<Range>, i: nat)
    requires SortedByFrom(ranges) && NonEmpty(ranges)
    requires i + 1 < |ranges| && ranges[i].Overlaps(ranges[i + 1])
    ensures var r := ranges[..i] + [ranges[i].Plus(ranges[i + 1])] + ranges[i + 2..];
            SortedByFrom(r) && NonEmpty(r) && Covered(r) == Covered(ranges)
  {
    var r := ranges[..i] + [ranges[i].Plus(ranges[i + 1])] + ranges[i + 2..];
    assert |r| == |ranges| - 1;
    assert r[i] == ranges[i].Plus(ranges[i + 1]);
    assert forall k :: 0 <= k < i ==> r[k] == ranges[k];
    assert forall k :: i < k < |r| ==> r[k] == ranges[k + 1];
    MergeSorted(ranges, i, r);
    MergeCovered(ranges, i, r);
  }

  lemma MergeSorted(ranges: seq<Range>, i: nat, r: seq<Range>)
    requires SortedByFrom(ranges) && NonEmpty(ranges)
    requires i + 1 < |ranges| && ranges[i].Overlaps(ranges[i + 1])
    requires |r| == |ranges| - 1 && r[i] == ranges[i].Plus(ranges[i + 1])
    requires forall k :: 0 <= k < i ==> r[k] == ranges[k]
    requires forall k :: i < k < |r| ==> r[k] == ranges[k + 1]
    ensures SortedByFrom(r) && NonEmpty(r)
  {
    assert r[i].from == ranges[i].from;
    forall j, k | 0 <= j < k < |r| ensures r[j].from <= r[k].from {
      var j' := if j <= i then j else j + 1;
      var k' := if k < i then k else k + 1;
      assert r[j].from == ranges[j'].from;
      assert ranges[j'].from <= ranges[k'].from || k == i;
    }
  }

  lemma MergeCovered(ranges: seq<Range>, i: nat, r: seq<Range>)
    requires NonEmpty(ranges)
    requires i + 1 < |ranges| && ranges[i].Overlaps(ranges[i + 1])
    requires |r| == |ranges| - 1 && r[i] == ranges[i].Plus(ranges[i + 1])
    requires forall k :: 0 <= k < i ==> r[k] == ranges[k]
    requires forall k :: i < k < |r| ==> r[k] == ranges[k + 1]
    ensures Covered(r) == Covered(ranges)
  {
    forall x | x in Covered(ranges) ensures x in Covered(r) {
      var k :| 0 <= k < |ranges| && ranges[k].Contains(x);
      if k == i || k == i + 1 {
        assert r[i].Contains(x);
      } else if k > i + 1 {
        assert r[k - 1] == ranges[k];
      }
    }
    forall x | x in Covered(r) ensures x in Covered(ranges) {
      var k :| 0 <= k < |r| && r[k].Contains(x);
      if k == i {
        PlusContains(ranges[i], ranges[i + 1], x);
      } else if k > i {
        assert ranges[k + 1] == r[k];
      } else {
        assert ranges[k] == r[k];
      }
    }
  }

  /** The widths of the ranges added up. */
  function SumWidths(ranges: seq<Range>): int
  {
    if ranges == [] then 0 else ranges[0].Width() + SumWidths(ranges[1..])
  }

  /** Sorted, separated ranges that are not empty cover as many columns as their widths
      add up to. */
  lemma {:induction false} SumWidthsCount(ranges: seq<Range>)
    requires SortedByFrom(ranges) && NonEmpty(ranges) && Separated(ranges)
    ensures SumWidths(ranges) == |Covered(ranges)|
  {
    if ranges != [] {
      var rest := ranges[1..];
      TailKeeps(ranges);
      SumWidthsCount(rest);
      CellsCount(ranges[0]);
      CoveredCons(ranges);
      FirstApart(ranges);
      assert Cells(ranges[0]) * Covered(rest) == {};
    }
  }

  lemma TailKeeps(ranges: seq<Range>)
    requires ranges != [] && SortedByFrom(ranges) && NonEmpty(ranges) && Separated(ranges)
    ensures SortedByFrom(ranges[1..]) && NonEmpty(ranges[1..]) && Separated(ranges[1..])
  {
    var rest := ranges[1..];
    assert forall k :: 0 <= k < |rest| ==> rest[k] == ranges[k + 1];
  }

  lemma CoveredCons(ranges: seq<Range>)
    requires ranges != []
    ensures Covered(ranges) == Cells(ranges[0]) + Covered(ranges[1..])
  {
    var rest := ranges[1..];
    forall x | x in Covered(ranges) ensures x in Cells(ranges[0]) + Covered(rest) {
      var k :| 0 <= k < |ranges| && ranges[k].Contains(x);
      if k > 0 {
        assert rest[k - 1] == ranges[k];
      }
    }
    forall x | x in Covered(rest) ensures x in Covered(ranges) {
      var k :| 0 <= k < |rest| && rest[k].Contains(x);
      assert ranges[k + 1] == rest[k];
    }
  }

  /** The first of sorted, separated ranges ends before any later one starts. */
  lemma FirstApart(ranges: seq<Range>)
    requires ranges != [] && SortedByFrom(ranges) && NonEmpty(ranges) && Separated(ranges)
    ensures forall x :: x in Covered(ranges[1..]) ==> x > ranges[0].to
  {
    var rest := ranges[1..];
    forall x | x in Covered(rest) ensures x > ranges[0].to {
      var k :| 0 <= k < |rest| && rest[k].Contains(x);
      assert !ranges[0].Overlaps(ranges[1]);
      assert ranges[1].from <= ranges[k + 1].from;
      assert rest[k] == ranges[k + 1];
    }
  }

  /** The beacons on row y, each counted once (`Distinct`). */
  function BeaconsOnRow(sensors: seq<Sensor>, y: int): set<Point>
  {
    set i | 0 <= i < |sensors| && sensors[i].beacon.y == y :: sensors[i].beacon
  }

  /** The columns of the beacons on row y. */
  function BeaconColumns(sensors: seq<Sensor>, y: int): set<int>
  {
    set i | 0 <= i < |sensors| && sensors[i].beacon.y == y :: sensors[i].beacon.x
  }

  function Columns(points: set<Point>): set<int>
  {
    set p | p in points :: p.x
  }

  /** Points of one row are told apart by their columns. */
  lemma {:induction false} ColumnsCount(points: set<Point>, y: int)
    requires forall p :: p in points ==> p.y == y
    ensures |Columns(points)| == |points|
    decreases |points|
  {
    if points != {} {
      var p :| p in points;
      var rest := points - {p};
      ColumnsCount(rest, y);
      assert Columns(points) == Columns(rest) + {p.x};
      assert p.x !in Columns(rest);
    }
  }

  /** The columns of row y where no beacon can be: covered by a sensor and not a beacon. */
  function NoBeaconColumns(sensors: seq<Sensor>, y: int): set<int>
  {
    Covered(CoveredRanges(sensors, y)) - BeaconColumns(sensors, y)
  }

  /** A column is counted exactly when some sensor covers it and no beacon of the row is
      there. */
  lemma NoBeaconColumnsExact(sensors: seq<Sensor>, y: int, x: int)
    ensures x in NoBeaconColumns(sensors, y) <==>
            (exists i :: 0 <= i < |sensors| && Covers(sensors[i], Point(x, y)))
            && forall i :: 0 <= i < |sensors| ==> sensors[i].beacon != Point(x, y)
  {
    CoveredRangesExact(sensors, y, x);
  }

  /** Subtracting the distinct beacons of the row from the covered columns counts the
      columns without a beacon, as every beacon is covered by its own sensor. */
  lemma BeaconCount(sensors: seq<Sensor>, y: int)
    requires AllValid(sensors)
    ensures |BeaconsOnRow(sensors, y)| == |BeaconColumns(sensors, y)|
    ensures |NoBeaconColumns(sensors, y)|
            == |Covered(CoveredRanges(sensors, y))| - |BeaconsOnRow(sensors, y)|
  {
    var beacons := BeaconsOnRow(sensors, y);
    assert BeaconColumns(sensors, y) == Columns(beacons);
    ColumnsCount(beacons, y);
    var covered := Covered(CoveredRanges(sensors, y));
    var columns := BeaconColumns(sensors, y);
    forall x | x in columns ensures x in covered {
      var i :| 0 <= i < |sensors| && sensors[i].beacon.y == y && sensors[i].beacon.x == x;
      CoversBeacon(sensors[i]);
      assert sensors[i].beacon == Point(x, y);
      CoveredRangesExact(sensors, y, x);
    }
    assert covered == (covered - columns) + columns;
  }

  /** `ComputeSolution1`: the number of columns of row y where no beacon can be. */
  method ComputeSolution1(sensors: seq<Sensor>, y: int) returns (count: int)
    requires AllValid(sensors)
    ensures count == |NoBeaconColumns(sensors, y)|
  {
    var found := CoveredRanges(sensors, y);
    var ranges := SortByFrom(found);
    SameElements(found, ranges);
    ranges := MergeRanges(ranges);
    SumWidthsCount(ranges);
    BeaconCount(sensors, y);
    var beacons := |BeaconsOnRow(sensors, y)|;
    count := SumWidths(ranges) - beacons;
  }

  // Part 2

  /** `HasSuitableGap`: the covered areas of the two sensors leave exactly one row of
      points between them. */
  predicate HasSuitableGap(s: Sensor, other: Sensor)
  {
    s.position.Distance(other.position) - s.radius - other.radius == 2
  }

  /** The k-th point `Gap` yields: starting `radius + 1` columns toward the other sensor
      and stepping diagonally to the point `radius + 1` rows toward it. */
  function GapPoint(s: Sensor, other: Sensor, k: int): Point
  {
    var dx := Sign(other.position.x - s.position.x);
    var dy := Sign(other.position.y - s.position.y);
    Point(s.position.x + dx * (s.radius + 1 - k), s.position.y + dy * k)
  }

  /** The points `Gap` yields, in order: none without a suitable gap. */
  function GapPoints(s: Sensor, other: Sensor): (r: seq<Point>)
    ensures HasSuitableGap(s, other) ==> |r| == s.radius + 2
    ensures !HasSuitableGap(s, other) ==> r == []
  {
    if !HasSuitableGap(s, other) then []
    else seq(s.radius + 2, k requires 0 <= k < s.radius + 2 => GapPoint(s, other, k))
  }

  /** When the other sensor differs in both coordinates, every point of the gap is just
      out of this sensor's reach. */
  lemma GapJustOutside(s: Sensor, other: Sensor, k: nat)
    requires HasSuitableGap(s, other) && k < |GapPoints(s, other)|
    requires s.position.x != other.position.x && s.position.y != other.position.y
    ensures s.position.Distance(GapPoints(s, other)[k]) == s.radius + 1
    ensures !Covers(s, GapPoints(s, other)[k])
  {
    var dx := Sign(other.position.x - s.position.x);
    var dy := Sign(other.position.y - s.position.y);
    var p := GapPoints(s, other)[k];
    assert p == GapPoint(s, other, k);
    assert Abs(dx * (s.radius + 1 - k)) == s.radius + 1 - k by {
      if dx == 1 {} else { assert dx == -1; }
    }
    assert Abs(dy * k) == k by {
      if dy == 1 {} else { assert dy == -1; }
    }
  }

  /** When the two sensors share a column, the walk starts on this sensor and heads
      straight for the other one; when they share a row, it starts just out of reach and
      ends on this sensor. Either way only one point of the gap is out of its reach. */
  lemma GapAligned(s: Sensor, other: Sensor, k: nat)
    requires HasSuitableGap(s, other) && k < |GapPoints(s, other)|
    requires s.position.x == other.position.x || s.position.y == other.position.y
    ensures s.position.Distance(GapPoints(s, other)[k])
            == if s.position.x == other.position.x then k else s.radius + 1 - k
    ensures !Covers(s, GapPoints(s, other)[k])
            <==> k == (if s.position.x == other.position.x then s.radius + 1 else 0)
  {
    var dx := Sign(other.position.x - s.position.x);
    var dy := Sign(other.position.y - s.position.y);
    var p := GapPoints(s, other)[k];
    assert p == GapPoint(s, other, k);
    if s.position.x == other.position.x {
      assert dx == 0 && dy != 0;
      assert Abs(dy * k) == k by {
        if dy == 1 {} else { assert dy == -1; }
      }
    } else {
      assert dy == 0 && dx != 0;
      assert Abs(dx * (s.radius + 1 - k)) == s.radius + 1 - k by {
        if dx == 1 {} else { assert dx == -1; }
      }
    }
  }

  lemma GapPointLast(s: Sensor, other: Sensor)
    ensures GapPoint(s, other, s.radius + 1)
            == Point(s.position.x, s.position.y + Sign(other.position.y - s.position.y) * (s.radius + 1))
  {
  }

  /** Before its last step the walk has not reached the last point. */
  lemma GapPointsDistinct(s: Sensor, other: Sensor, k: int)
    requires HasSuitableGap(s, other) && 0 <= k <= s.radius + 1
    ensures GapPoint(s, other, k) == GapPoint(s, other, s.radius + 1) ==> k == s.radius + 1
  {
    var dx := Sign(other.position.x - s.position.x);
    var dy := Sign(other.position.y - s.position.y);
    assert dx != 0 || dy != 0;
    if k < s.radius + 1 {
      if dx != 0 {
        assert dx * (s.radius + 1 - k) != 0;
      } else {
        assert dy * k != dy * (s.radius + 1);
      }
    }
  }

  /** `Gap`: walks from the first point to the last one step at a time. */
  method Gap(s: Sensor, other: Sensor) returns (points: seq<Point>)
    ensures points == GapPoints(s, other)
  {
    points := [];
    if !HasSuitableGap(s, other) {
      return;
    }
    var dx := Sign(other.position.x - s.position.x);
    var dy := Sign(other.position.y - s.position.y);
    var first := Point(s.position.x + dx * (s.radius + 1), s.position.y);
    var last := Point(s.position.x, s.position.y + dy * (s.radius + 1));
    assert dx != 0 || dy != 0;
    var p := first;
    ghost var k := 0;
    GapPointLast(s, other);
    while p != last
      invariant 0 <= k <= s.radius + 1
      invariant p == GapPoint(s, other, k)
      invariant points == seq(k, j requires 0 <= j < k => GapPoint(s, other, j))
      decreases s.radius + 1 - k
    {
      points := points + [p];
      p := Point(p.x - dx, p.y + dy);
      k := k + 1;
    }
    GapPointsDistinct(s, other, k);
    points := points + [last];
  }

  /** A point part 2 accepts: inside the search square and covered by no sensor. */
  predicate Candidate(sensors: seq<Sensor>, maxCoord: int, p: Point)
  {
    0 <= p.x <= maxCoord && 0 <= p.y <= maxCoord
    && forall i :: 0 <= i < |sensors| ==> !Covers(sensors[i], p)
  }

  /** No point of the gap of pair (i, j) is a candidate. */
  predicate NoCandidateIn(sensors: seq<Sensor>, maxCoord: int, i: nat, j: nat)
    requires i < |sensors| && j < |sensors|
  {
    forall k :: 0 <= k < |GapPoints(sensors[i], sensors[j])| ==>
      !Candidate(sensors, maxCoord, GapPoints(sensors[i], sensors[j])[k])
  }

  /** The pair (i2, j2) comes before (i, j) in the order of the nested loops. */
  predicate PairBefore(i2: nat, j2: nat, i: nat, j: nat)
  {
    i2 < i || (i2 == i && j2 < j)
  }

  /** The first candidate of the whole search is point k of the gap of pair (i, j). */
  predicate FirstCandidate(sensors: seq<Sensor>, maxCoord: int, i: nat, j: nat, k: nat)
  {
    i < j < |sensors| && k < |GapPoints(sensors[i], sensors[j])|
    && Candidate(sensors, maxCoord, GapPoints(sensors[i], sensors[j])[k])
    && (forall k2 :: 0 <= k2 < k ==> !Candidate(sensors, maxCoord, GapPoints(sensors[i], sensors[j])[k2]))
    && forall i2, j2 :: 0 <= i2 < j2 < |sensors| && PairBefore(i2, j2, i, j) ==> NoCandidateIn(sensors, maxCoord, i2, j2)
  }

  /** The tuning frequency of a point. */
  function Frequency(p: Point): int
  {
    p.x * 4000000 + p.y
  }

  /** `ComputeSolution2`: the tuning frequency of the first candidate among the gap
      points of the sensor pairs, taken in order; -1 when there is none. */
  method ComputeSolution2(sensors: seq<Sensor>, maxCoord: int) returns (r: int)
    ensures r == -1 ==> forall i, j :: 0 <= i < j < |sensors| ==> NoCandidateIn(sensors, maxCoord, i, j)
    ensures r != -1 ==> exists i: nat, j: nat, k: nat :: FirstCandidate(sensors, maxCoord, i, j, k)
                          && r == Frequency(GapPoints(sensors[i], sensors[j])[k])
  {
    var i := 0;
    while i < |sensors| - 1
      invariant 0 <= i <= |sensors|
      invariant forall i2, j2 :: 0 <= i2 < j2 < |sensors| && i2 < i ==> NoCandidateIn(sensors, maxCoord, i2, j2)
    {
      var j := i + 1;
      while j < |sensors|
        invariant i + 1 <= j <= |sensors|
        invariant forall i2, j2 :: 0 <= i2 < j2 < |sensors| && PairBefore(i2, j2, i, j) ==> NoCandidateIn(sensors, maxCoord, i2, j2)
      {
        var points := Gap(sensors[i], sensors[j]);
        var k := SearchGap(sensors, maxCoord, points);
        if k < |points| {
          assert FirstCandidate(sensors, maxCoord, i, j, k);
          return Frequency(points[k]);
        }
        j := j + 1;
      }
      i := i + 1;
    }
    return -1;
  }

  /** The `foreach` over the points of one gap: the index of the first candidate, or the
      number of points when there is none. */
  method SearchGap(sensors: seq<Sensor>, maxCoord: int, points: seq<Point>) returns (k: nat)
    ensures k <= |points|
    ensures forall k2 :: 0 <= k2 < k ==> !Candidate(sensors, maxCoord, points[k2])
    ensures k < |points| ==> Candidate(sensors, maxCoord, points[k]) && Frequency(points[k]) >= 0
  {
    k := 0;
    while k < |points|
      invariant 0 <= k <= |points|
      invariant forall k2 :: 0 <= k2 < k ==> !Candidate(sensors, maxCoord, points[k2])
    {
      var p := points[k];
      if 0 <= p.x <= maxCoord && 0 <= p.y <= maxCoord {
        var covered := AnyCovers(sensors, p);
        if !covered {
          return;
        }
      }
      k := k + 1;
    }
  }

  /** `_sensors.Any(s => s.Covers(p))`. */
  method AnyCovers(sensors: seq<Sensor>, p: Point) returns (covered: bool)
    ensures covered <==> exists i :: 0 <= i < |sensors| && Covers(sensors[i], p)
  {
    var i := 0;
    while i < |sensors|
      invariant 0 <= i <= |sensors|
      invariant forall i2 :: 0 <= i2 < i ==> !Covers(sensors[i2], p)
    {
      if Covers(sensors[i], p) {
        return true;
      }
      i := i + 1;
    }
    return false;
  }
}
