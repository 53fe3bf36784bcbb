/** Day 08: a grid of tree heights (single digits). Part 1 counts the trees visible
    from outside the grid: a tree is visible when every tree between it and some edge,
    along its row or column, is strictly lower. Part 2 finds the largest scenic score,
    the product of the four viewing distances, each of which counts the trees up to and
    including the edge or the first tree at least as tall. */
module Day08 {
  import opened Common

  /** The grid: `trees[y][x]` is the height at column x of row y. */
  datatype Forest = Forest(width: nat, height: nat, trees: seq<seq<int>>)
  {
    predicate Valid()
    {
      |trees| == height
      && (forall y :: 0 <= y < height ==> |trees[y]| == width)
      && forall y, x :: 0 <= y < height && 0 <= x < width ==> 0 <= trees[y][x] <= 9
    }

    predicate Inside(x: int, y: int)
    {
      0 <= x < width && 0 <= y < height
    }
  }

  /** Every tree left of (x, y) in its row is lower. */
  predicate FromLeft(f: Forest, x: nat, y: nat)
    requires f.Valid() && f.Inside(x, y)
  {
    forall i :: 0 <= i < x ==> f.trees[y][i] < f.trees[y][x]
  }

  predicate FromRight(f: Forest, x: nat, y: nat)
    requires f.Valid() && f.Inside(x, y)
  {
    forall i :: x < i < f.width ==> f.trees[y][i] < f.trees[y][x]
  }

  predicate FromTop(f: Forest, x: nat, y: nat)
    requires f.Valid() && f.Inside(x, y)
  {
    forall j :: 0 <= j < y ==> f.trees[j][x] < f.trees[y][x]
  }

  predicate FromBottom(f: Forest, x: nat, y: nat)
    requires f.Valid() && f.Inside(x, y)
  {
    forall j :: y < j < f.height ==> f.trees[j][x] < f.trees[y][x]
  }

  /** Visible from at least one edge. */
  predicate Visible(f: Forest, x: int, y: int)
  {
    f.Valid() && f.Inside(x, y)
    && (FromLeft(f, x, y) || FromRight(f, x, y) || FromTop(f, x, y) || FromBottom(f, x, y))
  }

  /** Every tree on the edge of the grid is visible. */
  lemma EdgeVisible(f: Forest, x: nat, y: nat)
    requires f.Valid() && f.Inside(x, y)
    requires x == 0 || y == 0 || x == f.width - 1 || y == f.height - 1
    ensures Visible(f, x, y)
  {
  }

  /** The flag of cell (x, y) in the row-major `visible` array. */
  function Index(width: nat, height: nat, x: int, y: int): (i: nat)
    requires 0 <= x < width && 0 <= y < height
    ensures y * width <= i < (y + 1) * width && i < height * width
  {
    MulMonotone(y + 1, height, width);
    y * width + x
  }

  lemma MulMonotone(a: nat, b: nat, w: nat)
    requires a <= b
    ensures a * w <= b * w
  {
  }

  /** Flags of earlier rows come first. */
  lemma IndexOrder(width: nat, height: nat, x: int, y: int, x': int, y': int)
    requires 0 <= x < width && 0 <= x' < width && 0 <= y < y' < height
    ensures Index(width, height, x, y) < Index(width, height, x', y')
  {
    MulMonotone(y + 1, y', width);
  }

  /** Flags of visibility, one row after another. */
  function RowFlags(f: Forest, y: nat): (flags: seq<bool>)
    ensures |flags| == f.width
  {
    seq(f.width, x => Visible(f, x, y))
  }

  /** The flags of the first k rows. */
  function RowsFlags(f: Forest, k: nat): (flags: seq<bool>)
    ensures |flags| == k * f.width
  {
    if k == 0 then [] else RowsFlags(f, k - 1) + RowFlags(f, k - 1)
  }

  /** The flags of all cells, row by row. */
  function FlagsOf(f: Forest): (flags: seq<bool>)
    ensures |flags| == f.height * f.width
  {
    RowsFlags(f, f.height)
  }

  /** The number of true flags (`visible.Count(v => v)`). */
  function CountTrue(s: seq<bool>): (n: nat)
    ensures n <= |s|
  {
    if s == [] then 0 else CountTrue(s[..|s| - 1]) + (if s[|s| - 1] then 1 else 0)
  }

  /** The number of visible trees, each counted once. */
  function NumVisible(f: Forest): (n: nat)
    ensures n <= f.height * f.width
  {
    CountTrue(FlagsOf(f))
  }

  /** Sets the flag of one cell and no other. */
  method MarkCell(f: Forest, visible: array<bool>, x: nat, y: nat)
    requires f.Inside(x, y) && visible.Length == f.height * f.width
    modifies visible
    ensures visible[Index(f.width, f.height, x, y)]
    ensures forall x', y' :: f.Inside(x', y') && (x' != x || y' != y) ==>
              visible[Index(f.width, f.height, x', y')] == old(visible[Index(f.width, f.height, x', y')])
  {
    visible[Index(f.width, f.height, x, y)] := true;
    forall x', y' | f.Inside(x', y') && (x' != x || y' != y)
      ensures Index(f.width, f.height, x', y') != Index(f.width, f.height, x, y)
    {
      if y' < y {
        IndexOrder(f.width, f.height, x', y', x, y);
      } else if y < y' {
        IndexOrder(f.width, f.height, x, y, x', y');
      }
    }
  }

  /** Marks the trees visible from the left in row y. */
  method SweepLeft(f: Forest, visible: array<bool>, y: nat)
    requires f.Valid() && y < f.height && visible.Length == f.height * f.width
    modifies visible
    ensures forall x', y' :: f.Inside(x', y') ==>
              visible[Index(f.width, f.height, x', y')] == (old(visible[Index(f.width, f.height, x', y')]) || (y' == y && FromLeft(f, x', y')))
  {
    var maxHeight := -1;
    var x := 0;
    while x < f.width
      invariant 0 <= x <= f.width
      invariant maxHeight >= -1 && forall i :: 0 <= i < x ==> f.trees[y][i] <= maxHeight
      invariant maxHeight == -1 || exists i :: 0 <= i < x && f.trees[y][i] == maxHeight
      invariant forall x', y' :: f.Inside(x', y') ==>
                  visible[Index(f.width, f.height, x', y')] == (old(visible[Index(f.width, f.height, x', y')]) || (y' == y && x' < x && FromLeft(f, x', y')))
    {
      if f.trees[y][x] > maxHeight {
        MarkCell(f, visible, x, y);
        maxHeight := f.trees[y][x];
      }
      x := x + 1;
    }
  }

  /** Marks the trees visible from the right in row y, sweeping right to left. */
  method SweepRight(f: Forest, visible: array<bool>, y: nat)
    requires f.Valid() && y < f.height && visible.Length == f.height * f.width
    modifies visible
    ensures forall x', y' :: f.Inside(x', y') ==>
              visible[Index(f.width, f.height, x', y')] == (old(visible[Index(f.width, f.height, x', y')]) || (y' == y && FromRight(f, x', y')))
  {
    var maxHeight := -1;
    var x := f.width - 1;
    while x >= 0
      invariant -1 <= x < f.width
      invariant maxHeight >= -1 && forall i :: x < i < f.width ==> f.trees[y][i] <= maxHeight
      invariant maxHeight == -1 || exists i :: x < i < f.width && f.trees[y][i] == maxHeight
      invariant forall x', y' :: f.Inside(x', y') ==>
                  visible[Index(f.width, f.height, x', y')] == (old(visible[Index(f.width, f.height, x', y')]) || (y' == y && x' > x && FromRight(f, x', y')))
    {
      if f.trees[y][x] > maxHeight {
        MarkCell(f, visible, x, y);
        maxHeight := f.trees[y][x];
      }
      x := x - 1;
    }
  }

  /** Marks the trees visible from the top in column x. */
  method SweepDown(f: Forest, visible: array<bool>, x: nat)
    requires f.Valid() && x < f.width && visible.Length == f.height * f.width
    modifies visible
    ensures forall x', y' :: f.Inside(x', y') ==>
              visible[Index(f.width, f.height, x', y')] == (old(visible[Index(f.width, f.height, x', y')]) || (x' == x && FromTop(f, x', y')))
  {
    var maxHeight := -1;
    var y := 0;
    while y < f.height
      invariant 0 <= y <= f.height
      invariant maxHeight >= -1 && forall j :: 0 <= j < y ==> f.trees[j][x] <= maxHeight
      invariant maxHeight == -1 || exists j :: 0 <= j < y && f.trees[j][x] == maxHeight
      invariant forall x', y' :: f.Inside(x', y') ==>
                  visible[Index(f.width, f.height, x', y')] == (old(visible[Index(f.width, f.height, x', y')]) || (x' == x && y' < y && FromTop(f, x', y')))
    {
      if f.trees[y][x] > maxHeight {
        MarkCell(f, visible, x, y);
        maxHeight := f.trees[y][x];
      }
      y := y + 1;
    }
  }

  /** Marks the trees visible from the bottom in column x, sweeping upward. */
  method SweepUp(f: Forest, visible: array<bool>, x: nat)
    requires f.Valid() && x < f.width && visible.Length == f.height * f.width
    modifies visible
    ensures forall x', y' :: f.Inside(x', y') ==>
              visible[Index(f.width, f.height, x', y')] == (old(visible[Index(f.width, f.height, x', y')]) || (x' == x && FromBottom(f, x', y')))
  {
    var maxHeight := -1;
    var y := f.height - 1;
    while y >= 0
      invariant -1 <= y < f.height
      invariant maxHeight >= -1 && forall j :: y < j < f.height ==> f.trees[j][x] <= maxHeight
      invariant maxHeight == -1 || exists j :: y < j < f.height && f.trees[j][x] == maxHeight
      invariant forall x', y' :: f.Inside(x', y') ==>
                  visible[Index(f.width, f.height, x', y')] == (old(visible[Index(f.width, f.height, x', y')]) || (x' == x && y' > y && FromBottom(f, x', y')))
    {
      if f.trees[y][x] > maxHeight {
        MarkCell(f, visible, x, y);
        maxHeight := f.trees[y][x];
      }
      y := y - 1;
    }
  }

  /** `ComputeSolution1`: sweeps every row both ways and every column both ways, marking
      each tree taller than all before it, then counts the marks. */
  method ComputeSolution1(f: Forest) returns (count: nat)
    requires f.Valid()
    ensures count == NumVisible(f)
  {
    var visible := new bool[f.height * f.width];
    forall i | 0 <= i < visible.Length {
      visible[i] := false;
    }
    var y := 0;
    while y < f.height
      invariant 0 <= y <= f.height
      invariant forall x', y' :: f.Inside(x', y') ==>
                  visible[Index(f.width, f.height, x', y')] == (y' < y && (FromLeft(f, x', y') || FromRight(f, x', y')))
    {
      SweepLeft(f, visible, y);
      SweepRight(f, visible, y);
      y := y + 1;
    }
    var x := 0;
    while x < f.width
      invariant 0 <= x <= f.width
      invariant forall x', y' :: f.Inside(x', y') ==>
                  visible[Index(f.width, f.height, x', y')] == (FromLeft(f, x', y') || FromRight(f, x', y')
                                                      || (x' < x && (FromTop(f, x', y') || FromBottom(f, x', y'))))
    {
      SweepDown(f, visible, x);
      SweepUp(f, visible, x);
      x := x + 1;
    }
    FlagsMatch(f, visible[..]);
    count := CountTrue(visible[..]);
  }

  /** An array whose flag for each cell says whether the cell is visible holds `FlagsOf`. */
  lemma FlagsMatch(f: Forest, flags: seq<bool>)
    requires f.Valid() && |flags| == f.height * f.width
    requires forall x', y' :: f.Inside(x', y') ==> flags[Index(f.width, f.height, x', y')] == Visible(f, x', y')
    ensures flags == FlagsOf(f)
  {
    FlagsPrefix(f, flags, f.height);
    assert flags[..f.height * f.width] == flags;
  }

  lemma {:induction false} FlagsPrefix(f: Forest, flags: seq<bool>, k: nat)
    requires f.Valid() && |flags| == f.height * f.width && k <= f.height
    requires forall x', y' :: f.Inside(x', y') ==> flags[Index(f.width, f.height, x', y')] == Visible(f, x', y')
    ensures k * f.width <= |flags| && flags[..k * f.width] == RowsFlags(f, k)
  {
    MulMonotone(k, f.height, f.width);
    if k > 0 {
      FlagsPrefix(f, flags, k - 1);
      var lo := (k - 1) * f.width;
      assert lo + f.width == k * f.width;
      forall x | 0 <= x < f.width ensures flags[lo..k * f.width][x] == RowFlags(f, k - 1)[x] {
        assert Index(f.width, f.height, x, k - 1) == lo + x;
      }
      assert flags[lo..k * f.width] == RowFlags(f, k - 1);
      assert flags[..k * f.width] == flags[..lo] + flags[lo..k * f.width];
    }
  }

  /** The flag index as the sweeps write it, `y * _height + x`: it equals `Index` only on
      a square grid. */
  function IndexAsWritten(f: Forest, x: int, y: int): int
  {
    y * f.height + x
  }

  /** The flags the sweeps set as written, one per visible tree; their number is what
      part 1 counts as written (when all lie inside the array). */
  function MarkedAsWritten(f: Forest): set<int>
  {
    set x: int, y: int | 0 <= x < f.width && 0 <= y < f.height && Visible(f, x, y) :: IndexAsWritten(f, x, y)
  }

  /** The example grid: two rows of three trees of height 0. */
  const TwoByThree := Forest(3, 2, [[0, 0, 0], [0, 0, 0]])

  lemma {:induction false} CountAllTrue(s: seq<bool>)
    requires forall i :: 0 <= i < |s| ==> s[i]
    ensures CountTrue(s) == |s|
  {
    if s != [] {
      CountAllTrue(s[..|s| - 1]);
    }
  }

  /** All six trees of the example are on its edge, hence visible. */
  lemma TwoByThreeVisible()
    ensures TwoByThree.Valid() && NumVisible(TwoByThree) == 6
  {
    var f := TwoByThree;
    assert f.Valid();
    forall x, y | f.Inside(x, y) ensures Visible(f, x, y) {
      EdgeVisible(f, x, y);
    }
    assert RowFlags(f, 0) == [true, true, true];
    assert RowFlags(f, 1) == [true, true, true];
    assert FlagsOf(f) == [true, true, true] + [true, true, true];
    CountAllTrue(FlagsOf(f));
  }

  /** On the example grid all six trees are visible, but as written trees (2, 0) and
      (0, 1) share a flag, so only five flags are set. */
  lemma AsWrittenMiscounts()
    ensures NumVisible(TwoByThree) == 6 && |MarkedAsWritten(TwoByThree)| == 5
  {
    TwoByThreeVisible();
    MarkedFive();
  }

  lemma MarkedFive()
    ensures MarkedAsWritten(TwoByThree) == {0, 1, 2, 3, 4}
  {
    MarkedContains();
    MarkedWithin();
  }

  /** Flags 0 to 4 are set: by trees (0, 0), (1, 0), (2, 0), (1, 1) and (2, 1). */
  lemma MarkedContains()
    ensures {0, 1, 2, 3, 4} <= MarkedAsWritten(TwoByThree)
  {
    MarkedCell(0, 0);
    MarkedCell(1, 0);
    MarkedCell(2, 0);
    MarkedCell(1, 1);
    MarkedCell(2, 1);
  }

  /** On the two-row grid every tree is on the edge, so each one sets flag `2 * y + x`. */
  lemma MarkedCell(x: nat, y: nat)
    requires x < 3 && y < 2
    ensures 2 * y + x in MarkedAsWritten(TwoByThree)
  {
    var f := TwoByThree;
    assert f.Valid() && f.Inside(x, y);
    EdgeVisible(f, x, y);
    MarkedHas(f, x, y);
  }

  /** Every visible tree sets its as-written flag. */
  lemma MarkedHas(f: Forest, x: int, y: int)
    requires 0 <= x < f.width && 0 <= y < f.height && Visible(f, x, y)
    ensures IndexAsWritten(f, x, y) in MarkedAsWritten(f)
  {
  }

  /** No flag above 4 is set: the largest as-written index on the grid is 1 * 2 + 2. */
  lemma MarkedWithin()
    ensures forall i :: i in MarkedAsWritten(TwoByThree) ==> 0 <= i <= 4
  {
    var f := TwoByThree;
    forall i | i in MarkedAsWritten(f) ensures 0 <= i <= 4 {
      var x, y :| 0 <= x < 3 && 0 <= y < 2 && i == IndexAsWritten(f, x, y);
    }
  }

  /** Three rows of two trees of height 0. */
  const ThreeByTwo := Forest(2, 3, [[0, 0], [0, 0], [0, 0]])

  /** On a grid with more rows than columns, as written a visible tree's flag lies past the
      end of the `width * height` flags: tree (1, 2) of three rows of two gets flag 7 of 6,
      an index the array does not have. */
  lemma AsWrittenOutOfRange()
    ensures ThreeByTwo.Valid() && Visible(ThreeByTwo, 1, 2)
    ensures IndexAsWritten(ThreeByTwo, 1, 2) >= ThreeByTwo.width * ThreeByTwo.height
  {
    assert ThreeByTwo.Valid();
    EdgeVisible(ThreeByTwo, 1, 2);
  }

  // Part 2: scenic scores

  datatype Vector = Vector(x: int, y: int)

  /** `viewingDirections`: up, down, left, right. */
  const ViewingDirections: seq<Vector> := [Vector(0, -1), Vector(0, 1), Vector(-1, 0), Vector(1, 0)]

  predicate Unit(d: Vector)
  {
    (d.x == 0 && (d.y == 1 || d.y == -1)) || (d.y == 0 && (d.x == 1 || d.x == -1))
  }

  /** v moved k steps of dv (a unit step). */
  function Along(v: int, k: int, dv: int): int
  {
    if dv == 0 then v else if dv > 0 then v + k else v - k
  }

  /** The number of cells beyond (x, y) in direction d before the edge. */
  function StepsToEdge(f: Forest, x: int, y: int, d: Vector): int
  {
    if d.x > 0 then f.width - 1 - x
    else if d.x < 0 then x
    else if d.y > 0 then f.height - 1 - y
    else y
  }

  /** The trees seen from (x, y) in direction d by a tree of the given height: up to and
      including the edge or the first tree at least as tall. */
  function ViewingDistance(f: Forest, height: int, x: int, y: int, d: Vector): nat
    requires f.Valid() && f.Inside(x, y) && Unit(d)
    decreases StepsToEdge(f, x, y, d)
  {
    var px, py := x + d.x, y + d.y;
    if !f.Inside(px, py) then 0
    else if f.trees[py][px] >= height then 1
    else 1 + ViewingDistance(f, height, px, py, d)
  }

  /** Every tree passed before the last one seen is lower. */
  lemma {:induction false} ViewPassesLower(f: Forest, height: int, x: int, y: int, d: Vector, k: int)
    requires f.Valid() && f.Inside(x, y) && Unit(d)
    requires 1 <= k < ViewingDistance(f, height, x, y, d)
    ensures f.Inside(Along(x, k, d.x), Along(y, k, d.y)) && f.trees[Along(y, k, d.y)][Along(x, k, d.x)] < height
    decreases StepsToEdge(f, x, y, d)
  {
    var px, py := x + d.x, y + d.y;
    if k > 1 {
      ViewPassesLower(f, height, px, py, d, k - 1);
      assert Along(x, k, d.x) == Along(px, k - 1, d.x) && Along(y, k, d.y) == Along(py, k - 1, d.y);
    }
  }

  /** The last tree seen stands on the edge or is at least as tall; nothing is seen from
      the edge. */
  lemma {:induction false} ViewStops(f: Forest, height: int, x: int, y: int, d: Vector)
    requires f.Valid() && f.Inside(x, y) && Unit(d)
    ensures var r := ViewingDistance(f, height, x, y, d);
            (r == 0 <==> !f.Inside(x + d.x, y + d.y))
            && (r > 0 ==> f.Inside(Along(x, r, d.x), Along(y, r, d.y))
                          && (f.trees[Along(y, r, d.y)][Along(x, r, d.x)] >= height
                              || !f.Inside(Along(x, r + 1, d.x), Along(y, r + 1, d.y))))
    decreases StepsToEdge(f, x, y, d)
  {
    var px, py := x + d.x, y + d.y;
    if f.Inside(px, py) && f.trees[py][px] < height {
      ViewStops(f, height, px, py, d);
      var r := ViewingDistance(f, height, x, y, d);
      assert Along(x, r, d.x) == Along(px, r - 1, d.x) && Along(y, r, d.y) == Along(py, r - 1, d.y);
      assert Along(x, r + 1, d.x) == Along(px, r, d.x) && Along(y, r + 1, d.y) == Along(py, r, d.y);
    }
  }

  /** The four viewing distances of tree (x, y). */
  function Distances(f: Forest, x: int, y: int): (r: seq<nat>)
    requires f.Valid() && f.Inside(x, y)
    ensures |r| == 4
  {
    seq(4, i requires 0 <= i < 4 => ViewingDistance(f, f.trees[y][x], x, y, ViewingDirections[i]))
  }

  /** `Aggregate(1, (total, value) => total * value)`. */
  function Product(s: seq<nat>): nat
  {
    if s == [] then 1 else Product(s[..|s| - 1]) * s[|s| - 1]
  }

  /** The scenic score: the product of the four viewing distances. */
  function Score(f: Forest, x: int, y: int): nat
    requires f.Valid() && f.Inside(x, y)
  {
    Product(Distances(f, x, y))
  }

  /** A tree on the edge sees nothing in one direction, so its score is 0. */
  lemma EdgeScoreZero(f: Forest, x: nat, y: nat)
    requires f.Valid() && f.Inside(x, y)
    requires x == 0 || y == 0 || x == f.width - 1 || y == f.height - 1
    ensures Score(f, x, y) == 0
  {
    var ds := Distances(f, x, y);
    if y == 0 { ProductZero(ds, 0); }
    else if y == f.height - 1 { ProductZero(ds, 1); }
    else if x == 0 { ProductZero(ds, 2); }
    else { ProductZero(ds, 3); }
  }

  lemma {:induction false} ProductZero(s: seq<nat>, i: int)
    requires 0 <= i < |s| && s[i] == 0
    ensures Product(s) == 0
  {
    if i < |s| - 1 {
      ProductZero(s[..|s| - 1], i);
    }
  }

  /** The `while` loop of `ScenicScore` for one direction: walks from the tree until the
      edge or a tree at least as tall, counting the trees passed. */
  method Look(f: Forest, x: int, y: int, d: Vector) returns (distance: nat)
    requires f.Valid() && f.Inside(x, y) && Unit(d)
    ensures distance == ViewingDistance(f, f.trees[y][x], x, y, d)
  {
    var height := f.trees[y][x];
    distance := 0;
    var px, py := x + d.x, y + d.y;
    while f.Inside(px, py)
      invariant f.Inside(px - d.x, py - d.y)
      invariant ViewingDistance(f, height, x, y, d) == distance + ViewingDistance(f, height, px - d.x, py - d.y, d)
      decreases StepsToEdge(f, px - d.x, py - d.y, d)
    {
      distance := distance + 1;
      if f.trees[py][px] >= height {
        break;
      }
      px, py := px + d.x, py + d.y;
    }
  }

  /** `ScenicScore`: the product of the viewing distances in the four directions. */
  method ScenicScore(f: Forest, x: int, y: int) returns (score: nat)
    requires f.Valid() && f.Inside(x, y)
    ensures score == Score(f, x, y)
  {
    var distances: seq<nat> := [];
    for i := 0 to 4
      invariant distances == Distances(f, x, y)[..i]
    {
      var distance := Look(f, x, y, ViewingDirections[i]);
      distances := distances + [distance];
    }
    assert distances == Distances(f, x, y);
    score := Product(distances);
  }

  /** `ComputeSolution2`: the largest scenic score of any tree (0 for an empty grid). */
  method ComputeSolution2(f: Forest) returns (best: nat)
    requires f.Valid()
    ensures forall x, y :: f.Inside(x, y) ==> Score(f, x, y) <= best
    ensures f.width > 0 && f.height > 0 ==> exists x, y :: f.Inside(x, y) && Score(f, x, y) == best
    ensures f.width == 0 || f.height == 0 ==> best == 0
  {
    best := 0;
    for x := 0 to f.width
      invariant forall x', y' :: f.Inside(x', y') && x' < x ==> Score(f, x', y') <= best
      invariant best == 0 || exists x', y' :: f.Inside(x', y') && Score(f, x', y') == best
    {
      for y := 0 to f.height
        invariant forall x', y' :: f.Inside(x', y') && (x' < x || (x' == x && y' < y)) ==> Score(f, x', y') <= best
        invariant best == 0 || exists x', y' :: f.Inside(x', y') && Score(f, x', y') == best
      {
        var score := ScenicScore(f, x, y);
        if score > best {
          best := score;
        }
      }
    }
    if best == 0 && f.width > 0 && f.height > 0 {
      EdgeScoreZero(f, 0, 0);
    }
  }

  // Loading

  /** The lines form a grid: at least one line, and every line has digits in the columns
      of the first one (longer lines are cut to that width). */
  predicate Loadable(lines: seq<string>)
  {
    |lines| > 0
    && forall y :: 0 <= y < |lines| ==>
         |lines[y]| >= |lines[0]| && forall x :: 0 <= x < |lines[0]| ==> IsDigit(lines[y][x])
  }

  /** The `Puzzle` constructor: `_trees[y, x] = int.Parse(input[y][x].ToString())`; an empty
      input, a short line or a non-digit fails. */
  method Load(lines: seq<string>) returns (r: Result<Forest>)
    ensures r.Ok? <==> Loadable(lines)
    ensures r.Ok? ==> r.value.Valid() && r.value.width == |lines[0]| && r.value.height == |lines|
    ensures r.Ok? ==> forall y, x :: r.value.Inside(x, y) ==> r.value.trees[y][x] == lines[y][x] as int - '0' as int
  {
    if |lines| == 0 {
      return Err("Index was outside the bounds of the array.");
    }
    var width, height := |lines[0]|, |lines|;
    var trees: seq<seq<int>> := [];
    for y := 0 to height
      invariant |trees| == y
      invariant forall y' :: 0 <= y' < y ==> |lines[y']| >= width && forall x :: 0 <= x < width ==> IsDigit(lines[y'][x])
      invariant forall y' :: 0 <= y' < y ==> |trees[y']| == width
      invariant forall y', x :: 0 <= y' < y && 0 <= x < width ==> trees[y'][x] == lines[y'][x] as int - '0' as int
    {
      var row: seq<int> := [];
      for x := 0 to width
        invariant |row| == x && x <= |lines[y]|
        invariant forall x' :: 0 <= x' < x ==> x' < |lines[y]| && IsDigit(lines[y][x']) && row[x'] == lines[y][x'] as int - '0' as int
      {
        if x >= |lines[y]| {
          return Err("Index was outside the bounds of the array.");
        }
        if !IsDigit(lines[y][x]) {
          return Err("Input string was not in a correct format.");
        }
        row := row + [lines[y][x] as int - '0' as int];
      }
      trees := trees + [row];
    }
    return Ok(Forest(width, height, trees));
  }
}
