/** Day 07: a directory tree rebuilt from a terminal transcript of `cd` and `ls` commands.
    Each directory knows the total size of its own files and its child directories. */
module Day07 {
  import opened Common

  /** The capacity of the file system. */
  const FileSystemCapacity := 70000000

  datatype Directory = Directory(fileSize: int, children: seq<Directory>)

  /** True when `s` begins with `prefix` (`string.StartsWith`). */
  predicate StartsWith(s: string, prefix: string)
  {
    |prefix| <= |s| && s[..|prefix|] == prefix
  }

  /** How a trimmed transcript line is handled. */
  datatype Line = Skip | Up | Down | File(size: int) | Bad

  function Classify(line: string): Line
  {
    var cmd := Trim(line);
    if cmd == "$ ls" || StartsWith(cmd, "dir ") then Skip
    else if cmd == "$ cd .." then Up
    else if StartsWith(cmd, "$ cd ") then Down
    else
      match ParseInt(Split(cmd, ' ')[0])
      case None => Bad
      case Some(v) => File(v)
  }

  /** A directory read from the transcript, or the error met, and where reading stopped. */
  datatype Parsed = Parsed(dir: Result<Directory>, next: nat)

  /** `$ ls` and `dir x` lines are skipped. */
  lemma ClassifySkipped()
    ensures Classify("$ ls") == Skip && Classify("dir a") == Skip
  {
    TrimUnpadded("$ ls");
    TrimUnpadded("dir a");
    assert "dir a"[..4] == "dir ";
  }

  /** `$ cd x` opens a child directory. */
  lemma ClassifyDown()
    ensures Classify("$ cd a") == Down
  {
    TrimUnpadded("$ cd a");
    assert "$ cd a"[..5] == "$ cd ";
  }

  /** `$ cd ..` closes the directory, also with the padding that `Trim` removes. */
  lemma ClassifyUp()
    ensures Classify(" $ cd .. ") == Up
  {
    var up := " $ cd .. ";
    assert LeadingSpace(up[1..]) == 0;
    assert LeadingSpace(up) == 1;
    assert TrailingSpace(up[1..][..7]) == 0;
    assert TrailingSpace(up[1..]) == 1;
    assert Trim(up) == "$ cd ..";
  }

  /** The classified lines of a transcript. */
  function Commands(lines: seq<string>): (cmds: seq<Line>)
    ensures |cmds| == |lines| && forall k :: 0 <= k < |lines| ==> cmds[k] == Classify(lines[k])
  {
    seq(|lines|, k requires 0 <= k < |lines| => Classify(lines[k]))
  }

  /** The rest of the body of one directory, from command `pos` on, given the file size and
      the children read so far: the directory and the position after its last command.
      Reading stops at `$ cd ..` (which is consumed) or at the end of the transcript. */
  function ParseBody(cmds: seq<Line>, pos: nat, size: int, children: seq<Directory>): (r: Parsed)
    requires pos <= |cmds|
    ensures pos <= r.next <= |cmds|
    decreases |cmds| - pos
  {
    if pos == |cmds| then Parsed(Ok(Directory(size, children)), pos)
    else
      match cmds[pos]
      case Skip => ParseBody(cmds, pos + 1, size, children)
      case Up => Parsed(Ok(Directory(size, children)), pos + 1)
      case Down =>
        var sub := ParseBody(cmds, pos + 1, 0, []);
        if sub.dir.Err? then sub
        else ParseBody(cmds, sub.next, size, children + [sub.dir.value])
      case File(v) => ParseBody(cmds, pos + 1, size + v, children)
      case Bad => Parsed(Err("Input string was not in a correct format"), pos + 1)
  }

  /** The `Directory` constructor: consumes the classified transcript from `start`, adding up
      file sizes and reading each `$ cd x` as a child directory, until `$ cd ..` or the end. */
  method ReadDirectory(cmds: seq<Line>, start: nat) returns (r: Result<Directory>, next: nat)
    requires start <= |cmds|
    ensures Parsed(r, next) == ParseBody(cmds, start, 0, [])
    decreases |cmds| - start
  {
    var directories: seq<Directory> := [];
    var fileSize := 0;
    var pos := start;
    while pos < |cmds|
      invariant start <= pos <= |cmds|
      invariant ParseBody(cmds, pos, fileSize, directories) == ParseBody(cmds, start, 0, [])
      decreases |cmds| - pos
    {
      ghost var here := pos;
      var cmd := cmds[pos];
      pos := pos + 1;
      match cmd {
        case Skip =>
          assert ParseBody(cmds, here, fileSize, directories) == ParseBody(cmds, pos, fileSize, directories);
        case Up =>
          return Ok(Directory(fileSize, directories)), pos;
        case Down =>
          var child, after := ReadDirectory(cmds, pos);
          if child.Err? {
            return child, after;
          }
          assert ParseBody(cmds, here, fileSize, directories)
                 == ParseBody(cmds, after, fileSize, directories + [child.value]);
          directories := directories + [child.value];
          pos := after;
        case File(v) =>
          assert ParseBody(cmds, here, fileSize, directories) == ParseBody(cmds, pos, fileSize + v, directories);
          fileSize := fileSize + v;
        case Bad =>
          return Err("Input string was not in a correct format"), pos;
      }
    }
    return Ok(Directory(fileSize, directories)), pos;
  }

  /** The root is read from the whole transcript, so its first `$ cd /` makes the actual root
      directory its child. */
  method ReadRoot(lines: seq<string>) returns (r: Result<Directory>)
    ensures r == ParseBody(Commands(lines), 0, 0, []).dir
  {
    var cmds := Commands(lines);
    var next;
    r, next := ReadDirectory(cmds, 0);
  }

  /** When the transcript opens with `$ cd x` and that directory's reading takes up the rest
      of it, the root has that directory as its only child and no files of its own. */
  lemma RootWrapsFirstDirectory(cmds: seq<Line>)
    requires |cmds| >= 1 && cmds[0] == Down
    requires ParseBody(cmds, 1, 0, []).dir.Ok? && ParseBody(cmds, 1, 0, []).next == |cmds|
    ensures var first := ParseBody(cmds, 1, 0, []).dir.value;
            ParseBody(cmds, 0, 0, []) == Parsed(Ok(Directory(0, [first])), |cmds|)
  {
    var sub := ParseBody(cmds, 1, 0, []);
    var none: seq<Directory> := [];
    assert none + [sub.dir.value] == [sub.dir.value];
    assert ParseBody(cmds, 0, 0, []) == ParseBody(cmds, sub.next, 0, [sub.dir.value]);
  }

  /** Lines that are skipped leave the directory being read as it was. */
  lemma {:induction false} SkippedLines(cmds: seq<Line>, pos: nat, size: int, children: seq<Directory>, n: nat)
    requires pos + n <= |cmds|
    requires forall k :: pos <= k < pos + n ==> cmds[k] == Skip
    ensures ParseBody(cmds, pos, size, children) == ParseBody(cmds, pos + n, size, children)
    decreases n
  {
    if n > 0 {
      SkippedLines(cmds, pos + 1, size, children, n - 1);
    }
  }

  /** The total size of a directory: its own files plus all its children. */
  function Size(d: Directory): int
    decreases d, 1
  {
    d.fileSize + ChildrenSize(d.children)
  }

  function ChildrenSize(children: seq<Directory>): int
    decreases children, 0
  {
    if children == [] then 0 else Size(children[0]) + ChildrenSize(children[1..])
  }

  /** No file in the tree has a negative size. */
  predicate NonNegative(d: Directory)
    decreases d, 1
  {
    d.fileSize >= 0 && AllNonNegative(d.children)
  }

  predicate AllNonNegative(children: seq<Directory>)
    decreases children, 0
  {
    children == [] || (NonNegative(children[0]) && AllNonNegative(children[1..]))
  }

  /** With sizes that are not negative, a directory is at least as large as each child and
      no directory is negative. */
  lemma {:induction false} SizeBounds(d: Directory)
    requires NonNegative(d)
    ensures Size(d) >= 0
    ensures forall i :: 0 <= i < |d.children| ==> Size(d) >= Size(d.children[i])
    decreases d, 1
  {
    ChildrenSizeBounds(d.children);
  }

  lemma {:induction false} ChildrenSizeBounds(children: seq<Directory>)
    requires AllNonNegative(children)
    ensures ChildrenSize(children) >= 0
    ensures forall i :: 0 <= i < |children| ==> ChildrenSize(children) >= Size(children[i])
    decreases children, 0
  {
    if children != [] {
      SizeBounds(children[0]);
      ChildrenSizeBounds(children[1..]);
      forall i | 1 <= i < |children|
        ensures ChildrenSize(children) >= Size(children[i])
      {
        assert children[i] == children[1..][i - 1];
      }
    }
  }

  /** `DirectorySizes`: the size of the directory, then the sizes of each child's subtree in
      order. */
  function DirectorySizes(d: Directory): (r: seq<int>)
    decreases d, 1
  {
    [Size(d)] + ChildrenSizes(d.children)
  }

  function ChildrenSizes(children: seq<Directory>): seq<int>
    decreases children, 0
  {
    if children == [] then [] else DirectorySizes(children[0]) + ChildrenSizes(children[1..])
  }

  /** All directories of the tree, each once, every parent before its children. */
  function Preorder(d: Directory): (r: seq<Directory>)
    decreases d, 1
  {
    [d] + ChildrenPreorder(d.children)
  }

  function ChildrenPreorder(children: seq<Directory>): seq<Directory>
    decreases children, 0
  {
    if children == [] then [] else Preorder(children[0]) + ChildrenPreorder(children[1..])
  }

  /** The sizes listed are exactly the sizes of the directories of the tree, in preorder:
      one per directory, the root's first. */
  lemma {:induction false} DirectorySizesPreorder(d: Directory)
    ensures |DirectorySizes(d)| == |Preorder(d)|
    ensures forall i :: 0 <= i < |Preorder(d)| ==> DirectorySizes(d)[i] == Size(Preorder(d)[i])
    ensures DirectorySizes(d)[0] == Size(d) && Preorder(d)[0] == d
    decreases d, 1
  {
    ChildrenSizesPreorder(d.children);
  }

  lemma {:induction false} ChildrenSizesPreorder(children: seq<Directory>)
    ensures |ChildrenSizes(children)| == |ChildrenPreorder(children)|
    ensures forall i :: 0 <= i < |ChildrenPreorder(children)| ==>
              ChildrenSizes(children)[i] == Size(ChildrenPreorder(children)[i])
    decreases children, 0
  {
    if children != [] {
      DirectorySizesPreorder(children[0]);
      ChildrenSizesPreorder(children[1..]);
      var a, b := DirectorySizes(children[0]), ChildrenSizes(children[1..]);
      var p, q := Preorder(children[0]), ChildrenPreorder(children[1..]);
      forall i | 0 <= i < |p + q| ensures (a + b)[i] == Size((p + q)[i]) {
        if i >= |p| {
          assert (a + b)[i] == b[i - |a|];
          assert (p + q)[i] == q[i - |p|];
        }
      }
    }
  }

  /** The sum of the sizes that are at most `limit`. */
  function SumAtMost(sizes: seq<int>, limit: int): (total: int)
  {
    if sizes == [] then 0
    else SumAtMost(sizes[..|sizes| - 1], limit) + (if sizes[|sizes| - 1] <= limit then sizes[|sizes| - 1] else 0)
  }

  /** The sum leaves out the sizes above the limit and is at most the sum of all sizes
      and, when no size is negative, not negative. */
  lemma {:induction false} SumAtMostBounds(sizes: seq<int>, limit: int)
    requires forall i :: 0 <= i < |sizes| ==> sizes[i] >= 0
    ensures 0 <= SumAtMost(sizes, limit) <= Sum(sizes)
    ensures (forall i :: 0 <= i < |sizes| ==> sizes[i] <= limit) ==> SumAtMost(sizes, limit) == Sum(sizes)
    ensures (forall i :: 0 <= i < |sizes| ==> sizes[i] > limit) ==> SumAtMost(sizes, limit) == 0
  {
    if sizes != [] {
      SumAtMostBounds(sizes[..|sizes| - 1], limit);
    }
  }

  /** `SizeOfSmallDirectories`: the sum of the sizes of all directories of at most 100000. */
  function SizeOfSmallDirectories(root: Directory): int
  {
    SumAtMost(DirectorySizes(root), 100000)
  }

  /** The smallest of the sizes that are at least `needed`, if any. */
  function SmallestAtLeast(sizes: seq<int>, needed: int): (r: Option<int>)
    ensures r.Some? <==> exists i :: 0 <= i < |sizes| && sizes[i] >= needed
    ensures r.Some? ==> r.value in sizes && r.value >= needed
                        && forall i :: 0 <= i < |sizes| && sizes[i] >= needed ==> r.value <= sizes[i]
  {
    if sizes == [] then None
    else
      var n := |sizes| - 1;
      var last := sizes[n];
      var front := SmallestAtLeast(sizes[..n], needed);
      assert forall i :: 0 <= i < n ==> sizes[i] == sizes[..n][i];
      if last < needed then front
      else if front.None? then Some(last)
      else Some(Min(front.value, last))
  }

  /** `FreeUpSpace`: the smallest directory whose deletion leaves `requiredSpace` free; LINQ's
      `Min` fails when there is none. */
  function FreeUpSpace(root: Directory, requiredSpace: int): (r: Result<int>)
    ensures r.Ok? <==> exists i :: 0 <= i < |DirectorySizes(root)| && DirectorySizes(root)[i] >= requiredSpace - (FileSystemCapacity - Size(root))
    ensures r.Ok? ==> r.value in DirectorySizes(root)
                      && FileSystemCapacity - Size(root) + r.value >= requiredSpace
                      && forall i :: 0 <= i < |DirectorySizes(root)| && FileSystemCapacity - Size(root) + DirectorySizes(root)[i] >= requiredSpace
                           ==> r.value <= DirectorySizes(root)[i]
  {
    var needed := requiredSpace - (FileSystemCapacity - Size(root));
    match SmallestAtLeast(DirectorySizes(root), needed)
    case None => Err("Sequence contains no matching element")
    case Some(s) => Ok(s)
  }

  /** Deleting the root itself always frees enough when no more than the capacity is
      required, so the answer exists and is at most the root's size. */
  lemma FreeUpSpaceExists(root: Directory, requiredSpace: int)
    requires requiredSpace <= FileSystemCapacity
    ensures FreeUpSpace(root, requiredSpace).Ok?
    ensures FreeUpSpace(root, requiredSpace).value <= Size(root)
  {
    assert DirectorySizes(root)[0] == Size(root);
  }

  /** `ComputeSolution1` on the transcript. */
  method ComputeSolution1(lines: seq<string>) returns (r: Result<int>)
    ensures r.Ok? <==> ParseBody(Commands(lines), 0, 0, []).dir.Ok?
    ensures r.Ok? ==> r.value == SizeOfSmallDirectories(ParseBody(Commands(lines), 0, 0, []).dir.value)
  {
    var root := ReadRoot(lines);
    if root.Err? {
      return Err(root.message);
    }
    return Ok(SizeOfSmallDirectories(root.value));
  }

  /** `ComputeSolution2`: free 30000000 of the capacity, which always has an answer. */
  method ComputeSolution2(lines: seq<string>) returns (r: Result<int>)
    ensures r.Ok? <==> ParseBody(Commands(lines), 0, 0, []).dir.Ok?
    ensures r.Ok? ==> var root := ParseBody(Commands(lines), 0, 0, []).dir.value;
                      FreeUpSpace(root, 30000000) == r
  {
    var root := ReadRoot(lines);
    if root.Err? {
      return Err(root.message);
    }
    FreeUpSpaceExists(root.value, 30000000);
    r := FreeUpSpace(root.value, 30000000);
  }
}
