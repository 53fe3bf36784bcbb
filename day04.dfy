/** Day 04: pairs of elves with section assignments "a-b"; count the pairs in which one
    range contains the other and the pairs that overlap at all. */
module Day04 {
  import opened Common

  /** An inclusive range of section numbers. */
  datatype SectionRange = SectionRange(first: int, last: int)
  {
    predicate WellFormed() { first <= last }

    /** Section x is assigned by this range. */
    predicate Holds(x: int) { first <= x <= last }

    /** `FullyContains`: for a non-empty other range, every section of it is one of ours. */
    function FullyContains(other: SectionRange): (r: bool)
      ensures other.WellFormed() ==> (r <==> forall x :: other.Holds(x) ==> Holds(x))
    {
      var r := first <= other.first && last >= other.last;
      assert other.WellFormed() && !r ==> other.Holds(other.first) && other.Holds(other.last);
      r
    }

    /** `Intersect`: null when the ranges are apart, otherwise the sections both hold. */
    function Intersect(other: SectionRange): (r: Option<SectionRange>)
      ensures r.Some? ==> forall x :: r.value.Holds(x) <==> Holds(x) && other.Holds(x)
      ensures WellFormed() && other.WellFormed() ==>
                (r.None? <==> forall x :: !(Holds(x) && other.Holds(x)))
      ensures WellFormed() && other.WellFormed() && r.Some? ==> r.value.WellFormed()
    {
      if last < other.first || first > other.last then None
      else
        var r := SectionRange(Max(first, other.first), Min(last, other.last));
        assert WellFormed() && other.WellFormed() ==> Holds(r.first) && other.Holds(r.first);
        Some(r)
    }
  }

  lemma FullyContainsReflexive(a: SectionRange)
    requires a.WellFormed()
    ensures a.FullyContains(a)
  {
  }

  lemma FullyContainsTransitive(a: SectionRange, b: SectionRange, c: SectionRange)
    requires b.WellFormed() && c.WellFormed()
    requires a.FullyContains(b) && b.FullyContains(c)
    ensures a.FullyContains(c)
  {
  }

  /** For non-empty ranges, containment implies a non-empty intersection. */
  lemma ContainsImpliesOverlap(a: SectionRange, b: SectionRange)
    requires a.WellFormed() && b.WellFormed() && a.FullyContains(b)
    ensures a.Intersect(b).Some?
  {
    assert a.Holds(b.first) && b.Holds(b.first);
  }

  /** The `SectionRange(string)` constructor: the first two '-'-separated numbers. */
  function ParseRange(text: string): (r: Result<SectionRange>)
    ensures r.Ok? ==> |Split(text, '-')| >= 2
                      && ParseInt(Split(text, '-')[0]) == Some(r.value.first)
                      && ParseInt(Split(text, '-')[1]) == Some(r.value.last)
  {
    var values := Split(text, '-');
    if |values| < 2 then Err("Index was outside the bounds of the array")
    else
      match (ParseInt(values[0]), ParseInt(values[1]))
      case (Some(a), Some(b)) => Ok(SectionRange(a, b))
      case _ => Err("Input string was not in a correct format")
  }

  lemma NatTextHasNoSign(n: nat, c: char)
    requires !IsDigit(c)
    ensures c !in NatToString(n)
  {
  }

  /** "a-b" with non-negative a and b parses back to the range [a, b]. */
  lemma ParseRangeFormat(a: nat, b: nat)
    ensures ParseRange(NatToString(a) + "-" + NatToString(b)) == Ok(SectionRange(a, b))
  {
    var sa, sb := NatToString(a), NatToString(b);
    NatTextHasNoSign(a, '-');
    NatTextHasNoSign(b, '-');
    SplitPrefix(sa, sb, '-');
    SplitNoSeparator(sb, '-');
    assert sa + "-" + sb == sa + ['-'] + sb;
    ParseNatText(a);
    ParseNatText(b);
  }

  datatype ElfPair = ElfPair(left: SectionRange, right: SectionRange)

  /** The `ElfPair` constructor: the first two ','-separated ranges. */
  function ParsePair(line: string): (r: Result<ElfPair>)
    ensures r.Ok? ==> |Split(line, ',')| >= 2
                      && ParseRange(Split(line, ',')[0]) == Ok(r.value.left)
                      && ParseRange(Split(line, ',')[1]) == Ok(r.value.right)
  {
    var elves := Split(line, ',');
    if |elves| < 2 then Err("Index was outside the bounds of the array")
    else
      match (ParseRange(elves[0]), ParseRange(elves[1]))
      case (Ok(l), Ok(r)) => Ok(ElfPair(l, r))
      case (Err(m), _) => Err(m)
      case (_, Err(m)) => Err(m)
  }

  predicate OneContainsOther(p: ElfPair)
  {
    p.left.FullyContains(p.right) || p.right.FullyContains(p.left)
  }

  predicate Overlapping(p: ElfPair)
  {
    p.left.Intersect(p.right).Some?
  }

  /** The containing pairs are those among all but the last that contain, and the last one
      when it does. */
  lemma ContainingSplit(pairs: seq<ElfPair>)
    requires pairs != []
    ensures var k := |pairs| - 1;
            (set i | 0 <= i < |pairs| && OneContainsOther(pairs[i]))
            == (set i | 0 <= i < k && OneContainsOther(pairs[..k][i]))
               + (if OneContainsOther(pairs[k]) then {k} else {})
  {
    var k := |pairs| - 1;
    forall i | 0 <= i < k ensures pairs[..k][i] == pairs[i] {}
  }

  /** The same split for the overlapping pairs. */
  lemma OverlappingSplit(pairs: seq<ElfPair>)
    requires pairs != []
    ensures var k := |pairs| - 1;
            (set i | 0 <= i < |pairs| && Overlapping(pairs[i]))
            == (set i | 0 <= i < k && Overlapping(pairs[..k][i]))
               + (if Overlapping(pairs[k]) then {k} else {})
  {
    var k := |pairs| - 1;
    forall i | 0 <= i < k ensures pairs[..k][i] == pairs[i] {}
  }

  /** `ComputeSolution1`: the number of pairs where either range contains the other. */
  function ComputeSolution1(pairs: seq<ElfPair>): (n: nat)
    ensures n == |set i | 0 <= i < |pairs| && OneContainsOther(pairs[i])|
  {
    if pairs == [] then 0
    else
      var k := |pairs| - 1;
      var rest := ComputeSolution1(pairs[..k]);
      ContainingSplit(pairs);
      if OneContainsOther(pairs[k]) then rest + 1 else rest
  }

  /** `ComputeSolution2`: the number of pairs whose ranges overlap. */
  function ComputeSolution2(pairs: seq<ElfPair>): (n: nat)
    ensures n == |set i | 0 <= i < |pairs| && Overlapping(pairs[i])|
  {
    if pairs == [] then 0
    else
      var k := |pairs| - 1;
      var rest := ComputeSolution2(pairs[..k]);
      OverlappingSplit(pairs);
      if Overlapping(pairs[k]) then rest + 1 else rest
  }

  /** Every pair counted by part 1 is counted by part 2 when the ranges are non-empty. */
  lemma Part1AtMostPart2(pairs: seq<ElfPair>)
    requires forall i :: 0 <= i < |pairs| ==> pairs[i].left.WellFormed() && pairs[i].right.WellFormed()
    ensures ComputeSolution1(pairs) <= ComputeSolution2(pairs)
  {
    var contained := set i | 0 <= i < |pairs| && OneContainsOther(pairs[i]);
    var overlapping := set i | 0 <= i < |pairs| && Overlapping(pairs[i]);
    forall i | i in contained ensures i in overlapping {
      var p := pairs[i];
      if p.left.FullyContains(p.right) {
        ContainsImpliesOverlap(p.left, p.right);
      } else {
        ContainsImpliesOverlap(p.right, p.left);
        assert p.left.Intersect(p.right).Some?;
      }
    }
    assert contained <= overlapping;
    SubsetCardinality(contained, overlapping);
  }

  lemma SubsetCardinality(a: set<int>, b: set<int>)
    requires a <= b
    ensures |a| <= |b|
  {
    assert b == a + (b - a);
  }
}
