/** Day 06: find the end of the first block of `size` pairwise different characters in a
    signal, by sliding a window of `size` characters along it. */
module Day06 {
  import opened Common

  /** No character occurs twice. */
  predicate AllDistinct(s: string)
  {
    forall i, j :: 0 <= i < j < |s| ==> s[i] != s[j]
  }

  /** LINQ `Distinct().Count()`: the number of different characters. */
  function DistinctCount(s: string): (n: nat)
    ensures n <= |s|
  {
    var chars := set c | c in s;
    DistinctCountBound(s);
    |chars|
  }

  lemma {:induction false} DistinctCountBound(s: string)
    ensures |set c | c in s| <= |s|
  {
    if s != [] {
      var n := |s| - 1;
      DistinctCountBound(s[..n]);
      assert s == s[..n] + [s[n]];
      assert (set c | c in s) == (set c | c in s[..n]) + {s[n]};
    }
  }

  /** A window holds `|s|` different characters exactly when its characters are distinct. */
  lemma {:induction false} DistinctCountFull(s: string)
    ensures DistinctCount(s) == |s| <==> AllDistinct(s)
  {
    if s != [] {
      var n := |s| - 1;
      var p := s[..n];
      DistinctCountFull(p);
      DistinctCountBound(p);
      assert s == p + [s[n]];
      if s[n] in p {
        assert (set c | c in s) == (set c | c in p);
        var k :| 0 <= k < n && p[k] == s[n];
        assert s[k] == s[n];
      } else {
        assert (set c | c in s) == (set c | c in p) + {s[n]};
        if AllDistinct(p) {
          AppendDistinct(p, s[n]);
        }
        if AllDistinct(s) {
          PrefixDistinct(s, n);
        }
      }
    }
  }

  lemma AppendDistinct(p: string, c: char)
    requires AllDistinct(p) && c !in p
    ensures AllDistinct(p + [c])
  {
    var s := p + [c];
    forall i, j | 0 <= i < j < |s| ensures s[i] != s[j] {
      assert s[i] == p[i];
    }
  }

  lemma PrefixDistinct(s: string, n: nat)
    requires n <= |s| && AllDistinct(s)
    ensures AllDistinct(s[..n])
  {
    forall i, j | 0 <= i < j < n ensures s[..n][i] != s[..n][j] {
      assert s[i] != s[j];
    }
  }

  /** The window of `size` characters that ends just before `position`. */
  predicate BlockEndsAt(signal: string, size: nat, position: nat)
  {
    size <= position <= |signal| && AllDistinct(signal[position - size..position])
  }

  /** Moving the window one character on drops its first character and appends the next. */
  lemma Slide(signal: string, size: nat, position: nat)
    requires 0 < size <= position < |signal|
    ensures signal[position - size..position][1..] + [signal[position]] == signal[position + 1 - size..position + 1]
  {
  }

  /** No block of `size` distinct characters ends before `position`. */
  predicate NoBlockBefore(signal: string, size: nat, position: nat)
  {
    forall p :: size <= p < position ==> !BlockEndsAt(signal, size, p)
  }

  lemma NoBlockStep(signal: string, size: nat, position: nat)
    requires NoBlockBefore(signal, size, position) && !BlockEndsAt(signal, size, position)
    ensures NoBlockBefore(signal, size, position + 1)
  {
  }

  /** `FindDistinctCharacterBlock` on the trimmed signal: the position just behind the first
      block of `size` distinct characters, or -1 when there is none (in particular when the
      signal is shorter than `size`). */
  method FindDistinctCharacterBlock(signal: string, size: nat) returns (r: int)
    ensures r == -1 <==> forall p :: size <= p <= |signal| ==> !BlockEndsAt(signal, size, p)
    ensures r != -1 ==> 0 <= r && BlockEndsAt(signal, size, r)
                        && forall p :: size <= p < r ==> !BlockEndsAt(signal, size, p)
  {
    var window := if |signal| < size then signal else signal[..size];
    var position := size;
    DistinctCountFull(window);
    while DistinctCount(window) != size
      invariant size <= position
      invariant |signal| < size ==> window == signal
      invariant |signal| >= size ==> position <= |signal| && window == signal[position - size..position]
      invariant NoBlockBefore(signal, size, position)
      invariant DistinctCount(window) == |window| <==> AllDistinct(window)
      decreases |signal| - position
    {
      assert !BlockEndsAt(signal, size, position);
      NoBlockStep(signal, size, position);
      if position >= |signal| {
        return -1;
      }
      Slide(signal, size, position);
      window := window[1..] + [signal[position]];
      position := position + 1;
      DistinctCountFull(window);
    }
    assert |window| == size;
    assert BlockEndsAt(signal, size, position);
    return position;
  }

  /** The start-of-packet marker: four distinct characters. */
  method ComputeSolution1(line: string) returns (r: int)
    ensures r == -1 <==> forall p :: 4 <= p <= |Trim(line)| ==> !BlockEndsAt(Trim(line), 4, p)
    ensures r != -1 ==> 0 <= r && BlockEndsAt(Trim(line), 4, r)
                        && forall p :: 4 <= p < r ==> !BlockEndsAt(Trim(line), 4, p)
  {
    r := FindDistinctCharacterBlock(Trim(line), 4);
  }

  /** The start-of-message marker: fourteen distinct characters. */
  method ComputeSolution2(line: string) returns (r: int)
    ensures r == -1 <==> forall p :: 14 <= p <= |Trim(line)| ==> !BlockEndsAt(Trim(line), 14, p)
    ensures r != -1 ==> 0 <= r && BlockEndsAt(Trim(line), 14, r)
                        && forall p :: 14 <= p < r ==> !BlockEndsAt(Trim(line), 14, p)
  {
    r := FindDistinctCharacterBlock(Trim(line), 14);
  }
}
