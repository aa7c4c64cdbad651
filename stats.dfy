/** Statistics step of the line-length overlay: from the per-line character
    counts of one hovered element to its longest line and its median line
    length, or to nothing when the element holds no measurable text. */
module LineStats {

  /** `Stats | null` of the overlay: `None` is the "No text found" case. */
  datatype Option<T> = None | Some(value: T)

  /** The `Stats` record shown on the info card. The median is exact: the
      mean of two middle counts is a real, not a floating-point number. */
  datatype Stats = Stats(max: nat, median: real)

  /** Numeric ascending order, the order of the comparator `(a, b) => a - b`. */
  predicate Ascending(s: seq<nat>) {
    forall i, j :: 0 <= i < j < |s| ==> s[i] <= s[j]
  }

  /** `t` is what sorting a copy of `s` ascending yields. */
  predicate IsSortedCopy(s: seq<nat>, t: seq<nat>) {
    Ascending(t) && multiset(t) == multiset(s)
  }

  /** The greatest element, as `Math.max(...lengths)` computes it. */
  function MaxOf(s: seq<nat>): (r: nat)
    requires |s| > 0
    ensures r in s
    ensures forall i :: 0 <= i < |s| ==> s[i] <= r
  {
    if |s| == 1 then s[0]
    else
      var m := MaxOf(s[1..]);
      if s[0] >= m then s[0] else m
  }

  /** The least element; used only to state where the median lies. */
  function MinOf(s: seq<nat>): (r: nat)
    requires |s| > 0
    ensures r in s
    ensures forall i :: 0 <= i < |s| ==> r <= s[i]
  {
    if |s| == 1 then s[0]
    else
      var m := MinOf(s[1..]);
      if s[0] <= m then s[0] else m
  }

  /** Puts `x` into its place in an ascending sequence. */
  function Insert(x: nat, s: seq<nat>): (r: seq<nat>)
    requires Ascending(s)
    ensures Ascending(r)
    ensures multiset(r) == multiset(s) + multiset{x}
    ensures |r| == |s| + 1
    ensures r[0] == x || (s != [] && r[0] == s[0])
  {
    if s == [] || x <= s[0] then [x] + s
    else
      TailAscending(s);
      var rest := Insert(x, s[1..]);
      assert multiset(s) == multiset{s[0]} + multiset(s[1..]) by { assert s == [s[0]] + s[1..]; }
      ConsAscending(s[0], rest);
      assert multiset([s[0]] + rest) == multiset{s[0]} + multiset(rest);
      [s[0]] + rest
  }

  /** Dropping the head keeps a sequence ascending. */
  lemma TailAscending(s: seq<nat>)
    requires s != [] && Ascending(s)
    ensures Ascending(s[1..])
  {
    forall i, j | 0 <= i < j < |s| - 1 ensures s[1..][i] <= s[1..][j] {
      assert s[1..][i] == s[i + 1] && s[1..][j] == s[j + 1];
    }
  }

  /** Putting an element no greater than the head in front keeps a sequence
      ascending. */
  lemma ConsAscending(h: nat, s: seq<nat>)
    requires Ascending(s)
    requires s != [] ==> h <= s[0]
    ensures Ascending([h] + s)
  {
    var r := [h] + s;
    forall i, j | 0 <= i < j < |r| ensures r[i] <= r[j] {
      if i == 0 {
        assert r[j] == s[j - 1] && s[0] <= s[j - 1];
      } else {
        assert r[i] == s[i - 1] && r[j] == s[j - 1];
      }
    }
  }

  /** The sorted copy `lengths.slice().sort((a, b) => a - b)`, as a value. */
  function SortAscending(s: seq<nat>): (r: seq<nat>)
    ensures IsSortedCopy(s, r)
    ensures |r| == |s|
  {
    if s == [] then []
    else
      assert s == [s[0]] + s[1..];
      Insert(s[0], SortAscending(s[1..]))
  }

  /** `median(lengths)`: the middle element of the sorted copy for an odd
      count, the mean of the two middle elements for an even count. It lies
      between the shortest and the longest line. */
  function Median(s: seq<nat>): (r: real)
    requires |s| > 0
    ensures MinOf(s) as real <= r <= MaxOf(s) as real
  {
    var t := SortAscending(s);
    SortedCopyEnds(s, t);
    MiddleOf(t)
  }

  /** The middle of an ascending sequence: its middle element for an odd
      count, the mean of its two middle elements for an even count. */
  function MiddleOf(t: seq<nat>): (r: real)
    requires |t| > 0 && Ascending(t)
    ensures t[0] as real <= r <= t[|t| - 1] as real
  {
    var mid := |t| / 2;
    if |t| % 2 != 0 then t[mid] as real
    else
      assert t[0] <= t[mid - 1] <= t[mid] <= t[|t| - 1];
      (t[mid - 1] + t[mid]) as real / 2.0
  }

  /** `computeStats(lengths)`: absent exactly when there are no lines;
      otherwise the longest line and a median that lies between the
      shortest and the longest line. */
  function ComputeStats(lengths: seq<nat>): (r: Option<Stats>)
    ensures r.None? <==> |lengths| == 0
    ensures r.Some? ==> r.value.max in lengths
    ensures r.Some? ==> forall i :: 0 <= i < |lengths| ==> lengths[i] <= r.value.max
    ensures r.Some? ==> MinOf(lengths) as real <= r.value.median <= r.value.max as real
  {
    if |lengths| > 0 then
      Some(Stats(MaxOf(lengths), Median(lengths)))
    else None
  }

  /** The head of an ascending sequence is its least element. */
  lemma HeadIsLeast(a: seq<nat>, x: nat)
    requires Ascending(a)
    requires x in multiset(a)
    ensures a[0] <= x
  {
  }

  /** Two ascending sequences holding the same multiset are equal: the sorted
      copy is determined by the multiset of its input. */
  lemma {:induction false} SortedUnique(a: seq<nat>, b: seq<nat>)
    requires Ascending(a) && Ascending(b)
    requires multiset(a) == multiset(b)
    ensures a == b
  {
    assert |b| == |multiset(b)| == |multiset(a)| == |a|;
    if a != [] {
      HeadIsLeast(b, a[0]);
      HeadIsLeast(a, b[0]);
      var a', b' := a[1..], b[1..];
      assert a == [a[0]] + a';
      assert b == [b[0]] + b';
      assert a[0] == b[0];
      assert multiset(a') == multiset(b') by {
        assert multiset(a) == multiset{a[0]} + multiset(a');
        assert multiset(b) == multiset{b[0]} + multiset(b');
        assert multiset(a') == multiset(a) - multiset{a[0]};
        assert multiset(b') == multiset(b) - multiset{b[0]};
      }
      TailAscending(a);
      TailAscending(b);
      SortedUnique(a', b');
    }
  }

  /** The median read off ANY ascending permutation `t` of the input: the
      element at index n/2 for an odd count n, the mean of the elements at
      n/2 - 1 and n/2 for an even count. */
  lemma MedianOfSortedCopy(s: seq<nat>, t: seq<nat>)
    requires |s| > 0
    requires IsSortedCopy(s, t)
    ensures |t| == |s|
    ensures |t| % 2 != 0 ==> Median(s) == t[|t| / 2] as real
    ensures |t| % 2 == 0 ==> Median(s) == (t[|t| / 2 - 1] + t[|t| / 2]) as real / 2.0
  {
    assert |t| == |multiset(t)| == |multiset(s)| == |s|;
    SortedUnique(t, SortAscending(s));
  }

  /** A sorted copy starts with the shortest line and ends with the longest. */
  lemma SortedCopyEnds(s: seq<nat>, t: seq<nat>)
    requires |s| > 0
    requires IsSortedCopy(s, t)
    ensures |t| == |s|
    ensures t[0] == MinOf(s) && t[|t| - 1] == MaxOf(s)
  {
    assert |t| == |multiset(t)| == |multiset(s)| == |s|;
    assert t[0] in multiset(s) && t[|t| - 1] in multiset(s);
    assert MinOf(s) in multiset(t) && MaxOf(s) in multiset(t);
  }

  /** Reordering the lines changes neither the maximum nor the median. */
  lemma ComputeStatsPermutationInvariant(a: seq<nat>, b: seq<nat>)
    requires multiset(a) == multiset(b)
    ensures ComputeStats(a) == ComputeStats(b)
  {
    assert |a| == |multiset(a)| == |multiset(b)| == |b|;
    if |a| > 0 {
      MaxOfPermutationInvariant(a, b);
      MedianPermutationInvariant(a, b);
    }
  }

  /** The median depends only on the multiset of line lengths. */
  lemma MedianPermutationInvariant(a: seq<nat>, b: seq<nat>)
    requires |a| > 0 && |b| > 0
    requires multiset(a) == multiset(b)
    ensures Median(a) == Median(b)
  {
    SortedUnique(SortAscending(a), SortAscending(b));
  }

  /** The maximum depends only on the multiset of line lengths. */
  lemma MaxOfPermutationInvariant(a: seq<nat>, b: seq<nat>)
    requires |a| > 0 && |b| > 0
    requires multiset(a) == multiset(b)
    ensures MaxOf(a) == MaxOf(b)
  {
    var ma, mb := MaxOf(a), MaxOf(b);
    assert ma in multiset(b) && mb in multiset(a);
    assert ma <= mb && mb <= ma;
  }

  /** A single line is both the longest and the median line. */
  lemma SingleLine(x: nat)
    ensures ComputeStats([x]) == Some(Stats(x, x as real))
  {
    MedianOfSortedCopy([x], [x]);
  }

  /** Worked example with an odd count: `[5, 1, 9]` has median 5, max 9. */
  lemma OddCountExample(s: seq<nat>)
    requires s == [5, 1, 9]
    ensures ComputeStats(s) == Some(Stats(9, 5.0))
  {
    assert MaxOf(s) == 9;
  }

  /** Worked example with an even count: `[3, 9]` has median 6, max 9. */
  lemma EvenCountExample(s: seq<nat>)
    requires s == [3, 9]
    ensures ComputeStats(s) == Some(Stats(9, 6.0))
  {
  }

  /** Exchanges two neighbouring elements of the array being sorted. */
  method SwapDown(a: array<nat>, j: nat)
    requires 0 < j < a.Length
    modifies a
    ensures a[j - 1] == old(a[j]) && a[j] == old(a[j - 1])
    ensures forall k :: 0 <= k < a.Length && k != j - 1 && k != j ==> a[k] == old(a[k])
    ensures multiset(a[..]) == old(multiset(a[..]))
  {
    a[j - 1], a[j] := a[j], a[j - 1];
  }

  /** `lengths.slice().sort((a, b) => a - b)` on arrays: the copy is sorted
      in place, by insertion. */
  method SortInPlace(a: array<nat>)
    modifies a
    ensures Ascending(a[..])
    ensures multiset(a[..]) == old(multiset(a[..]))
  {
    var i := 0;
    while i < a.Length
      invariant 0 <= i <= a.Length
      invariant forall p, q :: 0 <= p < q < i ==> a[p] <= a[q]
      invariant multiset(a[..]) == old(multiset(a[..]))
    {
      var j := i;
      while j > 0 && a[j - 1] > a[j]
        invariant 0 <= j <= i
        invariant forall p, q :: 0 <= p < q <= i && p != j && q != j ==> a[p] <= a[q]
        invariant forall q :: j < q <= i ==> a[j] <= a[q]
        invariant multiset(a[..]) == old(multiset(a[..]))
      {
        SwapDown(a, j);
        j := j - 1;
      }
      i := i + 1;
    }
  }

  /** `median(lengths)` over the caller's array: sorts a fresh copy and reads
      the middle of it. The caller's array is outside the frame, so it is left
      as it was. */
  method MedianOfArray(lengths: array<nat>) returns (m: real)
    requires lengths.Length > 0
    ensures m == Median(lengths[..])
  {
    var n := lengths.Length;
    var sorted := new nat[n];
    forall k | 0 <= k < n {
      sorted[k] := lengths[k];
    }
    assert sorted[..] == lengths[..];
    SortInPlace(sorted);
    assert IsSortedCopy(lengths[..], sorted[..]);
    MedianOfSortedCopy(lengths[..], sorted[..]);
    var middleIndex := n / 2;
    if n % 2 != 0 {
      m := sorted[middleIndex] as real;
    } else {
      m := (sorted[middleIndex - 1] + sorted[middleIndex]) as real / 2.0;
    }
  }
}
