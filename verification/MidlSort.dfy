/** mdb_midl_sort: quicksort with an explicit stack, insertion sort for short parts.
    ids[0] is the number of ids; ids[1..] are sorted downwards in place. */
module MidlSort {

  const SMALL := 8
  const INT_MAX := 0x7fff_ffff
  const STACK := 64

  /** A part of the list still to be sorted: positions lo..hi, empty when hi < lo. */
  datatype Seg = Seg(lo: int, hi: int)

  predicate In(x: int, g: Seg) {
    g.lo <= x <= g.hi
  }

  function Size(g: Seg): nat {
    if g.hi < g.lo then 0 else g.hi - g.lo + 1
  }

  ghost predicate Descending(s: seq<int>, lo: int, hi: int)
    requires 0 <= lo && hi < |s|
  {
    forall i, j | lo <= i < j <= hi :: s[i] >= s[j]
  }

  /** s' differs from s only by a permutation of positions lo..hi. */
  ghost predicate Permuted(s: seq<int>, s': seq<int>, lo: int, hi: int)
    requires 0 <= lo && hi < |s|
  {
    && |s'| == |s|
    && (forall k | 0 <= k < |s| && !(lo <= k <= hi) :: s'[k] == s[k])
    && (lo <= hi ==> multiset(s'[lo..hi + 1]) == multiset(s[lo..hi + 1]))
  }

  /** Everything left of lo is at least, everything right of hi at most, what is between. */
  ghost predicate Fenced(s: seq<int>, lo: int, hi: int, n: int)
    requires 0 <= lo && hi <= n < |s|
  {
    && (forall i, x | 1 <= i < lo && lo <= x <= hi :: s[i] >= s[x])
    && (forall x, j | lo <= x <= hi && hi < j <= n :: s[x] >= s[j])
  }

  lemma PermutedValues(s: seq<int>, s': seq<int>, lo: int, hi: int, x: int)
    requires 0 <= lo <= x <= hi < |s| && Permuted(s, s', lo, hi)
    ensures exists y :: lo <= y <= hi && s[y] == s'[x]
  {
    assert s'[lo..hi + 1][x - lo] == s'[x];
    assert s'[x] in multiset(s'[lo..hi + 1]);
    assert s'[x] in s[lo..hi + 1];
  }

  lemma PermutedTrans(s: seq<int>, s': seq<int>, s'': seq<int>, lo: int, hi: int)
    requires 0 <= lo && hi < |s| && Permuted(s, s', lo, hi) && Permuted(s', s'', lo, hi)
    ensures Permuted(s, s'', lo, hi)
  {
  }

  lemma PermutedSelf(s: seq<int>, lo: int, hi: int)
    requires 0 <= lo && hi < |s|
    ensures Permuted(s, s, lo, hi)
  {
  }

  lemma SwapPermutes(s: seq<int>, lo: int, hi: int, i: int, j: int)
    requires 0 <= lo <= i <= hi < |s| && lo <= j <= hi
    ensures Permuted(s, Swapping(s, i, j), lo, hi)
  {
    var s' := s[i := s[j]][j := s[i]];
    var m := s[lo..hi + 1];
    assert s'[lo..hi + 1] == m[i - lo := m[j - lo]][j - lo := m[i - lo]];
  }

  method Swap(ids: array<int>, i: int, j: int, ghost lo: int, ghost hi: int)
    requires 0 <= lo <= i <= hi < ids.Length && lo <= j <= hi
    modifies ids
    ensures ids[..] == Swapping(old(ids[..]), i, j)
    ensures Permuted(old(ids[..]), ids[..], lo, hi)
  {
    hide Permuted;
    SwapPermutes(ids[..], lo, hi, i, j);
    var itmp := ids[i];
    ids[i] := ids[j];
    ids[j] := itmp;
  }

  /** Moves the id at j down to where it belongs.  The scan may run below l, down to
      position 1, but what lies below l stops it at once. */
  method InsertOne(ids: array<int>, l: int, j: int) returns (ghost p: int)
    requires 1 <= l < j < ids.Length
    requires Descending(ids[..], l, j - 1)
    requires forall i | 1 <= i < l :: ids[i] >= ids[j]
    modifies ids
    ensures l <= p <= j
    ensures forall k | 0 <= k < ids.Length && !(p <= k <= j) :: ids[k] == old(ids[k])
    ensures ids[p] == old(ids[j]) && forall k | p < k <= j :: ids[k] == old(ids[k - 1])
    ensures Descending(ids[..], l, j)
  {
    hide Descending;
    ghost var before := ids[..];
    var a := ids[j];
    var i := j - 1;
    while i >= 1 && ids[i] < a
      invariant l - 1 <= i < j
      invariant forall k | 0 <= k < ids.Length && !(i + 2 <= k <= j) :: ids[k] == old(ids[k])
      invariant forall k | i + 2 <= k <= j :: ids[k] == old(ids[k - 1]) && ids[k] < a
      decreases i
    {
      ids[i + 1] := ids[i];
      i := i - 1;
    }
    ids[i + 1] := a;
    p := i + 1;
    Inserted(before, ids[..], l, j, p);
  }

  lemma Inserted(s: seq<int>, s': seq<int>, l: int, j: int, p: int)
    requires 0 <= l <= p <= j < |s| == |s'| && Descending(s, l, j - 1)
    requires forall k | l <= k < p :: s'[k] == s[k]
    requires forall k | p < k <= j :: s'[k] == s[k - 1] && s'[k] < s'[p]
    requires p > l ==> s[p - 1] >= s'[p]
    ensures Descending(s', l, j)
  {
  }

  /** The short case. */
  method InsertionSort(ids: array<int>, l: int, ir: int, ghost n: int)
    requires 1 <= l && ir <= n < ids.Length
    requires Fenced(ids[..], l, ir, n)
    modifies ids
    ensures Permuted(old(ids[..]), ids[..], l, ir)
    ensures Descending(ids[..], l, ir)
  {
    var j := l + 1;
    while j <= ir
      invariant l + 1 <= j
      invariant Permuted(old(ids[..]), ids[..], l, ir)
      invariant Fenced(ids[..], l, ir, n)
      invariant Descending(ids[..], l, if j - 1 < ir then j - 1 else ir)
    {
      ghost var s := ids[..];
      ghost var p := InsertOne(ids, l, j);
      RotatePermutes(s, ids[..], l, ir, p, j);
      PermutedTrans(old(ids[..]), s, ids[..], l, ir);
      PermutedFenced(s, ids[..], l, ir, n);
      j := j + 1;
    }
  }

  lemma PermutedFenced(s: seq<int>, s': seq<int>, lo: int, hi: int, n: int)
    requires 1 <= lo && hi <= n < |s| && Fenced(s, lo, hi, n) && Permuted(s, s', lo, hi)
    ensures Fenced(s', lo, hi, n)
  {
    forall x | lo <= x <= hi
      ensures exists y :: lo <= y <= hi && s[y] == s'[x]
    {
      PermutedValues(s, s', lo, hi, x);
    }
  }

  /** Taking the element at j out and putting it back at i. */
  lemma RotatePermutes(s: seq<int>, s': seq<int>, lo: int, hi: int, i: int, j: int)
    requires 0 <= lo <= i <= j <= hi < |s| && |s'| == |s|
    requires forall k | 0 <= k < |s| && !(i <= k <= j) :: s'[k] == s[k]
    requires s'[i] == s[j] && forall k | i < k <= j :: s'[k] == s[k - 1]
    ensures Permuted(s, s', lo, hi)
  {
    assert s[lo..hi + 1] == s[lo..i] + (s[i..j] + [s[j]]) + s[j + 1..hi + 1];
    assert s'[lo..hi + 1] == s'[lo..i] + ([s'[i]] + s'[i + 1..j + 1]) + s'[j + 1..hi + 1];
    assert s'[i + 1..j + 1] == s[i..j];
    assert s'[lo..i] == s[lo..i] && s'[j + 1..hi + 1] == s[j + 1..hi + 1];
  }

  ghost predicate AtLeast(s: seq<int>, lo: int, hi: int, a: int)
    requires 0 <= lo && hi < |s|
  {
    forall x | lo <= x <= hi :: s[x] >= a
  }

  ghost predicate AtMost(s: seq<int>, lo: int, hi: int, a: int)
    requires 0 <= lo && hi < |s|
  {
    forall x | lo <= x <= hi :: s[x] <= a
  }

  // ------------------------------------------------------------ what a partition does

  /** do i++; while (p[i] > a). */
  function ScanUpTo(p: seq<int>, i: int, a: int): (r: int)
    requires 0 <= i < |p| - 1 && p[|p| - 1] <= a
    ensures i < r < |p| && p[r] <= a && forall x | i < x < r :: p[x] > a
    decreases |p| - i
  {
    if p[i + 1] <= a then i + 1 else ScanUpTo(p, i + 1, a)
  }

  /** do j--; while (p[j] < a). */
  function ScanDownTo(p: seq<int>, j: int, a: int): (r: int)
    requires 1 < j <= |p| && p[1] == a
    ensures 1 <= r < j && p[r] >= a && forall x | r < x < j :: p[x] < a
    decreases j
  {
    if p[j - 1] >= a then j - 1 else ScanDownTo(p, j - 1, a)
  }

  /** The ids at positions l..ir. */
  function Part(s: seq<int>, l: int, ir: int): (p: seq<int>)
    requires 0 <= l <= ir + 1 <= |s|
    ensures |p| == ir + 1 - l
  {
    s[l..ir + 1]
  }

  function Swapping(p: seq<int>, i: int, j: int): (q: seq<int>)
    requires 0 <= i < |p| && 0 <= j < |p|
    ensures |q| == |p|
  {
    p[i := p[j]][j := p[i]]
  }

  /** The scans run towards each other and swap what they stop at until they have met. */
  function Crossed(p: seq<int>, i: int, j: int, a: int): (r: (seq<int>, int, int))
    requires 1 <= i <= j < |p| && 1 < j && i < |p| - 1 && p[1] == a && p[|p| - 1] <= a
    ensures |r.0| == |p| && 1 <= r.2 < r.1 < |p|
    decreases |p| - i
  {
    var i', j' := ScanUpTo(p, i, a), ScanDownTo(p, j, a);
    if j' < i' then (p, i', j') else Crossed(Swapping(p, i', j'), i', j', a)
  }

  /** The median of the first, the middle and the last id comes second. */
  function Median(p: seq<int>): (q: seq<int>)
    requires |p| > 2
    ensures |q| == |p| && q[0] >= q[1] >= q[|p| - 1]
  {
    var n := |p| - 1;
    var s0 := Swapping(p, n / 2, 1);
    var s1 := if s0[0] < s0[n] then Swapping(s0, 0, n) else s0;
    var s2 := if s1[1] < s1[n] then Swapping(s1, 1, n) else s1;
    if s2[0] < s2[1] then Swapping(s2, 0, 1) else s2
  }

  /** A part after its partition; what lies left of .2 and what lies from .1 on is sorted next. */
  function Partitioned(p: seq<int>): (r: (seq<int>, int, int))
    requires |p| > SMALL
    ensures |r.0| == |p| && 1 <= r.2 < r.1 < |p|
  {
    var m := Median(p);
    var c := Crossed(m, 1, |p| - 1, m[1]);
    (c.0[1 := c.0[c.2]][c.2 := m[1]], c.1, c.2)
  }

  /** In sorting the part p that starts at position lo, or one of the parts it is cut into, the
      sum of the two end positions leaves the range of a C int. */
  predicate SumOverflows(p: seq<int>, lo: int)
    decreases |p|
  {
    |p| > SMALL &&
    (lo + (lo + |p| - 1) > INT_MAX ||
     var r := Partitioned(p);
     SumOverflows(r.0[..r.2], lo) || SumOverflows(r.0[r.1..], lo + r.1))
  }

  lemma ScanUpUnique(p: seq<int>, i: int, a: int, r: int)
    requires 0 <= i < |p| - 1 && p[|p| - 1] <= a
    requires i < r < |p| && p[r] <= a && forall x | i < x < r :: p[x] > a
    ensures ScanUpTo(p, i, a) == r
  {
    hide ScanUpTo;
    var q := ScanUpTo(p, i, a);
    assert p[q] <= a && p[r] <= a;
  }

  lemma ScanDownUnique(p: seq<int>, j: int, a: int, r: int)
    requires 1 < j <= |p| && p[1] == a
    requires 1 <= r < j && p[r] >= a && forall x | r < x < j :: p[x] < a
    ensures ScanDownTo(p, j, a) == r
  {
    hide ScanDownTo;
    var q := ScanDownTo(p, j, a);
    assert p[q] >= a && p[r] >= a;
  }

  /** The scans on positions l..ir of the list are those on the part. */
  lemma ScansOfPart(s: seq<int>, l: int, ir: int, i0: int, j0: int, i: int, j: int, a: int)
    requires 1 <= l < l + 1 <= i0 < ir < |s| && l + 1 < j0 <= ir && s[l + 1] == a && s[ir] <= a
    requires i0 < i <= ir && s[i] <= a && forall x | i0 < x < i :: s[x] > a
    requires l + 1 <= j < j0 && s[j] >= a && forall x | j < x < j0 :: s[x] < a
    ensures var p := Part(s, l, ir);
      p[1] == a && p[|p| - 1] <= a && ScanUpTo(p, i0 - l, a) == i - l && ScanDownTo(p, j0 - l, a) == j - l
  {
    var p := Part(s, l, ir);
    assert forall x | 0 <= x < |p| :: p[x] == s[l + x];
    ScanUpUnique(p, i0 - l, a, i - l);
    ScanDownUnique(p, j0 - l, a, j - l);
  }

  lemma SwapOfPart(s: seq<int>, l: int, ir: int, i: int, j: int)
    requires 0 <= l <= i <= ir < |s| && l <= j <= ir
    ensures Part(Swapping(s, i, j), l, ir) == Swapping(Part(s, l, ir), i - l, j - l)
  {
  }

  /** The two scans meet: ids not below the pivot on the left, not above it on the right. */
  method Cross(ids: array<int>, l: int, ir: int, a: int) returns (i: int, j: int)
    requires 1 <= l && l + 1 < ir < ids.Length
    requires ids[l] >= a && ids[l + 1] == a && ids[ir] <= a
    modifies ids
    ensures Permuted(old(ids[..]), ids[..], l, ir)
    ensures l + 1 <= j < i <= ir && ids[l + 1] == a
    ensures AtLeast(ids[..], l, i - 1, a) && AtMost(ids[..], j + 1, ir, a)
    ensures (Part(ids[..], l, ir), i - l, j - l) == Crossed(Part(old(ids[..]), l, ir), 1, ir - l, a)
  {
    hide *;
    ghost var p0 := Part(ids[..], l, ir);
    CrossingStart(ids[..], l, ir, a);
    PermutedSelf(ids[..], l, ir);
    Bounds(ids[..], l, ir, l + 1, ir, l + 1, ir, a);
    i := l + 1;
    j := ir;
    while true
      invariant l + 1 <= i < ir && l + 1 < j <= ir && i <= j
      invariant Permuted(old(ids[..]), ids[..], l, ir)
      invariant ids[l + 1] == a && ids[ir] <= a
      invariant AtLeast(ids[..], l, i, a) && AtMost(ids[..], j, ir, a)
      invariant Crossing(ids[..], l, ir, i, j, a, p0)
      decreases ir - i
    {
      ghost var before, i0, j0 := ids[..], i, j;
      i := ScanUp(ids, i, ir, a);
      j := ScanDown(ids, l, j, a);
      Scanned(before, l, ir, i0, j0, i, j, a);
      CrossingStep(before, l, ir, i0, j0, i, j, a, p0);
      if j < i { break; }
      Swap(ids, i, j, l, ir);
      PermutedTrans(old(ids[..]), before, ids[..], l, ir);
      Swapped(before, l, ir, i, j, a);
      assert ids[..][l + 1] == ids[l + 1] && ids[..][ir] == ids[ir];
    }
  }

  /** What is still to be crossed comes to the same as the whole part at the start. */
  ghost predicate Crossing(s: seq<int>, l: int, ir: int, i: int, j: int, a: int, p0: seq<int>) {
    && 1 <= l && l + 1 <= i <= j <= ir < |s| && l + 1 < j && i < ir && s[l + 1] == a && s[ir] <= a
    && |p0| == ir - l + 1 && |p0| > 2 && p0[1] == a && p0[|p0| - 1] <= a
    && Crossed(Part(s, l, ir), i - l, j - l, a) == Crossed(p0, 1, ir - l, a)
  }

  lemma CrossingStart(s: seq<int>, l: int, ir: int, a: int)
    requires 1 <= l && l + 1 < ir < |s| && s[l + 1] == a && s[ir] <= a
    ensures Crossing(s, l, ir, l + 1, ir, a, Part(s, l, ir))
  {
  }

  lemma CrossingStep(s: seq<int>, l: int, ir: int, i0: int, j0: int, i: int, j: int, a: int, p0: seq<int>)
    requires Crossing(s, l, ir, i0, j0, a, p0)
    requires i0 < i <= ir && s[i] <= a && forall x | i0 < x < i :: s[x] > a
    requires l + 1 <= j < j0 && s[j] >= a && forall x | j < x < j0 :: s[x] < a
    ensures j < i ==> Crossed(p0, 1, ir - l, a) == (Part(s, l, ir), i - l, j - l)
    ensures i <= j ==> Crossing(Swapping(s, i, j), l, ir, i, j, a, p0)
  {
    hide ScanUpTo, ScanDownTo;
    ScansOfPart(s, l, ir, i0, j0, i, j, a);
    if i <= j {
      SwapOfPart(s, l, ir, i, j);
    }
  }

  lemma Bounds(s: seq<int>, l: int, ir: int, i0: int, j0: int, i: int, j: int, a: int)
    requires 1 <= l && i == l + 1 < ir == j < |s| && i == i0 && j == j0
    requires s[l] >= a && s[l + 1] == a && s[ir] <= a
    ensures AtLeast(s, l, i, a) && AtMost(s, j, ir, a)
  {
  }

  lemma Scanned(s: seq<int>, l: int, ir: int, i0: int, j0: int, i: int, j: int, a: int)
    requires 1 <= l <= i0 < i <= ir && l < j < j0 <= ir < |s|
    requires AtLeast(s, l, i0, a) && AtMost(s, j0, ir, a)
    requires (forall x | i0 < x < i :: s[x] > a) && (forall x | j < x < j0 :: s[x] < a)
    ensures AtLeast(s, l, i - 1, a) && AtMost(s, j + 1, ir, a)
  {
  }

  lemma Swapped(s: seq<int>, l: int, ir: int, i: int, j: int, a: int)
    requires 1 <= l && l + 1 < i <= j <= ir < |s| && s[i] <= a <= s[j]
    requires AtLeast(s, l, i - 1, a) && AtMost(s, j + 1, ir, a)
    requires s[ir] <= a && s[l + 1] == a
    ensures var s' := Swapping(s, i, j);
      AtLeast(s', l, i, a) && AtMost(s', j, ir, a) && s'[l + 1] == a && s'[ir] <= a
  {
  }

  /** The pivot step on a part of more than SMALL ids: everything left of position j is at
      least, everything right of it at most, the pivot that ends up there; between j and i
      there are only copies of it. */
  method Partition(ids: array<int>, l: int, ir: int) returns (i: int, j: int)
    requires 1 <= l && ir < ids.Length && ir - l >= SMALL && l + ir <= INT_MAX
    modifies ids
    ensures Permuted(old(ids[..]), ids[..], l, ir)
    ensures l + 1 <= j < i <= ir
    ensures AtLeast(ids[..], l, i - 1, ids[j]) && AtMost(ids[..], j, ir, ids[j])
    ensures (Part(ids[..], l, ir), i - l, j - l) == Partitioned(Part(old(ids[..]), l, ir))
  {
    hide Permuted, Median, Crossed, Swapping, Partitioned, Part;
    ghost var p := Part(ids[..], l, ir);
    MedianOfThree(ids, l, ir);
    ghost var m := ids[..];
    var a := ids[l + 1];
    i, j := Cross(ids, l, ir, a);
    ghost var before := ids[..];
    PermutedTrans(old(ids[..]), m, before, l, ir);
    PlacePivot(ids, l, j, ir, a);
    PermutedTrans(old(ids[..]), before, ids[..], l, ir);
    PivotOfPart(p, m, before, ids[..], l, ir, i, j, a);
  }

  lemma PivotOfPart(p: seq<int>, m: seq<int>, c: seq<int>, s: seq<int>, l: int, ir: int, i: int, j: int, a: int)
    requires 1 <= l && ir < |m| == |c| == |s| && ir - l >= SMALL && |p| == ir - l + 1
    requires Part(m, l, ir) == Median(p) && m[l + 1] == a >= m[ir]
    requires l + 1 <= j < i <= ir && (Part(c, l, ir), i - l, j - l) == Crossed(Part(m, l, ir), 1, ir - l, a)
    requires s == c[l + 1 := c[j]][j := a]
    ensures (Part(s, l, ir), i - l, j - l) == Partitioned(p)
  {
    hide Median, Crossed;
    var q := Part(c, l, ir);
    PartAt(m, l, ir);
    assert q[j - l] == c[j];
    assert Part(s, l, ir) == q[1 := q[j - l]][j - l := a];
  }

  method PlacePivot(ids: array<int>, l: int, j: int, ghost ir: int, a: int)
    requires 0 <= l && l + 1 <= j <= ir < ids.Length && ids[l + 1] == a
    modifies ids
    ensures ids[..] == old(ids[..][l + 1 := ids[j]][j := a])
    ensures Permuted(old(ids[..]), ids[..], l, ir)
  {
    SwapPermutes(ids[..], l, ir, l + 1, j);
    ids[l + 1] := ids[j];
    ids[j] := a;
  }

  /** do i++; while (ids[i] > a): the id at ir stops it. */
  method ScanUp(ids: array<int>, i: int, ir: int, a: int) returns (i': int)
    requires 0 <= i < ir < ids.Length && ids[ir] <= a
    ensures i < i' <= ir && ids[i'] <= a
    ensures forall x | i < x < i' :: ids[x] > a
  {
    i' := i + 1;
    while ids[i'] > a
      invariant i < i' <= ir
      invariant forall x | i < x < i' :: ids[x] > a
      decreases ir - i'
    {
      i' := i' + 1;
    }
  }

  /** do j--; while (ids[j] < a): the pivot at l + 1 stops it. */
  method ScanDown(ids: array<int>, l: int, j: int, a: int) returns (j': int)
    requires 0 <= l && l + 1 < j <= ids.Length && ids[l + 1] == a
    ensures l + 1 <= j' < j && ids[j'] >= a
    ensures forall x | j' < x < j :: ids[x] < a
  {
    j' := j - 1;
    while ids[j'] < a
      invariant l + 1 <= j' < j
      invariant forall x | j' < x < j :: ids[x] < a
      decreases j'
    {
      j' := j' - 1;
    }
  }

  method MedianOfThree(ids: array<int>, l: int, ir: int)
    requires 1 <= l && ir < ids.Length && ir - l >= SMALL && l + ir <= INT_MAX
    modifies ids
    ensures Permuted(old(ids[..]), ids[..], l, ir)
    ensures ids[l] >= ids[l + 1] >= ids[ir]
    ensures Part(ids[..], l, ir) == Median(Part(old(ids[..]), l, ir))
  {
    hide Permuted, Median, Swapping, Part;
    ghost var s := ids[..];
    var k := (l + ir) / 2;
    Swap(ids, k, l + 1, l, ir);
    ghost var s1 := ids[..];
    if ids[l] < ids[ir] {
      Swap(ids, l, ir, l, ir);
    } else {
      PermutedSelf(ids[..], l, ir);
    }
    ghost var s2 := ids[..];
    if ids[l + 1] < ids[ir] {
      Swap(ids, l + 1, ir, l, ir);
    } else {
      PermutedSelf(ids[..], l, ir);
    }
    ghost var s3 := ids[..];
    if ids[l] < ids[l + 1] {
      Swap(ids, l, l + 1, l, ir);
    } else {
      PermutedSelf(ids[..], l, ir);
    }
    PermutedTrans(s, s1, s2, l, ir);
    PermutedTrans(s, s2, s3, l, ir);
    PermutedTrans(s, s3, ids[..], l, ir);
    MedianOfPart(s, s1, s2, s3, ids[..], l, ir);
  }

  lemma MedianOfPart(s: seq<int>, s1: seq<int>, s2: seq<int>, s3: seq<int>, s4: seq<int>, l: int, ir: int)
    requires 1 <= l && ir < |s| && ir - l >= SMALL
    requires s1 == Swapping(s, (l + ir) / 2, l + 1)
    requires s2 == if s1[l] < s1[ir] then Swapping(s1, l, ir) else s1
    requires s3 == if s2[l + 1] < s2[ir] then Swapping(s2, l + 1, ir) else s2
    requires s4 == if s3[l] < s3[l + 1] then Swapping(s3, l, l + 1) else s3
    ensures Part(s4, l, ir) == Median(Part(s, l, ir))
    ensures s4[l] >= s4[l + 1] >= s4[ir]
  {
    hide Part, Swapping;
    var n := ir - l;
    assert (l + ir) / 2 - l == n / 2;
    SwapOfPart(s, l, ir, (l + ir) / 2, l + 1);
    SwapOfPart(s1, l, ir, l, ir);
    SwapOfPart(s2, l, ir, l + 1, ir);
    SwapOfPart(s3, l, ir, l, l + 1);
    PartAt(s1, l, ir);
    PartAt(s2, l, ir);
    PartAt(s3, l, ir);
    PartAt(s4, l, ir);
  }

  lemma PartAt(s: seq<int>, l: int, ir: int)
    requires 0 <= l && l + 1 <= ir < |s|
    ensures var p := Part(s, l, ir); p[0] == s[l] && p[1] == s[l + 1] && p[ir - l] == s[ir]
  {
  }

  // ------------------------------------------------------------ the explicit stack

  /** 1 <= i < j <= n are in order unless they lie in one part that is still to be sorted. */
  ghost predicate Apart(s: seq<int>, segs: seq<Seg>, n: int)
    requires n < |s|
  {
    forall i, j | 1 <= i < j <= n :: s[i] >= s[j] || Together(segs, i, j)
  }

  ghost predicate Together(segs: seq<Seg>, i: int, j: int) {
    exists g | 0 <= g < |segs| :: In(i, segs[g]) && In(j, segs[g])
  }

  ghost predicate Disjoint(segs: seq<Seg>, n: int) {
    && (forall g | 0 <= g < |segs| :: 1 <= segs[g].lo && segs[g].hi <= n)
    && (forall g, h, x | 0 <= g < h < |segs| && In(x, segs[g]) :: !In(x, segs[h]))
  }

  function Pow2(k: nat): nat {
    if k == 0 then 1 else 2 * Pow2(k - 1)
  }

  /** Part g (counting from the bottom of the stack) has at most n / 2^g ids. */
  ghost predicate Halving(segs: seq<Seg>, n: nat) {
    forall g | 0 <= g < |segs| :: Size(segs[g]) * Pow2(g) <= n
  }

  function Weight(segs: seq<Seg>): nat {
    if segs == [] then 0 else Size(segs[0]) + Weight(segs[1..])
  }

  /** The stack as the source lays it out: part g in istack[2g + 1], istack[2g + 2]. */
  ghost predicate Stacked(istack: seq<int>, jstack: int, segs: seq<Seg>) {
    && |istack| == STACK && jstack == 2 * |segs| < STACK
    && forall g | 0 <= g < |segs| :: istack[2 * g + 1] == segs[g].lo && istack[2 * g + 2] == segs[g].hi
  }

  lemma {:induction false} WeightAppend(segs: seq<Seg>, g: Seg)
    ensures Weight(segs + [g]) == Weight(segs) + Size(g)
  {
    if segs == [] {
      assert [g][1..] == [];
    } else {
      assert (segs + [g])[1..] == segs[1..] + [g];
      WeightAppend(segs[1..], g);
    }
  }

  lemma {:induction false} Pow2Grows(a: nat, b: nat)
    requires a <= b
    ensures 1 <= Pow2(a) <= Pow2(b)
    decreases b
  {
    if a < b {
      Pow2Grows(a, b - 1);
    } else if a > 0 {
      Pow2Grows(a - 1, b - 1);
    }
  }

  lemma Pow28()
    ensures Pow2(28) == 0x1000_0000
  {
    assert Pow2(10) == 1024;
    assert Pow2(20) == 0x10_0000;
  }

  lemma Times(a: nat, b: nat, c: nat, d: nat)
    requires a <= c && b <= d
    ensures a * b <= c * d
  {
    assert a * b <= c * b;
    assert c * b <= c * d;
  }

  /** A part big enough to be cut is near the bottom: 28 parts, 56 ints, are enough. */
  lemma StackRoom(g: nat, size: nat, n: nat)
    requires size > SMALL && size * Pow2(g) <= n <= INT_MAX
    ensures g <= 27
  {
    if g >= 28 {
      Pow28();
      Pow2Grows(28, g);
      Times(9, Pow2(28), size, Pow2(g));
    }
  }

  lemma PendingFenced(s0: seq<int>, s: seq<int>, todo: seq<Seg>, n: nat)
    requires todo != [] && |s0| == |s| && Pending(s0, s, todo, n) && n <= INT_MAX
    ensures var cur := todo[|todo| - 1];
      Size(cur) > SMALL ==> |todo| <= 28
    ensures var cur := todo[|todo| - 1]; 1 <= cur.lo && cur.hi <= n < |s| && Fenced(s, cur.lo, cur.hi, n)
    ensures Disjoint(todo, n)
  {
    CurrentFenced(s, todo, n);
    if Size(todo[|todo| - 1]) > SMALL {
      StackRoom(|todo| - 1, Size(todo[|todo| - 1]), n);
    }
  }

  /** A part that is cut leaves a pivot out, so both halves together are smaller, and the
      smaller one has at most half of the rest. */
  lemma CutHalves(g: nat, size: nat, big: nat, small: nat, n: nat)
    requires size * Pow2(g) <= n && small <= big && big + small < size
    ensures big * Pow2(g) <= n && small * Pow2(g + 1) <= n
  {
    Times(big, Pow2(g), size, Pow2(g));
    assert small * Pow2(g + 1) == (2 * small) * Pow2(g);
    Times(2 * small, Pow2(g), size, Pow2(g));
  }

  lemma CurrentFenced(s: seq<int>, segs: seq<Seg>, n: int)
    requires segs != [] && n < |s| && Disjoint(segs, n) && Apart(s, segs, n)
    ensures var cur := segs[|segs| - 1]; Fenced(s, cur.lo, cur.hi, n)
  {
    var last := |segs| - 1;
    forall i, x | 1 <= i < segs[last].lo && In(x, segs[last])
      ensures s[i] >= s[x]
    {
      OutsideCurrent(segs, n, i, x);
    }
    forall x, j | In(x, segs[last]) && segs[last].hi < j <= n
      ensures s[x] >= s[j]
    {
      OutsideCurrent(segs, n, j, x);
    }
  }

  lemma OutsideCurrent(segs: seq<Seg>, n: int, i: int, x: int)
    requires segs != [] && Disjoint(segs, n) && In(x, segs[|segs| - 1]) && !In(i, segs[|segs| - 1])
    ensures !Together(segs, i, x) && !Together(segs, x, i)
  {
  }

  lemma PermutedApart(s: seq<int>, s': seq<int>, segs: seq<Seg>, n: int)
    requires segs != [] && n < |s| && Disjoint(segs, n) && Apart(s, segs, n)
    requires var cur := segs[|segs| - 1]; Permuted(s, s', cur.lo, cur.hi)
    ensures Apart(s', segs, n)
  {
    var last := |segs| - 1;
    var cur := segs[last];
    CurrentFenced(s, segs, n);
    PermutedFenced(s, s', cur.lo, cur.hi, n);
    forall i, j | 1 <= i < j <= n && !Together(segs, i, j)
      ensures s'[i] >= s'[j]
    {
      if In(i, cur) {
        assert !In(j, cur);
      }
    }
  }

  /** The current part is sorted, so it is no longer to be sorted. */
  lemma DropLast(s: seq<int>, segs: seq<Seg>, n: int)
    requires segs != [] && n < |s| && Disjoint(segs, n) && Apart(s, segs, n)
    requires var cur := segs[|segs| - 1]; Descending(s, cur.lo, cur.hi)
    ensures Apart(s, segs[..|segs| - 1], n) && Disjoint(segs[..|segs| - 1], n)
  {
    var rest := segs[..|segs| - 1];
    assert forall g | 0 <= g < |rest| :: rest[g] == segs[g];
    forall i, j | 1 <= i < j <= n && !Together(rest, i, j)
      ensures s[i] >= s[j]
    {
      if Together(segs, i, j) {
        var g :| 0 <= g < |segs| && In(i, segs[g]) && In(j, segs[g]);
        assert g == |segs| - 1;
      }
    }
  }

  /** The current part, cut at the pivot's copies j..i-1, becomes two parts. */
  lemma CutLast(s: seq<int>, segs: seq<Seg>, i: int, j: int, n: int, big: Seg, small: Seg)
    requires segs != [] && n < |s| && Disjoint(segs, n) && Apart(s, segs, n)
    requires var cur := segs[|segs| - 1];
      && cur.lo <= j < i <= cur.hi
      && AtLeast(s, cur.lo, i - 1, s[j]) && AtMost(s, j, cur.hi, s[j])
      && ((big == Seg(i, cur.hi) && small == Seg(cur.lo, j - 1)) || (small == Seg(i, cur.hi) && big == Seg(cur.lo, j - 1)))
    ensures var segs' := segs[..|segs| - 1] + [big, small]; Apart(s, segs', n) && Disjoint(segs', n)
  {
    var last := |segs| - 1;
    var cur := segs[last];
    var segs' := segs[..last] + [big, small];
    assert segs'[last] == big && segs'[last + 1] == small;
    assert forall g | 0 <= g < last :: segs'[g] == segs[g];
    forall x, y | 1 <= x < y <= n && !Together(segs', x, y)
      ensures s[x] >= s[y]
    {
      if Together(segs, x, y) {
        var g :| 0 <= g < |segs| && In(x, segs[g]) && In(y, segs[g]);
        assert g == last;
        assert !(In(x, big) && In(y, big)) && !(In(x, small) && In(y, small));
        assert s[x] >= s[j] >= s[y];
      }
    }
    CutDisjoint(segs, n, big, small);
  }

  lemma CutDisjoint(segs: seq<Seg>, n: int, big: Seg, small: Seg)
    requires segs != [] && Disjoint(segs, n)
    requires var cur := segs[|segs| - 1];
      && cur.lo <= big.lo && big.hi <= cur.hi && cur.lo <= small.lo && small.hi <= cur.hi
      && (big.hi < small.lo || small.hi < big.lo)
    ensures Disjoint(segs[..|segs| - 1] + [big, small], n)
  {
    var last := |segs| - 1;
    var segs' := segs[..last] + [big, small];
    assert segs'[last] == big && segs'[last + 1] == small;
    forall g, h, x | 0 <= g < h < |segs'| && In(x, segs'[g])
      ensures !In(x, segs'[h])
    {
      assert g < last ==> segs'[g] == segs[g];
      assert h < last ==> segs'[h] == segs[h];
      assert h >= last && g < last ==> !In(x, segs[last]);
    }
  }

  /** Where the loop stands: s0 is the list at the start, s the list now, todo the parts
      still to be sorted, the current one last. */
  ghost predicate Pending(s0: seq<int>, s: seq<int>, todo: seq<Seg>, n: nat) {
    && n < |s0| && Permuted(s0, s, 1, n)
    && Disjoint(todo, n) && Halving(todo, n)
    && Apart(s, todo, n)
  }

  lemma Rearranged(s0: seq<int>, s: seq<int>, s': seq<int>, todo: seq<Seg>, n: nat)
    requires todo != [] && Pending(s0, s, todo, n)
    requires var cur := todo[|todo| - 1]; Permuted(s, s', cur.lo, cur.hi)
    ensures Pending(s0, s', todo, n)
  {
    var cur := todo[|todo| - 1];
    PermutedApart(s, s', todo, n);
    WidenPermuted(s, s', cur.lo, cur.hi, 1, n);
    PermutedTrans(s0, s, s', 1, n);
  }

  lemma SortedPart(s0: seq<int>, s: seq<int>, s': seq<int>, todo: seq<Seg>, n: nat)
    requires todo != [] && Pending(s0, s, todo, n)
    requires var cur := todo[|todo| - 1]; Permuted(s, s', cur.lo, cur.hi) && Descending(s', cur.lo, cur.hi)
    ensures var stack := todo[..|todo| - 1]; Pending(s0, s', stack, n) && Weight(stack) <= Weight(todo)
  {
    var last := |todo| - 1;
    Rearranged(s0, s, s', todo, n);
    DropLast(s', todo, n);
    assert todo == todo[..last] + [todo[last]];
    WeightAppend(todo[..last], todo[last]);
  }

  lemma CutPart(s0: seq<int>, s: seq<int>, s': seq<int>, todo: seq<Seg>, n: nat, i: int, j: int, big: Seg, small: Seg)
    requires todo != [] && Pending(s0, s, todo, n)
    requires var cur := todo[|todo| - 1];
      && Permuted(s, s', cur.lo, cur.hi)
      && cur.lo <= j < i <= cur.hi
      && AtLeast(s', cur.lo, i - 1, s'[j]) && AtMost(s', j, cur.hi, s'[j])
      && ((big == Seg(i, cur.hi) && small == Seg(cur.lo, j - 1)) || (small == Seg(i, cur.hi) && big == Seg(cur.lo, j - 1)))
    requires Size(small) <= Size(big)
    ensures var todo' := todo[..|todo| - 1] + [big, small]; Pending(s0, s', todo', n) && Weight(todo') < Weight(todo)
  {
    var last := |todo| - 1;
    var stack, cur := todo[..last], todo[last];
    Rearranged(s0, s, s', todo, n);
    CutLast(s', todo, i, j, n, big, small);
    CutHalves(last, Size(cur), Size(big), Size(small), n);
    WeightAppend(stack, cur);
    WeightAppend(stack, big);
    WeightAppend(stack + [big], small);
    assert todo == stack + [cur];
    assert stack + [big, small] == (stack + [big]) + [small];
  }

  lemma AllSorted(s0: seq<int>, s: seq<int>, n: nat)
    requires |s0| == |s| && Pending(s0, s, [], n)
    ensures Descending(s, 1, n) && Permuted(s0, s, 1, n) && s[0] == s0[0]
  {
  }

  lemma EmptyStack(istack: seq<int>, segs: seq<Seg>)
    requires |istack| == STACK && segs == []
    ensures Stacked(istack, 0, segs)
  {
  }

  method Push(istack: array<int>, jstack: int, ghost stack: seq<Seg>, lo: int, hi: int) returns (jstack': int)
    requires Stacked(istack[..], jstack, stack) && |stack| <= 27
    modifies istack
    ensures jstack' == jstack + 2 && Stacked(istack[..], jstack', stack + [Seg(lo, hi)])
  {
    jstack' := jstack + 2;
    istack[jstack'] := hi;
    istack[jstack' - 1] := lo;
  }

  method Pop(istack: array<int>, jstack: int, ghost stack: seq<Seg>) returns (jstack': int, lo: int, hi: int)
    requires Stacked(istack[..], jstack, stack) && jstack != 0
    ensures jstack' == jstack - 2 && Stacked(istack[..], jstack', stack[..|stack| - 1])
    ensures stack[|stack| - 1] == Seg(lo, hi)
  {
    ghost var g := |stack| - 1;
    assert istack[..][2 * g + 1] == stack[g].lo && istack[..][2 * g + 2] == stack[g].hi;
    hi := istack[jstack];
    lo := istack[jstack - 1];
    jstack' := jstack - 2;
  }

  // ------------------------------------------------------------ positions as C ints

  ghost predicate PartOverflows(s: seq<int>, g: Seg) {
    1 <= g.lo <= g.hi < |s| && SumOverflows(Part(s, g.lo, g.hi), g.lo)
  }

  /** In sorting one of the parts a sum of positions will leave the range of a C int. */
  ghost predicate Doomed(s: seq<int>, todo: seq<Seg>) {
    exists g | 0 <= g < |todo| :: PartOverflows(s, todo[g])
  }

  lemma DoomedStart(s: seq<int>, n: nat)
    requires n < |s|
    ensures Doomed(s, [Seg(1, n)]) <==> SumOverflows(Part(s, 1, n), 1)
  {
    var todo := [Seg(1, n)];
    if SumOverflows(Part(s, 1, n), 1) {
      assert PartOverflows(s, todo[0]);
    }
  }

  /** A change within the current part leaves the other parts alone. */
  lemma OtherPart(s: seq<int>, s': seq<int>, todo: seq<Seg>, n: nat, g: nat)
    requires n < |s| && g < |todo| - 1 && Disjoint(todo, n)
    requires var cur := todo[|todo| - 1]; Permuted(s, s', cur.lo, cur.hi)
    ensures PartOverflows(s', todo[g]) <==> PartOverflows(s, todo[g])
  {
    hide SumOverflows;
    var x, cur := todo[g], todo[|todo| - 1];
    if 1 <= x.lo <= x.hi < |s| {
      forall k | x.lo <= k <= x.hi ensures s'[k] == s[k] {
        assert In(k, x) && !In(k, cur);
      }
      assert Part(s', x.lo, x.hi) == Part(s, x.lo, x.hi);
    }
  }

  lemma DoomedSplit(s: seq<int>, stack: seq<Seg>, tail: seq<Seg>)
    ensures Doomed(s, stack + tail) <==> Doomed(s, stack) || Doomed(s, tail)
  {
    hide PartOverflows;
    var all := stack + tail;
    if g :| 0 <= g < |stack| && PartOverflows(s, stack[g]) {
      assert PartOverflows(s, all[g]);
    }
    if g :| 0 <= g < |tail| && PartOverflows(s, tail[g]) {
      assert PartOverflows(s, all[|stack| + g]);
    }
    if g :| 0 <= g < |all| && PartOverflows(s, all[g]) {
      assert all[g] == if g < |stack| then stack[g] else tail[g - |stack|];
    }
  }

  lemma DoomedFew(s: seq<int>, x: Seg, y: Seg)
    ensures Doomed(s, [x]) <==> PartOverflows(s, x)
    ensures Doomed(s, [x, y]) <==> PartOverflows(s, x) || PartOverflows(s, y)
  {
    hide PartOverflows;
    assert [x][0] == x && [x, y][0] == x && [x, y][1] == y;
    if PartOverflows(s, x) {
      assert PartOverflows(s, [x][0]) && PartOverflows(s, [x, y][0]);
    }
    if PartOverflows(s, y) {
      assert PartOverflows(s, [x, y][1]);
    }
  }

  lemma DoomedFrame(s: seq<int>, s': seq<int>, todo: seq<Seg>, n: nat)
    requires n < |s| && todo != [] && Disjoint(todo, n)
    requires var cur := todo[|todo| - 1]; Permuted(s, s', cur.lo, cur.hi)
    ensures Doomed(s', todo[..|todo| - 1]) <==> Doomed(s, todo[..|todo| - 1])
  {
    hide Disjoint, Permuted, PartOverflows;
    var stack := todo[..|todo| - 1];
    forall g | 0 <= g < |stack|
      ensures PartOverflows(s', stack[g]) <==> PartOverflows(s, stack[g])
    {
      OtherPart(s, s', todo, n, g);
    }
  }

  lemma DoomedSmall(s: seq<int>, s': seq<int>, todo: seq<Seg>, n: nat)
    requires n < |s| && todo != [] && Disjoint(todo, n)
    requires var cur := todo[|todo| - 1]; Permuted(s, s', cur.lo, cur.hi) && cur.hi - cur.lo < SMALL
    ensures Doomed(s', todo[..|todo| - 1]) <==> Doomed(s, todo)
  {
    var stack, cur := todo[..|todo| - 1], todo[|todo| - 1];
    hide Disjoint, Permuted, Doomed;
    DoomedFrame(s, s', todo, n);
    DoomedSplit(s, stack, [cur]);
    DoomedFew(s, cur, cur);
    assert todo == stack + [cur];
  }

  lemma DoomedNow(s: seq<int>, todo: seq<Seg>)
    requires todo != []
    requires var cur := todo[|todo| - 1]; 1 <= cur.lo && cur.hi < |s| && cur.hi - cur.lo >= SMALL && cur.lo + cur.hi > INT_MAX
    ensures Doomed(s, todo)
  {
    assert PartOverflows(s, todo[|todo| - 1]);
  }

  lemma DoomedCut(s: seq<int>, s': seq<int>, todo: seq<Seg>, n: nat, i: int, j: int, big: Seg, small: Seg)
    requires n < |s| == |s'| && todo != [] && Disjoint(todo, n)
    requires var cur := todo[|todo| - 1];
      && Permuted(s, s', cur.lo, cur.hi) && cur.hi - cur.lo >= SMALL && cur.lo + cur.hi <= INT_MAX
      && cur.lo <= j < i <= cur.hi
      && (Part(s', cur.lo, cur.hi), i - cur.lo, j - cur.lo) == Partitioned(Part(s, cur.lo, cur.hi))
      && ((big == Seg(i, cur.hi) && small == Seg(cur.lo, j - 1))
          || (small == Seg(i, cur.hi) && big == Seg(cur.lo, j - 1)))
    ensures Doomed(s', todo[..|todo| - 1] + [big, small]) <==> Doomed(s, todo)
  {
    hide Disjoint, Permuted, Doomed, PartOverflows, Partitioned, Part;
    var stack, cur := todo[..|todo| - 1], todo[|todo| - 1];
    InRange(todo, n);
    DoomedFrame(s, s', todo, n);
    DoomedSplit(s, stack, [cur]);
    DoomedSplit(s', stack, [big, small]);
    DoomedFew(s, cur, cur);
    DoomedFew(s', big, small);
    CutOverflows(s, s', cur, i, j);
    assert todo == stack + [cur];
  }

  lemma InRange(todo: seq<Seg>, n: nat)
    requires todo != [] && Disjoint(todo, n)
    ensures 1 <= todo[|todo| - 1].lo && todo[|todo| - 1].hi <= n
  {
  }

  lemma CutOverflows(s: seq<int>, s': seq<int>, cur: Seg, i: int, j: int)
    requires 1 <= cur.lo && cur.hi < |s| == |s'| && cur.hi - cur.lo >= SMALL && cur.lo + cur.hi <= INT_MAX
    requires cur.lo <= j < i <= cur.hi
    requires (Part(s', cur.lo, cur.hi), i - cur.lo, j - cur.lo) == Partitioned(Part(s, cur.lo, cur.hi))
    ensures PartOverflows(s, cur)
      <==> PartOverflows(s', Seg(i, cur.hi)) || PartOverflows(s', Seg(cur.lo, j - 1))
  {
    hide Partitioned;
    var q := Part(s', cur.lo, cur.hi);
    assert q[..j - cur.lo] == Part(s', cur.lo, j - 1);
    assert q[i - cur.lo..] == Part(s', i, cur.hi);
    hide Part;
  }

  /** A part is cut only if it has more than SMALL ids, so that its first position is well below
      its last one. */
  lemma {:induction false} ShortNeverOverflows(p: seq<int>, lo: int)
    requires 2 * (lo + |p| - 1) <= INT_MAX + SMALL
    ensures !SumOverflows(p, lo)
    decreases |p|
  {
    hide Partitioned;
    if |p| > SMALL {
      var r := Partitioned(p);
      ShortNeverOverflows(r.0[..r.2], lo);
      ShortNeverOverflows(r.0[r.1..], lo + r.1);
    }
  }

  /** Different ids, the median of three chosen so that exactly nine ids are smaller, and these
      in the last nine places. */
  function Lopsided(n: nat): (p: seq<int>)
    ensures |p| == n
    ensures forall i | 0 <= i < n ::
      p[i] == if i == (n - 1) / 2 then 10 else if i >= n - 9 then n - i else 11 + i
  {
    seq(n, i => if i == (n - 1) / 2 then 10 else if i >= n - 9 then n - i else 11 + i)
  }

  lemma LopsidedMedian(n: nat)
    requires n >= 24
    ensures Median(Lopsided(n)) == Swapping(Lopsided(n), (n - 1) / 2, 1)
  {
  }

  /** The first partition leaves a last part of nine ids. */
  lemma LopsidedCut(n: nat)
    requires n >= 24
    ensures Partitioned(Lopsided(n)).1 == n - 9 && Partitioned(Lopsided(n)).2 == n - 10
  {
    hide Median, Lopsided;
    LopsidedMedian(n);
    var m := Median(Lopsided(n));
    assert forall i | 0 <= i < n ::
      m[i] == if i == 1 then 10 else if i == (n - 1) / 2 then 12 else if i >= n - 9 then n - i else 11 + i;
    ScanUpUnique(m, 1, 10, n - 9);
    ScanDownUnique(m, n - 1, 10, n - 10);
  }

  lemma LopsidedOverflows(n: nat)
    requires INT_MAX + SMALL < 2 * n
    ensures SumOverflows(Lopsided(n), 1)
  {
    hide Partitioned, Lopsided;
    LopsidedCut(n);
    var q := Partitioned(Lopsided(n)).0[n - 9..];
    assert |q| == 9;
    assert SumOverflows(q, 1 + n - 9);
  }

  /** Exactly for which lengths no list makes the sort overflow, be there duplicates or not: the
      first length beyond is 2^30 + 4. */
  lemma LengthExact(n: nat)
    ensures (forall p: seq<int> | |p| == n :: !SumOverflows(p, 1)) <==> 2 * n <= INT_MAX + SMALL
    ensures (forall p: seq<int> | |p| == n && (forall i, j | 0 <= i < j < n :: p[i] != p[j]) :: !SumOverflows(p, 1))
      <==> 2 * n <= INT_MAX + SMALL
  {
    hide SumOverflows;
    if 2 * n <= INT_MAX + SMALL {
      forall p: seq<int> | |p| == n
        ensures !SumOverflows(p, 1)
      {
        ShortNeverOverflows(p, 1);
      }
    } else {
      LopsidedOverflows(n);
      var p := Lopsided(n);
      assert forall i, j | 0 <= i < j < n :: p[i] != p[j];
    }
  }

  /** Sorts ids[1..] downwards.  Positions are C ints; as soon as the sum of two of them leaves
      their range, which is undefined in C, the sort is given up. */
  method Sort(ids: array<int>) returns (ok: bool)
    requires ids.Length > 0 && 0 <= ids[0] < ids.Length
    modifies ids
    ensures ok <==> !SumOverflows(Part(old(ids[..]), 1, old(ids[0])), 1)
    ensures ids[0] == old(ids[0]) && Permuted(old(ids[..]), ids[..], 1, old(ids[0]))
    ensures ok ==> Descending(ids[..], 1, old(ids[0]))
  {
    hide Permuted, Descending, Pending, Stacked, Fenced, AtLeast, AtMost, SumOverflows, Part, Partitioned, Doomed;
    if ids[0] > INT_MAX {
      LongOverflows(Part(ids[..], 1, ids[0]));
      PermutedSelf(ids[..], 1, ids[0]);
      return false;
    }
    var istack := new int[STACK];
    ghost var n: nat, s0 := ids[0], ids[..];
    var ir := ids[0];
    var l := 1;
    var jstack := 0;
    ghost var todo := [Seg(1, n)];
    StartPending(s0, n);
    DoomedStart(s0, n);
    EmptyStack(istack[..], todo[..|todo| - 1]);
    while true
      invariant istack.Length == STACK && fresh(istack)
      invariant todo != [] && todo[|todo| - 1] == Seg(l, ir) && jstack == 2 * (|todo| - 1)
      invariant ids.Length == |s0| && Pending(s0, ids[..], todo, n)
      invariant Doomed(ids[..], todo) <==> SumOverflows(Part(s0, 1, n), 1)
      invariant Stacked(istack[..], jstack, todo[..|todo| - 1])
      decreases Weight(todo), |todo|
    {
      ghost var s, last := ids[..], |todo| - 1;
      ghost var stack := todo[..last];
      PendingFenced(s0, s, todo, n);
      if ir - l < SMALL {
        InsertionSort(ids, l, ir, n);
        SortedPart(s0, s, ids[..], todo, n);
        DoomedSmall(s, ids[..], todo, n);
        if jstack == 0 {
          assert stack == [];
          AllSorted(s0, ids[..], n);
          NotDoomed(ids[..]);
          return true;
        }
        jstack, l, ir := Pop(istack, jstack, stack);
        todo := stack;
      } else if l + ir > INT_MAX {
        DoomedNow(s, todo);
        StillPermuted(s0, s, todo, n);
        return false;
      } else {
        var i, j := Partition(ids, l, ir);
        ghost var left, right := Seg(l, j - 1), Seg(i, ir);
        if ir - i + 1 >= j - l {
          CutPart(s0, s, ids[..], todo, n, i, j, right, left);
          DoomedCut(s, ids[..], todo, n, i, j, right, left);
          todo := stack + [right, left];
          jstack := Push(istack, jstack, stack, i, ir);
          ir := j - 1;
        } else {
          CutPart(s0, s, ids[..], todo, n, i, j, left, right);
          DoomedCut(s, ids[..], todo, n, i, j, left, right);
          todo := stack + [left, right];
          jstack := Push(istack, jstack, stack, l, j - 1);
          l := i;
        }
        assert todo[..last + 1] == stack + [todo[last]];
      }
    }
  }

  /** Such a length is no C int itself. */
  lemma LongOverflows(p: seq<int>)
    requires |p| > INT_MAX
    ensures SumOverflows(p, 1)
  {
  }

  lemma NotDoomed(s: seq<int>)
    ensures !Doomed(s, [])
  {
  }

  lemma StillPermuted(s0: seq<int>, s: seq<int>, todo: seq<Seg>, n: nat)
    requires Pending(s0, s, todo, n)
    ensures n < |s0| == |s| && Permuted(s0, s, 1, n) && s[0] == s0[0]
  {
  }

  lemma StartPending(s: seq<int>, n: nat)
    requires n < |s|
    ensures Pending(s, s, [Seg(1, n)], n)
  {
    var todo := [Seg(1, n)];
    assert Size(todo[0]) * Pow2(0) <= n;
    forall i, j | 1 <= i < j <= n
      ensures Together(todo, i, j)
    {
      assert In(i, todo[0]) && In(j, todo[0]);
    }
  }

  lemma WidenPermuted(s: seq<int>, s': seq<int>, lo: int, hi: int, lo': int, hi': int)
    requires 0 <= lo' <= lo && hi <= hi' < |s| && Permuted(s, s', lo, hi)
    ensures Permuted(s, s', lo', hi')
  {
    if lo <= hi {
      assert s[lo'..hi' + 1] == s[lo'..lo] + s[lo..hi + 1] + s[hi + 1..hi' + 1];
      assert s'[lo'..hi' + 1] == s'[lo'..lo] + s'[lo..hi + 1] + s'[hi + 1..hi' + 1];
      assert s'[lo'..lo] == s[lo'..lo] && s'[hi + 1..hi' + 1] == s[hi + 1..hi' + 1];
    } else {
      assert s' == s;
    }
  }
}
