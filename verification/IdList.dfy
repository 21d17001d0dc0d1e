/** ID lists: an array whose element 0 counts the ids that follow, in descending order.
    me_pghead, mt_free_pgs and the freeDB records have this form. */
module IdList {

  const MAX_ID: nat := 0xffff_ffff_ffff_ffff

  /** MDB_IDL_UM_MAX: how many pages a dirty list can hold. */
  const UM_MAX: nat := 0x1_ffff

  predicate Fits(a: array<int>)
    reads a
  {
    a.Length > 0 && 0 <= a[0] < a.Length
  }

  function Ids(a: array<int>): seq<int>
    requires Fits(a)
    reads a
  {
    a[1..a[0] + 1]
  }

  predicate Descending(s: seq<int>) {
    forall i, j | 0 <= i < j < |s| :: s[i] >= s[j]
  }

  ghost predicate Strict(s: seq<int>) {
    forall i, j | 0 <= i < j < |s| :: s[i] > s[j]
  }

  // ------------------------------------------------------------ search

  ghost predicate AtMostOnce(s: seq<int>, id: int) {
    forall i, j | 0 <= i < j < |s| && s[i] == id :: s[j] != id
  }

  /** mdb_midl_search: the position of id, or of the first id below it.  Other ids may be there
      several times, as deleted entries of a spill list are. */
  method Search(ids: array<int>, id: int) returns (cursor: nat)
    requires Fits(ids) && Descending(Ids(ids)) && AtMostOnce(Ids(ids), id)
    ensures 1 <= cursor <= ids[0] + 1
    ensures forall k | 1 <= k < cursor :: ids[k] > id
    ensures forall k | cursor <= k <= ids[0] :: ids[k] <= id
    ensures id in Ids(ids) <==> cursor <= ids[0] && ids[cursor] == id
  {
    var base := 0;
    cursor := 1;
    var val := 0;
    var n: int := ids[0];
    assert forall i, j | 1 <= i < j <= ids[0] :: ids[i] >= ids[j] && (ids[i] == id ==> ids[j] != id) by {
      forall i, j | 1 <= i < j <= ids[0]
        ensures ids[i] >= ids[j] && (ids[i] == id ==> ids[j] != id)
      {
        assert Ids(ids)[i - 1] == ids[i] && Ids(ids)[j - 1] == ids[j];
      }
    }
    while 0 < n
      invariant 0 <= base && 0 <= n && base + n <= ids[0]
      invariant forall k | 1 <= k <= base :: ids[k] > id
      invariant forall k | base + n < k <= ids[0] :: ids[k] < id
      invariant 1 <= cursor
      invariant n == 0 ==> cursor == (if val > 0 then base else base + 1)
      invariant ids[0] == 0 ==> cursor == 1 && val == 0
      decreases n
    {
      var pivot := n / 2;
      cursor := base + pivot + 1;
      val := if ids[cursor] < id then -1 else if ids[cursor] > id then 1 else 0;
      if val < 0 {
        n := pivot;
      } else if val > 0 {
        base := cursor;
        n := n - (pivot + 1);
      } else {
        assert Ids(ids)[cursor - 1] == id;
        return;
      }
    }
    if val > 0 {
      cursor := cursor + 1;
    }
    assert forall k | 0 <= k < ids[0] :: Ids(ids)[k] == ids[k + 1];
  }

  // ------------------------------------------------------------ merging

  /** Two lists merged, the smaller of the two last ids placed last. */
  function Merge(s: seq<int>, m: seq<int>): (r: seq<int>)
    ensures |r| == |s| + |m|
    decreases |s| + |m|
  {
    if m == [] then s
    else if s != [] && s[|s| - 1] < m[|m| - 1] then Merge(s[..|s| - 1], m) + [s[|s| - 1]]
    else Merge(s, m[..|m| - 1]) + [m[|m| - 1]]
  }

  lemma LastOne(s: seq<int>)
    requires s != []
    ensures multiset(s) == multiset(s[..|s| - 1]) + multiset{s[|s| - 1]}
  {
    assert s == s[..|s| - 1] + [s[|s| - 1]];
  }

  lemma {:induction false} MergeHolds(s: seq<int>, m: seq<int>)
    ensures multiset(Merge(s, m)) == multiset(s) + multiset(m)
    decreases |s| + |m|
  {
    var r := Merge(s, m);
    if m == [] {
    } else if s != [] && s[|s| - 1] < m[|m| - 1] {
      MergeHolds(s[..|s| - 1], m);
      LastOne(s);
      assert r[..|r| - 1] == Merge(s[..|s| - 1], m);
      LastOne(r);
    } else {
      MergeHolds(s, m[..|m| - 1]);
      LastOne(m);
      assert r[..|r| - 1] == Merge(s, m[..|m| - 1]);
      LastOne(r);
    }
  }

  ghost predicate NoneBelow(s: seq<int>, x: int) {
    forall i | 0 <= i < |s| :: s[i] >= x
  }

  lemma {:induction false} MergeNoneBelow(s: seq<int>, m: seq<int>, x: int)
    requires NoneBelow(s, x) && NoneBelow(m, x)
    ensures NoneBelow(Merge(s, m), x)
    decreases |s| + |m|
  {
    if m == [] {
    } else if s != [] && s[|s| - 1] < m[|m| - 1] {
      MergeNoneBelow(s[..|s| - 1], m, x);
    } else {
      MergeNoneBelow(s, m[..|m| - 1], x);
    }
  }

  lemma {:induction false} MergeDescending(s: seq<int>, m: seq<int>)
    requires Descending(s) && Descending(m)
    ensures Descending(Merge(s, m))
    decreases |s| + |m|
  {
    if m == [] {
    } else if s != [] && s[|s| - 1] < m[|m| - 1] {
      MergeDescending(s[..|s| - 1], m);
      MergeNoneBelow(s[..|s| - 1], m, s[|s| - 1]);
    } else {
      MergeDescending(s, m[..|m| - 1]);
      MergeNoneBelow(s, m[..|m| - 1], m[|m| - 1]);
    }
  }

  /** Disjoint duplicate-free lists merge into a duplicate-free list. */
  lemma MergeStrict(s: seq<int>, m: seq<int>)
    requires Strict(s) && Strict(m) && (forall x | x in s :: x !in m)
    ensures Strict(Merge(s, m))
  {
    MergeDescending(s, m);
    MergeHolds(s, m);
    StrictOnce(s);
    StrictOnce(m);
    forall x | x in multiset(Merge(s, m))
      ensures multiset(Merge(s, m))[x] == 1
    {
      assert x in s ==> multiset(s)[x] == 1;
      assert x in m ==> multiset(m)[x] == 1;
      assert x in s || x in m;
    }
    OnceStrict(Merge(s, m));
  }

  ghost predicate Once(s: multiset<int>) {
    forall x | x in s :: s[x] == 1
  }

  lemma {:induction false} StrictOnce(s: seq<int>)
    requires Strict(s)
    ensures Once(multiset(s))
  {
    if s != [] {
      var n := |s| - 1;
      StrictOnce(s[..n]);
      assert s == s[..n] + [s[n]];
      assert s[n] !in s[..n];
    }
  }

  lemma {:induction false} OnceStrict(s: seq<int>)
    requires Descending(s) && Once(multiset(s))
    ensures Strict(s)
  {
    if s != [] {
      var n := |s| - 1;
      assert s == s[..n] + [s[n]];
      forall x | x in multiset(s[..n])
        ensures multiset(s[..n])[x] == 1
      {
        assert multiset(s)[x] == 1;
      }
      OnceStrict(s[..n]);
      assert multiset(s)[s[n]] == 1;
      assert s[n] !in s[..n];
    }
  }

  /** One id of mdb_midl_xmerge: moves the ids below mergeId at the end of the first `last`
      up by gap places and puts mergeId before them.  An id that is not below mergeId stops
      the scan before position 0. */
  method PlaceOne(a: array<int>, last: nat, gap: nat, mergeId: int) returns (j: nat)
    requires 0 < gap && last + gap < a.Length && a[0] >= mergeId
    modifies a
    ensures j <= last && old(a[j]) >= mergeId
    ensures forall x | j < x <= last :: old(a[x]) < mergeId
    ensures a[j + gap] == mergeId
    ensures forall x | j + gap < x <= last + gap :: a[x] == old(a[x - gap])
    ensures forall x | 0 <= x < a.Length && !(j + gap <= x <= last + gap) :: a[x] == old(a[x])
  {
    j := last;
    var k := j + gap;
    var oldId := a[j];
    while oldId < mergeId
      invariant j <= last && k == j + gap && oldId == old(a[j])
      invariant forall x | j < x <= last :: old(a[x]) < mergeId
      invariant forall x | k < x <= last + gap :: a[x] == old(a[x - gap])
      invariant forall x | 0 <= x < a.Length && !(k < x <= last + gap) :: a[x] == old(a[x])
      decreases j
    {
      a[k] := oldId;
      k := k - 1;
      j := j - 1;
      oldId := a[j];
    }
    a[k] := mergeId;
  }

  /** mdb_midl_xmerge: merges the list at b[off] into list a, from the back.  Both may lie
      in one buffer, the list to merge behind the room of the result: then its ids are read
      before they could be overwritten.  The all-ones id in a[0] stops the inner scan. */
  method XMerge(a: array<int>, b: array<int>, off: nat)
    requires Fits(a) && off < b.Length && 0 <= b[off] < b.Length - off
    requires a[0] + b[off] < a.Length
    requires a == b ==> a[0] + b[off] < off
    requires forall k | off < k <= off + b[off] :: b[k] <= MAX_ID
    modifies a
    ensures a[0] == old(a[0] + b[off])
    ensures Ids(a) == old(Merge(Ids(a), b[off + 1..off + 1 + b[off]]))
    ensures a[a[0] + 1..] == old(a[a[0] + b[off] + 1..])
  {
    hide Merge, Merging;
    ghost var s, m, orig := Ids(a), b[off + 1..off + 1 + b[off]], a[..];
    var i, j := b[off], a[0];
    var total := i + j;
    a[0] := MAX_ID;
    MergeStart(orig, a[..], s, m);
    while i > 0
      invariant 0 <= i <= |m| && 0 <= j <= |s| && a[0] == MAX_ID
      invariant forall x | off < x < b.Length :: b[x] == old(b[x])
      invariant Merging(orig, a[..], s, m, i, j)
      decreases i
    {
      var mergeId := b[off + i];
      assert mergeId == m[i - 1];
      ghost var before := a[..];
      var rest := PlaceOne(a, j, i, mergeId);
      MergeStep(orig, before, a[..], s, m, i, j, rest);
      i, j := i - 1, rest;
    }
    ghost var merged := a[..];
    a[0] := total;
    MergeDone(orig, merged, a[..], s, m, j);
    assert Ids(a) == a[..][1..total + 1];
  }

  /** The buffer v, merged from orig as far as the first i ids of m and j ids of s are left. */
  ghost predicate Merging(orig: seq<int>, v: seq<int>, s: seq<int>, m: seq<int>, i: nat, j: nat) {
    && j <= |s| && i <= |m| && |s| + |m| < |v| == |orig|
    && v[1..j + 1] == s[..j]
    && v[|s| + |m| + 1..] == orig[|s| + |m| + 1..]
    && Merge(s, m) == Merge(s[..j], m[..i]) + v[i + j + 1..|s| + |m| + 1]
  }

  lemma MergeStart(orig: seq<int>, v: seq<int>, s: seq<int>, m: seq<int>)
    requires |s| + |m| < |orig| == |v| && s == orig[1..|s| + 1] && v[1..] == orig[1..]
    ensures Merging(orig, v, s, m, |m|, |s|)
  {
    assert s[..|s|] == s && m[..|m|] == m;
    assert v[1..|s| + 1] == v[1..][..|s|] == orig[1..][..|s|];
    assert v[|s| + |m| + 1..] == v[1..][|s| + |m|..] == orig[1..][|s| + |m|..];
  }

  lemma MergeDone(orig: seq<int>, v: seq<int>, w: seq<int>, s: seq<int>, m: seq<int>, j: nat)
    requires |v| == |w| > 0 && v[1..] == w[1..] && Merging(orig, v, s, m, 0, j)
    ensures w[1..|s| + |m| + 1] == Merge(s, m)
    ensures w[|s| + |m| + 1..] == orig[|s| + |m| + 1..]
  {
    hide Merge;
    var end := |s| + |m| + 1;
    SameBeyondFirst(v, w, j, end);
    MergeRest(s[..j], m[..0]);
  }

  lemma SameBeyondFirst(v: seq<int>, w: seq<int>, j: nat, end: nat)
    requires |v| == |w| && j < end <= |v| && v[1..] == w[1..]
    ensures w[1..end] == v[1..j + 1] + v[j + 1..end] && w[end..] == v[end..]
  {
    assert forall x | 1 <= x < |v| :: v[x] == v[1..][x - 1] == w[1..][x - 1] == w[x];
  }

  lemma MergeStep(orig: seq<int>, v: seq<int>, w: seq<int>, s: seq<int>, m: seq<int>, i: nat, j: nat, rest: nat)
    requires Merging(orig, v, s, m, i, j) && rest <= j && 0 < i && |v| == |w|
    requires v[rest] >= m[i - 1] && forall x | rest < x <= j :: v[x] < m[i - 1]
    requires w[rest + i] == m[i - 1]
    requires forall x | rest + i < x <= j + i :: w[x] == v[x - i]
    requires forall x | 0 <= x < |w| && !(rest + i <= x <= j + i) :: w[x] == v[x]
    ensures Merging(orig, w, s, m, i - 1, rest)
  {
    hide Merge;
    var end := |s| + |m| + 1;
    var tail := v[i + j + 1..end];
    assert forall x | 0 <= x < j :: s[x] == s[..j][x] == v[1..j + 1][x] == v[x + 1];
    TakeOld(s, rest, j, m, i, tail);
    TakeMerge(s, rest, m, i, s[rest..j] + tail);
    Slices(v, w, rest, i, j, end);
    assert s[..rest] == s[..j][..rest] && s[rest..j] == s[..j][rest..];
  }

  lemma Slices(v: seq<int>, w: seq<int>, rest: nat, i: nat, j: nat, end: nat)
    requires 0 < i && rest <= j && i + j < end <= |v| == |w|
    requires forall x | rest + i < x <= j + i :: w[x] == v[x - i]
    requires forall x | 0 <= x < |w| && !(rest + i <= x <= j + i) :: w[x] == v[x]
    ensures w[1..rest + 1] == v[1..j + 1][..rest]
    ensures w[end..] == v[end..]
    ensures w[rest + i..end] == [w[rest + i]] + v[1..j + 1][rest..] + v[i + j + 1..end]
  {
    assert w[rest + i + 1..i + j + 1] == v[rest + 1..j + 1] == v[1..j + 1][rest..];
    assert w[i + j + 1..end] == v[i + j + 1..end];
    assert w[rest + i..end] == [w[rest + i]] + w[rest + i + 1..i + j + 1] + w[i + j + 1..end];
  }

  lemma MergeRest(s: seq<int>, m: seq<int>)
    requires m == []
    ensures Merge(s, m) == s
  {
  }

  lemma {:induction false} TakeOld(s: seq<int>, rest: nat, j: nat, m: seq<int>, i: nat, tail: seq<int>)
    requires rest <= j <= |s| && 0 < i <= |m| && forall x | rest <= x < j :: s[x] < m[i - 1]
    ensures Merge(s[..j], m[..i]) + tail == Merge(s[..rest], m[..i]) + (s[rest..j] + tail)
    decreases j
  {
    if rest < j {
      assert s[..j][..j - 1] == s[..j - 1];
      TakeOld(s, rest, j - 1, m, i, [s[j - 1]] + tail);
      assert s[rest..j] + tail == s[rest..j - 1] + ([s[j - 1]] + tail);
    }
  }

  lemma TakeMerge(s: seq<int>, j: nat, m: seq<int>, i: nat, tail: seq<int>)
    requires j <= |s| && 0 < i <= |m| && (j > 0 ==> s[j - 1] >= m[i - 1])
    ensures Merge(s[..j], m[..i]) + tail == Merge(s[..j], m[..i - 1]) + ([m[i - 1]] + tail)
  {
    assert m[..i][..i - 1] == m[..i - 1];
  }
}
