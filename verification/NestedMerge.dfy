/** The merge of a child's dirty list into its parent's, from the back and in place, when a
    nested transaction commits. */
module NestedMerge {
  import opened DirtyList

  /** Two ascending lists merged; where both list a page, the entry of m is kept. */
  function Over(s: seq<Entry>, m: seq<Entry>): (r: seq<Entry>)
    ensures |s| <= |r| <= |s| + |m| && |m| <= |r|
    decreases |s| + |m|
  {
    if m == [] then s
    else if s == [] then m
    else
      var x, y := |s| - 1, |m| - 1;
      if m[y].mid < s[x].mid then Over(s[..x], m) + [s[x]]
      else if m[y].mid == s[x].mid then Over(s[..x], m[..y]) + [m[y]]
      else Over(s, m[..y]) + [m[y]]
  }

  ghost predicate AllBelow(s: seq<Entry>, p: int) {
    forall i | 0 <= i < |s| :: s[i].mid < p
  }

  lemma {:induction false} OverBelow(s: seq<Entry>, m: seq<Entry>, p: int)
    requires AllBelow(s, p) && AllBelow(m, p)
    ensures AllBelow(Over(s, m), p)
    decreases |s| + |m|
  {
    if m != [] && s != [] {
      var x, y := |s| - 1, |m| - 1;
      if m[y].mid < s[x].mid {
        OverBelow(s[..x], m, p);
      } else if m[y].mid == s[x].mid {
        OverBelow(s[..x], m[..y], p);
      } else {
        OverBelow(s, m[..y], p);
      }
    }
  }

  /** The merged list is in ascending order, so it lists no page twice. */
  lemma {:induction false} OverAscends(s: seq<Entry>, m: seq<Entry>)
    requires Ascending(s) && Ascending(m)
    ensures Ascending(Over(s, m))
    decreases |s| + |m|
  {
    if m != [] && s != [] {
      var x, y := |s| - 1, |m| - 1;
      if m[y].mid < s[x].mid {
        OverAscends(s[..x], m);
        OverBelow(s[..x], m, s[x].mid);
      } else if m[y].mid == s[x].mid {
        OverAscends(s[..x], m[..y]);
        OverBelow(s[..x], m[..y], m[y].mid);
      } else {
        OverAscends(s, m[..y]);
        OverBelow(s, m[..y], m[y].mid);
      }
    }
  }

  /** As maps, the child's list overrides the parent's. */
  lemma {:induction false} OverIsOverride(s: seq<Entry>, m: seq<Entry>)
    requires Ascending(s) && Ascending(m)
    ensures ToMap(Over(s, m)) == ToMap(s) + ToMap(m)
    decreases |s| + |m|
  {
    if m == [] {
      assert ToMap(m) == map[];
    } else if s == [] {
      assert ToMap(s) == map[];
    } else {
      hide ToMap, Ascending;
      Prefixes(s, m);
      var x, y := |s| - 1, |m| - 1;
      LastOfMap(s);
      LastOfMap(m);
      if m[y].mid < s[x].mid {
        OverIsOverride(s[..x], m);
        ToMapAppend(Over(s[..x], m), s[x]);
        InToMap(m, s[x].mid);
        PutThrough(ToMap(s[..x]), ToMap(m), s[x].mid, s[x].mptr, s[x].mptr);
      } else if m[y].mid == s[x].mid {
        OverIsOverride(s[..x], m[..y]);
        ToMapAppend(Over(s[..x], m[..y]), m[y]);
        PutThrough(ToMap(s[..x]), ToMap(m[..y]), m[y].mid, s[x].mptr, m[y].mptr);
      } else {
        OverIsOverride(s, m[..y]);
        ToMapAppend(Over(s, m[..y]), m[y]);
        PutThrough(ToMap(s), ToMap(m[..y]), m[y].mid, m[y].mptr, m[y].mptr);
      }
    }
  }

  lemma PutThrough(a: map<int, int>, b: map<int, int>, p: int, v: int, w: int)
    ensures p !in b ==> (a + b)[p := v] == a[p := v] + b
    ensures (a + b)[p := w] == a[p := v] + b[p := w]
    ensures (a + b)[p := w] == a + b[p := w]
  {
  }

  lemma Prefixes(s: seq<Entry>, m: seq<Entry>)
    requires Ascending(s) && Ascending(m) && s != [] && m != []
    ensures Ascending(s[..|s| - 1]) && Ascending(m[..|m| - 1])
    ensures m[|m| - 1].mid < s[|s| - 1].mid ==> !Lists(m, s[|s| - 1].mid)
  {
  }

  lemma LastOfMap(s: seq<Entry>)
    requires Ascending(s) && s != []
    ensures var n := |s| - 1; ToMap(s) == ToMap(s[..n])[s[n].mid := s[n].mptr] && s[n].mid !in ToMap(s[..n])
  {
    InToMap(s[..|s| - 1], s[|s| - 1].mid);
  }

  /** An ascending list has as many entries as its map has keys. */
  lemma {:induction false} MapLength(s: seq<Entry>)
    requires Ascending(s)
    ensures |ToMap(s)| == |s|
  {
    if s != [] {
      var n := |s| - 1;
      MapLength(s[..n]);
      LastOfMap(s);
      assert ToMap(s) - {s[n].mid} == ToMap(s[..n]);
    }
  }

  // ------------------------------------------------------------ the length, with several ancestors

  /** The length of the merged list, counted down from the sum of both lengths by the pages
      that both lists hold. */
  method MergedLength(dst: array<Entry>, x: int, src: array<Entry>) returns (len: int)
    requires 0 <= x < dst.Length && dst[0].mid == 0 && Holds(src)
    requires Ascending(dst[1..x + 1]) && Ascending(Ents(src)) && Positive(Ents(src))
    ensures len == |Over(dst[1..x + 1], Ents(src))|
  {
    hide Over;
    ghost var s, m := dst[1..x + 1], Ents(src);
    len := x + src[0].mid;
    var y := Search(src, dst[x].mid + 1);
    y := y - 1;
    var i := x;
    assert s[..x] == s;
    DropLarger(s, m, y);
    while y > 0 && i > 0
      invariant 0 <= y <= |m| && 0 <= i <= x
      invariant |Over(s, m)| == |Over(s[..i], m[..y])| + len - i - y
      decreases y
    {
      var yp := src[y].mid;
      assert src[y] == m[y - 1];
      while yp < dst[i].mid
        invariant 0 <= i <= x
        invariant |Over(s, m)| == |Over(s[..i], m[..y])| + len - i - y
        decreases i
      {
        assert dst[i] == s[i - 1];
        OverStep(s, i, m, y);
        i := i - 1;
      }
      assert i > 0 ==> dst[i] == s[i - 1];
      OverStep(s, i, m, y);
      if yp == dst[i].mid {
        i := i - 1;
        len := len - 1;
      }
      y := y - 1;
    }
    OverStep(s, i, m, y);
  }

  lemma OverStep(s: seq<Entry>, i: nat, m: seq<Entry>, y: nat)
    requires i <= |s| && y <= |m|
    ensures y == 0 ==> Over(s[..i], m[..y]) == s[..i]
    ensures i == 0 ==> Over(s[..i], m[..y]) == m[..y]
    ensures i > 0 && y > 0 ==> var r := Over(s[..i], m[..y]);
      if m[y - 1].mid < s[i - 1].mid then r == Over(s[..i - 1], m[..y]) + [s[i - 1]]
      else if m[y - 1].mid == s[i - 1].mid then r == Over(s[..i - 1], m[..y - 1]) + [m[y - 1]]
      else r == Over(s[..i], m[..y - 1]) + [m[y - 1]]
    ensures i == 0 && y > 0 ==> Over(s[..i], m[..y]) == Over(s[..i], m[..y - 1]) + [m[y - 1]]
  {
    assert i > 0 ==> s[..i][..i - 1] == s[..i - 1];
    assert y > 0 ==> m[..y][..y - 1] == m[..y - 1];
  }

  lemma {:induction false} DropLarger(s: seq<Entry>, m: seq<Entry>, y: nat)
    requires y <= |m| && forall k | y <= k < |m| :: s != [] ==> m[k].mid > s[|s| - 1].mid
    ensures |Over(s, m)| == |Over(s, m[..y])| + |m| - y
  {
    if y < |m| {
      var n := |m| - 1;
      DropLarger(s, m[..n], y);
      assert m[..n][..y] == m[..y];
      assert s[..|s|] == s && m[..|m|] == m;
      OverStep(s, |s|, m, |m|);
    } else {
      assert m[..y] == m;
    }
  }

  // ------------------------------------------------------------ the merge

  /** The inner scan of the merge: moves the entries above page p at the end of the first
      `last` up by gap places.  The zero page number in d[0] stops it. */
  method ShiftAbove(d: array<Entry>, last: nat, gap: nat, p: int) returns (rest: nat)
    requires last + gap < d.Length && d[0].mid <= p
    modifies d
    ensures rest <= last && old(d[rest]).mid <= p
    ensures forall k | rest < k <= last :: old(d[k]).mid > p
    ensures forall k | rest + gap < k <= last + gap :: d[k] == old(d[k - gap])
    ensures forall k | 0 <= k < d.Length && !(rest + gap < k <= last + gap) :: d[k] == old(d[k])
  {
    rest := last;
    var i := last + gap;
    while p < d[rest].mid
      invariant rest <= last && i == rest + gap && d[rest] == old(d[rest])
      invariant forall k | rest < k <= last :: old(d[k]).mid > p
      invariant forall k | i < k <= last + gap :: d[k] == old(d[k - gap])
      invariant forall k | 0 <= k < d.Length && !(i < k <= last + gap) :: d[k] == old(d[k])
      decreases rest
    {
      d[i] := d[rest];
      i := i - 1;
      rest := rest - 1;
    }
  }

  /** One turn of the merge loop: the parent's entries above the child's entry e move up, and e
      is put below them, in place of the parent's entry for the same page if there is one. */
  method MergeEntry(dst: array<Entry>, e: Entry, x0: nat, i0: nat,
                    ghost orig: seq<Entry>, ghost s: seq<Entry>, ghost m: seq<Entry>, ghost y: nat) returns (x: nat, i: nat)
    requires Merging(orig, dst[..], s, m, x0, y, i0) && x0 <= i0 < dst.Length
    requires 0 < y <= |m| && e == m[y - 1] && e.mid > 0 && dst[0].mid == 0
    modifies dst
    ensures Merging(orig, dst[..], s, m, x, y - 1, i) && x <= i < i0 && dst[0].mid == 0
  {
    hide Over, Merging;
    ghost var before := dst[..];
    var rest := ShiftAbove(dst, x0, i0 - x0, e.mid);
    MergeStep(orig, before, dst[..], s, m, x0, y, i0, rest);
    i := rest + (i0 - x0);
    x := if e.mid == dst[rest].mid then rest - 1 else rest;
    dst[i] := e;
    i := i - 1;
  }

  /** The merge loop of the commit.  x is the length of the parent's list, whose count the
      caller has set to 0, and len the length of the result.  The loop ends with i == x. */
  method MergeLists(dst: array<Entry>, x0: nat, src: array<Entry>, len: nat)
    requires dst != src && x0 < dst.Length && dst[0].mid == 0 && Holds(src)
    requires Positive(Ents(src))
    requires len == |Over(dst[1..x0 + 1], Ents(src))| < dst.Length
    modifies dst
    ensures Holds(dst) && Ents(dst) == old(Over(dst[1..x0 + 1], Ents(src)))
  {
    hide Over, Merging;
    ghost var s, m, orig := dst[1..x0 + 1], Ents(src), dst[..];
    var x, y, i := x0, src[0].mid, len;
    MergeStart(orig, s, m);
    while y > 0
      invariant 0 <= y <= |m| && 0 <= x <= i <= len && dst[0].mid == 0
      invariant Merging(orig, dst[..], s, m, x, y, i)
      decreases y
    {
      assert src[y] == m[y - 1];
      x, i := MergeEntry(dst, src[y], x, i, orig, s, m, y);
      y := y - 1;
    }
    MergeEnd(orig, dst[..], s, m, x, i);
    assert i == x;
    dst[0] := dst[0].(mid := len);
    assert Ents(dst) == dst[..][1..len + 1];
  }

  lemma MergeStep(orig: seq<Entry>, v: seq<Entry>, w: seq<Entry>, s: seq<Entry>, m: seq<Entry>,
                  x: nat, y: nat, i: nat, rest: nat)
    requires Merging(orig, v, s, m, x, y, i) && rest <= x <= i && 0 < y <= |m| && |w| == |v|
    requires v[rest].mid <= m[y - 1].mid && v[0].mid == 0 < m[y - 1].mid
    requires forall k | rest < k <= x :: v[k].mid > m[y - 1].mid
    requires forall k | rest + (i - x) < k <= i :: w[k] == v[k - (i - x)]
    requires forall k | 0 <= k < |w| && !(rest + (i - x) < k <= i) :: w[k] == v[k]
    ensures w[rest] == v[rest] && 0 < rest + (i - x) <= i < |v|
    ensures var j, x' := rest + (i - x), if m[y - 1].mid == w[rest].mid then rest - 1 else rest;
      0 <= x' < j && Merging(orig, w[j := m[y - 1]], s, m, x', y - 1, j - 1)
  {
    hide Over;
    AfterShift(orig, v, w, s, m, x, y, i, rest);
    Placed(orig, w, s, m, rest, y, rest + (i - x));
  }

  /** The buffer v when the first x entries of s and y entries of m are still to be merged
      into its first i places. */
  ghost predicate Merging(orig: seq<Entry>, v: seq<Entry>, s: seq<Entry>, m: seq<Entry>, x: nat, y: nat, i: nat) {
    var len := |Over(s, m)|;
    && x <= |s| && y <= |m| && len < |v| == |orig|
    && i == |Over(s[..x], m[..y])| && i <= len
    && v[1..x + 1] == s[..x]
    && Over(s, m) == Over(s[..x], m[..y]) + v[i + 1..len + 1]
  }

  lemma MergeStart(orig: seq<Entry>, s: seq<Entry>, m: seq<Entry>)
    requires |s| < |orig| && s == orig[1..|s| + 1] && |Over(s, m)| < |orig|
    ensures Merging(orig, orig, s, m, |s|, |m|, |Over(s, m)|)
  {
    hide Over;
    assert s[..|s|] == s && m[..|m|] == m;
  }

  lemma MergeEnd(orig: seq<Entry>, v: seq<Entry>, s: seq<Entry>, m: seq<Entry>, x: nat, i: nat)
    requires Merging(orig, v, s, m, x, 0, i)
    ensures i == x && v[1..|Over(s, m)| + 1] == Over(s, m)
  {
    hide Over;
    OverStep(s, x, m, 0);
    assert v[1..|Over(s, m)| + 1] == v[1..x + 1] + v[x + 1..|Over(s, m)| + 1];
  }

  lemma AfterShift(orig: seq<Entry>, v: seq<Entry>, w: seq<Entry>, s: seq<Entry>, m: seq<Entry>,
                   x: nat, y: nat, i: nat, rest: nat)
    requires Merging(orig, v, s, m, x, y, i) && rest <= x <= i && 0 < y && |w| == |v|
    requires forall k | rest < k <= x :: v[k].mid > m[y - 1].mid
    requires forall k | rest + (i - x) < k <= i :: w[k] == v[k - (i - x)]
    requires forall k | 0 <= k < |w| && !(rest + (i - x) < k <= i) :: w[k] == v[k]
    ensures Merging(orig, w, s, m, rest, y, rest + (i - x))
    ensures rest > 0 ==> w[rest] == s[rest - 1]
  {
    hide Over;
    OverDrops(s, rest, x, m, y);
    Moved(v, w, rest, x, i, |Over(s, m)| + 1);
    assert forall k | 0 <= k < x :: s[k] == s[..x][k] == v[1..x + 1][k] == v[k + 1];
    assert s[..rest] == s[..x][..rest] && s[rest..x] == s[..x][rest..];
  }

  lemma Moved(v: seq<Entry>, w: seq<Entry>, rest: nat, x: nat, i: nat, end: nat)
    requires rest <= x <= i < end <= |v| == |w|
    requires forall k | rest + (i - x) < k <= i :: w[k] == v[k - (i - x)]
    requires forall k | 0 <= k < |w| && !(rest + (i - x) < k <= i) :: w[k] == v[k]
    ensures w[1..rest + 1] == v[1..x + 1][..rest]
    ensures w[rest + (i - x) + 1..end] == v[1..x + 1][rest..] + v[i + 1..end]
  {
  }

  lemma {:induction false} OverDrops(s: seq<Entry>, rest: nat, x: nat, m: seq<Entry>, y: nat)
    requires rest <= x <= |s| && 0 < y <= |m| && forall k | rest <= k < x :: s[k].mid > m[y - 1].mid
    ensures Over(s[..x], m[..y]) == Over(s[..rest], m[..y]) + s[rest..x]
    decreases x
  {
    hide Over;
    if rest < x {
      OverStep(s, x, m, y);
      OverDrops(s, rest, x - 1, m, y);
      assert s[rest..x] == s[rest..x - 1] + [s[x - 1]];
    }
  }

  lemma Placed(orig: seq<Entry>, v: seq<Entry>, s: seq<Entry>, m: seq<Entry>, x: nat, y: nat, i: nat)
    requires Merging(orig, v, s, m, x, y, i) && 0 < y && (x > 0 ==> s[x - 1].mid <= m[y - 1].mid)
    ensures i > 0
    ensures var x' := if x > 0 && s[x - 1].mid == m[y - 1].mid then x - 1 else x;
      x' < i < |v| && Merging(orig, v[i := m[y - 1]], s, m, x', y - 1, i - 1)
  {
    hide Over;
    OverStep(s, x, m, y);
    var x' := if x > 0 && s[x - 1].mid == m[y - 1].mid then x - 1 else x;
    var len, w := |Over(s, m)|, v[i := m[y - 1]];
    assert w[i..len + 1] == [m[y - 1]] + v[i + 1..len + 1];
    assert forall k | 0 <= k < x' :: s[..x'][k] == s[..x][k] == v[1..x + 1][k] == w[1..x' + 1][k];
    assert w[1..x' + 1] == s[..x'];
  }
}
