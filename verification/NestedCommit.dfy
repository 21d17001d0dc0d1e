/** Commit of a nested transaction: its dirty list and spill list are merged, in place, into
    those of its parent. */
module NestedCommit {
  import opened IdList
  import opened DirtyList
  import opened SpillList
  import opened NestedMerge
  import NestedTxn
  import MidlSort

  /** Twice a page number is an id. */
  ghost predicate Small(m: seq<Entry>) {
    forall i | 0 <= i < |m| :: 0 < m[i].mid && 2 * m[i].mid <= MAX_ID
  }

  // ------------------------------------------------------------ the parent's spill list

  /** The inner scan: from position x down to the first entry that is not below pn.  The
      all-ones id in sp[0] stops it. */
  method ScanSpill(sp: array<int>, last: nat, pn: int) returns (x: nat)
    requires last < sp.Length && pn <= sp[0]
    ensures x <= last && sp[x] >= pn
    ensures forall k | x < k <= last :: sp[k] < pn
  {
    x := last;
    while pn > sp[x]
      invariant x <= last
      invariant forall k | x < k <= last :: sp[k] < pn
      decreases x
    {
      x := x - 1;
    }
  }

  /** Overwrites the parent's spill entries of the pages in the child's dirty list.  Both
      lists are walked from their small ends.  y is below every entry overwritten. */
  method MarkSpilled(sp: array<int>, src: array<Entry>, n: nat) returns (y: nat)
    requires n < sp.Length && Ordered(sp[1..n + 1])
    requires Holds(src) && Ascending(Ents(src)) && Small(Ents(src))
    modifies sp
    ensures y <= n && sp[1..y + 1] == old(sp[1..y + 1])
    ensures Marked(old(sp[1..n + 1]), sp[1..n + 1], ToMap(Ents(src)).Keys)
  {
    hide ToMap, Ordered, Marking, Marked, Ascending;
    ghost var s, m := sp[1..n + 1], Ents(src);
    var x := n;
    y := n;
    sp[0] := MAX_ID;
    MarkStart(s, m, sp[..]);
    var i := 0;
    while i < src[0].mid
      invariant 0 <= i <= |m| && 0 <= x <= y <= n && sp[0] == MAX_ID
      invariant Marking(s, m, sp[..], i, x, y)
    {
      i := i + 1;
      var pn := 2 * src[i].mid;
      assert src[i] == m[i - 1];
      ghost var before := sp[..];
      ghost var last := x;
      x := ScanSpill(sp, x, pn);
      MarkStep(s, m, before, i, last, y, x);
      if pn == sp[x] {
        sp[x] := 1;
        x := x - 1;
        y := x;
      }
    }
    MarkEnd(s, m, sp[..], x, y);
    assert sp[1..y + 1] == sp[..][1..y + 1] && s[..y] == old(sp[1..y + 1]);
    assert sp[1..n + 1] == sp[..][1..n + 1];
  }

  /** Where the walk stands: v is the buffer, the first i entries of m are dealt with, which
      concerned the entries of s behind position x. */
  ghost predicate Marking(s: seq<int>, m: seq<Entry>, v: seq<int>, i: nat, x: nat, y: nat) {
    && i <= |m| && x <= y <= |s| < |v|
    && (forall k | x < k <= |s| :: v[k] == Mark(s[k - 1], ToMap(m).Keys))
    && (forall k | 1 <= k <= y :: v[k] == s[k - 1])
    && (x > 0 && i > 0 ==> s[x - 1] > 2 * m[i - 1].mid)
  }

  lemma MarkStart(s: seq<int>, m: seq<Entry>, v: seq<int>)
    requires |s| < |v| && v[1..|s| + 1] == s
    ensures Marking(s, m, v, 0, |s|, |s|)
  {
    assert forall k | 1 <= k <= |s| :: v[k] == v[1..|s| + 1][k - 1];
  }

  lemma MarkEnd(s: seq<int>, m: seq<Entry>, v: seq<int>, x: nat, y: nat)
    requires Marking(s, m, v, |m|, x, y) && Ordered(s) && Ascending(m)
    ensures Marked(s, v[1..|s| + 1], ToMap(m).Keys) && v[1..y + 1] == s[..y]
  {
    hide ToMap;
    OrderedDescends(s);
    forall k | 0 <= k < x
      ensures Mark(s[k], ToMap(m).Keys) == s[k]
    {
      Beyond(m, s[k]);
    }
    var t := v[1..|s| + 1];
    assert forall k | 0 <= k < |s| :: t[k] == v[k + 1];
  }

  lemma MarkStep(s: seq<int>, m: seq<Entry>, v: seq<int>, i: nat, last: nat, y: nat, x: nat)
    requires 0 < i <= |m| && Marking(s, m, v, i - 1, last, y) && Ordered(s) && Ascending(m) && x <= last
    requires Small(m) && v[0] == MAX_ID && v[x] >= 2 * m[i - 1].mid
    requires forall k | x < k <= last :: v[k] < 2 * m[i - 1].mid
    ensures v[x] != 2 * m[i - 1].mid ==> Marking(s, m, v, i, x, y)
    ensures v[x] == 2 * m[i - 1].mid ==> x > 0 && Marking(s, m, v[x := 1], i, x - 1, x - 1)
  {
    hide ToMap;
    OrderedDescends(s);
    forall k | x <= k < last
      ensures Mark(s[k], ToMap(m).Keys) == s[k]
    {
      assert v[k + 1] == s[k];
      Between(m, i - 1, s[k]);
    }
    if v[x] == 2 * m[i - 1].mid {
      InToMap(m, m[i - 1].mid);
      if x > 0 {
        BelowEven(s, x - 1);
      }
    }
  }

  lemma OrderedDescends(s: seq<int>)
    requires Ordered(s)
    ensures forall j, k | 0 <= j <= k < |s| :: s[j] >= s[k]
  {
  }

  lemma BelowEven(s: seq<int>, x: int)
    requires Ordered(s) && 0 <= x < |s| && Even(s[x])
    ensures forall k | 0 <= k < x :: s[k] > s[x]
  {
    assert forall k | 0 <= k < x :: s[k] >= s[x];
    assert forall k | 0 <= k < x && s[k] == s[x] :: Even(s[k]);
  }

  lemma Between(m: seq<Entry>, i: nat, q: int)
    requires Ascending(m) && i < |m| && q < 2 * m[i].mid && (i > 0 ==> 2 * m[i - 1].mid < q)
    ensures Mark(q, ToMap(m).Keys) == q
  {
    InToMap(m, q / 2);
    assert forall k | 0 <= k < i :: m[k].mid <= m[i - 1].mid;
    assert forall k | i <= k < |m| :: m[k].mid >= m[i].mid;
  }

  lemma Beyond(m: seq<Entry>, q: int)
    requires Ascending(m) && forall i | 0 <= i < |m| && i == |m| - 1 :: 2 * m[i].mid < q
    ensures Mark(q, ToMap(m).Keys) == q
  {
    InToMap(m, q / 2);
    assert forall k | 0 <= k < |m| :: m[k].mid <= m[|m| - 1].mid;
  }

  /** Squashes the entries marked as deleted behind position y. */
  method Squash(sp: array<int>, y0: nat, n: nat) returns (y: nat)
    requires y0 <= n < sp.Length
    modifies sp
    ensures y <= n && sp[1..y + 1] == old(sp[1..y0 + 1] + Evens(sp[y0 + 1..n + 1]))
  {
    hide Evens, Squashing;
    ghost var t := sp[..];
    y := y0;
    var x := y0;
    SquashStart(t, y0);
    while x < n
      invariant y0 <= y <= x <= n
      invariant Squashing(t, sp[..], y0, x, y)
    {
      SquashStep(t, sp[..], y0, x, y);
      x := x + 1;
      if sp[x] % 2 == 0 {
        y := y + 1;
        sp[y] := sp[x];
      }
    }
    SquashEnd(t, sp[..], y0, n, y);
    assert sp[1..y + 1] == sp[..][1..y + 1];
    assert old(sp[1..y0 + 1]) == t[1..y0 + 1] && old(sp[y0 + 1..n + 1]) == t[y0 + 1..n + 1];
  }

  ghost predicate Squashing(t: seq<int>, v: seq<int>, y0: nat, x: nat, y: nat) {
    && y0 <= y <= x < |t| == |v|
    && v[1..y0 + 1] == t[1..y0 + 1]
    && v[y0 + 1..y + 1] == Evens(t[y0 + 1..x + 1])
    && v[x + 1..] == t[x + 1..]
  }

  lemma SquashStart(t: seq<int>, y0: nat)
    requires y0 < |t|
    ensures Squashing(t, t, y0, y0, y0)
  {
  }

  lemma SquashStep(t: seq<int>, v: seq<int>, y0: nat, x: nat, y: nat)
    requires Squashing(t, v, y0, x, y) && x + 1 < |t|
    ensures Even(v[x + 1]) ==> Squashing(t, v[y + 1 := v[x + 1]], y0, x + 1, y + 1)
    ensures !Even(v[x + 1]) ==> Squashing(t, v, y0, x + 1, y)
  {
    var done, q := t[y0 + 1..x + 1], t[x + 1];
    assert v[x + 1] == v[x + 1..][0] == t[x + 1..][0] == q;
    assert t[y0 + 1..x + 2] == done + [q] && (done + [q])[..|done|] == done;
    assert v[x + 2..] == v[x + 1..][1..] && t[x + 2..] == t[x + 1..][1..];
    var w := v[y + 1 := q];
    assert w[y0 + 1..y + 2] == v[y0 + 1..y + 1] + [q];
    assert w[1..y0 + 1] == v[1..y0 + 1] && w[x + 2..] == v[x + 2..];
  }

  lemma SquashEnd(t: seq<int>, v: seq<int>, y0: nat, n: nat, y: nat)
    requires Squashing(t, v, y0, n, y)
    ensures v[1..y + 1] == t[1..y0 + 1] + Evens(t[y0 + 1..n + 1])
  {
    assert v[1..y + 1] == v[1..y0 + 1] + v[y0 + 1..y + 1];
  }

  // ------------------------------------------------------------ the parent's dirty list

  /** Takes entry y out of a dirty list. */
  method Remove(d: array<Entry>, y0: int)
    requires Holds(d) && 1 <= y0 <= d[0].mid
    modifies d
    ensures Holds(d) && Ents(d) == old(Ents(d)[..y0 - 1] + Ents(d)[y0..])
  {
    ghost var before, count := d[..], d[0].mid;
    var y := y0;
    while y < d[0].mid
      invariant y0 <= y <= d[0].mid == count
      invariant forall k | y0 <= k < y :: d[k] == before[k + 1]
      invariant forall k | 0 <= k < d.Length && !(y0 <= k < y) :: d[k] == before[k]
    {
      d[y] := d[y + 1];
      y := y + 1;
    }
    ghost var after := d[..];
    d[0] := d[0].(mid := d[0].mid - 1);
    Removed(before, after, y0, count);
    assert Ents(d) == after[1..count];
  }

  lemma Removed(before: seq<Entry>, after: seq<Entry>, y: nat, count: nat)
    requires 1 <= y <= count < |before| == |after|
    requires forall k | y <= k < count :: after[k] == before[k + 1]
    requires forall k | 1 <= k < y :: after[k] == before[k]
    ensures after[1..count] == before[1..count + 1][..y - 1] + before[1..count + 1][y..]
  {
  }

  lemma {:induction false} RemovedMap(s: seq<Entry>, c: nat)
    requires Ascending(s) && c < |s|
    ensures Ascending(s[..c] + s[c + 1..])
    ensures ToMap(s[..c] + s[c + 1..]) == ToMap(s) - {s[c].mid}
    decreases |s|
  {
    hide ToMap;
    var n := |s| - 1;
    LastOfMap(s);
    if c == n {
      assert s[..c] + s[c + 1..] == s[..n];
      DropLast(ToMap(s[..n]), s[n]);
    } else {
      RemovedMap(s[..n], c);
      assert s[..c] + s[c + 1..] == (s[..n][..c] + s[..n][c + 1..]) + [s[n]];
      ToMapAppend(s[..n][..c] + s[..n][c + 1..], s[n]);
      DropOther(ToMap(s[..n]), s[n], s[c].mid);
    }
  }

  lemma DropLast(m: map<int, int>, e: Entry)
    requires e.mid !in m
    ensures m[e.mid := e.mptr] - {e.mid} == m
  {
  }

  lemma DropOther(m: map<int, int>, e: Entry, p: int)
    requires p != e.mid
    ensures m[e.mid := e.mptr] - {p} == (m - {p})[e.mid := e.mptr]
  {
  }

  /** Takes the pages that the child spilled out of the parent's dirty list. */
  method PruneDirty(dst: array<Entry>, sp: array<int>)
    requires Holds(dst) && Ascending(Ents(dst)) && Fits(sp)
    modifies dst
    ensures Holds(dst) && Ascending(Ents(dst))
    ensures ToMap(Ents(dst)) == old(ToMap(Ents(dst))) - Pages(Ids(sp))
  {
    hide ToMap, Pages, Ascending;
    ghost var q, before := Ids(sp), ToMap(Ents(dst));
    PagesStart(q);
    var i := 1;
    while i <= sp[0]
      invariant 1 <= i <= sp[0] + 1 && Holds(dst) && Ascending(Ents(dst))
      invariant ToMap(Ents(dst)) == before - Pages(q[..i - 1])
    {
      var pn := sp[i];
      assert pn == q[i - 1];
      PagesStep(q, i - 1);
      if pn % 2 == 0 {
        ghost var s := Ents(dst);
        var y := DirtyList.Search(dst, pn / 2);
        assert forall k | 0 <= k < |s| :: s[k] == dst[k + 1];
        Listed(s, y - 1, Entry(pn / 2, 0));
        if y <= dst[0].mid && dst[y].mid == pn / 2 {
          RemovedMap(s, y - 1);
          Remove(dst, y);
        }
      }
      i := i + 1;
    }
    assert q[..sp[0]] == q;
  }

  lemma PagesStart(q: seq<int>)
    ensures Pages(q[..0]) == {}
  {
  }

  lemma PagesStep(q: seq<int>, i: nat)
    requires i < |q|
    ensures Pages(q[..i + 1]) == Pages(q[..i]) + if Even(q[i]) then {q[i] / 2} else {}
  {
    forall p
      ensures p in Pages(q[..i + 1]) <==> p in Pages(q[..i]) || (Even(q[i]) && q[i] / 2 == p)
    {
      PagesOf(q[..i + 1], p);
      PagesOf(q[..i], p);
      assert q[..i + 1] == q[..i] + [q[i]];
    }
  }

  // ------------------------------------------------------------ the commit

  /** mdb_midl_grow. */
  method Grow(a: array<int>, num: nat) returns (r: array<int>)
    requires Fits(a)
    ensures fresh(r) && r.Length == a.Length + num && Fits(r) && Ids(r) == Ids(a)
  {
    r := new int[a.Length + num];
    forall k | 0 <= k < a.Length {
      r[k] := a[k];
    }
    assert r[1..r[0] + 1] == a[1..a[0] + 1];
  }

  /** mdb_midl_append_list, with the growing of the list when it is too long. */
  method AppendList(a: array<int>, b: array<int>) returns (r: array<int>)
    requires Fits(a) && Fits(b) && a != b
    modifies a
    ensures (r == a || fresh(r)) && r != b && Fits(r) && Ids(r) == old(Ids(a)) + Ids(b)
  {
    r := a;
    if a[0] + b[0] >= a.Length {
      r := Grow(a, b[0]);
    }
    CopyBehind(r, b);
  }

  method CopyBehind(r: array<int>, b: array<int>)
    requires Fits(r) && Fits(b) && r != b && r[0] + b[0] < r.Length
    modifies r
    ensures Fits(r) && Ids(r) == old(Ids(r)) + Ids(b)
  {
    ghost var v, q := r[..], Ids(b);
    var n := r[0];
    forall k | 1 <= k <= b[0] {
      r[n + k] := b[k];
    }
    r[0] := n + b[0];
    IdsBehind(v, r[..], n, q);
  }

  lemma IdsBehind(v: seq<int>, w: seq<int>, n: nat, q: seq<int>)
    requires |v| == |w| && n + |q| < |v|
    requires forall k | 1 <= k <= n :: w[k] == v[k]
    requires forall k | n < k <= n + |q| :: w[k] == q[k - n - 1]
    ensures w[1..n + |q| + 1] == v[1..n + 1] + q
  {
  }

  /** Removes what the child holds dirty from the parent's spill list. */
  method PruneSpill(sp: array<int>, src: array<Entry>)
    requires Fits(sp) && Ordered(Ids(sp))
    requires Holds(src) && Ascending(Ents(src)) && Small(Ents(src))
    modifies sp
    ensures Fits(sp) && sp[0] <= old(sp[0]) && Ordered(Ids(sp))
    ensures Pages(Ids(sp)) == old(Pages(Ids(sp))) - ToMap(Ents(src)).Keys
  {
    hide ToMap, Pages, Ordered, Evens, Marked, Ascending;
    ghost var s, gone := Ids(sp), ToMap(Ents(src)).Keys;
    var n := sp[0];
    if n > 0 {
      var y := MarkSpilled(sp, src, n);
      ghost var t := sp[1..n + 1];
      assert sp[1..y + 1] == t[..y] && sp[y + 1..n + 1] == t[y..] && t[..y] == s[..y];
      MarkedPages(s, t, gone);
      SquashedPages(t, y);
      SquashedOrdered(s, t, gone, y);
      y := Squash(sp, y, n);
      sp[0] := y;
      assert Ids(sp) == sp[1..y + 1];
    } else {
      NoPages(s);
    }
  }

  lemma NoPages(s: seq<int>)
    requires s == []
    ensures Pages(s) == {}
  {
  }

  lemma SmallKeys(s: seq<Entry>)
    ensures Small(s) <==> SmallPages(ToMap(s).Keys)
  {
    forall p
      ensures p in ToMap(s) <==> Lists(s, p)
    {
      InToMap(s, p);
    }
    assert forall i | 0 <= i < |s| :: Lists(s, s[i].mid);
  }

  ghost predicate SmallPages(ps: set<int>) {
    forall p | p in ps :: 0 < p && 2 * p <= MAX_ID
  }

  /** Removes what the child spilled from the parent's dirty list and merges the child's
      list into it.  With a single ancestor the length of the result is taken from the
      room left. */
  method MergeDirty(dst: array<Entry>, src: array<Entry>, sp: array<int>, single: bool, room: int,
                    ghost t: NestedTxn.Txn<int>)
    requires dst != src && Holds(dst) && dst.Length == UM_MAX + 1 && Holds(src) && Fits(sp)
    requires Ascending(Ents(dst)) && Ascending(Ents(src)) && Small(Ents(dst)) && Small(Ents(src))
    requires t.Txn? && t.parent.Txn? && NestedTxn.Ok(t) && room == t.room && single == t.parent.parent.Root?
    requires ToMap(Ents(src)) == t.dirty && Pages(Ids(sp)) == t.spill && ToMap(Ents(dst)) == t.parent.dirty
    modifies dst
    ensures Holds(dst) && Ascending(Ents(dst)) && Small(Ents(dst))
    ensures ToMap(Ents(dst)) == NestedTxn.Merged(t).dirty
  {
    hide ToMap, Pages, Ascending, Over, NestedTxn.Ok;
    SmallKeys(Ents(dst));
    SmallKeys(Ents(src));
    if sp[0] > 0 {
      PruneDirty(dst, sp);
    } else {
      NoPages(Ids(sp));
    }
    ghost var s, m := Ents(dst), Ents(src);
    var x := dst[0].mid;
    dst[0] := dst[0].(mid := 0);
    assert dst[1..x + 1] == s;
    MergedLists(t, s, m);
    var len := UM_MAX - room;
    if !single {
      len := MergedLength(dst, x, src);
    }
    MergeLists(dst, x, src, len);
  }

  lemma MergedLists(t: NestedTxn.Txn<int>, s: seq<Entry>, m: seq<Entry>)
    requires t.Txn? && t.parent.Txn? && NestedTxn.Ok(t)
    requires Ascending(s) && Ascending(m) && SmallPages(t.parent.dirty.Keys) && SmallPages(t.dirty.Keys)
    requires ToMap(s) == t.parent.dirty - t.spill && ToMap(m) == t.dirty
    ensures ToMap(Over(s, m)) == NestedTxn.Merged(t).dirty && Ascending(Over(s, m)) && Small(Over(s, m))
    ensures |Over(s, m)| <= UM_MAX
    ensures t.parent.parent.Root? ==> |Over(s, m)| == UM_MAX - t.room
  {
    hide ToMap, Ascending, Over, NestedTxn.Ok, NestedTxn.Visible;
    OverAscends(s, m);
    OverIsOverride(s, m);
    MapLength(Over(s, m));
    NestedTxn.MergedLength(t);
    SmallKeys(Over(s, m));
  }

  /** Appends the child's spill list to the parent's and sorts it; ok is that of the sort, which
      can only fail for lists that are too long together for positions in C ints. */
  method JoinSpill(a: array<int>, b: array<int>) returns (r: array<int>, ok: bool)
    requires a != b && Fits(a) && Fits(b) && Ordered(Ids(a)) && Ordered(Ids(b))
    requires Pages(Ids(a)) !! Pages(Ids(b))
    modifies a
    ensures (r == a || fresh(r)) && r != b && Fits(r)
    ensures ok <==> !MidlSort.SumOverflows(old(Ids(a)) + Ids(b), 1)
    ensures 2 * (|old(Ids(a))| + |Ids(b)|) <= MidlSort.INT_MAX + MidlSort.SMALL ==> ok
    ensures ok ==> Ordered(Ids(r)) && Pages(Ids(r)) == old(Pages(Ids(a))) + Pages(Ids(b))
  {
    hide Pages, Ordered, MidlSort.SumOverflows, MidlSort.Permuted, MidlSort.Descending;
    ghost var s, q := Ids(a), Ids(b);
    r := AppendList(a, b);
    ghost var n, v := r[0], r[..];
    assert MidlSort.Part(v, 1, n) == s + q;
    ok := MidlSort.Sort(r);
    ShortSorts(s + q);
    if ok {
      JoinedList(s, q, v, r[..], n);
      assert Ids(r) == r[..][1..n + 1];
    }
  }

  lemma JoinedList(s: seq<int>, q: seq<int>, v: seq<int>, w: seq<int>, n: nat)
    requires Ordered(s) && Ordered(q) && Pages(s) !! Pages(q)
    requires n < |v| && v[1..n + 1] == s + q && MidlSort.Permuted(v, w, 1, n) && MidlSort.Descending(w, 1, n)
    ensures Ordered(w[1..n + 1]) && Pages(w[1..n + 1]) == Pages(s) + Pages(q)
  {
    SortedList(v, w, n);
    SortedAppend(s, q, w[1..n + 1]);
  }

  lemma SortedList(v: seq<int>, w: seq<int>, n: nat)
    requires n < |v| && MidlSort.Permuted(v, w, 1, n) && MidlSort.Descending(w, 1, n)
    ensures IdList.Descending(w[1..n + 1]) && multiset(w[1..n + 1]) == multiset(v[1..n + 1])
  {
  }

  lemma ShortSorts(p: seq<int>)
    ensures 2 * |p| <= MidlSort.INT_MAX + MidlSort.SMALL ==> !MidlSort.SumOverflows(p, 1)
  {
    if 2 * |p| <= MidlSort.INT_MAX + MidlSort.SMALL {
      MidlSort.ShortNeverOverflows(p, 1);
    }
  }

  /** The two lists of a transaction and its mt_dirty_room.  A spill list that the source has
      not allocated yet is an empty one. */
  class TxnLists {
    var dirty: array<Entry>
    var spill: array<int>
    var room: int

    ghost predicate Valid()
      reads this, dirty, spill
    {
      && Holds(dirty) && dirty.Length == UM_MAX + 1 && Ascending(Ents(dirty)) && Small(Ents(dirty))
      && Fits(spill) && Ordered(Ids(spill))
    }

    ghost predicate Represents(t: NestedTxn.Txn<int>)
      requires Valid()
      reads this, dirty, spill
    {
      && t.Txn? && ToMap(Ents(dirty)) == t.dirty && Pages(Ids(spill)) == t.spill && room == t.room
    }

    /** The lists' part of the commit of a nested transaction.  single says that the parent
        has no parent itself; ok is that of the sort. */
    method CommitInto(up: TxnLists, single: bool, ghost t: NestedTxn.Txn<int>) returns (ok: bool)
      requires Valid() && up.Valid() && this != up && dirty != up.dirty && spill != up.spill
      requires NestedTxn.Ok(t) && Represents(t) && t.parent.Txn? && up.Represents(t.parent)
      requires single == t.parent.parent.Root?
      modifies up, up.dirty, up.spill
      ensures ok ==> up.Valid() && up.Represents(NestedTxn.Merged(t))
      ensures 2 * (spill[0] + old(up.spill[0])) <= MidlSort.INT_MAX + MidlSort.SMALL ==> ok
    {
      hide ToMap, Pages, Ordered, Ascending, Small, NestedTxn.Ok, NestedTxn.Lists, NestedTxn.Room, MidlSort.SumOverflows;
      NestedTxn.SpillDisjoint(t);
      PruneSpill(up.spill, dirty);
      MergeDirty(up.dirty, dirty, spill, single, room, t);
      up.room := room;
      up.spill, ok := JoinSpill(up.spill, spill);
    }
  }
}
