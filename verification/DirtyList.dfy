/** Dirty lists: pairs of page number and page address in ascending order behind a count,
    and what the commit of a nested transaction does to the lists of the parent, in place. */
module DirtyList {
  import opened IdList

  datatype Entry = Entry(mid: int, mptr: int)

  predicate Holds(d: array<Entry>)
    reads d
  {
    d.Length > 0 && 0 <= d[0].mid < d.Length
  }

  function Ents(d: array<Entry>): seq<Entry>
    requires Holds(d)
    reads d
  {
    d[1..d[0].mid + 1]
  }

  ghost predicate Ascending(s: seq<Entry>) {
    forall i, j | 0 <= i < j < |s| :: s[i].mid < s[j].mid
  }

  ghost predicate Positive(s: seq<Entry>) {
    forall i | 0 <= i < |s| :: s[i].mid > 0
  }

  /** The list as the map of its page numbers. */
  ghost function ToMap(s: seq<Entry>): map<int, int> {
    if s == [] then map[] else ToMap(s[..|s| - 1])[s[|s| - 1].mid := s[|s| - 1].mptr]
  }

  ghost predicate Lists(s: seq<Entry>, p: int) {
    exists i :: 0 <= i < |s| && s[i].mid == p
  }

  lemma {:induction false} InToMap(s: seq<Entry>, p: int)
    ensures p in ToMap(s) <==> Lists(s, p)
  {
    if s != [] {
      var n := |s| - 1;
      InToMap(s[..n], p);
      if Lists(s[..n], p) {
        var i :| 0 <= i < n && s[..n][i].mid == p;
        assert s[i].mid == p;
      }
      if Lists(s, p) {
        var i :| 0 <= i < |s| && s[i].mid == p;
        assert i < n ==> s[..n][i].mid == p;
      }
    }
  }

  lemma ToMapAppend(s: seq<Entry>, e: Entry)
    ensures ToMap(s + [e]) == ToMap(s)[e.mid := e.mptr]
  {
    assert (s + [e])[..|s|] == s;
  }

  // ------------------------------------------------------------ search and insertion

  /** mdb_mid2l_search: the first position whose page number is not below id. */
  method Search(d: array<Entry>, id: int) returns (cursor: int)
    requires Holds(d) && Ascending(Ents(d))
    ensures 1 <= cursor <= d[0].mid + 1
    ensures forall k | 1 <= k < cursor :: d[k].mid < id
    ensures forall k | cursor <= k <= d[0].mid :: d[k].mid >= id
  {
    var base := 0;
    cursor := 1;
    var val := 0;
    var n: int := d[0].mid;
    assert forall i, j | 1 <= i < j <= d[0].mid :: d[i].mid < d[j].mid by {
      forall i, j | 1 <= i < j <= d[0].mid
        ensures d[i].mid < d[j].mid
      {
        assert Ents(d)[i - 1] == d[i] && Ents(d)[j - 1] == d[j];
      }
    }
    while 0 < n
      invariant 0 <= base && 0 <= n && base + n <= d[0].mid
      invariant forall k | 1 <= k <= base :: d[k].mid < id
      invariant forall k | base + n < k <= d[0].mid :: d[k].mid > id
      invariant 1 <= cursor && (n == 0 ==> cursor == (if val > 0 then base else base + 1))
      invariant d[0].mid == 0 ==> cursor == 1 && val == 0
      decreases n
    {
      var pivot := n / 2;
      cursor := base + pivot + 1;
      val := if id < d[cursor].mid then -1 else if id > d[cursor].mid then 1 else 0;
      if val < 0 {
        n := pivot;
      } else if val > 0 {
        base := cursor;
        n := n - (pivot + 1);
      } else {
        return;
      }
    }
    if val > 0 {
      cursor := cursor + 1;
    }
  }

  /** mdb_mid2l_insert: -1 for a page already listed, -2 for a full list, else the entry is
      put where it belongs. */
  method Insert(d: array<Entry>, e: Entry) returns (rc: int)
    requires Holds(d) && Ascending(Ents(d)) && UM_MAX < d.Length
    modifies d
    ensures Holds(d)
    ensures rc == (if e.mid in old(ToMap(Ents(d))) then -1 else if old(d[0].mid) >= UM_MAX then -2 else 0)
    ensures rc == 0 ==> Ascending(Ents(d)) && ToMap(Ents(d)) == old(ToMap(Ents(d)))[e.mid := e.mptr]
    ensures rc != 0 ==> d[..] == old(d[..])
  {
    hide Ascending, ToMap;
    ghost var s := Ents(d);
    var x := Search(d, e.mid);
    assert forall k | 0 <= k < |s| :: s[k] == d[k + 1];
    Listed(s, x - 1, e);
    if x <= d[0].mid && d[x].mid == e.mid {
      return -1;
    }
    if d[0].mid >= UM_MAX {
      return -2;
    }
    ghost var before := d[..];
    var count := d[0].mid + 1;
    d[0] := d[0].(mid := count);
    ShiftUp(d, x, count);
    d[x] := e;
    Inserted(before, d[..], s, x, count, e);
    assert Ents(d) == d[..][1..count + 1];
    return 0;
  }

  method ShiftUp(d: array<Entry>, x: int, count: int)
    requires 1 <= x <= count < d.Length
    modifies d
    ensures forall k | 0 <= k < d.Length && !(x < k <= count) :: d[k] == old(d[k])
    ensures forall k | x < k <= count :: d[k] == old(d[k - 1])
  {
    var i := count;
    while i > x
      invariant x <= i <= count
      invariant forall k | 0 <= k < d.Length && !(i < k <= count) :: d[k] == old(d[k])
      invariant forall k | i < k <= count :: d[k] == old(d[k - 1])
    {
      d[i] := d[i - 1];
      i := i - 1;
    }
  }

  lemma Listed(s: seq<Entry>, x: int, e: Entry)
    requires 0 <= x <= |s|
    requires forall k | 0 <= k < x :: s[k].mid < e.mid
    requires forall k | x <= k < |s| :: s[k].mid >= e.mid
    requires Ascending(s)
    ensures e.mid in ToMap(s) <==> x < |s| && s[x].mid == e.mid
  {
    InToMap(s, e.mid);
    assert forall k | x < k < |s| :: s[k].mid > s[x].mid;
  }

  lemma Inserted(before: seq<Entry>, after: seq<Entry>, s: seq<Entry>, x: int, count: int, e: Entry)
    requires 1 <= x <= count < |before| == |after| && count == |s| + 1 && s == before[1..count]
    requires Ascending(s) && e.mid !in ToMap(s)
    requires forall k | 0 <= k < x - 1 :: s[k].mid < e.mid
    requires forall k | x - 1 <= k < |s| :: s[k].mid >= e.mid
    requires forall k | 1 <= k < x :: after[k] == before[k]
    requires forall k | x < k <= count :: after[k] == before[k - 1]
    requires after[x] == e
    ensures Ascending(after[1..count + 1])
    ensures ToMap(after[1..count + 1]) == ToMap(s)[e.mid := e.mptr]
  {
    hide Ascending, ToMap;
    InToMap(s, e.mid);
    Spliced(before, after, s, x, count, e);
    assert forall k | 0 <= k < |s| :: s[k].mid != e.mid;
    InsertedAscends(s, x - 1, e);
    InsertedMap(s, x - 1, e);
  }

  lemma Spliced(before: seq<Entry>, after: seq<Entry>, s: seq<Entry>, x: int, count: int, e: Entry)
    requires 1 <= x <= count < |before| == |after| && count == |s| + 1 && s == before[1..count]
    requires forall k | 1 <= k < x :: after[k] == before[k]
    requires forall k | x < k <= count :: after[k] == before[k - 1]
    requires after[x] == e
    ensures after[1..count + 1] == s[..x - 1] + [e] + s[x - 1..]
  {
  }

  lemma InsertedAscends(s: seq<Entry>, x: int, e: Entry)
    requires 0 <= x <= |s| && Ascending(s)
    requires (forall k | 0 <= k < x :: s[k].mid < e.mid) && (forall k | x <= k < |s| :: e.mid < s[k].mid)
    ensures Ascending(s[..x] + [e] + s[x..])
  {
  }

  lemma {:induction false} InsertedMap(s: seq<Entry>, x: int, e: Entry)
    requires 0 <= x <= |s| && forall k | 0 <= k < |s| :: s[k].mid != e.mid
    ensures ToMap(s[..x] + [e] + s[x..]) == ToMap(s)[e.mid := e.mptr]
    decreases |s|
  {
    var t := s[..x] + [e] + s[x..];
    if x == |s| {
      assert t[..|s|] == s;
    } else {
      var n := |s| - 1;
      InsertedMap(s[..n], x, e);
      assert t[..|t| - 1] == s[..n][..x] + [e] + s[..n][x..];
    }
  }
}
