/** Spill lists: twice the page number, descending, with the lowest bit set on entries that
    count as deleted. */
module SpillList {
  import opened IdList
  import opened DirtyList

  predicate Even(q: int) {
    q % 2 == 0
  }

  /** The pages a spill list holds. */
  ghost function Pages(s: seq<int>): set<int> {
    set k | 0 <= k < |s| && Even(s[k]) :: s[k] / 2
  }

  /** Sorted, and no page is listed twice; deleted entries may repeat. */
  ghost predicate Ordered(s: seq<int>) {
    Descending(s) && forall i, j | 0 <= i < j < |s| && Even(s[i]) :: s[i] != s[j]
  }

  // ------------------------------------------------------------ what the child holds dirty

  /** t is s with the entries of the pages in gone overwritten by 1. */
  ghost predicate Marked(s: seq<int>, t: seq<int>, gone: set<int>) {
    |s| == |t| && forall k | 0 <= k < |s| :: t[k] == Mark(s[k], gone)
  }

  ghost function Mark(q: int, gone: set<int>): int {
    if Even(q) && q / 2 in gone then 1 else q
  }

  function Evens(s: seq<int>): seq<int> {
    if s == [] then []
    else if Even(s[|s| - 1]) then Evens(s[..|s| - 1]) + [s[|s| - 1]]
    else Evens(s[..|s| - 1])
  }

  lemma {:induction false} EvensAre(s: seq<int>)
    ensures |Evens(s)| <= |s|
    ensures forall q :: q in Evens(s) <==> q in s && Even(q)
  {
    if s != [] {
      EvensAre(s[..|s| - 1]);
      assert s == s[..|s| - 1] + [s[|s| - 1]];
    }
  }

  /** Marking a page only removes it from the list. */
  lemma MarkedPages(s: seq<int>, t: seq<int>, gone: set<int>)
    requires Marked(s, t, gone)
    ensures Pages(t) == Pages(s) - gone
  {
    assert !Even(1);
    forall p
      ensures p in Pages(t) <==> p in Pages(s) && p !in gone
    {
      if p in Pages(t) {
        var k :| 0 <= k < |t| && Even(t[k]) && t[k] / 2 == p;
        assert t[k] == Mark(s[k], gone);
      }
      if p in Pages(s) && p !in gone {
        var k :| 0 <= k < |s| && Even(s[k]) && s[k] / 2 == p;
        assert t[k] == Mark(s[k], gone);
      }
    }
  }

  lemma PagesOf(s: seq<int>, p: int)
    ensures p in Pages(s) <==> 2 * p in s
  {
    if p in Pages(s) {
      var k :| 0 <= k < |s| && Even(s[k]) && s[k] / 2 == p;
      assert s[k] == 2 * p;
    }
    if 2 * p in s {
      var k :| 0 <= k < |s| && s[k] == 2 * p;
      assert Even(s[k]);
    }
  }

  /** Squashing the deleted entries behind position y changes no page. */
  lemma SquashedPages(t: seq<int>, y: nat)
    requires y <= |t|
    ensures Pages(t[..y] + Evens(t[y..])) == Pages(t)
  {
    EvensAre(t[y..]);
    assert t == t[..y] + t[y..];
    forall p
      ensures p in Pages(t[..y] + Evens(t[y..])) <==> p in Pages(t)
    {
      PagesOf(t[..y] + Evens(t[y..]), p);
      PagesOf(t, p);
      assert Even(2 * p);
    }
  }

  /** ... and leaves what is left of an ordered list ordered. */
  lemma {:induction false} SquashedOrdered(s: seq<int>, t: seq<int>, gone: set<int>, y: nat)
    requires Ordered(s) && Marked(s, t, gone) && y <= |t| && t[..y] == s[..y]
    ensures Ordered(t[..y] + Evens(t[y..]))
    decreases |t|
  {
    if y == |t| {
      assert t[..y] + Evens(t[y..]) == s;
    } else {
      hide Ordered, Marked, Evens;
      var n := |t| - 1;
      var r := t[..n][..y] + Evens(t[..n][y..]);
      Shorter(s, t, gone);
      assert t[..n][..y] == t[..y] == s[..y] == s[..n][..y];
      SquashedOrdered(s[..n], t[..n], gone, y);
      EvensLast(t, y);
      if Even(t[n]) {
        assert t[n] == s[n];
        forall k | 0 <= k < |r|
          ensures r[k] > t[n]
        {
          var x := KeptFrom(s[..n], t[..n], gone, y, r[k]);
          LastIsLeast(s, x);
        }
        OrderedAppend(r, t[n]);
      }
    }
  }

  /** What is kept stood in the list before. */
  lemma KeptFrom(s: seq<int>, t: seq<int>, gone: set<int>, y: nat, q: int) returns (x: nat)
    requires Marked(s, t, gone) && y <= |t| && t[..y] == s[..y] && q in t[..y] + Evens(t[y..])
    ensures x < |s| && s[x] == q
  {
    if q in t[..y] {
      x :| 0 <= x < y && s[..y][x] == q;
    } else {
      EvensAre(t[y..]);
      var k :| 0 <= k < |t[y..]| && t[y..][k] == q;
      x := k + y;
      assert t[x] == Mark(s[x], gone);
    }
  }

  lemma LastIsLeast(s: seq<int>, x: nat)
    requires Ordered(s) && x < |s| - 1 && Even(s[|s| - 1])
    ensures s[x] > s[|s| - 1]
  {
    assert s[x] >= s[|s| - 1];
  }

  lemma Shorter(s: seq<int>, t: seq<int>, gone: set<int>)
    requires Ordered(s) && Marked(s, t, gone) && t != []
    ensures |s| == |t| && Ordered(s[..|s| - 1]) && Marked(s[..|s| - 1], t[..|t| - 1], gone)
    ensures Even(t[|t| - 1]) ==> t[|t| - 1] == s[|s| - 1]
  {
    assert t[|t| - 1] == Mark(s[|s| - 1], gone);
  }

  lemma EvensLast(t: seq<int>, y: nat)
    requires y < |t|
    ensures var n := |t| - 1;
      (t[..y] + Evens(t[y..]) == t[..n][..y] + Evens(t[..n][y..]) + (if Even(t[n]) then [t[n]] else []))
  {
    var n := |t| - 1;
    assert t[..n][y..] == t[y..][..n - y] && t[..n][..y] == t[..y] && t[y..][n - y] == t[n];
  }

  lemma OrderedAppend(r: seq<int>, q: int)
    requires Ordered(r) && forall k | 0 <= k < |r| :: r[k] > q
    ensures Ordered(r + [q])
  {
  }

  // ------------------------------------------------------------ what the child spilled

  ghost predicate EvensOnce(m: multiset<int>) {
    forall q | q in m && Even(q) :: m[q] == 1
  }

  lemma {:induction false} OrderedOnce(s: seq<int>)
    requires Ordered(s)
    ensures EvensOnce(multiset(s))
  {
    if s != [] {
      var n := |s| - 1;
      OrderedOnce(s[..n]);
      assert s == s[..n] + [s[n]];
      assert Even(s[n]) ==> s[n] !in s[..n];
    }
  }

  lemma OnceOrdered(s: seq<int>)
    requires Descending(s) && EvensOnce(multiset(s))
    ensures Ordered(s)
  {
    forall i, j | 0 <= i < j < |s| && Even(s[i])
      ensures s[i] != s[j]
    {
      assert s == s[..j] + s[j..];
      assert s[i] == s[..j][i] && s[j] == s[j..][0];
      assert multiset(s)[s[i]] == 1;
    }
  }

  /** Two spill lists without a page in common, appended and sorted, are a spill list. */
  lemma SortedAppend(a: seq<int>, b: seq<int>, r: seq<int>)
    requires Ordered(a) && Ordered(b) && Pages(a) !! Pages(b)
    requires Descending(r) && multiset(r) == multiset(a + b)
    ensures Ordered(r) && Pages(r) == Pages(a) + Pages(b)
  {
    OrderedOnce(a);
    OrderedOnce(b);
    forall q | q in multiset(r) && Even(q)
      ensures multiset(r)[q] == 1
    {
      PagesOf(a, q / 2);
      PagesOf(b, q / 2);
      assert q in a ==> multiset(a)[q] == 1;
      assert q in b ==> multiset(b)[q] == 1;
      assert q in a || q in b;
    }
    OnceOrdered(r);
    forall p
      ensures p in Pages(r) <==> p in Pages(a) || p in Pages(b)
    {
      PagesOf(r, p);
      PagesOf(a, p);
      PagesOf(b, p);
      assert 2 * p in multiset(r) <==> 2 * p in multiset(a + b);
    }
  }
}
