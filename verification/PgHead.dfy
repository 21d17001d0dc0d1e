/** me_pghead: the reclaimed page numbers, from which mdb_page_alloc takes contiguous
    ranges and to which mdb_ovpage_free gives ranges back. */
module PgHead {
  import opened IdList

  /** The page numbers pg .. pg + n - 1, highest first. */
  function Range(pg: int, n: nat): (r: seq<int>)
    ensures |r| == n
    ensures forall k | 0 <= k < n :: r[k] == pg + n - 1 - k
  {
    if n == 0 then [] else [pg + n - 1] + Range(pg, n - 1)
  }

  /** The list without the n ids from position c on. */
  function Without(s: seq<int>, c: nat, n: nat): seq<int>
    requires c + n <= |s|
  {
    s[..c] + s[c + n..]
  }

  /** The list with a range put before the first id below it. */
  function With(s: seq<int>, pg: int, n: nat): seq<int> {
    s[..NotBelow(s, pg)] + Range(pg, n) + s[NotBelow(s, pg)..]
  }

  /** How many ids precede the trailing ids that are below pg. */
  function NotBelow(s: seq<int>, pg: int): (c: nat)
    ensures c <= |s|
    ensures forall k | c <= k < |s| :: s[k] < pg
    ensures c > 0 ==> s[c - 1] >= pg
  {
    if s == [] then 0
    else if s[|s| - 1] < pg then NotBelow(s[..|s| - 1], pg)
    else |s|
  }

  lemma NotBelowIs(s: seq<int>, pg: int, c: nat)
    requires c <= |s|
    requires c > 0 ==> s[c - 1] >= pg
    requires forall k | c <= k < |s| :: s[k] < pg
    ensures NotBelow(s, pg) == c
  {
    var at := NotBelow(s, pg);
    assert at < |s| ==> s[at] < pg;
    assert at > 0 ==> s[at - 1] >= pg;
  }

  /** On a strictly descending list the test of the two ends alone decides whether the
      n + 1 ids between them are consecutive. */
  lemma {:induction false} EndpointTest(s: seq<int>, c: nat, n: nat)
    requires Strict(s) && c + n < |s|
    ensures s[c] == s[c + n] + n <==> s[c..c + n + 1] == Range(s[c + n], n + 1)
    ensures s[c] >= s[c + n] + n
  {
    Gap(s, c, n);
    if s[c] == s[c + n] + n {
      var t, r := s[c..c + n + 1], Range(s[c + n], n + 1);
      forall k | 0 <= k < |t|
        ensures t[k] == r[k]
      {
        Gap(s, c, k);
        Gap(s, c + k, n - k);
      }
    } else {
      assert s[c..c + n + 1][0] == s[c];
    }
  }

  lemma {:induction false} Gap(s: seq<int>, c: nat, n: nat)
    requires Strict(s) && c + n < |s|
    ensures s[c] >= s[c + n] + n
  {
    if n > 0 {
      Gap(s, c, n - 1);
    }
  }

  /** A run of n consecutive page numbers in the list, starting at page pg. */
  ghost predicate HasRun(s: seq<int>, pg: int, n: nat) {
    exists c: nat :: IsRun(s, c, pg, n)
  }

  ghost predicate IsRun(s: seq<int>, c: nat, pg: int, n: nat) {
    c + n <= |s| && s[c..c + n] == Range(pg, n)
  }

  /** The test of mdb_page_alloc for a run of n pages whose lowest is the c-th id. */
  predicate EndsAt(s: seq<int>, c: nat, n: nat) {
    1 <= n <= c <= |s| && s[c - n] == s[c - 1] + (n - 1)
  }

  lemma EndsAtRun(s: seq<int>, c: nat, n: nat)
    requires Strict(s) && EndsAt(s, c, n)
    ensures IsRun(s, c - n, s[c - 1], n)
  {
    EndpointTest(s, c - n, n - 1);
  }

  /** When the test fails at every position beyond i, every run ends at i or before. */
  lemma RunsEndBy(s: seq<int>, i: nat, n: nat, pg: int) returns (c: nat)
    requires Strict(s) && n >= 1 && HasRun(s, pg, n)
    requires forall c | i < c <= |s| :: !EndsAt(s, c, n)
    ensures n <= c <= i && c <= |s| && s[c - 1] == pg
  {
    var start: nat :| IsRun(s, start, pg, n);
    assert s[start..start + n][0] == s[start] && s[start..start + n][n - 1] == s[start + n - 1];
    c := start + n;
    assert EndsAt(s, c, n);
  }

  /** The search of mdb_page_alloc: i is the position of the lowest page of the lowest run
      of num pages, 0 when the list holds no such run. */
  method FindRun(mop: array<int>, num: nat) returns (i: nat, pgno: int)
    requires Fits(mop) && Strict(Ids(mop)) && num >= 1
    ensures i == 0 ==> forall pg :: !HasRun(Ids(mop), pg, num)
    ensures i > 0 ==> num <= i <= mop[0] && IsRun(Ids(mop), i - num, pgno, num)
    ensures i > 0 ==> forall pg | HasRun(Ids(mop), pg, num) :: pgno <= pg
  {
    ghost var s := Ids(mop);
    var n2 := num - 1;
    i, pgno := 0, 0;
    if mop[0] > n2 {
      i := mop[0];
      while true
        invariant n2 < i <= mop[0]
        invariant forall c | i < c <= mop[0] :: !EndsAt(s, c, num)
        decreases i
      {
        pgno := mop[i];
        assert s[i - 1] == mop[i] && s[i - num] == mop[i - n2];
        if mop[i - n2] == pgno + n2 {
          assert EndsAt(s, i, num);
          EndsAtRun(s, i, num);
          forall pg | HasRun(s, pg, num)
            ensures pgno <= pg
          {
            var c := RunsEndBy(s, i, num, pg);
          }
          return;
        }
        assert !EndsAt(s, i, num);
        i := i - 1;
        if i <= n2 {
          break;
        }
      }
      i := 0;
    }
    forall pg
      ensures !HasRun(s, pg, num)
    {
      if HasRun(s, pg, num) {
        var c := RunsEndBy(s, n2, num, pg);
        assert false;
      }
    }
  }

  /** The removal in mdb_page_alloc: takes the num ids that end at position i. */
  method Take(mop: array<int>, i: nat, num: nat)
    requires Fits(mop) && 1 <= num <= i <= mop[0]
    modifies mop
    ensures Fits(mop) && Ids(mop) == old(Without(Ids(mop), i - num, num))
    ensures forall k | old(mop[0]) < k < mop.Length :: mop[k] == old(mop[k])
  {
    hide Without;
    ghost var before := mop[..];
    assert Ids(mop) == before[1..mop[0] + 1];
    var mopLen := mop[0] - num;
    mop[0] := mopLen;
    var j, from := i - num, i;
    while j < mopLen
      invariant i - num <= j <= mopLen && from == j + num
      invariant mop[0] == mopLen
      invariant forall k | 1 <= k <= i - num :: mop[k] == before[k]
      invariant forall k | i - num < k <= j :: mop[k] == before[k + num]
      invariant forall k | j < k < mop.Length :: mop[k] == before[k]
    {
      j := j + 1;
      from := from + 1;
      mop[j] := mop[from];
    }
    Removed(before, mop[..], mopLen, i - num, num);
    assert Ids(mop) == mop[..][1..mopLen + 1];
  }

  lemma Removed(before: seq<int>, after: seq<int>, left: nat, c: nat, num: nat)
    requires c <= left && left + num < |before| == |after|
    requires forall k | 1 <= k <= c :: after[k] == before[k]
    requires forall k | c < k <= left :: after[k] == before[k + num]
    ensures after[1..left + 1] == Without(before[1..left + num + 1], c, num)
  {
  }

  /** The insertion in mdb_ovpage_free: gives n pages back. */
  method GiveBack(mop: array<int>, pg: int, n: nat)
    requires Fits(mop) && mop[0] + n < mop.Length
    modifies mop
    ensures Fits(mop) && Ids(mop) == old(With(Ids(mop), pg, n))
    ensures forall k | mop[0] < k < mop.Length :: mop[k] == old(mop[k])
  {
    hide With;
    ghost var before, len := mop[..], mop[0];
    assert Ids(mop) == before[1..len + 1];
    var i := MoveUp(mop, pg, n);
    ghost var moved := mop[..];
    FillDown(mop, i, i + n, pg);
    ghost var filled := mop[..];
    mop[0] := mop[0] + n;
    Layout(before, moved, filled, len, pg, n, i);
    assert Ids(mop) == filled[1..len + n + 1];
  }

  lemma Layout(before: seq<int>, moved: seq<int>, filled: seq<int>, len: nat, pg: int, n: nat, i: nat)
    requires i <= len && len + n < |before| == |moved| == |filled|
    requires i > 0 ==> before[i] >= pg
    requires forall k | i < k <= len :: before[k] < pg
    requires forall k | 0 < k <= i :: moved[k] == before[k]
    requires forall k | i + n < k <= len + n :: moved[k] == before[k - n]
    requires forall k | i < k <= i + n :: filled[k] == pg + (i + n - k)
    requires forall k | 0 < k <= i || i + n < k <= len + n :: filled[k] == moved[k]
    ensures filled[1..len + n + 1] == With(before[1..len + 1], pg, n)
  {
    var s := before[1..len + 1];
    NotBelowIs(s, pg, i);
    var w := With(s, pg, n);
    forall k | 0 <= k < |w|
      ensures w[k] == filled[k + 1]
    {
    }
  }

  /** Moves the trailing ids below pg up by n places and returns how many others there are. */
  method MoveUp(mop: array<int>, pg: int, n: nat) returns (i: nat)
    requires Fits(mop) && mop[0] + n < mop.Length
    modifies mop
    ensures i <= old(mop[0]) && (i > 0 ==> old(mop[i]) >= pg)
    ensures forall k | i < k <= old(mop[0]) :: old(mop[k]) < pg
    ensures forall k | i + n < k <= old(mop[0]) + n :: mop[k] == old(mop[k - n])
    ensures forall k | 0 <= k < mop.Length && !(i < k <= old(mop[0]) + n) :: mop[k] == old(mop[k])
  {
    i := mop[0];
    var j := i + n;
    while i > 0 && mop[i] < pg
      invariant i <= old(mop[0]) && j == i + n
      invariant forall k | i < k <= old(mop[0]) :: old(mop[k]) < pg
      invariant forall k | j < k <= old(mop[0]) + n :: mop[k] == old(mop[k - n])
      invariant forall k | 0 <= k < mop.Length && !(j < k <= old(mop[0]) + n) :: mop[k] == old(mop[k])
    {
      mop[j] := mop[i];
      j := j - 1;
      i := i - 1;
    }
  }

  /** Writes ascending page numbers from pg on downwards from position last to i + 1. */
  method FillDown(mop: array<int>, i: nat, last: nat, pg: int)
    requires i <= last < mop.Length
    modifies mop
    ensures forall k | i < k <= last :: mop[k] == pg + (last - k)
    ensures forall k | 0 <= k < mop.Length && !(i < k <= last) :: mop[k] == old(mop[k])
  {
    var j, next := last, pg;
    while j > i
      invariant i <= j <= last && next == pg + (last - j)
      invariant forall k | j < k <= last :: mop[k] == pg + (last - k)
      invariant forall k | 0 <= k < mop.Length && !(j < k <= last) :: mop[k] == old(mop[k])
    {
      mop[j] := next;
      j := j - 1;
      next := next + 1;
    }
  }

  /** Taking a run leaves exactly the other ids, still in order. */
  lemma TakeKeeps(s: seq<int>, c: nat, pg: int, n: nat)
    requires Strict(s) && IsRun(s, c, pg, n)
    ensures Strict(Without(s, c, n))
    ensures forall x: int :: x in Without(s, c, n) <==> x in s && !(pg <= x < pg + n)
  {
    forall x: int
      ensures x in Without(s, c, n) <==> x in s && !(pg <= x < pg + n)
    {
      WithoutHolds(s, c, pg, n, x);
    }
  }

  lemma WithoutHolds(s: seq<int>, c: nat, pg: int, n: nat, x: int)
    requires Strict(s) && IsRun(s, c, pg, n)
    ensures x in Without(s, c, n) <==> x in s && !(pg <= x < pg + n)
  {
    Parts(s, c, n);
    assert x in s <==> x in s[..c] || x in Range(pg, n) || x in s[c + n..];
    if pg <= x < pg + n {
      assert Range(pg, n)[pg + n - 1 - x] == x;
      assert s[c..c + n][0] == s[c] && s[c..c + n][n - 1] == s[c + n - 1];
    }
  }

  /** Giving back pages that are not in the list adds exactly them, in order. */
  lemma GiveBackKeeps(s: seq<int>, pg: int, n: nat)
    requires Strict(s) && forall x | pg <= x < pg + n :: x !in s
    ensures Strict(With(s, pg, n))
    ensures forall x: int :: x in With(s, pg, n) <==> x in s || pg <= x < pg + n
  {
    hide *;
    WithStrict(s, pg, n);
    forall x: int
      ensures x in With(s, pg, n) <==> x in s || pg <= x < pg + n
    {
      WithHolds(s, pg, n, x);
    }
  }

  lemma WithStrict(s: seq<int>, pg: int, n: nat)
    requires Strict(s) && forall x | pg <= x < pg + n :: x !in s
    ensures Strict(With(s, pg, n))
  {
    var at := NotBelow(s, pg);
    var w := With(s, pg, n);
    AboveRange(s, pg, n);
    assert forall i | 0 <= i < |w| :: w[i] == At(s, pg, n, at, i);
  }

  lemma WithHolds(s: seq<int>, pg: int, n: nat, x: int)
    ensures x in With(s, pg, n) <==> x in s || pg <= x < pg + n
  {
    var at := NotBelow(s, pg);
    assert s == s[..at] + s[at..];
    if pg <= x < pg + n {
      assert Range(pg, n)[pg + n - 1 - x] == x;
    }
  }

  function At(s: seq<int>, pg: int, n: nat, at: nat, i: nat): int
    requires at <= |s| && i < |s| + n
  {
    if i < at then s[i] else if i < at + n then pg + (at + n - 1 - i) else s[i - n]
  }

  lemma AboveRange(s: seq<int>, pg: int, n: nat)
    requires Strict(s) && forall x | pg <= x < pg + n :: x !in s
    ensures forall k | 0 <= k < NotBelow(s, pg) :: s[k] >= pg + n
  {
    forall k | 0 <= k < NotBelow(s, pg)
      ensures s[k] >= pg + n
    {
      assert s[k] >= s[NotBelow(s, pg) - 1];
      assert s[k] in s;
    }
  }

  /** Giving a run back to where it was taken from restores the list. */
  lemma GiveBackUndoesTake(s: seq<int>, c: nat, pg: int, n: nat)
    requires Strict(s) && n >= 1 && IsRun(s, c, pg, n)
    ensures With(Without(s, c, n), pg, n) == s
  {
    var r := Without(s, c, n);
    assert s[c..c + n][n - 1] == s[c + n - 1] == pg;
    assert forall k | c <= k < |r| :: r[k] == s[k + n] && s[k + n] < pg;
    assert forall k | 0 <= k < c :: r[k] == s[k] && s[k] > pg;
    NotBelowIs(r, pg, c);
    Parts(s, c, n);
    assert r[..c] == s[..c] && r[c..] == s[c + n..];
  }

  lemma Parts(s: seq<int>, c: nat, n: nat)
    requires c + n <= |s|
    ensures s == s[..c] + s[c..c + n] + s[c + n..]
  {
  }
}
