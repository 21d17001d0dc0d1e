/** The page counters kept with a database: every split, merge, new root and collapsed root
    is counted. */
module BTreeCounts {
  import opened Wrappers
  import opened PageLayout
  import opened SplitPoint
  import Rebalance
  import opened BTree
  import opened BTreeShape
  import opened BTreeInsert
  import opened BTreeDelete

  /** The number of leaf pages, or of branch pages, of a tree. */
  ghost function Count(t: Tree, leaf: bool): int
    decreases t
  {
    match t
    case Leaf(_) => if leaf then 1 else 0
    case Branch(kids) => (if leaf then 0 else 1) + KidsCount(kids, leaf)
  }

  ghost function KidCount(kid: Kid, leaf: bool): int
    decreases kid
  {
    Count(kid.child, leaf)
  }

  ghost function KidsCount(kids: seq<Kid>, leaf: bool): int
    decreases kids
  {
    if kids == [] then 0 else KidsCount(kids[..|kids| - 1], leaf) + KidCount(kids[|kids| - 1], leaf)
  }

  ghost function ResCount(r: Res, leaf: bool): int
    requires !r.Full?
  {
    match r
    case One(t, _, _) => Count(t, leaf)
    case Two(left, _, right, _, _) => Count(left, leaf) + Count(right, leaf)
  }

  function Gain(r: Res, leaf: bool): int
    requires !r.Full?
  {
    if leaf then r.leaves else r.branches
  }

  /** The pages that r gained are those it has more than n. */
  ghost predicate Counted(r: Res, leaf: bool, n: int) {
    !r.Full? ==> ResCount(r, leaf) == n + Gain(r, leaf)
  }

  lemma {:induction false} KidsCountConcat(a: seq<Kid>, b: seq<Kid>, leaf: bool)
    ensures KidsCount(a + b, leaf) == KidsCount(a, leaf) + KidsCount(b, leaf)
    decreases |b|
  {
    if b == [] {
      assert a + b == a;
    } else {
      var n := |b| - 1;
      KidsCountConcat(a, b[..n], leaf);
      assert (a + b)[..|a + b| - 1] == a + b[..n];
    }
  }

  lemma OneCount(kid: Kid, leaf: bool)
    ensures KidsCount([kid], leaf) == Count(kid.child, leaf)
  {
    assert [kid][..0] == [];
    assert KidsCount([kid], leaf) == KidsCount([kid][..0], leaf) + KidCount(kid, leaf);
  }

  lemma RekeyedCount(kids: seq<Kid>, key: Key, leaf: bool)
    requires kids != []
    ensures KidsCount(Rekeyed(kids, key), leaf) == KidsCount(kids, leaf)
  {
    KidsCountConcat([Kid(key, kids[0].child)], kids[1..], leaf);
    KidsCountConcat([kids[0]], kids[1..], leaf);
    OneCount(Kid(key, kids[0].child), leaf);
    OneCount(kids[0], leaf);
    assert kids == [kids[0]] + kids[1..];
  }

  lemma FitLeafCounts(psize: int, c: seq<Item>, i: nat, leaf: bool)
    requires i < |c|
    ensures Counted(FitLeaf(psize, c, i), leaf, if leaf then 1 else 0)
  {
    hide ItemWeights, Sum, SplitIndex;
  }

  lemma FitBranchCounts(psize: int, c: seq<Kid>, i: nat, leaf: bool)
    requires i < |c|
    ensures Counted(FitBranch(psize, c, i), leaf, Count(Branch(c), leaf))
  {
    hide KidWeights, Sum, SplitIndex, KidsCount, Rekeyed;
    var r := FitBranch(psize, c, i);
    if r.Two? {
      var s := CutAt(false, psize, KidWeights(c), i);
      KidsCountConcat(c[..s], c[s..], leaf);
      assert c == c[..s] + c[s..];
      RekeyedCount(c[s..], NOKEY, leaf);
    }
  }

  lemma AsKidsCount(key: Key, r: Res, leaf: bool)
    requires !r.Full?
    ensures KidsCount(AsKids(key, r), leaf) == ResCount(r, leaf)
  {
    hide KidsCount;
    match r
    case One(t, _, _) => OneCount(Kid(key, t), leaf);
    case Two(left, sep, right, _, _) =>
      KidsCountConcat([Kid(key, left)], [Kid(sep, right)], leaf);
      OneCount(Kid(key, left), leaf);
      OneCount(Kid(sep, right), leaf);
      assert AsKids(key, r) == [Kid(key, left)] + [Kid(sep, right)];
  }

  lemma SplicedCount(kids: seq<Kid>, i: nat, s: seq<Kid>, leaf: bool)
    requires i < |kids|
    ensures KidsCount(Spliced(kids, i, s), leaf) == KidsCount(kids, leaf) - Count(kids[i].child, leaf) + KidsCount(s, leaf)
  {
    hide KidsCount;
    var a, b := kids[..i], kids[i + 1..];
    SpliceParts(kids, i, s);
    KidsCountConcat(a + s, b, leaf);
    KidsCountConcat(a, s, leaf);
    KidsCountConcat(a + [kids[i]], b, leaf);
    KidsCountConcat(a, [kids[i]], leaf);
    OneCount(kids[i], leaf);
  }

  lemma WithKidCounts(psize: int, kids: seq<Kid>, i: nat, r: Res, leaf: bool)
    requires i < |kids| && Counted(r, leaf, Count(kids[i].child, leaf))
    ensures Counted(WithKid(psize, kids, i, r), leaf, Count(Branch(kids), leaf))
  {
    hide KidsCount, FitBranch, AsKids;
    if !r.Full? {
      var s := AsKids(kids[i].key, r);
      AsKidsCount(kids[i].key, r, leaf);
      SplicedCount(kids, i, s, leaf);
      SpliceParts(kids, i, s);
      if r.Two? {
        AsKidsTwo(kids[i].key, r);
        FitBranchCounts(psize, Spliced(kids, i, s), i + 1, leaf);
      } else {
        AsKidsOne(kids[i].key, r);
      }
    }
  }

  lemma {:induction false} InsertCounts(psize: int, t: Tree, it: Item, leaf: bool)
    ensures Counted(Insert(psize, t, it), leaf, Count(t, leaf))
    decreases t
  {
    match t
    case Leaf(items) =>
      var i := LeafPos(items, it.key.rank);
      if i < |items| {
        FitLeafCounts(psize, items[i := it], i, leaf);
      }
      FitLeafCounts(psize, items[..i] + [it] + items[i..], i, leaf);
    case Branch(kids) =>
      if kids != [] {
        InsertChildCounts(psize, kids, it, leaf);
      }
  }

  lemma {:induction false} InsertChildCounts(psize: int, kids: seq<Kid>, it: Item, leaf: bool)
    requires kids != []
    ensures Counted(Insert(psize, Branch(kids), it), leaf, Count(Branch(kids), leaf))
    decreases kids
  {
    hide WithKid, Counted;
    var i := ChildIndex(kids, it.key.rank);
    InsertKidCounts(psize, kids[i], it, leaf);
    WithKidCounts(psize, kids, i, Insert(psize, kids[i].child, it), leaf);
  }

  lemma {:induction false} InsertKidCounts(psize: int, kid: Kid, it: Item, leaf: bool)
    ensures Counted(Insert(psize, kid.child, it), leaf, Count(kid.child, leaf))
    decreases kid
  {
    InsertCounts(psize, kid.child, it, leaf);
  }

  // ------------------------------------------------------------ deletion

  /** Two pages of the same height. */
  predicate Alike(a: Tree, b: Tree) {
    match (a, b)
    case (Leaf(_), Leaf(_)) => true
    case (Branch(_), Branch(m)) => m != []
    case _ => false
  }

  lemma MergedCount(a: Tree, b: Tree, leaf: bool)
    requires Alike(a, b)
    ensures Count(Merged(a, b), leaf) == Count(a, leaf) + Count(b, leaf) - if leaf == a.Leaf? then 1 else 0
  {
    hide KidsCount;
    if a.Branch? {
      KidsCountConcat(a.kids, Rekeyed(b.kids, LowKey(b)), leaf);
      RekeyedCount(b.kids, LowKey(b), leaf);
    }
  }

  lemma MovedLeftCount(a: Tree, b: Tree, leaf: bool)
    requires Alike(a, b)
    ensures var p := MovedLeft(a, b); Count(p.0, leaf) + Count(p.2, leaf) == Count(a, leaf) + Count(b, leaf)
  {
    hide KidsCount;
    if a.Branch? && |b.kids| >= 2 {
      var m := b.kids;
      var first := Kid(LowKey(b), m[0].child);
      KidsCountConcat(a.kids, [first], leaf);
      OneCount(first, leaf);
      OneCount(m[0], leaf);
      KidsCountConcat([m[0]], m[1..], leaf);
      RekeyedCount(m[1..], NOKEY, leaf);
      assert m == [m[0]] + m[1..];
    }
  }

  lemma MovedRightCount(a: Tree, b: Tree, leaf: bool)
    requires Alike(a, b)
    ensures var p := MovedRight(a, b); Count(p.0, leaf) + Count(p.2, leaf) == Count(a, leaf) + Count(b, leaf)
  {
    hide KidsCount;
    if a.Branch? && |a.kids| >= 2 {
      var s, n := a.kids, |a.kids| - 1;
      var first := Kid(NOKEY, s[n].child);
      KidsCountConcat([first], Rekeyed(b.kids, LowKey(b)), leaf);
      OneCount(first, leaf);
      OneCount(s[n], leaf);
      KidsCountConcat(s[..n], [s[n]], leaf);
      RekeyedCount(b.kids, LowKey(b), leaf);
      assert s == s[..n] + [s[n]];
    }
  }

  lemma PairCount(kids: seq<Kid>, x: nat, leaf: bool)
    requires x + 1 < |kids|
    ensures KidsCount(kids, leaf)
      == KidsCount(kids[..x], leaf) + Count(kids[x].child, leaf) + Count(kids[x + 1].child, leaf) + KidsCount(kids[x + 2..], leaf)
  {
    hide KidsCount;
    var a, b := kids[..x], kids[x + 2..];
    assert kids == a + [kids[x]] + [kids[x + 1]] + b;
    KidsCountConcat(a + [kids[x]] + [kids[x + 1]], b, leaf);
    KidsCountConcat(a + [kids[x]], [kids[x + 1]], leaf);
    KidsCountConcat(a, [kids[x]], leaf);
    OneCount(kids[x], leaf);
    OneCount(kids[x + 1], leaf);
  }

  lemma MergeKidsCounts(psize: int, kids: seq<Kid>, x: nat, leaf: bool)
    requires x + 1 < |kids| && Alike(kids[x].child, kids[x + 1].child)
    ensures Counted(MergeKids(psize, kids, x).res, leaf, Count(Branch(kids), leaf))
  {
    hide KidsCount, Merged, Fits;
    var m := Merged(kids[x].child, kids[x + 1].child);
    MergedCount(kids[x].child, kids[x + 1].child, leaf);
    MergedKind(kids[x].child, kids[x + 1].child);
    PairCount(kids, x, leaf);
    var a, b, k := kids[..x], kids[x + 2..], Kid(kids[x].key, m);
    KidsCountConcat(a + [k], b, leaf);
    KidsCountConcat(a, [k], leaf);
    OneCount(k, leaf);
  }

  lemma MergedKind(a: Tree, b: Tree)
    requires Alike(a, b)
    ensures Merged(a, b).Leaf? == a.Leaf?
  {
  }

  lemma MoveKidsCounts(psize: int, kids: seq<Kid>, x: nat, p: (Tree, Key, Tree), leaf: bool)
    requires x + 1 < |kids|
    requires Count(p.0, leaf) + Count(p.2, leaf) == Count(kids[x].child, leaf) + Count(kids[x + 1].child, leaf)
    ensures Counted(MoveKids(psize, kids, x, p).res, leaf, Count(Branch(kids), leaf))
  {
    hide KidsCount, FitBranch, Fits;
    PairCount(kids, x, leaf);
    var a, b := kids[..x], kids[x + 2..];
    var c := a + [Kid(kids[x].key, p.0), Kid(p.1, p.2)] + b;
    PairCount(c, x, leaf);
    assert c[..x] == a && c[x + 2..] == b;
    FitBranchCounts(psize, c, x + 1, leaf);
  }

  lemma RebalanceCounts(psize: int, kids: seq<Kid>, i: nat, leaf: bool)
    requires psize >= Rebalance.MIN_PSIZE && i < |kids| && |kids| >= 2
    requires if i == 0 then Alike(kids[0].child, kids[1].child) else Alike(kids[i - 1].child, kids[i].child)
    ensures Counted(RebalanceKid(psize, kids, i).res, leaf, Count(Branch(kids), leaf))
  {
    hide KidsCount, MoveKids, MergeKids, MovedLeft, MovedRight, CanSpare, Counted, Alike;
    var x := if i == 0 then 0 else i - 1;
    var a, b := kids[x].child, kids[x + 1].child;
    MergeKidsCounts(psize, kids, x, leaf);
    MovedLeftCount(a, b, leaf);
    MovedRightCount(a, b, leaf);
    MoveKidsCounts(psize, kids, x, MovedLeft(a, b), leaf);
    MoveKidsCounts(psize, kids, x, MovedRight(a, b), leaf);
  }

  lemma GrownCounts(r: Res, leaf: bool, n: int, leaves: int, branches: int)
    requires Counted(r, leaf, n + if leaf then leaves else branches)
    ensures Counted(Grown(r, leaves, branches), leaf, n)
  {
  }

  lemma DeleteKidCounts(psize: int, kids: seq<Kid>, i: nat, d: Cut, leaf: bool)
    requires psize >= Rebalance.MIN_PSIZE && i < |kids| && Counted(d.res, leaf, Count(kids[i].child, leaf))
    requires d.res.One? && |kids| >= 2 ==>
      if i == 0 then Alike(d.res.t, kids[1].child) else Alike(kids[i - 1].child, d.res.t)
    ensures Counted(DeleteKid(psize, kids, i, d).res, leaf, Count(Branch(kids), leaf))
  {
    hide KidsCount, RebalanceKid, NeedsRebalance, Alike;
    if d.res.One? {
      var kids' := kids[i := Kid(kids[i].key, d.res.t)];
      SpliceParts(kids, i, [kids'[i]]);
      SplicedCount(kids, i, [kids'[i]], leaf);
      OneCount(kids'[i], leaf);
      if d.shrunk && NeedsRebalance(psize, d.res.t) && |kids| >= 2 {
        RebalanceCounts(psize, kids', i, leaf);
        GrownCounts(RebalanceKid(psize, kids', i).res, leaf, Count(Branch(kids), leaf), d.res.leaves, d.res.branches);
      } else {
        WithKidCounts(psize, kids, i, d.res, leaf);
      }
    } else {
      WithKidCounts(psize, kids, i, d.res, leaf);
    }
  }

  lemma {:induction false} DeleteCounts(psize: int, t: Tree, rank: real, height: int, lo: real, hi: real, leaf: bool)
    requires 4096 <= psize <= 0x8000 && Shape(psize, t, height, lo, hi) && Enough(t) && lo <= rank < hi
    ensures Counted(Delete(psize, t, rank).res, leaf, Count(t, leaf))
    decreases t
  {
    match t
    case Leaf(items) =>
    case Branch(kids) =>
      var l, h := ChildShape(psize, kids, height, lo, hi, rank);
      var i := ChildIndex(kids, rank);
      var child := kids[i].child;
      DeleteCounts(psize, child, rank, height - 1, l, h, leaf);
      DeleteOk(psize, child, rank, height - 1, l, h);
      NeighbourHeight(psize, kids, if i == 0 then 1 else i - 1, height - 1, lo, hi);
      DeletedAlike(psize, kids, i, Delete(psize, child, rank), height, l, h, rank);
      DeleteKidCounts(psize, kids, i, Delete(psize, child, rank), leaf);
  }

  lemma {:induction false} NeighbourHeight(psize: int, kids: seq<Kid>, j: nat, height: int, lo: real, hi: real)
    requires KidsOk(psize, kids, height, lo, hi) && j < |kids|
    ensures kids[j].child.Leaf? == (height == 1) && Enough(kids[j].child)
    decreases |kids|
  {
    var n := |kids| - 1;
    if j < n {
      NeighbourHeight(psize, kids[..n], j, height, lo, kids[n].key.rank);
    } else {
      KidHeight(psize, kids[n], height, if n == 0 then lo else kids[n].key.rank, hi);
    }
  }

  lemma KidHeight(psize: int, kid: Kid, height: int, lo: real, hi: real)
    requires KidOk(psize, kid, height, lo, hi)
    ensures kid.child.Leaf? == (height == 1) && Enough(kid.child)
  {
  }

  lemma DeletedAlike(psize: int, kids: seq<Kid>, i: nat, d: Cut, height: int, l: real, h: real, rank: real)
    requires i < |kids| && |kids| >= 2 && CutOk(psize, d, height - 1, l, h, Upd(Content(kids[i].child), rank, None))
    requires var j := if i == 0 then 1 else i - 1; kids[j].child.Leaf? == (height - 1 == 1) && Enough(kids[j].child)
    ensures d.res.One? ==> if i == 0 then Alike(d.res.t, kids[1].child) else Alike(kids[i - 1].child, d.res.t)
  {
    hide Content, KidsOk, Fits;
  }
}
