/** Puts and deletes seen in the list of items that a cursor visits, keys and all. */
module BTreeItems {
  import opened Wrappers
  import opened PageLayout
  import opened SplitPoint
  import Rebalance
  import opened BTree
  import opened BTreeShape
  import opened BTreeInsert
  import opened BTreeDelete
  import opened BTreeTheorems
  import opened CursorOrder
  import Cursor

  // ------------------------------------------------------------ lists

  /** Position i is that of the rank: behind all that is lower, before all that is higher. */
  ghost predicate PlaceOf(s: seq<Item>, rank: real, i: nat) {
    && i <= |s|
    && (forall k | 0 <= k < i :: s[k].key.rank < rank)
    && (forall k | i < k < |s| :: rank < s[k].key.rank)
    && (i < |s| ==> rank <= s[i].key.rank)
  }

  /** An item of another rank is put between the others, with the very key given.  One of the same
      rank is replaced; where the value is as long as the one before, the stored key stays. */
  ghost predicate PutAt(s: seq<Item>, it: Item, i: nat, s': seq<Item>) {
    && PlaceOf(s, it.key.rank, i)
    && if i < |s| && s[i].key.rank == it.key.rank then
         s' == s[..i] + [if |s[i].val| == |it.val| then Item(s[i].key, it.val) else it] + s[i + 1..]
       else s' == s[..i] + [it] + s[i..]
  }

  /** The item of the rank goes, if there is one, and no other. */
  ghost predicate GoneAt(s: seq<Item>, rank: real, i: nat, s': seq<Item>) {
    && PlaceOf(s, rank, i)
    && s' == if i < |s| && s[i].key.rank == rank then s[..i] + s[i + 1..] else s
  }

  ghost predicate Below(a: seq<Item>, rank: real) {
    forall k | 0 <= k < |a| :: a[k].key.rank < rank
  }

  ghost predicate AboveAll(c: seq<Item>, rank: real) {
    forall k | 0 <= k < |c| :: rank < c[k].key.rank
  }

  lemma PutWithin(a: seq<Item>, m: seq<Item>, c: seq<Item>, it: Item, i: nat, m': seq<Item>)
    requires PutAt(m, it, i, m') && Below(a, it.key.rank) && AboveAll(c, it.key.rank)
    ensures PutAt(a + m + c, it, |a| + i, a + m' + c)
  {
    assert i <= |m|;
    PlaceWithin(a, m, c, it.key.rank, i);
    CutWithin(a, m, c, i);
    hide PlaceOf;
    var s, j := a + m + c, |a| + i;
    var x := if i < |m| && m[i].key.rank == it.key.rank && |m[i].val| == |it.val| then Item(m[i].key, it.val) else it;
    if i < |m| && m[i].key.rank == it.key.rank {
      Regroup(a, m[..i], x, m[i + 1..], c);
    } else {
      Regroup(a, m[..i], x, m[i..], c);
      assert i == |m| && c != [] ==> s[j].key.rank != it.key.rank;
    }
  }

  lemma Regroup<T>(a: seq<T>, l: seq<T>, x: T, r: seq<T>, c: seq<T>)
    ensures a + (l + [x] + r) + c == (a + l) + [x] + (r + c)
  {
  }

  lemma CutWithin<T>(a: seq<T>, m: seq<T>, c: seq<T>, i: nat)
    requires i <= |m|
    ensures var s := a + m + c;
      && s[..|a| + i] == a + m[..i] && s[|a| + i..] == m[i..] + c
      && (i < |m| ==> s[|a| + i + 1..] == m[i + 1..] + c && s[|a| + i] == m[i])
      && (i == |m| && c != [] ==> s[|a| + i] == c[0])
  {
  }

  lemma GoneWithin(a: seq<Item>, m: seq<Item>, c: seq<Item>, rank: real, i: nat, m': seq<Item>)
    requires GoneAt(m, rank, i, m') && Below(a, rank) && AboveAll(c, rank)
    ensures GoneAt(a + m + c, rank, |a| + i, a + m' + c)
  {
    PlaceWithin(a, m, c, rank, i);
    CutWithin(a, m, c, i);
  }

  lemma PlaceWithin(a: seq<Item>, m: seq<Item>, c: seq<Item>, rank: real, i: nat)
    requires PlaceOf(m, rank, i) && Below(a, rank) && AboveAll(c, rank)
    ensures PlaceOf(a + m + c, rank, |a| + i)
  {
  }

  // ------------------------------------------------------------ pages

  /** The items of the pages that a change has left. */
  ghost function ResItems(r: Res): seq<Item> {
    match r
    case One(t, _, _) => Items(t)
    case Two(left, _, right, _, _) => Items(left) + Items(right)
    case Full => []
  }

  lemma FitLeafItems(psize: int, c: seq<Item>, i: nat)
    requires i < |c| && !FitLeaf(psize, c, i).Full?
    ensures ResItems(FitLeaf(psize, c, i)) == c
  {
    hide ItemWeights, Sum, SplitIndex;
    var r := FitLeaf(psize, c, i);
    if r.Two? {
      assert c == r.left.items + r.right.items;
    }
  }

  lemma RekeyedItems(kids: seq<Kid>, key: Key)
    requires kids != []
    ensures KidsItems(Rekeyed(kids, key)) == KidsItems(kids)
  {
    hide KidsItems;
    assert kids == [kids[0]] + kids[1..];
    KidsItemsConcat([kids[0]], kids[1..]);
    KidsItemsConcat([Kid(key, kids[0].child)], kids[1..]);
    OneKidItems(kids[0]);
    OneKidItems(Kid(key, kids[0].child));
  }

  lemma FitBranchItems(psize: int, c: seq<Kid>, i: nat)
    requires i < |c| && !FitBranch(psize, c, i).Full?
    ensures ResItems(FitBranch(psize, c, i)) == KidsItems(c)
  {
    hide KidWeights, Sum, SplitIndex, KidsItems, Rekeyed;
    var r := FitBranch(psize, c, i);
    if r.Two? {
      var s := CutAt(false, psize, KidWeights(c), i);
      assert c == c[..s] + c[s..];
      KidsItemsConcat(c[..s], c[s..]);
      RekeyedItems(c[s..], NOKEY);
    }
  }

  lemma AsKidsItems(key: Key, r: Res)
    requires !r.Full?
    ensures KidsItems(AsKids(key, r)) == ResItems(r)
  {
    hide KidsItems;
    match r
    case One(t, _, _) => OneKidItems(Kid(key, t));
    case Two(left, sep, right, _, _) =>
      var x, y := Kid(key, left), Kid(sep, right);
      assert AsKids(key, r) == [x] + [y];
      KidsItemsConcat([x], [y]);
      OneKidItems(x);
      OneKidItems(y);
  }

  lemma WithKidItems(psize: int, kids: seq<Kid>, i: nat, r: Res)
    requires i < |kids| && !WithKid(psize, kids, i, r).Full?
    ensures !r.Full?
    ensures ResItems(WithKid(psize, kids, i, r)) == KidsItems(kids[..i]) + ResItems(r) + KidsItems(kids[i + 1..])
  {
    hide KidsItems, FitBranch, AsKids;
    var s := AsKids(kids[i].key, r);
    var c := Spliced(kids, i, s);
    KidsItemsConcat(kids[..i] + s, kids[i + 1..]);
    KidsItemsConcat(kids[..i], s);
    AsKidsItems(kids[i].key, r);
    if r.One? {
      AsKidsOne(kids[i].key, r);
      assert kids[i := Kid(kids[i].key, r.t)] == c;
    } else {
      AsKidsTwo(kids[i].key, r);
      FitBranchItems(psize, c, i + 1);
    }
  }

  /** Where a page is cut whose node i is new or changed: a page that fits stays one, another is
      cut where its weights say, and the separator is the key of the first node on the right. */
  lemma LeafCut(psize: int, c: seq<Item>, i: nat)
    requires PageSize(psize) && i < |c| && Legal(true, psize, Without(ItemWeights(psize, c), i))
    ensures var w, r := ItemWeights(psize, c), FitLeaf(psize, c, i);
      && (Sum(w) <= Pmax(psize) ==> r == One(Leaf(c), 0, 0))
      && (Sum(w) > Pmax(psize) && r.Two? ==>
            && r.left.Leaf? && r.right.Leaf? && c == r.left.items + r.right.items
            && r.right.items != [] && r.sep == r.right.items[0].key
            && CutPlace(true, psize, Without(w, i), i, w[i], |r.left.items|))
  {
    hide ItemWeights, Sum, CutPlace, Legal, SplitIndex;
    var w, r := ItemWeights(psize, c), FitLeaf(psize, c, i);
    if Sum(w) > Pmax(psize) && |c| >= 3 {
      SearchPlace(true, psize, Without(w, i), i, w[i]);
    }
  }

  lemma BranchCut(psize: int, c: seq<Kid>, i: nat)
    requires PageSize(psize) && i < |c| && Legal(false, psize, Without(KidWeights(c), i))
    ensures var w, r := KidWeights(c), FitBranch(psize, c, i);
      && (Sum(w) <= Pmax(psize) ==> r == One(Branch(c), 0, 0))
      && (Sum(w) > Pmax(psize) && r.Two? ==>
            && r.left.Branch? && r.right.Branch? && |c| == |r.left.kids| + |r.right.kids|
            && 0 < |r.left.kids| < |c| && r.sep == c[|r.left.kids|].key
            && CutPlace(false, psize, Without(w, i), i, w[i], |r.left.kids|))
  {
    hide KidWeights, Sum, CutPlace, Legal, SplitIndex;
    var w, r := KidWeights(c), FitBranch(psize, c, i);
    if Sum(w) > Pmax(psize) && |c| >= 3 {
      SearchPlace(false, psize, Without(w, i), i, w[i]);
    }
  }

  // ------------------------------------------------------------ insertion

  lemma LeafPlace(items: seq<Item>, rank: real, lo: real, hi: real) returns (i: nat)
    requires Ranks(items, lo, hi)
    ensures i == LeafPos(items, rank) && PlaceOf(items, rank, i)
  {
    hide LeafPos;
    i := LeafPos(items, rank);
    LeafPosIs(items, rank, lo, hi);
    assert forall k | i < k < |items| :: items[i].key.rank < items[k].key.rank;
  }

  lemma OneLeafItems(items: seq<Item>)
    ensures ResItems(One(Leaf(items), 0, 0)) == items
  {
  }

  lemma InsertLeafItems(psize: int, items: seq<Item>, it: Item, lo: real, hi: real) returns (i: nat)
    requires Ranks(items, lo, hi) && !InsertLeaf(psize, items, it).Full?
    ensures PutAt(items, it, i, ResItems(InsertLeaf(psize, items, it)))
  {
    i := LeafPlace(items, it.key.rank, lo, hi);
    hide LeafPos, FitLeaf, Ranks, PlaceOf, ResItems;
    if i < |items| && items[i].key.rank == it.key.rank {
      if |items[i].val| == |it.val| {
        AroundItem(items, i, Item(items[i].key, it.val));
        OneLeafItems(items[i := Item(items[i].key, it.val)]);
      } else {
        AroundItem(items, i, it);
        FitLeafItems(psize, items[i := it], i);
      }
    } else {
      FitLeafItems(psize, items[..i] + [it] + items[i..], i);
    }
  }

  /** The items of a branch page around the child that a rank belongs to. */
  lemma PartsAround(psize: int, t: Tree, height: int, lo: real, hi: real, rank: real)
    requires t.Branch? && Shape(psize, t, height, lo, hi) && lo <= rank < hi
    ensures var k := ChildIndex(t.kids, rank);
      && Items(t) == KidsItems(t.kids[..k]) + Items(t.kids[k].child) + KidsItems(t.kids[k + 1..])
      && Below(KidsItems(t.kids[..k]), rank) && AboveAll(KidsItems(t.kids[k + 1..]), rank)
  {
    hide KidsItems;
    assert t.kids != [];
    hide Shape;
    var k, s := ChildIndex(t.kids, rank), Items(t);
    var a, m, c := KidsItems(t.kids[..k]), Items(t.kids[k].child), KidsItems(t.kids[k + 1..]);
    Cursor.StepDown(psize, t, height, lo, hi, rank, s, 0);
    ItemsAround(t.kids, k);
    assert forall j | 0 <= j < |a| :: a[j] == s[j];
    assert forall j | 0 <= j < |c| :: c[j] == s[|a| + |m| + j];
  }

  lemma {:induction false} InsertItems(psize: int, t: Tree, it: Item, height: int, lo: real, hi: real) returns (i: nat)
    requires Shape(psize, t, height, lo, hi) && lo <= it.key.rank < hi && !Insert(psize, t, it).Full?
    ensures PutAt(Items(t), it, i, ResItems(Insert(psize, t, it)))
    decreases t
  {
    hide PutAt, KidsItems, WithKid, InsertLeaf, ChildIndex, Shape, ZoneLo, ZoneHi;
    match t
    case Leaf(items) =>
      LeafRanks(psize, items, height, lo, hi);
      i := InsertLeafItems(psize, items, it, lo, hi);
    case Branch(kids) =>
      var rank := it.key.rank;
      var l, h := ChildShape(psize, kids, height, lo, hi, rank);
      var k := ChildIndex(kids, rank);
      var r := Insert(psize, kids[k].child, it);
      PartsAround(psize, t, height, lo, hi, rank);
      WithKidItems(psize, kids, k, r);
      var j := InsertItems(psize, kids[k].child, it, height - 1, l, h);
      PutWithin(KidsItems(kids[..k]), Items(kids[k].child), KidsItems(kids[k + 1..]), it, j, ResItems(r));
      i := |KidsItems(kids[..k])| + j;
  }

  lemma LeafRanks(psize: int, items: seq<Item>, height: int, lo: real, hi: real)
    requires Shape(psize, Leaf(items), height, lo, hi)
    ensures Ranks(items, lo, hi)
  {
  }

  // ------------------------------------------------------------ deletion

  lemma MergedItems(a: Tree, b: Tree)
    requires a.Leaf? == b.Leaf?
    ensures Items(Merged(a, b)) == Items(a) + Items(b)
  {
    hide KidsItems, LowKey, Rekeyed;
    if a.Branch? {
      if b.kids != [] {
        KidsItemsConcat(a.kids, Rekeyed(b.kids, LowKey(b)));
        RekeyedItems(b.kids, LowKey(b));
      } else {
        NoKids(b.kids);
      }
    }
  }

  lemma NoKids(kids: seq<Kid>)
    ensures kids == [] ==> KidsItems(kids) == []
  {
  }

  lemma MovedLeftItems(a: Tree, b: Tree)
    requires a.Leaf? == b.Leaf?
    ensures var p := MovedLeft(a, b); Items(p.0) + Items(p.2) == Items(a) + Items(b)
  {
    hide KidsItems, LowKey, Rekeyed;
    if a.Leaf? {
      assert |b.items| >= 2 ==> b.items == [b.items[0]] + b.items[1..];
    } else if |b.kids| >= 2 {
      var x, m := b.kids[0], b.kids;
      KidsItemsConcat(a.kids, [Kid(LowKey(b), x.child)]);
      OneKidItems(Kid(LowKey(b), x.child));
      OneKidItems(x);
      RekeyedItems(m[1..], NOKEY);
      KidsItemsConcat([x], m[1..]);
      assert m == [x] + m[1..];
    }
  }

  lemma MovedRightItems(a: Tree, b: Tree)
    requires a.Leaf? == b.Leaf?
    ensures var p := MovedRight(a, b); Items(p.0) + Items(p.2) == Items(a) + Items(b)
  {
    hide KidsItems, LowKey, Rekeyed;
    if a.Leaf? {
      var n := |a.items| - 1;
      assert |a.items| >= 2 ==> a.items == a.items[..n] + [a.items[n]];
    } else if |a.kids| >= 2 && b.kids != [] {
      var n := |a.kids| - 1;
      var x := a.kids[n];
      assert a.kids == a.kids[..n] + [x];
      KidsItemsConcat(a.kids[..n], [x]);
      OneKidItems(x);
      OneKidItems(Kid(NOKEY, x.child));
      KidsItemsConcat([Kid(NOKEY, x.child)], Rekeyed(b.kids, LowKey(b)));
      RekeyedItems(b.kids, LowKey(b));
    }
  }

  /** The items of a page with two neighbouring children. */
  lemma PairItems(kids: seq<Kid>, x: nat)
    requires x + 1 < |kids|
    ensures KidsItems(kids)
      == KidsItems(kids[..x]) + (Items(kids[x].child) + Items(kids[x + 1].child)) + KidsItems(kids[x + 2..])
  {
    hide KidsItems, Items;
    var rest := kids[x + 1..];
    assert rest[..0] == [] && rest[0 + 1..] == kids[x + 2..] && rest[0] == kids[x + 1];
    NoKids([]);
    ItemsAround(kids, x);
    ItemsAround(rest, 0);
    Regroup2(KidsItems(kids[..x]), Items(kids[x].child), Items(kids[x + 1].child), KidsItems(kids[x + 2..]));
  }

  lemma Regroup2<T>(a: seq<T>, x: seq<T>, y: seq<T>, c: seq<T>)
    ensures a + x + ([] + y + c) == a + (x + y) + c
  {
  }

  lemma MoveKidsItems(psize: int, kids: seq<Kid>, x: nat, p: (Tree, Key, Tree))
    requires x + 1 < |kids| && Items(p.0) + Items(p.2) == Items(kids[x].child) + Items(kids[x + 1].child)
    requires !MoveKids(psize, kids, x, p).res.Full?
    ensures ResItems(MoveKids(psize, kids, x, p).res) == KidsItems(kids)
  {
    hide KidsItems, FitBranch, Fits;
    var c := kids[..x] + [Kid(kids[x].key, p.0), Kid(p.1, p.2)] + kids[x + 2..];
    PairItems(kids, x);
    PairItems(c, x);
    assert c[..x] == kids[..x] && c[x + 2..] == kids[x + 2..];
    FitBranchItems(psize, c, x + 1);
  }

  lemma MergeKidsItems(psize: int, kids: seq<Kid>, x: nat)
    requires x + 1 < |kids| && kids[x].child.Leaf? == kids[x + 1].child.Leaf?
    requires !MergeKids(psize, kids, x).res.Full?
    ensures ResItems(MergeKids(psize, kids, x).res) == KidsItems(kids)
  {
    hide KidsItems, Fits, Merged;
    var m := Kid(kids[x].key, Merged(kids[x].child, kids[x + 1].child));
    PairItems(kids, x);
    MergedItems(kids[x].child, kids[x + 1].child);
    KidsItemsConcat(kids[..x] + [m], kids[x + 2..]);
    KidsItemsConcat(kids[..x], [m]);
    OneKidItems(m);
  }

  /** Rebalancing moves items between pages and keeps them in order. */
  lemma RebalanceItems(psize: int, kids: seq<Kid>, i: nat)
    requires psize >= Rebalance.MIN_PSIZE && i < |kids| && |kids| >= 2
    requires forall j, k | 0 <= j < k < |kids| :: kids[j].child.Leaf? == kids[k].child.Leaf?
    requires !RebalanceKid(psize, kids, i).res.Full?
    ensures ResItems(RebalanceKid(psize, kids, i).res) == KidsItems(kids)
  {
    hide KidsItems, MoveKids, MergeKids, MovedLeft, MovedRight, CanSpare, ResItems;
    var x := if i == 0 then 0 else i - 1;
    var a, b := kids[x].child, kids[x + 1].child;
    assert a.Leaf? == b.Leaf?;
    MovedLeftItems(a, b);
    MovedRightItems(a, b);
    if CanSpare(psize, if i == 0 then b else a) {
      MoveKidsItems(psize, kids, x, if i == 0 then MovedLeft(a, b) else MovedRight(a, b));
    } else {
      MergeKidsItems(psize, kids, x);
    }
  }

  /** All children of a page are of one kind. */
  lemma OneKind(psize: int, kids: seq<Kid>, height: int, lo: real, hi: real)
    requires KidsOk(psize, kids, height, lo, hi)
    ensures forall k | 0 <= k < |kids| :: kids[k].child.Leaf? <==> height == 1
  {
    hide KidsOk;
    forall k | 0 <= k < |kids|
      ensures kids[k].child.Leaf? <==> height == 1
    {
      var l, h := KidZone(psize, kids, height, lo, hi, k);
    }
  }

  lemma DeleteKidItems(psize: int, kids: seq<Kid>, i: nat, d: Cut, height: int, lo: real, hi: real)
    requires psize >= Rebalance.MIN_PSIZE && KidsOk(psize, kids, height, lo, hi) && i < |kids|
    requires d.res.One? ==> (d.res.t.Leaf? <==> height == 1)
    requires !DeleteKid(psize, kids, i, d).res.Full?
    ensures !d.res.Full?
    ensures ResItems(DeleteKid(psize, kids, i, d).res)
      == KidsItems(kids[..i]) + ResItems(d.res) + KidsItems(kids[i + 1..])
  {
    hide KidsItems, WithKid, RebalanceKid, NeedsRebalance, KidsOk;
    if d.res.One? && d.shrunk && NeedsRebalance(psize, d.res.t) && |kids| >= 2 {
      var kids' := kids[i := Kid(kids[i].key, d.res.t)];
      OneKind(psize, kids, height, lo, hi);
      RebalanceItems(psize, kids', i);
      ItemsAround(kids', i);
      assert kids'[..i] == kids[..i] && kids'[i + 1..] == kids[i + 1..];
    } else {
      WithKidItems(psize, kids, i, d.res);
    }
  }

  lemma {:induction false} DeleteItems(psize: int, t: Tree, rank: real, height: int, lo: real, hi: real)
    returns (i: nat)
    requires 4096 <= psize <= 0x8000 && Shape(psize, t, height, lo, hi) && Enough(t) && lo <= rank < hi
    requires !Delete(psize, t, rank).res.Full?
    ensures GoneAt(Items(t), rank, i, ResItems(Delete(psize, t, rank).res))
    decreases t
  {
    hide GoneAt, KidsItems, DeleteKid, ChildIndex, Shape, ZoneLo, ZoneHi, NeedsRebalance, LeafPos;
    match t
    case Leaf(items) =>
      LeafRanks(psize, items, height, lo, hi);
      i := DeleteLeafItems(psize, items, rank, lo, hi);
    case Branch(kids) =>
      var l, h := ChildShape(psize, kids, height, lo, hi, rank);
      var k := ChildIndex(kids, rank);
      var d := Delete(psize, kids[k].child, rank);
      PartsAround(psize, t, height, lo, hi, rank);
      DeletedKind(psize, kids[k].child, rank, height - 1, l, h);
      KidsOfShape(psize, kids, height, lo, hi);
      DeleteKidItems(psize, kids, k, d, height - 1, lo, hi);
      var j := DeleteItems(psize, kids[k].child, rank, height - 1, l, h);
      GoneWithin(KidsItems(kids[..k]), Items(kids[k].child), KidsItems(kids[k + 1..]), rank, j, ResItems(d.res));
      i := |KidsItems(kids[..k])| + j;
  }

  lemma DeleteLeafItems(psize: int, items: seq<Item>, rank: real, lo: real, hi: real) returns (i: nat)
    requires psize >= Rebalance.MIN_PSIZE && Ranks(items, lo, hi)
    ensures GoneAt(items, rank, i, ResItems(Delete(psize, Leaf(items), rank).res))
  {
    i := LeafPlace(items, rank, lo, hi);
  }

  lemma KidsOfShape(psize: int, kids: seq<Kid>, height: int, lo: real, hi: real)
    requires Shape(psize, Branch(kids), height, lo, hi)
    ensures KidsOk(psize, kids, height - 1, lo, hi)
  {
  }

  /** A page that has lost a node is still of its kind. */
  lemma DeletedKind(psize: int, t: Tree, rank: real, height: int, lo: real, hi: real)
    requires 4096 <= psize <= 0x8000 && Shape(psize, t, height, lo, hi) && Enough(t) && lo <= rank < hi
    ensures var d := Delete(psize, t, rank); d.res.One? ==> (d.res.t.Leaf? <==> height == 1)
  {
    hide Delete;
    DeleteOk(psize, t, rank, height, lo, hi);
  }

  // ------------------------------------------------------------ databases

  /** The items of a database in the order of a cursor. */
  ghost function DbItems(db: Db): seq<Item> {
    match db.root
    case None => []
    case Some(t) => Items(t)
  }

  lemma NewRootItems(db: Db, r: Res, entries: int)
    requires NewRoot(db, r, entries).Some?
    ensures !r.Full? && DbItems(NewRoot(db, r, entries).value) == ResItems(r)
  {
    hide KidsItems;
    if r.Two? {
      var x, y := Kid(NOKEY, r.left), Kid(r.sep, r.right);
      assert [x, y] == [x] + [y];
      KidsItemsConcat([x], [y]);
      OneKidItems(x);
      OneKidItems(y);
    }
  }

  lemma CollapsedItems(db: Db)
    ensures DbItems(Collapsed(db)) == DbItems(db)
  {
    hide KidsItems;
    if db.root.Some? && db.root.value.Branch? && |db.root.value.kids| == 1 {
      OneKidItems(db.root.value.kids[0]);
      assert db.root.value.kids == [db.root.value.kids[0]];
    }
  }

  /** mdb_put on the items: the item given is among the others at the place of its rank, or in
      place of the one of its rank; no other item has changed. */
  lemma PutItems(psize: int, db: Db, it: Item) returns (i: nat)
    requires DbOk(psize, db) && KeyOk(it.key) && Put(psize, db, it).Some?
    ensures PutAt(DbItems(db), it, i, DbItems(Put(psize, db, it).value))
  {
    hide Insert, Get, NewRoot, Shaped;
    match db.root
    case None => i := 0;
    case Some(t) =>
      var lo, hi := WideShape(psize, t, db.depth, it.key.rank);
      NewRootItems(db, Insert(psize, t, it), if Get(t, it.key.rank) == None then 1 else 0);
      i := InsertItems(psize, t, it, db.depth, lo, hi);
  }

  /** mdb_del on the items: the item of the rank is gone, if there was one, and no other item has
      changed. */
  lemma DelItems(psize: int, db: Db, rank: real) returns (i: nat)
    requires DbOk(psize, db) && Del(psize, db, rank).Some?
    ensures GoneAt(DbItems(db), rank, i, DbItems(Del(psize, db, rank).value.0))
    ensures Del(psize, db, rank).value.1 <==> i < |DbItems(db)| && DbItems(db)[i].key.rank == rank
  {
    hide Delete, Get, NewRoot, Shaped, Collapsed, Items;
    match db.root
    case None => i := 0;
    case Some(t) =>
      var lo, hi := WideShape(psize, t, db.depth, rank);
      i := RankPlace(psize, t, db.depth, lo, hi, rank);
      if Get(t, rank) != None {
        var d := Delete(psize, t, rank);
        EnoughShaped(psize, t, db.depth);
        NewRootItems(db, d.res, -1);
        CollapsedItems(NewRoot(db, d.res, -1).value);
        var j := DeleteItems(psize, t, rank, db.depth, lo, hi);
        OnePlace(Items(t), rank, i, j);
      }
  }

  lemma EnoughShaped(psize: int, t: Tree, depth: int)
    requires Shaped(psize, t, depth)
    ensures Enough(t)
  {
  }

  lemma OnePlace(s: seq<Item>, rank: real, i: nat, j: nat)
    requires PlaceOf(s, rank, i) && PlaceOf(s, rank, j)
    ensures i == j
  {
  }

  /** The place of a rank in the list, and whether the tree has it. */
  lemma RankPlace(psize: int, t: Tree, depth: int, lo: real, hi: real, rank: real) returns (i: nat)
    requires Shape(psize, t, depth, lo, hi) && lo <= rank < hi
    ensures PlaceOf(Items(t), rank, i)
    ensures Get(t, rank) != None <==> i < |Items(t)| && Items(t)[i].key.rank == rank
  {
    hide Shape, Items, Content, ItemsMap, Get, LeafPos;
    var s := Items(t);
    ShapeItems(psize, t, depth, lo, hi);
    GetOk(psize, t, depth, lo, hi, rank);
    i := LeafPos(s, rank);
    LeafPosIs(s, rank, lo, hi);
    InItemsMap(s, rank);
    assert forall k | i < k < |s| :: s[i].key.rank < s[k].key.rank;
  }

  // ------------------------------------------------------------ runs

  ghost predicate ItemStep(s: seq<Item>, op: Op, s': seq<Item>) {
    match op
    case PutOp(it) => exists i: nat :: PutAt(s, it, i, s')
    case DelOp(rank) => exists i: nat :: GoneAt(s, rank, i, s')
  }

  ghost predicate ItemRun(s: seq<Item>, run: seq<Op>, s': seq<Item>)
    decreases |run|
  {
    if run == [] then s' == s
    else exists mid :: ItemStep(s, run[0], mid) && ItemRun(mid, run[1..], s')
  }

  /** Over every run of puts and deletes the list of items changes as by these steps. */
  lemma {:induction false} RunItems(psize: int, db: Db, run: seq<Op>)
    requires DbOk(psize, db) && forall i | 0 <= i < |run| && run[i].PutOp? :: KeyOk(run[i].it.key)
    requires psize >= Rebalance.MIN_PSIZE && After(psize, db, run).Some?
    ensures ItemRun(DbItems(db), run, DbItems(After(psize, db, run).value))
    decreases |run|
  {
    hide Put, Del, DbOk, DbItems, PutAt, GoneAt;
    if run != [] {
      var db1 := StepItems(psize, db, run[0]);
      RunItems(psize, db1, run[1..]);
      assert ItemStep(DbItems(db), run[0], DbItems(db1));
    }
  }

  lemma StepItems(psize: int, db: Db, op: Op) returns (db': Db)
    requires DbOk(psize, db) && (op.PutOp? ==> KeyOk(op.it.key)) && psize >= Rebalance.MIN_PSIZE
    requires if op.PutOp? then Put(psize, db, op.it).Some? else Del(psize, db, op.rank).Some?
    ensures db' == if op.PutOp? then Put(psize, db, op.it).value else Del(psize, db, op.rank).value.0
    ensures DbOk(psize, db') && ItemStep(DbItems(db), op, DbItems(db'))
  {
    hide Put, Del, DbOk, DbItems, PutAt, GoneAt;
    match op
    case PutOp(it) =>
      db' := Put(psize, db, it).value;
      var i := PutItems(psize, db, it);
      PutRefines(psize, db, it);
    case DelOp(rank) =>
      db' := Del(psize, db, rank).value.0;
      var i := DelItems(psize, db, rank);
      DelRefines(psize, db, rank);
  }
}
