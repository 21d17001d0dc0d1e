/** When puts and deletes always find room.  A split is not searched for when the new node is
    small and the page holds many; it can then fail only for a node that is small in the eyes
    of the source, but bigger than half a page of the smallest nodes.  Without such nodes no
    operation ever ends in MDB_PAGE_FULL, and with one any put may. */
module BTreeTotal {
  import opened Wrappers
  import opened PageLayout
  import opened SplitPoint
  import Rebalance
  import opened BTree
  import opened BTreeShape
  import opened BTreeInsert
  import opened BTreeDelete
  import opened BTreeRoom
  import opened BTreeTheorems
  import opened BTreeStored

  /** The split is searched for, or every cut in the middle is good. */
  predicate SafeWeight(psize: int, x: int) {
    x > Pmax(psize) / 16 || x <= SMALLEST * ((psize / 128 + 1) / 2)
  }

  predicate SafeKey(psize: int, key: Key) {
    SafeWeight(psize, Round(2 + NODESIZE + |key.bytes|))
  }

  /** All keys of items and all separators are safe. */
  ghost predicate SafeTree(psize: int, t: Tree)
    decreases t
  {
    match t
    case Leaf(items) => SafeItems(psize, items)
    case Branch(kids) => forall i :: 0 <= i < |kids| ==> SafeKid(psize, kids[i])
  }

  ghost predicate SafeItems(psize: int, items: seq<Item>) {
    forall i :: 0 <= i < |items| ==> SafeKey(psize, items[i].key)
  }

  ghost predicate SafeKid(psize: int, kid: Kid)
    decreases kid
  {
    SafeKey(psize, kid.key) && SafeTree(psize, kid.child)
  }

  /** A change that found room, and what it leaves is safe again. */
  ghost predicate Roomy(psize: int, r: Res) {
    match r
    case Full => false
    case One(t, _, _) => SafeTree(psize, t)
    case Two(left, sep, right, _, _) => SafeTree(psize, left) && SafeKey(psize, sep) && SafeTree(psize, right)
  }

  // ------------------------------------------------------------ splits

  lemma CutFits(leaf: bool, psize: int, w: seq<int>, i: nat)
    requires PageSize(psize) && i < |w| && (leaf || i > 0) && Sum(w) > Pmax(psize)
    requires Legal(leaf, psize, Without(w, i))
    requires Weight(leaf, psize, i, w[i]) && SafeWeight(psize, w[i])
    ensures |w| >= 3 && Splits(leaf, psize, w, SplitIndex(leaf, psize, Without(w, i), i, w[i]))
  {
    hide Sum, Legal, Splits, Combined, MaxWeight, Scans, SafeWeight, Others, SplitIndex;
    var v := Without(w, i);
    CombinedWithout(w, i);
    SumCombined(v, i, w[i]);
    TwoKeys(leaf, psize, v, w[i]);
    if Scans(psize, |v|, i, w[i]) {
      SearchSplits(leaf, psize, v, i, w[i]);
    } else {
      MiddleOthers(psize, |v|, i, w[i]);
      MiddleExact(leaf, psize, |v|, i, w[i]);
      MiddleIndex(leaf, psize, v, i, w[i]);
    }
  }

  lemma MiddleOthers(psize: int, nkeys: nat, i: nat, x: int)
    requires PageSize(psize) && i <= nkeys && !Scans(psize, nkeys, i, x) && SafeWeight(psize, x)
    ensures i < nkeys && x <= SMALLEST * Others(nkeys, i)
  {
  }

  lemma MiddleIndex(leaf: bool, psize: int, v: seq<int>, i: nat, x: int)
    requires i <= |v| && |v| >= 2 && !Scans(psize, |v|, i, x)
    ensures SplitIndex(leaf, psize, v, i, x) == (|v| + 1) / 2
  {
  }

  // ------------------------------------------------------------ leaves

  lemma {:induction false} ItemWeightAt(psize: int, items: seq<Item>, k: nat)
    requires k < |items|
    ensures ItemWeights(psize, items)[k] == ItemWeight(psize, items[k])
    decreases |items|
  {
    if k < |items| - 1 {
      ItemWeightAt(psize, items[..|items| - 1], k);
    }
  }

  lemma LeafLegal(psize: int, w: seq<int>, i: nat)
    requires i < |w| && Sum(Without(w, i)) <= Pmax(psize)
    requires forall k | 0 <= k < |w| :: Weight(true, psize, k, w[k])
    ensures Legal(true, psize, Without(w, i)) && Weight(true, psize, i, w[i])
  {
    hide Sum, MaxWeight;
    assert forall k | 0 <= k < |w| - 1 :: Without(w, i)[k] == w[if k < i then k else k + 1];
  }

  lemma FitLeafRoom(psize: int, c: seq<Item>, i: nat, lo: real, hi: real)
    requires 4096 <= psize <= 0x8000 && psize % 2 == 0 && i < |c| && Ranks(c, lo, hi) && SafeItems(psize, c)
    requires Sum(Without(ItemWeights(psize, c), i)) <= Pmax(psize) && SafeWeight(psize, ItemWeight(psize, c[i]))
    ensures Roomy(psize, FitLeaf(psize, c, i))
  {
    hide Sum, ItemWeights, ItemWeight, SafeWeight, SplitIndex, Legal, Weight, MaxWeight;
    var w := ItemWeights(psize, c);
    ItemsWeights(psize, c, lo, hi);
    ItemWeightAt(psize, c, i);
    LeafLegal(psize, w, i);
    if Sum(w) > Pmax(psize) {
      CutFits(true, psize, w, i);
    }
  }

  /** The weights around the changed item are those of the leaf before. */
  lemma WithoutSmaller(w: seq<int>, i: nat)
    requires i < |w| && w[i] >= 0
    ensures Sum(Without(w, i)) <= Sum(w)
  {
    hide Sum;
    SumCut(w, i);
    SumConcat(w[..i], w[i + 1..]);
  }

  lemma ReplacedWeights(psize: int, items: seq<Item>, i: nat, it: Item)
    requires i < |items|
    ensures Without(ItemWeights(psize, items[i := it]), i) == Without(ItemWeights(psize, items), i)
  {
    hide ItemWeights, ItemWeight;
    AroundItem(items, i, it);
    var a, b := items[..i], items[i + 1..];
    ItemWeightsConcat(psize, a + [it], b);
    ItemWeightsConcat(psize, a, [it]);
    ItemWeightsConcat(psize, a + [items[i]], b);
    ItemWeightsConcat(psize, a, [items[i]]);
  }

  lemma InsertedWeights(psize: int, items: seq<Item>, i: nat, it: Item)
    requires i <= |items|
    ensures Without(ItemWeights(psize, items[..i] + [it] + items[i..]), i) == ItemWeights(psize, items)
  {
    hide ItemWeights, ItemWeight;
    var a, b := items[..i], items[i..];
    ItemWeightsConcat(psize, a + [it], b);
    ItemWeightsConcat(psize, a, [it]);
    ItemWeightsConcat(psize, a, b);
    assert items == a + b;
  }

  lemma InsertLeafRoom(psize: int, items: seq<Item>, it: Item, lo: real, hi: real)
    requires 4096 <= psize <= 0x8000 && psize % 2 == 0
    requires Shape(psize, Leaf(items), 1, lo, hi) && lo <= it.key.rank < hi && KeyOk(it.key)
    requires SafeItems(psize, items) && SafeKey(psize, it.key) && SafeWeight(psize, ItemWeight(psize, it))
    ensures Roomy(psize, InsertLeaf(psize, items, it))
  {
    hide ItemWeights, ItemWeight, Sum, LeafPos, FitLeaf, SafeKey, SafeWeight, Ranks, ItemsMap;
    var i := LeafPos(items, it.key.rank);
    if i < |items| && items[i].key.rank == it.key.rank {
      if |items[i].val| != |it.val| {
        ReplacedItems(items, i, it, lo, hi);
        ReplacedWeights(psize, items, i, it);
        ItemsWeights(psize, items, lo, hi);
        WithoutSmaller(ItemWeights(psize, items), i);
        FitLeafRoom(psize, items[i := it], i, lo, hi);
      }
    } else {
      InsertedItems(items, i, it, lo, hi);
      InsertedWeights(psize, items, i, it);
      FitLeafRoom(psize, items[..i] + [it] + items[i..], i, lo, hi);
    }
  }

  // ------------------------------------------------------------ branch pages

  lemma {:induction false} KidsWeights(psize: int, kids: seq<Kid>, height: int, lo: real, hi: real)
    requires 4096 <= psize <= 0x8000 && KidsOk(psize, kids, height, lo, hi) && kids[0].key == NOKEY
    ensures forall i | 0 <= i < |kids| :: Weight(false, psize, i, KidWeights(kids)[i])
    decreases |kids|
  {
    hide MaxWeight;
    var n := |kids| - 1;
    KidWeightsOne(kids[n]);
    LargestFits(psize);
    RoundUp(2 + NODESIZE + |kids[n].key.bytes|, 0);
    if n > 0 {
      KidsWeights(psize, kids[..n], height, lo, kids[n].key.rank);
    }
  }

  lemma LargestFits(psize: int)
    requires psize >= 4096
    ensures LARGEST_BRANCH <= MaxWeight(psize)
  {
  }

  lemma {:induction false} KidWeightAt(kids: seq<Kid>, k: nat)
    requires k < |kids|
    ensures KidWeights(kids)[k] == KidWeight(kids[k])
    decreases |kids|
  {
    if k < |kids| - 1 {
      KidWeightAt(kids[..|kids| - 1], k);
    }
  }

  lemma BranchLegal(psize: int, w: seq<int>, i: nat)
    requires 0 < i < |w| && Sum(Without(w, i)) <= Pmax(psize)
    requires forall k | 0 <= k < |w| :: Weight(false, psize, k, w[k])
    ensures Legal(false, psize, Without(w, i))
  {
    hide Sum, MaxWeight;
    assert forall k | 0 <= k < |w| - 1 :: Without(w, i)[k] == w[if k < i then k else k + 1];
  }

  lemma FitBranchRoom(psize: int, c: seq<Kid>, i: nat, height: int, lo: real, hi: real)
    requires 4096 <= psize <= 0x8000 && psize % 2 == 0 && 0 < i < |c|
    requires KidsOk(psize, c, height, lo, hi) && c[0].key == NOKEY
    requires forall k | 0 <= k < |c| :: SafeKid(psize, c[k])
    requires Sum(Without(KidWeights(c), i)) <= Pmax(psize)
    ensures Roomy(psize, FitBranch(psize, c, i))
  {
    hide Sum, KidWeights, SplitIndex, Legal, Weight, MaxWeight, KidsOk, SafeWeight;
    var w := KidWeights(c);
    KidsWeights(psize, c, height, lo, hi);
    KidWeightAt(c, i);
    BranchLegal(psize, w, i);
    assert SafeKid(psize, c[i]);
    NoKeySafe(psize);
    if Sum(w) > Pmax(psize) {
      CutFits(false, psize, w, i);
      RekeyedSafe(psize, c[SplitIndex(false, psize, Without(w, i), i, w[i])..], NOKEY);
    }
  }

  lemma NoKeySafe(psize: int)
    requires psize >= 4096
    ensures SafeKey(psize, NOKEY)
  {
  }

  lemma RekeyedSafe(psize: int, kids: seq<Kid>, key: Key)
    requires kids != [] && SafeKey(psize, key) && forall k | 0 <= k < |kids| :: SafeKid(psize, kids[k])
    ensures forall k | 0 <= k < |kids| :: SafeKid(psize, Rekeyed(kids, key)[k])
  {
    assert SafeKid(psize, kids[0]);
  }

  ghost predicate SafeKids(psize: int, kids: seq<Kid>) {
    forall k :: 0 <= k < |kids| ==> SafeKid(psize, kids[k])
  }

  /** Neighbouring children m give way to the two pages of r. */
  lemma TwoRoom(psize: int, a: seq<Kid>, m: seq<Kid>, b: seq<Kid>, key: Key, r: Res, height: int, lo: real, hi: real,
                rank: real, v: Option<seq<int>>)
    requires 4096 <= psize <= 0x8000 && psize % 2 == 0 && height >= 1
    requires m != [] && KidsOk(psize, a + m + b, height, lo, hi) && key == m[0].key && (a + m + b)[0].key == NOKEY
    requires ZoneLo(a, m, lo) <= rank < ZoneHi(b, hi)
    requires r.Two? && Becomes(psize, r, height, ZoneLo(a, m, lo), ZoneHi(b, hi), Upd(KidsMap(m), rank, v))
    requires SafeKids(psize, a) && SafeKids(psize, b) && SafeKey(psize, key) && Roomy(psize, r)
    requires Fits(psize, Branch(a + [Kid(key, r.left)] + b))
    ensures Roomy(psize, FitBranch(psize, a + AsKids(key, r) + b, |a| + 1))
  {
    hide KidsOk, KidsMap, FitBranch, KidWeights, Sum, Becomes, SafeKey, SafeTree, KidWeight;
    var s := AsKids(key, r);
    AsKidsTwo(key, r);
    AsKidsOk(psize, key, r, height, ZoneLo(a, m, lo), ZoneHi(b, hi), Upd(KidsMap(m), rank, v));
    ReplaceMiddle(psize, a, m, b, s, height, lo, hi, rank, v);
    var c := a + s + b;
    assert c[0].key == NOKEY by {
      assert (a + m + b)[0] == if a == [] then m[0] else a[0];
    }
    SplicedWeights(a, key, r, b);
    FitBranchRoom(psize, c, |a| + 1, height, lo, hi);
  }

  lemma SplicedWeights(a: seq<Kid>, key: Key, r: Res, b: seq<Kid>)
    requires r.Two?
    ensures |a| + 1 < |a + AsKids(key, r) + b|
    ensures Without(KidWeights(a + AsKids(key, r) + b), |a| + 1) == KidWeights(a + [Kid(key, r.left)] + b)
  {
    hide KidWeights, KidWeight;
    var x, y := Kid(key, r.left), Kid(r.sep, r.right);
    assert AsKids(key, r) == [x] + [y];
    assert a + AsKids(key, r) + b == a + [x] + [y] + b;
    KidWeightsConcat(a + [x] + [y], b);
    KidWeightsConcat(a + [x], [y]);
    KidWeightsConcat(a + [x], b);
    KidWeightsConcat(a, [x]);
    KidWeightsOne(x);
    KidWeightsOne(y);
  }

  lemma WithKidRoom(psize: int, kids: seq<Kid>, i: nat, r: Res, height: int, lo: real, hi: real, rank: real,
                    v: Option<seq<int>>)
    requires 4096 <= psize <= 0x8000 && psize % 2 == 0 && height >= 1 && i < |kids|
    requires Fits(psize, Branch(kids)) && KidsOk(psize, kids, height, lo, hi) && kids[0].key == NOKEY
    requires var l, h := ZoneLo(kids[..i], [kids[i]], lo), ZoneHi(kids[i + 1..], hi);
      l <= rank < h && Becomes(psize, r, height, l, h, Upd(Content(kids[i].child), rank, v))
    requires SafeKids(psize, kids) && Roomy(psize, r)
    ensures Roomy(psize, WithKid(psize, kids, i, r))
  {
    hide KidsOk, KidsMap, FitBranch, AsKids, KidWeights, Sum, Becomes, SafeKey;
    var a, b := kids[..i], kids[i + 1..];
    assert SafeKid(psize, kids[i]);
    if r.Two? {
      SpliceParts(kids, i, AsKids(kids[i].key, r));
      OneKid(kids[i]);
      SpliceParts(kids, i, [Kid(kids[i].key, r.left)]);
      SameKeysSameWeights(kids, a + [Kid(kids[i].key, r.left)] + b);
      TwoRoom(psize, a, [kids[i]], b, kids[i].key, r, height, lo, hi, rank, v);
    } else {
      assert SafeKid(psize, Kid(kids[i].key, r.t));
      assert SafeKids(psize, kids[i := Kid(kids[i].key, r.t)]);
    }
  }

  // ------------------------------------------------------------ insertion

  /** A put of a safe item in a safe tree always finds room and leaves a safe tree. */
  lemma {:induction false} InsertRoom(psize: int, t: Tree, it: Item, height: int, lo: real, hi: real)
    requires 4096 <= psize <= 0x8000 && psize % 2 == 0 && Shape(psize, t, height, lo, hi) && Enough(t)
    requires lo <= it.key.rank < hi && KeyOk(it.key)
    requires SafeTree(psize, t) && SafeKey(psize, it.key) && SafeWeight(psize, ItemWeight(psize, it))
    ensures Roomy(psize, Insert(psize, t, it))
    decreases t
  {
    hide KidsOk, KidsMap, ItemsMap, SafeKey, SafeItems, Roomy, WithKid, Becomes, EnoughRes, Content, ChildIndex,
         InsertLeaf, ItemWeight, Fits, Ranks, ZoneLo, ZoneHi, Upd;
    if t.Leaf? {
      InsertLeafRoom(psize, t.items, it, lo, hi);
    } else {
      var l, h := ChildShape(psize, t.kids, height, lo, hi, it.key.rank);
      var i := ChildIndex(t.kids, it.key.rank);
      assert SafeKid(psize, t.kids[i]);
      InsertRoom(psize, t.kids[i].child, it, height - 1, l, h);
      InsertOk(psize, t.kids[i].child, it, height - 1, l, h);
      BelowRoom(psize, t, i, Insert(psize, t.kids[i].child, it), height, lo, hi, it.key.rank, Some(it.val));
    }
  }

  lemma BelowRoom(psize: int, t: Tree, i: nat, r: Res, height: int, lo: real, hi: real, rank: real, v: Option<seq<int>>)
    requires 4096 <= psize <= 0x8000 && psize % 2 == 0 && t.Branch? && i < |t.kids|
    requires Shape(psize, t, height, lo, hi) && SafeTree(psize, t) && Roomy(psize, r)
    requires var l, h := ZoneLo(t.kids[..i], [t.kids[i]], lo), ZoneHi(t.kids[i + 1..], hi);
      l <= rank < h && Becomes(psize, r, height - 1, l, h, Upd(Content(t.kids[i].child), rank, v))
    ensures Roomy(psize, WithKid(psize, t.kids, i, r))
  {
    hide KidsOk, Becomes, SafeKey, Roomy, WithKid, Content;
    WithKidRoom(psize, t.kids, i, r, height - 1, lo, hi, rank, v);
  }

  // ------------------------------------------------------------ deletion

  lemma {:induction false} LowSafe(psize: int, t: Tree)
    requires psize >= 4096 && SafeTree(psize, t)
    ensures SafeKey(psize, LowKey(t))
    decreases t
  {
    NoKeySafe(psize);
    if t.Branch? && t.kids != [] {
      assert SafeKid(psize, t.kids[0]);
      LowSafe(psize, t.kids[0].child);
    }
  }

  lemma MergedSafe(psize: int, a: Tree, b: Tree)
    requires psize >= 4096 && SafeTree(psize, a) && SafeTree(psize, b)
    ensures SafeTree(psize, Merged(a, b))
  {
    hide SafeKey, LowKey;
    LowSafe(psize, b);
    if a.Branch? && b.Branch? && b.kids != [] {
      RekeyedSafe(psize, b.kids, LowKey(b));
    }
  }

  lemma MovedSafe(psize: int, a: Tree, b: Tree, left: bool)
    requires psize >= 4096 && SafeTree(psize, a) && SafeTree(psize, b)
    ensures var p := if left then MovedLeft(a, b) else MovedRight(a, b);
      SafeTree(psize, p.0) && SafeKey(psize, p.1) && SafeTree(psize, p.2)
  {
    hide SafeKey, LowKey;
    LowSafe(psize, b);
    NoKeySafe(psize);
    if left {
      MovedLeftSafe(psize, a, b);
    } else {
      MovedRightSafe(psize, a, b);
    }
  }

  lemma MovedLeftSafe(psize: int, a: Tree, b: Tree)
    requires SafeTree(psize, a) && SafeTree(psize, b) && SafeKey(psize, LowKey(b)) && SafeKey(psize, NOKEY)
    ensures var p := MovedLeft(a, b); SafeTree(psize, p.0) && SafeKey(psize, p.1) && SafeTree(psize, p.2)
  {
    hide SafeKey, LowKey;
    if b.Branch? && |b.kids| >= 2 {
      assert SafeKid(psize, b.kids[0]) && SafeKid(psize, b.kids[1]);
      RekeyedSafe(psize, b.kids[1..], NOKEY);
      assert SafeKid(psize, Kid(LowKey(b), b.kids[0].child));
    }
  }

  lemma MovedRightSafe(psize: int, a: Tree, b: Tree)
    requires SafeTree(psize, a) && SafeTree(psize, b) && SafeKey(psize, LowKey(b)) && SafeKey(psize, NOKEY)
    ensures var p := MovedRight(a, b); SafeTree(psize, p.0) && SafeKey(psize, p.1) && SafeTree(psize, p.2)
  {
    hide SafeKey, LowKey;
    if a.Branch? && b.Branch? && |a.kids| >= 2 && b.kids != [] {
      var n := |a.kids| - 1;
      assert SafeKid(psize, a.kids[n]);
      RekeyedSafe(psize, b.kids, LowKey(b));
      assert SafeKid(psize, Kid(NOKEY, a.kids[n].child));
    }
  }

  /** A pair of neighbours, one of which is to be rebalanced, is merged or a node is moved;
      either finds room. */
  lemma PairRoom(psize: int, a: seq<Kid>, x: Kid, y: Kid, b: seq<Kid>, x0: Kid, y0: Kid, left: bool,
                 height: int, lo: real, hi: real, rank: real)
    requires 4096 <= psize <= 0x8000 && psize % 2 == 0 && height >= 1
    requires KidsOk(psize, a + [x0, y0] + b, height, lo, hi) && x.key == x0.key && y.key == y0.key
    requires Fits(psize, Branch(a + [x, y] + b)) && (a + [x, y] + b)[0].key == NOKEY
    requires var l, h := ZoneLo(a, [x0, y0], lo), ZoneHi(b, hi);
      l <= rank < h && Pair(psize, x, y, height, l, h, Upd(KidsMap([x0, y0]), rank, None))
    requires NeedsRebalance(psize, if left then x.child else y.child)
    requires SafeKids(psize, a) && SafeKid(psize, x) && SafeKid(psize, y) && SafeKids(psize, b)
    ensures var kids, n := a + [x, y] + b, |a|;
      var c := if CanSpare(psize, if left then y.child else x.child)
               then MoveKids(psize, kids, n, if left then MovedLeft(x.child, y.child) else MovedRight(x.child, y.child))
               else MergeKids(psize, kids, n);
      Roomy(psize, c.res)
  {
    hide KidsMap, KidsOk, MergeKids, MoveKids, MovedLeft, MovedRight, Shape, Fits, CanSpare, NeedsRebalance,
         Becomes, SafeTree, SafeKey;
    var l, h := ZoneLo(a, [x0, y0], lo), ZoneHi(b, hi);
    if CanSpare(psize, if left then y.child else x.child) {
      var p := if left then MovedLeft(x.child, y.child) else MovedRight(x.child, y.child);
      SpareCount(psize, if left then y.child else x.child);
      if left {
        MoveLeftHasRoom(psize, x.child, y.child, height, l, y.key.rank, h);
        MovedLeftOk(psize, x.child, y.child, height, l, y.key.rank, h);
      } else {
        MoveRightHasRoom(psize, x.child, y.child, height, l, y.key.rank, h);
        MovedRightOk(psize, x.child, y.child, height, l, y.key.rank, h);
      }
      MovedSafe(psize, x.child, y.child, left);
      MoveRoom(psize, a, x, y, b, x0, y0, p, height, lo, hi, rank);
    } else {
      MergeHasRoom(psize, x.child, y.child, height, l, y.key.rank, h);
      MergedSafe(psize, x.child, y.child);
      MergeRoom(psize, a, x, y, b);
    }
  }

  lemma MergeRoom(psize: int, a: seq<Kid>, x: Kid, y: Kid, b: seq<Kid>)
    requires Fits(psize, Merged(x.child, y.child)) && SafeTree(psize, Merged(x.child, y.child))
    requires SafeKids(psize, a) && SafeKid(psize, x) && SafeKids(psize, b)
    ensures Roomy(psize, MergeKids(psize, a + [x, y] + b, |a|).res)
  {
    hide SafeKey, Merged, Fits;
    var kids, m := a + [x, y] + b, Kid(x.key, Merged(x.child, y.child));
    assert kids[..|a|] == a && kids[|a|] == x && kids[|a| + 1] == y && kids[|a| + 2..] == b;
    assert SafeKid(psize, m);
    assert SafeKids(psize, a + [m] + b);
  }

  lemma MoveRoom(psize: int, a: seq<Kid>, x: Kid, y: Kid, b: seq<Kid>, x0: Kid, y0: Kid, p: (Tree, Key, Tree),
                 height: int, lo: real, hi: real, rank: real)
    requires 4096 <= psize <= 0x8000 && psize % 2 == 0 && height >= 1
    requires KidsOk(psize, a + [x0, y0] + b, height, lo, hi) && x.key == x0.key && (a + [x, y] + b)[0].key == NOKEY
    requires Fits(psize, Branch(a + [x, y] + b)) && Fits(psize, p.0) && Fits(psize, p.2)
    requires var l, h := ZoneLo(a, [x0, y0], lo), ZoneHi(b, hi);
      l <= rank < h && Moved(psize, p, height, l, h, Upd(KidsMap([x0, y0]), rank, None))
    requires SafeKids(psize, a) && SafeKid(psize, x) && SafeKids(psize, b)
    requires SafeTree(psize, p.0) && SafeKey(psize, p.1) && SafeTree(psize, p.2)
    ensures Roomy(psize, MoveKids(psize, a + [x, y] + b, |a|, p).res)
  {
    hide KidsMap, KidsOk, FitBranch, Fits, SafeKey, SafeTree, Shape;
    var kids := a + [x, y] + b;
    var r := Two(p.0, p.1, p.2, 0, 0);
    assert kids[..|a|] == a && kids[|a|] == x && kids[|a| + 2..] == b;
    assert (a + [x0, y0] + b)[0].key == NOKEY by {
      assert kids[0] == if a == [] then x else a[0];
    }
    DroppedFits(psize, a, x, y, b, Kid(x.key, p.0));
    assert SafeKey(psize, x.key);
    TwoRoom(psize, a, [x0, y0], b, x.key, r, height, lo, hi, rank, None);
  }

  lemma RebalanceRoom(psize: int, kids: seq<Kid>, i: nat, t: Tree, height: int, lo: real, hi: real, rank: real)
    requires 4096 <= psize <= 0x8000 && psize % 2 == 0 && height >= 1 && i < |kids| && |kids| >= 2
    requires Fits(psize, Branch(kids)) && KidsOk(psize, kids, height, lo, hi) && kids[0].key == NOKEY
    requires var l, h := ZoneLo(kids[..i], [kids[i]], lo), ZoneHi(kids[i + 1..], hi);
      l <= rank < h && Shape(psize, t, height, l, h) && Content(t) == Upd(Content(kids[i].child), rank, None)
    requires SafeKids(psize, kids) && SafeTree(psize, t) && NeedsRebalance(psize, t)
    ensures Roomy(psize, RebalanceKid(psize, kids[i := Kid(kids[i].key, t)], i).res)
  {
    hide KidsMap, KidsOk, Content, Shape, MergeKids, MoveKids, MovedLeft, MovedRight, CanSpare, NeedsRebalance,
         Pair, KidWeights, Sum, SafeKey, SafeTree, Roomy;
    var kids' := kids[i := Kid(kids[i].key, t)];
    SameKeysSameWeights(kids, kids');
    assert SafeKid(psize, kids[i]);
    assert SafeKids(psize, kids');
    if i == 0 {
      var b := kids[2..];
      assert kids == [] + [kids[0], kids[1]] + b && kids' == [] + [kids'[0], kids[1]] + b;
      FirstPair(psize, kids, t, height, lo, hi, rank);
      PairRoom(psize, [], kids'[0], kids[1], b, kids[0], kids[1], true, height, lo, hi, rank);
    } else {
      var a, b := kids[..i - 1], kids[i + 1..];
      assert kids == a + [kids[i - 1], kids[i]] + b && kids' == a + [kids[i - 1], kids'[i]] + b;
      LaterPair(psize, kids, i, t, height, lo, hi, rank);
      PairRoom(psize, a, kids[i - 1], kids'[i], b, kids[i - 1], kids[i], false, height, lo, hi, rank);
    }
  }

  lemma DeleteKidRoom(psize: int, t: Tree, d: Cut, height: int, lo: real, hi: real, rank: real)
    requires 4096 <= psize <= 0x8000 && psize % 2 == 0 && t.Branch?
    requires Shape(psize, t, height, lo, hi) && |t.kids| >= 2 && lo <= rank < hi
    requires var i := ChildIndex(t.kids, rank);
      CutOk(psize, d, height - 1, ZoneLo(t.kids[..i], [t.kids[i]], lo), ZoneHi(t.kids[i + 1..], hi),
            Upd(Content(t.kids[i].child), rank, None))
    requires SafeTree(psize, t) && Roomy(psize, d.res)
    ensures Roomy(psize, DeleteKid(psize, t.kids, ChildIndex(t.kids, rank), d).res)
  {
    hide KidsMap, KidsOk, Content, WithKid, RebalanceKid, NeedsRebalance, ChildIndex, Fits, SafeKey, SafeKid, Becomes;
    var i := ChildIndex(t.kids, rank);
    ChildZone(psize, t.kids, height - 1, lo, hi, rank);
    if d.res.One? && d.shrunk && NeedsRebalance(psize, d.res.t) {
      BecomesOne(psize, d.res, height - 1, ZoneLo(t.kids[..i], [t.kids[i]], lo), ZoneHi(t.kids[i + 1..], hi),
                 Upd(Content(t.kids[i].child), rank, None));
      RebalanceRoom(psize, t.kids, i, d.res.t, height - 1, lo, hi, rank);
    } else {
      BelowRoom(psize, t, i, d.res, height, lo, hi, rank, None);
    }
  }

  lemma BecomesOne(psize: int, r: Res, height: int, lo: real, hi: real, m: map<real, seq<int>>)
    requires r.One? && Becomes(psize, r, height, lo, hi, m)
    ensures Shape(psize, r.t, height, lo, hi) && Content(r.t) == m
  {
  }

  /** A deletion in a safe tree always finds room and leaves a safe tree. */
  lemma {:induction false} DeleteRoom(psize: int, t: Tree, rank: real, height: int, lo: real, hi: real)
    requires 4096 <= psize <= 0x8000 && psize % 2 == 0 && Shape(psize, t, height, lo, hi) && Enough(t)
    requires lo <= rank < hi && SafeTree(psize, t)
    ensures Roomy(psize, Delete(psize, t, rank).res)
    decreases t
  {
    hide KidsOk, KidsMap, ItemsMap, SafeKey, SafeItems, Roomy, DeleteKid, CutOk, Content, ChildIndex, LeafPos,
         Fits, Ranks, ZoneLo, ZoneHi, Upd;
    if t.Leaf? {
      DeleteLeafRoom(psize, t.items, rank);
    } else {
      var l, h := ChildShape(psize, t.kids, height, lo, hi, rank);
      var i := ChildIndex(t.kids, rank);
      assert SafeKid(psize, t.kids[i]);
      DeleteRoom(psize, t.kids[i].child, rank, height - 1, l, h);
      DeleteOk(psize, t.kids[i].child, rank, height - 1, l, h);
      DeleteKidRoom(psize, t, Delete(psize, t.kids[i].child, rank), height, lo, hi, rank);
    }
  }

  lemma DeleteLeafRoom(psize: int, items: seq<Item>, rank: real)
    requires psize >= Rebalance.MIN_PSIZE && SafeItems(psize, items)
    ensures Roomy(psize, Delete(psize, Leaf(items), rank).res)
  {
    hide SafeKey, LeafPos;
  }

  // ------------------------------------------------------------ databases

  ghost predicate SafeDb(psize: int, db: Db) {
    DbOk(psize, db) && psize % 2 == 0 && (db.root.Some? ==> SafeTree(psize, db.root.value))
  }

  /** What a put may ask for: key and node of a safe size. */
  predicate SafeItem(psize: int, it: Item) {
    KeyOk(it.key) && SafeKey(psize, it.key) && SafeWeight(psize, ItemWeight(psize, it))
  }

  lemma PutTotal(psize: int, db: Db, it: Item)
    requires SafeDb(psize, db) && SafeItem(psize, it)
    ensures Put(psize, db, it).Some? && SafeDb(psize, Put(psize, db, it).value)
    ensures Meaning(Put(psize, db, it).value) == Meaning(db)[it.key.rank := it.val]
  {
    PutRefines(psize, db, it);
    if db.root.Some? {
      var t := db.root.value;
      var lo, hi := WideShape(psize, t, db.depth, it.key.rank);
      InsertRoom(psize, t, it, db.depth, lo, hi);
      NewRootSafe(psize, db, Insert(psize, t, it), if Get(t, it.key.rank) == None then 1 else 0);
    }
  }

  lemma NewRootSafe(psize: int, db: Db, r: Res, entries: int)
    requires psize >= 4096 && Roomy(psize, r)
    ensures NewRoot(db, r, entries).Some? && NewRoot(db, r, entries).value.root.Some?
    ensures SafeTree(psize, NewRoot(db, r, entries).value.root.value)
  {
    NoKeySafe(psize);
  }

  lemma DelTotal(psize: int, db: Db, rank: real)
    requires SafeDb(psize, db)
    ensures Del(psize, db, rank).Some? && SafeDb(psize, Del(psize, db, rank).value.0)
    ensures Meaning(Del(psize, db, rank).value.0) == Meaning(db) - {rank}
  {
    DelRefines(psize, db, rank);
    if db.root.Some? {
      var t := db.root.value;
      var lo, hi := WideShape(psize, t, db.depth, rank);
      DeleteRoom(psize, t, rank, db.depth, lo, hi);
      NewRootSafe(psize, db, Delete(psize, t, rank).res, -1);
      if Get(t, rank) != None {
        CollapsedSafe(psize, NewRoot(db, Delete(psize, t, rank).res, -1).value);
      }
    }
  }

  lemma CollapsedSafe(psize: int, db: Db)
    requires db.root.Some? && SafeTree(psize, db.root.value)
    ensures Collapsed(db).root.Some? ==> SafeTree(psize, Collapsed(db).root.value)
  {
    if db.root.value.Branch? && |db.root.value.kids| == 1 {
      assert SafeKid(psize, db.root.value.kids[0]);
    }
  }

  /** Over every run whose puts are of safe sizes no operation fails, and the database does
      what the map does. */
  lemma {:induction false} RunTotal(psize: int, db: Db, run: seq<Op>)
    requires SafeDb(psize, db) && forall i | 0 <= i < |run| && run[i].PutOp? :: SafeItem(psize, run[i].it)
    ensures psize >= Rebalance.MIN_PSIZE && After(psize, db, run).Some?
    ensures SafeDb(psize, After(psize, db, run).value) && Meaning(After(psize, db, run).value) == MapAfter(Meaning(db), run)
    decreases |run|
  {
    hide Put, Del, SafeDb, Meaning, SafeItem;
    SafePsize(psize, db);
    if run != [] {
      match run[0]
      case PutOp(it) =>
        PutTotal(psize, db, it);
        RunTotal(psize, Put(psize, db, it).value, run[1..]);
      case DelOp(rank) =>
        DelTotal(psize, db, rank);
        RunTotal(psize, Del(psize, db, rank).value.0, run[1..]);
    }
  }

  lemma SafePsize(psize: int, db: Db)
    requires SafeDb(psize, db)
    ensures psize >= Rebalance.MIN_PSIZE
  {
  }

  /** In particular every run that starts with an empty database. */
  lemma RunFromEmpty(psize: int, run: seq<Op>)
    requires 4096 <= psize <= 0x8000 && psize % 2 == 0
    requires forall i | 0 <= i < |run| && run[i].PutOp? :: SafeItem(psize, run[i].it)
    ensures After(psize, EMPTY, run).Some?
    ensures DbOk(psize, After(psize, EMPTY, run).value) && Meaning(After(psize, EMPTY, run).value) == MapAfter(map[], run)
  {
    EmptyOk(psize);
    RunTotal(psize, EMPTY, run);
  }

  /** From 11264 bytes a page on, every key is safe. */
  lemma BigPagesSafe(psize: int, key: Key)
    requires 11264 <= psize && KeyOk(key)
    ensures SafeKey(psize, key)
  {
  }

  // ------------------------------------------------------------ what runs can reach

  /** All keys that are put are safe; the sizes of the items do not matter. */
  predicate SafeOps(psize: int, run: seq<Op>) {
    forall i :: 0 <= i < |run| && run[i].PutOp? ==> KeyOk(run[i].it.key) && SafeKey(psize, run[i].it.key)
  }

  /** The database is what some run of puts of safe keys and of deletes makes of an empty one. */
  ghost predicate Reached(psize: int, db: Db) {
    psize >= Rebalance.MIN_PSIZE && exists run :: SafeOps(psize, run) && After(psize, EMPTY, run) == Some(db)
  }

  lemma {:induction false} KeysSafe(psize: int, t: Tree, ks: Keys)
    requires psize >= 4096 && KeysIn(t, ks) && forall key | key in ks :: SafeKey(psize, key)
    ensures SafeTree(psize, t)
    decreases t
  {
    hide SafeKey;
    NoKeySafe(psize);
    if t.Branch? {
      forall i | 0 <= i < |t.kids|
        ensures SafeKid(psize, t.kids[i])
      {
        assert KidKeysIn(t.kids[i], ks);
        KeysSafe(psize, t.kids[i].child, ks);
      }
    }
  }

  lemma ReachedSafe(psize: int, db: Db)
    requires 4096 <= psize <= 0x8000 && psize % 2 == 0 && Reached(psize, db)
    ensures SafeDb(psize, db)
  {
    hide SafeKey, After;
    var run :| SafeOps(psize, run) && After(psize, EMPTY, run) == Some(db);
    EmptyOk(psize);
    RunRefines(psize, EMPTY, run);
    KeysWerePut(psize, run);
    if db.root.Some? {
      KeysSafe(psize, db.root.value, PutKeysOf(run));
    }
  }

  // ------------------------------------------------------------ a put that fails

  function Bytes(n: int): (s: seq<int>)
    ensures |s| == if n < 0 then 0 else n
  {
    seq(if n < 0 then 0 else n, i => 0)
  }

  /** An item with a key of one byte and the given weight. */
  function Weighing(rank: real, x: int): Item {
    Item(Key(rank, [0]), Bytes(x - 11))
  }

  function WeighingAll(w: seq<int>): (s: seq<Item>)
    ensures |s| == |w| && forall k | 0 <= k < |w| :: s[k] == Weighing(k as real, w[k])
  {
    seq(|w|, k requires 0 <= k < |w| => Weighing(k as real, w[k]))
  }

  lemma WeighingWeighs(psize: int, rank: real, x: int)
    requires PageSize(psize) && SMALLEST <= x <= MaxWeight(psize) && SplitPoint.Even(x)
    ensures ItemWeight(psize, Weighing(rank, x)) == x
  {
    hide MaxWeight;
  }

  lemma WeighingRanks(w: seq<int>)
    ensures Ranks(WeighingAll(w), 0.0, |w| as real)
  {
  }

  lemma WeighingFits(psize: int, w: seq<int>)
    requires PageSize(psize) && Legal(true, psize, w)
    ensures ItemWeights(psize, WeighingAll(w)) == w
  {
    hide ItemWeights, Weighing, ItemWeight, MaxWeight;
    var s := WeighingAll(w);
    forall k | 0 <= k < |w| ensures ItemWeights(psize, s)[k] == w[k] {
      assert Weight(true, psize, k, w[k]);
      WeighingWeighs(psize, k as real, w[k]);
      ItemWeightAt(psize, s, k);
    }
  }

  lemma {:induction false} PosBetween(items: seq<Item>, rank: real, i: nat)
    requires i <= |items|
    requires forall k | 0 <= k < i :: items[k].key.rank < rank
    requires forall k | i <= k < |items| :: rank < items[k].key.rank
    ensures LeafPos(items, rank) == i
    decreases |items|
  {
    if i < |items| {
      PosBetween(items[..|items| - 1], rank, i);
    }
  }

  lemma OneByteSafe(psize: int, rank: real, x: int)
    requires 4096 <= psize
    ensures SafeKey(psize, Weighing(rank, x).key) && KeyOk(Weighing(rank, x).key)
  {
  }

  /** As few nodes as keep the source from searching, the new one in the middle. */
  lemma Unsearched(psize: int, x: int) returns (n: nat, i: nat)
    requires 4096 <= psize <= 0x8000 && psize % 2 == 0 && SMALLEST <= x && !SafeWeight(psize, x)
    ensures 32 <= n && i == (n + 1) / 2 < n && !Scans(psize, n, i, x) && x > SMALLEST * Others(n, i)
    ensures x <= MaxWeight(psize)
  {
    n := psize / 128;
    i := (n + 1) / 2;
  }

  /** The puts of items, in order. */
  function Puts(items: seq<Item>): (run: seq<Op>)
    ensures |run| == |items| && forall k | 0 <= k < |items| :: run[k] == PutOp(items[k])
  {
    seq(|items|, k requires 0 <= k < |items| => PutOp(items[k]))
  }

  lemma {:induction false} AfterLast(psize: int, db: Db, run: seq<Op>, it: Item)
    requires psize >= Rebalance.MIN_PSIZE && After(psize, db, run).Some?
    ensures After(psize, db, run + [PutOp(it)]) == Put(psize, After(psize, db, run).value, it)
    decreases |run|
  {
    hide Put, Del;
    var all := run + [PutOp(it)];
    if run == [] {
      assert all == [PutOp(it)] && all[1..] == [];
    } else {
      assert all[0] == run[0] && all[1..] == run[1..] + [PutOp(it)];
      match run[0]
      case PutOp(x) => AfterLast(psize, Put(psize, db, x).value, run[1..], it);
      case DelOp(rank) => AfterLast(psize, Del(psize, db, rank).value.0, run[1..], it);
    }
  }

  /** A database of a single leaf. */
  function OneLeaf(items: seq<Item>): Db {
    Db(Some(Leaf(items)), 1, |items|, 1, 0)
  }

  /** An item behind all others, for which the leaf has room. */
  lemma PutBehind(psize: int, items: seq<Item>, it: Item)
    requires psize >= 4096 && forall k | 0 <= k < |items| :: items[k].key.rank < it.key.rank
    requires Fits(psize, Leaf(items + [it]))
    ensures items == [] ==> Put(psize, EMPTY, it) == Some(OneLeaf([it]))
    ensures Put(psize, OneLeaf(items), it) == Some(OneLeaf(items + [it]))
  {
    hide ItemWeights, Sum, LeafPos;
    PosBetween(items, it.key.rank, |items|);
    assert items[..|items|] + [it] + items[|items|..] == items + [it];
  }

  /** Leaves are filled by puts in order. */
  lemma {:induction false} FilledByPuts(psize: int, w: seq<int>, n: nat)
    requires PageSize(psize) && psize >= 4096 && Legal(true, psize, w) && 0 < n <= |w|
    ensures After(psize, EMPTY, Puts(WeighingAll(w)[..n])) == Some(OneLeaf(WeighingAll(w)[..n]))
    decreases n
  {
    hide After, Put, Legal, ItemWeights, Weighing, Sum;
    var items := WeighingAll(w);
    var a, it := items[..n - 1], items[n - 1];
    assert items[..n] == a + [it];
    assert Puts(items[..n]) == Puts(a) + [PutOp(it)];
    PrefixFits(psize, w, n);
    WeighingRanks(w);
    PutBehind(psize, a, it);
    if n == 1 {
      assert a == [] && Puts(a) == [] && a + [it] == [it];
      AfterNothing(psize);
    } else {
      FilledByPuts(psize, w, n - 1);
    }
    AfterLast(psize, EMPTY, Puts(a), it);
  }

  lemma AfterNothing(psize: int)
    requires psize >= Rebalance.MIN_PSIZE
    ensures After(psize, EMPTY, []) == Some(EMPTY)
  {
  }

  lemma PrefixFits(psize: int, w: seq<int>, n: nat)
    requires PageSize(psize) && Legal(true, psize, w) && n <= |w|
    ensures Fits(psize, Leaf(WeighingAll(w)[..n]))
  {
    hide ItemWeights, Weighing, Sum, MaxWeight;
    WeighingFits(psize, w);
    ItemWeightsPart(psize, WeighingAll(w), n);
    assert forall k | 0 <= k < |w| :: Weight(true, psize, k, w[k]);
    TailFits(psize, w, n);
  }

  lemma PutsSafe(psize: int, w: seq<int>)
    requires psize >= 4096
    ensures SafeOps(psize, Puts(WeighingAll(w)))
  {
    hide Weighing, SafeKey;
    forall k | 0 <= k < |w| ensures KeyOk(WeighingAll(w)[k].key) && SafeKey(psize, WeighingAll(w)[k].key) {
      OneByteSafe(psize, k as real, w[k]);
    }
  }

  /** An unsafe item, and a run of puts of safe keys after which it finds no room: they leave a
      single full leaf, its bigger items behind the place of the new one. */
  lemma PutCanFail(psize: int, x: int) returns (run: seq<Op>, db: Db, it: Item)
    requires 4096 <= psize <= 0x8000 && psize % 2 == 0
    requires SMALLEST <= x && SplitPoint.Even(x) && !SafeWeight(psize, x)
    ensures SafeOps(psize, run) && After(psize, EMPTY, run) == Some(db)
    ensures KeyOk(it.key) && SafeKey(psize, it.key) && ItemWeight(psize, it) == x
    ensures Put(psize, db, it) == None
  {
    hide Sum, ItemWeights, ItemWeight, Legal, Splits, Weighing, LeafPos, Ranks, ItemsMap, Combined,
         Without, SafeKey, SafeWeight, Others, MaxWeight, After, SafeOps, Insert;
    var n, i := Unsearched(psize, x);
    var w := Overfull(true, psize, n, i, x);
    var items := WeighingAll(w);
    run, db := Puts(items), OneLeaf(items);
    PutsSafe(psize, w);
    FilledByPuts(psize, w, n);
    assert items[..n] == items;
    it := Weighing(i as real - 0.5, x);
    OneByteSafe(psize, i as real - 0.5, x);
    WeighingWeighs(psize, i as real - 0.5, x);
    FailsToFit(psize, w, i, items, it, x);
    NoRoomNoPut(psize, items, it);
  }

  lemma NoRoomNoPut(psize: int, items: seq<Item>, it: Item)
    requires InsertLeaf(psize, items, it).Full?
    ensures Put(psize, OneLeaf(items), it) == None
  {
    hide InsertLeaf;
  }

  lemma FailsToFit(psize: int, w: seq<int>, i: nat, items: seq<Item>, it: Item, x: int)
    requires PageSize(psize) && i == (|w| + 1) / 2 < |w| && |w| >= 2 && Legal(true, psize, w) && Sum(w) == Pmax(psize)
    requires items == WeighingAll(w) && it == Weighing(i as real - 0.5, x)
    requires SMALLEST <= x <= MaxWeight(psize) && SplitPoint.Even(x) && !Scans(psize, |w|, i, x)
    requires !Splits(true, psize, Combined(w, i, x), (|w| + 1) / 2)
    ensures InsertLeaf(psize, items, it).Full?
  {
    hide Sum, ItemWeights, ItemWeight, LeafPos, Combined, Without, Legal, MaxWeight, Scans;
    PosBetween(items, it.key.rank, i);
    var c := items[..i] + [it] + items[i..];
    InsertedWeights(psize, items, i, it);
    WeighingFits(psize, w);
    ItemWeightAt(psize, c, i);
    WeighingWeighs(psize, it.key.rank, x);
    CombinedWithout(ItemWeights(psize, c), i);
    SumCombined(w, i, x);
    MiddleIndex(true, psize, w, i, x);
  }

  /** A put of an item of weight x, with a safe key, into a database that puts of safe keys and
      deletes have made. */
  ghost predicate Asked(psize: int, db: Db, it: Item, x: int) {
    Reached(psize, db) && KeyOk(it.key) && SafeKey(psize, it.key) && ItemWeight(psize, it) == x
  }

  /** The sizes are exact: an item is of a safe size if and only if no database that puts of
      safe keys and deletes can make, whatever its items, fails to take it. */
  lemma SafeExact(psize: int, x: int)
    requires 4096 <= psize <= 0x8000 && psize % 2 == 0 && SMALLEST <= x && SplitPoint.Even(x)
    ensures SafeWeight(psize, x) <==> forall db: Db, it: Item | Asked(psize, db, it, x) :: Put(psize, db, it).Some?
  {
    hide SafeWeight, SafeDb, SafeKey, ItemWeight, Put;
    if SafeWeight(psize, x) {
      forall db: Db, it: Item | Asked(psize, db, it, x) ensures Put(psize, db, it).Some? {
        ReachedSafe(psize, db);
        PutTotal(psize, db, it);
      }
    } else {
      var run, db, it := PutCanFail(psize, x);
      assert Reached(psize, db);
      assert Asked(psize, db, it, x) && Put(psize, db, it) == None;
    }
  }
}
