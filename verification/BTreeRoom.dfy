/** Rebalancing always finds room on the pages it merges or moves between, and a searched
    split always succeeds: only an unchecked cut in the middle can fail. */
module BTreeRoom {
  import opened Wrappers
  import opened PageLayout
  import opened SplitPoint
  import Rebalance
  import opened BTree
  import opened BTreeShape
  import opened BTreeInsert
  import opened BTreeDelete

  // ------------------------------------------------------------ weights of the pages of a tree

  lemma ItemWeightBounds(psize: int, it: Item)
    requires 4096 <= psize <= 0x8000 && KeyOk(it.key)
    ensures SMALLEST <= ItemWeight(psize, it) <= MaxWeight(psize) && SplitPoint.Even(ItemWeight(psize, it))
  {
    RoundUp(2 + NODESIZE + |it.key.bytes| + |it.val|, MaxWeight(psize));
    RoundUp(2 + NODESIZE + |it.key.bytes| + PGNOSIZE, MaxWeight(psize));
  }

  lemma RoundUp(x: int, even: int)
    requires even % 2 == 0
    ensures x <= Round(x) && Round(x) % 2 == 0 && (x <= even ==> Round(x) <= even)
  {
  }

  lemma {:induction false} ItemsWeights(psize: int, items: seq<Item>, lo: real, hi: real)
    requires 4096 <= psize <= 0x8000 && Ranks(items, lo, hi)
    ensures forall i | 0 <= i < |items| :: Weight(true, psize, i, ItemWeights(psize, items)[i])
  {
    hide ItemWeight, MaxWeight;
    if items != [] {
      ItemsWeights(psize, items[..|items| - 1], lo, hi);
      ItemWeightBounds(psize, items[|items| - 1]);
    }
  }

  lemma ShapePage(psize: int, t: Tree, height: int, lo: real, hi: real)
    requires 4096 <= psize <= 0x8000 && Shape(psize, t, height, lo, hi)
    ensures Rebalance.Page(t.Leaf?, psize, PageWeights(psize, t))
  {
    hide Sum, KidsOk, MaxWeight;
    match t
    case Leaf(items) => ItemsWeights(psize, items, lo, hi);
    case Branch(kids) => KidWeightBounds(psize, kids, height - 1, lo, hi);
  }

  lemma RekeyedWeight(m: seq<Kid>, key: Key)
    requires m != [] && m[0].key == NOKEY
    ensures Sum(KidWeights(Rekeyed(m, key))) == Sum(KidWeights(m)) - KEYLESS + KidWeight(Kid(key, m[0].child))
  {
    hide KidWeights, Sum, KidWeight;
    var first := Kid(key, m[0].child);
    KidWeightsConcat([first], m[1..]);
    KidWeightsConcat([m[0]], m[1..]);
    assert m == [m[0]] + m[1..];
    KidWeightsOne(first);
    KidWeightsOne(m[0]);
    SumConcat([KidWeight(first)], KidWeights(m[1..]));
    SumConcat([KidWeight(m[0])], KidWeights(m[1..]));
    SumOne(KidWeight(first));
    SumOne(KidWeight(m[0]));
  }

  lemma {:induction false} TailFits(psize: int, w: seq<int>, i: nat)
    requires i <= |w| && forall k | 0 <= k < |w| :: w[k] >= 0
    ensures Sum(w[i..]) <= Sum(w) && Sum(w[..i]) <= Sum(w)
  {
    SumPart(w, i);
  }

  // ------------------------------------------------------------ merging

  lemma MergedWeight(psize: int, a: Tree, b: Tree, height: int, lo: real, mid: real, hi: real)
    requires Shape(psize, a, height, lo, mid) && Shape(psize, b, height, mid, hi)
    ensures Sum(PageWeights(psize, Merged(a, b))) == Sum(PageWeights(psize, a)) + Sum(PageWeights(psize, b))
      + if a.Leaf? then 0 else KidWeight(Kid(LowKey(b), b.kids[0].child)) - KEYLESS
  {
    hide Sum, KidWeights, ItemWeights, KidsOk, KidWeight, LowKey;
    if a.Leaf? {
      ItemWeightsConcat(psize, a.items, b.items);
      SumConcat(ItemWeights(psize, a.items), ItemWeights(psize, b.items));
    } else {
      RekeyedWeight(b.kids, LowKey(b));
      KidWeightsConcat(a.kids, Rekeyed(b.kids, LowKey(b)));
      SumConcat(KidWeights(a.kids), KidWeights(Rekeyed(b.kids, LowKey(b))));
    }
  }

  /** A page to be rebalanced and a neighbour that cannot spare a node fit on one page. */
  lemma MergeHasRoom(psize: int, a: Tree, b: Tree, height: int, lo: real, mid: real, hi: real)
    requires 4096 <= psize <= 0x8000 && Shape(psize, a, height, lo, mid) && Shape(psize, b, height, mid, hi)
    requires (NeedsRebalance(psize, a) && !CanSpare(psize, b)) || (NeedsRebalance(psize, b) && !CanSpare(psize, a))
    ensures Fits(psize, Merged(a, b))
  {
    hide Sum, KidWeights, ItemWeights, KidsOk, KidWeight, LowKey, Rebalance.Page, Rebalance.Needs, Rebalance.Spares;
    MergedWeight(psize, a, b, height, lo, mid, hi);
    ShapePage(psize, a, height, lo, mid);
    ShapePage(psize, b, height, mid, hi);
    var first := KEYLESS;
    if b.Branch? {
      var low := Kid(LowKey(b), b.kids[0].child);
      LowShape(psize, b, height, mid, hi);
      KidWeightsOne(low);
      first := KidWeight(low);
    }
    var w, v := PageWeights(psize, a), PageWeights(psize, b);
    if NeedsRebalance(psize, a) && !CanSpare(psize, b) {
      Rebalance.MergeFits(a.Leaf?, psize, w, v, first);
    } else {
      Rebalance.MergeFits(a.Leaf?, psize, v, w, first);
    }
  }

  // ------------------------------------------------------------ moving

  /** A page to be rebalanced has room for a node of the neighbour on its right. */
  lemma MoveLeftHasRoom(psize: int, a: Tree, b: Tree, height: int, lo: real, mid: real, hi: real)
    requires 4096 <= psize <= 0x8000 && Shape(psize, a, height, lo, mid) && Shape(psize, b, height, mid, hi)
    requires NeedsRebalance(psize, a) && CanSpare(psize, b)
    ensures var p := MovedLeft(a, b); Fits(psize, p.0) && Fits(psize, p.2)
  {
    hide Sum, KidWeights, ItemWeights, KidsOk, KidWeight, LowKey, MaxWeight, ItemWeight;
    ShapePage(psize, a, height, lo, mid);
    ShapePage(psize, b, height, mid, hi);
    SpareCount(psize, b);
    var w, v := PageWeights(psize, a), PageWeights(psize, b);
    TailFits(psize, v, 1);
    if a.Leaf? {
      ItemWeightsPart(psize, b.items, 1);
      ItemWeightsConcat(psize, a.items, [b.items[0]]);
      assert b.items[..1] == [b.items[0]];
      SumConcat(w, v[..1]);
      SumShort(v[..1]);
      Rebalance.MoveFits(true, psize, w, v[0], KEYLESS);
    } else {
      var low := Kid(LowKey(b), b.kids[0].child);
      LowShape(psize, b, height, mid, hi);
      KidWeightsOne(low);
      KidWeightsConcat(a.kids, [low]);
      SumConcat(w, [KidWeight(low)]);
      SumOne(KidWeight(low));
      Rebalance.MoveFits(false, psize, w, KidWeight(low), KEYLESS);
      BranchTail(psize, b.kids, height - 1, mid, hi);
    }
  }

  /** A branch page without its first node, the second one losing its key. */
  lemma BranchTail(psize: int, m: seq<Kid>, height: int, lo: real, hi: real)
    requires KidsOk(psize, m, height, lo, hi) && |m| >= 2 && m[0].key == NOKEY
    ensures Sum(KidWeights(Rekeyed(m[1..], NOKEY))) <= Sum(KidWeights(m))
  {
    hide Sum, KidWeights, KidsOk;
    KidWeightsRekeyed(m[1..]);
    assert m[1..][1..] == m[2..];
    KidWeightsPart(m, 2);
    KidWeightBounds(psize, m, height, lo, hi);
    SumCut(KidWeights(m), 1);
    SumAtLeast(KidWeights(m)[..1], 0);
  }

  /** ... and for one of the neighbour on its left. */
  lemma MoveRightHasRoom(psize: int, a: Tree, b: Tree, height: int, lo: real, mid: real, hi: real)
    requires 4096 <= psize <= 0x8000 && Shape(psize, a, height, lo, mid) && Shape(psize, b, height, mid, hi)
    requires NeedsRebalance(psize, b) && CanSpare(psize, a)
    ensures var p := MovedRight(a, b); Fits(psize, p.0) && Fits(psize, p.2)
  {
    hide Sum, KidWeights, ItemWeights, KidsOk, KidWeight, LowKey, MaxWeight, ItemWeight;
    ShapePage(psize, a, height, lo, mid);
    ShapePage(psize, b, height, mid, hi);
    SpareCount(psize, a);
    var w, v := PageWeights(psize, a), PageWeights(psize, b);
    var n := |w| - 1;
    TailFits(psize, w, n);
    if a.Leaf? {
      ItemWeightsPart(psize, a.items, n);
      ItemWeightsConcat(psize, [a.items[n]], b.items);
      assert a.items[n..] == [a.items[n]];
      SumConcat(w[n..], v);
      SumShort(w[n..]);
      Rebalance.MoveFits(true, psize, v, w[n], KEYLESS);
    } else {
      var low, first := Kid(LowKey(b), b.kids[0].child), Kid(NOKEY, a.kids[n].child);
      LowShape(psize, b, height, mid, hi);
      KidWeightsOne(low);
      KidWeightsOne(first);
      RekeyedWeight(b.kids, LowKey(b));
      KidWeightsConcat([first], Rekeyed(b.kids, LowKey(b)));
      SumConcat([KEYLESS], KidWeights(Rekeyed(b.kids, LowKey(b))));
      SumOne(KEYLESS);
      Rebalance.MoveFits(false, psize, v, KEYLESS, KidWeight(low));
      KidWeightsPart(a.kids, n);
    }
  }

  /** A node moved between a page to be rebalanced and a neighbour that can spare it: both pages
      fit, both keep their minimum of nodes, the new separator lies between them, and together
      they stand for what they stood for. */
  lemma SpareMoves(psize: int, a: Tree, b: Tree, left: bool, height: int, lo: real, mid: real, hi: real)
    requires 4096 <= psize <= 0x8000 && lo <= mid <= hi
    requires Shape(psize, a, height, lo, mid) && Shape(psize, b, height, mid, hi)
    requires NeedsRebalance(psize, if left then a else b) && CanSpare(psize, if left then b else a)
    ensures Moved(psize, if left then MovedLeft(a, b) else MovedRight(a, b), height, lo, hi, Content(a) + Content(b))
  {
    hide Shape, Moved, Fits, NeedsRebalance, CanSpare, MovedLeft, MovedRight;
    if left {
      SpareCount(psize, b);
      MoveLeftHasRoom(psize, a, b, height, lo, mid, hi);
      MovedLeftOk(psize, a, b, height, lo, mid, hi);
    } else {
      SpareCount(psize, a);
      MoveRightHasRoom(psize, a, b, height, lo, mid, hi);
      MovedRightOk(psize, a, b, height, lo, mid, hi);
    }
  }

  // ------------------------------------------------------------ splitting

  /** A leaf that a put has to split, and for which a split point is searched, is split. */
  lemma SearchedSplitHasRoom(psize: int, c: seq<Item>, i: nat, lo: real, hi: real)
    requires 4096 <= psize <= 0x8000 && psize % 2 == 0 && Ranks(c, lo, hi) && i < |c|
    requires Sum(Without(ItemWeights(psize, c), i)) <= Pmax(psize)
    requires Scans(psize, |c| - 1, i, ItemWeights(psize, c)[i])
    ensures !FitLeaf(psize, c, i).Full?
  {
    hide Sum, ItemWeights, MaxWeight, SplitIndex, Combined;
    var w := ItemWeights(psize, c);
    if Sum(w) > Pmax(psize) {
      ItemsWeights(psize, c, lo, hi);
      assert forall k | 0 <= k < |w| - 1 :: Without(w, i)[k] == w[if k < i then k else k + 1];
      CombinedWithout(w, i);
      SumCombined(Without(w, i), i, w[i]);
      TwoKeys(true, psize, Without(w, i), w[i]);
      SearchSplits(true, psize, Without(w, i), i, w[i]);
    }
  }
}
