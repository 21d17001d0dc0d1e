/** The items of a tree in order, and where a stack of pages stands among them. */
module CursorOrder {
  import opened BTree
  import opened BTreeShape
  import opened BTreeInsert
  import opened BTreeDelete

  // ------------------------------------------------------------ the items in order

  ghost function Items(t: Tree): seq<Item>
    decreases t
  {
    match t
    case Leaf(items) => items
    case Branch(kids) => KidsItems(kids)
  }

  ghost function KidItems(kid: Kid): seq<Item>
    decreases kid
  {
    Items(kid.child)
  }

  ghost function KidsItems(kids: seq<Kid>): seq<Item>
    decreases kids
  {
    if kids == [] then [] else KidsItems(kids[..|kids| - 1]) + KidItems(kids[|kids| - 1])
  }

  lemma {:induction false} KidsItemsConcat(a: seq<Kid>, b: seq<Kid>)
    ensures KidsItems(a + b) == KidsItems(a) + KidsItems(b)
    decreases |b|
  {
    if b == [] {
      assert a + b == a;
    } else {
      var n := |b| - 1;
      KidsItemsConcat(a, b[..n]);
      assert (a + b)[..|a + b| - 1] == a + b[..n];
    }
  }

  lemma OneKidItems(kid: Kid)
    ensures KidsItems([kid]) == Items(kid.child)
  {
    assert [kid][..0] == [];
    assert KidsItems([kid]) == KidsItems([kid][..0]) + KidItems(kid);
  }

  lemma ItemsAround(kids: seq<Kid>, i: nat)
    requires i < |kids|
    ensures KidsItems(kids) == KidsItems(kids[..i]) + Items(kids[i].child) + KidsItems(kids[i + 1..])
    ensures KidsItems(kids[..i + 1]) == KidsItems(kids[..i]) + Items(kids[i].child)
  {
    SpliceParts(kids, i, [kids[i]]);
    KidsItemsConcat(kids[..i] + [kids[i]], kids[i + 1..]);
    KidsItemsConcat(kids[..i], [kids[i]]);
    OneKidItems(kids[i]);
    assert kids[..i + 1] == kids[..i] + [kids[i]];
  }

  /** The items are in ascending order, and they are what the tree stands for. */
  lemma {:induction false} ShapeItems(psize: int, t: Tree, height: int, lo: real, hi: real)
    requires Shape(psize, t, height, lo, hi)
    ensures Ranks(Items(t), lo, hi) && ItemsMap(Items(t)) == Content(t)
    ensures Enough(t) ==> Items(t) != []
    decreases t
  {
    match t
    case Leaf(items) =>
    case Branch(kids) => KidsOkItems(psize, kids, height - 1, lo, hi);
  }

  lemma {:induction false} KidOkItems(psize: int, kid: Kid, height: int, lo: real, hi: real)
    requires KidOk(psize, kid, height, lo, hi)
    ensures Ranks(KidItems(kid), lo, hi) && ItemsMap(KidItems(kid)) == KidMap(kid) && KidItems(kid) != [] && lo <= hi
    decreases kid
  {
    ShapeItems(psize, kid.child, height, lo, hi);
    ShapeWithin(psize, kid.child, height, lo, hi);
  }

  lemma {:induction false} KidsOkItems(psize: int, kids: seq<Kid>, height: int, lo: real, hi: real)
    requires KidsOk(psize, kids, height, lo, hi)
    ensures Ranks(KidsItems(kids), lo, hi) && ItemsMap(KidsItems(kids)) == KidsMap(kids) && KidsItems(kids) != [] && lo <= hi
    decreases kids
  {
    hide Ranks, ItemsMap;
    var n := |kids| - 1;
    if n == 0 {
      KidOkItems(psize, kids[n], height, lo, hi);
      OneKidItems(kids[n]);
      OneKid(kids[n]);
      assert kids == [kids[n]];
    } else {
      KidOkItems(psize, kids[n], height, kids[n].key.rank, hi);
      KidsOkItems(psize, kids[..n], height, lo, kids[n].key.rank);
      JoinRanks(KidsItems(kids[..n]), KidItems(kids[n]), lo, kids[n].key.rank, hi);
      ItemsMapConcat(KidsItems(kids[..n]), KidItems(kids[n]));
    }
  }

  // ------------------------------------------------------------ stacks

  /** The pages of a cursor from the root down, and the index on each of them; the index on
      the top page is free. */
  ghost predicate Stack(root: Tree, pg: seq<Tree>, ki: seq<int>) {
    && |pg| == |ki| >= 1 && pg[0] == root
    && forall i | 0 <= i < |pg| - 1 ::
         pg[i].Branch? && 0 <= ki[i] < |pg[i].kids| && pg[i + 1] == pg[i].kids[ki[i]].child
  }

  /** How many items lie before the top page. */
  ghost function Before(pg: seq<Tree>, ki: seq<int>): nat
    requires |pg| == |ki|
  {
    if |pg| <= 1 then 0
    else
      var n := |pg| - 1;
      Before(pg[..n], ki[..n]) + ItemsLeftOf(pg[n - 1], ki[n - 1])
  }

  ghost function ItemsLeftOf(t: Tree, k: int): nat {
    if t.Branch? && 0 <= k <= |t.kids| then |KidsItems(t.kids[..k])| else 0
  }

  lemma PopStack(root: Tree, pg: seq<Tree>, ki: seq<int>)
    requires Stack(root, pg, ki) && |pg| >= 2
    ensures var n := |pg| - 1;
      && Stack(root, pg[..n], ki[..n]) && pg[n - 1].Branch? && 0 <= ki[n - 1] < |pg[n - 1].kids|
      && pg[n] == pg[n - 1].kids[ki[n - 1]].child
      && Before(pg, ki) == Before(pg[..n], ki[..n]) + |KidsItems(pg[n - 1].kids[..ki[n - 1]])|
  {
  }

  lemma PushStack(root: Tree, pg: seq<Tree>, ki: seq<int>, x: int)
    requires Stack(root, pg, ki)
    requires var top, k := pg[|pg| - 1], ki[|pg| - 1]; top.Branch? && 0 <= k < |top.kids|
    ensures var top, k := pg[|pg| - 1], ki[|pg| - 1];
      && Stack(root, pg + [top.kids[k].child], ki + [x])
      && Before(pg + [top.kids[k].child], ki + [x]) == Before(pg, ki) + |KidsItems(top.kids[..k])|
  {
    var n := |pg|;
    var top, k := pg[n - 1], ki[n - 1];
    var pg', ki' := pg + [top.kids[k].child], ki + [x];
    assert pg'[..n] == pg && ki'[..n] == ki;
    assert pg'[n - 1] == top && ki'[n - 1] == k;
  }

  /** The index on the top page plays no role for where the page is. */
  lemma TopIndex(root: Tree, pg: seq<Tree>, ki: seq<int>, x: int)
    requires Stack(root, pg, ki)
    ensures Stack(root, pg, ki[|ki| - 1 := x]) && Before(pg, ki[|ki| - 1 := x]) == Before(pg, ki)
  {
    var n := |pg| - 1;
    assert ki[n := x][..n] == ki[..n];
  }

  /** The items of the top page are those of the tree from Before on. */
  lemma {:induction false} TopItems(root: Tree, pg: seq<Tree>, ki: seq<int>)
    requires Stack(root, pg, ki)
    ensures var b, n := Before(pg, ki), |Items(pg[|pg| - 1])|;
      b + n <= |Items(root)| && Items(root)[b..b + n] == Items(pg[|pg| - 1])
    decreases |pg|
  {
    var n := |pg| - 1;
    if n > 0 {
      var p, k := pg[n - 1], ki[n - 1];
      PopStack(root, pg, ki);
      TopItems(root, pg[..n], ki[..n]);
      ItemsAround(p.kids, k);
      var b0, b := Before(pg[..n], ki[..n]), Before(pg, ki);
      SliceOfSlice(Items(root), b0, |Items(p)|, |KidsItems(p.kids[..k])|, |Items(pg[n])|);
    }
  }

  lemma SliceOfSlice<T>(s: seq<T>, b: nat, n: nat, i: nat, m: nat)
    requires b + n <= |s| && i + m <= n
    ensures s[b..b + n][i..i + m] == s[b + i..b + i + m]
  {
    var t := s[b..b + n];
    assert forall k | 0 <= k < |t| :: t[k] == s[b + k];
    assert t[i..i + m] == s[b + i..b + i + m];
  }

  /** Every page of a stack is well shaped, of the height its depth leaves. */
  lemma {:induction false} StackShape(psize: int, root: Tree, height: int, lo: real, hi: real, pg: seq<Tree>,
                                      ki: seq<int>)
    returns (l: real, h: real)
    requires Shape(psize, root, height, lo, hi) && Enough(root) && Stack(root, pg, ki)
    ensures Shape(psize, pg[|pg| - 1], height - |pg| + 1, l, h) && Enough(pg[|pg| - 1])
    decreases |pg|
  {
    hide Stack, Before, Shape;
    BottomOfStack(root, pg, ki);
    var n := |pg| - 1;
    if n == 0 {
      l, h := lo, hi;
    } else {
      PopStack(root, pg, ki);
      var l0, h0 := StackShape(psize, root, height, lo, hi, pg[..n], ki[..n]);
      l, h := ChildOfShape(psize, pg[n - 1], height - n + 1, l0, h0, ki[n - 1]);
    }
  }

  lemma BottomOfStack(root: Tree, pg: seq<Tree>, ki: seq<int>)
    requires Stack(root, pg, ki)
    ensures |pg| == |ki| >= 1 && pg[0] == root
  {
  }

  lemma ChildOfShape(psize: int, t: Tree, height: int, lo: real, hi: real, i: nat) returns (l: real, h: real)
    requires Shape(psize, t, height, lo, hi) && t.Branch? && i < |t.kids|
    ensures Shape(psize, t.kids[i].child, height - 1, l, h) && Enough(t.kids[i].child)
  {
    l, h := KidZone(psize, t.kids, height - 1, lo, hi, i);
  }

  lemma KidZone(psize: int, kids: seq<Kid>, height: int, lo: real, hi: real, i: nat) returns (l: real, h: real)
    requires KidsOk(psize, kids, height, lo, hi) && i < |kids|
    ensures l == ZoneLo(kids[..i], [kids[i]], lo) && h == ZoneHi(kids[i + 1..], hi)
    ensures Shape(psize, kids[i].child, height, l, h) && Enough(kids[i].child)
  {
    hide KidsOk;
    SpliceParts(kids, i, [kids[i]]);
    Zone(psize, kids[..i], [kids[i]], kids[i + 1..], height, lo, hi);
    l, h := ZoneLo(kids[..i], [kids[i]], lo), ZoneHi(kids[i + 1..], hi);
    OneKidShape(psize, kids[i], height, l, h);
  }
}
