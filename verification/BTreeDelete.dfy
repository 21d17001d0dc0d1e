/** Deletion from a B+tree refines deletion from the map, and keeps the shape. */
module BTreeDelete {
  import opened Wrappers
  import opened PageLayout
  import opened SplitPoint
  import Rebalance
  import opened BTree
  import opened BTreeShape
  import opened BTreeInsert

  // ------------------------------------------------------------ the lowest key

  /** The lowest key below a page bounds it from below, tightly. */
  lemma {:induction false} LowShape(psize: int, t: Tree, height: int, lo: real, hi: real)
    requires Shape(psize, t, height, lo, hi) && (t.Leaf? ==> Enough(t))
    ensures KeyOk(LowKey(t)) && lo <= LowKey(t).rank < hi && Shape(psize, t, height, LowKey(t).rank, hi)
    decreases t
  {
    match t
    case Leaf(items) =>
    case Branch(kids) => KidsLow(psize, kids, height - 1, lo, hi);
  }

  lemma {:induction false} KidLow(psize: int, kid: Kid, height: int, lo: real, hi: real)
    requires KidOk(psize, kid, height, lo, hi)
    ensures var k := LowKey(kid.child); KeyOk(k) && lo <= k.rank < hi && KidOk(psize, kid, height, k.rank, hi)
    decreases kid
  {
    LowShape(psize, kid.child, height, lo, hi);
  }

  lemma {:induction false} KidsLow(psize: int, kids: seq<Kid>, height: int, lo: real, hi: real)
    requires KidsOk(psize, kids, height, lo, hi)
    ensures var k := LowKey(kids[0].child); KeyOk(k) && lo <= k.rank < hi && KidsOk(psize, kids, height, k.rank, hi)
    decreases kids
  {
    var n := |kids| - 1;
    if n == 0 {
      KidLow(psize, kids[n], height, lo, hi);
    } else {
      KidsLow(psize, kids[..n], height, lo, kids[n].key.rank);
      KidWithin(psize, kids[n], height, kids[n].key.rank, hi);
    }
  }

  /** Subtrees whose first node gets the lowest key below it, behind others. */
  lemma JoinLow(psize: int, a: seq<Kid>, b: seq<Kid>, height: int, lo: real, mid: real, hi: real)
    requires KidsOk(psize, a, height, lo, mid) && KidsOk(psize, b, height, mid, hi)
    ensures var r := a + Rekeyed(b, LowKey(b[0].child));
      KidsOk(psize, r, height, lo, hi) && KidsMap(r) == KidsMap(a) + KidsMap(b)
  {
    hide KidsMap, LowKey;
    var low := LowKey(b[0].child);
    KidsLow(psize, b, height, mid, hi);
    FirstKey(psize, b, height, low.rank, hi, low);
    KidsWiden(psize, a, height, lo, mid, lo, low.rank);
    NotNone(psize, a, height, lo, mid);
    KidsJoin(psize, a, Rekeyed(b, low), height, lo, hi);
    KidsMapConcat(a, Rekeyed(b, low));
  }

  lemma NotNone(psize: int, a: seq<Kid>, height: int, lo: real, hi: real)
    requires KidsOk(psize, a, height, lo, hi)
    ensures a != []
  {
  }

  // ------------------------------------------------------------ merging and moving

  lemma JoinRanks(s: seq<Item>, m: seq<Item>, lo: real, mid: real, hi: real)
    requires Ranks(s, lo, mid) && Ranks(m, mid, hi) && lo <= mid <= hi
    ensures Ranks(s + m, lo, hi)
  {
  }

  /** Two neighbouring pages merged are a page for both zones. */
  lemma MergedOk(psize: int, a: Tree, b: Tree, height: int, lo: real, mid: real, hi: real)
    requires Shape(psize, a, height, lo, mid) && Shape(psize, b, height, mid, hi) && lo <= mid <= hi
    requires Fits(psize, Merged(a, b)) && (Enough(a) || Enough(b))
    ensures Shape(psize, Merged(a, b), height, lo, hi) && Enough(Merged(a, b))
    ensures Content(Merged(a, b)) == Content(a) + Content(b)
  {
    hide KidsMap, ItemsMap, KidsOk, Fits, Ranks;
    if a.Leaf? {
      JoinRanks(a.items, b.items, lo, mid, hi);
      ItemsMapConcat(a.items, b.items);
    } else {
      JoinLow(psize, a.kids, b.kids, height - 1, lo, mid, hi);
    }
  }

  /** The two pages after a move and their separator. */
  ghost predicate Moved(psize: int, p: (Tree, Key, Tree), height: int, lo: real, hi: real, m: map<real, seq<int>>) {
    && KeyOk(p.1)
    && Shape(psize, p.0, height, lo, p.1.rank) && Enough(p.0)
    && Shape(psize, p.2, height, p.1.rank, hi) && Enough(p.2)
    && Content(p.0) + Content(p.2) == m
  }

  lemma CutRanks(m: seq<Item>, i: nat, lo: real, hi: real)
    requires Ranks(m, lo, hi) && 0 < i < |m|
    ensures KeyOk(m[i].key) && Ranks(m[..i], lo, m[i].key.rank) && Ranks(m[i..], m[i].key.rank, hi)
  {
  }

  lemma MovedLeftLeaf(psize: int, s: seq<Item>, m: seq<Item>, lo: real, mid: real, hi: real)
    requires Ranks(s, lo, mid) && Ranks(m, mid, hi) && lo <= mid <= hi && |m| >= 2
    ensures var sep := m[1].key;
      && KeyOk(sep) && Ranks(s + [m[0]], lo, sep.rank) && Ranks(m[1..], sep.rank, hi)
      && ItemsMap(s + [m[0]]) + ItemsMap(m[1..]) == ItemsMap(s) + ItemsMap(m)
  {
    hide ItemsMap;
    CutRanks(m, 1, mid, hi);
    JoinRanks(s, m[..1], lo, mid, m[1].key.rank);
    assert m[..1] == [m[0]];
    ItemsMapConcat(s, [m[0]]);
    ItemsMapConcat(m[..1], m[1..]);
    assert m == m[..1] + m[1..];
  }

  lemma MovedLeftBranch(psize: int, s: seq<Kid>, m: seq<Kid>, height: int, lo: real, mid: real, hi: real)
    requires KidsOk(psize, s, height, lo, mid) && KidsOk(psize, m, height, mid, hi) && |m| >= 2
    ensures var sep, r, q := m[1].key, s + [Kid(LowKey(m[0].child), m[0].child)], Rekeyed(m[1..], NOKEY);
      && KeyOk(sep) && KidsOk(psize, r, height, lo, sep.rank) && KidsOk(psize, q, height, sep.rank, hi)
      && KidsMap(r) + KidsMap(q) == KidsMap(s) + KidsMap(m)
  {
    hide KidsMap, KidsOk, LowKey;
    KidsCut(psize, m, height, mid, hi, 1);
    JoinLow(psize, s, m[..1], height, lo, mid, m[1].key.rank);
    assert Rekeyed(m[..1], LowKey(m[0].child)) == [Kid(LowKey(m[0].child), m[0].child)];
    FirstKey(psize, m[1..], height, m[1].key.rank, hi, NOKEY);
    KidsMapConcat(m[..1], m[1..]);
    assert m == m[..1] + m[1..];
  }

  lemma MovedLeftOk(psize: int, a: Tree, b: Tree, height: int, lo: real, mid: real, hi: real)
    requires Shape(psize, a, height, lo, mid) && Shape(psize, b, height, mid, hi) && lo <= mid <= hi
    requires (if b.Leaf? then |b.items| >= 2 else |b.kids| >= 3)
    requires var p := MovedLeft(a, b); Fits(psize, p.0) && Fits(psize, p.2)
    ensures Moved(psize, MovedLeft(a, b), height, lo, hi, Content(a) + Content(b))
  {
    hide KidsMap, ItemsMap, KidsOk, Fits, Ranks;
    NotEmpty(psize, a, height, lo, mid);
    if a.Leaf? {
      MovedLeftLeaf(psize, a.items, b.items, lo, mid, hi);
    } else {
      MovedLeftBranch(psize, a.kids, b.kids, height - 1, lo, mid, hi);
    }
  }

  lemma NotEmpty(psize: int, t: Tree, height: int, lo: real, hi: real)
    requires Shape(psize, t, height, lo, hi)
    ensures t.Branch? ==> |t.kids| >= 1 && t.kids[0].key == NOKEY
  {
  }

  lemma RanksBelow(s: seq<Item>, i: nat, lo: real, hi: real)
    requires Ranks(s, lo, hi) && i < |s|
    ensures lo <= s[i].key.rank < hi
  {
  }

  lemma MovedRightLeaf(psize: int, s: seq<Item>, m: seq<Item>, lo: real, mid: real, hi: real)
    requires Ranks(s, lo, mid) && Ranks(m, mid, hi) && lo <= mid <= hi && |s| >= 2
    ensures var n := |s| - 1;
      && KeyOk(s[n].key) && Ranks(s[..n], lo, s[n].key.rank) && Ranks([s[n]] + m, s[n].key.rank, hi)
      && ItemsMap(s[..n]) + ItemsMap([s[n]] + m) == ItemsMap(s) + ItemsMap(m)
  {
    hide ItemsMap, Ranks;
    var n := |s| - 1;
    CutRanks(s, n, lo, mid);
    assert s[n..] == [s[n]];
    RanksBelow(s, n, lo, mid);
    JoinRanks(s[n..], m, s[n].key.rank, mid, hi);
    ItemsMapConcat(s[..n], s[n..]);
    ItemsMapConcat([s[n]], m);
    assert s == s[..n] + s[n..];
  }

  lemma MovedRightBranch(psize: int, s: seq<Kid>, m: seq<Kid>, height: int, lo: real, mid: real, hi: real)
    requires KidsOk(psize, s, height, lo, mid) && KidsOk(psize, m, height, mid, hi) && |s| >= 2
    ensures var n := |s| - 1;
      var sep, r, q := s[n].key, s[..n], [Kid(NOKEY, s[n].child)] + Rekeyed(m, LowKey(m[0].child));
      && KeyOk(sep) && KidsOk(psize, r, height, lo, sep.rank) && KidsOk(psize, q, height, sep.rank, hi)
      && KidsMap(r) + KidsMap(q) == KidsMap(s) + KidsMap(m)
  {
    hide KidsMap, KidsOk, LowKey;
    NotNone(psize, m, height, mid, hi);
    var n := |s| - 1;
    KidsCut(psize, s, height, lo, mid, n);
    assert s[n..] == [s[n]];
    JoinLow(psize, s[n..], m, height, s[n].key.rank, mid, hi);
    var j := s[n..] + Rekeyed(m, LowKey(m[0].child));
    FirstKey(psize, j, height, s[n].key.rank, hi, NOKEY);
    assert Rekeyed(j, NOKEY) == [Kid(NOKEY, s[n].child)] + Rekeyed(m, LowKey(m[0].child));
    KidsMapConcat(s[..n], s[n..]);
    assert s == s[..n] + s[n..];
  }

  lemma MovedRightOk(psize: int, a: Tree, b: Tree, height: int, lo: real, mid: real, hi: real)
    requires Shape(psize, a, height, lo, mid) && Shape(psize, b, height, mid, hi) && lo <= mid <= hi
    requires (if a.Leaf? then |a.items| >= 2 else |a.kids| >= 3)
    requires var p := MovedRight(a, b); Fits(psize, p.0) && Fits(psize, p.2)
    ensures Moved(psize, MovedRight(a, b), height, lo, hi, Content(a) + Content(b))
  {
    hide KidsMap, ItemsMap, KidsOk, Fits, Ranks;
    NotEmpty(psize, a, height, lo, mid);
    NotEmpty(psize, b, height, mid, hi);
    if a.Leaf? {
      MovedRightLeaf(psize, a.items, b.items, lo, mid, hi);
    } else {
      MovedRightBranch(psize, a.kids, b.kids, height - 1, lo, mid, hi);
    }
  }

  // ------------------------------------------------------------ rebalancing

  /** Two neighbouring children and the zones they have. */
  lemma PairZone(psize: int, a: seq<Kid>, x: Kid, y: Kid, b: seq<Kid>, height: int, lo: real, hi: real)
    requires KidsOk(psize, a + [x, y] + b, height, lo, hi)
    ensures var l, h := ZoneLo(a, [x, y], lo), ZoneHi(b, hi);
      && KeyOk(y.key) && KidOk(psize, x, height, l, y.key.rank) && KidOk(psize, y, height, y.key.rank, h)
      && KidsMap([x, y]) == Content(x.child) + Content(y.child)
  {
    hide KidsMap;
    Zone(psize, a, [x, y], b, height, lo, hi);
    assert [x, y][..1] == [x] && [x, y] == [x] + [y];
    OneKid(x);
    OneKid(y);
    KidsMapConcat([x], [y]);
  }

  lemma {:induction false} KidWeightsPositive(kids: seq<Kid>)
    ensures Sum(KidWeights(kids)) >= 0
  {
    if kids != [] {
      KidWeightsPositive(kids[..|kids| - 1]);
    }
  }

  /** A branch page without one of its nodes fits where it did. */
  lemma DroppedFits(psize: int, a: seq<Kid>, x: Kid, y: Kid, b: seq<Kid>, x': Kid)
    requires Fits(psize, Branch(a + [x, y] + b)) && x'.key == x.key
    ensures Fits(psize, Branch(a + [x'] + b))
  {
    hide KidWeights, Sum;
    KidWeightsConcat(a + [x, y], b);
    KidWeightsConcat(a, [x, y]);
    KidWeightsConcat([x], [y]);
    assert [x, y] == [x] + [y];
    KidWeightsConcat(a + [x'], b);
    KidWeightsConcat(a, [x']);
    SameKeysSameWeights([x], [x']);
    SumConcat(KidWeights(a + [x, y]), KidWeights(b));
    SumConcat(KidWeights(a), KidWeights([x, y]));
    SumConcat(KidWeights([x]), KidWeights([y]));
    SumConcat(KidWeights(a + [x']), KidWeights(b));
    SumConcat(KidWeights(a), KidWeights([x']));
    KidWeightsPositive([y]);
  }

  /** Two neighbouring children of which the deletion has changed one: the zones they had,
      and the map of both without the rank. */
  ghost predicate Pair(psize: int, x: Kid, y: Kid, height: int, l: real, h: real, m: map<real, seq<int>>) {
    && KeyOk(y.key) && l <= y.key.rank <= h
    && Shape(psize, x.child, height, l, y.key.rank) && Shape(psize, y.child, height, y.key.rank, h)
    && (Enough(x.child) || Enough(y.child))
    && Content(x.child) + Content(y.child) == m
  }

  lemma MergeKidsOk(psize: int, a: seq<Kid>, x: Kid, y: Kid, b: seq<Kid>, x0: Kid, y0: Kid, height: int, lo: real,
                    hi: real, rank: real)
    requires height >= 1 && KidsOk(psize, a + [x0, y0] + b, height, lo, hi) && x.key == x0.key && y.key == y0.key
    requires Fits(psize, Branch(a + [x, y] + b)) && (a + [x, y] + b)[0].key == NOKEY
    requires var l, h := ZoneLo(a, [x0, y0], lo), ZoneHi(b, hi);
      l <= rank < h && Pair(psize, x, y, height, l, h, Upd(KidsMap([x0, y0]), rank, None))
    ensures var c := MergeKids(psize, a + [x, y] + b, |a|);
      Becomes(psize, c.res, height + 1, lo, hi, Upd(KidsMap(a + [x0, y0] + b), rank, None))
  {
    hide KidsMap, KidsOk, KidWeights, Sum, Merged, Shape;
    var kids := a + [x, y] + b;
    var m := Merged(x.child, y.child);
    if Fits(psize, m) {
      var x' := Kid(x.key, m);
      var l, h := ZoneLo(a, [x0, y0], lo), ZoneHi(b, hi);
      MergedOk(psize, x.child, y.child, height, l, y.key.rank, h);
      AsKidsOk(psize, x.key, One(m, 0, 0), height, l, h, Content(m));
      ReplaceMiddle(psize, a, [x0, y0], b, [x'], height, lo, hi, rank, None);
      DroppedFits(psize, a, x, y, b, x');
      assert kids[..|a|] == a && kids[|a|] == x && kids[|a| + 1] == y && kids[|a| + 2..] == b;
      BranchShape(psize, a + [x'] + b, height, lo, hi);
    }
  }

  lemma BranchShape(psize: int, kids: seq<Kid>, height: int, lo: real, hi: real)
    requires height >= 1 && KidsOk(psize, kids, height, lo, hi) && Fits(psize, Branch(kids)) && kids != []
      && kids[0].key == NOKEY
    ensures Shape(psize, Branch(kids), height + 1, lo, hi) && Content(Branch(kids)) == KidsMap(kids)
  {
  }

  lemma MoveKidsOk(psize: int, a: seq<Kid>, x: Kid, y: Kid, b: seq<Kid>, x0: Kid, y0: Kid, p: (Tree, Key, Tree),
                   height: int, lo: real, hi: real, rank: real)
    requires 4096 <= psize <= 0x8000 && height >= 1
    requires KidsOk(psize, a + [x0, y0] + b, height, lo, hi) && x.key == x0.key && (a + [x, y] + b)[0].key == NOKEY
    requires var l, h := ZoneLo(a, [x0, y0], lo), ZoneHi(b, hi);
      && l <= rank < h
      && (Fits(psize, p.0) && Fits(psize, p.2) ==> Moved(psize, p, height, l, h, Upd(KidsMap([x0, y0]), rank, None)))
    ensures var c := MoveKids(psize, a + [x, y] + b, |a|, p);
      Becomes(psize, c.res, height + 1, lo, hi, Upd(KidsMap(a + [x0, y0] + b), rank, None)) && EnoughRes(c.res)
  {
    hide KidsMap, KidsOk, FitBranch, Fits;
    var kids := a + [x, y] + b;
    if Fits(psize, p.0) && Fits(psize, p.2) {
      var r := Two(p.0, p.1, p.2, 0, 0);
      var l, h := ZoneLo(a, [x0, y0], lo), ZoneHi(b, hi);
      AsKidsOk(psize, x.key, r, height, l, h, Upd(KidsMap([x0, y0]), rank, None));
      var s := AsKids(x.key, r);
      ReplaceMiddle(psize, a, [x0, y0], b, s, height, lo, hi, rank, None);
      assert kids[..|a|] == a && kids[|a|] == x && kids[|a| + 2..] == b;
      FitBranchOk(psize, a + s + b, |a| + 1, height, lo, hi);
    }
  }

  lemma RemoveLeft(a: map<real, seq<int>>, b: map<real, seq<int>>, rank: real)
    requires rank !in b
    ensures Upd(a, rank, None) + b == Upd(a + b, rank, None)
  {
  }

  lemma RemoveRight(a: map<real, seq<int>>, b: map<real, seq<int>>, rank: real)
    requires rank !in a
    ensures a + Upd(b, rank, None) == Upd(a + b, rank, None)
  {
  }

  lemma SpareCount(psize: int, t: Tree)
    requires psize >= Rebalance.MIN_PSIZE && CanSpare(psize, t)
    ensures if t.Leaf? then |t.items| >= 2 else |t.kids| >= 3
  {
    Rebalance.SparesKeeps(t.Leaf?, psize, PageWeights(psize, t));
  }

  /** The pages x and y, of which the deletion has changed one, merged or rearranged. */
  lemma PairOk(psize: int, a: seq<Kid>, x: Kid, y: Kid, b: seq<Kid>, x0: Kid, y0: Kid, left: bool,
               height: int, lo: real, hi: real, rank: real)
    requires 4096 <= psize <= 0x8000 && height >= 1
    requires KidsOk(psize, a + [x0, y0] + b, height, lo, hi) && x.key == x0.key && y.key == y0.key
    requires Fits(psize, Branch(a + [x, y] + b)) && (a + [x, y] + b)[0].key == NOKEY
    requires var l, h := ZoneLo(a, [x0, y0], lo), ZoneHi(b, hi);
      l <= rank < h && Pair(psize, x, y, height, l, h, Upd(KidsMap([x0, y0]), rank, None))
    ensures var kids, n := a + [x, y] + b, |a|;
      var c := if CanSpare(psize, if left then y.child else x.child)
               then MoveKids(psize, kids, n, if left then MovedLeft(x.child, y.child) else MovedRight(x.child, y.child))
               else MergeKids(psize, kids, n);
      && Becomes(psize, c.res, height + 1, lo, hi, Upd(KidsMap(a + [x0, y0] + b), rank, None))
      && (!c.shrunk ==> EnoughRes(c.res))
  {
    hide KidsMap, KidsOk, MergeKids, MovedLeft, MovedRight, Shape, Fits, CanSpare, Moved, Becomes;
    var l, h := ZoneLo(a, [x0, y0], lo), ZoneHi(b, hi);
    if CanSpare(psize, if left then y.child else x.child) {
      var p := if left then MovedLeft(x.child, y.child) else MovedRight(x.child, y.child);
      SpareCount(psize, if left then y.child else x.child);
      if Fits(psize, p.0) && Fits(psize, p.2) {
        if left {
          MovedLeftOk(psize, x.child, y.child, height, l, y.key.rank, h);
        } else {
          MovedRightOk(psize, x.child, y.child, height, l, y.key.rank, h);
        }
      }
      MoveKidsOk(psize, a, x, y, b, x0, y0, p, height, lo, hi, rank);
    } else {
      MergeKidsOk(psize, a, x, y, b, x0, y0, height, lo, hi, rank);
      MergeShrinks(psize, a + [x, y] + b, |a|);
    }
  }

  lemma MergeShrinks(psize: int, kids: seq<Kid>, x: nat)
    requires x < |kids| - 1
    ensures MergeKids(psize, kids, x).shrunk
  {
  }

  /** What a deletion below makes of a page: the map without the rank; a page that has not
      lost a node has enough. */
  ghost predicate CutOk(psize: int, c: Cut, height: int, lo: real, hi: real, m: map<real, seq<int>>) {
    Becomes(psize, c.res, height, lo, hi, m) && (!c.shrunk ==> EnoughRes(c.res))
  }

  /** Child i has become t; it and a neighbour form the pair to rebalance. */
  lemma FirstPair(psize: int, kids: seq<Kid>, t: Tree, height: int, lo: real, hi: real, rank: real)
    requires |kids| >= 2 && KidsOk(psize, kids, height, lo, hi) && lo <= rank < kids[1].key.rank
    requires Shape(psize, t, height, lo, kids[1].key.rank) && Content(t) == Upd(Content(kids[0].child), rank, None)
    ensures var h := ZoneHi(kids[2..], hi);
      && Pair(psize, Kid(kids[0].key, t), kids[1], height, lo, h, Upd(KidsMap([kids[0], kids[1]]), rank, None))
      && rank < h
  {
    hide KidsMap, KidsOk, Content;
    assert kids == [] + [kids[0], kids[1]] + kids[2..];
    PairZone(psize, [], kids[0], kids[1], kids[2..], height, lo, hi);
    KidWithin(psize, kids[0], height, lo, kids[1].key.rank);
    KidWithin(psize, kids[1], height, kids[1].key.rank, ZoneHi(kids[2..], hi));
    RemoveLeft(Content(kids[0].child), Content(kids[1].child), rank);
  }

  lemma LaterPair(psize: int, kids: seq<Kid>, i: nat, t: Tree, height: int, lo: real, hi: real, rank: real)
    requires 0 < i < |kids| && KidsOk(psize, kids, height, lo, hi)
    requires var h := ZoneHi(kids[i + 1..], hi);
      kids[i].key.rank <= rank < h && Shape(psize, t, height, kids[i].key.rank, h)
    requires Content(t) == Upd(Content(kids[i].child), rank, None)
    ensures var l, h := ZoneLo(kids[..i - 1], [kids[i - 1], kids[i]], lo), ZoneHi(kids[i + 1..], hi);
      && Pair(psize, kids[i - 1], Kid(kids[i].key, t), height, l, h, Upd(KidsMap([kids[i - 1], kids[i]]), rank, None))
      && l <= rank < h
  {
    hide KidsMap, KidsOk, Content;
    var a, x, y, b := kids[..i - 1], kids[i - 1], kids[i], kids[i + 1..];
    assert kids == a + [x, y] + b;
    PairZone(psize, a, x, y, b, height, lo, hi);
    KidWithin(psize, x, height, ZoneLo(a, [x, y], lo), y.key.rank);
    KidWithin(psize, y, height, y.key.rank, ZoneHi(b, hi));
    RemoveRight(Content(x.child), Content(y.child), rank);
  }

  lemma RebalanceKidOk(psize: int, kids: seq<Kid>, i: nat, t: Tree, height: int, lo: real, hi: real, rank: real)
    requires 4096 <= psize <= 0x8000 && height >= 1 && i < |kids| && |kids| >= 2
    requires Fits(psize, Branch(kids)) && KidsOk(psize, kids, height, lo, hi) && kids[0].key == NOKEY
    requires var l, h := ZoneLo(kids[..i], [kids[i]], lo), ZoneHi(kids[i + 1..], hi);
      l <= rank < h && Shape(psize, t, height, l, h) && Content(t) == Upd(Content(kids[i].child), rank, None)
    ensures CutOk(psize, RebalanceKid(psize, kids[i := Kid(kids[i].key, t)], i), height + 1, lo, hi, Upd(KidsMap(kids), rank, None))
  {
    hide KidsMap, KidsOk, Content, Shape, MergeKids, MoveKids, MovedLeft, MovedRight, CanSpare, Pair, Becomes,
         KidWeights, Sum;
    var kids' := kids[i := Kid(kids[i].key, t)];
    SameKeysSameWeights(kids, kids');
    if i == 0 {
      var b := kids[2..];
      assert kids == [] + [kids[0], kids[1]] + b && kids' == [] + [kids'[0], kids[1]] + b;
      FirstPair(psize, kids, t, height, lo, hi, rank);
      PairOk(psize, [], kids'[0], kids[1], b, kids[0], kids[1], true, height, lo, hi, rank);
    } else {
      var a, b := kids[..i - 1], kids[i + 1..];
      assert kids == a + [kids[i - 1], kids[i]] + b && kids' == a + [kids[i - 1], kids'[i]] + b;
      LaterPair(psize, kids, i, t, height, lo, hi, rank);
      PairOk(psize, a, kids[i - 1], kids'[i], b, kids[i - 1], kids[i], false, height, lo, hi, rank);
    }
  }

  // ------------------------------------------------------------ deletion

  lemma DeletedItems(psize: int, items: seq<Item>, i: nat, lo: real, hi: real)
    requires Shape(psize, Leaf(items), 1, lo, hi) && i < |items|
    ensures var t := Leaf(items[..i] + items[i + 1..]);
      Shape(psize, t, 1, lo, hi) && Content(t) == Upd(ItemsMap(items), items[i].key.rank, None)
  {
    hide ItemsMap, ItemWeights, Sum;
    var a, it, b := items[..i], items[i], items[i + 1..];
    AroundItem(items, i, it);
    ItemWeightsConcat(psize, a + [it], b);
    ItemWeightsConcat(psize, a, [it]);
    ItemWeightsConcat(psize, a, b);
    SumConcat(ItemWeights(psize, a + [it]), ItemWeights(psize, b));
    SumConcat(ItemWeights(psize, a), ItemWeights(psize, [it]));
    SumConcat(ItemWeights(psize, a), ItemWeights(psize, b));
    WeightPositive(psize, it);
    ItemsMapConcat(a + [it], b);
    ItemsMapConcat(a, [it]);
    ItemsMapConcat(a, b);
    OneItem(it);
    InItemsMap(a, it.key.rank);
    InItemsMap(b, it.key.rank);
    assert forall k | 0 <= k < |b| :: it.key.rank < b[k].key.rank;
    assert forall k | 0 <= k < |a| :: a[k].key.rank < it.key.rank;
  }

  lemma WeightPositive(psize: int, it: Item)
    ensures Sum(ItemWeights(psize, [it])) >= 0
  {
    assert [it][..0] == [];
    assert ItemWeights(psize, [it]) == [ItemWeight(psize, it)];
    SumOne(ItemWeight(psize, it));
  }

  lemma DeleteLeafOk(psize: int, items: seq<Item>, rank: real, lo: real, hi: real)
    requires psize >= Rebalance.MIN_PSIZE && Shape(psize, Leaf(items), 1, lo, hi) && items != []
    ensures CutOk(psize, Delete(psize, Leaf(items), rank), 1, lo, hi, Upd(ItemsMap(items), rank, None))
  {
    hide ItemsMap, Fits, LeafPos;
    var i := LeafPos(items, rank);
    LeafPosIs(items, rank, lo, hi);
    if i < |items| && items[i].key.rank == rank {
      DeletedItems(psize, items, i, lo, hi);
    } else {
      InItemsMap(items, rank);
      assert forall k | i < k < |items| :: rank < items[k].key.rank;
    }
  }

  lemma FilledHasEnough(psize: int, t: Tree)
    requires psize >= Rebalance.MIN_PSIZE && !NeedsRebalance(psize, t)
    ensures Enough(t)
  {
  }

  lemma DeleteKidOk(psize: int, kids: seq<Kid>, d: Cut, height: int, lo: real, hi: real, rank: real)
    requires 4096 <= psize <= 0x8000 && Shape(psize, Branch(kids), height, lo, hi) && |kids| >= 2 && lo <= rank < hi
    requires var i := ChildIndex(kids, rank);
      CutOk(psize, d, height - 1, ZoneLo(kids[..i], [kids[i]], lo), ZoneHi(kids[i + 1..], hi), Upd(Content(kids[i].child), rank, None))
    ensures CutOk(psize, DeleteKid(psize, kids, ChildIndex(kids, rank), d), height, lo, hi, Upd(KidsMap(kids), rank, None))
  {
    hide KidsMap, KidsOk, Content, WithKid, RebalanceKid, NeedsRebalance, ChildIndex, Fits;
    var i := ChildIndex(kids, rank);
    if d.res.One? && d.shrunk && NeedsRebalance(psize, d.res.t) {
      ChildZone(psize, kids, height - 1, lo, hi, rank);
      RebalanceKidOk(psize, kids, i, d.res.t, height - 1, lo, hi, rank);
    } else {
      if d.res.One? && d.shrunk {
        FilledHasEnough(psize, d.res.t);
      }
      ChangedChildOk(psize, kids, d.res, height, lo, hi, rank, None);
    }
  }

  /** Deletion below a page keeps shape, height and zone and takes the rank out of the map. */
  lemma {:induction false} DeleteOk(psize: int, t: Tree, rank: real, height: int, lo: real, hi: real)
    requires 4096 <= psize <= 0x8000 && Shape(psize, t, height, lo, hi) && Enough(t) && lo <= rank < hi
    ensures CutOk(psize, Delete(psize, t, rank), height, lo, hi, Upd(Content(t), rank, None))
    decreases t
  {
    match t
    case Leaf(items) => DeleteLeafOk(psize, items, rank, lo, hi);
    case Branch(kids) =>
      var l, h := ChildShape(psize, kids, height, lo, hi, rank);
      var child := kids[ChildIndex(kids, rank)].child;
      DeleteOk(psize, child, rank, height - 1, l, h);
      DeleteKidOk(psize, kids, Delete(psize, child, rank), height, lo, hi, rank);
  }
}
