/** Insertion into a B+tree refines insertion into the map, and keeps the shape. */
module BTreeInsert {
  import opened Wrappers
  import opened PageLayout
  import opened SplitPoint
  import Rebalance
  import opened BTree
  import opened BTreeShape

  // ------------------------------------------------------------ replacing neighbouring children

  function ZoneLo(a: seq<Kid>, m: seq<Kid>, lo: real): real
    requires m != []
  {
    if a == [] then lo else m[0].key.rank
  }

  function ZoneHi(b: seq<Kid>, hi: real): real {
    if b == [] then hi else b[0].key.rank
  }

  lemma Zone(psize: int, a: seq<Kid>, m: seq<Kid>, b: seq<Kid>, height: int, lo: real, hi: real)
    requires m != [] && KidsOk(psize, a + m + b, height, lo, hi)
    ensures KidsOk(psize, m, height, ZoneLo(a, m, lo), ZoneHi(b, hi))
    ensures a != [] ==> KeyOk(m[0].key) && KidsOk(psize, a, height, lo, m[0].key.rank)
    ensures b != [] ==> KeyOk(b[0].key) && KidsOk(psize, b, height, b[0].key.rank, hi)
  {
    var all := a + m + b;
    if b != [] {
      KidsCut(psize, all, height, lo, hi, |a| + |m|);
      assert all[..|a| + |m|] == a + m && all[|a| + |m|..] == b;
    } else {
      assert all == a + m;
    }
    if a != [] {
      KidsCut(psize, a + m, height, lo, ZoneHi(b, hi), |a|);
      assert (a + m)[..|a|] == a && (a + m)[|a|..] == m;
    } else {
      assert a + m == m;
    }
  }

  lemma UpdMiddle(a: map<real, seq<int>>, m: map<real, seq<int>>, b: map<real, seq<int>>, rank: real,
                  v: Option<seq<int>>)
    requires rank !in a && rank !in b
    ensures a + Upd(m, rank, v) + b == Upd(a + m + b, rank, v)
  {
  }

  /** Neighbouring children are replaced by others for the same zone: the change of the zone's
      map is the change of the whole map. */
  lemma ReplaceMiddle(psize: int, a: seq<Kid>, m: seq<Kid>, b: seq<Kid>, s: seq<Kid>, height: int, lo: real, hi: real,
                      rank: real, v: Option<seq<int>>)
    requires m != [] && s != [] && KidsOk(psize, a + m + b, height, lo, hi)
    requires a != [] ==> s[0].key == m[0].key
    requires KidsOk(psize, s, height, ZoneLo(a, m, lo), ZoneHi(b, hi))
    requires ZoneLo(a, m, lo) <= rank < ZoneHi(b, hi) && KidsMap(s) == Upd(KidsMap(m), rank, v)
    ensures KidsOk(psize, a + s + b, height, lo, hi)
    ensures KidsMap(a + s + b) == Upd(KidsMap(a + m + b), rank, v)
  {
    hide KidsOk, KidsMap;
    Zone(psize, a, m, b, height, lo, hi);
    if a != [] {
      KidsWithin(psize, a, height, lo, m[0].key.rank);
      KidsJoin(psize, a, s, height, lo, ZoneHi(b, hi));
    } else {
      EmptyMap(a);
      assert a + s == s;
    }
    if b != [] {
      KidsWithin(psize, b, height, b[0].key.rank, hi);
      KidsJoin(psize, a + s, b, height, lo, hi);
    } else {
      EmptyMap(b);
      assert a + s + b == a + s;
    }
    KidsMapConcat(a + s, b);
    KidsMapConcat(a, s);
    KidsMapConcat(a + m, b);
    KidsMapConcat(a, m);
    UpdMiddle(KidsMap(a), KidsMap(m), KidsMap(b), rank, v);
  }

  lemma EmptyMap(a: seq<Kid>)
    requires a == []
    ensures KidsMap(a) == map[]
  {
  }

  // ------------------------------------------------------------ pages that may have to be split

  /** A page, or the two it was split into, for the zone [lo, hi) of its parent, standing for
      the map m. */
  ghost predicate Becomes(psize: int, r: Res, height: int, lo: real, hi: real, m: map<real, seq<int>>) {
    match r
    case Full => true
    case One(t, _, _) => Shape(psize, t, height, lo, hi) && Content(t) == m
    case Two(left, sep, right, _, _) =>
      && KeyOk(sep)
      && Shape(psize, left, height, lo, sep.rank) && Enough(left)
      && Shape(psize, right, height, sep.rank, hi) && Enough(right)
      && Content(left) + Content(right) == m
  }

  ghost predicate EnoughRes(r: Res) {
    r.One? ==> Enough(r.t)
  }

  lemma CombinedWithout(w: seq<int>, i: nat)
    requires i < |w|
    ensures Combined(Without(w, i), i, w[i]) == w
  {
  }

  lemma {:induction false} ItemsMapConcat(a: seq<Item>, b: seq<Item>)
    ensures ItemsMap(a + b) == ItemsMap(a) + ItemsMap(b)
    decreases |b|
  {
    if b == [] {
      assert a + b == a;
    } else {
      var n := |b| - 1;
      ItemsMapConcat(a, b[..n]);
      assert (a + b)[..|a + b| - 1] == a + b[..n];
    }
  }

  lemma {:induction false} ItemWeightsConcat(psize: int, a: seq<Item>, b: seq<Item>)
    ensures ItemWeights(psize, a + b) == ItemWeights(psize, a) + ItemWeights(psize, b)
    decreases |b|
  {
    if b == [] {
      assert a + b == a;
    } else {
      var n := |b| - 1;
      ItemWeightsConcat(psize, a, b[..n]);
      assert (a + b)[..|a + b| - 1] == a + b[..n];
    }
  }

  lemma ItemWeightsPart(psize: int, c: seq<Item>, s: nat)
    requires s <= |c|
    ensures ItemWeights(psize, c[..s]) == ItemWeights(psize, c)[..s]
    ensures ItemWeights(psize, c[s..]) == ItemWeights(psize, c)[s..]
  {
    ItemWeightsConcat(psize, c[..s], c[s..]);
    assert c == c[..s] + c[s..];
  }

  lemma FitLeafOk(psize: int, c: seq<Item>, i: nat, lo: real, hi: real)
    requires i < |c| && Ranks(c, lo, hi)
    ensures Becomes(psize, FitLeaf(psize, c, i), 1, lo, hi, ItemsMap(c)) && EnoughRes(FitLeaf(psize, c, i))
  {
    hide ItemWeights, ItemsMap, SplitIndex, Sum, ItemWeight;
    var r := FitLeaf(psize, c, i);
    if r.Two? {
      var s := CutAt(true, psize, ItemWeights(psize, c), i);
      ItemWeightsPart(psize, c, s);
      ItemsMapConcat(c[..s], c[s..]);
      assert c == c[..s] + c[s..];
    }
  }

  lemma {:induction false} KidWeightsConcat(a: seq<Kid>, b: seq<Kid>)
    ensures KidWeights(a + b) == KidWeights(a) + KidWeights(b)
    decreases |b|
  {
    if b == [] {
      assert a + b == a;
    } else {
      var n := |b| - 1;
      KidWeightsConcat(a, b[..n]);
      assert (a + b)[..|a + b| - 1] == a + b[..n];
    }
  }

  lemma KidWeightsPart(c: seq<Kid>, s: nat)
    requires s <= |c|
    ensures KidWeights(c[..s]) == KidWeights(c)[..s]
    ensures KidWeights(c[s..]) == KidWeights(c)[s..]
  {
    KidWeightsConcat(c[..s], c[s..]);
    assert c == c[..s] + c[s..];
  }

  /** The weight of a branch page whose first node has lost its key. */
  lemma KidWeightsRekeyed(c: seq<Kid>)
    requires c != []
    ensures Sum(KidWeights(Rekeyed(c, NOKEY))) == KEYLESS + Sum(KidWeights(c[1..]))
  {
    var first := [Kid(NOKEY, c[0].child)];
    KidWeightsConcat(first, c[1..]);
    KidWeightsOne(first[0]);
    SumConcat([KEYLESS], KidWeights(c[1..]));
    SumOne(KEYLESS);
  }

  lemma KidWeightsOne(kid: Kid)
    ensures KidWeights([kid]) == [KidWeight(kid)]
    ensures kid.key == NOKEY ==> KidWeight(kid) == KEYLESS
    ensures KeyOk(kid.key) ==> SMALLEST <= KidWeight(kid) <= LARGEST_BRANCH
  {
    assert [kid][..0] == [];
  }

  /** The weights of the nodes of a branch page. */
  lemma {:induction false} KidWeightBounds(psize: int, kids: seq<Kid>, height: int, lo: real, hi: real)
    requires KidsOk(psize, kids, height, lo, hi) && kids[0].key == NOKEY
    ensures forall i | 0 <= i < |kids| :: KEYLESS <= KidWeights(kids)[i] <= if i == 0 then KEYLESS else LARGEST_BRANCH
    decreases |kids|
  {
    var n := |kids| - 1;
    KidWeightsOne(kids[n]);
    if n > 0 {
      KidWeightBounds(psize, kids[..n], height, lo, kids[n].key.rank);
    }
  }

  /** A branch page is split so that both parts have enough nodes. */
  lemma CutTwo(psize: int, c: seq<Kid>, i: nat, height: int, lo: real, hi: real)
    requires 4096 <= psize <= 0x8000 && i < |c| && KidsOk(psize, c, height, lo, hi) && c[0].key == NOKEY
    requires Sum(KidWeights(c)) > Pmax(psize)
    ensures |c| >= 8 && 2 <= CutAt(false, psize, KidWeights(c), i) <= |c| - 2
  {
    hide Sum, SplitIndex, KidWeights, KidsOk, Combined;
    var w := KidWeights(c);
    KidWeightBounds(psize, c, height, lo, hi);
    CombinedWithout(w, i);
    SumCombined(Without(w, i), i, w[i]);
    assert forall k | 0 <= k < |w| - 1 :: 0 <= Without(w, i)[k] <= LARGEST_BRANCH;
    BranchKeepsTwo(psize, Without(w, i), i, w[i]);
  }

  lemma FitBranchOk(psize: int, c: seq<Kid>, i: nat, height: int, lo: real, hi: real)
    requires 4096 <= psize <= 0x8000 && height >= 1
    requires i < |c| && |c| >= 2 && KidsOk(psize, c, height, lo, hi) && c[0].key == NOKEY
    ensures Becomes(psize, FitBranch(psize, c, i), height + 1, lo, hi, KidsMap(c)) && EnoughRes(FitBranch(psize, c, i))
  {
    hide KidWeights, KidsMap, KidsOk, SplitIndex, Sum, KidWeight;
    var r := FitBranch(psize, c, i);
    if r.Two? {
      CutTwo(psize, c, i, height, lo, hi);
      var s := CutAt(false, psize, KidWeights(c), i);
      KidsCut(psize, c, height, lo, hi, s);
      FirstKey(psize, c[s..], height, c[s].key.rank, hi, NOKEY);
      KidWeightsPart(c, s);
      KidWeightsPart(c, s + 1);
      KidWeightsRekeyed(c[s..]);
      assert c[s..][1..] == c[s + 1..];
      KidsMapConcat(c[..s], c[s..]);
      assert c == c[..s] + c[s..];
    }
  }

  // ------------------------------------------------------------ a changed child

  lemma AsKidsOk(psize: int, key: Key, r: Res, height: int, lo: real, hi: real, m: map<real, seq<int>>)
    requires !r.Full? && Becomes(psize, r, height, lo, hi, m) && EnoughRes(r)
    ensures KidsOk(psize, AsKids(key, r), height, lo, hi) && KidsMap(AsKids(key, r)) == m
  {
    match r
    case One(t, _, _) =>
      OneKid(Kid(key, t));
    case Two(left, sep, right, _, _) =>
      OneKid(Kid(key, left));
      OneKid(Kid(sep, right));
      KidsMapConcat([Kid(key, left)], [Kid(sep, right)]);
      assert AsKids(key, r) == [Kid(key, left)] + [Kid(sep, right)];
      assert AsKids(key, r)[..1] == [Kid(key, left)];
  }

  /** The child to descend to is the one whose zone the rank lies in. */
  lemma {:induction false} ChildZone(psize: int, kids: seq<Kid>, height: int, lo: real, hi: real, rank: real)
    requires KidsOk(psize, kids, height, lo, hi) && lo <= rank < hi
    ensures var i := ChildIndex(kids, rank);
      ZoneLo(kids[..i], [kids[i]], lo) <= rank < ZoneHi(kids[i + 1..], hi)
    decreases |kids|
  {
    var n, i := |kids| - 1, ChildIndex(kids, rank);
    if i < n {
      ChildZone(psize, kids[..n], height, lo, kids[n].key.rank, rank);
      assert kids[..n][..i] == kids[..i];
      assert i + 1 < n ==> kids[..n][i + 1..][0] == kids[i + 1..][0];
    }
  }

  lemma SpliceParts(kids: seq<Kid>, i: nat, s: seq<Kid>)
    requires i < |kids|
    ensures kids == kids[..i] + [kids[i]] + kids[i + 1..] && Spliced(kids, i, s) == kids[..i] + s + kids[i + 1..]
    ensures |s| == 1 ==> Spliced(kids, i, s) == kids[i := s[0]]
  {
  }

  lemma {:induction false} SameKeysSameWeights(a: seq<Kid>, b: seq<Kid>)
    requires |a| == |b| && forall k | 0 <= k < |a| :: a[k].key == b[k].key
    ensures KidWeights(a) == KidWeights(b)
    decreases |a|
  {
    if a != [] {
      SameKeysSameWeights(a[..|a| - 1], b[..|b| - 1]);
    }
  }

  lemma OneKid(kid: Kid)
    ensures KidsMap([kid]) == Content(kid.child)
  {
    assert [kid][..0] == [];
    assert KidsMap([kid]) == KidsMap([kid][..0]) + KidMap(kid);
  }

  lemma WithKidOk(psize: int, kids: seq<Kid>, i: nat, r: Res, height: int, lo: real, hi: real, rank: real,
                  v: Option<seq<int>>)
    requires 4096 <= psize <= 0x8000 && height >= 1 && i < |kids| && |kids| >= 2
    requires Fits(psize, Branch(kids)) && KidsOk(psize, kids, height, lo, hi) && kids[0].key == NOKEY
    requires var l, h := ZoneLo(kids[..i], [kids[i]], lo), ZoneHi(kids[i + 1..], hi);
      l <= rank < h && Becomes(psize, r, height, l, h, Upd(Content(kids[i].child), rank, v)) && EnoughRes(r)
    ensures Becomes(psize, WithKid(psize, kids, i, r), height + 1, lo, hi, Upd(KidsMap(kids), rank, v))
    ensures EnoughRes(WithKid(psize, kids, i, r))
  {
    hide KidsOk, KidsMap, FitBranch, AsKids, KidWeights, Sum;
    if !r.Full? {
      var a, b := kids[..i], kids[i + 1..];
      var s := AsKids(kids[i].key, r);
      AsKidsOk(psize, kids[i].key, r, height, ZoneLo(a, [kids[i]], lo), ZoneHi(b, hi), Upd(Content(kids[i].child), rank, v));
      OneKid(kids[i]);
      SpliceParts(kids, i, s);
      ReplaceMiddle(psize, a, [kids[i]], b, s, height, lo, hi, rank, v);
      if r.One? {
        AsKidsOne(kids[i].key, r);
        SameKeysSameWeights(kids, kids[i := s[0]]);
      } else {
        AsKidsTwo(kids[i].key, r);
        FitBranchOk(psize, Spliced(kids, i, s), i + 1, height, lo, hi);
      }
    }
  }

  lemma AsKidsOne(key: Key, r: Res)
    requires r.One?
    ensures AsKids(key, r) == [Kid(key, r.t)]
  {
  }

  lemma AsKidsTwo(key: Key, r: Res)
    requires r.Two?
    ensures |AsKids(key, r)| == 2
  {
  }

  // ------------------------------------------------------------ insertion

  /** Where the search in a leaf ends. */
  lemma {:induction false} LeafPosIs(items: seq<Item>, rank: real, lo: real, hi: real)
    requires Ranks(items, lo, hi)
    ensures forall k | 0 <= k < LeafPos(items, rank) :: items[k].key.rank < rank
    ensures forall k | LeafPos(items, rank) <= k < |items| :: rank <= items[k].key.rank
    decreases |items|
  {
    if items != [] {
      LeafPosIs(items[..|items| - 1], rank, lo, hi);
    }
  }

  lemma {:induction false} InItemsMap(items: seq<Item>, rank: real)
    ensures rank in ItemsMap(items) <==> exists k :: 0 <= k < |items| && items[k].key.rank == rank
  {
    if items != [] {
      var n := |items| - 1;
      InItemsMap(items[..n], rank);
      if rank in ItemsMap(items[..n]) {
        var k :| 0 <= k < n && items[..n][k].key.rank == rank;
        assert items[k].key.rank == rank;
      }
      if k :| 0 <= k < |items| && items[k].key.rank == rank {
        assert k < n ==> items[..n][k].key.rank == rank;
      }
    }
  }

  lemma OneItem(it: Item)
    ensures ItemsMap([it]) == map[it.key.rank := it.val]
  {
    assert [it][..0] == [];
  }

  /** The map of a leaf around one position. */
  lemma ItemsMapAround(items: seq<Item>, i: nat, it: Item)
    requires i <= |items|
    ensures ItemsMap(items[..i] + [it] + items[i..])
      == ItemsMap(items[..i]) + map[it.key.rank := it.val] + ItemsMap(items[i..])
  {
    ItemsMapConcat(items[..i] + [it], items[i..]);
    ItemsMapConcat(items[..i], [it]);
    OneItem(it);
  }

  lemma InsertedItems(items: seq<Item>, i: nat, it: Item, lo: real, hi: real)
    requires Ranks(items, lo, hi) && i == LeafPos(items, it.key.rank) && lo <= it.key.rank < hi && KeyOk(it.key)
    requires i < |items| ==> items[i].key.rank != it.key.rank
    ensures Ranks(items[..i] + [it] + items[i..], lo, hi)
    ensures ItemsMap(items[..i] + [it] + items[i..]) == ItemsMap(items)[it.key.rank := it.val]
  {
    hide ItemsMap, LeafPos;
    LeafPosIs(items, it.key.rank, lo, hi);
    assert forall k | i <= k < |items| :: it.key.rank < items[k].key.rank;
    InsertedRanks(items, i, it, lo, hi);
    InsertedMap(items, i, it);
  }

  lemma InsertedRanks(items: seq<Item>, i: nat, it: Item, lo: real, hi: real)
    requires Ranks(items, lo, hi) && i <= |items| && lo <= it.key.rank < hi && KeyOk(it.key)
    requires forall k | 0 <= k < i :: items[k].key.rank < it.key.rank
    requires forall k | i <= k < |items| :: it.key.rank < items[k].key.rank
    ensures Ranks(items[..i] + [it] + items[i..], lo, hi)
  {
  }

  lemma InsertedMap(items: seq<Item>, i: nat, it: Item)
    requires i <= |items| && forall k | i <= k < |items| :: it.key.rank < items[k].key.rank
    ensures ItemsMap(items[..i] + [it] + items[i..]) == ItemsMap(items)[it.key.rank := it.val]
  {
    hide ItemsMap;
    ItemsMapAround(items, i, it);
    ItemsMapConcat(items[..i], items[i..]);
    assert items == items[..i] + items[i..];
    InItemsMap(items[i..], it.key.rank);
  }

  /** A list is its parts around position i. */
  lemma AroundItem(items: seq<Item>, i: nat, it: Item)
    requires i < |items|
    ensures items == items[..i] + [items[i]] + items[i + 1..]
    ensures items[i := it] == items[..i] + [it] + items[i + 1..]
  {
  }

  lemma ReplacedItems(items: seq<Item>, i: nat, it: Item, lo: real, hi: real)
    requires Ranks(items, lo, hi) && i < |items| && items[i].key.rank == it.key.rank && KeyOk(it.key)
    ensures Ranks(items[i := it], lo, hi)
    ensures ItemsMap(items[i := it]) == ItemsMap(items)[it.key.rank := it.val]
  {
    hide ItemsMap;
    var rest := items[..i] + items[i + 1..];
    AroundItem(items, i, it);
    ItemsMapAround(rest, i, items[i]);
    ItemsMapAround(rest, i, it);
    assert rest[..i] == items[..i] && rest[i..] == items[i + 1..];
    InItemsMap(items[i + 1..], it.key.rank);
  }

  lemma SameSizesSameWeights(psize: int, items: seq<Item>, i: nat, val: seq<int>)
    requires i < |items| && |val| == |items[i].val|
    ensures ItemWeights(psize, items[i := Item(items[i].key, val)]) == ItemWeights(psize, items)
  {
    hide ItemWeights, ItemWeight;
    var it := Item(items[i].key, val);
    AroundItem(items, i, it);
    ItemWeightsConcat(psize, items[..i] + [it], items[i + 1..]);
    ItemWeightsConcat(psize, items[..i], [it]);
    ItemWeightsConcat(psize, items[..i] + [items[i]], items[i + 1..]);
    ItemWeightsConcat(psize, items[..i], [items[i]]);
    OneWeight(psize, it, items[i]);
  }

  lemma OneWeight(psize: int, a: Item, b: Item)
    requires |a.key.bytes| == |b.key.bytes| && |a.val| == |b.val|
    ensures ItemWeights(psize, [a]) == ItemWeights(psize, [b])
  {
    assert [a][..0] == [b][..0] == [];
  }

  lemma InsertLeafOk(psize: int, items: seq<Item>, it: Item, lo: real, hi: real)
    requires Shape(psize, Leaf(items), 1, lo, hi) && lo <= it.key.rank < hi && KeyOk(it.key)
    ensures Becomes(psize, InsertLeaf(psize, items, it), 1, lo, hi, ItemsMap(items)[it.key.rank := it.val])
    ensures EnoughRes(InsertLeaf(psize, items, it))
  {
    hide ItemsMap, LeafPos, FitLeaf, ItemWeights, Ranks;
    var i := LeafPos(items, it.key.rank);
    if i < |items| && items[i].key.rank == it.key.rank {
      if |items[i].val| == |it.val| {
        var new_ := Item(items[i].key, it.val);
        RanksKey(items, i, lo, hi);
        ReplacedItems(items, i, new_, lo, hi);
        SameSizesSameWeights(psize, items, i, it.val);
      } else {
        ReplacedItems(items, i, it, lo, hi);
        FitLeafOk(psize, items[i := it], i, lo, hi);
      }
    } else {
      InsertedItems(items, i, it, lo, hi);
      FitLeafOk(psize, items[..i] + [it] + items[i..], i, lo, hi);
    }
  }

  lemma RanksKey(items: seq<Item>, i: nat, lo: real, hi: real)
    requires Ranks(items, lo, hi) && i < |items|
    ensures KeyOk(items[i].key)
  {
  }

  /** Insertion below a page keeps shape, height and zone and puts the value in the map. */
  lemma {:induction false} InsertOk(psize: int, t: Tree, it: Item, height: int, lo: real, hi: real)
    requires 4096 <= psize <= 0x8000 && Shape(psize, t, height, lo, hi) && Enough(t)
    requires lo <= it.key.rank < hi && KeyOk(it.key)
    ensures Becomes(psize, Insert(psize, t, it), height, lo, hi, Upd(Content(t), it.key.rank, Some(it.val)))
    ensures EnoughRes(Insert(psize, t, it))
    decreases t
  {
    match t
    case Leaf(items) => InsertLeafOk(psize, items, it, lo, hi);
    case Branch(kids) =>
      var l, h := ChildShape(psize, kids, height, lo, hi, it.key.rank);
      var child := kids[ChildIndex(kids, it.key.rank)].child;
      InsertOk(psize, child, it, height - 1, l, h);
      ChangedChildOk(psize, kids, Insert(psize, child, it), height, lo, hi, it.key.rank, Some(it.val));
  }

  lemma OneKidShape(psize: int, kid: Kid, height: int, lo: real, hi: real)
    requires KidsOk(psize, [kid], height, lo, hi)
    ensures Shape(psize, kid.child, height, lo, hi) && Enough(kid.child)
  {
  }

  /** The subtree to descend to. */
  lemma ChildShape(psize: int, kids: seq<Kid>, height: int, lo: real, hi: real, rank: real) returns (l: real, h: real)
    requires Shape(psize, Branch(kids), height, lo, hi) && lo <= rank < hi
    ensures var i := ChildIndex(kids, rank);
      && l == ZoneLo(kids[..i], [kids[i]], lo) && h == ZoneHi(kids[i + 1..], hi) && l <= rank < h
      && Shape(psize, kids[i].child, height - 1, l, h) && Enough(kids[i].child)
  {
    hide KidsMap, KidsOk, ZoneLo, ZoneHi, ChildIndex;
    var i := ChildIndex(kids, rank);
    ChildZone(psize, kids, height - 1, lo, hi, rank);
    SpliceParts(kids, i, [kids[i]]);
    Zone(psize, kids[..i], [kids[i]], kids[i + 1..], height - 1, lo, hi);
    l, h := ZoneLo(kids[..i], [kids[i]], lo), ZoneHi(kids[i + 1..], hi);
    OneKidShape(psize, kids[i], height - 1, l, h);
  }

  /** What the change of that subtree makes of the branch page. */
  lemma ChangedChildOk(psize: int, kids: seq<Kid>, r: Res, height: int, lo: real, hi: real, rank: real,
                       v: Option<seq<int>>)
    requires 4096 <= psize <= 0x8000 && Shape(psize, Branch(kids), height, lo, hi) && |kids| >= 2 && lo <= rank < hi
    requires var i := ChildIndex(kids, rank);
      && Becomes(psize, r, height - 1, ZoneLo(kids[..i], [kids[i]], lo), ZoneHi(kids[i + 1..], hi),
                 Upd(Content(kids[i].child), rank, v))
      && EnoughRes(r)
    ensures var r' := WithKid(psize, kids, ChildIndex(kids, rank), r);
      Becomes(psize, r', height, lo, hi, Upd(KidsMap(kids), rank, v)) && EnoughRes(r')
  {
    hide KidsMap, Becomes, WithKid;
    ChildZone(psize, kids, height - 1, lo, hi, rank);
    WithKidOk(psize, kids, ChildIndex(kids, rank), r, height - 1, lo, hi, rank, v);
  }
}
