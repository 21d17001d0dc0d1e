/** The guarantees of the tree: put, get and delete are those of a map from ranks to values,
    for every database that puts and deletes can make. */
module BTreeTheorems {
  import opened Wrappers
  import opened PageLayout
  import opened SplitPoint
  import Rebalance
  import opened BTree
  import opened BTreeShape
  import opened BTreeInsert
  import opened BTreeDelete
  import opened BTreeCounts

  /** The map a database stands for. */
  ghost function Meaning(db: Db): map<real, seq<int>> {
    match db.root
    case None => map[]
    case Some(t) => Content(t)
  }

  ghost predicate Shaped(psize: int, t: Tree, depth: int) {
    Enough(t) && exists lo, hi :: Shape(psize, t, depth, lo, hi)
  }

  /** A tree of uniform depth with ordered keys, separators between the zones they separate,
      pages that hold enough and not too much, and counters that are right. */
  ghost predicate DbOk(psize: int, db: Db) {
    && 4096 <= psize <= 0x8000
    && db.entries == |Meaning(db)|
    && match db.root
       case None => db.depth == 0 && db.leafPages == 0 && db.branchPages == 0
       case Some(t) =>
         && Shaped(psize, t, db.depth)
         && db.leafPages == Count(t, true) && db.branchPages == Count(t, false)
  }

  /** The database is in order and stands for the map m. */
  ghost predicate Stands(psize: int, db: Db, m: map<real, seq<int>>) {
    DbOk(psize, db) && Meaning(db) == m
  }

  // ------------------------------------------------------------ get

  /** The search finds what the map holds. */
  lemma {:induction false} GetOk(psize: int, t: Tree, height: int, lo: real, hi: real, rank: real)
    requires Shape(psize, t, height, lo, hi) && lo <= rank < hi
    ensures Get(t, rank) == if rank in Content(t) then Some(Content(t)[rank]) else None
    decreases t
  {
    match t
    case Leaf(items) => GetLeafOk(items, lo, hi, rank);
    case Branch(kids) =>
      var l, h := ChildShape(psize, kids, height, lo, hi, rank);
      var i := ChildIndex(kids, rank);
      GetOk(psize, kids[i].child, height - 1, l, h, rank);
      ChildHolds(psize, kids, i, height - 1, lo, hi, rank);
  }

  lemma GetLeafOk(items: seq<Item>, lo: real, hi: real, rank: real)
    requires Ranks(items, lo, hi)
    ensures Get(Leaf(items), rank) == if rank in ItemsMap(items) then Some(ItemsMap(items)[rank]) else None
  {
    hide LeafPos, ItemsMap;
    LeafPosIs(items, rank, lo, hi);
    var i := LeafPos(items, rank);
    InItemsMap(items, rank);
    if i < |items| {
      assert forall k | i < k < |items| :: items[i].key.rank < items[k].key.rank;
      ItemAt(items, i, lo, hi);
    }
  }

  lemma ItemAt(items: seq<Item>, i: nat, lo: real, hi: real)
    requires Ranks(items, lo, hi) && i < |items|
    ensures items[i].key.rank in ItemsMap(items) && ItemsMap(items)[items[i].key.rank] == items[i].val
  {
    AroundItem(items, i, items[i]);
    ItemsMapConcat(items[..i] + [items[i]], items[i + 1..]);
    ItemsMapConcat(items[..i], [items[i]]);
    OneItem(items[i]);
    InItemsMap(items[i + 1..], items[i].key.rank);
    assert forall k | i < k < |items| :: items[i].key.rank < items[k].key.rank;
  }

  lemma ChildHolds(psize: int, kids: seq<Kid>, i: nat, height: int, lo: real, hi: real, rank: real)
    requires KidsOk(psize, kids, height, lo, hi) && i < |kids|
    requires ZoneLo(kids[..i], [kids[i]], lo) <= rank < ZoneHi(kids[i + 1..], hi)
    ensures rank in KidsMap(kids) <==> rank in Content(kids[i].child)
    ensures rank in KidsMap(kids) ==> KidsMap(kids)[rank] == Content(kids[i].child)[rank]
  {
    hide KidsMap, KidsOk;
    var a, b := kids[..i], kids[i + 1..];
    SpliceParts(kids, i, [kids[i]]);
    Zone(psize, a, [kids[i]], b, height, lo, hi);
    KidsMapConcat(a + [kids[i]], b);
    KidsMapConcat(a, [kids[i]]);
    OneKid(kids[i]);
    if a != [] {
      KidsWithin(psize, a, height, lo, kids[i].key.rank);
    } else {
      EmptyMap(a);
    }
    if b != [] {
      KidsWithin(psize, b, height, b[0].key.rank, hi);
    } else {
      EmptyMap(b);
    }
  }

  // ------------------------------------------------------------ bounds around a rank

  /** Some zone of the tree that also takes in a rank. */
  lemma WideShape(psize: int, t: Tree, depth: int, rank: real) returns (lo: real, hi: real)
    requires Shaped(psize, t, depth)
    ensures Shape(psize, t, depth, lo, hi) && lo <= rank < hi
  {
    hide Shape;
    var l, h :| Shape(psize, t, depth, l, h);
    lo := if l <= rank then l else rank;
    hi := if rank < h then h else rank + 1.0;
    ShapeWidens(psize, t, depth, l, h, lo, hi);
  }

  function GetDb(db: Db, rank: real): Option<seq<int>> {
    if db.root == None then None else Get(db.root.value, rank)
  }

  /** mdb_get. */
  lemma GetRefines(psize: int, db: Db, rank: real)
    requires DbOk(psize, db)
    ensures GetDb(db, rank) == if rank in Meaning(db) then Some(Meaning(db)[rank]) else None
  {
    if db.root.Some? {
      var lo, hi := WideShape(psize, db.root.value, db.depth, rank);
      GetOk(psize, db.root.value, db.depth, lo, hi, rank);
    }
  }

  // ------------------------------------------------------------ put

  /** A root, or the two pages it was split into, becomes a well-shaped tree. */
  lemma NewRootOk(psize: int, db: Db, r: Res, entries: int, lo: real, hi: real, m: map<real, seq<int>>)
    requires 4096 <= psize <= 0x8000 && db.root.Some? && db.depth >= 1
    requires Becomes(psize, r, db.depth, lo, hi, m) && EnoughRes(r) && db.entries + entries == |m|
    requires Counted(r, true, db.leafPages) && Counted(r, false, db.branchPages)
    ensures NewRoot(db, r, entries) == None <==> r.Full?
    ensures !r.Full? ==> Stands(psize, NewRoot(db, r, entries).value, m)
  {
    hide Shape, Content, Count;
    match r
    case Full =>
    case One(t, _, _) => assert Shaped(psize, t, db.depth);
    case Two(left, sep, right, _, _) =>
      RootGrows(psize, r, db.depth, lo, hi, m);
      RootCount([Kid(NOKEY, left), Kid(sep, right)], r, true);
      RootCount([Kid(NOKEY, left), Kid(sep, right)], r, false);
  }

  lemma RootGrows(psize: int, r: Res, depth: int, lo: real, hi: real, m: map<real, seq<int>>)
    requires 4096 <= psize <= 0x8000 && r.Two? && depth >= 1 && Becomes(psize, r, depth, lo, hi, m)
    ensures var t := Branch([Kid(NOKEY, r.left), Kid(r.sep, r.right)]); Shaped(psize, t, depth + 1) && Content(t) == m
  {
    hide Shape, Content, KidsOk, KidsMap;
    var kids := [Kid(NOKEY, r.left), Kid(r.sep, r.right)];
    AsKidsOk(psize, NOKEY, r, depth, lo, hi, m);
    assert kids == AsKids(NOKEY, r);
    SepOk(psize, r, depth, lo, hi, m);
    RootFits(psize, kids);
    BranchShape(psize, kids, depth, lo, hi);
    assert Shape(psize, Branch(kids), depth + 1, lo, hi);
  }

  lemma SepOk(psize: int, r: Res, depth: int, lo: real, hi: real, m: map<real, seq<int>>)
    requires r.Two? && Becomes(psize, r, depth, lo, hi, m)
    ensures KeyOk(r.sep)
  {
  }

  lemma RootFits(psize: int, kids: seq<Kid>)
    requires 4096 <= psize && |kids| == 2 && kids[0].key == NOKEY && KeyOk(kids[1].key)
    ensures Fits(psize, Branch(kids))
  {
    KidWeightsConcat([kids[0]], [kids[1]]);
    assert kids == [kids[0]] + [kids[1]];
    KidWeightsOne(kids[0]);
    KidWeightsOne(kids[1]);
    SumConcat([KidWeight(kids[0])], [KidWeight(kids[1])]);
    SumOne(KidWeight(kids[0]));
    SumOne(KidWeight(kids[1]));
  }

  lemma RootCount(kids: seq<Kid>, r: Res, leaf: bool)
    requires r.Two? && kids == [Kid(NOKEY, r.left), Kid(r.sep, r.right)]
    ensures Count(Branch(kids), leaf) == ResCount(r, leaf) + if leaf then 0 else 1
  {
    AsKidsCount(NOKEY, r, leaf);
    assert kids == AsKids(NOKEY, r);
  }

  /** mdb_put: the value is in the map, nothing else has changed, and the tree is again well
      shaped; or no room was found for a node. */
  lemma PutRefines(psize: int, db: Db, it: Item)
    requires DbOk(psize, db) && KeyOk(it.key)
    ensures Put(psize, db, it) == None <==> db.root.Some? && Insert(psize, db.root.value, it).Full?
    ensures Put(psize, db, it).Some? ==> Stands(psize, Put(psize, db, it).value, Meaning(db)[it.key.rank := it.val])
  {
    match db.root
    case None => FirstItem(psize, it);
    case Some(t) => PutBelow(psize, db, t, it);
  }

  lemma PutBelow(psize: int, db: Db, t: Tree, it: Item)
    requires DbOk(psize, db) && db.root == Some(t) && KeyOk(it.key)
    ensures Put(psize, db, it) == None <==> Insert(psize, t, it).Full?
    ensures Put(psize, db, it).Some? ==> Stands(psize, Put(psize, db, it).value, Content(t)[it.key.rank := it.val])
  {
    hide Shape, Content, Count, Insert, Counted, Becomes, NewRoot, Stands, EnoughRes, Get;
    var rank := it.key.rank;
    PositiveDepth(psize, t, db.depth);
    var lo, hi := WideShape(psize, t, db.depth, rank);
    var r := Insert(psize, t, it);
    InsertOk(psize, t, it, db.depth, lo, hi);
    InsertCounts(psize, t, it, true);
    InsertCounts(psize, t, it, false);
    GetOk(psize, t, db.depth, lo, hi, rank);
    PutSize(Content(t), rank, it.val);
    NewRootOk(psize, db, r, if Get(t, rank) == None then 1 else 0, lo, hi, Content(t)[rank := it.val]);
  }

  lemma PositiveDepth(psize: int, t: Tree, depth: int)
    requires Shaped(psize, t, depth)
    ensures depth >= 1
  {
  }

  lemma PutSize(m: map<real, seq<int>>, rank: real, v: seq<int>)
    ensures |m[rank := v]| == |m| + if rank in m then 0 else 1
    ensures |m - {rank}| == |m| - if rank in m then 1 else 0
  {
    assert m[rank := v].Keys == m.Keys + {rank};
    assert (m - {rank}).Keys == m.Keys - {rank};
  }

  lemma FirstItem(psize: int, it: Item)
    requires 4096 <= psize <= 0x8000 && KeyOk(it.key)
    ensures Shaped(psize, Leaf([it]), 1) && Content(Leaf([it])) == map[it.key.rank := it.val]
    ensures Count(Leaf([it]), true) == 1 && Count(Leaf([it]), false) == 0
  {
    OneItem(it);
    assert [it][..0] == [];
    assert ItemWeights(psize, [it]) == [ItemWeight(psize, it)];
    SumOne(ItemWeight(psize, it));
    assert Shape(psize, Leaf([it]), 1, it.key.rank, it.key.rank + 1.0);
  }

  // ------------------------------------------------------------ del

  /** The end of the rebalancing at the root. */
  lemma CollapsedOk(psize: int, db: Db, lo: real, hi: real)
    requires 4096 <= psize <= 0x8000 && db.root.Some? && Shape(psize, db.root.value, db.depth, lo, hi)
    requires db.entries == |Meaning(db)|
    requires db.leafPages == Count(db.root.value, true) && db.branchPages == Count(db.root.value, false)
    ensures DbOk(psize, Collapsed(db)) && Meaning(Collapsed(db)) == Meaning(db)
  {
    hide Shape, Content, Count;
    match db.root.value
    case Leaf(items) =>
      assert items != [] ==> Shaped(psize, db.root.value, db.depth);
      EmptyLeaf(items, db.depth, psize, lo, hi);
    case Branch(kids) =>
      if |kids| == 1 {
        LastChild(psize, kids, db.depth, lo, hi);
      } else {
        NotEmpty(psize, db.root.value, db.depth, lo, hi);
        assert Shaped(psize, db.root.value, db.depth);
      }
  }

  lemma EmptyLeaf(items: seq<Item>, depth: int, psize: int, lo: real, hi: real)
    requires Shape(psize, Leaf(items), depth, lo, hi)
    ensures items == [] ==> Content(Leaf(items)) == map[]
    ensures Count(Leaf(items), false) == 0
  {
  }

  /** The only child of the root is as good a root. */
  lemma LastChild(psize: int, kids: seq<Kid>, depth: int, lo: real, hi: real)
    requires |kids| == 1 && Shape(psize, Branch(kids), depth, lo, hi)
    ensures Shaped(psize, kids[0].child, depth - 1) && Content(Branch(kids)) == Content(kids[0].child)
    ensures Count(Branch(kids), true) == Count(kids[0].child, true)
    ensures Count(Branch(kids), false) == Count(kids[0].child, false) + 1
  {
    assert kids == [kids[0]];
    OneKidShape(psize, kids[0], depth - 1, lo, hi);
    OneKid(kids[0]);
    OneCount(kids[0], true);
    OneCount(kids[0], false);
  }

  /** mdb_del: the rank is no longer in the map, nothing else has changed, and the tree is
      again well shaped; or no room was found for a separator. */
  lemma DelRefines(psize: int, db: Db, rank: real)
    requires DbOk(psize, db)
    ensures Del(psize, db, rank) == None ==> db.root.Some? && Delete(psize, db.root.value, rank).res.Full?
    ensures Del(psize, db, rank).Some? ==>
      && Stands(psize, Del(psize, db, rank).value.0, Meaning(db) - {rank})
      && Del(psize, db, rank).value.1 == (rank in Meaning(db))
  {
    if db.root.Some? {
      var t := db.root.value;
      var lo, hi := WideShape(psize, t, db.depth, rank);
      GetOk(psize, t, db.depth, lo, hi, rank);
      if rank in Content(t) {
        DeleteOk(psize, t, rank, db.depth, lo, hi);
        DeleteCounts(psize, t, rank, db.depth, lo, hi, true);
        DeleteCounts(psize, t, rank, db.depth, lo, hi, false);
        PutSize(Content(t), rank, []);
        AfterDelete(psize, db, Delete(psize, t, rank), lo, hi, Content(t) - {rank});
      }
    }
  }

  lemma AfterDelete(psize: int, db: Db, d: Cut, lo: real, hi: real, m: map<real, seq<int>>)
    requires 4096 <= psize <= 0x8000 && db.root.Some? && db.depth >= 1
    requires CutOk(psize, d, db.depth, lo, hi, m) && db.entries - 1 == |m|
    requires Counted(d.res, true, db.leafPages) && Counted(d.res, false, db.branchPages)
    ensures NewRoot(db, d.res, -1) == None <==> d.res.Full?
    ensures !d.res.Full? ==>
      Stands(psize, if d.res.One? && d.shrunk then Collapsed(NewRoot(db, d.res, -1).value) else NewRoot(db, d.res, -1).value, m)
  {
    hide Shape, Content, Count;
    if d.res.One? && d.shrunk {
      CollapsedOk(psize, NewRoot(db, d.res, -1).value, lo, hi);
    } else {
      NewRootOk(psize, db, d.res, -1, lo, hi, m);
    }
  }

  // ------------------------------------------------------------ runs

  datatype Op = PutOp(it: Item) | DelOp(rank: real)

  /** The database after a run of operations; None when one of them found no room. */
  function After(psize: int, db: Db, run: seq<Op>): Option<Db>
    requires psize >= Rebalance.MIN_PSIZE
    decreases |run|
  {
    if run == [] then Some(db)
    else
      match run[0]
      case PutOp(it) => (match Put(psize, db, it) case None => None case Some(db') => After(psize, db', run[1..]))
      case DelOp(rank) => (match Del(psize, db, rank) case None => None case Some(p) => After(psize, p.0, run[1..]))
  }

  function MapAfter(m: map<real, seq<int>>, run: seq<Op>): map<real, seq<int>>
    decreases |run|
  {
    if run == [] then m
    else MapAfter(match run[0] case PutOp(it) => m[it.key.rank := it.val] case DelOp(rank) => m - {rank}, run[1..])
  }

  /** Over every run of puts and deletes the tree does what the map does. */
  lemma {:induction false} RunRefines(psize: int, db: Db, run: seq<Op>)
    requires DbOk(psize, db) && forall i | 0 <= i < |run| && run[i].PutOp? :: KeyOk(run[i].it.key)
    ensures After(psize, db, run).Some? ==>
      var db' := After(psize, db, run).value; DbOk(psize, db') && Meaning(db') == MapAfter(Meaning(db), run)
    decreases |run|
  {
    hide Put, Del, DbOk, Meaning;
    DbPsize(psize, db);
    if run != [] {
      match run[0]
      case PutOp(it) =>
        PutRefines(psize, db, it);
        if Put(psize, db, it).Some? {
          RunRefines(psize, Put(psize, db, it).value, run[1..]);
        }
      case DelOp(rank) =>
        DelRefines(psize, db, rank);
        if Del(psize, db, rank).Some? {
          RunRefines(psize, Del(psize, db, rank).value.0, run[1..]);
        }
    }
  }

  lemma DbPsize(psize: int, db: Db)
    requires DbOk(psize, db)
    ensures psize >= Rebalance.MIN_PSIZE
  {
  }

  lemma EmptyOk(psize: int)
    requires 4096 <= psize <= 0x8000
    ensures DbOk(psize, EMPTY) && Meaning(EMPTY) == map[]
  {
  }
}
