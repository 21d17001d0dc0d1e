/** Where the keys of a tree come from: every key stored with an item and every separator is,
    bytes and all, one that was given to a put. */
module BTreeStored {
  import opened Wrappers
  import opened PageLayout
  import opened SplitPoint
  import Rebalance
  import opened BTree
  import opened BTreeTheorems

  type Keys = iset<Key>

  /** All keys of items and all separators are of ks; the first node of a branch page has none. */
  ghost predicate KeysIn(t: Tree, ks: Keys)
    decreases t
  {
    match t
    case Leaf(items) => ItemKeysIn(items, ks)
    case Branch(kids) => forall i :: 0 <= i < |kids| ==> KidKeysIn(kids[i], ks)
  }

  ghost predicate ItemKeysIn(items: seq<Item>, ks: Keys) {
    forall i :: 0 <= i < |items| ==> items[i].key in ks
  }

  ghost predicate KeyIn(key: Key, ks: Keys) {
    key == NOKEY || key in ks
  }

  ghost predicate KidKeysIn(kid: Kid, ks: Keys)
    decreases kid
  {
    KeyIn(kid.key, ks) && KeysIn(kid.child, ks)
  }

  ghost predicate KidsKeysIn(kids: seq<Kid>, ks: Keys) {
    forall i :: 0 <= i < |kids| ==> KidKeysIn(kids[i], ks)
  }

  ghost predicate ResKeysIn(r: Res, ks: Keys) {
    match r
    case Full => true
    case One(t, _, _) => KeysIn(t, ks)
    case Two(left, sep, right, _, _) => KeysIn(left, ks) && KeyIn(sep, ks) && KeysIn(right, ks)
  }

  // ------------------------------------------------------------ pages

  lemma FitLeafKeys(psize: int, c: seq<Item>, i: nat, ks: Keys)
    requires i < |c| && ItemKeysIn(c, ks)
    ensures ResKeysIn(FitLeaf(psize, c, i), ks)
  {
    hide ItemWeights, Sum, SplitIndex;
  }

  lemma RekeyedKeys(kids: seq<Kid>, key: Key, ks: Keys)
    requires kids != [] && KeyIn(key, ks) && KidsKeysIn(kids, ks)
    ensures KidsKeysIn(Rekeyed(kids, key), ks)
  {
    assert KidKeysIn(kids[0], ks);
  }

  lemma FitBranchKeys(psize: int, c: seq<Kid>, i: nat, ks: Keys)
    requires i < |c| && KidsKeysIn(c, ks)
    ensures ResKeysIn(FitBranch(psize, c, i), ks)
  {
    hide KidWeights, Sum, SplitIndex;
    var r := FitBranch(psize, c, i);
    if r.Two? {
      var s := CutAt(false, psize, KidWeights(c), i);
      assert KidKeysIn(c[s], ks);
      assert KidsKeysIn(c[s..], ks);
      RekeyedKeys(c[s..], NOKEY, ks);
      assert KeysIn(r.left, ks);
      assert KeysIn(r.right, ks);
    }
  }

  lemma WithKidKeys(psize: int, kids: seq<Kid>, i: nat, r: Res, ks: Keys)
    requires i < |kids| && KidsKeysIn(kids, ks) && ResKeysIn(r, ks)
    ensures ResKeysIn(WithKid(psize, kids, i, r), ks)
  {
    hide FitBranch;
    assert KidKeysIn(kids[i], ks);
    if r.Two? {
      var c := Spliced(kids, i, AsKids(kids[i].key, r));
      assert KidKeysIn(Kid(kids[i].key, r.left), ks) && KidKeysIn(Kid(r.sep, r.right), ks);
      assert KidsKeysIn(c, ks);
      FitBranchKeys(psize, c, i + 1, ks);
    } else if r.One? {
      assert KidKeysIn(Kid(kids[i].key, r.t), ks);
      assert KidsKeysIn(kids[i := Kid(kids[i].key, r.t)], ks);
    }
  }

  // ------------------------------------------------------------ insertion

  lemma InsertLeafKeys(psize: int, items: seq<Item>, it: Item, ks: Keys)
    requires ItemKeysIn(items, ks) && it.key in ks
    ensures ResKeysIn(InsertLeaf(psize, items, it), ks)
  {
    hide LeafPos, FitLeaf;
    var i := LeafPos(items, it.key.rank);
    if i < |items| && items[i].key.rank == it.key.rank {
      FitLeafKeys(psize, items[i := it], i, ks);
    } else {
      FitLeafKeys(psize, items[..i] + [it] + items[i..], i, ks);
    }
  }

  lemma {:induction false} InsertKeys(psize: int, t: Tree, it: Item, ks: Keys)
    requires KeysIn(t, ks) && it.key in ks
    ensures ResKeysIn(Insert(psize, t, it), ks)
    decreases t
  {
    hide InsertLeaf, ChildIndex, WithKid;
    if t.Leaf? {
      InsertLeafKeys(psize, t.items, it, ks);
    } else if t.kids != [] {
      var i := ChildIndex(t.kids, it.key.rank);
      assert KidKeysIn(t.kids[i], ks);
      InsertKeys(psize, t.kids[i].child, it, ks);
      WithKidKeys(psize, t.kids, i, Insert(psize, t.kids[i].child, it), ks);
    }
  }

  // ------------------------------------------------------------ deletion

  lemma {:induction false} LowKeyIn(t: Tree, ks: Keys)
    requires KeysIn(t, ks)
    ensures KeyIn(LowKey(t), ks)
    decreases t
  {
    if t.Branch? && t.kids != [] {
      assert KidKeysIn(t.kids[0], ks);
      LowKeyIn(t.kids[0].child, ks);
    }
  }

  lemma MergedKeys(a: Tree, b: Tree, ks: Keys)
    requires KeysIn(a, ks) && KeysIn(b, ks)
    ensures KeysIn(Merged(a, b), ks)
  {
    hide LowKey;
    LowKeyIn(b, ks);
    if a.Branch? && b.Branch? && b.kids != [] {
      RekeyedKeys(b.kids, LowKey(b), ks);
    }
  }

  lemma MovedLeftKeys(a: Tree, b: Tree, ks: Keys)
    requires KeysIn(a, ks) && KeysIn(b, ks)
    ensures var p := MovedLeft(a, b); KeysIn(p.0, ks) && KeyIn(p.1, ks) && KeysIn(p.2, ks)
  {
    hide LowKey;
    LowKeyIn(b, ks);
    if b.Branch? && |b.kids| >= 2 {
      assert KidKeysIn(b.kids[0], ks) && KidKeysIn(b.kids[1], ks);
      assert KidsKeysIn(b.kids[1..], ks);
      RekeyedKeys(b.kids[1..], NOKEY, ks);
      assert KidKeysIn(Kid(LowKey(b), b.kids[0].child), ks);
    }
  }

  lemma MovedRightKeys(a: Tree, b: Tree, ks: Keys)
    requires KeysIn(a, ks) && KeysIn(b, ks)
    ensures var p := MovedRight(a, b); KeysIn(p.0, ks) && KeyIn(p.1, ks) && KeysIn(p.2, ks)
  {
    hide LowKey;
    LowKeyIn(b, ks);
    if a.Branch? && b.Branch? && |a.kids| >= 2 && b.kids != [] {
      var n := |a.kids| - 1;
      assert KidKeysIn(a.kids[n], ks);
      RekeyedKeys(b.kids, LowKey(b), ks);
      assert KidKeysIn(Kid(NOKEY, a.kids[n].child), ks);
    }
  }

  lemma MoveKidsKeys(psize: int, kids: seq<Kid>, x: nat, p: (Tree, Key, Tree), ks: Keys)
    requires x + 1 < |kids| && KidsKeysIn(kids, ks)
    requires KeysIn(p.0, ks) && KeyIn(p.1, ks) && KeysIn(p.2, ks)
    ensures ResKeysIn(MoveKids(psize, kids, x, p).res, ks)
  {
    hide FitBranch, Fits;
    var c := kids[..x] + [Kid(kids[x].key, p.0), Kid(p.1, p.2)] + kids[x + 2..];
    assert KidKeysIn(kids[x], ks);
    assert KidKeysIn(Kid(kids[x].key, p.0), ks) && KidKeysIn(Kid(p.1, p.2), ks);
    assert KidsKeysIn(c, ks);
    FitBranchKeys(psize, c, x + 1, ks);
  }

  lemma MergeKidsKeys(psize: int, kids: seq<Kid>, x: nat, ks: Keys)
    requires x + 1 < |kids| && KidsKeysIn(kids, ks)
    ensures ResKeysIn(MergeKids(psize, kids, x).res, ks)
  {
    hide Fits, Merged;
    assert KidKeysIn(kids[x], ks) && KidKeysIn(kids[x + 1], ks);
    var m := Kid(kids[x].key, Merged(kids[x].child, kids[x + 1].child));
    MergedKeys(kids[x].child, kids[x + 1].child, ks);
    assert KidKeysIn(m, ks);
    assert KidsKeysIn(kids[..x] + [m] + kids[x + 2..], ks);
  }

  lemma RebalanceKeys(psize: int, kids: seq<Kid>, i: nat, ks: Keys)
    requires psize >= Rebalance.MIN_PSIZE && i < |kids| && |kids| >= 2 && KidsKeysIn(kids, ks)
    ensures ResKeysIn(RebalanceKid(psize, kids, i).res, ks)
  {
    hide CanSpare, MoveKids, MergeKids, MovedLeft, MovedRight, ResKeysIn;
    var x := if i == 0 then 0 else i - 1;
    assert KidKeysIn(kids[x], ks) && KidKeysIn(kids[x + 1], ks);
    var a, b := kids[x].child, kids[x + 1].child;
    MovedLeftKeys(a, b, ks);
    MovedRightKeys(a, b, ks);
    MoveKidsKeys(psize, kids, x, if i == 0 then MovedLeft(a, b) else MovedRight(a, b), ks);
    MergeKidsKeys(psize, kids, x, ks);
  }

  lemma DeleteKidKeys(psize: int, kids: seq<Kid>, i: nat, d: Cut, ks: Keys)
    requires psize >= Rebalance.MIN_PSIZE && i < |kids| && KidsKeysIn(kids, ks) && ResKeysIn(d.res, ks)
    ensures ResKeysIn(DeleteKid(psize, kids, i, d).res, ks)
  {
    hide WithKid, RebalanceKid, NeedsRebalance;
    if d.res.One? && d.shrunk && NeedsRebalance(psize, d.res.t) && |kids| >= 2 {
      assert KidKeysIn(kids[i], ks);
      assert KidKeysIn(Kid(kids[i].key, d.res.t), ks);
      assert KidsKeysIn(kids[i := Kid(kids[i].key, d.res.t)], ks);
      RebalanceKeys(psize, kids[i := Kid(kids[i].key, d.res.t)], i, ks);
    } else {
      WithKidKeys(psize, kids, i, d.res, ks);
    }
  }

  lemma {:induction false} DeleteKeys(psize: int, t: Tree, rank: real, ks: Keys)
    requires psize >= Rebalance.MIN_PSIZE && KeysIn(t, ks)
    ensures ResKeysIn(Delete(psize, t, rank).res, ks)
    decreases t
  {
    hide LeafPos, ChildIndex, DeleteKid;
    if t.Branch? && t.kids != [] {
      var i := ChildIndex(t.kids, rank);
      assert KidKeysIn(t.kids[i], ks);
      DeleteKeys(psize, t.kids[i].child, rank, ks);
      DeleteKidKeys(psize, t.kids, i, Delete(psize, t.kids[i].child, rank), ks);
    }
  }

  // ------------------------------------------------------------ databases

  ghost predicate DbKeysIn(db: Db, ks: Keys) {
    db.root.Some? ==> KeysIn(db.root.value, ks)
  }

  lemma NewRootKeys(db: Db, r: Res, entries: int, ks: Keys)
    requires ResKeysIn(r, ks) && NewRoot(db, r, entries).Some?
    ensures DbKeysIn(NewRoot(db, r, entries).value, ks)
  {
    if r.Two? {
      assert KidKeysIn(Kid(NOKEY, r.left), ks) && KidKeysIn(Kid(r.sep, r.right), ks);
    }
  }

  lemma CollapsedKeys(db: Db, ks: Keys)
    requires DbKeysIn(db, ks)
    ensures DbKeysIn(Collapsed(db), ks)
  {
    if db.root.Some? && db.root.value.Branch? && |db.root.value.kids| == 1 {
      assert KidKeysIn(db.root.value.kids[0], ks);
    }
  }

  lemma PutKeys(psize: int, db: Db, it: Item, ks: Keys)
    requires DbKeysIn(db, ks) && it.key in ks && Put(psize, db, it).Some?
    ensures DbKeysIn(Put(psize, db, it).value, ks)
  {
    hide Insert, Get, NewRoot;
    if db.root.Some? {
      var t := db.root.value;
      InsertKeys(psize, t, it, ks);
      NewRootKeys(db, Insert(psize, t, it), if Get(t, it.key.rank) == None then 1 else 0, ks);
    }
  }

  lemma DelKeys(psize: int, db: Db, rank: real, ks: Keys)
    requires psize >= Rebalance.MIN_PSIZE && DbKeysIn(db, ks) && Del(psize, db, rank).Some?
    ensures DbKeysIn(Del(psize, db, rank).value.0, ks)
  {
    hide Delete, Get, NewRoot, Collapsed;
    if db.root.Some? && Get(db.root.value, rank) != None {
      var d := Delete(psize, db.root.value, rank);
      DeleteKeys(psize, db.root.value, rank, ks);
      NewRootKeys(db, d.res, -1, ks);
      CollapsedKeys(NewRoot(db, d.res, -1).value, ks);
    }
  }

  /** The keys that the puts of a run are given. */
  ghost function PutKeysOf(run: seq<Op>): Keys {
    iset i | 0 <= i < |run| && run[i].PutOp? :: run[i].it.key
  }

  lemma {:induction false} RunKeys(psize: int, db: Db, run: seq<Op>, ks: Keys)
    requires psize >= Rebalance.MIN_PSIZE && DbKeysIn(db, ks) && PutKeysOf(run) <= ks && After(psize, db, run).Some?
    ensures DbKeysIn(After(psize, db, run).value, ks)
    decreases |run|
  {
    hide Put, Del, DbKeysIn;
    if run != [] {
      forall i | 0 <= i < |run[1..]| && run[1..][i].PutOp?
        ensures run[1..][i].it.key in ks
      {
        assert run[i + 1].it.key in PutKeysOf(run);
      }
      match run[0]
      case PutOp(it) =>
        assert run[0].it.key in PutKeysOf(run);
        PutKeys(psize, db, it, ks);
        RunKeys(psize, Put(psize, db, it).value, run[1..], ks);
      case DelOp(rank) =>
        DelKeys(psize, db, rank, ks);
        RunKeys(psize, Del(psize, db, rank).value.0, run[1..], ks);
    }
  }

  /** Whatever a run of puts and deletes makes of an empty database, all its keys, those of the
      separators too, are keys that were put. */
  lemma KeysWerePut(psize: int, run: seq<Op>)
    requires psize >= Rebalance.MIN_PSIZE && After(psize, EMPTY, run).Some?
    ensures DbKeysIn(After(psize, EMPTY, run).value, PutKeysOf(run))
  {
    RunKeys(psize, EMPTY, run, PutKeysOf(run));
  }
}
