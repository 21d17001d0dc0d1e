/** The B+tree of a database: search, insertion with page splits, deletion with rebalancing. */
module BTree {
  import opened Wrappers
  import opened PageLayout
  import opened SplitPoint
  import Rebalance

  /** A key.  The comparison function of the database sees only the rank: any total preorder
      on the byte strings is an order of ranks, and keys of equal rank compare equal. */
  datatype Key = Key(rank: real, bytes: seq<int>)

  datatype Item = Item(key: Key, val: seq<int>)

  datatype Kid = Kid(key: Key, child: Tree)

  datatype Tree = Leaf(items: seq<Item>) | Branch(kids: seq<Kid>)

  /** What becomes of a page: it stays one page, it is split at a separator, or a node found
      no room (MDB_PAGE_FULL).  leaves and branches count the pages gained. */
  datatype Res =
    | One(t: Tree, leaves: int, branches: int)
    | Two(left: Tree, sep: Key, right: Tree, leaves: int, branches: int)
    | Full

  /** The first node of a branch page has an empty key. */
  const NOKEY := Key(0.0, [])

  const MAXKEYSIZE := 511

  predicate KeyOk(k: Key) {
    1 <= |k.bytes| <= MAXKEYSIZE
  }

  // ------------------------------------------------------------ sizes

  /** mdb_leaf_size: data too large for half a page goes to an overflow page. */
  function ItemWeight(psize: int, it: Item): int {
    var size := NODESIZE + |it.key.bytes| + |it.val|;
    Round(2 + if size > MaxWeight(psize) - 2 then size - |it.val| + PGNOSIZE else size)
  }

  /** mdb_branch_size. */
  function KidWeight(kid: Kid): int {
    Round(2 + NODESIZE + |kid.key.bytes|)
  }

  function ItemWeights(psize: int, s: seq<Item>): (w: seq<int>)
    ensures |w| == |s|
  {
    if s == [] then [] else ItemWeights(psize, s[..|s| - 1]) + [ItemWeight(psize, s[|s| - 1])]
  }

  function KidWeights(s: seq<Kid>): (w: seq<int>)
    ensures |w| == |s|
  {
    if s == [] then [] else KidWeights(s[..|s| - 1]) + [KidWeight(s[|s| - 1])]
  }

  function PageWeights(psize: int, t: Tree): seq<int> {
    match t
    case Leaf(items) => ItemWeights(psize, items)
    case Branch(kids) => KidWeights(kids)
  }

  predicate Fits(psize: int, t: Tree) {
    Sum(PageWeights(psize, t)) <= Pmax(psize)
  }

  function Without(w: seq<int>, i: int): seq<int>
    requires 0 <= i < |w|
  {
    w[..i] + w[i + 1..]
  }

  /** Where a page is cut whose node i is the new one. */
  function CutAt(leaf: bool, psize: int, w: seq<int>, i: int): int
    requires 0 <= i < |w| && |w| >= 3
  {
    SplitIndex(leaf, psize, Without(w, i), i, w[i])
  }

  // ------------------------------------------------------------ search

  /** mdb_node_search in a leaf: how many items are below the key. */
  function LeafPos(items: seq<Item>, rank: real): (i: nat)
    ensures i <= |items|
  {
    if items == [] then 0
    else if items[|items| - 1].key.rank < rank then |items|
    else LeafPos(items[..|items| - 1], rank)
  }

  /** The child to descend to: the last one whose key is not above, the first one's key
      being taken as below everything. */
  function ChildIndex(kids: seq<Kid>, rank: real): (i: nat)
    requires kids != []
    ensures i < |kids|
  {
    if |kids| == 1 || kids[|kids| - 1].key.rank <= rank then |kids| - 1
    else ChildIndex(kids[..|kids| - 1], rank)
  }

  function Get(t: Tree, rank: real): Option<seq<int>>
    decreases t
  {
    match t
    case Leaf(items) =>
      var i := LeafPos(items, rank);
      if i < |items| && items[i].key.rank == rank then Some(items[i].val) else None
    case Branch(kids) =>
      if kids == [] then None else Get(kids[ChildIndex(kids, rank)].child, rank)
  }

  /** mdb_page_search_lowest: the first key below a page. */
  function LowKey(t: Tree): Key
    decreases t
  {
    match t
    case Leaf(items) => if items == [] then NOKEY else items[0].key
    case Branch(kids) => if kids == [] then NOKEY else LowKey(kids[0].child)
  }

  // ------------------------------------------------------------ pages that may have to be split

  function Rekeyed(kids: seq<Kid>, key: Key): seq<Kid>
    requires kids != []
  {
    [Kid(key, kids[0].child)] + kids[1..]
  }

  /** A leaf whose item i is new or changed. */
  function FitLeaf(psize: int, c: seq<Item>, i: int): Res
    requires 0 <= i < |c|
  {
    var w := ItemWeights(psize, c);
    if Sum(w) <= Pmax(psize) then One(Leaf(c), 0, 0)
    else if |c| < 3 then Full
    else
      var s := CutAt(true, psize, w, i);
      if 1 <= s < |c| && Left(w, s) <= Pmax(psize) && Right(true, w, s) <= Pmax(psize)
      then Two(Leaf(c[..s]), c[s].key, Leaf(c[s..]), 1, 0)
      else Full
  }

  /** A branch page whose node i is new or changed. */
  function FitBranch(psize: int, c: seq<Kid>, i: int): Res
    requires 0 <= i < |c|
  {
    var w := KidWeights(c);
    if Sum(w) <= Pmax(psize) then One(Branch(c), 0, 0)
    else if |c| < 3 then Full
    else
      var s := CutAt(false, psize, w, i);
      if 1 <= s < |c| && Left(w, s) <= Pmax(psize) && Right(false, w, s) <= Pmax(psize)
      then Two(Branch(c[..s]), c[s].key, Branch(Rekeyed(c[s..], NOKEY)), 0, 1)
      else Full
  }

  /** The nodes that point to a changed child. */
  function AsKids(key: Key, r: Res): (s: seq<Kid>)
    requires !r.Full?
    ensures |s| >= 1 && s[0].key == key
  {
    match r
    case One(t, _, _) => [Kid(key, t)]
    case Two(left, sep, right, _, _) => [Kid(key, left), Kid(sep, right)]
  }

  function Spliced(kids: seq<Kid>, i: int, new_: seq<Kid>): seq<Kid>
    requires 0 <= i < |kids|
  {
    kids[..i] + new_ + kids[i + 1..]
  }

  function Grown(r: Res, leaves: int, branches: int): Res {
    match r
    case One(t, l, b) => One(t, l + leaves, b + branches)
    case Two(left, sep, right, l, b) => Two(left, sep, right, l + leaves, b + branches)
    case Full => Full
  }

  /** A branch page whose child i has become r. */
  function WithKid(psize: int, kids: seq<Kid>, i: int, r: Res): Res
    requires 0 <= i < |kids|
  {
    match r
    case Full => Full
    case One(t, leaves, branches) => One(Branch(kids[i := Kid(kids[i].key, t)]), leaves, branches)
    case Two(_, _, _, leaves, branches) =>
      Grown(FitBranch(psize, Spliced(kids, i, AsKids(kids[i].key, r)), i + 1), leaves, branches)
  }

  // ------------------------------------------------------------ insertion

  /** mdb_cursor_put in a leaf.  Data of the same size is overwritten in place, the stored
      key remaining; otherwise the old node goes and a new one comes. */
  function InsertLeaf(psize: int, items: seq<Item>, it: Item): Res {
    var i := LeafPos(items, it.key.rank);
    if i < |items| && items[i].key.rank == it.key.rank then
      if |items[i].val| == |it.val| then One(Leaf(items[i := Item(items[i].key, it.val)]), 0, 0)
      else FitLeaf(psize, items[i := it], i)
    else FitLeaf(psize, items[..i] + [it] + items[i..], i)
  }

  function Insert(psize: int, t: Tree, it: Item): Res
    decreases t
  {
    match t
    case Leaf(items) => InsertLeaf(psize, items, it)
    case Branch(kids) =>
      if kids == [] then Full
      else
        var i := ChildIndex(kids, it.key.rank);
        WithKid(psize, kids, i, Insert(psize, kids[i].child, it))
  }

  // ------------------------------------------------------------ deletion

  /** The result of a deletion below a page; shrunk says that the page has lost a node, so
      that it is to be rebalanced. */
  datatype Cut = Cut(res: Res, shrunk: bool)

  predicate NeedsRebalance(psize: int, t: Tree)
    requires psize >= Rebalance.MIN_PSIZE
  {
    Rebalance.Needs(t.Leaf?, psize, PageWeights(psize, t))
  }

  predicate CanSpare(psize: int, t: Tree)
    requires psize >= Rebalance.MIN_PSIZE
  {
    Rebalance.Spares(t.Leaf?, psize, PageWeights(psize, t))
  }

  /** mdb_page_merge: the nodes of b behind those of a.  The first node of a branch page b
      gets the lowest key below it. */
  function Merged(a: Tree, b: Tree): Tree {
    match (a, b)
    case (Leaf(s), Leaf(m)) => Leaf(s + m)
    case (Branch(s), Branch(m)) => if m == [] then a else Branch(s + Rekeyed(m, LowKey(b)))
    case _ => a
  }

  function MergeKids(psize: int, kids: seq<Kid>, x: int): Cut
    requires 0 <= x < |kids| - 1
  {
    var m := Merged(kids[x].child, kids[x + 1].child);
    var leaf := m.Leaf?;
    if Fits(psize, m) then
      Cut(One(Branch(kids[..x] + [Kid(kids[x].key, m)] + kids[x + 2..]), if leaf then -1 else 0, if leaf then 0 else -1), true)
    else Cut(Full, true)
  }

  /** mdb_node_move of the first node of b to the end of a: both pages and the new separator. */
  function MovedLeft(a: Tree, b: Tree): (Tree, Key, Tree) {
    match (a, b)
    case (Leaf(s), Leaf(m)) =>
      if |m| < 2 then (a, NOKEY, b) else (Leaf(s + [m[0]]), m[1].key, Leaf(m[1..]))
    case (Branch(s), Branch(m)) =>
      if |m| < 2 then (a, NOKEY, b)
      else (Branch(s + [Kid(LowKey(b), m[0].child)]), m[1].key, Branch(Rekeyed(m[1..], NOKEY)))
    case _ => (a, NOKEY, b)
  }

  /** ... of the last node of a to the front of b. */
  function MovedRight(a: Tree, b: Tree): (Tree, Key, Tree) {
    match (a, b)
    case (Leaf(s), Leaf(m)) =>
      if |s| < 2 then (a, NOKEY, b) else (Leaf(s[..|s| - 1]), s[|s| - 1].key, Leaf([s[|s| - 1]] + m))
    case (Branch(s), Branch(m)) =>
      if |s| < 2 || m == [] then (a, NOKEY, b)
      else (Branch(s[..|s| - 1]), s[|s| - 1].key, Branch([Kid(NOKEY, s[|s| - 1].child)] + Rekeyed(m, LowKey(b))))
    case _ => (a, NOKEY, b)
  }

  /** The pages x and x + 1 after a move; the new separator may need more room than the old
      one had, so that the parent has to be split. */
  function MoveKids(psize: int, kids: seq<Kid>, x: int, moved: (Tree, Key, Tree)): Cut
    requires 0 <= x < |kids| - 1
  {
    if Fits(psize, moved.0) && Fits(psize, moved.2) then
      Cut(FitBranch(psize, kids[..x] + [Kid(kids[x].key, moved.0), Kid(moved.1, moved.2)] + kids[x + 2..], x + 1), false)
    else Cut(Full, false)
  }

  /** mdb_rebalance of child i of a branch page: with its left neighbour, or the right one
      when it is the first child. */
  function RebalanceKid(psize: int, kids: seq<Kid>, i: int): Cut
    requires psize >= Rebalance.MIN_PSIZE && 0 <= i < |kids| && |kids| >= 2
  {
    if i == 0 then
      if CanSpare(psize, kids[1].child) then MoveKids(psize, kids, 0, MovedLeft(kids[0].child, kids[1].child))
      else MergeKids(psize, kids, 0)
    else
      if CanSpare(psize, kids[i - 1].child) then MoveKids(psize, kids, i - 1, MovedRight(kids[i - 1].child, kids[i].child))
      else MergeKids(psize, kids, i - 1)
  }

  function GrownCut(c: Cut, leaves: int, branches: int): Cut {
    Cut(Grown(c.res, leaves, branches), c.shrunk)
  }

  function Delete(psize: int, t: Tree, rank: real): Cut
    requires psize >= Rebalance.MIN_PSIZE
    decreases t
  {
    match t
    case Leaf(items) =>
      var i := LeafPos(items, rank);
      if i < |items| && items[i].key.rank == rank then Cut(One(Leaf(items[..i] + items[i + 1..]), 0, 0), true)
      else Cut(One(t, 0, 0), false)
    case Branch(kids) =>
      if kids == [] then Cut(Full, false)
      else
        var i := ChildIndex(kids, rank);
        DeleteKid(psize, kids, i, Delete(psize, kids[i].child, rank))
  }

  function DeleteKid(psize: int, kids: seq<Kid>, i: int, d: Cut): Cut
    requires psize >= Rebalance.MIN_PSIZE && 0 <= i < |kids|
  {
    if d.res.One? && d.shrunk && NeedsRebalance(psize, d.res.t) && |kids| >= 2 then
      GrownCut(RebalanceKid(psize, kids[i := Kid(kids[i].key, d.res.t)], i), d.res.leaves, d.res.branches)
    else
      Cut(WithKid(psize, kids, i, d.res), false)
  }

  // ------------------------------------------------------------ the database

  /** MDB_db: the root, and the counters kept with it. */
  datatype Db = Db(root: Option<Tree>, depth: int, entries: int, leafPages: int, branchPages: int)

  const EMPTY := Db(None, 0, 0, 0, 0)

  /** The root after a change: a split root gets a new one above it. */
  function NewRoot(db: Db, r: Res, entries: int): Option<Db> {
    match r
    case Full => None
    case One(t, l, b) =>
      Some(Db(Some(t), db.depth, db.entries + entries, db.leafPages + l, db.branchPages + b))
    case Two(left, sep, right, l, b) =>
      Some(Db(Some(Branch([Kid(NOKEY, left), Kid(sep, right)])), db.depth + 1, db.entries + entries,
              db.leafPages + l, db.branchPages + b + 1))
  }

  /** mdb_put; None stands for MDB_PAGE_FULL. */
  function Put(psize: int, db: Db, it: Item): Option<Db> {
    match db.root
    case None => Some(Db(Some(Leaf([it])), db.depth + 1, db.entries + 1, db.leafPages + 1, db.branchPages))
    case Some(t) => NewRoot(db, Insert(psize, t, it), if Get(t, it.key.rank) == None then 1 else 0)
  }

  /** The end of mdb_rebalance, at the root: an empty leaf goes, a branch page with a single
      child is replaced by the child. */
  function Collapsed(db: Db): Db {
    match db.root
    case Some(Leaf(items)) => if items == [] then db.(root := None, depth := 0, leafPages := 0) else db
    case Some(Branch(kids)) =>
      if |kids| == 1 then db.(root := Some(kids[0].child), depth := db.depth - 1, branchPages := db.branchPages - 1)
      else db
    case None => db
  }

  /** mdb_del of a key: the database after it and whether the key was there. */
  function Del(psize: int, db: Db, rank: real): Option<(Db, bool)>
    requires psize >= Rebalance.MIN_PSIZE
  {
    match db.root
    case None => Some((db, false))
    case Some(t) =>
      if Get(t, rank) == None then Some((db, false))
      else
        var d := Delete(psize, t, rank);
        match NewRoot(db, d.res, -1)
        case None => None
        case Some(db') => Some((if d.res.One? && d.shrunk then Collapsed(db') else db', true))
  }
}
