/** A database as its pages lie in a file: the tree with its page numbers, and what it is to
    hold such a tree. */
module PageTree {
  import opened Wrappers

  const P_INVALID := -1

  /** A page with everything below it. */
  datatype Tree =
    | Leaf(pgno: int, items: seq<Item>)
    | Branch(pgno: int, keys: seq<seq<int>>, kids: seq<Tree>)

  /** A node of a leaf: data in place, data on a run of overflow pages, or the record of a
      sub-database (dup: it holds the duplicates of the key). */
  datatype Item =
    | Plain(key: seq<int>, val: seq<int>)
    | Big(key: seq<int>, run: int, pages: int, data: seq<int>)
    | Sub(key: seq<int>, db: Option<Tree>, dup: bool, rest: seq<int>)

  /** What one page of the file holds; Tail is a later page of an overflow run. */
  datatype Page =
    | LeafPage(pgno: int, nodes: seq<Node>)
    | BranchPage(pgno: int, keys: seq<seq<int>>, ptrs: seq<int>)
    | OverPage(pgno: int, pages: int, data: seq<int>)
    | Tail

  datatype Node =
    | PlainNode(key: seq<int>, val: seq<int>)
    | BigNode(key: seq<int>, ptr: int)
    | SubNode(key: seq<int>, root: int, dup: bool, rest: seq<int>)

  // ------------------------------------------------------------ from the tree to the pages

  function RootOf(db: Option<Tree>): int {
    if db.None? then P_INVALID else db.value.pgno
  }

  function NodeOf(x: Item): Node {
    match x
    case Plain(key, val) => PlainNode(key, val)
    case Big(key, run, pages, data) => BigNode(key, run)
    case Sub(key, db, dup, rest) => SubNode(key, RootOf(db), dup, rest)
  }

  function NodesOf(items: seq<Item>): (s: seq<Node>)
    ensures |s| == |items|
  {
    seq(|items|, i requires 0 <= i < |items| => NodeOf(items[i]))
  }

  function Pgnos(kids: seq<Tree>): (s: seq<int>)
    ensures |s| == |kids|
  {
    seq(|kids|, i requires 0 <= i < |kids| => kids[i].pgno)
  }

  function PageOf(t: Tree): Page {
    match t
    case Leaf(pgno, items) => LeafPage(pgno, NodesOf(items))
    case Branch(pgno, keys, kids) => BranchPage(pgno, keys, Pgnos(kids))
  }

  /** The tree is one that the engine builds.  A database of duplicates holds plain items. */
  predicate Ok(t: Tree, dup: bool)
    decreases t
  {
    match t
    case Leaf(_, items) => forall i :: 0 <= i < |items| ==> ItemOk(items[i], dup)
    case Branch(_, keys, kids) =>
      && |keys| == |kids| > 0
      && forall i :: 0 <= i < |kids| ==> Ok(kids[i], dup)
  }

  predicate ItemOk(x: Item, dup: bool)
    decreases x
  {
    match x
    case Plain(_, _) => true
    case Big(_, _, pages, _) => !dup && pages >= 1
    case Sub(_, db, d, _) => !dup && (db.Some? ==> Ok(db.value, d))
  }

  /** Every page of the tree lies in the file under its number. */
  predicate Held(file: seq<Page>, t: Tree)
    decreases t
  {
    && 0 <= t.pgno < |file| && file[t.pgno] == PageOf(t)
    && match t
       case Leaf(_, items) => forall i :: 0 <= i < |items| ==> ItemHeld(file, items[i])
       case Branch(_, _, kids) => forall i :: 0 <= i < |kids| ==> Held(file, kids[i])
  }

  predicate ItemHeld(file: seq<Page>, x: Item)
    decreases x
  {
    match x
    case Plain(_, _) => true
    case Big(_, run, pages, data) =>
      && 0 <= run && 1 <= pages && run + pages <= |file|
      && file[run..run + pages] == RunPages(run, pages, data)
    case Sub(_, db, _, _) => db.Some? ==> Held(file, db.value)
  }

  function RunPages(run: int, pages: int, data: seq<int>): (s: seq<Page>)
    requires pages >= 1
    ensures |s| == pages
  {
    [OverPage(run, pages, data)] + seq(pages - 1, _ => Tail)
  }

  // ------------------------------------------------------------ how many pages, and which

  /** The pages of the tree and of the sub-databases recorded in it. */
  function Count(t: Tree): (n: nat)
    ensures n >= 1
    decreases t
  {
    1 + match t case Leaf(_, items) => ItemsCount(items) case Branch(_, _, kids) => KidsCount(kids)
  }

  function KidsCount(kids: seq<Tree>): nat
    decreases kids
  {
    if kids == [] then 0 else KidsCount(kids[..|kids| - 1]) + Count(kids[|kids| - 1])
  }

  function ItemsCount(items: seq<Item>): nat
    decreases items
  {
    if items == [] then 0 else ItemsCount(items[..|items| - 1]) + ItemCount(items[|items| - 1])
  }

  function ItemCount(x: Item): nat
    decreases x
  {
    match x
    case Plain(_, _) => 0
    case Big(_, _, pages, _) => if pages >= 0 then pages else 0
    case Sub(_, db, _, _) => if db.None? then 0 else Count(db.value)
  }

  function Range(from: int, n: nat): (s: seq<int>)
    ensures |s| == n
  {
    seq(n, i => from + i)
  }

  /** The numbers of those pages, children before their parent. */
  function PageList(t: Tree): (s: seq<int>)
    decreases t
  {
    (match t case Leaf(_, items) => ItemsPages(items) case Branch(_, _, kids) => KidsPages(kids)) + [t.pgno]
  }

  function KidsPages(kids: seq<Tree>): seq<int>
    decreases kids
  {
    if kids == [] then [] else KidsPages(kids[..|kids| - 1]) + PageList(kids[|kids| - 1])
  }

  function ItemsPages(items: seq<Item>): seq<int>
    decreases items
  {
    if items == [] then [] else ItemsPages(items[..|items| - 1]) + ItemPages(items[|items| - 1])
  }

  function ItemPages(x: Item): seq<int>
    decreases x
  {
    match x
    case Plain(_, _) => []
    case Big(_, run, pages, _) => Range(run, if pages >= 0 then pages else 0)
    case Sub(_, db, _, _) => if db.None? then [] else PageList(db.value)
  }

  lemma {:induction false} KidCount(kids: seq<Tree>, k: nat)
    requires k < |kids|
    ensures KidsCount(kids[..k]) + Count(kids[k]) == KidsCount(kids[..k + 1]) <= KidsCount(kids)
  {
    assert kids[..k + 1][..k] == kids[..k];
    if k < |kids| - 1 {
      var s := kids[..|kids| - 1];
      KidCount(s, k);
      assert s[..k] == kids[..k] && s[..k + 1] == kids[..k + 1];
    } else {
      assert kids[..k + 1] == kids;
    }
  }

  lemma {:induction false} ItemCountAt(items: seq<Item>, k: nat)
    requires k < |items|
    ensures ItemsCount(items[..k]) + ItemCount(items[k]) == ItemsCount(items[..k + 1]) <= ItemsCount(items)
  {
    assert items[..k + 1][..k] == items[..k];
    if k < |items| - 1 {
      var s := items[..|items| - 1];
      ItemCountAt(s, k);
      assert s[..k] == items[..k] && s[..k + 1] == items[..k + 1];
    } else {
      assert items[..k + 1] == items;
    }
  }
}
