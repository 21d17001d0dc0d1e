/** Cursors: traversal over page siblings enumerates the items of the tree in order, and
    positioning finds the lower bound of a key, with or without its shortcuts. */
module Cursor {
  import opened Wrappers
  import opened BTree
  import opened BTreeShape
  import opened BTreeInsert
  import opened BTreeTheorems
  import opened CursorOrder

  // ------------------------------------------------------------ the lower bound of a key

  /** Where a key stands among the items of the tree: as many items are below it. */
  ghost function LowerBound(root: Tree, rank: real): nat {
    LeafPos(Items(root), rank)
  }

  /** The items on a page that is neither wholly below nor wholly above the key decide. */
  lemma LowerBoundOnPage(s: seq<Item>, lo: real, hi: real, b: nat, page: seq<Item>, rank: real)
    requires Ranks(s, lo, hi) && b + |page| <= |s| && s[b..b + |page|] == page
    requires forall i | 0 <= i < b :: s[i].key.rank < rank
    requires forall i | b + |page| <= i < |s| :: rank < s[i].key.rank
    ensures LeafPos(s, rank) == b + LeafPos(page, rank)
  {
    LeafPosIs(s, rank, lo, hi);
    assert forall i | 0 <= i < |page| :: page[i] == s[b + i];
    assert Ranks(page, lo, hi);
    LeafPosIs(page, rank, lo, hi);
    var p, q := LeafPos(s, rank), b + LeafPos(page, rank);
    assert p < |s| ==> rank <= s[p].key.rank;
    assert q < b + |page| ==> rank <= page[q - b].key.rank;
    assert p > 0 ==> s[p - 1].key.rank < rank;
    assert q > b ==> page[q - b - 1].key.rank < rank;
  }

  /** The lower bound of a key that is in the list is its place. */
  lemma LowerBoundHit(s: seq<Item>, lo: real, hi: real, i: nat, rank: real)
    requires Ranks(s, lo, hi) && i < |s| && s[i].key.rank == rank
    ensures LeafPos(s, rank) == i
  {
    assert forall k | 0 <= k < i :: s[k].key.rank < s[i].key.rank;
    assert forall k | i < k < |s| :: s[i].key.rank < s[k].key.rank;
    LeafPosUnique(s, rank, i);
  }

  /** A key above all items, or below all. */
  lemma LowerBoundEnd(s: seq<Item>, lo: real, hi: real, rank: real)
    requires Ranks(s, lo, hi) && s != []
    ensures s[|s| - 1].key.rank < rank ==> LeafPos(s, rank) == |s|
    ensures rank < s[0].key.rank ==> LeafPos(s, rank) == 0
  {
    LeafPosIs(s, rank, lo, hi);
    var p := LeafPos(s, rank);
    assert p < |s| ==> s[p].key.rank <= s[|s| - 1].key.rank;
    assert p > 0 ==> s[0].key.rank <= s[p - 1].key.rank;
  }

  // ------------------------------------------------------------ the search in a page

  /** mdb_node_search over the ranks of a page: a leaf is searched from index 0, a branch
      page from index 1.  found tells whether the source gets a node back. */
  method NodeSearch(r: seq<real>, from: nat, rank: real) returns (i: nat, exact: bool, found: bool)
    requires from <= 1 && |r| > from && forall j, k | from <= j < k < |r| :: r[j] < r[k]
    ensures from <= i <= |r|
    ensures forall k | from <= k < i :: r[k] < rank
    ensures forall k | i <= k < |r| :: rank <= r[k]
    ensures exact <==> i < |r| && r[i] == rank
    ensures found <==> i < |r|
  {
    i := 0;
    var low, high, rc := from, |r| - 1, 0;
    while low <= high
      invariant from <= low <= |r| && from - 1 <= high < |r| && low <= high + 1
      invariant forall k | from <= k < low :: r[k] < rank
      invariant forall k | high < k < |r| :: rank < r[k]
      invariant rc == 0 ==> low == from && high == |r| - 1
      invariant rc > 0 ==> i + 1 == low && r[i] < rank
      invariant rc < 0 ==> i == high + 1 && i < |r| && rank < r[i]
      decreases high - low
    {
      i := (low + high) / 2;
      rc := if rank == r[i] then 0 else if rank > r[i] then 1 else -1;
      if rc == 0 {
        break;
      }
      if rc > 0 {
        low := i + 1;
      } else {
        high := i - 1;
      }
    }
    if rc > 0 {
      i := i + 1;
    }
    exact := rc == 0;
    found := i < |r|;
  }

  lemma {:induction false} LeafPosUnique(items: seq<Item>, rank: real, i: nat)
    requires i <= |items|
    requires forall k | 0 <= k < i :: items[k].key.rank < rank
    requires forall k | i <= k < |items| :: rank <= items[k].key.rank
    ensures LeafPos(items, rank) == i
  {
    if i < |items| {
      LeafPosUnique(items[..|items| - 1], rank, i);
    }
  }

  lemma {:induction false} ChildIndexUnique(kids: seq<Kid>, rank: real, i: nat)
    requires i < |kids| && (i > 0 ==> kids[i].key.rank <= rank)
    requires forall k | i < k < |kids| :: rank < kids[k].key.rank
    ensures ChildIndex(kids, rank) == i
  {
    if i < |kids| - 1 {
      ChildIndexUnique(kids[..|kids| - 1], rank, i);
    }
  }

  function ItemRanks(s: seq<Item>): (r: seq<real>)
    ensures |r| == |s| && forall k | 0 <= k < |s| :: r[k] == s[k].key.rank
  {
    seq(|s|, k requires 0 <= k < |s| => s[k].key.rank)
  }

  function KidRanks(s: seq<Kid>): (r: seq<real>)
    ensures |r| == |s| && forall k | 0 <= k < |s| :: r[k] == s[k].key.rank
  {
    seq(|s|, k requires 0 <= k < |s| => s[k].key.rank)
  }

  /** The separators of a branch page ascend. */
  lemma {:induction false} SeparatorsAscend(psize: int, kids: seq<Kid>, height: int, lo: real, hi: real)
    requires KidsOk(psize, kids, height, lo, hi)
    ensures forall j, k | 1 <= j < k < |kids| :: kids[j].key.rank < kids[k].key.rank
    ensures forall k | 1 <= k < |kids| :: kids[k].key.rank < hi
    decreases |kids|
  {
    var n := |kids| - 1;
    if n > 0 {
      SeparatorsAscend(psize, kids[..n], height, lo, kids[n].key.rank);
      KidWithin(psize, kids[n], height, kids[n].key.rank, hi);
    }
  }

  /** The step of mdb_page_search_root on a branch page. */
  method ChildToFollow(t: Tree, rank: real, ghost psize: int, ghost height: int, ghost lo: real,
                       ghost hi: real) returns (i: nat)
    requires t.Branch? && Shape(psize, t, height, lo, hi) && Enough(t)
    ensures i == ChildIndex(t.kids, rank) && i < |t.kids|
  {
    SeparatorsAscend(psize, t.kids, height - 1, lo, hi);
    var exact, found;
    i, exact, found := NodeSearch(KidRanks(t.kids), 1, rank);
    if !found {
      i := |t.kids| - 1;
    } else if !exact {
      i := i - 1;
    }
    ChildIndexUnique(t.kids, rank, i);
  }

  // ------------------------------------------------------------ cursors

  /** What a cursor operation returns. */
  datatype Rc = Success | NotFound

  /** mc_pg and mc_ki, the stack of pages from the root down with the index on each; init and
      eof are C_INITIALIZED and C_EOF. */
  class Cursor {
    const md: Option<Tree>
    const root: Tree
    ghost const psize: int
    ghost const depth: int
    var pg: seq<Tree>
    var ki: seq<int>
    var init: bool
    var eof: bool

    /** Without a root the database has no items and no cursor gets initialized. */
    ghost predicate Valid()
      reads this
    {
      if md.None? then root == Leaf([]) && !init else root == md.value && Rooted()
    }

    /** The tree is well shaped; an initialized cursor is on a leaf of it. */
    ghost predicate Rooted()
      reads this
    {
      && 4096 <= psize <= 0x8000 && Shaped(psize, root, depth)
      && (init ==> OnLeaf() && (eof ==> LastLeaf()))
    }

    /** C_EOF is only ever set on the last leaf. */
    ghost predicate LastLeaf()
      requires OnLeaf()
      reads this
    {
      Before(pg, ki) + |pg[depth - 1].items| == |Items(root)|
    }

    ghost predicate OnLeaf()
      reads this
    {
      && Stack(root, pg, ki) && |pg| == depth && pg[depth - 1].Leaf?
      && 0 <= ki[depth - 1] <= |pg[depth - 1].items|
    }

    /** How many items lie before the cursor. */
    ghost function Position(): int
      requires OnLeaf()
      reads this
    {
      Before(pg, ki) + ki[depth - 1]
    }

    /** The cursor is at an item, which is the one that its position tells. */
    ghost predicate AtItem()
      requires OnLeaf()
      reads this
    {
      ki[depth - 1] < |pg[depth - 1].items|
    }

    constructor (md: Option<Tree>, ghost psize: int, ghost depth: int)
      requires 4096 <= psize <= 0x8000 && (md.Some? ==> Shaped(psize, md.value, depth))
      ensures Valid() && !init && this.md == md && this.psize == psize && this.depth == depth
    {
      this.md := md;
      this.root := if md.Some? then md.value else Leaf([]);
      this.psize := psize;
      this.depth := depth;
      pg, ki, init, eof := [], [], false, false;
    }

    /** A page of the stack: well shaped, of the height its place gives. */
    lemma TopShape() returns (l: real, h: real)
      requires 4096 <= psize <= 0x8000 && Shaped(psize, root, depth) && Stack(root, pg, ki)
      ensures Shape(psize, pg[|pg| - 1], depth - |pg| + 1, l, h) && Enough(pg[|pg| - 1])
    {
      hide Stack, Before, Shape;
      var lo, hi := WideShape(psize, root, depth, 0.0);
      l, h := StackShape(psize, root, depth, lo, hi, pg, ki);
    }

    lemma TopLeaf()
      requires 4096 <= psize <= 0x8000 && Shaped(psize, root, depth) && Stack(root, pg, ki) && |pg| == depth
      ensures pg[depth - 1].Leaf? && pg[depth - 1].items != []
    {
      hide Stack, Before, Shape;
      BottomOfStack(root, pg, ki);
      var l, h := TopShape();
      PageHeight(psize, pg[depth - 1], 1, l, h);
    }

    /** mdb_cursor_sibling: the page next to the top page on its level, whatever the parents
        have to be moved for it; nothing changes when there is none. */
    method Sibling(right: bool) returns (ok: bool)
      requires 4096 <= psize <= 0x8000 && Shaped(psize, root, depth) && Stack(root, pg, ki)
      modifies this`pg, this`ki
      ensures Stack(root, pg, ki) && |pg| == old(|pg|)
      ensures !ok ==> pg == old(pg) && ki == old(ki)
      ensures !ok && right ==> Before(pg, ki) + |Items(pg[|pg| - 1])| == |Items(root)|
      ensures !ok && !right ==> Before(pg, ki) == 0
      ensures ok && right ==>
        Before(pg, ki) == old(Before(pg, ki) + |Items(pg[|pg| - 1])|) && ki[|ki| - 1] == 0
      ensures ok && !right ==>
        Before(pg, ki) + |Items(pg[|pg| - 1])| == old(Before(pg, ki)) && ki[|ki| - 1] == Nodes(pg[|pg| - 1]) - 1
      decreases |pg|
    {
      hide Shape, Items, KidsItems, Before, Stack;
      BottomOfStack(root, pg, ki);
      if |pg| < 2 {
        WholeTree(root, pg, ki);
        return false;
      }
      var n := |pg| - 1;
      var top, topKi := pg[n], ki[n];
      PopStack(root, pg, ki);
      SiblingItems(pg[n - 1], ki[n - 1]);
      assert pg == pg[..n] + [top] && ki == ki[..n] + [topKi];
      pg, ki := pg[..n], ki[..n];
      if if right then ki[n - 1] + 1 >= |pg[n - 1].kids| else ki[n - 1] == 0 {
        ghost var p := pg[n - 1];
        ghost var l, h := TopShape();
        ok := Sibling(right);
        if !ok {
          pg, ki := pg + [top], ki + [topKi];
          return;
        }
        BottomOfStack(root, pg, ki);
        ghost var l', h' := TopShape();
        SameHeight(psize, p, pg[n - 1], depth - n + 1, l, h, l', h');
      } else {
        TopIndex(root, pg, ki, ki[n - 1] + if right then 1 else -1);
        ki := ki[n - 1 := ki[n - 1] + if right then 1 else -1];
      }
      var child := pg[n - 1].kids[ki[n - 1]].child;
      SiblingItems(pg[n - 1], ki[n - 1]);
      PushStack(root, pg, ki, if right then 0 else Nodes(child) - 1);
      pg, ki := pg + [child], ki + [if right then 0 else Nodes(child) - 1];
      ok := true;
    }

    /** The descent of mdb_page_search_root to the first or the last leaf.  On the way to the last
        one, a cursor that has the last index on a page already keeps the page it has below: it
        cannot be an old one, for every branch page has two children. */
    method Descend(last: bool)
      requires 4096 <= psize <= 0x8000 && Shaped(psize, root, depth) && (init ==> OnLeaf())
      modifies this`pg, this`ki
      ensures OnLeaf() && pg[depth - 1].items != []
      ensures if last then LastLeaf() else Before(pg, ki) == 0
    {
      hide Shape, Items, KidsItems, Before, Stack;
      var pgs, kis := pg, ki;
      if init {
        BottomOfStack(root, pgs, kis);
      }
      pg, ki := [root], [if init then kis[0] else 0];
      StartStack(root);
      TopIndex(root, pg, [0], ki[0]);
      assert [0][0 := ki[0]] == ki;
      WholeTree(root, pg, ki);
      EnoughRoot(psize, root, depth);
      ghost var l, h := TopShape();
      while pg[|pg| - 1].Branch?
        invariant Stack(root, pg, ki) && |pg| == |ki| >= 1 && (init ==> Stack(root, pgs, kis))
        invariant ki[|ki| - 1] == 0 || (init && |pg| <= |pgs| && pg == pgs[..|pg|] && ki == kis[..|pg|])
        invariant Shape(psize, pg[|pg| - 1], depth - |pg| + 1, l, h) && Enough(pg[|pg| - 1])
        invariant if last then Before(pg, ki) + |Items(pg[|pg| - 1])| == |Items(root)| else Before(pg, ki) == 0
        decreases depth - |pg|
      {
        var n := |pg| - 1;
        PageHeight(psize, pg[n], depth - n, l, h);
        var x := if last then |pg[n].kids| - 1 else 0;
        var there := last && init && ki[n] == x;
        TopIndex(root, pg, ki, x);
        ki := ki[n := x];
        SiblingItems(pg[n], x);
        var child, k := pg[n].kids[x].child, 0;
        if there {
          OnTheWay(root, pgs, kis, n);
          child, k := pgs[n + 1], kis[n + 1];
        }
        PushStack(root, pg, ki, k);
        pg, ki := pg + [child], ki + [k];
        l, h := TopShape();
      }
      PageHeight(psize, pg[|pg| - 1], depth - |pg| + 1, l, h);
      LeafItems(pg[|pg| - 1]);
    }

    /** mdb_cursor_first. */
    method First() returns (rc: Rc)
      requires Valid()
      modifies this`pg, this`ki, this`init, this`eof
      ensures Valid() && (rc == Success <==> md.Some?) && (rc != Success ==> pg == old(pg) && ki == old(ki))
      ensures rc == Success ==> init && AtItem() && Position() == 0
    {
      hide Shape, Items, Before;
      if md.None? {
        return NotFound;
      }
      if !init || |pg| > 1 {
        Descend(false);
      } else {
        OneLeaf();
      }
      TopIndex(root, pg, ki, 0);
      ki := ki[|ki| - 1 := 0];
      init, eof := true, false;
      return Success;
    }

    /** mdb_cursor_last. */
    method Last() returns (rc: Rc)
      requires Valid()
      modifies this`pg, this`ki, this`init, this`eof
      ensures Valid() && (rc == Success <==> md.Some?) && (rc != Success ==> pg == old(pg) && ki == old(ki))
      ensures rc == Success ==> init && AtItem() && Position() == |Items(root)| - 1
    {
      hide Shape, Items, Before;
      if md.None? {
        return NotFound;
      }
      if !init || |pg| > 1 {
        Descend(true);
      } else {
        OneLeaf();
      }
      var x := |pg[|pg| - 1].items| - 1;
      TopIndex(root, pg, ki, x);
      ki := ki[|ki| - 1 := x];
      init, eof := true, true;
      return Success;
    }

    /** A cursor on a root that is a leaf. */
    lemma OneLeaf()
      requires Rooted() && OnLeaf() && |pg| == 1
      ensures Before(pg, ki) == 0 && LastLeaf() && pg[depth - 1].items != []
    {
      var l, h := TopShape();
    }

    lemma LeafNotEmpty()
      requires Rooted() && OnLeaf()
      ensures pg[depth - 1].items != []
    {
      hide Shape, Stack, Before;
      var l, h := TopShape();
    }

    /** mdb_cursor_next: to the item after the one the cursor is at, or to the item at its
        position when it is past the end of its leaf. */
    method Next() returns (rc: Rc)
      requires Valid()
      modifies this`pg, this`ki, this`init, this`eof
      ensures Valid() && (init <==> md.Some?)
      ensures !old(init) ==> (rc == Success <==> md.Some?) && (rc == Success ==> AtItem() && Position() == 0)
      ensures old(init) ==>
        var to := old(if AtItem() then Position() + 1 else Position());
        && (rc == Success <==> to < |Items(root)|)
        && (rc == Success ==> AtItem() && Position() == to)
        && (rc != Success ==> pg == old(pg) && ki == old(ki))
    {
      hide Shape, Items, Before, Stack;
      if !init {
        rc := First();
        return;
      }
      BottomOfStack(root, pg, ki);
      LeafNotEmpty();
      LeafInTree();
      if eof {
        if ki[|ki| - 1] >= |pg[|pg| - 1].items| - 1 {
          return NotFound;
        }
        eof := false;
      }
      rc := StepOn();
      if rc != Success {
        eof := true;
      }
    }

    /** The move of an initialized cursor to the item after it. */
    method StepOn() returns (rc: Rc)
      requires Rooted() && init && !eof
      modifies this`pg, this`ki
      ensures Rooted()
      ensures var to := old(if AtItem() then Position() + 1 else Position());
        && (rc == Success <==> to < |Items(root)|)
        && (rc == Success ==> AtItem() && Position() == to)
      ensures rc != Success ==> pg == old(pg) && ki == old(ki) && LastLeaf()
    {
      hide Shape, Items, Before, Stack;
      var n := |pg| - 1;
      BottomOfStack(root, pg, ki);
      LeafInTree();
      if ki[n] + 1 >= |pg[n].items| {
        LeafItems(pg[n]);
        var ok := Sibling(true);
        if !ok {
          return NotFound;
        }
        BottomOfStack(root, pg, ki);
        TopLeaf();
        LeafInTree();
      } else {
        TopIndex(root, pg, ki, ki[n] + 1);
        ki := ki[n := ki[n] + 1];
      }
      return Success;
    }

    /** mdb_cursor_prev. */
    method Prev() returns (rc: Rc)
      requires Valid()
      modifies this`pg, this`ki, this`init, this`eof
      ensures Valid() && (init <==> md.Some?)
      ensures var from := if old(init) then old(if init then Position() else 0) else |Items(root)|;
        && (rc == Success <==> from > 0)
        && (rc == Success ==> AtItem() && Position() == from - 1)
        && (rc != Success ==> pg == old(pg) && ki == old(ki))
    {
      hide Shape, Items, Before;
      if !init {
        rc := Last();
        if rc != Success {
          LeafItems(root);
          return;
        }
        TopIndex(root, pg, ki, ki[|ki| - 1] + 1);
        ki := ki[|ki| - 1 := ki[|ki| - 1] + 1];
      }
      eof := false;
      rc := StepBack();
    }

    /** The move of an initialized cursor to the item before it. */
    method StepBack() returns (rc: Rc)
      requires Rooted() && init && !eof
      modifies this`pg, this`ki
      ensures Rooted() && (rc == Success <==> old(Position()) > 0)
      ensures rc == Success ==> AtItem() && Position() == old(Position()) - 1
      ensures rc != Success ==> pg == old(pg) && ki == old(ki)
    {
      hide Shape, Items, Before;
      var n := |pg| - 1;
      if ki[n] == 0 {
        var ok := Sibling(false);
        if !ok {
          return NotFound;
        }
        TopLeaf();
        LeafItems(pg[n]);
        TopIndex(root, pg, ki, |pg[n].items| - 1);
        ki := ki[n := |pg[n].items| - 1];
      } else {
        TopIndex(root, pg, ki, ki[n] - 1);
        ki := ki[n := ki[n] - 1];
      }
      return Success;
    }

    /** The leaf is part of the tree. */
    lemma LeafInTree()
      requires OnLeaf()
      ensures Before(pg, ki) + |pg[depth - 1].items| <= |Items(root)|
      ensures AtItem() ==> pg[depth - 1].items[ki[depth - 1]] == Items(root)[Position()]
    {
      TopItems(root, pg, ki);
      var b, s := Before(pg, ki), pg[depth - 1].items;
      assert forall k | 0 <= k < |s| :: s[k] == Items(root)[b..b + |s|][k] == Items(root)[b + k];
    }

    // ---------------------------------------------------------- positioning

    /** The items left of the top page are below the key, those right of it above. */
    ghost predicate OnPage(rank: real)
      requires |pg| == |ki| >= 1
      reads this
    {
      Around(Items(root), Before(pg, ki), |Items(pg[|pg| - 1])|, rank)
    }

    /** mdb_page_search: the descent to the leaf that a key belongs to. */
    method PageSearch(rank: real)
      requires 4096 <= psize <= 0x8000 && Shaped(psize, root, depth)
      modifies this`pg, this`ki, this`init, this`eof
      ensures Rooted() && init && !eof && OnPage(rank)
    {
      hide Shape, Items, KidsItems, Before, Stack, Around;
      pg, ki := [root], [0];
      StartStack(root);
      ghost var l, h := WideShape(psize, root, depth, rank);
      WholeAround(root, rank);
      BottomOfStack(root, pg, ki);
      EnoughRoot(psize, root, depth);
      while pg[|pg| - 1].Branch?
        invariant Stack(root, pg, ki) && |pg| == |ki| >= 1 && ki[|ki| - 1] == 0
        invariant Shape(psize, pg[|pg| - 1], depth - |pg| + 1, l, h) && Enough(pg[|pg| - 1]) && l <= rank < h
        invariant OnPage(rank)
        decreases depth - |pg|
      {
        var n := |pg| - 1;
        ghost var b, top := Before(pg, ki), pg[n];
        PageHeight(psize, top, depth - n, l, h);
        TopItems(root, pg, ki);
        var x := ChildToFollow(pg[n], rank, psize, depth - n, l, h);
        TopIndex(root, pg, ki, x);
        StepDown(psize, top, depth - n, l, h, rank, Items(root), b);
        ki := ki[n := x];
        PushStack(root, pg, ki, 0);
        pg, ki := pg + [pg[n].kids[x].child], ki + [0];
        BottomOfStack(root, pg, ki);
        l, h := ChildShape(psize, top.kids, depth - n, l, h, rank);
      }
      PageHeight(psize, pg[|pg| - 1], depth - |pg| + 1, l, h);
      init, eof := true, false;
    }

    /** What the leaf says about the lower bound of a key that belongs to it. */
    lemma LeafBound(rank: real)
      requires Rooted() && OnLeaf() && OnPage(rank)
      ensures var leaf, b := pg[depth - 1].items, Before(pg, ki);
        && (forall j, k | 0 <= j < k < |leaf| :: leaf[j].key.rank < leaf[k].key.rank)
        && LowerBound(root, rank) == b + LeafPos(leaf, rank) && b + |leaf| <= |Items(root)|
        && (forall k | 0 <= k < |leaf| :: Items(root)[b + k] == leaf[k])
        && (b + |leaf| < |Items(root)| ==> rank < Items(root)[b + |leaf|].key.rank)
    {
      hide Shape, Items, Before, Stack, LeafPos, Around, Ranks, Content, ItemsMap;
      BottomOfStack(root, pg, ki);
      TopItems(root, pg, ki);
      LeafItems(pg[depth - 1]);
      var lo, hi := WideShape(psize, root, depth, rank);
      ShapeItems(psize, root, depth, lo, hi);
      PageOfList(Items(root), lo, hi, Before(pg, ki), pg[depth - 1].items, rank);
    }

    /** The search in the leaf the cursor is on, with the move to the next leaf when every
        item of this one is below the key: label set2 of mdb_cursor_set. */
    method LeafSearch(rank: real, range: bool) returns (rc: Rc)
      requires Rooted() && init && !eof && OnPage(rank)
      modifies this`pg, this`ki, this`eof
      ensures Rooted() && Position() == LowerBound(root, rank)
      ensures rc == Success <==> Finds(root, rank, range)
      ensures rc == Success ==> AtItem()
    {
      hide Shape, Items, Before, Stack, LeafPos, Around;
      BottomOfStack(root, pg, ki);
      var n := |pg| - 1;
      var leaf := pg[n].items;
      LeafBound(rank);
      LeafNotEmpty();
      var i, exact, found := NodeSearch(ItemRanks(leaf), 0, rank);
      LeafPosUnique(leaf, rank, i);
      TopIndex(root, pg, ki, i);
      ki := ki[n := i];
      if !range && !exact {
        return NotFound;
      }
      if !found {
        LeafItems(pg[n]);
        var ok := Sibling(true);
        if !ok {
          eof := true;
          return NotFound;
        }
        BottomOfStack(root, pg, ki);
        TopLeaf();
        LeafInTree();
      }
      return Success;
    }

    /** mdb_cursor_set, by the search from the root. */
    method SetFromRoot(rank: real, range: bool) returns (rc: Rc)
      requires Valid()
      modifies this`pg, this`ki, this`init, this`eof
      ensures Valid() && (init <==> md.Some?) && (init ==> Position() == LowerBound(root, rank))
      ensures rc == Success <==> Finds(root, rank, range)
      ensures rc == Success ==> init && AtItem()
    {
      if md.None? {
        return NotFound;
      }
      PageSearch(rank);
      rc := LeafSearch(rank, range);
    }

    /** The cursor is put on index k of its leaf. */
    method PutOn(k: int)
      requires Rooted() && init && 0 <= k <= |pg[depth - 1].items|
      modifies this`ki
      ensures Rooted() && Before(pg, ki) == old(Before(pg, ki)) && ki[depth - 1] == k && |ki| == old(|ki|)
      ensures forall i | 0 <= i < depth - 1 :: ki[i] == old(ki[i])
    {
      hide Shape, Before;
      TopIndex(root, pg, ki, k);
      ki := ki[|ki| - 1 := k];
    }

    /** No page of the stack has a sibling on its right: the test before giving up. */
    method NoRightSibling() returns (none: bool)
      requires Rooted() && init
      ensures none ==> LastLeaf()
      ensures |pg| == 1 ==> none
    {
      hide Shape, Items, KidsItems, Before;
      var i := 0;
      while i < |pg| - 1 && ki[i] >= |pg[i].kids| - 1
        invariant 0 <= i <= |pg| - 1
        invariant forall k | 0 <= k < i :: ki[k] >= |pg[k].kids| - 1
      {
        i := i + 1;
      }
      none := i == |pg| - 1;
      if none {
        RightmostLast(root, pg, ki);
        LeafItems(pg[|pg| - 1]);
      }
    }

    /** mdb_cursor_set with its shortcuts for a cursor that is already on a page: the first
        or the last item of the page, an item between them, or a key beyond a last page.  It
        does what the search from the root does. */
    method Set(rank: real, range: bool) returns (rc: Rc)
      requires Valid()
      modifies this`pg, this`ki, this`init, this`eof
      ensures Valid() && (init <==> md.Some?) && (init ==> Position() == LowerBound(root, rank))
      ensures rc == Success <==> Finds(root, rank, range)
      ensures rc == Success ==> init && AtItem()
    {
      hide Shape, Items, Before, Stack, Around, LeafPos;
      if init {
        BottomOfStack(root, pg, ki);
        LeafNotEmpty();
        var n := |pg| - 1;
        var leaf := pg[n].items;
        var nkeys := |leaf|;
        if rank == leaf[0].key.rank {
          PutOn(0);
          ItemHit(0);
          eof := false;
          return Success;
        }
        if rank > leaf[0].key.rank {
          if nkeys > 1 {
            if rank == leaf[nkeys - 1].key.rank {
              PutOn(nkeys - 1);
              ItemHit(nkeys - 1);
              eof := false;
              return Success;
            }
            if rank < leaf[nkeys - 1].key.rank {
              if ki[n] < nkeys && rank == leaf[ki[n]].key.rank {
                ItemHit(ki[n]);
                eof := false;
                return Success;
              }
              InsideLeaf(rank);
              eof := false;
              rc := LeafSearch(rank, range);
              return;
            }
          }
          var none := NoRightSibling();
          if none {
            PutOn(nkeys);
            BeyondAll(rank);
            return NotFound;
          }
        }
        if n == 0 {
          if rank < leaf[0].key.rank {
            BelowAll(rank);
          }
          PutOn(0);
          if range {
            eof := false;
            return Success;
          }
          return NotFound;
        }
      }
      rc := SetFromRoot(rank, range);
    }

    /** An item of the leaf with the very key is the lower bound of the key. */
    lemma ItemHit(k: nat)
      requires Rooted() && OnLeaf() && k < |pg[depth - 1].items|
      ensures var rank := pg[depth - 1].items[k].key.rank;
        LowerBound(root, rank) == Before(pg, ki) + k && Finds(root, rank, true) && Finds(root, rank, false)
    {
      hide Shape, Items, Before, Stack, LeafPos, Ranks, Content, ItemsMap;
      BottomOfStack(root, pg, ki);
      TopItems(root, pg, ki);
      LeafItems(pg[depth - 1]);
      var lo, hi := WideShape(psize, root, depth, 0.0);
      ShapeItems(psize, root, depth, lo, hi);
      var leaf, b := pg[depth - 1].items, Before(pg, ki);
      assert leaf[k] == Items(root)[b..b + |leaf|][k] == Items(root)[b + k];
      LowerBoundHit(Items(root), lo, hi, b + k, leaf[k].key.rank);
    }

    /** A key between the first and the last item of the leaf belongs to the leaf. */
    lemma InsideLeaf(rank: real)
      requires Rooted() && OnLeaf() && pg[depth - 1].items != []
      requires var leaf := pg[depth - 1].items; leaf[0].key.rank < rank < leaf[|leaf| - 1].key.rank
      ensures OnPage(rank)
    {
      hide Shape, Items, Before, Stack, LeafPos, Content, ItemsMap;
      BottomOfStack(root, pg, ki);
      TopItems(root, pg, ki);
      LeafItems(pg[depth - 1]);
      var lo, hi := WideShape(psize, root, depth, rank);
      ShapeItems(psize, root, depth, lo, hi);
      InsideAround(Items(root), lo, hi, Before(pg, ki), pg[depth - 1].items, rank);
    }

    /** A key above the last item of the last leaf is above all items. */
    lemma BeyondAll(rank: real)
      requires Rooted() && OnLeaf() && LastLeaf() && pg[depth - 1].items != []
      requires var leaf := pg[depth - 1].items; leaf[|leaf| - 1].key.rank < rank
      ensures LowerBound(root, rank) == |Items(root)| && !Finds(root, rank, true) && !Finds(root, rank, false)
    {
      hide Shape, Items, Before, Stack, LeafPos, Content, ItemsMap;
      BottomOfStack(root, pg, ki);
      TopItems(root, pg, ki);
      LeafItems(pg[depth - 1]);
      var lo, hi := WideShape(psize, root, depth, rank);
      ShapeItems(psize, root, depth, lo, hi);
      var leaf, b := pg[depth - 1].items, Before(pg, ki);
      var m := |leaf| - 1;
      assert leaf[m] == Items(root)[b..b + |leaf|][m] == Items(root)[b + m];
      LowerBoundEnd(Items(root), lo, hi, rank);
    }

    /** A key below the first item of the only leaf is below all items. */
    lemma BelowAll(rank: real)
      requires Rooted() && OnLeaf() && |pg| == 1 && pg[depth - 1].items != [] && rank < pg[depth - 1].items[0].key.rank
      ensures LowerBound(root, rank) == 0 && Before(pg, ki) == 0 && Finds(root, rank, true) && !Finds(root, rank, false)
    {
      hide Shape, Before, LeafPos, Content, ItemsMap;
      OneLeaf();
      LeafItems(pg[depth - 1]);
      var lo, hi := WideShape(psize, root, depth, rank);
      ShapeItems(psize, root, depth, lo, hi);
      LowerBoundEnd(Items(root), lo, hi, rank);
    }

    /** The item the cursor is at. */
    method Current() returns (it: Item)
      requires Rooted() && init && AtItem()
      ensures Position() < |Items(root)| && it == Items(root)[Position()]
    {
      LeafInTree();
      it := pg[|pg| - 1].items[ki[|ki| - 1]];
    }
  }

  /** Whether a positioning finds an item: one at or after the lower bound for a range, one
      with the very key otherwise. */
  ghost predicate Finds(root: Tree, rank: real, range: bool) {
    var p := LowerBound(root, rank);
    p < |Items(root)| && (range || Items(root)[p].key.rank == rank)
  }

  /** The items before position b are below the key, those from b + n on above it. */
  ghost predicate Around(s: seq<Item>, b: nat, n: nat, rank: real) {
    && (forall i | 0 <= i < b && i < |s| :: s[i].key.rank < rank)
    && (forall i | b + n <= i < |s| :: rank < s[i].key.rank)
  }

  lemma PageOfList(s: seq<Item>, lo: real, hi: real, b: nat, page: seq<Item>, rank: real)
    requires Ranks(s, lo, hi) && b + |page| <= |s| && s[b..b + |page|] == page && Around(s, b, |page|, rank)
    ensures forall j, k | 0 <= j < k < |page| :: page[j].key.rank < page[k].key.rank
    ensures forall k | 0 <= k < |page| :: s[b + k] == page[k]
    ensures LeafPos(s, rank) == b + LeafPos(page, rank)
    ensures b + |page| < |s| ==> rank < s[b + |page|].key.rank
  {
    LowerBoundOnPage(s, lo, hi, b, page, rank);
    assert forall k | 0 <= k < |page| :: page[k] == s[b..b + |page|][k] == s[b + k];
  }

  lemma InsideAround(s: seq<Item>, lo: real, hi: real, b: nat, page: seq<Item>, rank: real)
    requires Ranks(s, lo, hi) && b + |page| <= |s| && s[b..b + |page|] == page && page != []
    requires page[0].key.rank < rank < page[|page| - 1].key.rank
    ensures Around(s, b, |page|, rank)
  {
    assert s[b] == page[0] && s[b + |page| - 1] == page[|page| - 1];
  }

  /** With the last index on every page above it, the top page is the last of its level. */
  lemma {:induction false} RightmostLast(root: Tree, pg: seq<Tree>, ki: seq<int>)
    requires Stack(root, pg, ki) && forall k | 0 <= k < |pg| - 1 :: ki[k] >= |pg[k].kids| - 1
    ensures Before(pg, ki) + |Items(pg[|pg| - 1])| == |Items(root)|
    decreases |pg|
  {
    hide Items, KidsItems, Before;
    var n := |pg| - 1;
    if n == 0 {
      WholeTree(root, pg, ki);
    } else {
      PopStack(root, pg, ki);
      RightmostLast(root, pg[..n], ki[..n]);
      SiblingItems(pg[n - 1], ki[n - 1]);
    }
  }

  lemma WholeAround(root: Tree, rank: real)
    ensures Around(Items(root), 0, |Items(root)|, rank)
  {
  }

  lemma EnoughRoot(psize: int, root: Tree, depth: int)
    requires Shaped(psize, root, depth)
    ensures Enough(root)
  {
  }

  /** From a page that a key belongs to, the descent leads to a child it belongs to. */
  lemma StepDown(psize: int, t: Tree, height: int, lo: real, hi: real, rank: real, s: seq<Item>, b: nat)
    requires t.Branch? && Shape(psize, t, height, lo, hi) && lo <= rank < hi
    requires b + |Items(t)| <= |s| && s[b..b + |Items(t)|] == Items(t) && Around(s, b, |Items(t)|, rank)
    ensures var k := ChildIndex(t.kids, rank);
      Around(s, b + |KidsItems(t.kids[..k])|, |Items(t.kids[k].child)|, rank)
  {
    hide Around, KidsItems, KidsOk;
    StepDownKids(psize, t.kids, height - 1, lo, hi, rank, s, b);
  }

  lemma StepDownKids(psize: int, kids: seq<Kid>, height: int, lo: real, hi: real, rank: real, s: seq<Item>, b: nat)
    requires kids != [] && KidsOk(psize, kids, height, lo, hi) && lo <= rank < hi
    requires var n := |KidsItems(kids)|; b + n <= |s| && s[b..b + n] == KidsItems(kids) && Around(s, b, n, rank)
    ensures var k := ChildIndex(kids, rank);
      Around(s, b + |KidsItems(kids[..k])|, |Items(kids[k].child)|, rank)
  {
    hide ChildIndex, KidsOk, KidsItems, Items, Around;
    var k := ChildIndex(kids, rank);
    var a, c := kids[..k], kids[k + 1..];
    ChildZone(psize, kids, height, lo, hi, rank);
    SpliceParts(kids, k, [kids[k]]);
    Zone(psize, a, [kids[k]], c, height, lo, hi);
    ItemsAround(kids, k);
    if a != [] {
      ItemsBelow(psize, a, height, lo, kids[k].key.rank, rank);
    } else {
      NoItems(a);
    }
    if c != [] {
      ItemsAbove(psize, c, height, c[0].key.rank, hi, rank);
    } else {
      NoItems(c);
    }
    AroundPart(s, b, KidsItems(a), Items(kids[k].child), KidsItems(c), rank);
  }

  lemma NoItems(a: seq<Kid>)
    requires a == []
    ensures KidsItems(a) == []
  {
  }

  lemma ItemsBelow(psize: int, a: seq<Kid>, height: int, lo: real, hi: real, rank: real)
    requires KidsOk(psize, a, height, lo, hi) && hi <= rank
    ensures forall i | 0 <= i < |KidsItems(a)| :: KidsItems(a)[i].key.rank < rank
  {
    KidsOkItems(psize, a, height, lo, hi);
  }

  lemma ItemsAbove(psize: int, a: seq<Kid>, height: int, lo: real, hi: real, rank: real)
    requires KidsOk(psize, a, height, lo, hi) && rank < lo
    ensures forall i | 0 <= i < |KidsItems(a)| :: rank < KidsItems(a)[i].key.rank
  {
    KidsOkItems(psize, a, height, lo, hi);
  }

  lemma AroundPart(s: seq<Item>, b: nat, x: seq<Item>, y: seq<Item>, z: seq<Item>, rank: real)
    requires var n := |x + y + z|; b + n <= |s| && s[b..b + n] == x + y + z && Around(s, b, n, rank)
    requires forall i | 0 <= i < |x| :: x[i].key.rank < rank
    requires forall i | 0 <= i < |z| :: rank < z[i].key.rank
    ensures Around(s, b + |x|, |y|, rank)
  {
    var t := x + y + z;
    forall i | 0 <= i < b + |x|
      ensures s[i].key.rank < rank
    {
      if i >= b {
        assert s[i] == s[b..b + |t|][i - b] == t[i - b] == x[i - b];
      }
    }
    forall i | b + |x| + |y| <= i < |s|
      ensures rank < s[i].key.rank
    {
      if i < b + |t| {
        assert s[i] == s[b..b + |t|][i - b] == t[i - b] == z[i - b - |x| - |y|];
      }
    }
  }

  lemma OnTheWay(root: Tree, pg: seq<Tree>, ki: seq<int>, n: nat)
    requires Stack(root, pg, ki) && n < |pg| && pg[n].Branch? && pg[|pg| - 1].Leaf?
    ensures n + 1 < |pg| == |ki| && 0 <= ki[n] < |pg[n].kids| && pg[n + 1] == pg[n].kids[ki[n]].child
  {
  }

  lemma StartStack(root: Tree)
    ensures Stack(root, [root], [0]) && Before([root], [0]) == 0
  {
  }

  lemma PageHeight(psize: int, t: Tree, height: int, l: real, h: real)
    requires Shape(psize, t, height, l, h) && Enough(t)
    ensures height >= 1 && (t.Leaf? <==> height == 1)
    ensures t.Branch? ==> |t.kids| >= 2
    ensures t.Leaf? ==> t.items != []
  {
  }

  lemma LeafItems(t: Tree)
    requires t.Leaf?
    ensures Items(t) == t.items
  {
  }

  function Nodes(t: Tree): nat {
    match t
    case Leaf(items) => |items|
    case Branch(kids) => |kids|
  }

  lemma WholeTree(root: Tree, pg: seq<Tree>, ki: seq<int>)
    requires Stack(root, pg, ki) && |pg| == 1
    ensures Before(pg, ki) == 0 && pg[0] == root
  {
  }

  lemma SameHeight(psize: int, p: Tree, q: Tree, height: int, l: real, h: real, l': real, h': real)
    requires Shape(psize, p, height, l, h) && Shape(psize, q, height, l', h') && p.Branch? && Enough(q)
    ensures q.Branch? && q.kids != []
  {
  }

  /** Where child k of a page stands among the items of the page. */
  lemma SiblingItems(t: Tree, k: nat)
    requires t.Branch? && k < |t.kids|
    ensures |KidsItems(t.kids[..k])| + |Items(t.kids[k].child)| == |KidsItems(t.kids[..k + 1])| <= |Items(t)|
    ensures k == 0 ==> |KidsItems(t.kids[..k])| == 0
    ensures k == |t.kids| - 1 ==> |KidsItems(t.kids[..k + 1])| == |Items(t)|
  {
    ItemsAround(t.kids, k);
    assert t.kids[..|t.kids|] == t.kids;
  }

  // ------------------------------------------------------------ enumeration

  /** First and then next until NOTFOUND visits the items of the tree, in order. */
  method Forward(c: Cursor) returns (s: seq<Item>)
    requires c.Valid()
    modifies c
    ensures c.Valid() && s == Items(c.root)
  {
    hide Shape, Items, Before, Stack;
    var rc := c.First();
    if rc != Success {
      LeafItems(c.root);
      return [];
    }
    var it := c.Current();
    s := [it];
    rc := c.Next();
    while rc == Success
      invariant c.Valid() && c.init && |s| <= |Items(c.root)| && s == Items(c.root)[..|s|]
      invariant if rc == Success then c.AtItem() && c.Position() == |s| < |Items(c.root)| else |s| == |Items(c.root)|
      decreases |Items(c.root)| - |s|, rc == Success
    {
      it := c.Current();
      s := s + [it];
      rc := c.Next();
    }
  }

  /** Last and then prev until NOTFOUND visits them in the opposite order. */
  method Backward(c: Cursor) returns (s: seq<Item>)
    requires c.Valid()
    modifies c
    ensures c.Valid() && |s| == |Items(c.root)| && forall k | 0 <= k < |s| :: s[k] == Items(c.root)[|s| - 1 - k]
  {
    hide Shape, Items, Before, Stack;
    var rc := c.Last();
    if rc != Success {
      LeafItems(c.root);
      return [];
    }
    var it := c.Current();
    s := [it];
    rc := c.Prev();
    while rc == Success
      invariant c.Valid() && c.init && |s| <= |Items(c.root)|
      invariant forall k | 0 <= k < |s| :: s[k] == Items(c.root)[|Items(c.root)| - 1 - k]
      invariant if rc == Success then c.AtItem() && c.Position() == |Items(c.root)| - 1 - |s| >= 0 else |s| == |Items(c.root)|
      decreases |Items(c.root)| - |s|, rc == Success
    {
      it := c.Current();
      s := s + [it];
      rc := c.Prev();
    }
  }

  /** What they visit is sorted and is what the tree stands for. */
  lemma ItemsSorted(psize: int, root: Tree, depth: int)
    requires Shaped(psize, root, depth)
    ensures forall i, j | 0 <= i < j < |Items(root)| :: Items(root)[i].key.rank < Items(root)[j].key.rank
    ensures ItemsMap(Items(root)) == Content(root)
  {
    hide Shape;
    var lo, hi := WideShape(psize, root, depth, 0.0);
    ShapeItems(psize, root, depth, lo, hi);
  }
}
