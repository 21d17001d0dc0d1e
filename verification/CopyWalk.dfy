/** The compacting copy: pages are written one after the other, and every page written gets
    the number of the place it is written to. */
module CopyWalk {
  import opened Wrappers
  import opened PageTree

  const NUM_METAS := 2

  // ------------------------------------------------------------ what the copy should be

  /** The same tree, its pages numbered from next on, children before their parent. */
  function Copied(t: Tree, next: int): (c: Tree)
    ensures c.pgno == next + Count(t) - 1
    ensures c.Leaf? <==> t.Leaf?
    decreases t
  {
    match t
    case Leaf(_, items) => Leaf(next + ItemsCount(items), CopiedItems(items, next))
    case Branch(_, keys, kids) => Branch(next + KidsCount(kids), keys, CopiedKids(kids, next))
  }

  function CopiedKids(kids: seq<Tree>, next: int): (c: seq<Tree>)
    ensures |c| == |kids|
    decreases kids
  {
    if kids == [] then [] else
      var n := |kids| - 1;
      CopiedKids(kids[..n], next) + [Copied(kids[n], next + KidsCount(kids[..n]))]
  }

  function CopiedItems(items: seq<Item>, next: int): (c: seq<Item>)
    ensures |c| == |items|
    decreases items
  {
    if items == [] then [] else
      var n := |items| - 1;
      CopiedItems(items[..n], next) + [CopiedItem(items[n], next + ItemsCount(items[..n]))]
  }

  function CopiedItem(x: Item, next: int): Item
    decreases x
  {
    match x
    case Plain(_, _) => x
    case Big(key, _, pages, data) => Big(key, next, pages, data)
    case Sub(key, db, dup, rest) => Sub(key, CopiedDb(db, next), dup, rest)
  }

  function CopiedDb(db: Option<Tree>, next: int): Option<Tree>
    decreases db
  {
    if db.None? then None else Some(Copied(db.value, next))
  }

  /** The pages of a tree as they are written. */
  function Slots(t: Tree): seq<Page>
    decreases t
  {
    (match t case Leaf(_, items) => ItemsSlots(items) case Branch(_, _, kids) => KidsSlots(kids)) + [PageOf(t)]
  }

  function KidsSlots(kids: seq<Tree>): seq<Page>
    decreases kids
  {
    if kids == [] then [] else KidsSlots(kids[..|kids| - 1]) + Slots(kids[|kids| - 1])
  }

  function ItemsSlots(items: seq<Item>): seq<Page>
    decreases items
  {
    if items == [] then [] else ItemsSlots(items[..|items| - 1]) + ItemSlots(items[|items| - 1])
  }

  function ItemSlots(x: Item): seq<Page>
    decreases x
  {
    match x
    case Plain(_, _) => []
    case Big(_, run, pages, data) => if pages >= 1 then RunPages(run, pages, data) else []
    case Sub(_, db, _, _) => DbSlots(db)
  }

  function DbSlots(db: Option<Tree>): seq<Page>
    decreases db
  {
    if db.None? then [] else Slots(db.value)
  }

  function DbCount(db: Option<Tree>): nat {
    if db.None? then 0 else Count(db.value)
  }

  lemma LastKid(kids: seq<Tree>, next: int)
    requires kids != []
    ensures var n, c := |kids| - 1, CopiedKids(kids, next);
      && c[..n] == CopiedKids(kids[..n], next) && c[n] == Copied(kids[n], next + KidsCount(kids[..n]))
      && c == c[..n] + [c[n]] && KidsSlots(c) == KidsSlots(c[..n]) + Slots(c[n])
  {
  }

  lemma LastItem(items: seq<Item>, next: int)
    requires items != []
    ensures var n, c := |items| - 1, CopiedItems(items, next);
      && c[..n] == CopiedItems(items[..n], next) && c[n] == CopiedItem(items[n], next + ItemsCount(items[..n]))
      && c == c[..n] + [c[n]] && ItemsSlots(c) == ItemsSlots(c[..n]) + ItemSlots(c[n])
  {
  }

  // ------------------------------------------------------------ as many pages as counted

  lemma {:induction false} SlotsLength(t: Tree, next: int)
    ensures |Slots(Copied(t, next))| == Count(t)
    decreases t
  {
    match t
    case Leaf(_, items) => ItemsSlotsLength(items, next);
    case Branch(_, _, kids) => KidsSlotsLength(kids, next);
  }

  lemma {:induction false} KidsSlotsLength(kids: seq<Tree>, next: int)
    ensures |KidsSlots(CopiedKids(kids, next))| == KidsCount(kids)
    decreases kids
  {
    hide Copied, CopiedKids, Slots;
    if kids != [] {
      var n := |kids| - 1;
      KidsSlotsLength(kids[..n], next);
      SlotsLength(kids[n], next + KidsCount(kids[..n]));
      LastKid(kids, next);
    }
  }

  lemma {:induction false} ItemsSlotsLength(items: seq<Item>, next: int)
    ensures |ItemsSlots(CopiedItems(items, next))| == ItemsCount(items)
    decreases items
  {
    hide CopiedItem, CopiedItems, ItemSlots;
    if items != [] {
      var n := |items| - 1;
      ItemsSlotsLength(items[..n], next);
      ItemSlotsLength(items[n], next + ItemsCount(items[..n]));
      LastItem(items, next);
    }
  }

  lemma {:induction false} ItemSlotsLength(x: Item, next: int)
    ensures |ItemSlots(CopiedItem(x, next))| == ItemCount(x)
    decreases x
  {
    if x.Sub? && x.db.Some? {
      SlotsLength(x.db.value, next);
    }
  }

  // ------------------------------------------------------------ one node, one child more

  lemma AnotherItem(items: seq<Item>, i: nat, next: int)
    requires i < |items|
    ensures var c, x := CopiedItems(items[..i], next), CopiedItem(items[i], next + ItemsCount(items[..i]));
      CopiedItems(items[..i + 1], next) == c + [x] && ItemsSlots(c + [x]) == ItemsSlots(c) + ItemSlots(x)
  {
    var c, x := CopiedItems(items[..i], next), CopiedItem(items[i], next + ItemsCount(items[..i]));
    assert items[..i + 1][..i] == items[..i] && items[..i + 1][i] == items[i];
    assert (c + [x])[..i] == c && (c + [x])[i] == x;
  }

  lemma AnotherKid(kids: seq<Tree>, i: nat, next: int)
    requires i < |kids|
    ensures var c, x := CopiedKids(kids[..i], next), Copied(kids[i], next + KidsCount(kids[..i]));
      CopiedKids(kids[..i + 1], next) == c + [x] && KidsSlots(c + [x]) == KidsSlots(c) + Slots(x)
  {
    var c, x := CopiedKids(kids[..i], next), Copied(kids[i], next + KidsCount(kids[..i]));
    assert kids[..i + 1][..i] == kids[..i] && kids[..i + 1][i] == kids[i];
    assert (c + [x])[..i] == c && (c + [x])[i] == x;
  }

  /** The nodes of a leaf of which the first i have been copied. */
  function PartNodes(items: seq<Item>, i: nat, next: int): (s: seq<Node>)
    requires i <= |items|
    ensures |s| == |items|
  {
    NodesOf(CopiedItems(items[..i], next) + items[i..])
  }

  lemma PartNodesStep(items: seq<Item>, i: nat, next: int)
    requires i < |items|
    ensures PartNodes(items, i, next)[i] == NodeOf(items[i])
    ensures PartNodes(items, i + 1, next) ==
      PartNodes(items, i, next)[i := NodeOf(CopiedItem(items[i], next + ItemsCount(items[..i])))]
  {
    hide CopiedItems, CopiedItem, ItemsCount, ItemsSlots, ItemSlots, NodesOf, NodeOf;
    AnotherItem(items, i, next);
    var c, x := CopiedItems(items[..i], next), CopiedItem(items[i], next + ItemsCount(items[..i]));
    assert c + [x] + items[i + 1..] == (c + items[i..])[i := x];
    NodesUpdate(c + items[i..], i, x);
  }

  /** The pointers of a branch page of which the first i have been renewed. */
  function PartPtrs(kids: seq<Tree>, i: nat, next: int): (s: seq<int>)
    requires i <= |kids|
    ensures |s| == |kids|
  {
    Pgnos(CopiedKids(kids[..i], next) + kids[i..])
  }

  lemma PartPtrsStep(kids: seq<Tree>, i: nat, next: int)
    requires i < |kids|
    ensures PartPtrs(kids, i, next)[i] == kids[i].pgno
    ensures PartPtrs(kids, i + 1, next) ==
      PartPtrs(kids, i, next)[i := Copied(kids[i], next + KidsCount(kids[..i])).pgno]
  {
    hide CopiedKids, Copied, KidsCount, KidsSlots, Slots, Pgnos;
    AnotherKid(kids, i, next);
    var c, x := CopiedKids(kids[..i], next), Copied(kids[i], next + KidsCount(kids[..i]));
    assert c + [x] + kids[i + 1..] == (c + kids[i..])[i := x];
    PgnosUpdate(c + kids[i..], i, x);
  }

  lemma PgnosUpdate(s: seq<Tree>, i: nat, x: Tree)
    requires i < |s|
    ensures Pgnos(s)[i] == s[i].pgno && Pgnos(s[i := x]) == Pgnos(s)[i := x.pgno]
  {
  }

  lemma NodesUpdate(s: seq<Item>, i: nat, x: Item)
    requires i < |s|
    ensures NodesOf(s)[i] == NodeOf(s[i]) && NodesOf(s[i := x]) == NodesOf(s)[i := NodeOf(x)]
  {
  }

  lemma PartPtrsEnds(kids: seq<Tree>, next: int)
    ensures PartPtrs(kids, 0, next) == Pgnos(kids)
    ensures PartPtrs(kids, |kids|, next) == Pgnos(CopiedKids(kids, next))
  {
    assert kids[..|kids|] == kids;
  }

  lemma PartNodesEnds(items: seq<Item>, next: int)
    ensures PartNodes(items, 0, next) == NodesOf(items)
    ensures PartNodes(items, |items|, next) == NodesOf(CopiedItems(items, next))
  {
    assert items[..|items|] == items;
  }

  // ------------------------------------------------------------ the stack of the walk

  /** The pages pg on the way from the root to the page cur, with the child taken in each: the
      source's pages, pointing to the copies made so far.  starts tells the first number given
      out below each, start the first one below cur. */
  ghost predicate Path(root: Tree, base: int, ts: seq<Tree>, ki: seq<int>, starts: seq<int>, pg: seq<Page>,
                       cur: Tree, start: int)
    decreases |ts|
  {
    var n := |ts| - 1;
    && |ts| == |ki| == |starts| == |pg|
    && if n < 0 then cur == root && start == base
       else
         && ts[n].Branch? && 0 <= ki[n] < |ts[n].kids| && cur == ts[n].kids[ki[n]]
         && start == starts[n] + KidsCount(ts[n].kids[..ki[n]])
         && pg[n] == BranchPage(ts[n].pgno, ts[n].keys, PartPtrs(ts[n].kids, ki[n], starts[n]))
         && Path(root, base, ts[..n], ki[..n], starts[..n], pg[..n], ts[n], starts[n])
  }

  /** What has been written for the children to the left of that way. */
  ghost function Written(ts: seq<Tree>, ki: seq<int>, starts: seq<int>): seq<Page>
    requires |ts| == |ki| == |starts|
    decreases |ts|
  {
    var n := |ts| - 1;
    if n < 0 || !ts[n].Branch? || !(0 <= ki[n] <= |ts[n].kids|) then []
    else Written(ts[..n], ki[..n], starts[..n]) + KidsSlots(CopiedKids(ts[n].kids[..ki[n]], starts[n]))
  }

  /** The walk is at page cur, k of its children are copied, and out has been written. */
  ghost predicate At(root: Tree, base: int, ts: seq<Tree>, starts: seq<int>, pg: seq<Page>, ki: seq<int>, cur: Tree,
                     start: int, k: int, out: seq<Page>)
  {
    var n := |ts|;
    && |pg| == |ki| == n + 1 && |starts| == n
    && Path(root, base, ts, ki[..n], starts, pg[..n], cur, start)
    && if cur.Leaf? then pg[n] == PageOf(cur) && out == Written(ts, ki[..n], starts)
       else
         && 0 <= k <= |cur.kids|
         && pg[n] == BranchPage(cur.pgno, cur.keys, PartPtrs(cur.kids, k, start))
         && out == Written(ts, ki[..n], starts) + KidsSlots(CopiedKids(cur.kids[..k], start))
  }

  lemma {:induction false} PathFacts(src: seq<Page>, dup: bool, root: Tree, base: int, ts: seq<Tree>, ki: seq<int>,
                                     starts: seq<int>, pg: seq<Page>, cur: Tree, start: int)
    requires Path(root, base, ts, ki, starts, pg, cur, start) && Ok(root, dup) && Held(src, root)
    ensures Ok(cur, dup) && Held(src, cur)
    ensures start + Count(cur) <= base + Count(root)
    ensures |Written(ts, ki, starts)| == start - base
    decreases |ts|
  {
    var n := |ts| - 1;
    if n >= 0 {
      PathFacts(src, dup, root, base, ts[..n], ki[..n], starts[..n], pg[..n], ts[n], starts[n]);
      KidCount(ts[n].kids, ki[n]);
      KidsSlotsLength(ts[n].kids[..ki[n]], starts[n]);
    }
  }

  lemma StartAt(root: Tree, base: int)
    ensures At(root, base, [], [], [PageOf(root)], [0], root, base, 0, [])
  {
    if root.Branch? {
      PartPtrsEnds(root.kids, base);
    }
  }

  /** Going down to the next child. */
  lemma PushAt(root: Tree, base: int, ts: seq<Tree>, starts: seq<int>, pg: seq<Page>, ki: seq<int>, cur: Tree,
               start: int, k: int, out: seq<Page>)
    requires At(root, base, ts, starts, pg, ki, cur, start, k, out)
    requires cur.Branch? && k < |cur.kids| && ki[|ts|] == k
    ensures At(root, base, ts + [cur], starts + [start], pg + [PageOf(cur.kids[k])], ki + [0],
      cur.kids[k], start + KidsCount(cur.kids[..k]), 0, out)
  {
    var n := |ts|;
    var ts', starts', pg', ki' := ts + [cur], starts + [start], pg + [PageOf(cur.kids[k])], ki + [0];
    assert ts'[..n] == ts && starts'[..n] == starts && pg'[..n + 1] == pg && ki'[..n + 1] == ki;
    if cur.kids[k].Branch? {
      PartPtrsEnds(cur.kids[k].kids, start + KidsCount(cur.kids[..k]));
    }
  }

  /** Back at the parent, whose pointer is renewed. */
  lemma PopAt(root: Tree, base: int, ts: seq<Tree>, starts: seq<int>, pg: seq<Page>, ki: seq<int>, cur: Tree,
              start: int, out: seq<Page>)
    requires |ts| > 0 && |pg| == |ki| == |ts|
    requires Path(root, base, ts, ki, starts, pg, cur, start)
    requires out == Written(ts, ki, starts) + Slots(Copied(cur, start))
    ensures var n := |ts| - 1;
      && pg[n].BranchPage? && 0 <= ki[n] < |pg[n].ptrs| && ts[n].Branch?
      && At(root, base, ts[..n], starts[..n],
            pg[n := BranchPage(pg[n].pgno, pg[n].keys, pg[n].ptrs[ki[n] := Copied(cur, start).pgno])],
            ki, ts[n], starts[n], ki[n] + 1, out)
  {
    hide PartPtrs, CopiedKids, KidsSlots, Copied, Slots, KidsCount, PageOf;
    var n := |ts| - 1;
    var p, k := ts[n], ki[n];
    PartPtrsStep(p.kids, k, starts[n]);
    AnotherKid(p.kids, k, starts[n]);
    var pg' := pg[n := BranchPage(pg[n].pgno, pg[n].keys, pg[n].ptrs[k := Copied(cur, start).pgno])];
    assert pg'[..n] == pg[..n];
  }

  /** What the walk sees at the page it is at. */
  lemma SeenAt(src: seq<Page>, dup: bool, root: Tree, base: int, ts: seq<Tree>, starts: seq<int>, pg: seq<Page>,
               ki: seq<int>, cur: Tree, start: int, k: int, out: seq<Page>)
    requires At(root, base, ts, starts, pg, ki, cur, start, k, out) && Ok(root, dup) && Held(src, root)
    ensures |pg| == |ki| == |ts| + 1 && |starts| == |ts|
    ensures Ok(cur, dup) && Held(src, cur) && base <= start && start + Count(cur) <= base + Count(root)
    ensures cur.Leaf? ==> pg[|ts|] == PageOf(cur) && pg[|ts|].LeafPage? && |out| == start - base
    ensures cur.Branch? && k == |cur.kids| ==> |out| == start - base + KidsCount(cur.kids)
    ensures cur.Branch? ==>
      && 0 <= k <= |cur.kids| && pg[|ts|].BranchPage? && |pg[|ts|].ptrs| == |cur.kids| == |cur.keys| > 0
      && |out| == start - base + KidsCount(cur.kids[..k]) < start - base + Count(cur)
    ensures cur.Branch? && k < |cur.kids| ==>
      && var ptr := pg[|ts|].ptrs[k];
      && 0 <= ptr < |src| && src[ptr] == PageOf(cur.kids[k]) && Count(cur.kids[k]) < Count(cur)
  {
    hide Path, Written, PartPtrs, CopiedKids, KidsSlots, Held, Ok, KidsCount, Count;
    var n := |ts|;
    PathFacts(src, dup, root, base, ts, ki[..n], starts, pg[..n], cur, start);
    if cur.Branch? {
      KidsSlotsLength(cur.kids[..k], start);
      SeenKids(src, dup, cur, k, start);
    }
  }

  lemma SeenKids(src: seq<Page>, dup: bool, t: Tree, k: nat, start: int)
    requires t.Branch? && Ok(t, dup) && Held(src, t) && k <= |t.kids|
    ensures |t.kids| == |t.keys| > 0
    ensures t.kids[..|t.kids|] == t.kids && KidsCount(t.kids[..k]) < Count(t)
    ensures k < |t.kids| ==>
      && var ptr := PartPtrs(t.kids, k, start)[k];
      && 0 <= ptr < |src| && src[ptr] == PageOf(t.kids[k]) && Count(t.kids[k]) < Count(t)
  {
    hide PageOf, PartPtrs;
    assert t.kids[..|t.kids|] == t.kids;
    if k < |t.kids| {
      KidCount(t.kids, k);
      PartPtrsStep(t.kids, k, start);
      assert Held(src, t.kids[k]);
    }
  }

  lemma TurnAt(root: Tree, base: int, ts: seq<Tree>, starts: seq<int>, pg: seq<Page>, ki: seq<int>, cur: Tree,
               start: int, k: int, out: seq<Page>, x: int)
    requires At(root, base, ts, starts, pg, ki, cur, start, k, out)
    ensures |ki| == |ts| + 1 && At(root, base, ts, starts, pg, ki[|ts| := x], cur, start, k, out)
  {
    assert ki[|ts| := x][..|ts|] == ki[..|ts|];
  }

  /** The page with the number of the place it is written to. */
  function Numbered(p: Page, pgno: int): Page {
    match p
    case LeafPage(_, nodes) => LeafPage(pgno, nodes)
    case BranchPage(_, keys, ptrs) => BranchPage(pgno, keys, ptrs)
    case OverPage(_, pages, data) => OverPage(pgno, pages, data)
    case Tail => Tail
  }

  /** A leaf page is written behind what its nodes needed. */
  lemma LeafDone(t: Tree, start: int, mp: Page)
    requires t.Leaf? && mp == LeafPage(t.pgno, NodesOf(CopiedItems(t.items, start)))
    ensures ItemsSlots(CopiedItems(t.items, start)) + [Numbered(mp, start + ItemsCount(t.items))] == Slots(Copied(t, start))
  {
  }

  /** A branch page is written behind its children. */
  lemma BranchDone(t: Tree, start: int, mp: Page)
    requires t.Branch? && mp == BranchPage(t.pgno, t.keys, PartPtrs(t.kids, |t.kids|, start))
    ensures t.kids[..|t.kids|] == t.kids
    ensures KidsSlots(CopiedKids(t.kids, start)) + [Numbered(mp, start + KidsCount(t.kids))] == Slots(Copied(t, start))
  {
    assert t.kids[..|t.kids|] == t.kids;
    PartPtrsEnds(t.kids, start);
  }

  /** A leaf of plain items needs nothing and is copied as it is. */
  lemma {:induction false} PlainItems(items: seq<Item>, next: int)
    requires forall i | 0 <= i < |items| :: ItemOk(items[i], true)
    ensures CopiedItems(items, next) == items && ItemsSlots(items) == [] && ItemsCount(items) == 0
    decreases |items|
  {
    if items != [] {
      var n := |items| - 1;
      PlainItems(items[..n], next);
      assert ItemOk(items[n], true);
    }
  }

  lemma LeafItem(src: seq<Page>, t: Tree, i: nat)
    requires t.Leaf? && Ok(t, false) && Held(src, t) && i < |t.items|
    ensures var x := t.items[i];
      && (x.Big? ==> 0 <= x.run < |src| && src[x.run] == OverPage(x.run, x.pages, x.data) && x.pages >= 1)
      && (x.Sub? && x.db.Some? ==> Ok(x.db.value, x.dup) && Held(src, x.db.value))
      && (x.Sub? ==> DbCount(x.db) < Count(t))
  {
    var x := t.items[i];
    assert ItemOk(x, false) && ItemHeld(src, x);
    ItemCountAt(t.items, i);
    if x.Big? {
      assert src[x.run] == src[x.run..x.run + x.pages][0];
    }
  }

  /** A leaf has been scanned; once it is written too, all of it is. */
  lemma LeafWritten(root: Tree, base: int, ts: seq<Tree>, starts: seq<int>, pg: seq<Page>, ki: seq<int>, cur: Tree,
                    start: int, out: seq<Page>,
                    was: seq<Page>, file: seq<Page>, mp: Page)
    requires At(root, base, ts, starts, pg, ki, cur, start, 0, out) && cur.Leaf?
    requires file == was + out + ItemsSlots(CopiedItems(cur.items, start))
    requires |file| == start + ItemsCount(cur.items)
    requires mp == LeafPage(cur.pgno, NodesOf(CopiedItems(cur.items, start)))
    ensures |pg| == |ki| == |ts| + 1 && |starts| == |ts|
    ensures Path(root, base, ts, ki[..|ts|], starts, pg[..|ts|], cur, start)
    ensures file + [Numbered(mp, |file|)] == was + (Written(ts, ki[..|ts|], starts) + Slots(Copied(cur, start)))
    ensures |file| == Copied(cur, start).pgno
  {
    hide Path, Written, ItemsSlots, CopiedItems, NodesOf;
    LeafDone(cur, start, mp);
    Appended(was, out, ItemsSlots(CopiedItems(cur.items, start)), [Numbered(mp, |file|)]);
  }

  /** All children of a branch page have been copied; once it is written too, all of it is. */
  lemma BranchWritten(root: Tree, base: int, ts: seq<Tree>, starts: seq<int>, pg: seq<Page>, ki: seq<int>, cur: Tree,
                      start: int, out: seq<Page>,
                      was: seq<Page>, file: seq<Page>)
    requires cur.Branch? && At(root, base, ts, starts, pg, ki, cur, start, |cur.kids|, out)
    requires file == was + out && |file| == start + KidsCount(cur.kids)
    ensures |pg| == |ki| == |ts| + 1 && |starts| == |ts|
    ensures Path(root, base, ts, ki[..|ts|], starts, pg[..|ts|], cur, start)
    ensures file + [Numbered(pg[|ts|], |file|)] == was + (Written(ts, ki[..|ts|], starts) + Slots(Copied(cur, start)))
    ensures |file| == Copied(cur, start).pgno
  {
    hide Path, Written, KidsSlots, CopiedKids, PartPtrs, Numbered, Slots;
    BranchDone(cur, start, pg[|ts|]);
    Appended(Written(ts, ki[..|ts|], starts), KidsSlots(CopiedKids(cur.kids, start)), [], [Numbered(pg[|ts|], |file|)]);
    Appended(was, out, [], [Numbered(pg[|ts|], |file|)]);
  }

  lemma AtRoot(root: Tree, base: int, ki: seq<int>, pg: seq<Page>, cur: Tree, start: int)
    requires Path(root, base, [], ki, [], pg, cur, start)
    ensures cur == root && start == base
    ensures forall x: seq<Page> :: Written([], ki, []) + x == x
  {
  }

  lemma NothingYet(items: seq<Item>, next: int)
    ensures ItemsSlots(CopiedItems(items[..0], next)) == [] && ItemsCount(items[..0]) == 0
  {
  }

  lemma Appended(a: seq<Page>, b: seq<Page>, c: seq<Page>, d: seq<Page>)
    ensures (a + b + c) + d == a + (b + (c + d))
    ensures c == [] ==> (a + b) + d == a + (b + d) && a + b + c == a + b
  {
  }

  lemma PlainLeaf(t: Tree, start: int)
    requires t.Leaf? && Ok(t, true)
    ensures PageOf(t) == LeafPage(t.pgno, NodesOf(CopiedItems(t.items, start)))
    ensures ItemsSlots(CopiedItems(t.items, start)) == [] && ItemsCount(t.items) == 0
  {
    PlainItems(t.items, start);
  }

  // ------------------------------------------------------------ the walk

  class Copier {
    const src: seq<Page>
    var nextPgno: int
    var file: seq<Page>

    constructor (src: seq<Page>, metas: seq<Page>)
      requires |metas| == NUM_METAS
      ensures this.src == src && file == metas && nextPgno == |file|
    {
      this.src, nextPgno, file := src, NUM_METAS, metas;
    }

    /** The scan of a leaf: overflow runs and sub-databases are copied before it. */
    method ScanLeaf(mp: Page, ghost t: Tree) returns (mo: Page)
      requires nextPgno == |file|
      requires t.Leaf? && Ok(t, false) && Held(src, t) && mp == PageOf(t)
      modifies this
      ensures nextPgno == |file| == old(|file|) + ItemsCount(t.items)
      ensures file == old(file) + ItemsSlots(CopiedItems(t.items, old(|file|)))
      ensures mo == LeafPage(t.pgno, NodesOf(CopiedItems(t.items, old(|file|))))
      decreases Count(t), 0
    {
      hide Held, Ok, ItemsSlots, CopiedItems, PartNodes, ItemsCount;
      ghost var start := |file|;
      var nodes := mp.nodes;
      var i := 0;
      PartNodesEnds(t.items, start);
      NothingYet(t.items, start);
      while i < |nodes|
        invariant 0 <= i <= |nodes| == |t.items|
        invariant nextPgno == |file| == start + ItemsCount(t.items[..i])
        invariant nodes == PartNodes(t.items, i, start)
        invariant file == old(file) + ItemsSlots(CopiedItems(t.items[..i], start))
      {
        ghost var x := t.items[i];
        ghost var before := file;
        LeafItem(src, t, i);
        PartNodesStep(t.items, i, start);
        AnotherItem(t.items, i, start);
        ItemCountAt(t.items, i);
        match nodes[i] {
          case PlainNode(_, _) =>
          case BigNode(key, ptr) =>
            var omp := src[ptr];
            nodes := nodes[i := BigNode(key, nextPgno)];
            file := file + RunPages(nextPgno, omp.pages, omp.data);
            nextPgno := nextPgno + omp.pages;
          case SubNode(key, root, dup, rest) =>
            var newRoot := Cwalk(root, dup, x.db);
            nodes := nodes[i := SubNode(key, newRoot, dup, rest)];
        }
        assert file == before + ItemSlots(CopiedItem(x, |before|));
        i := i + 1;
      }
      assert t.items[..i] == t.items;
      mo := LeafPage(mp.pgno, nodes);
    }

    /** The descent along first children, from child k of the current page. */
    method Descend(pg0: seq<Page>, ki0: seq<int>, k: int, dup: bool, ghost root: Tree, ghost base: int,
                   ghost ts0: seq<Tree>, ghost starts0: seq<int>, ghost cur0: Tree, ghost start0: int, ghost out: seq<Page>)
      returns (pg: seq<Page>, ki: seq<int>, ghost ts: seq<Tree>, ghost starts: seq<int>, ghost cur: Tree, ghost start: int)
      requires At(root, base, ts0, starts0, pg0, ki0, cur0, start0, k, out)
      requires Ok(root, dup) && Held(src, root)
      requires cur0.Branch? && k < |cur0.kids| && |ki0| == |ts0| + 1 && ki0[|ts0|] == k
      ensures At(root, base, ts, starts, pg, ki, cur, start, 0, out) && cur.Leaf?
    {
      hide At, Held, Ok;
      pg, ki, ts, starts, cur, start := pg0, ki0, ts0, starts0, cur0, start0;
      var x := k;
      SeenAt(src, dup, root, base, ts, starts, pg, ki, cur, start, x, out);
      while pg[|pg| - 1].BranchPage?
        invariant At(root, base, ts, starts, pg, ki, cur, start, x, out)
        invariant |pg| == |ki| == |ts| + 1
        invariant pg[|ts|].BranchPage? <==> cur.Branch?
        invariant cur.Branch? ==> x < |cur.kids| && ki[|ts|] == x
        invariant cur.Leaf? ==> x == 0
        decreases Count(cur)
      {
        SeenAt(src, dup, root, base, ts, starts, pg, ki, cur, start, x, out);
        PushAt(root, base, ts, starts, pg, ki, cur, start, x, out);
        var ptr := pg[|pg| - 1].ptrs[ki[|ki| - 1]];
        ts, starts, start := ts + [cur], starts + [start], start + KidsCount(cur.kids[..x]);
        cur := cur.kids[x];
        pg, ki := pg + [src[ptr]], ki + [0];
        x := 0;
        SeenAt(src, dup, root, base, ts, starts, pg, ki, cur, start, x, out);
      }
    }

    /** mdb_env_cwalk: the database at root is written out behind what there is already, and
        the number of its new root is returned. */
    method Cwalk(root: int, dup: bool, ghost db: Option<Tree>) returns (newRoot: int)
      requires nextPgno == |file|
      requires root == RootOf(db) && (db.Some? ==> Ok(db.value, dup) && Held(src, db.value))
      modifies this
      ensures nextPgno == |file| == old(|file|) + DbCount(db)
      ensures file == old(file) + DbSlots(CopiedDb(db, old(|file|)))
      ensures newRoot == RootOf(CopiedDb(db, old(|file|)))
      decreases DbCount(db), 4
    {
      if root == P_INVALID {
        return root;
      }
      assert db.Some?;
      newRoot := CwalkTree(root, dup, db.value);
    }

    /** A leaf is scanned before it is written; a branch page is written after its children. */
    method Write(mp: Page, dup: bool, ghost root: Tree, ghost base: int, ghost ts: seq<Tree>, ghost starts: seq<int>,
                 ghost pg: seq<Page>, ghost ki: seq<int>, ghost cur: Tree, ghost start: int, ghost out: seq<Page>, ghost was: seq<Page>)
      returns (pgno: int)
      requires At(root, base, ts, starts, pg, ki, cur, start, if cur.Leaf? then 0 else |cur.kids|, out)
      requires Ok(cur, dup) && Held(src, cur)
      requires |pg| == |ts| + 1 && mp == pg[|ts|]
      requires nextPgno == |file| == start + (if cur.Leaf? then 0 else KidsCount(cur.kids)) && file == was + out
      modifies this
      ensures |pg| == |ki| == |ts| + 1 && |starts| == |ts|
      ensures Path(root, base, ts, ki[..|ts|], starts, pg[..|ts|], cur, start)
      ensures file == was + (Written(ts, ki[..|ts|], starts) + Slots(Copied(cur, start)))
      ensures nextPgno == |file| == start + Count(cur) && pgno == Copied(cur, start).pgno
      decreases Count(cur), 1
    {
      hide Path, Written, Held, Ok, Slots, ItemsSlots, KidsSlots, Copied, CopiedItems, NodesOf, PartPtrs;
      var mo := mp;
      if mo.LeafPage? {
        if !dup {
          mo := ScanLeaf(mo, cur);
        } else {
          PlainLeaf(cur, start);
        }
        LeafWritten(root, base, ts, starts, pg, ki, cur, start, out, was, file, mo);
      } else {
        BranchWritten(root, base, ts, starts, pg, ki, cur, start, out, was, file);
      }
      pgno := nextPgno;
      file := file + [Numbered(mo, pgno)];
      nextPgno := nextPgno + 1;
    }

    /** The current page is written and left; its parent learns its new number. */
    method Finish(pg: seq<Page>, ki: seq<int>, dup: bool, ghost root: Tree, ghost base: int, ghost ts: seq<Tree>,
                  ghost starts: seq<int>,
                  ghost cur: Tree, ghost start: int, ghost out: seq<Page>, ghost was: seq<Page>)
      returns (pgno: int, pg': seq<Page>, ki': seq<int>, ghost out': seq<Page>)
      requires At(root, base, ts, starts, pg, ki, cur, start, if cur.Leaf? then 0 else |cur.kids|, out)
      requires Ok(cur, dup) && Held(src, cur) && |pg| == |ki| == |ts| + 1
      requires nextPgno == |file| == start + (if cur.Leaf? then 0 else KidsCount(cur.kids)) && file == was + out
      modifies this
      ensures nextPgno == |file| == start + Count(cur) && pgno == Copied(cur, start).pgno && file == was + out'
      ensures |starts| == |ts|
      ensures ts == [] ==> cur == root && start == base && out' == Slots(Copied(cur, start))
      ensures ts != [] ==>
        && var n := |ts| - 1;
        && |pg'| == |ki'| == |ts| && ts[n].Branch?
        && At(root, base, ts[..n], starts[..n], pg', ki', ts[n], starts[n], ki'[n] + 1, out')
      decreases Count(cur), 2
    {
      hide *;
      var top := |pg| - 1;
      pgno := Write(pg[top], dup, root, base, ts, starts, pg, ki, cur, start, out, was);
      out' := Written(ts, ki[..top], starts) + Slots(Copied(cur, start));
      pg', ki' := pg[..top], ki[..top];
      if top == 0 {
        AtRoot(root, base, ki', pg', cur, start);
      } else {
        PopAt(root, base, ts, starts, pg', ki', cur, start, out');
        var up := pg'[top - 1];
        pg' := pg'[top - 1 := BranchPage(up.pgno, up.keys, up.ptrs[ki'[top - 1] := pgno])];
      }
    }

    /** mdb_page_search_root with MDB_PS_FIRST. */
    method FirstLeaf(pgno: int, dup: bool, ghost root: Tree, ghost base: int)
      returns (pg: seq<Page>, ki: seq<int>, ghost ts: seq<Tree>, ghost starts: seq<int>, ghost cur: Tree, ghost start: int)
      requires pgno == root.pgno && Ok(root, dup) && Held(src, root)
      ensures |pg| == |ki| == |ts| + 1 && At(root, base, ts, starts, pg, ki, cur, start, 0, []) && cur.Leaf?
    {
      pg, ki, ts, starts, cur, start := [src[pgno]], [0], [], [], root, base;
      StartAt(root, base);
      SeenAt(src, dup, root, base, ts, starts, pg, ki, cur, start, 0, []);
      hide *;
      if pg[0].BranchPage? {
        pg, ki, ts, starts, cur, start := Descend(pg, ki, 0, dup, root, base, ts, starts, cur, start, []);
      }
      SeenAt(src, dup, root, base, ts, starts, pg, ki, cur, start, 0, []);
    }

    method CwalkTree(root: int, dup: bool, ghost t: Tree) returns (newRoot: int)
      requires nextPgno == |file|
      requires root == t.pgno && Ok(t, dup) && Held(src, t)
      modifies this
      ensures nextPgno == |file| == old(|file|) + Count(t)
      ensures file == old(file) + Slots(Copied(t, old(|file|)))
      ensures newRoot == Copied(t, old(|file|)).pgno
      decreases Count(t), 3
    {
      hide *;
      ghost var base, out: seq<Page> := |file|, [];
      ghost var ts, starts, cur, start;
      var pg, ki;
      pg, ki, ts, starts, cur, start := FirstLeaf(root, dup, t, base);
      while true
        invariant |pg| == |ki| == |ts| + 1
        invariant nextPgno == |file| && file == old(file) + out
        invariant At(t, base, ts, starts, pg, ki, cur, start, if cur.Leaf? then 0 else ki[|ts|] + 1, out)
        decreases base + Count(t) - |file|, if cur.Leaf? then 0 else 1
      {
        var top := |pg| - 1;
        var mp := pg[top];
        SeenAt(src, dup, t, base, ts, starts, pg, ki, cur, start, if cur.Leaf? then 0 else ki[|ts|] + 1, out);
        if mp.BranchPage? {
          TurnAt(t, base, ts, starts, pg, ki, cur, start, ki[top] + 1, out, ki[top] + 1);
          ki := ki[top := ki[top] + 1];
          if ki[top] < |mp.ptrs| {
            pg, ki, ts, starts, cur, start := Descend(pg, ki, ki[top], dup, t, base, ts, starts, cur, start, out);
            SeenAt(src, dup, t, base, ts, starts, pg, ki, cur, start, 0, out);
            continue;
          }
        }
        newRoot, pg, ki, out := Finish(pg, ki, dup, t, base, ts, starts, cur, start, out, old(file));
        if top == 0 {
          break;
        }
        cur, start := ts[top - 1], starts[top - 1];
        ts, starts := ts[..top - 1], starts[..top - 1];
      }
    }
  }

  // ------------------------------------------------------------ what the copy is

  /** The tree without its page numbers. */
  function Erased(t: Tree): Tree
    decreases t
  {
    match t
    case Leaf(_, items) => Leaf(0, ErasedItems(items))
    case Branch(_, keys, kids) => Branch(0, keys, ErasedKids(kids))
  }

  function ErasedKids(kids: seq<Tree>): seq<Tree>
    decreases kids
  {
    if kids == [] then [] else ErasedKids(kids[..|kids| - 1]) + [Erased(kids[|kids| - 1])]
  }

  function ErasedItems(items: seq<Item>): seq<Item>
    decreases items
  {
    if items == [] then [] else ErasedItems(items[..|items| - 1]) + [ErasedItem(items[|items| - 1])]
  }

  function ErasedItem(x: Item): Item
    decreases x
  {
    match x
    case Plain(_, _) => x
    case Big(key, _, pages, data) => Big(key, 0, pages, data)
    case Sub(key, db, dup, rest) => Sub(key, if db.None? then None else Some(Erased(db.value)), dup, rest)
  }

  /** The copy differs in the page numbers only. */
  lemma {:induction false} CopyIsIsomorphic(t: Tree, next: int)
    ensures Erased(Copied(t, next)) == Erased(t)
    decreases t
  {
    match t
    case Leaf(_, items) => ItemsIsomorphic(items, next);
    case Branch(_, _, kids) => KidsIsomorphic(kids, next);
  }

  lemma {:induction false} KidsIsomorphic(kids: seq<Tree>, next: int)
    ensures ErasedKids(CopiedKids(kids, next)) == ErasedKids(kids)
    decreases kids
  {
    hide Copied, CopiedKids, KidsSlots, Slots, Erased;
    if kids != [] {
      var n := |kids| - 1;
      KidsIsomorphic(kids[..n], next);
      CopyIsIsomorphic(kids[n], next + KidsCount(kids[..n]));
      LastKid(kids, next);
    }
  }

  lemma {:induction false} ItemsIsomorphic(items: seq<Item>, next: int)
    ensures ErasedItems(CopiedItems(items, next)) == ErasedItems(items)
    decreases items
  {
    hide CopiedItem, CopiedItems, ItemsSlots, ItemSlots, ErasedItem;
    if items != [] {
      var n := |items| - 1;
      ItemsIsomorphic(items[..n], next);
      ItemIsomorphic(items[n], next + ItemsCount(items[..n]));
      LastItem(items, next);
    }
  }

  lemma {:induction false} ItemIsomorphic(x: Item, next: int)
    ensures ErasedItem(CopiedItem(x, next)) == ErasedItem(x)
    decreases x
  {
    if x.Sub? && x.db.Some? {
      CopyIsIsomorphic(x.db.value, next);
    }
  }

  lemma RangeJoin(from: int, m: nat, n: nat)
    ensures Range(from, m) + Range(from + m, n) == Range(from, m + n)
  {
  }

  /** The pages of the copy have the numbers from next on, each once, children before their
      parent: post-order, no gap. */
  lemma {:induction false} CopyIsContiguous(t: Tree, dup: bool, next: int)
    requires Ok(t, dup)
    ensures PageList(Copied(t, next)) == Range(next, Count(t))
    decreases t
  {
    match t
    case Leaf(_, items) =>
      ItemsContiguous(items, dup, next);
      RangeJoin(next, ItemsCount(items), 1);
    case Branch(_, _, kids) =>
      KidsContiguous(kids, dup, next);
      RangeJoin(next, KidsCount(kids), 1);
  }

  lemma {:induction false} KidsContiguous(kids: seq<Tree>, dup: bool, next: int)
    requires forall i | 0 <= i < |kids| :: Ok(kids[i], dup)
    ensures KidsPages(CopiedKids(kids, next)) == Range(next, KidsCount(kids))
    decreases kids
  {
    hide Copied, CopiedKids, KidsSlots, Slots, PageList, Range, Ok;
    if kids != [] {
      var n := |kids| - 1;
      KidsContiguous(kids[..n], dup, next);
      CopyIsContiguous(kids[n], dup, next + KidsCount(kids[..n]));
      RangeJoin(next, KidsCount(kids[..n]), Count(kids[n]));
      LastKid(kids, next);
    }
  }

  lemma {:induction false} ItemsContiguous(items: seq<Item>, dup: bool, next: int)
    requires forall i | 0 <= i < |items| :: ItemOk(items[i], dup)
    ensures ItemsPages(CopiedItems(items, next)) == Range(next, ItemsCount(items))
    decreases items
  {
    hide CopiedItem, CopiedItems, ItemsSlots, ItemSlots, ItemPages, Range, ItemOk;
    if items != [] {
      var n := |items| - 1;
      ItemsContiguous(items[..n], dup, next);
      ItemContiguous(items[n], dup, next + ItemsCount(items[..n]));
      RangeJoin(next, ItemsCount(items[..n]), ItemCount(items[n]));
      LastItem(items, next);
    }
  }

  lemma {:induction false} ItemContiguous(x: Item, dup: bool, next: int)
    requires ItemOk(x, dup)
    ensures ItemPages(CopiedItem(x, next)) == Range(next, ItemCount(x))
    decreases x
  {
    if x.Sub? && x.db.Some? {
      CopyIsContiguous(x.db.value, x.dup, next);
    }
  }

  /** Read back from its root, what was written is the copy. */
  lemma {:induction false} CopyIsHeld(t: Tree, dup: bool, file: seq<Page>)
    requires Ok(t, dup)
    ensures Held(file + Slots(Copied(t, |file|)), Copied(t, |file|))
    decreases t
  {
    hide Copied, CopiedKids, CopiedItems, KidsSlots, ItemsSlots, PageOf;
    var c := Copied(t, |file|);
    SlotsLength(t, |file|);
    if t.Leaf? {
      ItemsHeld(t.items, dup, file);
      LeafCopy(t, |file|);
      var f := file + ItemsSlots(c.items);
      forall i | 0 <= i < |c.items| ensures ItemHeld(f + [PageOf(c)], c.items[i]) {
        ItemHeldOn(f, [PageOf(c)], c.items[i]);
      }
      assert f + [PageOf(c)] == file + Slots(c);
    } else {
      KidsHeld(t.kids, dup, file);
      BranchCopy(t, |file|);
      var f := file + KidsSlots(c.kids);
      forall i | 0 <= i < |c.kids| ensures Held(f + [PageOf(c)], c.kids[i]) {
        HeldOn(f, [PageOf(c)], c.kids[i]);
      }
      assert f + [PageOf(c)] == file + Slots(c);
    }
  }

  lemma LeafCopy(t: Tree, next: int)
    requires t.Leaf?
    ensures Copied(t, next).Leaf? && Copied(t, next).items == CopiedItems(t.items, next)
  {
  }

  lemma BranchCopy(t: Tree, next: int)
    requires t.Branch?
    ensures Copied(t, next).Branch? && Copied(t, next).kids == CopiedKids(t.kids, next)
  {
  }

  lemma {:induction false} KidsHeld(kids: seq<Tree>, dup: bool, file: seq<Page>)
    requires forall i | 0 <= i < |kids| :: Ok(kids[i], dup)
    ensures var c := CopiedKids(kids, |file|);
      forall i | 0 <= i < |c| :: Held(file + KidsSlots(c), c[i])
    decreases kids
  {
    hide Copied, CopiedKids, KidsSlots, Slots, Held, Ok, KidsCount;
    if kids != [] {
      var n := |kids| - 1;
      var c := CopiedKids(kids, |file|);
      KidsHeld(kids[..n], dup, file);
      KidsSlotsLength(kids[..n], |file|);
      LastKid(kids, |file|);
      var f := file + KidsSlots(c[..n]);
      CopyIsHeld(kids[n], dup, f);
      assert f + Slots(c[n]) == file + KidsSlots(c);
      forall i | 0 <= i < n ensures Held(f + Slots(c[n]), c[..n][i]) {
        HeldOn(f, Slots(c[n]), c[..n][i]);
      }
    }
  }

  lemma {:induction false} ItemsHeld(items: seq<Item>, dup: bool, file: seq<Page>)
    requires forall i | 0 <= i < |items| :: ItemOk(items[i], dup)
    ensures var c := CopiedItems(items, |file|);
      forall i | 0 <= i < |c| :: ItemHeld(file + ItemsSlots(c), c[i])
    decreases items
  {
    hide CopiedItem, CopiedItems, ItemsSlots, ItemSlots, ItemHeld, ItemOk, ItemsCount;
    if items != [] {
      var n := |items| - 1;
      var c := CopiedItems(items, |file|);
      ItemsHeld(items[..n], dup, file);
      ItemsSlotsLength(items[..n], |file|);
      LastItem(items, |file|);
      var f := file + ItemsSlots(c[..n]);
      OneItemHeld(items[n], dup, f);
      assert f + ItemSlots(c[n]) == file + ItemsSlots(c);
      forall i | 0 <= i < n ensures ItemHeld(f + ItemSlots(c[n]), c[..n][i]) {
        ItemHeldOn(f, ItemSlots(c[n]), c[..n][i]);
      }
    }
  }

  lemma {:induction false} OneItemHeld(x: Item, dup: bool, file: seq<Page>)
    requires ItemOk(x, dup)
    ensures ItemHeld(file + ItemSlots(CopiedItem(x, |file|)), CopiedItem(x, |file|))
    decreases x
  {
    if x.Sub? && x.db.Some? {
      CopyIsHeld(x.db.value, x.dup, file);
    }
  }

  /** Writing further pages behind does no harm. */
  lemma {:induction false} HeldOn(file: seq<Page>, more: seq<Page>, t: Tree)
    requires Held(file, t)
    ensures Held(file + more, t)
    decreases t
  {
    match t
    case Leaf(_, items) =>
      forall i | 0 <= i < |items| ensures ItemHeld(file + more, items[i]) {
        ItemHeldOn(file, more, items[i]);
      }
    case Branch(_, _, kids) =>
      forall i | 0 <= i < |kids| ensures Held(file + more, kids[i]) {
        HeldOn(file, more, kids[i]);
      }
  }

  lemma {:induction false} ItemHeldOn(file: seq<Page>, more: seq<Page>, x: Item)
    requires ItemHeld(file, x)
    ensures ItemHeld(file + more, x)
    decreases x
  {
    if x.Big? {
      assert (file + more)[x.run..x.run + x.pages] == file[x.run..x.run + x.pages];
    } else if x.Sub? && x.db.Some? {
      HeldOn(file, more, x.db.value);
    }
  }

  // ------------------------------------------------------------ the whole copy

  /** What mdb_env_copyfd1 makes of the main database: the root put into the new meta page
      beforehand, counted back from the last page of the source, has to be the one that the
      walk arrives at, or the copy is given up. */
  method CopyMain(src: seq<Page>, metas: seq<Page>, root: int, nextPgno: int, freecount: int, ghost db: Option<Tree>)
    returns (file: seq<Page>, newRoot: int, ok: bool)
    requires |metas| == NUM_METAS
    requires root == RootOf(db) && (db.Some? ==> Ok(db.value, false) && Held(src, db.value))
    ensures ok <==> db.None? || NUM_METAS + Count(db.value) + freecount == nextPgno
    ensures db.None? ==> file == metas && newRoot == P_INVALID
    ensures ok && db.Some? ==>
      && |file| == nextPgno - freecount && file[..NUM_METAS] == metas
      && var c := Copied(db.value, NUM_METAS);
      && newRoot == c.pgno && Held(file, c) && Erased(c) == Erased(db.value)
      && PageList(c) == Range(NUM_METAS, |file| - NUM_METAS)
  {
    assert db.Some? ==> root >= 0;
    hide Held, Copied, Erased, PageList;
    newRoot := root;
    if root != P_INVALID {
      newRoot := nextPgno - 1 - freecount;
    }
    var copier := new Copier(src, metas);
    var got := copier.Cwalk(root, false, db);
    file, ok := copier.file, got == newRoot;
    if db.Some? {
      CopyIsHeld(db.value, false, metas);
      CopyIsIsomorphic(db.value, NUM_METAS);
      CopyIsContiguous(db.value, false, NUM_METAS);
      assert file[..NUM_METAS] == metas;
    }
  }
}
