/** Cursors as stacks of pages while pages are split: what mdb_page_split does to the acting
    cursor and to every other tracked one, from the page that is split up to the root. */
module SplitCursors {
  import opened Wrappers

  /** A branch page holds the numbers of its child pages, a leaf page nodes that are just
      told apart. */
  datatype PageNodes = PageNodes(leaf: bool, nodes: seq<int>)
  type Store = map<int, PageNodes>

  /** mc_pg and mc_ki: the pages from the root down and the index on each. */
  datatype Cur = Cur(pg: seq<int>, ki: seq<int>)

  ghost predicate Ref(mem: Store, p: int, k: int, q: int) {
    p in mem && !mem[p].leaf && 0 <= k < |mem[p].nodes| && mem[p].nodes[k] == q
  }

  /** The pages form a tree: no page has two parents, and the root has none. */
  ghost predicate Tree(mem: Store, root: int) {
    && root in mem
    && (forall p, k, q | Ref(mem, p, k, q) :: q in mem && q != root)
    && (forall p, k, q, p', k' | Ref(mem, p, k, q) && Ref(mem, p', k', q) :: p == p' && k == k')
  }

  ghost predicate Parentless(mem: Store, q: int) {
    forall p, k :: !Ref(mem, p, k, q)
  }

  /** The stack leads from the root down, and stands on its last page or past the last node. */
  ghost predicate Stands(mem: Store, root: int, c: Cur) {
    && |c.pg| == |c.ki| >= 1 && c.pg[0] == root
    && (forall i | 0 <= i < |c.pg| - 1 :: Ref(mem, c.pg[i], c.ki[i], c.pg[i + 1]))
    && c.pg[|c.pg| - 1] in mem
    && 0 <= c.ki[|c.pg| - 1] <= |mem[c.pg[|c.pg| - 1]].nodes|
  }

  /** The node that the cursor is at; None when it is past the last node of its page. */
  ghost function Denoted(mem: Store, c: Cur): Option<int> {
    if |c.pg| == |c.ki| >= 1 && c.pg[|c.pg| - 1] in mem
       && 0 <= c.ki[|c.pg| - 1] < |mem[c.pg[|c.pg| - 1]].nodes|
    then Some(mem[c.pg[|c.pg| - 1]].nodes[c.ki[|c.pg| - 1]])
    else None
  }

  /** The page of a stack is found on one level and by one way only. */
  lemma {:induction false} OneWay(mem: Store, root: int, c: Cur, i: nat, d: Cur, j: nat)
    requires Tree(mem, root) && Stands(mem, root, c) && Stands(mem, root, d)
    requires i < |c.pg| && j < |d.pg| && c.pg[i] == d.pg[j]
    ensures i == j && c.pg[..i + 1] == d.pg[..j + 1] && c.ki[..i] == d.ki[..j]
    decreases i
  {
    if i > 0 {
      assert Ref(mem, c.pg[i - 1], c.ki[i - 1], c.pg[i]);
    }
    if j > 0 {
      assert Ref(mem, d.pg[j - 1], d.ki[j - 1], d.pg[j]);
    }
    if i > 0 && j > 0 {
      OneWay(mem, root, c, i - 1, d, j - 1);
      assert c.pg[..i + 1] == c.pg[..i] + [c.pg[i]] && d.pg[..j + 1] == d.pg[..j] + [d.pg[j]];
      assert c.ki[..i] == c.ki[..i - 1] + [c.ki[i - 1]] && d.ki[..j] == d.ki[..j - 1] + [d.ki[j - 1]];
    }
  }

  // ------------------------------------------------------------ a node comes in

  function Insert(mem: Store, p: int, i: nat, q: int): Store
    requires p in mem && i <= |mem[p].nodes|
  {
    mem[p := mem[p].(nodes := mem[p].nodes[..i] + [q] + mem[p].nodes[i..])]
  }

  /** What the insertion at index i of page p, on level lv, does to a cursor. */
  function Shift(c: Cur, lv: nat, p: int, i: int): Cur {
    if lv < |c.pg| && lv < |c.ki| && c.pg[lv] == p && c.ki[lv] >= i then c.(ki := c.ki[lv := c.ki[lv] + 1]) else c
  }

  lemma InsertTree(mem: Store, root: int, p: int, i: nat, q: int)
    requires Tree(mem, root) && p in mem && i <= |mem[p].nodes|
    requires !mem[p].leaf ==> q in mem && q != root && Parentless(mem, q)
    ensures Tree(Insert(mem, p, i, q), root)
  {
    var mem' := Insert(mem, p, i, q);
    forall p', k', q' | Ref(mem', p', k', q')
      ensures if p' == p && k' == i then q' == q else Ref(mem, p', if p' == p && k' > i then k' - 1 else k', q')
    {
    }
  }

  lemma InsertStands(mem: Store, root: int, c: Cur, lv: nat, p: int, i: nat, q: int, b: Cur)
    requires Tree(mem, root) && Stands(mem, root, c) && lv < |c.pg|
    requires Stands(mem, root, b) && lv < |b.pg| && b.pg[lv] == p && p in mem && i <= |mem[p].nodes|
    ensures var mem', c' := Insert(mem, p, i, q), Shift(c, lv, p, i);
      Stands(mem', root, c') && Denoted(mem', c') == Denoted(mem, c)
  {
    var mem', c' := Insert(mem, p, i, q), Shift(c, lv, p, i);
    forall j | 0 <= j < |c.pg| && c.pg[j] == p
      ensures j == lv
    {
      OneWay(mem, root, c, j, b, lv);
    }
    forall j | 0 <= j < |c'.pg| - 1
      ensures Ref(mem', c'.pg[j], c'.ki[j], c'.pg[j + 1])
    {
      assert Ref(mem, c.pg[j], c.ki[j], c.pg[j + 1]);
    }
  }

  // ------------------------------------------------------------ a page is cut

  /** The nodes of page p from split on move to page rp. */
  function Cut(mem: Store, p: int, split: nat, rp: int): Store
    requires p in mem && split <= |mem[p].nodes|
  {
    mem[p := mem[p].(nodes := mem[p].nodes[..split])][rp := mem[p].(nodes := mem[p].nodes[split..])]
  }

  /** A cursor on one of these nodes moves along; mn leads to the new page. */
  function Moved(c: Cur, lv: nat, p: int, split: int, mn: Cur): Cur {
    if lv < |c.pg| == |c.ki| && c.pg[lv] == p && c.ki[lv] >= split && lv < |mn.pg| == |mn.ki| then
      Cur(mn.pg[..lv + 1] + c.pg[lv + 1..], mn.ki[..lv] + [c.ki[lv] - split] + c.ki[lv + 1..])
    else c
  }

  lemma CutTree(mem: Store, root: int, p: int, split: nat, rp: int)
    requires Tree(mem, root) && p in mem && split <= |mem[p].nodes| && rp in mem && rp != p
    requires mem[rp] == PageNodes(mem[p].leaf, [])
    ensures Tree(Cut(mem, p, split, rp), root)
  {
    var mem' := Cut(mem, p, split, rp);
    forall k', q' | Ref(mem', rp, k', q')
      ensures Ref(mem, p, k' + split, q') && k' >= 0
    {
    }
    forall p', k', q' | Ref(mem', p', k', q') && p' != rp
      ensures Ref(mem, p', k', q') && (p' == p ==> k' < split)
    {
    }
  }

  /** A cursor not on one of these nodes stays. */
  lemma CutStays(mem: Store, root: int, c: Cur, lv: nat, p: int, split: nat, rp: int)
    requires Tree(mem, root) && Stands(mem, root, c) && lv < |c.pg| && rp !in c.pg
    requires p in mem && split <= |mem[p].nodes| && forall j | 0 <= j < |c.pg| && c.pg[j] == p :: j == lv
    requires c.pg[lv] == p ==> c.ki[lv] < split
    ensures var mem' := Cut(mem, p, split, rp); Stands(mem', root, c) && Denoted(mem', c) == Denoted(mem, c)
  {
    var mem' := Cut(mem, p, split, rp);
    forall j | 0 <= j < |c.pg| - 1
      ensures Ref(mem', c.pg[j], c.ki[j], c.pg[j + 1])
    {
      assert Ref(mem, c.pg[j], c.ki[j], c.pg[j + 1]);
      assert c.pg[j] in c.pg;
    }
    assert c.pg[|c.pg| - 1] in c.pg;
  }

  lemma CutMoves(mem: Store, root: int, c: Cur, lv: nat, p: int, split: nat, mn: Cur, rp: int)
    requires Tree(mem, root) && Stands(mem, root, c) && lv < |c.pg| && rp !in c.pg
    requires Stands(mem, root, mn) && |mn.pg| == lv + 1 && mn.pg[lv] == rp && mem[rp].nodes == []
    requires p in mem && split <= |mem[p].nodes| && (forall j | 0 <= j < |c.pg| && c.pg[j] == p :: j == lv)
    requires p !in mn.pg && mem[rp].leaf == mem[p].leaf && c.pg[lv] == p && c.ki[lv] >= split
    ensures var mem', c' := Cut(mem, p, split, rp), Moved(c, lv, p, split, mn);
      Stands(mem', root, c') && Denoted(mem', c') == Denoted(mem, c)
  {
    var mem', c' := Cut(mem, p, split, rp), Moved(c, lv, p, split, mn);
    forall j | 0 <= j < lv
      ensures Ref(mem', c'.pg[j], c'.ki[j], c'.pg[j + 1])
    {
      assert Ref(mem, mn.pg[j], mn.ki[j], mn.pg[j + 1]) && Ref(mem, c.pg[lv - 1], c.ki[lv - 1], p);
      assert mn.pg[j] in mn.pg && !mem[mn.pg[j]].leaf && mn.pg[j] != rp;
    }
    forall j | lv <= j < |c.pg| - 1
      ensures Ref(mem', c'.pg[j], c'.ki[j], c'.pg[j + 1])
    {
      assert Ref(mem, c.pg[j], c.ki[j], c.pg[j + 1]);
      assert c.pg[j] in c.pg;
    }
    assert c.pg[|c.pg| - 1] in c.pg;
  }

  lemma CutStands(mem: Store, root: int, c: Cur, lv: nat, p: int, split: nat, mn: Cur, rp: int)
    requires Tree(mem, root) && Stands(mem, root, c) && lv < |c.pg|
    requires Stands(mem, root, mn) && |mn.pg| == lv + 1 && mn.pg[lv] == rp && mem[rp].nodes == [] && rp !in c.pg
    requires p in mem && split <= |mem[p].nodes| && (forall j | 0 <= j < |c.pg| && c.pg[j] == p :: j == lv)
    requires p !in mn.pg && mem[rp].leaf == mem[p].leaf
    ensures var mem', c' := Cut(mem, p, split, rp), Moved(c, lv, p, split, mn);
      Stands(mem', root, c') && Denoted(mem', c') == Denoted(mem, c)
  {
    hide Tree, Cut, Denoted;
    if c.pg[lv] == p && c.ki[lv] >= split {
      CutMoves(mem, root, c, lv, p, split, mn, rp);
    } else {
      CutStays(mem, root, c, lv, p, split, rp);
    }
  }

  // ------------------------------------------------------------ a new root

  function Rooted(c: Cur, np: int): Cur {
    Cur([np] + c.pg, [0] + c.ki)
  }

  lemma RootTree(mem: Store, root: int, np: int)
    requires Tree(mem, root) && np !in mem
    ensures Tree(mem[np := PageNodes(false, [root])], np)
  {
    var mem' := mem[np := PageNodes(false, [root])];
    forall p, k, q | Ref(mem', p, k, q)
      ensures if p == np then k == 0 && q == root else Ref(mem, p, k, q)
    {
    }
  }

  lemma RootStands(mem: Store, root: int, np: int, c: Cur)
    requires Tree(mem, root) && np !in mem && Stands(mem, root, c)
    ensures var mem' := mem[np := PageNodes(false, [root])];
      Stands(mem', np, Rooted(c, np)) && Denoted(mem', Rooted(c, np)) == Denoted(mem, c)
  {
    var mem', c' := mem[np := PageNodes(false, [root])], Rooted(c, np);
    forall j | 0 <= j < |c'.pg| - 1
      ensures Ref(mem', c'.pg[j], c'.ki[j], c'.pg[j + 1])
    {
      if j > 0 {
        assert Ref(mem, c.pg[j - 1], c.ki[j - 1], c.pg[j]);
      }
    }
  }

  // ------------------------------------------------------------ the node that replaces one

  /** The page with the new node in, in place of the one at i or before it. */
  function Filled(mem: Store, p: int, i: nat, x: int, replace: bool): Store
    requires p in mem && if replace then i < |mem[p].nodes| else i <= |mem[p].nodes|
  {
    if replace then mem[p := mem[p].(nodes := mem[p].nodes[i := x])] else Insert(mem, p, i, x)
  }

  /** What a new node may be: on a branch page the number of a page that has no parent yet, or
      of the page whose node is replaced. */
  ghost predicate NewNode(mem: Store, root: int, p: int, i: nat, x: int, replace: bool) {
    && p in mem && (if replace then i < |mem[p].nodes| else i <= |mem[p].nodes|)
    && (!mem[p].leaf ==>
      if replace then x == mem[p].nodes[i] else x in mem && x != root && Parentless(mem, x))
  }

  function Entered(c: Cur, lv: nat, p: int, i: int, replace: bool): Cur {
    if replace then c else Shift(c, lv, p, i)
  }

  /** A cursor at the node that is replaced denotes the new one. */
  ghost function DenotedThen(mem: Store, c: Cur, lv: nat, p: int, i: int, x: int, replace: bool): Option<int> {
    if replace && |c.pg| == |c.ki| == lv + 1 && c.pg[lv] == p && c.ki[lv] == i then Some(x) else Denoted(mem, c)
  }

  lemma FilledTree(mem: Store, root: int, p: int, i: nat, x: int, replace: bool)
    requires Tree(mem, root) && NewNode(mem, root, p, i, x, replace)
    ensures Tree(Filled(mem, p, i, x, replace), root)
  {
    if replace {
      var mem' := Filled(mem, p, i, x, replace);
      forall p', k', q' | Ref(mem', p', k', q')
        ensures Ref(mem, p', k', q')
      {
      }
    } else {
      InsertTree(mem, root, p, i, x);
    }
  }

  lemma FilledStands(mem: Store, root: int, c: Cur, lv: nat, p: int, i: nat, x: int, replace: bool, b: Cur)
    requires Tree(mem, root) && Stands(mem, root, c) && lv < |c.pg| && NewNode(mem, root, p, i, x, replace)
    requires Stands(mem, root, b) && lv < |b.pg| && b.pg[lv] == p
    ensures var mem', c' := Filled(mem, p, i, x, replace), Entered(c, lv, p, i, replace);
      Stands(mem', root, c') && Denoted(mem', c') == DenotedThen(mem, c, lv, p, i, x, replace)
  {
    if replace {
      var mem' := Filled(mem, p, i, x, replace);
      forall j | 0 <= j < |c.pg| - 1
        ensures Ref(mem', c.pg[j], c.ki[j], c.pg[j + 1])
      {
        assert Ref(mem, c.pg[j], c.ki[j], c.pg[j + 1]);
      }
      if c.pg[|c.pg| - 1] == p {
        OneWay(mem, root, c, |c.pg| - 1, b, lv);
      }
    } else {
      InsertStands(mem, root, c, lv, p, i, x, b);
    }
  }

  /** A page that nothing refers to yet. */
  lemma AddPage(mem: Store, root: int, rp: int, page: PageNodes)
    requires Tree(mem, root) && rp !in mem && page.nodes == []
    ensures Tree(mem[rp := page], root)
    ensures Parentless(mem[rp := page], rp)
    ensures forall c | Stands(mem, root, c) ::
      Stands(mem[rp := page], root, c) && Denoted(mem[rp := page], c) == Denoted(mem, c) && rp !in c.pg
  {
    var mem' := mem[rp := page];
    forall p, k, q
      ensures Ref(mem', p, k, q) <==> Ref(mem, p, k, q)
    {
    }
    forall c | Stands(mem, root, c)
      ensures Stands(mem', root, c) && Denoted(mem', c) == Denoted(mem, c) && rp !in c.pg
    {
      forall j | 0 <= j < |c.pg| - 1
        ensures Ref(mem', c.pg[j], c.ki[j], c.pg[j + 1]) && c.pg[j] != rp
      {
        assert Ref(mem, c.pg[j], c.ki[j], c.pg[j + 1]);
      }
    }
  }

  // ------------------------------------------------------------ beside the page that is split

  /** Cursor a is one node further than c on level lv: the next on the same page, or on another
      page while c is at the last of its own. */
  ghost predicate Next(mem: Store, c: Cur, a: Cur, lv: nat) {
    && lv < |c.pg| == |c.ki| && lv < |a.pg| == |a.ki| && c.pg[lv] in mem
    && if c.pg[lv] == a.pg[lv] then
         c.pg[..lv] == a.pg[..lv] && c.ki[..lv] == a.ki[..lv] && a.ki[lv] == c.ki[lv] + 1
       else c.ki[lv] + 1 >= |mem[c.pg[lv]].nodes|
  }

  /** The parents know the new page rp, empty still: mn leads to it, and mc to page p with the
      index for the new node. */
  ghost predicate Prepared(mem: Store, root: int, mc: Cur, mn: Cur, rp: int) {
    && Tree(mem, root) && Stands(mem, root, mc) && Stands(mem, root, mn)
    && |mc.pg| == |mn.pg| >= 2
    && var top := |mc.pg| - 1;
       && mn.pg[top] == rp && mc.pg[top] != rp && mn.ki[top] == 0
       && mem[rp] == PageNodes(mem[mc.pg[top]].leaf, [])
       && Next(mem, mc, mn, top - 1)
  }

  /** The stores while nodes are moved, and what becomes of a cursor. */
  function Finished(mem: Store, p: int, i: nat, x: int, replace: bool, split: nat, rp: int): Store
    requires p in mem && if replace then i < |mem[p].nodes| else i <= |mem[p].nodes|
    requires split <= |mem[p].nodes|
  {
    Cut(Filled(mem, p, i, x, replace), p, split, rp)
  }

  function Final(c: Cur, lv: nat, p: int, i: int, replace: bool, split: nat, mn: Cur): Cur {
    Moved(Entered(c, lv, p, i, replace), lv, p, split, mn)
  }

  ghost predicate CanFinish(mem: Store, root: int, mc: Cur, mn: Cur, x: int, replace: bool, split: nat, rp: int) {
    && Prepared(mem, root, mc, mn, rp)
    && var top := |mc.pg| - 1;
       NewNode(mem, root, mc.pg[top], mc.ki[top], x, replace) && 0 < split <= |mem[mc.pg[top]].nodes|
  }

  lemma FinishedTree(mem: Store, root: int, mc: Cur, mn: Cur, x: int, replace: bool, split: nat, rp: int)
    requires CanFinish(mem, root, mc, mn, x, replace, split, rp)
    ensures var top := |mc.pg| - 1;
      Tree(Finished(mem, mc.pg[top], mc.ki[top], x, replace, split, rp), root)
  {
    var top := |mc.pg| - 1;
    FilledTree(mem, root, mc.pg[top], mc.ki[top], x, replace);
    CutTree(Filled(mem, mc.pg[top], mc.ki[top], x, replace), root, mc.pg[top], split, rp);
  }

  /** A cursor that is on its way not over the new page denotes in the end what it denoted. */
  lemma FinalStands(mem: Store, root: int, mc: Cur, mn: Cur, x: int, replace: bool, split: nat, rp: int, c: Cur)
    requires CanFinish(mem, root, mc, mn, x, replace, split, rp)
    requires Stands(mem, root, c) && |c.pg| >= |mc.pg| && rp !in c.pg
    ensures var top := |mc.pg| - 1;
      var p, i := mc.pg[top], mc.ki[top];
      var mem', c' := Finished(mem, p, i, x, replace, split, rp), Final(c, top, p, i, replace, split, mn);
      && Stands(mem', root, c') && Denoted(mem', c') == DenotedThen(mem, c, top, p, i, x, replace)
      && |c'.pg| == |c.pg| && c'.pg[top + 1..] == c.pg[top + 1..] && c'.ki[top + 1..] == c.ki[top + 1..]
  {
    var top := |mc.pg| - 1;
    var p, i := mc.pg[top], mc.ki[top];
    var mem1, c1, mn1 := Filled(mem, p, i, x, replace), Entered(c, top, p, i, replace), Entered(mn, top, p, i, replace);
    FilledTree(mem, root, p, i, x, replace);
    FilledStands(mem, root, c, top, p, i, x, replace, mc);
    FilledStands(mem, root, mn, top, p, i, x, replace, mc);
    OnceOn(mem, root, c, p, mc, top);
    OnceOn(mem, root, mn, p, mc, top);
    CutStands(mem1, root, c1, top, p, split, mn1, rp);
  }

  lemma OnceOn(mem: Store, root: int, c: Cur, p: int, b: Cur, lv: nat)
    requires Tree(mem, root) && Stands(mem, root, c) && Stands(mem, root, b) && lv < |b.pg| && b.pg[lv] == p
    ensures forall j | 0 <= j < |c.pg| && c.pg[j] == p :: j == lv
  {
    forall j | 0 <= j < |c.pg| && c.pg[j] == p
      ensures j == lv
    {
      OneWay(mem, root, c, j, b, lv);
    }
  }

  /** The acting cursor is at the new node in the end. */
  lemma ActingStands(mem: Store, root: int, mc: Cur, mn: Cur, x: int, replace: bool, split: nat, rp: int)
    requires CanFinish(mem, root, mc, mn, x, replace, split, rp)
    ensures var top := |mc.pg| - 1;
      var p, i := mc.pg[top], mc.ki[top];
      var mem', c' := Finished(mem, p, i, x, replace, split, rp), Moved(mc, top, p, split, mn);
      && Stands(mem', root, c') && Denoted(mem', c') == Some(x)
      && |c'.pg| == |mc.pg| && c'.pg[top] in mem' && mem'[c'.pg[top]].leaf == mem[p].leaf
  {
    var top := |mc.pg| - 1;
    var p, i := mc.pg[top], mc.ki[top];
    var mem1 := Filled(mem, p, i, x, replace);
    FilledTree(mem, root, p, i, x, replace);
    FilledStands(mem, root, mc, top, p, i, x, replace, mc);
    FilledStands(mem, root, mn, top, p, i, x, replace, mc);
    OnceOn(mem, root, mc, p, mc, top);
    OnceOn(mem, root, mn, p, mc, top);
    OnceOn(mem, root, mc, rp, mn, top);
    assert Stands(mem1, root, mc) && Denoted(mem1, mc) == Some(x) by {
      forall j | 0 <= j < top
        ensures Ref(mem1, mc.pg[j], mc.ki[j], mc.pg[j + 1])
      {
        assert Ref(mem, mc.pg[j], mc.ki[j], mc.pg[j + 1]);
      }
    }
    CutStands(mem1, root, mc, top, p, split, Entered(mn, top, p, i, replace), rp);
  }

  /** A cursor that was at the node before the new one is so still. */
  lemma NextKept(mem: Store, root: int, mc: Cur, mn: Cur, x: int, split: nat, rp: int, c: Cur)
    requires CanFinish(mem, root, mc, mn, x, false, split, rp)
    requires Stands(mem, root, c) && |c.pg| >= |mc.pg| && rp !in c.pg
    requires var top := |mc.pg| - 1; c.pg[top] == mc.pg[top] && c.ki[top] + 1 == mc.ki[top]
    ensures var top := |mc.pg| - 1;
      var p, i := mc.pg[top], mc.ki[top];
      Next(Finished(mem, p, i, x, false, split, rp), Final(c, top, p, i, false, split, mn),
           Moved(mc, top, p, split, mn), top)
  {
    var top := |mc.pg| - 1;
    OneWay(mem, root, c, top, mc, top);
    assert c.pg[..top] == c.pg[..top + 1][..top] && mc.pg[..top] == mc.pg[..top + 1][..top];
  }

  // ------------------------------------------------------------ the other cursors

  /** What the fix-up of the tracked cursors reads: nkeys is the number of nodes left on page
      mp, mc the acting cursor as it has become, mn the cursor that leads to rp. */
  datatype Fix = Fix(newRoot: bool, didSplit: bool, replace: bool, newindx: int, nkeys: nat, mp: int, mc: Cur, mn: Cur)

  ghost predicate FixOk(fix: Fix, m3: Cur) {
    && 2 <= |fix.mc.pg| == |fix.mc.ki| == |fix.mn.pg| == |fix.mn.ki|
    && |m3.pg| == |m3.ki| && |m3.pg| + (if fix.newRoot then 1 else 0) >= |fix.mc.pg|
  }

  /** The loop body over the tracked cursors. */
  function FixUp(m3: Cur, fix: Fix): Cur
    requires FixOk(fix, m3)
  {
    if fix.newRoot && m3.pg[0] != fix.mp then m3
    else
      var m := if fix.newRoot then
        Cur([fix.mc.pg[0]] + m3.pg, [if m3.ki[0] >= fix.nkeys then 1 else 0] + m3.ki) else m3;
      var top := |fix.mc.pg| - 1;
      if m.pg[top] == fix.mp then
        var at := if m.ki[top] >= fix.newindx && !fix.replace then m.ki[top] + 1 else m.ki[top];
        if at >= fix.nkeys then
          Cur(fix.mn.pg[..top + 1] + m.pg[top + 1..], fix.mn.ki[..top] + [at - fix.nkeys] + m.ki[top + 1..])
        else m.(ki := m.ki[top := at])
      else if !fix.didSplit && m.pg[top - 1] == fix.mc.pg[top - 1] && m.ki[top - 1] >= fix.mc.ki[top - 1] then
        m.(ki := m.ki[top - 1 := m.ki[top - 1] + 1])
      else m
  }

  /** When the parent was split as well, the cursors on it have been fixed up with it. */
  lemma FixUpBelow(fix: Fix, m3: Cur)
    requires FixOk(fix, m3) && !fix.newRoot && fix.didSplit
    ensures FixUp(m3, fix) == Final(m3, |fix.mc.pg| - 1, fix.mp, fix.newindx, fix.replace, fix.nkeys, fix.mn)
  {
  }

  /** A cursor that is not on page mp but on its parent: it goes up by one exactly when it is
      behind mp, whether or not the acting cursor has gone up itself. */
  lemma FixUpBeside(mem: Store, root: int, mc: Cur, fix: Fix, m3: Cur)
    requires Tree(mem, root) && Stands(mem, root, mc) && Stands(mem, root, m3) && FixOk(fix, m3)
    requires !fix.newRoot && !fix.didSplit && |fix.mc.pg| == |mc.pg| && fix.mp == mc.pg[|mc.pg| - 1]
    requires var ptop := |mc.pg| - 2;
      fix.mc.pg[ptop] == mc.pg[ptop] && mc.ki[ptop] <= fix.mc.ki[ptop] <= mc.ki[ptop] + 1
    ensures var ptop := |mc.pg| - 2;
      FixUp(m3, fix) == Final(Shift(m3, ptop, mc.pg[ptop], mc.ki[ptop] + 1), ptop + 1, fix.mp, fix.newindx,
                              fix.replace, fix.nkeys, fix.mn)
  {
    var top := |mc.pg| - 1;
    assert Ref(mem, mc.pg[top - 1], mc.ki[top - 1], mc.pg[top]);
    assert Ref(mem, m3.pg[top - 1], m3.ki[top - 1], m3.pg[top]);
  }

  lemma FixUpRoot(mem: Store, root: int, np: int, fix: Fix, m3: Cur)
    requires Stands(mem, root, m3) && FixOk(fix, m3) && fix.newRoot && |fix.mc.pg| == 2
    requires fix.mp == root && fix.mc.pg[0] == np
    ensures FixUp(m3, fix) == Final(Rooted(m3, np), 1, fix.mp, fix.newindx, fix.replace, fix.nkeys, fix.mn)
  {
  }

  /** The acting cursor as mdb_page_split leaves it. */
  function Acted(mem: Store, mc: Cur, mn: Cur, split: int): Cur
    requires 2 <= |mc.pg| == |mc.ki| == |mn.pg| == |mn.ki|
  {
    var top := |mc.pg| - 1;
    var ptop, newindx := top - 1, mc.ki[top];
    if newindx < split then mc
    else
      var c := Cur(mc.pg[top := mn.pg[top]], mc.ki[ptop := mc.ki[ptop] + 1][top := newindx - split]);
      if mn.pg[ptop] != c.pg[ptop] && c.pg[ptop] in mem && c.ki[ptop] >= |mem[c.pg[ptop]].nodes| then
        Cur(mn.pg, mn.ki[..top] + [newindx - split])
      else c
  }

  /** That is where its index on the page to be split leads to. */
  lemma ActedMoved(mem: Store, root: int, mc: Cur, mn: Cur, x: int, replace: bool, split: nat, rp: int)
    requires CanFinish(mem, root, mc, mn, x, replace, split, rp)
    ensures var top := |mc.pg| - 1;
      var p, i := mc.pg[top], mc.ki[top];
      Acted(Finished(mem, p, i, x, replace, split, rp), mc, mn, split) == Moved(mc, top, p, split, mn)
  {
    var top := |mc.pg| - 1;
    assert Ref(mem, mc.pg[top - 1], mc.ki[top - 1], mc.pg[top]);
    assert Ref(mem, mn.pg[top - 1], mn.ki[top - 1], rp);
    OnceOn(mem, root, mc, mc.pg[top], mc, top);
    OnceOn(mem, root, mc, rp, mn, top);
    assert mn.pg == mn.pg[..top + 1];
  }

  // ------------------------------------------------------------ splitting up to the root

  /** A page that is split: the number of the new right page, and how many nodes stay. */
  datatype Level = Level(right: int, split: nat)

  function NumKeys(mem: Store, p: int): nat {
    if p in mem then |mem[p].nodes| else 0
  }

  /** What mdb_page_split is called with.  plan tells of the page that mc stands on and of those
      above it that have no room for a separator; np is the page for a new root. */
  ghost predicate Ready(mem: Store, root: int, tracked: seq<Cur>, mc: Cur, x: int, replace: bool, plan: seq<Level>,
                        np: int) {
    && Tree(mem, root) && Stands(mem, root, mc)
    && (forall i | 0 <= i < |tracked| :: Stands(mem, root, tracked[i]) && |tracked[i].pg| >= |mc.pg|)
    && NewNode(mem, root, mc.pg[|mc.pg| - 1], mc.ki[|mc.pg| - 1], x, replace)
    && 1 <= |plan| <= |mc.pg|
    && (forall j | 0 <= j < |plan| :: 0 < plan[j].split <= NumKeys(mem, mc.pg[|mc.pg| - 1 - j]))
    && (forall j | 0 <= j < |plan| :: plan[j].right !in mem && plan[j].right != np)
    && (forall j, k | 0 <= j < k < |plan| :: plan[j].right != plan[k].right)
    && np !in mem
  }

  /** What becomes of a tracked cursor: it stands on the same pages below the one that was
      split, and denotes the node that it denoted, or the one in its place. */
  ghost predicate Kept(mem: Store, mc: Cur, x: int, replace: bool, c: Cur, mem': Store, root': int, c': Cur, up: nat) {
    var lv := |mc.pg| - 1;
    && lv >= 0 && |mc.ki| == |mc.pg| && |c.pg| == |c.ki| > lv
    && Stands(mem', root', c') && |c'.pg| == |c.pg| + up
    && c'.pg[lv + up + 1..] == c.pg[lv + 1..] && c'.ki[lv + up + 1..] == c.ki[lv + 1..]
    && Denoted(mem', c') == DenotedThen(mem, c, lv, mc.pg[lv], mc.ki[lv], x, replace)
  }

  /** The pages beside those that are split are left alone, and pages without a parent stay so. */
  ghost predicate Frame(mem: Store, root: int, mc: Cur, x: int, mem': Store) {
    && (forall p | p in mem :: p in mem' && (p !in mc.pg ==> mem'[p] == mem[p]))
    && (forall q | q in mem && q != root && q != x && Parentless(mem, q) :: Parentless(mem', q))
  }

  /** How far up the root moves. */
  function Up(mc: Cur, plan: seq<Level>): nat {
    if |plan| == |mc.pg| then 1 else 0
  }

  /** A tracked cursor once the parents know the new page. */
  ghost predicate Carried(mem: Store, lv: nat, t: Cur, mem': Store, root': int, t': Cur, up: nat, rp: int) {
    && |t.pg| == |t.ki| > lv && Stands(mem', root', t') && |t'.pg| == |t.pg| + up == |t'.ki| && rp !in t'.pg
    && t'.pg[lv + up..] == t.pg[lv..] && t'.ki[lv + up..] == t.ki[lv..]
    && Denoted(mem', t') == Denoted(mem, t)
  }

  /** The page on which the acting cursor stands, with the page to be its right sibling. */
  ghost predicate Sides(mem: Store, mc: Cur, rp: int, mem': Store, mc': Cur) {
    && |mc.pg| == |mc.ki| > 0 && |mc'.pg| == |mc'.ki| >= |mc.pg|
    && mc'.pg[|mc'.pg| - 1] == mc.pg[|mc.pg| - 1] && mc'.ki[|mc'.pg| - 1] == mc.ki[|mc.pg| - 1]
    && mc.pg[|mc.pg| - 1] in mem && mc.pg[|mc.pg| - 1] in mem'
    && mem'[mc.pg[|mc.pg| - 1]] == mem[mc.pg[|mc.pg| - 1]] && rp !in mem
  }

  /** The separator finds room in the parent: the new page goes behind the page to be split. */
  lemma PrepareBeside(mem: Store, root: int, mc: Cur, rp: int)
    requires Tree(mem, root) && Stands(mem, root, mc) && |mc.pg| >= 2 && rp !in mem
    ensures var top := |mc.pg| - 1;
      var ptop, page := top - 1, PageNodes(mem[mc.pg[top]].leaf, []);
      var mem1 := mem[rp := page];
      && mc.pg[ptop] in mem1 && 0 <= mc.ki[ptop] < |mem1[mc.pg[ptop]].nodes|
      && var memA, mn := Insert(mem1, mc.pg[ptop], mc.ki[ptop] + 1, rp),
           Cur(mc.pg[top := rp], mc.ki[ptop := mc.ki[ptop] + 1][top := 0]);
         && Prepared(memA, root, mc, mn, rp) && Sides(mem, mc, rp, memA, mc)
         && forall t | Stands(mem, root, t) && |t.pg| >= |mc.pg| ::
              Carried(mem, top, t, memA, root, Shift(t, ptop, mc.pg[ptop], mc.ki[ptop] + 1), 0, rp)
  {
    var top := |mc.pg| - 1;
    var ptop, page := top - 1, PageNodes(mem[mc.pg[top]].leaf, []);
    var mem1 := mem[rp := page];
    AddPage(mem, root, rp, page);
    assert Ref(mem, mc.pg[ptop], mc.ki[ptop], mc.pg[top]);
    var pp, k := mc.pg[ptop], mc.ki[ptop];
    var memA, mn := Insert(mem1, pp, k + 1, rp), Cur(mc.pg[top := rp], mc.ki[ptop := k + 1][top := 0]);
    InsertTree(mem1, root, pp, k + 1, rp);
    InsertStands(mem1, root, mc, ptop, pp, k + 1, rp, mc);
    OnceOn(mem1, root, mc, pp, mc, ptop);
    forall j | 0 <= j < top
      ensures Ref(memA, mn.pg[j], mn.ki[j], mn.pg[j + 1])
    {
      assert Ref(memA, mc.pg[j], mc.ki[j], mc.pg[j + 1]);
    }
    forall t | Stands(mem, root, t) && |t.pg| >= |mc.pg|
      ensures Carried(mem, top, t, memA, root, Shift(t, ptop, pp, k + 1), 0, rp)
    {
      InsertStands(mem1, root, t, ptop, pp, k + 1, rp, mc);
    }
  }

  /** The root itself is split: it gets a parent first. */
  lemma PrepareRoot(mem: Store, root: int, mc: Cur, rp: int, np: int)
    requires Tree(mem, root) && Stands(mem, root, mc) && |mc.pg| == 1 && rp !in mem && np !in mem && rp != np
    ensures var mc1, page := Rooted(mc, np), PageNodes(mem[root].leaf, []);
      var mem1 := mem[rp := page][np := PageNodes(false, [root])];
      var memA, mn := Insert(mem1, np, 1, rp), Cur(mc1.pg[1 := rp], mc1.ki[0 := 1][1 := 0]);
      && Prepared(memA, np, mc1, mn, rp) && Sides(mem, mc, rp, memA, mc1)
      && forall t | Stands(mem, root, t) :: Carried(mem, 0, t, memA, np, Rooted(t, np), 1, rp)
  {
    var mem0, mc1 := mem[np := PageNodes(false, [root])], Rooted(mc, np);
    RootTree(mem, root, np);
    RootStands(mem, root, np, mc);
    PrepareBeside(mem0, np, mc1, rp);
    var page := PageNodes(mem[root].leaf, []);
    assert mem0[rp := page] == mem[rp := page][np := PageNodes(false, [root])];
    forall t | Stands(mem, root, t)
      ensures Carried(mem, 0, t, Insert(mem0[rp := PageNodes(mem[root].leaf, [])], np, 1, rp), np, Rooted(t, np), 1, rp)
    {
      RootStands(mem, root, np, t);
      assert Shift(Rooted(t, np), 0, np, 1) == Rooted(t, np);
    }
  }

  lemma PagesIn(mem: Store, root: int, c: Cur)
    requires Tree(mem, root) && Stands(mem, root, c)
    ensures forall j | 0 <= j < |c.pg| :: c.pg[j] in mem
  {
    forall j | 0 <= j < |c.pg|
      ensures c.pg[j] in mem
    {
      if j < |c.pg| - 1 {
        assert Ref(mem, c.pg[j], c.ki[j], c.pg[j + 1]);
      }
    }
  }

  /** The cursor with which the parent is split: at the place for the separator. */
  function Parent(mc: Cur): Cur
    requires |mc.pg| == |mc.ki| >= 2
  {
    var top := |mc.pg| - 1;
    Cur(mc.pg[..top], mc.ki[top - 1 := mc.ki[top - 1] + 1][..top])
  }

  /** What the split of the parent has left: its own acting cursor at the new page, and the
      tracked ones, the one that acts here among them. */
  ghost predicate Above(mem: Store, root: int, mc: Cur, rp: int, mem': Store, root': int, mc': Cur, up: Cur, u: nat) {
    && Tree(mem, root) && Stands(mem, root, mc) && |mc.pg| >= 2 && rp !in mem
    && var mem1 := mem[rp := PageNodes(mem[mc.pg[|mc.pg| - 1]].leaf, [])];
       && Tree(mem', root') && Stands(mem', root', up) && |up.pg| == |mc.pg| - 1 + u && Denoted(mem', up) == Some(rp)
       && !mem'[up.pg[|up.pg| - 1]].leaf
       && Kept(mem1, Parent(mc), rp, false, mc, mem', root', mc', u)
       && Next(mem', mc', up, |up.pg| - 1)
       && Frame(mem1, root, Parent(mc), rp, mem')
  }

  lemma PrepareAbove(mem: Store, root: int, mc: Cur, rp: int, mem': Store, root': int, mc': Cur, up: Cur, u: nat)
    requires Above(mem, root, mc, rp, mem', root', mc', up, u)
    ensures Prepared(mem', root', mc', Cur(up.pg + [rp], up.ki + [0]), rp) && Sides(mem, mc, rp, mem', mc')
  {
    var top, top' := |mc.pg| - 1, |mc'.pg| - 1;
    var mn := Cur(up.pg + [rp], up.ki + [0]);
    PagesIn(mem, root, mc);
    OnceOn(mem, root, mc, mc.pg[top], mc, top);
    assert mc'.pg[top'] == mc'.pg[top + u..][0] == mc.pg[top] && mc'.ki[top'] == mc'.ki[top + u..][0];
    forall j | 0 <= j < |mn.pg| - 1
      ensures Ref(mem', mn.pg[j], mn.ki[j], mn.pg[j + 1])
    {
      assert j < top' - 1 ==> Ref(mem', up.pg[j], up.ki[j], up.pg[j + 1]);
    }
  }

  lemma CarriedAbove(mem: Store, root: int, mc: Cur, rp: int, mem': Store, root': int, mc': Cur, up: Cur, u: nat,
                     t: Cur, t': Cur)
    requires Above(mem, root, mc, rp, mem', root', mc', up, u)
    requires Stands(mem, root, t) && |t.pg| >= |mc.pg|
    requires Kept(mem[rp := PageNodes(mem[mc.pg[|mc.pg| - 1]].leaf, [])], Parent(mc), rp, false, t, mem', root', t', u)
    ensures Carried(mem, |mc.pg| - 1, t, mem', root', t', u, rp)
  {
    var top := |mc.pg| - 1;
    var mn := Cur(up.pg + [rp], up.ki + [0]);
    PrepareAbove(mem, root, mc, rp, mem', root', mc', up, u);
    AddPage(mem, root, rp, PageNodes(mem[mc.pg[top]].leaf, []));
    PagesIn(mem, root, t);
    OnceOn(mem', root', t', rp, mn, top + u);
    assert t'.pg[top + u] == t'.pg[top + u..][0] == t.pg[top];
  }

  lemma FrameBeside(mem: Store, root: int, mc: Cur, rp: int)
    requires Tree(mem, root) && Stands(mem, root, mc) && |mc.pg| >= 2 && rp !in mem
    requires var top := |mc.pg| - 1; mc.pg[top - 1] in mem && mc.ki[top - 1] + 1 <= |mem[mc.pg[top - 1]].nodes|
    requires 0 <= mc.ki[|mc.pg| - 2]
    ensures var top := |mc.pg| - 1;
      var mem1 := mem[rp := PageNodes(mem[mc.pg[top]].leaf, [])];
      && mc.pg[top - 1] != rp
      && Frame(mem, root, mc, rp, Insert(mem1, mc.pg[top - 1], mc.ki[top - 1] + 1, rp))
  {
    var top := |mc.pg| - 1;
    var mem1 := mem[rp := PageNodes(mem[mc.pg[top]].leaf, [])];
    var pp, k := mc.pg[top - 1], mc.ki[top - 1];
    var memA := Insert(mem1, pp, k + 1, rp);
    assert pp in mc.pg;
    forall p', k', q' | Ref(memA, p', k', q')
      ensures q' == rp || Ref(mem, p', if p' == pp && k' > k then k' - 1 else k', q')
    {
    }
  }

  lemma FrameRoot(mem: Store, root: int, mc: Cur, rp: int, np: int)
    requires Tree(mem, root) && rp !in mem && np !in mem && rp != np
    ensures var mem1 := mem[rp := PageNodes(mem[root].leaf, [])][np := PageNodes(false, [root])];
      Frame(mem, root, mc, rp, Insert(mem1, np, 1, rp))
  {
    var mem1 := mem[rp := PageNodes(mem[root].leaf, [])][np := PageNodes(false, [root])];
    var memA := Insert(mem1, np, 1, rp);
    assert memA[np].nodes == [root, rp];
    forall p', k', q' | Ref(memA, p', k', q')
      ensures q' == rp || q' == root || Ref(mem, p', k', q')
    {
    }
  }

  lemma FrameAbove(mem: Store, root: int, mc: Cur, rp: int, mem': Store, root': int, mc': Cur, up: Cur, u: nat)
    requires Above(mem, root, mc, rp, mem', root', mc', up, u)
    ensures Frame(mem, root, mc, rp, mem')
  {
    var mem1 := mem[rp := PageNodes(mem[mc.pg[|mc.pg| - 1]].leaf, [])];
    forall p', k', q'
      ensures Ref(mem1, p', k', q') <==> Ref(mem, p', k', q')
    {
    }
    forall q | Parentless(mem, q)
      ensures Parentless(mem1, q)
    {
    }
    assert forall p | p in Parent(mc).pg :: p in mc.pg;
  }

  /** What is known before the nodes are moved is enough to move them. */
  lemma NowFinish(mem: Store, root: int, mc: Cur, x: int, replace: bool, split: nat, rp: int,
                  mem': Store, root': int, mc': Cur, mn: Cur)
    requires Stands(mem, root, mc) && NewNode(mem, root, mc.pg[|mc.pg| - 1], mc.ki[|mc.pg| - 1], x, replace)
    requires 0 < split <= NumKeys(mem, mc.pg[|mc.pg| - 1])
    requires Prepared(mem', root', mc', mn, rp) && Sides(mem, mc, rp, mem', mc') && Frame(mem, root, mc, rp, mem')
    requires root' == root || root' !in mem
    ensures CanFinish(mem', root', mc', mn, x, replace, split, rp)
  {
  }

  lemma FrameEnds(mem: Store, root: int, mc: Cur, x: int, replace: bool, split: nat, rp: int,
                  mem': Store, root': int, mc': Cur, mn: Cur)
    requires |mc.pg| > 0 && Sides(mem, mc, rp, mem', mc') && Frame(mem, root, mc, rp, mem')
    requires CanFinish(mem', root', mc', mn, x, replace, split, rp)
    ensures var top := |mc'.pg| - 1;
      Frame(mem, root, mc, x, Finished(mem', mc'.pg[top], mc'.ki[top], x, replace, split, rp))
  {
    var top := |mc'.pg| - 1;
    var p, i := mc'.pg[top], mc'.ki[top];
    var mem2 := Filled(mem', p, i, x, replace);
    var mem3 := Cut(mem2, p, split, rp);
    assert p in mc.pg;
    forall p', k', q' | Ref(mem2, p', k', q')
      ensures q' == x || Ref(mem', p', if p' == p && k' > i && !replace then k' - 1 else k', q')
    {
    }
    forall p', k', q' | Ref(mem3, p', k', q')
      ensures Ref(mem2, if p' == rp then p else p', if p' == rp then k' + split else k', q')
    {
    }
  }

  /** A tracked cursor that has been carried so far ends at the node it denoted. */
  lemma CarriedEnds(mem: Store, root: int, mc: Cur, x: int, replace: bool, split: nat, rp: int,
                    mem': Store, root': int, mc': Cur, mn: Cur, t: Cur, t': Cur, u: nat)
    requires |mc'.pg| == |mc.pg| + u && Sides(mem, mc, rp, mem', mc')
    requires CanFinish(mem', root', mc', mn, x, replace, split, rp)
    requires Carried(mem, |mc.pg| - 1, t, mem', root', t', u, rp)
    ensures var top := |mc'.pg| - 1;
      var p, i := mc'.pg[top], mc'.ki[top];
      var mem3, t3 := Finished(mem', p, i, x, replace, split, rp), Final(t', top, p, i, replace, split, mn);
      && Kept(mem, mc, x, replace, t, mem3, root', t3, u)
      && (!replace && t.pg[|mc.pg| - 1] == p && t.ki[|mc.pg| - 1] + 1 == i ==>
            Next(mem3, t3, Moved(mc', top, p, split, mn), top))
  {
    hide Finished, Final, Prepared, Tree, Stands, Denoted, Next, Moved, NewNode, CanFinish;
    var lv, top := |mc.pg| - 1, |mc'.pg| - 1;
    var p, i := mc'.pg[top], mc'.ki[top];
    assert t'.pg[top] == t'.pg[lv + u..][0] == t.pg[lv] && t'.ki[top] == t'.ki[lv + u..][0] == t.ki[lv];
    FinalStands(mem', root', mc', mn, x, replace, split, rp, t');
    assert t'.pg[top + 1..] == t'.pg[lv + u..][1..] == t.pg[lv + 1..];
    assert t'.ki[top + 1..] == t'.ki[lv + u..][1..] == t.ki[lv + 1..];
    if !replace && t.pg[lv] == p && t.ki[lv] + 1 == i {
      NextKept(mem', root', mc', mn, x, split, rp, t');
    }
  }

  /** How carried comes from the cursor that the fix-up gets to see: the source's, where a parent
      was split, and otherwise the tracked one as it was. */
  ghost predicate Left(root: int, mc: Cur, t: Cur, t': Cur, carried: Cur, levels: nat, np: int) {
    && |mc.pg| == |mc.ki| > 0
    && if |mc.pg| == 1 then t' == t && carried == Rooted(t, np)
       else if levels == 1 then
         t' == t && carried == Shift(t, |mc.pg| - 2, mc.pg[|mc.pg| - 2], mc.ki[|mc.pg| - 2] + 1)
       else carried == t'
  }

  lemma ReadyPages(mem: Store, root: int, tracked: seq<Cur>, mc: Cur, x: int, replace: bool, plan: seq<Level>, np: int)
    requires Ready(mem, root, tracked, mc, x, replace, plan, np)
    ensures Tree(mem, root) && Stands(mem, root, mc) && |mc.pg| == |mc.ki| && mc.pg[0] == root
    ensures forall j | 0 <= j < |mc.pg| :: mc.pg[j] in mem
    ensures forall i | 0 <= i < |tracked| ::
      Stands(mem, root, tracked[i]) && |tracked[i].pg| == |tracked[i].ki| >= |mc.pg|
    ensures plan[0].right !in mem && np !in mem && plan[0].right != np
    ensures NewNode(mem, root, mc.pg[|mc.pg| - 1], mc.ki[|mc.pg| - 1], x, replace)
    ensures |mc.pg| > 1 ==> 0 <= mc.ki[|mc.pg| - 2] < |mem[mc.pg[|mc.pg| - 2]].nodes|
  {
    PagesIn(mem, root, mc);
    if |mc.pg| > 1 {
      assert Ref(mem, mc.pg[|mc.pg| - 2], mc.ki[|mc.pg| - 2], mc.pg[|mc.pg| - 1]);
    }
  }

  /** The parent can be split in the same way. */
  lemma ReadyAbove(mem: Store, root: int, tracked: seq<Cur>, mc: Cur, x: int, replace: bool, plan: seq<Level>, np: int)
    requires Ready(mem, root, tracked, mc, x, replace, plan, np) && |plan| > 1
    ensures var rp := plan[0].right;
      var mem1 := mem[rp := PageNodes(mem[mc.pg[|mc.pg| - 1]].leaf, [])];
      Ready(mem1, root, tracked + [mc], Parent(mc), rp, false, plan[1..], np)
  {
    var top, rp := |mc.pg| - 1, plan[0].right;
    var page := PageNodes(mem[mc.pg[top]].leaf, []);
    var mem1, up := mem[rp := page], Parent(mc);
    AddPage(mem, root, rp, page);
    PagesIn(mem, root, mc);
    assert Ref(mem, mc.pg[top - 1], mc.ki[top - 1], mc.pg[top]);
    forall j | 0 <= j < top - 1
      ensures Ref(mem1, up.pg[j], up.ki[j], up.pg[j + 1])
    {
      assert Ref(mem, mc.pg[j], mc.ki[j], mc.pg[j + 1]);
    }
    forall j | 0 <= j < |plan| - 1
      ensures 0 < plan[1..][j].split <= NumKeys(mem1, up.pg[|up.pg| - 1 - j])
    {
      assert 0 < plan[j + 1].split <= NumKeys(mem, mc.pg[top - (j + 1)]);
    }
  }

  lemma IsAbove(mem: Store, root: int, tracked: seq<Cur>, mc: Cur, x: int, replace: bool, plan: seq<Level>, np: int,
                mem': Store, root': int, all: seq<Cur>, up: Cur)
    requires Ready(mem, root, tracked, mc, x, replace, plan, np) && |plan| > 1 && |all| == |tracked| + 1
    requires var rp := plan[0].right;
      var mem1 := mem[rp := PageNodes(mem[mc.pg[|mc.pg| - 1]].leaf, [])];
      SplitDone(mem1, root, tracked + [mc], Parent(mc), rp, false, plan[1..], np, mem', root', all, up)
    ensures Above(mem, root, mc, plan[0].right, mem', root', all[|tracked|], up, Up(mc, plan))
    ensures var rp := plan[0].right;
      var mem1 := mem[rp := PageNodes(mem[mc.pg[|mc.pg| - 1]].leaf, [])];
      forall i | 0 <= i < |tracked| :: Kept(mem1, Parent(mc), rp, false, tracked[i], mem', root', all[i], Up(mc, plan))
    ensures root' == (if |plan| == |mc.pg| then np else root)
  {
    var top := |mc.pg| - 1;
    assert Ref(mem, mc.pg[top - 1], mc.ki[top - 1], mc.pg[top]);
    forall i | 0 <= i < |tracked|
      ensures (tracked + [mc])[i] == tracked[i]
    {
    }
    assert (tracked + [mc])[|tracked|] == mc;
  }

  /** The two pages hold the nodes of the one, with the new node among them. */
  ghost predicate Halved(mem: Store, mc: Cur, x: int, replace: bool, plan: seq<Level>, mem': Store) {
    && |mc.pg| == |mc.ki| > 0 && |plan| > 0
    && var p, i := mc.pg[|mc.pg| - 1], mc.ki[|mc.pg| - 1];
       && p in mem && p in mem' && plan[0].right in mem' && plan[0].right != p && plan[0].right !in mem
       && 0 <= i && (if replace then i < |mem[p].nodes| else i <= |mem[p].nodes|)
       && mem'[p].nodes + mem'[plan[0].right].nodes
          == (if replace then mem[p].nodes[i := x] else mem[p].nodes[..i] + [x] + mem[p].nodes[i..])
       && |mem'[p].nodes| == plan[0].split
       && mem'[p].leaf == mem[p].leaf == mem'[plan[0].right].leaf
  }

  lemma FinishedHalved(mem: Store, mc: Cur, x: int, replace: bool, plan: seq<Level>, memA: Store, rootA: int, mcA: Cur,
                       mn: Cur)
    requires |mc.pg| == |mc.ki| > 0 && |plan| > 0 && Sides(mem, mc, plan[0].right, memA, mcA)
    requires CanFinish(memA, rootA, mcA, mn, x, replace, plan[0].split, plan[0].right)
    ensures var top := |mcA.pg| - 1;
      Halved(mem, mc, x, replace, plan,
             Finished(memA, mcA.pg[top], mcA.ki[top], x, replace, plan[0].split, plan[0].right))
  {
  }

  /** The outcome: the acting cursor is at the new node, every tracked cursor is on a path of the
      new tree to the node that it denoted; one that was at the node before the new one is so
      still; and the other pages are left alone. */
  ghost predicate SplitDone(mem: Store, root: int, tracked: seq<Cur>, mc: Cur, x: int, replace: bool, plan: seq<Level>,
                            np: int, mem': Store, root': int, tracked': seq<Cur>, mc': Cur) {
    && |mc.pg| == |mc.ki| > 0 && |tracked'| == |tracked|
    && Tree(mem', root') && root' == (if |plan| == |mc.pg| then np else root)
    && Stands(mem', root', mc') && |mc'.pg| == |mc.pg| + Up(mc, plan) && Denoted(mem', mc') == Some(x)
    && (mc.pg[|mc.pg| - 1] in mem && !mem[mc.pg[|mc.pg| - 1]].leaf ==> !mem'[mc'.pg[|mc'.pg| - 1]].leaf)
    && (forall i | 0 <= i < |tracked| ::
          Kept(mem, mc, x, replace, tracked[i], mem', root', tracked'[i], Up(mc, plan)))
    && (!replace ==> forall i | 0 <= i < |tracked| && JustBefore(tracked[i], mc) ::
          Next(mem', tracked'[i], mc', |mc'.pg| - 1))
    && Frame(mem, root, mc, x, mem') && Halved(mem, mc, x, replace, plan, mem')
  }

  ghost predicate JustBefore(t: Cur, mc: Cur) {
    && |mc.pg| == |mc.ki| > 0 && |t.pg| == |t.ki| >= |mc.pg|
    && t.pg[|mc.pg| - 1] == mc.pg[|mc.pg| - 1] && t.ki[|mc.pg| - 1] + 1 == mc.ki[|mc.pg| - 1]
  }

  /** The source looks whether the left page has changed its parent without mc: not so, where mc
      is one of the tracked cursors. */
  lemma NothingToRepair(mem: Store, root: int, mc: Cur, mn: Cur, rp: int)
    requires Prepared(mem, root, mc, mn, rp)
    ensures var ptop := |mc.pg| - 2; mc.ki[ptop] < NumKeys(mem, mc.pg[ptop])
  {
    assert Ref(mem, mc.pg[|mc.pg| - 2], mc.ki[|mc.pg| - 2], mc.pg[|mc.pg| - 1]);
  }

  /** The first half: a new page rp becomes known to the parents, which may mean to split them or
      to grow a new root.  carried is what becomes of the tracked cursors; where no parent is
      split, the source leaves them to the fix-up. */
  method Separate(mem: Store, root: int, tracked: seq<Cur>, mc: Cur, ghost x: int, ghost replace: bool,
                  plan: seq<Level>, np: int)
    returns (mem': Store, root': int, tracked': seq<Cur>, mc': Cur, mn: Cur, ghost carried: seq<Cur>)
    requires Ready(mem, root, tracked, mc, x, replace, plan, np)
    ensures root' == (if |plan| == |mc.pg| then np else root)
    ensures Prepared(mem', root', mc', mn, plan[0].right) && Sides(mem, mc, plan[0].right, mem', mc')
    ensures Frame(mem, root, mc, plan[0].right, mem') && |mc'.pg| == |mc.pg| + Up(mc, plan)
    ensures |carried| == |tracked'| == |tracked|
    ensures forall i | 0 <= i < |tracked| ::
      Carried(mem, |mc.pg| - 1, tracked[i], mem', root', carried[i], Up(mc, plan), plan[0].right)
    ensures forall i | 0 <= i < |tracked| :: Left(root, mc, tracked[i], tracked'[i], carried[i], |plan|, np)
    ensures |mc.pg| == 1 ==> mc' == Rooted(mc, np)
    ensures |mc.pg| > 1 && |plan| == 1 ==> mc' == mc && mn.pg[|mc.pg| - 2] == mc.pg[|mc.pg| - 2]
    decreases |plan|, 0
  {
    hide Tree, Stands, Denoted, Carried, Prepared, Next, Frame, Sides, NewNode, Parentless, Above, Kept;
    var top := |mc.pg| - 1;
    var rp := plan[0].right;
    ReadyPages(mem, root, tracked, mc, x, replace, plan, np);
    mem' := mem[rp := PageNodes(mem[mc.pg[top]].leaf, [])];
    root', tracked', mc', carried := root, tracked, mc, tracked;
    if top == 0 {
      PrepareRoot(mem, root, mc, rp, np);
      FrameRoot(mem, root, mc, rp, np);
      mem', root', mc' := mem'[np := PageNodes(false, [root])], np, Rooted(mc, np);
      mn := Cur(mc'.pg[1 := rp], mc'.ki[0 := 1][1 := 0]);
      mem' := Insert(mem', np, 1, rp);
      carried := seq(|tracked|, i requires 0 <= i < |tracked| => Rooted(tracked[i], np));
    } else if |plan| == 1 {
      PrepareBeside(mem, root, mc, rp);
      FrameBeside(mem, root, mc, rp);
      mn := Cur(mc.pg[top := rp], mc.ki[top - 1 := mc.ki[top - 1] + 1][top := 0]);
      mem' := Insert(mem', mn.pg[top - 1], mn.ki[top - 1], rp);
      carried := seq(|tracked|, i requires 0 <= i < |tracked| =>
        Shift(tracked[i], top - 1, mc.pg[top - 1], mc.ki[top - 1] + 1));
    } else {
      ReadyAbove(mem, root, tracked, mc, x, replace, plan, np);
      var all, up;
      mem', root', all, up := PageSplit(mem', root, tracked + [mc], Parent(mc), rp, false, plan[1..], np);
      tracked', mc' := all[..|tracked|], all[|tracked|];
      mn := Cur(up.pg + [rp], up.ki + [0]);
      IsAbove(mem, root, tracked, mc, x, replace, plan, np, mem', root', all, up);
      PrepareAbove(mem, root, mc, rp, mem', root', mc', up, Up(mc, plan));
      NothingToRepair(mem', root', mc', mn, rp);
      FrameAbove(mem, root, mc, rp, mem', root', mc', up, Up(mc, plan));
      forall i | 0 <= i < |tracked|
        ensures Carried(mem, top, tracked[i], mem', root', tracked'[i], Up(mc, plan), rp)
      {
        assert (tracked + [mc])[i] == tracked[i];
        CarriedAbove(mem, root, mc, rp, mem', root', mc', up, Up(mc, plan), tracked[i], tracked'[i]);
      }
      carried := tracked';
    }
  }

  /** The cursors before the fix-up: what the two halves of mdb_page_split know of them. */
  ghost predicate Halfway(mem: Store, root: int, mc: Cur, x: int, replace: bool, plan: seq<Level>, np: int,
                          memA: Store, rootA: int, mcA: Cur, mn: Cur) {
    && |mc.pg| == |mc.ki| && 1 <= |plan| <= |mc.pg| && Tree(mem, root) && Stands(mem, root, mc)
    && CanFinish(memA, rootA, mcA, mn, x, replace, plan[0].split, plan[0].right)
    && Sides(mem, mc, plan[0].right, memA, mcA) && |mcA.pg| == |mc.pg| + Up(mc, plan)
    && Frame(mem, root, mc, plan[0].right, memA) && rootA == (if |plan| == |mc.pg| then np else root)
    && (|mc.pg| == 1 ==> mcA == Rooted(mc, np))
    && (|mc.pg| > 1 && |plan| == 1 ==> mcA == mc && mn.pg[|mc.pg| - 2] == mc.pg[|mc.pg| - 2])
  }

  lemma IsHalfway(mem: Store, root: int, tracked: seq<Cur>, mc: Cur, x: int, replace: bool, plan: seq<Level>, np: int,
                  memA: Store, rootA: int, mcA: Cur, mn: Cur)
    requires Ready(mem, root, tracked, mc, x, replace, plan, np)
    requires rootA == (if |plan| == |mc.pg| then np else root)
    requires Prepared(memA, rootA, mcA, mn, plan[0].right) && Sides(mem, mc, plan[0].right, memA, mcA)
    requires Frame(mem, root, mc, plan[0].right, memA) && |mcA.pg| == |mc.pg| + Up(mc, plan)
    requires |mc.pg| == 1 ==> mcA == Rooted(mc, np)
    requires |mc.pg| > 1 && |plan| == 1 ==> mcA == mc && mn.pg[|mc.pg| - 2] == mc.pg[|mc.pg| - 2]
    ensures Halfway(mem, root, mc, x, replace, plan, np, memA, rootA, mcA, mn)
  {
    hide Tree, Stands, Frame, Prepared;
    ReadyPages(mem, root, tracked, mc, x, replace, plan, np);
    NowFinish(mem, root, mc, x, replace, plan[0].split, plan[0].right, memA, rootA, mcA, mn);
  }

  /** The page that is split, the index of the new node, and the level now. */
  lemma HalfwayHas(mem: Store, root: int, mc: Cur, x: int, replace: bool, plan: seq<Level>, np: int,
                   memA: Store, rootA: int, mcA: Cur, mn: Cur)
    requires Halfway(mem, root, mc, x, replace, plan, np, memA, rootA, mcA, mn)
    ensures var top, lv := |mcA.pg| - 1, |mc.pg| - 1;
      && 2 <= |mcA.pg| == |mcA.ki| == |mn.pg| == |mn.ki| && |plan| >= 1 && |mc.ki| == |mc.pg| >= 1
      && mcA.pg[top] == mc.pg[lv] && mcA.ki[top] == mc.ki[lv] && mc.pg[lv] in memA && mc.ki[lv] >= 0
      && (if replace then mc.ki[lv] < |memA[mc.pg[lv]].nodes| else mc.ki[lv] <= |memA[mc.pg[lv]].nodes|)
      && plan[0].split <= |memA[mc.pg[lv]].nodes|
  {
  }

  /** What the fix-up makes of a tracked cursor. */
  lemma OneFixed(mem: Store, root: int, mc: Cur, x: int, replace: bool, plan: seq<Level>, np: int,
                 memA: Store, rootA: int, mcA: Cur, mn: Cur, memF: Store, t: Cur, t': Cur, carried: Cur)
    requires Halfway(mem, root, mc, x, replace, plan, np, memA, rootA, mcA, mn)
    requires Stands(mem, root, t) && |t.pg| >= |mc.pg| && Left(root, mc, t, t', carried, |plan|, np)
    requires |carried.pg| == |carried.ki| == |t.pg| + Up(mc, plan)
    requires 2 <= |mcA.pg| == |mcA.ki| == |mn.pg| == |mn.ki|
    ensures var lv := |mc.pg| - 1;
      var fix := Fix(lv == 0, |plan| > 1, replace, mc.ki[lv], plan[0].split, mc.pg[lv],
                     Acted(memF, mcA, mn, plan[0].split), mn);
      && FixOk(fix, t')
      && FixUp(t', fix) == Final(carried, |mcA.pg| - 1, mc.pg[lv], mc.ki[lv], replace, plan[0].split, mn)
  {
    hide Final, FixUp, Tree, Stands, CanFinish, Frame;
    var lv := |mc.pg| - 1;
    var fix := Fix(lv == 0, |plan| > 1, replace, mc.ki[lv], plan[0].split, mc.pg[lv],
                   Acted(memF, mcA, mn, plan[0].split), mn);
    StandsSizes(mem, root, t);
    StandsSizes(mem, root, mc);
    FromRoot(memA, rootA, mcA, mn, x, replace, plan[0].split, plan[0].right);
    if lv == 0 {
      FixUpRoot(mem, root, np, fix, t);
    } else if |plan| == 1 {
      FixUpBeside(mem, root, mc, fix, t);
    } else {
      FixUpBelow(fix, t');
    }
  }

  lemma FromRoot(mem: Store, root: int, mc: Cur, mn: Cur, x: int, replace: bool, split: nat, rp: int)
    requires CanFinish(mem, root, mc, mn, x, replace, split, rp)
    ensures mc.pg[0] == root == mn.pg[0]
  {
  }

  lemma StandsSizes(mem: Store, root: int, c: Cur)
    requires Stands(mem, root, c)
    ensures |c.pg| == |c.ki| >= 1 && c.pg[0] == root
  {
  }

  lemma AllSplit(mem: Store, root: int, tracked: seq<Cur>, mc: Cur, x: int, replace: bool, plan: seq<Level>, np: int,
                 memA: Store, rootA: int, mcA: Cur, mn: Cur, carried: seq<Cur>, tracked': seq<Cur>)
    requires Halfway(mem, root, mc, x, replace, plan, np, memA, rootA, mcA, mn)
    requires |tracked'| == |carried| == |tracked|
    requires forall i | 0 <= i < |tracked| ::
      Carried(mem, |mc.pg| - 1, tracked[i], memA, rootA, carried[i], Up(mc, plan), plan[0].right)
    requires forall i | 0 <= i < |tracked| ::
      tracked'[i] == Final(carried[i], |mcA.pg| - 1, mc.pg[|mc.pg| - 1], mc.ki[|mc.pg| - 1], replace, plan[0].split, mn)
    requires 2 <= |mcA.pg| == |mcA.ki| == |mn.pg| == |mn.ki|
    ensures var lv, rp, split := |mc.pg| - 1, plan[0].right, plan[0].split;
      && mc.pg[lv] in memA && mc.ki[lv] >= 0 && split <= |memA[mc.pg[lv]].nodes|
      && (if replace then mc.ki[lv] < |memA[mc.pg[lv]].nodes| else mc.ki[lv] <= |memA[mc.pg[lv]].nodes|)
      && var memF := Finished(memA, mc.pg[lv], mc.ki[lv], x, replace, split, rp);
         SplitDone(mem, root, tracked, mc, x, replace, plan, np, memF, rootA, tracked', Acted(memF, mcA, mn, split))
  {
    hide Tree, Stands, Denoted, Carried, Prepared, Next, Frame, NewNode, Kept, CanFinish, Finished, Final, Acted,
      Halved;
    var lv, rp, split := |mc.pg| - 1, plan[0].right, plan[0].split;
    HalfwayHas(mem, root, mc, x, replace, plan, np, memA, rootA, mcA, mn);
    var memF := Finished(memA, mc.pg[lv], mc.ki[lv], x, replace, split, rp);
    FinishedTree(memA, rootA, mcA, mn, x, replace, split, rp);
    FinishedHalved(mem, mc, x, replace, plan, memA, rootA, mcA, mn);
    ActedMoved(memA, rootA, mcA, mn, x, replace, split, rp);
    ActingStands(memA, rootA, mcA, mn, x, replace, split, rp);
    FrameEnds(mem, root, mc, x, replace, split, rp, memA, rootA, mcA, mn);
    forall i | 0 <= i < |tracked|
      ensures Kept(mem, mc, x, replace, tracked[i], memF, rootA, tracked'[i], Up(mc, plan))
      ensures !replace && JustBefore(tracked[i], mc) ==>
        Next(memF, tracked'[i], Acted(memF, mcA, mn, split), |mcA.pg| - 1)
    {
      CarriedEnds(mem, root, mc, x, replace, split, rp, memA, rootA, mcA, mn, tracked[i], carried[i], Up(mc, plan));
    }
  }

  /** mdb_page_split, as far as cursors are concerned. */
  method PageSplit(mem: Store, root: int, tracked: seq<Cur>, mc: Cur, x: int, replace: bool, plan: seq<Level>, np: int)
    returns (mem': Store, root': int, tracked': seq<Cur>, mc': Cur)
    requires Ready(mem, root, tracked, mc, x, replace, plan, np)
    ensures SplitDone(mem, root, tracked, mc, x, replace, plan, np, mem', root', tracked', mc')
    decreases |plan|, 1
  {
    hide Tree, Stands, Denoted, Carried, Prepared, Next, Frame, NewNode, Parentless, Kept, CanFinish, Left,
      Finished, Final, Moved, Acted, FixUp, Above, JustBefore, SplitDone, Halfway;
    ReadyPages(mem, root, tracked, mc, x, replace, plan, np);
    var lv := |mc.pg| - 1;
    var mp, newindx, rp, split := mc.pg[lv], mc.ki[lv], plan[0].right, plan[0].split;
    var mn;
    ghost var carried;
    mem', root', tracked', mc', mn, carried := Separate(mem, root, tracked, mc, x, replace, plan, np);
    IsHalfway(mem, root, tracked, mc, x, replace, plan, np, mem', root', mc', mn);
    HalfwayHas(mem, root, mc, x, replace, plan, np, mem', root', mc', mn);
    ghost var memA, mcA, before := mem', mc', tracked';
    mem' := Finished(mem', mp, newindx, x, replace, split, rp);
    mc' := Acted(mem', mc', mn, split);
    var fix := Fix(lv == 0, |plan| > 1, replace, newindx, split, mp, mc', mn);
    var i := 0;
    while i < |tracked'|
      invariant 0 <= i <= |tracked'| == |tracked|
      invariant forall k | i <= k < |tracked| :: tracked'[k] == before[k]
      invariant forall k | 0 <= k < i ::
        tracked'[k] == Final(carried[k], |mcA.pg| - 1, mp, newindx, replace, split, mn)
    {
      CarriedSizes(mem, lv, tracked[i], memA, root', carried[i], Up(mc, plan), rp);
      OneFixed(mem, root, mc, x, replace, plan, np, memA, root', mcA, mn, mem', tracked[i], before[i], carried[i]);
      tracked' := tracked'[i := FixUp(tracked'[i], fix)];
      i := i + 1;
    }
    AllSplit(mem, root, tracked, mc, x, replace, plan, np, memA, root', mcA, mn, carried, tracked');
  }

  lemma CarriedSizes(mem: Store, lv: nat, t: Cur, mem': Store, root': int, t': Cur, up: nat, rp: int)
    requires Carried(mem, lv, t, mem', root', t', up, rp)
    ensures |t'.pg| == |t'.ki| == |t.pg| + up
  {
  }
}
