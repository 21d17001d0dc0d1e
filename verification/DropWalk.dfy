/** Emptying a database: its pages go to the list of freed pages, level by level. */
module DropWalk {
  import opened Wrappers
  import opened PageTree

  // ------------------------------------------------------------ what there is to free

  /** All leaves are equally far down; subs: the databases recorded in it, if any, are databases
      of duplicates. */
  predicate Even(t: Tree, d: nat, subs: bool)
    decreases t
  {
    match t
    case Leaf(_, items) =>
      d == 0 && forall i :: 0 <= i < |items| ==> ItemEven(items[i], subs)
    case Branch(_, _, kids) =>
      d > 0 && kids != [] && forall i :: 0 <= i < |kids| ==> Even(kids[i], d - 1, subs)
  }

  predicate ItemEven(x: Item, subs: bool)
    decreases x
  {
    subs && x.Sub? && x.db.Some? ==> x.dup && Even(x.db.value, Depth(x.db.value), false)
  }

  function Depth(t: Tree): nat
    decreases t
  {
    if t.Leaf? || t.kids == [] then 0 else 1 + Depth(t.kids[0])
  }

  /** The pages of a database: those of its tree, its overflow runs, and the databases of
      duplicates if there are any.  Named databases recorded in it are not its own. */
  function Own(t: Tree, subs: bool): seq<int>
    decreases t
  {
    (match t case Leaf(_, items) => ItemsOwn(items, subs) case Branch(_, _, kids) => KidsOwn(kids, subs)) + [t.pgno]
  }

  function KidsOwn(kids: seq<Tree>, subs: bool): seq<int>
    decreases kids
  {
    if kids == [] then [] else KidsOwn(kids[..|kids| - 1], subs) + Own(kids[|kids| - 1], subs)
  }

  function ItemsOwn(items: seq<Item>, subs: bool): seq<int>
    decreases items
  {
    if items == [] then [] else ItemsOwn(items[..|items| - 1], subs) + ItemOwn(items[|items| - 1], subs)
  }

  function ItemOwn(x: Item, subs: bool): seq<int>
    decreases x
  {
    match x
    case Plain(_, _) => []
    case Big(_, run, pages, _) => Range(run, if pages >= 0 then pages else 0)
    case Sub(_, db, _, _) => if subs && db.Some? then Own(db.value, false) else []
  }

  // ------------------------------------------------------------ what is left behind

  /** The pages of the databases that are recorded in this one under a name. */
  function Named(t: Tree): seq<int>
    decreases t
  {
    match t case Leaf(_, items) => ItemsNamed(items) case Branch(_, _, kids) => KidsNamed(kids)
  }

  function KidsNamed(kids: seq<Tree>): seq<int>
    decreases kids
  {
    if kids == [] then [] else KidsNamed(kids[..|kids| - 1]) + Named(kids[|kids| - 1])
  }

  function ItemsNamed(items: seq<Item>): seq<int>
    decreases items
  {
    if items == [] then []
    else
      var x := items[|items| - 1];
      ItemsNamed(items[..|items| - 1]) + if x.Sub? && x.db.Some? then PageList(x.db.value) else []
  }

  lemma Join(a: seq<int>, b: seq<int>, c: seq<int>, a': seq<int>, b': seq<int>, c': seq<int>)
    requires multiset(a) == multiset(b) + multiset(c) && multiset(a') == multiset(b') + multiset(c')
    ensures multiset(a + a') == multiset(b + b') + multiset(c + c')
  {
  }

  /** Without a search for databases of duplicates, exactly the pages of the named databases
      stay: a database that records no other is freed whole. */
  lemma {:induction false} LeftBehind(t: Tree)
    ensures multiset(PageList(t)) == multiset(Own(t, false)) + multiset(Named(t))
    ensures multiset(Own(t, false)) == multiset(PageList(t)) <==> Named(t) == []
    decreases t
  {
    if t.Leaf? {
      ItemsLeft(t.items);
    } else {
      KidsLeft(t.kids);
    }
    PartsLeft(t);
    assert |multiset(PageList(t))| == |multiset(Own(t, false))| + |multiset(Named(t))|;
  }

  lemma PartsLeft(t: Tree)
    requires t.Leaf? ==> multiset(ItemsPages(t.items)) == multiset(ItemsOwn(t.items, false)) + multiset(ItemsNamed(t.items))
    requires t.Branch? ==> multiset(KidsPages(t.kids)) == multiset(KidsOwn(t.kids, false)) + multiset(KidsNamed(t.kids))
    ensures multiset(PageList(t)) == multiset(Own(t, false)) + multiset(Named(t))
  {
    if t.Leaf? {
      Join(ItemsPages(t.items), ItemsOwn(t.items, false), ItemsNamed(t.items), [t.pgno], [t.pgno], []);
      assert ItemsNamed(t.items) + [] == ItemsNamed(t.items);
    } else {
      Join(KidsPages(t.kids), KidsOwn(t.kids, false), KidsNamed(t.kids), [t.pgno], [t.pgno], []);
      assert KidsNamed(t.kids) + [] == KidsNamed(t.kids);
    }
  }

  lemma {:induction false} KidsLeft(kids: seq<Tree>)
    ensures multiset(KidsPages(kids)) == multiset(KidsOwn(kids, false)) + multiset(KidsNamed(kids))
    decreases kids
  {
    hide PageList, Own, Named;
    if kids != [] {
      var n := |kids| - 1;
      KidsLeft(kids[..n]);
      LeftBehind(kids[n]);
      Join(KidsPages(kids[..n]), KidsOwn(kids[..n], false), KidsNamed(kids[..n]), PageList(kids[n]), Own(kids[n], false), Named(kids[n]));
    }
  }

  lemma {:induction false} ItemsLeft(items: seq<Item>)
    ensures multiset(ItemsPages(items)) == multiset(ItemsOwn(items, false)) + multiset(ItemsNamed(items))
    decreases items
  {
    hide PageList;
    if items != [] {
      var n := |items| - 1;
      var x := items[n];
      ItemsLeft(items[..n]);
      Join(ItemsPages(items[..n]), ItemsOwn(items[..n], false), ItemsNamed(items[..n]), ItemPages(x), ItemOwn(x, false),
           if x.Sub? && x.db.Some? then PageList(x.db.value) else []);
    }
  }

  /** With it, nothing stays. */
  lemma {:induction false} DuplicatesFreed(t: Tree, d: nat, dup: bool)
    requires Ok(t, dup) && Even(t, d, true)
    ensures Own(t, true) == PageList(t)
    decreases t
  {
    if t.Leaf? {
      forall i | 0 <= i < |t.items| ensures ItemOwn(t.items[i], true) == ItemPages(t.items[i]) {
        var x := t.items[i];
        assert ItemOk(x, dup) && ItemEven(x, true);
        if x.Sub? && x.db.Some? {
          PlainFreed(x.db.value);
        }
      }
      SameItems(t.items, true);
    } else {
      forall i | 0 <= i < |t.kids| ensures Own(t.kids[i], true) == PageList(t.kids[i]) {
        DuplicatesFreed(t.kids[i], d - 1, dup);
      }
      SameKids(t.kids, true);
    }
  }

  lemma {:induction false} PlainFreed(t: Tree)
    requires Ok(t, true)
    ensures Own(t, false) == PageList(t)
    decreases t
  {
    if t.Leaf? {
      forall i | 0 <= i < |t.items| ensures ItemOwn(t.items[i], false) == ItemPages(t.items[i]) {
        assert ItemOk(t.items[i], true);
      }
      SameItems(t.items, false);
    } else {
      forall i | 0 <= i < |t.kids| ensures Own(t.kids[i], false) == PageList(t.kids[i]) {
        PlainFreed(t.kids[i]);
      }
      SameKids(t.kids, false);
    }
  }

  lemma {:induction false} SameItems(items: seq<Item>, subs: bool)
    requires forall i | 0 <= i < |items| :: ItemOwn(items[i], subs) == ItemPages(items[i])
    ensures ItemsOwn(items, subs) == ItemsPages(items)
    decreases |items|
  {
    if items != [] {
      SameItems(items[..|items| - 1], subs);
    }
  }

  lemma {:induction false} SameKids(kids: seq<Tree>, subs: bool)
    requires forall i | 0 <= i < |kids| :: Own(kids[i], subs) == PageList(kids[i])
    ensures KidsOwn(kids, subs) == KidsPages(kids)
    decreases |kids|
  {
    if kids != [] {
      SameKids(kids[..|kids| - 1], subs);
    }
  }

  // ------------------------------------------------------------ levels

  function KidsOf(ts: seq<Tree>): seq<Tree> {
    if ts == [] then []
    else
      var n := |ts| - 1;
      KidsOf(ts[..n]) + if ts[n].Branch? then ts[n].kids else []
  }

  /** The pages so far below the root, from left to right. */
  function Level(t: Tree, l: nat): seq<Tree> {
    if l == 0 then [t] else KidsOf(Level(t, l - 1))
  }

  /** What a visit to a page frees: on a leaf what its nodes refer to, else the children. */
  function Visit(t: Tree, subs: bool): seq<int> {
    if t.Leaf? then ItemsOwn(t.items, subs) else Pgnos(t.kids)
  }

  function Visits(ts: seq<Tree>, subs: bool): seq<int> {
    if ts == [] then [] else Visit(ts[0], subs) + Visits(ts[1..], subs)
  }

  /** The pages of the levels down to l. */
  function Upper(t: Tree, l: nat): multiset<int> {
    multiset(Pgnos(Level(t, l))) + if l == 0 then multiset{} else Upper(t, l - 1)
  }

  lemma {:induction false} KidsOfJoin(a: seq<Tree>, b: seq<Tree>)
    ensures KidsOf(a + b) == KidsOf(a) + KidsOf(b)
    decreases |b|
  {
    hide KidsOf;
    if b == [] {
      assert a + b == a;
      NoKids();
    } else {
      var n := |b| - 1;
      KidsOfJoin(a, b[..n]);
      assert (a + b)[..|a| + n] == a + b[..n] && (a + b)[|a| + n] == b[n];
      LastKids(a + b);
      LastKids(b);
    }
  }

  lemma NoKids()
    ensures KidsOf([]) == []
  {
  }

  lemma LastKids(ts: seq<Tree>)
    requires ts != []
    ensures var n := |ts| - 1; KidsOf(ts) == KidsOf(ts[..n]) + if ts[n].Branch? then ts[n].kids else []
  {
  }

  /** A pass over a level of branch pages frees the level below. */
  lemma {:induction false} VisitsOfBranches(ts: seq<Tree>, subs: bool)
    requires forall i | 0 <= i < |ts| :: ts[i].Branch?
    ensures Visits(ts, subs) == Pgnos(KidsOf(ts))
    decreases |ts|
  {
    hide Pgnos;
    if ts != [] {
      VisitsOfBranches(ts[1..], subs);
      FirstBranch(ts, subs);
      PgnosJoin(ts[0].kids, KidsOf(ts[1..]));
    }
  }

  lemma FirstBranch(ts: seq<Tree>, subs: bool)
    requires ts != [] && ts[0].Branch?
    ensures Visits(ts, subs) == Pgnos(ts[0].kids) + Visits(ts[1..], subs)
    ensures KidsOf(ts) == ts[0].kids + KidsOf(ts[1..])
  {
    hide Pgnos;
    KidsOfJoin(ts[..1], ts[1..]);
    assert ts[..1] + ts[1..] == ts && ts[..1] == [ts[0]];
    OneKidsOf(ts[0]);
  }

  lemma OneKidsOf(t: Tree)
    requires t.Branch?
    ensures KidsOf([t]) == t.kids
  {
    assert [t][..0] == [] && KidsOf([]) == [];
  }

  lemma PgnosJoin(a: seq<Tree>, b: seq<Tree>)
    ensures Pgnos(a + b) == Pgnos(a) + Pgnos(b)
  {
  }

  lemma {:induction false} KidsOwnJoin(a: seq<Tree>, b: seq<Tree>, subs: bool)
    ensures KidsOwn(a + b, subs) == KidsOwn(a, subs) + KidsOwn(b, subs)
    decreases |b|
  {
    hide Own;
    if b == [] {
      assert a + b == a;
    } else {
      var n := |b| - 1;
      KidsOwnJoin(a, b[..n], subs);
      assert (a + b)[..|a| + n] == a + b[..n];
    }
  }

  lemma MoreOwn(own: seq<int>, a: seq<int>, b: seq<int>, pgno: seq<int>, x: seq<int>)
    requires multiset(own) == multiset(a) + multiset(b)
    ensures multiset(own + (x + pgno)) == multiset(a + pgno) + multiset(b + x)
    ensures multiset((x + pgno) + own) == multiset(pgno + a) + multiset(x + b)
  {
  }

  /** The trees below a level of branch pages, each taken with its own pages. */
  lemma {:induction false} OwnOfBranches(ts: seq<Tree>, subs: bool)
    requires forall i | 0 <= i < |ts| :: ts[i].Branch?
    ensures multiset(KidsOwn(ts, subs)) == multiset(Pgnos(ts)) + multiset(KidsOwn(KidsOf(ts), subs))
    decreases |ts|
  {
    if ts != [] {
      var n := |ts| - 1;
      OwnOfBranches(ts[..n], subs);
      LastBranch(ts, subs);
      hide *;
      MoreOwn(KidsOwn(ts[..n], subs), Pgnos(ts[..n]), KidsOwn(KidsOf(ts[..n]), subs), [ts[n].pgno], KidsOwn(ts[n].kids, subs));
    }
  }

  lemma LastBranch(ts: seq<Tree>, subs: bool)
    requires ts != [] && ts[|ts| - 1].Branch?
    ensures var n := |ts| - 1;
      && KidsOwn(ts, subs) == KidsOwn(ts[..n], subs) + (KidsOwn(ts[n].kids, subs) + [ts[n].pgno])
      && Pgnos(ts) == Pgnos(ts[..n]) + [ts[n].pgno]
      && KidsOwn(KidsOf(ts), subs) == KidsOwn(KidsOf(ts[..n]), subs) + KidsOwn(ts[n].kids, subs)
  {
    var n := |ts| - 1;
    KidsOwnJoin(KidsOf(ts[..n]), ts[n].kids, subs);
  }

  lemma {:induction false} OwnOfLeaves(ts: seq<Tree>, subs: bool)
    requires forall i | 0 <= i < |ts| :: ts[i].Leaf?
    ensures multiset(KidsOwn(ts, subs)) == multiset(Pgnos(ts)) + multiset(Visits(ts, subs))
    decreases |ts|
  {
    if ts != [] {
      OwnOfLeaves(ts[1..], subs);
      FirstLeafOwn(ts, subs);
      hide *;
      MoreOwn(KidsOwn(ts[1..], subs), Pgnos(ts[1..]), Visits(ts[1..], subs), [ts[0].pgno], ItemsOwn(ts[0].items, subs));
    }
  }

  lemma FirstLeafOwn(ts: seq<Tree>, subs: bool)
    requires ts != [] && ts[0].Leaf?
    ensures KidsOwn(ts, subs) == (ItemsOwn(ts[0].items, subs) + [ts[0].pgno]) + KidsOwn(ts[1..], subs)
    ensures Pgnos(ts) == [ts[0].pgno] + Pgnos(ts[1..])
    ensures Visits(ts, subs) == ItemsOwn(ts[0].items, subs) + Visits(ts[1..], subs)
  {
    hide ItemsOwn, Own, KidsOwn;
    KidsOwnJoin(ts[..1], ts[1..], subs);
    assert ts[..1] + ts[1..] == ts && ts[..1] == [ts[0]];
    OneLeafOwn(ts[0], subs);
  }

  lemma OneLeafOwn(t: Tree, subs: bool)
    requires t.Leaf?
    ensures KidsOwn([t], subs) == ItemsOwn(t.items, subs) + [t.pgno]
  {
    assert [t][..0] == [] && KidsOwn([], subs) == [];
  }

  /** A level holds branch pages above the leaves, all as the tree is. */
  lemma {:induction false} LevelEven(t: Tree, d: nat, l: nat, dup: bool, subs: bool)
    requires Even(t, d, subs) && Ok(t, dup) && l <= d
    ensures forall i | 0 <= i < |Level(t, l)| ::
      Even(Level(t, l)[i], d - l, subs) && Ok(Level(t, l)[i], dup) && Count(Level(t, l)[i]) <= Count(t)
    ensures |Level(t, l)| > 0
  {
    if l > 0 {
      LevelEven(t, d, l - 1, dup, subs);
      KidsOfEven(Level(t, l - 1), d - l + 1, dup, subs, Count(t));
    }
  }

  lemma {:induction false} KidsOfEven(ts: seq<Tree>, d: nat, dup: bool, subs: bool, n: nat)
    requires d > 0 && forall i | 0 <= i < |ts| :: Even(ts[i], d, subs) && Ok(ts[i], dup) && Count(ts[i]) <= n
    ensures forall i | 0 <= i < |KidsOf(ts)| :: Even(KidsOf(ts)[i], d - 1, subs) && Ok(KidsOf(ts)[i], dup) && Count(KidsOf(ts)[i]) <= n
    ensures |ts| > 0 ==> |KidsOf(ts)| > 0
    decreases |ts|
  {
    if ts != [] {
      var m := |ts| - 1;
      KidsOfEven(ts[..m], d, dup, subs, n);
      assert Even(ts[m], d, subs) && Ok(ts[m], dup);
      forall i | 0 <= i < |ts[m].kids| ensures Count(ts[m].kids[i]) <= n {
        KidCount(ts[m].kids, i);
      }
    }
  }

  /** All there is to free: the levels, and what the leaves refer to. */
  lemma {:induction false} OwnByLevel(t: Tree, d: nat, l: nat, dup: bool, subs: bool)
    requires Even(t, d, subs) && Ok(t, dup) && l <= d
    ensures l == 0 ==> Own(t, subs) == KidsOwn(Level(t, 0), subs)
    ensures l > 0 ==> multiset(Own(t, subs)) == Upper(t, l - 1) + multiset(KidsOwn(Level(t, l), subs))
  {
    hide Own, KidsOwn, Pgnos, KidsOf, Even, Ok, Level;
    OwnAtRoot(t, subs);
    if l > 0 {
      OwnByLevel(t, d, l - 1, dup, subs);
      LevelDown(t, d, l - 1, dup, subs);
      if l > 1 {
        Shuffle(Upper(t, l - 2), multiset(Pgnos(Level(t, l - 1))), multiset(KidsOwn(Level(t, l), subs)));
      }
    }
  }

  lemma Shuffle(a: multiset<int>, b: multiset<int>, c: multiset<int>)
    ensures a + (b + c) == (b + a) + c == (a + b) + c
  {
  }

  lemma OwnAtRoot(t: Tree, subs: bool)
    ensures Own(t, subs) == KidsOwn(Level(t, 0), subs)
  {
    assert KidsOwn([t], subs) == KidsOwn([], subs) + Own(t, subs);
  }

  lemma LevelDown(t: Tree, d: nat, l: nat, dup: bool, subs: bool)
    requires Even(t, d, subs) && Ok(t, dup) && l < d
    ensures multiset(KidsOwn(Level(t, l), subs)) == multiset(Pgnos(Level(t, l))) + multiset(KidsOwn(Level(t, l + 1), subs))
  {
    LevelEven(t, d, l, dup, subs);
    OwnOfBranches(Level(t, l), subs);
  }

  lemma OwnIs(t: Tree, d: nat, dup: bool, subs: bool)
    requires Even(t, d, subs) && Ok(t, dup)
    ensures multiset(Own(t, subs)) == Upper(t, d) + multiset(Visits(Level(t, d), subs))
  {
    OwnByLevel(t, d, d, dup, subs);
    LevelEven(t, d, d, dup, subs);
    OwnOfLeaves(Level(t, d), subs);
    hide Own, KidsOwn, Pgnos, KidsOf, Even, Ok, Visits, Level;
  }

  // ------------------------------------------------------------ overflow pages

  function ItemsOver(items: seq<Item>): nat {
    if items == [] then 0
    else
      var x := items[|items| - 1];
      ItemsOver(items[..|items| - 1]) + if x.Big? && x.pages >= 0 then x.pages else 0
  }

  function Over(ts: seq<Tree>): nat {
    if ts == [] then 0 else (if ts[0].Leaf? then ItemsOver(ts[0].items) else 0) + Over(ts[1..])
  }

  /** md_overflow_pages: the overflow pages that the leaves refer to. */
  function OverflowPages(t: Tree): nat {
    Over(Level(t, Depth(t)))
  }

  lemma {:induction false} NoOver(items: seq<Item>)
    requires ItemsOver(items) == 0 && forall i | 0 <= i < |items| :: items[i].Big? ==> items[i].pages >= 1
    ensures ItemsOwn(items, false) == []
    decreases |items|
  {
    if items != [] {
      NoOver(items[..|items| - 1]);
    }
  }

  /** No overflow page and no database of duplicates: the leaves need not be visited. */
  lemma {:induction false} NoVisits(ts: seq<Tree>, dup: bool)
    requires Over(ts) == 0 && forall i | 0 <= i < |ts| :: ts[i].Leaf? && Ok(ts[i], dup)
    ensures Visits(ts, false) == []
    decreases |ts|
  {
    if ts != [] {
      NoVisits(ts[1..], dup);
      assert forall i | 0 <= i < |ts[0].items| :: ItemOk(ts[0].items[i], dup);
      NoOver(ts[0].items);
    }
  }

  lemma {:induction false} PlainOver(items: seq<Item>)
    requires forall i | 0 <= i < |items| :: ItemOk(items[i], true)
    ensures ItemsOver(items) == 0
    decreases |items|
  {
    if items != [] {
      PlainOver(items[..|items| - 1]);
      assert ItemOk(items[|items| - 1], true);
    }
  }

  lemma {:induction false} DupOver(ts: seq<Tree>)
    requires forall i | 0 <= i < |ts| :: ts[i].Leaf? && Ok(ts[i], true)
    ensures Over(ts) == 0
    decreases |ts|
  {
    if ts != [] {
      DupOver(ts[1..]);
      PlainOver(ts[0].items);
    }
  }

  // ------------------------------------------------------------ the cursor

  /** The pages from the root down to the current one; ki tells the child taken in each, pos
      where each stands in its level. */
  ghost predicate On(t: Tree, pg: seq<Tree>, ki: seq<int>, pos: seq<int>)
    decreases |ki|
  {
    var n := |ki|;
    && |pg| == |pos| == n + 1
    && 0 <= pos[n] < |Level(t, n)| && pg[n] == Level(t, n)[pos[n]]
    && if n == 0 then true
       else
         && On(t, pg[..n], ki[..n - 1], pos[..n])
         && pg[n - 1].Branch? && 0 <= ki[n - 1] < |pg[n - 1].kids| && pg[n] == pg[n - 1].kids[ki[n - 1]]
         && pos[n] == |KidsOf(Level(t, n - 1)[..pos[n - 1]])| + ki[n - 1]
  }

  /** The children of a page in the level below. */
  lemma {:induction false} KidsOfAt(ts: seq<Tree>, j: nat, k: nat)
    requires j < |ts| && ts[j].Branch? && k < |ts[j].kids|
    ensures |KidsOf(ts[..j])| + k < |KidsOf(ts)| && KidsOf(ts)[|KidsOf(ts[..j])| + k] == ts[j].kids[k]
    ensures |KidsOf(ts[..j + 1])| == |KidsOf(ts[..j])| + |ts[j].kids| <= |KidsOf(ts)|
  {
    var n := |ts| - 1;
    assert ts[..j + 1][..j] == ts[..j];
    if j < n {
      KidsOfAt(ts[..n], j, k);
      assert ts[..n][..j] == ts[..j] && ts[..n][..j + 1] == ts[..j + 1];
    } else {
      assert ts[..j + 1] == ts;
    }
  }

  /** Down to child k. */
  lemma PushOn(t: Tree, pg: seq<Tree>, ki: seq<int>, pos: seq<int>, k: nat)
    requires On(t, pg, ki, pos)
    requires pg[|ki|].Branch? && k < |pg[|ki|].kids|
    ensures On(t, pg + [pg[|ki|].kids[k]], ki + [k], pos + [|KidsOf(Level(t, |ki|)[..pos[|ki|]])| + k])
  {
    hide KidsOf, Level;
    var n := |ki|;
    LevelBelow(t, n, pos[n], k);
    var p := |KidsOf(Level(t, n)[..pos[n]])| + k;
    assert (pg + [pg[n].kids[k]])[n] == pg[n];
    assert (pg + [pg[n].kids[k]])[..n + 1] == pg && (ki + [k])[..n] == ki && (pos + [p])[..n + 1] == pos;
  }

  lemma PopOn(t: Tree, pg: seq<Tree>, ki: seq<int>, pos: seq<int>)
    requires On(t, pg, ki, pos) && ki != []
    ensures var n := |ki| - 1;
      && On(t, pg[..n + 1], ki[..n], pos[..n + 1])
      && pg[n].Branch? && 0 <= ki[n] < |pg[n].kids|
      && pos[n + 1] == |KidsOf(Level(t, n)[..pos[n]])| + ki[n] && 0 <= pos[n] < |Level(t, n)|
      && |KidsOf(Level(t, n)[..pos[n] + 1])| == |KidsOf(Level(t, n)[..pos[n]])| + |pg[n].kids|
      && (pos[n] + 1 == |Level(t, n)| ==> |KidsOf(Level(t, n)[..pos[n] + 1])| == |Level(t, n + 1)|)
  {
    hide KidsOf, Level;
    var n := |ki| - 1;
    LevelBelow(t, n, pos[n], ki[n]);
  }

  lemma LevelBelow(t: Tree, n: nat, j: nat, k: nat)
    requires j < |Level(t, n)| && Level(t, n)[j].Branch? && k < |Level(t, n)[j].kids|
    ensures var p := |KidsOf(Level(t, n)[..j])| + k;
      p < |Level(t, n + 1)| && Level(t, n + 1)[p] == Level(t, n)[j].kids[k]
    ensures |KidsOf(Level(t, n)[..j + 1])| == |KidsOf(Level(t, n)[..j])| + |Level(t, n)[j].kids|
    ensures j + 1 == |Level(t, n)| ==> |KidsOf(Level(t, n)[..j + 1])| == |Level(t, n + 1)|
  {
    KidsOfAt(Level(t, n), j, k);
    assert Level(t, n)[..|Level(t, n)|] == Level(t, n);
  }

  /** mdb_cursor_sibling to the right: the next page of the level, unless this is the last. */
  method Sibling(pg: seq<Tree>, ki: seq<int>, ghost t: Tree, ghost d: nat, ghost dup: bool, ghost subs: bool,
                 ghost pos: seq<int>)
    returns (ok: bool, pg': seq<Tree>, ki': seq<int>, ghost pos': seq<int>)
    requires On(t, pg, ki, pos) && Even(t, d, subs) && Ok(t, dup) && |ki| <= d
    ensures ok ==> On(t, pg', ki', pos') && |ki'| == |ki| && pos'[|ki|] == pos[|ki|] + 1
    ensures !ok ==> pos[|ki|] == |Level(t, |ki|)| - 1
    decreases |ki|
  {
    hide On, KidsOf, Even, Ok;
    OnSizes(t, pg, ki, pos);
    if |ki| == 0 {
      return false, pg, ki, pos;
    }
    var n := |ki| - 1;
    PopOn(t, pg, ki, pos);
    var x := ki[n] + 1;
    pg', ki', pos' := pg[..n + 1], ki[..n], pos[..n + 1];
    if x >= |pg[n].kids| {
      ok, pg', ki', pos' := Sibling(pg', ki', t, d, dup, subs, pos');
      if !ok {
        return;
      }
      x := 0;
    }
    OnSizes(t, pg', ki', pos');
    HasKids(t, d, dup, subs, n, pos'[n]);
    PushOn(t, pg', ki', pos', x);
    pos' := pos' + [|KidsOf(Level(t, n)[..pos'[n]])| + x];
    pg', ki', ok := pg' + [pg'[n].kids[x]], ki' + [x], true;
  }

  lemma OnSizes(t: Tree, pg: seq<Tree>, ki: seq<int>, pos: seq<int>)
    requires On(t, pg, ki, pos)
    ensures |pg| == |pos| == |ki| + 1 && 0 <= pos[|ki|] < |Level(t, |ki|)| && pg[|ki|] == Level(t, |ki|)[pos[|ki|]]
    ensures ki == [] ==> Level(t, 0) == [t] && pos == [0]
  {
  }

  lemma HasKids(t: Tree, d: nat, dup: bool, subs: bool, l: nat, j: nat)
    requires Even(t, d, subs) && Ok(t, dup) && l < d && j < |Level(t, l)|
    ensures Level(t, l)[j].Branch? && Level(t, l)[j].kids != []
  {
    LevelEven(t, d, l, dup, subs);
    assert Even(Level(t, l)[j], d - l, subs);
  }

  /** The cursor on the first page of a level. */
  method Leftmost(t: Tree, l: nat, ghost d: nat, ghost dup: bool, ghost subs: bool)
    returns (pg: seq<Tree>, ki: seq<int>, ghost pos: seq<int>)
    requires Even(t, d, subs) && Ok(t, dup) && l <= d
    ensures On(t, pg, ki, pos) && |ki| == l && |pos| == l + 1 && forall k | 0 <= k <= l :: pos[k] == 0
  {
    pg, ki, pos := [t], [], [0];
    for i := 0 to l
      invariant On(t, pg, ki, pos) && |ki| == i && |pg| == |pos| == i + 1
      invariant forall k | 0 <= k <= i :: pos[k] == 0
    {
      OnSizes(t, pg, ki, pos);
      HasKids(t, d, dup, subs, i, 0);
      PushOn(t, pg, ki, pos, 0);
      hide On;
      pg, ki, pos := pg + [pg[i].kids[0]], ki + [0], pos + [0];
    }
  }

  // ------------------------------------------------------------ what remains to be done

  /** freed is what has been freed of all that there is, the visits to the pages before page j of
      level l included. */
  ghost predicate Todo(t: Tree, subs: bool, all: multiset<int>, freed: multiset<int>, l: nat, j: nat)
  {
    j <= |Level(t, l)| && freed + multiset(Visits(Level(t, l)[j..], subs)) + Upper(t, l) == all
  }

  lemma TodoVisit(t: Tree, subs: bool, all: multiset<int>, freed: multiset<int>, l: nat, j: nat)
    requires Todo(t, subs, all, freed, l, j) && j < |Level(t, l)|
    ensures Todo(t, subs, all, freed + multiset(Visit(Level(t, l)[j], subs)), l, j + 1)
  {
    var ts := Level(t, l)[j..];
    assert ts[0] == Level(t, l)[j] && ts[1..] == Level(t, l)[j + 1..];
    assert Visits(ts, subs) == Visit(ts[0], subs) + Visits(ts[1..], subs);
    hide Visits, Visit, Upper, Level;
  }

  lemma TodoUp(t: Tree, d: nat, dup: bool, subs: bool, all: multiset<int>, freed: multiset<int>, l: nat, j: nat)
    requires Todo(t, subs, all, freed, l, j) && Visits(Level(t, l)[j..], subs) == []
    requires Even(t, d, subs) && Ok(t, dup) && l <= d
    ensures l > 0 ==> Todo(t, subs, all, freed, l - 1, 0)
    ensures l == 0 ==> freed + multiset{t.pgno} == all
  {
    hide Visits, Visit, Even, Ok, Upper, Pgnos, Level;
    if l > 0 {
      UpperIs(t, d, dup, subs, l);
      assert Level(t, l - 1)[0..] == Level(t, l - 1);
      Shuffle(freed, multiset(Visits(Level(t, l - 1), subs)), Upper(t, l - 1));
    } else {
      UpperRoot(t);
    }
  }

  lemma UpperRoot(t: Tree)
    ensures Upper(t, 0) == multiset{t.pgno}
  {
    assert Pgnos(Level(t, 0)) == [t.pgno];
  }

  lemma UpperIs(t: Tree, d: nat, dup: bool, subs: bool, l: nat)
    requires Even(t, d, subs) && Ok(t, dup) && 0 < l <= d
    ensures Upper(t, l) == multiset(Visits(Level(t, l - 1), subs)) + Upper(t, l - 1)
  {
    LevelEven(t, d, l - 1, dup, subs);
    VisitsOfBranches(Level(t, l - 1), subs);
  }

  lemma TodoStart(t: Tree, d: nat, dup: bool, subs: bool, freed: multiset<int>)
    requires Even(t, d, subs) && Ok(t, dup) && d == Depth(t) && (dup ==> !subs)
    ensures Todo(t, subs, freed + multiset(Own(t, subs)), freed, d, 0)
    ensures Over(Level(t, d)[0..]) == OverflowPages(t)
    ensures dup || (!subs && OverflowPages(t) == 0) ==> Visits(Level(t, d)[0..], subs) == []
  {
    var ts := Level(t, d);
    assert ts[0..] == ts;
    OwnIs(t, d, dup, subs);
    if !subs {
      LeavesEmpty(t, d, dup);
    }
    hide Own, Visits, Upper, Level, Even, Ok;
    Shuffle(multiset(Visits(ts, subs)), freed, Upper(t, d));
  }

  lemma LeavesEmpty(t: Tree, d: nat, dup: bool)
    requires Even(t, d, false) && Ok(t, dup)
    ensures dup || Over(Level(t, d)) == 0 ==> Visits(Level(t, d), false) == []
  {
    LevelEven(t, d, d, dup, false);
    if dup {
      DupOver(Level(t, d));
    }
    if Over(Level(t, d)) == 0 {
      NoVisits(Level(t, d), dup);
    }
  }

  /** What kind of page the cursor is on. */
  lemma OnKind(t: Tree, d: nat, dup: bool, subs: bool, l: nat, j: nat)
    requires Even(t, d, subs) && Ok(t, dup) && l <= d && j < |Level(t, l)|
    ensures var p := Level(t, l)[j];
      && (p.Leaf? <==> l == d) && Ok(p, dup) && Even(p, d - l, subs) && Count(p) <= Count(t)
      && (p.Leaf? ==> Over(Level(t, l)[j..]) == ItemsOver(p.items) + Over(Level(t, l)[j + 1..]))
  {
    LevelEven(t, d, l, dup, subs);
    var ts := Level(t, l)[j..];
    assert ts[0] == Level(t, l)[j] && ts[1..] == Level(t, l)[j + 1..];
    assert Even(ts[0], d - l, subs);
  }

  lemma RestEmpty(t: Tree, d: nat, dup: bool, j: nat)
    requires Even(t, d, false) && Ok(t, dup) && j <= |Level(t, d)| && Over(Level(t, d)[j..]) == 0
    ensures Visits(Level(t, d)[j..], false) == []
  {
    LevelEven(t, d, d, dup, false);
    NoVisits(Level(t, d)[j..], dup);
  }

  /** The saved cursor on the first leaf, cut to a higher level. */
  lemma {:induction false} CutOn(t: Tree, pg: seq<Tree>, ki: seq<int>, pos: seq<int>, l: nat)
    requires On(t, pg, ki, pos) && l <= |ki|
    ensures |pg| == |pos| == |ki| + 1 && On(t, pg[..l + 1], ki[..l], pos[..l + 1])
    decreases |ki|
  {
    hide KidsOf, Level;
    if l == |ki| {
      assert pg[..l + 1] == pg && ki[..l] == ki && pos[..l + 1] == pos;
    } else {
      var n := |ki| - 1;
      CutOn(t, pg[..n + 1], ki[..n], pos[..n + 1], l);
      assert pg[..n + 1][..l + 1] == pg[..l + 1] && ki[..n][..l] == ki[..l] && pos[..n + 1][..l + 1] == pos[..l + 1];
    }
  }

  /** The walk with snum pages on its stack, over overflow pages not yet met. */
  ghost predicate Going(t: Tree, d: nat, subs: bool, all: multiset<int>, freed: multiset<int>, snum: int,
                        pg: seq<Tree>, ki: seq<int>, pos: seq<int>, over: int)
  {
    && 0 <= snum <= d + 1
    && (snum == 0 ==> freed + multiset{t.pgno} == all)
    && (snum > 0 ==>
          && |pg| == |ki| + 1 == |pos| == snum && On(t, pg, ki, pos) && 0 <= pos[snum - 1] < |Level(t, snum - 1)|
          && Todo(t, subs, all, freed, snum - 1, pos[snum - 1])
          && (snum == d + 1 ==> over == Over(Level(t, d)[pos[d]..]) && (subs || over > 0)))
  }

  /** The pages of the level still to be visited. */
  ghost function ToVisit(t: Tree, snum: int, pos: seq<int>): int {
    if 0 < snum <= |pos| then |Level(t, snum - 1)| - pos[snum - 1] else 0
  }

  /** The page has been visited and the cursor has gone to its sibling. */
  lemma Onward(t: Tree, d: nat, subs: bool, all: multiset<int>, freed: multiset<int>, snum: int,
               pg: seq<Tree>, ki: seq<int>, pos: seq<int>, was: seq<int>, over: int)
    requires 0 < snum <= d + 1 && |ki| + 1 == |was| == snum && On(t, pg, ki, pos) && 0 <= was[snum - 1]
    requires |pos| == snum ==> pos[snum - 1] == was[snum - 1] + 1
    requires Todo(t, subs, all, freed, snum - 1, was[snum - 1] + 1)
    requires snum == d + 1 ==> was[d] + 1 <= |Level(t, d)| && over == Over(Level(t, d)[was[d] + 1..]) && (subs || over > 0)
    ensures Going(t, d, subs, all, freed, snum, pg, ki, pos, over)
    ensures 0 <= ToVisit(t, snum, pos) < ToVisit(t, snum, was)
  {
    OnSizes(t, pg, ki, pos);
  }

  /** A level is done; the next one up starts at its first page, where the saved cursor is. */
  lemma Climb(t: Tree, d: nat, dup: bool, subs: bool, all: multiset<int>, freed: multiset<int>, snum: int, j: nat,
              pg: seq<Tree>, ki: seq<int>, pos: seq<int>, over: int)
    requires Even(t, d, subs) && Ok(t, dup) && 0 < snum <= d + 1
    requires Todo(t, subs, all, freed, snum - 1, j)
    requires j <= |Level(t, snum - 1)| && Visits(Level(t, snum - 1)[j..], subs) == []
    requires On(t, pg, ki, pos) && |ki| == d && |pos| == d + 1 && forall k | 0 <= k <= d :: pos[k] == 0
    ensures |pg| == d + 1
    ensures Going(t, d, subs, all, freed, snum - 1, pg[..snum - 1], if snum > 1 then ki[..snum - 2] else ki, pos[..snum - 1], over)
  {
    hide On, Todo, Visits, Level, Even, Ok, Over;
    TodoUp(t, d, dup, subs, all, freed, snum - 1, j);
    OnSizes(t, pg, ki, pos);
    if snum > 1 {
      CutOn(t, pg, ki, pos, snum - 2);
      OnSizes(t, pg[..snum - 1], ki[..snum - 2], pos[..snum - 1]);
    }
  }

  /** The walk starts on the first leaf; the leaves are left out when nothing is to be found
      on them. */
  lemma SetOut(t: Tree, d: nat, dup: bool, subs: bool, freed: multiset<int>, pg: seq<Tree>, ki: seq<int>, pos: seq<int>)
    requires Even(t, d, subs) && Ok(t, dup) && d == Depth(t) && (dup ==> !subs)
    requires On(t, pg, ki, pos) && |ki| == d && |pos| == d + 1 && pos[d] == 0
    ensures var all, over := freed + multiset(Own(t, subs)), OverflowPages(t);
      && Todo(t, subs, all, freed, d, 0)
      && if dup || (!subs && over == 0) then Visits(Level(t, d)[0..], subs) == []
         else Going(t, d, subs, all, freed, d + 1, pg, ki, pos, over)
  {
    hide On, Todo, Own, Visits, Even, Ok, Over, OverflowPages, Level;
    TodoStart(t, d, dup, subs, freed);
    OnSizes(t, pg, ki, pos);
  }

  lemma AllDone(t: Tree, d: nat, subs: bool, all: multiset<int>, freed: multiset<int>, snum: int, pg: seq<Tree>,
                ki: seq<int>, pos: seq<int>, over: int)
    requires Going(t, d, subs, all, freed, snum, pg, ki, pos, over) && snum <= 0
    ensures freed + multiset{t.pgno} == all
  {
  }

  lemma LevelDone(t: Tree, l: nat, j: nat, subs: bool)
    requires j == |Level(t, l)|
    ensures Visits(Level(t, l)[j..], subs) == []
  {
  }

  // ------------------------------------------------------------ the nodes of a leaf

  /** part has been freed since was. */
  ghost predicate Freed(was: multiset<int>, part: seq<int>, now: seq<int>) {
    multiset(now) == was + multiset(part)
  }

  lemma FreedMore(was: multiset<int>, part: seq<int>, now: seq<int>, more: seq<int>)
    requires Freed(was, part, now)
    ensures Freed(was, part + more, now + more)
    ensures forall x: seq<int> :: multiset(x) == multiset(now) + multiset(more) ==> Freed(was, part + more, x)
  {
    assert multiset(now + more) == multiset(now) + multiset(more);
  }

  lemma FreedAll(was: multiset<int>, part: seq<int>, now: seq<int>)
    ensures Freed(was, part, now) <==> multiset(now) == was + multiset(part)
    ensures Freed(multiset(now), [], now)
  {
  }

  lemma NoneYet(items: seq<Item>, subs: bool)
    ensures ItemsOwn(items[..0], subs) == [] && ItemsOver(items[..0]) == 0
  {
  }

  lemma MoreItems(t: Tree, dup: bool, i: nat, subs: bool)
    requires t.Leaf? && Ok(t, dup) && Even(t, 0, subs) && i < |t.items|
    ensures var x := t.items[i];
      && ItemsOwn(t.items[..i + 1], subs) == ItemsOwn(t.items[..i], subs) + ItemOwn(x, subs)
      && ItemsOver(t.items[..i + 1]) == ItemsOver(t.items[..i]) + (if x.Big? then x.pages else 0)
      && (x.Big? ==> x.pages >= 1)
      && (ItemOwn(x, subs) == if x.Big? then Range(x.run, x.pages) else if subs && x.Sub? && x.db.Some? then Own(x.db.value, false) else [])
      && (subs && x.Sub? && x.db.Some? ==>
            && x.dup && Ok(x.db.value, true) && Even(x.db.value, Depth(x.db.value), false)
            && OverflowPages(x.db.value) == 0 && Count(x.db.value) < Count(t))
  {
    var x := t.items[i];
    assert t.items[..i + 1][..i] == t.items[..i];
    assert ItemOk(x, dup) && ItemEven(x, subs);
    ItemCountAt(t.items, i);
    if subs && x.Sub? && x.db.Some? {
      var db := x.db.value;
      LevelEven(db, Depth(db), Depth(db), true, false);
      DupOver(Level(db, Depth(db)));
    }
  }

  lemma AllBig(t: Tree, dup: bool)
    requires t.Leaf? && Ok(t, dup)
    ensures forall k | 0 <= k < |t.items| :: t.items[k].Big? ==> t.items[k].pages >= 1
  {
    assert forall k | 0 <= k < |t.items| :: ItemOk(t.items[k], dup);
  }

  lemma {:induction false} OverPart(items: seq<Item>, i: nat)
    requires i <= |items|
    ensures ItemsOver(items[..i]) <= ItemsOver(items)
    ensures (ItemsOver(items[..i]) == ItemsOver(items)
             && forall k | 0 <= k < |items| :: items[k].Big? ==> items[k].pages >= 1) ==>
      ItemsOwn(items[..i], false) == ItemsOwn(items, false)
    decreases |items|
  {
    if i == |items| {
      assert items[..i] == items;
    } else {
      var s := items[..|items| - 1];
      OverPart(s, i);
      assert s[..i] == items[..i];
    }
  }

  // ------------------------------------------------------------ the list of freed pages

  class Txn {
    var freePgs: seq<int>

    /** One leaf.  over counts the overflow pages not yet freed; done: there are none left and
        nothing else is looked for. */
    method ScanLeaf(t: Tree, subs: bool, dup: bool, over0: int, ghost rest: nat) returns (over: int, done: bool)
      requires t.Leaf? && Ok(t, dup) && Even(t, 0, subs)
      requires over0 == ItemsOver(t.items) + rest && (subs || over0 > 0)
      modifies this
      ensures multiset(freePgs) == old(multiset(freePgs)) + multiset(ItemsOwn(t.items, subs))
      ensures over == rest && (done <==> !subs && over == 0)
      decreases Count(t), 0
    {
      hide *;
      over := over0;
      ghost var was := multiset(freePgs);
      var i := 0;
      NoneYet(t.items, subs);
      FreedAll(was, [], freePgs);
      AllBig(t, dup);
      while i < |t.items|
        invariant 0 <= i <= |t.items|
        invariant Freed(was, ItemsOwn(t.items[..i], subs), freePgs)
        invariant over == over0 - ItemsOver(t.items[..i]) && (subs || over > 0)
      {
        var x := t.items[i];
        OverPart(t.items, i + 1);
        MoreItems(t, dup, i, subs);
        FreedMore(was, ItemsOwn(t.items[..i], subs), freePgs, ItemOwn(x, subs));
        if x.Big? {
          freePgs := freePgs + Range(x.run, x.pages);
          over := over - x.pages;
          if over == 0 && !subs {
            break;
          }
        } else if x.Sub? && subs {
          Drop0(x.db, false, true, 0);
        }
        i := i + 1;
      }
      assert t.items[..|t.items|] == t.items;
      FreedAll(was, ItemsOwn(t.items, subs), freePgs);
      done := !subs && over == 0;
    }

    /** The page that the cursor is on. */
    method VisitPage(pg: seq<Tree>, ki: seq<int>, subs: bool, dup: bool, over0: int,
                     ghost t: Tree, ghost d: nat, ghost pos: seq<int>, ghost all: multiset<int>, ghost snum: int)
      returns (over: int, done: bool)
      requires Even(t, d, subs) && Ok(t, dup) && snum > 0
      requires Going(t, d, subs, all, multiset(freePgs), snum, pg, ki, pos, over0)
      modifies this
      ensures snum <= d + 1 && |ki| + 1 == |pos| == snum && 0 <= pos[snum - 1] < |Level(t, snum - 1)| && On(t, pg, ki, pos)
      ensures Todo(t, subs, all, multiset(freePgs), snum - 1, pos[snum - 1] + 1)
      ensures done ==> Visits(Level(t, snum - 1)[pos[snum - 1] + 1..], subs) == []
      ensures snum == d + 1 ==> over == Over(Level(t, d)[pos[d] + 1..]) && (done || subs || over > 0)
      decreases Count(t), 1
    {
      hide On, Todo, Even, Ok, Over, Visits, Level, ItemsOwn;
      var top := |ki|;
      OnSizes(t, pg, ki, pos);
      OnKind(t, d, dup, subs, top, pos[top]);
      TodoVisit(t, subs, all, multiset(freePgs), top, pos[top]);
      over, done := over0, false;
      if pg[top].Leaf? {
        over, done := ScanLeaf(pg[top], subs, dup, over, Over(Level(t, d)[pos[top] + 1..]));
        if done {
          RestEmpty(t, d, dup, pos[top] + 1);
        }
      } else {
        freePgs := freePgs + Pgnos(pg[top].kids);
      }
    }

    /** mdb_drop0: dup says that this is a database of duplicates, subs that there may be such
        databases in this one, over0 is md_overflow_pages. */
    method Drop0(db: Option<Tree>, subs: bool, dup: bool, over0: int)
      requires db.Some? ==>
        && Ok(db.value, dup) && Even(db.value, Depth(db.value), subs)
        && over0 == OverflowPages(db.value)
      requires dup ==> !subs
      modifies this
      ensures db.None? ==> freePgs == old(freePgs)
      ensures db.Some? ==> multiset(freePgs) == old(multiset(freePgs)) + multiset(Own(db.value, subs))
      decreases if db.None? then 0 else Count(db.value), 2
    {
      hide *;
      if db.None? {
        return;
      }
      var t, d, over := db.value, Depth(db.value), over0;
      ghost var all := multiset(freePgs) + multiset(Own(t, subs));
      var mxPg, mxKi;
      ghost var mxPos;
      mxPg, mxKi, mxPos := Leftmost(t, d, d, dup, subs);
      SetOut(t, d, dup, subs, multiset(freePgs), mxPg, mxKi, mxPos);
      var pg, ki, snum := mxPg, mxKi, d + 1;
      ghost var pos := mxPos;
      if dup || (!subs && over == 0) {
        Climb(t, d, dup, subs, all, multiset(freePgs), snum, 0, mxPg, mxKi, mxPos, over);
        pg, ki, pos, snum := mxPg[..d], if d > 0 then mxKi[..d - 1] else mxKi, mxPos[..d], d;
      }
      while snum > 0
        invariant Going(t, d, subs, all, multiset(freePgs), snum, pg, ki, pos, over)
        decreases snum, ToVisit(t, snum, pos)
      {
        ghost var was := pos;
        var done, ok;
        over, done := VisitPage(pg, ki, subs, dup, over, t, d, pos, all, snum);
        if !done {
          ok, pg, ki, pos := Sibling(pg, ki, t, d, dup, subs, pos);
          if ok {
            Onward(t, d, subs, all, multiset(freePgs), snum, pg, ki, pos, was, over);
            continue;
          }
          LevelDone(t, snum - 1, was[snum - 1] + 1, subs);
        }
        Climb(t, d, dup, subs, all, multiset(freePgs), snum, was[snum - 1] + 1, mxPg, mxKi, mxPos, over);
        snum := snum - 1;
        pg, ki, pos := mxPg[..snum], if snum > 0 then mxKi[..snum - 1] else mxKi, mxPos[..snum];
      }
      AllDone(t, d, subs, all, multiset(freePgs), snum, pg, ki, pos, over);
      freePgs := freePgs + [t.pgno];
    }
  }
}
