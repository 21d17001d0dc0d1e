/** Nested write transactions.  Each transaction has its own list of dirty pages and list of
    spilled pages; mdb_page_get reads through the chain of them, a commit merges the child's
    lists into its parent's and an abort drops them. */
module NestedTxn {

  import opened IdList
  import opened Wrappers

  /** A write transaction.  free and next are the page numbers it may still allocate
      (me_pghead with the freeDB records it may fetch, and those from mt_next_pgno up),
      room is mt_dirty_room.  Root is no transaction at all. */
  datatype Txn<P> =
    | Root
    | Txn(dirty: map<int, P>, spill: set<int>, free: set<int>, next: int, room: int, parent: Txn<P>)

  /** The innermost transaction and the map of the data file. */
  datatype State<P> = State(txn: Txn<P>, file: int -> P)

  datatype Hit<P> = Dirty(page: P) | Spilled | Unlisted

  /** What mdb_page_get delivers: a page in memory, a page of the map, MDB_PAGE_NOTFOUND. */
  datatype Got<P> = Memory(page: P) | Mapped(page: P) | Missing

  datatype Step<P> =
    | Begin
    | Alloc(p: int, page: P)
    | Write(p: int, page: P)
    | TouchParent(p: int)
    | Unspill(p: int)
    | Spill(ps: set<int>)
    | GiveBack(p: int)
    | Commit
    | Abort

  // ------------------------------------------------------------ reading

  /** The walk of mdb_page_get: the spill list of each transaction, then its dirty list. */
  function Find<P>(t: Txn<P>, p: int): Hit<P> {
    match t
    case Root => Unlisted
    case Txn(dirty, spill, _, _, _, parent) =>
      if p in spill then Spilled
      else if p in dirty then Dirty(dirty[p])
      else Find(parent, p)
  }

  function Get<P>(t: Txn<P>, file: int -> P, p: int): Got<P>
    requires t.Txn?
  {
    match Find(t, p)
    case Dirty(page) => Memory(page)
    case Spilled => Mapped(file(p))
    case Unlisted => if p < t.next then Mapped(file(p)) else Missing
  }

  predicate Open<P>(t: Txn<P>, p: int)
    requires t.Txn?
  {
    p in t.free || t.next <= p
  }

  function AllSpilled<P>(t: Txn<P>): set<int> {
    match t
    case Root => {}
    case Txn(_, spill, _, _, _, parent) => spill + AllSpilled(parent)
  }

  /** The dirty pages that the transaction sees, those of its ancestors included. */
  function Visible<P>(t: Txn<P>): set<int> {
    match t
    case Root => {}
    case Txn(dirty, spill, _, _, _, parent) => dirty.Keys + (Visible(parent) - spill)
  }

  // ------------------------------------------------------------ steps

  ghost predicate Enabled<P>(s: State<P>, step: Step<P>) {
    var t := s.txn;
    t.Txn? &&
    match step
    case Begin => true
    case Alloc(p, _) => t.room > 0 && (p in t.free || p == t.next)
    case Write(p, _) => p in t.dirty
    case TouchParent(p) => p !in t.spill && p !in t.dirty && Find(t.parent, p).Dirty?
    case Unspill(p) => t.room > 0 && Find(t, p) == Spilled
    case Spill(ps) => ps <= t.dirty.Keys && ps !! AllSpilled(t.parent)
    case GiveBack(p) => t.parent.Root? && (p in t.dirty || p in t.spill)
    case Commit => t.parent.Txn?
    case Abort => t.parent.Txn?
  }

  ghost function Apply<P>(s: State<P>, step: Step<P>): State<P>
    requires Enabled(s, step)
  {
    var t := s.txn;
    match step
    case Begin => State(Child(t), s.file)
    case Alloc(p, page) => State(Allocated(t, p, page), s.file)
    case Write(p, page) => State(t.(dirty := t.dirty[p := page]), s.file)
    case TouchParent(p) => State(t.(dirty := t.dirty[p := Find(t.parent, p).page]), s.file)
    case Unspill(p) => State(Unspilled(t, p, s.file(p)), s.file)
    case Spill(ps) => State(Spilling(t, ps), Flushed(s.file, t.dirty, ps))
    case GiveBack(p) => State(GivenBack(t, p), s.file)
    case Commit => State(Merged(t), s.file)
    case Abort => State(t.parent, s.file)
  }

  function Child<P>(t: Txn<P>): Txn<P>
    requires t.Txn?
  {
    Txn(map[], {}, t.free, t.next, t.room, t)
  }

  function Allocated<P>(t: Txn<P>, p: int, page: P): Txn<P>
    requires t.Txn?
  {
    t.(dirty := t.dirty[p := page], free := t.free - {p},
       next := if p in t.free then t.next else t.next + 1, room := t.room - 1)
  }

  function Unspilled<P>(t: Txn<P>, p: int, page: P): Txn<P>
    requires t.Txn?
  {
    t.(dirty := t.dirty[p := page], spill := t.spill - {p}, room := t.room - 1)
  }

  function Spilling<P>(t: Txn<P>, ps: set<int>): Txn<P>
    requires t.Txn?
  {
    t.(dirty := t.dirty - ps, spill := t.spill + ps, room := t.room + |ps|)
  }

  function GivenBack<P>(t: Txn<P>, p: int): Txn<P>
    requires t.Txn?
  {
    t.(dirty := t.dirty - {p}, spill := t.spill - {p}, free := t.free + {p},
       room := if p in t.dirty then t.room + 1 else t.room)
  }

  /** The map after mdb_page_flush wrote the pages ps of a dirty list. */
  function Flushed<P>(file: int -> P, dirty: map<int, P>, ps: set<int>): int -> P {
    p => if p in ps && p in dirty then dirty[p] else file(p)
  }

  /** The parent after the child's commit: what the child holds dirty is not spilled in the
      parent any more, what it spilled is not dirty there any more, and its lists are added. */
  function Merged<P>(t: Txn<P>): Txn<P>
    requires t.Txn? && t.parent.Txn?
  {
    var up := t.parent;
    Txn((up.dirty - t.spill) + t.dirty, (up.spill - t.dirty.Keys) + t.spill, t.free, t.next, t.room, up.parent)
  }

  // ------------------------------------------------------------ invariant

  ghost predicate Ok<P>(t: Txn<P>) {
    Lists(t) && Room(t)
  }

  ghost predicate Lists<P>(t: Txn<P>) {
    t.Txn? ==>
      && Lists(t.parent)
      && t.dirty.Keys !! t.spill
      && (forall p | p in t.free :: p < t.next)
      && t.spill !! AllSpilled(t.parent)
      && (forall p | p in t.dirty || p in t.spill :: !Open(t, p))
      && (t.parent.Txn? ==> Inherits(t, t.parent))
  }

  ghost predicate Room<P>(t: Txn<P>) {
    t.Txn? ==> Room(t.parent) && 0 <= t.room == UM_MAX - |Visible(t)|
  }

  /** What a child may allocate its parent might have allocated; what it lists it has
      allocated itself or found in a list of an ancestor. */
  ghost predicate Inherits<P>(t: Txn<P>, up: Txn<P>)
    requires t.Txn? && up.Txn?
  {
    && (forall p | Open(t, p) :: Open(up, p))
    && (forall p | p in t.dirty || p in t.spill :: Open(up, p) || Find(up, p) != Unlisted)
  }

  ghost predicate Start<P>(s: State<P>) {
    s.txn.Txn? && s.txn.dirty == map[] && s.txn.spill == {} && (forall p | p in s.txn.free :: p < s.txn.next)
    && s.txn.room == UM_MAX && s.txn.parent.Root?
  }

  lemma StartOk<P>(s: State<P>)
    requires Start(s)
    ensures Ok(s.txn)
  {
    assert Visible(s.txn) == {};
  }

  lemma {:induction false} ListedNotOpen<P>(t: Txn<P>, p: int)
    requires Lists(t) && t.Txn? && Find(t, p) != Unlisted
    ensures !Open(t, p)
    decreases t
  {
    if p !in t.dirty && p !in t.spill {
      ListedNotOpen(t.parent, p);
    }
  }

  lemma {:induction false} VisibleIsDirty<P>(t: Txn<P>, p: int)
    requires Lists(t)
    ensures p in Visible(t) <==> Find(t, p).Dirty?
    ensures p in AllSpilled(t) || Find(t, p) != Spilled
    decreases t
  {
    if t.Txn? {
      VisibleIsDirty(t.parent, p);
    }
  }

  lemma StepOk<P>(s: State<P>, step: Step<P>)
    requires Ok(s.txn) && Enabled(s, step)
    ensures Ok(Apply(s, step).txn)
  {
    hide Lists, Room, Child, Allocated, Unspilled, Spilling, GivenBack, Merged;
    var t := s.txn;
    match step
    case Begin => ChildOk(t);
    case Alloc(p, page) => AllocatedOk(t, p, page);
    case Write(p, page) => WrittenOk(t, p, page);
    case TouchParent(p) => TouchedOk(t, p);
    case Unspill(p) => UnspilledOk(t, p, s.file(p));
    case Spill(ps) => SpillingOk(t, ps);
    case GiveBack(p) => GivenBackOk(t, p);
    case Commit => MergedOk(t);
    case Abort => ParentOk(t);
  }

  lemma ParentOk<P>(t: Txn<P>)
    requires t.Txn? && Ok(t)
    ensures Ok(t.parent)
  {
  }

  lemma ChildOk<P>(t: Txn<P>)
    requires t.Txn? && Ok(t)
    ensures Ok(Child(t))
  {
    assert Visible(Child(t)) == Visible(t);
  }

  lemma WrittenOk<P>(t: Txn<P>, p: int, page: P)
    requires t.Txn? && Ok(t) && p in t.dirty
    ensures Ok(t.(dirty := t.dirty[p := page]))
  {
    assert Visible(t.(dirty := t.dirty[p := page])) == Visible(t);
  }

  lemma AllocatedOk<P>(t: Txn<P>, p: int, page: P)
    requires t.Txn? && Ok(t) && t.room > 0 && (p in t.free || p == t.next)
    ensures Ok(Allocated(t, p, page))
  {
    hide Lists, Find, Visible, Room;
    NotListed(t, p);
    AllocatedLists(t, p, page);
    VisibleAdds(t, Allocated(t, p, page), p);
  }

  lemma AllocatedLists<P>(t: Txn<P>, p: int, page: P)
    requires t.Txn? && Lists(t) && (p in t.free || p == t.next)
    ensures Lists(Allocated(t, p, page))
  {
    NotListed(t, p);
  }

  lemma NotListed<P>(t: Txn<P>, p: int)
    requires t.Txn? && Lists(t) && Open(t, p)
    ensures Find(t, p) == Unlisted && p !in Visible(t)
  {
    if Find(t, p) != Unlisted {
      ListedNotOpen(t, p);
    }
    VisibleIsDirty(t, p);
  }

  lemma TouchedOk<P>(t: Txn<P>, p: int)
    requires t.Txn? && Ok(t) && p !in t.spill && p !in t.dirty && Find(t.parent, p).Dirty?
    ensures Ok(t.(dirty := t.dirty[p := Find(t.parent, p).page]))
  {
    ListedNotOpen(t, p);
    VisibleIsDirty(t, p);
    assert Visible(t.(dirty := t.dirty[p := Find(t.parent, p).page])) == Visible(t);
  }

  lemma UnspilledOk<P>(t: Txn<P>, p: int, page: P)
    requires t.Txn? && Ok(t) && t.room > 0 && Find(t, p) == Spilled
    ensures Ok(Unspilled(t, p, page))
  {
    hide Lists, Find, Visible, Room;
    UnspilledLists(t, p, page);
    VisibleIsDirty(t, p);
    VisibleAdds(t, Unspilled(t, p, page), p);
  }

  lemma UnspilledLists<P>(t: Txn<P>, p: int, page: P)
    requires t.Txn? && Lists(t) && Find(t, p) == Spilled
    ensures Lists(Unspilled(t, p, page))
  {
    ListedNotOpen(t, p);
  }

  lemma VisibleAdds<P>(t: Txn<P>, t': Txn<P>, p: int)
    requires t.Txn? && t'.Txn? && t.parent == t'.parent && Room(t) && t.room > 0 && p !in Visible(t)
    requires t'.dirty.Keys == t.dirty.Keys + {p} && t'.spill == t.spill - {p} && t'.room == t.room - 1
    ensures Room(t')
  {
    hide Visible;
    VisibleIs(t);
    VisibleIs(t');
    OneMore(t.dirty.Keys, t.spill, Visible(t.parent), p);
  }

  lemma VisibleIs<P>(t: Txn<P>)
    requires t.Txn?
    ensures Visible(t) == t.dirty.Keys + (Visible(t.parent) - t.spill)
  {
  }

  lemma OneMore(dirty: set<int>, spill: set<int>, above: set<int>, p: int)
    requires p !in dirty + (above - spill)
    ensures dirty + {p} + (above - (spill - {p})) == dirty + (above - spill) + {p}
  {
  }

  lemma VisibleDrops<P>(t: Txn<P>, t': Txn<P>, ps: set<int>)
    requires t.Txn? && t'.Txn? && t.parent == t'.parent && Room(t) && ps <= t.dirty.Keys
    requires t'.dirty.Keys == t.dirty.Keys - ps && t'.room == t.room + |ps|
    requires t'.spill == t.spill + ps || t.parent.Root?
    ensures Room(t')
  {
    assert Visible(t') == Visible(t) - ps;
  }

  lemma SpillingOk<P>(t: Txn<P>, ps: set<int>)
    requires t.Txn? && Ok(t) && ps <= t.dirty.Keys && ps !! AllSpilled(t.parent)
    ensures Ok(Spilling(t, ps))
  {
    hide Visible, Room;
    VisibleDrops(t, Spilling(t, ps), ps);
  }

  lemma GivenBackOk<P>(t: Txn<P>, p: int)
    requires t.Txn? && Ok(t) && t.parent.Root? && (p in t.dirty || p in t.spill)
    ensures Ok(GivenBack(t, p))
  {
    hide Visible, Room;
    VisibleDrops(t, GivenBack(t, p), if p in t.dirty then {p} else {});
  }

  lemma MergedOk<P>(t: Txn<P>)
    requires Ok(t) && t.Txn? && t.parent.Txn?
    ensures Ok(Merged(t)) && Visible(Merged(t)) == Visible(t)
  {
    hide Lists, Find, Visible;
    MergedLists(t);
    MergedVisible(t);
    assert Room(t.parent);
  }

  lemma SpillDisjoint<P>(t: Txn<P>)
    requires Ok(t) && t.Txn? && t.parent.Txn?
    ensures t.spill !! t.parent.spill
  {
  }

  lemma MergedVisible<P>(t: Txn<P>)
    requires t.Txn? && t.parent.Txn? && Lists(t)
    ensures Visible(Merged(t)) == Visible(t)
  {
    assert t.dirty.Keys !! t.spill;
    forall p
      ensures p in Visible(Merged(t)) <==> p in Visible(t)
    {
    }
  }

  lemma MergedLists<P>(t: Txn<P>)
    requires Lists(t) && t.Txn? && t.parent.Txn?
    ensures Lists(Merged(t))
  {
    var up, m := t.parent, Merged(t);
    forall p | p in m.dirty || p in m.spill
      ensures !Open(m, p)
    {
      assert p in t.dirty || p in t.spill || p in up.dirty || p in up.spill;
      assert Find(up, p) != Unlisted || p in t.dirty || p in t.spill;
      ListedNotOpen(t, p);
    }
  }

  // ------------------------------------------------------------ theorems

  /** Commit of a child: for every page number the parent now gets what the child got. */
  lemma CommitKeepsGet<P>(t: Txn<P>, file: int -> P, p: int)
    requires Ok(t) && t.Txn? && t.parent.Txn?
    ensures Get(Merged(t), file, p) == Get(t, file, p)
  {
    hide Room;
    MergedFind(t, p);
  }

  lemma MergedFind<P>(t: Txn<P>, p: int)
    requires Lists(t) && t.Txn? && t.parent.Txn?
    ensures Find(Merged(t), p) == Find(t, p)
  {
  }

  /** Room in the dirty list of the parent: with a single ancestor the merged list has
      exactly UM_MAX - mt_dirty_room entries, with more no more than that. */
  lemma MergedLength<P>(t: Txn<P>)
    requires Ok(t) && t.Txn? && t.parent.Txn?
    ensures |Merged(t).dirty| <= UM_MAX - t.room <= UM_MAX
    ensures t.parent.parent.Root? ==> |Merged(t).dirty| == UM_MAX - t.room
  {
    MergedOk(t);
    var m := Merged(t);
    assert |m.dirty| == |m.dirty.Keys|;
    Smaller(m.dirty.Keys, Visible(m));
    if t.parent.parent.Root? {
      assert Visible(m) == m.dirty.Keys;
    }
  }

  /** The assertion in mdb_page_touch: there is room to copy a page dirty in an ancestor. */
  lemma TouchHasRoom<P>(t: Txn<P>, p: int)
    requires t.Txn? && Ok(t) && p !in t.spill && p !in t.dirty && Find(t.parent, p).Dirty?
    ensures |t.dirty| < UM_MAX
  {
    VisibleIsDirty(t, p);
    Smaller(t.dirty.Keys, Visible(t));
    assert |t.dirty| == |t.dirty.Keys|;
  }

  /** Only writing, allocating and giving back change what the transaction reads:
      spilling, unspilling, touching, beginning and committing a child do not. */
  lemma StepKeepsContent<P>(s: State<P>, step: Step<P>, p: int)
    requires Ok(s.txn) && Enabled(s, step) && step != Abort
    requires !((step.Write? || step.Alloc? || step.GiveBack?) && step.p == p)
    requires Get(s.txn, s.file, p) != Missing
    ensures Same(s, Apply(s, step), p)
  {
    hide Room;
    match step
    case Spill(ps) => SpillingKeeps(s.txn, s.file, ps, p);
    case Commit => MergedFind(s.txn, p);
    case _ =>
  }

  /** MDB_PAGE_NOTFOUND is for page numbers from mt_next_pgno on, and for these only: whatever a
      list of the transaction or of an ancestor has is below it. */
  lemma NotFoundExact<P>(t: Txn<P>, file: int -> P, p: int)
    requires Ok(t) && t.Txn?
    ensures Get(t, file, p) == Missing <==> t.next <= p
    ensures Get(t, file, p).Mapped? ==> Get(t, file, p).page == file(p)
  {
    hide Room, Visible;
    if t.next <= p {
      NotListed(t, p);
    }
  }

  /** What is written to a page, or allocated with it, the transaction gets from memory; and a
      page given back can be allocated again. */
  lemma WrittenIsGot<P>(s: State<P>, step: Step<P>)
    requires Ok(s.txn) && Enabled(s, step)
    ensures step.Write? || step.Alloc? ==>
      var s' := Apply(s, step); s'.txn.Txn? && Get(s'.txn, s'.file, step.p) == Memory(step.page)
    ensures step.GiveBack? ==>
      var s' := Apply(s, step); s'.txn.Txn? && step.p in s'.txn.free && Find(s'.txn, step.p) == Unlisted
  {
    hide Room;
    if step.Alloc? {
      OpenUnlisted(s.txn, step.p);
    }
  }

  /** A child can write to a page that its parent holds dirty, and its commit hands the page to
      the parent: nothing else has changed then. */
  lemma ChildWrites<P>(t: Txn<P>, file: int -> P, p: int, page: P)
    requires t.Txn? && Ok(t) && p in t.dirty
    ensures Leads(State(t, file), [Begin, TouchParent(p), Write(p, page), Commit],
                  State(t.(dirty := t.dirty[p := page]), file))
  {
    hide Room, Visible;
    var run: seq<Step<P>> := [Begin, TouchParent(p), Write(p, page), Commit];
    var s0, s1 := State(t, file), State(Child(t), file);
    var touched: map<int, P> := map[p := t.dirty[p]];
    var written: map<int, P> := map[p := page];
    var s2, s3 := State(s1.txn.(dirty := touched), file), State(s1.txn.(dirty := written), file);
    assert p !in t.spill;
    assert Find(t, p) == Dirty(t.dirty[p]);
    assert Apply(s1, TouchParent(p)) == s2;
    assert touched[p := page] == written;
    assert Apply(s2, Write(p, page)) == s3;
    var empty: set<int> := {};
    assert written.Keys == {p} && s3.txn.spill == empty;
    assert t.dirty - empty == t.dirty && t.spill - {p} == t.spill && t.spill + empty == t.spill;
    assert t.dirty + written == t.dirty[p := page];
    var s4 := State(t.(dirty := t.dirty[p := page]), file);
    assert Apply(s3, Commit) == s4;
    assert run[1..] == [TouchParent(p), Write(p, page), Commit];
    assert run[1..][1..] == [Write(p, page), Commit] && run[1..][1..][1..] == [Commit];
    assert run[1..][1..][1..][1..] == [];
    assert Leads(s4, run[1..][1..][1..][1..], s4);
    assert Leads(s3, run[1..][1..][1..], s4);
    assert Leads(s2, run[1..][1..], s4);
    assert Leads(s1, run[1..], s4);
  }

  /** A page that is spilled can be taken back: the transaction is as it was, and the file holds
      the page. */
  lemma SpillTakenBack<P>(t: Txn<P>, file: int -> P, p: int) returns (file': int -> P)
    requires t.Txn? && Ok(t) && p in t.dirty && p !in AllSpilled(t.parent)
    ensures Leads(State(t, file), [Spill({p}), Unspill(p)], State(t, file'))
    ensures file'(p) == t.dirty[p] && forall q | q != p :: file'(q) == file(q)
  {
    hide Visible;
    var run: seq<Step<P>> := [Spill({p}), Unspill(p)];
    file' := Flushed(file, t.dirty, {p});
    var s0, s1, s2 := State(t, file), State(Spilling(t, {p}), file'), State(t, file');
    assert p !in t.spill && |{p}| == 1;
    assert Apply(s0, Spill({p})) == s1;
    assert (t.dirty - {p})[p := t.dirty[p]] == t.dirty;
    assert (t.spill + {p}) - {p} == t.spill;
    assert Apply(s1, Unspill(p)) == s2;
    assert run[1..] == [Unspill(p)] && run[1..][1..] == [];
    assert Leads(s2, run[1..][1..], s2);
    assert Leads(s1, run[1..], s2);
  }

  lemma OpenUnlisted<P>(t: Txn<P>, p: int)
    requires t.Txn? && Lists(t) && Open(t, p)
    ensures p !in t.spill && p !in t.dirty
  {
  }

  ghost predicate Same<P>(s: State<P>, s': State<P>, p: int) {
    && s.txn.Txn? && s'.txn.Txn?
    && Get(s.txn, s.file, p) != Missing && Get(s'.txn, s'.file, p) != Missing
    && Get(s'.txn, s'.file, p).page == Get(s.txn, s.file, p).page
  }

  lemma SpillingKeeps<P>(t: Txn<P>, file: int -> P, ps: set<int>, p: int)
    requires t.Txn? && Lists(t) && ps <= t.dirty.Keys && ps !! AllSpilled(t.parent)
    requires Get(t, file, p) != Missing
    ensures Same(State(t, file), State(Spilling(t, ps), Flushed(file, t.dirty, ps)), p)
  {
    VisibleIsDirty(t.parent, p);
  }

  ghost predicate HasAncestor<P>(t: Txn<P>, up: Txn<P>)
    decreases t
  {
    t.Txn? && (t.parent == up || HasAncestor(t.parent, up))
  }

  lemma {:induction false} ListedBelow<P>(t: Txn<P>, up: Txn<P>, p: int)
    requires Lists(t) && up.Txn? && HasAncestor(t, up)
    ensures Open(t, p) ==> Open(up, p)
    ensures Find(t, p) != Unlisted ==> Open(up, p) || Find(up, p) != Unlisted
    ensures p !in AllSpilled(t.parent) ==> p !in AllSpilled(up)
    decreases t
  {
    if t.parent != up {
      ListedBelow(t.parent, up, p);
    }
  }

  /** A step of a descendant changes nothing that an ancestor reads, except in pages that
      the ancestor may itself still allocate. */
  lemma StepKeepsAncestor<P>(s: State<P>, step: Step<P>, up: Txn<P>, p: int)
    requires Ok(s.txn) && Enabled(s, step) && up.Txn? && Ok(up) && HasAncestor(s.txn, up) && !Open(up, p)
    ensures Get(up, Apply(s, step).file, p) == Get(up, s.file, p)
  {
    hide Room, Child, Allocated, Unspilled, Spilling, GivenBack, Merged;
    if step.Spill? {
      SpillKeepsAncestor(s.txn, s.file, step.ps, up, p);
    }
  }

  lemma SpillKeepsAncestor<P>(t: Txn<P>, file: int -> P, ps: set<int>, up: Txn<P>, p: int)
    requires t.Txn? && Lists(t) && ps <= t.dirty.Keys && ps !! AllSpilled(t.parent)
    requires up.Txn? && Lists(up) && HasAncestor(t, up) && !Open(up, p)
    ensures Get(up, Flushed(file, t.dirty, ps), p) == Get(up, file, p)
  {
    ListedBelow(t, up, p);
    VisibleIsDirty(up, p);
  }

  /** A run of steps during all of which `up` is an ancestor of the acting transaction:
      the child of `up` may itself have children that commit or abort. */
  ghost predicate LeadsBelow<P>(up: Txn<P>, s: State<P>, run: seq<Step<P>>, s': State<P>)
    decreases |run|
  {
    && HasAncestor(s.txn, up)
    && if run == [] then s' == s
       else Enabled(s, run[0]) && LeadsBelow(up, Apply(s, run[0]), run[1..], s')
  }

  lemma {:induction false} RunKeepsAncestor<P>(up: Txn<P>, s: State<P>, run: seq<Step<P>>, s': State<P>, p: int)
    requires Ok(s.txn) && up.Txn? && Ok(up) && LeadsBelow(up, s, run, s') && !Open(up, p)
    ensures Get(up, s'.file, p) == Get(up, s.file, p)
    decreases |run|
  {
    if run != [] {
      StepOk(s, run[0]);
      StepKeepsAncestor(s, run[0], up, p);
      RunKeepsAncestor(up, Apply(s, run[0]), run[1..], s', p);
    }
  }

  /** Abort of a child after any run: the parent is what it was, lists, free pages and room
      included, and for every page number that it might not take from its free pages it gets
      what it got before the child began, whatever the child or its own children spilled. */
  lemma AbortRestores<P>(t: Txn<P>, file: int -> P, run: seq<Step<P>>, child: Txn<P>, file': int -> P)
    requires t.Txn? && Ok(t)
    requires LeadsBelow(t, State(Child(t), file), run, State(child, file'))
    ensures Enabled(State(child, file'), Abort)
    ensures child.parent == t ==> Apply(State(child, file'), Abort) == State(t, file')
    ensures forall p | p !in t.free :: Get(t, file', p) == Get(t, file, p)
  {
    hide Lists, Room, Find;
    ChildOk(t);
    forall p | p !in t.free
      ensures Get(t, file', p) == Get(t, file, p)
    {
      if t.next <= p {
        BeyondIsMissing(t, file, p);
        BeyondIsMissing(t, file', p);
      } else {
        RunKeepsAncestor(t, State(Child(t), file), run, State(child, file'), p);
      }
    }
    EndsBelow(t, State(Child(t), file), run, State(child, file'));
  }

  lemma BeyondIsMissing<P>(t: Txn<P>, file: int -> P, p: int)
    requires t.Txn? && Lists(t) && t.next <= p
    ensures Get(t, file, p) == Missing
  {
    if Find(t, p) != Unlisted {
      ListedNotOpen(t, p);
    }
  }

  /** file' is what an aborted child of t may leave behind in the file. */
  ghost predicate LeftByAbort<P(!new)>(t: Txn<P>, file: int -> P, file': int -> P)
    requires t.Txn?
  {
    exists run: seq<Step<P>>, child: Txn<P> ::
      child.Txn? && child.parent == t && LeadsBelow(t, State(Child(t), file), run, State(child, file'))
  }

  /** Exactly when an abort restores what the parent reads of a page, whatever the child did:
      when the page is not among the free pages, for these the child may take and spill. */
  lemma AbortExact<P(!new)>(t: Txn<P>, file: int -> P, p: int, page: P)
    requires t.Txn? && Ok(t) && t.room > 0 && page != file(p)
    ensures p !in t.free
      <==> forall file': int -> P | LeftByAbort(t, file, file') :: Get(t, file', p) == Get(t, file, p)
  {
    hide Ok, LeadsBelow, Get;
    if p !in t.free {
      forall file': int -> P | LeftByAbort(t, file, file')
        ensures Get(t, file', p) == Get(t, file, p)
      {
        var run: seq<Step<P>>, child: Txn<P> :|
          child.Txn? && child.parent == t && LeadsBelow(t, State(Child(t), file), run, State(child, file'));
        AbortRestores(t, file, run, child, file');
      }
    } else {
      FreeBelowNext(t, p);
      var file', child := AbortLeavesFreshPage(t, file, p, page);
      assert LeftByAbort(t, file, file');
    }
  }

  lemma FreeBelowNext<P>(t: Txn<P>, p: int)
    requires t.Txn? && Ok(t) && p in t.free
    ensures p < t.next
  {
  }

  lemma {:induction false} EndsBelow<P>(up: Txn<P>, s: State<P>, run: seq<Step<P>>, s': State<P>)
    requires up.Txn? && LeadsBelow(up, s, run, s')
    ensures s'.txn.Txn? && s'.txn.parent.Txn?
    decreases |run|
  {
    hide Apply, Enabled;
    if run != [] {
      EndsBelow(up, Apply(s, run[0]), run[1..], s');
    } else {
      assert s.txn.parent == up || HasAncestor(s.txn.parent, up);
    }
  }

  /** A free page is not so protected: the child may allocate it, spill it and abort, and its
      bytes stay in the map. */
  lemma AbortLeavesFreshPage<P>(t: Txn<P>, file: int -> P, p: int, page: P) returns (file': int -> P, child: Txn<P>)
    requires t.Txn? && Ok(t) && p in t.free && p < t.next && t.room > 0 && page != file(p)
    ensures child.Txn? && child.parent == t
    ensures LeadsBelow(t, State(Child(t), file), [Alloc(p, page), Spill({p})], State(child, file'))
    ensures Leads(State(t, file), [Begin, Alloc(p, page), Spill({p}), Abort], State(t, file'))
    ensures Get(t, file', p) != Get(t, file, p)
  {
    hide Leads, LeadsBelow, Lists, Room, Visible;
    var run: seq<Step<P>> := [Begin, Alloc(p, page), Spill({p}), Abort];
    var t2 := Allocated(Child(t), p, page);
    child := Spilling(t2, {p});
    file' := Flushed(file, t2.dirty, {p});
    NotListed(t, p);
    if p in AllSpilled(t) {
      SpilledListed(t, p);
    }
    LeadsNowhere(State(t, file'));
    var r3: seq<Step<P>> := [Abort];
    var r2 := [Spill({p})] + r3;
    var r1 := [Alloc(p, page)] + r2;
    assert run == [Begin] + r1 && r3 == [Abort] + [];
    LeadsFirst(State(child, file'), Abort, State(t, file'), [], State(t, file'));
    LeadsFirst(State(t2, file), Spill({p}), State(child, file'), r3, State(t, file'));
    LeadsFirst(State(Child(t), file), Alloc(p, page), State(t2, file), r2, State(t, file'));
    LeadsFirst(State(t, file), Begin, State(Child(t), file), r1, State(t, file'));
    BelowNowhere(t, State(child, file'));
    var b1: seq<Step<P>> := [Spill({p})];
    assert b1 == b1 + [] && [Alloc(p, page), Spill({p})] == [Alloc(p, page)] + b1;
    BelowFirst(t, State(t2, file), Spill({p}), State(child, file'), [], State(child, file'));
    BelowFirst(t, State(Child(t), file), Alloc(p, page), State(t2, file), b1, State(child, file'));
  }

  lemma BelowNowhere<P>(up: Txn<P>, s: State<P>)
    requires s.txn.Txn? && s.txn.parent == up
    ensures LeadsBelow(up, s, [], s)
  {
  }

  lemma BelowFirst<P>(up: Txn<P>, s: State<P>, step: Step<P>, next: State<P>, run: seq<Step<P>>, s': State<P>)
    requires s.txn.Txn? && s.txn.parent == up
    requires Enabled(s, step) && Apply(s, step) == next && LeadsBelow(up, next, run, s')
    ensures LeadsBelow(up, s, [step] + run, s')
  {
    hide Enabled, Apply;
    assert ([step] + run)[1..] == run;
  }

  lemma LeadsNowhere<P>(s: State<P>)
    ensures Leads(s, [], s)
  {
  }

  lemma LeadsFirst<P>(s: State<P>, step: Step<P>, next: State<P>, run: seq<Step<P>>, s': State<P>)
    requires Enabled(s, step) && Apply(s, step) == next && Leads(next, run, s')
    ensures Leads(s, [step] + run, s')
  {
    hide Enabled, Apply;
    assert ([step] + run)[1..] == run;
  }

  lemma {:induction false} SpilledListed<P>(t: Txn<P>, p: int)
    requires p in AllSpilled(t)
    ensures Find(t, p) != Unlisted
    decreases t
  {
    if p !in t.spill {
      SpilledListed(t.parent, p);
    }
  }

  ghost predicate Leads<P>(s: State<P>, run: seq<Step<P>>, s': State<P>)
    decreases |run|
  {
    if run == [] then s' == s
    else Enabled(s, run[0]) && Leads(Apply(s, run[0]), run[1..], s')
  }

  /** The room stays exact over every run. */
  lemma {:induction false} RunOk<P>(s: State<P>, run: seq<Step<P>>, s': State<P>)
    requires Start(s) || Ok(s.txn)
    requires Leads(s, run, s')
    ensures Ok(s'.txn)
    decreases |run|
  {
    if Start(s) {
      StartOk(s);
    }
    if run != [] {
      StepOk(s, run[0]);
      RunOk(Apply(s, run[0]), run[1..], s');
    }
  }
}
