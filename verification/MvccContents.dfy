/** What a write transaction makes of the pages: each page of the snapshot that it began with is
    followed through the copies to the place where it ends, and what is written on it last is
    what the committed snapshot holds. */
module MvccContents {
  import opened Mvcc
  import opened MvccProtocol
  import opened MvccPages

  /** Where a page is and what it holds. */
  datatype Fate = Gone | At(p: Pgno, page: Page)

  /** What one step of any process means for a page: a copy takes it to another page number, a
      write changes what it holds, and a page given up is gone. */
  function Next(f: Fate, step: Step): Fate {
    if f.Gone? then f
    else
      match step
      case Touch(q, p, _) => if q == f.p then At(p, f.page) else f
      case Modify(q, page) => if q == f.p then At(q, page) else f
      case FreePage(q) => if q == f.p then Gone else f
      case Loosen(q) => if q == f.p then Gone else f
      case GiveBack(q) => if q == f.p then Gone else f
      case _ => f
  }

  function Followed(f: Fate, run: seq<Step>): Fate
    decreases |run|
  {
    if run == [] then f else Followed(Next(f, run[0]), run[1..])
  }

  /** The page is among those of the tree, with what it should hold. */
  ghost predicate Among(f: Fate, tree: map<Pgno, Page>) {
    f.At? ==> f.p in tree && tree[f.p] == f.page
  }

  /** The pages that the run brings with it. */
  predicate Brings(run: seq<Step>, i: nat) {
    i < |run| && run[i].NewPage?
  }

  function Brought(run: seq<Step>, i: nat): Fate
    requires Brings(run, i)
  {
    Followed(At(run[i].p, run[i].page), run[i + 1..])
  }

  /** Tree `to` holds what the run makes of tree `from`: every page of `from` and every new page
      where the run has left it, and nothing else. */
  ghost predicate Makes(from: map<Pgno, Page>, run: seq<Step>, to: map<Pgno, Page>) {
    && (forall q | q in from :: Among(Followed(At(q, from[q]), run), to))
    && (forall i: nat | Brings(run, i) :: Among(Brought(run, i), to))
    && (forall p | p in to :: Known(from, run, p, to[p]))
  }

  ghost predicate Known(from: map<Pgno, Page>, run: seq<Step>, p: Pgno, page: Page) {
    || (exists q :: q in from && Followed(At(q, from[q]), run) == At(p, page))
    || (exists i: nat :: Brings(run, i) && Brought(run, i) == At(p, page))
  }

  /** Steps while one write transaction runs, up to the publication of its id. */
  predicate Within(run: seq<Step>) {
    forall i | 0 <= i < |run| :: !run[i].BeginWrite? && !run[i].PublishTxn? && run[i] != Abort && run[i] != Crash
  }

  /** A page number that is allocated is not one of the tree. */
  lemma TakenIsNew(s: State, p: Pgno, src: Source)
    requires Inv(s) && s.writer.Writer? && s.writer.phase == Filling && CanTake(s.writer, p, src)
    ensures p !in s.writer.tree
  {
    assert Parts(s.writer);
  }

  lemma TreeMakes(w: Writer, step: Step)
    requires TreeEnabled(w, step) && (step.Touch? || step.NewPage? ==> step.p !in w.tree)
    ensures StepMakesOf(w.tree, step, TreeApply(w, step).tree)
  {
    var tree := TreeApply(w, step).tree;
    forall p | p in tree
      ensures KnownStep(w.tree, step, p, tree[p])
    {
      var q := if step.Touch? && p == step.p then step.q else p;
      assert !(step.NewPage? && p == step.p) ==> q in w.tree && Next(At(q, w.tree[q]), step) == At(p, tree[p]);
    }
  }

  ghost predicate KnownStep(from: map<Pgno, Page>, step: Step, p: Pgno, page: Page) {
    || (step.NewPage? && p == step.p && page == step.page)
    || exists q :: q in from && Next(At(q, from[q]), step) == At(p, page)
  }

  ghost predicate StepMakesOf(from: map<Pgno, Page>, step: Step, to: map<Pgno, Page>) {
    && (forall q | q in from :: Among(Next(At(q, from[q]), step), to))
    && (step.NewPage? ==> Among(At(step.p, step.page), to))
    && (forall p | p in to :: KnownStep(from, step, p, to[p]))
  }

  /** One step: what it makes of the writer's tree. */
  lemma StepMakes(s: State, step: Step)
    requires Inv(s) && Enabled(s, step) && s.writer.Writer? && Within([step])
    ensures var s' := Apply(s, step);
      && s'.writer.Writer? && s'.writer.id == s.writer.id && s'.mti == s.mti
      && StepMakesOf(s.writer.tree, step, s'.writer.tree)
  {
    hide Inv;
    assert [step][0] == step;
    if TreeEnabled(s.writer, step) {
      if step.Touch? || step.NewPage? {
        TakenIsNew(s, step.p, step.src);
      }
      TreeMakes(s.writer, step);
    } else {
      SameTree(s.writer.tree, step);
    }
  }

  lemma SameTree(tree: map<Pgno, Page>, step: Step)
    requires !step.Touch? && !step.NewPage? && !step.Modify? && !step.FreePage? && !step.Loosen? && !step.GiveBack?
    ensures StepMakesOf(tree, step, tree)
  {
    assert forall q | q in tree :: Next(At(q, tree[q]), step) == At(q, tree[q]);
  }

  lemma MakesOn(from: map<Pgno, Page>, step: Step, mid: map<Pgno, Page>, run: seq<Step>, to: map<Pgno, Page>)
    requires StepMakesOf(from, step, mid) && Makes(mid, run, to)
    ensures Makes(from, [step] + run, to)
  {
    hide Next, Followed, Known, KnownStep, Among;
    var all := [step] + run;
    forall q | q in from
      ensures Among(Followed(At(q, from[q]), all), to)
    {
      FollowedOn(At(q, from[q]), step, run);
      StaysAmong(Next(At(q, from[q]), step), mid, run, to);
    }
    forall i: nat | Brings(all, i)
      ensures Among(Brought(all, i), to)
    {
      if i == 0 {
        assert all[1..] == run;
        StaysAmong(At(step.p, step.page), mid, run, to);
      } else {
        assert Brings(run, i - 1) && all[i + 1..] == run[i..];
      }
    }
    forall p | p in to
      ensures Known(from, all, p, to[p])
    {
      KnownOn(from, step, mid, run, p, to[p]);
    }
  }

  lemma FollowedOn(f: Fate, step: Step, run: seq<Step>)
    ensures Followed(f, [step] + run) == Followed(Next(f, step), run)
  {
    assert ([step] + run)[1..] == run;
  }

  lemma StaysAmong(f: Fate, mid: map<Pgno, Page>, run: seq<Step>, to: map<Pgno, Page>)
    requires Among(f, mid) && forall q | q in mid :: Among(Followed(At(q, mid[q]), run), to)
    ensures Among(Followed(f, run), to)
  {
    if f.Gone? {
      GoneStays(run);
    } else {
      assert f == At(f.p, mid[f.p]);
    }
  }

  lemma KnownOn(from: map<Pgno, Page>, step: Step, mid: map<Pgno, Page>, run: seq<Step>, p: Pgno, page: Page)
    requires Known(mid, run, p, page) && forall q | q in mid :: KnownStep(from, step, q, mid[q])
    ensures Known(from, [step] + run, p, page)
  {
    hide Next, Followed;
    var all := [step] + run;
    if q :| q in mid && Followed(At(q, mid[q]), run) == At(p, page) {
      assert KnownStep(from, step, q, mid[q]);
      if step.NewPage? && q == step.p && mid[q] == step.page {
        assert all[1..] == run;
        assert Brings(all, 0) && Brought(all, 0) == At(p, page);
      } else {
        var q' :| q' in from && Next(At(q', from[q']), step) == At(q, mid[q]);
        FollowedOn(At(q', from[q']), step, run);
      }
    } else {
      var i: nat :| Brings(run, i) && Brought(run, i) == At(p, page);
      assert Brings(all, i + 1) && all[i + 2..] == run[i + 1..];
      assert Brought(all, i + 1) == At(p, page);
    }
  }

  lemma {:induction false} GoneStays(run: seq<Step>)
    ensures Followed(Gone, run) == Gone
    decreases |run|
  {
    if run != [] {
      GoneStays(run[1..]);
    }
  }

  lemma MakesNothing(tree: map<Pgno, Page>)
    ensures Makes(tree, [], tree)
  {
    assert forall q | q in tree :: Followed(At(q, tree[q]), []) == At(q, tree[q]);
  }

  lemma {:induction false} RunMakes(s: State, run: seq<Step>, s': State)
    requires Inv(s) && Leads(s, run, s') && s.writer.Writer? && Within(run)
    ensures Inv(s') && s'.writer.Writer? && s'.writer.id == s.writer.id && s'.mti == s.mti
    ensures Makes(s.writer.tree, run, s'.writer.tree)
    decreases |run|
  {
    hide Inv, Makes, StepMakesOf, Enabled, Apply;
    if run == [] {
      MakesNothing(s.writer.tree);
    } else {
      var s1 := Apply(s, run[0]);
      StepOk(s, run[0]);
      assert [run[0]][0] == run[0];
      StepMakes(s, run[0]);
      RunMakes(s1, run[1..], s');
      MakesOn(s.writer.tree, run[0], s1.writer.tree, run[1..], s'.writer.tree);
      assert [run[0]] + run[1..] == run;
    }
  }

  // ------------------------------------------------------------ commit and abort

  lemma Begun(s: State, env: nat)
    requires Inv(s) && Enabled(s, BeginWrite(env))
    ensures var s' := Apply(s, BeginWrite(env));
      && Inv(s') && s'.writer.Writer? && s'.writer.id == s.mti + 1 && s'.mti == s.mti
      && s.mti in s.snaps && s'.writer.tree == s.snaps[s.mti].tree && s'.snaps == s.snaps && s'.metas == s.metas
  {
    hide StatePagesOk;
    StepOk(s, BeginWrite(env));
    BitIs(s.mti);
  }

  lemma SealedSnap(s: State)
    requires Inv(s) && s.writer.Writer? && MetaOut(s.writer)
    ensures s.writer.id in s.snaps && s.snaps[s.writer.id].tree == s.writer.tree
    ensures |s.metas| == 2 && s.metas[s.writer.id % 2] == s.snaps[s.writer.id]
  {
    BitIs(s.mti + 1);
  }

  /** A run that begins a write transaction in state s and has written its meta page in s'. */
  ghost predicate Commits(s: State, env: nat, run: seq<Step>, s': State) {
    && Enabled(s, BeginWrite(env)) && Leads(Apply(s, BeginWrite(env)), run, s') && Within(run)
    && s'.writer.Writer? && MetaOut(s'.writer)
  }

  /** A committed snapshot holds what the steps of its transaction have made of the snapshot that
      the transaction began with, whatever readers and the machine did in between, and the meta
      page leads to it. */
  lemma CommitHolds(s: State, env: nat, run: seq<Step>, s': State)
    requires Reachable(s) && Commits(s, env, run, s')
    ensures var id := s.mti + 1;
      && s.mti in s.snaps && id in s'.snaps && |s'.metas| == 2 && s'.metas[id % 2] == s'.snaps[id]
      && Makes(s.snaps[s.mti].tree, run, s'.snaps[id].tree)
  {
    hide Inv, Makes, Leads, Enabled, Apply, Reachable;
    ReachableOk(s);
    Begun(s, env);
    RunMakes(Apply(s, BeginWrite(env)), run, s');
    SealedSnap(s');
  }

  /** The step copies, changes or gives up page p. */
  predicate ActsOn(step: Step, p: Pgno) {
    match step
    case Touch(q, _, _) => q == p
    case Modify(q, _) => q == p
    case FreePage(q) => q == p
    case Loosen(q) => q == p
    case GiveBack(q) => q == p
    case _ => false
  }

  predicate Alone(run: seq<Step>, p: Pgno) {
    forall i | 0 <= i < |run| :: !ActsOn(run[i], p)
  }

  lemma {:induction false} StaysThere(p: Pgno, page: Page, run: seq<Step>)
    requires Alone(run, p)
    ensures Followed(At(p, page), run) == At(p, page)
    decreases |run|
  {
    if run != [] {
      assert !ActsOn(run[0], p);
      StaysThere(p, page, run[1..]);
    }
  }

  lemma {:induction false} LeadsSplit(s: State, a: seq<Step>, b: seq<Step>, s': State) returns (mid: State)
    requires Leads(s, a + b, s')
    ensures Leads(s, a, mid) && Leads(mid, b, s')
    decreases |a|
  {
    hide Enabled, Apply;
    if a == [] {
      mid := s;
      assert a + b == b;
    } else {
      assert (a + b)[0] == a[0] && (a + b)[1..] == a[1..] + b;
      mid := LeadsSplit(Apply(s, a[0]), a[1..], b, s');
    }
  }

  lemma Modified(s: State, p: Pgno, page: Page)
    requires Inv(s) && Enabled(s, Modify(p, page))
    ensures var s' := Apply(s, Modify(p, page));
      && Inv(s') && s'.writer.Writer? && p in s'.writer.tree && s'.writer.tree[p] == page
      && s.writer.Writer? && s'.writer.id == s.writer.id && s'.mti == s.mti
  {
    hide Inv;
    StepOk(s, Modify(p, page));
  }

  lemma WithinParts(a: seq<Step>, b: seq<Step>)
    requires Within(a + b)
    ensures Within(a) && Within(b)
  {
    assert forall i | 0 <= i < |a| :: (a + b)[i] == a[i];
    assert forall i | 0 <= i < |b| :: (a + b)[|a| + i] == b[i];
  }

  lemma LastWriteStays(s: State, before: seq<Step>, p: Pgno, page: Page, after: seq<Step>, s': State)
    requires Inv(s) && s.writer.Writer? && Alone(after, p)
    requires Within(before + ([Modify(p, page)] + after)) && Leads(s, before + ([Modify(p, page)] + after), s')
    ensures Inv(s') && s'.writer.Writer? && s'.writer.id == s.writer.id
    ensures p in s'.writer.tree && s'.writer.tree[p] == page
  {
    hide Inv, Makes, Enabled, Apply, Within, Followed;
    var write := [Modify(p, page)] + after;
    WithinParts(before, write);
    WithinParts([Modify(p, page)], after);
    var mid := LeadsSplit(s, before, write, s');
    RunMakes(s, before, mid);
    assert write[0] == Modify(p, page) && write[1..] == after;
    Modified(mid, p, page);
    var s1 := Apply(mid, Modify(p, page));
    RunMakes(s1, after, s');
    StaysThere(p, page, after);
    MakesAmong(s1.writer.tree, after, s'.writer.tree, p);
  }

  /** The last write to a page is what the snapshot holds. */
  lemma LastWriteHolds(s: State, env: nat, before: seq<Step>, p: Pgno, page: Page, after: seq<Step>, s': State)
    requires Reachable(s) && Commits(s, env, before + [Modify(p, page)] + after, s') && Alone(after, p)
    ensures s.mti + 1 in s'.snaps && p in s'.snaps[s.mti + 1].tree && s'.snaps[s.mti + 1].tree[p] == page
  {
    hide Inv, Enabled, Apply, Reachable, Leads, Within, Alone;
    ReachableOk(s);
    Begun(s, env);
    assert before + [Modify(p, page)] + after == before + ([Modify(p, page)] + after);
    LastWriteStays(Apply(s, BeginWrite(env)), before, p, page, after, s');
    SealedSnap(s');
  }

  lemma MakesAmong(from: map<Pgno, Page>, run: seq<Step>, to: map<Pgno, Page>, p: Pgno)
    requires Makes(from, run, to) && p in from
    ensures Among(Followed(At(p, from[p]), run), to)
  {
  }

  /** A page that no step of the transaction acts on is the same in both snapshots. */
  lemma OthersKept(s: State, env: nat, run: seq<Step>, s': State, p: Pgno)
    requires Reachable(s) && Commits(s, env, run, s')
    requires Alone(run, p) && s.mti in s.snaps && p in s.snaps[s.mti].tree
    ensures s.mti + 1 in s'.snaps
    ensures var to := s'.snaps[s.mti + 1].tree; p in to && to[p] == s.snaps[s.mti].tree[p]
  {
    hide Makes, Leads, Enabled, Apply, Reachable;
    CommitHolds(s, env, run, s');
    StaysThere(p, s.snaps[s.mti].tree[p], run);
    MakesAmong(s.snaps[s.mti].tree, run, s'.snaps[s.mti + 1].tree, p);
  }

  lemma {:induction false} NothingWritten(s: State, run: seq<Step>, s': State)
    requires Inv(s) && Leads(s, run, s') && s.writer.Writer? && Within(run)
    requires forall i | 0 <= i < |run| :: run[i] != WriteMeta && run[i] != SyncMeta
    ensures s'.snaps == s.snaps && s'.metas == s.metas && s'.diskMetas == s.diskMetas && s'.mti == s.mti
    ensures s'.writer.Writer? && (!MetaOut(s.writer) ==> !MetaOut(s'.writer))
    decreases |run|
  {
    hide Inv;
    if run != [] {
      StepOk(s, run[0]);
      assert [run[0]][0] == run[0];
      QuietStep(s, run[0]);
      NothingWritten(Apply(s, run[0]), run[1..], s');
    }
  }

  lemma QuietStep(s: State, step: Step)
    requires Enabled(s, step) && s.writer.Writer? && Within([step]) && step != WriteMeta && step != SyncMeta
    ensures var s' := Apply(s, step);
      && s'.snaps == s.snaps && s'.metas == s.metas && s'.diskMetas == s.diskMetas && s'.mti == s.mti
      && s'.writer.Writer? && (!MetaOut(s.writer) ==> !MetaOut(s'.writer))
  {
    assert [step][0] == step;
  }

  /** An aborted transaction leaves nothing behind: no snapshot and no meta page has changed, on
      the disk neither, and the last committed snapshot is whole in the file. */
  lemma AbortLeavesNothing(s: State, env: nat, run: seq<Step>, s': State)
    requires Reachable(s) && Enabled(s, BeginWrite(env)) && Leads(Apply(s, BeginWrite(env)), run, s') && Within(run)
    requires forall i | 0 <= i < |run| :: run[i] != WriteMeta && run[i] != SyncMeta
    ensures Enabled(s', Abort)
    ensures var t := Apply(s', Abort);
      && t.snaps == s.snaps && t.metas == s.metas && t.diskMetas == s.diskMetas && t.mti == s.mti
      && t.writer == NoWriter && s.mti in s.snaps && Holds(t.mem, s.snaps[s.mti].tree)
  {
    hide Inv, Leads, Reachable;
    ReachableOk(s);
    Begun(s, env);
    var s1 := Apply(s, BeginWrite(env));
    NothingWritten(s1, run, s');
    RunOk(s1, run, s');
    StepOk(s', Abort);
    LastWhole(Apply(s', Abort));
  }

  lemma LastWhole(s: State)
    requires Inv(s)
    ensures s.mti in s.snaps && Holds(s.mem, s.snaps[s.mti].tree)
  {
    FloorIs(s.readers, s.mti);
  }
}
