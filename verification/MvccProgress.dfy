/** That the protocol gets somewhere: readers begin, on the newest commit; a search that nobody
    disturbs finds the oldest reader exactly; a transaction can be committed and is read. */
module MvccProgress {
  import opened Mvcc
  import opened MvccProtocol
  import opened MvccPages

  // ------------------------------------------------------------ readers begin

  /** The reader has got so far with its k-th step of beginning under id t. */
  ghost predicate Stage(reader: Reader, k: int, t: TxnId, snap: Snapshot) {
    match k
    case 0 => reader == Owned
    case 1 => reader == Loaded(t)
    case 2 => reader == Published(t)
    case 3 => reader == Pinned(t)
    case _ => reader == Live(t, snap)
  }

  function Beginning(r: nat): seq<Step> {
    [LoadTxnId(r), Publish(r), Recheck(r), CopyMeta(r)]
  }

  predicate IsOwn(step: Step, r: nat) {
    ReaderStep(step) && step.r == r
  }

  /** The steps of reader r in a run. */
  function OwnSteps(run: seq<Step>, r: nat): seq<Step>
    decreases |run|
  {
    if run == [] then []
    else if IsOwn(run[0], r) then [run[0]] + OwnSteps(run[1..], r)
    else OwnSteps(run[1..], r)
  }

  /** No commit is published and the machine does not stop. */
  predicate Steady(run: seq<Step>) {
    forall i | 0 <= i < |run| :: run[i] != PublishTxn && run[i] != Crash
  }

  lemma FileAfter(s: State, step: Step)
    requires FileEnabled(s, step) && step != Crash
    ensures var s' := FileApply(s, step);
      && s'.readers == s.readers
      && s'.mti == (if step == PublishTxn then s.writer.id else s.mti)
      && s'.snaps == (if step == WriteMeta then s.snaps[s.writer.id := Sealed(s.writer)] else s.snaps)
      && (step == PublishTxn || step == WriteMeta ==> s.writer.Writer?)
  {
  }

  /** What a step does to the readers, the published id and the snapshots. */
  lemma StepAfter(s: State, step: Step)
    requires Enabled(s, step) && step != Crash
    ensures var s' := Apply(s, step);
      && s'.readers == (if ReaderEnabled(s, step) then s.readers[step.r := ReaderNext(s, step).0] else s.readers)
      && (s'.mti == s.mti || (step == PublishTxn && s.writer.Writer? && s'.mti == s.writer.id))
      && (s'.snaps == s.snaps || (s.writer.Writer? && s'.snaps == s.snaps[s.writer.id := Sealed(s.writer)]))
  {
    hide FileEnabled, FileApply, TreeEnabled, TreeApply, ReaderNext;
    if !ReaderEnabled(s, step) && !FetchEnabled(s, step) && !TreeEnabled(s.writer, step) {
      FileAfter(s, step);
    }
  }

  lemma WriterNext(s: State)
    requires Inv(s)
    ensures s.mti in s.snaps && (s.writer.Writer? ==> s.writer.id == s.mti + 1)
  {
    hide StatePagesOk;
  }

  /** A step of another keeps the reader, the published id and the snapshot under it. */
  lemma OtherKeeps(s: State, step: Step, r: nat)
    requires Inv(s) && Enabled(s, step) && r < |s.readers| && !IsOwn(step, r) && step != PublishTxn && step != Crash
    ensures var s' := Apply(s, step);
      && |s'.readers| == |s.readers| && s'.readers[r] == s.readers[r] && s'.mti == s.mti
      && s.mti in s.snaps && s.mti in s'.snaps && s'.snaps[s.mti] == s.snaps[s.mti]
  {
    hide Inv, Apply, Enabled;
    StepAfter(s, step);
    WriterNext(s);
    if ReaderEnabled(s, step) {
      assert step.r != r;
    }
  }

  lemma NewestMeta(s: State)
    requires Inv(s)
    ensures |s.metas| == 2 && s.mti in s.snaps && s.metas[s.mti % 2] == s.snaps[s.mti]
  {
    BitIs(s.mti);
  }

  /** The reader's own next step. */
  lemma OwnStep(s: State, r: nat, k: nat)
    requires Inv(s) && r < |s.readers| && k < 4 && s.mti in s.snaps
    requires Stage(s.readers[r], k, s.mti, s.snaps[s.mti])
    ensures Enabled(s, Beginning(r)[k])
    ensures var s' := Apply(s, Beginning(r)[k]);
      && |s'.readers| == |s.readers| && s'.mti == s.mti && s'.snaps == s.snaps && s'.writer == s.writer
      && Stage(s'.readers[r], k + 1, s.mti, s.snaps[s.mti])
  {
    hide StatePagesOk;
    NewestMeta(s);
    assert |s.readers| == |s.slots|;
  }

  lemma {:induction false} BeginsFrom(s: State, run: seq<Step>, s': State, r: nat, k: nat)
    requires Inv(s) && Leads(s, run, s') && Steady(run) && r < |s.readers| && k <= 4 && s.mti in s.snaps
    requires Stage(s.readers[r], k, s.mti, s.snaps[s.mti]) && OwnSteps(run, r) == Beginning(r)[k..]
    ensures s'.mti == s.mti && r < |s'.readers| && s'.readers[r] == Live(s.mti, s.snaps[s.mti])
    decreases |run|
  {
    hide Inv, Enabled, Apply;
    if run != [] {
      var s1 := Apply(s, run[0]);
      assert run[0] != PublishTxn && run[0] != Crash;
      StepOk(s, run[0]);
      if IsOwn(run[0], r) {
        assert run[0] == OwnSteps(run, r)[0] == Beginning(r)[k];
        OwnStep(s, r, k);
        assert OwnSteps(run[1..], r) == OwnSteps(run, r)[1..] == Beginning(r)[k + 1..];
        BeginsFrom(s1, run[1..], s', r, k + 1);
      } else {
        OtherKeeps(s, run[0], r);
        BeginsFrom(s1, run[1..], s', r, k);
      }
    }
  }

  /** A reader that takes its steps, however those of others come between, gets the newest
      published commit, unless another one is published meanwhile. */
  lemma BeginSucceeds(s: State, run: seq<Step>, s': State, r: nat)
    requires Reachable(s) && r < |s.readers| && s.readers[r] == Owned
    requires Leads(s, run, s') && Steady(run) && OwnSteps(run, r) == Beginning(r)
    ensures s.mti in s.snaps && r < |s'.readers| && s'.readers[r] == Live(s.mti, s.snaps[s.mti])
  {
    hide Reachable, Inv;
    ReachableOk(s);
    NewestMeta(s);
    assert Beginning(r)[0..] == Beginning(r);
    BeginsFrom(s, run, s', r, 0);
  }

  lemma LeadsStep(s: State, step: Step, run: seq<Step>, s': State)
    requires Enabled(s, step) && Leads(Apply(s, step), run, s')
    ensures Leads(s, [step] + run, s')
  {
    hide Enabled, Apply;
    assert ([step] + run)[1..] == run;
  }

  /** These steps can always be taken. */
  lemma {:induction false} BeginRest(s: State, r: nat, k: nat) returns (s': State)
    requires Inv(s) && r < |s.readers| && k <= 4 && s.mti in s.snaps
    requires Stage(s.readers[r], k, s.mti, s.snaps[s.mti])
    ensures Leads(s, Beginning(r)[k..], s') && Inv(s') && s'.mti == s.mti && s'.snaps == s.snaps && s'.writer == s.writer
    ensures r < |s'.readers| && s'.readers[r] == Live(s.mti, s.snaps[s.mti])
    decreases 4 - k
  {
    hide Inv, Enabled, Apply;
    if k == 4 {
      s' := s;
    } else {
      var step := Beginning(r)[k];
      OwnStep(s, r, k);
      StepOk(s, step);
      s' := BeginRest(Apply(s, step), r, k + 1);
      LeadsStep(s, step, Beginning(r)[k + 1..], s');
      assert Beginning(r)[k..] == [step] + Beginning(r)[k + 1..];
    }
  }

  lemma BeginPossible(s: State, r: nat) returns (s': State)
    requires Reachable(s) && r < |s.readers| && s.readers[r] == Owned
    ensures Leads(s, Beginning(r), s') && s.mti in s.snaps && s'.mti == s.mti
    ensures r < |s'.readers| && s'.readers[r] == Live(s.mti, s.snaps[s.mti])
  {
    hide Reachable, Inv;
    ReachableOk(s);
    NewestMeta(s);
    s' := BeginRest(s, r, 0);
    assert Beginning(r)[0..] == Beginning(r);
  }

  lemma {:induction false} LeadsOn(s: State, a: seq<Step>, mid: State, b: seq<Step>, s': State)
    requires Leads(s, a, mid) && Leads(mid, b, s')
    ensures Leads(s, a + b, s')
    decreases |a|
  {
    hide Enabled, Apply;
    if a == [] {
      assert a + b == b;
    } else {
      LeadsOn(Apply(s, a[0]), a[1..], mid, b, s');
      assert (a + b)[1..] == a[1..] + b;
    }
  }

  lemma LeadsOne(s: State, step: Step)
    requires Enabled(s, step)
    ensures Leads(s, [step], Apply(s, step))
  {
    hide Enabled, Apply;
    assert [step][1..] == [];
    assert Leads(Apply(s, step), [], Apply(s, step));
  }

  lemma ClaimSteps(s: State, r: nat)
    requires Inv(s) && r < |s.readers| && s.readers[r] == Vacant && r <= s.numReaders
    requires forall q | 0 <= q < |s.readers| :: !s.readers[q].Resetting? && !s.readers[q].Counting?
    ensures Enabled(s, ClaimReset(r))
    ensures var s1 := Apply(s, ClaimReset(r));
      && Enabled(s1, ClaimCount(r))
      && var s2 := Apply(s1, ClaimCount(r));
         && Enabled(s2, ClaimPid(r))
         && var s3 := Apply(s2, ClaimPid(r));
            r < |s3.readers| && s3.readers[r] == Owned && s3.mti == s.mti && s3.snaps == s.snaps
  {
    hide StatePagesOk, HistoryOk, OldestOk, WriterOk;
    assert ReaderOk(s.readers[r], s.slots[r], r < s.numReaders, s.mti, s.snaps);
  }

  /** A slot within reach that no thread owns can be claimed while no other thread is claiming
      one; its new owner can then begin. */
  lemma ClaimPossible(s: State, r: nat) returns (s': State)
    requires Reachable(s) && r < |s.readers| && s.readers[r] == Vacant && r <= s.numReaders
    requires forall q | 0 <= q < |s.readers| :: !s.readers[q].Resetting? && !s.readers[q].Counting?
    ensures Leads(s, [ClaimReset(r), ClaimCount(r), ClaimPid(r)] + Beginning(r), s')
    ensures s.mti in s.snaps && r < |s'.readers| && s'.readers[r] == Live(s.mti, s.snaps[s.mti])
  {
    hide Reachable, Inv, Leads, Apply, Enabled;
    ReachableOk(s);
    NewestMeta(s);
    ClaimSteps(s, r);
    var s1 := Apply(s, ClaimReset(r));
    var s2 := Apply(s1, ClaimCount(r));
    var s3 := Apply(s2, ClaimPid(r));
    StepOk(s, ClaimReset(r));
    StepOk(s1, ClaimCount(r));
    StepOk(s2, ClaimPid(r));
    s' := BeginRest(s3, r, 0);
    assert Beginning(r)[0..] == Beginning(r);
    LeadsStep(s2, ClaimPid(r), Beginning(r), s');
    LeadsStep(s1, ClaimCount(r), [ClaimPid(r)] + Beginning(r), s');
    LeadsStep(s, ClaimReset(r), [ClaimCount(r)] + ([ClaimPid(r)] + Beginning(r)), s');
    assert [ClaimReset(r), ClaimCount(r), ClaimPid(r)] + Beginning(r)
        == [ClaimReset(r)] + ([ClaimCount(r)] + ([ClaimPid(r)] + Beginning(r)));
  }

  // ------------------------------------------------------------ readers are not behind

  /** The reader has not loaded an id older than m. */
  predicate NotBefore(reader: Reader, m: TxnId) {
    reader.Loaded? || reader.Published? || reader.Pinned? || reader.Live? ==> reader.t >= m
  }

  lemma StepNotBefore(s: State, step: Step, r: nat, m: TxnId)
    requires Inv(s) && Enabled(s, step) && step != Crash && r < |s.readers| && NotBefore(s.readers[r], m) && m <= s.mti
    ensures var s' := Apply(s, step); r < |s'.readers| && NotBefore(s'.readers[r], m) && m <= s'.mti
  {
    hide Inv, Apply, Enabled;
    StepAfter(s, step);
    WriterNext(s);
  }

  lemma {:induction false} RunNotBefore(s: State, run: seq<Step>, s': State, r: nat, m: TxnId)
    requires Inv(s) && Leads(s, run, s') && (forall i | 0 <= i < |run| :: run[i] != Crash)
    requires r < |s.readers| && NotBefore(s.readers[r], m) && m <= s.mti
    ensures Inv(s') && r < |s'.readers| && NotBefore(s'.readers[r], m) && m <= s'.mti
    decreases |run|
  {
    hide Inv, Enabled, Apply, NotBefore;
    if run != [] {
      StepOk(s, run[0]);
      StepNotBefore(s, run[0], r, m);
      RunNotBefore(Apply(s, run[0]), run[1..], s', r, m);
    }
  }

  /** A read transaction that begins after a commit is published never gets an older snapshot,
      whatever happens while it begins. */
  lemma FreshReads(s: State, run: seq<Step>, s': State, r: nat)
    requires Reachable(s) && Leads(s, run, s') && (forall i | 0 <= i < |run| :: run[i] != Crash)
    requires r < |s.readers|
    requires s.readers[r] == Vacant || s.readers[r] == Resetting || s.readers[r] == Counting || s.readers[r] == Owned
    ensures r < |s'.readers|
    ensures s'.readers[r].Live? ==>
      var snap := s'.readers[r].snap; s.mti <= snap.id && snap.id in s'.snaps && s'.snaps[snap.id] == snap
  {
    hide Reachable, StatePagesOk, HistoryOk, MetasOk, OldestOk, WriterOk;
    ReachableOk(s);
    RunNotBefore(s, run, s', r, s.mti);
    assert ReaderOk(s'.readers[r], s'.slots[r], r < s'.numReaders, s'.mti, s'.snaps);
  }

  // ------------------------------------------------------------ the oldest reader

  /** The slot shows the search a transaction that is running. */
  predicate Shows(slot: Slot) {
    slot.pid && slot.txnid.Set?
  }

  /** o is the oldest id that the first n slots show, or top when none is older. */
  ghost predicate OldestShown(slots: seq<Slot>, n: nat, top: TxnId, o: TxnId) {
    && n <= |slots| && o <= top
    && (forall q | 0 <= q < n && Shows(slots[q]) :: o <= slots[q].txnid.txnid)
    && (o == top || exists q :: 0 <= q < n && Shows(slots[q]) && slots[q].txnid.txnid == o)
  }

  function ScanSteps(slots: seq<Slot>, left: nat): seq<Step>
    requires left <= |slots|
  {
    if left == 0 then [ScanDone]
    else [ScanPid] + (if slots[left - 1].pid then [ScanTxnId] else []) + ScanSteps(slots, left - 1)
  }

  predicate Scanning(s: State, left: nat, oldest: TxnId) {
    && s.writer.Writer? && s.writer.phase == Filling && s.writer.env < |s.oldest|
    && s.writer.scan == Scan(left, oldest, false) && left <= |s.slots|
  }

  /** The slot left - 1 is looked at, by one step or two. */
  lemma ScanSlot(s: State, left: nat, oldest: TxnId) returns (o: TxnId)
    requires Scanning(s, left, oldest) && left > 0
    ensures var run := [ScanPid] + if s.slots[left - 1].pid then [ScanTxnId] else [];
      Leads(s, run, s.(writer := s.writer.(scan := Scan(left - 1, o, false))))
    ensures var slot := s.slots[left - 1];
      o == if Shows(slot) && slot.txnid.txnid < oldest then slot.txnid.txnid else oldest
  {
    hide Leads;
    var slot := s.slots[left - 1];
    o := if Shows(slot) && slot.txnid.txnid < oldest then slot.txnid.txnid else oldest;
    var s1 := Apply(s, ScanPid);
    LeadsOne(s, ScanPid);
    if slot.pid {
      LeadsOne(s1, ScanTxnId);
      LeadsOn(s, [ScanPid], s1, [ScanTxnId], Apply(s1, ScanTxnId));
    } else {
      assert [ScanPid] + [] == [ScanPid];
    }
  }

  lemma {:induction false} ScanRest(s: State, left: nat, oldest: TxnId) returns (o: TxnId)
    requires Scanning(s, left, oldest)
    ensures OldestShown(s.slots, left, oldest, o)
    ensures Leads(s, ScanSteps(s.slots, left),
                  s.(oldest := s.oldest[s.writer.env := o], writer := s.writer.(scan := NoScan)))
    decreases left
  {
    hide Leads, Enabled, Apply;
    var s' := s.(oldest := s.oldest[s.writer.env := oldest], writer := s.writer.(scan := NoScan));
    if left == 0 {
      o := oldest;
      ScanEnds(s, oldest);
      LeadsOne(s, ScanDone);
    } else {
      var o1 := ScanSlot(s, left, oldest);
      var s1 := s.(writer := s.writer.(scan := Scan(left - 1, o1, false)));
      o := ScanRest(s1, left - 1, o1);
      var run := [ScanPid] + if s.slots[left - 1].pid then [ScanTxnId] else [];
      LeadsOn(s, run, s1, ScanSteps(s.slots, left - 1),
              s.(oldest := s.oldest[s.writer.env := o], writer := s.writer.(scan := NoScan)));
    }
  }

  lemma ScanEnds(s: State, oldest: TxnId)
    requires Scanning(s, 0, oldest)
    ensures Enabled(s, ScanDone)
    ensures Apply(s, ScanDone) == s.(oldest := s.oldest[s.writer.env := oldest], writer := s.writer.(scan := NoScan))
  {
  }

  /** A search that nobody disturbs can always be made; it finds the oldest transaction shown by
      the slots in use, or the writer's predecessor, and changes nothing else. */
  lemma ScanFinds(s: State) returns (o: TxnId, s': State)
    requires Reachable(s) && s.writer.Writer? && s.writer.phase == Filling && s.writer.scan.NoScan?
    ensures s.numReaders <= |s.slots| && s.writer.id == s.mti + 1 && s.writer.env < |s.oldest|
    ensures OldestShown(s.slots, s.numReaders, s.mti, o)
    ensures s' == s.(oldest := s.oldest[s.writer.env := o])
    ensures Leads(s, [ScanStart] + ScanSteps(s.slots, s.numReaders), s')
  {
    hide Reachable, Leads, StatePagesOk;
    ReachableOk(s);
    var s1 := Apply(s, ScanStart);
    o := ScanRest(s1, s.numReaders, s.writer.id - 1);
    s' := s.(oldest := s.oldest[s.writer.env := o]);
    LeadsStep(s, ScanStart, ScanSteps(s.slots, s.numReaders), s');
  }

  /** A record older than every transaction shown, and than the last commit, is consumed after
      such a search: its pages are up for allocation. */
  lemma OldRecordsReturn(s: State, k: TxnId) returns (run: seq<Step>, s': State)
    requires Reachable(s) && s.writer.Writer? && s.writer.phase == Filling && s.writer.scan.NoScan?
    requires IsNextRecord(s.writer.free, s.writer.last, k) && k < s.mti
    requires forall q | 0 <= q < s.numReaders && q < |s.slots| && Shows(s.slots[q]) :: k < s.slots[q].txnid.txnid
    ensures Leads(s, run, s') && s'.writer.Writer? && s.writer.free[k] <= s'.writer.head
  {
    hide Reachable, Leads;
    var o, s1 := ScanFinds(s);
    assert Enabled(s1, Fetch(k));
    s' := Apply(s1, Fetch(k));
    LeadsOne(s1, Fetch(k));
    LeadsOn(s, [ScanStart] + ScanSteps(s.slots, s.numReaders), s1, [Fetch(k)], s');
    run := [ScanStart] + ScanSteps(s.slots, s.numReaders) + [Fetch(k)];
  }

  lemma Ending(s: State, r: nat)
    requires Inv(s) && r < |s.readers| && s.readers[r].Live?
    ensures Enabled(s, EndRead(r)) && r < |s.slots|
    ensures var s' := Apply(s, EndRead(r));
      && s'.writer == s.writer && s'.mti == s.mti && s'.numReaders == s.numReaders && s'.oldest == s.oldest
      && s'.slots == s.slots[r := s'.slots[r]] && !Shows(s'.slots[r])
      && s'.readers == s.readers[r := Owned]
  {
    hide StatePagesOk, HistoryOk, OldestOk, WriterOk;
  }

  lemma ReachableOn(s: State, step: Step)
    requires Reachable(s) && Enabled(s, step)
    ensures Reachable(Apply(s, step))
  {
    hide Enabled, Apply;
    var n: nat, p: nat, run :| Leads(Fresh(n, p), run, s);
    LeadsOne(s, step);
    LeadsOn(Fresh(n, p), run, s, [step], Apply(s, step));
  }

  lemma Releasing(s: State, r: nat)
    requires Inv(s) && r < |s.readers| && s.readers[r] == Owned
    requires forall q | 0 <= q < |s.readers| :: !s.readers[q].Resetting? && !s.readers[q].Counting?
    ensures Enabled(s, ReleaseSlot(r)) && r < s.numReaders
    ensures var s' := Apply(s, ReleaseSlot(r));
      && r < |s'.readers| && s'.readers[r] == Vacant
      && s'.numReaders == s.numReaders && s'.mti == s.mti && s'.snaps == s.snaps
      && forall q | 0 <= q < |s'.readers| :: !s'.readers[q].Resetting? && !s'.readers[q].Counting?
  {
    hide StatePagesOk, HistoryOk, OldestOk, WriterOk;
    assert ReaderOk(s.readers[r], s.slots[r], r < s.numReaders, s.mti, s.snaps);
  }

  /** A slot given back when its thread ends can be claimed anew, and its next owner begins on
      the newest commit. */
  lemma ReleasedReused(s: State, r: nat) returns (s': State)
    requires Reachable(s) && r < |s.readers| && s.readers[r] == Owned
    requires forall q | 0 <= q < |s.readers| :: !s.readers[q].Resetting? && !s.readers[q].Counting?
    ensures Leads(s, [ReleaseSlot(r)] + ([ClaimReset(r), ClaimCount(r), ClaimPid(r)] + Beginning(r)), s')
    ensures s.mti in s.snaps && r < |s'.readers| && s'.readers[r] == Live(s.mti, s.snaps[s.mti])
  {
    hide Reachable, Inv, Leads, Apply, Enabled;
    ReachableOk(s);
    Releasing(s, r);
    ReachableOn(s, ReleaseSlot(r));
    s' := ClaimPossible(Apply(s, ReleaseSlot(r)), r);
    LeadsStep(s, ReleaseSlot(r), [ClaimReset(r), ClaimCount(r), ClaimPid(r)] + Beginning(r), s');
  }

  /** When the only transaction that the slots show ends, the next search finds no reader: the
      writer may consume every record older than the last commit. */
  lemma LastReaderEnds(s: State, r: nat) returns (s': State)
    requires Reachable(s) && s.writer.Writer? && s.writer.phase == Filling && s.writer.scan.NoScan?
    requires r < |s.readers| && s.readers[r].Live?
    requires forall q | 0 <= q < |s.slots| && q != r :: !Shows(s.slots[q])
    ensures s.writer.env < |s'.oldest| && s'.oldest[s.writer.env] == s.mti
    ensures exists run :: Leads(s, [EndRead(r)] + run, s')
  {
    hide Reachable, Inv, Leads, Enabled, Apply;
    ReachableOk(s);
    Ending(s, r);
    ReachableOn(s, EndRead(r));
    var s1 := Apply(s, EndRead(r));
    var o;
    o, s' := ScanFinds(s1);
    var run := [ScanStart] + ScanSteps(s1.slots, s1.numReaders);
    LeadsStep(s, EndRead(r), run, s');
    assert o == s.mti;
  }

  // ------------------------------------------------------------ pages come back

  predicate Fills(s: State) {
    s.writer.Writer? && s.writer.phase == Filling
  }

  /** A dirty page given up as loose serves the next allocation, at no cost in page numbers. */
  lemma LooseReused(s: State, p: Pgno, page: Page) returns (s': State)
    requires Inv(s) && Fills(s) && p in s.writer.tree && p in s.writer.dirty
    ensures Leads(s, [Loosen(p), NewPage(p, page, FromLoose)], s')
    ensures s' == s.(writer := s.writer.(tree := s.writer.tree[p := page]))
  {
    hide Inv, Leads;
    var s1 := Apply(s, Loosen(p));
    s' := Apply(s1, NewPage(p, page, FromLoose));
    LooseApart(s, p);
    assert s1.writer.loose - {p} == s.writer.loose;
    assert s1.writer.tree[p := page] == s.writer.tree[p := page];
    LeadsOne(s1, NewPage(p, page, FromLoose));
    LeadsStep(s, Loosen(p), [NewPage(p, page, FromLoose)], s');
    assert [Loosen(p), NewPage(p, page, FromLoose)] == [Loosen(p)] + [NewPage(p, page, FromLoose)];
  }

  lemma LooseApart(s: State, p: Pgno)
    requires Inv(s) && Fills(s) && p in s.writer.tree
    ensures p !in s.writer.loose && p !in s.writer.head
  {
    assert Parts(s.writer);
  }

  /** A page given back to me_pghead is allocated again from there. */
  lemma GivenBackReused(s: State, p: Pgno, page: Page) returns (s': State)
    requires Inv(s) && Fills(s) && s.writer.last > 0
    requires p in s.writer.tree && (p in s.writer.dirty || p in s.writer.spilled)
    ensures Leads(s, [GiveBack(p), NewPage(p, page, FromHead)], s')
    ensures s'.writer.Writer? && s'.writer.tree == s.writer.tree[p := page] && s'.writer.head == s.writer.head
    ensures s'.writer.dirty == s.writer.dirty + {p} && s'.writer.spilled == s.writer.spilled - {p}
    ensures s'.writer.next == s.writer.next && s'.mem == s.mem
  {
    hide Inv, Leads;
    var s1 := Apply(s, GiveBack(p));
    s' := Apply(s1, NewPage(p, page, FromHead));
    LooseApart(s, p);
    LeadsOne(s1, NewPage(p, page, FromHead));
    LeadsStep(s, GiveBack(p), [NewPage(p, page, FromHead)], s');
    assert [GiveBack(p), NewPage(p, page, FromHead)] == [GiveBack(p)] + [NewPage(p, page, FromHead)];
  }

  /** A dirty page that is spilled is in the file as it was, and can be taken back. */
  lemma SpilledTakenBack(s: State, p: Pgno) returns (s': State)
    requires Inv(s) && Fills(s) && p in s.writer.tree && p in s.writer.dirty
    ensures Leads(s, [Spill(p, s.writer.tree[p]), Unspill(p)], s')
    ensures s' == s.(mem := s.mem[p := s.writer.tree[p]])
  {
    hide Inv, Leads;
    var spill := Spill(p, s.writer.tree[p]);
    LooseApart(s, p);
    SpilledApart(s);
    assert FileEnabled(s, spill);
    var s1 := Apply(s, spill);
    s' := Apply(s1, Unspill(p));
    assert s'.writer.dirty == s.writer.dirty && s'.writer.spilled == s.writer.spilled;
    LeadsOne(s1, Unspill(p));
    LeadsStep(s, spill, [Unspill(p)], s');
    assert [spill, Unspill(p)] == [spill] + [Unspill(p)];
  }

  lemma SpilledApart(s: State)
    requires Inv(s) && Fills(s)
    ensures s.writer.dirty !! s.writer.spilled
  {
  }

  // ------------------------------------------------------------ committing

  /** Records for all that is left of me_pghead and for the loose pages: one will do. */
  function OneRecord(w: Writer): FreeDb
    requires w.Writer?
  {
    if w.head + w.loose == {} then map[] else map[w.last := w.head + w.loose]
  }

  lemma SavePossible(s: State) returns (run: seq<Step>, s': State)
    requires Inv(s) && s.writer.Writer? && s.writer.phase == Filling && s.writer.scan.NoScan?
    ensures Leads(s, run, s') && Inv(s') && s'.writer.Writer? && s'.writer.phase == Saved
    ensures s' == s.(writer := s'.writer) && s'.writer.tree == s.writer.tree && s'.writer.id == s.writer.id
  {
    hide Leads, Inv, Enabled, Apply;
    var s1 := s;
    run := [];
    LeadsNone(s);
    if s.writer.last == 0 {
      FreeingLoose(s);
      StepOk(s, FreeLoose);
      s1 := Apply(s, FreeLoose);
      LeadsOne(s, FreeLoose);
      run := [FreeLoose];
    }
    var save := SaveFreelist(OneRecord(s1.writer));
    OneRecordSaves(s1);
    Saving(s1, OneRecord(s1.writer));
    StepOk(s1, save);
    s' := Apply(s1, save);
    LeadsOne(s1, save);
    LeadsOn(s, run, s1, [save], s');
    run := run + [save];
  }

  lemma LeadsNone(s: State)
    ensures Leads(s, [], s)
  {
  }

  lemma FreeingLoose(s: State)
    requires s.writer.Writer? && s.writer.phase == Filling && s.writer.last == 0
    ensures Enabled(s, FreeLoose)
    ensures var s' := Apply(s, FreeLoose);
      && s'.writer.Writer? && s' == s.(writer := s'.writer)
      && s'.writer == s.writer.(freed := s'.writer.freed, dirty := s'.writer.dirty, loose := {})
  {
  }

  lemma Saving(s: State, recs: FreeDb)
    requires Enabled(s, SaveFreelist(recs))
    ensures s.writer.Writer?
    ensures var s' := Apply(s, SaveFreelist(recs));
      && s'.writer.Writer? && s'.writer.phase == Saved && s' == s.(writer := s'.writer)
      && s'.writer.tree == s.writer.tree && s'.writer.id == s.writer.id
  {
  }

  lemma OneRecordSaves(s: State)
    requires Inv(s) && s.writer.Writer? && s.writer.phase == Filling && s.writer.scan.NoScan?
    requires s.writer.last == 0 ==> s.writer.loose == {}
    ensures Enabled(s, SaveFreelist(OneRecord(s.writer)))
  {
    hide ProtocolOk, SnapshotsOk, Intact, FreeDbsSafe, Unneeded, Parts;
    var w, recs := s.writer, OneRecord(s.writer);
    assert Filled(w, s.snaps[s.mti]);
    assert RecPagesAre(recs, w.head + w.loose) by {
      forall p | p in w.head + w.loose
        ensures exists k | k in recs :: p in recs[k]
      {
        assert w.last in recs && p in recs[w.last];
      }
    }
    assert CanSave(w, recs);
  }

  /** Every dirty page is written. */
  lemma {:induction false} FlushPossible(s: State) returns (run: seq<Step>, s': State)
    requires Inv(s) && s.writer.Writer? && s.writer.phase == Saved
    ensures Leads(s, run, s') && Inv(s') && s'.writer.Writer? && s'.writer.phase == Flushed
    ensures s' == s.(writer := s'.writer, mem := s'.mem)
    ensures s'.writer.tree == s.writer.tree && s'.writer.id == s.writer.id
    decreases |s.writer.dirty|
  {
    hide Inv, Leads;
    var w := s.writer;
    if w.dirty == {} {
      StepOk(s, FlushDone);
      LeadsOne(s, FlushDone);
      run, s' := [FlushDone], Apply(s, FlushDone);
    } else {
      var p :| p in w.dirty;
      var step := Flush(p, if p in w.tree then w.tree[p] else Page(0));
      var s1 := Apply(s, step);
      StepOk(s, step);
      LeadsOne(s, step);
      assert s1.writer.dirty == w.dirty - {p};
      run, s' := FlushPossible(s1);
      LeadsOn(s, [step], s1, run, s');
      run := [step] + run;
    }
  }

  lemma WritePossible(s: State) returns (s': State)
    requires Inv(s) && s.writer.Writer? && s.writer.phase == Flushed
    ensures Leads(s, [SyncData, WriteMeta, SyncMeta, PublishTxn], s') && Inv(s')
    ensures s'.mti == s.mti + 1 == s.writer.id && s'.writer == NoWriter && s'.readers == s.readers
    ensures s'.snaps == s.snaps[s.writer.id := s'.snaps[s.mti + 1]] && s'.snaps[s.mti + 1].tree == s.writer.tree
  {
    hide Inv, Leads, Enabled, Apply;
    WriterNext(s);
    MetasTwo(s);
    Syncing(s);
    var s1 := Apply(s, SyncData);
    StepOk(s, SyncData);
    WritingMeta(s1);
    var s2 := Apply(s1, WriteMeta);
    StepOk(s1, WriteMeta);
    SyncingMeta(s2);
    var s3 := Apply(s2, SyncMeta);
    StepOk(s2, SyncMeta);
    Publishing(s3);
    s' := Apply(s3, PublishTxn);
    StepOk(s3, PublishTxn);
    LeadsOne(s3, PublishTxn);
    LeadsStep(s2, SyncMeta, [PublishTxn], s');
    LeadsStep(s1, WriteMeta, [SyncMeta] + [PublishTxn], s');
    LeadsStep(s, SyncData, [WriteMeta] + ([SyncMeta] + [PublishTxn]), s');
    assert [SyncData, WriteMeta, SyncMeta, PublishTxn] == [SyncData] + ([WriteMeta] + ([SyncMeta] + [PublishTxn]));
  }

  lemma Syncing(s: State)
    requires s.writer.Writer? && s.writer.phase == Flushed
    ensures Enabled(s, SyncData)
    ensures Apply(s, SyncData) == s.(disk := s.mem, writer := s.writer.(phase := Synced))
  {
  }

  lemma WritingMeta(s: State)
    requires s.writer.Writer? && s.writer.phase == Synced && |s.metas| == 2
    ensures Enabled(s, WriteMeta)
    ensures var s' := Apply(s, WriteMeta);
      && s' == s.(metas := s'.metas, snaps := s.snaps[s.writer.id := Sealed(s.writer)],
                  writer := s.writer.(phase := MetaWritten))
      && |s'.metas| == 2
  {
  }

  lemma SyncingMeta(s: State)
    requires s.writer.Writer? && s.writer.phase == MetaWritten && |s.metas| == 2 && |s.diskMetas| == 2
    ensures Enabled(s, SyncMeta)
    ensures var s' := Apply(s, SyncMeta); s' == s.(diskMetas := s'.diskMetas, writer := s.writer.(phase := MetaDurable))
  {
  }

  lemma Publishing(s: State)
    requires s.writer.Writer? && s.writer.phase == MetaDurable
    ensures Enabled(s, PublishTxn)
    ensures Apply(s, PublishTxn) == s.(mti := s.writer.id, writer := NoWriter)
  {
  }

  lemma MetasTwo(s: State)
    requires Inv(s)
    ensures |s.metas| == 2 && |s.diskMetas| == 2
  {
  }

  /** A transaction that is not searching can be committed: its tree becomes the newest
      snapshot, and the others remain. */
  lemma CommitPossible(s: State) returns (run: seq<Step>, s': State)
    requires Inv(s) && s.writer.Writer? && s.writer.phase == Filling && s.writer.scan.NoScan?
    ensures Leads(s, run, s') && Inv(s')
    ensures s'.mti == s.mti + 1 == s.writer.id && s'.writer == NoWriter && s'.readers == s.readers
    ensures s'.snaps == s.snaps[s.writer.id := s'.snaps[s.mti + 1]] && s'.snaps[s.mti + 1].tree == s.writer.tree
  {
    hide Inv, Leads;
    var a, s1 := SavePossible(s);
    var b, s2 := FlushPossible(s1);
    s' := WritePossible(s2);
    var c := [SyncData, WriteMeta, SyncMeta, PublishTxn];
    LeadsOn(s1, b, s2, c, s');
    LeadsOn(s, a, s1, b + c, s');
    run := a + (b + c);
  }

  // ------------------------------------------------------------ from a write to a read

  lemma TouchPossible(s: State, env: nat, q: Pgno, page: Page) returns (p: Pgno, s': State)
    requires Inv(s) && s.writer == NoWriter && env < |s.oldest| && s.mti in s.snaps && q in s.snaps[s.mti].tree
    ensures Leads(s, [BeginWrite(env), Touch(q, p, FromMap), Modify(p, page)], s') && Inv(s')
    ensures s'.writer.Writer? && s'.writer.phase == Filling && s'.writer.scan.NoScan? && s' == s.(writer := s'.writer)
    ensures s'.writer.id == s.mti + 1 && p !in s.snaps[s.mti].tree
    ensures s'.writer.tree == (s.snaps[s.mti].tree - {q})[p := page]
  {
    hide Inv, Leads, Enabled, Apply;
    NewestMeta(s);
    p := s.snaps[s.mti].next;
    NextIsNew(s);
    TouchSteps(s, env, q, page);
    var s1 := Apply(s, BeginWrite(env));
    StepOk(s, BeginWrite(env));
    var s2 := Apply(s1, Touch(q, p, FromMap));
    StepOk(s1, Touch(q, p, FromMap));
    s' := Apply(s2, Modify(p, page));
    StepOk(s2, Modify(p, page));
    LeadsOne(s2, Modify(p, page));
    LeadsStep(s1, Touch(q, p, FromMap), [Modify(p, page)], s');
    LeadsStep(s, BeginWrite(env), [Touch(q, p, FromMap)] + [Modify(p, page)], s');
    assert [BeginWrite(env), Touch(q, p, FromMap), Modify(p, page)]
        == [BeginWrite(env)] + ([Touch(q, p, FromMap)] + [Modify(p, page)]);
  }

  lemma TouchSteps(s: State, env: nat, q: Pgno, page: Page)
    requires s.writer == NoWriter && env < |s.oldest| && |s.metas| == 2 && s.mti in s.snaps
    requires s.metas[s.mti % 2] == s.snaps[s.mti] && q in s.snaps[s.mti].tree
    ensures Enabled(s, BeginWrite(env))
    ensures var p := s.snaps[s.mti].next;
      var s1 := Apply(s, BeginWrite(env));
      && Enabled(s1, Touch(q, p, FromMap))
      && var s2 := Apply(s1, Touch(q, p, FromMap));
         && Enabled(s2, Modify(p, page))
         && var s3 := Apply(s2, Modify(p, page));
            && s3.writer.Writer? && s3.writer.phase == Filling && s3.writer.scan.NoScan?
            && s3 == s.(writer := s3.writer) && s3.writer.id == s.mti + 1
            && s3.writer.tree == (s.snaps[s.mti].tree - {q})[p := page]
  {
    var p: Pgno := s.snaps[s.mti].next;
    var tree: map<Pgno, Page> := s.snaps[s.mti].tree - {q};
    assert tree[p := s.snaps[s.mti].tree[q]][p := page] == tree[p := page];
  }

  lemma NextIsNew(s: State)
    requires Inv(s)
    ensures s.mti in s.snaps && s.snaps[s.mti].next !in s.snaps[s.mti].tree
  {
    assert Conserved(s.snaps[s.mti]);
  }

  /** What one transaction writes the next reader reads: in every reachable state without a
      writer, a page can be changed and the change committed, and a reader then begins on a
      snapshot that differs from the one before in this page only. */
  lemma WrittenIsRead(s: State, env: nat, q: Pgno, page: Page, r: nat)
    returns (p: Pgno, run: seq<Step>, s': State)
    requires Reachable(s) && s.writer == NoWriter && env < |s.oldest| && r < |s.readers| && s.readers[r] == Owned
    requires s.mti in s.snaps && q in s.snaps[s.mti].tree
    ensures Leads(s, run, s') && r < |s'.readers| && s'.readers[r].Live?
    ensures s'.readers[r].snap.id == s.mti + 1 && p !in s.snaps[s.mti].tree
    ensures s'.readers[r].snap.tree == (s.snaps[s.mti].tree - {q})[p := page]
  {
    hide Reachable, Inv, Leads;
    ReachableOk(s);
    var s1, s2, commit;
    p, s1 := TouchPossible(s, env, q, page);
    commit, s2 := CommitPossible(s1);
    NewestMeta(s2);
    s' := BeginRest(s2, r, 0);
    assert Beginning(r)[0..] == Beginning(r);
    LeadsOn(s1, commit, s2, Beginning(r), s');
    var first := [BeginWrite(env), Touch(q, p, FromMap), Modify(p, page)];
    LeadsOn(s, first, s1, commit + Beginning(r), s');
    run := first + (commit + Beginning(r));
    SnapIds(s2);
  }

  lemma SnapIds(s: State)
    requires Inv(s)
    ensures s.mti in s.snaps && s.snaps[s.mti].id == s.mti
  {
  }
}
