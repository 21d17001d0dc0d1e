/** The guarantees of the protocol, for every reachable state and every run. */
module MvccTheorems {
  import opened Mvcc
  import opened MvccProtocol
  import opened MvccPages

  /** Snapshot isolation: what a live reader was given is a committed snapshot at least as
      new as its pin, every page of it is unchanged in the file, and none of its pages is
      in a writer's hands: not allocated, not reusable, not to be written. */
  lemma ReaderSafety(s: State, r: nat)
    requires Reachable(s) && r < |s.readers| && s.readers[r].Live?
    ensures var reader := s.readers[r];
      && reader.t <= reader.snap.id && reader.snap.id in s.snaps && s.snaps[reader.snap.id] == reader.snap
      && Holds(s.mem, reader.snap.tree)
      && (s.writer.Writer? && !MetaOut(s.writer) ==>
            forall p | p in reader.snap.tree ::
              p !in s.writer.dirty && p !in s.writer.spilled && p !in s.writer.head && p < s.writer.next)
  {
    ReachableOk(s);
    FloorIs(s.readers, s.mti);
    var reader := s.readers[r];
    assert ReaderOk(reader, s.slots[r], r < s.numReaders, s.mti, s.snaps);
    var m := reader.snap.id;
    assert Floor(s.readers, s.mti) <= reader.t <= m;
    if s.writer.Writer? && !MetaOut(s.writer) {
      assert m <= s.mti;
      assert Unneeded(Own(s.writer), s.snaps, Floor(s.readers, s.mti), s.mti);
      assert Conserved(s.snaps[m]) && s.snaps[m].next <= s.snaps[s.mti].next;
    }
  }

  /** A run in which reader r neither ends its transaction nor loses the machine. */
  predicate Undisturbed(run: seq<Step>, r: nat) {
    forall i | 0 <= i < |run| :: run[i] != EndRead(r) && run[i] != Crash
  }

  lemma StepKeepsReader(s: State, step: Step, r: nat)
    requires Enabled(s, step) && r < |s.readers| && s.readers[r].Live?
    requires step != EndRead(r) && step != Crash
    ensures var s' := Apply(s, step); r < |s'.readers| && s'.readers[r] == s.readers[r]
  {
    if ReaderEnabled(s, step) {
      OtherReader(s, step, r);
    }
  }

  lemma OtherReader(s: State, step: Step, r: nat)
    requires ReaderEnabled(s, step) && r < |s.readers| && s.readers[r].Live? && step != EndRead(r)
    ensures var s' := ReaderApply(s, step); r < |s'.readers| && s'.readers[r] == s.readers[r]
  {
    assert step.r != r;
  }

  lemma {:induction false} RunKeepsReader(s: State, run: seq<Step>, s': State, r: nat)
    requires Inv(s) && Leads(s, run, s') && Undisturbed(run, r)
    requires r < |s.readers| && s.readers[r].Live?
    ensures Inv(s') && r < |s'.readers| && s'.readers[r] == s.readers[r]
    decreases |run|
  {
    hide ProtocolOk, StatePagesOk, Enabled, Apply;
    if run != [] {
      assert run[0] != EndRead(r) && run[0] != Crash;
      StepOk(s, run[0]);
      StepKeepsReader(s, run[0], r);
      RunKeepsReader(Apply(s, run[0]), run[1..], s', r);
    }
  }

  lemma LiveIntact(s: State, r: nat)
    requires Inv(s) && r < |s.readers| && s.readers[r].Live?
    ensures Holds(s.mem, s.readers[r].snap.tree)
  {
    FloorIs(s.readers, s.mti);
    assert ReaderOk(s.readers[r], s.slots[r], r < s.numReaders, s.mti, s.snaps);
  }

  /** The unlocked search misses no pin: no process believes in an oldest reader younger than a
      pinned one, and no record that a writer may consume is as young as a pin. */
  lemma SearchRespectsPins(s: State, r: nat)
    requires Reachable(s) && r < |s.readers| && Pins(s.readers[r])
    ensures forall e | 0 <= e < |s.oldest| :: s.oldest[e] <= s.readers[r].t
    ensures forall k: TxnId | FetchEnabled(s, Fetch(k)) :: k < s.readers[r].t
  {
    hide Reachable, StatePagesOk;
    ReachableOk(s);
  }

  /** Repeatable reads: between any two moments of one read transaction, whatever other
      readers, writers and commits did, every page of its snapshot reads the same. */
  lemma RepeatableReads(s: State, run: seq<Step>, s': State, r: nat)
    requires Reachable(s) && Leads(s, run, s') && Undisturbed(run, r)
    requires r < |s.readers| && s.readers[r].Live?
    ensures r < |s'.readers| && s'.readers[r] == s.readers[r]
    ensures forall p | p in s.readers[r].snap.tree :: p in s.mem && p in s'.mem && s'.mem[p] == s.mem[p]
  {
    ReachableOk(s);
    RunKeepsReader(s, run, s', r);
    LiveIntact(s, r);
    LiveIntact(s', r);
  }

  /** Crash safety and durability: whenever the machine stops, the meta page that recovery
      picks leads to a complete, conserved snapshot on the disk, and it is never older
      than the last commit that was reported.  As long as no newer meta page is on the
      disk, the snapshot before it is complete there as well. */
  lemma CrashSafety(s: State)
    requires Reachable(s)
    ensures |s.diskMetas| == 2
    ensures var h := PickMeta(s.diskMetas);
      && s.mti <= h.id <= s.mti + 1
      && h.id in s.snaps && s.snaps[h.id] == h
      && Holds(s.disk, h.tree) && Conserved(h)
    ensures !(s.writer.Writer? && s.writer.phase == MetaDurable) ==>
      Holds(s.disk, s.diskMetas[0].tree) && Holds(s.disk, s.diskMetas[1].tree)
  {
    ReachableOk(s);
    CrashPicks(s);
    if !(s.writer.Writer? && s.writer.phase == MetaDurable) {
      BothMetas(s);
    }
  }

  lemma BothMetas(s: State)
    requires Inv(s) && !(s.writer.Writer? && s.writer.phase == MetaDurable)
    ensures Holds(s.disk, s.diskMetas[0].tree) && Holds(s.disk, s.diskMetas[1].tree)
  {
    assert Bit(s.mti) == 0 || Bit(s.mti) == 1;
    assert Intact(s.disk, s.snaps, Prev(s.mti));
  }

  // ------------------------------------------------------------ page accounting

  /** What mdb_audit adds up as freecount: the lengths of all freeDB records. */
  ghost function FreeCount(free: FreeDb): nat
    decreases |free|
  {
    if free == map[] then 0
    else
      var k :| k in free;
      |free[k]| + FreeCount(free - {k})
  }

  lemma RecPagesMinus(free: FreeDb, k: TxnId)
    requires DistinctRecords(free) && k in free
    ensures RecPages(free) == free[k] + RecPages(free - {k}) && free[k] !! RecPages(free - {k})
  {
    var rest := free - {k};
    forall p
      ensures p in RecPages(free) <==> p in free[k] || p in RecPages(rest)
      ensures p in RecPages(rest) ==> p !in free[k]
    {
      if p in RecPages(free) {
        var j :| j in free && p in free[j];
        assert j != k ==> j in rest && p in rest[j];
      }
      if p in RecPages(rest) {
        var j :| j in rest && p in rest[j];
        assert free[j] !! free[k];
      }
    }
  }

  lemma {:induction false} FreeCountIs(free: FreeDb)
    requires DistinctRecords(free)
    ensures FreeCount(free) == |RecPages(free)|
    decreases |free|
  {
    if free == map[] {
      assert RecPages(free) == {};
    } else {
      var k :| k in free && FreeCount(free) == |free[k]| + FreeCount(free - {k});
      FreeCountIs(free - {k});
      RecPagesMinus(free, k);
    }
  }

  lemma ListedIs(free: FreeDb)
    ensures forall p :: Listed(free, p) <==> p in RecPages(free)
  {
  }

  ghost function DataPages(next: nat): (pages: set<Pgno>)
    requires next >= 2
    ensures |pages| == next - 2
    ensures forall p: Pgno :: p in pages <==> 2 <= p < next
  {
    if next == 2 then {} else DataPages(next - 1) + {next - 1}
  }

  /** The equation of mdb_audit: freecount + used + 2 == next_pgno. */
  lemma AuditEquation(sn: Snapshot)
    requires Conserved(sn)
    ensures FreeCount(sn.free) + |sn.tree| + 2 == sn.next
  {
    FreeCountIs(sn.free);
    ListedIs(sn.free);
    Sizes(sn.tree.Keys, RecPages(sn.free), {}, {}, {}, DataPages(sn.next));
    assert |sn.tree| == |sn.tree.Keys|;
  }

  /** Every committed snapshot of every run has each page from 2 on in a tree or in one record
      of the freeDB, never both and never twice, and so passes the audit. */
  lemma Conservation(s: State, m: TxnId)
    requires Reachable(s) && m in s.snaps
    ensures Conserved(s.snaps[m])
    ensures FreeCount(s.snaps[m].free) + |s.snaps[m].tree| + 2 == s.snaps[m].next
  {
    ReachableOk(s);
    AuditEquation(s.snaps[m]);
  }

  /** Inside a write transaction no page is lost or held twice either: it is in a tree,
      in mt_free_pgs, in me_pghead, loose, or in a record not yet consumed. */
  lemma WriterConservation(s: State)
    requires Reachable(s) && s.writer.Writer? && s.writer.phase == Filling
    ensures Parts(s.writer)
    ensures var w := s.writer;
      |w.tree| + |w.freed| + |w.head| + |w.loose| + FreeCount(Above(w.free, w.last)) + 2 == w.next
  {
    ReachableOk(s);
    PartsAddUp(s.writer);
  }

  lemma PartsAddUp(w: Writer)
    requires w.Writer? && Parts(w)
    ensures |w.tree| + |w.freed| + |w.head| + |w.loose| + FreeCount(Above(w.free, w.last)) + 2 == w.next
  {
    var rest := Above(w.free, w.last);
    FreeCountIs(rest);
    ListedIs(rest);
    Sizes(w.tree.Keys, w.freed, w.head, w.loose, RecPages(rest), DataPages(w.next));
    assert |w.tree| == |w.tree.Keys|;
  }

  lemma Sizes(a: set<Pgno>, b: set<Pgno>, c: set<Pgno>, d: set<Pgno>, e: set<Pgno>, all: set<Pgno>)
    requires forall p :: p in all <==> p in a || p in b || p in c || p in d || p in e
    requires a !! b !! c !! d !! e
    ensures |a| + |b| + |c| + |d| + |e| == |all|
  {
    assert a + b + c + d + e == all;
  }
}
