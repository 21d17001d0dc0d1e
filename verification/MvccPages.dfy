/** What happens to pages in every run: they are neither lost nor held twice, nothing a
    reader or a crash may still need is written to, and the two meta pages on the disk
    always lead to complete snapshots. */
module MvccPages {
  import opened Mvcc
  import opened MvccProtocol

  ghost predicate Listed(free: FreeDb, p: Pgno) {
    exists k :: k in free && p in free[k]
  }

  ghost predicate DistinctRecords(free: FreeDb) {
    forall j, k | j in free && k in free && j != k :: free[j] !! free[k]
  }

  /** Each page from 2 up to the last one is reachable exactly once in the snapshot:
      either used by a tree or listed in one record of the freeDB. */
  ghost predicate Conserved(sn: Snapshot) {
    && sn.next >= 2
    && DistinctRecords(sn.free)
    && (forall p: Pgno :: (p in sn.tree || Listed(sn.free, p)) <==> 2 <= p < sn.next)
    && (forall p | p in sn.tree :: !Listed(sn.free, p))
  }

  /** The same inside a write transaction, which keeps pages in five places. */
  ghost predicate Parts(w: Writer)
    requires w.Writer?
  {
    var rest := Above(w.free, w.last);
    && w.next >= 2
    && DistinctRecords(rest)
    && (forall p: Pgno :: (p in w.tree || p in w.freed || p in w.head || p in w.loose || Listed(rest, p)) <==> 2 <= p < w.next)
    && (forall p | p in w.tree :: p !in w.freed && p !in w.head && p !in w.loose && !Listed(rest, p))
    && (forall p | p in w.freed :: p !in w.head && p !in w.loose && !Listed(rest, p))
    && (forall p | p in w.head :: p !in w.loose && !Listed(rest, p))
    && (forall p | p in w.loose :: !Listed(rest, p))
  }

  /** Pages the writer may write to before its meta page is written. */
  function Own(w: Writer): set<Pgno>
    requires w.Writer?
  {
    w.dirty + w.spilled + w.head
  }

  /** The oldest snapshot that is still needed: by a pinned reader, or as the older of
      the two meta pages. */
  function Floor(readers: seq<Reader>, mti: TxnId): TxnId {
    if readers == [] then Prev(mti)
    else
      var f := Floor(readers[1..], mti);
      if Pins(readers[0]) && readers[0].t < f then readers[0].t else f
  }

  ghost predicate SnapshotsOk(snaps: History) {
    && (forall m | m in snaps :: Conserved(snaps[m]))
    && (forall m, k | m in snaps && k in snaps[m].free :: 1 <= k <= m)
    && (forall m, n | m in snaps && n in snaps && m <= n :: snaps[m].next <= snaps[n].next)
  }

  ghost predicate Holds(store: map<Pgno, Page>, tree: map<Pgno, Page>) {
    forall p | p in tree :: p in store && store[p] == tree[p]
  }

  ghost predicate Intact(store: map<Pgno, Page>, snaps: History, from: TxnId) {
    forall m | m in snaps && m >= from :: Holds(store, snaps[m].tree)
  }

  /** A page in record k is in no snapshot of from..upto that is at least as new as k. */
  ghost predicate RecordsSafe(free: FreeDb, snaps: History, from: TxnId, upto: TxnId) {
    forall k, p, m | k in free && p in free[k] && m in snaps && k <= m && from <= m <= upto :: p !in snaps[m].tree
  }

  ghost predicate FreeDbsSafe(snaps: History, from: TxnId, mti: TxnId) {
    forall h | h in snaps && h >= mti :: RecordsSafe(snaps[h].free, snaps, from, h)
  }

  ghost predicate Unneeded(pages: set<Pgno>, snaps: History, from: TxnId, upto: TxnId) {
    forall p, m | p in pages && m in snaps && from <= m <= upto :: p !in snaps[m].tree
  }

  ghost predicate Filled(w: Writer, base: Snapshot)
    requires w.Writer?
  {
    && Parts(w)
    && w.free == base.free
    && (w.last == 0 ==> w.head == {})
    && (forall p | p in w.loose :: p in w.dirty)
    && (forall p | p in w.dirty || p in w.spilled :: p in w.tree || p in w.freed || p in w.loose)
  }

  ghost predicate SealedOk(w: Writer, snaps: History, from: TxnId, mti: TxnId, disk: map<Pgno, Page>)
    requires w.Writer?
  {
    && Conserved(Sealed(w))
    && (forall k | k in w.free :: 1 <= k <= w.id)
    && RecordsSafe(w.free, snaps, from, mti)
    && (w.phase != Saved ==> w.dirty == {})
    && (w.phase != Saved && w.phase != Flushed ==> Holds(disk, w.tree))
  }

  ghost predicate WriterPagesOk(w: Writer, snaps: History, from: TxnId, mti: TxnId,
                                mem: map<Pgno, Page>, disk: map<Pgno, Page>)
  {
    w.Writer? ==>
      && mti in snaps && w.next >= snaps[mti].next
      && Unneeded(Own(w), snaps, from, mti)
      && (forall p | p in w.tree && p !in w.dirty :: p in mem && mem[p] == w.tree[p])
      && w.dirty !! w.spilled
      && (if w.phase == Filling then Filled(w, snaps[mti]) else SealedOk(w, snaps, from, mti, disk))
  }

  ghost predicate PagesOk(snaps: History, from: TxnId, mti: TxnId, mem: map<Pgno, Page>, disk: map<Pgno, Page>,
                          w: Writer) {
    && SnapshotsOk(snaps)
    && Intact(mem, snaps, from)
    && Intact(disk, snaps, Prev(mti))
    && FreeDbsSafe(snaps, from, mti)
    && WriterPagesOk(w, snaps, from, mti, mem, disk)
  }

  ghost predicate StatePagesOk(s: State) {
    PagesOk(s.snaps, Floor(s.readers, s.mti), s.mti, s.mem, s.disk, s.writer)
  }

  ghost predicate Inv(s: State) {
    ProtocolOk(s) && StatePagesOk(s)
  }

  // ------------------------------------------------------------ the floor

  lemma {:induction false} FloorIs(readers: seq<Reader>, mti: TxnId)
    ensures var f := Floor(readers, mti);
      && f <= Prev(mti)
      && (forall r | 0 <= r < |readers| && Pins(readers[r]) :: f <= readers[r].t)
      && (f == Prev(mti) || exists r :: 0 <= r < |readers| && Pins(readers[r]) && f == readers[r].t)
  {
    if readers != [] {
      FloorIs(readers[1..], mti);
      var f1 := Floor(readers[1..], mti);
      if f1 != Prev(mti) {
        var r :| 0 <= r < |readers[1..]| && Pins(readers[1..][r]) && f1 == readers[1..][r].t;
        assert readers[r + 1] == readers[1..][r];
      }
      forall r | 0 <= r < |readers| && Pins(readers[r])
        ensures Floor(readers, mti) <= readers[r].t
      {
        assert r > 0 ==> readers[1..][r - 1] == readers[r];
      }
    }
  }

  /** New pins are never below the floor, so the floor only rises. */
  lemma FloorRises(readers: seq<Reader>, mti: TxnId, readers': seq<Reader>, mti': TxnId)
    requires mti <= mti'
    requires forall r | 0 <= r < |readers'| && Pins(readers'[r]) :: readers'[r].t >= Floor(readers, mti)
    ensures Floor(readers, mti) <= Floor(readers', mti')
  {
    FloorIs(readers, mti);
    FloorIs(readers', mti');
  }

  /** Raising the floor asks for less. */
  lemma RaiseFloor(snaps: History, from: TxnId, from': TxnId, mti: TxnId, mem: map<Pgno, Page>,
                   disk: map<Pgno, Page>, w: Writer)
    requires from <= from' && PagesOk(snaps, from, mti, mem, disk, w)
    ensures PagesOk(snaps, from', mti, mem, disk, w)
  {
  }

  lemma ReaderStepPages(s: State, step: Step)
    requires Inv(s) && ReaderEnabled(s, step)
    ensures var s' := ReaderApply(s, step); StatePagesOk(s')
  {
    ReaderNextOk(s, step);
    FloorIs(s.readers, s.mti);
    var s' := ReaderApply(s, step);
    FloorRises(s.readers, s.mti, s'.readers, s.mti);
    RaiseFloor(s.snaps, Floor(s.readers, s.mti), Floor(s'.readers, s.mti), s.mti, s.mem, s.disk, s.writer);
  }

  // ------------------------------------------------------------ reading the freeDB

  /** A consumed record is older than every reader, so no needed snapshot has its pages. */
  lemma FetchedPagesUnneeded(s: State, k: TxnId)
    requires Inv(s) && FetchEnabled(s, Fetch(k))
    ensures Unneeded(s.writer.free[k], s.snaps, Floor(s.readers, s.mti), s.mti)
  {
    FloorIs(s.readers, s.mti);
    assert k <= Floor(s.readers, s.mti);
    assert RecordsSafe(s.snaps[s.mti].free, s.snaps, Floor(s.readers, s.mti), s.mti);
  }

  lemma FetchParts(w: Writer, k: TxnId)
    requires w.Writer? && Parts(w) && IsNextRecord(w.free, w.last, k)
    ensures Parts(w.(head := w.head + w.free[k], last := k))
  {
    var rest, rest' := Above(w.free, w.last), Above(w.free, k);
    assert forall j | j in rest :: j == k || j in rest';
    assert forall j | j in rest' :: j in rest && j != k && rest'[j] == rest[j];
    assert k in rest && rest[k] == w.free[k];
    forall p
      ensures Listed(rest, p) <==> (p in w.free[k] || Listed(rest', p))
      ensures p in w.free[k] ==> !Listed(rest', p)
    {
      if Listed(rest, p) {
        var j :| j in rest && p in rest[j];
        assert j == k || p in rest'[j];
      }
      if Listed(rest', p) {
        var j :| j in rest' && p in rest'[j];
        assert p in rest[j];
        assert rest[j] !! rest[k];
      }
    }
  }

  lemma FetchWriter(w: Writer, k: TxnId, snaps: History, from: TxnId, mti: TxnId, mem: map<Pgno, Page>,
                    disk: map<Pgno, Page>)
    requires w.Writer? && w.phase == Filling && WriterPagesOk(w, snaps, from, mti, mem, disk)
    requires IsNextRecord(w.free, w.last, k) && Unneeded(w.free[k], snaps, from, mti)
    ensures WriterPagesOk(w.(head := w.head + w.free[k], last := k), snaps, from, mti, mem, disk)
  {
    FetchParts(w, k);
    assert Own(w.(head := w.head + w.free[k], last := k)) == Own(w) + w.free[k];
  }

  lemma ScanWriter(w: Writer, scan: Scan, snaps: History, from: TxnId, mti: TxnId, mem: map<Pgno, Page>,
                   disk: map<Pgno, Page>)
    requires w.Writer? && w.phase == Filling && WriterPagesOk(w, snaps, from, mti, mem, disk)
    ensures WriterPagesOk(w.(scan := scan), snaps, from, mti, mem, disk)
  {
    assert Own(w.(scan := scan)) == Own(w);
  }

  lemma FetchStepPages(s: State, step: Step)
    requires Inv(s) && FetchEnabled(s, step)
    ensures var s' := FetchApply(s, step); StatePagesOk(s')
  {
    var s' := FetchApply(s, step);
    if step.Fetch? {
      FetchedPagesUnneeded(s, step.k);
      FetchWriter(s.writer, step.k, s.snaps, Floor(s.readers, s.mti), s.mti, s.mem, s.disk);
    } else {
      ScanWriter(s.writer, s'.writer.scan, s.snaps, Floor(s.readers, s.mti), s.mti, s.mem, s.disk);
    }
  }

  // ------------------------------------------------------------ the writer's tree

  /** A page number never allocated is in no snapshot. */
  lemma NextUnused(snaps: History, mti: TxnId, p: Pgno, m: TxnId)
    requires SnapshotsOk(snaps) && mti in snaps && p >= snaps[mti].next && m in snaps && m <= mti
    ensures p !in snaps[m].tree
  {
    assert Conserved(snaps[m]);
    assert snaps[m].next <= snaps[mti].next;
  }

  lemma TakeFilled(w: Writer, base: Snapshot, step: Step)
    requires w.Writer? && Filled(w, base) && TreeEnabled(w, step) && (step.Touch? || step.NewPage?)
    requires w.dirty !! w.spilled
    ensures var w' := TreeApply(w, step);
      && Filled(w', base) && w'.dirty !! w'.spilled && w'.next >= w.next
      && (forall p: Pgno | p in Own(w') :: p in Own(w) || p >= w.next)
  {
    var w' := TreeApply(w, step);
    assert Above(w'.free, w'.last) == Above(w.free, w.last);
  }

  lemma MoveFilled(w: Writer, base: Snapshot, step: Step)
    requires w.Writer? && Filled(w, base) && TreeEnabled(w, step)
    requires step.Modify? || step.FreePage? || step.Loosen? || step.GiveBack? || step.Unspill? || step.FreeLoose?
    ensures Filled(TreeApply(w, step), base)
  {
    var w' := TreeApply(w, step);
    assert Above(w'.free, w'.last) == Above(w.free, w.last);
  }

  /** All a step on the tree owes: pages stay apart, and pages it adds to the writer's
      own are freshly numbered. */
  lemma TreeFrame(w: Writer, w': Writer, snaps: History, from: TxnId, mti: TxnId, mem: map<Pgno, Page>,
                  disk: map<Pgno, Page>)
    requires SnapshotsOk(snaps) && w.Writer? && w'.Writer? && w.phase == Filling && w'.phase == Filling
    requires WriterPagesOk(w, snaps, from, mti, mem, disk)
    requires Filled(w', snaps[mti]) && w'.dirty !! w'.spilled && w'.next >= w.next
    requires forall p: Pgno | p in Own(w') :: p in Own(w) || p >= w.next
    requires forall p | p in w'.tree && p !in w'.dirty :: p in w.tree && p !in w.dirty && w'.tree[p] == w.tree[p]
    ensures WriterPagesOk(w', snaps, from, mti, mem, disk)
  {
    forall p, m | p in Own(w') && m in snaps && from <= m <= mti
      ensures p !in snaps[m].tree
    {
      if p !in Own(w) {
        NextUnused(snaps, mti, p, m);
      }
    }
  }

  lemma TreeWriter(w: Writer, step: Step, snaps: History, from: TxnId, mti: TxnId, mem: map<Pgno, Page>,
                   disk: map<Pgno, Page>)
    requires SnapshotsOk(snaps) && TreeEnabled(w, step) && !step.SaveFreelist?
    requires WriterPagesOk(w, snaps, from, mti, mem, disk)
    ensures var w' := TreeApply(w, step); WriterPagesOk(w', snaps, from, mti, mem, disk)
  {
    if step.Touch? || step.NewPage? {
      TakeFilled(w, snaps[mti], step);
    } else {
      MoveFilled(w, snaps[mti], step);
    }
    TreeFrame(w, TreeApply(w, step), snaps, from, mti, mem, disk);
  }

  // ------------------------------------------------------------ saving the freelist

  lemma SavedListed(w: Writer, recs: FreeDb)
    requires w.Writer? && w.last < w.id && CanSave(w, recs) && (w.last == 0 ==> w.head == {})
    requires forall k | k in w.free :: k < w.id
    ensures var w' := SavedWriter(w, recs);
      forall p :: Listed(w'.free, p) <==>
        (Listed(Above(w.free, w.last), p) || p in w.freed || p in w.head || p in w.loose)
  {
    var w' := SavedWriter(w, recs);
    var rest := Above(w.free, w.last);
    forall p
      ensures Listed(w'.free, p) <==> (Listed(rest, p) || p in w'.freed || Listed(recs, p))
    {
      if Listed(rest, p) {
        var k :| k in rest && p in rest[k];
        assert k in w'.free && w'.free[k] == rest[k];
      }
      if p in w'.freed {
        assert w.id in w'.free && w'.free[w.id] == w'.freed;
      }
      if Listed(recs, p) {
        var k :| k in recs && p in recs[k];
        assert k in w'.free && w'.free[k] == recs[k];
      }
      if Listed(w'.free, p) {
        var k :| k in w'.free && p in w'.free[k];
        assert k == w.id || (k in recs && p in recs[k]) || (k in rest && p in rest[k]);
      }
    }
    forall p
      ensures Listed(recs, p) <==> (p in w.head || p in w.loose)
    {
      assert Listed(recs, p) <==> p in w.head + w.loose;
    }
  }

  lemma SavedDistinct(w: Writer, recs: FreeDb)
    requires w.Writer? && w.last < w.id && Parts(w) && CanSave(w, recs) && (w.last == 0 ==> w.head == {})
    requires forall k | k in w.free :: k < w.id
    ensures DistinctRecords(SavedWriter(w, recs).free)
  {
    var w' := SavedWriter(w, recs);
    var rest := Above(w.free, w.last);
    forall j, k, p | j in w'.free && k in w'.free && j < k && p in w'.free[j]
      ensures p !in w'.free[k]
    {
      if j in rest {
        assert p in rest[j] && Listed(rest, p);
      } else {
        assert j in recs;
        if k in rest && p in w'.free[k] {
          assert p in rest[k] && Listed(rest, p);
        }
      }
    }
  }

  lemma SavedConserved(w: Writer, recs: FreeDb)
    requires w.Writer? && w.last < w.id && Parts(w) && CanSave(w, recs) && (w.last == 0 ==> w.head == {})
    requires forall k | k in w.free :: k < w.id
    ensures Conserved(Sealed(SavedWriter(w, recs)))
  {
    SavedListed(w, recs);
    SavedDistinct(w, recs);
  }

  /** Leftover pages may go under keys smaller than the one they came from: they were
      taken from records that no reader needs any more. */
  lemma SavedRecordsSafe(w: Writer, recs: FreeDb, base: Snapshot, snaps: History, from: TxnId, mti: TxnId)
    requires w.Writer? && w.id == mti + 1 && w.last <= mti && CanSave(w, recs) && Filled(w, base)
    requires Unneeded(Own(w), snaps, from, mti)
    requires RecordsSafe(base.free, snaps, from, mti)
    ensures RecordsSafe(SavedWriter(w, recs).free, snaps, from, mti)
  {
    var w' := SavedWriter(w, recs);
    forall k, p, m | k in w'.free && p in w'.free[k] && m in snaps && k <= m && from <= m <= mti
      ensures p !in snaps[m].tree
    {
      if k in recs {
        assert p in Own(w);
      } else {
        assert k in base.free && p in base.free[k];
      }
    }
  }

  lemma SavedWriterOk(w: Writer, recs: FreeDb, snaps: History, from: TxnId, mti: TxnId,
                      mem: map<Pgno, Page>, disk: map<Pgno, Page>)
    requires SnapshotsOk(snaps) && FreeDbsSafe(snaps, from, mti)
    requires TreeEnabled(w, SaveFreelist(recs)) && w.id == mti + 1 && w.last <= mti
    requires WriterPagesOk(w, snaps, from, mti, mem, disk)
    ensures WriterPagesOk(SavedWriter(w, recs), snaps, from, mti, mem, disk)
  {
    assert RecordsSafe(snaps[mti].free, snaps, from, mti);
    SavedConserved(w, recs);
    SavedRecordsSafe(w, recs, snaps[mti], snaps, from, mti);
  }

  lemma TreeStepPages(s: State, step: Step)
    requires Inv(s) && TreeEnabled(s.writer, step)
    ensures var s' := s.(writer := TreeApply(s.writer, step)); StatePagesOk(s')
  {
    if step.SaveFreelist? {
      SavedWriterOk(s.writer, step.recs, s.snaps, Floor(s.readers, s.mti), s.mti, s.mem, s.disk);
    } else {
      TreeWriter(s.writer, step, s.snaps, Floor(s.readers, s.mti), s.mti, s.mem, s.disk);
    }
  }

  // ------------------------------------------------------------ the file

  lemma BeginWritePages(s: State, env: nat)
    requires Inv(s) && FileEnabled(s, BeginWrite(env))
    ensures var s' := FileApply(s, BeginWrite(env)); StatePagesOk(s')
  {
    var base := s.snaps[s.mti];
    BitIs(s.mti);
    assert Above(base.free, 0) == base.free;
    FloorIs(s.readers, s.mti);
    assert Conserved(base);
    assert Holds(s.mem, base.tree);
    var s' := FileApply(s, BeginWrite(env));
    assert WriterPagesOk(s'.writer, s.snaps, Floor(s.readers, s.mti), s.mti, s.mem, s.disk);
  }

  /** Writing a page of the writer's own disturbs no needed snapshot. */
  lemma WritePageOk(snaps: History, from: TxnId, mti: TxnId, mem: map<Pgno, Page>, disk: map<Pgno, Page>, w: Writer,
                    p: Pgno, page: Page)
    requires PagesOk(snaps, from, mti, mem, disk, w) && forall m | m in snaps :: m <= mti
    requires w.Writer? && (w.phase == Saved || (w.phase == Filling && p !in w.loose))
    requires p in w.dirty && (p in w.tree ==> page == w.tree[p])
    ensures PagesOk(snaps, from, mti, mem[p := page], disk, w.(dirty := w.dirty - {p}, spilled := w.spilled + {p}))
  {
    var w' := w.(dirty := w.dirty - {p}, spilled := w.spilled + {p});
    assert p in Own(w) && Own(w') == Own(w);
    if w.phase == Filling {
      assert Filled(w, snaps[mti]) && Above(w'.free, w'.last) == Above(w.free, w.last);
    } else {
      assert Sealed(w') == Sealed(w);
    }
  }

  lemma AbortPages(snaps: History, from: TxnId, mti: TxnId, mem: map<Pgno, Page>, disk: map<Pgno, Page>, w: Writer)
    requires PagesOk(snaps, from, mti, mem, disk, w)
    ensures PagesOk(snaps, from, mti, mem, disk, NoWriter)
  {
  }

  /** The page cache reaches the disk, whole (disk' == mem) or page by page. */
  lemma DiskPages(snaps: History, from: TxnId, mti: TxnId, mem: map<Pgno, Page>, disk: map<Pgno, Page>, w: Writer,
                  disk': map<Pgno, Page>)
    requires PagesOk(snaps, from, mti, mem, disk, w) && from <= Prev(mti)
    requires forall p | p in mem && (p in disk' || p in disk) ::
      p in disk' && (disk'[p] == mem[p] || (p in disk && disk'[p] == disk[p]))
    ensures PagesOk(snaps, from, mti, mem, disk', w)
  {
    forall m, p | m in snaps && m >= Prev(mti) && p in snaps[m].tree
      ensures p in disk' && disk'[p] == snaps[m].tree[p]
    {
      assert Holds(mem, snaps[m].tree) && Holds(disk, snaps[m].tree);
    }
  }

  lemma SyncDataPages(snaps: History, from: TxnId, mti: TxnId, mem: map<Pgno, Page>, disk: map<Pgno, Page>, w: Writer)
    requires PagesOk(snaps, from, mti, mem, disk, w) && from <= Prev(mti)
    requires w.Writer? && w.phase == Flushed
    ensures PagesOk(snaps, from, mti, mem, mem, w.(phase := Synced))
  {
    var w' := w.(phase := Synced);
    assert Sealed(w') == Sealed(w) && Own(w') == Own(w);
    assert Holds(mem, w.tree);
  }

  lemma PhasePages(snaps: History, from: TxnId, mti: TxnId, mem: map<Pgno, Page>, disk: map<Pgno, Page>, w: Writer,
                   phase: Phase)
    requires PagesOk(snaps, from, mti, mem, disk, w)
    requires w.Writer?
      && ((w.phase == Saved && w.dirty == {} && phase == Flushed) || (w.phase == MetaWritten && phase == MetaDurable))
    ensures PagesOk(snaps, from, mti, mem, disk, w.(phase := phase))
  {
    var w' := w.(phase := phase);
    assert Sealed(w') == Sealed(w) && Own(w') == Own(w);
  }

  lemma SealedSnapshots(snaps: History, mti: TxnId, w: Writer)
    requires SnapshotsOk(snaps) && (forall m: TxnId :: m in snaps <==> m <= mti)
    requires w.Writer? && w.id == mti + 1
    requires Conserved(Sealed(w)) && w.next >= snaps[mti].next && forall k | k in w.free :: 1 <= k <= w.id
    ensures SnapshotsOk(snaps[w.id := Sealed(w)])
  {
  }

  lemma SealedFreeDbs(w: Writer, snaps: History, from: TxnId, mti: TxnId)
    requires (forall m: TxnId :: m in snaps <==> m <= mti) && w.Writer? && w.id == mti + 1
    requires FreeDbsSafe(snaps, from, mti)
    requires Conserved(Sealed(w)) && RecordsSafe(w.free, snaps, from, mti)
    ensures FreeDbsSafe(snaps[w.id := Sealed(w)], from, mti)
  {
    var snaps' := snaps[w.id := Sealed(w)];
    forall k, p | k in w.free && p in w.free[k]
      ensures p !in w.tree
    {
      assert Listed(w.free, p);
    }
    assert RecordsSafe(w.free, snaps', from, w.id);
    assert RecordsSafe(snaps[mti].free, snaps', from, mti) by {
      assert RecordsSafe(snaps[mti].free, snaps, from, mti);
    }
  }

  lemma WriteMetaPages(snaps: History, from: TxnId, mti: TxnId, mem: map<Pgno, Page>, disk: map<Pgno, Page>, w: Writer)
    requires PagesOk(snaps, from, mti, mem, disk, w)
    requires (forall m: TxnId :: m in snaps <==> m <= mti) && w.Writer? && w.id == mti + 1 && w.phase == Synced
    ensures PagesOk(snaps[w.id := Sealed(w)], from, mti, mem, disk, w.(phase := MetaWritten))
  {
    var w' := w.(phase := MetaWritten);
    assert Sealed(w') == Sealed(w) && Own(w') == Own(w);
    SealedSnapshots(snaps, mti, w);
    SealedFreeDbs(w, snaps, from, mti);
    assert Holds(mem, w.tree) && Holds(disk, w.tree);
  }

  lemma PublishPages(snaps: History, from: TxnId, from': TxnId, mti: TxnId, mem: map<Pgno, Page>,
                     disk: map<Pgno, Page>, w: Writer)
    requires PagesOk(snaps, from, mti, mem, disk, w) && from <= from'
    ensures PagesOk(snaps, from', mti + 1, mem, disk, NoWriter)
  {
  }

  lemma CrashPages(snaps: History, from: TxnId, mti: TxnId, mem: map<Pgno, Page>, disk: map<Pgno, Page>, w: Writer,
                   h: TxnId)
    requires PagesOk(snaps, from, mti, mem, disk, w) && from <= Prev(mti)
    requires h in snaps && mti <= h
    ensures PagesOk(map m | m in snaps && m <= h :: snaps[m], Prev(h), h, disk, disk, NoWriter)
  {
    var snaps' := map m | m in snaps && m <= h :: snaps[m];
    assert forall m | m in snaps' :: m in snaps && snaps'[m] == snaps[m];
    assert RecordsSafe(snaps[h].free, snaps, from, h);
    assert RecordsSafe(snaps'[h].free, snaps', Prev(h), h);
  }

  lemma {:induction false} FloorVacant(readers: seq<Reader>, mti: TxnId)
    requires forall r | 0 <= r < |readers| :: readers[r] == Vacant
    ensures Floor(readers, mti) == Prev(mti)
  {
    FloorIs(readers, mti);
  }

  lemma WriteStepPages(s: State, step: Step)
    requires Inv(s) && FileEnabled(s, step)
      && (step.BeginWrite? || step.Spill? || step.Flush? || step.Abort? || step.Writeback?)
    ensures var s' := FileApply(s, step); StatePagesOk(s')
  {
    hide PagesOk, MetasOk, ReadersOk, OldestOk;
    var from, s' := Floor(s.readers, s.mti), FileApply(s, step);
    FloorIs(s.readers, s.mti);
    match step
    case BeginWrite(env) => BeginWritePages(s, env);
    case Spill(p, page) => WritePageOk(s.snaps, from, s.mti, s.mem, s.disk, s.writer, p, page);
    case Flush(p, page) => WritePageOk(s.snaps, from, s.mti, s.mem, s.disk, s.writer, p, page);
    case Abort => AbortPages(s.snaps, from, s.mti, s.mem, s.disk, s.writer);
    case Writeback(p) => DiskPages(s.snaps, from, s.mti, s.mem, s.disk, s.writer, s'.disk);
  }

  lemma CommitStepPages(s: State, step: Step)
    requires Inv(s) && FileEnabled(s, step)
    requires step.FlushDone? || step.SyncData? || step.WriteMeta? || step.SyncMeta?
    ensures var s' := FileApply(s, step); StatePagesOk(s')
  {
    hide PagesOk, MetasOk, ReadersOk, OldestOk;
    var from, s' := Floor(s.readers, s.mti), FileApply(s, step);
    FloorIs(s.readers, s.mti);
    match step
    case FlushDone => PhasePages(s.snaps, from, s.mti, s.mem, s.disk, s.writer, Flushed);
    case SyncData => SyncDataPages(s.snaps, from, s.mti, s.mem, s.disk, s.writer);
    case WriteMeta => WriteMetaPages(s.snaps, from, s.mti, s.mem, s.disk, s.writer);
    case SyncMeta => PhasePages(s.snaps, from, s.mti, s.mem, s.disk, s.writer, MetaDurable);
  }

  lemma PublishStepPages(s: State)
    requires Inv(s) && FileEnabled(s, PublishTxn)
    ensures var s' := FileApply(s, PublishTxn); StatePagesOk(s')
  {
    hide PagesOk, HistoryOk, MetasOk, ReadersOk, OldestOk;
    FloorIs(s.readers, s.mti);
    FloorRises(s.readers, s.mti, s.readers, s.mti + 1);
    PublishPages(s.snaps, Floor(s.readers, s.mti), Floor(s.readers, s.mti + 1), s.mti, s.mem, s.disk, s.writer);
  }

  lemma CrashStepPages(s: State)
    requires Inv(s) && FileEnabled(s, Crash)
    ensures var s' := FileApply(s, Crash); StatePagesOk(s')
  {
    hide PagesOk, ReadersOk, OldestOk;
    CrashPicks(s);
    FloorIs(s.readers, s.mti);
    var s' := FileApply(s, Crash);
    FloorVacant(s'.readers, s'.mti);
    CrashPages(s.snaps, Floor(s.readers, s.mti), s.mti, s.mem, s.disk, s.writer, s'.mti);
  }

  // ------------------------------------------------------------ runs

  lemma FreshOk(n: nat, p: nat)
    ensures Inv(Fresh(n, p))
  {
    FreshProtocol(n, p);
    var s := Fresh(n, p);
    FloorVacant(s.readers, s.mti);
  }

  lemma StepPages(s: State, step: Step)
    requires Inv(s) && Enabled(s, step)
    ensures var s' := Apply(s, step); StatePagesOk(s')
  {
    hide PagesOk, HistoryOk, MetasOk, ReadersOk, OldestOk;
    if ReaderEnabled(s, step) {
      ReaderStepPages(s, step);
    } else if FetchEnabled(s, step) {
      FetchStepPages(s, step);
    } else if TreeEnabled(s.writer, step) {
      TreeStepPages(s, step);
    } else if step.BeginWrite? || step.Spill? || step.Flush? || step.Abort? || step.Writeback? {
      WriteStepPages(s, step);
    } else if step.PublishTxn? {
      PublishStepPages(s);
    } else if step.Crash? {
      CrashStepPages(s);
    } else {
      CommitStepPages(s, step);
    }
  }

  lemma StepOk(s: State, step: Step)
    requires Inv(s) && Enabled(s, step)
    ensures var s' := Apply(s, step); Inv(s')
  {
    hide PagesOk, HistoryOk, MetasOk, ReadersOk, OldestOk;
    StepProtocol(s, step);
    StepPages(s, step);
  }

  lemma {:induction false} RunOk(s: State, run: seq<Step>, s': State)
    requires Inv(s) && Leads(s, run, s')
    ensures Inv(s')
    decreases |run|
  {
    if run != [] {
      StepOk(s, run[0]);
      RunOk(Apply(s, run[0]), run[1..], s');
    }
  }

  lemma ReachableOk(s: State)
    requires Reachable(s)
    ensures Inv(s)
  {
    var n: nat, p: nat, run :| Leads(Fresh(n, p), run, s);
    FreshOk(n, p);
    RunOk(Fresh(n, p), run, s);
  }
}
