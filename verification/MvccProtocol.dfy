/** What the readers, the meta pages and the search for the oldest reader keep in every
    run, whatever the writer does to pages. */
module MvccProtocol {
  import opened Mvcc

  function Prev(m: TxnId): TxnId {
    if m == 0 then 0 else m - 1
  }

  predicate MetaOut(w: Writer) {
    w.Writer? && (w.phase == MetaWritten || w.phase == MetaDurable)
  }

  function Top(s: State): TxnId {
    if MetaOut(s.writer) then s.mti + 1 else s.mti
  }

  /** m % 2, in a form that steps by one. */
  function Bit(m: TxnId): (b: nat)
    ensures b <= 1
  {
    if m == 0 then 0 else 1 - Bit(m - 1)
  }

  lemma {:induction false} BitIs(m: TxnId)
    ensures Bit(m) == m % 2
  {
    if m > 0 {
      BitIs(m - 1);
    }
  }

  ghost predicate HistoryOk(snaps: History, top: TxnId) {
    && (forall m: TxnId :: m in snaps <==> m <= top)
    && (forall m | m in snaps :: snaps[m].id == m)
  }

  ghost predicate MetasOk(metas: seq<Snapshot>, snaps: History, mti: TxnId, newer: bool) {
    && |metas| == 2
    && mti in snaps && Prev(mti) in snaps && (newer ==> mti + 1 in snaps)
    && metas[Bit(mti)] == snaps[mti]
    && metas[1 - Bit(mti)] == snaps[if newer then mti + 1 else Prev(mti)]
  }

  ghost predicate ReaderOk(reader: Reader, slot: Slot, counted: bool, mti: TxnId, snaps: History) {
    match reader
    case Vacant => !slot.pid
    case Resetting => slot == Slot(false, Unset)
    case Counting => counted && slot == Slot(false, Unset)
    case Owned => counted && slot.pid
    case Loaded(t) => counted && slot.pid && t <= mti
    case Published(t) => counted && slot == Slot(true, Set(t)) && t <= mti
    case Pinned(t) => counted && slot == Slot(true, Set(t)) && t <= mti
    case Live(t, snap) =>
      && counted && slot == Slot(true, Set(t)) && t <= mti
      && t <= snap.id && snap.id in snaps && snaps[snap.id] == snap
  }

  ghost predicate ReadersOk(readers: seq<Reader>, slots: seq<Slot>, n: nat, mti: TxnId, snaps: History) {
    && |readers| == |slots|
    && n <= |slots|
    && (forall r | 0 <= r < |readers| :: ReaderOk(readers[r], slots[r], r < n, mti, snaps))
    && (forall r | 0 <= r < |readers| && readers[r] == Resetting :: r <= n)
  }

  /** No process believes in an oldest reader younger than a pinned one. */
  ghost predicate OldestOk(oldest: seq<TxnId>, readers: seq<Reader>, mti: TxnId) {
    && (forall e | 0 <= e < |oldest| :: oldest[e] <= mti)
    && (forall e, r | 0 <= e < |oldest| && 0 <= r < |readers| && Pins(readers[r]) :: oldest[e] <= readers[r].t)
  }

  /** A pinned reader that the search has passed cannot be older than what it found. */
  ghost predicate ScanOk(scan: Scan, readers: seq<Reader>, mti: TxnId) {
    scan.Scan? ==>
      && scan.left <= |readers|
      && scan.oldest <= mti
      && (scan.sawPid ==> scan.left > 0)
      && forall r | 0 <= r < |readers| && Pins(readers[r]) :: scan.oldest <= readers[r].t || r < scan.left
  }

  ghost predicate WriterOk(w: Writer, readers: seq<Reader>, processes: nat, mti: TxnId, snaps: History) {
    w.Writer? ==>
      && w.env < processes
      && w.id == mti + 1
      && w.last <= mti
      && ScanOk(w.scan, readers, mti)
      && (w.phase == Filling || w.scan == NoScan)
      && (MetaOut(w) ==> w.id in snaps && snaps[w.id] == Sealed(w))
  }

  ghost predicate ProtocolOk(s: State) {
    && HistoryOk(s.snaps, Top(s))
    && MetasOk(s.metas, s.snaps, s.mti, MetaOut(s.writer))
    && MetasOk(s.diskMetas, s.snaps, s.mti, s.writer.Writer? && s.writer.phase == MetaDurable)
    && ReadersOk(s.readers, s.slots, s.numReaders, s.mti, s.snaps)
    && OldestOk(s.oldest, s.readers, s.mti)
    && WriterOk(s.writer, s.readers, |s.oldest|, s.mti, s.snaps)
  }

  lemma FreshProtocol(n: nat, p: nat)
    ensures ProtocolOk(Fresh(n, p))
  {
  }

  // ------------------------------------------------------------ readers

  /** A meta page copied under a pinned id is a snapshot at least as new as the pin:
      the slot of t % 2 may by then hold t + 2 or a later one, never an earlier one. */
  lemma MetaOfPin(metas: seq<Snapshot>, snaps: History, top: TxnId, mti: TxnId, newer: bool, t: TxnId)
    requires HistoryOk(snaps, top) && MetasOk(metas, snaps, mti, newer) && t <= mti
    ensures var sn := metas[t % 2]; t <= sn.id && sn.id in snaps && snaps[sn.id] == sn
  {
    BitIs(t);
    BitIs(mti);
    assert t % 2 != mti % 2 ==> t <= mti - 1;
  }

  /** One reader's own step: its new state fits its new slot, and a new pin is mti_txnid. */
  lemma ReaderNextOk(s: State, step: Step)
    requires ProtocolOk(s) && ReaderEnabled(s, step)
    ensures var (reader, slot) := ReaderNext(s, step);
      && ReaderOk(reader, slot, step.r < ReaderApply(s, step).numReaders, s.mti, s.snaps)
      && (reader == Resetting ==> step.r <= s.numReaders)
      && (Pins(reader) ==> reader.t == s.mti || (Pins(s.readers[step.r]) && reader.t == s.readers[step.r].t))
  {
    assert ReaderOk(s.readers[step.r], s.slots[step.r], step.r < s.numReaders, s.mti, s.snaps);
    if step.CopyMeta? {
      MetaOfPin(s.metas, s.snaps, Top(s), s.mti, MetaOut(s.writer), s.readers[step.r].t);
    }
  }

  lemma SlotUpdateReaders(s: State, r: nat, reader: Reader, slot: Slot, n: nat)
    requires ReadersOk(s.readers, s.slots, s.numReaders, s.mti, s.snaps)
    requires r < |s.readers| && s.numReaders <= n <= |s.slots|
    requires ReaderOk(reader, slot, r < n, s.mti, s.snaps)
    requires reader == Resetting ==> r <= n
    ensures ReadersOk(s.readers[r := reader], s.slots[r := slot], n, s.mti, s.snaps)
  {
    forall q | 0 <= q < |s.readers| && q != r
      ensures ReaderOk(s.readers[q], s.slots[q], q < n, s.mti, s.snaps)
    {
      assert ReaderOk(s.readers[q], s.slots[q], q < s.numReaders, s.mti, s.snaps);
    }
  }

  lemma ReaderStepProtocol(s: State, step: Step)
    requires ProtocolOk(s) && ReaderEnabled(s, step)
    ensures var s' := ReaderApply(s, step); ProtocolOk(s')
  {
    ReaderNextOk(s, step);
    var (reader, slot) := ReaderNext(s, step);
    var s' := ReaderApply(s, step);
    SlotUpdateReaders(s, step.r, reader, slot, s'.numReaders);
  }

  // ------------------------------------------------------------ the search

  /** The slot of a pinned reader shows its pin to the search. */
  lemma PinsShow(s: State)
    requires ProtocolOk(s)
    ensures forall r | 0 <= r < |s.readers| && Pins(s.readers[r]) ::
      r < s.numReaders && s.slots[r] == Slot(true, Set(s.readers[r].t)) && s.readers[r].t <= s.mti
  {
    forall r | 0 <= r < |s.readers| && Pins(s.readers[r])
      ensures r < s.numReaders && s.slots[r] == Slot(true, Set(s.readers[r].t)) && s.readers[r].t <= s.mti
    {
      assert ReaderOk(s.readers[r], s.slots[r], r < s.numReaders, s.mti, s.snaps);
    }
  }

  lemma FetchStepProtocol(s: State, step: Step)
    requires ProtocolOk(s) && FetchEnabled(s, step)
    ensures var s' := FetchApply(s, step); ProtocolOk(s')
  {
    PinsShow(s);
    var s' := FetchApply(s, step);
    assert OldestOk(s'.oldest, s'.readers, s'.mti);
    assert ScanOk(s'.writer.scan, s'.readers, s'.mti);
  }

  // ------------------------------------------------------------ writing and committing

  lemma TreeStepProtocol(s: State, step: Step)
    requires ProtocolOk(s) && TreeEnabled(s.writer, step)
    ensures var s' := s.(writer := TreeApply(s.writer, step)); ProtocolOk(s')
  {
    hide HistoryOk, MetasOk, ReadersOk, OldestOk, ScanOk;
  }

  lemma SealedProtocol(s: State)
    requires ProtocolOk(s) && FileEnabled(s, WriteMeta)
    ensures var s' := FileApply(s, WriteMeta); ProtocolOk(s')
  {
    var s' := FileApply(s, WriteMeta);
    BitIs(s.mti + 1);
    assert Sealed(s'.writer) == Sealed(s.writer);
    forall r | 0 <= r < |s.readers|
      ensures ReaderOk(s.readers[r], s.slots[r], r < s.numReaders, s.mti, s'.snaps)
    {
      assert ReaderOk(s.readers[r], s.slots[r], r < s.numReaders, s.mti, s.snaps);
    }
  }

  lemma PublishProtocol(s: State)
    requires ProtocolOk(s) && FileEnabled(s, PublishTxn)
    ensures var s' := FileApply(s, PublishTxn); ProtocolOk(s')
  {
    var s' := FileApply(s, PublishTxn);
    forall r | 0 <= r < |s.readers|
      ensures ReaderOk(s.readers[r], s.slots[r], r < s.numReaders, s.mti + 1, s.snaps)
    {
      assert ReaderOk(s.readers[r], s.slots[r], r < s.numReaders, s.mti, s.snaps);
    }
  }

  /** What mdb_env_pick_meta finds on the disk after a crash. */
  lemma CrashPicks(s: State)
    requires ProtocolOk(s)
    ensures |s.diskMetas| == 2
    ensures var h := PickMeta(s.diskMetas);
      && h.id == (if s.writer.Writer? && s.writer.phase == MetaDurable then s.mti + 1 else s.mti)
      && h.id in s.snaps && s.snaps[h.id] == h
  {
  }

  lemma CrashProtocol(s: State)
    requires ProtocolOk(s)
    ensures FileEnabled(s, Crash)
    ensures var s' := FileApply(s, Crash); ProtocolOk(s')
  {
    CrashPicks(s);
  }

  lemma SyncMetaProtocol(s: State)
    requires ProtocolOk(s) && FileEnabled(s, SyncMeta)
    ensures var s' := FileApply(s, SyncMeta); ProtocolOk(s')
  {
    hide ReadersOk, OldestOk;
    BitIs(s.mti + 1);
    assert Sealed(s.writer.(phase := MetaDurable)) == Sealed(s.writer);
  }

  /** Steps that leave readers, meta pages and mti_txnid alone. */
  lemma QuietProtocol(s: State, step: Step)
    requires ProtocolOk(s) && FileEnabled(s, step)
    requires !step.WriteMeta? && !step.SyncMeta? && !step.PublishTxn? && !step.Crash?
    ensures var s' := FileApply(s, step); ProtocolOk(s')
  {
    hide HistoryOk, MetasOk, ReadersOk, OldestOk;
  }

  lemma FileStepProtocol(s: State, step: Step)
    requires ProtocolOk(s) && FileEnabled(s, step)
    ensures var s' := FileApply(s, step); ProtocolOk(s')
  {
    hide ProtocolOk;
    match step
    case WriteMeta => SealedProtocol(s);
    case PublishTxn => PublishProtocol(s);
    case Crash => CrashProtocol(s);
    case SyncMeta => SyncMetaProtocol(s);
    case _ => QuietProtocol(s, step);
  }

  lemma StepProtocol(s: State, step: Step)
    requires ProtocolOk(s) && Enabled(s, step)
    ensures var s' := Apply(s, step); ProtocolOk(s')
  {
    hide HistoryOk, MetasOk, ReadersOk, OldestOk, WriterOk;
    if ReaderEnabled(s, step) {
      ReaderStepProtocol(s, step);
    } else if FetchEnabled(s, step) {
      FetchStepProtocol(s, step);
    } else if TreeEnabled(s.writer, step) {
      TreeStepProtocol(s, step);
    } else {
      FileStepProtocol(s, step);
    }
  }
}
