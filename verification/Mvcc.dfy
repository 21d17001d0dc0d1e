/** The multi-version protocol of LMDB as a step system: one writer, any number of
    readers, two meta pages, and a machine that may crash between any two steps.

    Every shared-memory access that the source performs without a lock is a step of
    its own: a reader loads mti_txnid, publishes it in its slot, loads mti_txnid
    again, and copies a meta page; the writer's search for the oldest reader loads
    the process id and the transaction id of each slot separately.

    A page is an opaque value.  A snapshot is what one meta page leads to: the pages
    of all its trees (the freeDB's own included), the records of the freeDB, and the
    first page number that was never allocated. */
module Mvcc {

  type Pgno = nat
  type TxnId = nat
  type FreeDb = map<TxnId, set<Pgno>>
  type History = map<TxnId, Snapshot>

  datatype Page = Page(content: int)

  datatype Snapshot = Snapshot(id: TxnId, tree: map<Pgno, Page>, free: FreeDb, next: Pgno)

  /** A slot of the reader table. Unset is the value (txnid_t)-1. */
  datatype SlotId = Unset | Set(txnid: TxnId)
  datatype Slot = Slot(pid: bool, txnid: SlotId)

  /** Where the thread that owns a slot is in mdb_txn_renew0 or mdb_txn_end. */
  datatype Reader =
    | Vacant
    | Resetting                         // reader mutex held, slot reset
    | Counting                          // reader mutex held, slot counted in mti_numreaders
    | Owned                             // slot claimed, no transaction
    | Loaded(t: TxnId)                  // mti_txnid loaded
    | Published(t: TxnId)               // and stored in the slot
    | Pinned(t: TxnId)                  // and still equal to mti_txnid afterwards
    | Live(t: TxnId, snap: Snapshot)    // meta page t % 2 copied

  datatype Phase = Filling | Saved | Flushed | Synced | MetaWritten | MetaDurable

  /** mdb_find_oldest in progress: slots below `left` are still to be looked at. */
  datatype Scan = NoScan | Scan(left: nat, oldest: TxnId, sawPid: bool)

  datatype Writer =
    | NoWriter
    | Writer(
        env: nat,                 // the process that runs the transaction
        id: TxnId,
        tree: map<Pgno, Page>,    // every page reachable from the transaction's roots
        dirty: set<Pgno>,         // pages in the dirty list
        spilled: set<Pgno>,       // pages in the spill list
        freed: set<Pgno>,         // mt_free_pgs
        head: set<Pgno>,          // me_pghead
        loose: set<Pgno>,         // mt_loose_pgs
        last: TxnId,              // me_pglast
        next: Pgno,               // mt_next_pgno
        free: FreeDb,             // the freeDB as this transaction sees it
        scan: Scan,
        phase: Phase)

  datatype State = State(
    readers: seq<Reader>,
    slots: seq<Slot>,
    numReaders: nat,
    mti: TxnId,                   // mti_txnid
    oldest: seq<TxnId>,           // me_pgoldest of each process
    metas: seq<Snapshot>,         // the two meta pages in the page cache
    mem: map<Pgno, Page>,         // the data pages in the page cache
    diskMetas: seq<Snapshot>,     // the same, on stable storage
    disk: map<Pgno, Page>,
    writer: Writer,
    snaps: History)  // history: every snapshot a meta page has held

  /** Where a newly allocated page number comes from. */
  datatype Source = FromLoose | FromHead | FromMap

  datatype Step =
    // a reader thread
    | ClaimReset(r: nat) | ClaimCount(r: nat) | ClaimPid(r: nat)
    | LoadTxnId(r: nat) | Publish(r: nat) | Recheck(r: nat) | CopyMeta(r: nat)
    | EndRead(r: nat) | ReleaseSlot(r: nat)
    // the writer
    | BeginWrite(env: nat)
    | ScanStart | ScanPid | ScanTxnId | ScanDone
    | Fetch(k: TxnId)
    | Touch(q: Pgno, p: Pgno, src: Source)
    | NewPage(p: Pgno, page: Page, src: Source)
    | Modify(p: Pgno, page: Page)
    | FreePage(p: Pgno)
    | Loosen(p: Pgno)
    | GiveBack(p: Pgno)
    | Spill(p: Pgno, page: Page) | Unspill(p: Pgno)
    | FreeLoose
    | SaveFreelist(recs: FreeDb)
    | Flush(p: Pgno, page: Page) | FlushDone
    | SyncData | WriteMeta | SyncMeta | PublishTxn
    | Abort
    // the machine
    | Writeback(p: Pgno) | Crash

  // ------------------------------------------------------------ helpers

  ghost function RecPages(free: FreeDb): set<Pgno> {
    set k, p | k in free && p in free[k] :: p
  }

  function Above(free: FreeDb, last: TxnId): FreeDb {
    map k | k in free && k > last :: free[k]
  }

  predicate Pins(r: Reader) {
    r.Pinned? || r.Live?
  }

  /** The lowest key of the freeDB above `last`: what MDB_SET_RANGE at last+1 finds. */
  predicate IsNextRecord(free: FreeDb, last: TxnId, k: TxnId) {
    k in free && k > last && forall j | j in free :: j > last ==> k <= j
  }

  /** A single page is taken from the loose pages if there are any, a page of a longer run never;
      either may come from me_pghead or from the end of the file. */
  predicate CanTake(w: Writer, p: Pgno, src: Source)
    requires w.Writer?
  {
    match src
    case FromLoose => p in w.loose
    case FromHead => p in w.head
    case FromMap => p == w.next
  }

  /** mdb_page_alloc: take page number p. A loose page is already in the dirty list. */
  function Take(w: Writer, p: Pgno, src: Source): Writer
    requires w.Writer? && CanTake(w, p, src)
  {
    match src
    case FromLoose => w.(loose := w.loose - {p})
    case FromHead => w.(head := w.head - {p}, dirty := w.dirty + {p})
    case FromMap => w.(next := w.next + 1, dirty := w.dirty + {p})
  }

  /** The writer's transaction as a snapshot, as its meta page will describe it. */
  function Sealed(w: Writer): Snapshot
    requires w.Writer?
  {
    Snapshot(w.id, w.tree, w.free, w.next)
  }

  function PickMeta(metas: seq<Snapshot>): Snapshot
    requires |metas| == 2
  {
    if metas[0].id < metas[1].id then metas[1] else metas[0]
  }

  /** The last of mdb_freelist_save as one step: `recs` are the records, with keys in
      1..me_pglast, that receive me_pghead and the loose pages.  Without a me_pghead the loose
      pages have joined mt_free_pgs before.  FreelistCommit.SavedAsModelled proves that the
      loops of module FreelistSave do produce such records. */
  predicate CanSave(w: Writer, recs: FreeDb)
    requires w.Writer?
  {
    && (w.last == 0 ==> w.loose == {})
    && (forall k | k in recs :: 1 <= k <= w.last)
    && (forall j, k | j in recs && k in recs && j != k :: recs[j] !! recs[k])
    && RecPagesAre(recs, w.head + w.loose)
  }

  predicate RecPagesAre(recs: FreeDb, ps: set<Pgno>) {
    && (forall k, p | k in recs && p in recs[k] :: p in ps)
    && (forall p | p in ps :: exists k | k in recs :: p in recs[k])
  }

  function SavedWriter(w: Writer, recs: FreeDb): Writer
    requires w.Writer?
  {
    var own: FreeDb := if w.freed == {} then map[] else map[w.id := w.freed];
    w.(head := {}, loose := {}, free := Above(w.free, w.last) + recs + own, phase := Saved)
  }

  // ------------------------------------------------------------ steps

  predicate ReaderStep(step: Step) {
    step.ClaimReset? || step.ClaimCount? || step.ClaimPid? || step.LoadTxnId? || step.Publish?
    || step.Recheck? || step.CopyMeta? || step.EndRead? || step.ReleaseSlot?
  }

  predicate ReaderEnabled(s: State, step: Step)
  {
    && ReaderStep(step)
    && step.r < |s.readers| == |s.slots| && |s.metas| == 2
    && var reader := s.readers[step.r];
       match step
       case ClaimReset(r) =>
         && reader == Vacant && !s.slots[r].pid && r <= s.numReaders
         && (forall q | 0 <= q < |s.readers| :: !s.readers[q].Resetting? && !s.readers[q].Counting?)
       case ClaimCount(_) => reader == Resetting
       case ClaimPid(_) => reader == Counting
       case LoadTxnId(_) => reader == Owned
       case Publish(_) => reader.Loaded?
       case Recheck(_) => reader.Published?
       case CopyMeta(_) => reader.Pinned?
       case EndRead(_) => reader.Live?
       case ReleaseSlot(_) => reader == Owned
  }

  /** What a reader's step makes of its own state and slot. */
  function ReaderNext(s: State, step: Step): (Reader, Slot)
    requires ReaderEnabled(s, step)
  {
    var reader, slot := s.readers[step.r], s.slots[step.r];
    match step
    case ClaimReset(_) => (Resetting, Slot(false, Unset))
    case ClaimCount(_) => (Counting, slot)
    case ClaimPid(_) => (Owned, slot.(pid := true))
    case LoadTxnId(_) => (Loaded(s.mti), slot)
    case Publish(_) => (Published(reader.t), slot.(txnid := Set(reader.t)))
    case Recheck(_) => (if reader.t == s.mti then Pinned(reader.t) else Owned, slot)
    case CopyMeta(_) => (Live(reader.t, s.metas[reader.t % 2]), slot)
    case EndRead(_) => (Owned, slot.(txnid := Unset))
    case ReleaseSlot(_) => (Vacant, slot.(pid := false))
  }

  function ReaderApply(s: State, step: Step): State
    requires ReaderEnabled(s, step)
  {
    var (reader, slot) := ReaderNext(s, step);
    s.(readers := s.readers[step.r := reader], slots := s.slots[step.r := slot],
       numReaders := if step.ClaimCount? && step.r == s.numReaders then s.numReaders + 1 else s.numReaders)
  }

  /** Steps of the search for the oldest reader and of reading the freeDB. */
  predicate FetchEnabled(s: State, step: Step)
  {
    && s.writer.Writer? && s.writer.phase == Filling && s.writer.env < |s.oldest|
    && match step
       case ScanStart => s.writer.scan.NoScan? && s.writer.id > 0
       case ScanPid =>
         s.writer.scan.Scan? && !s.writer.scan.sawPid && 0 < s.writer.scan.left <= |s.slots|
       case ScanTxnId =>
         s.writer.scan.Scan? && s.writer.scan.sawPid && 0 < s.writer.scan.left <= |s.slots|
       case ScanDone => s.writer.scan.Scan? && s.writer.scan.left == 0
       case Fetch(k) =>
         && s.writer.scan.NoScan?
         && IsNextRecord(s.writer.free, s.writer.last, k)
         && k < s.oldest[s.writer.env]
       case _ => false
  }

  function FetchApply(s: State, step: Step): State
    requires FetchEnabled(s, step)
  {
    var w := s.writer;
    match step
    case ScanStart => s.(writer := w.(scan := Scan(s.numReaders, w.id - 1, false)))
    case ScanPid =>
      s.(writer := w.(scan :=
        if s.slots[w.scan.left - 1].pid then w.scan.(sawPid := true) else w.scan.(left := w.scan.left - 1)))
    case ScanTxnId =>
      var mr := s.slots[w.scan.left - 1].txnid;
      var oldest := if mr.Set? && w.scan.oldest > mr.txnid then mr.txnid else w.scan.oldest;
      s.(writer := w.(scan := Scan(w.scan.left - 1, oldest, false)))
    case ScanDone =>
      s.(oldest := s.oldest[w.env := w.scan.oldest], writer := w.(scan := NoScan))
    case Fetch(k) =>
      s.(writer := w.(head := w.head + w.free[k], last := k))
  }

  /** Steps that change the writer's own tree and lists, and nothing shared. */
  predicate TreeEnabled(w: Writer, step: Step)
  {
    && w.Writer? && w.phase == Filling
    && match step
       case Touch(q, p, src) =>
         && q in w.tree && q !in w.dirty && q !in w.spilled
         && CanTake(w, p, src)
       case NewPage(p, page, src) => CanTake(w, p, src)
       case Modify(p, page) => p in w.dirty && p in w.tree
       case FreePage(p) => p in w.tree
       case Loosen(p) => p in w.tree && p in w.dirty
       case GiveBack(p) => p in w.tree && (p in w.dirty || p in w.spilled) && w.last > 0
       case Unspill(p) => p in w.spilled && p in w.tree
       case FreeLoose => w.last == 0
       case SaveFreelist(recs) => w.scan.NoScan? && CanSave(w, recs)
       case _ => false
  }

  function TreeApply(w: Writer, step: Step): Writer
    requires TreeEnabled(w, step)
  {
    match step
    case Touch(q, p, src) =>
      var w1 := Take(w, p, src);
      w1.(tree := (w1.tree - {q})[p := w.tree[q]], freed := w1.freed + {q})
    case NewPage(p, page, src) =>
      var w1 := Take(w, p, src);
      w1.(tree := w1.tree[p := page])
    case Modify(p, page) => w.(tree := w.tree[p := page])
    case FreePage(p) => w.(tree := w.tree - {p}, freed := w.freed + {p})
    case Loosen(p) => w.(tree := w.tree - {p}, loose := w.loose + {p})
    case GiveBack(p) =>
      w.(tree := w.tree - {p}, dirty := w.dirty - {p}, spilled := w.spilled - {p}, head := w.head + {p})
    case Unspill(p) => w.(spilled := w.spilled - {p}, dirty := w.dirty + {p})
    case FreeLoose => w.(freed := w.freed + w.loose, dirty := w.dirty - w.loose, loose := {})
    case SaveFreelist(recs) => SavedWriter(w, recs)
  }

  /** Steps that write to the file, publish, or end the transaction. */
  predicate FileEnabled(s: State, step: Step)
  {
    var w := s.writer;
    match step
    case BeginWrite(env) => w.NoWriter? && env < |s.oldest| && |s.metas| == 2
    case Spill(p, page) =>
      && w.Writer? && w.phase == Filling && p in w.dirty && p !in w.loose
      && (p in w.tree ==> page == w.tree[p])
    case Flush(p, page) =>
      && w.Writer? && w.phase == Saved && p in w.dirty
      && (p in w.tree ==> page == w.tree[p])
    case FlushDone => w.Writer? && w.phase == Saved && w.dirty == {}
    case SyncData => w.Writer? && w.phase == Flushed
    case WriteMeta => w.Writer? && w.phase == Synced && |s.metas| == 2
    case SyncMeta => w.Writer? && w.phase == MetaWritten && |s.metas| == 2 && |s.diskMetas| == 2
    case PublishTxn => w.Writer? && w.phase == MetaDurable
    case Abort => w.Writer? && w.phase in {Filling, Saved, Flushed, Synced}
    case Writeback(p) => p in s.mem
    case Crash => |s.diskMetas| == 2
    case _ => false
  }

  function FileApply(s: State, step: Step): State
    requires FileEnabled(s, step)
  {
    var w := s.writer;
    match step
    case BeginWrite(env) =>
      var meta := s.metas[s.mti % 2];
      s.(writer := Writer(env, s.mti + 1, meta.tree, {}, {}, {}, {}, {}, 0, meta.next, meta.free, NoScan, Filling))
    case Spill(p, page) =>
      s.(mem := s.mem[p := page], writer := w.(dirty := w.dirty - {p}, spilled := w.spilled + {p}))
    case Flush(p, page) =>
      s.(mem := s.mem[p := page], writer := w.(dirty := w.dirty - {p}, spilled := w.spilled + {p}))
    case FlushDone => s.(writer := w.(phase := Flushed))
    case SyncData => s.(disk := s.mem, writer := w.(phase := Synced))
    case WriteMeta =>
      s.(metas := s.metas[w.id % 2 := Sealed(w)], snaps := s.snaps[w.id := Sealed(w)],
         writer := w.(phase := MetaWritten))
    case SyncMeta =>
      s.(diskMetas := s.diskMetas[w.id % 2 := s.metas[w.id % 2]], writer := w.(phase := MetaDurable))
    case PublishTxn => s.(mti := w.id, writer := NoWriter)
    case Abort => s.(writer := NoWriter)
    case Writeback(p) => s.(disk := s.disk[p := s.mem[p]])
    case Crash =>
      var h := PickMeta(s.diskMetas);
      State(seq(|s.readers|, i => Vacant), seq(|s.readers|, i => Slot(false, Unset)), 0, h.id,
            seq(|s.oldest|, i => 0), s.diskMetas, s.disk, s.diskMetas, s.disk, NoWriter,
            map m | m in s.snaps && m <= h.id :: s.snaps[m])
  }

  predicate Enabled(s: State, step: Step) {
    || ReaderEnabled(s, step)
    || FetchEnabled(s, step)
    || TreeEnabled(s.writer, step)
    || FileEnabled(s, step)
  }

  function Apply(s: State, step: Step): State
    requires Enabled(s, step)
  {
    if ReaderEnabled(s, step) then ReaderApply(s, step)
    else if FetchEnabled(s, step) then FetchApply(s, step)
    else if TreeEnabled(s.writer, step) then s.(writer := TreeApply(s.writer, step))
    else FileApply(s, step)
  }

  function Empty(): Snapshot {
    Snapshot(0, map[], map[], 2)
  }

  /** A freshly created environment: mdb_env_init_meta writes the same meta twice. */
  function Fresh(maxReaders: nat, processes: nat): State {
    State(seq(maxReaders, i => Vacant), seq(maxReaders, i => Slot(false, Unset)), 0, 0,
          seq(processes, i => 0), [Empty(), Empty()], map[], [Empty(), Empty()], map[], NoWriter,
          map[0 := Empty()])
  }

  /** s' is reached from s by the steps of `run`, each enabled where it is taken. */
  predicate Leads(s: State, run: seq<Step>, s': State)
    decreases |run|
  {
    if run == [] then s' == s
    else Enabled(s, run[0]) && Leads(Apply(s, run[0]), run[1..], s')
  }

  ghost predicate Reachable(s: State) {
    exists n: nat, p: nat, run :: Leads(Fresh(n, p), run, s)
  }
}
