/** What mdb_freelist_save writes, seen from the multi-version protocol: the records it leaves
    are those that the protocol's step SaveFreelist takes, so the pages of a transaction are
    conserved by the loops and not only by the step. */
module FreelistCommit {
  import opened FreelistSave
  import opened IdList
  import opened Mvcc
  import MvccPages

  ghost function PageSet(ids: seq<int>): set<Pgno> {
    set p: Pgno | p in ids
  }

  /** The freeDB as the protocol sees it. */
  ghost function FreeDbOf(db: map<int, Rec>): FreeDb {
    map k: TxnId | k in db :: PageSet(db[k].ids)
  }

  /** The records with keys up to k. */
  ghost function RecsUpTo(db: map<int, Rec>, last: int): FreeDb {
    map k: TxnId | k in db && k <= last :: PageSet(db[k].ids)
  }

  /** The writer holds the lists of e, and its freeDB has the records of e0. */
  ghost predicate Matches(w: Writer, e0: Env, e: Env)
    requires w.Writer?
  {
    && w.last == e.pglast && w.free == FreeDbOf(e0.db)
    && w.head == PageSet(e.head) && w.loose == PageSet(e.loose) && w.freed == PageSet(e.freed)
    && Once(multiset(e.head)) && Once(multiset(e.loose))
  }

  lemma {:induction false} GatheredHas(db: map<int, Rec>, k: int, p: int)
    ensures p in Gathered(db, k) <==> exists j | j in db :: 1 <= j <= k && p in db[j].ids
  {
    if k > 0 {
      GatheredHas(db, k - 1, p);
      assert k in db ==> (p in multiset(db[k].ids) <==> p in db[k].ids);
    }
  }

  lemma {:induction false} GatheredCounts(db: map<int, Rec>, k: int, j: int, p: int)
    requires j in db && 1 <= j <= k
    ensures Gathered(db, k)[p] >= multiset(db[j].ids)[p]
    ensures forall i | i in db && 1 <= i < j :: Gathered(db, k)[p] >= multiset(db[j].ids)[p] + multiset(db[i].ids)[p]
  {
    if j < k {
      GatheredCounts(db, k - 1, j, p);
    } else {
      forall i | i in db && 1 <= i < j
        ensures Gathered(db, k - 1)[p] >= multiset(db[i].ids)[p]
      {
        GatheredCounts(db, k - 1, i, p);
      }
    }
  }

  /** Where no page is listed twice, no two records share one. */
  lemma OnceDistinct(db: map<int, Rec>, last: int)
    requires Once(Gathered(db, last)) && forall k | k in db :: k >= 1
    ensures var recs := RecsUpTo(db, last); forall j, k | j in recs && k in recs && j != k :: recs[j] !! recs[k]
  {
    var recs := RecsUpTo(db, last);
    assert forall k, p | k in recs && p in recs[k] :: p in multiset(db[k].ids);
    forall i, j, p | i in recs && j in recs && i < j && p in recs[i]
      ensures p !in recs[j]
    {
      if p in recs[j] {
        GatheredCounts(db, last, j, p);
        assert false;
      }
    }
  }

  /** Lists without repetition and without a page in common hold no page twice together. */
  lemma OnceTogether(head: seq<int>, loose: seq<int>)
    requires Once(multiset(head)) && Once(multiset(loose)) && PageNos(head) && PageSet(head) !! PageSet(loose)
    ensures Once(multiset(head) + multiset(loose))
  {
    assert forall x: Pgno | x in head :: x in PageSet(head) && x !in PageSet(loose);
    forall x | x in multiset(head) + multiset(loose)
      ensures (multiset(head) + multiset(loose))[x] == 1
    {
      assert x in multiset(head) ==> x in head && x !in loose;
      assert x in multiset(loose) ==> x in loose;
    }
  }

  lemma RecsHold(e: Env, db: map<int, Rec>)
    requires Gathered(db, e.pglast) == multiset(e.head) + multiset(e.loose) && forall k | k in db :: k >= 1
    ensures RecPagesAre(RecsUpTo(db, e.pglast), PageSet(e.head) + PageSet(e.loose))
  {
    var recs := RecsUpTo(db, e.pglast);
    forall p: Pgno
      ensures (p in PageSet(e.head) + PageSet(e.loose)) <==> exists k | k in recs :: p in recs[k]
    {
      GatheredHas(db, e.pglast, p);
      assert p in Gathered(db, e.pglast) <==> p in e.head || p in e.loose;
      if j :| j in db && 1 <= j <= e.pglast && p in db[j].ids {
        assert j in recs && p in recs[j];
      }
    }
  }

  lemma SameSet(ids: seq<int>, ids': seq<int>)
    requires multiset(ids) == multiset(ids')
    ensures PageSet(ids) == PageSet(ids')
  {
    forall p: Pgno
      ensures p in ids <==> p in ids'
    {
      assert p in ids <==> p in multiset(ids);
      assert p in ids' <==> p in multiset(ids');
    }
  }

  lemma SomePage(ids: seq<int>)
    requires PageNos(ids)
    ensures ids == [] <==> PageSet(ids) == {}
  {
    if ids != [] {
      assert ids[0] in ids && ids[0] in PageSet(ids);
    }
  }

  lemma SameFreeDb(w: Writer, e0: Env, e: Env, db: map<int, Rec>)
    requires w.Writer? && Starting(e0, w.id) && FreelistSave.Saved(e0, e, db, w.id) && Matches(w, e0, e)
    ensures FreeDbOf(db) == SavedWriter(w, RecsUpTo(db, e.pglast)).free
  {
    hide Gathered, Descending, Once, PageNos;
    SomePage(e.freed);
    if e.freed != [] {
      SameSet(db[w.id].ids, e.freed);
    }
    var free, free' := FreeDbOf(db), SavedWriter(w, RecsUpTo(db, e.pglast)).free;
    forall k: TxnId
      ensures (k in free <==> k in free') && (k in free ==> free[k] == free'[k])
    {
      assert k > e.pglast && k != w.id ==> (k in db <==> k in e0.db);
    }
    assert free.Keys == free'.Keys;
  }

  /** What the loops of mdb_freelist_save have saved is what the step of the protocol saves: the
      records up to me_pglast satisfy the step's condition, and the freeDB that it makes of
      them is the one written. */
  lemma SavedAsModelled(w: Writer, e0: Env, e: Env, db: map<int, Rec>)
    requires w.Writer? && Starting(e0, w.id) && FreelistSave.Saved(e0, e, db, w.id) && Matches(w, e0, e)
    requires w.head !! w.loose
    ensures var recs := RecsUpTo(db, e.pglast);
      CanSave(w, recs) && FreeDbOf(db) == SavedWriter(w, recs).free
  {
    hide Gathered, Descending, Once, RecPagesAre;
    OnceTogether(e.head, e.loose);
    OnceDistinct(db, e.pglast);
    RecsHold(e, db);
    SameFreeDb(w, e0, e, db);
  }

  /** In any state that the protocol can reach, the writer takes that step: every page it had is
      then used or listed once, and no record lists a page that a reader may need. */
  lemma SaveCommits(s: State, e0: Env, e: Env, db: map<int, Rec>)
    requires MvccPages.Inv(s) && s.writer.Writer? && s.writer.phase == Filling && s.writer.scan.NoScan?
    requires Starting(e0, s.writer.id) && FreelistSave.Saved(e0, e, db, s.writer.id) && Matches(s.writer, e0, e)
    ensures var w, step := SavedWriter(s.writer, RecsUpTo(db, e.pglast)), SaveFreelist(RecsUpTo(db, e.pglast));
      && Enabled(s, step) && Apply(s, step) == s.(writer := w) && MvccPages.Inv(s.(writer := w))
      && w.free == FreeDbOf(db) && MvccPages.Conserved(Sealed(w))
      && MvccPages.RecordsSafe(FreeDbOf(db), s.snaps, MvccPages.Floor(s.readers, s.mti), s.mti)
  {
    hide FreelistSave.Saved, Starting, Matches, CanSave, MvccPages.Conserved, MvccPages.RecordsSafe;
    WriterApart(s);
    SavedAsModelled(s.writer, e0, e, db);
    var step := SaveFreelist(RecsUpTo(db, e.pglast));
    assert TreeEnabled(s.writer, step);
    MvccPages.StepOk(s, step);
    WriterSealed(Apply(s, step));
  }

  lemma WriterApart(s: State)
    requires MvccPages.Inv(s) && s.writer.Writer? && s.writer.phase == Filling
    ensures s.writer.head !! s.writer.loose
  {
    assert MvccPages.Parts(s.writer);
  }

  lemma WriterSealed(s: State)
    requires MvccPages.Inv(s) && s.writer.Writer? && s.writer.phase == Phase.Saved
    ensures MvccPages.Conserved(Sealed(s.writer))
    ensures MvccPages.RecordsSafe(s.writer.free, s.snaps, MvccPages.Floor(s.readers, s.mti), s.mti)
  {
  }
}
