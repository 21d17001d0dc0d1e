/** mdb_freelist_save: reserving records for me_pghead while every write to the freeDB may
    change the free lists, and filling them. */
module FreelistSave {
  import opened IdList
  import MidlSort

  // ------------------------------------------------------------ reserving

  /** The data of a record of the freeDB: room for so many ids, and the ids it lists. */
  datatype Rec = Rec(room: int, ids: seq<int>)

  /** What else may change while a record of the freeDB is written or deleted: writing takes
      and frees pages.  me_pghead and the loose pages may be any afterwards; me_pglast and
      mt_free_pgs only grow, and me_pglast is always the key of a record. */
  datatype Change = Change(pglast: int, head: seq<int>, loose: seq<int>, freed: seq<int>)

  /** The records of the freeDB, and the lists that may change. */
  datatype Env = Env(db: map<int, Rec>, pglast: int, head: seq<int>, loose: seq<int>, freed: seq<int>)

  /** The pages that me_pghead will have in the end. */
  function MopLen(e: Env): nat {
    |e.head| + |e.loose|
  }

  predicate PageNos(s: seq<int>) {
    forall x | x in s :: 0 <= x <= MAX_ID
  }

  /** Without a me_pghead there are no loose pages either: writing to the freeDB makes none. */
  predicate ListsOk(pglast: int, head: seq<int>, loose: seq<int>, freed: seq<int>) {
    && Descending(head) && PageNos(head) && PageNos(loose) && PageNos(freed)
    && (|head| + |loose| > 0 ==> pglast > 0)
  }

  predicate EnvOk(e: Env, txnid: int) {
    && 0 <= e.pglast < txnid
    && (forall k | k in e.db :: 1 <= k <= txnid && e.db[k].room >= 0)
    && ListsOk(e.pglast, e.head, e.loose, e.freed)
  }

  predicate Legal(e: Env, c: Change, txnid: int) {
    && e.pglast <= c.pglast < txnid && multiset(e.freed) <= multiset(c.freed)
    && (c.pglast != e.pglast ==> c.pglast in e.db)
    && ListsOk(c.pglast, c.head, c.loose, c.freed)
  }

  function Changed(e: Env, c: Change): Env {
    Env(e.db, c.pglast, c.head, c.loose, c.freed)
  }

  /** The records with keys above me_pglast, but for the transaction's own, are left alone, and
      no page freed is forgotten. */
  ghost predicate Untouched(e0: Env, e: Env, txnid: int) {
    && e0.pglast <= e.pglast && multiset(e0.freed) <= multiset(e.freed)
    && forall k | k > e.pglast && k != txnid :: (k in e.db <==> k in e0.db) && (k in e0.db ==> e.db[k] == e0.db[k])
  }

  /** The room of all records with keys up to k. */
  function RoomUpTo(db: map<int, Rec>, k: int): int {
    if k <= 0 then 0 else RoomUpTo(db, k - 1) + if k in db then db[k].room else 0
  }

  lemma {:induction false} RoomPut(db: map<int, Rec>, k: int, id: int, rec: Rec)
    ensures RoomUpTo(db[id := rec], k)
      == RoomUpTo(db, k) + if 1 <= id <= k then rec.room - (if id in db then db[id].room else 0) else 0
  {
    if k > 0 {
      RoomPut(db, k - 1, id, rec);
    }
  }

  lemma {:induction false} RoomNone(db: map<int, Rec>, k: int)
    requires forall j | j in db :: j > k
    ensures RoomUpTo(db, k) == 0
  {
    if k > 0 {
      RoomNone(db, k - 1);
    }
  }

  /** Where the loop stands.  The records up to pglast are those reserved so far: they have
      total_room, their keys are head_id and above, and head_room is that of head_id. */
  datatype Reserve = Reserve(pglast: int, headId: int, headRoom: int, totalRoom: int, freecnt: int)

  ghost predicate Reserved(e: Env, r: Reserve, txnid: int) {
    && EnvOk(e, txnid)
    && 0 <= r.pglast <= e.pglast
    && (r.pglast < e.pglast ==> e.pglast in e.db)
    && r.totalRoom == RoomUpTo(e.db, r.pglast)
    && (forall k | k in e.db && k <= r.pglast :: r.headId <= k && e.db[k].ids == [])
    && (if r.pglast == 0 then r.headId == 0 else 1 <= r.headId <= r.pglast)
    && r.headRoom == (if r.headId in e.db then e.db[r.headId].room else 0)
  }

  /** The transaction's own record holds pages that it has freed, freecnt of them. */
  ghost predicate Freed(e: Env, freecnt: int, txnid: int) {
    && 0 <= freecnt
    && (freecnt == 0 ==> txnid !in e.db)
    && (freecnt > 0 ==>
      && txnid in e.db && |e.db[txnid].ids| == freecnt
      && Descending(e.db[txnid].ids) && multiset(e.db[txnid].ids) <= multiset(e.freed))
  }

  lemma NotEmpty(s: set<int>)
    ensures s == {} || exists k :: k in s
  {
    if forall k :: k !in s {
      assert s == {};
    }
  }

  /** The first record of the freeDB. */
  method FirstKey(db: map<int, Rec>) returns (k: int)
    requires db.Keys != {}
    ensures k in db && forall j | j in db :: k <= j
  {
    var rest := db.Keys;
    NotEmpty(rest);
    k :| k in rest;
    rest := rest - {k};
    while rest != {}
      invariant rest <= db.Keys && k in db && forall j | j in db && j !in rest :: k <= j
      decreases rest
    {
      NotEmpty(rest);
      var j :| j in rest;
      if j < k {
        k := j;
      }
      rest := rest - {j};
    }
  }

  /** mdb_midl_sort on a list; ok is false when it is too long for positions in C ints. */
  method SortIds(s: seq<int>) returns (ok: bool, t: seq<int>)
    ensures multiset(t) == multiset(s)
    ensures ok ==> Descending(t)
    ensures 2 * |s| <= MidlSort.INT_MAX + MidlSort.SMALL ==> ok
  {
    hide MidlSort.SumOverflows;
    var a := new int[|s| + 1](i requires 0 <= i <= |s| => if i == 0 then |s| else s[i - 1]);
    ghost var v := a[..];
    assert MidlSort.Part(v, 1, |s|) == s == v[1..|s| + 1];
    if 2 * |s| <= MidlSort.INT_MAX + MidlSort.SMALL {
      MidlSort.ShortNeverOverflows(s, 1);
    }
    ok := MidlSort.Sort(a);
    t := a[1..];
    assert t == a[..][1..|s| + 1] && |t| == |s|;
    assert |s| > 0 ==> multiset(a[..][1..|s| + 1]) == multiset(v[1..|s| + 1]);
  }

  predicate Suffix(rest: seq<Change>, changes: seq<Change>) {
    |rest| <= |changes| && rest == changes[|changes| - |rest|..]
  }

  lemma SuffixOf(a: seq<Change>, b: seq<Change>, c: seq<Change>)
    requires Suffix(a, b) && Suffix(b, c)
    ensures Suffix(a, c)
  {
  }

  /** Why saving can stop halfway: no change is left, the next one cannot happen, or a list is
      too long for the sort. */
  ghost predicate Stuck(e: Env, rest: seq<Change>, txnid: int) {
    || rest == [] || !Legal(e, rest[0], txnid)
    || 2 * |e.freed| > MidlSort.INT_MAX + MidlSort.SMALL || 2 * |e.loose| > MidlSort.INT_MAX + MidlSort.SMALL
  }

  /** One change of the lists, the next of those foreseen; ok is false when none is left or
      it is not one that can happen. */
  method Next(e: Env, txnid: int, changes: seq<Change>) returns (ok: bool, e': Env, rest: seq<Change>)
    requires EnvOk(e, txnid)
    ensures Suffix(rest, changes)
    ensures ok ==> changes != [] && rest == changes[1..] && Legal(e, changes[0], txnid) && e' == Changed(e, changes[0])
    ensures !ok ==> e' == e && Stuck(e, rest, txnid)
  {
    ok := changes != [] && Legal(e, changes[0], txnid);
    if ok {
      e', rest := Changed(e, changes[0]), changes[1..];
    } else {
      e', rest := e, changes;
    }
  }

  /** The deletion of the records that have been taken from, and of those reserved before. */
  method DropConsumed(e0: Env, r0: Reserve, txnid: int, changes: seq<Change>, ghost was: Env)
    returns (ok: bool, e: Env, r: Reserve, rest: seq<Change>)
    requires Reserved(e0, r0, txnid) && Untouched(was, e0, txnid) && Freed(e0, r0.freecnt, txnid)
    ensures Suffix(rest, changes) && |rest| <= |changes| && (!ok ==> Stuck(e, rest, txnid))
    ensures ok ==> Reserved(e, r, txnid) && Untouched(was, e, txnid) && Freed(e, r.freecnt, txnid)
    ensures ok ==> r.pglast == e.pglast
  {
    hide Suffix, Stuck, Freed, Reserved, Untouched, EnvOk, Legal, RoomUpTo;
    e, r, rest, ok := e0, r0, changes, true;
    SuffixSelf(changes);
    while r.pglast < e.pglast
      invariant Reserved(e, r, txnid) && Untouched(was, e, txnid) && Freed(e, r.freecnt, txnid)
      invariant Suffix(rest, changes) && |rest| <= |changes|
      decreases |rest|
    {
      ghost var before, left := e, rest;
      NotConsumed(e, r, txnid);
      var k := FirstKey(e.db);
      DropFirst(was, e, r, txnid, k);
      e := e.(db := e.db - {k});
      ok, e, rest := Next(e, txnid, rest);
      SuffixOf(rest, left, changes);
      if !ok {
        return;
      }
      DropFirstChanged(was, before, r, txnid, k, left[0]);
      r := r.(pglast := k, headId := k, headRoom := 0, totalRoom := 0);
    }
    ReservedEnv(e, r, txnid);
  }

  lemma SuffixSelf(changes: seq<Change>)
    ensures Suffix(changes, changes)
  {
  }

  lemma NotConsumed(e: Env, r: Reserve, txnid: int)
    requires Reserved(e, r, txnid) && r.pglast < e.pglast
    ensures e.pglast in e.db && e.db.Keys != {}
  {
  }

  lemma DropFirst(was: Env, e: Env, r: Reserve, txnid: int, k: int)
    requires Reserved(e, r, txnid) && Untouched(was, e, txnid) && Freed(e, r.freecnt, txnid)
    requires r.pglast < e.pglast && k in e.db && forall j | j in e.db :: k <= j
    ensures k <= e.pglast
    ensures var e' := e.(db := e.db - {k}); EnvOk(e', txnid)
  {
    assert e.pglast in e.db;
  }

  lemma DropFirstChanged(was: Env, e: Env, r: Reserve, txnid: int, k: int, c: Change)
    requires Reserved(e, r, txnid) && Untouched(was, e, txnid) && Freed(e, r.freecnt, txnid)
    requires r.pglast < e.pglast && k in e.db && forall j | j in e.db :: k <= j
    requires Legal(e.(db := e.db - {k}), c, txnid)
    ensures var e', r' := Changed(e.(db := e.db - {k}), c), r.(pglast := k, headId := k, headRoom := 0, totalRoom := 0);
      Reserved(e', r', txnid) && Untouched(was, e', txnid) && Freed(e', r'.freecnt, txnid)
  {
    assert e.pglast in e.db;
    RoomNone(e.db - {k}, k);
  }

  /** Writing the transaction's own record touches no other. */
  lemma OwnRecord(was: Env, e: Env, r: Reserve, txnid: int, rec: Rec)
    requires Reserved(e, r, txnid) && Untouched(was, e, txnid) && rec.room >= 0
    ensures var e' := e.(db := e.db[txnid := rec]); Reserved(e', r, txnid) && Untouched(was, e', txnid)
  {
    RoomPut(e.db, r.pglast, txnid, rec);
  }

  /** A change of the lists touches no record. */
  lemma ChangeKeeps(was: Env, e: Env, r: Reserve, txnid: int, c: Change)
    requires Reserved(e, r, txnid) && Untouched(was, e, txnid) && Legal(e, c, txnid)
    ensures var e' := Changed(e, c); Reserved(e', r, txnid) && Untouched(was, e', txnid) && |e'.freed| >= |e.freed|
  {
    SubLength(e.freed, c.freed);
  }

  lemma SortedFreed(was: Env, e: Env, r: Reserve, txnid: int, ids: seq<int>)
    requires Reserved(e, r, txnid) && Untouched(was, e, txnid) && multiset(ids) == multiset(e.freed)
    ensures var e' := e.(freed := ids); Reserved(e', r, txnid) && Untouched(was, e', txnid) && |ids| == |e.freed|
  {
    SubLength(ids, e.freed);
    SubLength(e.freed, ids);
    forall x | x in ids ensures x in e.freed {
      assert x in multiset(ids);
      assert x in multiset(e.freed);
    }
  }

  /** The record of the pages this transaction has freed: written again while writing it
      frees more. */
  method SaveFreed(e0: Env, r0: Reserve, txnid: int, changes: seq<Change>, ghost was: Env)
    returns (ok: bool, e: Env, r: Reserve, rest: seq<Change>)
    requires Reserved(e0, r0, txnid) && Untouched(was, e0, txnid) && 0 <= r0.freecnt < |e0.freed|
    ensures Suffix(rest, changes) && |rest| <= |changes| && (!ok ==> Stuck(e, rest, txnid))
    ensures ok ==> Reserved(e, r, txnid) && Untouched(was, e, txnid) && Freed(e, r.freecnt, txnid)
    ensures ok ==> |rest| < |changes| && r.freecnt == |e.freed|
  {
    hide Reserved, Untouched, Legal, EnvOk, Suffix, Stuck, Freed, Descending, ListsOk;
    e, r, rest := e0, r0, changes;
    SuffixSelf(changes);
    ReservedEnv(e, r, txnid);
    if r.freecnt == 0 {
      ok, e, rest := Next(e, txnid, rest);
      if !ok {
        return;
      }
      ChangeKeeps(was, e0, r, txnid, changes[0]);
    }
    while true
      invariant Reserved(e, r, txnid) && Untouched(was, e, txnid) && |e.freed| > 0
      invariant Suffix(rest, changes) && |rest| <= |changes|
      decreases |rest|
    {
      var freecnt := |e.freed|;
      OwnRecord(was, e, r, txnid, Rec(freecnt, []));
      e := e.(db := e.db[txnid := Rec(freecnt, [])]);
      ReservedEnv(e, r, txnid);
      ghost var before, left := e, rest;
      ok, e, rest := Next(e, txnid, rest);
      SuffixOf(rest, left, changes);
      if !ok {
        return;
      }
      ChangeKeeps(was, before, r, txnid, left[0]);
      if freecnt >= |e.freed| {
        var ids;
        ok, ids := SortIds(e.freed);
        if !ok {
          LongFreed(e, rest, txnid);
          return;
        }
        SortedFreed(was, e, r, txnid, ids);
        e := e.(freed := ids);
        OwnRecord(was, e, r, txnid, Rec(freecnt, ids));
        e := e.(db := e.db[txnid := Rec(freecnt, ids)]);
        CountKeeps(e, r, txnid, freecnt);
        OwnFreed(e, freecnt, txnid);
        r := r.(freecnt := freecnt);
        return;
      }
    }
  }

  lemma LongFreed(e: Env, rest: seq<Change>, txnid: int)
    requires 2 * |e.freed| > MidlSort.INT_MAX + MidlSort.SMALL
    ensures Stuck(e, rest, txnid)
  {
  }

  lemma OwnFreed(e: Env, freecnt: int, txnid: int)
    requires txnid in e.db && e.db[txnid].ids == e.freed && |e.freed| == freecnt > 0 && Descending(e.freed)
    ensures Freed(e, freecnt, txnid)
  {
  }

  lemma ReservedEnv(e: Env, r: Reserve, txnid: int)
    requires Reserved(e, r, txnid)
    ensures EnvOk(e, txnid) && r.pglast <= e.pglast
  {
  }

  lemma CountKeeps(e: Env, r: Reserve, txnid: int, freecnt: int)
    requires Reserved(e, r, txnid)
    ensures Reserved(e, r.(freecnt := freecnt), txnid)
  {
  }

  lemma SubLength(a: seq<int>, b: seq<int>)
    requires multiset(a) <= multiset(b)
    ensures |a| <= |b|
    ensures |a| == |b| ==> multiset(a) == multiset(b)
  {
    var rest := multiset(b) - multiset(a);
    assert multiset(b) == multiset(a) + rest;
    assert |multiset(b)| == |multiset(a)| + |rest|;
  }

  /** The room for the record head_id that the source asks for. */
  function HeadRoom(need: int, headId: int, maxfree: int): (room: int)
    requires maxfree >= 1
    ensures room >= 0
    ensures 0 <= need <= maxfree || (need >= 0 && headId <= 1) ==> room == need
  {
    if need > maxfree && headId > 1 then
      need / headId + (maxfree - need / headId % (maxfree + 1))
    else if need < 0 then 0
    else need
  }

  /** The room of the overflow records: it fills whole pages, and as many records as there are keys
      left hold the need, unless the share of a record fills its pages exactly and leaves a
      remainder.  One id more in each would always do. */
  lemma HeadRoomExact(need: int, headId: int, maxfree: int)
    requires maxfree >= 1 && need > maxfree && headId > 1
    ensures var room, share := HeadRoom(need, headId, maxfree), need / headId;
      && room + 1 == (share / (maxfree + 1) + 1) * (maxfree + 1) && share <= room <= share + maxfree
      && (headId * room >= need <==> share % (maxfree + 1) != maxfree || need % headId == 0)
      && headId * (room + 1) > need
  {
    var room, share, rest := HeadRoom(need, headId, maxfree), need / headId, need % headId;
    var gap := maxfree - share % (maxfree + 1);
    Divided(need, headId);
    Divided(share, maxfree + 1);
    assert room == share + gap;
    Shares(headId, share, gap, rest);
    Shares(headId, share, gap + 1, rest);
  }

  lemma Divided(x: int, y: int)
    requires x >= 0 && y > 0
    ensures x == y * (x / y) + x % y && 0 <= x % y < y && x / y >= 0
    ensures (x / y + 1) * y == x - x % y + y
  {
  }

  lemma Shares(n: int, share: int, gap: int, rest: int)
    requires n > 0 && gap >= 0 && 0 <= rest < n
    ensures n * (share + gap) >= n * share + rest <==> gap > 0 || rest == 0
    ensures gap > 0 ==> n * (share + gap) > n * share + rest
  {
    assert n * (share + gap) == n * share + n * gap;
    if gap > 0 {
      assert n * gap >= n * 1;
    }
  }

  /** With records for pages of 4096 bytes: two of the room asked for 1019 ids hold 1018. */
  lemma HeadRoomShort()
    ensures HeadRoom(1019, 2, 509) == 509
  {
  }

  /** Reserves records for me_pghead.  Whatever the writes do to the lists: when the loop is
      left, the records up to me_pglast are empty and have room for all of me_pghead and the
      loose pages, the transaction's own record holds exactly the pages freed, and all other
      records are as they were. */
  method SaveReserve(e0: Env, txnid: int, maxfree: int, changes: seq<Change>)
    returns (done: bool, e: Env, r: Reserve, rest: seq<Change>)
    requires EnvOk(e0, txnid) && txnid !in e0.db && maxfree >= 1
    requires e0.pglast > 0 ==> e0.pglast in e0.db
    ensures done ==> Reserved(e, r, txnid) && r.pglast == e.pglast && RoomUpTo(e.db, e.pglast) >= MopLen(e)
    ensures done ==> Freed(e, |e.freed|, txnid) && (e.freed != [] ==> multiset(e.db[txnid].ids) == multiset(e.freed))
    ensures done ==> Untouched(e0, e, txnid)
    ensures Suffix(rest, changes) && (!done ==> Stuck(e, rest, txnid))
  {
    hide Suffix, Stuck, Freed, Reserved, Untouched, EnvOk, Legal, Descending, PageNos;
    e, r, rest, done := e0, Reserve(0, 0, 0, 0, 0), changes, false;
    var more := 1;
    ReserveStart(e0, txnid, changes);
    while true
      invariant Reserved(e, r, txnid) && Untouched(e0, e, txnid) && Freed(e, r.freecnt, txnid)
      invariant Suffix(rest, changes)
      decreases |rest|
    {
      var ok;
      ghost var left := rest;
      ok, e, r, rest := DropConsumed(e, r, txnid, rest, e0);
      SuffixOf(rest, left, changes);
      if !ok {
        return;
      }
      left := rest;
      FreedCount(e, r.freecnt, txnid);
      if r.freecnt < |e.freed| {
        ok, e, r, rest := SaveFreed(e, r, txnid, rest, e0);
        SuffixOf(rest, left, changes);
        if !ok {
          return;
        }
        continue;
      }
      AllFreed(e, r.freecnt, txnid);
      SomeHead(e, r, txnid);
      if r.totalRoom >= MopLen(e) {
        if r.totalRoom == MopLen(e) {
          return true, e, r, rest;
        }
        more := more - 1;
        if more < 0 {
          return true, e, r, rest;
        }
      } else if r.headRoom >= maxfree && r.headId > 1 {
        NextHead(e, r, txnid);
        r := r.(headId := r.headId - 1, headRoom := 0);
      }
      ok, e, r, rest := PutReserved(e, r, txnid, maxfree, rest, e0);
      SuffixOf(rest, left, changes);
      if !ok {
        return;
      }
    }
  }

  lemma FreedCount(e: Env, freecnt: int, txnid: int)
    requires Freed(e, freecnt, txnid)
    ensures freecnt >= 0
  {
  }

  lemma AllFreed(e: Env, freecnt: int, txnid: int)
    requires Freed(e, freecnt, txnid) && freecnt >= |e.freed|
    ensures freecnt == |e.freed| && (e.freed != [] ==> multiset(e.db[txnid].ids) == multiset(e.freed))
  {
    if freecnt > 0 {
      SubLength(e.db[txnid].ids, e.freed);
    }
  }

  /** (Re)writes the record head_id as an empty list with the room that is still missing. */
  method PutReserved(e0: Env, r0: Reserve, txnid: int, maxfree: int, changes: seq<Change>, ghost was: Env)
    returns (ok: bool, e: Env, r: Reserve, rest: seq<Change>)
    requires maxfree >= 1 && 0 < r0.pglast == e0.pglast
    requires Reserved(e0, r0, txnid) && Untouched(was, e0, txnid) && Freed(e0, r0.freecnt, txnid)
    ensures Suffix(rest, changes) && |rest| <= |changes| && (!ok ==> Stuck(e, rest, txnid))
    ensures ok ==> Reserved(e, r, txnid) && Untouched(was, e, txnid) && Freed(e, r.freecnt, txnid) && |rest| < |changes|
  {
    var others := r0.totalRoom - r0.headRoom;
    var room := HeadRoom(MopLen(e0) - others, r0.headId, maxfree);
    RoomPut(e0.db, r0.pglast, r0.headId, Rec(room, []));
    r := r0.(headRoom := room, totalRoom := others + room);
    e := e0.(db := e0.db[r0.headId := Rec(room, [])]);
    ok, e, rest := Next(e, txnid, changes);
  }

  lemma ReserveStart(e: Env, txnid: int, changes: seq<Change>)
    requires EnvOk(e, txnid) && txnid !in e.db && (e.pglast > 0 ==> e.pglast in e.db)
    ensures Reserved(e, Reserve(0, 0, 0, 0, 0), txnid) && Untouched(e, e, txnid) && Freed(e, 0, txnid)
    ensures Suffix(changes, changes)
  {
  }

  lemma NextHead(e: Env, r: Reserve, txnid: int)
    requires Reserved(e, r, txnid) && r.headId > 1
    ensures Reserved(e, r.(headId := r.headId - 1, headRoom := 0), txnid)
  {
  }

  /** Where room is missing there is a me_pghead, and so a record to rewrite. */
  lemma SomeHead(e: Env, r: Reserve, txnid: int)
    requires Reserved(e, r, txnid) && r.pglast == e.pglast
    ensures e.pglast >= 0 && (e.pglast == 0 ==> r.totalRoom == 0 && MopLen(e) == 0)
    ensures r.totalRoom == RoomUpTo(e.db, e.pglast)
  {
  }

  // ------------------------------------------------------------ filling

  /** The page numbers that the records hold, those of the later records first. */
  function Flat(stored: seq<seq<int>>): seq<int> {
    if stored == [] then [] else stored[|stored| - 1] + Flat(stored[..|stored| - 1])
  }

  function Sum(rooms: seq<int>): int {
    if rooms == [] then 0 else Sum(rooms[..|rooms| - 1]) + rooms[|rooms| - 1]
  }

  /** Fills the reserved records from the end of me_pghead: each gets its length and the ids
      behind it, written in one piece with the length put in place of the id in front.
      rooms are the rooms of the records from the first on, of which `mine` have keys up to
      me_pglast; with room enough, none behind them is reached. */
  method Fill(mop: array<int>, rooms: seq<int>, ghost mine: nat) returns (stored: seq<seq<int>>)
    requires Fits(mop) && mine <= |rooms| && forall i | 0 <= i < |rooms| :: rooms[i] >= 0
    requires Sum(rooms[..mine]) >= mop[0]
    modifies mop
    ensures mop[..] == old(mop[..])
    ensures |stored| <= mine && Flat(stored) == Ids(mop)
    ensures forall i | 0 <= i < |stored| :: |stored[i]| <= rooms[i]
  {
    hide Flat, Sum;
    ghost var s := Ids(mop);
    stored := [];
    var mopLen := mop[0];
    FillStart(s);
    if mopLen == 0 {
      return;
    }
    var p, i := mopLen, 0;
    while i < |rooms|
      invariant mop[..] == old(mop[..]) && 0 <= p == mopLen <= |s| && mopLen > 0
      invariant 0 <= i <= mine && Filled(stored, s, mopLen, rooms, i)
    {
      StillMine(s, mopLen, stored, rooms, i, mine);
      var len := rooms[i];
      if len > mopLen {
        len := mopLen;
      }
      p := p - len;
      var record := TakeRecord(mop, p, len);
      FillStep(stored, s, mopLen, rooms, i, len);
      assert record[1..] == s[mopLen - len..mopLen];
      stored := stored + [record[1..]];
      i := i + 1;
      mopLen := mopLen - len;
      if mopLen == 0 {
        return;
      }
    }
    StillMine(s, mopLen, stored, rooms, i, mine);
  }

  /** The record for the len ids behind position p: the length stands in place of the id at p
      while the record is written. */
  method TakeRecord(mop: array<int>, p: int, len: int) returns (record: seq<int>)
    requires 0 <= p && 0 <= len && p + len < mop.Length
    modifies mop
    ensures mop[..] == old(mop[..])
    ensures record == [len] + mop[p + 1..p + len + 1]
  {
    var save := mop[p];
    mop[p] := len;
    record := mop[p..p + len + 1];
    mop[p] := save;
  }

  /** The first i records hold the ids from mopLen on, and no record more than it has room
      for; every record but the last is full. */
  ghost predicate Filled(stored: seq<seq<int>>, s: seq<int>, mopLen: int, rooms: seq<int>, i: nat) {
    && 0 <= mopLen <= |s| && i == |stored| <= |rooms|
    && Flat(stored) == s[mopLen..]
    && (mopLen > 0 ==> |s| - mopLen == Sum(rooms[..i]))
    && forall k | 0 <= k < i :: |stored[k]| <= rooms[k]
  }

  lemma FillStart(s: seq<int>)
    ensures forall rooms :: Filled([], s, |s|, rooms, 0)
    ensures Flat([]) == []
  {
    forall rooms: seq<int>
      ensures Filled([], s, |s|, rooms, 0)
    {
      assert rooms[..0] == [];
    }
  }

  /** As long as ids are left, there is a record of ours left. */
  lemma StillMine(s: seq<int>, mopLen: int, stored: seq<seq<int>>, rooms: seq<int>, i: nat, mine: nat)
    requires Filled(stored, s, mopLen, rooms, i) && mopLen > 0 && i <= mine <= |rooms|
    requires Sum(rooms[..mine]) >= |s|
    ensures i < mine
  {
  }

  lemma FillStep(stored: seq<seq<int>>, s: seq<int>, mopLen: int, rooms: seq<int>, i: nat, len: int)
    requires Filled(stored, s, mopLen, rooms, i) && i < |rooms| && 0 < mopLen
    requires 0 <= len <= mopLen && len == if rooms[i] > mopLen then mopLen else rooms[i]
    ensures Filled(stored + [s[mopLen - len..mopLen]], s, mopLen - len, rooms, i + 1)
    ensures mopLen == len ==> Flat(stored + [s[mopLen - len..mopLen]]) == s
  {
    var x := s[mopLen - len..mopLen];
    FlatAppend(stored, x);
    assert s[mopLen - len..] == x + s[mopLen..];
    assert rooms[..i + 1][..i] == rooms[..i];
    assert forall k | 0 <= k < i :: (stored + [x])[k] == stored[k];
  }

  lemma FlatAppend(stored: seq<seq<int>>, x: seq<int>)
    ensures Flat(stored + [x]) == x + Flat(stored)
  {
    assert (stored + [x])[..|stored|] == stored;
  }

  /** Of a sorted list, every record holds a sorted part. */
  lemma {:induction false} PartsSorted(stored: seq<seq<int>>, i: nat)
    requires Descending(Flat(stored)) && i < |stored|
    ensures Descending(stored[i])
    decreases |stored|
  {
    var n := |stored| - 1;
    var last, rest := stored[n], Flat(stored[..n]);
    assert forall k | 0 <= k < |last| :: Flat(stored)[k] == last[k];
    assert forall k | 0 <= k < |rest| :: rest[k] == Flat(stored)[k + |last|];
    if i < n {
      PartsSorted(stored[..n], i);
    }
  }

  function Rooms(db: map<int, Rec>, keys: seq<int>): seq<int> {
    if keys == [] then []
    else
      var k := keys[|keys| - 1];
      Rooms(db, keys[..|keys| - 1]) + [if k in db then db[k].room else 0]
  }

  /** All keys of the freeDB, in order. */
  ghost predicate AllKeys(db: map<int, Rec>, keys: seq<int>) {
    && (forall i | 0 <= i < |keys| :: keys[i] in db && keys[i] >= 1)
    && (forall i, j | 0 <= i < j < |keys| :: keys[i] < keys[j])
    && (forall x | x in db :: x in keys)
  }

  /** The first m keys are those up to k. */
  ghost predicate UpTo(keys: seq<int>, m: nat, k: int) {
    && m <= |keys|
    && (forall i | 0 <= i < m :: keys[i] <= k)
    && (forall i | m <= i < |keys| :: keys[i] > k)
  }

  lemma LastUpTo(db: map<int, Rec>, keys: seq<int>, m: nat, k: int)
    requires AllKeys(db, keys) && UpTo(keys, m, k)
    ensures k in db ==> m > 0 && keys[m - 1] == k && UpTo(keys, m - 1, k - 1)
    ensures k !in db ==> UpTo(keys, m, k - 1)
    ensures k <= 0 ==> m == 0
  {
    assert m > 0 ==> 1 <= keys[0] <= k;
    if k in db {
      var i :| 0 <= i < |keys| && keys[i] == k;
      assert forall j | i < j < |keys| :: keys[j] > keys[i];
      assert i < m && (i + 1 < |keys| ==> keys[i + 1] > k);
    }
  }

  /** The room that the reservation is after is the room of the records that are filled. */
  lemma {:induction false} RoomsInOrder(db: map<int, Rec>, keys: seq<int>, m: nat, k: int)
    requires AllKeys(db, keys) && UpTo(keys, m, k)
    ensures RoomUpTo(db, k) == Sum(Rooms(db, keys[..m]))
    decreases if k < 0 then 0 else k
  {
    hide AllKeys, UpTo;
    LastUpTo(db, keys, m, k);
    InBounds(keys, m, k);
    if k <= 0 {
      assert keys[..m] == [];
    } else if k in db {
      RoomsInOrder(db, keys, m - 1, k - 1);
      assert keys[..m][..m - 1] == keys[..m - 1];
      var r := Rooms(db, keys[..m]);
      assert r[..|r| - 1] == Rooms(db, keys[..m - 1]);
    } else {
      RoomsInOrder(db, keys, m, k - 1);
    }
  }

  lemma InBounds(keys: seq<int>, m: nat, k: int)
    requires UpTo(keys, m, k)
    ensures m <= |keys|
  {
  }

  // ------------------------------------------------------------ all of it

  /** The ids that the records with keys up to k list, with multiplicity. */
  function Gathered(db: map<int, Rec>, k: int): multiset<int> {
    if k <= 0 then multiset{} else Gathered(db, k - 1) + if k in db then multiset(db[k].ids) else multiset{}
  }

  function Lists(db: map<int, Rec>, keys: seq<int>): (s: seq<seq<int>>)
    ensures |s| == |keys|
  {
    seq(|keys|, i requires 0 <= i < |keys| => if keys[i] in db then db[keys[i]].ids else [])
  }

  lemma {:induction false} GatheredInOrder(db: map<int, Rec>, keys: seq<int>, m: nat, k: int)
    requires AllKeys(db, keys) && UpTo(keys, m, k)
    ensures Gathered(db, k) == multiset(Flat(Lists(db, keys[..m])))
    decreases if k < 0 then 0 else k
  {
    hide AllKeys, UpTo;
    LastUpTo(db, keys, m, k);
    InBounds(keys, m, k);
    if k <= 0 {
      assert keys[..m] == [];
    } else if k in db {
      GatheredInOrder(db, keys, m - 1, k - 1);
      var s := Lists(db, keys[..m]);
      assert s[..m - 1] == Lists(db, keys[..m - 1]);
      assert s[m - 1] == db[k].ids;
    } else {
      GatheredInOrder(db, keys, m, k - 1);
    }
  }

  lemma {:induction false} FlatEmpties(stored: seq<seq<int>>, n: nat)
    requires n <= |stored| && forall i | n <= i < |stored| :: stored[i] == []
    ensures Flat(stored) == Flat(stored[..n])
    decreases |stored|
  {
    if n < |stored| {
      FlatEmpties(stored[..|stored| - 1], n);
      assert stored[..|stored| - 1][..n] == stored[..n];
    } else {
      assert stored[..n] == stored;
    }
  }

  /** The keys in the order of the cursor. */
  method SortedKeys(db: map<int, Rec>) returns (keys: seq<int>)
    requires forall k | k in db :: k >= 1
    ensures AllKeys(db, keys)
  {
    keys := [];
    var rest := db;
    while rest.Keys != {}
      invariant rest.Keys <= db.Keys
      invariant forall i | 0 <= i < |keys| :: keys[i] in db && keys[i] >= 1
      invariant forall i, j | 0 <= i < j < |keys| :: keys[i] < keys[j]
      invariant forall i, k | 0 <= i < |keys| && k in rest :: keys[i] < k
      invariant forall k | k in db :: k in rest || k in keys
      decreases rest.Keys
    {
      var k := FirstKey(rest);
      keys, rest := keys + [k], rest - {k};
    }
  }

  /** How many keys there are up to k. */
  lemma {:induction false} Bound(keys: seq<int>, k: int) returns (m: nat)
    requires forall i, j | 0 <= i < j < |keys| :: keys[i] < keys[j]
    ensures UpTo(keys, m, k)
    decreases |keys|
  {
    if keys == [] || keys[|keys| - 1] <= k {
      m := |keys|;
    } else {
      m := Bound(keys[..|keys| - 1], k);
    }
  }

  /** The records once they are filled. */
  function WithLists(db: map<int, Rec>, keys: seq<int>, stored: seq<seq<int>>): map<int, Rec>
    requires |stored| <= |keys|
  {
    if stored == [] then db
    else
      var n := |stored| - 1;
      WithLists(db, keys, stored[..n])[keys[n] := Rec(|stored[n]|, stored[n])]
  }

  lemma {:induction false} WithListsIs(db: map<int, Rec>, keys: seq<int>, stored: seq<seq<int>>)
    requires |stored| <= |keys| && AllKeys(db, keys)
    ensures var d := WithLists(db, keys, stored);
      && d.Keys == db.Keys
      && (forall i | 0 <= i < |stored| :: d[keys[i]] == Rec(|stored[i]|, stored[i]))
      && (forall k | k in db && (forall i | 0 <= i < |stored| :: keys[i] != k) :: d[k] == db[k])
    decreases |stored|
  {
    if stored != [] {
      WithListsIs(db, keys, stored[..|stored| - 1]);
    }
  }

  /** Fills the records of the freeDB with the list mop.  The records behind me_pglast are not
      reached; those before list the ids of mop, each as often as mop does, none more than it
      had room for. */
  method FillRecords(db0: map<int, Rec>, pglast: int, mop: array<int>) returns (db: map<int, Rec>)
    requires Fits(mop) && RoomUpTo(db0, pglast) >= mop[0]
    requires forall k | k in db0 :: k >= 1 && db0[k].room >= 0 && (k <= pglast ==> db0[k].ids == [])
    modifies mop
    ensures mop[..] == old(mop[..])
    ensures db.Keys == db0.Keys && forall k | k in db0 && k > pglast :: db[k] == db0[k]
    ensures forall k | k in db0 && k <= pglast :: |db[k].ids| <= db0[k].room
    ensures Gathered(db, pglast) == multiset(Ids(mop))
    ensures Descending(Ids(mop)) ==> forall k | k in db && k <= pglast :: Descending(db[k].ids)
  {
    hide AllKeys, UpTo, Flat, Sum, Rooms, Lists, Gathered, RoomUpTo, WithLists, Descending;
    var keys := SortedKeys(db0);
    ghost var m := Bounded(db0, keys, pglast);
    RoomsInOrder(db0, keys, m, pglast);
    RoomsPrefix(db0, keys, m);
    var stored := Fill(mop, Rooms(db0, keys), m);
    db := WithLists(db0, keys, stored);
    FilledRecords(db0, pglast, keys, m, stored);
  }

  lemma Bounded(db: map<int, Rec>, keys: seq<int>, k: int) returns (m: nat)
    requires AllKeys(db, keys)
    ensures UpTo(keys, m, k)
  {
    m := Bound(keys, k);
  }

  lemma {:induction false} RoomsPrefix(db: map<int, Rec>, keys: seq<int>, m: nat)
    requires m <= |keys| && forall k | k in db :: db[k].room >= 0
    ensures |Rooms(db, keys)| == |keys| && Rooms(db, keys)[..m] == Rooms(db, keys[..m])
    ensures forall i | 0 <= i < |keys| :: Rooms(db, keys)[i] == (if keys[i] in db then db[keys[i]].room else 0)
    ensures forall i | 0 <= i < |keys| :: Rooms(db, keys)[i] >= 0
    decreases |keys|
  {
    if keys != [] {
      var n := |keys| - 1;
      RoomsPrefix(db, keys[..n], if m <= n then m else n);
      if m <= n {
        assert keys[..n][..m] == keys[..m];
      } else {
        assert keys[..m] == keys;
      }
    }
  }

  lemma OneDescends()
    ensures Descending([])
  {
  }

  lemma FilledRecords(db0: map<int, Rec>, pglast: int, keys: seq<int>, m: nat, stored: seq<seq<int>>)
    requires AllKeys(db0, keys) && UpTo(keys, m, pglast) && |stored| <= m
    requires forall k | k in db0 && k <= pglast :: db0[k].ids == []
    requires forall i | 0 <= i < |stored| :: keys[i] in db0 && |stored[i]| <= db0[keys[i]].room
    requires forall k | k in db0 :: db0[k].room >= 0
    ensures var db := WithLists(db0, keys, stored);
      && db.Keys == db0.Keys && (forall k | k in db0 && k > pglast :: db[k] == db0[k])
      && (forall k | k in db0 && k <= pglast :: |db[k].ids| <= db0[k].room)
      && Gathered(db, pglast) == multiset(Flat(stored))
      && (Descending(Flat(stored)) ==> forall k | k in db && k <= pglast :: Descending(db[k].ids))
  {
    hide Flat, Gathered, WithLists, Descending;
    WithListsIs(db0, keys, stored);
    var db := WithLists(db0, keys, stored);
    assert AllKeys(db, keys);
    GatheredInOrder(db, keys, m, pglast);
    var l := Lists(db, keys[..m]);
    forall i | |stored| <= i < m ensures l[i] == [] {
      assert forall j | 0 <= j < |stored| :: keys[j] != keys[i];
    }
    assert l[..|stored|] == stored;
    FlatEmpties(l, |stored|);
    forall k | k in db0 && k <= pglast
      ensures |db[k].ids| <= db0[k].room && (Descending(Flat(stored)) ==> Descending(db[k].ids))
    {
      if i :| 0 <= i < |stored| && keys[i] == k {
        if Descending(Flat(stored)) {
          PartsSorted(stored, i);
        }
      } else {
        OneDescends();
      }
    }
  }

  /** A list with its ids, and room behind them. */
  method NewList(ids: seq<int>, room: nat) returns (a: array<int>)
    ensures fresh(a) && Fits(a) && Ids(a) == ids && a.Length == |ids| + room + 1
  {
    a := new int[|ids| + room + 1](i requires 0 <= i => if i == 0 then |ids| else if i <= |ids| then ids[i - 1] else 0);
  }

  /** Merges the loose pages into me_pghead. */
  method ReturnLoose(mop: array<int>, loose: seq<int>) returns (ok: bool)
    requires Fits(mop) && mop[0] + |loose| < mop.Length && Descending(Ids(mop)) && PageNos(loose)
    modifies mop
    ensures ok ==> Fits(mop) && Descending(Ids(mop)) && multiset(Ids(mop)) == old(multiset(Ids(mop))) + multiset(loose)
    ensures 2 * |loose| <= MidlSort.INT_MAX + MidlSort.SMALL ==> ok
  {
    hide Merge;
    var t;
    ok, t := SortIds(loose);
    if ok {
      SamePages(loose, t);
      var b := NewList(t, 0);
      ghost var s := Ids(mop);
      MergeHolds(s, t);
      MergeDescending(s, t);
      assert b[1..1 + b[0]] == t;
      forall k | 0 < k <= b[0] ensures b[k] <= MAX_ID {
        assert b[k] == t[k - 1] && t[k - 1] in t;
      }
      XMerge(mop, b, 0);
    }
  }

  lemma SamePages(s: seq<int>, t: seq<int>)
    requires multiset(s) == multiset(t) && PageNos(s)
    ensures PageNos(t) && |t| == |s|
  {
    SubLength(s, t);
    SubLength(t, s);
    forall x | x in t ensures x in s {
      assert x in multiset(t);
      assert x in multiset(s);
    }
  }

  /** The lists and the freeDB when mdb_freelist_save is called. */
  ghost predicate Starting(e: Env, txnid: int) {
    && 0 <= e.pglast < txnid && (forall k | k in e.db :: 1 <= k < txnid && e.db[k].room >= 0)
    && (if e.pglast == 0 then e.head == [] else e.pglast in e.db)
    && Descending(e.head) && PageNos(e.head) && PageNos(e.loose) && PageNos(e.freed)
  }

  /** What it leaves, e being the lists that are saved: the records up to me_pglast list the
      pages of me_pghead and the loose ones, the transaction's own lists those it has freed, the
      others are as they were.  Every list that was written is sorted. */
  ghost predicate Saved(e0: Env, e: Env, db: map<int, Rec>, txnid: int) {
    && e0.pglast <= e.pglast < txnid && ListsOk(e.pglast, e.head, e.loose, e.freed)
    && (forall k | k in db :: 1 <= k <= txnid)
    && (forall k | k > e.pglast && k != txnid :: (k in db <==> k in e0.db) && (k in e0.db ==> db[k] == e0.db[k]))
    && (forall k | k in db && k <= e.pglast :: Descending(db[k].ids))
    && Gathered(db, e.pglast) == multiset(e.head) + multiset(e.loose)
    && (txnid in db <==> e.freed != [])
    && (txnid in db ==> multiset(db[txnid].ids) == multiset(e.freed) && Descending(db[txnid].ids))
    && multiset(e0.freed) + (if e0.pglast == 0 then multiset(e0.loose) else multiset{}) <= multiset(e.freed)
  }

  /** mdb_freelist_save. */
  method SaveFreelist(e0: Env, txnid: int, maxfree: int, changes: seq<Change>)
    returns (done: bool, e: Env, rest: seq<Change>, db: map<int, Rec>)
    requires Starting(e0, txnid) && maxfree >= 1
    ensures Suffix(rest, changes)
    ensures done ==> Saved(e0, e, db, txnid)
    ensures !done ==> Stuck(e, rest, txnid)
  {
    hide Gathered, Reserved, Freed, Legal, Descending, PageNos, EnvOk, Untouched, Starting, Saved, Suffix, Stuck,
      ListsOk, RoomUpTo;
    StartEnv(e0, txnid, changes);
    e, rest, db, done := e0, changes, e0.db, true;
    if e.pglast > 0 {
      done, e, rest := Next(e, txnid, rest);
      if !done {
        return;
      }
    } else {
      e := e.(freed := e.freed + e.loose, loose := []);
    }
    ghost var e1, left := e, rest;
    Moved(e0, e1, changes, txnid);
    var r;
    done, e, r, rest := SaveReserve(e, txnid, maxfree, rest);
    SuffixOf(rest, left, changes);
    if !done {
      return;
    }
    ReservedLists(e, r, txnid);
    var mop := NewList(e.head, |e.loose|);
    if e.loose != [] {
      done := ReturnLoose(mop, e.loose);
      if !done {
        LongLoose(e, rest, txnid);
        return;
      }
    }
    db := e.db;
    if mop[0] > 0 {
      db := FillRecords(e.db, e.pglast, mop);
    } else {
      NoneGathered(db, e.pglast);
      assert multiset(Ids(mop)) == multiset{};
    }
    AllSaved(e0, e1, e, r, db, txnid);
  }

  lemma StartEnv(e: Env, txnid: int, changes: seq<Change>)
    requires Starting(e, txnid)
    ensures e.pglast > 0 ==> EnvOk(e, txnid)
    ensures e.pglast >= 0 && Suffix(changes, changes)
  {
  }

  lemma LongLoose(e: Env, rest: seq<Change>, txnid: int)
    requires 2 * |e.loose| > MidlSort.INT_MAX + MidlSort.SMALL
    ensures Stuck(e, rest, txnid)
  {
  }

  lemma Moved(e0: Env, e1: Env, changes: seq<Change>, txnid: int)
    requires Starting(e0, txnid)
    requires if e0.pglast > 0 then changes != [] && Legal(e0, changes[0], txnid) && e1 == Changed(e0, changes[0])
      else e1 == e0.(freed := e0.freed + e0.loose, loose := [])
    ensures EnvOk(e1, txnid) && txnid !in e1.db && e1.db == e0.db && e0.pglast <= e1.pglast
    ensures e1.pglast > 0 ==> e1.pglast in e1.db
    ensures multiset(e0.freed) + (if e0.pglast == 0 then multiset(e0.loose) else multiset{}) <= multiset(e1.freed)
  {
  }

  lemma ReservedLists(e: Env, r: Reserve, txnid: int)
    requires Reserved(e, r, txnid) && r.pglast == e.pglast
    ensures Descending(e.head) && PageNos(e.loose)
    ensures forall k | k in e.db :: k >= 1 && e.db[k].room >= 0 && (k <= e.pglast ==> e.db[k].ids == [])
  {
  }

  lemma AllSaved(e0: Env, e1: Env, e: Env, r: Reserve, db: map<int, Rec>, txnid: int)
    requires e1.db == e0.db && e0.pglast <= e1.pglast && Untouched(e1, e, txnid)
    requires multiset(e0.freed) + (if e0.pglast == 0 then multiset(e0.loose) else multiset{}) <= multiset(e1.freed)
    requires Reserved(e, r, txnid) && r.pglast == e.pglast && Freed(e, |e.freed|, txnid)
    requires e.freed != [] ==> multiset(e.db[txnid].ids) == multiset(e.freed)
    requires db.Keys == e.db.Keys && forall k | k in db && k > e.pglast :: db[k] == e.db[k]
    requires forall k | k in db && k <= e.pglast :: Descending(db[k].ids)
    requires Gathered(db, e.pglast) == multiset(e.head) + multiset(e.loose)
    ensures Saved(e0, e, db, txnid)
  {
    hide Gathered, Descending, PageNos;
    assert forall k :: k in db <==> k in e.db;
  }

  lemma {:induction false} NoneGathered(db: map<int, Rec>, k: int)
    requires forall j | j in db && j <= k :: db[j].ids == []
    ensures Gathered(db, k) == multiset{}
    ensures forall j | j in db && j <= k :: Descending(db[j].ids)
  {
    if k > 0 {
      NoneGathered(db, k - 1);
    }
  }
}
