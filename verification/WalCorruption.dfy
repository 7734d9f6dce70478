/** Segment files that do not open: recovery skips them, unless it writes over them. */
module WalCorruption {
  import opened ByteCodec
  import opened Metadata
  import opened NeedleCodec
  import opened Segments
  import opened WalState
  import opened WalRecovery

  /** A log whose directory holds some more files. */
  function Plus(st: State, junk: map<nat, bytes>): (r: State)
  {
    st.(disk := st.disk + junk)
  }

  ghost predicate AllCorrupt(env: Env, junk: map<nat, bytes>)
  {
    forall id :: id in junk ==> Open(env, junk[id]).Err?
  }

  lemma {:induction false} VisitsIgnore(env: Env, st: State, s: Seg, vs: seq<Visit>, dest: set<Key>,
                                        junk: map<nat, bytes>)
    ensures RecoverVisits(env, Plus(st, junk), s, vs, dest) == Plus(RecoverVisits(env, st, s, vs, dest), junk)
    ensures RecoverVisits(env, st, s, vs, dest).disk == st.disk
  {
    hide VisitEntry;
    if vs != [] {
      VisitsIgnore(env, st, s, vs[..|vs| - 1], dest, junk);
    }
  }

  /** Reading one file does not depend on the others. */
  lemma OneIgnores(env: Env, st: State, id: nat, dest: set<Key>, junk: map<nat, bytes>)
    requires junk.Keys !! st.disk.Keys && AllCorrupt(env, junk)
    ensures OpenOne(env, Plus(st, junk), id, dest) == Plus(if id in junk then st else OpenOne(env, st, id, dest), junk)
    ensures OpenOne(env, st, id, dest).disk.Keys <= st.disk.Keys
  {
    hide Open, Visits, RecoverVisits;
    if id in st.disk && Open(env, st.disk[id]).Ok? {
      var s := Open(env, st.disk[id]).value;
      var st0 := st.(nextId := Max(st.nextId, s.id + 1));
      VisitsIgnore(env, st0, s, Visits(env, s), dest, junk);
      assert (st.disk + junk) - {id} == (st.disk - {id}) + junk;
    }
  }

  lemma AscendingStep(ids: set<nat>, hi: nat)
    requires hi > 0
    ensures Ascending(ids, hi) == Ascending(ids, hi - 1) + if hi - 1 in ids then [hi - 1] else []
  {
  }

  lemma OpenAllSnoc(env: Env, st: State, order: seq<nat>, id: nat, dest: set<Key>)
    ensures OpenAll(env, st, order + [id], dest) == OpenOne(env, OpenAll(env, st, order, dest), id, dest)
  {
    hide OpenOne;
    assert (order + [id])[..|order|] == order;
  }

  lemma NothingListed(env: Env, st: State, ids: set<nat>, dest: set<Key>)
    ensures OpenAll(env, st, Ascending(ids, 0), dest) == st
  {
  }

  lemma {:induction false} AllIgnore(env: Env, st: State, ids: set<nat>, hi: nat, dest: set<Key>, junk: map<nat, bytes>)
    requires junk.Keys !! st.disk.Keys && junk.Keys !! ids && AllCorrupt(env, junk)
    ensures OpenAll(env, Plus(st, junk), Ascending(ids + junk.Keys, hi), dest)
            == Plus(OpenAll(env, st, Ascending(ids, hi), dest), junk)
    ensures OpenAll(env, st, Ascending(ids, hi), dest).disk.Keys <= st.disk.Keys
  {
    hide OpenOne, AllCorrupt, Plus, OpenAll, Ascending;
    if hi == 0 {
      NothingListed(env, st, ids, dest);
      NothingListed(env, Plus(st, junk), ids + junk.Keys, dest);
    } else {
      AllIgnore(env, st, ids, hi - 1, dest, junk);
      var id, front, both := hi - 1, Ascending(ids, hi - 1), Ascending(ids + junk.Keys, hi - 1);
      AscendingStep(ids, hi);
      AscendingStep(ids + junk.Keys, hi);
      OpenAllSnoc(env, st, front, id, dest);
      OpenAllSnoc(env, Plus(st, junk), both, id, dest);
      OneIgnores(env, OpenAll(env, st, front, dest), id, dest, junk);
      assert front + [] == front && both + [] == both;
    }
  }

  /** Corrupt segment files change nothing about the reopened log, as long as none has the id
      of the first segment or of the one that opening creates. */
  lemma CorruptIsIgnored(env: Env, good: map<nat, bytes>, junk: map<nat, bytes>, dest: set<Key>, capacity: nat,
                         now: nat)
    requires capacity >= SUPERBLOCK_SIZE && junk.Keys !! good.Keys && AllCorrupt(env, junk)
    requires 1 !in junk && OpenWal(env, good, dest, capacity, now).active.id !in junk
    ensures OpenWal(env, good + junk, dest, capacity, now) == Plus(OpenWal(env, good, dest, capacity, now), junk)
  {
    hide OpenAll, AllCorrupt, CreateFile, Ascending;
    var st0 := OpenStart(good, capacity, now);
    assert File(good + junk, 1) == File(good, 1);
    assert OpenStart(good + junk, capacity, now) == Plus(st0, junk) by {
      assert (good + junk)[1 := st0.active.mmap] == good[1 := st0.active.mmap] + junk;
    }
    assert (st0.disk + junk).Keys == st0.disk.Keys + junk.Keys;
    AllIgnore(env, st0, st0.disk.Keys, MAX_SEGMENTS, dest, junk);
    var st1 := OpenAll(env, st0, Ascending(st0.disk.Keys, MAX_SEGMENTS), dest);
    FinishIgnores(st1, junk, now);
  }

  lemma FinishIgnores(st: State, junk: map<nat, bytes>, now: nat)
    requires st.capacity >= SUPERBLOCK_SIZE && junk.Keys !! st.disk.Keys && st.nextId !in junk
    ensures OpenFinish(Plus(st, junk), now) == Plus(OpenFinish(st, now), junk)
  {
    hide CreateFile;
    assert File(st.disk + junk, st.nextId) == File(st.disk, st.nextId);
    var blank := Created(File(st.disk, st.nextId), st.nextId, st.capacity, now);
    assert (st.disk + junk)[st.nextId := blank.mmap] == st.disk[st.nextId := blank.mmap] + junk;
  }

  /** Recovery of a directory with corrupt segments among good ones: the reopened log serves
      exactly the replay of the good ones, and leaves the corrupt files alone. */
  lemma RecoverySkipsCorrupt(env: Env, good: map<nat, bytes>, junk: map<nat, bytes>, log: map<nat, seq<Needle>>,
                             dest: set<Key>,
                             capacity: nat, now: nat)
    requires DirOk(env, capacity, good, log) && junk.Keys !! good.Keys && AllCorrupt(env, junk)
    requires 1 !in junk && OpenWal(env, good, dest, capacity, now).active.id !in junk
    ensures var r, m := OpenWal(env, good + junk, dest, capacity, now), Replay(map[], InOrder(log, MAX_SEGMENTS), dest);
            && r.pending.Keys == m.Keys
            && (forall k :: k in m ==> && ReadData(r, r.pending[k]) == Some(m[k].data)
                                       && ReadMetaBytes(r, r.pending[k]) == Some(m[k].meta))
            && (forall id :: id in junk ==> id in r.disk && r.disk[id] == junk[id])
  {
    hide Inv, OpenWal, Replay, InOrder, AllCorrupt, Read;
    DirKeys(env, capacity, good, log);
    var log' := RecoveryReplays(env, good, log, dest, capacity, now);
    var st := OpenWal(env, good, dest, capacity, now);
    CorruptIsIgnored(env, good, junk, dest, capacity, now);
    InvReads(env, st, log', Replay(map[], InOrder(log, MAX_SEGMENTS), dest));
    forall e: Entry
      ensures ReadData(Plus(st, junk), e) == ReadData(st, e) && ReadMetaBytes(Plus(st, junk), e) == ReadMetaBytes(st, e)
    {
      ReadsIgnore(st, junk, e);
    }
  }

  lemma ReadsIgnore(st: State, junk: map<nat, bytes>, e: Entry)
    ensures ReadData(Plus(st, junk), e) == ReadData(st, e) && ReadMetaBytes(Plus(st, junk), e) == ReadMetaBytes(st, e)
  {
  }

  /** The exception: a corrupt file with the id that opening uses next is taken over, and the
      bytes behind its superblock stay in the new active segment. */
  lemma CorruptIsReused(env: Env, good: map<nat, bytes>, junk: map<nat, bytes>, dest: set<Key>, capacity: nat, now: nat)
    requires capacity >= SUPERBLOCK_SIZE && junk.Keys !! good.Keys && AllCorrupt(env, junk) && 1 !in junk
    requires OpenWal(env, good, dest, capacity, now).active.id in junk
    ensures var id := OpenWal(env, good, dest, capacity, now).active.id;
            OpenWal(env, good + junk, dest, capacity, now).active == Created(junk[id], id, capacity, now)
  {
    hide OpenAll, AllCorrupt, Ascending;
    var st0 := OpenStart(good, capacity, now);
    assert File(good + junk, 1) == File(good, 1);
    assert OpenStart(good + junk, capacity, now) == Plus(st0, junk) by {
      assert (good + junk)[1 := st0.active.mmap] == good[1 := st0.active.mmap] + junk;
    }
    assert (st0.disk + junk).Keys == st0.disk.Keys + junk.Keys;
    AllIgnore(env, st0, st0.disk.Keys, MAX_SEGMENTS, dest, junk);
  }
}
