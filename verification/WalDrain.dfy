/** When segment files go: at the mark that drains a sealed segment, or at a reopen. */
module WalDrain {
  import opened ByteCodec
  import opened Metadata
  import opened NeedleCodec
  import opened Segments
  import opened WalState
  import opened WalRecovery
  import opened WalRefinement

  /** The segment is sealed and its file is in the directory. */
  ghost predicate Kept(st: State, id: nat)
  {
    id in Ids(st.sealed) && id in st.disk
  }

  /** A mark removes a segment, from the list and from the directory, exactly when the key's entry is
      in it, it is sealed, and its counter says that the entry is the last one. Every other sealed
      segment keeps its file. */
  lemma MarkRemovesIff(env: Env, st: State, log: map<nat, seq<Needle>>, m: map<Key, Needle>, k: Key, id: nat)
    requires Inv(env, st, log, m) && id in Ids(st.sealed)
    ensures id in st.disk
    ensures var st' := Mark(st, k);
            var last := k in st.pending && st.pending[k].segmentId == id && Count(st.counts, id) == 1;
            if last then id !in Ids(st'.sealed) && id !in st'.disk else Kept(st', id) && st'.disk[id] == st.disk[id]
  {
    hide Holds, TailIsZero, SealedOk, PlaceholderOk, RemoveAt, CountIn, EntryAt;
    assert id in log && id in st.disk by { SealedIsOnDisk(env, st, log, id); }
    if k in st.pending {
      var at := st.pending[k].segmentId;
      assert CountIn(st.pending, at) <= Count(st.counts, at);
      CountedIn(st.pending, k);
      assert at in st.counts;
      if Count(st.counts, at) == 1 && at != st.active.id {
        PointsLive(log, st.pending[k], m[k]);
        var s :| s in st.sealed && s.id == at;
        FindSealed(env, st.capacity, st.sealed, log, s);
        RemoveSealed(env, st.capacity, st.sealed, log, Find(st.sealed, at));
      }
    }
  }

  lemma SealedIsOnDisk(env: Env, st: State, log: map<nat, seq<Needle>>, id: nat)
    requires SegsOk(env, st, log) && DiskOk(env, st, log) && id in Ids(st.sealed)
    ensures id in log && id in st.disk && id != st.active.id
  {
    hide Holds, TailIsZero, SealedOk, PlaceholderOk;
  }

  /** A pending entry is counted in its segment. */
  lemma CountedIn(p: map<Key, Entry>, k: Key)
    requires k in p
    ensures CountIn(p, p[k].segmentId) >= 1
  {
    var s := set x | x in p && p[x].segmentId == p[k].segmentId;
    assert k in s;
  }

  // Counters

  /** Every counter is the number of pending entries in its segment. */
  ghost predicate Exact(st: State)
  {
    forall id: nat :: Count(st.counts, id) == CountIn(st.pending, id)
  }

  lemma CountInsertNew(p: map<Key, Entry>, k: Key, e: Entry, id: nat)
    requires k !in p
    ensures CountIn(p[k := e], id) == CountIn(p, id) + if e.segmentId == id then 1 else 0
  {
    var q := p[k := e];
    assert q - {k} == p;
    CountRemove(q, k, id);
  }

  lemma CountReplace(p: map<Key, Entry>, k: Key, e: Entry, id: nat)
    requires k in p
    ensures CountIn(p[k := e], id)
            == CountIn(p, id) - (if p[k].segmentId == id then 1 else 0) + (if e.segmentId == id then 1 else 0)
  {
    CountRemove(p, k, id);
    CountInsertNew(p - {k}, k, e, id);
    assert (p - {k})[k := e] == p[k := e];
  }

  /** What an accepted append does to the pending entries and the counters. */
  lemma AppendBumps(env: Env, st: State, n: Needle, now: nat)
    requires st.capacity >= SUPERBLOCK_SIZE
    ensures var (st', r) := AppendWal(env, st, n, now);
            && (r.Err? ==> st'.pending == st.pending && st'.counts == st.counts)
            && (r.Ok? ==>
                  && st'.pending == st.pending[KeyOf(n) := r.value] && r.value.segmentId == st'.active.id
                  && st'.counts == Bump(st.counts, st'.active.id))
  {
    hide Append, CreateFile;
  }

  /** Appending keeps the counters exact if and only if the key is not pending or the append is
      refused: the counter of the segment that held the older entry is not taken back. */
  lemma AppendExactIff(env: Env, st: State, n: Needle, now: nat)
    requires st.capacity >= SUPERBLOCK_SIZE && Exact(st)
    ensures Exact(AppendWal(env, st, n, now).0)
            <==> KeyOf(n) !in st.pending || AppendWal(env, st, n, now).1.Err?
  {
    hide AppendWal, CountIn;
    AppendBumps(env, st, n, now);
    var st', r := AppendWal(env, st, n, now).0, AppendWal(env, st, n, now).1;
    if r.Ok? {
      forall id: nat
        ensures KeyOf(n) !in st.pending ==> Count(st'.counts, id) == CountIn(st'.pending, id)
      {
        if KeyOf(n) !in st.pending {
          CountInsertNew(st.pending, KeyOf(n), r.value, id);
        }
      }
      if KeyOf(n) in st.pending {
        var was := st.pending[KeyOf(n)].segmentId;
        CountReplace(st.pending, KeyOf(n), r.value, was);
        assert Count(st'.counts, was) != CountIn(st'.pending, was);
      }
    }
  }

  lemma MarkKeepsExact(st: State, k: Key)
    requires Exact(st)
    ensures Exact(Mark(st, k))
  {
    hide CountIn, RemoveAt;
    if k in st.pending {
      var at := st.pending[k].segmentId;
      CountedIn(st.pending, k);
      var st' := Mark(st, k);
      forall id: nat
        ensures Count(st'.counts, id) == CountIn(st'.pending, id)
      {
        assert Count(st.counts, id) == CountIn(st.pending, id);
        CountRemove(st.pending, k, id);
      }
    }
  }

  // Over a run

  /** No key is appended while it is pending. */
  ghost predicate NoRewrites(env: Env, st: State, ops: seq<Op>)
    requires st.capacity >= SUPERBLOCK_SIZE
  {
    forall i :: 0 <= i < |ops| && ops[i].AppendOp? ==> KeyOf(ops[i].needle) !in Run(env, st, ops[..i]).pending
  }

  lemma NoRewritesFront(env: Env, st: State, ops: seq<Op>)
    requires st.capacity >= SUPERBLOCK_SIZE && NoRewrites(env, st, ops) && ops != []
    ensures var n := |ops| - 1;
            && NoRewrites(env, st, ops[..n])
            && (ops[n].AppendOp? ==> KeyOf(ops[n].needle) !in Run(env, st, ops[..n]).pending)
  {
    hide Run;
    assert forall i :: 0 <= i < |ops| - 1 ==> ops[..|ops| - 1][..i] == ops[..i];
  }

  /** Counters stay exact over every run that does not append a pending key again. */
  lemma {:induction false} RunKeepsExact(env: Env, st: State, ops: seq<Op>)
    requires st.capacity >= SUPERBLOCK_SIZE && Exact(st) && NoRewrites(env, st, ops)
    ensures Exact(Run(env, st, ops))
  {
    hide Exact, NoRewrites, AppendWal, Mark;
    if ops != [] {
      var front, op := ops[..|ops| - 1], ops[|ops| - 1];
      NoRewritesFront(env, st, ops);
      RunKeepsExact(env, st, front);
      match op {
        case AppendOp(n, now) => AppendExactIff(env, Run(env, st, front), n, now);
        case MarkOp(k) => MarkKeepsExact(Run(env, st, front), k);
      }
    }
  }

  /** A sealed segment that no pending entry needs. */
  ghost predicate Idle(st: State, id: nat)
  {
    id in Ids(st.sealed) && CountIn(st.pending, id) == 0
  }

  /** The step seals this segment, and no pending entry needs it. */
  ghost predicate SealsDrained(st: State, op: Op, id: nat)
  {
    && op.AppendOp? && st.active.id == id && st.active.size + SerializedSize(op.needle) > |st.active.mmap|
    && CountIn(st.pending, id) == 0
  }

  lemma AppendIdle(env: Env, st: State, log: map<nat, seq<Needle>>, m: map<Key, Needle>, n: Needle, now: nat, id: nat)
    requires Inv(env, st, log, m) && st.capacity >= SUPERBLOCK_SIZE && KeyOf(n) !in st.pending
    ensures Idle(AppendWal(env, st, n, now).0, id) <==> Idle(st, id) || SealsDrained(st, AppendOp(n, now), id)
  {
    hide Append, CreateFile, CountIn, Holds, TailIsZero, SealedOk, DiskOk, PendingOk, CountsOk, Ids;
    AppendFits(env, st.active, n);
    IdsSnoc(st.sealed, st.active);
    AppendBumps(env, st, n, now);
    var st', r := AppendWal(env, st, n, now).0, AppendWal(env, st, n, now).1;
    if Append(env, st.active, n).None? {
      AppendFits(env, Rotate(st, now).active, n);
    }
    if r.Ok? {
      CountInsertNew(st.pending, KeyOf(n), r.value, id);
    }
  }

  lemma MarkIdle(env: Env, st: State, log: map<nat, seq<Needle>>, m: map<Key, Needle>, k: Key, id: nat)
    requires Inv(env, st, log, m) && Exact(st)
    ensures Idle(Mark(st, k), id) <==> Idle(st, id)
  {
    hide CountIn, Inv, RemoveAt, Ids, Mark;
    assert Count(st.counts, id) == CountIn(st.pending, id);
    if k in st.pending {
      CountRemove(st.pending, k, id);
      CountedIn(st.pending, k);
    } else {
      assert st.pending - {k} == st.pending;
    }
    MarkedEntries(st, k);
    if id in Ids(st.sealed) {
      MarkRemovesIff(env, st, log, m, k, id);
    } else {
      MarkSealsNothing(st, k, id);
    }
  }

  lemma MarkedEntries(st: State, k: Key)
    ensures Mark(st, k).pending == st.pending - {k}
  {
  }

  lemma MarkSealsNothing(st: State, k: Key, id: nat)
    requires id !in Ids(st.sealed)
    ensures id !in Ids(Mark(st, k).sealed)
  {
    assert forall s :: s in Mark(st, k).sealed ==> s in st.sealed;
  }

  /** Some step of the run seals this segment while no pending entry needs it. */
  ghost predicate SealedDrained(env: Env, st: State, ops: seq<Op>, id: nat)
    requires st.capacity >= SUPERBLOCK_SIZE
  {
    exists i :: 0 <= i < |ops| && SealsDrained(Run(env, st, ops[..i]), ops[i], id)
  }

  lemma SealedDrainedSnoc(env: Env, st: State, ops: seq<Op>, id: nat)
    requires st.capacity >= SUPERBLOCK_SIZE && ops != []
    ensures var n := |ops| - 1;
            SealedDrained(env, st, ops, id)
            <==> SealedDrained(env, st, ops[..n], id) || SealsDrained(Run(env, st, ops[..n]), ops[n], id)
  {
    hide Run, SealsDrained;
    var n := |ops| - 1;
    var front := ops[..n];
    assert forall i :: 0 <= i < n ==> front[..i] == ops[..i] && front[i] == ops[i];
    if i :| 0 <= i < |front| && SealsDrained(Run(env, st, front[..i]), front[i], id) {
      assert SealsDrained(Run(env, st, ops[..i]), ops[i], id);
    }
    if i :| 0 <= i < |ops| && SealsDrained(Run(env, st, ops[..i]), ops[i], id) && i < n {
      assert SealsDrained(Run(env, st, front[..i]), front[i], id);
    }
  }

  /** Which segments a run leaves behind without need: from exact counters, and appending no
      pending key again, a sealed segment has no pending entry exactly when it was left so, or was
      drained before it was sealed. All others are removed by the mark that drains them. */
  lemma {:induction false} IdleIff(env: Env, st: State, log: map<nat, seq<Needle>>, m: map<Key, Needle>, ops: seq<Op>,
                                   id: nat)
    requires Inv(env, st, log, m) && OpsGood(env, ops) && SUPERBLOCK_SIZE <= st.capacity
    requires Run(env, st, ops).nextId < MAX_SEGMENTS && Exact(st) && NoRewrites(env, st, ops)
    ensures Idle(Run(env, st, ops), id) <==> Idle(st, id) || SealedDrained(env, st, ops, id)
  {
    hide Inv, Good, AppendWal, Mark, Idle, Exact, NoRewrites, SealsDrained, SealedDrained;
    if ops == [] {
      NothingSealed(env, st, id);
    } else {
      var front, op := ops[..|ops| - 1], ops[|ops| - 1];
      var st1, m1 := Run(env, st, front), MapRun(st.capacity, m, front);
      IdsOnlyGrow(env, st1, op);
      NoRewritesFront(env, st, ops);
      IdleIff(env, st, log, m, front, id);
      RunKeepsExact(env, st, front);
      var log1 := RunKeepsInv(env, st, log, m, front);
      SealedDrainedSnoc(env, st, ops, id);
      match op {
        case AppendOp(n, now) => AppendIdle(env, st1, log1, m1, n, now, id);
        case MarkOp(k) =>
          MarkIdle(env, st1, log1, m1, k, id);
          MarkSeals(st1, k, id);
      }
    }
  }

  lemma NothingSealed(env: Env, st: State, id: nat)
    requires st.capacity >= SUPERBLOCK_SIZE
    ensures !SealedDrained(env, st, [], id)
  {
  }

  lemma MarkSeals(st: State, k: Key, id: nat)
    ensures !SealsDrained(st, MarkOp(k), id)
  {
  }

  // At a reopen

  /** A needle that recovery makes pending: no tombstone, and its object has no file. */
  predicate Needed(n: Needle, dest: set<Key>)
  {
    n.flags != FLAG_DELETE && KeyOf(n) !in dest
  }

  ghost predicate AnyNeeded(ns: seq<Needle>, dest: set<Key>)
  {
    exists i :: 0 <= i < |ns| && Needed(ns[i], dest)
  }

  lemma {:induction false} RecoverCounts(env: Env, st: State, s: Seg, ns: seq<Needle>, c: nat, dest: set<Key>)
    requires c <= |ns|
    ensures var r := RecoverVisits(env, st, s, Layout(ns, SUPERBLOCK_SIZE)[..c], dest);
            && Count(r.counts, s.id) >= Count(st.counts, s.id)
            && (Count(r.counts, s.id) > Count(st.counts, s.id) <==> AnyNeeded(ns[..c], dest))
  {
    hide RecoverVisit, Layout, Needed;
    var vs := Layout(ns, SUPERBLOCK_SIZE);
    if c == 0 {
      assert vs[..c] == [];
    } else {
      RecoverCounts(env, st, s, ns, c - 1, dest);
      LayoutAt(ns, c - 1, SUPERBLOCK_SIZE);
      assert vs[..c][..c - 1] == vs[..c - 1];
      var prev := RecoverVisits(env, st, s, vs[..c - 1], dest);
      RecoverVisitCounts(env, prev, s, ns[c - 1], vs[c - 1], dest);
      NeededSnoc(ns, c, dest);
    }
  }

  lemma NeededSnoc(ns: seq<Needle>, c: nat, dest: set<Key>)
    requires 0 < c <= |ns|
    ensures AnyNeeded(ns[..c], dest) <==> AnyNeeded(ns[..c - 1], dest) || Needed(ns[c - 1], dest)
  {
    hide Needed;
    var all, front := ns[..c], ns[..c - 1];
    assert all == front + [ns[c - 1]];
    if i :| 0 <= i < |front| && Needed(front[i], dest) {
      assert all[i] == front[i];
    }
    if i :| 0 <= i < |all| && Needed(all[i], dest) && i < c - 1 {
      assert all[i] == front[i];
    }
    assert all[c - 1] == ns[c - 1];
  }

  lemma RecoverVisitCounts(env: Env, st: State, s: Seg, n: Needle, v: Visit, dest: set<Key>)
    requires VisitKey(v) == KeyOf(n) && v.flags == n.flags
    ensures var r := RecoverVisit(env, st, s, v, dest);
            Count(r.counts, s.id) == Count(st.counts, s.id) + if Needed(n, dest) then 1 else 0
  {
    hide CreatedAt;
  }

  lemma OpenOneKeeps(env: Env, st: State, disk: map<nat, bytes>, log: map<nat, seq<Needle>>, order: seq<nat>, c: nat,
                     m: map<Key, Needle>, dest: set<Key>)
    requires DirOk(env, st.capacity, disk, log) && OrderOk(order, disk) && c < |order|
    requires OpenInv(env, st, disk, log, order, c, m)
    ensures order[c] in log
    ensures var r, id := OpenOne(env, st, order[c], dest), order[c];
            if AnyNeeded(log[id], dest) then
              Ids(r.sealed) == Ids(st.sealed) + {id} && r.disk == st.disk
            else Ids(r.sealed) == Ids(st.sealed) && r.disk == st.disk - {id}
  {
    hide RecInv, ListInv, Open, Visits, Replay, RecoverVisits, Ids, SegAt, FileOk, AnyNeeded;
    OpenOneScan(env, st, disk, log, order, c, m, dest);
    FreshCounter(env, st, disk, log, order, c, m);
    var id := order[c];
    assert id in disk && FileOk(env, st.capacity, disk, log, id);
    FileOpens(env, st.capacity, disk, log, id);
    var s, ns := SegAt(env, disk, log, id), log[id];
    var st1 := st.(nextId := Max(st.nextId, id + 1));
    RecoverCounts(env, st1, s, ns, |ns|, dest);
    assert Layout(ns, SUPERBLOCK_SIZE)[..|ns|] == Visits(env, s) && ns[..|ns|] == ns;
    IdsSnoc(st.sealed, s);
  }

  /** The listed segments that recovery keeps. */
  ghost function NeededIds(log: map<nat, seq<Needle>>, order: seq<nat>, dest: set<Key>): (r: set<nat>)
  {
    set id | id in order && id in log && AnyNeeded(log[id], dest)
  }

  lemma {:induction false} OpenAllKeeps(env: Env, st: State, log: map<nat, seq<Needle>>, order: seq<nat>, c: nat,
                                        dest: set<Key>)
    requires DirOk(env, st.capacity, st.disk, log) && OrderOk(order, st.disk) && c <= |order| && st.sealed == []
    requires OpenInv(env, st, st.disk, log, order, 0, map[])
    ensures var r := OpenAll(env, st, order[..c], dest);
            && Ids(r.sealed) == NeededIds(log, order[..c], dest)
            && r.disk.Keys == st.disk.Keys - (set id | id in order[..c]) + NeededIds(log, order[..c], dest)
  {
    hide DirOk, OpenInv, OpenOne, ReplayStep, AnyNeeded;
    assert log.Keys == st.disk.Keys by { DirKeys(env, st.capacity, st.disk, log); }
    if c == 0 {
      assert order[..0] == [];
    } else {
      var front := order[..c - 1];
      assert order[..c][..c - 1] == front && order[..c] == front + [order[c - 1]];
      OpenAllKeeps(env, st, log, order, c - 1, dest);
      OpenAllReplays(env, st, log, order, c - 1, dest);
      OpenOneKeeps(env, OpenAll(env, st, front, dest), st.disk, log, order, c - 1,
                   Replay(map[], AllNeedles(log, front), dest), dest);
      OrderSplit(order, c - 1);
    }
  }

  /** Reopening keeps exactly the segments, and their files, that hold a needle without tombstone
      flag whose object has no file; all others are deleted, and a new active segment is added. */
  lemma ReopenKeepsIff(env: Env, disk: map<nat, bytes>, log: map<nat, seq<Needle>>, dest: set<Key>, capacity: nat,
                       now: nat)
    requires DirOk(env, capacity, disk, log)
    ensures capacity >= SUPERBLOCK_SIZE
    ensures var st := OpenWal(env, disk, dest, capacity, now);
            && (forall id :: id in Ids(st.sealed) <==> id in log && AnyNeeded(log[id], dest))
            && st.disk.Keys == Ids(st.sealed) + {st.active.id}
  {
    hide DirOk, OpenInv, OpenAll, OpenWal, OpenStart, Ascending, AnyNeeded, Ids, NeededIds, WithFirst, OrderOk;
    DirKeys(env, capacity, disk, log);
    var st0 := OpenStart(disk, capacity, now);
    var log1 := WithFirst(log);
    StartOk(env, disk, log, capacity, now);
    DirKeys(env, capacity, st0.disk, log1);
    var order := Ascending(st0.disk.Keys, MAX_SEGMENTS);
    DirBound(env, capacity, st0.disk, log1);
    StartsEmpty(disk, capacity, now);
    assert OrderOk(order, st0.disk) by { Listing(st0.disk); }
    StartInv(env, st0, log1, order);
    OpenAllKeeps(env, st0, log1, order, |order|, dest);
    assert order[..|order|] == order;
    OpenedFiles(env, disk, dest, capacity, now);
    NeededInLog(log, order, dest);
    assert (set id | id in order) == st0.disk.Keys;
  }

  lemma Listing(disk: map<nat, bytes>)
    ensures OrderOk(Ascending(disk.Keys, MAX_SEGMENTS), disk)
  {
    hide Ascending;
  }

  lemma NeededInLog(log: map<nat, seq<Needle>>, order: seq<nat>, dest: set<Key>)
    requires forall id :: id in WithFirst(log) ==> id in order
    ensures forall id :: id in NeededIds(WithFirst(log), order, dest) <==> id in log && AnyNeeded(log[id], dest)
  {
  }

  lemma OpenedFiles(env: Env, disk: map<nat, bytes>, dest: set<Key>, capacity: nat, now: nat)
    requires capacity >= SUPERBLOCK_SIZE
    ensures var st0 := OpenStart(disk, capacity, now);
            var st1 := OpenAll(env, st0, Ascending(st0.disk.Keys, MAX_SEGMENTS), dest);
            var st := OpenWal(env, disk, dest, capacity, now);
            st.sealed == st1.sealed && st.disk.Keys == st1.disk.Keys + {st.active.id}
  {
    hide OpenAll, Ascending, CreateFile, OpenStart;
  }
}
