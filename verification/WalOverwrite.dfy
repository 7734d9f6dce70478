/** When a key may be written again, and when a worker may stop half way: the conditions under
    which runs keep every write are exact. */
module WalOverwrite {
  import opened ByteCodec
  import opened Metadata
  import opened NeedleCodec
  import opened Segments
  import opened WalState
  import opened WalRecovery
  import opened WalRefinement
  import opened FileTier
  import opened WalDurability

  /** Whatever happens next, the key is served as last written. */
  ghost predicate AlwaysServed(env: Env, v: Volume, k: Key)
  {
    forall steps, v' :: Reaches(env, v, steps, v') ==> Durable(env, v', k)
  }

  lemma StepKeepsAcked(env: Env, v: Volume, step: Step, k: Key)
    requires v.wal.capacity >= SUPERBLOCK_SIZE && v.wal.active.size <= |v.wal.active.mmap|
    requires Enabled(env, v, step) && k in v.acked
    ensures k in Apply(env, v, step).acked
  {
    hide AppendWal, OpenWal, Good, Unmixed, WellMade, CrashedDisk, Materialize, ReadData, ReadMetaBytes, Mark;
  }

  lemma {:induction false} ReachesKeepsAcked(env: Env, v: Volume, steps: seq<Step>, v': Volume, k: Key)
    requires Reaches(env, v, steps, v') && k in v.acked
    ensures k in v'.acked
    decreases |steps|
  {
    hide Enabled, Apply;
    if steps != [] {
      StepKeepsAcked(env, v, steps[0], k);
      ReachesKeepsAcked(env, Apply(env, v, steps[0]), steps[1..], v', k);
    }
  }

  /** A volume in order serves every acknowledged key, whatever happens next. */
  lemma InvServesAlways(env: Env, v: Volume, log: map<nat, seq<Needle>>, m: map<Key, Needle>, k: Key)
    requires VolumeInv(env, v, log, m) && k in v.acked
    ensures AlwaysServed(env, v, k)
  {
    hide VolumeInv, Durable, Reaches;
    forall steps, v' | Reaches(env, v, steps, v')
      ensures Durable(env, v', k)
    {
      var log', m' := ReachesKeepsInv(env, v, log, m, steps, v');
      ReachesKeepsAcked(env, v, steps, v', k);
      InvIsDurable(env, v', log', m', k);
    }
  }

  /** One step after which a key is not served as last written. */
  lemma NotAlways(env: Env, v: Volume, step: Step, k: Key)
    requires v.wal.capacity >= SUPERBLOCK_SIZE && v.wal.active.size <= |v.wal.active.mmap| && Enabled(env, v, step)
    requires !Durable(env, Apply(env, v, step), k)
    ensures !AlwaysServed(env, v, k)
  {
    hide Enabled, Apply, Durable;
    assert [step][1..] == [];
    assert Reaches(env, Apply(env, v, step), [], Apply(env, v, step));
    assert Reaches(env, v, [step], Apply(env, v, step));
  }

  // What an older request does

  /** A request that points at an older needle of its key puts that needle into the files and
      takes the newer one out of the pending map. */
  lemma StaleRequestClobbers(env: Env, v: Volume, log: map<nat, seq<Needle>>, m: map<Key, Needle>, k: Key, e: Entry,
                             n: Needle)
    requires Inv(env, v.wal, log, m) && Points(log, e, n) && KeyOf(n) == k && WellMade(env, n)
    ensures var v' := WorkStep(env, v, k, e, Done);
            && k !in v'.wal.pending && v'.acked == v.acked
            && ReadObject(env, v', k).Some? && ReadObject(env, v', k).value.0 == n.data
  {
    hide Inv, Points, Mark, ReadData, ReadMetaBytes, Materialize, Serves, ReadFile;
    InvActive(env, v.wal, log, m);
    PointsReads(env, v.wal, log, e, n);
    MarkedPending(v.wal, k);
    MaterializeServes(v.files, k, n.data, MetaOf(env, n));
    ServesReads(Materialize(v.files, k, n.data, MetaOf(env, n)), k, n.data, MetaOf(env, n));
  }

  lemma ClobberedNotAlways(env: Env, v: Volume, log: map<nat, seq<Needle>>, m: map<Key, Needle>, k: Key, e: Entry,
                           n: Needle)
    requires Inv(env, v.wal, log, m) && Points(log, e, n) && KeyOf(n) == k && WellMade(env, n)
    requires (k, e) in v.queue && k in v.acked && v.acked[k].data != n.data
    ensures !AlwaysServed(env, v, k)
  {
    hide Inv, Points, WorkStep, ReadObject, AlwaysServed;
    InvActive(env, v.wal, log, m);
    StaleRequestClobbers(env, v, log, m, k, e, n);
    NotAlways(env, v, Work((k, e), Done), k);
  }

  /** The live request that somebody waits for points at the acknowledged needle. */
  lemma WaitingPoints(env: Env, v: Volume, log: map<nat, seq<Needle>>, m: map<Key, Needle>, k: Key) returns (e: Entry)
    requires VolumeInv(env, v, log, m) && Waiting(v, k)
    ensures (k, e) in v.queue && k in v.acked && Points(log, e, v.acked[k])
    ensures KeyOf(v.acked[k]) == k && WellMade(env, v.acked[k])
  {
    hide Inv, Points, ReadData, LogOk, FilesOk, Covered, NewestOk, Unmixed, WellMade;
    InvActive(env, v.wal, log, m);
    e :| (k, e) in v.queue && ReadData(v.wal, e).Some?;
    if e.segmentId !in log {
      DeadRequest(env, v.wal, log, e);
    }
  }

  // What a crash does

  lemma {:induction false} ReplaySkips(ns: seq<Needle>, dest: set<Key>, k: Key)
    requires k in dest
    ensures k !in Replay(map[], ns, dest)
  {
    if ns != [] {
      ReplaySkips(ns[..|ns| - 1], dest, k);
    }
  }

  /** What a reader gets after a crash: the replay of the log if the key is in it, or the files. */
  lemma CrashReads(env: Env, v: Volume, log: map<nat, seq<Needle>>, m: map<Key, Needle>, torn: bytes, now: nat, k: Key)
    requires Inv(env, v.wal, log, m) && TornOk(v.wal, torn) && v.wal.nextId < MAX_SEGMENTS
    requires v.wal.capacity >= SUPERBLOCK_SIZE && v.wal.active.size <= |v.wal.active.mmap|
    ensures var p := Replay(map[], InOrder(DiskLog(v.wal, log), MAX_SEGMENTS), v.files.shards.Keys);
            var r := ReadObject(env, CrashStep(env, v, torn, now), k);
            && (k !in p ==> r == ReadFile(v.files, k))
            && (k in p && env.decodeMeta(p[k].meta).Some? ==> r == Some((p[k].data, MetaOf(env, p[k]))))
  {
    hide Inv, OpenWal, InOrder, Replay, ReadData, ReadMetaBytes, ReadFile, CrashedDisk, TornOk, DirOk, DiskLog;
    CrashedDir(env, v.wal, log, m, torn);
    var dlog, dest := DiskLog(v.wal, log), v.files.shards.Keys;
    var log' := RecoveryReplays(env, CrashedDisk(v.wal, torn), dlog, dest, v.wal.capacity, now);
    InvReads(env, CrashStep(env, v, torn, now).wal, log', Replay(map[], InOrder(dlog, MAX_SEGMENTS), dest));
  }

  lemma FilesServe(env: Env, files: Files, acked: map<Key, Needle>, k: Key)
    requires FilesOk(env, files, acked) && k in files.shards
    ensures k in acked && ReadFile(files, k).Some? && ReadFile(files, k).value.0 == acked[k].data
  {
    hide Serves, ReadFile;
    ServesReads(files, k, acked[k].data, MetaOf(env, acked[k]));
  }

  predicate ZeroTail(st: State, torn: bytes)
  {
    st.active.size <= |st.active.mmap| && torn == Zeros(|st.active.mmap| - st.active.size)
  }

  lemma ZeroTailIsTorn(st: State, torn: bytes)
    requires ZeroTail(st, torn)
    ensures TornOk(st, torn)
  {
    if |torn| >= 4 {
      assert torn[..4] == Zeros(4);
    }
  }

  /** After a crash a key with a file is read from its files. */
  lemma CrashReadsFile(env: Env, v: Volume, log: map<nat, seq<Needle>>, m: map<Key, Needle>, torn: bytes, now: nat,
                       k: Key)
    requires Inv(env, v.wal, log, m) && Crashable(v.wal, torn) && k in v.files.shards
    ensures ReadObject(env, CrashStep(env, v, torn, now), k) == ReadFile(v.files, k)
  {
    hide Inv, OpenWal, InOrder, Replay, ReadFile, TornOk, CrashStep, ReadObject, DiskLog;
    ReplaySkips(InOrder(DiskLog(v.wal, log), MAX_SEGMENTS), v.files.shards.Keys, k);
    CrashReads(env, v, log, m, torn, now, k);
  }

  lemma FileNotAlways(env: Env, v: Volume, log: map<nat, seq<Needle>>, m: map<Key, Needle>, k: Key)
    requires Inv(env, v.wal, log, m) && v.wal.nextId < MAX_SEGMENTS && k in v.files.shards && k in v.acked
    requires var r := ReadFile(v.files, k);
             r.Some? ==> r.value.0 != v.acked[k].data || env.decodeMeta(v.acked[k].meta).None?
                         || !SameVersion(r.value.1, Latest(k, MetaOf(env, v.acked[k])))
    ensures !AlwaysServed(env, v, k)
  {
    hide Inv, ReadFile, CrashStep, ReadObject, AlwaysServed, Latest, SameVersion;
    InvActive(env, v.wal, log, m);
    var torn := Zeros(|v.wal.active.mmap| - v.wal.active.size);
    ZeroTailIsTorn(v.wal, torn);
    CrashReadsFile(env, v, log, m, torn, 0, k);
    CrashAcked(env, v, torn, 0);
    NotAlways(env, v, Crash(torn, 0), k);
  }

  lemma CrashAcked(env: Env, v: Volume, torn: bytes, now: nat)
    requires v.wal.capacity >= SUPERBLOCK_SIZE && v.wal.active.size <= |v.wal.active.mmap|
    ensures CrashStep(env, v, torn, now).acked == v.acked
  {
    hide OpenWal, CrashedDisk;
  }

  // Exactly when

  /** A second append of a key, with other bytes, is served from then on, whatever happens next, if
      and only if the key has no file yet and no live request for it is in flight. With a file, a
      crash brings the first write back: recovery skips every needle whose file exists. With a
      request, the worker that takes it does. */
  lemma OverwriteSurvivesIff(env: Env, v: Volume, log: map<nat, seq<Needle>>, m: map<Key, Needle>, n: Needle, now: nat,
                             sent: bool)
    requires VolumeInv(env, v, log, m) && KeyOf(n) in v.acked && n.data != v.acked[KeyOf(n)].data
    requires Good(env, n) && WellMade(env, n) && Unmixed(v.acked[KeyOf(n) := n])
    requires v.wal.nextId < MAX_SEGMENTS && v.wal.capacity >= SUPERBLOCK_SIZE && AppendWal(env, v.wal, n, now).1.Ok?
    requires PutStep(env, v, n, now, sent).wal.nextId < MAX_SEGMENTS
    ensures AlwaysServed(env, PutStep(env, v, n, now, sent), KeyOf(n)) <==> CanPut(v, KeyOf(n))
  {
    hide VolumeInv, Good, WellMade, Unmixed, AppendWal, AlwaysServed, Waiting;
    if CanPut(v, KeyOf(n)) {
      var log', m' := PutKeepsInv(env, v, log, m, n, now, sent);
      InvServesAlways(env, PutStep(env, v, n, now, sent), log', m', KeyOf(n));
    } else if KeyOf(n) in v.files.shards {
      PutOverFile(env, v, log, m, n, now, sent);
    } else {
      PutOverRequest(env, v, log, m, n, now, sent);
    }
  }

  lemma PutOverFile(env: Env, v: Volume, log: map<nat, seq<Needle>>, m: map<Key, Needle>, n: Needle, now: nat,
                    sent: bool)
    requires VolumeInv(env, v, log, m) && KeyOf(n) in v.acked && n.data != v.acked[KeyOf(n)].data
    requires Good(env, n) && KeyOf(n) in v.files.shards
    requires v.wal.nextId < MAX_SEGMENTS && v.wal.capacity >= SUPERBLOCK_SIZE && AppendWal(env, v.wal, n, now).1.Ok?
    requires PutStep(env, v, n, now, sent).wal.nextId < MAX_SEGMENTS
    ensures !AlwaysServed(env, PutStep(env, v, n, now, sent), KeyOf(n))
  {
    hide Inv, Good, AppendWal, LogAfter, AlwaysServed, LogOk, AckedOk, FilesOk, QueueOk, Covered, NewestOk, ReadFile;
    InvActive(env, v.wal, log, m);
    AppendRefines(env, v.wal, log, m, n, now);
    FilesServe(env, v.files, v.acked, KeyOf(n));
    FileNotAlways(env, PutStep(env, v, n, now, sent), LogAfter(env, v.wal, log, n), m[KeyOf(n) := n], KeyOf(n));
  }

  lemma PutOverRequest(env: Env, v: Volume, log: map<nat, seq<Needle>>, m: map<Key, Needle>, n: Needle, now: nat,
                       sent: bool)
    requires VolumeInv(env, v, log, m) && KeyOf(n) in v.acked && n.data != v.acked[KeyOf(n)].data
    requires Good(env, n) && Waiting(v, KeyOf(n))
    requires v.wal.nextId < MAX_SEGMENTS && v.wal.capacity >= SUPERBLOCK_SIZE && AppendWal(env, v.wal, n, now).1.Ok?
    ensures !AlwaysServed(env, PutStep(env, v, n, now, sent), KeyOf(n))
  {
    hide VolumeInv, Inv, Good, AppendWal, LogAfter, AlwaysServed, Points, Waiting, WellMade;
    var k := KeyOf(n);
    assert Inv(env, v.wal, log, m) by { InvOf(env, v, log, m); }
    InvActive(env, v.wal, log, m);
    AppendRefines(env, v.wal, log, m, n, now);
    var e := WaitingPoints(env, v, log, m, k);
    var log1 := LogAfter(env, v.wal, log, n);
    KeptSegment(env, v.wal, log, m, n, e, v.acked[k]);
    ClobberedNotAlways(env, PutStep(env, v, n, now, sent), log1, m[k := n], k, e, v.acked[k]);
  }

  lemma InvOf(env: Env, v: Volume, log: map<nat, seq<Needle>>, m: map<Key, Needle>)
    requires VolumeInv(env, v, log, m)
    ensures Inv(env, v.wal, log, m)
  {
    hide Inv;
  }

  lemma KeptSegment(env: Env, st: State, log: map<nat, seq<Needle>>, m: map<Key, Needle>, n: Needle, e: Entry,
                    x: Needle)
    requires Inv(env, st, log, m) && st.active.id in log && Points(log, e, x)
    ensures Points(LogAfter(env, st, log, n), e, x)
  {
    hide Inv, Append, EntryAt;
    SegmentBound(env, st, log, m);
    PointsExtends(env, log, LogAfter(env, st, log, n), e, x);
  }

  /** A second, direct write of a key is served from then on if and only if the key is not pending
      in the log and no live request for it is in flight: readers ask the log first. */
  lemma DirectSurvivesIff(env: Env, v: Volume, log: map<nat, seq<Needle>>, m: map<Key, Needle>, n: Needle)
    requires VolumeInv(env, v, log, m) && KeyOf(n) in v.acked && n.data != v.acked[KeyOf(n)].data
    requires WellMade(env, n) && Unmixed(v.acked[KeyOf(n) := n])
    ensures AlwaysServed(env, DirectStep(env, v, n), KeyOf(n)) <==> CanDirect(v, KeyOf(n))
  {
    hide VolumeInv, Unmixed, AlwaysServed, Waiting, DirectStep;
    if CanDirect(v, KeyOf(n)) {
      DirectKeepsInv(env, v, log, m, n);
      DirectAcks(env, v, n);
      InvServesAlways(env, DirectStep(env, v, n), log, m, KeyOf(n));
    } else if KeyOf(n) in v.wal.pending {
      DirectUnderPending(env, v, log, m, n);
    } else {
      var k := KeyOf(n);
      var e := WaitingPoints(env, v, log, m, k);
      InvOf(env, v, log, m);
      DirectAcks(env, v, n);
      ClobberedNotAlways(env, DirectStep(env, v, n), log, m, k, e, v.acked[k]);
    }
  }

  lemma DirectAcks(env: Env, v: Volume, n: Needle)
    requires WellMade(env, n)
    ensures var v' := DirectStep(env, v, n);
            KeyOf(n) in v'.acked && v'.acked[KeyOf(n)] == n && v'.queue == v.queue && v'.wal == v.wal
  {
    hide Materialize;
  }

  lemma DirectUnderPending(env: Env, v: Volume, log: map<nat, seq<Needle>>, m: map<Key, Needle>, n: Needle)
    requires VolumeInv(env, v, log, m) && WellMade(env, n)
    requires KeyOf(n) in v.wal.pending && KeyOf(n) in v.acked && n.data != v.acked[KeyOf(n)].data
    ensures !AlwaysServed(env, DirectStep(env, v, n), KeyOf(n))
  {
    hide Inv, LogOk, FilesOk, QueueOk, NewestOk, ReadData, ReadMetaBytes, Materialize, ReadFile, Unmixed;
    var k, v1 := KeyOf(n), DirectStep(env, v, n);
    InvReads(env, v.wal, log, m);
    assert WellMade(env, v.acked[k]);
    assert !Durable(env, v1, k);
    assert Reaches(env, v1, [], v1);
  }

  /** A worker that stops with only the shard file written leaves its key served from then on if
      and only if the file is complete and the metadata file lists the version already: after a
      crash, recovery takes the shard file for a finished object. */
  lemma HalfDoneSurvivesIff(env: Env, v: Volume, log: map<nat, seq<Needle>>, m: map<Key, Needle>, k: Key, e: Entry,
                            left: bytes)
    requires VolumeInv(env, v, log, m) && (k, e) in v.queue && v.wal.nextId < MAX_SEGMENTS
    ensures AlwaysServed(env, WorkStep(env, v, k, e, ShardOnly(left)), k) <==> CanEnd(env, v, k, e, ShardOnly(left))
  {
    hide VolumeInv, AlwaysServed, WorkStep, CanEnd;
    if CanEnd(env, v, k, e, ShardOnly(left)) {
      var log', m' := WorkKeepsInv(env, v, log, m, k, e, ShardOnly(left));
      RequestIsAcked(env, v, log, m, k, e, ShardOnly(left));
      InvServesAlways(env, WorkStep(env, v, k, e, ShardOnly(left)), log', m', k);
    } else {
      HalfDoneFails(env, v, log, m, k, e, left);
    }
  }

  lemma RequestIsAcked(env: Env, v: Volume, log: map<nat, seq<Needle>>, m: map<Key, Needle>, k: Key, e: Entry,
                       end: WorkEnd)
    requires VolumeInv(env, v, log, m) && (k, e) in v.queue
    ensures k in v.acked && WorkStep(env, v, k, e, end).acked == v.acked
  {
    hide Inv, LogOk, FilesOk, NewestOk, ReadData, ReadMetaBytes, Materialize, Mark, Points;
  }

  lemma HalfDoneFails(env: Env, v: Volume, log: map<nat, seq<Needle>>, m: map<Key, Needle>, k: Key, e: Entry,
                      left: bytes)
    requires VolumeInv(env, v, log, m) && (k, e) in v.queue && v.wal.nextId < MAX_SEGMENTS
    requires !CanEnd(env, v, k, e, ShardOnly(left))
    ensures !AlwaysServed(env, WorkStep(env, v, k, e, ShardOnly(left)), k)
  {
    hide Inv, LogOk, FilesOk, NewestOk, Covered, ReadData, ReadMetaBytes, Materialize, Points, AlwaysServed, ReadFile,
      Listed, Unmixed;
    var n := v.acked[k];
    InvActive(env, v.wal, log, m);
    assert WellMade(env, n);
    assert e.segmentId in log by {
      if e.segmentId !in log {
        DeadRequest(env, v.wal, log, e);
      }
    }
    PointsReads(env, v.wal, log, e, n);
    var v1 := WorkStep(env, v, k, e, ShardOnly(left));
    UnlistedReads(env, v.files, n, left);
    FileNotAlways(env, v1, log, m, k);
  }

  /** The files read as the object exactly if both of them are in order. */
  lemma UnlistedReads(env: Env, files: Files, n: Needle, left: bytes)
    requires WellMade(env, n)
    requires left != n.data || !Listed(files, KeyOf(n), MetaOf(env, n))
    ensures var r := ReadFile(files.(shards := files.shards[KeyOf(n) := left]), KeyOf(n));
            r.Some? ==> r.value.0 != n.data || !SameVersion(r.value.1, Latest(KeyOf(n), MetaOf(env, n)))
  {
    hide FirstLive, FindVersion;
    var k := KeyOf(n);
    var half := files.(shards := files.shards[k := left]);
    assert Versions(half, k) == Versions(files, k);
    var r := ReadFile(half, k);
    if r.Some? && SameVersion(r.value.1, Latest(k, MetaOf(env, n))) {
      assert r.value.1.versionId == r.value.1.(isLatest := true).versionId == k.versionId;
      assert Listed(files, k, MetaOf(env, n));
    }
  }
}
