/** After a reopen, the requests that recovery sends are enough: once the workers have served them
    all, every acknowledged object is in its files and the log holds nothing. */
module WalCatchUp {
  import opened ByteCodec
  import opened Metadata
  import opened NeedleCodec
  import opened Segments
  import opened WalState
  import opened WalRecovery
  import opened WalRefinement
  import opened FileTier
  import opened WalDurability
  import opened WalOverwrite

  /** There is one request for each pending entry, and no other. */
  ghost predicate Requested(v: Volume)
  {
    && (forall k :: k in v.wal.pending ==> (k, v.wal.pending[k]) in v.queue)
    && (forall k, e :: (k, e) in v.queue ==> k in v.wal.pending && v.wal.pending[k] == e)
  }

  lemma ReopenRequests(env: Env, v: Volume, torn: bytes, now: nat)
    requires v.wal.capacity >= SUPERBLOCK_SIZE && v.wal.active.size <= |v.wal.active.mmap|
    ensures Requested(CrashStep(env, v, torn, now))
  {
    hide OpenWal, CrashedDisk;
  }

  /** A worker that finishes a request leaves the others as they were. */
  lemma DoneKeepsRequests(env: Env, v: Volume, log: map<nat, seq<Needle>>, m: map<Key, Needle>, k: Key, e: Entry)
    requires VolumeInv(env, v, log, m) && Requested(v) && (k, e) in v.queue
    ensures var v' := WorkStep(env, v, k, e, Done);
            && Requested(v') && v'.queue == v.queue - {(k, e)} && v'.acked == v.acked
            && k in v'.files.shards && v.files.shards.Keys <= v'.files.shards.Keys
  {
    hide Inv, LogOk, FilesOk, NewestOk, QueueOk, ReadData, ReadMetaBytes, Materialize, Mark, Points, Unmixed, Requested;
    InvActive(env, v.wal, log, m);
    InvReads(env, v.wal, log, m);
    RequestIsPending(v, k, e);
    PendingPoints(env, v.wal, log, m, k);
    PointsLive(log, e, m[k]);
    PointsReads(env, v.wal, log, e, m[k]);
    assert WellMade(env, v.acked[k]);
    MarkedPending(v.wal, k);
    MaterializedShards(v.files, k, v.acked[k].data, MetaOf(env, v.acked[k]));
    FewerRequests(v, WorkStep(env, v, k, e, Done), k, e);
  }

  lemma RequestIsPending(v: Volume, k: Key, e: Entry)
    requires Requested(v) && (k, e) in v.queue
    ensures k in v.wal.pending && v.wal.pending[k] == e
  {
  }

  lemma FewerRequests(v: Volume, v': Volume, k: Key, e: Entry)
    requires Requested(v) && (k, e) in v.queue
    requires v'.wal.pending == v.wal.pending - {k} && v'.queue == v.queue - {(k, e)}
    ensures Requested(v')
  {
  }

  /** Every step finishes a request. */
  ghost predicate AllDone(steps: seq<Step>)
  {
    forall i :: 0 <= i < |steps| ==> steps[i].Work? && steps[i].end.Done?
  }

  lemma {:induction false} DoneSteps(env: Env, v: Volume, log: map<nat, seq<Needle>>, m: map<Key, Needle>,
                                     steps: seq<Step>, v': Volume)
    returns (log': map<nat, seq<Needle>>, m': map<Key, Needle>)
    requires VolumeInv(env, v, log, m) && Requested(v) && AllDone(steps) && Reaches(env, v, steps, v')
    ensures VolumeInv(env, v', log', m') && Requested(v') && v'.acked == v.acked && |v'.queue| + |steps| == |v.queue|
    decreases |steps|
  {
    hide VolumeInv, Requested, WorkStep;
    if steps == [] {
      log', m' := log, m;
    } else {
      var (k, e) := steps[0].req;
      assert steps[0] == Work((k, e), Done);
      DoneKeepsRequests(env, v, log, m, k, e);
      var v1 := WorkStep(env, v, k, e, Done);
      var log1, m1 := WorkKeepsInv(env, v, log, m, k, e, Done);
      log', m' := DoneSteps(env, v1, log1, m1, steps[1..], v');
    }
  }

  /** Catching up: from any volume in order, after a crash and then any order of the workers serving
      every request that the reopened log sent, each acknowledged object is served by its files and
      nothing is pending. It takes one step for each entry recovered. */
  lemma ReopenCatchesUp(env: Env, v: Volume, log: map<nat, seq<Needle>>, m: map<Key, Needle>, torn: bytes, now: nat,
                        steps: seq<Step>, v': Volume)
    requires VolumeInv(env, v, log, m) && Enabled(env, v, Crash(torn, now))
    requires v.wal.capacity >= SUPERBLOCK_SIZE && v.wal.active.size <= |v.wal.active.mmap|
    requires Reaches(env, CrashStep(env, v, torn, now), steps, v') && AllDone(steps) && v'.queue == {}
    ensures v'.wal.pending == map[] && v'.acked == v.acked
    ensures |steps| == |CrashStep(env, v, torn, now).queue|
    ensures forall k :: k in v.acked ==>
              && k in v'.files.shards && env.decodeMeta(v.acked[k].meta).Some?
              && Serves(v'.files, k, v.acked[k].data, MetaOf(env, v.acked[k]))
  {
    hide Inv, LogOk, AckedOk, QueueOk, NewestOk, Serves, CrashStep, Reaches, TornOk;
    var log1, m1 := CrashInv(env, v, log, m, torn, now);
    ReopenRequests(env, v, torn, now);
    CrashAcked(env, v, torn, now);
    var log', m' := DoneSteps(env, CrashStep(env, v, torn, now), log1, m1, steps, v');
    assert v'.wal.pending == map[] by {
      assert forall k :: k !in v'.wal.pending;
    }
    InvReads(env, v'.wal, log', m');
  }
}
