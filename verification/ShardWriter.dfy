/** The streaming shard writer of a volume with a log: it buffers, promotes large bodies to a
    file while they arrive, and decides the tier of the rest when the body is complete. */
module ShardWriting {
  import opened ByteCodec
  import opened Metadata
  import opened NeedleCodec
  import opened Segments
  import opened WalState
  import opened FileTier
  import opened WalDurability

  /** A buffer that would exceed this is written out to the shard file. */
  const STREAMING_PROMOTE_BYTES: nat := 1024 * 1024

  datatype Mode = Buffering(buf: bytes) | Streaming(file: bytes)

  datatype Tier = LogNeedle | BufferedFile | StreamedFile

  function TierOf(len: nat, threshold: nat): (t: Tier)
  {
    if len > STREAMING_PROMOTE_BYTES then StreamedFile else if len <= threshold then LogNeedle else BufferedFile
  }

  function Chunked(mode: Mode, data: bytes): (r: Mode)
  {
    match mode
    case Streaming(file) => Streaming(file + data)
    case Buffering(buf) =>
      if |buf| + |data| > STREAMING_PROMOTE_BYTES then Streaming(buf + data) else Buffering(buf + data)
  }

  function ChunkedAll(chunks: seq<bytes>): (r: Mode)
  {
    if chunks == [] then Buffering([]) else Chunked(ChunkedAll(chunks[..|chunks| - 1]), chunks[|chunks| - 1])
  }

  function NeedleFor(env: Env, k: Key, meta: ObjectMeta, body: bytes): (n: Needle)
  {
    Needle(FLAG_NORMAL, k.bucket, k.key, k.versionId, env.encodeMeta(meta), body)
  }

  /** The volume when the body goes to the file tier. */
  function ToFiles(env: Env, v: Volume, k: Key, meta: ObjectMeta, body: bytes): (r: Volume)
  {
    v.(files := Materialize(v.files, k, body, meta), acked := v.acked[k := NeedleFor(env, k, meta, body)])
  }

  function Finish(env: Env, v: Volume, k: Key, threshold: nat, mode: Mode, meta: ObjectMeta, now: nat,
                  sent: bool): (r: Volume)
    requires v.wal.capacity >= SUPERBLOCK_SIZE
  {
    match mode
    case Streaming(file) => ToFiles(env, v, k, meta, file)
    case Buffering(buf) =>
      if |buf| <= threshold then PutStep(env, v, NeedleFor(env, k, meta, buf), now, sent)
      else ToFiles(env, v, k, meta, buf)
  }

  /** What a write of a whole object does to the volume: its tier depends on its length only. */
  function WriteStep(env: Env, v: Volume, threshold: nat, n: Needle, now: nat, sent: bool): (r: Volume)
    requires v.wal.capacity >= SUPERBLOCK_SIZE && env.decodeMeta(n.meta).Some?
  {
    if TierOf(|n.data|, threshold).LogNeedle? then PutStep(env, v, n, now, sent) else DirectStep(env, v, n)
  }

  class WalShardWriter {
    const env: Env
    const key: Key
    const threshold: nat
    var mode: Mode

    constructor (env: Env, key: Key, threshold: nat)
      ensures this.env == env && this.key == key && this.threshold == threshold && mode == ChunkedAll([])
    {
      this.env, this.key, this.threshold, mode := env, key, threshold, Buffering([]);
    }

    method WriteChunk(data: bytes)
      modifies this
      ensures mode == Chunked(old(mode), data)
    {
      if mode.Buffering? && |mode.buf| + |data| > STREAMING_PROMOTE_BYTES {
        var file := if mode.buf != [] then mode.buf else [];
        file := file + data;
        mode := Streaming(file);
        return;
      }
      match mode
      case Buffering(buf) => mode := Buffering(buf + data);
      case Streaming(file) => mode := Streaming(file + data);
    }

    /** Whatever chunks were written, finalizing is one step of the volume on their whole. */
    method Finalize(v: Volume, meta: ObjectMeta, now: nat, sent: bool) returns (r: Volume)
      requires v.wal.capacity >= SUPERBLOCK_SIZE
      ensures r == Finish(env, v, key, threshold, mode, meta, now, sent)
      ensures env.MetaRoundTrips() ==> forall chunks: seq<bytes> :: mode == ChunkedAll(chunks) ==>
                r == WriteStep(env, v, threshold, NeedleFor(env, key, meta, Flatten(chunks)), now, sent)
    {
      hide Materialize, PutStep, ChunkedAll;
      if mode.Buffering? && |mode.buf| <= threshold {
        r := PutStep(env, v, NeedleFor(env, key, meta, mode.buf), now, sent);
      } else {
        r := ToFiles(env, v, key, meta, if mode.Streaming? then mode.file else mode.buf);
      }
      if env.MetaRoundTrips() {
        forall chunks: seq<bytes> | mode == ChunkedAll(chunks)
          ensures r == WriteStep(env, v, threshold, NeedleFor(env, key, meta, Flatten(chunks)), now, sent)
        {
          WriterIsOneStep(env, v, key, threshold, chunks, meta, now, sent);
        }
      }
    }
  }

  /** Whatever the chunks, the writer holds their concatenation, and has promoted exactly when
      that is longer than the promotion size. */
  lemma {:induction false} ChunksJoin(chunks: seq<bytes>)
    ensures var body := Flatten(chunks);
            ChunkedAll(chunks) == if |body| > STREAMING_PROMOTE_BYTES then Streaming(body) else Buffering(body)
  {
    if chunks != [] {
      var n := |chunks| - 1;
      ChunksJoin(chunks[..n]);
      FlattenSnoc(chunks[..n], chunks[n]);
      assert chunks == chunks[..n] + [chunks[n]];
    }
  }

  /** A whole write is one step of the volume that depends on the body alone: a log append for
      bodies within both limits, a direct write of the file tier for all others. */
  lemma WriterIsOneStep(env: Env, v: Volume, k: Key, threshold: nat, chunks: seq<bytes>, meta: ObjectMeta, now: nat,
                        sent: bool)
    requires v.wal.capacity >= SUPERBLOCK_SIZE && env.MetaRoundTrips()
    ensures Finish(env, v, k, threshold, ChunkedAll(chunks), meta, now, sent)
            == WriteStep(env, v, threshold, NeedleFor(env, k, meta, Flatten(chunks)), now, sent)
  {
    hide Materialize, PutStep;
    ChunksJoin(chunks);
  }

  /** Which tier a write goes to: a body within the threshold and one mebibyte is only appended to the
      log, and any other leaves the log alone and is in the files. */
  lemma TierIff(env: Env, v: Volume, k: Key, threshold: nat, chunks: seq<bytes>, meta: ObjectMeta, now: nat,
                sent: bool)
    requires v.wal.capacity >= SUPERBLOCK_SIZE && env.MetaRoundTrips()
    ensures var body, v' := Flatten(chunks), Finish(env, v, k, threshold, ChunkedAll(chunks), meta, now, sent);
            if |body| <= threshold && |body| <= 0x10_0000 then
              && v'.files == v.files
              && v'.wal == AppendWal(env, v.wal, NeedleFor(env, k, meta, body), now).0
            else v'.wal == v.wal && k in v'.files.shards && v'.files.shards[k] == body
  {
    hide AppendWal;
    ChunksJoin(chunks);
  }

  /** An append that a worker then materializes leaves the same file tier as a direct write of
      the same object: readers cannot tell the tiers apart. */
  lemma TiersAgree(env: Env, v: Volume, log: map<nat, seq<Needle>>, m: map<Key, Needle>, n: Needle, now: nat)
    requires VolumeInv(env, v, log, m) && Enabled(env, v, Put(n, now, true))
    requires v.wal.capacity >= SUPERBLOCK_SIZE && AppendWal(env, v.wal, n, now).1.Ok?
    ensures var v1 := PutStep(env, v, n, now, true);
            var req := (KeyOf(n), AppendWal(env, v.wal, n, now).1.value);
            req in v1.queue && WorkStep(env, v1, req.0, req.1, Done).files == DirectStep(env, v, n).files
  {
    hide Inv, AppendWal, Materialize, ReadData, ReadMetaBytes, LogAfter, Good, LogOk, FilesOk, QueueOk, AckedOk,
      Covered;
    InvActive(env, v.wal, log, m);
    AppendRefines(env, v.wal, log, m, n, now);
    var st := AppendWal(env, v.wal, n, now).0;
    InvReads(env, st, LogAfter(env, v.wal, log, n), m[KeyOf(n) := n]);
  }

  /** The write path end to end: on any volume reached from a new one, an object written in any
      chunks is, once acknowledged, read back whole, from whichever tier it went to. */
  lemma WrittenIsRead(env: Env, capacity: nat, created: nat, steps: seq<Step>, v: Volume, k: Key, threshold: nat,
                      chunks: seq<bytes>, meta: ObjectMeta, now: nat, sent: bool)
    requires SUPERBLOCK_SIZE <= capacity < U32 && env.MetaRoundTrips()
    requires Reaches(env, NewVolume(env, capacity, created), steps, v)
    requires v.wal.capacity >= SUPERBLOCK_SIZE && v.wal.active.size <= |v.wal.active.mmap|
    requires var n := NeedleFor(env, k, meta, Flatten(chunks));
             && WellMade(env, n) && Unmixed(v.acked[k := n])
             && if TierOf(|n.data|, threshold).LogNeedle? then
                  Good(env, n) && v.wal.nextId < MAX_SEGMENTS && CanPut(v, k)
                else CanDirect(v, k)
    ensures var v' := Finish(env, v, k, threshold, ChunkedAll(chunks), meta, now, sent);
            Acknowledged(env, v, threshold, NeedleFor(env, k, meta, Flatten(chunks)), now) ==>
              && k in v'.acked && ReadObject(env, v', k).Some?
              && ReadObject(env, v', k).value.0 == Flatten(chunks)
  {
    hide Reaches, NewVolume, ReadObject, PutStep, DirectStep, Finish, ChunkedAll, Unmixed, Good, VolumeInv;
    var n := NeedleFor(env, k, meta, Flatten(chunks));
    WriterIsOneStep(env, v, k, threshold, chunks, meta, now, sent);
    var step := if TierOf(|n.data|, threshold).LogNeedle? then Put(n, now, sent) else Direct(n);
    var log, m := ReachedInv(env, capacity, created, steps, v);
    var log', m' := StepKeepsInv(env, v, log, m, step);
    var v' := Apply(env, v, step);
    if Acknowledged(env, v, threshold, n, now) {
      AckedIsWritten(env, v, step, n);
      InvIsDurable(env, v', log', m', k);
    }
  }

  /** A write is acknowledged when it goes to the files or the log accepts it. */
  predicate Acknowledged(env: Env, v: Volume, threshold: nat, n: Needle, now: nat)
    requires v.wal.capacity >= SUPERBLOCK_SIZE
  {
    TierOf(|n.data|, threshold).LogNeedle? ==> AppendWal(env, v.wal, n, now).1.Ok?
  }

  lemma AckedIsWritten(env: Env, v: Volume, step: Step, n: Needle)
    requires v.wal.capacity >= SUPERBLOCK_SIZE && v.wal.active.size <= |v.wal.active.mmap| && Enabled(env, v, step)
    requires (step.Direct? || (step.Put? && AppendWal(env, v.wal, n, step.now).1.Ok?)) && step.needle == n
    ensures var acked := Apply(env, v, step).acked; KeyOf(n) in acked && acked[KeyOf(n)] == n
  {
    hide AppendWal, Materialize, Unmixed, Good;
  }
}
