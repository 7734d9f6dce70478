/** Over every run of appends, rotations and marks the log behaves as a plain map. */
module WalRefinement {
  import opened ByteCodec
  import opened Metadata
  import opened NeedleCodec
  import opened Segments
  import opened WalState
  import opened WalRecovery

  datatype Op = AppendOp(needle: Needle, now: nat) | MarkOp(key: Key)

  function Step(env: Env, st: State, op: Op): (r: State)
    requires st.capacity >= SUPERBLOCK_SIZE
    ensures r.capacity == st.capacity
  {
    match op
    case AppendOp(n, now) => AppendWal(env, st, n, now).0
    case MarkOp(k) => Mark(st, k)
  }

  function Run(env: Env, st: State, ops: seq<Op>): (r: State)
    requires st.capacity >= SUPERBLOCK_SIZE
    ensures r.capacity == st.capacity
  {
    if ops == [] then st else Step(env, Run(env, st, ops[..|ops| - 1]), ops[|ops| - 1])
  }

  /** The same run on a plain map: appends insert, marks remove. */
  function MapStep(capacity: nat, m: map<Key, Needle>, op: Op): (r: map<Key, Needle>)
  {
    match op
    case AppendOp(n, _) => if SUPERBLOCK_SIZE + SerializedSize(n) <= capacity then m[KeyOf(n) := n] else m
    case MarkOp(k) => m - {k}
  }

  function MapRun(capacity: nat, m: map<Key, Needle>, ops: seq<Op>): (r: map<Key, Needle>)
  {
    if ops == [] then m else MapStep(capacity, MapRun(capacity, m, ops[..|ops| - 1]), ops[|ops| - 1])
  }

  ghost predicate OpsGood(env: Env, ops: seq<Op>)
  {
    forall i :: 0 <= i < |ops| && ops[i].AppendOp? ==> Good(env, ops[i].needle)
  }

  lemma {:induction false} RunKeepsInv(env: Env, st: State, log: map<nat, seq<Needle>>, m: map<Key, Needle>,
                                       ops: seq<Op>)
    returns (log': map<nat, seq<Needle>>)
    requires Inv(env, st, log, m) && OpsGood(env, ops)
    requires SUPERBLOCK_SIZE <= st.capacity && Run(env, st, ops).nextId < MAX_SEGMENTS
    ensures Inv(env, Run(env, st, ops), log', MapRun(st.capacity, m, ops))
  {
    hide Inv, Good, AppendWal, Mark;
    InvActive(env, st, log, m);
    if ops == [] {
      log' := log;
    } else {
      var front, op := ops[..|ops| - 1], ops[|ops| - 1];
      var st1, m1 := Run(env, st, front), MapRun(st.capacity, m, front);
      IdsOnlyGrow(env, st1, op);
      var log1 := RunKeepsInv(env, st, log, m, front);
      match op {
        case AppendOp(n, now) =>
          InvActive(env, st1, log1, m1);
          AppendRefines(env, st1, log1, m1, n, now);
          log' := LogAfter(env, st1, log1, n);
        case MarkOp(k) =>
          MarkRefines(env, st1, log1, m1, k);
          log' := LogAfterMark(st1, log1, k);
      }
    }
  }

  lemma NextIdGrows(env: Env, st: State, n: Needle, now: nat)
    requires st.capacity >= SUPERBLOCK_SIZE
    ensures st.nextId <= AppendWal(env, st, n, now).0.nextId <= st.nextId + 1
    ensures AppendWal(env, st, n, now).0.capacity == st.capacity
  {
    hide Append, CreateFile;
  }

  lemma MarkKeepsNextId(st: State, k: Key)
    ensures Mark(st, k).nextId == st.nextId && Mark(st, k).capacity == st.capacity
  {
  }

  lemma IdsOnlyGrow(env: Env, st: State, op: Op)
    requires st.capacity >= SUPERBLOCK_SIZE
    ensures st.nextId <= Step(env, st, op).nextId
  {
    hide AppendWal, Mark;
    match op
    case AppendOp(n, now) => NextIdGrows(env, st, n, now);
    case MarkOp(k) => MarkKeepsNextId(st, k);
  }

  /** Whatever was appended, rotated and marked, a key is pending exactly when the plain map
      has it, and reading its entry returns the data and metadata of the map's needle. */
  lemma WalRefinesMap(env: Env, st: State, log: map<nat, seq<Needle>>, m: map<Key, Needle>, ops: seq<Op>)
    requires Inv(env, st, log, m) && OpsGood(env, ops)
    requires SUPERBLOCK_SIZE <= st.capacity && Run(env, st, ops).nextId < MAX_SEGMENTS
    ensures var r, p := Run(env, st, ops), MapRun(st.capacity, m, ops);
            && r.pending.Keys == p.Keys
            && forall k :: k in p ==> && ReadData(r, r.pending[k]) == Some(p[k].data)
                                      && ReadMetaBytes(r, r.pending[k]) == Some(p[k].meta)
                                      && ReadMeta(env, r, r.pending[k]) == env.decodeMeta(p[k].meta)
  {
    hide Inv, Run, MapRun, ReadData, ReadMetaBytes;
    InvActive(env, st, log, m);
    var log' := RunKeepsInv(env, st, log, m, ops);
    InvReads(env, Run(env, st, ops), log', MapRun(st.capacity, m, ops));
  }

  predicate Stores(capacity: nat, op: Op, k: Key)
  {
    op.AppendOp? && KeyOf(op.needle) == k && SUPERBLOCK_SIZE + SerializedSize(op.needle) <= capacity
  }

  predicate Marks(op: Op, k: Key)
  {
    op == MarkOp(k)
  }

  /** Operation `i` stores `k` and no later operation marks it. */
  ghost predicate Unmarked(capacity: nat, ops: seq<Op>, i: nat, k: Key)
  {
    i < |ops| && Stores(capacity, ops[i], k) && forall j :: i < j < |ops| ==> !Marks(ops[j], k)
  }

  lemma UnmarkedFront(capacity: nat, ops: seq<Op>, i: nat, k: Key)
    requires ops != [] && i < |ops| - 1
    ensures var last := |ops| - 1;
            Unmarked(capacity, ops, i, k) <==> Unmarked(capacity, ops[..last], i, k) && !Marks(ops[last], k)
  {
    hide Stores;
    var front := ops[..|ops| - 1];
    assert forall j :: 0 <= j < |front| ==> ops[j] == front[j];
  }

  lemma {:induction false} PresentIffUnmarked(capacity: nat, ops: seq<Op>, k: Key)
    ensures k in MapRun(capacity, map[], ops) <==> exists i: nat :: Unmarked(capacity, ops, i, k)
  {
    hide SerializedSize;
    if ops != [] {
      var front, last := ops[..|ops| - 1], |ops| - 1;
      PresentIffUnmarked(capacity, front, k);
      if Stores(capacity, ops[last], k) {
        assert Unmarked(capacity, ops, last, k);
      }
      if i: nat :| Unmarked(capacity, front, i, k) {
        UnmarkedFront(capacity, ops, i, k);
      }
      if i: nat :| Unmarked(capacity, ops, i, k) && i < last {
        UnmarkedFront(capacity, ops, i, k);
      }
    }
  }

  lemma {:induction false} LastIsPresent(capacity: nat, ops: seq<Op>, i: nat, k: Key)
    requires LastStored(capacity, ops, i, k) && Unmarked(capacity, ops, i, k)
    ensures k in MapRun(capacity, map[], ops) && MapRun(capacity, map[], ops)[k] == ops[i].needle
  {
    hide SerializedSize;
    var front, last := ops[..|ops| - 1], |ops| - 1;
    if i < last {
      UnmarkedFront(capacity, ops, i, k);
      assert forall j :: 0 <= j < |front| ==> front[j] == ops[j];
      LastIsPresent(capacity, front, i, k);
      assert !Stores(capacity, ops[last], k);
    }
  }

  /** Reading the plain run as a history: a key is present exactly when some accepted append
      of it has no mark after it, and then it has the needle of its last accepted append. */
  lemma PendingIffUnmarked(capacity: nat, ops: seq<Op>, k: Key)
    ensures k in MapRun(capacity, map[], ops) <==> exists i: nat :: Unmarked(capacity, ops, i, k)
    ensures forall i: nat :: LastStored(capacity, ops, i, k) && Unmarked(capacity, ops, i, k)
              ==> k in MapRun(capacity, map[], ops) && MapRun(capacity, map[], ops)[k] == ops[i].needle
  {
    hide MapRun, SerializedSize;
    PresentIffUnmarked(capacity, ops, k);
    forall i: nat | LastStored(capacity, ops, i, k) && Unmarked(capacity, ops, i, k)
      ensures k in MapRun(capacity, map[], ops) && MapRun(capacity, map[], ops)[k] == ops[i].needle
    {
      LastIsPresent(capacity, ops, i, k);
    }
  }

  /** Operation `i` is the last accepted append of `k`. */
  ghost predicate LastStored(capacity: nat, ops: seq<Op>, i: nat, k: Key)
  {
    i < |ops| && Stores(capacity, ops[i], k) && forall j :: i < j < |ops| ==> !Stores(capacity, ops[j], k)
  }

  /** A log opened on an empty directory, after any operations for which the segment ids last:
      a key is pending exactly when its last accepted append has no later mark, and reading it
      then returns the bytes of that append. */
  lemma OpenedLogIsHistory(env: Env, capacity: nat, created: nat, ops: seq<Op>, k: Key)
    requires SUPERBLOCK_SIZE <= capacity < U32 && OpsGood(env, ops)
    requires var st := OpenWal(env, map[], {}, capacity, created);
             st.capacity == capacity && Run(env, st, ops).nextId < MAX_SEGMENTS
    ensures var r := Run(env, OpenWal(env, map[], {}, capacity, created), ops);
            && (k in r.pending <==> exists i: nat :: LastStored(capacity, ops, i, k) && Unmarked(capacity, ops, i, k))
            && forall i: nat :: LastStored(capacity, ops, i, k) && Unmarked(capacity, ops, i, k) ==>
                 && k in r.pending
                 && ReadData(r, r.pending[k]) == Some(ops[i].needle.data)
                 && ReadMetaBytes(r, r.pending[k]) == Some(ops[i].needle.meta)
  {
    hide Inv, Run, MapRun, ReadData, ReadMetaBytes, OpenWal, Stores;
    var st := OpenWal(env, map[], {}, capacity, created);
    var log := OpenedEmpty(env, capacity, created);
    WalRefinesMap(env, st, log, map[], ops);
    PendingIffUnmarked(capacity, ops, k);
    if i: nat :| Unmarked(capacity, ops, i, k) {
      var last := LastAppend(capacity, ops, i, k);
    }
  }

  /** An append that is not marked later is followed by a last one, not marked either. */
  lemma {:induction false} LastAppend(capacity: nat, ops: seq<Op>, i: nat, k: Key) returns (last: nat)
    requires Unmarked(capacity, ops, i, k)
    ensures LastStored(capacity, ops, last, k) && Unmarked(capacity, ops, last, k)
    decreases |ops| - i
  {
    if j: nat :| i < j < |ops| && Stores(capacity, ops[j], k) {
      last := LastAppend(capacity, ops, j, k);
    } else {
      last := i;
    }
  }
}
