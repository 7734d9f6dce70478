/** Reading an object back from its shards: the streaming decoder with its zero-copy fast
    path and its reconstructing slow path, and the decoder that buffers whole shards. */
module Decoder {
  import opened ByteCodec
  import opened Metadata
  import opened ReedSolomon
  import opened Striping

  datatype DecodeError = ObjectNotFound | ReadQuorum

  /** What one disk returned for the key: nothing, or shard bytes and their metadata. */
  type ShardRead = Option<(bytes, ObjectMeta)>

  function Truncate(b: bytes, n: nat): (r: bytes)
  {
    if n <= |b| then b[..n] else b
  }

  /** The next chunk of a shard at the read offset, short at its end, absent behind it. */
  function ChunkAt(shard: Option<bytes>, off: nat, chunk: nat): (r: Option<bytes>)
  {
    if shard.Some? && off < |shard.value| then Some(shard.value[off..Min(off + chunk, |shard.value|)]) else None
  }

  function ChunksAt(slots: seq<Option<bytes>>, off: nat, chunk: nat): (r: seq<Option<bytes>>)
    ensures |r| == |slots|
    ensures forall i :: 0 <= i < |slots| ==> r[i] == ChunkAt(slots[i], off, chunk)
  {
    seq(|slots|, i requires 0 <= i < |slots| => ChunkAt(slots[i], off, chunk))
  }

  /** Concatenate the slots that are filled. */
  function JoinFilled(slots: seq<Option<bytes>>): (r: bytes)
  {
    if slots == [] then []
    else (if slots[0].Some? then slots[0].value else []) + JoinFilled(slots[1..])
  }

  function AsFilled(shards: seq<bytes>): (r: seq<Option<bytes>>)
    ensures |r| == |shards|
    ensures forall i :: 0 <= i < |shards| ==> r[i] == Some(shards[i])
  {
    seq(|shards|, i requires 0 <= i < |shards| => Some(shards[i]))
  }

  /** Fill the missing slots, if there is parity. */
  function Repair(code: Code, d: nat, p: nat, slots: seq<Option<bytes>>): (r: Option<seq<Option<bytes>>>)
  {
    if p == 0 then Some(slots)
    else match code.reconstruct(d, p, slots)
      case None => None
      case Some(full) => Some(AsFilled(full))
  }

  function Reassemble(slots: seq<Option<bytes>>, d: nat, size: nat): (r: bytes)
  {
    Truncate(JoinFilled(slots[..Min(d, |slots|)]), size)
  }

  /** All data shards still have bytes at the offset. */
  predicate DataReady(slots: seq<Option<bytes>>, d: nat, off: nat)
    requires d <= |slots|
  {
    forall i :: 0 <= i < d ==> slots[i].Some? && off < |slots[i].value|
  }

  /** One block: with all data shards at hand reassemble them, otherwise reconstruct first. */
  function BlockBytes(code: Code, d: nat, p: nat, slots: seq<Option<bytes>>, off: nat,
                      blockSize: nat): (r: Option<bytes>)
    requires 1 <= d <= |slots|
  {
    var chunks := ChunksAt(slots, off, ShardSize(blockSize, d));
    if DataReady(slots, d, off) then Some(Reassemble(chunks, d, blockSize))
    else if CountSome(chunks) < d then None
    else match Repair(code, d, p, chunks)
      case None => None
      case Some(full) => Some(Reassemble(full, d, blockSize))
  }

  /** The bytes emitted from an offset on, and whether decoding failed before the end. */
  function DecodeFrom(code: Code, d: nat, p: nat, b: nat, slots: seq<Option<bytes>>, off: nat,
                      remaining: nat): (r: (bytes, bool))
    requires 1 <= d <= |slots| && b >= 1
    decreases remaining
  {
    if remaining == 0 then ([], false)
    else
      var blockSize := Min(remaining, b);
      match BlockBytes(code, d, p, slots, off, blockSize)
      case None => ([], true)
      case Some(x) =>
        var rest := DecodeFrom(code, d, p, b, slots, off + ShardSize(blockSize, d), remaining - blockSize);
        (x + rest.0, rest.1)
  }

  lemma {:induction false} JoinAppend(a: seq<Option<bytes>>, x: Option<bytes>)
    ensures JoinFilled(a + [x]) == JoinFilled(a) + (if x.Some? then x.value else [])
  {
    if a == [] {
      assert ([] + [x])[1..] == [];
    } else {
      var h := if a[0].Some? then a[0].value else [];
      JoinAppend(a[1..], x);
      assert (a + [x])[0] == a[0] && (a + [x])[1..] == a[1..] + [x];
      Assoc(h, JoinFilled(a[1..]), if x.Some? then x.value else []);
    }
  }

  lemma {:induction false} JoinIsFlatten(shards: seq<bytes>)
    ensures JoinFilled(AsFilled(shards)) == Flatten(shards)
  {
    if shards != [] {
      JoinIsFlatten(shards[1..]);
      assert AsFilled(shards)[1..] == AsFilled(shards[1..]);
    }
  }

  lemma TruncateMore(a: bytes, x: bytes, n: nat)
    ensures Truncate(a + x, n) == Truncate(a, n) + Truncate(x, n - |Truncate(a, n)|)
  {
    if n <= |a| {
      assert (a + x)[..n] == a[..n];
      assert a[..n] + [] == a[..n];
    } else if n <= |a| + |x| {
      assert (a + x)[..n] == a + x[..n - |a|];
    }
  }

  lemma {:induction false} JoinPrefix(slots: seq<Option<bytes>>, i: nat, n: nat)
    requires i <= |slots| && |JoinFilled(slots[..i])| >= n
    ensures Truncate(JoinFilled(slots), n) == Truncate(JoinFilled(slots[..i]), n)
    decreases |slots| - i
  {
    if i < |slots| {
      assert slots[..i + 1] == slots[..i] + [slots[i]];
      JoinAppend(slots[..i], slots[i]);
      TruncateMore(JoinFilled(slots[..i]), if slots[i].Some? then slots[i].value else [], n);
      JoinPrefix(slots, i + 1, n);
    } else {
      assert slots[..i] == slots;
    }
  }

  /** The fast path hands out slices of the shards, without copying, until the block is
      complete. It emits what reassembling the chunks and cutting the padding would give,
      for shards of any content and length. */
  method FastBlock(slots: seq<Option<bytes>>, d: nat, off: nat, chunk: nat, blockSize: nat) returns (out: seq<bytes>)
    requires d <= |slots| && DataReady(slots, d, off) && chunk >= 1
    ensures Flatten(out) == Reassemble(ChunksAt(slots, off, chunk), d, blockSize)
  {
    out := [];
    var sent := 0;
    ghost var chunks := ChunksAt(slots, off, chunk)[..d];
    for i := 0 to d
      invariant Flatten(out) == Truncate(JoinFilled(chunks[..i]), blockSize)
      invariant sent == |Flatten(out)|
    {
      var shard := slots[i].value;
      var end := Min(off + chunk, |shard|);
      var take := Min(end - off, blockSize - sent);
      if take == 0 {
        JoinPrefix(chunks, i, blockSize);
        return;
      }
      var slice := shard[off..off + take];
      assert chunks[..i + 1] == chunks[..i] + [chunks[i]];
      JoinAppend(chunks[..i], chunks[i]);
      TruncateMore(JoinFilled(chunks[..i]), chunks[i].value, blockSize);
      assert Truncate(chunks[i].value, blockSize - sent) == slice by { SliceTake(shard, off, end, take); }
      FlattenSnoc(out, slice);
      out := out + [slice];
      sent := sent + take;
    }
    assert chunks[..d] == chunks;
  }

  lemma SliceTake(shard: bytes, off: nat, end: nat, take: nat)
    requires off <= end <= |shard| && take <= end - off
    ensures shard[off..end][..take] == shard[off..off + take]
  {
  }

  /** The slow path collects the chunks there are, reconstructs, and reassembles. */
  method SlowBlock(code: Code, d: nat, p: nat, slots: seq<Option<bytes>>, off: nat,
                   blockSize: nat) returns (r: Option<bytes>)
    requires 1 <= d <= |slots| && !DataReady(slots, d, off)
    ensures r == BlockBytes(code, d, p, slots, off, blockSize)
  {
    hide ShardSize;
    var chunk := ShardSize(blockSize, d);
    var shardSlots: seq<Option<bytes>> := [];
    for i := 0 to |slots|
      invariant shardSlots == ChunksAt(slots, off, chunk)[..i]
    {
      var slot := None;
      if slots[i].Some? {
        var end := Min(off + chunk, |slots[i].value|);
        if off < |slots[i].value| && end > off {
          slot := Some(slots[i].value[off..end]);
        }
      }
      shardSlots := shardSlots + [slot];
    }
    assert shardSlots == ChunksAt(slots, off, chunk);
    if CountSome(shardSlots) < d { return None; }
    if p > 0 {
      var full := code.reconstruct(d, p, shardSlots);
      if full == None { return None; }
      shardSlots := AsFilled(full.value);
    }
    var blockData := [];
    var n := Min(d, |shardSlots|);
    for i := 0 to n
      invariant blockData == JoinFilled(shardSlots[..i])
    {
      assert shardSlots[..i + 1] == shardSlots[..i] + [shardSlots[i]];
      JoinAppend(shardSlots[..i], shardSlots[i]);
      if shardSlots[i].Some? {
        blockData := blockData + shardSlots[i].value;
      } else {
        assert blockData + [] == blockData;
      }
    }
    r := Some(Truncate(blockData, blockSize));
  }

  /** The block loop of the streaming decoder. */
  method DecodeStream(code: Code, d: nat, p: nat, b: nat, slots: seq<Option<bytes>>, originalSize: nat)
    returns (out: seq<bytes>, failed: bool)
    requires 1 <= d <= |slots| && b >= 1
    ensures (Flatten(out), failed) == DecodeFrom(code, d, p, b, slots, 0, originalSize)
  {
    hide BlockBytes, ShardSize;
    out, failed := [], false;
    var remaining: nat, shardReadOffset: nat := originalSize, 0;
    ghost var whole := DecodeFrom(code, d, p, b, slots, 0, originalSize);
    assert [] + whole.0 == whole.0;
    while remaining > 0
      invariant !failed
      invariant var rest := DecodeFrom(code, d, p, b, slots, shardReadOffset, remaining);
                whole == (Flatten(out) + rest.0, rest.1)
      decreases remaining
    {
      var blockSize := Min(remaining, b);
      var chunk := ShardSize(blockSize, d);
      ghost var rest := DecodeFrom(code, d, p, b, slots, shardReadOffset + chunk, remaining - blockSize);
      var emitted: seq<bytes>;
      if DataReady(slots, d, shardReadOffset) {
        emitted := FastBlock(slots, d, shardReadOffset, chunk, blockSize);
        ReadyBlock(code, d, p, slots, shardReadOffset, blockSize);
      } else {
        var block := SlowBlock(code, d, p, slots, shardReadOffset, blockSize);
        if block == None {
          failed := true;
          assert Flatten(out) + [] == Flatten(out);
          return;
        }
        emitted := [block.value];
        assert Flatten(emitted) == block.value + Flatten([]) == block.value;
      }
      FlattenAppend(out, emitted);
      Assoc(Flatten(out), Flatten(emitted), rest.0);
      out := out + emitted;
      shardReadOffset := shardReadOffset + chunk;
      remaining := remaining - blockSize;
    }
    assert Flatten(out) + [] == Flatten(out);
  }

  lemma ReadyBlock(code: Code, d: nat, p: nat, slots: seq<Option<bytes>>, off: nat, blockSize: nat)
    requires 1 <= d <= |slots| && DataReady(slots, d, off)
    ensures BlockBytes(code, d, p, slots, off, blockSize)
            == Some(Reassemble(ChunksAt(slots, off, ShardSize(blockSize, d)), d, blockSize))
  {
    hide Reassemble, ShardSize;
  }

  // Round trip

  /** From `off` on, every slot there is holds its shard of `shards`. */
  ghost predicate AgreesFrom(slots: seq<Option<bytes>>, off: nat, shards: seq<bytes>)
  {
    && |slots| == |shards|
    && forall i :: 0 <= i < |slots| && slots[i].Some? ==>
         off <= |slots[i].value| && slots[i].value[off..] == shards[i]
  }

  lemma ChunkOfPiece(shard: bytes, off: nat, piece: bytes, rest: bytes)
    requires off <= |shard| && shard[off..] == piece + rest && |piece| >= 1
    ensures ChunkAt(Some(shard), off, |piece|) == Some(piece)
    ensures off + |piece| <= |shard| && shard[off + |piece|..] == rest
  {
    var t := shard[off..];
    assert |t| == |shard| - off;
    assert shard[off..off + |piece|] == t[..|piece|];
    assert shard[off + |piece|..] == t[|piece|..];
  }

  /** The chunks at the offset are the pieces of the next block, in the same slots. */
  lemma {:induction false} ChunksArePieces(slots: seq<Option<bytes>>, off: nat, pieces: seq<bytes>, rest: seq<bytes>,
                                           len: nat)
    requires Uniform(pieces, |slots|, len) && len >= 1 && |rest| == |slots|
    requires AgreesFrom(slots, off, Zip(pieces, rest))
    ensures Agrees(ChunksAt(slots, off, len), pieces)
    ensures forall i :: 0 <= i < |slots| ==> (ChunksAt(slots, off, len)[i].Some? <==> slots[i].Some?)
    ensures AgreesFrom(slots, off + len, rest)
    ensures forall i :: 0 <= i < |slots| && slots[i].Some? ==> off < |slots[i].value|
  {
    forall i | 0 <= i < |slots| && slots[i].Some?
      ensures ChunksAt(slots, off, len)[i] == Some(pieces[i])
      ensures off + len <= |slots[i].value| && slots[i].value[off + len..] == rest[i]
    {
      ChunkOfPiece(slots[i].value, off, pieces[i], rest[i]);
    }
  }

  lemma {:induction false} SameFilledCount<T>(a: seq<Option<T>>, b: seq<Option<T>>)
    requires |a| == |b| && forall i :: 0 <= i < |a| ==> (a[i].Some? <==> b[i].Some?)
    ensures CountSome(a) == CountSome(b)
  {
    if a != [] {
      assert forall i :: 0 <= i < |a| - 1 ==> a[1..][i] == a[i + 1] && b[1..][i] == b[i + 1];
      SameFilledCount(a[1..], b[1..]);
    }
  }

  /** Reassembling the data pieces of a block gives the block. */
  lemma ReassembleBlock(chunks: seq<Option<bytes>>, d: nat, block: bytes)
    requires 1 <= d <= |chunks|
    requires forall i :: 0 <= i < d ==> chunks[i] == Some(Split(block, d)[i])
    ensures Reassemble(chunks, d, |block|) == block
  {
    hide Pieces, ShardSize;
    assert chunks[..d] == AsFilled(Split(block, d));
    JoinIsFlatten(Split(block, d));
    JoinSplit(block, d);
  }

  /** Decoder correctness for one block: from any `d` shards, on either path. */
  lemma BlockRoundTrip(code: Code, d: nat, p: nat, slots: seq<Option<bytes>>, off: nat, block: bytes, rest: seq<bytes>)
    requires Shape(code, d, p) && |slots| == d + p == |rest|
    requires |EncodeBlock(code, d, p, block)| == d + p
    requires AgreesFrom(slots, off, Zip(EncodeBlock(code, d, p, block), rest))
    requires CountSome(slots) >= d
    ensures BlockBytes(code, d, p, slots, off, |block|) == Some(block)
  {
    hide Lawful, Reassemble, EncodeBlock, Split;
    var pieces, len := EncodeBlock(code, d, p, block), ShardSize(|block|, d);
    BlockUniform(code, d, p, block);
    ChunksArePieces(slots, off, pieces, rest, len);
    var chunks := ChunksAt(slots, off, len);
    SameFilledCount(chunks, slots);
    forall i | 0 <= i < d
      ensures pieces[i] == Split(block, d)[i]
    {
      assert pieces[i] == pieces[..d][i];
    }
    if DataReady(slots, d, off) {
      ReassembleBlock(chunks, d, block);
    } else if p == 0 {
      CountAll(slots);
      assert false;
    } else {
      assert pieces == code.encode(d, p, Split(block, d)) by { EncodedPieces(code, d, p, block); }
      ReconstructLaw(code, d, p, Split(block, d), len, chunks);
      ReassembleBlock(AsFilled(pieces), d, block);
    }
  }

  lemma EncodedPieces(code: Code, d: nat, p: nat, block: bytes)
    requires d >= 1 && p >= 1
    ensures EncodeBlock(code, d, p, block) == code.encode(d, p, Split(block, d))
  {
  }

  /** The streaming decoder emits exactly the body, whichever shards are missing, as long as
      `d` are left. */
  lemma {:induction false} StreamRoundTrip(code: Code, d: nat, p: nat, b: nat, slots: seq<Option<bytes>>, off: nat,
                                           body: bytes)
    requires Shape(code, d, p) && b >= 1 && |slots| == d + p
    requires AgreesFrom(slots, off, Stripe(code, d, p, b, body))
    requires CountSome(slots) >= d
    ensures DecodeFrom(code, d, p, b, slots, off, |body|) == (body, false)
    decreases |body|
  {
    hide Lawful, BlockBytes, EncodeBlock;
    if body != [] {
      var n := Min(b, |body|);
      var block, tail := body[..n], body[n..];
      var pieces, rest := EncodeBlock(code, d, p, block), Stripe(code, d, p, b, tail);
      BlockUniform(code, d, p, block);
      StripeLength(code, d, p, b, tail);
      BlockRoundTrip(code, d, p, slots, off, block, rest);
      ChunksArePieces(slots, off, pieces, rest, ShardSize(n, d));
      StreamRoundTrip(code, d, p, b, slots, off + ShardSize(n, d), tail);
      assert block + tail == body;
    }
  }

  // Placing the replies in their slots

  /** A read that counts: bytes that pass the checksum, and an index inside the stripe. */
  predicate Usable(verify: (bytes, string) -> bool, total: nat, read: ShardRead)
  {
    read.Some? && verify(read.value.0, read.value.1.checksum) && read.value.1.erasure.index < total
  }

  function Placed(verify: (bytes, string) -> bool, total: nat, replies: seq<ShardRead>): (slots: seq<Option<bytes>>)
    ensures |slots| == total
  {
    if replies == [] then seq(total, _ => None)
    else
      var slots := Placed(verify, total, replies[..|replies| - 1]);
      var read := replies[|replies| - 1];
      if Usable(verify, total, read) then slots[read.value.1.erasure.index := Some(read.value.0)] else slots
  }

  function FirstUsable(verify: (bytes, string) -> bool, total: nat, replies: seq<ShardRead>): (m: Option<ObjectMeta>)
  {
    if replies == [] then None
    else if Usable(verify, total, replies[0]) then Some(replies[0].value.1)
    else FirstUsable(verify, total, replies[1..])
  }

  method PlaceShards(verify: (bytes, string) -> bool, total: nat, replies: seq<ShardRead>)
    returns (slots: seq<Option<bytes>>, goodMeta: Option<ObjectMeta>)
    ensures slots == Placed(verify, total, replies)
    ensures goodMeta == FirstUsable(verify, total, replies)
  {
    slots := seq(total, _ => None);
    goodMeta := None;
    for i := 0 to |replies|
      invariant slots == Placed(verify, total, replies[..i])
      invariant goodMeta.None? ==> FirstUsable(verify, total, replies) == FirstUsable(verify, total, replies[i..])
      invariant goodMeta.Some? ==> goodMeta == FirstUsable(verify, total, replies)
    {
      assert replies[..i + 1][..i] == replies[..i];
      assert replies[i..][1..] == replies[i + 1..];
      if replies[i].Some? {
        var (data, meta) := replies[i].value;
        if verify(data, meta.checksum) && meta.erasure.index < total {
          if goodMeta == None { goodMeta := Some(meta); }
          slots := slots[meta.erasure.index := Some(data)];
        }
      }
    }
    assert replies[..|replies|] == replies;
  }

  /** The distinct shard indexes among the usable replies. */
  function UsableIndexes(verify: (bytes, string) -> bool, total: nat, replies: seq<ShardRead>): (r: set<nat>)
  {
    set i | 0 <= i < |replies| && Usable(verify, total, replies[i]) :: replies[i].value.1.erasure.index
  }

  /** Read `i` is usable and none before it is. */
  ghost predicate IsFirstUsable(verify: (bytes, string) -> bool, total: nat, replies: seq<ShardRead>, i: nat)
  {
    i < |replies| && Usable(verify, total, replies[i]) && forall j :: 0 <= j < i ==> !Usable(verify, total, replies[j])
  }

  /** The metadata that came with the first usable read. */
  ghost predicate OfFirstUsable(verify: (bytes, string) -> bool, total: nat, replies: seq<ShardRead>, m: ObjectMeta)
  {
    exists i: nat :: IsFirstUsable(verify, total, replies, i) && m == replies[i].value.1
  }

  /** All usable shards come from one write of a body of `size` bytes. */
  ghost predicate OneWrite(verify: (bytes, string) -> bool, replies: seq<ShardRead>, shards: seq<bytes>, size: nat)
  {
    forall i :: 0 <= i < |replies| && Usable(verify, |shards|, replies[i]) ==>
      replies[i].value.0 == shards[replies[i].value.1.erasure.index] && replies[i].value.1.size == size
  }

  function NothingRead(replies: seq<ShardRead>): (r: bool)
  {
    forall i :: 0 <= i < |replies| ==> replies[i].None?
  }

  /** The whole streaming read, with its output joined. */
  function DecodeObject(code: Code, verify: (bytes, string) -> bool, d: nat, p: nat, b: nat, replies: seq<ShardRead>)
    : (r: Result<(ObjectMeta, bytes, bool), DecodeError>)
    requires d >= 1 && b >= 1
  {
    if NothingRead(replies) then Err(ObjectNotFound)
    else
      var slots := Placed(verify, d + p, replies);
      match FirstUsable(verify, d + p, replies)
      case None => Err(ReadQuorum)
      case Some(meta) =>
        if CountSome(slots) < d then Err(ReadQuorum)
        else
          var (out, failed) := DecodeFrom(code, d, p, b, slots, 0, meta.size);
          Ok((meta, out, failed))
  }

  method ReadAndDecodeStream(code: Code, verify: (bytes, string) -> bool, d: nat, p: nat, b: nat,
                             replies: seq<ShardRead>)
    returns (r: Result<(ObjectMeta, bytes, bool), DecodeError>)
    requires d >= 1 && b >= 1
    ensures r == DecodeObject(code, verify, d, p, b, replies)
  {
    if forall i :: 0 <= i < |replies| ==> replies[i].None? { return Err(ObjectNotFound); }
    var slots, goodMeta := PlaceShards(verify, d + p, replies);
    if goodMeta == None { return Err(ReadQuorum); }
    if CountSome(slots) < d { return Err(ReadQuorum); }
    var out, failed := DecodeStream(code, d, p, b, slots, goodMeta.value.size);
    r := Ok((goodMeta.value, Flatten(out), failed));
  }

  lemma {:induction false} PlacedSlots(verify: (bytes, string) -> bool, total: nat, replies: seq<ShardRead>,
                                       shards: seq<bytes>, size: nat)
    requires |shards| == total && OneWrite(verify, replies, shards, size)
    ensures Agrees(Placed(verify, total, replies), shards)
    ensures forall j :: 0 <= j < total ==>
              (Placed(verify, total, replies)[j].Some? <==> j in UsableIndexes(verify, total, replies))
  {
    if replies != [] {
      var n := |replies| - 1;
      var front := replies[..n];
      forall i | 0 <= i < n && Usable(verify, total, front[i])
        ensures front[i].value.0 == shards[front[i].value.1.erasure.index] && front[i].value.1.size == size
      {
        assert front[i] == replies[i];
      }
      PlacedSlots(verify, total, front, shards, size);
      IndexesSnoc(verify, total, replies);
    }
  }

  lemma IndexesSnoc(verify: (bytes, string) -> bool, total: nat, replies: seq<ShardRead>)
    requires replies != []
    ensures var n := |replies| - 1;
            UsableIndexes(verify, total, replies)
            == UsableIndexes(verify, total, replies[..n])
               + if Usable(verify, total, replies[n]) then {replies[n].value.1.erasure.index} else {}
  {
    var n := |replies| - 1;
    assert forall i :: 0 <= i < n ==> replies[..n][i] == replies[i];
  }

  lemma {:induction false} CountIsSize<T>(slots: seq<Option<T>>, s: set<nat>)
    requires forall j :: j in s <==> 0 <= j < |slots| && slots[j].Some?
    ensures CountSome(slots) == |s|
  {
    if slots == [] {
      assert s == {};
    } else {
      var n := |slots| - 1;
      var t := s - {n};
      CountSnoc(slots[..n], slots[n]);
      assert slots == slots[..n] + [slots[n]];
      assert forall j :: 0 <= j < n ==> slots[..n][j] == slots[j];
      CountIsSize(slots[..n], t);
      if slots[n].Some? {
        assert s == t + {n};
      } else {
        assert s == t;
      }
    }
  }

  lemma {:induction false} CountSnoc<T>(slots: seq<Option<T>>, x: Option<T>)
    ensures CountSome(slots + [x]) == CountSome(slots) + if x.Some? then 1 else 0
  {
    if slots == [] {
      assert ([] + [x])[1..] == [];
    } else {
      CountSnoc(slots[1..], x);
      assert (slots + [x])[1..] == slots[1..] + [x];
    }
  }

  lemma {:induction false} FirstUsableMeta(verify: (bytes, string) -> bool, total: nat, replies: seq<ShardRead>)
    ensures FirstUsable(verify, total, replies).None? <==> UsableIndexes(verify, total, replies) == {}
    ensures FirstUsable(verify, total, replies).Some? ==>
              OfFirstUsable(verify, total, replies, FirstUsable(verify, total, replies).value)
  {
    if replies != [] {
      var rest := replies[1..];
      FirstUsableMeta(verify, total, rest);
      assert forall i :: 0 <= i < |rest| ==> rest[i] == replies[i + 1];
      if Usable(verify, total, replies[0]) {
        assert replies[0].value.1.erasure.index in UsableIndexes(verify, total, replies);
        assert IsFirstUsable(verify, total, replies, 0);
      } else {
        var first := FirstUsable(verify, total, rest);
        if i: nat :| IsFirstUsable(verify, total, rest, i) && first == Some(rest[i].value.1) {
          assert IsFirstUsable(verify, total, replies, i + 1);
        }
        forall x | x in UsableIndexes(verify, total, replies)
          ensures x in UsableIndexes(verify, total, rest)
        {
          var i :| 0 <= i < |replies| && Usable(verify, total, replies[i]) && replies[i].value.1.erasure.index == x;
          assert rest[i - 1] == replies[i];
        }
        forall x | x in UsableIndexes(verify, total, rest)
          ensures x in UsableIndexes(verify, total, replies)
        {
          var i :| 0 <= i < |rest| && Usable(verify, total, rest[i]) && rest[i].value.1.erasure.index == x;
          assert replies[i + 1] == rest[i];
        }
      }
    }
  }

  /** The whole read, in full: nothing found, too few distinct usable shards, or exactly the
      body that was written, from any shards that are left, with the metadata of the first
      usable one. */
  lemma ReadBack(code: Code, verify: (bytes, string) -> bool, d: nat, p: nat, b: nat, replies: seq<ShardRead>,
                 body: bytes)
    requires Shape(code, d, p) && b >= 1
    requires |Stripe(code, d, p, b, body)| == d + p
    requires OneWrite(verify, replies, Stripe(code, d, p, b, body), |body|)
    ensures var r := DecodeObject(code, verify, d, p, b, replies);
            if NothingRead(replies) then r == Err(ObjectNotFound)
            else if |UsableIndexes(verify, d + p, replies)| < d then r == Err(ReadQuorum)
            else r.Ok? && r.value.1 == body && !r.value.2 && OfFirstUsable(verify, d + p, replies, r.value.0)
  {
    hide Lawful, Stripe, DecodeFrom, Placed, FirstUsable, Usable, UsableIndexes;
    var shards := Stripe(code, d, p, b, body);
    PlacedSlots(verify, d + p, replies, shards, |body|);
    var slots := Placed(verify, d + p, replies);
    IndexesInRange(verify, d + p, replies);
    CountIsSize(slots, UsableIndexes(verify, d + p, replies));
    FirstUsableMeta(verify, d + p, replies);
    if CountSome(slots) >= d {
      forall i | 0 <= i < |slots| && slots[i].Some?
        ensures slots[i].value[0..] == shards[i]
      {
      }
      StreamRoundTrip(code, d, p, b, slots, 0, body);
    }
  }

  lemma IndexesInRange(verify: (bytes, string) -> bool, total: nat, replies: seq<ShardRead>)
    ensures forall j :: j in UsableIndexes(verify, total, replies) ==> j < total
  {
  }

  lemma NothingUsable(verify: (bytes, string) -> bool, total: nat, replies: seq<ShardRead>)
    requires NothingRead(replies)
    ensures UsableIndexes(verify, total, replies) == {}
  {
  }

  lemma PlacedCount(verify: (bytes, string) -> bool, total: nat, replies: seq<ShardRead>)
    ensures CountSome(Placed(verify, total, replies)) == |UsableIndexes(verify, total, replies)|
  {
    hide Placed, UsableIndexes, CountSome;
    PlacedWhere(verify, total, replies);
    IndexesInRange(verify, total, replies);
    CountIsSize(Placed(verify, total, replies), UsableIndexes(verify, total, replies));
  }

  lemma {:induction false} PlacedWhere(verify: (bytes, string) -> bool, total: nat, replies: seq<ShardRead>)
    ensures forall j :: 0 <= j < total ==>
              (Placed(verify, total, replies)[j].Some? <==> j in UsableIndexes(verify, total, replies))
  {
    if replies != [] {
      PlacedWhere(verify, total, replies[..|replies| - 1]);
      IndexesSnoc(verify, total, replies);
    }
  }

  /** What the streaming read answers, whatever the shards are. */
  lemma ReadOutcome(code: Code, verify: (bytes, string) -> bool, d: nat, p: nat, b: nat, replies: seq<ShardRead>)
    requires d >= 1 && b >= 1
    ensures var r, usable := DecodeObject(code, verify, d, p, b, replies), UsableIndexes(verify, d + p, replies);
            && (r == Err(ObjectNotFound) <==> NothingRead(replies))
            && (r.Ok? <==> |usable| >= d)
            && (r.Ok? ==> OfFirstUsable(verify, d + p, replies, r.value.0))
  {
    hide Usable, Placed, FirstUsable, DecodeFrom, UsableIndexes, OfFirstUsable;
    FirstUsableMeta(verify, d + p, replies);
    PlacedCount(verify, d + p, replies);
    if NothingRead(replies) {
      NothingUsable(verify, d + p, replies);
    }
  }
}
