/** Cutting a body into blocks, blocks into padded pieces, and pieces into shards. */
module Striping {
  import opened ByteCodec
  import opened ReedSolomon

  /** Ceiling division, at least one byte per shard. */
  function ShardSize(n: nat, count: nat): (s: nat)
    requires count >= 1
    ensures s >= 1 && n <= count * s
  {
    var q := (n + count - 1) / count;
    CeilCovers(n, count);
    if q == 0 then 1 else q
  }

  /** Shards are as short as they can be: one byte, or a byte less would not hold the data. */
  lemma ShardSizeIsLeast(n: nat, count: nat)
    requires count >= 1
    ensures var s := ShardSize(n, count); n <= count * s && (s == 1 || count * (s - 1) < n)
  {
    var q := (n + count - 1) / count;
    if q >= 1 {
      assert q * count <= n + count - 1;
      assert count * (q - 1) == q * count - count;
    }
  }

  lemma CeilCovers(n: nat, count: nat)
    requires count >= 1
    ensures n <= count * ((n + count - 1) / count)
  {
    var x := n + count - 1;
    assert x == count * (x / count) + x % count;
  }

  function Pad(b: bytes, n: nat): (r: bytes)
    requires |b| <= n
    ensures |r| == n
  {
    b + Zeros(n - |b|)
  }

  /** `count` pieces of `size` bytes from the front of `data`, the tail padded with zeros. */
  function Pieces(data: bytes, count: nat, size: nat): (r: seq<bytes>)
    ensures Uniform(r, count, size)
  {
    if count == 0 then []
    else
      var n := Min(size, |data|);
      [Pad(data[..n], size)] + Pieces(data[n..], count - 1, size)
  }

  function Split(data: bytes, count: nat): (r: seq<bytes>)
    requires count >= 1
    ensures Uniform(r, count, ShardSize(|data|, count))
  {
    Pieces(data, count, ShardSize(|data|, count))
  }

  /** The `i`-th piece, by its start offset, as the loop computes it. */
  function PieceAt(data: bytes, start: nat, size: nat): (r: bytes)
    ensures |r| == size
  {
    if start >= |data| then Zeros(size)
    else Pad(data[start..Min(start + size, |data|)], size)
  }

  lemma {:induction false} PiecesAt(data: bytes, count: nat, size: nat, i: nat)
    requires i < count
    ensures Pieces(data, count, size)[i] == PieceAt(data, i * size, size)
  {
    hide PieceAt, Pad;
    if i == 0 {
      FirstPiece(data, size);
    } else {
      var rest := data[Min(size, |data|)..];
      Distribute(i, size);
      calc {
        Pieces(data, count, size)[i];
        Pieces(rest, count - 1, size)[i - 1];
        { PiecesAt(rest, count - 1, size, i - 1); }
        PieceAt(rest, (i - 1) * size, size);
        { PieceShift(data, (i - 1) * size, size); }
        PieceAt(data, i * size, size);
      }
    }
  }

  lemma FirstPiece(data: bytes, size: nat)
    ensures PieceAt(data, 0, size) == Pad(data[..Min(size, |data|)], size)
  {
    if |data| == 0 {
      assert [] + Zeros(size) == Zeros(size);
    }
  }

  lemma PieceShift(data: bytes, start: nat, size: nat)
    ensures PieceAt(data[Min(size, |data|)..], start, size) == PieceAt(data, start + size, size)
  {
    var n := Min(size, |data|);
    if start < |data| - n {
      DropSlice(data, n, start, Min(start + size, |data| - n));
    }
  }

  /** Copy one piece and pad it; behind the end of the data it is all zeros. */
  method CutPiece(data: bytes, start: nat, size: nat) returns (shard: bytes)
    ensures shard == PieceAt(data, start, size)
  {
    if start >= |data| { return Zeros(size); }
    var end := Min(start + size, |data|);
    shard := data[start..end];
    shard := shard + Zeros(size - |shard|);
  }

  /** Split into shards, in the loop of the source. */
  method SplitData(data: bytes, count: nat) returns (shards: seq<bytes>)
    requires count >= 1
    ensures shards == Split(data, count)
  {
    hide Pieces, ShardSize, PieceAt;
    var shardSize := ShardSize(|data|, count);
    shards := [];
    for i := 0 to count
      invariant |shards| == i
      invariant forall j :: 0 <= j < i ==> shards[j] == Split(data, count)[j]
    {
      var shard := CutPiece(data, i * shardSize, shardSize);
      PiecesAt(data, count, shardSize, i);
      shards := shards + [shard];
    }
  }

  /** Joining the pieces and cutting the padding gives the data back. */
  lemma {:induction false} JoinPieces(data: bytes, count: nat, size: nat)
    requires |data| <= count * size
    ensures |Flatten(Pieces(data, count, size))| >= |data|
    ensures Flatten(Pieces(data, count, size))[..|data|] == data
  {
    if count > 0 {
      var n := Min(size, |data|);
      Distribute(count, size);
      JoinPieces(data[n..], count - 1, size);
      JoinStep(data, n, size, Pieces(data[n..], count - 1, size));
    }
  }

  lemma Distribute(count: nat, size: nat)
    requires count > 0
    ensures (count - 1) * size + size == count * size && (count - 1) * size >= 0
  {
  }

  lemma JoinStep(data: bytes, n: nat, size: nat, rest: seq<bytes>)
    requires n == Min(size, |data|)
    requires |Flatten(rest)| >= |data| - n && Flatten(rest)[..|data| - n] == data[n..]
    ensures var all := Flatten([Pad(data[..n], size)] + rest);
            |all| >= |data| && all[..|data|] == data
  {
    var head := Pad(data[..n], size);
    assert ([head] + rest)[1..] == rest;
    TakeConcat(head, Flatten(rest), |data|);
    if |data| > size {
      assert head == data[..n] + [] == data[..n];
      assert data == data[..n] + data[n..];
    } else {
      assert head[..|data|] == data;
    }
  }

  lemma JoinSplit(data: bytes, count: nat)
    requires count >= 1
    ensures |Flatten(Split(data, count))| >= |data|
    ensures Flatten(Split(data, count))[..|data|] == data
  {
    JoinPieces(data, count, ShardSize(|data|, count));
  }

  // Blocks

  /** The shards of one block; with no parity the pieces themselves. */
  function EncodeBlock(code: Code, d: nat, p: nat, block: bytes): (r: seq<bytes>)
    requires d >= 1
  {
    if p == 0 then Split(block, d) else code.encode(d, p, Split(block, d))
  }

  /** A shape the coder accepts: some data, and the library's laws when there is parity. */
  ghost predicate Shape(code: Code, d: nat, p: nat)
  {
    d >= 1 && (p >= 1 ==> Lawful(code, d, p))
  }

  lemma BlockUniform(code: Code, d: nat, p: nat, block: bytes)
    requires Shape(code, d, p)
    ensures Uniform(EncodeBlock(code, d, p, block), d + p, ShardSize(|block|, d))
    ensures EncodeBlock(code, d, p, block)[..d] == Split(block, d)
  {
    hide Lawful;
    if p >= 1 {
      EncodeLaw(code, d, p, Split(block, d), ShardSize(|block|, d));
    }
  }

  /** How many shards must be stored for a write to be acknowledged. */
  function WriteQuorumOf(d: nat, p: nat): (q: nat)
  {
    if p == 0 then d else d + 1
  }

  function Empties(n: nat): (r: seq<bytes>)
    ensures Uniform(r, n, 0)
  {
    seq(n, _ => [])
  }

  /** Append one piece to every shard. */
  function Extend(shards: seq<bytes>, pieces: seq<bytes>): (r: seq<bytes>)
    ensures |shards| == |pieces| ==> |r| == |shards|
  {
    if |shards| == |pieces| then Zip(shards, pieces) else shards
  }

  /** What each shard holds of a body written in blocks of at most `b` bytes. */
  function Stripe(code: Code, d: nat, p: nat, b: nat, body: bytes): (r: seq<bytes>)
    requires d >= 1 && b >= 1
    decreases |body|
  {
    if body == [] then Empties(d + p)
    else
      var n := Min(b, |body|);
      Extend(EncodeBlock(code, d, p, body[..n]), Stripe(code, d, p, b, body[n..]))
  }

  lemma {:induction false} StripeLength(code: Code, d: nat, p: nat, b: nat, body: bytes)
    requires Shape(code, d, p) && b >= 1
    ensures |Stripe(code, d, p, b, body)| == d + p
    decreases |body|
  {
    hide Lawful;
    if body != [] {
      var n := Min(b, |body|);
      StripeLength(code, d, p, b, body[n..]);
      BlockUniform(code, d, p, body[..n]);
    }
  }

  lemma ZipEmpty(a: seq<bytes>)
    ensures Zip(a, Empties(|a|)) == a && Zip(Empties(|a|), a) == a
  {
    forall i | 0 <= i < |a|
      ensures a[i] + Empties(|a|)[i] == a[i] && Empties(|a|)[i] + a[i] == a[i]
    {
    }
  }

  lemma ZipAssoc(a: seq<bytes>, b: seq<bytes>, c: seq<bytes>)
    requires |a| == |b| == |c|
    ensures Zip(Zip(a, b), c) == Zip(a, Zip(b, c))
  {
    forall i | 0 <= i < |a|
      ensures Zip(Zip(a, b), c)[i] == Zip(a, Zip(b, c))[i]
    {
      Assoc(a[i], b[i], c[i]);
    }
  }

  /** `n` is a whole number of blocks. */
  ghost predicate Whole(n: nat, b: nat)
    requires b >= 1
  {
    n == 0 || (n >= b && Whole(n - b, b))
  }

  /** Whole blocks first: writing one more block extends every shard by that block's piece. */
  lemma {:induction false} StripeSnoc(code: Code, d: nat, p: nat, b: nat, body: bytes, block: bytes)
    requires Shape(code, d, p) && b >= 1
    requires Whole(|body|, b) && 1 <= |block| <= b
    ensures Stripe(code, d, p, b, body + block) == Extend(Stripe(code, d, p, b, body), EncodeBlock(code, d, p, block))
    decreases |body|
  {
    hide Lawful, EncodeBlock;
    BlockUniform(code, d, p, block);
    var last := EncodeBlock(code, d, p, block);
    if body == [] {
      assert body + block == block;
      assert block[..Min(b, |block|)] == block && block[|block|..] == [];
      ZipEmpty(last);
    } else {
      var head, rest := body[..b], body[b..];
      BlockUniform(code, d, p, head);
      StripeSnoc(code, d, p, b, rest, block);
      StripeLength(code, d, p, b, rest);
      assert (body + block)[..b] == head && (body + block)[b..] == rest + block;
      ZipAssoc(EncodeBlock(code, d, p, head), Stripe(code, d, p, b, rest), last);
    }
  }

  /** One block through splitter, coder and writers. */
  method WriteBlock(code: Code, d: nat, p: nat, block: bytes, writers: seq<bytes>) returns (out: seq<bytes>)
    requires d >= 1 && |writers| == |EncodeBlock(code, d, p, block)|
    ensures out == Zip(writers, EncodeBlock(code, d, p, block))
  {
    var shardBufs := SplitData(block, d);
    if p > 0 {
      shardBufs := code.encode(d, p, shardBufs);
    }
    out := writers;
    for i := 0 to |writers|
      invariant |out| == |writers|
      invariant forall j :: 0 <= j < i ==> out[j] == writers[j] + shardBufs[j]
      invariant forall j :: i <= j < |writers| ==> out[j] == writers[j]
    {
      out := out[i := out[i] + shardBufs[i]];
    }
  }

  /** Write every full block at the front of the buffer, keeping the rest. */
  method DrainBlocks(code: Code, d: nat, p: nat, b: nat, buffered: bytes, into: seq<bytes>, ghost done: bytes)
    returns (writers: seq<bytes>, blockBuf: bytes, ghost done': bytes)
    requires Shape(code, d, p) && b >= 1
    requires Whole(|done|, b) && into == Stripe(code, d, p, b, done)
    ensures Whole(|done'|, b) && writers == Stripe(code, d, p, b, done')
    ensures done' + blockBuf == done + buffered && |blockBuf| < b
  {
    hide Lawful, EncodeBlock, Stripe;
    writers, blockBuf, done' := into, buffered, done;
    while |blockBuf| >= b
      invariant done' + blockBuf == done + buffered
      invariant Whole(|done'|, b) && writers == Stripe(code, d, p, b, done')
      decreases |blockBuf|
    {
      var block, rest := blockBuf[..b], blockBuf[b..];
      StripeLength(code, d, p, b, done');
      BlockUniform(code, d, p, block);
      StripeSnoc(code, d, p, b, done', block);
      writers := WriteBlock(code, d, p, block, writers);
      assert blockBuf == block + rest;
      Assoc(done', block, rest);
      blockBuf, done' := rest, done' + block;
    }
  }

  /** Stream a body that arrives in arbitrary chunks: buffer it, write every full block, then
      the partial one. Whatever the chunking, the shards are those of the whole body. */
  method EncodeStream(code: Code, d: nat, p: nat, b: nat,
                      chunks: seq<bytes>) returns (writers: seq<bytes>, totalSize: nat)
    requires Shape(code, d, p) && b >= 1
    ensures writers == Stripe(code, d, p, b, Flatten(chunks))
    ensures totalSize == |Flatten(chunks)|
  {
    hide Lawful, EncodeBlock;
    writers, totalSize := Empties(d + p), 0;
    var blockBuf: bytes := [];
    ghost var done: bytes := [];
    for i := 0 to |chunks|
      invariant Flatten(chunks[..i]) == done + blockBuf
      invariant totalSize == |Flatten(chunks[..i])|
      invariant Whole(|done|, b) && |blockBuf| < b
      invariant writers == Stripe(code, d, p, b, done)
    {
      hide Stripe;
      totalSize := totalSize + |chunks[i]|;
      assert chunks[..i + 1] == chunks[..i] + [chunks[i]];
      FlattenSnoc(chunks[..i], chunks[i]);
      Assoc(done, blockBuf, chunks[i]);
      writers, blockBuf, done := DrainBlocks(code, d, p, b, blockBuf + chunks[i], writers, done);
    }
    assert chunks[..|chunks|] == chunks;
    if blockBuf != [] {
      StripeLength(code, d, p, b, done);
      BlockUniform(code, d, p, blockBuf);
      StripeSnoc(code, d, p, b, done, blockBuf);
      writers := WriteBlock(code, d, p, blockBuf, writers);
    } else {
      assert done + [] == done;
    }
  }
}
