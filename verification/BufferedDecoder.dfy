/** The decoder that reads whole shards, reconstructs them at once and joins them shard by
    shard; and exactly when that gives the same bytes as the streaming decoder. */
module BufferedDecoder {
  import opened ByteCodec
  import opened Metadata
  import opened ReedSolomon
  import opened Striping
  import opened Decoder

  /** Reconstruct whole shards if any is missing, join the data shards, cut to size. */
  function Buffered(code: Code, d: nat, p: nat, slots: seq<Option<bytes>>, size: nat): (r: Option<bytes>)
  {
    if p > 0 && CountSome(slots) < |slots| then
      match code.reconstruct(d, p, slots)
      case None => None
      case Some(full) => Some(Reassemble(AsFilled(full), d, size))
    else Some(Reassemble(slots, d, size))
  }

  function BufferedObject(code: Code, verify: (bytes, string) -> bool, d: nat, p: nat, replies: seq<ShardRead>)
    : (r: Result<(bytes, ObjectMeta), DecodeError>)
  {
    if NothingRead(replies) then Err(ObjectNotFound)
    else
      var slots := Placed(verify, d + p, replies);
      match FirstUsable(verify, d + p, replies)
      case None => Err(ReadQuorum)
      case Some(meta) =>
        if CountSome(slots) < d then Err(ReadQuorum)
        else match Buffered(code, d, p, slots, meta.size)
          case None => Err(ReadQuorum)
          case Some(body) => Ok((body, meta))
  }

  method ReadAndDecode(code: Code, verify: (bytes, string) -> bool, d: nat, p: nat, replies: seq<ShardRead>)
    returns (r: Result<(bytes, ObjectMeta), DecodeError>)
    ensures r == BufferedObject(code, verify, d, p, replies)
  {
    if forall i :: 0 <= i < |replies| ==> replies[i].None? { return Err(ObjectNotFound); }
    var slots, goodMeta := PlaceShards(verify, d + p, replies);
    if goodMeta == None { return Err(ReadQuorum); }
    var goodCount := CountSome(slots);
    if goodCount < d { return Err(ReadQuorum); }
    if p > 0 && goodCount < d + p {
      var full := code.reconstruct(d, p, slots);
      if full == None { return Err(ReadQuorum); }
      slots := AsFilled(full.value);
    }
    var result := [];
    var n := Min(d, |slots|);
    for i := 0 to n
      invariant result == JoinFilled(slots[..i])
    {
      assert slots[..i + 1] == slots[..i] + [slots[i]];
      JoinAppend(slots[..i], slots[i]);
      if slots[i].Some? {
        result := result + slots[i].value;
      } else {
        assert result + [] == result;
      }
    }
    r := Ok((Truncate(result, goodMeta.value.size), goodMeta.value));
  }

  /** What the buffered read answers, whatever the shards are: nothing found, too few of them
      usable or refused by the library, or a body with the metadata of the first usable one. */
  lemma BufferedOutcome(code: Code, verify: (bytes, string) -> bool, d: nat, p: nat, replies: seq<ShardRead>)
    requires d >= 1
    ensures var r, usable := BufferedObject(code, verify, d, p, replies), UsableIndexes(verify, d + p, replies);
            && (r == Err(ObjectNotFound) <==> NothingRead(replies))
            && (|usable| < d ==> r.Err?)
            && (r.Ok? ==> OfFirstUsable(verify, d + p, replies, r.value.1))
            && (p == 0 && |usable| >= d ==> r.Ok?)
  {
    hide Usable, Placed, FirstUsable, Reassemble, UsableIndexes, OfFirstUsable;
    FirstUsableMeta(verify, d + p, replies);
    PlacedCount(verify, d + p, replies);
    if NothingRead(replies) {
      NothingUsable(verify, d + p, replies);
    }
  }

  // Whole shards are code words

  function StripeLen(d: nat, b: nat, n: nat): (len: nat)
    requires d >= 1 && b >= 1
    ensures n > 0 ==> len >= 1
  {
    if n == 0 then 0 else ShardSize(Min(b, n), d) + StripeLen(d, b, n - Min(b, n))
  }

  /** The data shards of a body. */
  function DataStripe(code: Code, d: nat, b: nat, body: bytes): (r: seq<bytes>)
    requires d >= 1 && b >= 1
  {
    Stripe(code, d, 0, b, body)
  }

  lemma StripeOneBlock(code: Code, d: nat, p: nat, b: nat, body: bytes)
    requires Shape(code, d, p) && b >= 1 && 1 <= |body| <= b
    ensures Stripe(code, d, p, b, body) == EncodeBlock(code, d, p, body)
  {
    hide Lawful, EncodeBlock;
    assert body[..|body|] == body && body[|body|..] == [];
    BlockUniform(code, d, p, body);
    ZipEmpty(EncodeBlock(code, d, p, body));
  }

  lemma StripeBlocks(code: Code, d: nat, p: nat, b: nat, body: bytes)
    requires Shape(code, d, p) && b >= 1 && |body| > b
    ensures var head, tail := EncodeBlock(code, d, p, body[..b]), Stripe(code, d, p, b, body[b..]);
            |head| == |tail| == d + p && Stripe(code, d, p, b, body) == Zip(head, tail)
  {
    hide Lawful, EncodeBlock;
    BlockUniform(code, d, p, body[..b]);
    StripeLength(code, d, p, b, body[b..]);
  }

  lemma {:induction false} DataUniform(code: Code, d: nat, b: nat, body: bytes)
    requires d >= 1 && b >= 1
    ensures Uniform(DataStripe(code, d, b, body), d, StripeLen(d, b, |body|))
    decreases |body|
  {
    hide ShardSize, Pieces;
    if |body| > b {
      DataUniform(code, d, b, body[b..]);
      StripeBlocks(code, d, 0, b, body);
    } else if body != [] {
      StripeOneBlock(code, d, 0, b, body);
      assert StripeLen(d, b, 0) == 0;
    }
  }

  /** The shards of a whole body, over all its blocks, are one code word of its data shards. */
  lemma {:induction false} StripeIsCodeword(code: Code, d: nat, p: nat, b: nat, body: bytes)
    requires d >= 1 && b >= 1 && p >= 1 && Lawful(code, d, p) && body != []
    ensures Stripe(code, d, p, b, body) == code.encode(d, p, DataStripe(code, d, b, body))
    decreases |body|
  {
    hide Lawful, Stripe, Split;
    if |body| <= b {
      StripeOneBlock(code, d, p, b, body);
      StripeOneBlock(code, d, 0, b, body);
    } else {
      var block, tail := body[..b], body[b..];
      StripeBlocks(code, d, p, b, body);
      StripeBlocks(code, d, 0, b, body);
      StripeIsCodeword(code, d, p, b, tail);
      DataUniform(code, d, b, tail);
      ConcatLaw(code, d, p, Split(block, d), ShardSize(|block|, d), DataStripe(code, d, b, tail),
                StripeLen(d, b, |tail|));
    }
  }

  /** What joining whole data shards gives. */
  function Joined(code: Code, d: nat, b: nat, body: bytes): (r: bytes)
    requires d >= 1 && b >= 1
  {
    Truncate(Flatten(DataStripe(code, d, b, body)), |body|)
  }

  lemma StripeData(code: Code, d: nat, p: nat, b: nat, body: bytes)
    requires Shape(code, d, p) && b >= 1
    ensures |Stripe(code, d, p, b, body)| == d + p
    ensures Stripe(code, d, p, b, body)[..d] == DataStripe(code, d, b, body)
  {
    hide Lawful, Stripe;
    StripeLength(code, d, p, b, body);
    if body == [] {
      StripeNothing(code, d, p, b);
      StripeNothing(code, d, 0, b);
    } else if p >= 1 {
      StripeIsCodeword(code, d, p, b, body);
      DataUniform(code, d, b, body);
      EncodeLaw(code, d, p, DataStripe(code, d, b, body), StripeLen(d, b, |body|));
    } else {
      assert Stripe(code, d, p, b, body)[..d] == Stripe(code, d, p, b, body);
    }
  }

  lemma StripeNothing(code: Code, d: nat, p: nat, b: nat)
    requires d >= 1 && b >= 1
    ensures Stripe(code, d, p, b, []) == Empties(d + p)
  {
  }

  lemma FilledData(slots: seq<Option<bytes>>, data: seq<bytes>, d: nat, size: nat)
    requires d <= |slots| && |data| == d
    requires forall i :: 0 <= i < d ==> slots[i] == Some(data[i])
    ensures Reassemble(slots, d, size) == Truncate(Flatten(data), size)
  {
    assert slots[..d] == AsFilled(data);
    JoinIsFlatten(data);
  }

  /** From any `d` shards the buffered decoder returns the joined data shards, cut to size. Without
      bytes it needs them all. */
  lemma BufferedJoins(code: Code, d: nat, p: nat, b: nat, slots: seq<Option<bytes>>, body: bytes)
    requires Shape(code, d, p) && b >= 1 && (body == [] ==> CountSome(slots) == d + p)
    requires Agrees(slots, Stripe(code, d, p, b, body)) && CountSome(slots) >= d
    ensures Buffered(code, d, p, slots, |body|) == Some(Joined(code, d, b, body))
  {
    hide Lawful, Stripe, Reassemble;
    var shards, data := Stripe(code, d, p, b, body), DataStripe(code, d, b, body);
    StripeData(code, d, p, b, body);
    forall i | 0 <= i < d
      ensures shards[i] == data[i]
    {
      assert shards[..d][i] == shards[i];
    }
    if p > 0 && CountSome(slots) < |slots| {
      StripeIsCodeword(code, d, p, b, body);
      DataUniform(code, d, b, body);
      ReconstructLaw(code, d, p, data, StripeLen(d, b, |body|), slots);
      FilledData(AsFilled(shards), data, d, |body|);
    } else {
      CountAll(slots);
      FilledData(slots, data, d, |body|);
    }
  }

  // When joining gives the body

  /** With one data shard its bytes are the body. */
  lemma {:induction false} SingleShard(code: Code, b: nat, body: bytes)
    requires b >= 1
    ensures DataStripe(code, 1, b, body) == [body]
    decreases |body|
  {
    hide EncodeBlock;
    if body == [] {
    } else if |body| <= b {
      StripeOneBlock(code, 1, 0, b, body);
      SplitOne(code, body);
    } else {
      StripeBlocks(code, 1, 0, b, body);
      SingleShard(code, b, body[b..]);
      SplitOne(code, body[..b]);
      assert body[..b] + body[b..] == body;
    }
  }

  lemma SplitOne(code: Code, block: bytes)
    requires block != []
    ensures EncodeBlock(code, 1, 0, block) == [block]
  {
    assert ShardSize(|block|, 1) == |block|;
    assert block[..|block|] == block;
    assert Pad(block, |block|) == block + [] == block;
    assert Pieces([], 0, |block|) == [];
  }

  /** With blocks of one byte the first shard is the body, and the others are padding. */
  lemma {:induction false} ByteBlocks(code: Code, d: nat, body: bytes)
    requires d >= 1
    ensures |DataStripe(code, d, 1, body)| == d && DataStripe(code, d, 1, body)[0] == body
    decreases |body|
  {
    hide EncodeBlock;
    if body == [] {
    } else if |body| <= 1 {
      StripeOneBlock(code, d, 0, 1, body);
      ByteBlock(code, d, body);
    } else {
      StripeBlocks(code, d, 0, 1, body);
      ByteBlocks(code, d, body[1..]);
      ByteBlock(code, d, body[..1]);
      assert body[..1] + body[1..] == body;
    }
  }

  lemma ByteBlock(code: Code, d: nat, block: bytes)
    requires d >= 1 && |block| == 1
    ensures |EncodeBlock(code, d, 0, block)| == d && EncodeBlock(code, d, 0, block)[0] == block
  {
    CeilOne(d);
    assert block[..1] == block;
    assert Pad(block, 1) == block + [] == block;
  }

  lemma CeilOne(d: nat)
    requires d >= 1
    ensures ShardSize(1, d) == 1
  {
  }

  lemma JoinedWorks(code: Code, d: nat, b: nat, body: bytes)
    requires d >= 1 && b >= 1 && body != []
    requires |body| <= b || d == 1 || b == 1
    ensures Joined(code, d, b, body) == body
  {
    hide Stripe, EncodeBlock;
    if d == 1 {
      SingleShard(code, b, body);
      assert Flatten([body]) == body + Flatten([]) == body;
    } else if |body| <= b {
      StripeOneBlock(code, d, 0, b, body);
      assert EncodeBlock(code, d, 0, body) == Split(body, d) by { PlainBlock(code, d, body); }
      JoinSplit(body, d);
    } else {
      ByteBlocks(code, d, body);
      var data := DataStripe(code, d, b, body);
      TakeConcat(data[0], Flatten(data[1..]), |body|);
      assert body[..|body|] == body;
    }
  }

  lemma PlainBlock(code: Code, d: nat, block: bytes)
    requires d >= 1
    ensures EncodeBlock(code, d, 0, block) == Split(block, d)
  {
  }

  /** Every other shape scrambles some body: the byte behind the first piece of the first
      block is read where the next piece of that block should be. */
  lemma JoinedFails(code: Code, d: nat, b: nat, n: nat) returns (body: bytes)
    requires d >= 2 && b >= 2 && n > b
    ensures |body| == n && Joined(code, d, b, body) != body
  {
    hide Stripe, EncodeBlock, ShardSize;
    body := seq(n, i => if i == b then 1 else 0);
    var c := ShardSize(b, d);
    CeilLess(b, d);
    var block, tail := body[..b], body[b..];
    StripeBlocks(code, d, 0, b, body);
    PlainBlock(code, d, block);
    FirstByte(code, d, b, tail);
    var data := DataStripe(code, d, b, body);
    var first := Split(block, d)[0];
    assert |first| == c;
    assert data[0] == first + DataStripe(code, d, b, tail)[0];
    assert data[0][c] == tail[0] == 1;
    assert Flatten(data) == data[0] + Flatten(data[1..]);
    assert Flatten(data)[c] == 1;
    CutDiffers(Flatten(data), body, c);
  }

  lemma CutDiffers(all: bytes, body: bytes, c: nat)
    requires c < |body| && c < |all| && all[c] != body[c]
    ensures Truncate(all, |body|) != body
  {
    assert c < |Truncate(all, |body|)| && Truncate(all, |body|)[c] == all[c];
  }

  lemma CeilLess(b: nat, d: nat)
    requires d >= 2 && b >= 2
    ensures ShardSize(b, d) < b
  {
    ProductAbove(d, b);
    QuotientBelow(b + d - 1, d, b);
  }

  lemma ProductAbove(d: nat, b: nat)
    requires d >= 2 && b >= 2
    ensures d * b >= d + b
  {
    assert (d - 2) * b >= 0;
    assert d * b == (d - 2) * b + 2 * b;
    assert (b - 2) * d >= 0;
    assert d * b == (b - 2) * d + 2 * d;
  }

  lemma QuotientBelow(x: nat, d: nat, b: nat)
    requires d >= 1 && x < d * b
    ensures x / d < b
  {
    var q := x / d;
    assert d * q <= x;
    assert d * (q - b) == d * q - d * b;
    NegativeFactor(d, q - b);
  }

  lemma NegativeFactor(d: nat, y: int)
    requires d * y < 0
    ensures y < 0
  {
  }

  /** The first shard of a nonempty body starts with its first byte. */
  lemma FirstByte(code: Code, d: nat, b: nat, body: bytes)
    requires d >= 1 && b >= 1 && body != []
    ensures var data := DataStripe(code, d, b, body);
            |data| == d && |data[0]| >= 1 && data[0][0] == body[0]
  {
    hide Stripe, EncodeBlock, ShardSize;
    var block := if |body| <= b then body else body[..b];
    PlainBlock(code, d, block);
    if |body| <= b {
      StripeOneBlock(code, d, 0, b, body);
    } else {
      StripeBlocks(code, d, 0, b, body);
    }
    FirstOfSplit(block, d);
  }

  lemma FirstOfSplit(block: bytes, d: nat)
    requires d >= 1 && block != []
    ensures Split(block, d)[0][0] == block[0]
  {
  }

  // The two decoders

  /** From any shards that suffice, the buffered decoder returns the body. */
  ghost predicate BufferedReads(code: Code, d: nat, p: nat, b: nat, body: bytes, slots: seq<Option<bytes>>)
    requires d >= 1 && b >= 1
  {
    Agrees(slots, Stripe(code, d, p, b, body)) && CountSome(slots) >= d ==>
      Buffered(code, d, p, slots, |body|) == Some(body)
  }

  /** An object without bytes is read back by the buffered decoder, whatever is lost, exactly when
      nothing can be lost or the coding library can fill empty shards; the streaming decoder
      never asks it to. */
  lemma EmptyObjectIff(code: Code, d: nat, p: nat, b: nat)
    requires d >= 1 && b >= 1
    ensures (forall slots: seq<Option<bytes>> :: BufferedReads(code, d, p, b, [], slots))
            <==> p == 0 || FillsEmpty(code, d, p)
  {
    hide Reassemble;
    forall slots: seq<Option<bytes>>
      ensures BufferedReads(code, d, p, b, [], slots)
              <==> (p > 0 && EmptySlots(slots, d, p) ==> code.reconstruct(d, p, slots).Some?)
    {
      CutToNothing(slots, d);
      if p > 0 && CountSome(slots) < |slots| && code.reconstruct(d, p, slots).Some? {
        CutToNothing(AsFilled(code.reconstruct(d, p, slots).value), d);
      }
    }
  }

  /** The library fills the missing ones of any empty shards. */
  ghost predicate FillsEmpty(code: Code, d: nat, p: nat)
  {
    forall slots: seq<Option<bytes>> :: EmptySlots(slots, d, p) ==> code.reconstruct(d, p, slots).Some?
  }

  /** Empty shards, some missing but enough left. */
  ghost predicate EmptySlots(slots: seq<Option<bytes>>, d: nat, p: nat)
  {
    Agrees(slots, Empties(d + p)) && d <= CountSome(slots) < d + p
  }

  /** The coding library refuses to reconstruct from a shard without bytes. */
  ghost predicate RefusesEmpty(code: Code, d: nat, p: nat)
  {
    forall slots: seq<Option<bytes>> :: |slots| == d + p && CountSome(slots) < d + p && Some([]) in slots ==>
      code.reconstruct(d, p, slots).None?
  }

  /** Such a library makes the buffered decoder return an object without bytes exactly when no
      shard is lost. */
  lemma EmptyObjectReadsIff(code: Code, d: nat, p: nat, slots: seq<Option<bytes>>)
    requires d >= 1 && RefusesEmpty(code, d, p) && Agrees(slots, Empties(d + p)) && CountSome(slots) >= d
    ensures Buffered(code, d, p, slots, 0) == (if CountSome(slots) == d + p then Some([]) else None)
  {
    hide Reassemble, CountSome;
    CutToNothing(slots, d);
    SomePresent(slots);
  }

  lemma {:induction false} SomePresent(slots: seq<Option<bytes>>)
    requires CountSome(slots) >= 1 && forall x :: x in slots && x.Some? ==> x.value == []
    ensures Some([]) in slots
  {
    if slots[0].None? {
      assert forall x :: x in slots[1..] ==> x in slots;
      SomePresent(slots[1..]);
    }
  }

  /** With parity there is a loss that leaves enough empty shards. */
  lemma LosesEmpty(code: Code, d: nat, p: nat)
    requires d >= 1 && p >= 1 && RefusesEmpty(code, d, p)
    ensures !FillsEmpty(code, d, p)
  {
    hide CountSome;
    var rest: seq<Option<bytes>> := AsFilled(Empties(d + p - 1));
    var slots: seq<Option<bytes>> := [None] + rest;
    CountAll(rest);
    assert CountSome(slots) == d + p - 1 by {
      assert slots[1..] == rest;
      CountFront(slots);
    }
    assert slots[1] == Some([]);
    assert EmptySlots(slots, d, p);
  }

  lemma CountFront(slots: seq<Option<bytes>>)
    requires slots != []
    ensures CountSome(slots) == (if slots[0].Some? then 1 else 0) + CountSome(slots[1..])
  {
  }

  lemma CutToNothing(slots: seq<Option<bytes>>, d: nat)
    ensures Reassemble(slots, d, 0) == []
  {
  }

  /** The buffered decoder agrees with the streaming one (which always returns the body) on
      all objects of a size, and all losses: of a positive size exactly when the object fits one
      block or there is one data shard, or a block is a single byte; without bytes exactly when
      there is no parity, if the library refuses empty shards. */
  lemma DecodersAgreeIff(code: Code, d: nat, p: nat, b: nat, n: nat)
    requires Shape(code, d, p) && b >= 1
    ensures n >= 1 ==> (AgreeOnSize(code, d, p, b, n) <==> n <= b || d == 1 || b == 1)
    ensures n == 0 && RefusesEmpty(code, d, p) ==> (AgreeOnSize(code, d, p, b, n) <==> p == 0)
  {
    hide Lawful, Stripe, Buffered, Joined, BufferedReads;
    if n == 0 {
      assert AgreeOnSize(code, d, p, b, 0)
        <==> forall slots: seq<Option<bytes>> :: BufferedReads(code, d, p, b, [], slots);
      EmptyObjectIff(code, d, p, b);
      if p > 0 && RefusesEmpty(code, d, p) {
        LosesEmpty(code, d, p);
      }
    } else {
      PositiveSizesAgree(code, d, p, b, n);
    }
  }

  ghost predicate AgreeOnSize(code: Code, d: nat, p: nat, b: nat, n: nat)
    requires d >= 1 && b >= 1
  {
    forall body: bytes, slots: seq<Option<bytes>> :: |body| == n ==> BufferedReads(code, d, p, b, body, slots)
  }

  lemma PositiveSizesAgree(code: Code, d: nat, p: nat, b: nat, n: nat)
    requires Shape(code, d, p) && b >= 1 && n >= 1
    ensures AgreeOnSize(code, d, p, b, n) <==> n <= b || d == 1 || b == 1
  {
    hide Lawful, Stripe, Buffered, Joined;
    if n <= b || d == 1 || b == 1 {
      forall body: bytes, slots: seq<Option<bytes>> | |body| == n
        ensures BufferedReads(code, d, p, b, body, slots)
      {
        if Agrees(slots, Stripe(code, d, p, b, body)) && CountSome(slots) >= d {
          BufferedJoins(code, d, p, b, slots, body);
          JoinedWorks(code, d, b, body);
        }
      }
    } else {
      var body := JoinedFails(code, d, b, n);
      var slots := AsFilled(Stripe(code, d, p, b, body));
      StripeLength(code, d, p, b, body);
      CountAll(slots);
      BufferedJoins(code, d, p, b, slots, body);
      assert !BufferedReads(code, d, p, b, body, slots);
    }
  }
}
