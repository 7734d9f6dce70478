/** The needle record: one shard of one object, with its metadata, as packed into a
    segment. Payload layout: header, bucket, key, version id, metadata, data. */
module NeedleCodec {
  import opened ByteCodec
  import opened Metadata

  const NEEDLE_MAGIC: nat := 0xAB1C_4E00
  const HEADER_SIZE: nat := 24
  const FLAG_NORMAL: byte := 0
  const FLAG_DELETE: byte := 1

  datatype Error = TooShort | BadMagic | Truncated | ChecksumMismatch | BadUtf8

  datatype Needle = Needle(
    flags: byte, bucket: bytes, key: bytes, versionId: bytes, meta: bytes, data: bytes)

  /** The packed header fields, in the order they are stored. */
  datatype RawHeader = RawHeader(
    magic: nat, flags: byte, bucketLen: nat, keyLen: nat, metaLen: nat, dataLen: nat,
    checksum: nat, versionIdLen: nat)
  {
    function Total(): nat { HEADER_SIZE + bucketLen + keyLen + versionIdLen + metaLen + dataLen }
  }

  /** What `ReadHeader` reports: identity, and offsets relative to the needle's start. */
  datatype HeaderInfo = HeaderInfo(
    flags: byte, bucket: bytes, key: bytes, versionId: bytes,
    metaOffset: nat, metaLen: nat, dataOffset: nat, dataLen: nat, total: nat)

  function SerializedSize(n: Needle): (s: nat)
  {
    HEADER_SIZE + |n.bucket| + |n.key| + |n.versionId| + |n.meta| + |n.data|
  }

  function Payload(n: Needle): (p: bytes)
    ensures |p| == SerializedSize(n) - HEADER_SIZE
  {
    n.bucket + n.key + n.versionId + n.meta + n.data
  }

  /** Every length fits the width of its header field. */
  predicate Fits(n: Needle)
  {
    && |n.bucket| < 0x100
    && |n.key| < 0x1_0000
    && |n.versionId| < 0x100
    && |n.meta| < 0x1_0000
    && |n.data| < 0x1_0000_0000
  }

  predicate TextOk(env: Env, n: Needle)
  {
    env.utf8(n.bucket) && env.utf8(n.key) && env.utf8(n.versionId)
  }

  /** A needle that survives the trip through its own encoding. */
  predicate Good(env: Env, n: Needle)
  {
    Fits(n) && TextOk(env, n)
  }

  /** The header as stored: `Le` truncates each length to its field, as the casts do. */
  function HeaderBytes(n: Needle, checksum: nat): (h: bytes)
    ensures |h| == HEADER_SIZE
  {
    Le(NEEDLE_MAGIC, 4) + [n.flags] + Le(|n.bucket|, 1) + Le(|n.key|, 2) + Le(|n.meta|, 2)
    + Le(|n.data|, 4) + Le(checksum, 8) + Le(|n.versionId|, 1) + [0]
  }

  function Serialize(env: Env, n: Needle): (b: bytes)
    ensures |b| == SerializedSize(n)
  {
    HeaderBytes(n, env.xxh64(Payload(n))) + Payload(n)
  }

  function ParseRaw(buf: bytes): (h: RawHeader)
    requires |buf| >= HEADER_SIZE
  {
    RawHeader(LeValue(buf[0..4]), buf[4], LeValue(buf[5..6]), LeValue(buf[6..8]), LeValue(buf[8..10]),
              LeValue(buf[10..14]), LeValue(buf[14..22]), LeValue(buf[22..23]))
  }

  function ReadHeader(env: Env, buf: bytes): (r: Result<HeaderInfo, Error>)
    ensures r.Ok? ==> HEADER_SIZE <= r.value.total <= |buf|
    ensures r.Ok? ==> HEADER_SIZE <= r.value.metaOffset
    ensures r.Ok? ==> r.value.metaOffset + r.value.metaLen == r.value.dataOffset
    ensures r.Ok? ==> r.value.dataOffset + r.value.dataLen == r.value.total
  {
    if |buf| < HEADER_SIZE then Err(TooShort)
    else
      var h := ParseRaw(buf);
      if h.magic != NEEDLE_MAGIC then Err(BadMagic)
      else if |buf| < h.Total() then Err(Truncated)
      else if env.xxh64(buf[HEADER_SIZE..h.Total()]) != h.checksum then Err(ChecksumMismatch)
      else
        var keyOffset := HEADER_SIZE + h.bucketLen;
        var versionIdOffset := keyOffset + h.keyLen;
        var metaOffset := versionIdOffset + h.versionIdLen;
        var dataOffset := metaOffset + h.metaLen;
        var bucket := buf[HEADER_SIZE..keyOffset];
        var key := buf[keyOffset..versionIdOffset];
        var versionId := buf[versionIdOffset..metaOffset];
        if !env.utf8(bucket) || !env.utf8(key) || !env.utf8(versionId) then Err(BadUtf8)
        else Ok(HeaderInfo(h.flags, bucket, key, versionId, metaOffset, h.metaLen, dataOffset, h.dataLen, h.Total()))
  }

  function Deserialize(env: Env, buf: bytes): (r: Result<(Needle, nat), Error>)
  {
    if |buf| < HEADER_SIZE then Err(TooShort)
    else
      var h := ParseRaw(buf);
      if h.magic != NEEDLE_MAGIC then Err(BadMagic)
      else if |buf| < h.Total() then Err(Truncated)
      else if env.xxh64(buf[HEADER_SIZE..h.Total()]) != h.checksum then Err(ChecksumMismatch)
      else
        var offset1 := HEADER_SIZE + h.bucketLen;
        var offset2 := offset1 + h.keyLen;
        var offset3 := offset2 + h.versionIdLen;
        var offset4 := offset3 + h.metaLen;
        var bucket := buf[HEADER_SIZE..offset1];
        var key := buf[offset1..offset2];
        var versionId := buf[offset2..offset3];
        if !env.utf8(bucket) then Err(BadUtf8)
        else if !env.utf8(key) then Err(BadUtf8)
        else if !env.utf8(versionId) then Err(BadUtf8)
        else
          Ok((Needle(h.flags, bucket, key, versionId, buf[offset3..offset4], buf[offset4..offset4 + h.dataLen]),
              h.Total()))
  }

  /** Copy `src` over `dest[at..]`, as `copy_from_slice` does. */
  method CopyInto(dest: array<byte>, at: nat, src: bytes)
    requires at + |src| <= dest.Length
    modifies dest
    ensures dest[..] == old(dest[..at]) + src + old(dest[at + |src|..])
  {
    for i := 0 to |src|
      invariant dest[..at] == old(dest[..at])
      invariant dest[at..at + i] == src[..i]
      invariant dest[at + i..] == old(dest[at + i..])
    {
      dest[at + i] := src[i];
      assert dest[at..at + i + 1] == dest[at..at + i] + [src[i]];
      assert old(dest[at + i..])[1..] == old(dest[at + i + 1..]);
      assert dest[at + i..][1..] == dest[at + i + 1..];
    }
    assert dest[..] == dest[..at] + dest[at..at + |src|] + dest[at + |src|..];
  }

  /** Copy the next payload field behind the `done` bytes already stored from `at` on. */
  method CopyField(dest: array<byte>, ghost at: nat, ghost before: bytes, ghost done: bytes, off: nat, field: bytes)
    returns (next: nat)
    requires |before| == dest.Length && off == at + |done|
    requires off + |field| <= dest.Length
    requires Written(before, dest[..], at, done)
    modifies dest
    ensures next == off + |field|
    ensures Written(before, dest[..], at, done + field)
  {
    WrittenStep(before, dest[..], at, done, field);
    assert dest[..][..off] == dest[..off] && dest[..][off + |field|..] == dest[off + |field|..];
    CopyInto(dest, off, field);
    next := off + |field|;
  }

  /** Copy the five payload fields one behind the other, with a moving offset. */
  method PayloadInto(n: Needle, dest: array<byte>, start: nat) returns (off: nat)
    requires start + |Payload(n)| <= dest.Length
    modifies dest
    ensures off == start + |Payload(n)|
    ensures Written(old(dest[..]), dest[..], start, Payload(n))
  {
    ghost var before := dest[..];
    assert Written(before, dest[..], start, []);
    off := CopyField(dest, start, before, [], start, n.bucket);
    assert [] + n.bucket == n.bucket;
    off := CopyField(dest, start, before, n.bucket, off, n.key);
    off := CopyField(dest, start, before, n.bucket + n.key, off, n.versionId);
    off := CopyField(dest, start, before, n.bucket + n.key + n.versionId, off, n.meta);
    off := CopyField(dest, start, before, n.bucket + n.key + n.versionId + n.meta, off, n.data);
  }

  /** Write the needle in place: payload fields first, the header last. A crash before
      the last copy leaves the old header bytes in front of a partial payload. */
  method SerializeInto(env: Env, n: Needle, dest: array<byte>, at: nat) returns (total: nat)
    requires at + SerializedSize(n) <= dest.Length
    modifies dest
    ensures total == SerializedSize(n)
    ensures dest[..] == old(dest[..at]) + Serialize(env, n) + old(dest[at + SerializedSize(n)..])
  {
    hide HeaderBytes, Payload;
    total := SerializedSize(n);
    ghost var before := dest[..];
    var off := PayloadInto(n, dest, at + HEADER_SIZE);
    ghost var mid := dest[..];
    WrittenSlice(before, mid, at + HEADER_SIZE, Payload(n));
    assert dest[at + HEADER_SIZE..off] == mid[at + HEADER_SIZE..off];
    var header := HeaderBytes(n, env.xxh64(dest[at + HEADER_SIZE..off]));
    CopyInto(dest, at, header);
    HeaderCompletes(before, mid, at, header, Payload(n));
    assert before[..at] == old(dest[..at]);
    assert before[at + total..] == old(dest[at + total..]);
  }

  /** `now` is `before` with `part` stored from `at` on. */
  ghost predicate Written(before: bytes, now: bytes, at: nat, part: bytes)
    requires at + |part| <= |before|
  {
    now == before[..at] + part + before[at + |part|..]
  }

  lemma WrittenStep(before: bytes, now: bytes, at: nat, part: bytes, more: bytes)
    requires at + |part| + |more| <= |before|
    requires Written(before, now, at, part)
    ensures var k := at + |part|;
            Written(before, now[..k] + more + now[k + |more|..], at, part + more)
  {
    var k := at + |part|;
    assert now[..k] == before[..at] + part;
    assert now[k + |more|..] == before[k + |more|..];
    assert before[..at] + part + more == before[..at] + (part + more);
  }

  lemma WrittenSlice(before: bytes, now: bytes, at: nat, part: bytes)
    requires at + |part| <= |before|
    requires Written(before, now, at, part)
    ensures now[at..at + |part|] == part
  {
  }

  lemma HeaderCompletes(before: bytes, now: bytes, at: nat, header: bytes, payload: bytes)
    requires |header| == HEADER_SIZE
    requires at + HEADER_SIZE + |payload| <= |before|
    requires Written(before, now, at + HEADER_SIZE, payload)
    ensures now[..at] + header + now[at + HEADER_SIZE..]
            == before[..at] + (header + payload) + before[at + HEADER_SIZE + |payload|..]
  {
    assert now[..at] == before[..at];
    assert now[at + HEADER_SIZE..] == payload + before[at + HEADER_SIZE + |payload|..];
  }

  /** The header fields as a reader sees them: each length cut to its field width. */
  lemma RawFields(env: Env, n: Needle, tail: bytes)
    ensures |Serialize(env, n) + tail| >= HEADER_SIZE
    ensures var h := ParseRaw(Serialize(env, n) + tail);
            && h.magic == NEEDLE_MAGIC && h.flags == n.flags
            && h.checksum == env.xxh64(Payload(n))
            && h.bucketLen == LeValue(Le(|n.bucket|, 1)) && h.keyLen == LeValue(Le(|n.key|, 2))
            && h.metaLen == LeValue(Le(|n.meta|, 2)) && h.dataLen == LeValue(Le(|n.data|, 4))
            && h.versionIdLen == LeValue(Le(|n.versionId|, 1))
  {
    var buf := Serialize(env, n) + tail;
    var sum: nat := env.xxh64(Payload(n));
    assert buf[0..4] == Le(NEEDLE_MAGIC, 4);
    assert buf[5..6] == Le(|n.bucket|, 1);
    assert buf[6..8] == Le(|n.key|, 2);
    assert buf[8..10] == Le(|n.meta|, 2);
    assert buf[10..14] == Le(|n.data|, 4);
    assert buf[14..22] == Le(sum, 8);
    assert buf[22..23] == Le(|n.versionId|, 1);
    Widths();
    LeRoundTrip(NEEDLE_MAGIC, 4);
    LeRoundTrip(sum, 8);
  }

  lemma RawFieldsFit(env: Env, n: Needle, tail: bytes)
    requires Fits(n)
    ensures |Serialize(env, n) + tail| >= HEADER_SIZE
    ensures ParseRaw(Serialize(env, n) + tail)
            == RawHeader(NEEDLE_MAGIC, n.flags, |n.bucket|, |n.key|, |n.meta|, |n.data|,
                         env.xxh64(Payload(n)), |n.versionId|)
  {
    RawFields(env, n, tail);
    Widths();
    LeRoundTrip(|n.bucket|, 1);
    LeRoundTrip(|n.key|, 2);
    LeRoundTrip(|n.meta|, 2);
    LeRoundTrip(|n.data|, 4);
    LeRoundTrip(|n.versionId|, 1);
  }

  /** Where each field of a serialized needle lies. */
  lemma FieldSlices(env: Env, n: Needle, tail: bytes)
    ensures var buf := Serialize(env, n) + tail;
            var o1 := HEADER_SIZE + |n.bucket|;
            var o2 := o1 + |n.key|;
            var o3 := o2 + |n.versionId|;
            var o4 := o3 + |n.meta|;
            var o5 := o4 + |n.data|;
            && o5 == SerializedSize(n) <= |buf|
            && buf[HEADER_SIZE..o5] == Payload(n)
            && buf[HEADER_SIZE..o1] == n.bucket && buf[o1..o2] == n.key && buf[o2..o3] == n.versionId
            && buf[o3..o4] == n.meta && buf[o4..o5] == n.data
  {
    var buf := Serialize(env, n) + tail;
    assert buf[HEADER_SIZE..SerializedSize(n)] == Payload(n);
  }

  lemma RoundTripFits(env: Env, n: Needle, tail: bytes)
    requires Fits(n)
    ensures Deserialize(env, Serialize(env, n) + tail)
            == if TextOk(env, n) then Ok((n, SerializedSize(n))) else Err(BadUtf8)
  {
    hide Serialize;
    RawFieldsFit(env, n, tail);
    FieldSlices(env, n, tail);
  }

  /** A deserialized needle has the lengths its header says. */
  lemma DeserializedLengths(env: Env, buf: bytes)
    requires Deserialize(env, buf).Ok?
    ensures |buf| >= HEADER_SIZE
    ensures var h := ParseRaw(buf); var n := Deserialize(env, buf).value.0;
            && |n.bucket| == h.bucketLen && |n.key| == h.keyLen && |n.versionId| == h.versionIdLen
            && |n.meta| == h.metaLen && |n.data| == h.dataLen
  {
  }

  /** Deserialize inverts Serialize, whatever follows the needle, exactly when every
      length fits its header field and the three names are valid UTF-8. */
  lemma RoundTripIff(env: Env, n: Needle, tail: bytes)
    ensures Deserialize(env, Serialize(env, n) + tail) == Ok((n, SerializedSize(n)))
            <==> Good(env, n)
  {
    hide Serialize, Deserialize, ParseRaw;
    if Fits(n) {
      RoundTripFits(env, n, tail);
    } else if Deserialize(env, Serialize(env, n) + tail).Ok? {
      DeserializedLengths(env, Serialize(env, n) + tail);
      RawFields(env, n, tail);
      Widths();
      LeRoundTrip(|n.bucket|, 1);
      LeRoundTrip(|n.key|, 2);
      LeRoundTrip(|n.meta|, 2);
      LeRoundTrip(|n.data|, 4);
      LeRoundTrip(|n.versionId|, 1);
    }
  }

  /** The header a needle that fits is read back as. */
  function InfoOf(n: Needle): (i: HeaderInfo)
    ensures i.total == SerializedSize(n)
    ensures i.metaOffset + i.metaLen == i.dataOffset && i.dataOffset + i.dataLen == i.total
  {
    var metaOffset := HEADER_SIZE + |n.bucket| + |n.key| + |n.versionId|;
    HeaderInfo(n.flags, n.bucket, n.key, n.versionId, metaOffset, |n.meta|,
               metaOffset + |n.meta|, |n.data|, SerializedSize(n))
  }

  lemma HeaderRoundTrip(env: Env, n: Needle, tail: bytes)
    requires Good(env, n)
    ensures ReadHeader(env, Serialize(env, n) + tail) == Ok(InfoOf(n))
  {
    hide Serialize;
    RawFieldsFit(env, n, tail);
    FieldSlices(env, n, tail);
  }

  /** The offsets of the header select exactly the metadata and the data. */
  lemma InfoSelects(env: Env, n: Needle)
    ensures var b := Serialize(env, n); var i := InfoOf(n);
            && b[i.metaOffset..i.metaOffset + i.metaLen] == n.meta
            && b[i.dataOffset..i.dataOffset + i.dataLen] == n.data
  {
    FieldSlices(env, n, []);
    assert Serialize(env, n) + [] == Serialize(env, n);
  }

  /** On every byte string the two readers agree: they accept the same inputs, and the
      offsets of one select the fields of the other. */
  lemma ReadersAgree(env: Env, buf: bytes)
    ensures ReadHeader(env, buf).Ok? <==> Deserialize(env, buf).Ok?
    ensures ReadHeader(env, buf).Ok? ==>
              var i := ReadHeader(env, buf).value;
              Deserialize(env, buf).value
              == (Needle(i.flags, i.bucket, i.key, i.versionId, buf[i.metaOffset..i.metaOffset + i.metaLen],
                         buf[i.dataOffset..i.dataOffset + i.dataLen]), i.total)
  {
  }

  /** A torn write is invisible: until the header is copied its first four bytes are still zero,
      and no needle is read there. */
  lemma ZeroHeaderRejected(env: Env, buf: bytes)
    requires |buf| >= 4 ==> buf[..4] == Zeros(4)
    ensures ReadHeader(env, buf).Err?
  {
    if |buf| >= HEADER_SIZE {
      assert buf[0..4] == Zeros(4);
      assert Zeros(4)[1..][1..][1..][1..] == [];
      assert LeValue(Zeros(4)) == 0;
    }
  }

  // What the readers accept

  /** Equal but for the padding byte of the header. */
  predicate SameButPad(a: bytes, b: bytes)
  {
    |a| == |b| && forall i :: 0 <= i < |a| && i != HEADER_SIZE - 1 ==> a[i] == b[i]
  }

  lemma PadIsIgnored(env: Env, a: bytes, b: bytes)
    requires SameButPad(a, b)
    ensures Deserialize(env, a) == Deserialize(env, b)
  {
    hide LeValue;
    if |a| >= HEADER_SIZE {
      assert a[0..4] == b[0..4] && a[5..6] == b[5..6] && a[6..8] == b[6..8] && a[8..10] == b[8..10];
      assert a[10..14] == b[10..14] && a[14..22] == b[14..22] && a[22..23] == b[22..23];
      assert ParseRaw(a) == ParseRaw(b);
      var h := ParseRaw(a);
      if h.Total() <= |a| {
        assert a[HEADER_SIZE..h.Total()] == b[HEADER_SIZE..h.Total()];
        forall x, y | HEADER_SIZE <= x <= y <= |a|
          ensures a[x..y] == b[x..y]
        {
        }
      }
    }
  }

  /** The bytes in front of the padding are those of the header the fields make. */
  lemma HeaderIsStored(buf: bytes, n: Needle)
    requires |buf| >= HEADER_SIZE
    requires ParseRaw(buf) == RawHeader(NEEDLE_MAGIC, n.flags, |n.bucket|, |n.key|, |n.meta|, |n.data|,
                                        ParseRaw(buf).checksum, |n.versionId|)
    ensures HeaderBytes(n, ParseRaw(buf).checksum)[..HEADER_SIZE - 1] == buf[..HEADER_SIZE - 1]
  {
    hide Le, LeValue;
    LeStores(buf[0..4]);
    LeStores(buf[5..6]);
    LeStores(buf[6..8]);
    LeStores(buf[8..10]);
    LeStores(buf[10..14]);
    LeStores(buf[14..22]);
    LeStores(buf[22..23]);
    JoinHeader(buf);
  }

  lemma JoinHeader(buf: bytes)
    requires |buf| >= HEADER_SIZE
    ensures (buf[0..4] + [buf[4]] + buf[5..6] + buf[6..8] + buf[8..10] + buf[10..14] + buf[14..22] + buf[22..23] + [0])
            [..HEADER_SIZE - 1] == buf[..HEADER_SIZE - 1]
  {
  }

  lemma AcceptedIsEncoded(env: Env, buf: bytes)
    requires Deserialize(env, buf).Ok?
    ensures var (n, t) := Deserialize(env, buf).value;
            t == SerializedSize(n) <= |buf| && Good(env, n) && SameButPad(buf[..t], Serialize(env, n))
  {
    hide LeValue, HeaderBytes;
    var (n, t) := Deserialize(env, buf).value;
    DeserializedLengths(env, buf);
    LengthsFit(buf);
    HeaderIsStored(buf, n);
    PayloadIsStored(env, buf);
    var head := HeaderBytes(n, ParseRaw(buf).checksum);
    forall i | 0 <= i < t && i != HEADER_SIZE - 1
      ensures buf[..t][i] == Serialize(env, n)[i]
    {
      if i < HEADER_SIZE - 1 {
        assert head[..HEADER_SIZE - 1][i] == buf[..HEADER_SIZE - 1][i];
      } else {
        assert buf[HEADER_SIZE..t][i - HEADER_SIZE] == Payload(n)[i - HEADER_SIZE];
      }
    }
  }

  lemma LengthsFit(buf: bytes)
    requires |buf| >= HEADER_SIZE
    ensures var h := ParseRaw(buf);
            && h.bucketLen < 0x100 && h.keyLen < 0x1_0000 && h.versionIdLen < 0x100 && h.metaLen < 0x1_0000
            && h.dataLen < 0x1_0000_0000
  {
    hide LeValue;
    Widths();
    LeValueBound(buf[5..6]);
    LeValueBound(buf[6..8]);
    LeValueBound(buf[8..10]);
    LeValueBound(buf[10..14]);
    LeValueBound(buf[22..23]);
  }

  lemma PayloadIsStored(env: Env, buf: bytes)
    requires Deserialize(env, buf).Ok?
    ensures var (n, t) := Deserialize(env, buf).value;
            HEADER_SIZE <= t <= |buf| && Payload(n) == buf[HEADER_SIZE..t]
            && env.xxh64(Payload(n)) == ParseRaw(buf).checksum
  {
    hide LeValue;
  }

  /** A reader accepts exactly the encodings: what it returns is a needle of which the bytes in front
      of it, but for the padding byte, are the serialized form, checksum included. */
  lemma AcceptsIff(env: Env, buf: bytes, n: Needle, t: nat)
    ensures Deserialize(env, buf) == Ok((n, t))
            <==> t == SerializedSize(n) <= |buf| && Good(env, n) && SameButPad(buf[..t], Serialize(env, n))
  {
    hide Deserialize, Serialize, Good, SameButPad;
    if Deserialize(env, buf) == Ok((n, t)) {
      AcceptedIsEncoded(env, buf);
    } else if t == SerializedSize(n) <= |buf| && Good(env, n) && SameButPad(buf[..t], Serialize(env, n)) {
      var full := Serialize(env, n) + buf[t..];
      assert SameButPad(buf, full) by { SamePrefix(buf, Serialize(env, n), t); }
      PadIsIgnored(env, buf, full);
      RoundTripIff(env, n, buf[t..]);
    }
  }

  lemma SamePrefix(buf: bytes, b: bytes, t: nat)
    requires t <= |buf| && SameButPad(buf[..t], b)
    ensures SameButPad(buf, b + buf[t..])
  {
    assert buf == buf[..t] + buf[t..];
  }
}
