/** Per-version object metadata and the foreign functions the storage code relies on. */
module Metadata {
  import opened ByteCodec

  datatype ErasureMeta = ErasureMeta(ftt: nat, index: nat, epochId: nat, volumeIds: seq<string>)
  {
    /** Number of data shards. The source subtracts unsigned integers, so it needs `Shaped`. */
    function Data(): (n: nat)
      requires Shaped()
    {
      |volumeIds| - ftt
    }

    function Parity(): (n: nat) { ftt }

    predicate Shaped() { ftt <= |volumeIds| }
  }

  datatype PartEntry = PartEntry(number: int, size: nat, etag: string, erasure: ErasureMeta, checksum: string)

  datatype ObjectMeta = ObjectMeta(
    size: nat,
    etag: string,
    contentType: string,
    createdAt: nat,
    erasure: ErasureMeta,
    checksum: string,
    userMetadata: map<string, string>,
    tags: map<string, string>,
    versionId: bytes,
    isLatest: bool,
    isDeleteMarker: bool,
    parts: seq<PartEntry>)
  {
    /** Equality of everything but the fields that differ from shard to shard. */
    predicate QuorumEq(other: ObjectMeta)
    {
      && size == other.size
      && etag == other.etag
      && contentType == other.contentType
      && createdAt == other.createdAt
      && erasure.ftt == other.erasure.ftt
      && erasure.epochId == other.erasure.epochId
      && erasure.volumeIds == other.erasure.volumeIds
      && userMetadata == other.userMetadata
      && tags == other.tags
    }
  }

  /** The library functions of the write-ahead log, left uninterpreted: the xxh64
      checksum, UTF-8 validity, and the msgpack codec of object metadata. */
  datatype Env = Env(
    xxh64: bytes -> u64,
    utf8: bytes -> bool,
    encodeMeta: ObjectMeta -> bytes,
    decodeMeta: bytes -> Option<ObjectMeta>)
  {
    /** What is assumed of msgpack: decoding inverts encoding. */
    ghost predicate MetaRoundTrips()
    {
      forall m :: decodeMeta(encodeMeta(m)) == Some(m)
    }
  }
}
