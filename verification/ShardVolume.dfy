/** One object on one volume, as the heal worker writes and reads it: entries waiting in the
    log, the metadata file with its list of versions, and the shard files of the object and of
    its versions. */
module ShardVolume {
  import opened ByteCodec
  import opened Metadata
  import opened Decoder

  /** Unversioned objects up to this size keep their shard inside the metadata file. */
  const INLINE_LIMIT: nat := 64 * 1024

  datatype Version = Version(meta: ObjectMeta, inline: Option<bytes>)

  /** How a write ends: refused, or stored, and whether a worker has since moved it from the log
      to the files, if it went to the log. */
  datatype Fate = Failed | Stored | Settled

  function FirstLive(vs: seq<Version>): (r: Option<Version>)
  {
    if vs == [] then None else if !vs[0].meta.isDeleteMarker then Some(vs[0]) else FirstLive(vs[1..])
  }

  /** The other versions, no longer the latest. */
  function Others(vs: seq<Version>, id: bytes): (r: seq<Version>)
  {
    if vs == [] then []
    else
      (if vs[0].meta.versionId == id then [] else [vs[0].(meta := vs[0].meta.(isLatest := false))])
      + Others(vs[1..], id)
  }

  datatype Disk = Disk(
    volumeId: string,
    logs: bool,
    threshold: nat,
    pending: map<bytes, (bytes, ObjectMeta)>,
    versions: Option<seq<Version>>,
    shard: Option<bytes>,
    versionShards: map<bytes, bytes>)
  {
    /** The version that a read without a version id serves from the files. */
    function Live(): (r: Option<Version>)
    {
      if versions.Some? then FirstLive(versions.value) else None
    }

    /** The metadata of the object: of the log entry without a version id, or of the first
        live version in the metadata file. */
    function Stat(): (r: Option<ObjectMeta>)
    {
      if [] in pending then Some(pending[[]].1)
      else match Live()
        case None => None
        case Some(v) => Some(v.meta)
    }

    /** The shard bytes of a version in the files. */
    function Bytes(v: Version): (r: Option<bytes>)
    {
      if v.inline.Some? then v.inline
      else if v.meta.versionId == [] then shard
      else if v.meta.versionId in versionShards then Some(versionShards[v.meta.versionId]) else None
    }

    function ReadShard(): (r: ShardRead)
      ensures r.Some? ==> Stat() == Some(r.value.1)
    {
      if [] in pending then Some(pending[[]])
      else match Live()
        case None => None
        case Some(v) =>
          match Bytes(v)
          case None => None
          case Some(data) => Some((data, v.meta))
    }

    predicate ToLog(data: bytes)
    {
      logs && |data| <= threshold
    }

    /** A write goes to the log under its version id, or to the object's own files, which are
        never those of a version. */
    function WriteShard(data: bytes, m: ObjectMeta): (r: Disk)
      ensures r.volumeId == volumeId
    {
      var v := m.(isLatest := true);
      if ToLog(data) then this.(pending := pending[m.versionId := (data, m)])
      else if m.versionId == [] && m.size <= INLINE_LIMIT then this.(versions := Some([Version(v, Some(data))]))
      else this.(versions := Some([Version(v, None)]), shard := Some(data))
    }

    /** A worker moves a log entry to the files: those of its version if it has one. */
    function Materialize(id: bytes): (r: Disk)
      ensures r.volumeId == volumeId
    {
      if id !in pending then this
      else
        var (data, m) := pending[id];
        var v := Version(m.(isLatest := true, versionId := if id == [] then m.versionId else id), None);
        var listed := if versions.Some? then versions.value else [];
        if id == [] then this.(pending := pending - {id}, versions := Some([v]), shard := Some(data))
        else this.(pending := pending - {id}, versions := Some([v] + Others(listed, id)),
                   versionShards := versionShards[id := data])
    }

    function Write(data: bytes, m: ObjectMeta, fate: Fate): (r: Disk)
      ensures r.volumeId == volumeId
    {
      match fate
      case Failed => this
      case Stored => WriteShard(data, m)
      case Settled => if ToLog(data) then WriteShard(data, m).Materialize(m.versionId) else WriteShard(data, m)
    }

    /** A read returns these bytes, with this metadata up to the latest flag. */
    predicate Shows(data: bytes, m: ObjectMeta)
    {
      var r := ReadShard();
      r.Some? && r.value.0 == data && r.value.1.(isLatest := true) == m.(isLatest := true)
    }

    /** What decides, before a write, whether it can be read back. In the log it can without a
        version id, and with one only once it has reached the files and no entry without one is
        waiting. In the files it can if no such entry is waiting and it has no version id: a
        version's shard is looked for in another file than the one written. */
    predicate Takes(data: bytes, m: ObjectMeta, fate: Fate)
    {
      match fate
      case Failed => false
      case Stored =>
        if ToLog(data) then m.versionId == [] || Shows(data, m) else FileTakes(data, m)
      case Settled =>
        if !ToLog(data) then FileTakes(data, m)
        else if m.versionId != [] && [] in pending then Shows(data, m)
        else !m.isDeleteMarker
    }

    predicate FileTakes(data: bytes, m: ObjectMeta)
    {
      if [] in pending then Shows(data, m)
      else
        && !m.isDeleteMarker
        && (m.versionId == [] || (m.versionId in versionShards && versionShards[m.versionId] == data))
    }
  }

  lemma {:induction false} OthersDiffer(vs: seq<Version>, id: bytes)
    ensures FirstLive(Others(vs, id)).Some? ==> FirstLive(Others(vs, id)).value.meta.versionId != id
  {
    if vs != [] {
      OthersDiffer(vs[1..], id);
      var rest := Others(vs[1..], id);
      if vs[0].meta.versionId == id {
        assert [] + rest == rest;
      } else {
        var v := vs[0].(meta := vs[0].meta.(isLatest := false));
        assert ([v] + rest)[1..] == rest;
      }
    }
  }

  /** Reading gives back what a write stored exactly when the disk takes it. */
  lemma ReadBackIff(disk: Disk, data: bytes, m: ObjectMeta, fate: Fate)
    requires !fate.Failed?
    ensures disk.Write(data, m, fate).Shows(data, m) <==> disk.Takes(data, m, fate)
  {
    if disk.ToLog(data) && fate.Settled? {
      SettledReads(disk, data, m);
    } else if disk.ToLog(data) {
      LoggedReads(disk, data, m);
    } else {
      FiledReads(disk, data, m);
    }
  }

  lemma LoggedReads(disk: Disk, data: bytes, m: ObjectMeta)
    requires disk.ToLog(data)
    ensures var after := disk.WriteShard(data, m);
            if m.versionId == [] then after.Shows(data, m) else after.ReadShard() == disk.ReadShard()
  {
  }

  lemma FiledReads(disk: Disk, data: bytes, m: ObjectMeta)
    requires !disk.ToLog(data)
    ensures disk.WriteShard(data, m).Shows(data, m) <==> disk.FileTakes(data, m)
  {
    var after := disk.WriteShard(data, m);
    assert after.versions.value[1..] == [];
    assert FirstLive([]) == None;
  }

  lemma SettledReads(disk: Disk, data: bytes, m: ObjectMeta)
    requires disk.ToLog(data)
    ensures disk.WriteShard(data, m).Materialize(m.versionId).Shows(data, m) <==> disk.Takes(data, m, Settled)
  {
    var id := m.versionId;
    var after := disk.WriteShard(data, m).Materialize(id);
    var listed := if disk.versions.Some? then disk.versions.value else [];
    OthersDiffer(listed, id);
    if id == [] {
      assert after.versions.value[1..] == [];
      assert FirstLive([]) == None;
    } else {
      assert after.versions.value[1..] == Others(listed, id);
    }
  }

  /** What a disk shows after a write that it takes and did not show already. */
  lemma TakenReads(disk: Disk, data: bytes, m: ObjectMeta, fate: Fate)
    requires disk.Takes(data, m, fate) && !disk.Shows(data, m) && m.isLatest
    ensures disk.Write(data, m, fate).ReadShard() == Some((data, m))
    ensures disk.Write(data, m, fate).Stat() == Some(m)
  {
    assert m.(isLatest := true) == m;
  }

  /** After a write that it does not take, a disk shows what it showed before, or the new metadata
      without the new bytes. */
  lemma NotTakenReads(disk: Disk, data: bytes, m: ObjectMeta, fate: Fate)
    requires !disk.Takes(data, m, fate) && !m.isDeleteMarker
    ensures var after := disk.Write(data, m, fate);
            || (after.Stat() == disk.Stat() && after.ReadShard() == disk.ReadShard())
            || (&& after.Stat() == Some(m.(isLatest := true))
                && (after.ReadShard().None? || after.ReadShard().value.0 != data))
  {
    if !fate.Failed? && !disk.ToLog(data) {
      var after := disk.WriteShard(data, m);
      assert after.versions.value[1..] == [];
    }
  }

  /** A write without a version id is always read back, unless an older entry without one is
      waiting in the log while the write goes to the files, or it is a delete marker. */
  lemma PlainIsTaken(disk: Disk, data: bytes, m: ObjectMeta, fate: Fate)
    requires !fate.Failed? && m.versionId == [] && !m.isDeleteMarker && (disk.ToLog(data) || [] !in disk.pending)
    ensures disk.Takes(data, m, fate)
  {
  }

  /** A version above the log's threshold, or on a volume without a log, whose own shard file is
      missing or differs is not read back; and its metadata file lists no other version. */
  lemma VersionIsNotTaken(disk: Disk, data: bytes, m: ObjectMeta, fate: Fate)
    requires !disk.ToLog(data) && m.versionId != [] && [] !in disk.pending && !fate.Failed?
    requires m.versionId in disk.versionShards ==> disk.versionShards[m.versionId] != data
    ensures !disk.Write(data, m, fate).Shows(data, m)
    ensures disk.Write(data, m, fate).versions == Some([Version(m.(isLatest := true), None)])
  {
    ReadBackIff(disk, data, m, fate);
  }
}
