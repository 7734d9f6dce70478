/** Where the materialize worker puts an object: a shard file per version and one
    metadata file per object listing its versions, newest first. */
module FileTier {
  import opened ByteCodec
  import opened Metadata
  import opened WalState

  datatype Files = Files(shards: map<Key, bytes>, metas: map<(bytes, bytes), seq<ObjectMeta>>)

  function Versions(files: Files, k: Key): (vs: seq<ObjectMeta>)
  {
    if (k.bucket, k.key) in files.metas then files.metas[(k.bucket, k.key)] else []
  }

  predicate SameObject(a: Key, b: Key)
  {
    a.bucket == b.bucket && a.key == b.key
  }

  function Without(vs: seq<ObjectMeta>, id: bytes): (r: seq<ObjectMeta>)
  {
    if vs == [] then []
    else if vs[0].versionId == id then Without(vs[1..], id)
    else [vs[0]] + Without(vs[1..], id)
  }

  function Demote(vs: seq<ObjectMeta>): (r: seq<ObjectMeta>)
  {
    if vs == [] then [] else [vs[0].(isLatest := false)] + Demote(vs[1..])
  }

  /** The version entry the worker writes for a request. */
  function Latest(k: Key, meta: ObjectMeta): (v: ObjectMeta)
  {
    meta.(isLatest := true, versionId := if k.versionId == [] then meta.versionId else k.versionId)
  }

  /** Write the shard file and the metadata file. An unversioned object replaces the whole
      version list; a version is put in front of the others, which stop being latest. */
  function Materialize(files: Files, k: Key, data: bytes, meta: ObjectMeta): (r: Files)
  {
    var vs := if k.versionId == [] then [Latest(k, meta)]
              else [Latest(k, meta)] + Demote(Without(Versions(files, k), k.versionId));
    Files(files.shards[k := data], files.metas[(k.bucket, k.key) := vs])
  }

  function FindVersion(vs: seq<ObjectMeta>, id: bytes): (r: Option<ObjectMeta>)
  {
    if vs == [] then None
    else if vs[0].versionId == id then Some(vs[0])
    else FindVersion(vs[1..], id)
  }

  function FirstLive(vs: seq<ObjectMeta>): (r: Option<ObjectMeta>)
  {
    if vs == [] then None
    else if !vs[0].isDeleteMarker then Some(vs[0])
    else FirstLive(vs[1..])
  }

  /** The version entry a read of `k` uses. */
  function Lookup(files: Files, k: Key): (r: Option<ObjectMeta>)
  {
    if k.versionId == [] then FirstLive(Versions(files, k)) else FindVersion(Versions(files, k), k.versionId)
  }

  /** Reading a version looks it up by id; reading an unversioned object serves the first
      entry that is not a delete marker, from the shard file of that entry's version. */
  function ReadFile(files: Files, k: Key): (r: Option<(bytes, ObjectMeta)>)
  {
    match Lookup(files, k)
    case None => None
    case Some(v) =>
      var at := if k.versionId == [] then Key(k.bucket, k.key, v.versionId) else k;
      if at in files.shards then Some((files.shards[at], v)) else None
  }

  /** The metadata agrees up to the latest flag, which later versions of the object clear. */
  predicate SameVersion(a: ObjectMeta, b: ObjectMeta)
  {
    a.(isLatest := true) == b.(isLatest := true)
  }

  /** Reading `k` serves its own shard file and the metadata of its own version. */
  ghost predicate Serves(files: Files, k: Key, data: bytes, meta: ObjectMeta)
  {
    && k in files.shards && files.shards[k] == data
    && Lookup(files, k).Some?
    && Lookup(files, k).value.versionId == k.versionId
    && SameVersion(Lookup(files, k).value, Latest(k, meta))
  }

  lemma ServesReads(files: Files, k: Key, data: bytes, meta: ObjectMeta)
    requires Serves(files, k, data, meta)
    ensures ReadFile(files, k).Some?
    ensures ReadFile(files, k).value.0 == data && SameVersion(ReadFile(files, k).value.1, Latest(k, meta))
  {
  }

  /** What is written can be read back. */
  lemma MaterializeServes(files: Files, k: Key, data: bytes, meta: ObjectMeta)
    requires k.versionId == [] ==> meta.versionId == [] && !meta.isDeleteMarker
    ensures Serves(Materialize(files, k, data, meta), k, data, meta)
  {
  }

  lemma {:induction false} FindAfterDemote(vs: seq<ObjectMeta>, gone: bytes, id: bytes)
    requires id != gone
    ensures match FindVersion(vs, id)
            case None => FindVersion(Demote(Without(vs, gone)), id) == None
            case Some(v) => FindVersion(Demote(Without(vs, gone)), id) == Some(v.(isLatest := false))
  {
    if vs != [] {
      FindAfterDemote(vs[1..], gone, id);
      if vs[0].versionId != gone {
        var rest := Without(vs[1..], gone);
        assert ([vs[0]] + rest)[1..] == rest;
        var d := Demote(rest);
        assert ([vs[0].(isLatest := false)] + d)[1..] == d;
      }
    }
  }

  /** Exactly when another write leaves a served object served: it belongs to another object,
      or both are versions. An unversioned write drops every version from the list, and a
      version written over an unversioned object takes its place. */
  lemma MaterializeKeepsIff(files: Files, k: Key, data: bytes, meta: ObjectMeta, other: Key, data': bytes,
                            meta': ObjectMeta)
    requires Serves(files, other, data', meta') && other != k
    requires k.versionId == [] ==> meta.versionId == []
    requires !meta.isDeleteMarker
    ensures Serves(Materialize(files, k, data, meta), other, data', meta')
            <==> !SameObject(k, other) || (k.versionId != [] && other.versionId != [])
  {
    var after := Materialize(files, k, data, meta);
    if !SameObject(k, other) {
      assert Versions(after, other) == Versions(files, other);
    } else if other.versionId == [] {
      assert FirstLive(Versions(after, other)) == Some(Latest(k, meta));
    } else if k.versionId == [] {
      assert Versions(after, other) == [Latest(k, meta)];
      assert Versions(after, other)[1..] == [];
      assert FindVersion([], other.versionId) == None;
      assert Lookup(after, other) == None;
    } else {
      FindAfterDemote(Versions(files, other), k.versionId, other.versionId);
      var rest := Demote(Without(Versions(files, k), k.versionId));
      assert ([Latest(k, meta)] + rest)[1..] == rest;
    }
  }

  lemma {:induction false} DemotedVersions(vs: seq<ObjectMeta>, id: bytes)
    ensures forall v :: v in Demote(Without(vs, id)) ==> !v.isLatest && v.versionId != id
    ensures forall v :: v in vs && v.versionId != id ==> v.(isLatest := false) in Demote(Without(vs, id))
    ensures |Demote(Without(vs, id))| <= |vs|
  {
    if vs != [] {
      DemotedVersions(vs[1..], id);
      if vs[0].versionId != id {
        var rest := Without(vs[1..], id);
        assert ([vs[0]] + rest)[1..] == rest;
        var first, d := vs[0].(isLatest := false), Demote(rest);
        assert Demote(Without(vs, id)) == [first] + d;
        assert first.versionId == vs[0].versionId;
      }
      forall v | v in vs && v.versionId != id
        ensures v.(isLatest := false) in Demote(Without(vs, id))
      {
        assert v == vs[0] || v in vs[1..];
      }
    }
  }

  /** After a write the new version is listed first and is the only one of its id and the only
      latest one. A version keeps all others of the object listed; an object without versions keeps
      none. */
  lemma WrittenIsLatest(files: Files, k: Key, data: bytes, meta: ObjectMeta)
    ensures var vs, was := Versions(Materialize(files, k, data, meta), k), Versions(files, k);
            && vs != [] && vs[0] == Latest(k, meta) && vs[0].isLatest
            && (k.versionId == [] ==> |vs| == 1)
            && (forall v :: v in vs[1..] ==> !v.isLatest && v.versionId != k.versionId)
            && (k.versionId != [] ==>
                  forall v :: v in was && v.versionId != k.versionId ==> v.(isLatest := false) in vs[1..])
  {
    DemotedVersions(Versions(files, k), k.versionId);
    if k.versionId != [] {
      var rest := Demote(Without(Versions(files, k), k.versionId));
      assert ([Latest(k, meta)] + rest)[1..] == rest;
    }
  }
}
