/** The write-ahead log object: its fields are updated in place, and every method is proved
    to take the state it represents through the transition of the same name. */
module WriteAheadLog {
  import opened ByteCodec
  import opened Metadata
  import opened NeedleCodec
  import opened Segments
  import opened WalState
  import opened WalRecovery

  lemma AppendKeepsId(env: Env, s: Seg, n: Needle)
    ensures Append(env, s, n).Some? ==> Append(env, s, n).value.0.id == s.id
  {
  }

  /** The two attempts of an append, as one transition. */
  lemma AppendCases(env: Env, st: State, n: Needle, now: nat)
    requires st.capacity >= SUPERBLOCK_SIZE
    ensures match Append(env, st.active, n)
            case Some((seg, loc)) => AppendWal(env, st, n, now) == (Accept(st, n, seg, loc), Ok(EntryOf(seg.id, loc)))
            case None =>
              var rotated := Rotate(st, now);
              match Append(env, rotated.active, n)
              case Some((seg, loc)) =>
                AppendWal(env, st, n, now) == (Accept(rotated, n, seg, loc), Ok(EntryOf(seg.id, loc)))
              case None => AppendWal(env, st, n, now) == (rotated, Err(NeedleTooLarge))
  {
    hide Append, Rotate, Accept;
  }

  class Wal {
    const env: Env
    const capacity: nat
    var active: ActiveSegment
    var sealed: seq<Seg>
    var pending: map<Key, Entry>
    var segmentPendingCounts: map<nat, nat>
    var nextSegmentId: nat
    /** Segment files other than the mapped active one. */
    var directory: map<nat, bytes>

    ghost predicate Valid()
      reads this, active
    {
      active.Valid() && capacity >= SUPERBLOCK_SIZE
    }

    /** The state this object represents; the active segment's file is its mapping. */
    function View(): (st: State)
      reads this, active, active.mmap
    {
      State(capacity, active.View(), sealed, pending, segmentPendingCounts, nextSegmentId,
            directory[active.id := active.mmap[..]])
    }

    /** Reopen a log directory: scan every segment file in id order, keep those with pending
        entries, delete the others, and start a fresh active segment. */
    constructor Open(env: Env, disk: map<nat, bytes>, dest: set<Key>, capacity: nat, now: nat)
      requires capacity >= SUPERBLOCK_SIZE
      ensures Valid() && fresh(active) && fresh(active.mmap)
      ensures this.env == env && View() == OpenWal(env, disk, dest, capacity, now)
    {
      hide OpenOne, OpenAll, Ascending;
      this.env := env;
      this.capacity := capacity;
      var first := new ActiveSegment.Create(File(disk, 1), 1, capacity, now);
      active := first;
      sealed, pending, segmentPendingCounts, nextSegmentId := [], map[], map[], 2;
      directory := disk[1 := first.mmap[..]];
      new;
      ghost var st0 := OpenStart(disk, capacity, now);
      var order := Ascending(directory.Keys, MAX_SEGMENTS);
      assert Loaded() == st0.(active := active.View());
      OpenFiles(order, dest);
      var id := nextSegmentId;
      nextSegmentId := nextSegmentId + 1;
      active := new ActiveSegment.Create(File(directory, id), id, capacity, now);
    }

    /** The state while the directory is being read: the first mapping is not live yet. */
    ghost function Loaded(): (st: State)
      reads this, active, active.mmap
    {
      State(capacity, active.View(), sealed, pending, segmentPendingCounts, nextSegmentId, directory)
    }

    method OpenFiles(order: seq<nat>, dest: set<Key>)
      requires capacity >= SUPERBLOCK_SIZE
      modifies this`sealed, this`pending, this`segmentPendingCounts, this`nextSegmentId, this`directory
      ensures Loaded() == OpenAll(env, old(Loaded()), order, dest)
    {
      for i := 0 to |order|
        invariant Loaded() == OpenAll(env, old(Loaded()), order[..i], dest)
      {
        hide OpenOne;
        OpenFile(order[i], dest);
        assert order[..i + 1][..i] == order[..i];
      }
      assert order[..|order|] == order;
    }

    method OpenFile(id: nat, dest: set<Key>)
      requires capacity >= SUPERBLOCK_SIZE
      modifies this`sealed, this`pending, this`segmentPendingCounts, this`nextSegmentId, this`directory
      ensures Loaded() == OpenOne(env, old(Loaded()), id, dest)
    {
      hide Segments.Open, Visits;
      if id !in directory { return; }
      var r := OpenSealed(env, directory[id]);
      match r {
        case Err(_) =>
        case Ok(seg) =>
          if seg.id >= nextSegmentId { nextSegmentId := seg.id + 1; }
          RecoverSegment(seg, dest);
          if Count(segmentPendingCounts, seg.id) > 0 {
            sealed := sealed + [seg];
          } else {
            directory := directory - {id};
          }
      }
    }

    /** Scan a segment and make its un-materialized needles pending. */
    method RecoverSegment(seg: Seg, dest: set<Key>)
      requires SUPERBLOCK_SIZE <= seg.size <= |seg.mmap|
      modifies this`pending, this`segmentPendingCounts
      ensures Loaded() == RecoverVisits(env, old(Loaded()), seg, Visits(env, seg), dest)
    {
      hide Visits;
      var visits := Scan(env, seg);
      for i := 0 to |visits|
        invariant Loaded() == RecoverVisits(env, old(Loaded()), seg, visits[..i], dest)
      {
        var v := visits[i];
        var k := VisitKey(v);
        if v.flags == FLAG_DELETE {
          pending := pending - {k};
        } else if k !in dest {
          pending := pending[k := VisitEntry(env, seg, v)];
          segmentPendingCounts := Bump(segmentPendingCounts, seg.id);
        }
        assert visits[..i + 1][..i] == visits[..i];
      }
      assert visits[..|visits|] == visits;
    }

    method AppendNeedle(n: Needle, now: nat) returns (r: Result<Entry, WalError>)
      requires Valid()
      modifies this, active, active.mmap
      ensures Valid() && (active == old(active) || fresh(active))
      ensures active.mmap == old(active.mmap) || fresh(active.mmap)
      ensures (View(), r) == AppendWal(env, old(View()), n, now)
    {
      hide AppendWal, Rotate;
      ghost var before := View();
      var accepted := TryAppend(n);
      AppendCases(env, before, n, now);
      if accepted.Some? { return Ok(accepted.value); }
      RotateActive(now);
      accepted := TryAppend(n);
      if accepted.Some? { return Ok(accepted.value); }
      r := Err(NeedleTooLarge);
    }

    /** One attempt on the active segment; an accepted needle becomes pending and is counted. */
    method TryAppend(n: Needle) returns (r: Option<Entry>)
      requires Valid()
      modifies this`pending, this`segmentPendingCounts, active, active.mmap
      ensures Valid()
      ensures match Append(env, old(View()).active, n)
              case None => r == None && View() == old(View())
              case Some((seg, loc)) => r == Some(EntryOf(seg.id, loc)) && View() == Accept(old(View()), n, seg, loc)
    {
      hide Append;
      AppendKeepsId(env, active.View(), n);
      var loc := active.AppendNeedle(env, n);
      if loc == None { return None; }
      var entry := EntryOf(active.id, loc.value);
      pending := pending[KeyOf(n) := entry];
      segmentPendingCounts := Bump(segmentPendingCounts, active.id);
      r := Some(entry);
    }

    /** Seal the active segment and create a new one; the placeholder takes id 0. */
    method RotateActive(now: nat)
      requires Valid()
      modifies this
      ensures Valid() && fresh(active) && fresh(active.mmap)
      ensures View() == Rotate(old(View()), now)
    {
      hide CreateFile;
      var files := directory[active.id := active.mmap[..]];
      var placeholder := new ActiveSegment.Create(File(files, 0), 0, capacity, now);
      var sealedNow := active.View();
      directory := files[0 := placeholder.mmap[..]];
      sealed := sealed + [sealedNow];
      var id := nextSegmentId;
      nextSegmentId := nextSegmentId + 1;
      active := new ActiveSegment.Create(File(directory, id), id, capacity, now);
    }

    method ReadEntryData(e: Entry) returns (r: Option<bytes>)
      requires Valid()
      ensures r == ReadData(View(), e)
    {
      r := ReadBytes(e.segmentId, e.dataOffset, e.dataLen);
    }

    method ReadEntryMeta(e: Entry) returns (r: Option<ObjectMeta>)
      requires Valid()
      ensures r == ReadMeta(env, View(), e)
    {
      var b := ReadBytes(e.segmentId, e.metaOffset, e.metaLen);
      if b == None { return None; }
      r := env.decodeMeta(b.value);
    }

    method ReadBytes(id: nat, offset: nat, len: nat) returns (r: Option<bytes>)
      requires Valid()
      ensures r == Read(View(), id, offset, len)
    {
      if id == active.id {
        r := active.Read(offset, len);
        return;
      }
      var i := FindSealedIndex(id);
      if i < |sealed| { return Slice(sealed[i], offset, len); }
      r := None;
    }

    /** Search the sealed segments from the front. */
    method FindSealedIndex(id: nat) returns (i: nat)
      ensures i == Find(sealed, id)
    {
      i := 0;
      while i < |sealed| && sealed[i].id != id
        invariant i <= |sealed|
        invariant forall j :: 0 <= j < i ==> sealed[j].id != id
      {
        i := i + 1;
      }
    }

    method MarkMaterialized(k: Key)
      requires Valid()
      modifies this`pending, this`segmentPendingCounts, this`sealed, this`directory
      ensures Valid() && View() == Mark(old(View()), k)
    {
      if k !in pending { return; }
      var id := pending[k].segmentId;
      pending := pending - {k};
      if id in segmentPendingCounts {
        var count := if segmentPendingCounts[id] == 0 then 0 else segmentPendingCounts[id] - 1;
        segmentPendingCounts := segmentPendingCounts[id := count];
        if count == 0 {
          assert segmentPendingCounts - {id} == old(segmentPendingCounts) - {id};
          segmentPendingCounts := segmentPendingCounts - {id};
          TryDeleteSegment(id);
        }
      }
    }

    method TryDeleteSegment(id: nat)
      requires Valid()
      modifies this`sealed, this`directory
      ensures Valid() && View() == TryDelete(old(View()), id)
    {
      if id == active.id { return; }
      var i := FindSealedIndex(id);
      if i < |sealed| {
        sealed := RemoveAt(sealed, i);
        ghost var before := View().disk;
        directory := directory - {id};
        assert View().disk == before - {id};
      }
    }
  }
}
