/** The Raft log store: records in one file, and an ordered index of their offsets. */
module RaftLog {
  import opened ByteCodec

  const HEADER_LEN: nat := 20

  datatype LogEntry = LogEntry(index: u64, term: u64, op: bytes)

  datatype LogError = Io | Corruption | NotFound(missing: nat) | NonMonotonic(prev: nat, got: nat)

  /** A store: the file, the index from log index to (offset, term), and the length it
      believes the file has. */
  datatype Store = Store(file: bytes, index: map<nat, (nat, nat)>, fileLen: nat)

  function Header(e: LogEntry): (h: bytes)
    ensures |h| == HEADER_LEN
  {
    Le(e.index, 8) + Le(e.term, 8) + Le(|e.op|, 4)
  }

  function Record(e: LogEntry): (r: bytes)
    ensures |r| == HEADER_LEN + |e.op|
  {
    Header(e) + e.op
  }

  predicate Small(e: LogEntry)
  {
    |e.op| < 0x1_0000_0000
  }

  function Records(es: seq<LogEntry>): (r: bytes)
  {
    if es == [] then [] else Records(es[..|es| - 1]) + Record(es[|es| - 1])
  }

  // The ordered index

  ghost predicate IsMax(s: set<nat>, m: nat)
  {
    m in s && forall x :: x in s ==> x <= m
  }

  lemma {:induction false} MaxExists(s: set<nat>)
    requires s != {}
    ensures exists m :: IsMax(s, m)
  {
    var a :| a in s;
    var t := s - {a};
    var m := a;
    if t != {} {
      MaxExists(t);
      var b :| IsMax(t, b);
      m := if a <= b then b else a;
    }
    assert forall x :: x in s ==> x == a || x in t;
    assert IsMax(s, m);
  }

  function MaxOf(s: set<nat>): (m: nat)
    requires s != {}
    ensures m in s && forall x :: x in s ==> x <= m
  {
    MaxExists(s);
    var m :| m in s && forall x :: x in s ==> x <= m;
    m
  }

  function LastIndex(index: map<nat, (nat, nat)>): (r: Option<nat>)
  {
    if index.Keys == {} then None else Some(MaxOf(index.Keys))
  }

  function OrZero(x: Option<nat>): (n: nat)
  {
    if x.Some? then x.value else 0
  }

  /** The keys in ascending order, as the ordered map iterates. */
  function Sorted(keys: set<nat>): (r: seq<nat>)
    decreases |keys|
  {
    if keys == {} then []
    else
      var m := MaxOf(keys);
      Sorted(keys - {m}) + [m]
  }

  // Operations

  /** Scan the file from `off`: each full header adds an index entry; a body cut off at the
      end of the file is not noticed. */
  function Rebuild(file: bytes, off: nat, index: map<nat, (nat, nat)>): (r: Store)
    decreases if off <= |file| then |file| - off + 1 else 0
  {
    if off + HEADER_LEN > |file| then Store(file, index, off)
    else
      var i, t, n := LeValue(file[off..off + 8]), LeValue(file[off + 8..off + 16]), LeValue(file[off + 16..off + 20]);
      Rebuild(file, off + HEADER_LEN + n, index[i := (off, t)])
  }

  function OpenStore(file: bytes): (r: Store)
  {
    Rebuild(file, 0, map[])
  }

  /** The append loop from one entry on, writing at the end of the file and recording offsets
      counted from the believed length. Entries before a refused one have been written. */
  function AppendFrom(st: Store, offset: nat, prev: nat, es: seq<LogEntry>): (r: (Store, nat, Result<(), LogError>))
    decreases |es|
  {
    if es == [] then (st, offset, Ok(()))
    else
      var e := es[0];
      if prev != 0 && e.index <= prev then (st, offset, Err(NonMonotonic(prev, e.index)))
      else if !Small(e) then (st, offset, Err(Corruption))
      else
        AppendFrom(Store(st.file + Record(e), st.index[e.index := (offset, e.term)], st.fileLen),
                   offset + HEADER_LEN + |e.op|, e.index, es[1..])
  }

  /** The believed length is updated only when every entry was accepted. */
  function AppendEntries(st: Store, es: seq<LogEntry>): (r: (Store, Result<(), LogError>))
  {
    var (st', offset, res) := AppendFrom(st, st.fileLen, OrZero(LastIndex(st.index)), es);
    if res.Ok? then (st'.(fileLen := offset), res) else (st', res)
  }

  function ReadEntry(st: Store, i: nat): (r: Result<LogEntry, LogError>)
  {
    if i !in st.index then Err(NotFound(i))
    else
      var off := st.index[i].0;
      if off + HEADER_LEN > |st.file| then Err(Io)
      else
        var got, term := LeValue(st.file[off..off + 8]), LeValue(st.file[off + 8..off + 16]);
        var n := LeValue(st.file[off + 16..off + 20]);
        if got != i then Err(Corruption)
        else if off + HEADER_LEN + n > |st.file| then Err(Io)
        else
          Le8(st.file[off..off + 8]);
          Le8(st.file[off + 8..off + 16]);
          Ok(LogEntry(got, term, st.file[off + HEADER_LEN..off + HEADER_LEN + n]))
  }

  lemma Le8(b: bytes)
    requires |b| == 8
    ensures LeValue(b) < 0x1_0000_0000_0000_0000
  {
    LeValueBound(b);
    Widths();
  }

  function TruncateAfter(st: Store, lastKept: nat): (r: (Store, Result<(), LogError>))
  {
    var kept := map i | i in st.index && i <= lastKept :: st.index[i];
    if lastKept in st.index then
      match ReadEntry(st, lastKept)
      case Err(x) => (st, Err(x))
      case Ok(e) =>
        var cut := st.index[lastKept].0 + HEADER_LEN + |e.op|;
        (Store(SetLen(st.file, cut), kept, cut), Ok(()))
    else if OrZero(LastIndex(st.index)) <= lastKept then (st, Ok(()))
    else (Store([], kept, 0), Ok(()))
  }

  function SetLen(b: bytes, n: nat): (r: bytes)
  {
    if n <= |b| then b[..n] else b + Zeros(n - |b|)
  }

  /** Copy the listed entries to a new file. */
  function Copied(st: Store, keys: seq<nat>): (r: Result<Store, LogError>)
  {
    if keys == [] then Ok(Store([], map[], 0))
    else match Copied(st, keys[..|keys| - 1])
      case Err(x) => Err(x)
      case Ok(out) =>
        match ReadEntry(st, keys[|keys| - 1])
        case Err(x) => Err(x)
        case Ok(e) =>
          Ok(Store(out.file + Record(e), out.index[e.index := (out.fileLen, e.term)],
                   out.fileLen + HEADER_LEN + |e.op|))
  }

  function PurgeBefore(st: Store, firstKept: nat): (r: (Store, Result<(), LogError>))
  {
    var kept := Sorted(set i | i in st.index && i >= firstKept);
    if kept == [] && st.index.Keys == {} then (st, Ok(()))
    else if |kept| == |st.index| then (st, Ok(()))
    else match Copied(st, kept)
      case Err(x) => (st, Err(x))
      case Ok(out) => (out, Ok(()))
  }

  // Representation

  /** The index of a list of records laid out one behind the other. */
  function IndexOf(es: seq<LogEntry>): (m: map<nat, (nat, nat)>)
  {
    if es == [] then map[]
    else
      var front, e := es[..|es| - 1], es[|es| - 1];
      IndexOf(front)[e.index := (|Records(front)|, e.term)]
  }

  ghost predicate Increasing(es: seq<LogEntry>)
  {
    forall i, j :: 0 <= i < j < |es| ==> es[i].index < es[j].index
  }

  /** The store holds exactly `es`: the file is their records, the index has each record's
      true offset and term, and the believed length is the length of the file. */
  ghost predicate Rep(st: Store, es: seq<LogEntry>)
  {
    && st.file == Records(es) && st.fileLen == |st.file| && st.index == IndexOf(es)
    && Increasing(es) && (forall e :: e in es ==> Small(e))
  }

  lemma {:induction false} IndexKeys(es: seq<LogEntry>, i: nat)
    ensures i in IndexOf(es) <==> exists j :: 0 <= j < |es| && es[j].index == i
  {
    if es != [] {
      var front := es[..|es| - 1];
      IndexKeys(front, i);
      assert forall j :: 0 <= j < |front| ==> front[j] == es[j];
    }
  }

  lemma {:induction false} RecordsAppend(a: seq<LogEntry>, b: seq<LogEntry>)
    ensures Records(a + b) == Records(a) + Records(b)
  {
    hide Record;
    if b == [] {
      assert a + b == a;
      assert Records(a) + [] == Records(a);
    } else {
      var n := |b| - 1;
      calc {
        Records(a + b);
        { assert (a + b)[..|a + b| - 1] == a + b[..n] && (a + b)[|a + b| - 1] == b[n]; }
        Records(a + b[..n]) + Record(b[n]);
        { RecordsAppend(a, b[..n]); }
        (Records(a) + Records(b[..n])) + Record(b[n]);
        { Assoc(Records(a), Records(b[..n]), Record(b[n])); }
        Records(a) + Records(b);
      }
    }
  }

  lemma RecordsOne(e: LogEntry)
    ensures Records([e]) == Record(e)
  {
    assert [e][..0] == [];
    assert Records([]) + Record(e) == Record(e);
  }

  /** Where an entry lies: after the records before it. */
  lemma {:induction false} IndexAt(es: seq<LogEntry>, j: nat)
    requires Increasing(es) && j < |es|
    ensures es[j].index in IndexOf(es)
    ensures IndexOf(es)[es[j].index] == (|Records(es[..j])|, es[j].term)
    decreases |es|
  {
    hide Records;
    var n := |es| - 1;
    var front := es[..n];
    if j < n {
      assert Increasing(front) by { assert forall i :: 0 <= i < n ==> front[i] == es[i]; }
      IndexAt(front, j);
      assert front[..j] == es[..j];
    }
  }

  /** The header of a record in the file reads back as that record. */
  lemma HeaderReads(file: bytes, off: nat, e: LogEntry)
    requires Small(e) && off + |Record(e)| <= |file|
    requires file[off..off + |Record(e)|] == Record(e)
    ensures LeValue(file[off..off + 8]) == e.index
    ensures LeValue(file[off + 8..off + 16]) == e.term
    ensures LeValue(file[off + 16..off + 20]) == |e.op|
    ensures file[off + HEADER_LEN..off + HEADER_LEN + |e.op|] == e.op
  {
    hide Le, LeValue;
    var r := Record(e);
    SubSlice(file, off, r, 0, 8);
    SubSlice(file, off, r, 8, 16);
    SubSlice(file, off, r, 16, 20);
    SubSlice(file, off, r, HEADER_LEN, |r|);
    RecordSlices(e);
    Widths();
    LeRoundTrip(e.index, 8);
    LeRoundTrip(e.term, 8);
    LeRoundTrip(|e.op|, 4);
  }

  lemma RecordSlices(e: LogEntry)
    ensures var r := Record(e);
            && r[0..8] == Le(e.index, 8) && r[8..16] == Le(e.term, 8)
            && r[16..20] == Le(|e.op|, 4) && r[HEADER_LEN..] == e.op
  {
    hide Le;
  }

  lemma RecordAt(es: seq<LogEntry>, j: nat)
    requires j < |es|
    ensures var off := |Records(es[..j])|;
            && off + |Record(es[j])| == |Records(es[..j + 1])| <= |Records(es)|
            && Records(es)[off..off + |Record(es[j])|] == Record(es[j])
            && Records(es)[..off] == Records(es[..j])
            && Records(es)[..|Records(es[..j + 1])|] == Records(es[..j + 1])
  {
    hide Record, Records;
    var a, x, b := es[..j], [es[j]], es[j + 1..];
    assert es[..j + 1] == a + x && es == (a + x) + b;
    RecordsAppend(a, x);
    RecordsAppend(a + x, b);
    RecordsOne(es[j]);
    var m, r := Records(es), Record(es[j]);
    assert m == (Records(a) + r) + Records(b);
    assert m[|Records(a)|..|Records(a)| + |r|] == r;
  }

  // Read

  /** What reading index `i` of a list gives: its entry, or that there is none. */
  ghost predicate Finds(es: seq<LogEntry>, i: nat, r: Result<LogEntry, LogError>)
  {
    && (forall j :: 0 <= j < |es| && es[j].index == i ==> r == Ok(es[j]))
    && ((forall j :: 0 <= j < |es| ==> es[j].index != i) ==> r == Err(NotFound(i)))
  }

  /** Reading returns the entry that was appended, and reports every other index missing. */
  lemma ReadReturns(st: Store, es: seq<LogEntry>, i: nat)
    requires Rep(st, es)
    ensures Finds(es, i, ReadEntry(st, i))
  {
    hide Records, Record, IndexOf;
    IndexKeys(es, i);
    if j :| 0 <= j < |es| && es[j].index == i {
      IndexAt(es, j);
      RecordAt(es, j);
      assert es[j] in es && Small(es[j]);
      HeaderReads(st.file, |Records(es[..j])|, es[j]);
      forall x | 0 <= x < |es| && es[x].index == i
        ensures x == j
      {
      }
    }
  }

  // Append

  /** A batch that strictly continues the log. */
  ghost predicate Continues(es: seq<LogEntry>, batch: seq<LogEntry>)
  {
    && Increasing(es + batch)
    && (forall e :: e in batch ==> Small(e))
  }

  lemma SnocRep(st: Store, es: seq<LogEntry>, e: LogEntry)
    requires Rep(st, es) && Small(e) && Increasing(es + [e])
    ensures var index := st.index[e.index := (st.fileLen, e.term)];
            Rep(Store(st.file + Record(e), index, st.fileLen + HEADER_LEN + |e.op|), es + [e])
  {
    hide Record;
    assert (es + [e])[..|es|] == es;
    assert |Record(e)| == HEADER_LEN + |e.op| by { RecordLen(e); }
  }

  lemma RecordLen(e: LogEntry)
    ensures |Record(e)| == HEADER_LEN + |e.op|
  {
  }

  lemma {:induction false} AppendFromRep(st: Store, es: seq<LogEntry>, prev: nat, batch: seq<LogEntry>)
    requires Rep(st, es) && Continues(es, batch)
    requires prev == (if es == [] then 0 else es[|es| - 1].index)
    ensures var (st', offset, r) := AppendFrom(st, st.fileLen, prev, batch);
            r.Ok? && Rep(st'.(fileLen := offset), es + batch)
    decreases |batch|
  {
    hide Rep, Record;
    if batch == [] {
      assert es + batch == es;
    } else {
      var e, rest := batch[0], batch[1..];
      assert e in batch;
      assert (es + batch)[|es|] == e;
      assert es != [] ==> (es + batch)[|es| - 1].index < e.index;
      assert es + [e] + rest == es + batch;
      assert Increasing(es + [e]) by {
        assert forall i :: 0 <= i <= |es| ==> (es + [e])[i] == (es + batch)[i];
      }
      SnocRep(st, es, e);
      var st1 := Store(st.file + Record(e), st.index[e.index := (st.fileLen, e.term)],
                       st.fileLen + HEADER_LEN + |e.op|);
      AppendFromRep(st1, es + [e], e.index, rest);
      AppendLenFree(st1, st1.(fileLen := st.fileLen), st1.fileLen, e.index, rest);
    }
  }

  /** The loop never looks at the believed length. */
  lemma {:induction false} AppendLenFree(a: Store, b: Store, offset: nat, prev: nat, es: seq<LogEntry>)
    requires b == a.(fileLen := b.fileLen)
    ensures var x, y := AppendFrom(a, offset, prev, es), AppendFrom(b, offset, prev, es);
            y == (x.0.(fileLen := b.fileLen), x.1, x.2) && x.0.fileLen == a.fileLen
    decreases |es|
  {
    if es != [] {
      var e := es[0];
      AppendLenFree(Store(a.file + Record(e), a.index[e.index := (offset, e.term)], a.fileLen),
                    Store(b.file + Record(e), b.index[e.index := (offset, e.term)], b.fileLen),
                    offset + HEADER_LEN + |e.op|, e.index, es[1..]);
    }
  }

  lemma LastOf(es: seq<LogEntry>)
    requires Increasing(es)
    ensures LastIndex(IndexOf(es)) == if es == [] then None else Some(es[|es| - 1].index)
  {
    if es != [] {
      IndexKeys(es, es[|es| - 1].index);
      var m := MaxOf(IndexOf(es).Keys);
      IndexKeys(es, m);
    }
  }

  lemma AppendRefines(st: Store, es: seq<LogEntry>, batch: seq<LogEntry>)
    requires Rep(st, es) && Continues(es, batch)
    ensures AppendEntries(st, batch).1.Ok? && Rep(AppendEntries(st, batch).0, es + batch)
  {
    hide IndexOf, Records;
    LastOf(es);
    AppendFromRep(st, es, OrZero(LastIndex(st.index)), batch);
  }

  // Which batches are accepted, and what they leave

  /** The guard of the loop at position `x` of the whole list: an index 0 in front of an entry
      counts as no entry in front of it. */
  ghost predicate GuardPasses(all: seq<LogEntry>, x: nat)
    requires x < |all|
  {
    Small(all[x]) && (x == 0 || all[x - 1].index == 0 || all[x - 1].index < all[x].index)
  }

  /** Every entry of the batch passes the guard behind what is in front of it. */
  ghost predicate Accepts(es: seq<LogEntry>, batch: seq<LogEntry>)
  {
    forall x :: |es| <= x < |es + batch| ==> GuardPasses(es + batch, x)
  }

  /** The batch has an entry, and its first one does not pass the guard. */
  ghost predicate RefusedFirst(es: seq<LogEntry>, batch: seq<LogEntry>)
  {
    batch != [] && !GuardPasses(es + batch, |es|)
  }

  function Before(es: seq<LogEntry>): (prev: nat)
  {
    if es == [] then 0 else es[|es| - 1].index
  }

  lemma {:induction false} AppendFromOk(st: Store, offset: nat, es: seq<LogEntry>, batch: seq<LogEntry>)
    ensures AppendFrom(st, offset, Before(es), batch).2.Ok? <==> Accepts(es, batch)
    decreases |batch|
  {
    hide Record, Small;
    if batch != [] {
      var e, rest := batch[0], batch[1..];
      var st1 := Store(st.file + Record(e), st.index[e.index := (offset, e.term)], st.fileLen);
      AppendFromOk(st1, offset + HEADER_LEN + |e.op|, es + [e], rest);
      assert es + [e] + rest == es + batch;
      FirstGuard(es, batch);
    }
  }

  lemma FirstGuard(es: seq<LogEntry>, batch: seq<LogEntry>)
    requires batch != []
    ensures GuardPasses(es + batch, |es|) <==>
            Small(batch[0]) && (Before(es) == 0 || Before(es) < batch[0].index)
  {
    assert (es + batch)[|es|] == batch[0];
    assert es != [] ==> (es + batch)[|es| - 1] == es[|es| - 1];
  }

  /** A batch is accepted exactly when each of its entries passes the guard. */
  lemma AcceptedIff(st: Store, es: seq<LogEntry>, batch: seq<LogEntry>)
    requires Rep(st, es)
    ensures AppendEntries(st, batch).1.Ok? <==> Accepts(es, batch)
  {
    hide IndexOf, Records, Accepts;
    LastOf(es);
    AppendFromOk(st, st.fileLen, es, batch);
  }

  /** Index 0 directly behind index 0, in the batch or where it joins the log. */
  ghost predicate RepeatsZero(es: seq<LogEntry>, batch: seq<LogEntry>)
  {
    exists x :: |es| <= x < |es + batch| && x > 0 && IsZeroPair(es + batch, x)
  }

  ghost predicate IsZeroPair(all: seq<LogEntry>, x: nat)
    requires 0 < x < |all|
  {
    all[x - 1].index == 0 && all[x].index == 0
  }

  /** Indexes must strictly increase, but the store enforces that only for indexes above 0: an
      accepted batch leaves the list increasing exactly when it does not repeat index 0. */
  lemma AcceptedIncreasesIff(es: seq<LogEntry>, batch: seq<LogEntry>)
    requires Increasing(es) && Accepts(es, batch)
    ensures Increasing(es + batch) <==> !RepeatsZero(es, batch)
  {
    var all := es + batch;
    assert forall x :: 0 <= x < |es| ==> all[x] == es[x];
    if RepeatsZero(es, batch) {
      var x :| |es| <= x < |all| && x > 0 && IsZeroPair(all, x);
      assert all[x - 1].index >= all[x].index;
    } else {
      forall x | 0 < x < |all|
        ensures all[x - 1].index < all[x].index
      {
        if x >= |es| {
          assert GuardPasses(all, x) && !IsZeroPair(all, x);
        }
      }
      StepsIncrease(all);
    }
  }

  lemma {:induction false} StepsIncrease(es: seq<LogEntry>)
    requires forall x :: 0 < x < |es| ==> es[x - 1].index < es[x].index
    ensures Increasing(es)
  {
    if es != [] {
      var n := |es| - 1;
      StepsIncrease(es[..n]);
      forall i | 0 <= i < n
        ensures es[i].index < es[n].index
      {
        assert es[n - 1].index < es[n].index;
        assert i < n - 1 ==> es[..n][i].index < es[..n][n - 1].index;
      }
      assert forall i, j :: 0 <= i < j < n ==> es[..n][i].index < es[..n][j].index;
    }
  }

  lemma {:induction false} AppendGrows(st: Store, offset: nat, prev: nat, es: seq<LogEntry>)
    ensures var r := AppendFrom(st, offset, prev, es).0;
            && |r.file| >= |st.file| && r.file[..|st.file|] == st.file && r.fileLen == st.fileLen
            && st.index.Keys <= r.index.Keys
    decreases |es|
  {
    hide Record;
    if es != [] {
      var e := es[0];
      var st1 := Store(st.file + Record(e), st.index[e.index := (offset, e.term)], st.fileLen);
      AppendGrows(st1, offset + HEADER_LEN + |e.op|, e.index, es[1..]);
      var r := AppendFrom(st1, offset + HEADER_LEN + |e.op|, e.index, es[1..]).0;
      assert r.file[..|st.file|] == r.file[..|st1.file|][..|st.file|];
      assert st1.file[..|st.file|] == st.file;
      assert st.file[..|st.file|] == st.file;
    }
  }

  /** An accepted batch is written in full. */
  lemma {:induction false} AppendFile(st: Store, offset: nat, prev: nat, batch: seq<LogEntry>)
    requires AppendFrom(st, offset, prev, batch).2.Ok?
    ensures AppendFrom(st, offset, prev, batch).0.file == st.file + Records(batch)
    ensures forall e :: e in batch ==> Small(e)
    decreases |batch|
  {
    hide Record, Small;
    if batch == [] {
      assert st.file + [] == st.file;
    } else {
      var e, rest := batch[0], batch[1..];
      var st1 := Store(st.file + Record(e), st.index[e.index := (offset, e.term)], st.fileLen);
      AppendFile(st1, offset + HEADER_LEN + |e.op|, e.index, rest);
      RecordsFront(batch);
      Assoc(st.file, Record(e), Records(rest));
      assert batch == [e] + rest;
    }
  }

  lemma RecordsFront(es: seq<LogEntry>)
    requires es != []
    ensures Records(es) == Record(es[0]) + Records(es[1..])
  {
    hide Record, Records;
    assert es == [es[0]] + es[1..];
    RecordsAppend([es[0]], es[1..]);
    RecordsOne(es[0]);
  }

  /** Records can be told apart: a file is the records of at most one list. */
  lemma {:induction false} RecordsInjective(a: seq<LogEntry>, b: seq<LogEntry>)
    requires Records(a) == Records(b)
    requires (forall e :: e in a ==> Small(e)) && (forall e :: e in b ==> Small(e))
    ensures a == b
    decreases |a|
  {
    hide Record, Records, Small;
    if a == [] || b == [] {
      NoRecords(a);
      NoRecords(b);
    } else {
      RecordsFront(a);
      RecordsFront(b);
      var file := Records(a);
      RecordLen(a[0]);
      RecordLen(b[0]);
      HeaderReads(file, 0, a[0]);
      HeaderReads(file, 0, b[0]);
      assert a[0] == b[0];
      assert Records(a[1..]) == file[|Record(a[0])|..] == Records(b[1..]);
      RecordsInjective(a[1..], b[1..]);
      assert a == [a[0]] + a[1..] && b == [b[0]] + b[1..];
    }
  }

  lemma NoRecords(es: seq<LogEntry>)
    ensures Records(es) == [] <==> es == []
  {
  }

  /** A refused first entry changes nothing. */
  lemma RefusedAtOnce(st: Store, es: seq<LogEntry>, batch: seq<LogEntry>)
    requires Rep(st, es) && RefusedFirst(es, batch)
    ensures AppendEntries(st, batch).1.Err? && AppendEntries(st, batch).0 == st
  {
    hide IndexOf, Records;
    LastOf(es);
    FirstGuard(es, batch);
  }

  /** A first entry that passes is written. */
  lemma FirstIsWritten(st: Store, es: seq<LogEntry>, batch: seq<LogEntry>)
    requires Rep(st, es) && batch != [] && !RefusedFirst(es, batch)
    ensures var e := batch[0];
            var st1 := Store(st.file + Record(e), st.index[e.index := (st.fileLen, e.term)], st.fileLen);
            && Small(e)
            && AppendFrom(st, st.fileLen, OrZero(LastIndex(st.index)), batch)
               == AppendFrom(st1, st.fileLen + HEADER_LEN + |e.op|, e.index, batch[1..])
  {
    hide IndexOf, Records, Record;
    LastOf(es);
    FirstGuard(es, batch);
  }

  /** What an append leaves represents a log exactly when the batch strictly continues the log
      or is refused at its first entry. Otherwise either a later entry was refused, and the
      file is longer than the store believes; or index 0 was taken twice. */
  lemma AppendRepIff(st: Store, es: seq<LogEntry>, batch: seq<LogEntry>)
    requires Rep(st, es)
    ensures (exists es' :: Rep(AppendEntries(st, batch).0, es')) <==> Continues(es, batch) || RefusedFirst(es, batch)
  {
    hide IndexOf, Records, Record, LastIndex, Increasing, RefusedFirst;
    var after := AppendEntries(st, batch).0;
    if Continues(es, batch) {
      AppendRefines(st, es, batch);
    } else if RefusedFirst(es, batch) {
      RefusedAtOnce(st, es, batch);
    } else if exists es' :: Rep(after, es') {
      var es' :| Rep(after, es');
      if AppendEntries(st, batch).1.Ok? {
        AppendFile(st, st.fileLen, OrZero(LastIndex(st.index)), batch);
        RecordsAppend(es, batch);
        assert forall e :: e in es + batch ==> e in es || e in batch;
        RecordsInjective(es', es + batch);
      } else {
        NothingAppended(st);
        FirstIsWritten(st, es, batch);
        var e := batch[0];
        AppendGrows(Store(st.file + Record(e), st.index[e.index := (st.fileLen, e.term)], st.fileLen),
                    st.fileLen + HEADER_LEN + |e.op|, e.index, batch[1..]);
        RecordLen(e);
      }
      assert false;
    }
  }

  lemma NothingAppended(st: Store)
    ensures AppendEntries(st, []).1.Ok?
  {
  }

  /** Refused in the middle: the accepted entries are in the file, but the believed length is
      not updated. The next entry appended is then indexed at the first of them, and reading
      it reports corruption. */
  lemma RefusedMidway(st: Store, es: seq<LogEntry>, batch: seq<LogEntry>, next: LogEntry)
    requires Rep(st, es) && !Accepts(es, batch) && !RefusedFirst(es, batch)
    requires Small(next) && next.index > OrZero(LastIndex(AppendEntries(st, batch).0.index))
    ensures var broken := AppendEntries(st, batch).0;
            && broken.fileLen < |broken.file|
            && AppendEntries(broken, [next]).1.Ok?
            && ReadEntry(AppendEntries(broken, [next]).0, next.index) == Err(Corruption)
  {
    hide Record, Records, IndexOf, Increasing, RefusedFirst, Accepts;
    AcceptedIff(st, es, batch);
    NothingAppended(st);
    FirstIsWritten(st, es, batch);
    var e := batch[0];
    var st1 := Store(st.file + Record(e), st.index[e.index := (st.fileLen, e.term)], st.fileLen);
    AppendGrows(st1, st.fileLen + HEADER_LEN + |e.op|, e.index, batch[1..]);
    var broken := AppendEntries(st, batch).0;
    assert broken == AppendFrom(st1, st.fileLen + HEADER_LEN + |e.op|, e.index, batch[1..]).0;
    assert e.index in broken.index.Keys;
    RecordLen(e);
    assert broken.file[..|st1.file|] == st.file + Record(e);
    var file := broken.file + Record(next);
    FrontSlice(file, |st.file|, |st1.file|, st.file, Record(e));
    HeaderReads(file, |st.file|, e);
    NextRead(broken, next);
  }

  /** Index 0 is accepted twice in one batch, and no log is left. */
  lemma ZeroIsTakenTwice()
    ensures var zeros := [LogEntry(0, 1, []), LogEntry(0, 2, [])];
            var r := AppendEntries(OpenStore([]), zeros);
            r.1.Ok? && RepeatsZero([], zeros) && !exists es' :: Rep(r.0, es')
  {
    hide Rep, Records, OpenStore, AppendEntries;
    EmptyStore();
    var zeros := [LogEntry(0, 1, []), LogEntry(0, 2, [])];
    assert [] + zeros == zeros;
    assert IsZeroPair([] + zeros, 1);
    AcceptedIff(OpenStore([]), [], zeros);
    AcceptedIncreasesIff([], zeros);
    AppendRepIff(OpenStore([]), [], zeros);
  }

  /** A batch that falls back is refused after its first entry was written. */
  lemma FallingBackBreaks()
    ensures var fallsBack := [LogEntry(2, 1, []), LogEntry(1, 1, [])];
            var r := AppendEntries(OpenStore([]), fallsBack);
            r.1.Err? && !RefusedFirst([], fallsBack) && !exists es' :: Rep(r.0, es')
  {
    hide Rep, Records, OpenStore, AppendEntries;
    EmptyStore();
    var fallsBack := [LogEntry(2, 1, []), LogEntry(1, 1, [])];
    assert [] + fallsBack == fallsBack;
    assert !GuardPasses([] + fallsBack, 1);
    AcceptedIff(OpenStore([]), [], fallsBack);
    assert fallsBack[0].index > fallsBack[1].index;
    AppendRepIff(OpenStore([]), [], fallsBack);
  }

  lemma NextRead(st: Store, next: LogEntry)
    requires Small(next) && next.index > OrZero(LastIndex(st.index))
    ensures AppendEntries(st, [next]).1.Ok?
    ensures var r := AppendEntries(st, [next]).0;
            r.file == st.file + Record(next) && r.index == st.index[next.index := (st.fileLen, next.term)]
  {
    hide Record, LastIndex;
    var prev := OrZero(LastIndex(st.index));
    var st1 := Store(st.file + Record(next), st.index[next.index := (st.fileLen, next.term)], st.fileLen);
    var offset := st.fileLen + HEADER_LEN + |next.op|;
    assert [next][1..] == [];
    assert AppendFrom(st1, offset, next.index, []) == (st1, offset, Ok(()));
    assert AppendFrom(st, st.fileLen, prev, [next]) == AppendFrom(st1, offset, next.index, []);
  }

  lemma FrontSlice(file: bytes, a: nat, b: nat, x: bytes, y: bytes)
    requires a <= b <= |file| && |x| == a && |y| == b - a
    requires file[..b] == x + y
    ensures file[a..b] == y
  {
    assert file[a..b] == file[..b][a..];
  }

  // Reopen

  lemma {:induction false} RebuildFrom(es: seq<LogEntry>, j: nat)
    requires Increasing(es) && (forall e :: e in es ==> Small(e)) && j <= |es|
    ensures Rebuild(Records(es), |Records(es[..j])|, IndexOf(es[..j])) == Store(Records(es), IndexOf(es), |Records(es)|)
    decreases |es| - j
  {
    hide Record, Records;
    if j == |es| {
      assert es[..j] == es;
    } else {
      var e, file, off := es[j], Records(es), |Records(es[..j])|;
      assert e in es;
      RecordAt(es, j);
      RecordLen(e);
      HeaderReads(file, off, e);
      assert es[..j + 1][..j] == es[..j];
      RebuildFrom(es, j + 1);
    }
  }

  /** Reopening rebuilds the identical store from the file. */
  lemma ReopenRestores(st: Store, es: seq<LogEntry>)
    requires Rep(st, es)
    ensures OpenStore(st.file) == st
  {
    RebuildFrom(es, 0);
    assert es[..0] == [];
  }

  // Truncate

  function Under(es: seq<LogEntry>, k: nat): (r: seq<LogEntry>)
  {
    if es == [] then []
    else if es[|es| - 1].index < k then es
    else Under(es[..|es| - 1], k)
  }

  function UpTo(es: seq<LogEntry>, k: nat): (r: seq<LogEntry>)
  {
    Under(es, k + 1)
  }

  function From(es: seq<LogEntry>, k: nat): (r: seq<LogEntry>)
  {
    if es == [] then []
    else if es[0].index >= k then es
    else From(es[1..], k)
  }

  /** On a strictly increasing list these are the entries up to, and from, an index. */
  lemma UpToIsFilter(es: seq<LogEntry>, k: nat)
    requires Increasing(es)
    ensures |UpTo(es, k)| <= |es| && UpTo(es, k) == es[..|UpTo(es, k)|]
    ensures forall i :: 0 <= i < |es| ==> (i < |UpTo(es, k)| <==> es[i].index <= k)
  {
    UnderIsFilter(es, k + 1);
  }

  lemma {:induction false} UnderIsFilter(es: seq<LogEntry>, k: nat)
    requires Increasing(es)
    ensures |Under(es, k)| <= |es| && Under(es, k) == es[..|Under(es, k)|]
    ensures forall i :: 0 <= i < |es| ==> (i < |Under(es, k)| <==> es[i].index < k)
  {
    if es != [] && es[|es| - 1].index >= k {
      var front := es[..|es| - 1];
      assert forall i :: 0 <= i < |front| ==> front[i] == es[i];
      UnderIsFilter(front, k);
      var n := |Under(front, k)|;
      assert front[..n] == es[..n];
    } else {
      assert es[..|es|] == es;
    }
  }

  lemma {:induction false} FromIsFilter(es: seq<LogEntry>, k: nat)
    requires Increasing(es)
    ensures |From(es, k)| <= |es| && From(es, k) == es[|es| - |From(es, k)|..]
    ensures forall i :: 0 <= i < |es| ==> (i >= |es| - |From(es, k)| <==> es[i].index >= k)
  {
    if es != [] && es[0].index < k {
      var rest := es[1..];
      assert forall i :: 0 <= i < |rest| ==> rest[i] == es[i + 1];
      FromIsFilter(rest, k);
      var m := |rest| - |From(rest, k)|;
      assert rest[m..] == es[m + 1..];
    }
  }

  /** The cut point is a record, or there is nothing on one side of it. */
  ghost predicate CutIsClean(es: seq<LogEntry>, k: nat)
  {
    || (exists j :: 0 <= j < |es| && es[j].index == k)
    || (forall j :: 0 <= j < |es| ==> es[j].index <= k)
    || (forall j :: 0 <= j < |es| ==> es[j].index > k)
  }

  lemma IndexPrefix(es: seq<LogEntry>, n: nat, k: nat)
    requires Increasing(es) && n <= |es|
    requires forall i :: 0 <= i < |es| ==> (i < n <==> es[i].index <= k)
    ensures (map i | i in IndexOf(es) && i <= k :: IndexOf(es)[i]) == IndexOf(es[..n])
  {
    hide IndexOf, Records;
    var a, b := (map i | i in IndexOf(es) && i <= k :: IndexOf(es)[i]), IndexOf(es[..n]);
    assert Increasing(es[..n]);
    forall i: nat
      ensures i in a <==> i in b
      ensures i in a && i in b ==> a[i] == b[i]
    {
      IndexKeys(es, i);
      IndexKeys(es[..n], i);
      if j :| 0 <= j < n && es[..n][j].index == i {
        assert es[j].index == i;
        IndexAt(es, j);
        IndexAt(es[..n], j);
        assert es[..n][..j] == es[..j];
      }
      if j :| 0 <= j < |es| && es[j].index == i && i <= k {
        assert es[..n][j].index == i;
      }
    }
  }

  lemma PrefixRep(st: Store, es: seq<LogEntry>, n: nat, k: nat)
    requires Rep(st, es) && n <= |es|
    requires forall i :: 0 <= i < |es| ==> (i < n <==> es[i].index <= k)
    ensures var cut := |Records(es[..n])|;
            && cut <= |st.file|
            && Rep(Store(st.file[..cut], map i | i in st.index && i <= k :: st.index[i], cut), es[..n])
  {
    hide Records, IndexOf;
    IndexPrefix(es, n, k);
    if n < |es| {
      RecordAt(es, n);
    } else {
      assert es[..n] == es && st.file[..|st.file|] == st.file;
    }
  }

  /** A cut at a record keeps the file up to the end of that record. */
  lemma TruncateAtRecord(st: Store, es: seq<LogEntry>, k: nat, j: nat)
    requires Rep(st, es) && j < |es| && es[j].index == k
    ensures TruncateAfter(st, k).1.Ok? && Rep(TruncateAfter(st, k).0, es[..j + 1])
  {
    hide Records, IndexOf, ReadEntry, Record;
    assert forall i :: 0 <= i < |es| ==> (i < j + 1 <==> es[i].index <= k);
    PrefixRep(st, es, j + 1, k);
    ReadReturns(st, es, k);
    IndexAt(es, j);
    RecordAt(es, j);
    RecordLen(es[j]);
  }

  /** Truncation keeps exactly the entries up to the cut, and a store that represents some log
      at all, if and only if the cut is clean. Otherwise it empties the file but keeps the
      older entries in the index. */
  lemma TruncateIff(st: Store, es: seq<LogEntry>, k: nat)
    requires Rep(st, es)
    ensures TruncateAfter(st, k).1.Ok?
    ensures CutIsClean(es, k) <==> Rep(TruncateAfter(st, k).0, UpTo(es, k))
    ensures CutIsClean(es, k) <==> exists es' :: Rep(TruncateAfter(st, k).0, es')
  {
    hide Records, IndexOf, ReadEntry, UpTo;
    UpToIsFilter(es, k);
    var n := |UpTo(es, k)|;
    if j :| 0 <= j < |es| && es[j].index == k {
      TruncateAtRecord(st, es, k, j);
      assert n == j + 1 by {
        assert j < n;
        if j + 1 < |es| { assert es[j + 1].index > k; }
      }
    } else {
      IndexKeys(es, k);
      LastOf(es);
      if forall j :: 0 <= j < |es| ==> es[j].index <= k {
        assert n == |es| by { if es != [] { assert es[|es| - 1].index <= k; } }
        assert UpTo(es, k) == es;
      } else {
        assert es[|es| - 1].index > k;
        assert CutIsClean(es, k) <==> n == 0 by {
          if n > 0 { assert es[0].index <= k; }
        }
        EmptyFile(TruncateAfter(st, k).0, es, k, n);
      }
    }
  }

  /** An emptied file represents a log only if the index is empty too. */
  lemma EmptyFile(st: Store, es: seq<LogEntry>, k: nat, n: nat)
    requires Increasing(es) && n <= |es| && (forall i :: 0 <= i < |es| ==> (i < n <==> es[i].index <= k))
    requires st == Store([], map i | i in IndexOf(es) && i <= k :: IndexOf(es)[i], 0)
    ensures n == 0 ==> Rep(st, [])
    ensures n > 0 ==> forall es' :: !Rep(st, es')
  {
    hide IndexOf;
    IndexPrefix(es, n, k);
    if n == 0 {
      assert es[..0] == [];
      assert IndexOf([]) == map[] by { IndexOfNone(); }
    } else {
      IndexKeys(es[..n], es[0].index);
      assert es[..n][0] == es[0];
      forall es' | Rep(st, es')
        ensures false
      {
        RecordsEmpty(es');
        IndexOfNone();
      }
    }
  }

  lemma IndexOfNone()
    ensures IndexOf([]) == map[] && Records([]) == []
  {
  }

  lemma RecordsEmpty(es: seq<LogEntry>)
    requires Records(es) == []
    ensures es == []
  {
  }

  ghost predicate Contiguous(es: seq<LogEntry>)
  {
    forall i :: 0 <= i < |es| ==> es[i].index == es[0].index + i
  }

  /** On a contiguous log every cut is clean. */
  lemma ContiguousCuts(es: seq<LogEntry>, k: nat)
    requires Contiguous(es)
    ensures CutIsClean(es, k) && Increasing(es)
  {
    if es != [] && es[0].index <= k < es[0].index + |es| {
      assert es[k - es[0].index].index == k;
    }
  }

  // Purge

  function Indexes(es: seq<LogEntry>): (r: seq<nat>)
    ensures |r| == |es|
    ensures forall j :: 0 <= j < |es| ==> r[j] == es[j].index
  {
    seq(|es|, j requires 0 <= j < |es| => es[j].index)
  }

  lemma {:induction false} SortedIndexes(r: seq<nat>, s: set<nat>)
    requires forall i, j :: 0 <= i < j < |r| ==> r[i] < r[j]
    requires forall x :: x in s <==> x in r
    ensures Sorted(s) == r
    decreases |r|
  {
    if r == [] {
      assert s == {};
    } else {
      var n := |r| - 1;
      var front, t := r[..n], s - {r[n]};
      assert r == front + [r[n]];
      assert r[n] in s;
      assert MaxOf(s) == r[n];
      assert forall x :: x in front ==> x < r[n];
      SortedIndexes(front, t);
    }
  }

  lemma {:induction false} CopyKept(st: Store, es: seq<LogEntry>, kept: seq<LogEntry>, keys: seq<nat>)
    requires Rep(st, es) && Increasing(kept) && (forall e :: e in kept ==> e in es)
    requires |keys| == |kept| && forall j :: 0 <= j < |kept| ==> keys[j] == kept[j].index
    ensures Copied(st, keys).Ok? && Rep(Copied(st, keys).value, kept)
    decreases |kept|
  {
    hide Rep, Record, ReadEntry;
    if kept == [] {
      assert Rep(Store([], map[], 0), []) by { EmptyStore(); }
    } else {
      var n := |kept| - 1;
      var front, e := kept[..n], kept[n];
      assert front + [e] == kept;
      CopyKept(st, es, front, keys[..n]);
      RepHas(st, es, e);
      SnocRep(Copied(st, keys[..n]).value, front, e);
    }
  }

  lemma RepHas(st: Store, es: seq<LogEntry>, e: LogEntry)
    requires Rep(st, es) && e in es
    ensures Small(e) && ReadEntry(st, e.index) == Ok(e)
  {
    hide Records, IndexOf, ReadEntry;
    ReadReturns(st, es, e.index);
  }

  /** The keys that stay, in order, are the indexes of the entries that stay. */
  lemma KeptKeys(es: seq<LogEntry>, k: nat)
    requires Increasing(es)
    ensures Sorted(set i | i in IndexOf(es) && i >= k) == Indexes(From(es, k))
  {
    hide IndexOf, Sorted, From;
    FromIsFilter(es, k);
    var s, kept := (set i | i in IndexOf(es) && i >= k), From(es, k);
    var r, d := Indexes(kept), |es| - |kept|;
    assert forall j :: 0 <= j < |kept| ==> kept[j] == es[d + j];
    forall x: nat
      ensures x in s <==> x in r
    {
      IndexKeys(es, x);
      KeptKey(es, k, d, x);
      assert r == Indexes(es[d..]);
    }
    SortedIndexes(r, s);
  }

  lemma KeptKey(es: seq<LogEntry>, k: nat, d: nat, x: nat)
    requires d <= |es| && forall i :: 0 <= i < |es| ==> (i >= d <==> es[i].index >= k)
    ensures x in Indexes(es[d..]) <==> x >= k && exists j :: 0 <= j < |es| && es[j].index == x
  {
    var r := Indexes(es[d..]);
    if x >= k {
      if j :| 0 <= j < |es| && es[j].index == x {
        assert r[j - d] == x;
      }
    }
    if x in r {
      var j :| 0 <= j < |r| && r[j] == x;
      assert es[d + j].index == x;
    }
  }

  /** Purging keeps exactly the entries from the given index on. */
  lemma PurgeRefines(st: Store, es: seq<LogEntry>, k: nat)
    requires Rep(st, es)
    ensures PurgeBefore(st, k).1.Ok? && Rep(PurgeBefore(st, k).0, From(es, k))
  {
    hide Records, IndexOf, Copied, Sorted, From;
    FromIsFilter(es, k);
    var kept := From(es, k);
    KeptKeys(es, k);
    IndexCount(es);
    if |kept| == |es| {
      assert kept == es[0..] == es;
    } else {
      assert Increasing(kept) && forall e :: e in kept ==> e in es;
      CopyKept(st, es, kept, Indexes(kept));
    }
  }

  lemma {:induction false} IndexCount(es: seq<LogEntry>)
    requires Increasing(es)
    ensures |IndexOf(es)| == |es|
  {
    hide Records;
    if es != [] {
      var n := |es| - 1;
      var front := es[..n];
      assert forall i :: 0 <= i < n ==> front[i] == es[i];
      IndexCount(front);
      IndexKeys(front, es[n].index);
    }
  }

  // Whole runs

  datatype Op = Append(batch: seq<LogEntry>) | Truncate(lastKept: nat) | Purge(firstKept: nat) | Reopen

  function Step(st: Store, op: Op): (r: Store)
  {
    match op
    case Append(batch) => AppendEntries(st, batch).0
    case Truncate(k) => TruncateAfter(st, k).0
    case Purge(k) => PurgeBefore(st, k).0
    case Reopen => OpenStore(st.file)
  }

  /** The same step on the plain list of entries; a refused batch leaves it alone. */
  ghost function ListStep(es: seq<LogEntry>, op: Op): (r: seq<LogEntry>)
  {
    match op
    case Append(batch) => if Continues(es, batch) then es + batch else es
    case Truncate(k) => UpTo(es, k)
    case Purge(k) => From(es, k)
    case Reopen => es
  }

  /** Batches strictly continue the log or are refused at once, and truncations cut cleanly. */
  ghost predicate Allowed(es: seq<LogEntry>, op: Op)
  {
    match op
    case Append(batch) => Continues(es, batch) || RefusedFirst(es, batch)
    case Truncate(k) => CutIsClean(es, k)
    case Purge(_) => true
    case Reopen => true
  }

  function Run(st: Store, ops: seq<Op>): (r: Store)
  {
    if ops == [] then st else Step(Run(st, ops[..|ops| - 1]), ops[|ops| - 1])
  }

  ghost function ListRun(ops: seq<Op>): (r: seq<LogEntry>)
  {
    if ops == [] then [] else ListStep(ListRun(ops[..|ops| - 1]), ops[|ops| - 1])
  }

  ghost predicate AllAllowed(ops: seq<Op>)
  {
    forall i :: 0 <= i < |ops| ==> Allowed(ListRun(ops[..i]), ops[i])
  }

  /** A step takes the store to that of the list step exactly when it is allowed; otherwise the
      store it leaves is that of no list at all. */
  lemma StepRefines(st: Store, es: seq<LogEntry>, op: Op)
    requires Rep(st, es)
    ensures Allowed(es, op) <==> Rep(Step(st, op), ListStep(es, op))
    ensures Allowed(es, op) <==> exists es' :: Rep(Step(st, op), es')
  {
    hide Rep, AppendEntries, TruncateAfter, PurgeBefore, OpenStore, Continues, RefusedFirst, CutIsClean, UpTo, From;
    match op {
      case Append(batch) =>
        AppendRepIff(st, es, batch);
        if Continues(es, batch) {
          AppendRefines(st, es, batch);
        } else if RefusedFirst(es, batch) {
          RefusedAtOnce(st, es, batch);
        }
      case Truncate(k) => TruncateIff(st, es, k);
      case Purge(k) => PurgeRefines(st, es, k);
      case Reopen => ReopenRestores(st, es);
    }
  }

  lemma {:induction false} RunRefines(ops: seq<Op>)
    requires AllAllowed(ops)
    ensures Rep(Run(OpenStore([]), ops), ListRun(ops))
  {
    hide Rep, Step, ListStep, Allowed;
    if ops == [] {
      assert Rep(OpenStore([]), []) by { EmptyStore(); }
    } else {
      var n := |ops| - 1;
      AllowedSnoc(ops);
      RunRefines(ops[..n]);
      StepRefines(Run(OpenStore([]), ops[..n]), ListRun(ops[..n]), ops[n]);
    }
  }

  /** The store is that of some list at every point of a run. */
  ghost predicate AlwaysALog(ops: seq<Op>)
  {
    forall i :: 0 <= i <= |ops| ==> IsALog(Run(OpenStore([]), ops[..i]))
  }

  ghost predicate IsALog(st: Store)
  {
    exists es :: Rep(st, es)
  }

  lemma AlwaysSnoc(ops: seq<Op>)
    requires ops != []
    ensures AlwaysALog(ops) <==> AlwaysALog(ops[..|ops| - 1]) && IsALog(Run(OpenStore([]), ops))
  {
    hide IsALog, Run, OpenStore;
    var n := |ops| - 1;
    assert forall i :: 0 <= i <= n ==> ops[..n][..i] == ops[..i];
    assert ops[..n + 1] == ops;
  }

  lemma AllowedSnoc(ops: seq<Op>)
    requires ops != []
    ensures var n := |ops| - 1;
            AllAllowed(ops) <==> AllAllowed(ops[..n]) && Allowed(ListRun(ops[..n]), ops[n])
  {
    hide Allowed, ListRun;
    var n := |ops| - 1;
    assert forall i :: 0 <= i < n ==> ops[..n][..i] == ops[..i] && ops[..n][i] == ops[i];
  }

  /** Exactly the allowed runs keep the store that of a list. */
  lemma {:induction false} AlwaysALogIff(ops: seq<Op>)
    ensures AlwaysALog(ops) <==> AllAllowed(ops)
  {
    hide Rep, Step, ListStep, Allowed, OpenStore;
    if ops == [] {
      EmptyStore();
      assert ops[..0] == [];
    } else {
      var n := |ops| - 1;
      var front, st := ops[..n], OpenStore([]);
      AlwaysALogIff(front);
      AlwaysSnoc(ops);
      AllowedSnoc(ops);
      if AllAllowed(front) {
        RunRefines(front);
        StepRefines(Run(st, front), ListRun(front), ops[n]);
      }
    }
  }

  lemma EmptyStore()
    ensures Rep(OpenStore([]), [])
  {
  }

  /** After every allowed run of appends, truncations, purges and reopens the store is the plain list:
      reading finds exactly its entries, and reopening changes nothing. */
  lemma StoreRefinesList(ops: seq<Op>, i: nat)
    requires AllAllowed(ops)
    ensures var st, es := Run(OpenStore([]), ops), ListRun(ops);
            && st.file == Records(es)
            && OpenStore(st.file) == st
            && Finds(es, i, ReadEntry(st, i))
  {
    hide Run, ListRun, AllAllowed, ReadEntry, OpenStore;
    RunRefines(ops);
    ReopenRestores(Run(OpenStore([]), ops), ListRun(ops));
    ReadReturns(Run(OpenStore([]), ops), ListRun(ops), i);
  }

  // Ranges

  /** The entries found at the `n` indexes from `start` on. */
  function ReadNext(st: Store, start: nat, n: nat): (r: Result<seq<LogEntry>, LogError>)
  {
    if n == 0 then Ok([])
    else match ReadNext(st, start, n - 1)
      case Err(x) => Err(x)
      case Ok(out) =>
        if start + n - 1 !in st.index then Ok(out)
        else match ReadEntry(st, start + n - 1)
          case Err(x) => Err(x)
          case Ok(e) => Ok(out + [e])
  }

  function RangeOf(st: Store, start: nat, end: nat): (r: Result<seq<LogEntry>, LogError>)
  {
    if end < start then Ok([]) else ReadNext(st, start, end - start + 1)
  }

  lemma {:induction false} RangeFails(st: Store, start: nat, n: nat, m: nat)
    requires n <= m && ReadNext(st, start, n).Err?
    ensures ReadNext(st, start, m) == ReadNext(st, start, n)
    decreases m - n
  {
    hide ReadEntry;
    if n < m {
      RangeFails(st, start, n + 1, m);
    }
  }

  /** The first `n` entries are those with an index below `k`. */
  ghost predicate IsCut(es: seq<LogEntry>, n: nat, k: nat)
  {
    n <= |es| && forall x :: 0 <= x < |es| ==> (x < n <==> es[x].index < k)
  }

  lemma CutUnique(es: seq<LogEntry>, a: nat, b: nat, k: nat)
    requires IsCut(es, a, k) && IsCut(es, b, k)
    ensures a == b
  {
    if a < |es| {
      assert es[a].index >= k;
    }
    if b < |es| {
      assert es[b].index >= k;
    }
  }

  lemma UnderIs(es: seq<LogEntry>, n: nat, k: nat)
    requires Increasing(es) && IsCut(es, n, k)
    ensures Under(es, k) == es[..n]
  {
    hide Under;
    UnderIsFilter(es, k);
    CutUnique(es, n, |Under(es, k)|, k);
  }

  lemma UnderGrows(tail: seq<LogEntry>, x: nat, i: nat)
    requires Increasing(tail) && x < |tail| && tail[x].index == i
    ensures Under(tail, i + 1) == Under(tail, i) + [tail[x]]
  {
    hide Under;
    UnderIs(tail, x, i);
    UnderIs(tail, x + 1, i + 1);
    assert tail[..x + 1] == tail[..x] + [tail[x]];
  }

  lemma UnderStays(tail: seq<LogEntry>, i: nat)
    requires Increasing(tail) && forall x :: 0 <= x < |tail| ==> tail[x].index != i
    ensures Under(tail, i + 1) == Under(tail, i)
  {
    hide Under;
    UnderIsFilter(tail, i);
    UnderIs(tail, |Under(tail, i)|, i + 1);
  }

  lemma {:induction false} NextReturns(st: Store, es: seq<LogEntry>, start: nat, n: nat)
    requires Rep(st, es)
    ensures ReadNext(st, start, n) == Ok(Under(From(es, start), start + n))
  {
    hide ReadEntry, IndexOf, Records, Under, From;
    FromIsFilter(es, start);
    var tail := From(es, start);
    var d := |es| - |tail|;
    assert forall j :: 0 <= j < |tail| ==> tail[j] == es[d + j];
    if n > 0 {
      var i := start + n - 1;
      NextReturns(st, es, start, n - 1);
      IndexKeys(es, i);
      ReadReturns(st, es, i);
      if j :| 0 <= j < |es| && es[j].index == i {
        assert tail[j - d] == es[j];
        UnderGrows(tail, j - d, i);
      } else {
        UnderStays(tail, i);
      }
    } else {
      UnderIs(tail, 0, start);
    }
  }

  /** A range read returns exactly the entries whose index lies in the range, in order. */
  lemma RangeReturns(st: Store, es: seq<LogEntry>, start: nat, end: nat)
    requires Rep(st, es)
    ensures RangeOf(st, start, end) == Ok(UpTo(From(es, start), end))
  {
    hide ReadNext, Under, From;
    if end < start {
      FromIsFilter(es, start);
      var tail := From(es, start);
      assert forall j :: 0 <= j < |tail| ==> tail[j] == es[|es| - |tail| + j];
      UnderIs(tail, 0, end + 1);
    } else {
      NextReturns(st, es, start, end - start + 1);
    }
  }

  // The store object

  class LogStore {
    var file: bytes
    var index: map<nat, (nat, nat)>
    var fileLen: nat

    function View(): (st: Store)
      reads this
    {
      Store(file, index, fileLen)
    }

    constructor Open(file: bytes)
      ensures View() == OpenStore(file)
    {
      this.file := file;
      index := map[];
      fileLen := 0;
      new;
      RebuildIndex();
    }

    method RebuildIndex()
      requires index == map[]
      modifies this`index, this`fileLen
      ensures View() == OpenStore(file)
    {
      var offset := 0;
      while offset + HEADER_LEN <= |file|
        invariant Rebuild(file, offset, index) == OpenStore(file)
        decreases |file| - offset
      {
        var i := LeValue(file[offset..offset + 8]);
        var term := LeValue(file[offset + 8..offset + 16]);
        var len := LeValue(file[offset + 16..offset + 20]);
        index := index[i := (offset, term)];
        offset := offset + HEADER_LEN + len;
      }
      fileLen := offset;
    }

    method AppendBatch(entries: seq<LogEntry>) returns (r: Result<(), LogError>)
      modifies this
      ensures (View(), r) == AppendEntries(old(View()), entries)
    {
      hide LastIndex;
      var prev := OrZero(LastIndex(index));
      var offset: nat := fileLen;
      for i := 0 to |entries|
        invariant fileLen == old(fileLen)
        invariant AppendFrom(View(), offset, prev, entries[i..])
               == AppendFrom(old(View()), old(fileLen), OrZero(LastIndex(old(index))), entries)
      {
        var e := entries[i];
        assert entries[i..][1..] == entries[i + 1..];
        if prev != 0 && e.index <= prev { return Err(NonMonotonic(prev, e.index)); }
        if !Small(e) { return Err(Corruption); }
        file := file + Record(e);
        index := index[e.index := (offset, e.term)];
        offset := offset + HEADER_LEN + |e.op|;
        prev := e.index;
      }
      fileLen := offset;
      r := Ok(());
    }

    method ReadIndex(i: nat) returns (r: Result<LogEntry, LogError>)
      ensures r == ReadEntry(View(), i)
      ensures forall es :: Rep(View(), es) ==> Finds(es, i, r)
    {
      forall es | Rep(View(), es)
        ensures Finds(es, i, ReadEntry(View(), i))
      {
        ReadReturns(View(), es, i);
      }
      if i !in index { return Err(NotFound(i)); }
      var offset := index[i].0;
      if offset + HEADER_LEN > |file| { return Err(Io); }
      var header := file[offset..offset + HEADER_LEN];
      assert header[0..8] == file[offset..offset + 8];
      assert header[8..16] == file[offset + 8..offset + 16];
      assert header[16..20] == file[offset + 16..offset + 20];
      var gotIndex, term, len := LeValue(header[0..8]), LeValue(header[8..16]), LeValue(header[16..20]);
      if gotIndex != i { return Err(Corruption); }
      var start := offset + HEADER_LEN;
      if start + len > |file| { return Err(Io); }
      Le8(header[0..8]);
      Le8(header[8..16]);
      r := Ok(LogEntry(gotIndex, term, file[start..start + len]));
    }

    /** Every entry between two indexes, both included. */
    method ReadRange(start: nat, end: nat) returns (r: Result<seq<LogEntry>, LogError>)
      ensures r == RangeOf(View(), start, end)
    {
      hide ReadEntry;
      if end < start { return Ok([]); }
      var out: seq<LogEntry> := [];
      for i := start to end + 1
        invariant ReadNext(View(), start, i - start) == Ok(out)
      {
        if i in index {
          var e := ReadIndex(i);
          if e.Err? {
            RangeFails(View(), start, i + 1 - start, end + 1 - start);
            return Err(e.error);
          }
          out := out + [e.value];
        }
      }
      r := Ok(out);
    }

    method TruncateTail(lastKept: nat) returns (r: Result<(), LogError>)
      modifies this
      ensures (View(), r) == TruncateAfter(old(View()), lastKept)
    {
      hide ReadEntry, LastIndex;
      var cut := 0;
      if lastKept in index {
        var e := ReadIndex(lastKept);
        if e.Err? { return Err(e.error); }
        cut := index[lastKept].0 + HEADER_LEN + |e.value.op|;
      } else if OrZero(LastIndex(index)) <= lastKept {
        return Ok(());
      }
      file := SetLen(file, cut);
      fileLen := cut;
      index := map i | i in index && i <= lastKept :: index[i];
      r := Ok(());
    }

    /** Copy the kept entries to a new file and rename it over the old one. */
    method PurgeHead(firstKept: nat) returns (r: Result<(), LogError>)
      modifies this
      ensures (View(), r) == PurgeBefore(old(View()), firstKept)
    {
      hide ReadEntry, Sorted;
      var kept := Sorted(set i | i in index && i >= firstKept);
      if kept == [] && index.Keys == {} { return Ok(()); }
      if |kept| == |index| { return Ok(()); }
      var tmp: bytes := [];
      var offsets: map<nat, (nat, nat)> := map[];
      var newOffset: nat := 0;
      for i := 0 to |kept|
        invariant View() == old(View())
        invariant Copied(View(), kept[..i]) == Ok(Store(tmp, offsets, newOffset))
      {
        assert kept[..i + 1][..i] == kept[..i];
        var e := ReadIndex(kept[i]);
        if e.Err? {
          CopyFails(View(), kept, i + 1);
          return Err(e.error);
        }
        tmp := tmp + Record(e.value);
        offsets := offsets[e.value.index := (newOffset, e.value.term)];
        newOffset := newOffset + HEADER_LEN + |e.value.op|;
      }
      assert kept[..|kept|] == kept;
      file, index, fileLen := tmp, offsets, newOffset;
      r := Ok(());
    }
  }

  /** Once copying has failed it stays failed, with the same error. */
  lemma {:induction false} CopyFails(st: Store, keys: seq<nat>, n: nat)
    requires n <= |keys| && Copied(st, keys[..n]).Err?
    ensures Copied(st, keys) == Copied(st, keys[..n])
    decreases |keys| - n
  {
    hide ReadEntry;
    if n == |keys| {
      assert keys[..n] == keys;
    } else {
      assert keys[..n + 1][..n] == keys[..n];
      CopyFails(st, keys, n + 1);
    }
  }
}
