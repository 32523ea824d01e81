/** The write engine's durability protocol over the bytes of its log
    (`cqlite-core/src/storage/write_engine/mod.rs`, `durability.rs`, `wal.rs`): log,
    sync, memtable, acknowledge; publish an SSTable, then truncate the log.  Every
    fallible step takes its failure as a parameter. */
module Engine {
  import opened Prelude
  import opened Wal

  /** `keyed`: the partition key can be computed; `counter`: carries a counter cell. */
  datatype Mutation = Mutation(id: nat, keyed: bool, counter: bool)

  /** The log's checksum and decoder, and how a mutation is serialised. */
  datatype Format = Format(codec: Codec<Mutation>, encode: Mutation -> Bytes)

  ghost predicate RoundTrips(c: Format) { forall m: Mutation :: c.codec.decode(c.encode(m)) == Some(m) }

  datatype WriteFault =
    | NoFault
    | NotAdmitted                // over the memtable hard limit
    | AppendFails(accepted: nat) // the log took so many bytes of the frame, then failed
    | SyncFails                  // the frame is written but may not be on disk
    | InsertFails

  datatype FlushFault =
    | WriterFails                // the SSTable could not be written
    | DirSyncFails               // written, but its directory entry is not durable
    | Published(truncate: TruncateFault)

  /** A write that was acknowledged, and where its frame stands in the log. */
  datatype Ack = Ack(m: Mutation, at: nat)

  /** `recent` records the writes acknowledged since the log was last emptied; no
      operation reads it. */
  datatype State = State(
    wal: LogState, memtable: seq<Mutation>, sstables: seq<seq<Mutation>>, closed: bool, recent: seq<Ack>)

  // ----- the operations -----

  function AppendIoOf(f: WriteFault): AppendIo { if f.AppendFails? then Broken(f.accepted) else Written }

  /** `write_into_memtable`. */
  function Write(c: Format, s: State, m: Mutation, f: WriteFault): (State, bool) {
    if s.closed || m.counter || f == NotAdmitted then (s, false)
    else
      var (appended, ok1) := AppendTo(c.codec, s.wal, c.encode(m), AppendIoOf(f));
      if !ok1 then (s.(wal := appended), false)
      else
        var (synced, ok2) := SyncTo(appended, f != SyncFails);
        if !ok2 || !m.keyed || f == InsertFails then (s.(wal := synced), false)
        else
          (s.(wal := synced, memtable := s.memtable + [m], recent := s.recent + [Ack(m, |s.wal.content|)]), true)
  }

  /** `flush_internal_async` with `finalize_flush_durability`. */
  function Flush(s: State, f: FlushFault): (State, bool) {
    if s.memtable == [] then (s, true)
    else if !f.Published? then (s, false)
    else
      var t := s.(memtable := [], sstables := s.sstables + [s.memtable]);
      if s.wal.size == 0 then (t, true)
      else
        var (wal, r) := TruncateTo(s.wal, f.truncate);
        (t.(wal := wal, recent := if wal.content == [] then [] else s.recent), r != ZeroedWithError)
  }

  /** `close`: flush, and stay open if that fails. */
  function Close(s: State, f: FlushFault): (State, bool) {
    if s.closed then (s, true)
    else
      var (t, ok) := Flush(s, f);
      if ok then (t.(closed := true), true) else (t, false)
  }

  /** One mutation of a statement: its write, and the flush it triggers if the
      memtable is then over the threshold. */
  datatype Part = Part(m: Mutation, write: WriteFault, flush: Option<FlushFault>)

  /** `execute_flushing`: stops at the first failure. */
  function ExecuteFlushing(c: Format, s: State, parts: seq<Part>): (State, bool)
    decreases |parts|
  {
    if s.closed then (s, false)
    else if parts == [] then (s, true)
    else
      var (t, ok) := WriteThenFlush(c, s, parts[0]);
      if ok then ExecuteFlushing(c, t, parts[1..]) else (t, false)
  }

  function WriteThenFlush(c: Format, s: State, p: Part): (State, bool) {
    var (t, ok) := Write(c, s, p.m, p.write);
    if !ok || p.flush.None? then (t, ok) else Flush(t, p.flush.value)
  }

  /** What a crash leaves of the log: at least what was synced. */
  function Cut(s: State, n: nat): Bytes { s.wal.content[..Least(n, |s.wal.content|)] }

  function ReadBack(c: Format, bytes: Bytes, a: Ack): bool { PayloadAt(c.codec, bytes, a.at) == Some(c.encode(a.m)) }

  function KeptAcks(c: Format, bytes: Bytes, acks: seq<Ack>): seq<Ack> {
    if acks == [] then []
    else
      var a := acks[|acks| - 1];
      KeptAcks(c, bytes, acks[..|acks| - 1]) + if ReadBack(c, bytes, a) then [a] else []
  }

  /** `WriteEngine::new` on what a crash left: open the log, replay it into a memtable,
      trim a corrupt tail; a replayed mutation whose key cannot be computed fails the
      construction. */
  function Reopen(c: Format, s: State, n: nat): Option<State> {
    var bytes := Cut(s, n);
    var replayed := ReportOf(c.codec, bytes).mutations;
    if forall i :: 0 <= i < |replayed| ==> replayed[i].keyed
    then Some(State(ResetTo(OpenOn(c.codec, bytes, s.wal.synced)), replayed, s.sstables, false,
                    KeptAcks(c, bytes, s.recent)))
    else None
  }

  // ----- the engine as an object -----

  class WriteEngine {
    const format: Format
    const wal: WriteAheadLog<Mutation>
    var memtable: seq<Mutation>
    var sstables: seq<seq<Mutation>>
    var closed: bool
    var recent: seq<Ack>

    function Snapshot(): State
      reads this, wal
    {
      State(wal.Snapshot(), memtable, sstables, closed, recent)
    }

    ghost predicate Joined() { wal.codec == format.codec }

    constructor (format: Format, s: State)
      ensures Snapshot() == s && this.format == format && Joined() && fresh(wal)
    {
      this.format := format;
      wal := new WriteAheadLog(format.codec, s.wal);
      memtable, sstables, closed, recent := s.memtable, s.sstables, s.closed, s.recent;
    }

    /** An acknowledged write is in the memtable, and its frame is synced in the log. */
    method WriteIntoMemtable(m: Mutation, f: WriteFault) returns (ok: bool)
      requires Joined()
      modifies this, wal
      ensures (Snapshot(), ok) == Write(format, old(Snapshot()), m, f)
      ensures ok ==> memtable == old(memtable) + [m] && wal.synced == |wal.content|
      ensures ok ==> Accepted(format.encode(m))
      ensures ok ==> wal.content == old(wal.content) + Frame(format.codec, format.encode(m))
      ensures !ok ==> memtable == old(memtable) && recent == old(recent)
    {
      hide Frame, PayloadAt, Scan, TornPart;
      if closed { return false; }
      if m.counter { return false; }
      if f == NotAdmitted { return false; }
      var at := |wal.content|;
      ok := wal.Append(format.encode(m), AppendIoOf(f));
      if !ok { return; }
      ok := wal.Sync(f != SyncFails);
      if !ok { return; }
      if !m.keyed || f == InsertFails { return false; }
      memtable := memtable + [m];
      recent := recent + [Ack(m, at)];
      return true;
    }

    /** A flush that succeeds leaves the memtable's content in an SSTable; one that
        fails has either done so too or changed nothing. */
    method FlushInternal(f: FlushFault) returns (ok: bool)
      modifies this, wal
      ensures (Snapshot(), ok) == Flush(old(Snapshot()), f)
      ensures ok ==> memtable == []
      ensures memtable == [] && old(memtable) != [] ==> sstables == old(sstables) + [old(memtable)]
      ensures memtable != [] ==> Snapshot() == old(Snapshot())
    {
      if memtable == [] { return true; }
      if !f.Published? { return false; }
      // the SSTable is durable: commit whatever becomes of the truncation
      var failed := false;
      if wal.size != 0 {
        var r := wal.TruncateChecked(f.truncate);
        failed := r == ZeroedWithError;
        if wal.content == [] { recent := []; }
      }
      sstables := sstables + [memtable];
      memtable := [];
      return !failed;
    }

    method CloseEngine(f: FlushFault) returns (ok: bool)
      modifies this, wal
      ensures (Snapshot(), ok) == Close(old(Snapshot()), f)
    {
      if closed { return true; }
      closed := true;
      if memtable != [] {
        var flushed := FlushInternal(f);
        if !flushed {
          closed := false;
          return false;
        }
      }
      return true;
    }

    method Execute(parts: seq<Part>) returns (ok: bool)
      requires Joined()
      modifies this, wal
      ensures (Snapshot(), ok) == ExecuteFlushing(format, old(Snapshot()), parts)
    {
      hide Frame, Write, Flush;
      if closed { return false; }
      var i := 0;
      assert parts[0..] == parts;
      while i < |parts|
        invariant 0 <= i <= |parts| && !closed
        invariant ExecuteFlushing(format, Snapshot(), parts[i..]) == ExecuteFlushing(format, old(Snapshot()), parts)
      {
        assert parts[i..][1..] == parts[i + 1..];
        StaysOpen(format, Snapshot(), parts[i]);
        ok := WriteIntoMemtable(parts[i].m, parts[i].write);
        if !ok { return; }
        if parts[i].flush.Some? {
          ok := FlushInternal(parts[i].flush.value);
          if !ok { return; }
        }
        i := i + 1;
      }
      return true;
    }
  }

  lemma {:induction false} StaysOpen(c: Format, s: State, p: Part)
    requires !s.closed
    ensures !WriteThenFlush(c, s, p).0.closed && !Write(c, s, p.m, p.write).0.closed
  {
    hide Frame, AppendTo;
  }

  // ----- the invariant -----

  predicate InSstables(s: State, m: Mutation) {
    exists i :: 0 <= i < |s.sstables| && m in s.sstables[i]
  }

  /** The frame of the write is in the log at its place, and on disk. */
  predicate Logged(c: Format, wal: LogState, a: Ack) {
    var p := c.encode(a.m);
    && Accepted(p) && a.at + 8 + |p| <= wal.synced <= |wal.content|
    && wal.content[a.at..a.at + 8 + |p|] == Frame(c.codec, p)
  }

  predicate HasAck(acks: seq<Ack>, m: Mutation) { exists i :: 0 <= i < |acks| && acks[i].m == m }

  /** Everything acknowledged is in an SSTable, or in the memtable and in the log. */
  ghost predicate Sound(c: Format, s: State, acked: set<Mutation>) {
    && s.wal.synced <= |s.wal.content|
    && (forall i :: 0 <= i < |s.recent| ==> Logged(c, s.wal, s.recent[i]))
    && (forall m :: m in acked ==> InSstables(s, m) || (m in s.memtable && HasAck(s.recent, m)))
  }

  lemma {:induction false} InSstablesGrows(s: State, t: State, m: Mutation)
    requires InSstables(s, m) && s.sstables <= t.sstables
    ensures InSstables(t, m)
  {
    var i :| 0 <= i < |s.sstables| && m in s.sstables[i];
    assert t.sstables[i] == s.sstables[i];
  }

  lemma {:induction false} StillLogged(c: Format, w: LogState, v: LogState, a: Ack)
    requires Logged(c, w, a) && w.content <= v.content && w.synced <= v.synced <= |v.content|
    ensures Logged(c, v, a)
  {
    hide Frame;
    var n := a.at + 8 + |c.encode(a.m)|;
    assert v.content[a.at..n] == v.content[..|w.content|][a.at..n];
  }

  lemma {:induction false} HasAckGrows(acks: seq<Ack>, a: Ack, m: Mutation)
    ensures HasAck(acks + [a], m) <==> HasAck(acks, m) || a.m == m
  {
    var more := acks + [a];
    assert more[|acks|] == a;
    if HasAck(acks, m) { var i :| 0 <= i < |acks| && acks[i].m == m; assert more[i].m == m; }
    if HasAck(more, m) && a.m != m { var i :| 0 <= i < |more| && more[i].m == m; assert acks[i].m == m; }
  }

  /** What a write does to the log: it grows, and an acknowledged frame is synced. */
  lemma {:induction false} WriteGrows(c: Format, s: State, m: Mutation, f: WriteFault)
    requires s.wal.synced <= |s.wal.content|
    ensures var (t, ok) := Write(c, s, m, f);
            && s.wal.content <= t.wal.content && s.wal.synced <= t.wal.synced <= |t.wal.content|
            && t.sstables == s.sstables && t.closed == s.closed
            && (ok ==> Logged(c, t.wal, Ack(m, |s.wal.content|)) && t.memtable == s.memtable + [m]
                       && t.recent == s.recent + [Ack(m, |s.wal.content|)])
            && (!ok ==> t.memtable == s.memtable && t.recent == s.recent)
  {
    hide Frame, TornPart;
  }

  lemma {:induction false} WriteSound(c: Format, s: State, acked: set<Mutation>, m: Mutation, f: WriteFault)
    requires Sound(c, s, acked)
    ensures var (t, ok) := Write(c, s, m, f); Sound(c, t, if ok then acked + {m} else acked)
  {
    hide Write, Logged;
    var (t, ok) := Write(c, s, m, f);
    WriteGrows(c, s, m, f);
    forall a | Logged(c, s.wal, a) ensures Logged(c, t.wal, a) { StillLogged(c, s.wal, t.wal, a); }
    forall x | InSstables(s, x) ensures InSstables(t, x) { InSstablesGrows(s, t, x); }
    forall x ensures HasAck(s.recent + [Ack(m, |s.wal.content|)], x) <==> HasAck(s.recent, x) || x == m {
      HasAckGrows(s.recent, Ack(m, |s.wal.content|), x);
    }
  }

  lemma {:induction false} FlushSound(c: Format, s: State, acked: set<Mutation>, f: FlushFault)
    requires Sound(c, s, acked)
    ensures var (t, ok) := Flush(s, f); Sound(c, t, acked) && (ok ==> t.memtable == [])
  {
    hide Logged;
    var (t, ok) := Flush(s, f);
    if t.sstables != s.sstables {
      var n := |s.sstables|;
      assert t.sstables[n] == s.memtable;
      forall m | m in acked ensures InSstables(t, m) {
        if InSstables(s, m) { InSstablesGrows(s, t, m); }
      }
    }
  }

  lemma {:induction false} PartSound(c: Format, s: State, acked: set<Mutation>, p: Part)
    requires Sound(c, s, acked)
    ensures var (t, ok) := WriteThenFlush(c, s, p); Sound(c, t, if ok then acked + {p.m} else acked)
  {
    hide Write, Flush, Sound;
    var (t, ok) := Write(c, s, p.m, p.write);
    WriteSound(c, s, acked, p.m, p.write);
    if ok && p.flush.Some? {
      FlushSound(c, t, acked + {p.m}, p.flush.value);
      SoundLess(c, Flush(t, p.flush.value).0, acked, p.m);
    }
  }

  lemma {:induction false} SoundLess(c: Format, s: State, acked: set<Mutation>, m: Mutation)
    requires Sound(c, s, acked + {m})
    ensures Sound(c, s, acked)
  {
    hide Logged;
  }

  function MutationsOf(parts: seq<Part>): set<Mutation> {
    set i | 0 <= i < |parts| :: parts[i].m
  }

  lemma {:induction false} MutationsCons(parts: seq<Part>)
    requires parts != []
    ensures MutationsOf(parts) == {parts[0].m} + MutationsOf(parts[1..])
  {
    forall m | m in MutationsOf(parts) ensures m in {parts[0].m} + MutationsOf(parts[1..]) {
      var i :| 0 <= i < |parts| && parts[i].m == m;
      if i > 0 { assert parts[1..][i - 1].m == m; }
    }
  }

  /** A statement is acknowledged only when every one of its mutations is. */
  lemma {:induction false} ExecuteSound(c: Format, s: State, acked: set<Mutation>, parts: seq<Part>)
    requires Sound(c, s, acked)
    ensures var (t, ok) := ExecuteFlushing(c, s, parts);
            Sound(c, t, if ok then acked + MutationsOf(parts) else acked)
    decreases |parts|
  {
    hide Sound, WriteThenFlush;
    if !s.closed && parts != [] {
      var (t, ok) := WriteThenFlush(c, s, parts[0]);
      PartSound(c, s, acked, parts[0]);
      if ok {
        ExecuteSound(c, t, acked + {parts[0].m}, parts[1..]);
        var (u, done) := ExecuteFlushing(c, t, parts[1..]);
        MutationsCons(parts);
        assert acked + {parts[0].m} + MutationsOf(parts[1..]) == acked + MutationsOf(parts);
        if !done { SoundLess(c, u, acked, parts[0].m); }
      }
    } else if parts == [] {
      assert acked + MutationsOf(parts) == acked;
    }
  }

  lemma {:induction false} CloseSound(c: Format, s: State, acked: set<Mutation>, f: FlushFault)
    requires Sound(c, s, acked) && !s.closed
    ensures var (t, ok) := Close(s, f); Sound(c, t, acked) && (ok ==> t.memtable == [])
  {
    hide Logged, Flush;
    FlushSound(c, s, acked, f);
    var (t, ok) := Flush(s, f);
    forall m | InSstables(t, m) ensures InSstables(t.(closed := true), m) {
      InSstablesGrows(t, t.(closed := true), m);
    }
  }
}
