/** What each call of the write engine and of its log comes to, fault by fault
    (`cqlite-core/src/storage/write_engine/mod.rs`, `durability.rs`, `wal.rs`), and
    what a statement without a fault achieves. */
module EngineOutcomes {
  import opened Prelude
  import opened Wal
  import opened Engine

  // ----- the replay report -----

  lemma {:induction false} UndecodableNone<M>(c: Codec<M>, ps: seq<Bytes>)
    ensures Undecodable(c, ps) == 0 <==> forall i :: 0 <= i < |ps| ==> c.decode(ps[i]).Some?
  {
    if ps != [] {
      var n := |ps| - 1;
      UndecodableNone(c, ps[..n]);
      assert forall i :: 0 <= i < n ==> ps[..n][i] == ps[i];
    }
  }

  /** The payloads that do not decode. */
  function Undecoded<M>(c: Codec<M>, ps: seq<Bytes>): set<nat> {
    set i: nat | i < |ps| && c.decode(ps[i]).None?
  }

  lemma {:induction false} UndecodableCount<M>(c: Codec<M>, ps: seq<Bytes>)
    ensures Undecodable(c, ps) == |Undecoded(c, ps)|
  {
    if ps == [] {
      assert Undecoded(c, ps) == {};
    } else {
      var n := |ps| - 1;
      UndecodableCount(c, ps[..n]);
      assert Undecoded(c, ps) == Undecoded(c, ps[..n]) + (if c.decode(ps[n]).None? then {n} else {});
    }
  }

  /** The report counts each payload that does not decode, and one for a corrupt tail. */
  lemma {:induction false} CorruptCounted<M>(c: Codec<M>, bytes: Bytes)
    ensures var s := Scan(c, bytes);
            ReportOf(c, bytes).corruptEntries == |Undecoded(c, s.payloads)| + if s.stop == Corruption then 1 else 0
  {
    hide Scan, Undecodable, Decoded;
    UndecodableCount(c, Scan(c, bytes).payloads);
  }

  /** Replay reports a clean log exactly when the scan did not stop in corruption and
      every payload it returned decodes. */
  lemma {:induction false} CleanExactly<M>(c: Codec<M>, bytes: Bytes)
    ensures var s := Scan(c, bytes);
            ReportOf(c, bytes).IsClean() <==>
            s.stop != Corruption && forall i :: 0 <= i < |s.payloads| ==> c.decode(s.payloads[i]).Some?
    ensures Scan(c, bytes).stop == Corruption ==> ReportOf(c, bytes).stoppedEarly
    ensures ReportOf(c, bytes).bytesSkipped == 0 <==> Scan(c, bytes).validEnd == |bytes|
  {
    hide Scan, Undecodable, Decoded;
    UndecodableNone(c, Scan(c, bytes).payloads);
  }

  /** When every payload decodes, replay returns the mutation of each, in its place. */
  lemma {:induction false} DecodedAll<M>(c: Codec<M>, ps: seq<Bytes>)
    requires forall i :: 0 <= i < |ps| ==> c.decode(ps[i]).Some?
    ensures |Decoded(c, ps)| == |ps|
    ensures forall i :: 0 <= i < |ps| ==> Some(Decoded(c, ps)[i]) == c.decode(ps[i])
  {
    if ps != [] {
      var n := |ps| - 1;
      assert forall i :: 0 <= i < n ==> ps[..n][i] == ps[i];
      DecodedAll(c, ps[..n]);
    }
  }

  // ----- the bytes of a frame -----

  /** The length and the checksum in four bytes each, the least significant first, then
      the payload; payloads of up to 16 MiB are accepted. */
  lemma {:induction false} FrameLayout<M>(c: Codec<M>, p: Bytes)
    ensures Accepted(p) <==> |p| <= 16_777_216
    ensures Accepted(p) ==>
              var f: seq<int> := Frame(c, p);
              && |f| == 8 + |p| && f[8..] == p
              && |p| == f[0] + 256 * f[1] + 65536 * f[2] + 16777216 * f[3]
              && c.crc(p) % 0x1_0000_0000 == f[4] + 256 * f[5] + 65536 * f[6] + 16777216 * f[7]
  {
    if Accepted(p) {
      var f := Frame(c, p);
      Le32RoundTrip(|p|);
      Le32RoundTrip(c.Crc(p));
      assert f[..4] == Le32(|p|) && f[4..8] == Le32(c.Crc(p));
    }
  }

  /** Opening trims a torn header and syncs; any other file is kept as it is, and no more
      of it is taken to be on disk than was. */
  lemma {:induction false} OpenOutcomes<M>(c: Codec<M>, bytes: Bytes, durable: nat)
    ensures var l, s := OpenOn(c, bytes, durable), Scan(c, bytes);
            && l.size == |l.content| && !l.poisoned
            && (s.stop == TornTail ==> l.content == bytes[..s.validEnd] && l.synced == s.validEnd)
            && (s.stop != TornTail ==>
                  l.content == bytes && l.synced <= durable && l.synced <= |bytes| && l.synced in {durable, |bytes|})
            && l.pendingValidPrefix == (if s.stop == Corruption then Some(s.validEnd) else None)
  {
    hide Scan;
  }

  /** Resetting without anything to cut claims nothing more of the log to be on disk. */
  lemma {:induction false} ResetOutcomes(l: LogState)
    ensures var r := ResetTo(l);
            && r.pendingValidPrefix.None? && r.poisoned == l.poisoned
            && (l.pendingValidPrefix.Some? && l.pendingValidPrefix.value < |l.content| ==>
                  r.content == l.content[..l.pendingValidPrefix.value] && r.synced == |r.content| == r.size)
            && (l.pendingValidPrefix.None? || l.pendingValidPrefix.value >= |l.content| ==>
                  r.content == l.content && r.synced == l.synced)
  {
  }

  // ----- writes -----

  /** The log takes appends. */
  predicate Ready(s: State) { !s.closed && !s.wal.poisoned && s.wal.pendingValidPrefix.None? }

  predicate Writable(c: Format, m: Mutation) { m.keyed && !m.counter && Accepted(c.encode(m)) }

  /** A write is acknowledged exactly when the engine is ready, the mutation is one it
      can take and no step fails; it then adds the mutation and its synced frame. */
  lemma {:induction false} WriteSucceedsExactly(c: Format, s: State, m: Mutation, f: WriteFault)
    ensures Write(c, s, m, f).1 <==> Ready(s) && Writable(c, m) && f == NoFault
    ensures Write(c, s, m, f).1 ==>
              var t := Write(c, s, m, f).0;
              && Ready(t) && t.memtable == s.memtable + [m] && t.sstables == s.sstables
              && t.wal.content == s.wal.content + Frame(c.codec, c.encode(m))
              && t.wal.synced == |t.wal.content| && t.wal.size == s.wal.size + 8 + |c.encode(m)|
  {
    hide Frame;
  }

  /** A write that is refused before its append, or by it, leaves the log as it was. */
  lemma {:induction false} RefusedWriteKeepsLog(c: Format, s: State, m: Mutation, f: WriteFault)
    requires !Ready(s) || m.counter || !Accepted(c.encode(m)) || f == NotAdmitted
    ensures Write(c, s, m, f) == (s, false)
  {
  }

  // ----- flushes -----

  /** The SSTable is published and the memtable empty. */
  predicate PublishedFrom(s: State, t: State) {
    t.memtable == [] && t.sstables == s.sstables + [s.memtable] && t.closed == s.closed
  }

  /** The log holds nothing, and nothing is owed to it. */
  predicate Emptied(t: State) { t.wal.content == [] && t.wal.size == 0 && t.recent == [] }

  /** The outcome of a flush for each fault.  An empty memtable needs none.  Until the
      SSTable and its directory entry are durable a failure changes nothing.  After that
      the memtable is published: only a log that could not be zeroed cleanly is an
      error, and a log left as it was is not. */
  lemma {:induction false} FlushOutcomes(s: State, f: FlushFault)
    ensures var (t, ok) := Flush(s, f);
            && (s.memtable == [] ==> ok && t == s)
            && (s.memtable != [] && f in {WriterFails, DirSyncFails} ==> !ok && t == s)
            && (s.memtable != [] && f.Published? ==> PublishedFrom(s, t))
            && (s.memtable != [] && f.Published? && s.wal.size == 0 ==> ok && t.wal == s.wal)
            && (s.memtable != [] && f.Published? && s.wal.size != 0 && s.wal.poisoned ==> !ok && t.wal == s.wal)
    ensures s.memtable != [] && f.Published? && s.wal.size != 0 && !s.wal.poisoned ==>
              var (t, ok) := Flush(s, f);
              match f.truncate
              case NoTruncateFault => ok && Emptied(t) && t.wal.pendingValidPrefix.None? && !t.wal.poisoned
              case BeforeZeroing => ok && t.wal == s.wal && (s.wal.content != [] ==> t.recent == s.recent)
              case AfterZeroing(poisons) => !ok && Emptied(t) && t.wal.poisoned == poisons
  {
  }

  /** Closing succeeds exactly when the engine was closed or its flush succeeds, and
      only then is the engine closed; a closed engine refuses writes and statements. */
  lemma {:induction false} CloseOutcomes(c: Format, s: State, f: FlushFault, m: Mutation, w: WriteFault, ps: seq<Part>)
    ensures var (t, ok) := Close(s, f);
            && (ok <==> s.closed || Flush(s, f).1)
            && (ok <==> t.closed)
            && (!s.closed ==> t.(closed := false) == Flush(s, f).0.(closed := false))
            && (s.closed ==> t == s)
            && (ok ==> Write(c, t, m, w) == (t, false) && ExecuteFlushing(c, t, ps) == (t, false))
  {
    hide Flush;
    FlushKeepsOpen(s, f);
  }

  lemma {:induction false} FlushKeepsOpen(s: State, f: FlushFault)
    ensures Flush(s, f).0.closed == s.closed
  {
  }

  // ----- a statement without a fault -----

  const NO_FAULT := Published(NoTruncateFault)

  predicate FaultFree(c: Format, parts: seq<Part>) {
    forall i :: 0 <= i < |parts| ==>
      Writable(c, parts[i].m) && parts[i].write == NoFault && (parts[i].flush.None? || parts[i].flush == Some(NO_FAULT))
  }

  predicate Holds(s: State, m: Mutation) { InSstables(s, m) || m in s.memtable }

  lemma {:induction false} FlushHolds(s: State, f: FlushFault, m: Mutation)
    requires Holds(s, m)
    ensures Holds(Flush(s, f).0, m)
  {
    var t := Flush(s, f).0;
    if InSstables(s, m) { InSstablesGrows(s, t, m); }
    else if t.memtable == [] { assert t.sstables[|s.sstables|] == s.memtable; }
  }

  lemma {:induction false} PartHolds(c: Format, s: State, p: Part, m: Mutation)
    requires Holds(s, m) || (m == p.m && WriteThenFlush(c, s, p).1)
    ensures Holds(WriteThenFlush(c, s, p).0, m)
  {
    hide Write, Flush, Holds;
    var (t, ok) := Write(c, s, p.m, p.write);
    if Holds(s, m) { WriteHolds(c, s, p.m, p.write, m); }
    if ok && m == p.m { WrittenHeld(c, s, m, p.write); }
    if ok && p.flush.Some? { FlushHolds(t, p.flush.value, m); }
  }

  lemma {:induction false} WriteHolds(c: Format, s: State, m: Mutation, f: WriteFault, x: Mutation)
    requires Holds(s, x)
    ensures Holds(Write(c, s, m, f).0, x)
  {
    hide Frame, AppendTo;
    if InSstables(s, x) { InSstablesGrows(s, Write(c, s, m, f).0, x); }
  }

  lemma {:induction false} WrittenHeld(c: Format, s: State, m: Mutation, f: WriteFault)
    requires Write(c, s, m, f).1
    ensures Holds(Write(c, s, m, f).0, m)
  {
    hide Write;
    WriteSucceedsExactly(c, s, m, f);
  }

  /** One fault-free mutation, and the flush it triggers, succeed and leave the engine
      ready for the next. */
  lemma {:induction false} PartSucceeds(c: Format, s: State, p: Part)
    requires Ready(s) && FaultFree(c, [p])
    ensures var (t, ok) := WriteThenFlush(c, s, p);
            ok && Ready(t) && (p.flush.Some? ==> t.memtable == [])
  {
    hide Write, Flush;
    assert [p][0] == p;
    WriteSucceedsExactly(c, s, p.m, p.write);
    if p.flush.Some? { FlushOutcomes(Write(c, s, p.m, p.write).0, p.flush.value); }
  }

  lemma {:induction false} FaultFreeParts(c: Format, parts: seq<Part>)
    requires FaultFree(c, parts) && parts != []
    ensures FaultFree(c, [parts[0]]) && FaultFree(c, parts[1..])
  {
    assert forall i :: 0 <= i < |parts| - 1 ==> parts[1..][i] == parts[i + 1];
  }

  /** A fault-free statement succeeds, and the engine holds every one of its mutations. */
  lemma {:induction false} StatementSucceeds(c: Format, s: State, parts: seq<Part>)
    requires Ready(s) && FaultFree(c, parts)
    ensures var (t, ok) := ExecuteFlushing(c, s, parts);
            ok && Ready(t) && forall m :: m in MutationsOf(parts) ==> Holds(t, m)
    decreases |parts|
  {
    hide WriteThenFlush, FaultFree, Holds;
    if parts != [] {
      FaultFreeParts(c, parts);
      PartSucceeds(c, s, parts[0]);
      var t := WriteThenFlush(c, s, parts[0]).0;
      StatementSucceeds(c, t, parts[1..]);
      MutationsCons(parts);
      PartHolds(c, s, parts[0], parts[0].m);
      ExecuteHolds(c, t, parts[1..], parts[0].m);
    }
  }

  /** Whatever fails, executing a statement loses nothing that the engine held, and a
      statement that succeeds leaves every one of its mutations in the engine. */
  lemma {:induction false} ExecuteHolds(c: Format, s: State, parts: seq<Part>, m: Mutation)
    ensures var (t, ok) := ExecuteFlushing(c, s, parts);
            Holds(s, m) || (ok && m in MutationsOf(parts)) ==> Holds(t, m)
    decreases |parts|
  {
    hide WriteThenFlush, Holds;
    if parts != [] {
      MutationsCons(parts);
      var (t, ok) := WriteThenFlush(c, s, parts[0]);
      if Holds(s, m) || (m == parts[0].m && ok) { PartHolds(c, s, parts[0], m); }
      if ok { ExecuteHolds(c, t, parts[1..], m); }
    }
  }
}
