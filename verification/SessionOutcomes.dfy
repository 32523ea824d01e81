/** Which writes a session acknowledges and a one-shot invocation makes
    (`cqlite-cli/src/main.rs`): all that succeed and no others, and every one of them
    when nothing fails. */
module SessionOutcomes {
  import opened Prelude
  import opened Wal
  import opened Engine
  import opened EngineOutcomes
  import opened Session

  // ----- the session -----

  lemma {:induction false} RunSnoc(c: Format, s: State, acked: set<Mutation>, events: seq<Event>, ev: Event)
    ensures var o := Run(c, s, acked, events);
            Run(c, s, acked, events + [ev]) == if o.ending.Exit? then o else Handle(c, o.state, o.acked, ev)
    decreases |events|
  {
    hide Handle;
    var more := events + [ev];
    if events == [] {
      assert more[1..] == [];
    } else {
      var o := Handle(c, s, acked, events[0]);
      assert more[1..] == events[1..] + [ev];
      if !o.ending.Exit? { RunSnoc(c, o.state, o.acked, events[1..], ev); }
    }
  }

  /** The statement of event `i` was reached and executed without an error. */
  predicate Executed(c: Format, s: State, events: seq<Event>, i: nat)
    requires i < |events|
  {
    var o := Run(c, s, {}, events[..i]);
    && o.ending == Running
    && events[i].Line? && !events[i].blank && events[i].stmt.Some?
    && ExecuteFlushing(c, o.state, events[i].stmt.value).1
  }

  lemma {:induction false} ExecutedExtends(c: Format, s: State, events: seq<Event>, ev: Event, i: nat)
    requires i < |events|
    ensures Executed(c, s, events + [ev], i) <==> Executed(c, s, events, i)
  {
    assert (events + [ev])[..i] == events[..i];
  }

  /** A session has acknowledged exactly the mutations of the statements it reached and
      executed without an error. */
  lemma {:induction false} AckedExactly(c: Format, s: State, events: seq<Event>, m: Mutation)
    ensures m in Run(c, s, {}, events).acked <==>
            exists i :: 0 <= i < |events| && Executed(c, s, events, i) && m in MutationsOf(events[i].stmt.value)
  {
    hide Executed, Handle;
    if events != [] {
      var n := |events| - 1;
      var before, ev := events[..n], events[n];
      assert events == before + [ev];
      AckedExactly(c, s, before, m);
      RunSnoc(c, s, {}, before, ev);
      forall i | 0 <= i < n ensures Executed(c, s, events, i) <==> Executed(c, s, before, i) {
        ExecutedExtends(c, s, before, ev, i);
      }
      var o := Run(c, s, {}, before);
      LastEvent(c, s, events, m);
      assert forall i :: 0 <= i < n ==> before[i] == events[i];
    }
  }

  lemma {:induction false} LastEvent(c: Format, s: State, events: seq<Event>, m: Mutation)
    requires events != []
    ensures var n := |events| - 1;
            var o := Run(c, s, {}, events[..n]);
            var more := if o.ending.Exit? then o else Handle(c, o.state, o.acked, events[n]);
            m in more.acked <==>
            m in o.acked || (Executed(c, s, events, n) && m in MutationsOf(events[n].stmt.value))
  {
    hide ExecuteFlushing, Flush, Run;
  }

  /** Fault-free statements, one after another. */
  predicate FaultFreeLines(c: Format, events: seq<Event>) {
    forall i :: 0 <= i < |events| ==>
      events[i].Line? && !events[i].blank && events[i].stmt.Some? && FaultFree(c, events[i].stmt.value)
  }

  lemma {:induction false} LinesRun(c: Format, s: State, events: seq<Event>)
    requires Ready(s) && FaultFreeLines(c, events)
    ensures var o := Run(c, s, {}, events); o.ending == Running && Ready(o.state)
    ensures forall i :: 0 <= i < |events| ==> Executed(c, s, events, i)
  {
    hide ExecuteFlushing, FaultFree, Run, Ready;
    if events == [] {
      NoEvents(c, s);
    } else {
      var n := |events| - 1;
      var before, ev := events[..n], events[n];
      assert events == before + [ev];
      LinesRun(c, s, before);
      RunSnoc(c, s, {}, before, ev);
      StatementSucceeds(c, Run(c, s, {}, before).state, ev.stmt.value);
      forall i | 0 <= i < n ensures Executed(c, s, events, i) {
        ExecutedExtends(c, s, before, ev, i);
      }
      assert Executed(c, s, events, n);
    }
  }

  lemma {:induction false} NoEvents(c: Format, s: State)
    ensures Run(c, s, {}, []) == Outcome(s, {}, Running)
  {
  }

  /** A session of fault-free statements that ends with its input exits with code 0,
      closed, with every statement acknowledged and in an SSTable. */
  lemma {:induction false} CleanSession(c: Format, s: State, lines: seq<Event>)
    requires Sound(c, s, {}) && Ready(s) && FaultFreeLines(c, lines)
    ensures var o := Run(c, s, {}, lines + [EndOfInput(NO_FAULT)]);
            && o.ending == Exit(0) && o.state.closed && o.state.memtable == []
            && forall i, m :: 0 <= i < |lines| && m in MutationsOf(lines[i].stmt.value) ==>
                 m in o.acked && InSstables(o.state, m)
  {
    hide Run, Executed, Sound, InSstables;
    var events := lines + [EndOfInput(NO_FAULT)];
    var before, o := Run(c, s, {}, lines), Run(c, s, {}, events);
    LinesRun(c, s, lines);
    RunSnoc(c, s, {}, lines, EndOfInput(NO_FAULT));
    RunSound(c, s, {}, events);
    EndSucceeds(c, before.state, before.acked);
    FlushedInSstables(c, o.state, o.acked);
    forall i, m | 0 <= i < |lines| && m in MutationsOf(lines[i].stmt.value)
      ensures m in o.acked
    {
      ExecutedExtends(c, s, lines, EndOfInput(NO_FAULT), i);
      assert events[i] == lines[i];
      AckedExactly(c, s, events, m);
    }
  }

  lemma {:induction false} EndSucceeds(c: Format, s: State, acked: set<Mutation>)
    requires Ready(s)
    ensures var o := Handle(c, s, acked, EndOfInput(NO_FAULT));
            o.ending == Exit(0) && o.state.closed && o.state.memtable == [] && o.acked == acked
  {
    hide Flush;
    FlushOutcomes(s, NO_FAULT);
  }

  /** Lines that are blank or do not parse change nothing; a failed close, a failed
      read and a second Ctrl-C end the session with codes 1, 1 and 130. */
  lemma {:induction false} OtherEvents(c: Format, s: State, acked: set<Mutation>, ev: Event)
    requires !s.closed
    ensures var o := Handle(c, s, acked, ev);
            && (ev.Line? ==> o.ending == Running)
            && (ev.Line? && (ev.blank || ev.stmt.None?) ==> o.state == s && o.acked == acked)
            && (ev.ReadError? ==> o == Outcome(s, acked, Exit(1)))
            && (ev.CtrlC? && ev.again ==> o.ending == Exit(130))
            && (ev.EndOfInput? || (ev.CtrlC? && !ev.again) ==>
                  o.ending == (if Flush(s, ev.flush).1 then Exit(0) else Exit(1)))
  {
    hide ExecuteFlushing, Flush;
  }

  // ----- the one-shot invocation -----

  /** Writing all of a list succeeds only if every write did: then the list is exactly
      what was added. */
  lemma {:induction false} WriteAllExactly(c: Format, s: State, written: set<Mutation>, parts: seq<Part>)
    ensures var r := WriteAll(c, s, written, parts);
            && (r.ok ==> r.written == written + MutationsOf(parts))
            && written <= r.written <= written + MutationsOf(parts)
    decreases |parts|
  {
    hide WriteThenFlush;
    if parts == [] {
      assert MutationsOf(parts) == {};
    } else {
      MutationsCons(parts);
      WriteAllExactly(c, WriteThenFlush(c, s, parts[0]).0, written + {parts[0].m}, parts[1..]);
    }
  }

  lemma {:induction false} WriteAllSucceeds(c: Format, s: State, written: set<Mutation>, parts: seq<Part>)
    requires Ready(s) && FaultFree(c, parts)
    ensures var r := WriteAll(c, s, written, parts); r.ok && Ready(r.state)
    decreases |parts|
  {
    hide WriteThenFlush, FaultFree;
    if parts != [] {
      FaultFreeParts(c, parts);
      PartSucceeds(c, s, parts[0]);
      WriteAllSucceeds(c, WriteThenFlush(c, s, parts[0]).0, written + {parts[0].m}, parts[1..]);
    }
  }

  lemma {:induction false} WriteEachSnoc(c: Format, s: State, written: set<Mutation>, parts: seq<Part>, p: Part)
    ensures var r := WriteEach(c, s, written, parts);
            var (t, ok) := WriteThenFlush(c, r.state, p);
            WriteEach(c, s, written, parts + [p]) == Result(t, if ok then r.written + {p.m} else r.written, true)
    decreases |parts|
  {
    hide WriteThenFlush;
    var more := parts + [p];
    if parts == [] {
      assert more[1..] == [];
    } else {
      assert more[1..] == parts[1..] + [p];
      var (t, ok) := WriteThenFlush(c, s, parts[0]);
      WriteEachSnoc(c, t, if ok then written + {parts[0].m} else written, parts[1..], p);
    }
  }

  /** Line `i` of the file was written: every line before it had its turn, and this
      one's write succeeded. */
  predicate LineWritten(c: Format, s: State, parts: seq<Part>, i: nat)
    requires i < |parts|
  {
    WriteThenFlush(c, WriteEach(c, s, {}, parts[..i]).state, parts[i]).1
  }

  /** Some line of the file wrote it. */
  predicate FileWrote(c: Format, s: State, parts: seq<Part>, m: Mutation) {
    exists i :: 0 <= i < |parts| && LineWritten(c, s, parts, i) && parts[i].m == m
  }

  lemma {:induction false} WriteEachState(c: Format, s: State, written: set<Mutation>, parts: seq<Part>)
    ensures WriteEach(c, s, written, parts).state == WriteEach(c, s, {}, parts).state
  {
    hide WriteThenFlush;
    if parts != [] {
      var n := |parts| - 1;
      assert parts == parts[..n] + [parts[n]];
      WriteEachSnoc(c, s, written, parts[..n], parts[n]);
      WriteEachSnoc(c, s, {}, parts[..n], parts[n]);
      WriteEachState(c, s, written, parts[..n]);
    }
  }

  /** A failing line does not stop the file: added is exactly what the succeeding lines
      wrote. */
  lemma {:induction false} WriteEachExactly(
      c: Format, s: State, written: set<Mutation>, parts: seq<Part>, m: Mutation)
    ensures var r := WriteEach(c, s, written, parts);
            && r.ok
            && (m in r.written <==> m in written || FileWrote(c, s, parts, m))
  {
    hide WriteThenFlush, WriteEach, LineWritten;
    if parts == [] {
      NoLines(c, s, written);
    } else {
      var n := |parts| - 1;
      var before, p := parts[..n], parts[n];
      assert parts == before + [p];
      WriteEachExactly(c, s, written, before, m);
      WriteEachSnoc(c, s, written, before, p);
      WriteEachState(c, s, written, before);
      LastLine(c, s, parts);
      forall i | 0 <= i < n ensures LineWritten(c, s, parts, i) <==> LineWritten(c, s, before, i) {
        EarlierLine(c, s, parts, i);
      }
      assert forall i :: 0 <= i < n ==> before[i] == parts[i];
    }
  }

  lemma {:induction false} NoLines(c: Format, s: State, written: set<Mutation>)
    ensures WriteEach(c, s, written, []) == Result(s, written, true)
  {
  }

  lemma {:induction false} NothingWrote(c: Format, s: State, m: Mutation)
    ensures !FileWrote(c, s, [], m)
  {
  }

  lemma {:induction false} LastLine(c: Format, s: State, parts: seq<Part>)
    requires parts != []
    ensures var n := |parts| - 1;
            LineWritten(c, s, parts, n) <==> WriteThenFlush(c, WriteEach(c, s, {}, parts[..n]).state, parts[n]).1
  {
  }

  lemma {:induction false} EarlierLine(c: Format, s: State, parts: seq<Part>, i: nat)
    requires i + 1 < |parts|
    ensures LineWritten(c, s, parts, i) <==> LineWritten(c, s, parts[..|parts| - 1], i)
  {
    assert parts[..|parts| - 1][..i] == parts[..i];
  }

  lemma {:induction false} WriteEachSucceeds(c: Format, s: State, written: set<Mutation>, parts: seq<Part>)
    requires Ready(s) && FaultFree(c, parts)
    ensures var r := WriteEach(c, s, written, parts);
            r.ok && Ready(r.state) && r.written == written + MutationsOf(parts)
    decreases |parts|
  {
    hide WriteThenFlush, FaultFree;
    if parts == [] {
      assert MutationsOf(parts) == {};
    } else {
      FaultFreeParts(c, parts);
      MutationsCons(parts);
      PartSucceeds(c, s, parts[0]);
      WriteEachSucceeds(c, WriteThenFlush(c, s, parts[0]).0, written + {parts[0].m}, parts[1..]);
    }
  }

  lemma {:induction false} UnflushedSame(c: Format, parts: seq<Part>)
    ensures MutationsOf(Unflushed(parts)) == MutationsOf(parts)
    ensures FaultFree(c, parts) ==> FaultFree(c, Unflushed(parts))
  {
    var u := Unflushed(parts);
    assert forall i :: 0 <= i < |parts| ==> u[i].m == parts[i].m;
    forall m ensures m in MutationsOf(u) <==> m in MutationsOf(parts) {
      if m in MutationsOf(u) { var i :| 0 <= i < |u| && u[i].m == m; assert parts[i].m == m; }
      if m in MutationsOf(parts) { var i :| 0 <= i < |parts| && parts[i].m == m; assert u[i].m == m; }
    }
  }

  function FileParts(a: Args): seq<Part> { if a.mutationsFile.Some? then a.mutationsFile.value else [] }

  /** A DML `--execute` runs only without a `--file`. */
  predicate RunsDml(a: Args) { !a.file && a.execute.Some? && a.execute.value.Dml? }

  function DmlParts(a: Args): seq<Part> { if RunsDml(a) then a.execute.value.parts else [] }

  /** An invocation that succeeds has written every `--mutation` and, when there is no
      `--file`, every mutation of a DML `--execute`; and of the mutations file exactly
      the lines whose write succeeded. */
  lemma {:induction false} OneShotWritesExactly(c: Format, s: State, a: Args, f: FlushFault, m: Mutation)
    requires OneShot(c, s, a, f).ok
    ensures var r, after := OneShot(c, s, a, f), WriteAll(c, s, {}, a.mutations).state;
            && MutationsOf(a.mutations) <= r.written
            && (RunsDml(a) ==> MutationsOf(a.execute.value.parts) <= r.written)
            && (m in r.written <==>
                || m in MutationsOf(a.mutations)
                || FileWrote(c, after, FileParts(a), m)
                || m in MutationsOf(DmlParts(a)))
  {
    hide WriteThenFlush, WriteAll, WriteEach, FileWrote, Flush;
    var r1 := WriteAll(c, s, {}, a.mutations);
    WriteAllExactly(c, s, {}, a.mutations);
    var r2 := if a.mutationsFile.Some? then WriteEach(c, r1.state, r1.written, a.mutationsFile.value) else r1;
    if a.mutationsFile.Some? {
      WriteEachExactly(c, r1.state, r1.written, a.mutationsFile.value, m);
      forall x | x in r1.written ensures x in r2.written {
        WriteEachExactly(c, r1.state, r1.written, a.mutationsFile.value, x);
      }
    }
    assert a.mutationsFile.None? ==> !FileWrote(c, r1.state, FileParts(a), m) by { NothingWrote(c, r1.state, m); }
    assert m in r2.written <==> m in MutationsOf(a.mutations) || FileWrote(c, r1.state, FileParts(a), m);
    if Deferred(a) {
      WriteAllExactly(c, r2.state, r2.written, Unflushed(a.execute.value.parts));
      UnflushedSame(c, a.execute.value.parts);
      assert OneShot(c, s, a, f).written == r2.written + MutationsOf(DmlParts(a));
    } else {
      assert DmlParts(a) == [] && OneShot(c, s, a, f).written == r2.written;
    }
  }

  /** A writable invocation in which nothing fails succeeds and writes everything it
      was given; with `--flush` all of it is in an SSTable. */
  lemma {:induction false} OneShotSucceeds(c: Format, s: State, a: Args)
    requires Sound(c, s, {}) && Ready(s) && a.writable
    requires FaultFree(c, a.mutations) && FaultFree(c, FileParts(a)) && FaultFree(c, DmlParts(a))
    ensures var r := OneShot(c, s, a, NO_FAULT);
            && r.ok
            && r.written == MutationsOf(a.mutations) + MutationsOf(FileParts(a)) + MutationsOf(DmlParts(a))
            && (a.flush ==> r.state.memtable == [] && forall m :: m in r.written ==> InSstables(r.state, m))
  {
    hide WriteThenFlush, WriteAll, WriteEach, Flush, FaultFree, Sound, InSstables;
    var r1 := WriteAll(c, s, {}, a.mutations);
    WriteAllSucceeds(c, s, {}, a.mutations);
    WriteAllExactly(c, s, {}, a.mutations);
    var r2 := if a.mutationsFile.Some? then WriteEach(c, r1.state, r1.written, a.mutationsFile.value) else r1;
    WriteEachSucceeds(c, r1.state, r1.written, FileParts(a));
    assert a.mutationsFile.None? ==> MutationsOf(FileParts(a)) == {};
    var u := Unflushed(DmlParts(a));
    UnflushedSame(c, DmlParts(a));
    WriteAllSucceeds(c, r2.state, r2.written, u);
    WriteAllExactly(c, r2.state, r2.written, u);
    assert !Deferred(a) ==> MutationsOf(DmlParts(a)) == {};
    FlushOutcomes(r2.state, NO_FAULT);
    FlushOutcomes(WriteAll(c, r2.state, r2.written, u).state, NO_FAULT);
    OneShotFlushed(c, s, a, NO_FAULT);
  }

  function Ordered(parts: seq<Part>): seq<Mutation> {
    seq(|parts|, i requires 0 <= i < |parts| => parts[i].m)
  }

  lemma {:induction false} WriteAllUnflushed(c: Format, s: State, written: set<Mutation>, parts: seq<Part>)
    requires forall i :: 0 <= i < |parts| ==> parts[i].flush.None?
    ensures var r := WriteAll(c, s, written, parts);
            r.state.sstables == s.sstables && (r.ok ==> r.state.memtable == s.memtable + Ordered(parts))
    decreases |parts|
  {
    hide Write;
    if parts == [] {
      assert s.memtable + Ordered(parts) == s.memtable;
    } else {
      var p, rest := parts[0], parts[1..];
      WriteMemtable(c, s, p.m, p.write);
      WriteAllUnflushed(c, Write(c, s, p.m, p.write).0, written + {p.m}, rest);
      assert Ordered(parts) == [p.m] + Ordered(rest);
      assert s.memtable + ([p.m] + Ordered(rest)) == s.memtable + [p.m] + Ordered(rest);
    }
  }

  lemma {:induction false} WriteMemtable(c: Format, s: State, m: Mutation, f: WriteFault)
    ensures var (t, ok) := Write(c, s, m, f);
            t.sstables == s.sstables && (ok ==> t.memtable == s.memtable + [m])
  {
    hide Frame, AppendTo;
  }

  /** Without `--flush` a DML `--execute` leaves its mutations in the memtable, in order,
      and publishes nothing. */
  lemma {:induction false} ExecuteAloneBuffers(c: Format, s: State, a: Args, f: FlushFault)
    requires a.mutations == [] && a.mutationsFile.None? && !a.flush && RunsDml(a)
    ensures var r := OneShot(c, s, a, f);
            && r.state.sstables == s.sstables
            && (r.ok ==> r.state.memtable == s.memtable + Ordered(a.execute.value.parts))
  {
    hide WriteAll, Flush;
    var parts := a.execute.value.parts;
    NothingToWrite(c, s);
    WriteAllUnflushed(c, s, {}, Unflushed(parts));
    assert Ordered(Unflushed(parts)) == Ordered(parts);
  }

  lemma {:induction false} NothingToWrite(c: Format, s: State)
    ensures WriteAll(c, s, {}, []) == Result(s, {}, true)
  {
  }

  /** Without `--writable` nothing is written, and any option that would write fails. */
  lemma {:induction false} ReadOnlyExactly(c: Format, s: State, a: Args, f: FlushFault)
    requires !a.writable
    ensures var r := OneShot(c, s, a, f);
            && r.state == s && r.written == {}
            && (r.ok <==> a.mutations == [] && a.mutationsFile.None? && !RunsDml(a))
  {
  }
}
