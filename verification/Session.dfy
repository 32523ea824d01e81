/** The writable command line session and the one-shot invocation of
    `cqlite-cli/src/main.rs`, over the engine. */
module Session {
  import opened Prelude
  import opened Wal
  import opened Engine
  import opened Recovery

  /** What the event loop's `select!` delivers. */
  datatype Event =
    | Line(stmt: Option<seq<Part>>, blank: bool)  // `None`: the statement does not parse
    | EndOfInput(flush: FlushFault)
    | CtrlC(flush: FlushFault, again: bool)       // `again`: a second Ctrl-C cuts the close short
    | ReadError

  /** `Running`: no event has ended the session yet. */
  datatype Ending = Running | Exit(code: nat)

  datatype Outcome = Outcome(state: State, acked: set<Mutation>, ending: Ending)

  /** One turn of `run_writable_interactive`; a failed close or read ends with code 1. */
  function Handle(c: Format, s: State, acked: set<Mutation>, ev: Event): Outcome {
    match ev
    case Line(stmt, blank) =>
      if blank || stmt.None? then Outcome(s, acked, Running)
      else
        var (t, ok) := ExecuteFlushing(c, s, stmt.value);
        Outcome(t, if ok then acked + MutationsOf(stmt.value) else acked, Running)
    case EndOfInput(f) =>
      var (t, ok) := Close(s, f);
      Outcome(t, acked, Exit(if ok then 0 else 1))
    case CtrlC(f, again) =>
      if again then Outcome(Flush(s, f).0, acked, Exit(130))  // whatever the close had done by then
      else
        var (t, ok) := Close(s, f);
        Outcome(t, acked, Exit(if ok then 0 else 1))
    case ReadError => Outcome(s, acked, Exit(1))
  }

  function Run(c: Format, s: State, acked: set<Mutation>, events: seq<Event>): Outcome
    decreases |events|
  {
    if events == [] then Outcome(s, acked, Running)
    else
      var o := Handle(c, s, acked, events[0]);
      if o.ending.Exit? then o else Run(c, o.state, o.acked, events[1..])
  }

  /** The loop itself. */
  method RunWritableInteractive(engine: WriteEngine, events: seq<Event>) returns (acked: set<Mutation>, ending: Ending)
    requires engine.Joined()
    modifies engine, engine.wal
    ensures Outcome(engine.Snapshot(), acked, ending) == Run(engine.format, old(engine.Snapshot()), {}, events)
  {
    acked, ending := {}, Running;
    var i := 0;
    assert events[0..] == events;
    while i < |events|
      invariant 0 <= i <= |events| && ending == Running
      invariant Run(engine.format, engine.Snapshot(), acked, events[i..])
             == Run(engine.format, old(engine.Snapshot()), {}, events)
    {
      assert events[i..][1..] == events[i + 1..];
      match events[i] {
        case Line(stmt, blank) =>
          if !blank && stmt.Some? {
            var ok := engine.Execute(stmt.value);
            if ok { acked := acked + MutationsOf(stmt.value); }
          }
        case EndOfInput(f) =>
          var ok := engine.CloseEngine(f);
          ending := Exit(if ok then 0 else 1);
          return;
        case CtrlC(f, again) =>
          if again {
            var _ := engine.FlushInternal(f);
            ending := Exit(130);
          } else {
            var ok := engine.CloseEngine(f);
            ending := Exit(if ok then 0 else 1);
          }
          return;
        case ReadError =>
          ending := Exit(1);
          return;
      }
      i := i + 1;
    }
  }

  // ----- durability of every session -----

  lemma {:induction false} ExecuteStaysOpen(c: Format, s: State, parts: seq<Part>)
    requires !s.closed
    ensures !ExecuteFlushing(c, s, parts).0.closed
    decreases |parts|
  {
    if parts != [] {
      StaysOpen(c, s, parts[0]);
      var (t, ok) := WriteThenFlush(c, s, parts[0]);
      if ok { ExecuteStaysOpen(c, t, parts[1..]); }
    }
  }

  lemma {:induction false} HandleSound(c: Format, s: State, acked: set<Mutation>, ev: Event)
    requires Sound(c, s, acked) && !s.closed
    ensures var o := Handle(c, s, acked, ev);
            && Sound(c, o.state, o.acked)
            && (o.ending == Running ==> !o.state.closed)
            && (o.ending == Exit(0) ==> o.state.memtable == [])
  {
    match ev
    case Line(stmt, blank) =>
      if stmt.Some? {
        ExecuteSound(c, s, acked, stmt.value);
        ExecuteStaysOpen(c, s, stmt.value);
      }
    case EndOfInput(f) => CloseSound(c, s, acked, f);
    case CtrlC(f, again) =>
      FlushSound(c, s, acked, f);
      CloseSound(c, s, acked, f);
    case ReadError =>
  }

  lemma {:induction false} RunSound(c: Format, s: State, acked: set<Mutation>, events: seq<Event>)
    requires Sound(c, s, acked) && !s.closed
    ensures var o := Run(c, s, acked, events);
            Sound(c, o.state, o.acked) && (o.ending == Exit(0) ==> o.state.memtable == [])
    decreases |events|
  {
    if events != [] {
      HandleSound(c, s, acked, events[0]);
      var o := Handle(c, s, acked, events[0]);
      if o.ending == Running { RunSound(c, o.state, o.acked, events[1..]); }
    }
  }

  /** No append of the statement breaks off inside its frame. */
  predicate TearFree(parts: seq<Part>) {
    forall i :: 0 <= i < |parts| ==> !(parts[i].write.AppendFails? && parts[i].write.accepted > 0)
  }

  predicate TearFreeEvents(events: seq<Event>) {
    forall i :: 0 <= i < |events| && events[i].Line? && events[i].stmt.Some? ==> TearFree(events[i].stmt.value)
  }

  lemma {:induction false} ExecuteUntorn(c: Format, s: State, acked: set<Mutation>, parts: seq<Part>)
    requires Untorn(c, s) && Sound(c, s, acked) && TearFree(parts)
    ensures Untorn(c, ExecuteFlushing(c, s, parts).0)
    decreases |parts|
  {
    hide Untorn, Write, Flush, Sound;
    if !s.closed && parts != [] {
      var p := parts[0];
      SoundSynced(c, s, acked);
      assert !Tears(c, s, p.m, p.write);
      WriteTearsExactly(c, s, p.m, p.write);
      var t := Write(c, s, p.m, p.write).0;
      if p.flush.Some? { FlushUntorn(c, t, p.flush.value); }
      PartSound(c, s, acked, p);
      var (u, ok) := WriteThenFlush(c, s, p);
      if ok { ExecuteUntorn(c, u, acked + {p.m}, parts[1..]); }
    }
  }

  lemma {:induction false} SoundSynced(c: Format, s: State, acked: set<Mutation>)
    requires Sound(c, s, acked)
    ensures s.wal.synced <= |s.wal.content|
  {
  }

  lemma {:induction false} RunUntorn(c: Format, s: State, acked: set<Mutation>, events: seq<Event>)
    requires Untorn(c, s) && Sound(c, s, acked) && !s.closed && TearFreeEvents(events)
    ensures Untorn(c, Run(c, s, acked, events).state)
    decreases |events|
  {
    if events != [] {
      hide Untorn, Sound, ExecuteFlushing, Flush;
      var ev := events[0];
      HandleSound(c, s, acked, ev);
      var o := Handle(c, s, acked, ev);
      assert Untorn(c, o.state) by {
        match ev
        case Line(stmt, blank) => if stmt.Some? { ExecuteUntorn(c, s, acked, stmt.value); }
        case EndOfInput(f) => CloseUntorn(c, s, f);
        case CtrlC(f, again) =>
          FlushUntorn(c, s, f);
          CloseUntorn(c, s, f);
        case ReadError =>
      }
      if o.ending == Running {
        assert forall i :: 0 <= i < |events[1..]| ==> events[1..][i] == events[i + 1];
        RunUntorn(c, o.state, o.acked, events[1..]);
      }
    }
  }

  lemma {:induction false} CloseUntorn(c: Format, s: State, f: FlushFault)
    requires Untorn(c, s)
    ensures Untorn(c, Close(s, f).0)
  {
    hide Flush, Whole;
    FlushUntorn(c, s, f);
  }

  /** Whatever the input, the interrupts and the faults: exit code 0 means every
      acknowledged statement is in an SSTable and nothing is left in memory; after any
      other ending, and after a crash at any point, everything acknowledged is in an
      SSTable or read back exactly if no write was acknowledged behind a torn frame. */
  lemma {:induction false} SessionDurable(c: Format, s: State, acked: set<Mutation>, events: seq<Event>, n: nat)
    requires RoundTrips(c) && Sound(c, s, acked) && !s.closed
    requires CrashAt(Run(c, s, acked, events).state, n)
    ensures var o := Run(c, s, acked, events);
            && Sound(c, o.state, o.acked)
            && (o.ending == Exit(0) ==> o.state.memtable == [] && forall m :: m in o.acked ==> InSstables(o.state, m))
            && (AllRestored(c, o.state, n) <==> NoneBehindTorn(c, o.state))
            && (NoneBehindTorn(c, o.state) && Reopen(c, o.state, n).Some? ==>
                  Sound(c, Reopen(c, o.state, n).value, o.acked))
            && (Untorn(c, s) && TearFreeEvents(events) ==> NoneBehindTorn(c, o.state))
  {
    hide Run, Reopen, AllRestored, NoneBehindTorn, Untorn, TearFreeEvents;
    RunSound(c, s, acked, events);
    var o := Run(c, s, acked, events);
    RestoredExactly(c, o.state, o.acked, n);
    if NoneBehindTorn(c, o.state) && Reopen(c, o.state, n).Some? { ReopenSound(c, o.state, o.acked, n); }
    if Untorn(c, s) && TearFreeEvents(events) {
      RunUntorn(c, s, acked, events);
      UntornNoneBehind(c, o.state);
    }
  }

  // ----- any number of sessions and crashes -----

  /** A session, and how much of the unsynced log the crash after it leaves. */
  datatype Life = Life(events: seq<Event>, extra: nat)

  function CrashPoint(s: State, extra: nat): nat { Least(s.wal.synced + extra, |s.wal.content|) }

  /** Sessions one after another, each reopening what the crash of the last left;
      `None` when the log of the last cannot be opened. */
  function Lives(c: Format, s: State, acked: set<Mutation>, lives: seq<Life>): Option<Outcome> {
    if lives == [] then Some(Outcome(s, acked, Running))
    else
      var before := Lives(c, s, acked, lives[..|lives| - 1]);
      if before.None? then None
      else
        var life := lives[|lives| - 1];
        var o := Run(c, before.value.state, before.value.acked, life.events);
        var again := Reopen(c, o.state, CrashPoint(o.state, life.extra));
        if again.None? then None else Some(Outcome(again.value, o.acked, Running))
  }

  /** Through any number of sessions, crashes and reopenings in which no append breaks
      off inside its frame, everything ever acknowledged is in an SSTable or in the
      memtable and the log. */
  lemma {:induction false} LivesDurable(c: Format, s: State, acked: set<Mutation>, lives: seq<Life>)
    requires RoundTrips(c) && Sound(c, s, acked) && Untorn(c, s) && !s.closed
    requires forall i :: 0 <= i < |lives| ==> TearFreeEvents(lives[i].events)
    requires Lives(c, s, acked, lives).Some?
    ensures var o := Lives(c, s, acked, lives).value;
            Sound(c, o.state, o.acked) && Untorn(c, o.state) && !o.state.closed && acked <= o.acked
  {
    hide Run, Reopen, Untorn, Sound, RoundTrips, TearFreeEvents;
    if lives != [] {
      var n := |lives| - 1;
      LivesDurable(c, s, acked, lives[..n]);
      var b, life := Lives(c, s, acked, lives[..n]).value, lives[n];
      assert TearFreeEvents(life.events);
      var o := Run(c, b.state, b.acked, life.events);
      RunSound(c, b.state, b.acked, life.events);
      RunUntorn(c, b.state, b.acked, life.events);
      RunAcked(c, b.state, b.acked, life.events);
      UntornNoneBehind(c, o.state);
      SoundSynced(c, o.state, o.acked);
      var cut := CrashPoint(o.state, life.extra);
      ReopenSound(c, o.state, o.acked, cut);
      ReopenUntorn(c, o.state, o.acked, cut);
      assert !Reopen(c, o.state, cut).value.closed by { ReopenOpen(c, o.state, cut); }
    }
  }

  lemma {:induction false} ReopenOpen(c: Format, s: State, n: nat)
    requires Reopen(c, s, n).Some?
    ensures !Reopen(c, s, n).value.closed
  {
    hide ReportOf;
  }

  lemma {:induction false} RunAcked(c: Format, s: State, acked: set<Mutation>, events: seq<Event>)
    ensures acked <= Run(c, s, acked, events).acked
    decreases |events|
  {
    hide ExecuteFlushing, Flush;
    if events != [] {
      var o := Handle(c, s, acked, events[0]);
      if o.ending == Running { RunAcked(c, o.state, o.acked, events[1..]); }
    }
  }

  // ----- the one-shot invocation -----

  /** `--mutation` (each must succeed), `--mutations-file` (failures are counted and
      skipped), `--flush`, `--file`, `--execute`; `None` for an absent option. */
  datatype Args = Args(
    writable: bool,
    mutations: seq<Part>,
    mutationsFile: Option<seq<Part>>,
    flush: bool,
    file: bool,
    execute: Option<Statement>)

  datatype Statement = Dml(parts: seq<Part>) | Other

  datatype Result = Result(state: State, written: set<Mutation>, ok: bool)

  /** `write_async` for each, stopping at the first error. */
  function WriteAll(c: Format, s: State, written: set<Mutation>, parts: seq<Part>): Result
    decreases |parts|
  {
    if parts == [] then Result(s, written, true)
    else
      var (t, ok) := WriteThenFlush(c, s, parts[0]);
      if ok then WriteAll(c, t, written + {parts[0].m}, parts[1..]) else Result(t, written, false)
  }

  /** The file's lines: errors do not stop it. */
  function WriteEach(c: Format, s: State, written: set<Mutation>, parts: seq<Part>): Result
    decreases |parts|
  {
    if parts == [] then Result(s, written, true)
    else
      var (t, ok) := WriteThenFlush(c, s, parts[0]);
      WriteEach(c, t, if ok then written + {parts[0].m} else written, parts[1..])
  }

  predicate Deferred(a: Args) { !a.file && a.execute.Some? && a.execute.value.Dml? }

  /** The public `flush`. */
  function PublicFlush(s: State, f: FlushFault): (State, bool) {
    if s.closed then (s, false) else Flush(s, f)
  }

  /** Mutations, then the flush unless a DML `--execute` will do it, then `--file` or
      `--execute`.  `f` is the outcome of whichever flush runs. */
  function OneShot(c: Format, s: State, a: Args, f: FlushFault): Result {
    if a.mutations != [] && !a.writable then Result(s, {}, false)
    else
      var r1 := WriteAll(c, s, {}, a.mutations);
      if !r1.ok then r1
      else if a.mutationsFile.Some? && !a.writable then r1.(ok := false)
      else
        var r2 := if a.mutationsFile.Some? then WriteEach(c, r1.state, r1.written, a.mutationsFile.value) else r1;
        if a.flush && a.writable && !Deferred(a) then
          var (t, ok) := PublicFlush(r2.state, f);
          Result(t, r2.written, ok)
        else if !Deferred(a) then r2
        else if !a.writable then r2.(ok := false)
        else ExecuteDml(c, r2, a.execute.value.parts, a.flush, f)
  }

  /** The DML branch: `engine.execute` writes without flushing, then the deferred flush. */
  function ExecuteDml(c: Format, r: Result, parts: seq<Part>, flush: bool, f: FlushFault): Result {
    var w := WriteAll(c, r.state, r.written, Unflushed(parts));
    if !w.ok || !flush then w
    else
      var (t, ok) := PublicFlush(w.state, f);
      Result(t, w.written, ok)
  }

  /** Inside a runtime the synchronous write path never flushes by itself. */
  function Unflushed(parts: seq<Part>): seq<Part> {
    seq(|parts|, i requires 0 <= i < |parts| => parts[i].(flush := None))
  }

  lemma {:induction false} WriteAllSound(c: Format, s: State, written: set<Mutation>, parts: seq<Part>)
    requires Sound(c, s, written)
    ensures var r := WriteAll(c, s, written, parts); Sound(c, r.state, r.written)
    decreases |parts|
  {
    if parts != [] {
      PartSound(c, s, written, parts[0]);
      var (t, ok) := WriteThenFlush(c, s, parts[0]);
      if ok { WriteAllSound(c, t, written + {parts[0].m}, parts[1..]); }
    }
  }

  lemma {:induction false} WriteEachSound(c: Format, s: State, written: set<Mutation>, parts: seq<Part>)
    requires Sound(c, s, written)
    ensures var r := WriteEach(c, s, written, parts); Sound(c, r.state, r.written)
    decreases |parts|
  {
    if parts != [] {
      PartSound(c, s, written, parts[0]);
      var (t, ok) := WriteThenFlush(c, s, parts[0]);
      WriteEachSound(c, t, if ok then written + {parts[0].m} else written, parts[1..]);
    }
  }

  /** A writable invocation that succeeds with `--flush` leaves nothing in memory:
      every write it made, a deferred DML included, is in an SSTable. */
  lemma {:induction false} OneShotFlushed(c: Format, s: State, a: Args, f: FlushFault)
    requires Sound(c, s, {})
    ensures var r := OneShot(c, s, a, f);
            && Sound(c, r.state, r.written)
            && (r.ok && a.flush && a.writable ==>
                  r.state.memtable == [] && forall m :: m in r.written ==> InSstables(r.state, m))
  {
    hide Flush, Write, WriteThenFlush, Sound;
    var r1 := WriteAll(c, s, {}, a.mutations);
    WriteAllSound(c, s, {}, a.mutations);
    var r2 := if a.mutationsFile.Some? then WriteEach(c, r1.state, r1.written, a.mutationsFile.value) else r1;
    if a.mutationsFile.Some? { WriteEachSound(c, r1.state, r1.written, a.mutationsFile.value); }
    assert Sound(c, s, {});
    FlushSound(c, r2.state, r2.written, f);
    var parts := if Deferred(a) then a.execute.value.parts else [];
    var w := WriteAll(c, r2.state, r2.written, Unflushed(parts));
    WriteAllSound(c, r2.state, r2.written, Unflushed(parts));
    FlushSound(c, w.state, w.written, f);
    var r := OneShot(c, s, a, f);
    FlushedInSstables(c, r.state, r.written);
  }

  lemma {:induction false} FlushedInSstables(c: Format, s: State, written: set<Mutation>)
    ensures Sound(c, s, written) && s.memtable == [] ==> forall m :: m in written ==> InSstables(s, m)
  {
  }
}
