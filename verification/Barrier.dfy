/** The read-while-write bench's protocol (`cqlite-core/benches/read_while_write.rs`):
    writers that ingest until told to stop, a driver that waits for every writer's
    first ingest before it starts the readers, and readers that scan a fixed number
    of times.  Relaxed atomics may be read late, never early. */
module Barrier {

  /** Where a writer stands in its loop. */
  datatype Point = Ingesting | Signalling | Checking | Exited | Crashed

  datatype Writer = Writer(at: Point, written: nat)

  datatype Reader = Reader(scanning: bool, scans: nat)

  datatype Phase = Waiting | Reading | Stopping | Finished(total: nat) | Panicked

  datatype State = State(ready: nat, stop: bool, phase: Phase, writers: seq<Writer>, readers: seq<Reader>)

  datatype Event =
    | Ingest(w: nat)
    | Crash(w: nat)
    | Signal(w: nat)
    | Check(w: nat, seen: bool)
    | Poll(count: nat)
    | Timeout
    | BeginScan(r: nat)
    | EndScan(r: nat)
    | JoinReaders(rowsAgree: bool)
    | Stop
    | JoinWriters

  function Fresh<T>(x: T, n: nat): seq<T> { if n == 0 then [] else Fresh(x, n - 1) + [x] }

  function Init(writers: nat): State {
    State(0, false, Waiting, Fresh(Writer(Ingesting, 0), writers), [])
  }

  function TotalWritten(ws: seq<Writer>): nat {
    if ws == [] then 0 else TotalWritten(ws[..|ws| - 1]) + ws[|ws| - 1].written
  }

  function WriterStep(s: State, w: nat, p: Point, more: nat): State
    requires w < |s.writers|
  {
    s.(writers := s.writers[w := Writer(p, s.writers[w].written + more)])
  }

  predicate WriterAt(s: State, w: nat, p: Point) { w < |s.writers| && s.writers[w].at == p }

  predicate ReadersDone(s: State, scans: nat) {
    forall r :: 0 <= r < |s.readers| ==> s.readers[r].scans == scans && !s.readers[r].scanning
  }

  predicate WritersJoined(s: State) {
    forall w :: 0 <= w < |s.writers| ==> s.writers[w].at == Exited || s.writers[w].at == Crashed
  }

  /** One step of one task; an event that is not enabled changes nothing. */
  function Next(s: State, e: Event, readers: nat, scans: nat): State {
    match e
    case Ingest(w) => if WriterAt(s, w, Ingesting) then WriterStep(s, w, Signalling, 1) else s
    case Crash(w) => if WriterAt(s, w, Ingesting) then WriterStep(s, w, Crashed, 0) else s
    case Signal(w) =>
      if !WriterAt(s, w, Signalling) then s
      else
        var t := WriterStep(s, w, Checking, 0);
        if s.writers[w].written == 1 then t.(ready := s.ready + 1) else t
    case Check(w, seen) =>
      if !WriterAt(s, w, Checking) || (seen && !s.stop) then s
      else WriterStep(s, w, if seen then Exited else Ingesting, 0)
    case Poll(count) =>
      if s.phase == Waiting && count <= s.ready && count >= |s.writers|
      then s.(phase := Reading, readers := Fresh(Reader(false, 0), readers)) else s
    case Timeout => if s.phase == Waiting then s.(phase := Panicked) else s
    case BeginScan(r) =>
      if r < |s.readers| && !s.readers[r].scanning && s.readers[r].scans < scans && s.phase == Reading
      then s.(readers := s.readers[r := Reader(true, s.readers[r].scans)]) else s
    case EndScan(r) =>
      if r < |s.readers| && s.readers[r].scanning
      then s.(readers := s.readers[r := Reader(false, s.readers[r].scans + 1)]) else s
    case JoinReaders(rowsAgree) =>
      if s.phase == Reading && ReadersDone(s, scans)
      then s.(phase := if rowsAgree then Stopping else Panicked) else s
    case Stop => if s.phase == Stopping then s.(stop := true) else s
    case JoinWriters =>
      if s.phase != Stopping || !s.stop || !WritersJoined(s) then s
      else if exists w :: 0 <= w < |s.writers| && s.writers[w].at == Crashed then s.(phase := Panicked)
      else s.(phase := Finished(TotalWritten(s.writers)))
  }

  function Run(s: State, events: seq<Event>, readers: nat, scans: nat): State {
    if events == [] then s
    else Next(Run(s, events[..|events| - 1], readers, scans), events[|events| - 1], readers, scans)
  }

  // ----- the invariant -----

  /** The writer has ingested and told the driver so. */
  predicate Announced(w: Writer) { w.written > 1 || (w.written == 1 && !w.at.Signalling?) }

  function CountAnnounced(ws: seq<Writer>): (n: nat)
    ensures n <= |ws|
  {
    if ws == [] then 0 else CountAnnounced(ws[..|ws| - 1]) + (if Announced(ws[|ws| - 1]) then 1 else 0)
  }

  predicate WriterOk(w: Writer, stop: bool) {
    (w.at.Signalling? || w.at.Checking? || w.at.Exited? ==> w.written >= 1) && (w.at.Exited? ==> stop)
  }

  predicate Invariant(s: State, n: nat) {
    |s.writers| == n && s.ready == CountAnnounced(s.writers) &&
    (forall w :: 0 <= w < n ==> WriterOk(s.writers[w], s.stop)) &&
    (s.phase.Waiting? ==> s.readers == []) &&
    (s.phase.Reading? || s.phase.Stopping? || s.phase.Finished? ==> s.ready == n) &&
    (s.stop ==> s.phase.Stopping? || s.phase.Finished? || s.phase.Panicked?) &&
    (!s.phase.Reading? ==> forall r :: 0 <= r < |s.readers| ==> !s.readers[r].scanning) &&
    (s.phase.Finished? ==> s.phase.total == TotalWritten(s.writers)) &&
    (s.phase.Finished? ==> forall w :: 0 <= w < n ==> s.writers[w].at == Exited)
  }

  lemma {:induction false} CountUpdate(ws: seq<Writer>, w: nat, x: Writer)
    requires w < |ws|
    ensures CountAnnounced(ws[w := x])
         == CountAnnounced(ws) - (if Announced(ws[w]) then 1 else 0) + (if Announced(x) then 1 else 0)
  {
    hide Announced;
    var n := |ws| - 1;
    if w == n {
      assert ws[w := x][..n] == ws[..n];
    } else {
      CountUpdate(ws[..n], w, x);
      assert ws[w := x][..n] == ws[..n][w := x];
    }
  }

  lemma {:induction false} AllAnnounced(ws: seq<Writer>, w: nat)
    requires CountAnnounced(ws) == |ws| && w < |ws|
    ensures Announced(ws[w])
  {
    hide Announced;
    if w < |ws| - 1 { AllAnnounced(ws[..|ws| - 1], w); }
  }

  lemma {:induction false} FreshAll<T>(x: T, n: nat)
    ensures |Fresh(x, n)| == n && forall i :: 0 <= i < n ==> Fresh(x, n)[i] == x
  {
    if n > 0 { FreshAll(x, n - 1); }
  }

  lemma {:induction false} NoneAnnounced(n: nat)
    ensures CountAnnounced(Fresh(Writer(Ingesting, 0), n)) == 0
  {
    if n > 0 {
      NoneAnnounced(n - 1);
      FreshAll(Writer(Ingesting, 0), n - 1);
      var f := Fresh(Writer(Ingesting, 0), n);
      assert f[..n - 1] == Fresh(Writer(Ingesting, 0), n - 1);
    }
  }

  lemma {:induction false} InitInvariant(n: nat)
    ensures Invariant(Init(n), n)
  {
    FreshAll(Writer(Ingesting, 0), n);
    NoneAnnounced(n);
  }

  lemma {:induction false} WriterKeeps(s: State, e: Event, n: nat, readers: nat, scans: nat)
    requires Invariant(s, n) && (e.Ingest? || e.Crash? || e.Signal? || e.Check?)
    ensures Invariant(Next(s, e, readers, scans), n)
  {
    hide CountAnnounced, TotalWritten;
    if e.w < |s.writers| && !s.phase.Finished? {
      var t := Next(s, e, readers, scans);
      CountUpdate(s.writers, e.w, t.writers[e.w]);
    }
  }

  lemma {:induction false} DriverKeeps(s: State, e: Event, n: nat, readers: nat, scans: nat)
    requires Invariant(s, n) && !(e.Ingest? || e.Crash? || e.Signal? || e.Check?)
    ensures Invariant(Next(s, e, readers, scans), n)
  {
    hide CountAnnounced, TotalWritten;
    FreshAll(Reader(false, 0), readers);
  }

  lemma {:induction false} RunInvariant(n: nat, events: seq<Event>, readers: nat, scans: nat)
    ensures Invariant(Run(Init(n), events, readers, scans), n)
  {
    hide Invariant, Next, Init;
    if events == [] {
      InitInvariant(n);
    } else {
      var e := events[|events| - 1];
      var s := Run(Init(n), events[..|events| - 1], readers, scans);
      RunInvariant(n, events[..|events| - 1], readers, scans);
      if e.Ingest? || e.Crash? || e.Signal? || e.Check? { WriterKeeps(s, e, n, readers, scans); }
      else { DriverKeeps(s, e, n, readers, scans); }
    }
  }

  // ----- what the bench promises -----

  predicate SomeScan(s: State) { exists r :: 0 <= r < |s.readers| && s.readers[r].scanning }

  /** While any scan runs, every writer has ingested and none has left its loop. */
  lemma {:induction false} ScansUnderLoad(n: nat, events: seq<Event>, readers: nat, scans: nat, w: nat)
    requires SomeScan(Run(Init(n), events, readers, scans)) && w < n
    ensures var s := Run(Init(n), events, readers, scans);
            |s.writers| == n && s.writers[w].written >= 1 && !s.writers[w].at.Exited? && s.ready == n && !s.stop
  {
    hide Run, CountAnnounced, TotalWritten;
    RunInvariant(n, events, readers, scans);
    AllAnnounced(Run(Init(n), events, readers, scans).writers, w);
  }

  lemma {:induction false} ReadyBounded(n: nat, events: seq<Event>, readers: nat, scans: nat)
    ensures Run(Init(n), events, readers, scans).ready <= n
  {
    hide Run, TotalWritten;
    RunInvariant(n, events, readers, scans);
  }

  lemma {:induction false} TotalAtLeast(ws: seq<Writer>)
    requires forall w :: 0 <= w < |ws| ==> ws[w].written >= 1
    ensures TotalWritten(ws) >= |ws|
  {
    if ws != [] { TotalAtLeast(ws[..|ws| - 1]); }
  }

  /** A run that finishes has written at least once per writer. */
  lemma {:induction false} EveryWriterCounted(n: nat, events: seq<Event>, readers: nat, scans: nat)
    requires Run(Init(n), events, readers, scans).phase.Finished?
    ensures Run(Init(n), events, readers, scans).phase.total >= n
  {
    hide Run, CountAnnounced, TotalWritten;
    RunInvariant(n, events, readers, scans);
    var s := Run(Init(n), events, readers, scans);
    assert forall w :: 0 <= w < n ==> WriterOk(s.writers[w], s.stop);
    TotalAtLeast(s.writers);
  }

  lemma {:induction false} CrashStays(s: State, events: seq<Event>, readers: nat, scans: nat, w: nat)
    requires WriterAt(s, w, Crashed)
    ensures WriterAt(Run(s, events, readers, scans), w, Crashed)
  {
    if events != [] { CrashStays(s, events[..|events| - 1], readers, scans, w); }
  }

  lemma {:induction false} RunAppend(s: State, a: seq<Event>, b: seq<Event>, readers: nat, scans: nat)
    ensures Run(s, a + b, readers, scans) == Run(Run(s, a, readers, scans), b, readers, scans)
  {
    hide Next;
    if b == [] {
      assert a + b == a;
    } else {
      RunAppend(s, a, b[..|b| - 1], readers, scans);
      assert (a + b)[..|a + b| - 1] == a + b[..|b| - 1];
    }
  }

  /** Of a run that finishes, every scan was under the load of every writer: none had
      exited and none had crashed. */
  lemma {:induction false} FinishedScansLoaded(n: nat, before: seq<Event>, after: seq<Event>, readers: nat,
      scans: nat, w: nat)
    requires SomeScan(Run(Init(n), before, readers, scans)) && w < n
    requires Run(Init(n), before + after, readers, scans).phase.Finished?
    ensures var s := Run(Init(n), before, readers, scans);
            |s.writers| == n && s.writers[w].written >= 1 && !s.writers[w].at.Exited? && !s.writers[w].at.Crashed?
  {
    hide Run, CountAnnounced, TotalWritten, Next;
    var s := Run(Init(n), before, readers, scans);
    ScansUnderLoad(n, before, readers, scans, w);
    RunInvariant(n, before + after, readers, scans);
    RunAppend(Init(n), before, after, readers, scans);
    if s.writers[w].at.Crashed? { CrashStays(s, after, readers, scans, w); }
  }

  /** A crash while ingesting can pass unnoticed by the readers' window, but never by
      the join: the run panics instead of reporting. */
  lemma {:induction false} CrashNeverReported(n: nat, events: seq<Event>, readers: nat, scans: nat, w: nat)
    requires w < n && WriterAt(Run(Init(n), events, readers, scans), w, Crashed)
    ensures !Run(Init(n), events, readers, scans).phase.Finished?
  {
    hide Run, CountAnnounced, TotalWritten, Next;
    RunInvariant(n, events, readers, scans);
  }

  // ----- the run can always be brought to its end -----

  predicate ReadersOk(s: State, scans: nat) {
    forall r :: 0 <= r < |s.readers| ==>
      s.readers[r].scans <= scans && (s.readers[r].scanning ==> s.readers[r].scans < scans)
  }

  lemma {:induction false} RunReadersOk(n: nat, events: seq<Event>, readers: nat, scans: nat)
    ensures ReadersOk(Run(Init(n), events, readers, scans), scans)
  {
    if events != [] {
      RunReadersOk(n, events[..|events| - 1], readers, scans);
      FreshAll(Reader(false, 0), readers);
    }
  }

  predicate NoCrash(s: State) { forall w :: 0 <= w < |s.writers| ==> !s.writers[w].at.Crashed? }

  /** Steps that a writer still owes: to its announcement, or to its exit. */
  function Owed(w: Writer, exit: bool): nat {
    if exit then
      match w.at
      case Ingesting => 3
      case Signalling => 2
      case Checking => 1
      case Exited => 0
      case Crashed => 0
    else if Announced(w) then 0 else if w.at.Signalling? then 1 else 2
  }

  function WritersOwe(ws: seq<Writer>, exit: bool): nat {
    if ws == [] then 0 else WritersOwe(ws[..|ws| - 1], exit) + Owed(ws[|ws| - 1], exit)
  }

  function ReadersOwe(rs: seq<Reader>, scans: nat): int {
    if rs == [] then 0
    else
      var r := rs[|rs| - 1];
      ReadersOwe(rs[..|rs| - 1], scans) + 2 * (scans - r.scans) - (if r.scanning then 1 else 0)
  }

  lemma {:induction false} WritersOweUpdate(ws: seq<Writer>, w: nat, x: Writer, exit: bool)
    requires w < |ws|
    ensures WritersOwe(ws[w := x], exit) == WritersOwe(ws, exit) - Owed(ws[w], exit) + Owed(x, exit)
  {
    hide Owed;
    var n := |ws| - 1;
    if w == n {
      assert ws[w := x][..n] == ws[..n];
    } else {
      WritersOweUpdate(ws[..n], w, x, exit);
      assert ws[w := x][..n] == ws[..n][w := x];
    }
  }

  lemma {:induction false} ReadersOweUpdate(rs: seq<Reader>, r: nat, x: Reader, scans: nat)
    requires r < |rs|
    ensures ReadersOwe(rs[r := x], scans)
         == ReadersOwe(rs, scans) + 2 * (rs[r].scans - x.scans)
            + (if rs[r].scanning then 1 else 0) - (if x.scanning then 1 else 0)
  {
    var n := |rs| - 1;
    if r == n {
      assert rs[r := x][..n] == rs[..n];
    } else {
      ReadersOweUpdate(rs[..n], r, x, scans);
      assert rs[r := x][..n] == rs[..n][r := x];
    }
  }

  lemma {:induction false} ReadersOweNothing(rs: seq<Reader>, scans: nat)
    requires forall r :: 0 <= r < |rs| ==> rs[r].scans <= scans && (rs[r].scanning ==> rs[r].scans < scans)
    ensures ReadersOwe(rs, scans) >= 0
  {
    if rs != [] { ReadersOweNothing(rs[..|rs| - 1], scans); }
  }

  lemma {:induction false} AllCounted(ws: seq<Writer>)
    requires forall w :: 0 <= w < |ws| ==> Announced(ws[w])
    ensures CountAnnounced(ws) == |ws|
  {
    if ws != [] { AllCounted(ws[..|ws| - 1]); }
  }

  function Rounds(s: State): nat {
    match s.phase
    case Waiting => 4
    case Reading => 3
    case Stopping => if s.stop then 1 else 2
    case Finished(_) => 0
    case Panicked => 0
  }

  function Debt(s: State, scans: nat): nat {
    match s.phase
    case Waiting => WritersOwe(s.writers, false)
    case Reading => if ReadersOwe(s.readers, scans) < 0 then 0 else ReadersOwe(s.readers, scans)
    case Stopping => WritersOwe(s.writers, true)
    case Finished(_) => 0
    case Panicked => 0
  }

  /** The step of a writer that has not exited. */
  function Advance(s: State, w: nat): Event
    requires w < |s.writers|
  {
    match s.writers[w].at
    case Ingesting => Ingest(w)
    case Signalling => Signal(w)
    case Checking => Check(w, true)
    case Exited => Stop
    case Crashed => Stop
  }

  /** What to do next towards the end. */
  ghost function Toward(s: State, scans: nat): Event {
    match s.phase
    case Waiting =>
      if w :| 0 <= w < |s.writers| && !Announced(s.writers[w]) then Advance(s, w) else Poll(s.ready)
    case Reading =>
      if r :| 0 <= r < |s.readers| && s.readers[r].scanning then EndScan(r)
      else if r :| 0 <= r < |s.readers| && s.readers[r].scans < scans then BeginScan(r)
      else JoinReaders(true)
    case Stopping =>
      if !s.stop then Stop
      else if w :| 0 <= w < |s.writers| && !s.writers[w].at.Exited? then Advance(s, w)
      else JoinWriters
    case Finished(_) => Stop
    case Panicked => Stop
  }

  predicate Closer(s: State, t: State, scans: nat) {
    !t.phase.Panicked? && (Rounds(t) < Rounds(s) || (Rounds(t) == Rounds(s) && Debt(t, scans) < Debt(s, scans)))
  }

  predicate Healthy(s: State, n: nat, scans: nat) { Invariant(s, n) && ReadersOk(s, scans) && NoCrash(s) }

  lemma {:induction false} TowardReading(s: State, n: nat, readers: nat, scans: nat)
    requires Healthy(s, n, scans) && s.phase.Waiting?
    ensures var t := Next(s, Toward(s, scans), readers, scans); Closer(s, t, scans) && ReadersOk(t, scans) && NoCrash(t)
  {
    hide CountAnnounced, WritersOwe, TotalWritten, ReadersOwe;
    var e := Toward(s, scans);
    var t := Next(s, e, readers, scans);
    if exists w :: 0 <= w < |s.writers| && !Announced(s.writers[w]) {
      WritersOweUpdate(s.writers, e.w, t.writers[e.w], false);
    } else {
      AllCounted(s.writers);
      FreshAll(Reader(false, 0), readers);
    }
  }

  lemma {:induction false} TowardStopping(s: State, n: nat, readers: nat, scans: nat)
    requires Healthy(s, n, scans) && s.phase.Reading?
    ensures var t := Next(s, Toward(s, scans), readers, scans); Closer(s, t, scans) && ReadersOk(t, scans) && NoCrash(t)
  {
    hide CountAnnounced, WritersOwe, TotalWritten, ReadersOwe, Invariant;
    var e := Toward(s, scans);
    var t := Next(s, e, readers, scans);
    ReadersOweNothing(s.readers, scans);
    if e.EndScan? || e.BeginScan? {
      ReadersOweUpdate(s.readers, e.r, t.readers[e.r], scans);
      ReadersOweNothing(t.readers, scans);
    }
  }

  lemma {:induction false} TowardFinish(s: State, n: nat, readers: nat, scans: nat)
    requires Healthy(s, n, scans) && s.phase.Stopping?
    ensures var t := Next(s, Toward(s, scans), readers, scans); Closer(s, t, scans) && ReadersOk(t, scans) && NoCrash(t)
  {
    hide CountAnnounced, WritersOwe, TotalWritten, ReadersOwe, Invariant;
    var e := Toward(s, scans);
    var t := Next(s, e, readers, scans);
    if s.stop && exists w :: 0 <= w < |s.writers| && !s.writers[w].at.Exited? {
      WritersOweUpdate(s.writers, e.w, t.writers[e.w], true);
    }
  }

  /** From every state in which nobody has crashed or panicked, some schedule finishes:
      neither the barrier nor the joins can deadlock. */
  lemma {:induction false} CanFinish(s: State, n: nat, readers: nat, scans: nat) returns (rest: seq<Event>)
    requires Healthy(s, n, scans) && !s.phase.Panicked?
    ensures Run(s, rest, readers, scans).phase.Finished?
    decreases Rounds(s), Debt(s, scans)
  {
    if s.phase.Finished? {
      rest := [];
    } else {
      hide Invariant, ReadersOk, NoCrash, Next, Toward, Rounds, Debt, Run;
      var e := Toward(s, scans);
      var t := Next(s, e, readers, scans);
      if s.phase.Waiting? { TowardReading(s, n, readers, scans); }
      else if s.phase.Reading? { TowardStopping(s, n, readers, scans); }
      else { TowardFinish(s, n, readers, scans); }
      if e.Ingest? || e.Crash? || e.Signal? || e.Check? { WriterKeeps(s, e, n, readers, scans); }
      else { DriverKeeps(s, e, n, readers, scans); }
      var more := CanFinish(t, n, readers, scans);
      RunAppend(s, [e], more, readers, scans);
      assert Run(s, [e], readers, scans) == t by { OneEvent(s, e, readers, scans); }
      rest := [e] + more;
    }
  }

  lemma {:induction false} OneEvent(s: State, e: Event, readers: nat, scans: nat)
    ensures Run(s, [e], readers, scans) == Next(s, e, readers, scans)
  {
    assert [e][..0] == [];
  }

  /** Every run without a crash or a panic can be completed. */
  lemma {:induction false} NeverStuck(n: nat, events: seq<Event>, readers: nat, scans: nat) returns (rest: seq<Event>)
    requires NoCrash(Run(Init(n), events, readers, scans)) && !Run(Init(n), events, readers, scans).phase.Panicked?
    ensures Run(Init(n), events + rest, readers, scans).phase.Finished?
  {
    hide Run, Invariant, ReadersOk, NoCrash;
    RunInvariant(n, events, readers, scans);
    RunReadersOk(n, events, readers, scans);
    rest := CanFinish(Run(Init(n), events, readers, scans), n, readers, scans);
    RunAppend(Init(n), events, rest, readers, scans);
  }
}
