/** What every sequence of tracker commands keeps, whichever calls fail. */
module TrackerRuns {
  import opened Prelude
  import opened TrackerText
  import opened TrackerBody
  import opened TrackerProtocol
  import opened TrackerStore
  import opened TrackerFingerprint

  // ----- inputs that forge no marker -----

  predicate TameEntry(e: Entry) { TameFailure(e.failure) && IsFingerprint(e.fingerprint) }

  predicate TameEntries(entries: seq<Entry>) { forall i :: 0 <= i < |entries| ==> TameEntry(entries[i]) }

  predicate TameRun(run: RunInfo) {
    Quiet(run.url) && Quiet(run.time) && Tame(run.tier) && NewlinesOnly(run.repro) && !Contains(run.repro, OPEN)
  }

  /** No two entries of a run share their twelve digits. */
  predicate Distinct(entries: seq<Entry>) {
    forall i, j :: 0 <= i < j < |entries| ==> Short(entries[i].fingerprint) != Short(entries[j].fingerprint)
  }

  // ----- the invariant -----

  function Key(t: Tracked): string { Short(t.birth.fingerprint) }

  /** The issue is what its history made of the body it was filed with. */
  predicate Genuine(t: Tracked) {
    New(Issue(Text(t.birth), []), t.birth) && TameEvents(t.history) &&
    t.issue == Run(Issue(Text(t.birth), []), t.history)
  }

  predicate AllGenuine(store: seq<Tracked>) { forall k :: 0 <= k < |store| ==> Genuine(store[k]) }

  /** At most one open issue per fingerprint. */
  predicate OnePerKey(store: seq<Tracked>) {
    forall j, k :: 0 <= j < k < |store| && store[j].open && store[k].open ==> Key(store[j]) != Key(store[k])
  }

  predicate Sound(store: seq<Tracked>) { AllGenuine(store) && OnePerKey(store) }

  lemma {:induction false} MatchesKey(t: Tracked, fingerprint: string)
    requires Genuine(t) && IsFingerprint(fingerprint)
    ensures Matches(t, fingerprint) <==> t.open && Key(t) == Short(fingerprint)
  {
    hide Text, Contains, Short, TameDoc, Marker, Run;
    RunIsDoc(Issue(Text(t.birth), []), t.birth, t.history);
    FoundIffSameMarker(RunDoc(t.birth, t.history), fingerprint);
  }

  lemma {:induction false} StepGenuine(t: Tracked, e: Event)
    requires Genuine(t) && TameEvent(e)
    ensures Genuine(Touched(t, Step(t.issue, e), e))
  {
    hide Text, Step, TameEvent, New;
    var h := t.history + [e];
    assert h[..|h| - 1] == t.history && h[|h| - 1] == e;
  }

  lemma {:induction false} NewGenuine(e: Entry, run: RunInfo)
    requires TameEntry(e) && TameRun(run)
    ensures Genuine(NewTracked(e, run)) && Key(NewTracked(e, run)) == Short(e.fingerprint) && NewTracked(e, run).open
  {
    hide Text, Quiet, Tame, Contains, Short, NewlinesOnly, IssueBody;
    NewText(e.failure, e.fingerprint, run.url, run.time, run.tier, run.repro);
  }

  // ----- filing -----

  /** Issues the run has not reached yet are still as the snapshot has them. */
  predicate Untouched(now: seq<Tracked>, snap: seq<Tracked>, entries: seq<Entry>, i: nat)
    requires i <= |entries|
  {
    |snap| <= |now| &&
    (forall k :: 0 <= k < |snap| ==> now[k].open == snap[k].open && now[k].birth == snap[k].birth) &&
    (forall k, j ::
       0 <= k < |snap| && snap[k].open && i <= j < |entries| && Key(snap[k]) == Short(entries[j].fingerprint)
       ==> now[k] == snap[k]) &&
    (forall k, j :: |snap| <= k < |now| && i <= j < |entries| ==> Key(now[k]) != Short(entries[j].fingerprint))
  }

  lemma {:induction false} FileOneSound(now: seq<Tracked>, snap: seq<Tracked>, entries: seq<Entry>, i: nat,
      run: RunInfo, c: Calls)
    requires i < |entries| && TameEntries(entries) && TameRun(run) && Distinct(entries)
    requires Sound(snap) && Sound(now) && Untouched(now, snap, entries, i)
    ensures var r := FileOne(now, snap, entries[i], run, c).store;
            |snap| <= |r| && Sound(r) && Untouched(r, snap, entries, i + 1)
  {
    hide Genuine, Short, Step, Quiet, Tame, Contains, NewlinesOnly, IsFingerprint;
    var e := entries[i];
    forall k | 0 <= k < |snap|
      ensures Matches(snap[k], e.fingerprint) <==> snap[k].open && Key(snap[k]) == Short(e.fingerprint)
    {
      MatchesKey(snap[k], e.fingerprint);
    }
    match Lookup(snap, e.fingerprint, 0)
    case Some(k) =>
      var event := Recur(run.url, run.time, c.first, c.second);
      assert now[k] == snap[k];
      assert UpdateIssue(now[k].issue, snap[k].issue.body, run, c) == Step(now[k].issue, event) by {
        UpdateIsStep(now[k].issue, run, c);
      }
      StepGenuine(now[k], event);
    case None =>
      NewGenuine(e, run);
  }

  lemma {:induction false} UpdateIsStep(i: Issue, run: RunInfo, c: Calls)
    ensures UpdateIssue(i, i.body, run, c) == Step(i, Recur(run.url, run.time, c.first, c.second))
  {
    hide Refresh, ClearResolved;
  }

  lemma {:induction false} ResolveIsStep(i: Issue, run: RunInfo, c: Calls)
    requires !IsResolved(i.body)
    ensures ResolveIssue(i, i.body, run, c) == Step(i, Green(run.url, run.time, c.first, c.second))
  {
    hide SetResolved;
  }

  lemma {:induction false} FileFromSound(now: seq<Tracked>, snap: seq<Tracked>, entries: seq<Entry>, i: nat,
      run: RunInfo, calls: seq<Calls>)
    requires i <= |entries| && TameEntries(entries) && TameRun(run) && Distinct(entries)
    requires Sound(snap) && Sound(now) && |snap| <= |now| && Untouched(now, snap, entries, i)
    ensures Sound(FileFrom(now, snap, entries, i, run, calls).store)
    decreases |entries| - i
  {
    hide Sound, Untouched, TameEntries, TameRun, Distinct, FileOne;
    if i < |entries| {
      var one := FileOne(now, snap, entries[i], run, CallsAt(calls, i));
      FileOneSound(now, snap, entries, i, run, CallsAt(calls, i));
      if one.ok { FileFromSound(one.store, snap, entries, i + 1, run, calls); }
    }
  }

  // ----- resolving -----

  /** Each issue is listed once. */
  predicate Listing(order: seq<nat>) { forall i, j :: 0 <= i < j < |order| ==> order[i] != order[j] }

  /** Issues listed from i on are still as the snapshot has them. */
  predicate Unvisited(now: seq<Tracked>, snap: seq<Tracked>, order: seq<nat>, i: nat) {
    |now| == |snap| && forall j :: i <= j < |order| && order[j] < |snap| ==> now[order[j]] == snap[order[j]]
  }

  lemma {:induction false} GreenOneSound(now: seq<Tracked>, snap: seq<Tracked>, k: nat, lane: string, run: RunInfo,
      c: Calls)
    requires |now| == |snap| && k < |snap| && TameRun(run) && Sound(now) && now[k] == snap[k]
    ensures var r := GreenOne(now, snap, k, lane, run, c).store;
            Sound(r) && |r| == |snap| && forall j :: 0 <= j < |snap| && j != k ==> r[j] == now[j]
  {
    hide Genuine, Key, Step, Quiet, Tame, Contains, NewlinesOnly, IsResolved, InLane;
    if InLane(snap[k], lane) {
      var event := if IsResolved(snap[k].issue.body) then Green(run.url, run.time, Done, Done)
                   else Green(run.url, run.time, c.first, c.second);
      if !IsResolved(now[k].issue.body) { ResolveIsStep(now[k].issue, run, c); } else { SkipIsStep(now[k].issue, run); }
      TouchSound(now, k, event);
    }
  }

  lemma {:induction false} SkipIsStep(i: Issue, run: RunInfo)
    requires IsResolved(i.body)
    ensures i == Step(i, Green(run.url, run.time, Done, Done))
  {
    hide IsResolved;
  }

  lemma {:induction false} TouchSound(now: seq<Tracked>, k: nat, e: Event)
    requires Sound(now) && k < |now| && TameEvent(e)
    ensures Sound(now[k := Touched(now[k], Step(now[k].issue, e), e)])
  {
    hide Genuine, Step, Short;
    StepGenuine(now[k], e);
    var t := Touched(now[k], Step(now[k].issue, e), e);
    assert Key(t) == Key(now[k]) && t.open == now[k].open;
  }

  lemma {:induction false} GreenFromSound(now: seq<Tracked>, snap: seq<Tracked>, order: seq<nat>, i: nat,
      lane: string, run: RunInfo, calls: seq<Calls>)
    requires i <= |order| && TameRun(run) && Sound(now) && Listing(order)
    requires |now| == |snap| && Unvisited(now, snap, order, i)
    ensures Sound(GreenFrom(now, snap, order, i, lane, run, calls).store)
    decreases |order| - i
  {
    hide Sound, TameRun, GreenOne;
    if i < |order| {
      var k := order[i];
      if k < |snap| {
        var one := GreenOne(now, snap, k, lane, run, CallsAt(calls, i));
        GreenOneSound(now, snap, k, lane, run, CallsAt(calls, i));
        if one.ok { GreenFromSound(one.store, snap, order, i + 1, lane, run, calls); }
      } else {
        GreenFromSound(now, snap, order, i + 1, lane, run, calls);
      }
    }
  }

  lemma {:induction false} ResolveEntrySound(now: seq<Tracked>, snap: seq<Tracked>, entries: seq<Entry>, i: nat,
      run: RunInfo, c: Calls)
    requires i < |entries| && TameEntries(entries) && TameRun(run) && Distinct(entries)
    requires Sound(snap) && Sound(now) && |now| == |snap| && Untouched(now, snap, entries, i)
    ensures var r := ResolveEntry(now, snap, entries[i], run, c).store;
            |r| == |snap| && Sound(r) && Untouched(r, snap, entries, i + 1)
  {
    hide Genuine, Short, Step, Quiet, Tame, Contains, NewlinesOnly, IsFingerprint, IsResolved;
    var e := entries[i];
    match Lookup(snap, e.fingerprint, 0)
    case None =>
    case Some(k) =>
      MatchesKey(snap[k], e.fingerprint);
      StillSnap(now, snap, entries, i, k);
      var t := snap[k];
      var event := if IsResolved(t.issue.body) then Green(run.url, run.time, Done, Done)
                   else Green(run.url, run.time, c.first, c.second);
      if IsResolved(t.issue.body) { SkipIsStep(t.issue, run); } else { ResolveIsStep(t.issue, run, c); }
      assert GreenOne(now, snap, k, "", run, c).store == now[k := Touched(now[k], Step(now[k].issue, event), event)];
      TouchSound(now, k, event);
  }

  lemma {:induction false} ResolveFromSound(now: seq<Tracked>, snap: seq<Tracked>, entries: seq<Entry>, i: nat,
      run: RunInfo, calls: seq<Calls>)
    requires i <= |entries| && TameEntries(entries) && TameRun(run) && Distinct(entries)
    requires Sound(snap) && Sound(now) && |now| == |snap| && Untouched(now, snap, entries, i)
    ensures Sound(ResolveFrom(now, snap, entries, i, run, calls).store)
    decreases |entries| - i
  {
    hide Sound, Untouched, TameEntries, TameRun, Distinct, ResolveEntry;
    if i < |entries| {
      var one := ResolveEntry(now, snap, entries[i], run, CallsAt(calls, i));
      ResolveEntrySound(now, snap, entries, i, run, CallsAt(calls, i));
      if one.ok { ResolveFromSound(one.store, snap, entries, i + 1, run, calls); }
    }
  }

  // ----- whole runs -----

  datatype Command =
    | FileFailures(entries: seq<Entry>, run: RunInfo, calls: seq<Calls>)
    | ResolveLane(order: seq<nat>, workflow: string, run: RunInfo, calls: seq<Calls>)
    | ResolveFailures(entries: seq<Entry>, run: RunInfo, calls: seq<Calls>)
    | Close(number: nat)

  function Execute(store: seq<Tracked>, c: Command): seq<Tracked> {
    match c
    case FileFailures(entries, run, calls) => FileRun(store, entries, run, calls).store
    case ResolveLane(order, workflow, run, calls) => GreenRun(store, order, workflow, run, calls).store
    case ResolveFailures(entries, run, calls) => ResolveRun(store, entries, run, calls).store
    case Close(number) => if number < |store| then store[number := store[number].(open := false)] else store
  }

  function ExecuteAll(commands: seq<Command>): seq<Tracked> {
    if commands == [] then [] else Execute(ExecuteAll(commands[..|commands| - 1]), commands[|commands| - 1])
  }

  predicate TameCommand(c: Command) {
    (c.FileFailures? || c.ResolveFailures? ==> TameEntries(c.entries) && Distinct(c.entries)) &&
    (c.ResolveLane? ==> Listing(c.order)) &&
    (!c.Close? ==> TameRun(c.run))
  }

  /** Whatever fails, every reachable store has at most one open issue per
      fingerprint, and each issue is a run of the one-issue protocol. */
  lemma {:induction false} EveryStoreSound(commands: seq<Command>)
    requires forall i :: 0 <= i < |commands| ==> TameCommand(commands[i])
    ensures Sound(ExecuteAll(commands))
  {
    hide TameEntries, Distinct, TameRun, Sound, FileFrom, GreenFrom, ResolveFrom;
    if commands == [] {
      EmptySound();
    } else {
      var c := commands[|commands| - 1];
      var before := ExecuteAll(commands[..|commands| - 1]);
      EveryStoreSound(commands[..|commands| - 1]);
      assert TameCommand(c);
      match c
      case FileFailures(entries, run, calls) =>
        NoneTouched(before, entries);
        FileFromSound(before, before, entries, 0, run, calls);
      case ResolveLane(order, workflow, run, calls) =>
        GreenFromSound(before, before, order, 0, Strip(workflow), run, calls);
      case ResolveFailures(entries, run, calls) =>
        NoneTouched(before, entries);
        ResolveFromSound(before, before, entries, 0, run, calls);
      case Close(number) => CloseSound(before, number);
    }
  }

  lemma {:induction false} EmptySound()
    ensures Sound([])
  {
  }

  lemma {:induction false} NoneTouched(store: seq<Tracked>, entries: seq<Entry>)
    ensures Untouched(store, store, entries, 0)
  {
  }

  lemma {:induction false} CloseSound(store: seq<Tracked>, number: nat)
    requires Sound(store)
    ensures Sound(Execute(store, Close(number)))
  {
    hide Run, New, TameEvents, Short;
    if number < |store| { assert Genuine(store[number]); }
  }

  // ----- runs whose calls all succeed -----

  predicate HistoriesDone(store: seq<Tracked>) { forall k :: 0 <= k < |store| ==> AllDone(store[k].history) }

  predicate CallsDone(calls: seq<Calls>) { forall i :: 0 <= i < |calls| ==> Succeeded(calls[i]) }

  predicate FaultFree(c: Command) { !c.Close? ==> CallsDone(c.calls) }

  lemma {:induction false} TouchDone(store: seq<Tracked>, k: nat, issue: Issue, e: Event)
    requires HistoriesDone(store) && k < |store| && e.first.Done? && e.second.Done?
    ensures HistoriesDone(store[k := Touched(store[k], issue, e)])
  {
  }

  lemma {:induction false} FileFromDone(now: seq<Tracked>, snap: seq<Tracked>, entries: seq<Entry>, i: nat,
      run: RunInfo, calls: seq<Calls>)
    requires i <= |entries| && |snap| <= |now| && CallsDone(calls) && HistoriesDone(now)
    ensures HistoriesDone(FileFrom(now, snap, entries, i, run, calls).store)
    decreases |entries| - i
  {
    hide HistoriesDone, Lookup, UpdateIssue;
    if i < |entries| {
      var c := CallsAt(calls, i);
      assert Succeeded(c);
      match Lookup(snap, entries[i].fingerprint, 0) {
        case Some(k) =>
          TouchDone(now, k, UpdateIssue(now[k].issue, snap[k].issue.body, run, c),
                    Recur(run.url, run.time, c.first, c.second));
        case None =>
          assert HistoriesDone(now + [NewTracked(entries[i], run)]) by { AppendDone(now, NewTracked(entries[i], run)); }
      }
      FileFromDone(FileOne(now, snap, entries[i], run, c).store, snap, entries, i + 1, run, calls);
    }
  }

  lemma {:induction false} AppendDone(store: seq<Tracked>, t: Tracked)
    requires HistoriesDone(store) && t.history == []
    ensures HistoriesDone(store + [t])
  {
  }

  lemma {:induction false} GreenFromDone(now: seq<Tracked>, snap: seq<Tracked>, order: seq<nat>, i: nat,
      lane: string, run: RunInfo, calls: seq<Calls>)
    requires |now| == |snap| && i <= |order| && CallsDone(calls) && HistoriesDone(now)
    ensures HistoriesDone(GreenFrom(now, snap, order, i, lane, run, calls).store)
    decreases |order| - i
  {
    hide HistoriesDone, ResolveIssue, IsResolved, InLane;
    if i < |order| {
      var c, k := CallsAt(calls, i), order[i];
      assert Succeeded(c);
      if k < |snap| {
        TouchDone(now, k, now[k].issue, Green(run.url, run.time, Done, Done));
        TouchDone(now, k, ResolveIssue(now[k].issue, snap[k].issue.body, run, c),
                  Green(run.url, run.time, c.first, c.second));
        GreenFromDone(GreenOne(now, snap, k, lane, run, c).store, snap, order, i + 1, lane, run, calls);
      } else {
        GreenFromDone(now, snap, order, i + 1, lane, run, calls);
      }
    }
  }

  lemma {:induction false} ResolveFromDone(now: seq<Tracked>, snap: seq<Tracked>, entries: seq<Entry>, i: nat,
      run: RunInfo, calls: seq<Calls>)
    requires |now| == |snap| && i <= |entries| && CallsDone(calls) && HistoriesDone(now)
    ensures HistoriesDone(ResolveFrom(now, snap, entries, i, run, calls).store)
    decreases |entries| - i
  {
    hide HistoriesDone, ResolveIssue, IsResolved, Lookup;
    if i < |entries| {
      var c := CallsAt(calls, i);
      assert Succeeded(c);
      match Lookup(snap, entries[i].fingerprint, 0) {
        case None =>
        case Some(k) =>
          TouchDone(now, k, now[k].issue, Green(run.url, run.time, Done, Done));
          TouchDone(now, k, ResolveIssue(now[k].issue, snap[k].issue.body, run, c),
                    Green(run.url, run.time, c.first, c.second));
      }
      ResolveFromDone(ResolveEntry(now, snap, entries[i], run, c).store, snap, entries, i + 1, run, calls);
    }
  }

  lemma {:induction false} HistoriesStayDone(commands: seq<Command>)
    requires forall i :: 0 <= i < |commands| ==> FaultFree(commands[i])
    ensures HistoriesDone(ExecuteAll(commands))
  {
    hide CallsDone, FileFrom, GreenFrom, ResolveFrom, AllDone;
    if commands != [] {
      var c := commands[|commands| - 1];
      var before := ExecuteAll(commands[..|commands| - 1]);
      HistoriesStayDone(commands[..|commands| - 1]);
      assert FaultFree(c);
      match c
      case FileFailures(entries, run, calls) => FileFromDone(before, before, entries, 0, run, calls);
      case ResolveLane(order, workflow, run, calls) =>
        GreenFromDone(before, before, order, 0, Strip(workflow), run, calls);
      case ResolveFailures(entries, run, calls) => ResolveFromDone(before, before, entries, 0, run, calls);
      case Close(number) =>
    }
  }

  /** After any fault-free commands, every issue has been commented on as resolved
      once for each time its failures turned green, and is stamped exactly while
      green. */
  lemma {:induction false} StoreOnePerTransition(commands: seq<Command>, k: nat)
    requires forall i :: 0 <= i < |commands| ==> TameCommand(commands[i]) && FaultFree(commands[i])
    requires k < |ExecuteAll(commands)|
    ensures var t := ExecuteAll(commands)[k];
            Resolutions(t.issue.comments) == Transitions(t.history) && Alternates(t.issue.comments) &&
            (IsResolved(t.issue.body) <==> !Failing(t.history))
  {
    hide ExecuteAll, TameCommand, FaultFree, Run, IsResolved, New, TameEvents, Alternates, Failing;
    EveryStoreSound(commands);
    HistoriesStayDone(commands);
    var t := ExecuteAll(commands)[k];
    assert Genuine(t) && AllDone(t.history);
    OnePerTransition(Issue(Text(t.birth), []), t.birth, t.history);
    NoRepeatedResolution(Issue(Text(t.birth), []), t.birth, t.history);
  }

  /** Whatever fails, a stamped issue has been commented on since the last failure
      that reached it, with one more comment at most for each failed stamp. */
  lemma {:induction false} StoreCommentsBounded(commands: seq<Command>, k: nat)
    requires forall i :: 0 <= i < |commands| ==> TameCommand(commands[i])
    requires k < |ExecuteAll(commands)|
    ensures var t := ExecuteAll(commands)[k];
            var since := ResolutionsSince(Issue(Text(t.birth), []), t.history);
            var failed := Unstamped(t.history[LastRecorded(t.history)..]);
            if IsResolved(t.issue.body) then 1 <= since <= 1 + failed else since == failed
  {
    hide ExecuteAll, TameCommand, Run, IsResolved, New, TameEvents, ResolutionsSince, Unstamped;
    EveryStoreSound(commands);
    var t := ExecuteAll(commands)[k];
    assert Genuine(t);
    CommentsBounded(Issue(Text(t.birth), []), t.birth, t.history);
  }

  // ----- what a completed filing run achieves -----

  /** The failure's issue is open, shows this run and awaits a resolution. */
  predicate Filed(t: Tracked, e: Entry, run: RunInfo) {
    t.open && Key(t) == Short(e.fingerprint) && !IsResolved(t.issue.body) &&
    RunDoc(t.birth, t.history).url == run.url && RunDoc(t.birth, t.history).time == run.time
  }

  lemma {:induction false} FileOneFiles(now: seq<Tracked>, snap: seq<Tracked>, entries: seq<Entry>, i: nat,
      run: RunInfo, c: Calls)
    requires i < |entries| && TameEntries(entries) && TameRun(run) && Distinct(entries)
    requires Sound(snap) && Sound(now) && |snap| <= |now| && Untouched(now, snap, entries, i)
    ensures var r := FileOne(now, snap, entries[i], run, c);
            r.ok ==> exists k :: 0 <= k < |r.store| && Filed(r.store[k], entries[i], run)
  {
    hide Short, Step, Quiet, Tame, Contains, NewlinesOnly, IsFingerprint, IsResolved, Untouched, Distinct, Genuine;
    var e := entries[i];
    var r := FileOne(now, snap, e, run, c);
    match Lookup(snap, e.fingerprint, 0)
    case Some(k) =>
      MatchesKey(snap[k], e.fingerprint);
      StillSnap(now, snap, entries, i, k);
      var event := Recur(run.url, run.time, c.first, c.second);
      UpdateIsStep(now[k].issue, run, c);
      if r.ok { RecurFiles(now[k], event); }
      assert r.store[k] == Touched(now[k], Step(now[k].issue, event), event);
      assert r.ok ==> Filed(r.store[k], e, run);
    case None =>
      NewGenuine(e, run);
      var t := NewTracked(e, run);
      NewFiles(t);
      assert r.ok ==> r.store[|now|] == t;
  }

  lemma {:induction false} StillSnap(now: seq<Tracked>, snap: seq<Tracked>, entries: seq<Entry>, i: nat, k: nat)
    requires i < |entries| && |snap| <= |now| && Untouched(now, snap, entries, i)
    requires k < |snap| && snap[k].open && Key(snap[k]) == Short(entries[i].fingerprint)
    ensures now[k] == snap[k]
  {
  }

  lemma {:induction false} RecurFiles(t: Tracked, e: Event)
    requires Genuine(t) && TameEvent(e) && Recorded(e)
    ensures var u := Touched(t, Step(t.issue, e), e);
            !IsResolved(u.issue.body) &&
            RunDoc(u.birth, u.history).url == e.url && RunDoc(u.birth, u.history).time == e.time
  {
    hide Text, Step, TameEvent, IsResolved, Run;
    var u := Touched(t, Step(t.issue, e), e);
    StepGenuine(t, e);
    assert u.history[..|u.history| - 1] == t.history;
    RunResolved(Issue(Text(t.birth), []), t.birth, u.history);
  }

  lemma {:induction false} NewFiles(t: Tracked)
    requires Genuine(t) && t.history == []
    ensures !IsResolved(t.issue.body) && RunDoc(t.birth, t.history) == t.birth
  {
    hide Text, TameDoc, IsResolved;
    ResolvedIffStamped(t.birth);
  }

  predicate SomeFiled(store: seq<Tracked>, e: Entry, run: RunInfo) {
    exists k :: 0 <= k < |store| && Filed(store[k], e, run)
  }

  lemma {:induction false} FileOneKeeps(now: seq<Tracked>, snap: seq<Tracked>, entries: seq<Entry>, i: nat, j: nat,
      run: RunInfo, c: Calls)
    requires j < i < |entries| && TameEntries(entries) && Distinct(entries)
    requires Sound(snap) && |snap| <= |now| && Untouched(now, snap, entries, i)
    requires SomeFiled(now, entries[j], run)
    ensures SomeFiled(FileOne(now, snap, entries[i], run, c).store, entries[j], run)
  {
    hide Short, IsResolved, Genuine, UpdateIssue, NewTracked, IsFingerprint;
    var k :| 0 <= k < |now| && Filed(now[k], entries[j], run);
    var r := FileOne(now, snap, entries[i], run, c).store;
    var found := Lookup(snap, entries[i].fingerprint, 0);
    if found.Some? { MatchesKey(snap[found.value], entries[i].fingerprint); }
    assert r[k] == now[k];
  }

  lemma {:induction false} FileFromFiles(now: seq<Tracked>, snap: seq<Tracked>, entries: seq<Entry>, i: nat,
      run: RunInfo, calls: seq<Calls>)
    requires i <= |entries| && TameEntries(entries) && TameRun(run) && Distinct(entries)
    requires Sound(snap) && Sound(now) && |snap| <= |now| && Untouched(now, snap, entries, i)
    requires forall j :: 0 <= j < i ==> SomeFiled(now, entries[j], run)
    ensures var r := FileFrom(now, snap, entries, i, run, calls);
            r.ok ==> forall j :: 0 <= j < |entries| ==> SomeFiled(r.store, entries[j], run)
    decreases |entries| - i
  {
    hide Sound, Untouched, TameEntries, TameRun, Distinct, FileOne, Filed;
    if i < |entries| {
      var c := CallsAt(calls, i);
      var one := FileOne(now, snap, entries[i], run, c);
      FileOneSound(now, snap, entries, i, run, c);
      if one.ok {
        FileOneFiles(now, snap, entries, i, run, c);
        forall j | 0 <= j < i + 1 ensures SomeFiled(one.store, entries[j], run) {
          if j < i { FileOneKeeps(now, snap, entries, i, j, run, c); }
        }
        FileFromFiles(one.store, snap, entries, i + 1, run, calls);
      }
    }
  }

  /** A filing run that completes leaves, for each of its failures, exactly one open
      issue: unresolved and showing this run. */
  lemma {:induction false} FilingFiles(store: seq<Tracked>, entries: seq<Entry>, run: RunInfo, calls: seq<Calls>)
    requires Sound(store) && TameEntries(entries) && TameRun(run) && Distinct(entries)
    ensures var r := FileRun(store, entries, run, calls);
            OnePerKey(r.store) && (r.ok ==> forall j :: 0 <= j < |entries| ==> SomeFiled(r.store, entries[j], run))
  {
    hide TameEntries, TameRun, Distinct, FileFrom, SomeFiled, AllGenuine, OnePerKey;
    NoneTouched(store, entries);
    FileFromSound(store, store, entries, 0, run, calls);
    FileFromFiles(store, store, entries, 0, run, calls);
  }

  // ----- exactly when filing keeps one open issue per fingerprint -----

  function SameSlot(t: Tracked, u: Tracked): bool { t.open == u.open && t.birth == u.birth }

  predicate SameSlots(a: seq<Tracked>, b: seq<Tracked>) {
    |a| == |b| && forall k :: 0 <= k < |a| ==> SameSlot(a[k], b[k])
  }

  /** The issues that entries from i on create. */
  function Created(snap: seq<Tracked>, entries: seq<Entry>, i: nat, run: RunInfo): seq<Tracked>
    requires i <= |entries|
    decreases |entries| - i
  {
    if i == |entries| then []
    else
      (if Lookup(snap, entries[i].fingerprint, 0).None? then [NewTracked(entries[i], run)] else [])
      + Created(snap, entries, i + 1, run)
  }

  /** When all calls succeed, filing touches the bodies of known issues and appends one
      new issue per entry that the snapshot does not know. */
  lemma {:induction false} FileFromShape(now: seq<Tracked>, snap: seq<Tracked>, entries: seq<Entry>, i: nat,
      run: RunInfo, calls: seq<Calls>)
    requires i <= |entries| && |snap| <= |now| && CallsDone(calls)
    ensures var r := FileFrom(now, snap, entries, i, run, calls);
            && r.ok && |now| <= |r.store|
            && SameSlots(r.store[..|now|], now) && r.store[|now|..] == Created(snap, entries, i, run)
    decreases |entries| - i
  {
    hide NewTracked, UpdateIssue, Lookup;
    if i < |entries| {
      var c := CallsAt(calls, i);
      assert Succeeded(c);
      var one := FileOne(now, snap, entries[i], run, c);
      FileFromShape(one.store, snap, entries, i + 1, run, calls);
      var r := FileFrom(now, snap, entries, i, run, calls).store;
      var n := |now|;
      assert r[..n] == r[..|one.store|][..n];
      if |one.store| == n {
        assert SameSlots(one.store, now);
      } else {
        assert SameSlot(r[..n + 1][n], one.store[n]);
        NewIsKept(now, snap, entries, i, run, calls);
      }
    } else {
      assert now[..|now|] == now && now[|now|..] == [];
    }
  }

  /** An issue created by the run is not touched again by it. */
  lemma {:induction false} NewIsKept(now: seq<Tracked>, snap: seq<Tracked>, entries: seq<Entry>, i: nat,
      run: RunInfo, calls: seq<Calls>)
    requires i < |entries| && |snap| <= |now| && CallsDone(calls)
    requires Lookup(snap, entries[i].fingerprint, 0).None?
    ensures var r := FileFrom(now, snap, entries, i, run, calls).store;
            |now| < |r| && r[|now|] == NewTracked(entries[i], run)
  {
    hide NewTracked, UpdateIssue, Lookup;
    var c := CallsAt(calls, i);
    assert Succeeded(c);
    var one := FileOne(now, snap, entries[i], run, c).store;
    BeyondKept(one, snap, entries, i + 1, run, calls, |now|);
  }

  lemma {:induction false} BeyondKept(now: seq<Tracked>, snap: seq<Tracked>, entries: seq<Entry>, i: nat,
      run: RunInfo, calls: seq<Calls>, k: nat)
    requires i <= |entries| && |snap| <= k < |now|
    ensures var r := FileFrom(now, snap, entries, i, run, calls).store; k < |r| && r[k] == now[k]
    decreases |entries| - i
  {
    hide NewTracked, UpdateIssue, Lookup;
    if i < |entries| {
      var one := FileOne(now, snap, entries[i], run, CallsAt(calls, i));
      if one.ok { BeyondKept(one.store, snap, entries, i + 1, run, calls, k); }
    }
  }

  /** Two entries share twelve digits, and no open issue is known for them. */
  predicate Colliding(store: seq<Tracked>, entries: seq<Entry>) {
    exists i, j :: 0 <= i < j < |entries| && Short(entries[i].fingerprint) == Short(entries[j].fingerprint)
                && Lookup(store, entries[i].fingerprint, 0).None?
  }

  lemma {:induction false} NewKey(e: Entry, run: RunInfo)
    ensures Key(NewTracked(e, run)) == Short(e.fingerprint) && NewTracked(e, run).open
  {
    hide Short, IssueBody;
  }

  lemma {:induction false} CreatedMember(snap: seq<Tracked>, entries: seq<Entry>, i: nat, run: RunInfo, t: Tracked)
    requires i <= |entries|
    ensures t in Created(snap, entries, i, run) <==>
            exists j ::
              i <= j < |entries| && Lookup(snap, entries[j].fingerprint, 0).None? && t == NewTracked(entries[j], run)
    decreases |entries| - i
  {
    hide NewTracked, Lookup;
    if i < |entries| { CreatedMember(snap, entries, i + 1, run, t); }
  }

  predicate KeysApart(a: seq<Tracked>, b: seq<Tracked>) {
    forall x, y :: x in a && y in b && x.open && y.open ==> Key(x) != Key(y)
  }

  lemma {:induction false} AppendOnePerKey(a: seq<Tracked>, b: seq<Tracked>)
    ensures OnePerKey(a + b) <==> OnePerKey(a) && OnePerKey(b) && KeysApart(a, b)
  {
    hide Key;
    var s := a + b;
    assert forall k :: 0 <= k < |a| ==> s[k] == a[k];
    assert forall k :: 0 <= k < |b| ==> s[|a| + k] == b[k];
    if OnePerKey(s) {
      forall x, y | x in a && y in b && x.open && y.open ensures Key(x) != Key(y) {
        var i :| 0 <= i < |a| && a[i] == x;
        var j :| 0 <= j < |b| && b[j] == y;
        assert s[i].open && s[|a| + j].open;
      }
      forall i, j | 0 <= i < j < |b| && b[i].open && b[j].open ensures Key(b[i]) != Key(b[j]) {
        assert s[|a| + i].open && s[|a| + j].open;
      }
    }
  }

  lemma {:induction false} OneAlone(t: Tracked)
    ensures OnePerKey([t])
  {
  }

  /** New issues clash exactly when two of their entries share twelve digits. */
  lemma {:induction false} CreatedOnePerKey(snap: seq<Tracked>, entries: seq<Entry>, i: nat, run: RunInfo)
    requires i <= |entries|
    ensures OnePerKey(Created(snap, entries, i, run)) <==> !NewCollision(snap, entries, i)
    decreases |entries| - i
  {
    hide NewTracked, Lookup, Short, OnePerKey;
    if i == |entries| {
      assert OnePerKey([]) by { NoneAtAll(); }
    } else {
      CreatedOnePerKey(snap, entries, i + 1, run);
      var rest := Created(snap, entries, i + 1, run);
      if Lookup(snap, entries[i].fingerprint, 0).None? {
        var x := NewTracked(entries[i], run);
        OneAlone(x);
        AppendOnePerKey([x], rest);
        FirstCollision(snap, entries, i, run, rest);
      } else {
        assert [] + rest == rest;
      }
    }
  }

  /** Both entries would create an issue, and with one marker. */
  predicate Clashing(store: seq<Tracked>, x: Entry, y: Entry) {
    Short(x.fingerprint) == Short(y.fingerprint)
    && Lookup(store, x.fingerprint, 0).None? && Lookup(store, y.fingerprint, 0).None?
  }

  predicate NewCollision(snap: seq<Tracked>, entries: seq<Entry>, from: nat) {
    exists i, j :: from <= i < j < |entries| && Clashing(snap, entries[i], entries[j])
  }

  lemma {:induction false} NoneAtAll()
    ensures OnePerKey([])
  {
  }

  lemma {:induction false} FirstCollision(snap: seq<Tracked>, entries: seq<Entry>, i: nat, run: RunInfo,
      rest: seq<Tracked>)
    requires i < |entries| && Lookup(snap, entries[i].fingerprint, 0).None?
    requires rest == Created(snap, entries, i + 1, run)
    ensures NewCollision(snap, entries, i) <==>
            NewCollision(snap, entries, i + 1) || !KeysApart([NewTracked(entries[i], run)], rest)
  {
    hide NewTracked, Lookup, Short, Created, Key;
    var x := NewTracked(entries[i], run);
    NewKey(entries[i], run);
    if NewCollision(snap, entries, i) && !NewCollision(snap, entries, i + 1) {
      var a, b :| i <= a < b < |entries| && Clashing(snap, entries[a], entries[b]);
      assert a == i;
      var y := NewTracked(entries[b], run);
      NewKey(entries[b], run);
      CreatedMember(snap, entries, i + 1, run, y);
      assert x in [x] && y in rest;
    }
    if !KeysApart([x], rest) {
      var u, y :| u in [x] && y in rest && u.open && y.open && Key(u) == Key(y);
      CreatedMember(snap, entries, i + 1, run, y);
      var j :|
        i + 1 <= j < |entries| && Lookup(snap, entries[j].fingerprint, 0).None? && y == NewTracked(entries[j], run);
      NewKey(entries[j], run);
      assert Clashing(snap, entries[i], entries[j]);
    }
  }

  lemma {:induction false} LookupByKey(store: seq<Tracked>, fingerprint: string)
    requires AllGenuine(store) && IsFingerprint(fingerprint)
    ensures Lookup(store, fingerprint, 0).None? <==>
            forall k :: 0 <= k < |store| && store[k].open ==> Key(store[k]) != Short(fingerprint)
  {
    hide Genuine, Short, Matches, IsFingerprint;
    var r := Lookup(store, fingerprint, 0);
    forall k | 0 <= k < |store|
      ensures Matches(store[k], fingerprint) <==> store[k].open && Key(store[k]) == Short(fingerprint)
    {
      MatchesKey(store[k], fingerprint);
    }
  }

  lemma {:induction false} SlotsOnePerKey(a: seq<Tracked>, b: seq<Tracked>)
    requires SameSlots(a, b)
    ensures OnePerKey(a) <==> OnePerKey(b)
  {
    hide Short;
    assert forall k :: 0 <= k < |a| ==> Key(a[k]) == Key(b[k]) && a[k].open == b[k].open;
  }

  /** A new issue's key is not that of any open issue that the snapshot has. */
  lemma {:induction false} CreatedApart(store: seq<Tracked>, now: seq<Tracked>, entries: seq<Entry>, run: RunInfo)
    requires AllGenuine(store) && TameEntries(entries) && SameSlots(now, store)
    ensures KeysApart(now, Created(store, entries, 0, run))
  {
    hide Genuine, Short, Lookup, NewTracked, Created, IsFingerprint;
    var made := Created(store, entries, 0, run);
    forall x, y | x in now && y in made && x.open && y.open ensures Key(x) != Key(y) {
      var k :| 0 <= k < |now| && now[k] == x;
      CreatedMember(store, entries, 0, run, y);
      var j :| 0 <= j < |entries| && Lookup(store, entries[j].fingerprint, 0).None? && y == NewTracked(entries[j], run);
      NewKey(entries[j], run);
      LookupByKey(store, entries[j].fingerprint);
      assert SameSlot(now[k], store[k]);
    }
  }

  /** When its calls succeed, a filing run keeps one open issue per fingerprint exactly
      when no two of its failures share twelve digits without an open issue for them. */
  lemma {:induction false} CollisionExactly(store: seq<Tracked>, entries: seq<Entry>, run: RunInfo, calls: seq<Calls>)
    requires Sound(store) && TameEntries(entries) && CallsDone(calls)
    ensures OnePerKey(FileRun(store, entries, run, calls).store) <==> !Colliding(store, entries)
  {
    hide Genuine, Short, Lookup, Created, FileFrom, OnePerKey, IsFingerprint, TameFailure;
    var r, n := FileRun(store, entries, run, calls).store, |store|;
    FileFromShape(store, store, entries, 0, run, calls);
    assert r == r[..n] + r[n..];
    AppendOnePerKey(r[..n], r[n..]);
    SlotsOnePerKey(r[..n], store);
    CreatedApart(store, r[..n], entries, run);
    CreatedOnePerKey(store, entries, 0, run);
    LookupsByKey(store, entries);
    CollidingIsNew(store, entries);
  }

  lemma {:induction false} SlotsApart(a: seq<Tracked>, b: seq<Tracked>, c: seq<Tracked>)
    requires SameSlots(a, b)
    ensures KeysApart(a, c) <==> KeysApart(b, c)
  {
    hide Short;
    assert forall k :: 0 <= k < |a| ==> Key(a[k]) == Key(b[k]) && a[k].open == b[k].open;
    if KeysApart(b, c) {
      forall x, y | x in a && y in c && x.open && y.open ensures Key(x) != Key(y) {
        var k :| 0 <= k < |a| && a[k] == x;
        assert b[k] in b && Key(b[k]) == Key(x);
      }
    }
    if KeysApart(a, c) {
      forall x, y | x in b && y in c && x.open && y.open ensures Key(x) != Key(y) {
        var k :| 0 <= k < |b| && b[k] == x;
        assert a[k] in a && Key(a[k]) == Key(x);
      }
    }
  }

  lemma {:induction false} AppendApart(a: seq<Tracked>, b: seq<Tracked>, c: seq<Tracked>)
    ensures KeysApart(a + b, c) <==> KeysApart(a, c) && KeysApart(b, c)
  {
    hide Key;
  }

  /** An entry of one run clashes with one of the other. */
  predicate CrossColliding(store: seq<Tracked>, a: seq<Entry>, b: seq<Entry>) {
    exists i, j :: 0 <= i < |a| && 0 <= j < |b| && Clashing(store, a[i], b[j])
  }

  lemma {:induction false} CrossExactly(store: seq<Tracked>, a: seq<Entry>, b: seq<Entry>, run1: RunInfo, run2: RunInfo)
    ensures KeysApart(Created(store, a, 0, run1), Created(store, b, 0, run2)) <==> !CrossColliding(store, a, b)
  {
    hide NewTracked, Lookup, Short, Created, Key;
    var x, y := Created(store, a, 0, run1), Created(store, b, 0, run2);
    if CrossColliding(store, a, b) {
      var i, j :| 0 <= i < |a| && 0 <= j < |b| && Clashing(store, a[i], b[j]);
      CreatedMember(store, a, 0, run1, NewTracked(a[i], run1));
      CreatedMember(store, b, 0, run2, NewTracked(b[j], run2));
      NewKey(a[i], run1);
      NewKey(b[j], run2);
      assert NewTracked(a[i], run1) in x && NewTracked(b[j], run2) in y;
    }
    if !KeysApart(x, y) {
      var t, u :| t in x && u in y && t.open && u.open && Key(t) == Key(u);
      CreatedMember(store, a, 0, run1, t);
      CreatedMember(store, b, 0, run2, u);
      var i :| 0 <= i < |a| && Lookup(store, a[i].fingerprint, 0).None? && t == NewTracked(a[i], run1);
      var j :| 0 <= j < |b| && Lookup(store, b[j].fingerprint, 0).None? && u == NewTracked(b[j], run2);
      NewKey(a[i], run1);
      NewKey(b[j], run2);
      assert Clashing(store, a[i], b[j]);
    }
  }

  predicate LookupsAgree(store: seq<Tracked>, entries: seq<Entry>) {
    forall i, j ::
      0 <= i < |entries| && 0 <= j < |entries| && Short(entries[i].fingerprint) == Short(entries[j].fingerprint)
      ==> (Lookup(store, entries[i].fingerprint, 0).None? <==> Lookup(store, entries[j].fingerprint, 0).None?)
  }

  lemma {:induction false} LookupsByKey(store: seq<Tracked>, entries: seq<Entry>)
    requires AllGenuine(store) && TameEntries(entries)
    ensures LookupsAgree(store, entries)
  {
    hide Genuine, Short, Lookup, IsFingerprint, TameFailure;
    forall i, j |
      0 <= i < |entries| && 0 <= j < |entries| && Short(entries[i].fingerprint) == Short(entries[j].fingerprint)
      ensures Lookup(store, entries[i].fingerprint, 0).None? <==> Lookup(store, entries[j].fingerprint, 0).None?
    {
      LookupByKey(store, entries[i].fingerprint);
      LookupByKey(store, entries[j].fingerprint);
    }
  }

  lemma {:induction false} CollidingIsNew(store: seq<Tracked>, entries: seq<Entry>)
    requires LookupsAgree(store, entries)
    ensures Colliding(store, entries) <==> NewCollision(store, entries, 0)
  {
    hide Short, Lookup;
    if Colliding(store, entries) {
      var i, j :| 0 <= i < j < |entries| && Short(entries[i].fingerprint) == Short(entries[j].fingerprint)
                  && Lookup(store, entries[i].fingerprint, 0).None?;
      assert Clashing(store, entries[i], entries[j]);
    }
    if NewCollision(store, entries, 0) {
      var i, j :| 0 <= i < j < |entries| && Clashing(store, entries[i], entries[j]);
    }
  }

  /** A collision in the entries of both runs is one within either or across them. */
  lemma {:induction false} CollisionAppend(store: seq<Tracked>, a: seq<Entry>, b: seq<Entry>)
    ensures NewCollision(store, a + b, 0) <==>
            NewCollision(store, a, 0) || NewCollision(store, b, 0) || CrossColliding(store, a, b)
  {
    hide Clashing;
    var s, n := a + b, |a|;
    assert forall i :: 0 <= i < n ==> s[i] == a[i];
    assert forall i :: n <= i < |s| ==> s[i] == b[i - n];
    if NewCollision(store, b, 0) {
      var i, j :| 0 <= i < j < |b| && Clashing(store, b[i], b[j]);
      assert s[n + i] == b[i] && s[n + j] == b[j];
    }
    if NewCollision(store, a, 0) {
      var i, j :| 0 <= i < j < |a| && Clashing(store, a[i], a[j]);
      assert s[i] == a[i] && s[j] == a[j];
    }
    if CrossColliding(store, a, b) {
      var i, j :| 0 <= i < |a| && 0 <= j < |b| && Clashing(store, a[i], b[j]);
      assert s[i] == a[i] && s[n + j] == b[j];
    }
  }

  /** Two filing runs that list the open issues before either creates one keep one open
      issue per fingerprint exactly when no two of their failures, taken together, share
      twelve digits without an open issue for them. */
  lemma {:induction false} RacingRunsExactly(store: seq<Tracked>, a: seq<Entry>, b: seq<Entry>, run1: RunInfo,
      run2: RunInfo, calls1: seq<Calls>, calls2: seq<Calls>)
    requires Sound(store) && TameEntries(a) && TameEntries(b) && CallsDone(calls1) && CallsDone(calls2)
    ensures var first := FileRun(store, a, run1, calls1).store;
            |store| <= |first| &&
            (OnePerKey(FileFrom(first, store, b, 0, run2, calls2).store) <==> !Colliding(store, a + b))
  {
    hide Genuine, Short, Lookup, Created, FileFrom, OnePerKey, IsFingerprint, TameFailure, KeysApart, LookupsAgree;
    hide Colliding, NewCollision, CrossColliding;
    FileFromShape(store, store, a, 0, run1, calls1);
    var n, first := |store|, FileRun(store, a, run1, calls1).store;
    FileFromShape(first, store, b, 0, run2, calls2);
    var r, m := FileFrom(first, store, b, 0, run2, calls2).store, |first|;
    assert r == r[..m] + r[m..] && first == first[..n] + first[n..];
    AppendOnePerKey(r[..m], r[m..]);
    SlotsOnePerKey(r[..m], first);
    SlotsApart(r[..m], first, r[m..]);
    AppendOnePerKey(first[..n], first[n..]);
    AppendApart(first[..n], first[n..], r[m..]);
    SlotsOnePerKey(first[..n], store);
    CreatedApart(store, first[..n], a, run1);
    CreatedApart(store, first[..n], b, run2);
    CreatedOnePerKey(store, a, 0, run1);
    CreatedOnePerKey(store, b, 0, run2);
    CrossExactly(store, a, b, run1, run2);
    LookupsByKey(store, a + b);
    CollidingIsNew(store, a + b);
    CollisionAppend(store, a, b);
  }

  /** For one failure filed by both runs: exactly when it had an open issue. */
  lemma {:induction false} RacingSameFailure(store: seq<Tracked>, e: Entry, run1: RunInfo, run2: RunInfo)
    requires Sound(store) && TameEntry(e)
    ensures var first := FileRun(store, [e], run1, []).store;
            |store| <= |first| &&
            (OnePerKey(FileFrom(first, store, [e], 0, run2, []).store) <==> Lookup(store, e.fingerprint, 0).Some?)
  {
    hide Genuine, Short, Lookup, FileFrom, OnePerKey, IsFingerprint, TameFailure;
    RacingRunsExactly(store, [e], [e], run1, run2, [], []);
    var both := [e] + [e];
    assert both[0] == e && both[1] == e;
  }

  /** The entries that a run files are distinct unless two of its digests share
      twelve digits. */
  lemma {:induction false} CollapsedDistinct(failures: seq<Failure>, n: Naming)
    requires forall p, q :: p in Prints(failures, n) && q in Prints(failures, n) && Short(p) == Short(q) ==> p == q
    ensures Distinct(Collapsed(failures, n))
  {
    hide Collapsed, Prints, FirstSeen, Short;
    var d := Collapsed(failures, n);
    CollapsedExactly(failures, n);
    FirstSeenOnce(Prints(failures, n));
    KeysAt(d);
    forall i, j | 0 <= i < j < |d| ensures Short(d[i].fingerprint) != Short(d[j].fingerprint) {
      assert Keys(d)[i] != Keys(d)[j] && Keys(d)[i] in Keys(d) && Keys(d)[j] in Keys(d);
    }
  }

  // ----- the lane -----

  /** A green lane reaches an issue exactly when its name occurs in what the issue says
      of its failure and runs, or in the text of every issue. */
  lemma {:induction false} InLaneExactly(t: Tracked, lane: string)
    requires Genuine(t) && LaneName(lane)
    ensures var d := RunDoc(t.birth, t.history);
            InLane(t, lane) <==> t.open && (Mentions(d, lane) || InFixedText(d, lane))
  {
    hide Text, Contains, TameDoc, Run, Mentions, InFixedText;
    RunIsDoc(Issue(Text(t.birth), []), t.birth, t.history);
    LaneReachesExactly(RunDoc(t.birth, t.history), lane);
  }
}
