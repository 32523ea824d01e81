/** The tracker's commands over the whole store of issues: filing the failures of a
    run, resolving a green lane, and a person closing an issue
    (`scripts/parity-failure-issue.py`). */
module TrackerStore {
  import opened Prelude
  import opened TrackerText
  import opened TrackerBody
  import opened TrackerProtocol

  /** An issue of the store; its number is its position.  `birth` and `history`
      record how it came about and are read by no command. */
  datatype Tracked = Tracked(issue: Issue, open: bool, birth: Doc, history: seq<Event>)

  datatype Entry = Entry(fingerprint: string, failure: Failure)

  datatype RunInfo = RunInfo(url: string, time: string, tier: string, repro: string)

  datatype Calls = Calls(first: Call, second: Call)

  /** What a command left behind, and whether all its calls succeeded. */
  datatype Outcome = Outcome(store: seq<Tracked>, ok: bool)

  predicate Matches(t: Tracked, fingerprint: string) { t.open && Contains(t.issue.body, Marker(fingerprint)) }

  function Lookup(store: seq<Tracked>, fingerprint: string, from: nat): (r: Option<nat>)
    ensures r.Some? ==> from <= r.value < |store| && Matches(store[r.value], fingerprint)
    ensures r.None? ==> forall k :: from <= k < |store| ==> !Matches(store[k], fingerprint)
    decreases |store| - from
  {
    if from >= |store| then None
    else if Matches(store[from], fingerprint) then Some(from)
    else Lookup(store, fingerprint, from + 1)
  }

  function CallsAt(calls: seq<Calls>, i: nat): Calls { if i < |calls| then calls[i] else Calls(Done, Done) }

  function Succeeded(c: Calls): bool { c.first.Done? && c.second.Done? }

  function NewDoc(e: Entry, run: RunInfo): Doc {
    Doc(e.failure, e.fingerprint, run.tier, run.repro, run.url, run.time, true, None)
  }

  function NewTracked(e: Entry, run: RunInfo): Tracked {
    Tracked(Issue(IssueBody(e.failure, e.fingerprint, run.url, run.time, run.tier, run.repro), []),
            true, NewDoc(e, run), [])
  }

  /** The body was planned from a snapshot; the calls act on the store as it is. */
  function UpdateIssue(i: Issue, planned: string, run: RunInfo, c: Calls): Issue {
    var j := Edited(i, Refresh(ClearResolved(planned), run.url, run.time), c.first);
    if c.first.Done? then Posted(j, Recurrence(run.url, run.time), c.second) else j
  }

  function ResolveIssue(i: Issue, planned: string, run: RunInfo, c: Calls): Issue {
    var j := Posted(i, Resolution(run.url, run.time), c.first);
    if c.first.Done? then Edited(j, SetResolved(planned, run.url), c.second) else j
  }

  function Touched(t: Tracked, issue: Issue, e: Event): Tracked {
    t.(issue := issue, history := t.history + [e])
  }

  function FileOne(now: seq<Tracked>, snap: seq<Tracked>, e: Entry, run: RunInfo, c: Calls): (r: Outcome)
    requires |snap| <= |now|
    ensures |now| <= |r.store|
  {
    match Lookup(snap, e.fingerprint, 0)
    case Some(k) =>
      Outcome(now[k := Touched(now[k], UpdateIssue(now[k].issue, snap[k].issue.body, run, c),
                               Recur(run.url, run.time, c.first, c.second))], Succeeded(c))
    case None =>
      Outcome(if c.first.Refused? then now else now + [NewTracked(e, run)], c.first.Done?)
  }

  /** Entries from `i` on are filed in order until a call fails. */
  function FileFrom(now: seq<Tracked>, snap: seq<Tracked>, entries: seq<Entry>, i: nat, run: RunInfo,
      calls: seq<Calls>): Outcome
    requires |snap| <= |now| && i <= |entries|
    decreases |entries| - i
  {
    if i == |entries| then Outcome(now, true)
    else
      var one := FileOne(now, snap, entries[i], run, CallsAt(calls, i));
      if one.ok then FileFrom(one.store, snap, entries, i + 1, run, calls) else one
  }

  function FileRun(store: seq<Tracked>, entries: seq<Entry>, run: RunInfo, calls: seq<Calls>): Outcome {
    FileFrom(store, store, entries, 0, run, calls)
  }

  predicate InLane(t: Tracked, lane: string) { t.open && (lane == "" || Contains(t.issue.body, lane)) }

  function GreenOne(now: seq<Tracked>, snap: seq<Tracked>, k: nat, lane: string, run: RunInfo, c: Calls): (r: Outcome)
    requires |snap| <= |now| && k < |snap|
    ensures |r.store| == |now|
  {
    if !InLane(snap[k], lane) then Outcome(now, true)
    else if IsResolved(snap[k].issue.body) then
      Outcome(now[k := Touched(now[k], now[k].issue, Green(run.url, run.time, Done, Done))], true)
    else
      Outcome(now[k := Touched(now[k], ResolveIssue(now[k].issue, snap[k].issue.body, run, c),
                               Green(run.url, run.time, c.first, c.second))], Succeeded(c))
  }

  /** The issues are visited in the order in which they are listed. */
  function GreenFrom(now: seq<Tracked>, snap: seq<Tracked>, order: seq<nat>, i: nat, lane: string, run: RunInfo,
      calls: seq<Calls>): Outcome
    requires |snap| <= |now| && i <= |order|
    decreases |order| - i
  {
    if i == |order| then Outcome(now, true)
    else
      var one := if order[i] < |snap| then GreenOne(now, snap, order[i], lane, run, CallsAt(calls, i))
                 else Outcome(now, true);
      if one.ok then GreenFrom(one.store, snap, order, i + 1, lane, run, calls) else one
  }

  function GreenRun(store: seq<Tracked>, order: seq<nat>, workflow: string, run: RunInfo, calls: seq<Calls>): Outcome {
    GreenFrom(store, store, order, 0, Strip(workflow), run, calls)
  }

  /** The open issue of an explicitly named failure is resolved like a lane's. */
  function ResolveEntry(now: seq<Tracked>, snap: seq<Tracked>, e: Entry, run: RunInfo, c: Calls): (r: Outcome)
    requires |snap| <= |now|
    ensures |r.store| == |now|
  {
    match Lookup(snap, e.fingerprint, 0)
    case None => Outcome(now, true)
    case Some(k) => GreenOne(now, snap, k, "", run, c)
  }

  function ResolveFrom(now: seq<Tracked>, snap: seq<Tracked>, entries: seq<Entry>, i: nat, run: RunInfo,
      calls: seq<Calls>): Outcome
    requires |snap| <= |now| && i <= |entries|
    decreases |entries| - i
  {
    if i == |entries| then Outcome(now, true)
    else
      var one := ResolveEntry(now, snap, entries[i], run, CallsAt(calls, i));
      if one.ok then ResolveFrom(one.store, snap, entries, i + 1, run, calls) else one
  }

  function ResolveRun(store: seq<Tracked>, entries: seq<Entry>, run: RunInfo, calls: seq<Calls>): Outcome {
    ResolveFrom(store, store, entries, 0, run, calls)
  }

  /** The store of issues behind the `gh` calls. */
  class IssueStore {
    var issues: seq<Tracked>

    constructor ()
      ensures issues == []
    {
      issues := [];
    }

    method Edit(number: nat, body: string, call: Call)
      requires number < |issues|
      modifies this
      ensures var t := old(issues)[number];
              issues == old(issues)[number := t.(issue := Edited(t.issue, body, call))]
    {
      var t := issues[number];
      if !call.Refused? { issues := issues[number := t.(issue := t.issue.(body := body))]; }
    }

    method Comment(number: nat, comment: Comment, call: Call)
      requires number < |issues|
      modifies this
      ensures var t := old(issues)[number];
              issues == old(issues)[number := t.(issue := Posted(t.issue, comment, call))]
    {
      var t := issues[number];
      if !call.Refused? { issues := issues[number := t.(issue := t.issue.(comments := t.issue.comments + [comment]))]; }
    }

    method Remember(number: nat, e: Event)
      requires number < |issues|
      modifies this
      ensures issues == old(issues)[number := Touched(old(issues)[number], old(issues)[number].issue, e)]
    {
      var t := issues[number];
      issues := issues[number := t.(history := t.history + [e])];
    }

    method ApplyUpdate(number: nat, planned: string, run: RunInfo, c: Calls) returns (ok: bool)
      requires number < |issues|
      modifies this
      ensures var t := old(issues)[number];
              var e := Recur(run.url, run.time, c.first, c.second);
              issues == old(issues)[number := Touched(t, UpdateIssue(t.issue, planned, run, c), e)]
      ensures ok == Succeeded(c)
    {
      hide Refresh, ClearResolved;
      Remember(number, Recur(run.url, run.time, c.first, c.second));
      Edit(number, Refresh(ClearResolved(planned), run.url, run.time), c.first);
      ok := c.first.Done?;
      if ok {
        Comment(number, Recurrence(run.url, run.time), c.second);
        ok := c.second.Done?;
      }
    }

    method ResolveOne(number: nat, planned: string, run: RunInfo, c: Calls) returns (ok: bool)
      requires number < |issues|
      modifies this
      ensures var t := old(issues)[number];
              var e := Green(run.url, run.time, c.first, c.second);
              issues == old(issues)[number := Touched(t, ResolveIssue(t.issue, planned, run, c), e)]
      ensures ok == Succeeded(c)
    {
      hide SetResolved;
      var body := SetResolved(planned, run.url);
      Remember(number, Green(run.url, run.time, c.first, c.second));
      Comment(number, Resolution(run.url, run.time), c.first);
      ok := c.first.Done?;
      if ok {
        Edit(number, body, c.second);
        ok := c.second.Done?;
      }
    }

    /** Files one issue per entry, planned against the issues open at the start. */
    method File(entries: seq<Entry>, run: RunInfo, calls: seq<Calls>) returns (ok: bool)
      modifies this
      ensures Outcome(issues, ok) == FileRun(old(issues), entries, run, calls)
    {
      hide NewTracked, UpdateIssue, Lookup;
      var snap := issues;
      ok := true;
      var i := 0;
      while i < |entries| && ok
        invariant i <= |entries| && |snap| <= |issues| && snap == old(issues)
        invariant FileRun(old(issues), entries, run, calls)
               == if ok then FileFrom(issues, snap, entries, i, run, calls) else Outcome(issues, false)
      {
        var c, found := CallsAt(calls, i), Lookup(snap, entries[i].fingerprint, 0);
        if found.Some? {
          ok := ApplyUpdate(found.value, snap[found.value].issue.body, run, c);
        } else {
          if !c.first.Refused? { issues := issues + [NewTracked(entries[i], run)]; }
          ok := c.first.Done?;
        }
        i := i + 1;
      }
    }

    /** Comments on and stamps the lane's unresolved issues, in the order in which they
        are listed; never closes one. */
    method Resolve(order: seq<nat>, workflow: string, run: RunInfo, calls: seq<Calls>) returns (ok: bool)
      modifies this
      ensures Outcome(issues, ok) == GreenRun(old(issues), order, workflow, run, calls)
    {
      hide ResolveIssue, IsResolved, InLane, Strip;
      var snap, lane := issues, Strip(workflow);
      ok := true;
      var i := 0;
      while i < |order| && ok
        invariant i <= |order| && |snap| == |issues| && snap == old(issues)
        invariant GreenRun(old(issues), order, workflow, run, calls)
               == if ok then GreenFrom(issues, snap, order, i, lane, run, calls) else Outcome(issues, false)
      {
        var k := order[i];
        if k < |snap| && InLane(snap[k], lane) {
          if IsResolved(snap[k].issue.body) {
            Remember(k, Green(run.url, run.time, Done, Done));
          } else {
            ok := ResolveOne(k, snap[k].issue.body, run, CallsAt(calls, i));
          }
        }
        i := i + 1;
      }
    }

    /** Resolves the open issues of the named failures. */
    method ResolveThese(entries: seq<Entry>, run: RunInfo, calls: seq<Calls>) returns (ok: bool)
      modifies this
      ensures Outcome(issues, ok) == ResolveRun(old(issues), entries, run, calls)
    {
      hide ResolveIssue, IsResolved, Lookup;
      var snap := issues;
      ok := true;
      var i := 0;
      while i < |entries| && ok
        invariant i <= |entries| && |snap| == |issues| && snap == old(issues)
        invariant ResolveRun(old(issues), entries, run, calls)
               == if ok then ResolveFrom(issues, snap, entries, i, run, calls) else Outcome(issues, false)
      {
        var found := Lookup(snap, entries[i].fingerprint, 0);
        if found.Some? {
          var k := found.value;
          if IsResolved(snap[k].issue.body) {
            Remember(k, Green(run.url, run.time, Done, Done));
          } else {
            ok := ResolveOne(k, snap[k].issue.body, run, CallsAt(calls, i));
          }
        }
        i := i + 1;
      }
    }
  }
}
