/** One tracking issue over a run of failures and green runs.  The issue lives in a
    remote store: every call may be refused, or be carried out without the caller
    hearing of it, and either ends the run that made it
    (`scripts/parity-failure-issue.py`). */
module TrackerProtocol {
  import opened Prelude
  import opened TrackerText
  import opened TrackerBody

  datatype Comment = Recurrence(url: string, time: string) | Resolution(url: string, time: string)

  datatype Call = Done | Refused | Unheard

  /** A run that reaches the issue, with the outcomes of its two calls in the order
      in which it makes them. */
  datatype Event =
    | Recur(url: string, time: string, first: Call, second: Call)
    | Green(url: string, time: string, first: Call, second: Call)

  datatype Issue = Issue(body: string, comments: seq<Comment>)

  function Posted(i: Issue, c: Comment, call: Call): Issue {
    if call.Refused? then i else i.(comments := i.comments + [c])
  }

  function Edited(i: Issue, body: string, call: Call): Issue {
    if call.Refused? then i else i.(body := body)
  }

  /** A failure edits the body and then comments; a green run comments and then
      edits, unless the body is already stamped. */
  function Step(i: Issue, e: Event): Issue {
    match e
    case Recur(url, time, edit, comment) =>
      var j := Edited(i, Refresh(ClearResolved(i.body), url, time), edit);
      if edit.Done? then Posted(j, Recurrence(url, time), comment) else j
    case Green(url, time, comment, edit) =>
      if IsResolved(i.body) then i
      else
        var j := Posted(i, Resolution(url, time), comment);
        if comment.Done? then Edited(j, SetResolved(i.body, url), edit) else j
  }

  function Run(i: Issue, events: seq<Event>): Issue {
    if events == [] then i else Step(Run(i, events[..|events| - 1]), events[|events| - 1])
  }

  predicate TameEvent(e: Event) { Quiet(e.url) && Quiet(e.time) }

  predicate TameEvents(events: seq<Event>) { forall k :: 0 <= k < |events| ==> TameEvent(events[k]) }

  // ----- bodies stay documents -----

  predicate Recorded(e: Event) { e.Recur? && !e.first.Refused? }

  predicate Stamps(e: Event) { e.Green? && e.first.Done? && !e.second.Refused? }

  function StepDoc(d: Doc, e: Event): Doc {
    if Recorded(e) then Refreshed(Cleared(d), e.url, e.time)
    else if Stamps(e) && d.resolved.None? then Stamped(d, e.url)
    else d
  }

  function RunDoc(d: Doc, events: seq<Event>): Doc {
    if events == [] then d else StepDoc(RunDoc(d, events[..|events| - 1]), events[|events| - 1])
  }

  lemma {:induction false} StepIsDoc(i: Issue, d: Doc, e: Event)
    requires i.body == Text(d) && TameDoc(d) && TameEvent(e)
    ensures Step(i, e).body == Text(StepDoc(d, e)) && TameDoc(StepDoc(d, e))
  {
    hide Text, ClearResolved, Refresh, IsResolved, SetResolved, Contains, Quiet, Tame;
    ResolvedIffStamped(d);
    ClearText(d);
    RefreshText(Cleared(d), e.url, e.time);
    StampText(d, e.url);
  }

  /** What identifies the failure and how to reproduce it. */
  predicate SameRecord(d: Doc, e: Doc) {
    d.failure == e.failure && d.fingerprint == e.fingerprint && d.tier == e.tier && d.repro == e.repro
  }

  /** Every reachable body is the document of the same failure: its marker, its
      scenario and its reproduction are untouched, and it has at most one stamp. */
  lemma {:induction false} RunIsDoc(i: Issue, d: Doc, events: seq<Event>)
    requires i.body == Text(d) && TameDoc(d) && TameEvents(events)
    ensures Run(i, events).body == Text(RunDoc(d, events)) && TameDoc(RunDoc(d, events))
    ensures SameRecord(d, RunDoc(d, events))
  {
    hide Text, Step, TameDoc;
    if events != [] {
      var init, e := events[..|events| - 1], events[|events| - 1];
      RunIsDoc(i, d, init);
      StepIsDoc(Run(i, init), RunDoc(d, init), e);
    }
  }

  lemma {:induction false} RunResolved(i: Issue, d: Doc, events: seq<Event>)
    requires i.body == Text(d) && TameDoc(d) && TameEvents(events)
    ensures IsResolved(Run(i, events).body) <==> RunDoc(d, events).resolved.Some?
  {
    hide *;
    RunIsDoc(i, d, events);
    ResolvedIffStamped(RunDoc(d, events));
  }

  // ----- resolution comments against failure-to-green transitions -----

  function Resolutions(comments: seq<Comment>): nat {
    if comments == [] then 0
    else Resolutions(comments[..|comments| - 1]) + (if comments[|comments| - 1].Resolution? then 1 else 0)
  }

  predicate Failing(events: seq<Event>) { events == [] || events[|events| - 1].Recur? }

  /** Green runs that directly follow a failure; filing the issue is one. */
  function Transitions(events: seq<Event>): nat {
    if events == [] then 0
    else
      var init := events[..|events| - 1];
      Transitions(init) + (if events[|events| - 1].Green? && Failing(init) then 1 else 0)
  }

  /** A failure was written to the body since the last green run. */
  predicate Pending(events: seq<Event>) {
    events == [] ||
    (var e := events[|events| - 1]; e.Recur? && (Recorded(e) || Pending(events[..|events| - 1])))
  }

  /** Transitions whose failures were all refused. */
  function Missed(events: seq<Event>): nat {
    if events == [] then 0
    else
      var init := events[..|events| - 1];
      Missed(init) + (if events[|events| - 1].Green? && Failing(init) && !Pending(init) then 1 else 0)
  }

  predicate GreenCallsDone(events: seq<Event>) {
    forall k :: 0 <= k < |events| && events[k].Green? ==> events[k].first.Done? && events[k].second.Done?
  }

  predicate AllDone(events: seq<Event>) {
    forall k :: 0 <= k < |events| ==> events[k].first.Done? && events[k].second.Done?
  }

  predicate New(i: Issue, d: Doc) { i == Issue(Text(d), []) && TameDoc(d) && d.resolved.None? }

  lemma {:induction false} PendingFailing(events: seq<Event>)
    requires Pending(events)
    ensures Failing(events)
  {
  }

  lemma {:induction false} StepResolutions(i: Issue, e: Event)
    ensures Resolutions(Step(i, e).comments)
         == Resolutions(i.comments) + (if e.Green? && !IsResolved(i.body) && !e.first.Refused? then 1 else 0)
  {
    hide ClearResolved, Refresh, IsResolved, SetResolved;
    forall c: Comment
      ensures Resolutions(i.comments + [c]) == Resolutions(i.comments) + (if c.Resolution? then 1 else 0)
    {
      assert (i.comments + [c])[..|i.comments|] == i.comments;
    }
  }

  /** When green runs' calls succeed, the resolution comments are the transitions
      less those whose failure never reached the body. */
  lemma {:induction false} CommentsExactly(i: Issue, d: Doc, events: seq<Event>)
    requires New(i, d) && TameEvents(events) && GreenCallsDone(events)
    ensures Resolutions(Run(i, events).comments) + Missed(events) == Transitions(events)
    ensures IsResolved(Run(i, events).body) <==> !Pending(events)
  {
    hide Text, Step, TameDoc, IsResolved, TameEvent;
    if events == [] {
      ResolvedIffStamped(d);
    } else {
      var init, e := events[..|events| - 1], events[|events| - 1];
      CommentsExactly(i, d, init);
      StepResolutions(Run(i, init), e);
      RunResolved(i, d, init);
      RunResolved(i, d, events);
      if Pending(init) { PendingFailing(init); }
      assert e == events[|events| - 1];
    }
  }

  /** Without faults there is one resolution comment per transition, and the stamp
      says which side of the last transition the issue is on. */
  lemma {:induction false} OnePerTransition(i: Issue, d: Doc, events: seq<Event>)
    requires New(i, d) && TameEvents(events) && AllDone(events)
    ensures Resolutions(Run(i, events).comments) == Transitions(events)
    ensures IsResolved(Run(i, events).body) <==> !Failing(events)
  {
    hide Run, IsResolved, New, TameEvents;
    CommentsExactly(i, d, events);
    NothingMissed(events);
  }

  lemma {:induction false} NothingMissed(events: seq<Event>)
    requires AllDone(events)
    ensures Missed(events) == 0 && (Pending(events) <==> Failing(events))
  {
    if events != [] {
      NothingMissed(events[..|events| - 1]);
      assert events[|events| - 1].first.Done?;
    }
  }

  predicate Alternates(comments: seq<Comment>) {
    forall k :: 0 <= k < |comments| - 1 && comments[k].Resolution? ==> comments[k + 1].Recurrence?
  }

  /** Two resolution comments never occur without a recurrence between them. */
  lemma {:induction false} NoRepeatedResolution(i: Issue, d: Doc, events: seq<Event>)
    requires New(i, d) && TameEvents(events) && AllDone(events)
    ensures var c := Run(i, events).comments;
            Alternates(c) && (c != [] && c[|c| - 1].Resolution? ==> !Failing(events))
  {
    hide Text, TameDoc, IsResolved, TameEvent, ClearResolved, Refresh, SetResolved;
    if events != [] {
      var init, e := events[..|events| - 1], events[|events| - 1];
      NoRepeatedResolution(i, d, init);
      OnePerTransition(i, d, init);
      assert e.first.Done? && e.second.Done?;
    }
  }

  /** A refused edit on the failure path leaves the stamp, so the next green run
      stays silent. */
  lemma {:induction false} LostRearm(i: Issue, d: Doc, url: string, time: string)
    requires New(i, d) && Quiet(url) && Quiet(time)
    ensures var events := [Green(url, time, Done, Done), Recur(url, time, Refused, Done), Green(url, time, Done, Done)];
            Transitions(events) == 2 && Resolutions(Run(i, events).comments) == 1
  {
    hide Run, New, Text;
    var events := [Green(url, time, Done, Done), Recur(url, time, Refused, Done), Green(url, time, Done, Done)];
    var one, two := events[..1], events[..2];
    assert one[..0] == [] && two[..1] == one;
    assert Transitions([]) == 0 && Missed([]) == 0;
    assert Transitions(one) == 1 && Missed(one) == 0 && !Pending(one);
    assert Transitions(two) == 1 && Missed(two) == 0 && !Pending(two);
    CommentsExactly(i, d, events);
  }

  // ----- with every call allowed to fail -----

  /** Where the last failure written to the body stands; filing counts. */
  function LastRecorded(events: seq<Event>): (k: nat)
    ensures k <= |events|
  {
    if events == [] then 0
    else if Recorded(events[|events| - 1]) then |events|
    else LastRecorded(events[..|events| - 1])
  }

  /** Green runs that posted their comment and failed to stamp. */
  function Unstamped(events: seq<Event>): nat {
    if events == [] then 0
    else
      var e := events[|events| - 1];
      Unstamped(events[..|events| - 1]) + (if e.Green? && !e.first.Refused? && !Stamps(e) then 1 else 0)
  }

  function ResolutionsSince(i: Issue, events: seq<Event>): int {
    Resolutions(Run(i, events).comments) - Resolutions(Run(i, events[..LastRecorded(events)]).comments)
  }

  /** Whatever fails, a stamped issue has been commented on since the last failure
      written to it, and each further comment is owed to a failed stamp. */
  lemma {:induction false} CommentsBounded(i: Issue, d: Doc, events: seq<Event>)
    requires New(i, d) && TameEvents(events)
    ensures var stamped := IsResolved(Run(i, events).body);
            var since, failed := ResolutionsSince(i, events), Unstamped(events[LastRecorded(events)..]);
            if stamped then 1 <= since <= 1 + failed else since == failed
  {
    hide Text, Step, TameDoc, IsResolved, TameEvent;
    var k := LastRecorded(events);
    if events == [] {
      ResolvedIffStamped(d);
    } else {
      var init, e := events[..|events| - 1], events[|events| - 1];
      RunResolved(i, d, init);
      RunResolved(i, d, events);
      if Recorded(e) {
        assert events[..k] == events;
      } else {
        CommentsBounded(i, d, init);
        StepResolutions(Run(i, init), e);
        assert events[..k] == init[..k];
        var rest := events[k..];
        assert rest[..|rest| - 1] == init[k..] && rest[|rest| - 1] == e;
      }
    }
  }
}
