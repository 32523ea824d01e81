/** Which issues a command of the tracker reaches, and what it leaves of each issue of
    the store (`scripts/parity-failure-issue.py`), in terms of the bodies and comments
    that a reader of the store sees. */
module TrackerReach {
  import opened Prelude
  import opened TrackerText
  import opened TrackerBody
  import opened TrackerProtocol
  import opened TrackerStore
  import opened TrackerRuns

  // ----- green runs -----

  /** Nothing but the history differs. */
  predicate SameButHistory(t: Tracked, u: Tracked) { u.issue == t.issue && u.open == t.open && u.birth == t.birth }

  /** Resolved: stamped, with one new resolution comment unless it was resolved before. */
  predicate ResolvedBy(t: Tracked, u: Tracked, run: RunInfo) {
    && u.open == t.open && u.birth == t.birth && IsResolved(u.issue.body)
    && (IsResolved(t.issue.body) ==> u.issue == t.issue)
    && (!IsResolved(t.issue.body) ==>
          && u.issue.comments == t.issue.comments + [Resolution(run.url, run.time)]
          && u.issue.body == SetResolved(t.issue.body, run.url))
  }

  /** Whatever the calls did: still open or closed as before, at most one comment more,
      and none on an issue that was resolved. */
  predicate Spared(t: Tracked, u: Tracked, run: RunInfo) {
    && u.open == t.open && u.birth == t.birth
    && (u.issue.comments == t.issue.comments || u.issue.comments == t.issue.comments + [Resolution(run.url, run.time)])
    && (IsResolved(t.issue.body) ==> u.issue == t.issue)
    && (IsResolved(u.issue.body) ==> IsResolved(t.issue.body) || u.issue.comments != t.issue.comments)
  }

  lemma {:induction false} GreenOneReaches(now: seq<Tracked>, snap: seq<Tracked>, k: nat, lane: string, run: RunInfo,
      c: Calls)
    requires |now| == |snap| && k < |snap| && now[k] == snap[k]
    ensures var r := GreenOne(now, snap, k, lane, run, c);
            && (forall j :: 0 <= j < |now| && j != k ==> r.store[j] == now[j])
            && (InLane(snap[k], lane) ==> Spared(snap[k], r.store[k], run))
            && (InLane(snap[k], lane) && Succeeded(c) ==> r.ok && ResolvedBy(snap[k], r.store[k], run))
            && (!InLane(snap[k], lane) ==> r.ok && r.store == now)
  {
    hide IsResolved, InLane, SetResolved;
    SetMarks(snap[k].issue.body, run.url);
  }

  predicate Listed(order: seq<nat>, i: nat, k: nat) { exists j :: i <= j < |order| && order[j] == k }

  lemma {:induction false} GreenFromReaches(now: seq<Tracked>, snap: seq<Tracked>, order: seq<nat>, i: nat,
      lane: string, run: RunInfo, calls: seq<Calls>)
    requires i <= |order| && Listing(order) && |now| == |snap| && Unvisited(now, snap, order, i)
    ensures var r := GreenFrom(now, snap, order, i, lane, run, calls);
            && |r.store| == |snap|
            && (forall k :: 0 <= k < |snap| && !(Listed(order, i, k) && InLane(snap[k], lane)) ==>
                  r.store[k] == now[k])
            && (forall k :: 0 <= k < |snap| && Listed(order, i, k) && InLane(snap[k], lane) ==>
                  r.store[k] == now[k] || Spared(snap[k], r.store[k], run))
            && (CallsDone(calls) ==>
                  && r.ok
                  && forall k :: 0 <= k < |snap| && Listed(order, i, k) && InLane(snap[k], lane) ==>
                       ResolvedBy(snap[k], r.store[k], run))
    decreases |order| - i
  {
    hide InLane, Spared, ResolvedBy, GreenOne;
    if i < |order| {
      var n, c := order[i], CallsAt(calls, i);
      assert CallsDone(calls) ==> Succeeded(c);
      assert !Listed(order, i + 1, n);
      forall k ensures Listed(order, i, k) <==> k == n || Listed(order, i + 1, k) { ListedNext(order, i, k); }
      if n < |snap| {
        GreenOneReaches(now, snap, n, lane, run, c);
        var one := GreenOne(now, snap, n, lane, run, c);
        if one.ok { GreenFromReaches(one.store, snap, order, i + 1, lane, run, calls); }
      } else {
        GreenFromReaches(now, snap, order, i + 1, lane, run, calls);
      }
    }
  }

  lemma {:induction false} ListedNext(order: seq<nat>, i: nat, k: nat)
    requires i < |order|
    ensures Listed(order, i, k) <==> k == order[i] || Listed(order, i + 1, k)
  {
  }

  /** Each open issue is listed, and none twice. */
  predicate ListsOpen(order: seq<nat>, store: seq<Tracked>) {
    Listing(order) && forall k :: 0 <= k < |store| && store[k].open ==> k in order
  }

  /** The lane's name, without the whitespace around it, occurs in the body; no name
      means every lane. */
  predicate OfLane(t: Tracked, workflow: string) {
    t.open && (Strip(workflow) == "" || Contains(t.issue.body, Strip(workflow)))
  }

  /** A green run whose calls all succeed leaves every open issue of its lane resolved,
      with exactly one new resolution comment if it was not, and every other issue as
      it was. */
  lemma {:induction false} GreenRunResolves(store: seq<Tracked>, order: seq<nat>, workflow: string, run: RunInfo,
      calls: seq<Calls>)
    requires ListsOpen(order, store) && CallsDone(calls)
    ensures var r := GreenRun(store, order, workflow, run, calls);
            && r.ok && |r.store| == |store|
            && (forall k :: 0 <= k < |store| && OfLane(store[k], workflow) ==> ResolvedBy(store[k], r.store[k], run))
            && (forall k :: 0 <= k < |store| && !OfLane(store[k], workflow) ==> r.store[k] == store[k])
  {
    hide ResolvedBy, Spared, GreenFrom, Strip, Contains;
    GreenFromReaches(store, store, order, 0, Strip(workflow), run, calls);
    forall k | 0 <= k < |store| && store[k].open ensures Listed(order, 0, k) {
      var j :| 0 <= j < |order| && order[j] == k;
    }
  }

  /** Whichever calls fail, an issue of another lane is untouched, a resolved one keeps
      its body and comments, and no issue gets two comments. */
  lemma {:induction false} GreenRunSpares(store: seq<Tracked>, order: seq<nat>, workflow: string, run: RunInfo,
      calls: seq<Calls>)
    requires Listing(order)
    ensures var r := GreenRun(store, order, workflow, run, calls);
            && |r.store| == |store|
            && (forall k :: 0 <= k < |store| ==> Spared(store[k], r.store[k], run))
            && (forall k :: 0 <= k < |store| && !OfLane(store[k], workflow) ==> r.store[k] == store[k])
  {
    hide IsResolved, GreenFrom, Strip, Contains;
    GreenFromReaches(store, store, order, 0, Strip(workflow), run, calls);
  }

  // ----- named failures -----

  /** The failure's open issue: its marker is in the body. */
  predicate OfEntries(t: Tracked, entries: seq<Entry>, i: nat) {
    exists j :: i <= j < |entries| && Matches(t, entries[j].fingerprint)
  }

  lemma {:induction false} OfEntriesNext(t: Tracked, entries: seq<Entry>, i: nat)
    requires i < |entries|
    ensures OfEntries(t, entries, i) <==> Matches(t, entries[i].fingerprint) || OfEntries(t, entries, i + 1)
  {
  }

  /** On a sound store the lookup finds the one open issue with the marker. */
  lemma {:induction false} LookupUnique(store: seq<Tracked>, fingerprint: string, k: nat)
    requires Sound(store) && IsFingerprint(fingerprint) && k < |store|
    ensures Lookup(store, fingerprint, 0) == Some(k) <==> Matches(store[k], fingerprint)
  {
    hide Genuine, Short, Contains, Marker, IsFingerprint;
    if Matches(store[k], fingerprint) {
      var j := Lookup(store, fingerprint, 0).value;
      MatchesKey(store[k], fingerprint);
      MatchesKey(store[j], fingerprint);
    }
  }

  /** An issue is of one failure at most. */
  lemma {:induction false} OneEntry(store: seq<Tracked>, entries: seq<Entry>, i: nat, k: nat)
    requires Sound(store) && TameEntries(entries) && Distinct(entries) && i < |entries| && k < |store|
    requires Matches(store[k], entries[i].fingerprint)
    ensures !OfEntries(store[k], entries, i + 1)
  {
    hide Genuine, Short, Contains, Marker, IsFingerprint, TameFailure, OnePerKey;
    assert TameEntry(entries[i]);
    MatchesKey(store[k], entries[i].fingerprint);
    forall j | i + 1 <= j < |entries| ensures !Matches(store[k], entries[j].fingerprint) {
      assert TameEntry(entries[j]);
      MatchesKey(store[k], entries[j].fingerprint);
    }
  }

  /** Issues of the entries still to come are as the snapshot has them. */
  predicate StillThere(now: seq<Tracked>, snap: seq<Tracked>, entries: seq<Entry>, i: nat) {
    |snap| <= |now| && forall k :: 0 <= k < |snap| && OfEntries(snap[k], entries, i) ==> now[k] == snap[k]
  }

  lemma {:induction false} ResolveFromReaches(now: seq<Tracked>, snap: seq<Tracked>, entries: seq<Entry>, i: nat,
      run: RunInfo, calls: seq<Calls>)
    requires i <= |entries| && Sound(snap) && TameEntries(entries) && Distinct(entries) && CallsDone(calls)
    requires |now| == |snap| && StillThere(now, snap, entries, i)
    ensures var r := ResolveFrom(now, snap, entries, i, run, calls);
            && r.ok && |r.store| == |snap|
            && (forall k :: 0 <= k < |snap| && OfEntries(snap[k], entries, i) ==>
                  ResolvedBy(snap[k], r.store[k], run))
            && (forall k :: 0 <= k < |snap| && !OfEntries(snap[k], entries, i) ==> r.store[k] == now[k])
    decreases |entries| - i
  {
    hide Sound, Matches, Distinct, ResolvedBy, GreenOne, OfEntries, Spared;
    if i == |entries| {
      NoEntries(snap, entries);
    } else {
      var c := CallsAt(calls, i);
      assert Succeeded(c);
      var one := ResolveEntry(now, snap, entries[i], run, c);
      ResolveEntryReaches(now, snap, entries, i, run, c);
      ResolveFromReaches(one.store, snap, entries, i + 1, run, calls);
    }
  }

  lemma {:induction false} NoEntries(snap: seq<Tracked>, entries: seq<Entry>)
    ensures forall k :: 0 <= k < |snap| ==> !OfEntries(snap[k], entries, |entries|)
  {
  }

  lemma {:induction false} ResolveEntryReaches(now: seq<Tracked>, snap: seq<Tracked>, entries: seq<Entry>, i: nat,
      run: RunInfo, c: Calls)
    requires i < |entries| && Sound(snap) && TameEntries(entries) && Distinct(entries) && Succeeded(c)
    requires |now| == |snap| && StillThere(now, snap, entries, i)
    ensures var one := ResolveEntry(now, snap, entries[i], run, c);
            && one.ok && StillThere(one.store, snap, entries, i + 1)
            && forall k :: 0 <= k < |snap| ==>
                 && (OfEntries(snap[k], entries, i) && !OfEntries(snap[k], entries, i + 1) ==>
                       ResolvedBy(snap[k], one.store[k], run))
                 && (OfEntries(snap[k], entries, i + 1) ==> OfEntries(snap[k], entries, i))
                 && (!OfEntries(snap[k], entries, i) ==> one.store[k] == now[k])
  {
    hide Sound, Matches, Distinct, ResolvedBy, GreenOne, OfEntries, Spared, TameEntry;
    var fingerprint := entries[i].fingerprint;
    assert IsFingerprint(fingerprint) by { TameFingerprint(entries[i]); }
    forall k | 0 <= k < |snap|
      ensures OfEntries(snap[k], entries, i) <==>
              Matches(snap[k], fingerprint) || OfEntries(snap[k], entries, i + 1)
      ensures Lookup(snap, fingerprint, 0) == Some(k) <==> Matches(snap[k], fingerprint)
    {
      OfEntriesNext(snap[k], entries, i);
      LookupUnique(snap, fingerprint, k);
    }
    match Lookup(snap, fingerprint, 0)
    case None =>
    case Some(n) =>
      assert OfEntries(snap[n], entries, i);
      GreenOneReaches(now, snap, n, "", run, c);
      OneEntry(snap, entries, i, n);
      assert InLane(snap[n], "") by { MatchIsOpen(snap[n], fingerprint); }
  }

  lemma {:induction false} MatchIsOpen(t: Tracked, fingerprint: string)
    requires Matches(t, fingerprint)
    ensures t.open && InLane(t, "")
  {
  }

  lemma {:induction false} TameFingerprint(e: Entry)
    requires TameEntry(e)
    ensures IsFingerprint(e.fingerprint)
  {
  }

  /** Resolving named failures leaves the open issue of each of them resolved, with
      exactly one new resolution comment if it was not, and every other issue as it
      was. */
  lemma {:induction false} ResolveRunResolves(store: seq<Tracked>, entries: seq<Entry>, run: RunInfo,
      calls: seq<Calls>)
    requires Sound(store) && TameEntries(entries) && Distinct(entries) && CallsDone(calls)
    ensures var r := ResolveRun(store, entries, run, calls);
            && r.ok && |r.store| == |store|
            && (forall k :: 0 <= k < |store| && OfEntries(store[k], entries, 0) ==>
                  ResolvedBy(store[k], r.store[k], run))
            && (forall k :: 0 <= k < |store| && !OfEntries(store[k], entries, 0) ==> r.store[k] == store[k])
  {
    hide Sound, TameEntries, Distinct, ResolvedBy, OfEntries, ResolveFrom;
    ResolveFromReaches(store, store, entries, 0, run, calls);
  }

  // ----- filing -----

  /** A recurrence: the stamp is gone, the body shows this run, one comment is added. */
  predicate UpdatedBy(t: Tracked, u: Tracked, run: RunInfo) {
    && u.open == t.open && u.birth == t.birth
    && u.issue.body == Refresh(ClearResolved(t.issue.body), run.url, run.time)
    && u.issue.comments == t.issue.comments + [Recurrence(run.url, run.time)]
  }

  lemma {:induction false} FileOneReaches(now: seq<Tracked>, snap: seq<Tracked>, entries: seq<Entry>, i: nat,
      run: RunInfo, c: Calls)
    requires i < |entries| && Sound(snap) && TameEntries(entries) && Distinct(entries) && Succeeded(c)
    requires |snap| <= |now| && StillThere(now, snap, entries, i)
    ensures var one := FileOne(now, snap, entries[i], run, c);
            && one.ok && StillThere(one.store, snap, entries, i + 1)
            && forall k :: 0 <= k < |snap| ==>
                 && (OfEntries(snap[k], entries, i) && !OfEntries(snap[k], entries, i + 1) ==>
                       UpdatedBy(snap[k], one.store[k], run))
                 && (OfEntries(snap[k], entries, i + 1) ==> OfEntries(snap[k], entries, i))
                 && (!OfEntries(snap[k], entries, i) ==> one.store[k] == now[k])
  {
    hide Sound, Matches, Distinct, OfEntries, TameEntry, NewTracked, Refresh, ClearResolved, Lookup;
    var fingerprint := entries[i].fingerprint;
    assert IsFingerprint(fingerprint) by { TameFingerprint(entries[i]); }
    forall k | 0 <= k < |snap|
      ensures OfEntries(snap[k], entries, i) <==>
              Matches(snap[k], fingerprint) || OfEntries(snap[k], entries, i + 1)
      ensures Lookup(snap, fingerprint, 0) == Some(k) <==> Matches(snap[k], fingerprint)
    {
      OfEntriesNext(snap[k], entries, i);
      LookupUnique(snap, fingerprint, k);
    }
    match Lookup(snap, fingerprint, 0)
    case None =>
    case Some(n) =>
      assert OfEntries(snap[n], entries, i);
      OneEntry(snap, entries, i, n);
  }

  lemma {:induction false} FileFromReaches(now: seq<Tracked>, snap: seq<Tracked>, entries: seq<Entry>, i: nat,
      run: RunInfo, calls: seq<Calls>)
    requires i <= |entries| && Sound(snap) && TameEntries(entries) && Distinct(entries) && CallsDone(calls)
    requires |snap| <= |now| && StillThere(now, snap, entries, i)
    ensures var r := FileFrom(now, snap, entries, i, run, calls);
            && r.ok && |snap| <= |r.store|
            && (forall k :: 0 <= k < |snap| && OfEntries(snap[k], entries, i) ==>
                  UpdatedBy(snap[k], r.store[k], run))
            && (forall k :: 0 <= k < |snap| && !OfEntries(snap[k], entries, i) ==> r.store[k] == now[k])
    decreases |entries| - i
  {
    hide Sound, Matches, Distinct, UpdatedBy, FileOne, OfEntries;
    if i == |entries| {
      NoEntries(snap, entries);
    } else {
      var c := CallsAt(calls, i);
      assert Succeeded(c);
      FileOneReaches(now, snap, entries, i, run, c);
      FileFromReaches(FileOne(now, snap, entries[i], run, c).store, snap, entries, i + 1, run, calls);
    }
  }

  /** The entries whose marker no open issue carries, in order. */
  function Unknown(store: seq<Tracked>, entries: seq<Entry>, i: nat): seq<Entry>
    requires i <= |entries|
    decreases |entries| - i
  {
    if i == |entries| then []
    else
      (if exists k :: 0 <= k < |store| && Matches(store[k], entries[i].fingerprint) then [] else [entries[i]])
      + Unknown(store, entries, i + 1)
  }

  lemma {:induction false} CreatedAreUnknown(store: seq<Tracked>, entries: seq<Entry>, i: nat, run: RunInfo)
    requires i <= |entries|
    ensures var made, unknown := Created(store, entries, i, run), Unknown(store, entries, i);
            |made| == |unknown| && forall j :: 0 <= j < |made| ==> made[j] == NewTracked(unknown[j], run)
    decreases |entries| - i
  {
    hide NewTracked, Matches;
    if i < |entries| { CreatedAreUnknown(store, entries, i + 1, run); }
  }

  /** Filing failures updates the open issue of each failure that has one, with one
      recurrence comment, appends one new issue for each that has none, in order and
      without comments, and leaves every other issue as it was. */
  lemma {:induction false} FileRunReaches(store: seq<Tracked>, entries: seq<Entry>, run: RunInfo, calls: seq<Calls>)
    requires Sound(store) && TameEntries(entries) && Distinct(entries) && CallsDone(calls)
    ensures var r, unknown := FileRun(store, entries, run, calls), Unknown(store, entries, 0);
            && r.ok && |r.store| == |store| + |unknown|
            && (forall k :: 0 <= k < |store| && OfEntries(store[k], entries, 0) ==>
                  UpdatedBy(store[k], r.store[k], run))
            && (forall k :: 0 <= k < |store| && !OfEntries(store[k], entries, 0) ==> r.store[k] == store[k])
            && (forall j :: 0 <= j < |unknown| ==> r.store[|store| + j] == NewTracked(unknown[j], run))
  {
    hide Sound, TameEntries, Distinct, UpdatedBy, OfEntries, FileFrom, NewTracked, SameSlots, Created, Unknown;
    var r, made := FileRun(store, entries, run, calls).store, Created(store, entries, 0, run);
    FileFromReaches(store, store, entries, 0, run, calls);
    FileFromShape(store, store, entries, 0, run, calls);
    CreatedAreUnknown(store, entries, 0, run);
    assert forall j :: 0 <= j < |made| ==> r[|store| + j] == r[|store|..][j];
  }
}
