/** What reopening restores after a crash: exactly the writes that were not
    acknowledged behind a torn frame (`cqlite-core/src/storage/write_engine/wal.rs`). */
module Recovery {
  import opened Prelude
  import opened Wal
  import opened Engine

  // ----- acknowledged writes and the bytes of the log -----

  /** The crash left everything that was synced. */
  predicate CrashAt(s: State, n: nat) { s.wal.synced <= n <= |s.wal.content| }

  /** The log was whole when the write was acknowledged. */
  predicate OnWholeLog(c: Format, s: State, a: Ack)
    requires a.at <= |s.wal.content|
  {
    Whole(c.codec, s.wal.content[..a.at])
  }

  /** An acknowledged write is read back after a crash exactly when the log was whole
      at the time of its acknowledgement. */
  lemma {:induction false} AckRestoredExactly(c: Format, s: State, n: nat, a: Ack)
    requires CrashAt(s, n) && Logged(c, s.wal, a)
    ensures ReadBack(c, Cut(s, n), a) <==> OnWholeLog(c, s, a)
  {
    hide Frame, PayloadAt, Whole;
    var b, p := s.wal.content, c.encode(a.m);
    var end := a.at + 8 + |p|;
    assert b[..n] == b[..a.at] + b[a.at..end] + b[end..n];
    FrameReadExactly(c.codec, b[..a.at], p, b[end..n]);
  }

  /** Every acknowledged write is in an SSTable or will be read back. */
  ghost predicate AllRestored(c: Format, s: State, n: nat) {
    forall i :: 0 <= i < |s.recent| && !InSstables(s, s.recent[i].m) ==> ReadBack(c, Cut(s, n), s.recent[i])
  }

  /** Since the log was last emptied no write was acknowledged behind a torn frame,
      unless it has reached an SSTable since. */
  ghost predicate NoneBehindTorn(c: Format, s: State) {
    forall i :: 0 <= i < |s.recent| && s.recent[i].at <= |s.wal.content| && !InSstables(s, s.recent[i].m)
            ==> OnWholeLog(c, s, s.recent[i])
  }

  /** A crash at any point restores every acknowledged write exactly when none of them
      was acknowledged behind a torn frame. */
  lemma {:induction false} RestoredExactly(c: Format, s: State, acked: set<Mutation>, n: nat)
    requires Sound(c, s, acked) && CrashAt(s, n)
    ensures AllRestored(c, s, n) <==> NoneBehindTorn(c, s)
  {
    hide ReadBack, Whole, Frame, InSstables;
    forall i | 0 <= i < |s.recent|
      ensures s.recent[i].at <= |s.wal.content|
      ensures ReadBack(c, Cut(s, n), s.recent[i]) <==> OnWholeLog(c, s, s.recent[i])
    {
      AckRestoredExactly(c, s, n, s.recent[i]);
    }
  }

  lemma {:induction false} DecodedMember(c: Codec<Mutation>, ps: seq<Bytes>, p: Bytes, m: Mutation)
    requires p in ps && c.decode(p) == Some(m)
    ensures m in Decoded(c, ps)
  {
    if p != ps[|ps| - 1] { DecodedMember(c, ps[..|ps| - 1], p, m); }
  }

  lemma {:induction false} ReadBackReplayed(c: Format, bytes: Bytes, a: Ack)
    requires RoundTrips(c) && ReadBack(c, bytes, a)
    ensures a.m in ReportOf(c.codec, bytes).mutations
  {
    hide PayloadAt, Scan, Decoded, Undecodable;
    PayloadAtIsScanned(c.codec, bytes, a.at);
    DecodedMember(c.codec, Scan(c.codec, bytes).payloads, c.encode(a.m), a.m);
  }

  lemma {:induction false} KeptMember(c: Format, bytes: Bytes, acks: seq<Ack>, a: Ack)
    ensures a in KeptAcks(c, bytes, acks) <==> a in acks && ReadBack(c, bytes, a)
  {
    hide ReadBack;
    if acks != [] {
      KeptMember(c, bytes, acks[..|acks| - 1], a);
      assert acks == acks[..|acks| - 1] + [acks[|acks| - 1]];
    }
  }

  lemma {:induction false} KeptLogged(c: Format, bytes: Bytes, durable: nat, w: LogState, a: Ack)
    requires ReadBack(c, bytes, a) && Logged(c, w, a) && durable == w.synced
    ensures Logged(c, ResetTo(OpenOn(c.codec, bytes, durable)), a)
  {
    hide Frame, PayloadAt, Scan, OpenOn, ResetTo;
    var l := ResetTo(OpenOn(c.codec, bytes, durable));
    ReopenedIsWhole(c.codec, bytes, durable);
    PayloadAtFits(c.codec, bytes, a.at);
    var end := a.at + 8 + |c.encode(a.m)|;
    assert l.content[a.at..end] == bytes[a.at..end];
  }

  /** Reopening after a crash keeps the invariant, for everything acknowledged, if
      nothing was acknowledged behind a torn frame and the log's keys can be computed. */
  lemma {:induction false} ReopenSound(c: Format, s: State, acked: set<Mutation>, n: nat)
    requires RoundTrips(c) && Sound(c, s, acked) && CrashAt(s, n) && NoneBehindTorn(c, s)
    requires Reopen(c, s, n).Some?
    ensures Sound(c, Reopen(c, s, n).value, acked)
  {
    hide Frame, PayloadAt, Scan, OpenOn, ResetTo, ReadBack, Logged, RoundTrips, ReportOf, KeptAcks;
    var t, bytes := Reopen(c, s, n).value, Cut(s, n);
    RestoredExactly(c, s, acked, n);
    ReopenedIsWhole(c.codec, bytes, s.wal.synced);
    forall i | 0 <= i < |t.recent| ensures Logged(c, t.wal, t.recent[i]) {
      KeptMember(c, bytes, s.recent, t.recent[i]);
      KeptLogged(c, bytes, s.wal.synced, s.wal, t.recent[i]);
    }
    forall m | m in acked ensures InSstables(t, m) || (m in t.memtable && HasAck(t.recent, m)) {
      if InSstables(s, m) {
        InSstablesGrows(s, t, m);
      } else {
        var i :| 0 <= i < |s.recent| && s.recent[i].m == m;
        ReadBackReplayed(c, bytes, s.recent[i]);
        KeptMember(c, bytes, s.recent, s.recent[i]);
        assert s.recent[i] in t.recent;
      }
    }
  }

  // ----- which operations tear the log -----

  /** The log is whole, and so it was at every acknowledgement. */
  ghost predicate Untorn(c: Format, s: State) {
    && Whole(c.codec, s.wal.content)
    && forall i :: 0 <= i < |s.recent| ==>
         s.recent[i].at <= |s.wal.content| && Whole(c.codec, s.wal.content[..s.recent[i].at])
  }

  /** The write's append breaks off inside its frame. */
  predicate Tears(c: Format, s: State, m: Mutation, f: WriteFault) {
    && !s.closed && !m.counter && !s.wal.poisoned && s.wal.pendingValidPrefix.None?
    && Accepted(c.encode(m)) && f.AppendFails? && f.accepted > 0
  }

  lemma {:induction false} UntornNoneBehind(c: Format, s: State)
    requires Untorn(c, s)
    ensures NoneBehindTorn(c, s)
  {
    hide Whole;
  }

  lemma {:induction false} WriteContent(c: Format, s: State, m: Mutation, f: WriteFault)
    ensures var w, p := Write(c, s, m, f).0.wal.content, c.encode(m);
            if Tears(c, s, m, f) then w == s.wal.content + TornPart(c.codec, p, f.accepted)
            else w == s.wal.content || (Accepted(p) && w == s.wal.content + Frame(c.codec, p))
  {
    hide Frame;
    assert Accepted(c.encode(m)) ==> TornPart(c.codec, c.encode(m), 0) == [];
  }

  /** A write leaves an untorn log untorn exactly when its append does not break off. */
  lemma {:induction false} WriteTearsExactly(c: Format, s: State, m: Mutation, f: WriteFault)
    requires Untorn(c, s) && s.wal.synced <= |s.wal.content|
    ensures Untorn(c, Write(c, s, m, f).0) <==> !Tears(c, s, m, f)
  {
    hide Frame, Scan, Write;
    var t, p, b := Write(c, s, m, f).0, c.encode(m), s.wal.content;
    WriteContent(c, s, m, f);
    WriteGrows(c, s, m, f);
    if Tears(c, s, m, f) {
      TornFrame(c.codec, b, p, Least(f.accepted, 7 + |p|));
    } else {
      if Accepted(p) { AppendReplayable(c.codec, b, p); }
      forall i | 0 <= i < |t.recent|
        ensures t.recent[i].at <= |t.wal.content| && Whole(c.codec, t.wal.content[..t.recent[i].at])
      {
        var at := t.recent[i].at;
        if i < |s.recent| { assert t.recent[i] == s.recent[i]; }
        assert at <= |b|;
        assert t.wal.content[..at] == b[..at];
        assert at == |b| ==> b[..at] == b;
      }
    }
  }

  lemma {:induction false} EmptyWhole(c: Codec<Mutation>)
    ensures Whole(c, [])
  {
    EmptyHead(c);
  }

  lemma {:induction false} FlushUntorn(c: Format, s: State, f: FlushFault)
    requires Untorn(c, s)
    ensures Untorn(c, Flush(s, f).0)
  {
    hide Whole;
    EmptyWhole(c.codec);
  }

  /** Reopening always leaves an untorn log, which is why only writes acknowledged
      before it can be lost. */
  lemma {:induction false} ReopenUntorn(c: Format, s: State, acked: set<Mutation>, n: nat)
    requires Sound(c, s, acked) && CrashAt(s, n) && Reopen(c, s, n).Some?
    ensures Untorn(c, Reopen(c, s, n).value)
  {
    hide Frame, PayloadAt, Scan, OpenOn, ResetTo, ReadBack, ReportOf, KeptAcks;
    var t, bytes := Reopen(c, s, n).value, Cut(s, n);
    ReopenedIsWhole(c.codec, bytes, s.wal.synced);
    forall i | 0 <= i < |t.recent|
      ensures t.recent[i].at <= |t.wal.content| && Whole(c.codec, t.wal.content[..t.recent[i].at])
    {
      var a := t.recent[i];
      KeptMember(c, bytes, s.recent, a);
      AckRestoredExactly(c, s, n, a);
      assert PayloadAt(c.codec, bytes, a.at).Some? by { ReadBackSome(c, bytes, a); }
      PayloadAtFits(c.codec, bytes, a.at);
      assert t.wal.content[..a.at] == bytes[..a.at] == s.wal.content[..a.at];
    }
  }

  lemma {:induction false} ReadBackSome(c: Format, bytes: Bytes, a: Ack)
    requires ReadBack(c, bytes, a)
    ensures PayloadAt(c.codec, bytes, a.at) == Some(c.encode(a.m))
  {
  }

  // ----- a write acknowledged behind a torn frame is lost -----

  /** A large append breaks off, the next write is acknowledged, and no crash point
      lets reopening read it back. */
  lemma {:induction false} TornAppendLosesWrite(c: Format, s: State, big: Mutation, k: nat, m: Mutation, n: nat)
    requires Whole(c.codec, s.wal.content) && s.wal.synced <= |s.wal.content|
    requires !s.closed && !s.wal.poisoned && s.wal.pendingValidPrefix.None?
    requires !big.counter && !m.counter && m.keyed && Accepted(c.encode(big)) && Accepted(c.encode(m))
    requires 8 <= k && k + 8 + |c.encode(m)| < 8 + |c.encode(big)|
    ensures var (t, first) := Write(c, s, big, AppendFails(k));
            var (u, second) := Write(c, t, m, NoFault);
            && !first && second
            && (CrashAt(u, n) ==> ReportOf(c.codec, Cut(u, n)).mutations == ReportOf(c.codec, s.wal.content).mutations)
  {
    hide Frame, Scan, Decoded, Undecodable;
    var p, b := c.encode(big), s.wal.content;
    var (t, first) := Write(c, s, big, AppendFails(k));
    var (u, second) := Write(c, t, m, NoFault);
    var torn, f := Frame(c.codec, p)[..k], Frame(c.codec, c.encode(m));
    assert t.wal.content == b + torn;
    assert u.wal.content == b + torn + f && u.wal.synced == |u.wal.content|;
    if CrashAt(u, n) {
      assert Cut(u, n) == u.wal.content;
      HiddenBehindTorn(c.codec, b, p, k, f);
    }
  }

  // ----- a rejected write in the log -----

  lemma {:induction false} KeyedSnoc(ms: seq<Mutation>, m: Mutation)
    ensures (forall i :: 0 <= i < |ms + [m]| ==> (ms + [m])[i].keyed)
       <==> (forall i :: 0 <= i < |ms| ==> ms[i].keyed) && m.keyed
  {
    var more := ms + [m];
    assert more[|ms|] == m;
    assert forall i :: 0 <= i < |ms| ==> more[i] == ms[i];
  }

  /** The key is checked only after the mutation is logged: on a whole log a rejected
      mutation keeps the engine from opening. */
  lemma {:induction false} RejectedWriteBlocksRecovery(c: Format, s: State, m: Mutation)
    requires RoundTrips(c) && Whole(c.codec, s.wal.content) && Accepted(c.encode(m))
    requires !s.closed && !m.counter && !s.wal.poisoned && s.wal.pendingValidPrefix.None?
    ensures var (t, ok) := Write(c, s, m, NoFault);
            && (ok <==> m.keyed)
            && (Reopen(c, t, |t.wal.content|).Some? <==> Reopen(c, s, |s.wal.content|).Some? && m.keyed)
  {
    hide Frame, Scan, Decoded, Undecodable, OpenOn, ResetTo, KeptAcks;
    var t, b, p := Write(c, s, m, NoFault).0, s.wal.content, c.encode(m);
    assert t.wal.content == b + Frame(c.codec, p);
    AppendReplayable(c.codec, b, p);
    DecodedSnoc(c.codec, Scan(c.codec, b).payloads, p);
    assert Cut(s, |b|) == b && Cut(t, |t.wal.content|) == t.wal.content;
    var before := ReportOf(c.codec, b).mutations;
    assert ReportOf(c.codec, t.wal.content).mutations == before + [m];
    KeyedSnoc(before, m);
  }
}
