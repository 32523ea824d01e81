/** The write-ahead log's framing and crash recovery
    (`cqlite-core/src/storage/write_engine/wal.rs`):
    `[length: u32 LE][crc32: u32 LE][payload]`, scanned until the first entry that
    cannot be trusted. */
module Wal {
  import opened Prelude

  type Byte = b: int | 0 <= b < 256
  type Bytes = seq<Byte>

  const MAX_ENTRY_LENGTH: nat := 16 * 1024 * 1024

  const U32: nat := 0x1_0000_0000

  /** CRC-32 of the payload and the payload decoder; both are parameters here. */
  datatype Codec<!M> = Codec(crc: Bytes -> nat, decode: Bytes -> Option<M>)
  {
    function Crc(p: Bytes): nat { crc(p) % U32 }
  }

  // ----- framing -----

  function Le32(n: nat): (r: Bytes)
    requires n < U32
    ensures |r| == 4
  {
    [n % 256, n / 256 % 256, n / 65536 % 256, n / 16777216]
  }

  function FromLe32(b: Bytes): nat
    requires |b| >= 4
  {
    var (b0: int, b1: int, b2: int, b3: int) := (b[0], b[1], b[2], b[3]);
    b0 + 256 * b1 + 65536 * b2 + 16777216 * b3
  }

  lemma {:induction false} Le32RoundTrip(n: nat)
    requires n < U32
    ensures FromLe32(Le32(n)) == n
  {
    var a, b := n / 256, n / 65536;
    assert b == a / 256 && n / 16777216 == b / 256;
    assert n == 256 * a + n % 256 && a == 256 * b + a % 256 && b == 256 * (b / 256) + b % 256;
  }

  predicate Accepted(p: Bytes) { |p| <= MAX_ENTRY_LENGTH }

  function Frame<M>(c: Codec<M>, p: Bytes): (r: Bytes)
    requires Accepted(p)
    ensures |r| == 8 + |p|
  {
    Le32(|p|) + Le32(c.Crc(p)) + p
  }

  /** The bytes a sequence of appends leaves behind. */
  function Log<M>(c: Codec<M>, ps: seq<Bytes>): Bytes
    requires forall i :: 0 <= i < |ps| ==> Accepted(ps[i])
  {
    if ps == [] then [] else Frame(c, ps[0]) + Log(c, ps[1..])
  }

  // ----- scanning -----

  datatype Stop = CleanEof | TornTail | Corruption

  /** The verdict on the entry at the head of the remaining bytes. */
  datatype Head = Entry(payload: Bytes) | Stopped(stop: Stop)

  function ReadHead<M>(c: Codec<M>, rest: Bytes): Head {
    if |rest| < 8 then Stopped(if rest == [] then CleanEof else TornTail)
    else
      var length := FromLe32(rest);
      if length > MAX_ENTRY_LENGTH then Stopped(Corruption)
      else if |rest| - 8 < length then Stopped(Corruption)
      else
        var payload := rest[8..8 + length];
        if c.Crc(payload) != FromLe32(rest[4..]) then Stopped(Corruption)
        else Entry(payload)
  }

  /** The valid entries, and why the scan stopped. */
  datatype Scanned = Scanned(payloads: seq<Bytes>, validEnd: nat, stop: Stop)

  lemma {:induction false} HeadFits<M>(c: Codec<M>, rest: Bytes)
    ensures ReadHead(c, rest).Entry? ==> 8 + |ReadHead(c, rest).payload| <= |rest|
    ensures ReadHead(c, rest).Entry? ==> Accepted(ReadHead(c, rest).payload)
  {
  }

  function Scan<M>(c: Codec<M>, bytes: Bytes): (s: Scanned)
    ensures s.validEnd <= |bytes|
    decreases |bytes|
  {
    HeadFits(c, bytes);
    match ReadHead(c, bytes)
    case Stopped(stop) => Scanned([], 0, stop)
    case Entry(p) =>
      var more := Scan(c, bytes[8 + |p|..]);
      Scanned([p] + more.payloads, 8 + |p| + more.validEnd, more.stop)
  }

  lemma {:induction false} ScanUnfold<M>(c: Codec<M>, rest: Bytes)
    ensures ReadHead(c, rest).Stopped? ==> Scan(c, rest) == Scanned([], 0, ReadHead(c, rest).stop)
    ensures ReadHead(c, rest).Entry? ==>
              var p := ReadHead(c, rest).payload;
              && Accepted(p) && 8 + |p| <= |rest|
              && var more := Scan(c, rest[8 + |p|..]);
                 Scan(c, rest) == Scanned([p] + more.payloads, 8 + |p| + more.validEnd, more.stop)
  {
    HeadFits(c, rest);
  }

  /** `scan_valid_prefix`. */
  method ScanValidPrefix<M>(c: Codec<M>, bytes: Bytes) returns (offset: nat, stop: Stop)
    ensures offset == Scan(c, bytes).validEnd && stop == Scan(c, bytes).stop
    ensures offset <= |bytes|
  {
    hide Scan, FromLe32;
    offset := 0;
    assert bytes[0..] == bytes;
    while true
      invariant 0 <= offset <= |bytes|
      invariant Scan(c, bytes).validEnd == offset + Scan(c, bytes[offset..]).validEnd
      invariant Scan(c, bytes).stop == Scan(c, bytes[offset..]).stop
      decreases |bytes| - offset
    {
      var rest := bytes[offset..];
      ScanUnfold(c, rest);
      if |rest| < 8 {
        return offset, if rest == [] then CleanEof else TornTail;
      }
      var length := FromLe32(rest);
      if length > MAX_ENTRY_LENGTH { return offset, Corruption; }
      if |rest| - 8 < length { return offset, Corruption; }
      if c.Crc(rest[8..8 + length]) != FromLe32(rest[4..]) { return offset, Corruption; }
      assert ReadHead(c, rest) == Entry(rest[8..8 + length]);
      assert rest[8 + length..] == bytes[offset + 8 + length..];
      offset := offset + 8 + length;
    }
  }

  // ----- replay -----

  datatype Report<M> = Report(mutations: seq<M>, corruptEntries: nat, stoppedEarly: bool, bytesSkipped: nat)
  {
    predicate IsClean() { corruptEntries == 0 && !stoppedEarly }
  }

  function Decoded<M>(c: Codec<M>, ps: seq<Bytes>): seq<M> {
    if ps == [] then []
    else
      var d := c.decode(ps[|ps| - 1]);
      Decoded(c, ps[..|ps| - 1]) + if d.Some? then [d.value] else []
  }

  function Undecodable<M>(c: Codec<M>, ps: seq<Bytes>): nat {
    if ps == [] then 0
    else Undecodable(c, ps[..|ps| - 1]) + if c.decode(ps[|ps| - 1]).None? then 1 else 0
  }

  /** What replay reports, in terms of the scan. */
  function ReportOf<M>(c: Codec<M>, bytes: Bytes): Report<M> {
    var s := Scan(c, bytes);
    Report(Decoded(c, s.payloads),
           Undecodable(c, s.payloads) + (if s.stop == Corruption then 1 else 0),
           s.stop == Corruption,
           |bytes| - s.validEnd)
  }

  /** `replay_each`, collecting the streamed mutations. */
  method Replay<M>(c: Codec<M>, bytes: Bytes) returns (r: Report<M>)
    ensures r == ReportOf(c, bytes)
  {
    hide Scan, FromLe32, Decoded, Undecodable;
    ghost var all := Scan(c, bytes);
    DecodedNone(c);
    ghost var seen: seq<Bytes> := [];
    var out: seq<M> := [];
    var corrupt, early, offset := 0, false, 0;
    assert bytes[0..] == bytes;
    while true
      invariant 0 <= offset <= |bytes| && !early
      invariant all.payloads == seen + Scan(c, bytes[offset..]).payloads
      invariant all.validEnd == offset + Scan(c, bytes[offset..]).validEnd
      invariant all.stop == Scan(c, bytes[offset..]).stop
      invariant out == Decoded(c, seen) && corrupt == Undecodable(c, seen)
      decreases |bytes| - offset
    {
      var rest := bytes[offset..];
      ScanUnfold(c, rest);
      if |rest| < 8 { break; }
      var length := FromLe32(rest);
      if length > MAX_ENTRY_LENGTH { corrupt, early := corrupt + 1, true; break; }
      if |rest| - 8 < length { corrupt, early := corrupt + 1, true; break; }
      var payload := rest[8..8 + length];
      if c.Crc(payload) != FromLe32(rest[4..]) { corrupt, early := corrupt + 1, true; break; }
      assert ReadHead(c, rest) == Entry(payload);
      assert rest[8 + length..] == bytes[offset + 8 + length..];
      DecodedSnoc(c, seen, payload);
      match c.decode(payload) {
        case Some(m) => out := out + [m];
        case None => corrupt := corrupt + 1;
      }
      seen := seen + [payload];
      offset := offset + 8 + length;
    }
    assert all.payloads == seen;
    r := Report(out, corrupt, early, |bytes| - offset);
  }

  lemma {:induction false} DecodedNone<M>(c: Codec<M>)
    ensures Decoded(c, []) == [] && Undecodable(c, []) == 0
  {
  }

  lemma {:induction false} DecodedSnoc<M>(c: Codec<M>, ps: seq<Bytes>, p: Bytes)
    ensures Decoded(c, ps + [p]) == Decoded(c, ps) + if c.decode(p).Some? then [c.decode(p).value] else []
    ensures Undecodable(c, ps + [p]) == Undecodable(c, ps) + if c.decode(p).None? then 1 else 0
  {
    assert (ps + [p])[..|ps|] == ps;
  }

  // ----- the scan finds a log -----

  lemma {:induction false} FrameHead<M>(c: Codec<M>, p: Bytes, rest: Bytes)
    requires Accepted(p)
    ensures ReadHead(c, Frame(c, p) + rest) == Entry(p)
    ensures (Frame(c, p) + rest)[8 + |p|..] == rest
  {
    var b := Frame(c, p) + rest;
    Le32RoundTrip(|p|);
    Le32RoundTrip(c.Crc(p));
    assert b[..4] == Le32(|p|) && b[4..][..4] == Le32(c.Crc(p));
    assert FromLe32(b) == FromLe32(b[..4]) && FromLe32(b[4..]) == FromLe32(b[4..][..4]);
    assert b[8..8 + |p|] == p;
  }

  lemma {:induction false} FromLe32RoundTrip(b: Bytes)
    requires |b| >= 4
    ensures FromLe32(b) < U32 && Le32(FromLe32(b)) == b[..4]
  {
    var (b0: int, b1: int, b2: int, b3: int) := (b[0], b[1], b[2], b[3]);
    var n := FromLe32(b);
    assert n / 256 == b1 + 256 * b2 + 65536 * b3 && n / 65536 == b2 + 256 * b3 && n / 16777216 == b3;
  }

  /** An entry that is accepted is framed exactly as an append would frame it. */
  lemma {:induction false} HeadIsFrame<M>(c: Codec<M>, bytes: Bytes)
    requires ReadHead(c, bytes).Entry?
    ensures var p := ReadHead(c, bytes).payload;
            Accepted(p) && 8 + |p| <= |bytes| && bytes[..8 + |p|] == Frame(c, p)
  {
    var p := ReadHead(c, bytes).payload;
    FromLe32RoundTrip(bytes);
    FromLe32RoundTrip(bytes[4..]);
    assert bytes[4..8] == bytes[4..][..4];
    assert bytes[..8 + |p|] == bytes[..4] + bytes[4..8] + bytes[8..8 + |p|];
  }

  /** Any file starts with a log: the valid prefix is exactly the frames of the
      entries the scan returns, and what follows is rejected at its head. */
  lemma {:induction false} ScanSound<M>(c: Codec<M>, bytes: Bytes)
    ensures var s := Scan(c, bytes);
            && (forall i :: 0 <= i < |s.payloads| ==> Accepted(s.payloads[i]))
            && s.validEnd <= |bytes| && bytes[..s.validEnd] == Log(c, s.payloads)
            && ReadHead(c, bytes[s.validEnd..]) == Stopped(s.stop)
    decreases |bytes|
  {
    hide Scan, ReadHead, Frame, Log;
    ScanUnfold(c, bytes);
    match ReadHead(c, bytes)
    case Stopped(_) =>
      assert bytes[0..] == bytes && bytes[..0] == [];
      assert Log(c, []) == [] by { NoLog(c); }
    case Entry(p) =>
      var n := 8 + |p|;
      var rest := bytes[n..];
      ScanSound(c, rest);
      var s, more := Scan(c, bytes), Scan(c, rest);
      HeadIsFrame(c, bytes);
      ConsLog(c, p, more.payloads);
      assert bytes[..s.validEnd] == bytes[..n] + rest[..more.validEnd];
      assert bytes[s.validEnd..] == rest[more.validEnd..];
  }

  lemma {:induction false} NoLog<M>(c: Codec<M>)
    ensures Log(c, []) == []
  {
  }

  lemma {:induction false} ConsLog<M>(c: Codec<M>, p: Bytes, ps: seq<Bytes>)
    requires Accepted(p) && forall i :: 0 <= i < |ps| ==> Accepted(ps[i])
    ensures forall i :: 0 <= i < |[p] + ps| ==> Accepted(([p] + ps)[i])
    ensures Log(c, [p] + ps) == Frame(c, p) + Log(c, ps)
  {
    hide Frame;
    assert ([p] + ps)[1..] == ps;
  }

  /** Scanning a log followed by anything reads the log, then goes on with the rest. */
  lemma {:induction false} ScanLog<M>(c: Codec<M>, ps: seq<Bytes>, rest: Bytes)
    requires forall i :: 0 <= i < |ps| ==> Accepted(ps[i])
    ensures var s, t := Scan(c, Log(c, ps) + rest), Scan(c, rest);
            s.payloads == ps + t.payloads && s.validEnd == |Log(c, ps)| + t.validEnd && s.stop == t.stop
  {
    hide Scan, ReadHead, Frame;
    if ps == [] {
      assert Log(c, ps) + rest == rest;
      assert [] + Scan(c, rest).payloads == Scan(c, rest).payloads;
    } else {
      var more := Log(c, ps[1..]) + rest;
      assert Log(c, ps) + rest == Frame(c, ps[0]) + more;
      FrameHead(c, ps[0], more);
      ScanUnfold(c, Frame(c, ps[0]) + more);
      ScanLog(c, ps[1..], rest);
      assert [ps[0]] + (ps[1..] + Scan(c, rest).payloads) == ps + Scan(c, rest).payloads;
    }
  }

  /** Appends, then replay: every payload comes back, in order. */
  lemma {:induction false} ReplayLog<M>(c: Codec<M>, ps: seq<Bytes>)
    requires forall i :: 0 <= i < |ps| ==> Accepted(ps[i])
    ensures Scan(c, Log(c, ps)) == Scanned(ps, |Log(c, ps)|, CleanEof)
    ensures ReportOf(c, Log(c, ps)).IsClean() <==> Undecodable(c, ps) == 0
  {
    ScanLog(c, ps, []);
    assert Log(c, ps) + [] == Log(c, ps) && ps + [] == ps;
  }

  // ----- a crash -----

  /** How many whole frames fit in the first `n` bytes. */
  function WholeFrames<M>(c: Codec<M>, ps: seq<Bytes>, n: nat): (k: nat)
    requires forall i :: 0 <= i < |ps| ==> Accepted(ps[i])
    ensures k <= |ps|
  {
    if ps == [] || n < 8 + |ps[0]| then 0 else 1 + WholeFrames(c, ps[1..], n - 8 - |ps[0]|)
  }

  lemma {:induction false} PartialFrame<M>(c: Codec<M>, p: Bytes, n: nat)
    requires Accepted(p) && n < 8 + |p|
    ensures ReadHead(c, Frame(c, p)[..n])
         == Stopped(if n == 0 then CleanEof else if n < 8 then TornTail else Corruption)
  {
    var b := Frame(c, p)[..n];
    if n >= 8 {
      Le32RoundTrip(|p|);
      assert b[..4] == Le32(|p|);
      assert FromLe32(b) == FromLe32(b[..4]);
    }
  }

  lemma {:induction false} EmptyHead<M>(c: Codec<M>)
    ensures ReadHead(c, []) == Stopped(CleanEof)
  {
  }

  /** Cut the file anywhere: the scan returns exactly the entries whose frames are
      whole, a cut header is a torn tail and a cut payload is reported as corruption. */
  lemma {:induction false} CrashRecovery<M>(c: Codec<M>, ps: seq<Bytes>, n: nat)
    requires forall i :: 0 <= i < |ps| ==> Accepted(ps[i])
    requires n <= |Log(c, ps)|
    ensures var k := WholeFrames(c, ps, n);
            var s := Scan(c, Log(c, ps)[..n]);
            && s.payloads == ps[..k] && s.validEnd == |Log(c, ps[..k])| <= n
            && s.stop == (var left := n - s.validEnd;
                          if left == 0 then CleanEof else if left < 8 then TornTail else Corruption)
  {
    hide Scan, ReadHead, Frame;
    if ps == [] {
      assert Log(c, ps)[..n] == [] && ps[..0] == [];
      ScanUnfold(c, []);
      EmptyHead(c);
    } else {
      var p, bytes := ps[0], Log(c, ps);
      var k := WholeFrames(c, ps, n);
      if n < 8 + |p| {
        assert bytes[..n] == Frame(c, p)[..n];
        PartialFrame(c, p, n);
        ScanUnfold(c, bytes[..n]);
        assert ps[..0] == [];
      } else {
        var m := n - 8 - |p|;
        CrashRecovery(c, ps[1..], m);
        var cut := Log(c, ps[1..])[..m];
        assert bytes[..n] == Frame(c, p) + cut;
        FrameHead(c, p, cut);
        ScanUnfold(c, Frame(c, p) + cut);
        assert ps[..k][1..] == ps[1..][..k - 1] && ps[..k][0] == p;
        assert [p] + ps[1..][..k - 1] == ps[..k];
      }
    }
  }

  /** Entries whose bytes had been synced before the crash are all recovered. */
  lemma {:induction false} SyncedSurvive<M>(c: Codec<M>, ps: seq<Bytes>, synced: nat, n: nat)
    requires forall i :: 0 <= i < |ps| ==> Accepted(ps[i])
    requires synced <= |ps| && |Log(c, ps[..synced])| <= n <= |Log(c, ps)|
    ensures ps[..synced] <= Scan(c, Log(c, ps)[..n]).payloads
  {
    CrashRecovery(c, ps, n);
    var k := WholeFrames(c, ps, n);
    WholeEnough(c, ps, synced, n);
    assert ps[..synced] == ps[..k][..synced];
  }

  lemma {:induction false} WholeEnough<M>(c: Codec<M>, ps: seq<Bytes>, synced: nat, n: nat)
    requires forall i :: 0 <= i < |ps| ==> Accepted(ps[i])
    requires synced <= |ps| && |Log(c, ps[..synced])| <= n
    ensures synced <= WholeFrames(c, ps, n)
  {
    if synced > 0 {
      assert ps[..synced][1..] == ps[1..][..synced - 1];
      WholeEnough(c, ps[1..], synced - 1, n - 8 - |ps[0]|);
    }
  }

  // ----- what a scan reads at an offset -----

  /** A clean file is the log of its entries; so is the valid prefix of any file. */
  lemma {:induction false} LogPrefix<M>(c: Codec<M>, bytes: Bytes)
    ensures var s := Scan(c, bytes);
            && s.validEnd <= |bytes|
            && Scan(c, bytes[..s.validEnd]) == Scanned(s.payloads, s.validEnd, CleanEof)
    decreases |bytes|
  {
    hide Scan, ReadHead;
    ScanUnfold(c, bytes);
    var s := Scan(c, bytes);
    var cut := bytes[..s.validEnd];
    match ReadHead(c, bytes)
    case Stopped(_) =>
      EmptyHead(c);
      assert cut == [];
      ScanUnfold(c, []);
    case Entry(p) =>
      var n := 8 + |p|;
      LogPrefix(c, bytes[n..]);
      assert cut[n..] == bytes[n..][..s.validEnd - n];
      SameHead(c, bytes, cut, p);
      ScanUnfold(c, cut);
  }

  lemma {:induction false} SameHead<M>(c: Codec<M>, bytes: Bytes, cut: Bytes, p: Bytes)
    requires ReadHead(c, bytes) == Entry(p) && 8 + |p| <= |cut| <= |bytes| && cut == bytes[..|cut|]
    ensures ReadHead(c, cut) == Entry(p)
  {
    assert FromLe32(cut) == FromLe32(bytes) && FromLe32(cut[4..]) == FromLe32(bytes[4..]);
    assert cut[8..8 + |p|] == bytes[8..8 + |p|];
  }

  lemma {:induction false} CleanHead<M>(c: Codec<M>, bytes: Bytes)
    requires ReadHead(c, bytes) == Stopped(CleanEof)
    ensures bytes == []
  {
  }

  lemma {:induction false} ExtendHead<M>(c: Codec<M>, bytes: Bytes, b: Bytes, q: Bytes)
    requires ReadHead(c, bytes) == Entry(q) && |bytes| <= |b| && bytes == b[..|bytes|]
    ensures ReadHead(c, b) == Entry(q)
  {
    HeadFits(c, bytes);
    assert FromLe32(b) == FromLe32(bytes) && FromLe32(b[4..]) == FromLe32(bytes[4..]);
    assert b[8..8 + |q|] == bytes[8..8 + |q|];
  }

  /** The payload of the entry that the scan reads at offset q, if it stops there. */
  function PayloadAt<M>(c: Codec<M>, bytes: Bytes, q: nat): Option<Bytes>
    decreases |bytes|
  {
    HeadFits(c, bytes);
    match ReadHead(c, bytes)
    case Stopped(_) => None
    case Entry(p) =>
      if q == 0 then Some(p)
      else if q < 8 + |p| then None
      else PayloadAt(c, bytes[8 + |p|..], q - 8 - |p|)
  }

  lemma {:induction false} PayloadAtUnfold<M>(c: Codec<M>, bytes: Bytes, q: nat)
    ensures ReadHead(c, bytes).Stopped? ==> PayloadAt(c, bytes, q) == None
    ensures ReadHead(c, bytes).Entry? ==>
              var p := ReadHead(c, bytes).payload;
              && 8 + |p| <= |bytes|
              && PayloadAt(c, bytes, q)
                 == if q == 0 then Some(p)
                    else if q < 8 + |p| then None
                    else PayloadAt(c, bytes[8 + |p|..], q - 8 - |p|)
  {
    HeadFits(c, bytes);
  }

  lemma {:induction false} PayloadAtIsScanned<M>(c: Codec<M>, bytes: Bytes, q: nat)
    requires PayloadAt(c, bytes, q).Some?
    ensures PayloadAt(c, bytes, q).value in Scan(c, bytes).payloads
    decreases |bytes|
  {
    hide Scan, ReadHead, PayloadAt;
    ScanUnfold(c, bytes);
    PayloadAtUnfold(c, bytes, q);
    var p := ReadHead(c, bytes).payload;
    if q > 0 { PayloadAtIsScanned(c, bytes[8 + |p|..], q - 8 - |p|); }
  }

  lemma {:induction false} PayloadAtFits<M>(c: Codec<M>, bytes: Bytes, q: nat)
    requires PayloadAt(c, bytes, q).Some?
    ensures var p, end := PayloadAt(c, bytes, q).value, Scan(c, bytes).validEnd;
            && Accepted(p) && q + 8 + |p| <= end <= |bytes|
            && bytes[q..q + 8 + |p|] == Frame(c, p)
    decreases |bytes|
  {
    hide Scan, ReadHead, PayloadAt, Frame;
    ScanUnfold(c, bytes);
    PayloadAtUnfold(c, bytes, q);
    HeadIsFrame(c, bytes);
    var n := 8 + |ReadHead(c, bytes).payload|;
    if q == 0 {
      assert bytes[0..n] == bytes[..n];
    } else {
      PayloadAtFits(c, bytes[n..], q - n);
      var p := PayloadAt(c, bytes, q).value;
      assert bytes[q..q + 8 + |p|] == bytes[n..][q - n..q - n + 8 + |p|];
    }
  }

  predicate Whole<M>(c: Codec<M>, bytes: Bytes) { Scan(c, bytes).stop == CleanEof }

  /** Whatever follows, a frame is read back exactly when what stands before it is
      whole; behind a torn frame it is not, whatever the checksums are. */
  lemma {:induction false} FrameReadExactly<M>(c: Codec<M>, before: Bytes, p: Bytes, after: Bytes)
    requires Accepted(p)
    ensures PayloadAt(c, before + Frame(c, p) + after, |before|) == if Whole(c, before) then Some(p) else None
    decreases |before|
  {
    hide Scan, ReadHead, PayloadAt, Frame;
    var f := Frame(c, p);
    var bytes := before + f + after;
    ScanUnfold(c, before);
    PayloadAtUnfold(c, bytes, |before|);
    if before == [] {
      EmptyHead(c);
      assert bytes == f + after;
      FrameHead(c, p, after);
    } else if ReadHead(c, before).Entry? {
      var q := ReadHead(c, before).payload;
      var n := 8 + |q|;
      assert before == bytes[..|before|];
      ExtendHead(c, before, bytes, q);
      assert bytes[n..] == before[n..] + f + after;
      FrameReadExactly(c, before[n..], p, after);
    } else {
      if ReadHead(c, before) == Stopped(CleanEof) { CleanHead(c, before); }
      if ReadHead(c, bytes).Entry? && 8 + |ReadHead(c, bytes).payload| <= |before| {
        SameHead(c, bytes, before, ReadHead(c, bytes).payload);
      }
    }
  }

  /** A frame broken off anywhere leaves a whole log torn and what it held readable. */
  lemma {:induction false} TornFrame<M>(c: Codec<M>, before: Bytes, p: Bytes, k: nat)
    requires Whole(c, before) && Accepted(p) && k < 8 + |p|
    ensures var s := Scan(c, before + Frame(c, p)[..k]);
            && s.payloads == Scan(c, before).payloads && s.validEnd == |before|
            && (s.stop == CleanEof <==> k == 0)
  {
    hide Scan, ReadHead, Frame;
    var ps, t := Scan(c, before).payloads, Frame(c, p)[..k];
    WholeIsLog(c, before);
    ScanLog(c, ps, t);
    PartialFrame(c, p, k);
    ScanUnfold(c, t);
    assert ps + [] == ps;
  }

  lemma {:induction false} WholeIsLog<M>(c: Codec<M>, bytes: Bytes)
    requires Whole(c, bytes)
    ensures var s := Scan(c, bytes);
            && s.validEnd == |bytes|
            && (forall i :: 0 <= i < |s.payloads| ==> Accepted(s.payloads[i]))
            && bytes == Log(c, s.payloads)
  {
    hide Scan, ReadHead, Log;
    ScanSound(c, bytes);
    var s := Scan(c, bytes);
    CleanHead(c, bytes[s.validEnd..]);
    assert bytes[..s.validEnd] == bytes;
  }

  /** An append to a whole log is the next entry replay reads. */
  lemma {:induction false} AppendReplayable<M>(c: Codec<M>, bytes: Bytes, p: Bytes)
    requires Whole(c, bytes) && Accepted(p)
    ensures Scan(c, bytes + Frame(c, p))
         == Scanned(Scan(c, bytes).payloads + [p], |bytes| + 8 + |p|, CleanEof)
  {
    hide Scan, ReadHead, Frame, Log;
    var ps, f := Scan(c, bytes).payloads, Frame(c, p);
    WholeIsLog(c, bytes);
    ScanLog(c, ps, f);
    assert f + [] == f;
    FrameHead(c, p, []);
    ScanUnfold(c, f);
    EmptyHead(c);
    ScanUnfold(c, []);
    assert [p] + [] == [p];
  }

  /** Enough bytes short, a torn frame hides everything appended behind it. */
  lemma {:induction false} HiddenBehindTorn<M>(c: Codec<M>, before: Bytes, p: Bytes, k: nat, tail: Bytes)
    requires Whole(c, before) && Accepted(p) && 8 <= k && k + |tail| < 8 + |p|
    ensures Scan(c, before + Frame(c, p)[..k] + tail).payloads == Scan(c, before).payloads
  {
    hide Scan, ReadHead, Frame, Log;
    var ps, t := Scan(c, before).payloads, Frame(c, p)[..k];
    WholeIsLog(c, before);
    ScanLog(c, ps, t + tail);
    assert before + t + tail == before + (t + tail);
    ShortHead(c, p, k, tail);
    ScanUnfold(c, t + tail);
    assert ps + [] == ps;
  }

  lemma {:induction false} ShortHead<M>(c: Codec<M>, p: Bytes, k: nat, tail: Bytes)
    requires Accepted(p) && 8 <= k && k + |tail| < 8 + |p|
    ensures ReadHead(c, Frame(c, p)[..k] + tail) == Stopped(Corruption)
  {
    var b := Frame(c, p)[..k] + tail;
    Le32RoundTrip(|p|);
    assert b[..4] == Le32(|p|);
    assert FromLe32(b) == FromLe32(b[..4]);
  }

  // ----- the log as an object -----

  /** `content` is the file followed by what the `BufWriter` still holds; `synced` of
      its bytes are known to be on disk, so a crash leaves a prefix no shorter. `size`
      is the running count that only successful appends advance. */
  datatype LogState = LogState(
    content: Bytes, synced: nat, size: nat, pendingValidPrefix: Option<nat>, poisoned: bool)

  const EMPTY: LogState := LogState([], 0, 0, None, false)

  /** How an append's writes end: `Broken(k)` after k bytes of the frame. */
  datatype AppendIo = Written | Broken(accepted: nat)

  datatype TruncateFault = NoTruncateFault | BeforeZeroing | AfterZeroing(poisons: bool)

  datatype TruncateResult = Truncated | Intact | ZeroedWithError

  function Least(a: nat, b: nat): nat { if a < b then a else b }

  /** The bytes that a broken append leaves behind: part of a frame and never all. */
  function TornPart<M>(c: Codec<M>, p: Bytes, k: nat): Bytes
    requires Accepted(p)
  {
    Frame(c, p)[..Least(k, 7 + |p|)]
  }

  function AppendTo<M>(c: Codec<M>, l: LogState, p: Bytes, io: AppendIo): (LogState, bool) {
    if l.poisoned || l.pendingValidPrefix.Some? || !Accepted(p) then (l, false)
    else
      match io
      case Written => (l.(content := l.content + Frame(c, p), size := l.size + 8 + |p|), true)
      case Broken(k) => (l.(content := l.content + TornPart(c, p, k)), false)
  }

  function SyncTo(l: LogState, ok: bool): (LogState, bool) {
    if l.poisoned || !ok then (l, false) else (l.(synced := |l.content|), true)
  }

  function TruncateTo(l: LogState, f: TruncateFault): (LogState, TruncateResult) {
    if l.poisoned then (l, ZeroedWithError)
    else
      match f
      case NoTruncateFault => (EMPTY, Truncated)
      case BeforeZeroing => (l, Intact)
      case AfterZeroing(poisons) =>
        (EMPTY.(pendingValidPrefix := l.pendingValidPrefix, poisoned := poisons), ZeroedWithError)
  }

  /** `open_existing`: a torn header is trimmed; a corrupt tail is kept, and blocks
      appends until it is reset. */
  function OpenOn<M>(c: Codec<M>, bytes: Bytes, durable: nat): LogState {
    var s := Scan(c, bytes);
    match s.stop
    case TornTail => LogState(bytes[..s.validEnd], s.validEnd, s.validEnd, None, false)
    case Corruption => LogState(bytes, Least(durable, |bytes|), |bytes|, Some(s.validEnd), false)
    case CleanEof => LogState(bytes, Least(durable, |bytes|), |bytes|, None, false)
  }

  function ResetTo(l: LogState): LogState {
    match l.pendingValidPrefix
    case None => l
    case Some(end) =>
      if end < |l.content| then LogState(l.content[..end], end, end, None, l.poisoned)
      else l.(size := |l.content|, pendingValidPrefix := None)
  }

  /** Opening and resetting leave the whole part of the file and nothing else. */
  lemma {:induction false} ReopenedIsWhole<M>(c: Codec<M>, bytes: Bytes, durable: nat)
    ensures var l, s := ResetTo(OpenOn(c, bytes, durable)), Scan(c, bytes);
            && s.validEnd <= |bytes| && l.content == bytes[..s.validEnd]
            && Scan(c, l.content) == Scanned(s.payloads, s.validEnd, CleanEof)
            && l.pendingValidPrefix.None? && !l.poisoned && l.size == |l.content|
            && Least(durable, s.validEnd) <= l.synced <= |l.content|
  {
    hide Scan, ReadHead;
    LogPrefix(c, bytes);
    ScanSound(c, bytes);
    var s := Scan(c, bytes);
    if s.stop == CleanEof { WholeIsLog(c, bytes); assert bytes[..s.validEnd] == bytes; }
  }

  class WriteAheadLog<M> {
    const codec: Codec<M>
    var content: Bytes
    var synced: nat
    var size: nat
    var pendingValidPrefix: Option<nat>
    var poisoned: bool

    function Snapshot(): LogState
      reads this
    {
      LogState(content, synced, size, pendingValidPrefix, poisoned)
    }

    constructor (codec: Codec<M>, l: LogState)
      ensures this.codec == codec && Snapshot() == l
    {
      this.codec := codec;
      content, synced, size := l.content, l.synced, l.size;
      pendingValidPrefix, poisoned := l.pendingValidPrefix, l.poisoned;
    }

    constructor OpenExisting(codec: Codec<M>, bytes: Bytes, durable: nat)
      ensures this.codec == codec && Snapshot() == OpenOn(codec, bytes, durable)
      ensures pendingValidPrefix.None? <==> Scan(codec, bytes).stop != Corruption
      ensures pendingValidPrefix.None? ==> Whole(codec, content)
      ensures Scan(codec, content).payloads == Scan(codec, bytes).payloads
    {
      hide Scan;
      this.codec := codec;
      var end, stop := ScanValidPrefix(codec, bytes);
      LogPrefix(codec, bytes);
      poisoned := false;
      if stop == TornTail {
        content, synced, size, pendingValidPrefix := bytes[..end], end, end, None;
      } else {
        content, synced, size := bytes, Least(durable, |bytes|), |bytes|;
        pendingValidPrefix := if stop == Corruption then Some(end) else None;
      }
    }

    /** Trims a corrupt tail away; every entry that can be read stays. */
    method ResetToValidPrefix()
      requires pendingValidPrefix.Some? ==> pendingValidPrefix.value == Scan(codec, content).validEnd
      modifies this
      ensures Snapshot() == ResetTo(old(Snapshot()))
      ensures pendingValidPrefix.None? && Scan(codec, content).payloads == Scan(codec, old(content)).payloads
      ensures old(pendingValidPrefix).Some? ==> Whole(codec, content)
    {
      hide Scan;
      if pendingValidPrefix.Some? {
        var end := pendingValidPrefix.value;
        LogPrefix(codec, content);
        if end < |content| {
          content, synced, size := content[..end], end, end;
        } else {
          assert content[..end] == content;
          size := |content|;
        }
        pendingValidPrefix := None;
      }
    }

    /** An accepted entry is read back at its place exactly if the log was whole; a
        broken one leaves part of a frame. */
    method Append(p: Bytes, io: AppendIo) returns (ok: bool)
      modifies this
      ensures (Snapshot(), ok) == AppendTo(codec, old(Snapshot()), p, io)
      ensures old(content) <= content && synced == old(synced)
      ensures ok ==> (PayloadAt(codec, content, |old(content)|) == Some(p) <==> Whole(codec, old(content)))
      ensures !ok && Whole(codec, old(content)) ==> (Whole(codec, content) <==> content == old(content))
    {
      hide PayloadAt, Scan, Frame;
      if poisoned || pendingValidPrefix.Some? { return false; }
      if |p| > MAX_ENTRY_LENGTH { return false; }
      match io {
        case Written =>
          FrameReadExactly(codec, content, p, []);
          assert content + Frame(codec, p) + [] == content + Frame(codec, p);
          content := content + Frame(codec, p);
          size := size + 8 + |p|;
          return true;
        case Broken(k) =>
          if Whole(codec, content) { TornFrame(codec, content, p, Least(k, 7 + |p|)); }
          content := content + TornPart(codec, p, k);
          return false;
      }
    }

    method Sync(io: bool) returns (ok: bool)
      modifies this
      ensures (Snapshot(), ok) == SyncTo(old(Snapshot()), io)
    {
      if poisoned || !io { return false; }
      synced := |content|;
      return true;
    }

    method TruncateChecked(f: TruncateFault) returns (r: TruncateResult)
      modifies this
      ensures (Snapshot(), r) == TruncateTo(old(Snapshot()), f)
      ensures !old(poisoned) ==> (r == Intact ==> content == old(content)) && (r != Intact ==> content == [])
    {
      if poisoned { return ZeroedWithError; }
      match f {
        case BeforeZeroing => return Intact;
        case AfterZeroing(poisons) =>
          content, synced, size, poisoned := [], 0, 0, poisons;
          return ZeroedWithError;
        case NoTruncateFault =>
          content, synced, size, pendingValidPrefix := [], 0, 0, None;
          return Truncated;
      }
    }
  }
}
