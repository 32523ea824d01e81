/** Which failures count as the same one, and how a run's failures collapse to one
    entry each (`scripts/parity-failure-issue.py`).  Lower-casing and the digest are
    parameters. */
module TrackerFingerprint {
  import opened Prelude
  import opened TrackerText
  import opened TrackerBody
  import opened TrackerStore

  datatype Naming = Naming(lower: string -> string, digest: string -> string)

  function Norm(value: string, n: Naming): string { n.lower(Strip(value)) }

  function Norms(f: Failure, n: Naming): seq<string> {
    [Norm(f.scenario, n), Norm(f.workflow, n), Norm(f.target, n), Norm(f.component, n), Norm(f.kind, n)]
  }

  function Bars(fields: seq<string>): string {
    if fields == [] then "" else if |fields| == 1 then fields[0] else fields[0] + "|" + Bars(fields[1..])
  }

  function Payload(f: Failure, n: Naming): string { Bars(["v1"] + Norms(f, n)) }

  function Fingerprint(f: Failure, n: Naming): string { n.digest(Payload(f, n)) }

  predicate BarFree(fields: seq<string>) { forall k :: 0 <= k < |fields| ==> '|' !in fields[k] }

  /** A bar-free head is what stands before the first bar. */
  lemma {:induction false} HeadUnique(a: string, x: string, b: string, y: string)
    requires '|' !in a && '|' !in b && a + "|" + x == b + "|" + y
    ensures a == b && x == y
  {
    var s, t := a + "|" + x, b + "|" + y;
    assert s[|a|] == '|' && t[|b|] == '|';
    assert |a| == |b|;
    assert a == s[..|a|] && b == t[..|a|] && x == s[|a| + 1..] && y == t[|a| + 1..];
  }

  /** A field as the fingerprint sees it: no whitespace around it, lower case. */
  predicate SameField(v: string, w: string, n: Naming) { n.lower(Strip(v)) == n.lower(Strip(w)) }

  /** The five fields that identify a failure. */
  predicate SameFields(f: Failure, g: Failure, n: Naming) {
    && SameField(f.scenario, g.scenario, n) && SameField(f.workflow, g.workflow, n)
    && SameField(f.target, g.target, n) && SameField(f.component, g.component, n) && SameField(f.kind, g.kind, n)
  }

  predicate NoBar(value: string, n: Naming) { '|' !in n.lower(Strip(value)) }

  predicate NoBars(f: Failure, n: Naming) {
    NoBar(f.scenario, n) && NoBar(f.workflow, n) && NoBar(f.target, n) && NoBar(f.component, n) && NoBar(f.kind, n)
  }

  lemma {:induction false} NormsByField(f: Failure, g: Failure, n: Naming)
    ensures Norms(f, n) == Norms(g, n) <==> SameFields(f, g, n)
    ensures BarFree(Norms(f, n)) <==> NoBars(f, n)
  {
    hide Strip;
    var a, b := Norms(f, n), Norms(g, n);
    assert a == b <==> a[0] == b[0] && a[1] == b[1] && a[2] == b[2] && a[3] == b[3] && a[4] == b[4];
    if BarFree(a) { assert '|' !in a[0] && '|' !in a[1] && '|' !in a[2] && '|' !in a[3] && '|' !in a[4]; }
  }

  /** Payloads of bar-free failures agree exactly when scenario, workflow, target,
      component and kind do, each but for whitespace around it and case. */
  lemma {:induction false} PayloadExactly(f: Failure, g: Failure, n: Naming)
    requires NoBars(f, n) && NoBars(g, n)
    ensures Payload(f, n) == Payload(g, n) <==> SameFields(f, g, n)
  {
    hide Norms, Bars, NoBars, SameFields;
    NormsByField(f, g, n);
    NormsByField(g, f, n);
    var a, b := ["v1"] + Norms(f, n), ["v1"] + Norms(g, n);
    assert |Norms(f, n)| == 5 && |Norms(g, n)| == 5 by { FiveNorms(f, n); FiveNorms(g, n); }
    if Payload(f, n) == Payload(g, n) {
      BarsUnique(a, b);
      assert a[1..] == Norms(f, n) && b[1..] == Norms(g, n);
    }
  }

  // ----- whitespace around a field -----

  predicate Spaces(s: string) { forall i :: 0 <= i < |s| ==> IsSpace(s[i]) }

  lemma {:induction false} StripStartSpaces(a: string, s: string)
    requires Spaces(a)
    ensures StripStart(a + s) == StripStart(s)
  {
    if a == "" {
      assert a + s == s;
    } else {
      assert (a + s)[1..] == a[1..] + s;
      StripStartSpaces(a[1..], s);
    }
  }

  lemma {:induction false} StripEndSpaces(s: string, b: string)
    requires Spaces(b)
    ensures StripEnd(s + b) == StripEnd(s)
  {
    if b == "" {
      assert s + b == s;
    } else {
      var n := |b| - 1;
      assert (s + b)[..|s| + n] == s + b[..n] && (s + b)[|s| + n] == b[n];
      StripEndSpaces(s, b[..n]);
    }
  }

  /** Stripping takes the whitespace around a text and nothing else. */
  lemma {:induction false} StripExactly(a: string, s: string, b: string)
    requires Spaces(a) && Spaces(b) && (s != "" ==> !IsSpace(s[0]) && !IsSpace(s[|s| - 1]))
    ensures Strip(a + s + b) == s
    ensures IsSpace(' ') && IsSpace('\t') && IsSpace('\n') && IsSpace('\r')
  {
    assert a + s + b == a + (s + b);
    StripStartSpaces(a, s + b);
    if s == "" {
      assert s + b == b && b + "" == b;
      StripStartSpaces(b, "");
    } else {
      StripEndSpaces(s, b);
    }
  }

  lemma {:induction false} FiveNorms(f: Failure, n: Naming)
    ensures |Norms(f, n)| == 5
  {
  }

  /** The parts of a text between its bars. */
  function Parts(s: string): (r: seq<string>)
    ensures r != []
  {
    if s == "" then [""]
    else
      var more := Parts(s[1..]);
      if s[0] == '|' then [""] + more else [[s[0]] + more[0]] + more[1..]
  }

  /** The parts of all fields, one after another. */
  function AllParts(fields: seq<string>): seq<string> {
    if fields == [] then [] else Parts(fields[0]) + AllParts(fields[1..])
  }

  lemma {:induction false} PartsBarFree(s: string)
    ensures BarFree(Parts(s))
  {
    if s != "" { PartsBarFree(s[1..]); }
  }

  lemma {:induction false} BarsCons(x: string, rest: seq<string>)
    ensures Bars([x] + rest) == if rest == [] then x else x + "|" + Bars(rest)
  {
    assert ([x] + rest)[1..] == rest;
  }

  lemma {:induction false} BarsGrowHead(c: char, more: seq<string>)
    requires more != []
    ensures Bars([[c] + more[0]] + more[1..]) == [c] + Bars(more)
  {
    hide Bars;
    var x, rest := more[0], more[1..];
    assert more == [x] + rest;
    BarsCons([c] + x, rest);
    BarsCons(x, rest);
    assert [c] + x + "|" + Bars(rest) == [c] + (x + "|" + Bars(rest));
  }

  lemma {:induction false} BarsOfParts(s: string)
    ensures Bars(Parts(s)) == s
  {
    hide Bars;
    if s == "" {
      BarsCons("", []);
      assert [""] + [] == [""];
    } else {
      var more, c := Parts(s[1..]), s[0];
      BarsOfParts(s[1..]);
      assert s == [c] + s[1..];
      BarsCons("", more);
      BarsGrowHead(c, more);
      assert "" + "|" + s[1..] == "|" + s[1..];
    }
  }

  lemma {:induction false} BarsAppend(a: seq<string>, b: seq<string>)
    requires a != [] && b != []
    ensures Bars(a + b) == Bars(a) + "|" + Bars(b)
  {
    assert a == [a[0]] + a[1..];
    if |a| == 1 {
      assert a + b == [a[0]] + b;
      BarsCons(a[0], b);
    } else {
      BarsAppend(a[1..], b);
      assert a + b == [a[0]] + (a[1..] + b);
      BarsCons(a[0], a[1..] + b);
      BarsCons(a[0], a[1..]);
      assert a[0] + "|" + (Bars(a[1..]) + "|" + Bars(b)) == a[0] + "|" + Bars(a[1..]) + "|" + Bars(b);
    }
  }

  lemma {:induction false} BarsFlatten(fields: seq<string>)
    requires fields != []
    ensures AllParts(fields) != [] && Bars(AllParts(fields)) == Bars(fields) && BarFree(AllParts(fields))
  {
    hide Bars, Parts;
    var x, rest := fields[0], fields[1..];
    assert fields == [x] + rest;
    BarsOfParts(x);
    PartsBarFree(x);
    BarsCons(x, rest);
    if rest != [] {
      BarsFlatten(rest);
      BarsAppend(Parts(x), AllParts(rest));
    } else {
      assert Parts(x) + AllParts(rest) == Parts(x);
    }
  }

  /** Bar-free texts can be read off their joined form. */
  lemma {:induction false} BarsUnique(a: seq<string>, b: seq<string>)
    requires a != [] && b != [] && BarFree(a) && BarFree(b) && Bars(a) == Bars(b)
    ensures a == b
  {
    BarWithin(a);
    BarWithin(b);
    if |a| > 1 && |b| > 1 {
      HeadUnique(a[0], Bars(a[1..]), b[0], Bars(b[1..]));
      BarsUnique(a[1..], b[1..]);
      assert a == [a[0]] + a[1..] && b == [b[0]] + b[1..];
    }
  }

  lemma {:induction false} BarWithin(a: seq<string>)
    requires a != []
    ensures if |a| == 1 then Bars(a) == a[0] else '|' in Bars(a)
  {
    if |a| > 1 { assert (a[0] + "|" + Bars(a[1..]))[|a[0]|] == '|'; }
  }

  /** Payloads agree exactly when the normalised fields have the same parts between
      bars, wherever the fields begin and end. */
  lemma {:induction false} PayloadPartsExactly(f: Failure, g: Failure, n: Naming)
    ensures Payload(f, n) == Payload(g, n) <==> AllParts(Norms(f, n)) == AllParts(Norms(g, n))
  {
    hide Norms, Bars, Parts;
    FiveNorms(f, n);
    FiveNorms(g, n);
    var a, b := Norms(f, n), Norms(g, n);
    BarsFlatten(a);
    BarsFlatten(b);
    BarsCons("v1", a);
    BarsCons("v1", b);
    if Payload(f, n) == Payload(g, n) {
      HeadUnique("v1", Bars(a), "v1", Bars(b));
      BarsUnique(AllParts(a), AllParts(b));
    }
  }

  /** A bar inside a field lets two different failures share a payload: it does not
      matter on which side of a field boundary the text between two bars lies. */
  lemma {:induction false} BarsCollide(f: Failure, g: Failure, n: Naming, x: string, y: string, z: string)
    requires Norm(f.scenario, n) == x + "|" + y && Norm(f.workflow, n) == z
    requires Norm(g.scenario, n) == x && Norm(g.workflow, n) == y + "|" + z
    requires f.target == g.target && f.component == g.component && f.kind == g.kind
    ensures Norms(f, n) != Norms(g, n) && Payload(f, n) == Payload(g, n)
  {
    hide Norm;
    var rest := Norms(f, n)[2..];
    assert Norms(g, n)[2..] == rest;
    PayloadParts(f, n);
    PayloadParts(g, n);
    assert |Norms(f, n)[0]| > |Norms(g, n)[0]|;
    assert x + "|" + y + "|" + (z + "|" + Bars(rest)) == x + "|" + (y + "|" + z + "|" + Bars(rest));
  }

  lemma {:induction false} PayloadParts(f: Failure, n: Naming)
    ensures var norms := Norms(f, n);
            Payload(f, n) == "v1" + "|" + (norms[0] + "|" + (norms[1] + "|" + Bars(norms[2..])))
  {
    hide Norm;
    var norms := Norms(f, n);
    assert (["v1"] + norms)[1..] == norms;
    assert norms[1..][1..] == norms[2..];
    assert Bars(norms[1..]) == norms[1] + "|" + Bars(norms[2..]);
    assert Bars(norms) == norms[0] + "|" + Bars(norms[1..]);
  }

  // ----- one entry per fingerprint -----

  /** Assignment into an insertion-ordered dictionary. */
  function Upsert(d: seq<Entry>, e: Entry): seq<Entry> {
    if d == [] then [e]
    else if d[0].fingerprint == e.fingerprint then [e] + d[1..]
    else [d[0]] + Upsert(d[1..], e)
  }

  function Collapsed(failures: seq<Failure>, n: Naming): seq<Entry> {
    if failures == [] then []
    else
      var f := failures[|failures| - 1];
      Upsert(Collapsed(failures[..|failures| - 1], n), Entry(Fingerprint(f, n), f))
  }

  method Collapse(failures: seq<Failure>, n: Naming) returns (d: seq<Entry>)
    ensures d == Collapsed(failures, n)
  {
    d := [];
    var i := 0;
    while i < |failures|
      invariant i <= |failures| && d == Collapsed(failures[..i], n)
    {
      assert failures[..i + 1][..i] == failures[..i];
      d := Upsert(d, Entry(Fingerprint(failures[i], n), failures[i]));
      i := i + 1;
    }
    assert failures[..i] == failures;
  }

  function Prints(failures: seq<Failure>, n: Naming): seq<string> {
    if failures == [] then []
    else Prints(failures[..|failures| - 1], n) + [Fingerprint(failures[|failures| - 1], n)]
  }

  /** The keys in the order in which they first occur. */
  function FirstSeen(prints: seq<string>): seq<string> {
    if prints == [] then []
    else
      var init, p := FirstSeen(prints[..|prints| - 1]), prints[|prints| - 1];
      if p in init then init else init + [p]
  }

  function Keys(d: seq<Entry>): seq<string> {
    if d == [] then [] else [d[0].fingerprint] + Keys(d[1..])
  }

  predicate NoRepeats(keys: seq<string>) { forall i, j :: 0 <= i < j < |keys| ==> keys[i] != keys[j] }

  lemma {:induction false} KeysAt(d: seq<Entry>)
    ensures |Keys(d)| == |d| && forall i :: 0 <= i < |d| ==> Keys(d)[i] == d[i].fingerprint
  {
    if d != [] { KeysAt(d[1..]); }
  }

  lemma {:induction false} UpsertKeys(d: seq<Entry>, e: Entry)
    ensures Keys(Upsert(d, e)) == if e.fingerprint in Keys(d) then Keys(d) else Keys(d) + [e.fingerprint]
  {
    if d == [] {
      assert [e][1..] == [];
    } else if d[0].fingerprint == e.fingerprint {
      assert ([e] + d[1..])[1..] == d[1..];
    } else {
      UpsertKeys(d[1..], e);
      assert ([d[0]] + Upsert(d[1..], e))[1..] == Upsert(d[1..], e);
    }
  }

  lemma {:induction false} FirstSeenOnce(prints: seq<string>)
    ensures NoRepeats(FirstSeen(prints)) && forall p :: p in FirstSeen(prints) <==> p in prints
  {
    if prints != [] {
      FirstSeenOnce(prints[..|prints| - 1]);
      assert prints == prints[..|prints| - 1] + [prints[|prints| - 1]];
    }
  }

  lemma {:induction false} CollapsedKeys(failures: seq<Failure>, n: Naming)
    ensures Keys(Collapsed(failures, n)) == FirstSeen(Prints(failures, n))
  {
    hide Fingerprint;
    if failures != [] {
      var init, f := failures[..|failures| - 1], failures[|failures| - 1];
      CollapsedKeys(init, n);
      UpsertKeys(Collapsed(init, n), Entry(Fingerprint(f, n), f));
      assert Prints(failures, n)[..|Prints(init, n)|] == Prints(init, n);
    }
  }

  /** The failure last seen under a fingerprint. */
  function LastSeen(failures: seq<Failure>, p: string, n: Naming): Option<Failure> {
    if failures == [] then None
    else
      var f := failures[|failures| - 1];
      if Fingerprint(f, n) == p then Some(f) else LastSeen(failures[..|failures| - 1], p, n)
  }

  lemma {:induction false} UpsertMember(d: seq<Entry>, e: Entry, x: Entry)
    requires x in Upsert(d, e) && NoRepeats(Keys(d))
    ensures x == e || (x in d && x.fingerprint != e.fingerprint)
  {
    if d != [] {
      KeysAt(d);
      if d[0].fingerprint == e.fingerprint {
        if x in d[1..] { var i :| 1 <= i < |d| && d[i] == x; assert Keys(d)[0] != Keys(d)[i]; }
      } else if x in Upsert(d[1..], e) {
        KeysAt(d[1..]);
        assert Keys(d[1..]) == Keys(d)[1..];
        UpsertMember(d[1..], e, x);
      }
    }
  }

  /** One entry per distinct fingerprint, in first-seen order, holding what was seen
      last. */
  lemma {:induction false} CollapsedExactly(failures: seq<Failure>, n: Naming)
    ensures Keys(Collapsed(failures, n)) == FirstSeen(Prints(failures, n))
    ensures NoRepeats(Keys(Collapsed(failures, n)))
    ensures forall e :: e in Collapsed(failures, n) ==> LastSeen(failures, e.fingerprint, n) == Some(e.failure)
  {
    hide Fingerprint;
    CollapsedKeys(failures, n);
    FirstSeenOnce(Prints(failures, n));
    if failures != [] {
      var init, f := failures[..|failures| - 1], failures[|failures| - 1];
      CollapsedExactly(init, n);
      var e := Entry(Fingerprint(f, n), f);
      forall x | x in Collapsed(failures, n) ensures LastSeen(failures, x.fingerprint, n) == Some(x.failure) {
        UpsertMember(Collapsed(init, n), e, x);
      }
    }
  }

  ghost predicate Injective(n: Naming) { forall s, t :: n.digest(s) == n.digest(t) ==> s == t }

  lemma {:induction false} PrintsAt(failures: seq<Failure>, n: Naming)
    ensures |Prints(failures, n)| == |failures|
    ensures forall i :: 0 <= i < |failures| ==> Prints(failures, n)[i] == Fingerprint(failures[i], n)
  {
    hide Fingerprint;
    if failures != [] { PrintsAt(failures[..|failures| - 1], n); }
  }

  predicate AllBarFree(failures: seq<Failure>, n: Naming) {
    forall i :: 0 <= i < |failures| ==> NoBars(failures[i], n)
  }

  lemma {:induction false} LastSeenMember(failures: seq<Failure>, p: string, n: Naming)
    requires LastSeen(failures, p, n).Some?
    ensures LastSeen(failures, p, n).value in failures && Fingerprint(LastSeen(failures, p, n).value, n) == p
  {
    hide Fingerprint;
    if Fingerprint(failures[|failures| - 1], n) != p { LastSeenMember(failures[..|failures| - 1], p, n); }
  }

  /** With a digest free of collisions, failures that differ in one of the five fields
      get one entry each, and failures that agree in all five share one. */
  lemma {:induction false} OneEntryPerTuple(failures: seq<Failure>, n: Naming, i: nat)
    requires Injective(n) && AllBarFree(failures, n) && i < |failures|
    ensures exists k ::
              0 <= k < |Collapsed(failures, n)| && SameFields(Collapsed(failures, n)[k].failure, failures[i], n)
    ensures forall j, k :: 0 <= j < k < |Collapsed(failures, n)|
                       ==> !SameFields(Collapsed(failures, n)[j].failure, Collapsed(failures, n)[k].failure, n)
  {
    hide Norms, Payload, Collapsed, Prints, FirstSeen, Injective, SameFields, NoBars;
    var d := Collapsed(failures, n);
    CollapsedExactly(failures, n);
    KeysAt(d);
    PrintsAt(failures, n);
    FirstSeenOnce(Prints(failures, n));
    forall k | 0 <= k < |d|
      ensures d[k].failure in failures && Fingerprint(d[k].failure, n) == d[k].fingerprint
    {
      assert d[k] in d;
      LastSeenMember(failures, d[k].fingerprint, n);
    }
    var p := Fingerprint(failures[i], n);
    assert Prints(failures, n)[i] == p && p in Keys(d);
    var k :| 0 <= k < |d| && Keys(d)[k] == p;
    SameFingerprint(d[k].failure, failures[i], n);
    forall j, k | 0 <= j < k < |d| ensures !SameFields(d[j].failure, d[k].failure, n) {
      SameFingerprint(d[j].failure, d[k].failure, n);
      assert Keys(d)[j] != Keys(d)[k];
    }
  }

  lemma {:induction false} SameFingerprint(f: Failure, g: Failure, n: Naming)
    requires Injective(n) && NoBars(f, n) && NoBars(g, n)
    ensures Fingerprint(f, n) == Fingerprint(g, n) <==> SameFields(f, g, n)
  {
    hide Payload, SameFields, NoBars;
    PayloadExactly(f, g, n);
  }
}
