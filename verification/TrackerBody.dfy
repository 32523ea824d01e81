/** The body of a tracking issue as a document: which lines it has, and what
    stamping, clearing and refreshing do to it. */
module TrackerBody {
  import opened Prelude
  import opened TrackerText

  datatype Failure = Failure(scenario: string, workflow: string, target: string, component: string, kind: string)

  const OPEN: string := "<!-- PARITY-"

  function Short(fingerprint: string): string {
    if |fingerprint| <= 12 then fingerprint else fingerprint[..12]
  }

  function Marker(fingerprint: string): string { OPEN + "FAIL:" + Short(fingerprint) + " -->" }

  const INTRO: string := "Tracking recurring " + "parity failure " + "for epic #974."
  const FOOTER: string :=
    "_Filed by `scripts/" + "parity-failure-" + "issue.py` (issue " + "#1028). Not auto-" +
    "closed \U{2014} close manu" + "ally once resolved._"

  function Field(name: string, value: string): string { "- **" + name + ":** `" + value + "`" }

  function Label(name: string): string { "- **" + name + ":** " }

  function FieldText(name: string, value: string): string { Field(name, value) + "\n" }

  /** The body written for a new failure. */
  function IssueBody(f: Failure, fingerprint: string, url: string, time: string, tier: string, repro: string): string {
    Marker(fingerprint) + "\n\n" +
    INTRO + "\n\n" +
    "## Failing scenario\n" +
    FieldText("Scenario ID", f.scenario) +
    FieldText("Workflow", f.workflow) +
    FieldText("Test target", f.target) +
    FieldText("Component / fixture path", f.component) +
    FieldText("Failure class", f.kind) +
    FieldText("CI tier", tier) +
    FieldText("Fingerprint", "v1:" + fingerprint) + "\n" +
    LatestSection(url, time) + "\n" +
    "## Reproduction\n" +
    "```\n" + repro + "\n```\n\n" +
    FOOTER + "\n"
  }

  /** A tracking issue's body, part by part.  `spaced` says that the blank line
      under the latest failure is still there. */
  datatype Doc = Doc(
    failure: Failure, fingerprint: string, tier: string, repro: string,
    url: string, time: string, spaced: bool, resolved: Option<string>)

  function HeadLines(d: Doc): seq<string> {
    [Marker(d.fingerprint), "", INTRO, "", "## Failing scenario",
     Field("Scenario ID", d.failure.scenario),
     Field("Workflow", d.failure.workflow),
     Field("Test target", d.failure.target),
     Field("Component / fixture path", d.failure.component),
     Field("Failure class", d.failure.kind),
     Field("CI tier", d.tier),
     Field("Fingerprint", "v1:" + d.fingerprint), ""]
  }

  function LatestLines(d: Doc): seq<string> {
    ["## Latest failure", "- **Run:** " + d.url, "- **Observed:** " + d.time] + (if d.spaced then [""] else [])
  }

  function TailLines(d: Doc): seq<string> {
    ["## Reproduction", "```"] + SplitLines(d.repro + "\n") + ["```", "", FOOTER]
  }

  function OpenLines(d: Doc): seq<string> { HeadLines(d) + LatestLines(d) + TailLines(d) }

  function StampLines(d: Doc): seq<string> {
    match d.resolved
    case None => []
    case Some(url) => [ResolvedMarker(url)]
  }

  function Text(d: Doc): string { Unlines(OpenLines(d) + StampLines(d)) }

  // ----- texts that forge no marker -----

  predicate Quiet(s: string) { forall i :: 0 <= i < |s| ==> !IsBreak(s[i]) && s[i] != '<' }

  predicate Tame(s: string) { BreakFree(s) && !Contains(s, OPEN) }

  predicate TameFailure(f: Failure) {
    Tame(f.scenario) && Tame(f.workflow) && Tame(f.target) && Tame(f.component) && Tame(f.kind)
  }

  predicate TameDoc(d: Doc) {
    TameFailure(d.failure) && |d.fingerprint| >= 12 && Quiet(d.fingerprint) && Tame(d.tier) &&
    NewlinesOnly(d.repro) && !Contains(d.repro, OPEN) &&
    Quiet(d.url) && Quiet(d.time) && (d.resolved.Some? ==> Quiet(d.resolved.value))
  }

  predicate TameAll(lines: seq<string>) { forall k :: 0 <= k < |lines| ==> Tame(lines[k]) }

  lemma {:induction false} QuietAppend(a: string, b: string)
    requires Quiet(a) && Quiet(b)
    ensures Quiet(a + b)
  {
  }

  lemma {:induction false} QuietIntro()
    ensures Quiet(INTRO)
  {
    var a, b, c := "Tracking recurring ", "parity failure ", "for epic #974.";
    assert Quiet(a) && Quiet(b) && Quiet(c);
    QuietAppend(a, b);
    QuietAppend(a + b, c);
  }

  lemma {:induction false} QuietFooterStart()
    ensures Quiet("_Filed by `scripts/" + "parity-failure-" + "issue.py` (issue ")
  {
    var a, b, c := "_Filed by `scripts/", "parity-failure-", "issue.py` (issue ";
    assert Quiet(a) && Quiet(b) && Quiet(c);
    QuietAppend(a, b);
    QuietAppend(a + b, c);
  }

  lemma {:induction false} QuietFooterEnd()
    ensures Quiet("#1028). Not auto-") && Quiet("closed \U{2014} close manu") && Quiet("ally once resolved._")
  {
  }

  lemma {:induction false} QuietFooter()
    ensures Quiet(FOOTER) && FOOTER != ""
  {
    hide Quiet;
    QuietFooterStart();
    QuietFooterEnd();
    var a := "_Filed by `scripts/" + "parity-failure-" + "issue.py` (issue ";
    QuietAppend(a, "#1028). Not auto-");
    QuietAppend(a + "#1028). Not auto-", "closed \U{2014} close manu");
    QuietAppend(a + "#1028). Not auto-" + "closed \U{2014} close manu", "ally once resolved._");
  }

  lemma {:induction false} QuietTame(s: string)
    requires Quiet(s)
    ensures Tame(s)
  {
    if i :| 0 <= i <= |s| && At(s, OPEN, i) { AtChar(s, OPEN, i, 0); }
  }

  /** Text that holds a longer marker holds its opening. */
  lemma {:induction false} ContainsPrefix(s: string, p: string, q: string)
    requires Contains(s, p + q)
    ensures Contains(s, p)
  {
    var i :| 0 <= i <= |s| && At(s, p + q, i);
    assert s[i..i + |p|] == s[i..i + |p + q|][..|p|];
    assert At(s, p, i);
  }

  lemma {:induction false} FieldTame(name: string, value: string)
    requires Quiet(name) && Tame(value)
    ensures Tame(Field(name, value)) && EndsWith(Field(name, value), '`')
  {
    hide Contains;
    var a, b := "- **" + name + ":** ", value + "`";
    assert Quiet("- **") && Quiet(":** ");
    QuietAppend("- **", name);
    QuietAppend("- **" + name, ":** ");
    QuietTame(a);
    ContainsAround(value, "`", "", OPEN);
    EmptyContains(OPEN);
    assert value + "`" + "" == b;
    ContainsAround(a, "`", b, OPEN);
    assert Field(name, value) == a + "`" + b;
  }

  lemma {:induction false} ReproTame(repro: string)
    requires NewlinesOnly(repro) && !Contains(repro, OPEN)
    ensures TameAll(SplitLines(repro + "\n"))
    ensures Unlines(SplitLines(repro + "\n")) == repro + "\n"
  {
    hide SplitLines, Contains, Unlines;
    var s := repro + "\n";
    assert NewlinesOnly(s);
    SplitBreakFree(s);
    SplitJoin(s);
    EmptyContains(OPEN);
    assert repro + "\n" + "" == s;
    ContainsAround(repro, "\n", "", OPEN);
    OpenPlain();
    SplitContains(s, OPEN);
  }

  lemma {:induction false} OpenPlain()
    ensures forall c :: c in OPEN ==> !IsBreak(c)
  {
  }

  predicate HeadLine(line: string) { BreakFree(line) && !EndsWith(line, 'e') }

  lemma {:induction false} QuietMarkerTail(fingerprint: string)
    requires Quiet(fingerprint)
    ensures Quiet(Marker(fingerprint)[1..]) && Marker(fingerprint)[0] == '<' && EndsWith(Marker(fingerprint), '>')
  {
    var a, b, c := "!-- PARITY-", "FAIL:", " -->";
    assert Quiet(a) && Quiet(b) && Quiet(c);
    var s := Short(fingerprint);
    QuietAppend(a, b);
    QuietAppend(a + b, s);
    QuietAppend(a + b + s, c);
    assert OPEN[1..] == a;
    assert Marker(fingerprint)[1..] == a + b + s + c;
  }

  lemma {:induction false} MarkerLineFree(fingerprint: string)
    requires Quiet(fingerprint)
    ensures BreakFree(Marker(fingerprint)) && '\n' !in Marker(fingerprint)
  {
    QuietMarkerTail(fingerprint);
    var m := Marker(fingerprint);
    forall i | 0 <= i < |m| ensures !IsBreak(m[i]) { if i > 0 { assert m[i] == m[1..][i - 1]; } }
    assert IsBreak('\n');
  }

  /** The head's lines forge no marker after the first, and none ends like the
      latest-failure heading. */
  lemma {:induction false} HeadTame(d: Doc)
    requires TameDoc(d)
    ensures TameAll(HeadLines(d)[1..])
    ensures forall k :: 0 <= k < |HeadLines(d)| ==> HeadLine(HeadLines(d)[k])
  {
    hide Contains, Field, Marker, TameAll;
    var h := HeadLines(d);
    QuietMarkerTail(d.fingerprint);
    MarkerLineFree(d.fingerprint);
    QuietTame("");
    QuietIntro();
    QuietTame(INTRO);
    assert Quiet("## Failing scenario");
    QuietTame("## Failing scenario");
    assert EndsWith(INTRO, '.');
    FieldsTame(d);
    assert h[1..] == ["", INTRO, "", "## Failing scenario"] + h[5..12] + [""];
    TameFour("", INTRO, "", "## Failing scenario");
    TameAppend(["", INTRO, "", "## Failing scenario"], h[5..12]);
    TameOne("");
    TameAppend(["", INTRO, "", "## Failing scenario"] + h[5..12], [""]);
    forall k | 5 <= k < 12 ensures HeadLine(h[k]) { assert h[k] == h[5..12][k - 5]; }
  }

  lemma {:induction false} TameOne(a: string)
    requires Tame(a)
    ensures TameAll([a])
  {
  }

  lemma {:induction false} TameFour(a: string, b: string, c: string, d: string)
    requires Tame(a) && Tame(b) && Tame(c) && Tame(d)
    ensures TameAll([a, b, c, d])
  {
    hide Tame;
  }

  lemma {:induction false} TameAppend(a: seq<string>, b: seq<string>)
    requires TameAll(a) && TameAll(b)
    ensures TameAll(a + b)
  {
    hide Tame;
  }

  lemma {:induction false} FieldsTame(d: Doc)
    requires TameDoc(d)
    ensures TameAll(HeadLines(d)[5..12])
    ensures forall k :: 0 <= k < 7 ==> HeadLine(HeadLines(d)[5..12][k])
  {
    hide Contains, Field, Marker, EndsWith;
    FieldNamesQuiet();
    var f := d.failure;
    FieldTame("Scenario ID", f.scenario);
    FieldTame("Workflow", f.workflow);
    FieldTame("Test target", f.target);
    FieldTame("Component / fixture path", f.component);
    FieldTame("Failure class", f.kind);
    FieldTame("CI tier", d.tier);
    assert Quiet("v1:");
    QuietAppend("v1:", d.fingerprint);
    QuietTame("v1:" + d.fingerprint);
    FieldTame("Fingerprint", "v1:" + d.fingerprint);
    forall k | 0 <= k < 7 ensures HeadLine(HeadLines(d)[5..12][k]) && Tame(HeadLines(d)[5..12][k]) {
      var line := HeadLines(d)[5..12][k];
      assert EndsWith(line, '`') && Tame(line);
      NotBoth(line);
    }
  }

  lemma {:induction false} NotBoth(line: string)
    requires EndsWith(line, '`')
    ensures !EndsWith(line, 'e')
  {
  }

  lemma {:induction false} FieldNamesQuiet()
    ensures Quiet("Scenario ID") && Quiet("Workflow") && Quiet("Test target")
    ensures Quiet("Component / fixture path") && Quiet("Failure class") && Quiet("CI tier") && Quiet("Fingerprint")
  {
  }

  lemma {:induction false} LatestTame(d: Doc)
    requires TameDoc(d)
    ensures TameAll(LatestLines(d))
  {
    var a, b, c := "## Latest failure", "- **Run:** ", "- **Observed:** ";
    assert Quiet(a) && Quiet(b) && Quiet(c);
    QuietAppend(b, d.url);
    QuietAppend(c, d.time);
    QuietTame(a);
    QuietTame(b + d.url);
    QuietTame(c + d.time);
    QuietTame("");
  }

  lemma {:induction false} TailTame(d: Doc)
    requires TameDoc(d)
    ensures TameAll(TailLines(d))
  {
    hide Contains, TameAll;
    assert Quiet("## Reproduction") && Quiet("```");
    QuietFooter();
    QuietTame("");
    QuietTame("```");
    QuietTame("## Reproduction");
    QuietTame(FOOTER);
    ReproTame(d.repro);
    var r := SplitLines(d.repro + "\n");
    assert TameAll(["## Reproduction", "```"]) && TameAll(["```", "", FOOTER]) by { TameShort(); }
    TameAppend(["## Reproduction", "```"], r);
    TameAppend(["## Reproduction", "```"] + r, ["```", "", FOOTER]);
  }

  lemma {:induction false} TameShort()
    requires Tame("") && Tame("```") && Tame("## Reproduction") && Tame(FOOTER)
    ensures TameAll(["## Reproduction", "```"]) && TameAll(["```", "", FOOTER])
  {
    hide Tame;
  }

  // ----- what the edits do to a document -----

  /** Every line after the marker, up to the stamp, forges nothing. */
  lemma {:induction false} OpenTame(d: Doc)
    requires TameDoc(d)
    ensures |OpenLines(d)| > 1
    ensures TameAll(OpenLines(d)[1..]) && OpenLines(d)[0] == Marker(d.fingerprint)
    ensures AllBreakFree(OpenLines(d)) && OpenLines(d)[|OpenLines(d)| - 1] == FOOTER
  {
    hide Contains, Marker, SplitLines;
    HeadTame(d);
    LatestTame(d);
    TailTame(d);
    MarkerLineFree(d.fingerprint);
    var h, l, t := HeadLines(d), LatestLines(d), TailLines(d);
    assert (h + l + t)[1..] == h[1..] + l + t;
    TameAppend(h[1..], l);
    TameAppend(h[1..] + l, t);
    var o := OpenLines(d);
    forall k | 0 <= k < |o| ensures BreakFree(o[k]) { if k > 0 { assert o[k] == o[1..][k - 1]; } }
  }

  lemma {:induction false} QuietFree(s: string)
    requires Quiet(s)
    ensures BreakFree(s) && NewlineFree(s)
  {
    assert IsBreak('\n');
  }

  const RESOLVED_TAIL: string := "RESOLVED:"

  lemma {:induction false} ResolvedOpen()
    ensures RESOLVED == OPEN + RESOLVED_TAIL
  {
  }

  /** The marker of a failure is not a resolved marker. */
  lemma {:induction false} MarkerNotResolved(fingerprint: string)
    requires Quiet(fingerprint)
    ensures !Contains(Marker(fingerprint), RESOLVED)
  {
    var m := Marker(fingerprint);
    if i :| 0 <= i <= |m| && At(m, RESOLVED, i) {
      QuietMarkerTail(fingerprint);
      AtChar(m, RESOLVED, i, 0);
      AtChar(m, RESOLVED, i, 12);
    }
  }

  lemma {:induction false} OpenUnresolved(d: Doc)
    requires TameDoc(d)
    ensures !SomeContains(OpenLines(d), RESOLVED)
  {
    hide Contains, Marker, SplitLines, OpenLines;
    OpenTame(d);
    MarkerNotResolved(d.fingerprint);
    ResolvedOpen();
    var o := OpenLines(d);
    forall k | 0 <= k < |o| ensures !Contains(o[k], RESOLVED) {
      if k > 0 {
        assert o[k] == o[1..][k - 1];
        if Contains(o[k], RESOLVED) { ContainsPrefix(o[k], OPEN, RESOLVED_TAIL); }
      }
    }
  }

  lemma {:induction false} StampContains(url: string)
    ensures Contains(ResolvedMarker(url), RESOLVED)
  {
    MarkerIsMarkerLine(url);
    MarkerLineContains(ResolvedMarker(url));
  }

  /** The body reads as resolved exactly when it carries the stamp. */
  lemma {:induction false} ResolvedIffStamped(d: Doc)
    requires TameDoc(d)
    ensures IsResolved(Text(d)) <==> d.resolved.Some?
  {
    hide Contains, OpenLines, Unlines, ResolvedMarker;
    var lines := OpenLines(d) + StampLines(d);
    ResolvedPlain();
    OpenUnresolved(d);
    UnlinesContains(lines, RESOLVED);
    match d.resolved
    case None => assert lines == OpenLines(d);
    case Some(url) =>
      StampContains(url);
      assert lines[|OpenLines(d)|] == ResolvedMarker(url);
  }

  function Cleared(d: Doc): Doc { d.(resolved := None) }

  function Stamped(d: Doc, url: string): Doc { d.(resolved := Some(url)) }

  function Refreshed(d: Doc, url: string, time: string): Doc { d.(url := url, time := time, spaced := false) }

  lemma {:induction false} ClearText(d: Doc)
    requires TameDoc(d)
    ensures ClearResolved(Text(d)) == Text(Cleared(d))
  {
    hide Contains, OpenLines, Unlines, ResolvedMarker, Join;
    ResolvedIffStamped(d);
    var o := OpenLines(d);
    assert OpenLines(Cleared(d)) == o by { SameOpen(d, d.resolved, None); }
    assert o + [] == o;
    if d.resolved.Some? {
      OpenTame(d);
      OpenUnresolved(d);
      QuietFooter();
      QuietFree(d.resolved.value);
      assert StampLines(d) == [ResolvedMarker(d.resolved.value)];
      assert o[|o| - 1] != "";
      ClearUnlines(o, d.resolved.value);
      assert ClearResolved(Text(d)) == Unlines(o);
      assert StampLines(Cleared(d)) == [];
    }
  }

  lemma {:induction false} SameOpen(d: Doc, a: Option<string>, b: Option<string>)
    ensures OpenLines(d.(resolved := a)) == OpenLines(d.(resolved := b))
  {
    hide Marker, Field, SplitLines;
  }

  lemma {:induction false} StampText(d: Doc, url: string)
    requires TameDoc(d) && Quiet(url)
    ensures SetResolved(Text(d), url) == Text(Stamped(d, url))
  {
    hide Contains, OpenLines, Unlines, ResolvedMarker, Join, IsResolved, ClearResolved;
    var c := Cleared(d);
    ClearText(d);
    ResolvedIffStamped(c);
    SetCleared(Text(d), url);
    assert OpenLines(c) == OpenLines(d) == OpenLines(Stamped(d, url)) by {
      SameOpen(d, d.resolved, None);
      SameOpen(d, d.resolved, Some(url));
    }
    var o := OpenLines(d);
    assert o + [] == o;
    OpenTame(d);
    SplitUnlines(o);
    UnlinesNewlinesOnly(o);
    SetUnlines(Text(c), url);
  }

  lemma {:induction false} UnlinesNewlinesOnly(lines: seq<string>)
    requires AllBreakFree(lines)
    ensures NewlinesOnly(Unlines(lines))
  {
    if lines != [] { UnlinesNewlinesOnly(lines[1..]); }
  }

  /** No line of the head ends like the latest-failure heading. */
  lemma {:induction false} HeadEnds(lines: seq<string>, p: nat)
    requires forall k :: 0 <= k < |lines| ==> HeadLine(lines[k])
    requires 0 < p < |Unlines(lines)| && Unlines(lines)[p] == '\n'
    ensures Unlines(lines)[p - 1] != 'e'
  {
    var a, rest := lines[0], Unlines(lines[1..]);
    assert p < |a| ==> !IsBreak(a[p]);
    if p > |a| + 1 { HeadEnds(lines[1..], p - |a| - 1); }
  }

  lemma {:induction false} HeadFirst(d: Doc)
    requires TameDoc(d)
    ensures FirstLatest(Unlines(HeadLines(d)))
  {
    hide Unlines, HeadLines, HeadLine, TameDoc;
    HeadTame(d);
    var pre := Unlines(HeadLines(d));
    forall i | 0 <= i < |pre| ensures !At(pre + LATEST, LATEST, i) {
      if At(pre + LATEST, LATEST, i) {
        AtChar(pre + LATEST, LATEST, i, 17);
        AtChar(pre + LATEST, LATEST, i, 16);
        if i + 17 < |pre| { HeadEnds(HeadLines(d), i + 17); }
        else { LatestOneNewline(i + 17 - |pre|); }
      }
    }
  }

  lemma {:induction false} LatestOneNewline(j: nat)
    requires j < 17
    ensures LATEST[j] != '\n'
  {
  }

  function Gap(d: Doc): string { if d.spaced then "\n" else "" }

  lemma {:induction false} TextParts(d: Doc)
    ensures Text(d) == Unlines(HeadLines(d)) + LatestSection(d.url, d.time) + Gap(d)
                     + Unlines(TailLines(d) + StampLines(d))
  {
    hide HeadLines, TailLines, StampLines, LatestSection, LatestLines, Unlines, Gap;
    var h, l, t := HeadLines(d), LatestLines(d), TailLines(d) + StampLines(d);
    assert OpenLines(d) + StampLines(d) == h + l + t;
    UnlinesAppend(h, l);
    UnlinesAppend(h + l, t);
    LatestParts(d);
    assert Unlines(h) + (LatestSection(d.url, d.time) + Gap(d)) == Unlines(h) + LatestSection(d.url, d.time) + Gap(d);
  }

  lemma {:induction false} LatestParts(d: Doc)
    ensures Unlines(LatestLines(d)) == LatestSection(d.url, d.time) + Gap(d)
  {
    var a, b, c := "## Latest failure", "- **Run:** " + d.url, "- **Observed:** " + d.time;
    OneLine(a);
    OneLine(b);
    OneLine(c);
    OneLine("");
    var g := if d.spaced then [""] else [];
    assert LatestLines(d) == [a] + [b] + [c] + g;
    UnlinesAppend([a], [b]);
    UnlinesAppend([a] + [b], [c]);
    UnlinesAppend([a] + [b] + [c], g);
    assert a + "\n" == LATEST;
    assert b + "\n" + (c + "\n") == LatestFields(d.url, d.time);
    assert LATEST + (b + "\n") + (c + "\n") == LATEST + LatestFields(d.url, d.time);
    assert Unlines(g) == Gap(d);
  }

  lemma {:induction false} TailHeading(d: Doc)
    ensures HeadingOrEnd(Unlines(TailLines(d) + StampLines(d))) && Unlines(TailLines(d) + StampLines(d)) != ""
  {
    hide SplitLines;
    var t := TailLines(d) + StampLines(d);
    assert t[0] == "## Reproduction";
    var s := Unlines(t);
    assert s[0..3] == "## ";
  }

  lemma {:induction false} RefreshText(d: Doc, url: string, time: string)
    requires TameDoc(d)
    ensures Refresh(Text(d), url, time) == Text(Refreshed(d, url, time))
  {
    hide FirstLatest, HeadingOrEnd, Unlines, Refresh, HeadLines, TailLines, StampLines, LatestSection, Text;
    var e := Refreshed(d, url, time);
    var pre, tail := Unlines(HeadLines(d)), Unlines(TailLines(d) + StampLines(d));
    HeadFirst(d);
    TailHeading(d);
    QuietFree(d.url);
    QuietFree(d.time);
    TextParts(d);
    TextParts(e);
    assert HeadLines(e) == HeadLines(d) && TailLines(e) == TailLines(d) && StampLines(e) == StampLines(d) by {
      RefreshedParts(d, url, time);
    }
    RefreshSection(pre, d.url, d.time, Gap(d), tail, url, time);
    assert pre + LatestSection(url, time) + "" == pre + LatestSection(url, time);
  }

  lemma {:induction false} RefreshedParts(d: Doc, url: string, time: string)
    ensures var e := Refreshed(d, url, time);
            HeadLines(e) == HeadLines(d) && TailLines(e) == TailLines(d) && StampLines(e) == StampLines(d)
  {
    hide Marker, Field, SplitLines;
  }

  /** Clearing the stamp and refreshing the section commute. */
  lemma {:induction false} ClearRefreshCommute(d: Doc, url: string, time: string)
    requires TameDoc(d) && Quiet(url) && Quiet(time)
    ensures ClearResolved(Refresh(Text(d), url, time)) == Refresh(ClearResolved(Text(d)), url, time)
  {
    hide Text, ClearResolved, Refresh;
    RefreshText(d, url, time);
    ClearText(Refreshed(d, url, time));
    ClearText(d);
    RefreshText(Cleared(d), url, time);
  }

  /** A new issue's body is the document of its failure. */
  lemma {:induction false} NewText(f: Failure, fingerprint: string, url: string, time: string, tier: string,
      repro: string)
    requires NewlinesOnly(repro) && !Contains(repro, OPEN)
    ensures IssueBody(f, fingerprint, url, time, tier, repro)
         == Text(Doc(f, fingerprint, tier, repro, url, time, true, None))
  {
    hide Marker, Field, LatestSection, Contains, Text, HeadLines, TailLines, SplitLines;
    var d := Doc(f, fingerprint, tier, repro, url, time, true, None);
    TextParts(d);
    HeadText(d);
    TailText(d);
    assert TailLines(d) + StampLines(d) == TailLines(d);
    BodyParts(d);
  }

  function HeadPart(d: Doc): string {
    TopPart(d) +
    FieldText("Scenario ID", d.failure.scenario) +
    FieldText("Workflow", d.failure.workflow) +
    FieldText("Test target", d.failure.target) +
    FieldText("Component / fixture path", d.failure.component) +
    FieldText("Failure class", d.failure.kind) +
    FieldText("CI tier", d.tier) +
    FieldText("Fingerprint", "v1:" + d.fingerprint) + "\n"
  }

  lemma {:induction false} BodyParts(d: Doc)
    ensures IssueBody(d.failure, d.fingerprint, d.url, d.time, d.tier, d.repro)
         == HeadPart(d) + LatestSection(d.url, d.time) + "\n" +
            ("## Reproduction\n" + "```\n" + d.repro + "\n```\n\n" + FOOTER + "\n")
  {
    hide Marker, FieldText, LatestSection;
  }

  lemma {:induction false} Snoc(lines: seq<string>, line: string, before: string, after: string)
    requires Unlines(lines) == before && after == line + "\n"
    ensures Unlines(lines + [line]) == before + after
  {
    UnlinesAppend(lines, [line]);
    OneLine(line);
  }

  function TopPart(d: Doc): string {
    Marker(d.fingerprint) + "\n\n" + INTRO + "\n\n" + "## Failing scenario\n"
  }

  lemma {:induction false} TopText(d: Doc)
    ensures Unlines(HeadLines(d)[..5]) == TopPart(d)
  {
    hide Marker, Field, Unlines;
    var m := Marker(d.fingerprint);
    OneLine(m);
    Snoc([m], "", m + "\n", "\n");
    Snoc([m] + [""], INTRO, m + "\n" + "\n", INTRO + "\n");
    var t := m + "\n" + "\n" + (INTRO + "\n");
    Snoc([m] + [""] + [INTRO], "", t, "\n");
    Snoc([m] + [""] + [INTRO] + [""], "## Failing scenario", t + "\n", "## Failing scenario\n");
    assert HeadLines(d)[..5] == [m] + [""] + [INTRO] + [""] + ["## Failing scenario"];
    assert t + "\n" == m + "\n\n" + INTRO + "\n\n";
  }

  lemma {:induction false} HeadText(d: Doc)
    ensures Unlines(HeadLines(d)) == HeadPart(d)
  {
    hide Marker, Field, Unlines;
    var f, h, t := d.failure, HeadLines(d), TopPart(d);
    TopText(d);
    Snoc(h[..5], h[5], t, FieldText("Scenario ID", f.scenario));
    t := t + FieldText("Scenario ID", f.scenario);
    assert h[..6] == h[..5] + [h[5]];
    Snoc(h[..6], h[6], t, FieldText("Workflow", f.workflow));
    t := t + FieldText("Workflow", f.workflow);
    assert h[..7] == h[..6] + [h[6]];
    Snoc(h[..7], h[7], t, FieldText("Test target", f.target));
    t := t + FieldText("Test target", f.target);
    assert h[..8] == h[..7] + [h[7]];
    Snoc(h[..8], h[8], t, FieldText("Component / fixture path", f.component));
    t := t + FieldText("Component / fixture path", f.component);
    assert h[..9] == h[..8] + [h[8]];
    Snoc(h[..9], h[9], t, FieldText("Failure class", f.kind));
    t := t + FieldText("Failure class", f.kind);
    assert h[..10] == h[..9] + [h[9]];
    Snoc(h[..10], h[10], t, FieldText("CI tier", d.tier));
    t := t + FieldText("CI tier", d.tier);
    assert h[..11] == h[..10] + [h[10]];
    Snoc(h[..11], h[11], t, FieldText("Fingerprint", "v1:" + d.fingerprint));
    t := t + FieldText("Fingerprint", "v1:" + d.fingerprint);
    assert h[..12] == h[..11] + [h[11]];
    Snoc(h[..12], "", t, "\n");
    assert h == h[..12] + [""];
  }

  lemma {:induction false} TailText(d: Doc)
    requires NewlinesOnly(d.repro) && !Contains(d.repro, OPEN)
    ensures Unlines(TailLines(d)) == "## Reproduction\n" + "```\n" + d.repro + "\n```\n\n" + FOOTER + "\n"
  {
    hide SplitLines, Contains, Unlines;
    ReproTame(d.repro);
    var r, a := SplitLines(d.repro + "\n"), "## Reproduction\n";
    OneLine("## Reproduction");
    Snoc(["## Reproduction"], "```", a, "```\n");
    assert ["## Reproduction"] + ["```"] == ["## Reproduction", "```"];
    UnlinesAppend(["## Reproduction", "```"], r);
    var t := a + "```\n" + (d.repro + "\n");
    Snoc(["## Reproduction", "```"] + r, "```", t, "```\n");
    Snoc(["## Reproduction", "```"] + r + ["```"], "", t + "```\n", "\n");
    Snoc(["## Reproduction", "```"] + r + ["```"] + [""], FOOTER, t + "```\n" + "\n", FOOTER + "\n");
    assert TailLines(d) == ["## Reproduction", "```"] + r + ["```"] + [""] + [FOOTER];
    assert t + "```\n" + "\n" == a + "```\n" + d.repro + "\n```\n\n";
  }

  // ----- the fingerprint marker -----

  predicate IsFingerprint(s: string) { |s| >= 12 && Quiet(s) }

  lemma {:induction false} MarkerOpen(g: string)
    ensures Marker(g) == OPEN + ("FAIL:" + Short(g) + " -->")
  {
  }

  lemma {:induction false} MarkerInMarker(f: string, g: string)
    requires IsFingerprint(f) && IsFingerprint(g)
    ensures Contains(Marker(f), Marker(g)) <==> Short(f) == Short(g)
  {
    var a, b := Marker(f), Marker(g);
    assert |a| == |b|;
    assert Short(f) == a[17..29] && Short(g) == b[17..29];
    assert At(a, b, 0) <==> a == b by { assert a[0..|b|] == a; }
    if a != b { assert forall i: nat :: i > 0 ==> !At(a, b, i); }
  }

  lemma {:induction false} MarkerNotInStamp(url: string, g: string)
    requires Quiet(url)
    ensures !Contains(ResolvedMarker(url), Marker(g))
  {
    var m := ResolvedMarker(url);
    if i :| 0 <= i <= |m| && At(m, Marker(g), i) {
      StampTailQuiet(url);
      AtChar(m, Marker(g), i, 0);
      AtChar(m, Marker(g), i, 12);
    }
  }

  lemma {:induction false} StampTailQuiet(url: string)
    requires Quiet(url)
    ensures forall i :: 0 < i < |ResolvedMarker(url)| ==> ResolvedMarker(url)[i] != '<'
    ensures ResolvedMarker(url)[12] == 'R'
  {
    assert Quiet(RESOLVED[1..]) && Quiet(" -->");
    var m := ResolvedMarker(url);
    assert m[1..] == RESOLVED[1..] + url + " -->";
    QuietAppend(RESOLVED[1..], url);
    QuietAppend(RESOLVED[1..] + url, " -->");
    forall i | 0 < i < |m| ensures m[i] != '<' { assert m[i] == m[1..][i - 1]; }
  }

  /** In characters: the first twelve of the two digests agree. */
  lemma {:induction false} FoundByTwelveDigits(d: Doc, g: string)
    requires TameDoc(d) && IsFingerprint(d.fingerprint) && IsFingerprint(g)
    ensures Contains(Text(d), Marker(g)) <==> d.fingerprint[..12] == g[..12]
  {
    hide Contains, Marker, Text, TameDoc, Quiet;
    FoundIffSameMarker(d, g);
  }

  /** An issue is found by exactly the failures that share its twelve digits. */
  lemma {:induction false} FoundIffSameMarker(d: Doc, g: string)
    requires TameDoc(d) && IsFingerprint(g)
    ensures Contains(Text(d), Marker(g)) <==> Short(d.fingerprint) == Short(g)
  {
    hide Contains, Marker, OpenLines, Unlines, ResolvedMarker, Short;
    var o := OpenLines(d);
    var lines := o + StampLines(d);
    MarkerLineFree(g);
    assert Marker(g) != "" by { QuietMarkerTail(g); }
    UnlinesContains(lines, Marker(g));
    OpenTame(d);
    MarkerInMarker(d.fingerprint, g);
    assert lines[0] == Marker(d.fingerprint);
    forall k | 0 < k < |lines| ensures !Contains(lines[k], Marker(g)) {
      if k < |o| {
        assert lines[k] == o[1..][k - 1];
        MarkerOpen(g);
        if Contains(lines[k], Marker(g)) { ContainsPrefix(lines[k], OPEN, "FAIL:" + Short(g) + " -->"); }
      } else {
        MarkerNotInStamp(d.resolved.value, g);
      }
    }
  }

  // ----- the lane -----

  lemma {:induction false} ContainsInside(a: string, x: string, b: string, p: string)
    requires Contains(x, p)
    ensures Contains(a + x + b, p)
  {
    hide At;
    var i :| 0 <= i <= |x| && At(x, p, i);
    AtFits(x, p, i);
    AtRight(a, x, p, i);
    AtLeft(a + x, b, p, |a| + i);
  }

  /** The filter reaches an issue exactly when the lane's text lies within one line. */
  lemma {:induction false} LaneReachesLine(d: Doc, lane: string)
    requires lane != "" && NewlineFree(lane)
    ensures Contains(Text(d), lane) <==> SomeContains(OpenLines(d) + StampLines(d), lane)
  {
    hide Contains, OpenLines, StampLines, SomeContains, Unlines;
    UnlinesContains(OpenLines(d) + StampLines(d), lane);
  }

  /** What a workflow file's name is made of: nothing of the body's own punctuation. */
  predicate LaneName(lane: string) {
    lane != "" && NewlineFree(lane) && '`' !in lane && ' ' !in lane && ':' !in lane
  }

  /** The texts of the document that come from the failure and its runs. */
  predicate Mentions(d: Doc, lane: string) {
    Contains(d.failure.scenario, lane) || Contains(d.failure.workflow, lane) || Contains(d.failure.target, lane) ||
    Contains(d.failure.component, lane) || Contains(d.failure.kind, lane) || Contains(d.tier, lane) ||
    Contains(d.fingerprint, lane) || Contains(Short(d.fingerprint), lane) ||
    Contains(d.url, lane) || Contains(d.time, lane) || Contains(d.repro, lane) ||
    (d.resolved.Some? && Contains(d.resolved.value, lane))
  }

  /** The texts that every body has, cut where no lane's name can reach across. */
  function FixedTexts(): seq<string> {
    ["<!-- PARITY-FAIL", "-->", INTRO, "## Failing scenario",
     Label("Scenario ID"), Label("Workflow"), Label("Test target"), Label("Component / fixture path"),
     Label("Failure class"), Label("CI tier"), Label("Fingerprint"), "v1",
     "## Latest failure", "- **Run:**", "- **Observed:**", "## Reproduction", FOOTER]
  }

  predicate InFixedText(d: Doc, lane: string) {
    SomeContains(FixedTexts(), lane) || (d.resolved.Some? && Contains("<!-- PARITY-RESOLVED", lane))
  }

  lemma {:induction false} AroundChar(a: string, sep: char, b: string, lane: string)
    requires lane != "" && sep !in lane
    ensures Contains(a + [sep] + b, lane) <==> Contains(a, lane) || Contains(b, lane)
  {
    ContainsAround(a, [sep], b, lane);
  }

  lemma {:induction false} LaneInField(name: string, value: string, lane: string)
    requires LaneName(lane)
    ensures Contains(Field(name, value), lane) <==> Contains(Label(name), lane) || Contains(value, lane)
  {
    hide Contains;
    var a := "- **" + name + ":** ";
    AroundChar(value, '`', "", lane);
    EmptyContains(lane);
    AroundChar(a, '`', value + "`", lane);
    assert Field(name, value) == a + "`" + (value + "`" + "");
    assert value + "`" + "" == value + "`";
  }

  lemma {:induction false} LaneInFingerprint(fingerprint: string, lane: string)
    requires LaneName(lane)
    ensures Contains("v1:" + fingerprint, lane) <==> Contains("v1", lane) || Contains(fingerprint, lane)
  {
    hide Contains;
    AroundChar("v1", ':', fingerprint, lane);
    assert "v1:" + fingerprint == "v1" + ":" + fingerprint;
  }

  lemma {:induction false} LaneInMarker(fingerprint: string, lane: string)
    requires LaneName(lane)
    ensures Contains(Marker(fingerprint), lane) <==>
            Contains("<!-- PARITY-FAIL", lane) || Contains(Short(fingerprint), lane) || Contains("-->", lane)
  {
    hide Contains, Short;
    var s := Short(fingerprint);
    AroundChar(s, ' ', "-->", lane);
    AroundChar("<!-- PARITY-FAIL", ':', s + " -->", lane);
    assert s + " " + "-->" == s + " -->";
    assert Marker(fingerprint) == "<!-- PARITY-FAIL" + ":" + (s + " -->");
  }

  lemma {:induction false} LaneInStamp(url: string, lane: string)
    requires LaneName(lane)
    ensures Contains(ResolvedMarker(url), lane) <==>
            Contains("<!-- PARITY-RESOLVED", lane) || Contains(url, lane) || Contains("-->", lane)
  {
    hide Contains;
    AroundChar(url, ' ', "-->", lane);
    AroundChar("<!-- PARITY-RESOLVED", ':', url + " -->", lane);
    assert url + " " + "-->" == url + " -->";
    assert ResolvedMarker(url) == "<!-- PARITY-RESOLVED" + ":" + (url + " -->");
  }

  lemma {:induction false} LaneInLatest(d: Doc, lane: string)
    requires LaneName(lane)
    ensures SomeContains(LatestLines(d), lane) <==>
            Contains("## Latest failure", lane) || Contains("- **Run:**", lane) || Contains(d.url, lane) ||
            Contains("- **Observed:**", lane) || Contains(d.time, lane)
  {
    hide Contains, SomeContains;
    AroundChar("- **Run:**", ' ', d.url, lane);
    AroundChar("- **Observed:**", ' ', d.time, lane);
    var a, b, e := "## Latest failure", "- **Run:** " + d.url, "- **Observed:** " + d.time;
    assert b == "- **Run:**" + " " + d.url && e == "- **Observed:**" + " " + d.time;
    var gap := if d.spaced then [""] else [];
    EmptyContains(lane);
    NoneContains(lane);
    ConsContains("", [], lane);
    assert [""] + [] == [""] && !SomeContains(gap, lane);
    ConsContains(e, gap, lane);
    ConsContains(b, [e] + gap, lane);
    ConsContains(a, [b] + ([e] + gap), lane);
    assert LatestLines(d) == [a] + ([b] + ([e] + gap));
  }

  lemma {:induction false} AppendContains(a: seq<string>, b: seq<string>, p: string)
    ensures SomeContains(a + b, p) <==> SomeContains(a, p) || SomeContains(b, p)
  {
    hide Contains;
    if a == [] {
      NoneContains(p);
      assert a + b == b;
    } else {
      AppendContains(a[1..], b, p);
      ConsContains(a[0], a[1..] + b, p);
      ConsContains(a[0], a[1..], p);
      assert a + b == [a[0]] + (a[1..] + b) && a == [a[0]] + a[1..];
    }
  }

  lemma {:induction false} LaneInTail(d: Doc, lane: string)
    requires LaneName(lane) && NewlinesOnly(d.repro) && !Contains(d.repro, OPEN)
    ensures SomeContains(TailLines(d), lane) <==>
            Contains("## Reproduction", lane) || Contains(d.repro, lane) || Contains(FOOTER, lane)
  {
    hide Contains, SomeContains, SplitLines, Unlines;
    var r := SplitLines(d.repro + "\n");
    ReproTame(d.repro);
    UnlinesContains(r, lane);
    EmptyContains(lane);
    AroundChar(d.repro, '\n', "", lane);
    assert d.repro + "\n" + "" == d.repro + "\n";
    TicksContain(lane);
    NoneContains(lane);
    AppendContains(["## Reproduction", "```"] + r, ["```", "", FOOTER], lane);
    AppendContains(["## Reproduction", "```"], r, lane);
    assert ["## Reproduction", "```"] == ["## Reproduction"] + (["```"] + []);
    assert ["```", "", FOOTER] == ["```"] + ([""] + ([FOOTER] + []));
    ConsContains("```", [], lane);
    ConsContains("## Reproduction", ["```"] + [], lane);
    ConsContains(FOOTER, [], lane);
    ConsContains("", [FOOTER] + [], lane);
    ConsContains("```", [""] + ([FOOTER] + []), lane);
  }

  lemma {:induction false} TicksContain(lane: string)
    requires LaneName(lane)
    ensures !Contains("```", lane)
  {
    if i :| 0 <= i <= 3 && At("```", lane, i) { AtChar("```", lane, i, 0); }
  }

  lemma {:induction false} LaneInHead(d: Doc, lane: string)
    requires LaneName(lane)
    ensures var f := d.failure;
            SomeContains(HeadLines(d), lane) <==>
            (Contains(f.scenario, lane) || Contains(f.workflow, lane) || Contains(f.target, lane) ||
             Contains(f.component, lane) || Contains(f.kind, lane) || Contains(d.tier, lane) ||
             Contains(d.fingerprint, lane) || Contains(Short(d.fingerprint), lane) ||
             SomeContains(FixedTexts()[..12], lane))
  {
    hide Contains, SomeContains, Field, Label, Marker, Short;
    var f, h := d.failure, HeadLines(d);
    LaneInMarker(d.fingerprint, lane);
    LaneInField("Scenario ID", f.scenario, lane);
    LaneInField("Workflow", f.workflow, lane);
    LaneInField("Test target", f.target, lane);
    LaneInField("Component / fixture path", f.component, lane);
    LaneInField("Failure class", f.kind, lane);
    LaneInField("CI tier", d.tier, lane);
    LaneInField("Fingerprint", "v1:" + d.fingerprint, lane);
    LaneInFingerprint(d.fingerprint, lane);
    EmptyContains(lane);
    Fixed(h, FixedTexts()[..12], lane);
  }

  lemma {:induction false} Fixed(h: seq<string>, fixed: seq<string>, lane: string)
    requires |h| == 13 && |fixed| == 12
    ensures SomeContains(h, lane) <==>
            Contains(h[0], lane) || Contains(h[1], lane) || Contains(h[2], lane) || Contains(h[3], lane) ||
            Contains(h[4], lane) || Contains(h[5], lane) || Contains(h[6], lane) || Contains(h[7], lane) ||
            Contains(h[8], lane) || Contains(h[9], lane) || Contains(h[10], lane) || Contains(h[11], lane) ||
            Contains(h[12], lane)
    ensures SomeContains(fixed, lane) <==>
            Contains(fixed[0], lane) || Contains(fixed[1], lane) || Contains(fixed[2], lane) ||
            Contains(fixed[3], lane) || Contains(fixed[4], lane) || Contains(fixed[5], lane) ||
            Contains(fixed[6], lane) || Contains(fixed[7], lane) || Contains(fixed[8], lane) ||
            Contains(fixed[9], lane) || Contains(fixed[10], lane) || Contains(fixed[11], lane)
  {
    hide Contains;
  }

  /** A lane's filter reaches an issue exactly when the lane's name occurs in one of the
      failure's fields, the tier, the fingerprint, a link, a time, the reproduction, or
      in the fixed text of every body. */
  lemma {:induction false} LaneReachesExactly(d: Doc, lane: string)
    requires TameDoc(d) && LaneName(lane)
    ensures Contains(Text(d), lane) <==> Mentions(d, lane) || InFixedText(d, lane)
  {
    hide Contains, SomeContains, HeadLines, TailLines, LatestLines, Text, Short, ResolvedMarker;
    var h, l, t, st := HeadLines(d), LatestLines(d), TailLines(d), StampLines(d);
    LaneReachesLine(d, lane);
    AppendContains(h + l + t, st, lane);
    AppendContains(h + l, t, lane);
    AppendContains(h, l, lane);
    LaneInHead(d, lane);
    LaneInLatest(d, lane);
    LaneInTail(d, lane);
    NoneContains(lane);
    if d.resolved.Some? {
      LaneInStamp(d.resolved.value, lane);
      ConsContains(ResolvedMarker(d.resolved.value), [], lane);
      assert st == [ResolvedMarker(d.resolved.value)] + [];
    }
    RestOfFixed(lane);
  }

  lemma {:induction false} RestOfFixed(lane: string)
    ensures SomeContains(FixedTexts(), lane) <==>
            SomeContains(FixedTexts()[..12], lane) || Contains("## Latest failure", lane) ||
            Contains("- **Run:**", lane) || Contains("- **Observed:**", lane) ||
            Contains("## Reproduction", lane) || Contains(FOOTER, lane)
    ensures Contains("-->", lane) ==> SomeContains(FixedTexts(), lane)
  {
    hide Contains;
    var x := FixedTexts();
    assert x == x[..12] + x[12..];
    AppendContains(x[..12], x[12..], lane);
    assert x[12..] == ["## Latest failure", "- **Run:**", "- **Observed:**", "## Reproduction", FOOTER];
    var y := x[12..];
    assert SomeContains(y, lane) <==> Contains(y[0], lane) || Contains(y[1], lane) || Contains(y[2], lane) ||
                                      Contains(y[3], lane) || Contains(y[4], lane);
    assert x[1] == "-->";
  }

  /** The repository has a workflow file whose name is the end of another's: a green run
      of the first reaches the issues of the second. */
  lemma {:induction false} LaneCrosstalk(d: Doc)
    requires TameDoc(d) && d.failure.workflow == "live-cell-" + "compaction-parity.yml"
    ensures Contains(Text(d), "compaction-parity.yml") && d.failure.workflow != "compaction-parity.yml"
  {
    hide Contains, Text, Short;
    var lane := "compaction-parity.yml";
    assert LaneName(lane);
    SelfContains(lane);
    ContainsInside("live-cell-", lane, "", lane);
    assert "live-cell-" + lane + "" == d.failure.workflow;
    LaneReachesExactly(d, lane);
  }

  lemma {:induction false} SelfContains(s: string)
    ensures Contains(s, s)
  {
    assert s[0..|s|] == s;
    assert At(s, s, 0);
  }
}
