/** The body text of a parity-failure issue and the edits made to it
    (`scripts/parity-failure-issue.py`).  The text is the tracker's only state: a
    marker line says which failure the issue tracks, another that it is resolved. */
module TrackerText {
  import opened Prelude

  // ----- substrings (Python's `in` and `find`) -----

  predicate At(s: string, p: string, i: nat) { i + |p| <= |s| && s[i..i + |p|] == p }

  predicate Contains(s: string, p: string) { exists i :: 0 <= i <= |s| && At(s, p, i) }

  function Find(s: string, p: string, from: nat): (r: Option<nat>)
    ensures r.Some? ==> from <= r.value && At(s, p, r.value)
    ensures r.Some? ==> forall i :: from <= i < r.value ==> !At(s, p, i)
    ensures r.None? ==> forall i :: from <= i ==> !At(s, p, i)
    decreases |s| - from
  {
    if from + |p| > |s| then None
    else if At(s, p, from) then Some(from)
    else Find(s, p, from + 1)
  }

  predicate Avoids(s: string, p: string) { forall c :: c in s ==> c !in p }

  lemma {:induction false} AtLeft(a: string, b: string, p: string, i: nat)
    requires i + |p| <= |a|
    ensures At(a + b, p, i) <==> At(a, p, i)
  {
    assert (a + b)[i..i + |p|] == a[i..i + |p|];
  }

  lemma {:induction false} AtRight(a: string, b: string, p: string, i: nat)
    ensures At(a + b, p, |a| + i) <==> At(b, p, i)
  {
    if i + |p| <= |b| { assert (a + b)[|a| + i..|a| + i + |p|] == b[i..i + |p|]; }
  }

  lemma {:induction false} AtChar(s: string, p: string, i: nat, k: nat)
    requires At(s, p, i) && k < |p|
    ensures s[i + k] == p[k]
  {
    assert s[i..i + |p|][k] == s[i + k];
  }

  /** An occurrence that avoids the separator lies on one side of it. */
  lemma {:induction false} OneSide(a: string, sep: string, b: string, p: string, i: nat)
    requires sep != "" && p != "" && Avoids(sep, p) && At(a + sep + b, p, i)
    ensures i + |p| <= |a| || i >= |a| + |sep|
  {
    var s := a + sep + b;
    var m := if i < |a| then |a| else i;
    assert m < |a| + |sep| ==> s[m] == sep[m - |a|] && s[m] in sep;
    if m < i + |p| { AtChar(s, p, i, m - i); }
  }

  lemma {:induction false} ContainsAround(a: string, sep: string, b: string, p: string)
    requires sep != "" && p != "" && Avoids(sep, p)
    ensures Contains(a + sep + b, p) <==> Contains(a, p) || Contains(b, p)
  {
    hide At, Avoids;
    var s := a + sep + b;
    assert s == a + (sep + b) && |a + sep| == |a| + |sep|;
    if i :| 0 <= i <= |s| && At(s, p, i) {
      OneSide(a, sep, b, p, i);
      if i + |p| <= |a| { AtLeft(a, sep + b, p, i); } else { AtRight(a + sep, b, p, i - |a + sep|); }
    }
    if i :| 0 <= i <= |a| && At(a, p, i) {
      AtFits(a, p, i);
      AtLeft(a, sep + b, p, i);
    }
    if i :| 0 <= i <= |b| && At(b, p, i) { AtRight(a + sep, b, p, i); }
  }

  lemma {:induction false} AtFits(s: string, p: string, i: nat)
    requires At(s, p, i)
    ensures i + |p| <= |s|
  {
  }

  // ----- lines (Python's `splitlines`, `strip` and `"\n".join`) -----

  predicate IsBreak(c: char) {
    var n := c as int;
    10 <= n <= 13 || 0x1c <= n <= 0x1e || n == 0x85 || n == 0x2028 || n == 0x2029
  }

  predicate IsSpace(c: char) {
    var n := c as int;
    9 <= n <= 13 || 0x1c <= n <= 0x20 || n == 0x85 || n == 0xA0 || n == 0x1680 ||
    0x2000 <= n <= 0x200A || n == 0x2028 || n == 0x2029 || n == 0x202F || n == 0x205F || n == 0x3000
  }

  predicate BreakFree(s: string) { forall i :: 0 <= i < |s| ==> !IsBreak(s[i]) }

  function FirstBreak(s: string): (k: nat)
    ensures k <= |s| && BreakFree(s[..k]) && (k < |s| ==> IsBreak(s[k]))
  {
    if s == [] || IsBreak(s[0]) then 0
    else
      var k := FirstBreak(s[1..]);
      assert s[..k + 1] == [s[0]] + s[1..][..k];
      k + 1
  }

  function BreakLength(s: string, k: nat): nat
    requires k < |s|
  {
    if s[k] == '\r' && k + 1 < |s| && s[k + 1] == '\n' then 2 else 1
  }

  function SplitLines(s: string): seq<string>
    decreases |s|
  {
    if s == [] then []
    else
      var k := FirstBreak(s);
      if k == |s| then [s]
      else [s[..k]] + SplitLines(s[k + BreakLength(s, k)..])
  }

  function Join(lines: seq<string>): string {
    if lines == [] then "" else if |lines| == 1 then lines[0] else lines[0] + "\n" + Join(lines[1..])
  }

  /** Each line with its newline. */
  function Unlines(lines: seq<string>): string {
    if lines == [] then "" else lines[0] + "\n" + Unlines(lines[1..])
  }

  function StripStart(s: string): string {
    if s != [] && IsSpace(s[0]) then StripStart(s[1..]) else s
  }

  function StripEnd(s: string): string {
    if s != [] && IsSpace(s[|s| - 1]) then StripEnd(s[..|s| - 1]) else s
  }

  function Strip(s: string): string { StripEnd(StripStart(s)) }

  predicate EndsWith(s: string, c: char) { s != "" && s[|s| - 1] == c }

  predicate SomeContains(lines: seq<string>, p: string) {
    exists k :: 0 <= k < |lines| && Contains(lines[k], p)
  }

  lemma {:induction false} EmptyContains(p: string)
    requires p != ""
    ensures !Contains("", p)
  {
  }

  lemma {:induction false} NoneContains(p: string)
    ensures !SomeContains([], p)
  {
  }

  lemma {:induction false} SplitContains(s: string, p: string)
    requires p != "" && forall c :: c in p ==> !IsBreak(c)
    ensures Contains(s, p) <==> SomeContains(SplitLines(s), p)
    decreases |s|
  {
    hide Contains, FirstBreak, SomeContains;
    if s == [] {
      EmptyContains(p);
      assert SplitLines(s) == [] && !SomeContains([], p) by { NoneContains(p); }
    } else {
      var k := FirstBreak(s);
      if k == |s| {
        ConsContains(s, [], p);
        NoneContains(p);
        assert [s] + [] == [s];
      } else {
        var n := k + BreakLength(s, k);
        var a, sep, b := s[..k], s[k..n], s[n..];
        assert s == a + sep + b;
        SplitContains(b, p);
        ContainsAround(a, sep, b, p);
        ConsContains(a, SplitLines(b), p);
      }
    }
  }

  lemma {:induction false} ConsContains(a: string, rest: seq<string>, p: string)
    ensures SomeContains([a] + rest, p) <==> Contains(a, p) || SomeContains(rest, p)
  {
    var all := [a] + rest;
    if k :| 0 <= k < |all| && Contains(all[k], p) { if k > 0 { assert rest[k - 1] == all[k]; } }
    if k :| 0 <= k < |rest| && Contains(rest[k], p) { assert all[k + 1] == rest[k]; }
    assert all[0] == a;
  }

  lemma {:induction false} JoinContains(lines: seq<string>, p: string)
    requires p != "" && '\n' !in p
    ensures Contains(Join(lines), p) <==> SomeContains(lines, p)
  {
    if lines == [] {
      EmptyContains(p);
    } else if |lines| == 1 {
      assert lines[0] in lines;
    } else {
      ContainsAround(lines[0], "\n", Join(lines[1..]), p);
      JoinContains(lines[1..], p);
      ConsContains(lines[0], lines[1..], p);
      assert [lines[0]] + lines[1..] == lines;
    }
  }

  lemma {:induction false} UnlinesContains(lines: seq<string>, p: string)
    requires p != "" && '\n' !in p
    ensures Contains(Unlines(lines), p) <==> SomeContains(lines, p)
  {
    if lines == [] {
      EmptyContains(p);
    } else {
      ContainsAround(lines[0], "\n", Unlines(lines[1..]), p);
      UnlinesContains(lines[1..], p);
      ConsContains(lines[0], lines[1..], p);
      assert [lines[0]] + lines[1..] == lines;
    }
  }

  // ----- the resolved marker -----

  const RESOLVED: string := "<!-- PARITY-RESOLVED:"

  function ResolvedMarker(url: string): string { RESOLVED + url + " -->" }

  predicate IsResolved(body: string) { Contains(body, RESOLVED) }

  predicate IsMarkerLine(line: string) { At(Strip(line), RESOLVED, 0) }

  function KeptLines(lines: seq<string>): seq<string> {
    if lines == [] then []
    else (if IsMarkerLine(lines[0]) then [] else [lines[0]]) + KeptLines(lines[1..])
  }

  function ClearResolved(body: string): string {
    if !IsResolved(body) then body
    else
      var result := Join(KeptLines(SplitLines(body)));
      if EndsWith(body, '\n') && !EndsWith(result, '\n') then result + "\n" else result
  }

  function SetResolved(body: string, url: string): string {
    var cleared := ClearResolved(body);
    var sep := if cleared == "" || EndsWith(cleared, '\n') then "" else "\n";
    cleared + sep + ResolvedMarker(url) + "\n"
  }

  lemma {:induction false} ResolvedPlain()
    ensures RESOLVED != "" && '\n' !in RESOLVED && forall c :: c in RESOLVED ==> !IsBreak(c)
  {
  }

  lemma {:induction false} KeptContains(lines: seq<string>)
    ensures SomeContains(KeptLines(lines), RESOLVED)
       <==> exists k :: 0 <= k < |lines| && Contains(lines[k], RESOLVED) && !IsMarkerLine(lines[k])
  {
    if lines != [] {
      KeptContains(lines[1..]);
      var rest := KeptLines(lines[1..]);
      ConsContains(lines[0], rest, RESOLVED);
      assert [] + rest == rest;
      if k :| 0 <= k < |lines| && Contains(lines[k], RESOLVED) && !IsMarkerLine(lines[k]) {
        if k > 0 { assert lines[1..][k - 1] == lines[k]; }
      }
      if k :| 0 <= k < |lines[1..]| && Contains(lines[1..][k], RESOLVED) && !IsMarkerLine(lines[1..][k]) {
        assert lines[k + 1] == lines[1..][k];
      }
    }
  }

  /** A failure re-arms the issue exactly when the marker text occurs only at the
      start of lines. */
  lemma {:induction false} ClearRearmsExactly(body: string)
    ensures !IsResolved(ClearResolved(body)) <==>
            forall k :: 0 <= k < |SplitLines(body)| && Contains(SplitLines(body)[k], RESOLVED)
                    ==> IsMarkerLine(SplitLines(body)[k])
  {
    hide SplitLines, IsMarkerLine, Join;
    ResolvedPlain();
    SplitContains(body, RESOLVED);
    if IsResolved(body) {
      var kept := KeptLines(SplitLines(body));
      KeptContains(SplitLines(body));
      JoinContains(kept, RESOLVED);
      EmptyContains(RESOLVED);
      ContainsAround(Join(kept), "\n", "", RESOLVED);
      assert Join(kept) + "\n" + "" == Join(kept) + "\n";
    }
  }

  lemma {:induction false} SetMarks(body: string, url: string)
    ensures IsResolved(SetResolved(body, url))
  {
    var c := ClearResolved(body);
    var s := SetResolved(body, url);
    var n := |s| - |ResolvedMarker(url)| - 1;
    assert s[n..n + |RESOLVED|] == RESOLVED;
    assert At(s, RESOLVED, n);
  }

  // ----- texts whose only line break is the newline -----

  predicate AllBreakFree(lines: seq<string>) { forall k :: 0 <= k < |lines| ==> BreakFree(lines[k]) }

  lemma {:induction false} FirstBreakIs(a: string, rest: string)
    requires BreakFree(a)
    ensures FirstBreak(a + "\n" + rest) == |a|
    ensures FirstBreak(a) == |a|
  {
    if a == [] {
      assert (a + "\n" + rest)[0] == '\n';
    } else {
      assert (a + "\n" + rest)[1..] == a[1..] + "\n" + rest;
      FirstBreakIs(a[1..], rest);
    }
  }

  lemma {:induction false} SplitUnlines(lines: seq<string>)
    requires AllBreakFree(lines)
    ensures SplitLines(Unlines(lines)) == lines
  {
    hide FirstBreak, IsBreak;
    if lines != [] {
      var a, rest := lines[0], Unlines(lines[1..]);
      FirstBreakIs(a, rest);
      var s := a + "\n" + rest;
      assert s[..|a|] == a && s[|a| + 1..] == rest && s[|a|] == '\n';
      SplitUnlines(lines[1..]);
      assert [lines[0]] + lines[1..] == lines;
    }
  }

  lemma {:induction false} JoinUnlines(lines: seq<string>)
    requires lines != []
    ensures Join(lines) + "\n" == Unlines(lines)
    ensures var last := lines[|lines| - 1];
            EndsWith(Join(lines), '\n') <==> EndsWith(last, '\n') || (|lines| > 1 && last == "")
  {
    if |lines| == 1 {
      assert lines[1..] == [] && Unlines([]) == "";
      assert lines[0] + "\n" + "" == lines[0] + "\n";
    } else {
      JoinUnlines(lines[1..]);
      assert lines[0] + "\n" + Join(lines[1..]) + "\n" == lines[0] + "\n" + (Join(lines[1..]) + "\n");
      var j := Join(lines[1..]);
      assert Join(lines) == lines[0] + "\n" + j;
    }
  }

  lemma {:induction false} UnlinesAppend(a: seq<string>, b: seq<string>)
    ensures Unlines(a + b) == Unlines(a) + Unlines(b)
  {
    if a == [] {
      assert a + b == b;
    } else {
      assert (a + b)[1..] == a[1..] + b;
      UnlinesAppend(a[1..], b);
    }
  }

  lemma {:induction false} KeptAll(lines: seq<string>)
    requires !SomeContains(lines, RESOLVED)
    ensures KeptLines(lines) == lines
  {
    if lines != [] {
      assert lines[0] == [lines[0]][0];
      if IsMarkerLine(lines[0]) { MarkerLineContains(lines[0]); }
      forall k | 0 <= k < |lines[1..]| ensures !Contains(lines[1..][k], RESOLVED) {
        assert lines[1..][k] == lines[k + 1];
      }
      KeptAll(lines[1..]);
      assert [lines[0]] + lines[1..] == lines;
    }
  }

  lemma {:induction false} KeptAppend(a: seq<string>, b: seq<string>)
    ensures KeptLines(a + b) == KeptLines(a) + KeptLines(b)
  {
    if a == [] {
      assert a + b == b;
    } else {
      assert (a + b)[1..] == a[1..] + b;
      KeptAppend(a[1..], b);
    }
  }

  lemma {:induction false} StripStartSuffix(s: string)
    ensures |StripStart(s)| <= |s| && StripStart(s) == s[|s| - |StripStart(s)|..]
  {
    if s != [] && IsSpace(s[0]) { StripStartSuffix(s[1..]); }
  }

  lemma {:induction false} StripEndPrefix(s: string)
    ensures |StripEnd(s)| <= |s| && StripEnd(s) == s[..|StripEnd(s)|]
  {
    if s != [] && IsSpace(s[|s| - 1]) { StripEndPrefix(s[..|s| - 1]); }
  }

  lemma {:induction false} MarkerLineContains(line: string)
    requires IsMarkerLine(line)
    ensures Contains(line, RESOLVED)
  {
    var t := StripStart(line);
    StripStartSuffix(line);
    StripEndPrefix(t);
    var n := |line| - |t|;
    assert line[n..n + |RESOLVED|] == t[..|RESOLVED|] == StripEnd(t)[..|RESOLVED|];
    assert At(line, RESOLVED, n);
  }

  lemma {:induction false} MarkerIsMarkerLine(url: string)
    ensures IsMarkerLine(ResolvedMarker(url))
  {
    var m := ResolvedMarker(url);
    assert m[0] == '<' && m[|m| - 1] == '>';
    assert StripStart(m) == m && StripEnd(m) == m;
    assert m[0..|RESOLVED|] == RESOLVED;
  }

  /** Clearing removes the marker line and nothing else. */
  lemma {:induction false} ClearUnlines(lines: seq<string>, url: string)
    requires AllBreakFree(lines) && !SomeContains(lines, RESOLVED) && BreakFree(url)
    ensures ClearResolved(Unlines(lines + [ResolvedMarker(url)]))
         == if lines == [] then "\n"
            else if |lines| > 1 && lines[|lines| - 1] == "" then Join(lines) else Unlines(lines)
  {
    hide SplitLines, IsMarkerLine, Strip, FirstBreak;
    var m := ResolvedMarker(url);
    var all := lines + [m];
    var body := Unlines(all);
    MarkerIsMarkerLine(url);
    MarkerLineContains(m);
    assert all[|lines|] == m;
    ResolvedPlain();
    UnlinesContains(all, RESOLVED);
    assert SomeContains(all, RESOLVED);
    MarkerBreakFree(url);
    SplitUnlines(all);
    KeptAppend(lines, [m]);
    assert [m][1..] == [];
    KeptAll(lines);
    assert KeptLines(all) == lines;
    UnlinesAppend(lines, [m]);
    assert Unlines([m]) == m + "\n" by { assert m + "\n" + "" == m + "\n"; }
    assert EndsWith(body, '\n');
    if lines != [] {
      JoinUnlines(lines);
      var last := lines[|lines| - 1];
      assert last != "" ==> !IsBreak(last[|last| - 1]);
    }
  }

  lemma {:induction false} MarkerBreakFree(url: string)
    requires BreakFree(url)
    ensures BreakFree(ResolvedMarker(url))
  {
    ResolvedPlain();
    var m := ResolvedMarker(url);
    forall i | 0 <= i < |m| ensures !IsBreak(m[i]) {
      if i < |RESOLVED| { assert m[i] == RESOLVED[i]; }
      else if i < |RESOLVED| + |url| { assert m[i] == url[i - |RESOLVED|]; }
      else { assert m[i] == " -->"[i - |RESOLVED| - |url|]; }
    }
  }

  // ----- the algebra of setting and clearing -----

  predicate NewlinesOnly(s: string) { forall i :: 0 <= i < |s| && IsBreak(s[i]) ==> s[i] == '\n' }

  predicate EndsWithTwo(s: string) { |s| >= 2 && s[|s| - 2] == '\n' && s[|s| - 1] == '\n' }

  /** A text broken only by newlines is its first line, alone or ended by one. */
  lemma {:induction false} SplitStep(s: string)
    requires NewlinesOnly(s) && s != ""
    ensures var k := FirstBreak(s);
            BreakFree(s[..k]) &&
            if k == |s| then SplitLines(s) == [s] && s[..k] == s
            else SplitLines(s) == [s[..k]] + SplitLines(s[k + 1..]) && s == s[..k] + "\n" + s[k + 1..]
  {
    hide FirstBreak, BreakFree;
    var k := FirstBreak(s);
    assert k < |s| ==> s[k] == '\n' && BreakLength(s, k) == 1 && s == s[..k] + [s[k]] + s[k + 1..];
  }

  lemma {:induction false} SplitBreakFree(s: string)
    requires NewlinesOnly(s)
    ensures AllBreakFree(SplitLines(s)) && (SplitLines(s) == [] <==> s == "")
    decreases |s|
  {
    if s != [] {
      hide FirstBreak, SplitLines, BreakFree;
      SplitStep(s);
      var k := FirstBreak(s);
      if k < |s| { SplitBreakFree(s[k + 1..]); }
    }
  }

  /** The text with a newline at its end, unless it is empty. */
  function Terminated(s: string): string { if s == "" || EndsWith(s, '\n') then s else s + "\n" }

  lemma {:induction false} TerminatedLine(a: string, b: string)
    ensures Terminated(a + "\n" + b) == a + "\n" + Terminated(b)
  {
    assert a + "\n" + (b + "\n") == a + "\n" + b + "\n";
  }

  /** A text broken only by newlines is its lines, each with a newline, up to the
      newline that may be missing at the end. */
  lemma {:induction false} SplitJoin(s: string)
    requires NewlinesOnly(s)
    ensures Unlines(SplitLines(s)) == Terminated(s)
    decreases |s|
  {
    if s != [] {
      hide FirstBreak, SplitLines, BreakFree, IsBreak, Unlines, EndsWith, Terminated;
      SplitStep(s);
      var k := FirstBreak(s);
      if k == |s| {
        OneLine(s);
        LastNotBreak(s);
        assert Terminated(s) == s + "\n" by { TerminatedPlain(s); }
      } else {
        var a, b := s[..k], s[k + 1..];
        SplitJoin(b);
        UnlinesAppend([a], SplitLines(b));
        OneLine(a);
        TerminatedLine(a, b);
      }
    }
  }

  lemma {:induction false} TerminatedPlain(s: string)
    requires s != "" && !EndsWith(s, '\n')
    ensures Terminated(s) == s + "\n"
  {
  }

  lemma {:induction false} LastNotBreak(s: string)
    requires BreakFree(s)
    ensures !EndsWith(s, '\n')
  {
    assert s != "" ==> !IsBreak(s[|s| - 1]);
  }

  lemma {:induction false} OneLine(m: string)
    ensures Unlines([m]) == m + "\n"
  {
    assert [m][1..] == [] && m + "\n" + "" == m + "\n";
  }

  lemma {:induction false} SetUnlines(body: string, url: string)
    requires NewlinesOnly(body) && !IsResolved(body)
    ensures SetResolved(body, url) == Unlines(SplitLines(body) + [ResolvedMarker(url)])
  {
    hide SplitLines, ResolvedMarker, Contains, Unlines, NewlinesOnly, EndsWith;
    var m := ResolvedMarker(url);
    SplitJoin(body);
    UnlinesAppend(SplitLines(body), [m]);
    OneLine(m);
    assert body + "\n" + m + "\n" == (body + "\n") + (m + "\n");
    assert body + "" + m + "\n" == body + (m + "\n");
  }

  /** What clearing leaves of a freshly stamped body. */
  lemma {:induction false} ClearSet(body: string, url: string)
    requires NewlinesOnly(body) && !IsResolved(body) && BreakFree(url)
    ensures ClearResolved(SetResolved(body, url))
         == if body == "" then "\n"
            else if EndsWithTwo(body) then body[..|body| - 1]
            else if EndsWith(body, '\n') then body else body + "\n"
  {
    hide SplitLines, ResolvedMarker, Contains, SetResolved, ClearResolved, Unlines, Join;
    var lines := SplitLines(body);
    ResolvedPlain();
    SplitJoin(body);
    SplitBreakFree(body);
    SplitContains(body, RESOLVED);
    SetUnlines(body, url);
    ClearUnlines(lines, url);
    if body != "" {
      JoinUnlines(lines);
      var last := lines[|lines| - 1];
      assert last != "" ==> !IsBreak(last[|last| - 1]);
      assert Join(lines) == (Join(lines) + "\n")[..|Join(lines)|];
    }
  }

  /** Clearing undoes setting exactly on bodies that end in one newline. */
  lemma {:induction false} ClearUndoesSetExactly(body: string, url: string)
    requires NewlinesOnly(body) && !IsResolved(body) && BreakFree(url)
    ensures ClearResolved(SetResolved(body, url)) == body
       <==> EndsWith(body, '\n') && !EndsWithTwo(body)
  {
    hide SetResolved, ClearResolved, IsResolved;
    ClearSet(body, url);
    var after := ClearResolved(SetResolved(body, url));
    assert EndsWithTwo(body) ==> |after| == |body| - 1;
    assert !EndsWith(body, '\n') ==> |after| == |body| + 1;
  }

  lemma {:induction false} SetCleared(body: string, url: string)
    requires !IsResolved(ClearResolved(body))
    ensures SetResolved(body, url) == SetResolved(ClearResolved(body), url)
  {
    hide IsMarkerLine, Contains;
  }

  /** Stamping twice is stamping with the last link, except that an empty or
      blank-ended body gains or loses one newline. */
  lemma {:induction false} SetSetExactly(body: string, first: string, second: string)
    requires NewlinesOnly(ClearResolved(body)) && !IsResolved(ClearResolved(body))
    requires BreakFree(first) && BreakFree(second)
    ensures SetResolved(SetResolved(body, first), second) == SetResolved(body, second)
       <==> ClearResolved(body) != "" && !EndsWithTwo(ClearResolved(body))
  {
    hide ClearResolved, IsResolved, ResolvedMarker;
    var c := ClearResolved(body);
    SetCleared(body, first);
    ClearSet(c, first);
    var after := SetResolved(SetResolved(body, first), second);
    var once := SetResolved(body, second);
    var m := ResolvedMarker(second);
    assert c == "" ==> |after| == |once| + 1;
    assert EndsWithTwo(c) ==> |after| == |once| - 1;
  }

  // ----- the latest-failure section -----

  const LATEST: string := "## Latest failure\n"
  const NEXT_HEADING: string := "\n## "

  function LatestFields(url: string, time: string): string {
    "- **Run:** " + url + "\n- **Observed:** " + time + "\n"
  }

  function LatestSection(url: string, time: string): string { LATEST + LatestFields(url, time) }

  function Refresh(body: string, url: string, time: string): string {
    match Find(body, LATEST, 0)
    case None => body + (if EndsWith(body, '\n') then "" else "\n") + "\n" + LatestSection(url, time)
    case Some(start) =>
      match Find(body, NEXT_HEADING, start + |LATEST|)
      case None => body[..start] + LatestSection(url, time)
      case Some(rest) => body[..start] + LatestSection(url, time) + body[rest + 1..]
  }

  predicate NewlineFree(s: string) { '\n' !in s }

  predicate HeadingOrEnd(s: string) { s == "" || At(s, "## ", 0) }

  /** The first search position that matches is the one found. */
  lemma {:induction false} FindIs(s: string, p: string, from: nat, at: nat)
    requires from <= at && At(s, p, at) && forall i :: from <= i < at ==> !At(s, p, i)
    ensures Find(s, p, from) == Some(at)
  {
    hide At;
  }

  lemma {:induction false} FindNone(s: string, p: string, from: nat)
    requires forall i :: from <= i <= |s| ==> !At(s, p, i)
    requires p != ""
    ensures Find(s, p, from) == None
  {
    var r := Find(s, p, from);
  }

  /** A match of the heading line that starts before position n lies within the
      heading written there. */
  lemma {:induction false} LatestStaysFirst(pre: string, a: string, b: string, i: nat)
    requires i < |pre| && At(pre + LATEST + a, LATEST, i)
    ensures At(pre + LATEST + b, LATEST, i)
  {
    var s, t := pre + LATEST + a, pre + LATEST + b;
    assert s[..|pre| + |LATEST|] == pre + LATEST == t[..|pre| + |LATEST|];
    assert s[i..i + |LATEST|] == s[..|pre| + |LATEST|][i..i + |LATEST|];
    assert t[i..i + |LATEST|] == t[..|pre| + |LATEST|][i..i + |LATEST|];
  }

  predicate FirstLatest(pre: string) { forall i :: 0 <= i < |pre| ==> !At(pre + LATEST, LATEST, i) }

  lemma {:induction false} FindLatest(pre: string, rest: string)
    requires FirstLatest(pre)
    ensures Find(pre + LATEST + rest, LATEST, 0) == Some(|pre|)
  {
    var s := pre + LATEST + rest;
    assert pre + LATEST + "" == pre + LATEST;
    forall i | 0 <= i < |pre| ensures !At(s, LATEST, i) {
      if At(s, LATEST, i) { LatestStaysFirst(pre, rest, "", i); }
    }
    assert s[|pre|..|pre| + |LATEST|] == LATEST;
    FindIs(s, LATEST, 0, |pre|);
  }

  lemma {:induction false} NotHeading(s: string, i: nat)
    requires i + 1 < |s| && (s[i] != '\n' || s[i + 1] != '#')
    ensures !At(s, NEXT_HEADING, i)
  {
    assert i + 4 <= |s| ==> s[i] == s[i..i + 4][0] && s[i + 1] == s[i..i + 4][1];
  }

  /** No line inside the fields starts a heading. */
  lemma {:induction false} FieldStep(url: string, time: string, i: nat)
    requires NewlineFree(url) && NewlineFree(time) && i < |LatestFields(url, time)| - 1
    ensures LatestFields(url, time)[i] != '\n' || LatestFields(url, time)[i + 1] != '#'
  {
    var a, b := "- **Run:** ", "- **Observed:** ";
    var f := LatestFields(url, time);
    assert f == a + url + "\n" + b + time + "\n";
    var n := |a| + |url| + 1;
    if i < |a| { assert f[i] == a[i]; }
    else if i < n - 1 { assert f[i] == url[i - |a|]; }
    else if i == n - 1 { assert f[i + 1] == b[0]; }
    else if i < n + |b| { assert f[i] == b[i - n]; }
    else { assert f[i] == time[i - n - |b|]; }
  }

  lemma {:induction false} FieldsEnd(url: string, time: string)
    ensures EndsWith(LatestFields(url, time), '\n')
  {
  }

  /** The fields end at the next heading. */
  lemma {:induction false} FindHeading(pre: string, url: string, time: string, gap: string, tail: string)
    requires NewlineFree(url) && NewlineFree(time) && HeadingOrEnd(tail) && gap in {"", "\n"}
    requires tail == "" ==> gap == ""
    ensures Find(pre + LatestFields(url, time) + gap + tail, NEXT_HEADING, |pre|)
         == if tail == "" then None else Some(|pre| + |LatestFields(url, time)| + |gap| - 1)
  {
    hide LatestFields, Find, At, NewlineFree;
    var f := LatestFields(url, time);
    FieldsEnd(url, time);
    var s := pre + f + gap + tail;
    var n := |f| + |gap| - 1;
    forall i | |pre| <= i < |pre| + n ensures !At(s, NEXT_HEADING, i) {
      var j := i - |pre|;
      assert s[i] == f[j];
      if j < |f| - 1 {
        FieldStep(url, time, j);
        assert s[i + 1] == f[j + 1];
      } else {
        assert s[i + 1] == gap[0];
      }
      NotHeading(s, i);
    }
    if tail == "" {
      NotHeadingEnd(s);
      FindNone(s, NEXT_HEADING, |pre|);
    } else {
      HeadingFollows(pre + f + gap, tail);
      FindIs(s, NEXT_HEADING, |pre|, |pre| + n);
    }
  }

  lemma {:induction false} NotHeadingEnd(s: string)
    ensures forall i: nat :: |s| - 1 <= i ==> !At(s, NEXT_HEADING, i)
  {
  }

  lemma {:induction false} HeadingFollows(a: string, tail: string)
    requires EndsWith(a, '\n') && At(tail, "## ", 0)
    ensures At(a + tail, NEXT_HEADING, |a| - 1)
  {
    var s := a + tail;
    assert s[|a| - 1..|a| + 3] == [a[|a| - 1]] + tail[0..3];
  }

  /** Refreshing rewrites the section and keeps what stands around it. */
  lemma {:induction false} RefreshSection(pre: string, u: string, t: string, gap: string, tail: string, url: string,
      time: string)
    requires FirstLatest(pre) && NewlineFree(u) && NewlineFree(t) && HeadingOrEnd(tail) && gap in {"", "\n"}
    requires tail == "" ==> gap == ""
    ensures Refresh(pre + LatestSection(u, t) + gap + tail, url, time) == pre + LatestSection(url, time) + tail
  {
    hide At, LatestFields, FirstLatest, Find;
    var f := LatestFields(u, t);
    var s := pre + LatestSection(u, t) + gap + tail;
    assert s == pre + LATEST + (f + gap + tail);
    FindLatest(pre, f + gap + tail);
    assert s == (pre + LATEST) + f + gap + tail;
    FindHeading(pre + LATEST, u, t, gap, tail);
    assert s[..|pre|] == pre;
    if tail != "" { assert s[|pre| + |LATEST| + |f| + |gap|..] == tail; }
  }

  lemma {:induction false} FoundFirst(body: string)
    requires Find(body, LATEST, 0).Some?
    ensures FirstLatest(body[..Find(body, LATEST, 0).value])
  {
    hide Find;
    var start := Find(body, LATEST, 0).value;
    var pre := body[..start];
    assert body == pre + LATEST + body[start + |LATEST|..];
    assert pre + LATEST + "" == pre + LATEST;
    forall i | 0 <= i < |pre| ensures !At(pre + LATEST, LATEST, i) {
      if At(pre + LATEST, LATEST, i) { LatestStaysFirst(pre, "", body[start + |LATEST|..], i); }
    }
  }

  function SectionTail(body: string, start: nat): string {
    match Find(body, NEXT_HEADING, start + |LATEST|)
    case None => ""
    case Some(rest) => body[rest + 1..]
  }

  lemma {:induction false} TailIsHeading(body: string, start: nat)
    ensures HeadingOrEnd(SectionTail(body, start))
  {
    hide Find;
    var rest := Find(body, NEXT_HEADING, start + |LATEST|);
    if rest.Some? {
      var tail := body[rest.value + 1..];
      assert tail[0..3] == body[rest.value..rest.value + 4][1..4];
    }
  }

  lemma {:induction false} RefreshIs(body: string, url: string, time: string)
    requires Find(body, LATEST, 0).Some?
    ensures var start := Find(body, LATEST, 0).value;
            Refresh(body, url, time) == body[..start] + LatestSection(url, time) + SectionTail(body, start)
  {
    hide Find, LatestSection;
    var start := Find(body, LATEST, 0).value;
    assert body[..start] + LatestSection(url, time) + "" == body[..start] + LatestSection(url, time);
  }

  /** Once the section exists only the last refresh counts. */
  lemma {:induction false} RefreshTwice(body: string, u1: string, t1: string, u2: string, t2: string)
    requires Find(body, LATEST, 0).Some?
    requires NewlineFree(u1) && NewlineFree(t1)
    ensures Refresh(Refresh(body, u1, t1), u2, t2) == Refresh(body, u2, t2)
  {
    hide LatestSection, Find, Refresh, SectionTail, FirstLatest, HeadingOrEnd;
    var start := Find(body, LATEST, 0).value;
    var pre, tail := body[..start], SectionTail(body, start);
    FoundFirst(body);
    TailIsHeading(body, start);
    RefreshIs(body, u1, t1);
    RefreshIs(body, u2, t2);
    assert pre + LatestSection(u1, t1) + "" + tail == pre + LatestSection(u1, t1) + tail;
    RefreshSection(pre, u1, t1, "", tail, u2, t2);
  }
}
