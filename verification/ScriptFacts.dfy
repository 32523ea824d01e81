/** What the splitter makes of each construct it documents, in the characters of the
    script: trimming, quoted values, both kinds of comment, ordinary statements, and
    the three errors. */
module ScriptFacts {
  import opened Prelude
  import opened Script
  import opened ScriptLaws
  import opened ScriptRoundTrip

  // ----- trimming -----

  /** Neither begins nor ends with whitespace. */
  predicate Tight(s: string) { s == "" || (!IsWhitespace(s[0]) && !IsWhitespace(Last(s))) }

  /** Among the ASCII characters the six controls and the space are whitespace; beyond
      them the spaces of the Unicode property White_Space. */
  lemma {:induction false} WhitespaceFacts(c: char)
    ensures c <= '\U{7F}' ==> (IsWhitespace(c) <==> c in " \t\n\r\U{B}\U{C}")
    ensures c in "\U{85}\U{A0}\U{1680}\U{2028}\U{2029}\U{202F}\U{205F}\U{3000}" ==> IsWhitespace(c)
    ensures '\U{2000}' <= c <= '\U{200A}' ==> IsWhitespace(c)
    ensures '\U{3001}' <= c ==> !IsWhitespace(c)
  {
  }

  /** The widths of section 3 of RFC 3629. */
  lemma {:induction false} Utf8Exactly(c: char)
    ensures Utf8Width(c) == 1 <==> c <= '\U{7F}'
    ensures Utf8Width(c) == 2 <==> '\U{80}' <= c <= '\U{7FF}'
    ensures Utf8Width(c) == 3 <==> '\U{800}' <= c <= '\U{FFFF}'
    ensures Utf8Width(c) == 4 <==> '\U{10000}' <= c
  {
  }

  lemma {:induction false} TrimStartCuts(s: string) returns (a: string)
    ensures Blank(a) && s == a + TrimStart(s)
  {
    if s != [] && IsWhitespace(s[0]) {
      var rest := TrimStartCuts(s[1..]);
      a := [s[0]] + rest;
      assert s == [s[0]] + s[1..];
    } else {
      a := "";
    }
  }

  lemma {:induction false} TrimEndCuts(s: string) returns (b: string)
    ensures Blank(b) && s == TrimEnd(s) + b
  {
    if s != [] && IsWhitespace(Last(s)) {
      var rest := TrimEndCuts(s[..|s| - 1]);
      b := rest + [Last(s)];
      assert s == s[..|s| - 1] + [Last(s)];
    } else {
      b := "";
    }
  }

  /** Trimming takes whitespace from both ends and leaves none there. */
  lemma {:induction false} TrimExactly(s: string) returns (a: string, b: string)
    ensures Blank(a) && Blank(b) && s == a + Trim(s) + b && Tight(Trim(s))
  {
    hide TrimStart, TrimEnd;
    var u := TrimStart(s);
    a := TrimStartCuts(s);
    b := TrimEndCuts(u);
    TrimStartSuffix(s);
    TrimEndPrefix(u);
    assert s == a + (Trim(s) + b);
  }

  lemma {:induction false} TrimBlankBack(s: string, b: string)
    requires Blank(b)
    ensures TrimEnd(s + b) == TrimEnd(s)
  {
    if b == [] {
      assert s + b == s;
    } else {
      var n := |b| - 1;
      assert (s + b)[..|s| + n] == s + b[..n] && Last(s + b) == b[n];
      TrimBlankBack(s, b[..n]);
    }
  }

  /** It is the only text that can be left. */
  lemma {:induction false} TrimUnique(a: string, t: string, b: string)
    requires Blank(a) && Blank(b) && Tight(t)
    ensures Trim(a + t + b) == t
  {
    hide TrimStart, TrimEnd;
    assert a + t + b == a + (t + b);
    TrimBlankFront(a, t + b);
    if t == "" {
      assert t + b == b;
      TrimBlank(b);
    } else {
      TrimStartStep(t + b);
      TrimBlankBack(t, b);
      TrimEndStep(t);
    }
  }

  lemma {:induction false} TrimStartStep(s: string)
    ensures s != [] && !IsWhitespace(s[0]) ==> TrimStart(s) == s
  {
  }

  // ----- quoted values -----

  /** A value as it is written between quotes: each quote doubled. */
  function Doubled(q: char, value: string): string {
    if value == "" then "" else (if value[0] == q then [q, q] else [value[0]]) + Doubled(q, value[1..])
  }

  /** A value written between quotes is read up to its closing quote and no further. */
  lemma {:induction false} QuotedEnds(q: char, value: string, rest: string)
    requires rest == "" || rest[0] != q
    ensures StringEnd(q, Doubled(q, value) + [q] + rest) == Some(|Doubled(q, value)| + 1)
  {
    hide StringEnd, Doubled;
    var s := Doubled(q, value) + [q] + rest;
    DoubledUnfold(q, value);
    StringEndUnfold(q, s);
    if value == "" {
      assert s == [q] + rest;
    } else {
      var front := if value[0] == q then [q, q] else [value[0]];
      var more := Doubled(q, value[1..]) + [q] + rest;
      assert s == front + more;
      assert s[|front|..] == more;
      QuotedEnds(q, value[1..], rest);
    }
  }

  lemma {:induction false} DoubledUnfold(q: char, value: string)
    ensures value == "" ==> Doubled(q, value) == ""
    ensures value != "" ==>
              Doubled(q, value) == (if value[0] == q then [q, q] else [value[0]]) + Doubled(q, value[1..])
  {
  }

  /** Whatever is read as a string is some value written that way. */
  lemma {:induction false} StringIsQuoted(q: char, s: string) returns (value: string)
    requires StringEnd(q, s).Some?
    ensures s[..StringEnd(q, s).value] == Doubled(q, value) + [q]
  {
    var k := StringEnd(q, s).value;
    if s[0] == q && (|s| == 1 || s[1] != q) {
      value := "";
    } else {
      var n := if s[0] == q then 2 else 1;
      var more := StringIsQuoted(q, s[n..]);
      value := [s[0]] + more;
      assert value[1..] == more;
      assert s[..k] == s[..n] + s[n..][..k - n];
    }
  }

  /** A string without its closing quote is never closed. */
  lemma {:induction false} OpenQuoteEnds(q: char, value: string)
    ensures StringEnd(q, Doubled(q, value)).None?
  {
    hide StringEnd;
    StringEndUnfold(q, Doubled(q, value));
    if value != "" {
      var n := if value[0] == q then 2 else 1;
      assert Doubled(q, value)[n..] == Doubled(q, value[1..]);
      OpenQuoteEnds(q, value[1..]);
    }
  }

  /** Any value between quotes, with semicolons, dashes, comment signs and the other
      quote in it, is one statement, word for word. */
  lemma {:induction false} QuotedKept(q: char, value: string)
    requires q == '\'' || q == '"'
    ensures var st := [q] + Doubled(q, value) + [q]; Clean(st) && Parse(st + ";") == Statements([st])
  {
    hide Lex, Trim, Parse, Doubled;
    var st := [q] + Doubled(q, value) + [q];
    QuotedLexes(q, value);
    WhitespaceFacts(q);
    TrimUnique("", st, "");
    assert "" + st + "" == st;
    CleanParses(st);
  }

  lemma {:induction false} QuotedLexes(q: char, value: string)
    requires IsQuote(q)
    ensures var st := [q] + Doubled(q, value) + [q]; Lex(st) == Tokens([Quoted(st)])
  {
    hide Lex, StringEnd, Doubled;
    var body := Doubled(q, value) + [q];
    var st := [q] + Doubled(q, value) + [q];
    QuotedEnds(q, value, "");
    assert body + "" == body;
    assert st[1..] == body && st[..|st|] == st && st[|st|..] == [];
    LexFront(st, Quoted(st), |st|);
    LexEmpty();
  }

  // ----- ordinary text -----

  /** No quote, no terminator and no comment sign. */
  predicate Ordinary(s: string) {
    && (forall i :: 0 <= i < |s| ==> !IsQuote(s[i]) && s[i] != ';')
    && (forall i :: 0 < i < |s| ==> !(s[i - 1] == '-' && s[i] == '-') && !(s[i - 1] == '/' && s[i] == '*'))
  }

  lemma {:induction false} OrdinaryLexes(s: string)
    requires Ordinary(s)
    ensures Lex(s).Tokens? && AllPlain(Lex(s).toks)
    decreases |s|
  {
    if s != [] {
      assert |s| >= 2 ==> !(s[0] == '-' && s[1] == '-') && !(s[0] == '/' && s[1] == '*');
      assert forall i :: 0 <= i < |s| - 1 ==> s[1..][i] == s[i + 1];
      forall i | 0 < i < |s[1..]|
        ensures !(s[1..][i - 1] == '-' && s[1..][i] == '-') && !(s[1..][i - 1] == '/' && s[1..][i] == '*')
      {
        assert s[1..][i] == s[i + 1] && s[1..][i - 1] == s[i];
      }
      OrdinaryLexes(s[1..]);
    }
  }

  /** Text of ordinary characters and a terminator is one statement, without the
      whitespace around it. */
  lemma {:induction false} OrdinaryStatement(a: string, st: string, b: string)
    requires Blank(a) && Blank(b) && st != "" && Tight(st) && Ordinary(a + st + b)
    ensures Parse(a + st + b + ";") == Statements([st])
  {
    hide Lex, Cut, Keep, Trim, Conclude, Ordinary, Blank, Tight;
    var s := a + st + b;
    OrdinaryLexes(s);
    TrimUnique(a, st, b);
    PlainStatement(s);
    KeepOne(s);
  }

  lemma {:induction false} PlainStatement(s: string)
    requires Lex(s).Tokens? && AllPlain(Lex(s).toks)
    ensures Parse(s + ";") == Statements(Keep([s]))
  {
    hide Lex, Cut, Keep, Trim, Conclude;
    var t := Lex(s).toks;
    LexVerbatim(s);
    CutPlain(t);
    LexSemicolon();
    LexQuotedBody(s);
    LexAppend(s, ";");
    ParseTokens(s + ";");
    CutAppend(t, [Terminator]);
    assert s + "" == s;
    assert Cut(t + [Terminator]) == [s, ""];
    EndedStatement(s);
  }

  lemma {:induction false} EndedStatement(s: string)
    ensures Conclude([], [s, ""]) == Statements(Keep([s]))
  {
    hide Trim;
    KeepFront(s, [""]);
    KeepBlank("");
    TrimBlank("");
    assert [s] + [""] == [s, ""];
  }

  // ----- comments -----

  lemma {:induction false} SameRendering(t: seq<Token>, x: Token, y: Token, l: Lexed)
    requires x != Terminator && y != Terminator && Render(x) == Render(y)
    ensures Finish([], "", Join(t, Prepend(x, l))) == Finish([], "", Join(t, Prepend(y, l)))
  {
    hide Conclude, Cut;
    if l.Tokens? {
      CutUnfold([x] + l.toks);
      CutUnfold([y] + l.toks);
      assert ([x] + l.toks)[1..] == l.toks == ([y] + l.toks)[1..];
      CutAppend(t, [x] + l.toks);
      CutAppend(t, [y] + l.toks);
    }
  }

  /** Anywhere outside strings and comments, a line comment stands for its newline. */
  lemma {:induction false} LineCommentIsNewline(a: string, w: string, b: string)
    requires Lex(a).Tokens? && Sealed(Lex(a).toks, "--") && Sealed(Lex(a).toks, "\n") && '\n' !in w
    ensures Parse(a + ("--" + w + "\n" + b)) == Parse(a + ("\n" + b))
  {
    hide Lex, Finish;
    var x, y := "--" + w + "\n" + b, "\n" + b;
    SealedFirst(Lex(a).toks, "--", x);
    SealedFirst(Lex(a).toks, "\n", y);
    LexAppend(a, x);
    LexAppend(a, y);
    LineCommentLexes(w, b);
    assert y[1..] == b;
    LexFront(y, Text('\n'), 1);
    SameRendering(Lex(a).toks, LineComment(true), Text('\n'), Lex(b));
  }

  lemma {:induction false} SealedFirst(t: seq<Token>, b: string, c: string)
    requires Sealed(t, b) && b != [] && c != [] && b[0] == c[0]
    ensures Sealed(t, c)
  {
  }

  lemma {:induction false} LineCommentLexes(w: string, b: string)
    requires '\n' !in w
    ensures Lex("--" + w + "\n" + b) == Prepend(LineComment(true), Lex(b))
  {
    hide Lex, LineEnd;
    var s := "--" + w + "\n" + b;
    assert s[2..] == w + ("\n" + b);
    NoNewline(w);
    LineEndAppend(w, "\n" + b);
    NewlineFirst(b);
    assert s[|w| + 3..] == b;
    LexFront(s, LineComment(true), |w| + 3);
  }

  lemma {:induction false} NoNewline(w: string)
    requires '\n' !in w
    ensures LineEnd(w) == |w|
  {
    hide LineEnd;
    if LineEnd(w) < |w| { assert w[LineEnd(w)] == '\n'; }
  }

  lemma {:induction false} NewlineFirst(b: string)
    ensures LineEnd("\n" + b) == 0
  {
  }

  /** No two neighbours are `a` and `b`. */
  predicate Lacks(s: string, a: char, b: char) { forall i :: 0 < i < |s| ==> !(s[i - 1] == a && s[i] == b) }

  lemma {:induction false} LacksTail(s: string, a: char, b: char)
    requires Lacks(s, a, b) && s != []
    ensures Lacks(s[1..], a, b) && !Opens(s, a, b)
  {
    forall i | 0 < i < |s[1..]| ensures !(s[1..][i - 1] == a && s[1..][i] == b) {
      assert s[1..][i - 1] == s[i] && s[1..][i] == s[i + 1];
    }
    assert |s| >= 2 ==> !(s[0] == a && s[1] == b);
  }

  lemma {:induction false} BlockEndUnfold(s: string)
    ensures |s| < 2 ==> BlockEnd(s) == None
    ensures Opens(s, '*', '/') ==> BlockEnd(s) == Some(2)
    ensures |s| >= 2 && !Opens(s, '*', '/') && !Opens(s, '/', '*') ==>
              BlockEnd(s) == if BlockEnd(s[1..]).None? then None else Some(BlockEnd(s[1..]).value + 1)
  {
  }

  /** A comment without a nested opener ends at its first `*` `/`. */
  lemma {:induction false} BlockEnds(w: string, b: string)
    requires Lacks(w, '*', '/') && Lacks(w + "*", '/', '*')
    ensures BlockEnd(w + "*/" + b) == Some(|w| + 2)
  {
    hide BlockEnd;
    var s := w + "*/" + b;
    BlockEndUnfold(s);
    if w != [] {
      LacksTail(w, '*', '/');
      LacksTail(w + "*", '/', '*');
      assert (w + "*")[1..] == w[1..] + "*";
      assert s[1..] == w[1..] + "*/" + b;
      assert s[0] == (w + "*")[0] && s[1] == (w + "*")[1];
      BlockEnds(w[1..], b);
      assert !Opens(s, '/', '*');
      assert !Opens(s, '*', '/');
    }
  }

  /** At the start of a script such a comment stands for nothing. */
  lemma {:induction false} BlockCommentIsNothing(w: string, b: string)
    requires Lacks(w, '*', '/') && Lacks(w + "*", '/', '*')
    ensures Parse("/*" + w + "*/" + b) == Parse(b)
  {
    hide Lex, BlockEnd, Finish, Lacks;
    var s := "/*" + w + "*/" + b;
    assert s[2..] == w + "*/" + b;
    BlockEnds(w, b);
    assert s[|w| + 4..] == b;
    LexFront(s, BlockComment, |w| + 4);
    FinishPrepend([], "", BlockComment, Lex(b));
    assert "" + Render(BlockComment) == "";
  }

  // ----- errors -----

  lemma {:induction false} NeverEnds(w: string)
    requires Lacks(w, '*', '/')
    ensures BlockEnd(w).None?
    decreases |w|
  {
    if |w| >= 2 {
      LacksTail(w, '*', '/');
      if Opens(w, '/', '*') {
        LacksTail(w[1..], '*', '/');
        assert w[1..][1..] == w[2..];
        NeverEnds(w[2..]);
      } else {
        NeverEnds(w[1..]);
      }
    }
  }

  /** A comment that is not closed and a string that is not closed fail, each with its
      own error, whatever came before. */
  lemma {:induction false} OpenFails(a: string, w: string, q: char, value: string)
    requires Lex(a).Tokens?
    ensures Sealed(Lex(a).toks, "/*") && Lacks(w, '*', '/') ==>
              Parse(a + ("/*" + w)) == Failed(UnterminatedBlockComment)
    ensures Sealed(Lex(a).toks, [q]) && (q == '\'' || q == '"') ==>
              Parse(a + ([q] + Doubled(q, value))) == Failed(UnterminatedString)
  {
    hide Lex;
    var t := Lex(a).toks;
    if Sealed(t, "/*") && Lacks(w, '*', '/') {
      var x := "/*" + w;
      SealedFirst(t, "/*", x);
      LexAppend(a, x);
      OpenBlockLexes(w);
    }
    if Sealed(t, [q]) && (q == '\'' || q == '"') {
      var x := [q] + Doubled(q, value);
      SealedFirst(t, [q], x);
      LexAppend(a, x);
      OpenQuoteLexes(q, value);
    }
  }

  lemma {:induction false} OpenBlockLexes(w: string)
    requires Lacks(w, '*', '/')
    ensures Lex("/*" + w) == OpenBlock
  {
    hide BlockEnd;
    NeverEnds(w);
    assert ("/*" + w)[2..] == w;
  }

  lemma {:induction false} OpenQuoteLexes(q: char, value: string)
    requires IsQuote(q)
    ensures Lex([q] + Doubled(q, value)) == OpenString
  {
    hide StringEnd;
    OpenQuoteEnds(q, value);
    assert ([q] + Doubled(q, value))[1..] == Doubled(q, value);
  }

  /** An opener inside a comment takes its star along, so `/` `*` `/` closes nothing. */
  lemma {:induction false} OpenerTakesStar(b: string)
    requires Lacks(b, '*', '/') && (b != "" ==> b[0] != '*')
    ensures Parse("/*" + ("/*/" + b)) == Failed(UnterminatedBlockComment)
  {
    hide Lex, BlockEnd;
    var s := "/*/" + b;
    var rest := "/" + b;
    assert s[2..] == rest;
    forall i | 0 < i < |rest| ensures !(rest[i - 1] == '*' && rest[i] == '/') {
      if i > 1 { assert rest[i - 1] == b[i - 2] && rest[i] == b[i - 1]; }
    }
    NeverEnds(rest);
    SwallowUnfold(s);
    SwallowLexes(s);
  }

  lemma {:induction false} SwallowUnfold(s: string)
    requires Opens(s, '/', '*')
    ensures BlockEnd(s) == if BlockEnd(s[2..]).None? then None else Some(BlockEnd(s[2..]).value + 2)
  {
  }

  lemma {:induction false} SwallowLexes(w: string)
    requires BlockEnd(w).None?
    ensures Lex("/*" + w) == OpenBlock
  {
    hide BlockEnd;
    assert ("/*" + w)[2..] == w;
  }

  /** Text after the last terminator fails the script; only whitespace may stand there. */
  lemma {:induction false} ResidueFails(a: string, st: string)
    requires Parse(a).Statements? && !EndsInLineComment(a) && Ordinary(st)
    ensures Blank(st) ==> Parse(a + st) == Parse(a)
    ensures !Blank(st) ==> Parse(a + st) in {Failed(UnterminatedStatement), Panicked}
    ensures !Blank(st) && Utf8Length(st) <= 50 ==> Parse(a + st) == Failed(UnterminatedStatement)
  {
    hide Lex, Cut, Trim, Keep, Utf8Length, IsCharBoundary;
    Composition(a, st);
    OrdinaryLexes(st);
    LexVerbatim(st);
    CutPlain(Lex(st).toks);
    ParseTokens(st);
    TrimBlank(st);
    if Blank(st) { KeepBlank(st); }
    TrimShorter(st);
  }

  lemma {:induction false} Utf8Split(a: string, b: string)
    ensures Utf8Length(a + b) == Utf8Length(a) + Utf8Length(b)
  {
    if a == [] { assert a + b == b; }
    else {
      assert (a + b)[1..] == a[1..] + b;
      Utf8Split(a[1..], b);
    }
  }

  lemma {:induction false} TrimShorter(s: string)
    ensures Utf8Length(Trim(s)) <= Utf8Length(s)
  {
    var a, b := TrimExactly(s);
    Utf8Split(a + Trim(s), b);
    Utf8Split(a, Trim(s));
  }
}
