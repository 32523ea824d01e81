/** What callers may rely on: scripts compose, printed statements parse back, and
    exactly which statements survive being printed and parsed again. */
module ScriptLaws {
  import opened Prelude
  import opened Script

  // ----- trimming -----

  predicate Blank(s: string) { forall i :: 0 <= i < |s| ==> IsWhitespace(s[i]) }

  lemma {:induction false} TrimStartSuffix(s: string)
    ensures TrimStart(s) == "" <==> Blank(s)
    ensures TrimStart(s) != "" ==> !IsWhitespace(TrimStart(s)[0])
    ensures |TrimStart(s)| <= |s|
  {
    if s != [] && IsWhitespace(s[0]) {
      TrimStartSuffix(s[1..]);
      assert s == [s[0]] + s[1..];
    }
  }

  lemma {:induction false} TrimEndPrefix(s: string)
    ensures |TrimEnd(s)| <= |s| && TrimEnd(s) == s[..|TrimEnd(s)|]
    ensures TrimEnd(s) != "" ==> !IsWhitespace(TrimEnd(s)[|TrimEnd(s)| - 1])
    ensures TrimEnd(s) == "" <==> Blank(s)
  {
    if s != [] && IsWhitespace(s[|s| - 1]) {
      TrimEndPrefix(s[..|s| - 1]);
      assert s == s[..|s| - 1] + [s[|s| - 1]];
    }
  }

  lemma {:induction false} TrimBlank(s: string)
    ensures Trim(s) == "" <==> Blank(s)
    ensures |Trim(s)| <= |s|
  {
    TrimStartSuffix(s);
    TrimEndPrefix(TrimStart(s));
  }

  lemma {:induction false} TrimIdempotent(s: string)
    ensures Trim(Trim(s)) == Trim(s)
  {
    var u := TrimStart(s);
    TrimStartSuffix(s);
    TrimEndPrefix(u);
  }

  lemma {:induction false} TrimBlankFront(b: string, s: string)
    requires Blank(b)
    ensures Trim(b + s) == Trim(s)
  {
    if b == [] {
      assert b + s == s;
    } else {
      assert (b + s)[1..] == b[1..] + s;
      TrimBlankFront(b[1..], s);
    }
  }

  // ----- lexing a concatenation -----

  function Last<T>(s: seq<T>): T
    requires s != []
  {
    s[|s| - 1]
  }

  function Join(t: seq<Token>, l: Lexed): Lexed {
    match l
    case Tokens(u) => Tokens(t + u)
    case _ => l
  }

  /** No lookahead of the tokens `t` reaches into `b`. */
  predicate Sealed(t: seq<Token>, b: string) {
    t == [] || match Last(t)
      case Text(c) => b == [] || (!(c == '-' && b[0] == '-') && !(c == '/' && b[0] == '*'))
      case Quoted(body) => b == [] || (body != [] && Last(body) != b[0])
      case LineComment(newline) => newline
      case BlockComment => true
      case Terminator => true
  }

  lemma {:induction false} LineEndAppend(s: string, b: string)
    ensures LineEnd(s) < |s| ==> LineEnd(s + b) == LineEnd(s)
    ensures LineEnd(s) == |s| ==> LineEnd(s + b) == |s| + LineEnd(b)
  {
    if s == [] {
      assert s + b == b;
    } else if s[0] != '\n' {
      assert (s + b)[1..] == s[1..] + b;
      LineEndAppend(s[1..], b);
    }
  }

  lemma {:induction false} BlockEndAppend(s: string, b: string)
    requires BlockEnd(s).Some?
    ensures BlockEnd(s + b) == BlockEnd(s)
  {
    if !(s[0] == '*' && s[1] == '/') {
      var n := if s[0] == '/' && s[1] == '*' then 2 else 1;
      assert (s + b)[n..] == s[n..] + b;
      BlockEndAppend(s[n..], b);
    }
  }

  lemma {:induction false} StringEndAppend(q: char, s: string, b: string)
    requires StringEnd(q, s).Some?
    requires StringEnd(q, s).value < |s| || b == [] || b[0] != q
    ensures StringEnd(q, s + b) == StringEnd(q, s)
  {
    if s[0] == q && (|s| == 1 || s[1] != q) {
      assert |s + b| > 1 ==> (s + b)[1] != q;
    } else {
      var n := if s[0] == q then 2 else 1;
      assert (s + b)[n..] == s[n..] + b;
      StringEndAppend(q, s[n..], b);
    }
  }

  lemma {:induction false} JoinPrepend(t: Token, toks: seq<Token>, l: Lexed)
    ensures Prepend(t, Join(toks, l)) == Join([t] + toks, l)
  {
    if l.Tokens? { assert [t] + (toks + l.toks) == ([t] + toks) + l.toks; }
  }

  /** `first` is the first token of `a` and takes its first `n` characters. */
  predicate Front(a: string, first: Token, n: nat) {
    1 <= n <= |a| &&
    if Opens(a, '-', '-') then
      var k := LineEnd(a[2..]);
      if k < |a| - 2 then first == LineComment(true) && n == k + 3
      else first == LineComment(false) && n == |a|
    else if Opens(a, '/', '*') then first == BlockComment && BlockEnd(a[2..]) == Some(n - 2)
    else if IsQuote(a[0]) then first == Quoted(a[..n]) && StringEnd(a[0], a[1..]) == Some(n - 1)
    else n == 1 && first == (if a[0] == ';' then Terminator else Text(a[0]))
  }

  lemma {:induction false} LexFront(a: string, first: Token, n: nat)
    requires Front(a, first, n)
    ensures Lex(a) == Prepend(first, Lex(a[n..]))
  {
    hide LineEnd, BlockEnd, StringEnd, LexLine, LexBlock, LexString;
    if Opens(a, '-', '-') {
      LexLineFront(a, n);
    } else if Opens(a, '/', '*') {
      LexBlockFront(a, n);
    } else if IsQuote(a[0]) {
      LexStringFront(a, n);
    }
  }

  lemma {:induction false} LexLineFront(a: string, n: nat)
    requires |a| >= 2 && n == (if LineEnd(a[2..]) < |a| - 2 then LineEnd(a[2..]) + 3 else |a|)
    ensures LexLine(a[2..]) == Prepend(LineComment(LineEnd(a[2..]) < |a| - 2), Lex(a[n..]))
  {
    hide LineEnd;
    if LineEnd(a[2..]) < |a| - 2 {
      assert a[2..][LineEnd(a[2..]) + 1..] == a[n..];
    } else {
      assert a[n..] == [];
    }
  }

  lemma {:induction false} LexBlockFront(a: string, n: nat)
    requires 2 <= n <= |a| && BlockEnd(a[2..]) == Some(n - 2)
    ensures LexBlock(a[2..]) == Prepend(BlockComment, Lex(a[n..]))
  {
    hide BlockEnd, Lex;
    assert a[2..][n - 2..] == a[n..];
  }

  lemma {:induction false} LexStringFront(a: string, n: nat)
    requires 1 <= n <= |a| && StringEnd(a[0], a[1..]) == Some(n - 1)
    ensures LexString(a[0], [a[0]], a[1..]) == Prepend(Quoted(a[..n]), Lex(a[n..]))
  {
    hide StringEnd, Lex;
    assert a[1..][n - 1..] == a[n..];
    assert [a[0]] + a[1..][..n - 1] == a[..n];
  }

  lemma {:induction false} GetFront(a: string) returns (first: Token, n: nat)
    requires a != [] && Lex(a).Tokens?
    ensures Front(a, first, n)
    ensures Lex(a[n..]).Tokens? && Lex(a).toks == [first] + Lex(a[n..]).toks
  {
    if Opens(a, '-', '-') {
      var k := LineEnd(a[2..]);
      first := LineComment(k < |a| - 2);
      n := if k < |a| - 2 then k + 3 else |a|;
    } else if Opens(a, '/', '*') {
      first, n := BlockComment, BlockEnd(a[2..]).value + 2;
    } else if IsQuote(a[0]) {
      n := StringEnd(a[0], a[1..]).value + 1;
      first := Quoted(a[..n]);
    } else {
      first, n := if a[0] == ';' then Terminator else Text(a[0]), 1;
    }
    LexFront(a, first, n);
  }

  lemma {:induction false} FrontAppend(a: string, b: string, first: Token, n: nat)
    requires Front(a, first, n) && first != LineComment(false)
    requires n < |a| || Sealed([first], b)
    ensures Front(a + b, first, n) && (a + b)[n..] == a[n..] + b
  {
    hide LineEnd, BlockEnd, StringEnd;
    var ab := a + b;
    if Opens(a, '-', '-') {
      assert ab[2..] == a[2..] + b;
      LineEndAppend(a[2..], b);
    } else if Opens(a, '/', '*') {
      assert ab[2..] == a[2..] + b;
      BlockEndAppend(a[2..], b);
    } else if IsQuote(a[0]) {
      FrontAppendString(a, b, n);
    } else {
      assert n < |a| ==> ab[1] == a[1];
      assert !Opens(ab, '-', '-') && !Opens(ab, '/', '*');
    }
  }

  lemma {:induction false} FrontAppendString(a: string, b: string, n: nat)
    requires n <= |a| && a != [] && IsQuote(a[0]) && Front(a, Quoted(a[..n]), n)
    requires n < |a| || Sealed([Quoted(a[..n])], b)
    ensures Front(a + b, Quoted(a[..n]), n)
  {
    hide LineEnd, BlockEnd, StringEnd;
    var ab := a + b;
    assert ab[1..] == a[1..] + b;
    assert Last(a[..n]) == a[1..][n - 2] == a[0];
    StringEndAppend(a[0], a[1..], b);
    assert ab[..n] == a[..n];
    assert !Opens(ab, '-', '-') && !Opens(ab, '/', '*');
  }

  lemma {:induction false} LexAppend(a: string, b: string)
    requires Lex(a).Tokens? && Sealed(Lex(a).toks, b)
    ensures Lex(a + b) == Join(Lex(a).toks, Lex(b))
    decreases |a|
  {
    hide Lex;
    if a == [] {
      assert a + b == b && Lex([]) == Tokens([]) by { LexEmpty(); }
      if Lex(b).Tokens? { assert [] + Lex(b).toks == Lex(b).toks; }
    } else {
      var first, n := GetFront(a);
      var more := Lex(a[n..]).toks;
      if n == |a| { assert a[n..] == []; LexEmpty(); }
      SealedTail(first, more, b);
      LexAppend(a[n..], b);
      FrontAppend(a, b, first, n);
      LexFront(a + b, first, n);
      JoinPrepend(first, more, Lex(b));
    }
  }

  lemma {:induction false} LexEmpty()
    ensures Lex([]) == Tokens([])
  {
  }

  lemma {:induction false} SealedTail(first: Token, more: seq<Token>, b: string)
    requires Sealed([first] + more, b)
    ensures Sealed(more, b)
  {
    if more != [] { assert Last([first] + more) == Last(more); }
  }

  // ----- cutting a concatenation -----

  lemma {:induction false} CutAppend(t: seq<Token>, u: seq<Token>)
    ensures Cut(t + u) == Cut(t)[..|Cut(t)| - 1] + Glue(Last(Cut(t)), Cut(u))
  {
    hide Cut;
    CutUnfold(t);
    if t == [] {
      assert t + u == u;
      assert "" + Cut(u)[0] == Cut(u)[0];
    } else {
      assert (t + u)[1..] == t[1..] + u;
      CutAppend(t[1..], u);
      CutUnfold(t + u);
      var c, v := Cut(t[1..]), Cut(u);
      if t[0] == Terminator {
        assert ([""] + c)[..|c|] == [""] + c[..|c| - 1];
      } else {
        GlueSeam(Render(t[0]), c, v);
      }
    }
  }

  lemma {:induction false} CutUnfold(t: seq<Token>)
    ensures t == [] ==> Cut(t) == [""]
    ensures t != [] && t[0] == Terminator ==> Cut(t) == [""] + Cut(t[1..])
    ensures t != [] && t[0] != Terminator ==> Cut(t) == Glue(Render(t[0]), Cut(t[1..]))
  {
  }

  lemma {:induction false} GlueSeam(x: string, c: seq<string>, v: seq<string>)
    requires c != [] && v != []
    ensures Glue(x, c[..|c| - 1] + Glue(Last(c), v)) == Glue(x, c)[..|c| - 1] + Glue(Last(Glue(x, c)), v)
  {
    if |c| == 1 {
      GlueGlue(x, c[0], v);
      assert c[..0] + Glue(c[0], v) == Glue(c[0], v);
    }
  }

  lemma {:induction false} KeepAppend(a: seq<string>, b: seq<string>)
    ensures Keep(a + b) == Keep(a) + Keep(b)
  {
    if a == [] {
      assert a + b == b;
    } else {
      assert (a + b)[1..] == a[1..] + b;
      KeepAppend(a[1..], b);
    }
  }

  /** The residue of a script ends with what its last token renders to. */
  lemma {:induction false} ResidueEnd(t: seq<Token>)
    requires t != [] && Last(t) != Terminator && Render(Last(t)) != ""
    ensures Last(Cut(t)) != "" && Last(Last(Cut(t))) == Last(Render(Last(t)))
  {
    var init, last := t[..|t| - 1], Last(t);
    assert t == init + [last];
    CutAppend(init, [last]);
    CutOne(last);
  }

  // ----- composition -----

  function After(stmts: seq<string>, o: Outcome): Outcome {
    match o
    case Statements(more) => Statements(stmts + more)
    case _ => o
  }

  predicate EndsInLineComment(s: string) {
    Lex(s).Tokens? && Lex(s).toks != [] && Last(Lex(s).toks) == LineComment(false)
  }

  lemma {:induction false} LexQuotedBody(a: string)
    requires Lex(a).Tokens?
    ensures forall k :: 0 <= k < |Lex(a).toks| && Lex(a).toks[k].Quoted? ==>
              |Lex(a).toks[k].body| >= 2 && IsQuote(Last(Lex(a).toks[k].body))
    decreases |a|
  {
    if a != [] {
      var first, n := GetFront(a);
      LexQuotedBody(a[n..]);
    }
  }

  /** A script that parses, and does not stop inside a line comment, seals itself. */
  lemma {:induction false} ParsedIsSealed(a: string, b: string)
    requires Parse(a).Statements? && !EndsInLineComment(a)
    ensures Sealed(Lex(a).toks, b)
  {
    hide Lex, Cut;
    var t := Lex(a).toks;
    var residue := Last(Cut(t));
    ParseTokens(a);
    ParsedBlank(t);
    if t != [] && (Last(t).Text? || Last(t).Quoted?) {
      LexQuotedBody(a);
      ResidueEnd(t);
      assert IsWhitespace(Last(residue));
    }
  }

  lemma {:induction false} KeepGlueBlank(b: string, texts: seq<string>)
    requires Blank(b) && texts != []
    ensures Keep(Glue(b, texts)) == Keep(texts)
    ensures Trim(Last(Glue(b, texts))) == Trim(Last(texts))
  {
    TrimBlankFront(b, texts[0]);
  }

  lemma {:induction false} GlueEmpty(texts: seq<string>)
    requires texts != []
    ensures Glue("", texts) == texts
  {
    assert "" + texts[0] == texts[0];
  }

  lemma {:induction false} ParseTokens(s: string)
    requires Lex(s).Tokens?
    ensures Parse(s) == Conclude([], Cut(Lex(s).toks))
  {
    GlueEmpty(Cut(Lex(s).toks));
  }

  lemma {:induction false} KeepBlank(b: string)
    requires Blank(b)
    ensures Keep([b]) == []
  {
    TrimBlank(b);
  }

  lemma {:induction false} KeepSeam(init: seq<string>, residue: string, v: seq<string>)
    requires v != [] && Blank(residue)
    ensures Keep(init + Glue(residue, v)) == Keep(init + [residue]) + Keep(v)
    ensures Trim(Last(init + Glue(residue, v))) == Trim(Last(v))
  {
    hide Keep, Trim;
    KeepGlueBlank(residue, v);
    KeepAppend(init, Glue(residue, v));
    KeepBlank(residue);
    KeepAppend(init, [residue]);
    assert Last(init + Glue(residue, v)) == Last(Glue(residue, v));
  }

  lemma {:induction false} ConcludeAppend(texts: seq<string>, v: seq<string>)
    requires texts != [] && v != [] && Blank(Last(texts))
    ensures Conclude([], texts[..|texts| - 1] + Glue(Last(texts), v)) == After(Keep(texts), Conclude([], v))
  {
    hide Keep, Trim, Conclude, Glue, After;
    var init := texts[..|texts| - 1];
    assert texts == init + [Last(texts)];
    KeepSeam(init, Last(texts), v);
    ConcludeSame(Keep(texts), init + Glue(Last(texts), v), v);
  }

  lemma {:induction false} ConcludeSame(front: seq<string>, w: seq<string>, v: seq<string>)
    requires w != [] && v != [] && Trim(Last(w)) == Trim(Last(v)) && Keep(w) == front + Keep(v)
    ensures Conclude([], w) == After(front, Conclude([], v))
  {
    hide Keep, Trim, Utf8Length, IsCharBoundary;
    assert [] + Keep(v) == Keep(v) && [] + Keep(w) == Keep(w);
  }

  /** `a` then `b` is `a + b`, error for error. */
  lemma {:induction false} Composition(a: string, b: string)
    requires Parse(a).Statements? && !EndsInLineComment(a)
    ensures Parse(a + b) == After(Parse(a).stmts, Parse(b))
  {
    hide Lex, Cut, Conclude;
    var t := Lex(a).toks;
    ParsedIsSealed(a, b);
    LexAppend(a, b);
    ParseTokens(a);
    ParsedBlank(t);
    if Lex(b).Tokens? {
      ParseTokens(b);
      ParseTokens(a + b);
      CutAppend(t, Lex(b).toks);
      ConcludeAppend(Cut(t), Cut(Lex(b).toks));
    }
  }

  lemma {:induction false} ParsedBlank(t: seq<Token>)
    requires Conclude([], Cut(t)).Statements?
    ensures Blank(Last(Cut(t))) && Conclude([], Cut(t)).stmts == Keep(Cut(t))
  {
    TrimBlank(Last(Cut(t)));
  }

  /** After a script that stops inside a line comment, everything up to the next
      newline is comment. */
  lemma {:induction false} LexAppendInComment(a: string, b: string)
    requires EndsInLineComment(a)
    ensures Lex(a + b) == Join(Lex(a).toks[..|Lex(a).toks| - 1], LexLine(b))
    decreases |a|
  {
    hide Lex, LexLine;
    LexEmpty();
    var first, n := GetFront(a);
    var t, more := Lex(a).toks, Lex(a[n..]).toks;
    if first == LineComment(false) {
      assert a[n..] == [];
      LexEmpty();
      OpenCommentAppend(a, b);
      assert t[..|t| - 1] == [];
      if LexLine(b).Tokens? { assert [] + LexLine(b).toks == LexLine(b).toks; }
    } else {
      assert Last(t) == Last(more);
      LexAppendInComment(a[n..], b);
      FrontAppend(a, b, first, n);
      LexFront(a + b, first, n);
      assert t[..|t| - 1] == [first] + more[..|more| - 1];
      JoinPrepend(first, more[..|more| - 1], LexLine(b));
    }
  }

  lemma {:induction false} OpenCommentAppend(a: string, b: string)
    requires Opens(a, '-', '-') && LineEnd(a[2..]) == |a| - 2
    ensures Lex(a + b) == LexLine(b)
  {
    hide LexLine, LineEnd;
    var ab := a + b;
    assert Opens(ab, '-', '-');
    assert Lex(ab) == LexLine(ab[2..]);
    assert ab[2..] == a[2..] + b;
    LexLineAppend(a[2..], b);
  }

  lemma {:induction false} LexLineAppend(s: string, b: string)
    requires LineEnd(s) == |s|
    ensures LexLine(s + b) == LexLine(b)
  {
    hide Lex;
    LineEndAppend(s, b);
    var k := LineEnd(b);
    if k < |b| { assert (s + b)[|s| + k + 1..] == b[k + 1..]; }
  }

  /** The other half: what appending does to a script that stops in a line comment. */
  lemma {:induction false} CompositionInComment(a: string, b: string)
    requires Parse(a).Statements? && EndsInLineComment(a)
    ensures Parse(a + b) ==
            if '\n' in b then After(Parse(a).stmts, Parse(b[LineEnd(b) + 1..])) else Parse(a)
  {
    hide Lex, Cut, Conclude, Keep;
    var t := Lex(a).toks;
    var t' := t[..|t| - 1];
    LexAppendInComment(a, b);
    ParseTokens(a);
    ParsedBlank(t);
    assert t == t' + [LineComment(false)];
    var k := LineEnd(b);
    if '\n' !in b {
      assert k == |b|;
      ParseTokens(a + b);
    } else {
      assert b[..|b|] == b;
      assert k < |b|;
      var more := Lex(b[k + 1..]);
      if more.Tokens? {
        ParseTokens(a + b);
        ParseTokens(b[k + 1..]);
        assert t' + ([LineComment(true)] + more.toks) == (t' + [LineComment(true)]) + more.toks;
        OpenCommentResidue(t', more.toks);
      }
    }
  }

  lemma {:induction false} OpenCommentResidue(t: seq<Token>, more: seq<Token>)
    requires Blank(Last(Cut(t + [LineComment(false)])))
    ensures Conclude([], Cut((t + [LineComment(true)]) + more))
         == After(Keep(Cut(t + [LineComment(false)])), Conclude([], Cut(more)))
  {
    hide Conclude, Keep, Cut;
    var u, v := t + [LineComment(true)], t + [LineComment(false)];
    CutOpenComment(t, LineComment(true));
    CutOpenComment(t, LineComment(false));
    assert Last(Cut(t)) + "" == Last(Cut(t));
    KeepSameBlank(Cut(v), Cut(u));
    CutAppend(u, more);
    ConcludeAppend(Cut(u), Cut(more));
  }

  lemma {:induction false} CutOpenComment(t: seq<Token>, last: Token)
    requires last.LineComment?
    ensures var c := Cut(t); Cut(t + [last]) == c[..|c| - 1] + [Last(c) + Render(last)]
  {
    CutAppend(t, [last]);
    CutOne(last);
  }

  lemma {:induction false} KeepSameBlank(x: seq<string>, y: seq<string>)
    requires x != [] && y != [] && x[..|x| - 1] == y[..|y| - 1]
    requires Blank(Last(x)) && Blank(Last(y))
    ensures Keep(x) == Keep(y)
  {
    TrimBlank(Last(x));
    TrimBlank(Last(y));
    KeepAppend(x[..|x| - 1], [Last(x)]);
    KeepAppend(y[..|y| - 1], [Last(y)]);
    assert x == x[..|x| - 1] + [Last(x)] && y == y[..|y| - 1] + [Last(y)];
    assert Keep([Last(x)]) == [] == Keep([Last(y)]);
  }

  /** So composition holds for every continuation exactly when `a` leaves no
      line comment open. */
  lemma {:induction false} CompositionExactly(a: string)
    requires Parse(a).Statements?
    ensures (forall b :: Parse(a + b) == After(Parse(a).stmts, Parse(b))) <==> !EndsInLineComment(a)
  {
    hide Parse, EndsInLineComment;
    if EndsInLineComment(a) {
      var b := "x;";
      CompositionInComment(a, b);
      XParses();
      assert '\n' !in b;
      assert |After(Parse(a).stmts, Parse(b)).stmts| == |Parse(a).stmts| + 1;
    } else {
      forall b ensures Parse(a + b) == After(Parse(a).stmts, Parse(b)) {
        Composition(a, b);
      }
    }
  }

  lemma {:induction false} XParses()
    ensures Parse("x;") == Statements(["x"])
  {
    hide Lex, Cut;
    LexSemicolon();
    assert "x;"[1..] == ";";
    LexFront("x;", Text('x'), 1);
    CutStep(Text('x'), [Terminator], "", "x");
    assert [Text('x'), Terminator] == [Text('x')] + [Terminator];
    ParseTokens("x;");
    assert Trim("x") == "x";
    KeepPair("x");
  }

  lemma {:induction false} LexSemicolon()
    ensures Lex(";") == Tokens([Terminator]) && Cut([Terminator]) == ["", ""]
  {
    assert ";"[1..] == "" && [Terminator][1..] == [];
  }

  lemma {:induction false} KeepPair(st: string)
    requires st != "" && Trim(st) == st
    ensures Conclude([], [st, ""]) == Statements([st])
  {
    assert [st, ""][1..] == [""] && Keep([""]) == [];
  }

  lemma {:induction false} CutStep(x: Token, t: seq<Token>, h: string, r: string)
    requires x != Terminator && Cut(t) == [h, ""] && Render(x) + h == r
    ensures Cut([x] + t) == [r, ""]
  {
    assert ([x] + t)[1..] == t;
  }
}
