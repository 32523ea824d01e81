/** Printing statements with `;` terminators and parsing them again. */
module ScriptRoundTrip {
  import opened Prelude
  import opened Script
  import opened ScriptLaws

  function Print(stmts: seq<string>): string {
    if stmts == [] then "" else stmts[0] + ";" + Print(stmts[1..])
  }

  predicate Plain(t: Token) { t.Text? || t.Quoted? }

  predicate AllPlain(t: seq<Token>) { forall k :: 0 <= k < |t| ==> Plain(t[k]) }

  /** A trimmed, non-empty text of strings and ordinary characters only. */
  predicate Clean(st: string) {
    st != "" && Trim(st) == st && Lex(st).Tokens? && AllPlain(Lex(st).toks)
  }

  predicate NoBlockComment(s: string) {
    Lex(s).Tokens? && BlockComment !in Lex(s).toks
  }

  // ----- clean statements parse back -----

  lemma {:induction false} LexVerbatim(s: string)
    requires Lex(s).Tokens? && AllPlain(Lex(s).toks)
    ensures RenderAll(Lex(s).toks) == s
    decreases |s|
  {
    hide Lex;
    LexEmpty();
    if s != [] {
      var first, n := GetFront(s);
      var more := Lex(s[n..]).toks;
      assert Lex(s).toks[0] == first && Lex(s).toks[1..] == more;
      LexVerbatim(s[n..]);
      assert Render(first) == s[..n];
      assert s == s[..n] + s[n..];
    }
  }

  lemma {:induction false} CutPlain(t: seq<Token>)
    requires AllPlain(t)
    ensures Cut(t) == [RenderAll(t)]
  {
    if t != [] { CutPlain(t[1..]); }
  }

  lemma {:induction false} CleanParses(st: string)
    requires Clean(st)
    ensures Parse(st + ";") == Statements([st])
    ensures !EndsInLineComment(st + ";")
  {
    hide Lex, Cut, Keep, Trim;
    var t := Lex(st).toks;
    LexVerbatim(st);
    CutPlain(t);
    LexSemicolon();
    LexQuotedBody(st);
    LexAppend(st, ";");
    ParseTokens(st + ";");
    CutAppend(t, [Terminator]);
    assert st + "" == st;
    assert Cut(t + [Terminator]) == [st, ""];
    KeepPair(st);
  }

  lemma {:induction false} RoundTrip(stmts: seq<string>)
    requires forall k :: 0 <= k < |stmts| ==> Clean(stmts[k])
    ensures Parse(Print(stmts)) == Statements(stmts)
  {
    if stmts == [] {
      LexEmpty();
      ParseTokens("");
      assert Keep([""]) == [];
    } else {
      hide Parse;
      CleanParses(stmts[0]);
      RoundTrip(stmts[1..]);
      Composition(stmts[0] + ";", Print(stmts[1..]));
      assert [stmts[0]] + stmts[1..] == stmts;
    }
  }

  // ----- adjacent tokens are never one token in disguise -----

  /** The two tokens, written side by side, are read as the same two tokens. */
  predicate Apart(x: Token, y: Token) {
    !(x == Text('-') && y == Text('-')) && !(x == Text('/') && y == Text('*')) &&
    (x.Quoted? && y.Quoted? ==> x.body != [] && y.body != [] && Last(x.body) != y.body[0])
  }

  predicate Lexeme(t: Token) {
    match t
    case Text(c) => !IsQuote(c) && c != ';'
    case Quoted(body) => |body| >= 2 && IsQuote(body[0]) && Last(body) == body[0]
                         && StringEnd(body[0], body[1..]) == Some(|body| - 1)
    case _ => true
  }

  predicate Spaced(t: seq<Token>) {
    (forall k :: 0 <= k < |t| ==> Lexeme(t[k])) &&
    (forall k :: 0 < k < |t| ==> Apart(t[k - 1], t[k]))
  }

  lemma {:induction false} SpacedPrepend(x: Token, t: seq<Token>)
    requires Lexeme(x) && Spaced(t) && (t != [] ==> Apart(x, t[0]))
    ensures Spaced([x] + t)
  {
    var u := [x] + t;
    forall k | 0 < k < |u| ensures Apart(u[k - 1], u[k]) {
      if k > 1 { assert u[k - 1] == t[k - 2] && u[k] == t[k - 1]; }
    }
  }

  lemma {:induction false} SpacedSlice(t: seq<Token>, i: nat, j: nat)
    requires Spaced(t) && i <= j <= |t|
    ensures Spaced(t[i..j])
  {
    var u := t[i..j];
    forall k | 0 < k < |u| ensures Apart(u[k - 1], u[k]) {
      assert u[k - 1] == t[i + k - 1] && u[k] == t[i + k];
    }
  }

  lemma {:induction false} StringEndPrefix(q: char, s: string)
    requires StringEnd(q, s).Some?
    ensures StringEnd(q, s[..StringEnd(q, s).value]) == StringEnd(q, s)
    ensures var k := StringEnd(q, s).value; k < |s| ==> s[k] != q
  {
    StringEndUnfold(q, s);
    if !(s[0] == q && (|s| == 1 || s[1] != q)) {
      var n := if s[0] == q then 2 else 1;
      StringEndPrefix(q, s[n..]);
      hide StringEnd;
      var k := StringEnd(q, s).value;
      assert s[..k][n..] == s[n..][..k - n];
      StringEndUnfold(q, s[..k]);
    }
  }

  lemma {:induction false} StringEndUnfold(q: char, s: string)
    ensures s == "" ==> StringEnd(q, s) == None
    ensures s != "" && s[0] == q && (|s| == 1 || s[1] != q) ==> StringEnd(q, s) == Some(1)
    ensures s != "" && !(s[0] == q && (|s| == 1 || s[1] != q)) ==>
              var n := if s[0] == q then 2 else 1;
              var more := StringEnd(q, s[n..]);
              StringEnd(q, s) == if more.None? then None else Some(more.value + n)
  {
  }

  lemma {:induction false} FrontLexeme(s: string, first: Token, n: nat)
    requires Front(s, first, n)
    ensures Lexeme(first)
    ensures n < |s| && first == Text('-') ==> s[n] != '-'
    ensures n < |s| && first == Text('/') ==> s[n] != '*'
    ensures n < |s| && first.Quoted? ==> s[n] != Last(first.body)
    ensures first.Text? ==> first.c == s[0]
    ensures first.Quoted? ==> first.body[0] == s[0]
  {
    hide LineEnd, BlockEnd, StringEnd;
    if !Opens(s, '-', '-') && !Opens(s, '/', '*') && IsQuote(s[0]) {
      StringEndPrefix(s[0], s[1..]);
      assert s[..n][1..] == s[1..][..n - 1];
      if n < |s| { assert s[n] == s[1..][n - 1]; }
    }
  }

  lemma {:induction false} LexSpaced(s: string)
    requires Lex(s).Tokens?
    ensures Spaced(Lex(s).toks)
    decreases |s|
  {
    hide Lex;
    LexEmpty();
    if s != [] {
      var first, n := GetFront(s);
      var more := Lex(s[n..]).toks;
      LexSpaced(s[n..]);
      FrontLexeme(s, first, n);
      if more != [] {
        var next, m := GetFront(s[n..]);
        assert more[0] == next;
        FrontLexeme(s[n..], next, m);
        assert s[n..][0] == s[n];
      }
      SpacedPrepend(first, more);
    }
  }

  lemma {:induction false} RenderFirst(t: seq<Token>)
    requires AllPlain(t) && Spaced(t) && t != []
    ensures RenderAll(t) == Render(t[0]) + RenderAll(t[1..])
    ensures RenderAll(t) != [] && RenderAll(t)[0] == Render(t[0])[0]
  {
  }

  /** Spaced tokens are what their own text lexes to. */
  lemma {:induction false} Relex(t: seq<Token>)
    requires AllPlain(t) && Spaced(t)
    ensures Lex(RenderAll(t)) == Tokens(t)
  {
    hide Lex, StringEnd, Front, RenderAll;
    LexEmpty();
    RenderNone();
    if t != [] {
      SpacedSlice(t, 1, |t|);
      Relex(t[1..]);
      RenderFirst(t);
      var s, n, rest := RenderAll(t), |Render(t[0])|, RenderAll(t[1..]);
      if |t| > 1 {
        RenderFirst(t[1..]);
        assert t[1..][0] == t[1] && Apart(t[0], t[1]);
      }
      assert s[n..] == rest;
      FrontOfPlain(t[0], rest);
      LexFront(s, t[0], n);
    }
  }

  lemma {:induction false} FrontOfPlain(x: Token, rest: string)
    requires Plain(x) && Lexeme(x)
    requires rest != [] ==> !(x == Text('-') && rest[0] == '-') && !(x == Text('/') && rest[0] == '*')
    requires rest != [] && x.Quoted? ==> rest[0] != Last(x.body)
    ensures Front(Render(x) + rest, x, |Render(x)|)
  {
    hide LineEnd, BlockEnd, StringEnd;
    if x.Quoted? {
      var b := x.body;
      var s := b + rest;
      assert s[1..] == b[1..] + rest;
      StringEndAppend(b[0], b[1..], rest);
      assert s[..|b|] == b;
    }
  }

  // ----- a script without block comments yields clean statements -----

  /** Tokens of a script with no block comment; an open line comment comes last. */
  predicate Uncommented(t: seq<Token>) {
    Spaced(t) && BlockComment !in t &&
    forall k :: 0 <= k < |t| - 1 ==> t[k] != LineComment(false)
  }

  lemma {:induction false} LexUncommented(s: string)
    requires Lex(s).Tokens?
    ensures forall k :: 0 <= k < |Lex(s).toks| - 1 ==> Lex(s).toks[k] != LineComment(false)
    decreases |s|
  {
    hide Lex;
    LexEmpty();
    if s != [] {
      var first, n := GetFront(s);
      LexUncommented(s[n..]);
      if first == LineComment(false) { assert s[n..] == []; }
    }
  }

  /** The tokens up to the first terminator, with line comments as newlines. */
  function FirstPiece(t: seq<Token>): seq<Token> {
    if t == [] || t[0] == Terminator || t[0] == LineComment(false) then []
    else [if t[0].LineComment? then Text('\n') else t[0]] + FirstPiece(t[1..])
  }

  lemma {:induction false} FirstPieceFaithful(t: seq<Token>)
    requires Uncommented(t)
    ensures AllPlain(FirstPiece(t)) && Spaced(FirstPiece(t))
    ensures RenderAll(FirstPiece(t)) == Cut(t)[0]
  {
    hide StringEnd;
    if t != [] {
      if t[0] == LineComment(false) {
        assert t[1..] == [];
        assert "" + "" == "";
      } else if t[0] != Terminator {
        SpacedSlice(t, 1, |t|);
        var rest := t[1..];
        forall k | 0 <= k < |rest| - 1 ensures rest[k] != LineComment(false) {
          assert rest[k] == t[k + 1];
        }
        FirstPieceFaithful(rest);
        var x := if t[0].LineComment? then Text('\n') else t[0];
        var p := FirstPiece(rest);
        if p != [] {
          assert Apart(t[0], t[1]) && t[1] == rest[0];
          assert p[0] == if rest[0].LineComment? then Text('\n') else rest[0];
        }
        SpacedPrepend(x, p);
        assert ([x] + p)[1..] == p;
      }
    }
  }

  lemma {:induction false} CutTail(t: seq<Token>, i: nat)
    requires 0 < i < |Cut(t)|
    ensures t != [] && Cut(t)[i] == Cut(t[1..])[if t[0] == Terminator then i - 1 else i]
    ensures i - (if t[0] == Terminator then 1 else 0) < |Cut(t[1..])|
  {
  }

  lemma {:induction false} PieceOf(t: seq<Token>, i: nat) returns (p: seq<Token>)
    requires Uncommented(t) && i < |Cut(t)|
    ensures AllPlain(p) && Spaced(p) && RenderAll(p) == Cut(t)[i]
  {
    hide Cut;
    if i == 0 {
      FirstPieceFaithful(t);
      p := FirstPiece(t);
    } else {
      CutTail(t, i);
      SpacedSlice(t, 1, |t|);
      var rest := t[1..];
      forall k | 0 <= k < |rest| - 1 ensures rest[k] != LineComment(false) {
        assert rest[k] == t[k + 1];
      }
      p := PieceOf(rest, if t[0] == Terminator then i - 1 else i);
    }
  }

  lemma {:induction false} RenderAppend(t: seq<Token>, u: seq<Token>)
    ensures RenderAll(t + u) == RenderAll(t) + RenderAll(u)
  {
    if t == [] {
      assert t + u == u;
    } else {
      assert (t + u)[1..] == t[1..] + u;
      RenderAppend(t[1..], u);
    }
  }

  lemma {:induction false} TrimStartPiece(p: seq<Token>) returns (r: seq<Token>)
    requires AllPlain(p) && Spaced(p)
    ensures AllPlain(r) && Spaced(r) && RenderAll(r) == TrimStart(RenderAll(p))
  {
    hide StringEnd;
    if p != [] && p[0].Text? && IsWhitespace(p[0].c) {
      SpacedSlice(p, 1, |p|);
      r := TrimStartPiece(p[1..]);
      assert RenderAll(p)[1..] == RenderAll(p[1..]);
    } else {
      r := p;
      if p != [] { RenderFirst(p); }
    }
  }

  lemma {:induction false} TrimEndPiece(p: seq<Token>) returns (r: seq<Token>)
    requires AllPlain(p) && Spaced(p)
    ensures AllPlain(r) && Spaced(r) && RenderAll(r) == TrimEnd(RenderAll(p))
  {
    hide StringEnd, RenderAll, TrimEnd;
    r := p;
    var s := RenderAll(p);
    TrimEndStep(s);
    if p == [] {
      RenderNone();
    } else {
      var init, last := p[..|p| - 1], Last(p);
      assert p == init + [last];
      RenderAppend(init, [last]);
      RenderOne(last);
      assert s[|s| - 1] == Last(Render(last));
      if last.Text? && IsWhitespace(last.c) {
        SpacedSlice(p, 0, |p| - 1);
        assert s[..|s| - 1] == RenderAll(init);
        r := TrimEndPiece(init);
      }
    }
  }

  lemma {:induction false} TrimEndStep(s: string)
    ensures TrimEnd(s) == if s != [] && IsWhitespace(s[|s| - 1]) then TrimEnd(s[..|s| - 1]) else s
  {
  }

  lemma {:induction false} RenderNone()
    ensures RenderAll([]) == ""
  {
  }

  lemma {:induction false} RenderOne(x: Token)
    ensures RenderAll([x]) == Render(x)
  {
    assert [x][1..] == [];
  }

  lemma {:induction false} KeepMember(texts: seq<string>, k: nat) returns (i: nat)
    requires k < |Keep(texts)|
    ensures i < |texts| && Keep(texts)[k] == Trim(texts[i]) != ""
  {
    var front := if Trim(texts[0]) == "" then 0 else 1;
    if k < front {
      i := 0;
    } else {
      i := KeepMember(texts[1..], k - front);
      i := i + 1;
    }
  }

  lemma {:induction false} StatementsClean(s: string)
    requires Parse(s).Statements? && NoBlockComment(s)
    ensures forall k :: 0 <= k < |Parse(s).stmts| ==> Clean(Parse(s).stmts[k])
  {
    hide Lex, Cut;
    var t := Lex(s).toks;
    ParseTokens(s);
    ParsedBlank(t);
    LexSpaced(s);
    LexUncommented(s);
    var stmts := Parse(s).stmts;
    forall k | 0 <= k < |stmts| ensures Clean(stmts[k]) {
      var i := KeepMember(Cut(t), k);
      var p := PieceOf(t, i);
      var q := TrimStartPiece(p);
      var r := TrimEndPiece(q);
      Relex(r);
      TrimIdempotent(Cut(t)[i]);
    }
  }

  /** Parsing, printing and parsing again is the same as parsing. */
  lemma {:induction false} ReparseIdempotent(s: string)
    requires Parse(s).Statements? && NoBlockComment(s)
    ensures Parse(Print(Parse(s).stmts)) == Parse(s)
  {
    StatementsClean(s);
    RoundTrip(Parse(s).stmts);
  }

  /** It is not so in general: a block comment can hold two dashes apart. */
  lemma {:induction false} BlockCommentCounterexample()
    ensures Parse("-/**/-x;") == Statements(["--x"])
    ensures Parse(Print(["--x"])) == Statements([])
  {
    hide Lex, Cut, Trim, Conclude;
    LexDashes();
    ParseTokens("-/**/-x;");
    CutDashes();
    TrimDashes();
    KeepPair("--x");
    assert Print(["--x"]) == "--x;" by { assert ["--x"][1..] == []; assert "--x" + ";" + "" == "--x;"; }
    LexDashComment();
    ParseTokens("--x;");
  }

  lemma {:induction false} TrimDashes()
    ensures Trim("--x") == "--x"
    ensures Cut([LineComment(false)]) == [""] && Conclude([], [""]) == Statements([])
  {
    KeepBlank("");
  }

  lemma {:induction false} LexDashComment()
    ensures Lex("--x;") == Tokens([LineComment(false)])
  {
    hide Lex;
    LexEmpty();
    assert "--x;"[2..] == "x;" && LineEnd("x;") == 2;
    LexFront("--x;", LineComment(false), 4);
  }

  lemma {:induction false} LexDashes()
    ensures Lex("-/**/-x;") == Tokens([Text('-'), BlockComment, Text('-'), Text('x'), Terminator])
  {
    hide Lex;
    LexSemicolon();
    LexFront("x;", Text('x'), 1);
    LexFront("-x;", Text('-'), 1);
    BlockThenDash();
    LexFront("-/**/-x;", Text('-'), 1);
    assert "x;"[1..] == ";" && "-x;"[1..] == "x;" && "-/**/-x;"[1..] == "/**/-x;";
  }

  lemma {:induction false} BlockThenDash()
    ensures Lex("/**/-x;") == Prepend(BlockComment, Lex("-x;"))
  {
    hide Lex;
    assert "/**/-x;"[2..] == "*/-x;" && BlockEnd("*/-x;") == Some(2);
    LexFront("/**/-x;", BlockComment, 4);
  }

  lemma {:induction false} CutDashes()
    ensures Cut([Text('-'), BlockComment, Text('-'), Text('x'), Terminator]) == ["--x", ""]
  {
    hide Cut;
    LexSemicolon();
    var a := [Text('x')] + [Terminator];
    var b := [Text('-')] + a;
    var c := [BlockComment] + b;
    CutStep(Text('x'), [Terminator], "", "x");
    CutStep(Text('-'), a, "x", "-x");
    CutStep(BlockComment, b, "-x", "-x");
    CutStep(Text('-'), c, "-x", "--x");
    assert [Text('-'), BlockComment, Text('-'), Text('x'), Terminator] == [Text('-')] + c;
  }

  // ----- exactly the clean statements survive -----

  function Length(texts: seq<string>): nat {
    if texts == [] then 0 else |texts[0]| + Length(texts[1..])
  }

  function Blocks(t: seq<Token>): nat {
    if t == [] then 0 else (if t[0] == BlockComment then 1 else 0) + Blocks(t[1..])
  }

  lemma {:induction false} NoBlocks(t: seq<Token>)
    requires Blocks(t) == 0
    ensures BlockComment !in t
  {
    if t != [] { NoBlocks(t[1..]); }
  }

  lemma {:induction false} LexCost(s: string)
    requires Lex(s).Tokens?
    ensures var t := Lex(s).toks; Length(Cut(t)) + |Cut(t)| - 1 + 2 * Blocks(t) <= |s|
    decreases |s|
  {
    hide Lex;
    LexEmpty();
    if s != [] {
      var first, n := GetFront(s);
      var more := Lex(s[n..]).toks;
      LexCost(s[n..]);
      var t := Lex(s).toks;
      assert t[0] == first && t[1..] == more;
      assert |Render(first)| <= n;
      if first == Terminator {
        assert ([""] + Cut(more))[1..] == Cut(more);
      } else {
        assert Glue(Render(first), Cut(more))[1..] == Cut(more)[1..];
      }
    }
  }

  lemma {:induction false} KeepCost(texts: seq<string>)
    ensures Length(Keep(texts)) <= Length(texts) && |Keep(texts)| <= |texts|
    ensures texts != [] && Blank(Last(texts)) ==> |Keep(texts)| <= |texts| - 1
  {
    if texts != [] {
      KeepCost(texts[1..]);
      TrimBlank(texts[0]);
      var rest := Keep(texts[1..]);
      assert ([Trim(texts[0])] + rest)[1..] == rest && [] + rest == rest;
      if |texts| > 1 { assert Last(texts) == Last(texts[1..]); }
    }
  }

  lemma {:induction false} PrintCost(stmts: seq<string>)
    ensures |Print(stmts)| == Length(stmts) + |stmts|
  {
    if stmts != [] { PrintCost(stmts[1..]); }
  }

  lemma {:induction false} PrintParseExactly(stmts: seq<string>)
    ensures Parse(Print(stmts)) == Statements(stmts)
       <==> forall k :: 0 <= k < |stmts| ==> Clean(stmts[k])
  {
    if Parse(Print(stmts)) == Statements(stmts) {
      hide Lex, Clean;
      var s := Print(stmts);
      var t := Lex(s).toks;
      ParseTokens(s);
      ParsedBlank(t);
      PrintCost(stmts);
      LexCost(s);
      KeepCost(Cut(t));
      NoBlocks(t);
      StatementsClean(s);
    } else if forall k :: 0 <= k < |stmts| ==> Clean(stmts[k]) {
      RoundTrip(stmts);
    }
  }
}
