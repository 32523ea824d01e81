/** The CQL script splitter of `cqlite-cli/src/script_executor.rs`.

    `Parse` is the meaning of a script, given by a token grammar: quoted strings
    are kept verbatim, a line comment stands for its newline, a block comment for
    nothing, and a `;` outside of these cuts.  `ParseScript` is the character loop
    of the source, proved to compute `Parse` on every input. */
module Script {

  import opened Prelude

  // ----- characters and trimming (Rust's `char::is_whitespace`, `str::trim`) -----

  predicate IsWhitespace(c: char) {
    var n := c as int;
    9 <= n <= 13 || n == 0x20 || n == 0x85 || n == 0xA0 || n == 0x1680 ||
    0x2000 <= n <= 0x200A || n == 0x2028 || n == 0x2029 || n == 0x202F ||
    n == 0x205F || n == 0x3000
  }

  function TrimStart(s: string): string {
    if s != [] && IsWhitespace(s[0]) then TrimStart(s[1..]) else s
  }

  function TrimEnd(s: string): string {
    if s != [] && IsWhitespace(s[|s| - 1]) then TrimEnd(s[..|s| - 1]) else s
  }

  function Trim(s: string): string {
    TrimEnd(TrimStart(s))
  }

  // ----- UTF-8 widths, needed for the byte slice in the error message -----

  function Utf8Width(c: char): nat {
    var n := c as int;
    if n < 0x80 then 1 else if n < 0x800 then 2 else if n < 0x10000 then 3 else 4
  }

  function Utf8Length(s: string): nat {
    if s == [] then 0 else Utf8Width(s[0]) + Utf8Length(s[1..])
  }

  /** Byte offset `n` of the UTF-8 form of `s` does not fall inside a character. */
  predicate IsCharBoundary(s: string, n: nat) {
    n == 0 || (s != [] && Utf8Width(s[0]) <= n && IsCharBoundary(s[1..], n - Utf8Width(s[0])))
  }

  // ----- the token grammar -----

  datatype Token =
    | Text(c: char)
    | Quoted(body: string)          // with both delimiters, doubled quotes untouched
    | LineComment(newline: bool)    // false when the input ends inside the comment
    | BlockComment
    | Terminator

  datatype Lexed = Tokens(toks: seq<Token>) | OpenString | OpenBlock

  predicate IsQuote(c: char) { c == '\'' || c == '"' }

  /** Index of the first newline, or the length if there is none. */
  function LineEnd(s: string): (k: nat)
    ensures k <= |s|
    ensures k < |s| ==> s[k] == '\n'
    ensures '\n' !in s[..k]
  {
    if s == [] || s[0] == '\n' then 0
    else
      var k := LineEnd(s[1..]);
      assert s[..k + 1] == [s[0]] + s[1..][..k];
      k + 1
  }

  /** Length of the rest of a block comment, up to and including its `*` `/`.
      An opener inside the comment swallows its own star. */
  function BlockEnd(s: string): (r: Option<nat>)
    ensures r.Some? ==> 2 <= r.value <= |s|
  {
    if |s| < 2 then None
    else if s[0] == '*' && s[1] == '/' then Some(2)
    else
      var step := if s[0] == '/' && s[1] == '*' then 2 else 1;
      match BlockEnd(s[step..])
      case None => None
      case Some(k) => Some(step + k)
  }

  /** Length of the rest of a string opened with `q`, up to and including the quote
      that closes it.  A doubled quote does not close. */
  function StringEnd(q: char, s: string): (r: Option<nat>)
    ensures r.Some? ==> 1 <= r.value <= |s| && s[r.value - 1] == q
  {
    if s == [] then None
    else if s[0] == q && (|s| == 1 || s[1] != q) then Some(1)
    else
      var step := if s[0] == q then 2 else 1;
      match StringEnd(q, s[step..])
      case None => None
      case Some(k) => Some(step + k)
  }

  function Prepend(t: Token, l: Lexed): Lexed {
    match l
    case Tokens(toks) => Tokens([t] + toks)
    case _ => l
  }

  function Lex(s: string): Lexed
    decreases |s|, 1
  {
    if s == [] then Tokens([])
    else if |s| >= 2 && s[0] == '-' && s[1] == '-' then LexLine(s[2..])
    else if |s| >= 2 && s[0] == '/' && s[1] == '*' then LexBlock(s[2..])
    else if IsQuote(s[0]) then LexString(s[0], [s[0]], s[1..])
    else if s[0] == ';' then Prepend(Terminator, Lex(s[1..]))
    else Prepend(Text(s[0]), Lex(s[1..]))
  }

  /** The rest of the input, inside a line comment. */
  function LexLine(s: string): Lexed
    decreases |s|, 2
  {
    var k := LineEnd(s);
    if k == |s| then Tokens([LineComment(false)])
    else Prepend(LineComment(true), Lex(s[k + 1..]))
  }

  /** The rest of the input, inside a block comment. */
  function LexBlock(s: string): Lexed
    decreases |s|, 2
  {
    match BlockEnd(s)
    case None => OpenBlock
    case Some(k) => Prepend(BlockComment, Lex(s[k..]))
  }

  /** The rest of the input, inside a string of which `seen` has been read. */
  function LexString(q: char, seen: string, s: string): Lexed
    decreases |s|, 2
  {
    match StringEnd(q, s)
    case None => OpenString
    case Some(k) => Prepend(Quoted(seen + s[..k]), Lex(s[k..]))
  }

  // ----- from tokens to statements -----

  /** What a token contributes to the statement text. */
  function Render(t: Token): string {
    match t
    case Text(c) => [c]
    case Quoted(body) => body
    case LineComment(newline) => if newline then "\n" else ""
    case BlockComment => ""
    case Terminator => ""
  }

  function RenderAll(toks: seq<Token>): string {
    if toks == [] then "" else Render(toks[0]) + RenderAll(toks[1..])
  }

  function Glue(front: string, texts: seq<string>): (r: seq<string>)
    requires texts != []
    ensures |r| == |texts|
  {
    [front + texts[0]] + texts[1..]
  }

  /** The texts between the terminators; the last one is the residue. */
  function Cut(toks: seq<Token>): (r: seq<string>)
    ensures r != []
  {
    if toks == [] then [""]
    else if toks[0] == Terminator then [""] + Cut(toks[1..])
    else Glue(Render(toks[0]), Cut(toks[1..]))
  }

  /** Trim each text and drop the blank ones. */
  function Keep(texts: seq<string>): seq<string> {
    if texts == [] then []
    else (if Trim(texts[0]) == "" then [] else [Trim(texts[0])]) + Keep(texts[1..])
  }

  datatype ScriptError = UnterminatedString | UnterminatedBlockComment | UnterminatedStatement

  /** `Panicked` is the slice `&remaining[..50]` cutting a multi-byte character. */
  datatype Outcome = Statements(stmts: seq<string>) | Failed(error: ScriptError) | Panicked

  function Conclude(done: seq<string>, texts: seq<string>): Outcome
    requires texts != []
  {
    var remaining := Trim(texts[|texts| - 1]);
    if remaining == "" then Statements(done + Keep(texts))
    else if Utf8Length(remaining) > 50 && !IsCharBoundary(remaining, 50) then Panicked
    else Failed(UnterminatedStatement)
  }

  /** The outcome, given the statements found so far, the text of the statement in
      progress and the tokens of the rest of the input. */
  function Finish(done: seq<string>, current: string, rest: Lexed): Outcome {
    match rest
    case OpenString => Failed(UnterminatedString)
    case OpenBlock => Failed(UnterminatedBlockComment)
    case Tokens(toks) => Conclude(done, Glue(current, Cut(toks)))
  }

  function Parse(s: string): Outcome {
    Finish([], "", Lex(s))
  }

  // ----- the loop of `parse_script` -----

  lemma {:induction false} GlueGlue(a: string, b: string, texts: seq<string>)
    requires texts != []
    ensures Glue(a, Glue(b, texts)) == Glue(a + b, texts)
  {
    assert a + (b + texts[0]) == (a + b) + texts[0];
  }

  lemma {:induction false} FinishPrepend(done: seq<string>, current: string, t: Token, rest: Lexed)
    requires t != Terminator
    ensures Finish(done, current, Prepend(t, rest)) == Finish(done, current + Render(t), rest)
  {
    if rest.Tokens? {
      assert ([t] + rest.toks)[1..] == rest.toks;
      GlueGlue(current, Render(t), Cut(rest.toks));
    }
  }

  lemma {:induction false} KeepOne(text: string)
    ensures Keep([text]) == if Trim(text) == "" then [] else [Trim(text)]
  {
    assert [text][1..] == [];
  }

  lemma {:induction false} KeepFront(text: string, texts: seq<string>)
    ensures Keep([text] + texts) == Keep([text]) + Keep(texts)
  {
    KeepOne(text);
    assert ([text] + texts)[1..] == texts;
  }

  lemma {:induction false} ConcludeFront(done: seq<string>, text: string, texts: seq<string>)
    requires texts != []
    ensures Conclude(done, [text] + texts) == Conclude(done + Keep([text]), texts)
  {
    hide Keep, Trim, Utf8Length, IsCharBoundary;
    KeepFront(text, texts);
    assert done + (Keep([text]) + Keep(texts)) == (done + Keep([text])) + Keep(texts);
  }

  lemma {:induction false} FinishCut(done: seq<string>, current: string, rest: Lexed)
    ensures Finish(done, current, Prepend(Terminator, rest))
         == Finish(done + Keep([current]), "", rest)
  {
    if rest.Tokens? {
      var texts := Cut(rest.toks);
      assert ([Terminator] + rest.toks)[1..] == rest.toks;
      assert current + "" == current && "" + texts[0] == texts[0];
      assert Glue(current, [""] + texts) == [current] + texts;
      assert Glue("", texts) == texts;
      ConcludeFront(done, current, texts);
    }
  }

  lemma {:induction false} OpenStringFinish(done: seq<string>, current: string)
    ensures Finish(done, current, OpenString) == Failed(UnterminatedString)
  {
  }

  /** The string being read absorbs one more character into the current text. */
  lemma {:induction false} FinishString(done: seq<string>, current: string, q: char, seen: string, s: string)
    ensures Finish(done, current, LexString(q, seen, s)) == Finish(done, current + seen, LexString(q, "", s))
  {
    hide Lex, Finish;
    match StringEnd(q, s)
    case None =>
      OpenStringFinish(done, current);
      OpenStringFinish(done, current + seen);
    case Some(k) =>
      FinishPrepend(done, current, Quoted(seen + s[..k]), Lex(s[k..]));
      FinishPrepend(done, current + seen, Quoted("" + s[..k]), Lex(s[k..]));
      assert current + (seen + s[..k]) == (current + seen) + ("" + s[..k]);
  }

  datatype Mode = Normal | InString(q: char) | InLine | InBlock

  /** What the lexer will make of the rest of the input in a given state. */
  function Resume(mode: Mode, rest: string): Lexed {
    match mode
    case Normal => Lex(rest)
    case InString(q) => LexString(q, "", rest)
    case InLine => LexLine(rest)
    case InBlock => LexBlock(rest)
  }

  /** The outcome still owed by a loop in this state. */
  function Owed(done: seq<string>, current: string, mode: Mode, rest: string): Outcome {
    Finish(done, current, Resume(mode, rest))
  }

  predicate Opens(s: string, a: char, b: char) { |s| >= 2 && s[0] == a && s[1] == b }

  lemma {:induction false} LineStep(done: seq<string>, current: string, s: string)
    requires s != []
    ensures s[0] != '\n' ==> Owed(done, current, InLine, s) == Owed(done, current, InLine, s[1..])
    ensures s[0] == '\n' ==> Owed(done, current, InLine, s) == Owed(done, current + "\n", Normal, s[1..])
  {
    if s[0] != '\n' {
      var k := LineEnd(s[1..]);
      assert LineEnd(s) == k + 1;
      if k < |s[1..]| { assert s[1..][k + 1..] == s[k + 2..]; }
    } else {
      FinishPrepend(done, current, LineComment(true), Lex(s[1..]));
    }
  }

  lemma {:induction false} LineOpen(done: seq<string>, current: string, mode: Mode, s: string)
    requires mode.Normal? || mode.InLine?
    requires Opens(s, '-', '-')
    ensures Owed(done, current, mode, s) == Owed(done, current, InLine, s[2..])
  {
    if mode.InLine? {
      LineStep(done, current, s);
      LineStep(done, current, s[1..]);
      assert s[1..][1..] == s[2..];
    }
  }

  lemma {:induction false} BlockStep(done: seq<string>, current: string, s: string)
    requires s != []
    ensures Opens(s, '*', '/') ==> Owed(done, current, InBlock, s) == Owed(done, current, Normal, s[2..])
    ensures Opens(s, '/', '*') ==> Owed(done, current, InBlock, s) == Owed(done, current, InBlock, s[2..])
    ensures !Opens(s, '*', '/') && !Opens(s, '/', '*') ==>
              Owed(done, current, InBlock, s) == Owed(done, current, InBlock, s[1..])
  {
    if Opens(s, '*', '/') {
      FinishPrepend(done, current, BlockComment, Lex(s[2..]));
      assert current + "" == current;
    } else if |s| >= 2 {
      var n := if s[0] == '/' && s[1] == '*' then 2 else 1;
      match BlockEnd(s[n..])
      case None =>
      case Some(k) => assert s[n..][k..] == s[n + k..];
    }
  }

  lemma {:induction false} BlockOpen(done: seq<string>, current: string, mode: Mode, s: string)
    requires mode.Normal? || mode.InBlock?
    requires Opens(s, '/', '*')
    ensures Owed(done, current, mode, s) == Owed(done, current, InBlock, s[2..])
  {
    BlockStep(done, current, s);
  }

  lemma {:induction false} Begin(s: string)
    ensures Owed([], "", Normal, s) == Parse(s)
  {
  }

  /** Inside a string: a character that does not close it, or a doubled quote. */
  lemma {:induction false} StringStep(done: seq<string>, current: string, q: char, s: string, n: nat)
    requires s != []
    requires n == (if s[0] == q then 2 else 1)
    requires s[0] == q ==> Opens(s, q, q)
    ensures Owed(done, current, InString(q), s) == Owed(done, current + s[..n], InString(q), s[n..])
  {
    match StringEnd(q, s[n..]) {
      case None =>
      case Some(k) =>
        assert s[n..][k..] == s[n + k..];
        assert "" + s[..n + k] == s[..n] + s[n..][..k];
    }
    assert LexString(q, "", s) == LexString(q, s[..n], s[n..]);
    FinishString(done, current, q, s[..n], s[n..]);
  }

  lemma {:induction false} StringClose(done: seq<string>, current: string, q: char, s: string)
    requires s != [] && s[0] == q && !Opens(s, q, q)
    ensures Owed(done, current, InString(q), s) == Owed(done, current + [q], Normal, s[1..])
  {
    assert "" + s[..1] == [q];
    FinishPrepend(done, current, Quoted("" + s[..1]), Lex(s[1..]));
  }

  /** One character outside strings and comments. */
  lemma {:induction false} NormalStep(done: seq<string>, current: string, s: string)
    requires s != [] && !Opens(s, '-', '-') && !Opens(s, '/', '*')
    ensures IsQuote(s[0]) ==>
              Owed(done, current, Normal, s) == Owed(done, current + [s[0]], InString(s[0]), s[1..])
    ensures s[0] == ';' ==>
              Owed(done, current, Normal, s) == Owed(done + Keep([current]), "", Normal, s[1..])
    ensures !IsQuote(s[0]) && s[0] != ';' ==>
              Owed(done, current, Normal, s) == Owed(done, current + [s[0]], Normal, s[1..])
  {
    if IsQuote(s[0]) {
      FinishString(done, current, s[0], [s[0]], s[1..]);
    } else if s[0] == ';' {
      FinishCut(done, current, Lex(s[1..]));
    } else {
      FinishPrepend(done, current, Text(s[0]), Lex(s[1..]));
    }
  }

  lemma {:induction false} CutOne(x: Token)
    requires x != Terminator
    ensures Cut([x]) == [Render(x)]
  {
    assert [x][1..] == [] && Render(x) + "" == Render(x);
  }

  lemma {:induction false} AtEnd(done: seq<string>, current: string, mode: Mode)
    ensures Owed(done, current, mode, "") ==
            match mode
            case InString(_) => Failed(UnterminatedString)
            case InBlock => Failed(UnterminatedBlockComment)
            case _ => Conclude(done, [current])
    ensures Trim(current) == "" ==> Conclude(done, [current]) == Statements(done)
  {
    CutOne(LineComment(false));
    assert current + "" == current;
    KeepOne(current);
    assert done + [] == done;
  }

  ghost function ModeOf(inString: bool, inLine: bool, inBlock: bool, q: char): Mode {
    if inString then InString(q) else if inLine then InLine else if inBlock then InBlock else Normal
  }

  method ParseScript(content: string) returns (r: Outcome)
    ensures r == Parse(content)
  {
    hide Lex, Finish, Resume, Owed;
    Begin(content);
    var statements: seq<string> := [];
    var current := "";
    var i := 0;
    var inString, inLineComment, inBlockComment := false, false, false;
    var delimiter := '\0';

    assert content[0..] == content;
    while i < |content|
      invariant 0 <= i <= |content|
      invariant !(inString && inLineComment) && !(inString && inBlockComment)
      invariant !(inLineComment && inBlockComment)
      invariant inString ==> IsQuote(delimiter)
      invariant Owed(statements, current, ModeOf(inString, inLineComment, inBlockComment, delimiter), content[i..])
             == Parse(content)
    {
      ghost var rest := content[i..];
      ghost var mode := ModeOf(inString, inLineComment, inBlockComment, delimiter);
      var ch := content[i];
      i := i + 1;
      var peeked := i < |content|;
      assert content[i..] == rest[1..];
      assert peeked ==> content[i] == rest[1] && content[i + 1..] == rest[2..];

      if !inString && !inBlockComment && ch == '-' && peeked && content[i] == '-' {
        LineOpen(statements, current, mode, rest);
        i := i + 1;
        inLineComment := true;
        continue;
      }
      if inLineComment {
        LineStep(statements, current, rest);
        if ch == '\n' {
          inLineComment := false;
          current := current + [ch];
        }
        continue;
      }
      if !inString && ch == '/' && peeked && content[i] == '*' {
        BlockOpen(statements, current, mode, rest);
        i := i + 1;
        inBlockComment := true;
        continue;
      }
      if inBlockComment {
        BlockStep(statements, current, rest);
        if ch == '*' && peeked && content[i] == '/' {
          i := i + 1;
          inBlockComment := false;
        }
        continue;
      }
      if ch == '\'' || ch == '"' {
        if !inString {
          NormalStep(statements, current, rest);
          inString := true;
          delimiter := ch;
          current := current + [ch];
        } else if ch == delimiter {
          if peeked && content[i] == ch {
            StringStep(statements, current, ch, rest, 2);
            assert current + rest[..2] == current + [ch] + [content[i]];
            current := current + [ch];
            current := current + [content[i]];
            i := i + 1;
          } else {
            StringClose(statements, current, ch, rest);
            inString := false;
            current := current + [ch];
          }
        } else {
          StringStep(statements, current, delimiter, rest, 1);
          assert rest[..1] == [ch];
          current := current + [ch];
        }
        continue;
      }
      if !inString && ch == ';' {
        NormalStep(statements, current, rest);
        var trimmed := Trim(current);
        KeepOne(current);
        assert statements + [] == statements;
        if trimmed != "" {
          statements := statements + [trimmed];
        }
        current := "";
        continue;
      }
      if inString {
        StringStep(statements, current, delimiter, rest, 1);
        assert rest[..1] == [ch];
      } else {
        NormalStep(statements, current, rest);
      }
      current := current + [ch];
    }

    assert content[i..] == "";
    AtEnd(statements, current, ModeOf(inString, inLineComment, inBlockComment, delimiter));
    if inString { return Failed(UnterminatedString); }
    if inBlockComment { return Failed(UnterminatedBlockComment); }
    var remaining := Trim(current);
    if remaining != "" {
      if Utf8Length(remaining) > 50 && !IsCharBoundary(remaining, 50) { return Panicked; }
      return Failed(UnterminatedStatement);
    }
    return Statements(statements);
  }
}
