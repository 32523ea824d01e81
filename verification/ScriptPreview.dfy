/** The error message of an unterminated statement slices its text at byte 50.
    On ASCII scripts that is safe; on others it can cut a character, which in Rust
    is a panic and not an error return. */
module ScriptPreview {
  import opened Script
  import opened ScriptLaws

  predicate Ascii(s: string) { forall i :: 0 <= i < |s| ==> s[i] as int < 0x80 }

  lemma {:induction false} AsciiWidth(s: string, n: nat)
    requires Ascii(s)
    ensures Utf8Length(s) == |s|
    ensures n <= |s| ==> IsCharBoundary(s, n)
  {
    if s != [] { AsciiWidth(s[1..], if n == 0 then 0 else n - 1); }
  }

  lemma {:induction false} AsciiTexts(s: string)
    requires Ascii(s) && Lex(s).Tokens?
    ensures forall k :: 0 <= k < |Cut(Lex(s).toks)| ==> Ascii(Cut(Lex(s).toks)[k])
    decreases |s|
  {
    hide Lex;
    LexEmpty();
    if s != [] {
      var first, n := GetFront(s);
      AsciiTexts(s[n..]);
      var t, more := Lex(s).toks, Lex(s[n..]).toks;
      assert t[0] == first && t[1..] == more;
      assert Ascii(Render(first));
    }
  }

  lemma {:induction false} AsciiTrim(s: string)
    requires Ascii(s)
    ensures Ascii(Trim(s))
  {
    AsciiTrimStart(s);
    TrimEndPrefix(TrimStart(s));
  }

  lemma {:induction false} AsciiTrimStart(s: string)
    requires Ascii(s)
    ensures Ascii(TrimStart(s))
  {
    if s != [] { AsciiTrimStart(s[1..]); }
  }

  lemma {:induction false} AsciiNeverPanics(s: string)
    requires Ascii(s)
    ensures Parse(s) != Panicked
  {
    if Lex(s).Tokens? {
      hide Lex, Cut, Trim;
      var texts := Cut(Lex(s).toks);
      ParseTokens(s);
      AsciiTexts(s);
      AsciiTrim(Last(texts));
      AsciiWidth(Trim(Last(texts)), 50);
    }
  }

  /** Characters with no meaning of their own to the splitter. */
  predicate Ordinary(s: string) {
    forall i :: 0 <= i < |s| ==> !IsQuote(s[i]) && s[i] != ';' && s[i] != '-' && s[i] != '/'
  }

  lemma {:induction false} OrdinaryText(s: string)
    requires Ordinary(s)
    ensures Lex(s).Tokens? && Cut(Lex(s).toks) == [s]
  {
    if s != [] {
      OrdinaryText(s[1..]);
      var more := Lex(s[1..]).toks;
      assert ([Text(s[0])] + more)[1..] == more;
      assert [s[0]] + s[1..] == s;
    }
  }

  lemma {:induction false} AsciiPrefix(a: string, c: char, b: string)
    requires Ascii(a) && Utf8Width(c) > 1
    ensures Utf8Length(a + [c] + b) == |a| + Utf8Width(c) + Utf8Length(b)
    ensures !IsCharBoundary(a + [c] + b, |a| + 1)
  {
    var s := a + [c] + b;
    if a == [] {
      assert s[1..] == b;
    } else {
      assert s[1..] == a[1..] + [c] + b;
      AsciiPrefix(a[1..], c, b);
    }
  }

  /** An unterminated statement of 49 ASCII characters, one two-byte character and
      one more character panics. */
  lemma {:induction false} PreviewPanics(a: string)
    requires |a| == 49 && Ascii(a) && Ordinary(a) && !IsWhitespace(a[0])
    ensures Parse(a + ['\U{e9}'] + "x") == Panicked
  {
    var s := a + ['\U{e9}'] + "x";
    assert s[50] == 'x' && |s| == 51;
    OrdinaryText(s);
    ParseTokens(s);
    assert TrimStart(s) == s && TrimEnd(s) == s;
    AsciiPrefix(a, '\U{e9}', "x");
    assert Utf8Length("x") == 1;
  }

  /** An offset is a character boundary exactly when some prefix has that many bytes. */
  lemma {:induction false} BoundaryIsPrefix(s: string, n: nat)
    ensures IsCharBoundary(s, n) <==> exists k :: 0 <= k <= |s| && Utf8Length(s[..k]) == n
  {
    assert s[..0] == "" && Utf8Length("") == 0;
    if s != [] && n > 0 {
      var w, t := Utf8Width(s[0]), s[1..];
      forall k | 1 <= k <= |s| ensures Utf8Length(s[..k]) == w + Utf8Length(t[..k - 1]) {
        assert s[..k][1..] == t[..k - 1];
      }
      if w <= n {
        BoundaryIsPrefix(t, n - w);
        if j :| 0 <= j <= |t| && Utf8Length(t[..j]) == n - w { assert Utf8Length(s[..j + 1]) == n; }
      }
    }
  }

  /** The text left after the last terminator, comments removed. */
  function Residue(s: string): string
    requires Lex(s).Tokens?
  {
    Trim(Last(Cut(Lex(s).toks)))
  }

  /** Parsing panics exactly when a complete script leaves more than fifty bytes
      unterminated and none of their prefixes has exactly fifty. */
  lemma {:induction false} PanicsExactly(s: string)
    ensures Parse(s) == Panicked <==>
            Lex(s).Tokens? && Utf8Length(Residue(s)) > 50 &&
            forall k :: 0 <= k <= |Residue(s)| ==> Utf8Length(Residue(s)[..k]) != 50
  {
    if Lex(s).Tokens? {
      hide Lex, Cut, Trim, IsCharBoundary;
      ParseTokens(s);
      BoundaryIsPrefix(Residue(s), 50);
      assert Residue(s) == "" ==> Utf8Length(Residue(s)) == 0;
    }
  }
}
