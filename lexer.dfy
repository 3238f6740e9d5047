/** The tokenizer of the reader: `tokenize` pads every parenthesis with
    spaces and then splits the text on whitespace.  It is modelled as that
    pipeline (Replace, Replace, SplitWhitespace) and proved equal to a direct
    scanner, Lex, from which its properties follow. */
module Lexer {

  type Token = string

  /** Rust's `char::is_whitespace`: the characters with the Unicode
      White_Space property, which is what `str::split_whitespace` splits on. */
  predicate IsSpace(c: char) {
    || c == '\t' || c == '\n' || c == '\U{B}' || c == '\U{C}' || c == '\r' || c == ' '
    || c == '\U{85}' || c == '\U{A0}' || c == '\U{1680}'
    || ('\U{2000}' <= c <= '\U{200A}')
    || c == '\U{2028}' || c == '\U{2029}' || c == '\U{202F}' || c == '\U{205F}' || c == '\U{3000}'
  }

  predicate IsParen(c: char) {
    c == '(' || c == ')'
  }

  /** A character that belongs to an atom: neither whitespace nor a parenthesis. */
  predicate IsAtomChar(c: char) {
    !IsSpace(c) && !IsParen(c)
  }

  predicate AllSpace(s: string) {
    forall i :: 0 <= i < |s| ==> IsSpace(s[i])
  }

  predicate AllAtomChars(s: string) {
    forall i :: 0 <= i < |s| ==> IsAtomChar(s[i])
  }

  /** What the tokenizer can produce: a lone parenthesis or a non-empty atom. */
  predicate IsLexeme(t: Token) {
    t == "(" || t == ")" || (t != [] && AllAtomChars(t))
  }

  // ---------------------------------------------------------------------
  // The pipeline as the source writes it

  /** `str::replace` with a one-character pattern: every occurrence of `c`
      is replaced by `with`. */
  function Replace(s: string, c: char, with: string): (r: string)
    ensures c !in s ==> r == s
    ensures c !in with ==> c !in r
  {
    if s == [] then []
    else (if s[0] == c then with else [s[0]]) + Replace(s[1..], c, with)
  }

  /** The text after `.replace("(", " ( ").replace(")", " ) ")`. */
  function Padded(s: string): string {
    Replace(Replace(s, '(', " ( "), ')', " ) ")
  }

  /** The longest prefix of `s` without whitespace. */
  function LeadingWord(s: string): (w: string)
    ensures w <= s
    ensures forall i :: 0 <= i < |w| ==> !IsSpace(w[i])
    ensures |w| == |s| || IsSpace(s[|w|])
    ensures s != [] && !IsSpace(s[0]) ==> w != []
  {
    if s == [] || IsSpace(s[0]) then [] else [s[0]] + LeadingWord(s[1..])
  }

  /** `str::split_whitespace`: the maximal runs of non-whitespace characters,
      in order. */
  function SplitWhitespace(s: string): seq<string>
    decreases |s|
  {
    if s == [] then []
    else if IsSpace(s[0]) then SplitWhitespace(s[1..])
    else
      var w := LeadingWord(s);
      [w] + SplitWhitespace(s[|w|..])
  }

  /** `tokenize`: total, and equal to the direct scanner Lex, so every token
      is non-empty, holds no whitespace, and a token holding a parenthesis is
      that parenthesis alone; the tokens concatenated give the input without
      its whitespace, and there are none exactly when the input is all
      whitespace. */
  function Tokenize(s: string): (ts: seq<Token>)
    ensures ts == Lex(s)
    ensures forall i :: 0 <= i < |ts| ==> ts[i] != [] && forall j :: 0 <= j < |ts[i]| ==> !IsSpace(ts[i][j])
    ensures forall i, j :: 0 <= i < |ts| && 0 <= j < |ts[i]| && IsParen(ts[i][j]) ==> ts[i] == [ts[i][j]]
    ensures Concat(ts) == RemoveSpace(s)
    ensures ts == [] <==> AllSpace(s)
  {
    PaddedSplitIsLex(s);
    LexConcat(s);
    LexEmpty(s);
    LexemeFacts(Lex(s));
    SplitWhitespace(Padded(s))
  }

  /** What every lexeme satisfies, spelled out token by token. */
  lemma LexemeFacts(ts: seq<Token>)
    requires forall i :: 0 <= i < |ts| ==> IsLexeme(ts[i])
    ensures forall i :: 0 <= i < |ts| ==> ts[i] != [] && forall j :: 0 <= j < |ts[i]| ==> !IsSpace(ts[i][j])
    ensures forall i, j :: 0 <= i < |ts| && 0 <= j < |ts[i]| && IsParen(ts[i][j]) ==> ts[i] == [ts[i][j]]
  {
    forall i, j | 0 <= i < |ts| && 0 <= j < |ts[i]|
      ensures !IsSpace(ts[i][j]) && (IsParen(ts[i][j]) ==> ts[i] == [ts[i][j]])
    {
      assert IsLexeme(ts[i]);
    }
  }

  // ---------------------------------------------------------------------
  // A direct scanner, the reference definition of the tokenizer

  /** The longest prefix of `s` made of atom characters. */
  function LeadingAtom(s: string): (a: string)
    ensures a <= s
    ensures AllAtomChars(a)
    ensures |a| == |s| || !IsAtomChar(s[|a|])
    ensures s != [] && IsAtomChar(s[0]) ==> a != []
  {
    if s == [] || !IsAtomChar(s[0]) then [] else [s[0]] + LeadingAtom(s[1..])
  }

  /** Skip whitespace; a parenthesis is a token of its own; otherwise the
      longest run of atom characters is one token. */
  function Lex(s: string): (ts: seq<Token>)
    ensures forall i :: 0 <= i < |ts| ==> IsLexeme(ts[i])
    decreases |s|
  {
    if s == [] then []
    else if IsSpace(s[0]) then Lex(s[1..])
    else if IsParen(s[0]) then [[s[0]]] + Lex(s[1..])
    else
      var a := LeadingAtom(s);
      [a] + Lex(s[|a|..])
  }

  function Concat(ts: seq<string>): string {
    if ts == [] then [] else ts[0] + Concat(ts[1..])
  }

  /** The text with every whitespace character removed. */
  function RemoveSpace(s: string): string {
    if s == [] then [] else (if IsSpace(s[0]) then [] else [s[0]]) + RemoveSpace(s[1..])
  }

  /** The tokens separated by `sep`, as `[String]::join` does. */
  function Join(ts: seq<string>, sep: string): string {
    if ts == [] then []
    else if |ts| == 1 then ts[0]
    else ts[0] + sep + Join(ts[1..], sep)
  }

  // ---------------------------------------------------------------------
  // The pipeline equals the scanner

  lemma {:induction false} ReplaceAppend(a: string, b: string, c: char, with: string)
    ensures Replace(a + b, c, with) == Replace(a, c, with) + Replace(b, c, with)
  {
    if a == [] {
      assert a + b == b;
    } else {
      assert (a + b)[1..] == a[1..] + b;
      ReplaceAppend(a[1..], b, c, with);
    }
  }

  lemma PaddedAppend(a: string, b: string)
    ensures Padded(a + b) == Padded(a) + Padded(b)
  {
    ReplaceAppend(a, b, '(', " ( ");
    ReplaceAppend(Replace(a, '(', " ( "), Replace(b, '(', " ( "), ')', " ) ");
  }

  lemma PaddedChar(x: char)
    ensures Padded([x]) == if IsParen(x) then [' ', x, ' '] else [x]
  {
    assert Replace([x], '(', " ( ") == (if x == '(' then " ( " else [x]) + Replace([], '(', " ( ");
    if x == '(' {
      assert ')' !in " ( ";
      assert " ( " == [' ', x, ' '];
    } else {
      assert Replace([x], ')', " ) ") == (if x == ')' then " ) " else [x]) + Replace([], ')', " ) ");
      assert " ) " == [' ', ')', ' '];
    }
  }

  lemma PaddedAtoms(a: string)
    requires AllAtomChars(a)
    ensures Padded(a) == a
  {
  }

  /** After padding, whatever follows an atom starts with whitespace. */
  lemma PaddedStartsWithSpace(r: string)
    requires r != [] && !IsAtomChar(r[0])
    ensures Padded(r) != [] && IsSpace(Padded(r)[0])
  {
    assert r == [r[0]] + r[1..];
    PaddedAppend([r[0]], r[1..]);
    PaddedChar(r[0]);
  }

  lemma {:induction false} LeadingWordOf(w: string, t: string)
    requires forall i :: 0 <= i < |w| ==> !IsSpace(w[i])
    requires t == [] || IsSpace(t[0])
    ensures LeadingWord(w + t) == w
    decreases |w|
  {
    if w == [] {
      assert w + t == t;
    } else {
      var u := w + t;
      assert u[0] == w[0] && !IsSpace(w[0]);
      assert u[1..] == w[1..] + t;
      forall i | 0 <= i < |w[1..]| ensures !IsSpace(w[1..][i]) {
        assert w[1..][i] == w[i + 1];
      }
      LeadingWordOf(w[1..], t);
      assert [w[0]] + w[1..] == w;
    }
  }

  lemma SplitAfterWord(w: string, t: string)
    requires w != [] && forall i :: 0 <= i < |w| ==> !IsSpace(w[i])
    requires t == [] || IsSpace(t[0])
    ensures SplitWhitespace(w + t) == [w] + SplitWhitespace(t)
  {
    LeadingWordOf(w, t);
    assert (w + t)[0] == w[0];
    assert (w + t)[|w|..] == t;
  }

  lemma {:induction false} PaddedSplitIsLex(s: string)
    ensures SplitWhitespace(Padded(s)) == Lex(s)
    decreases |s|
  {
    if s == [] {
    } else if IsSpace(s[0]) {
      PaddedSplitIsLex(s[1..]);
      PaddedSplitSpace(s);
    } else if IsParen(s[0]) {
      PaddedSplitIsLex(s[1..]);
      PaddedSplitParen(s);
    } else {
      var a := LeadingAtom(s);
      PaddedSplitIsLex(s[|a|..]);
      PaddedSplitAtom(s);
    }
  }

  lemma PaddedSplitSpace(s: string)
    requires s != [] && IsSpace(s[0])
    ensures SplitWhitespace(Padded(s)) == SplitWhitespace(Padded(s[1..]))
  {
    var x, r := s[0], s[1..];
    assert s == [x] + r;
    PaddedAppend([x], r);
    PaddedChar(x);
    assert ([x] + Padded(r))[1..] == Padded(r);
  }

  lemma PaddedSplitParen(s: string)
    requires s != [] && IsParen(s[0])
    ensures SplitWhitespace(Padded(s)) == [[s[0]]] + SplitWhitespace(Padded(s[1..]))
  {
    PaddedParen(s);
    SplitPaddedParen(s[0], Padded(s[1..]));
  }

  lemma PaddedParen(s: string)
    requires s != [] && IsParen(s[0])
    ensures Padded(s) == [' ', s[0], ' '] + Padded(s[1..])
  {
    var x, r := s[0], s[1..];
    assert s == [x] + r;
    PaddedAppend([x], r);
    PaddedChar(x);
  }

  lemma SplitPaddedParen(x: char, p: string)
    requires IsParen(x)
    ensures SplitWhitespace([' ', x, ' '] + p) == [[x]] + SplitWhitespace(p)
  {
    var tail := [' '] + p;
    assert [' ', x, ' '] + p == [' '] + ([x] + tail);
    SplitSkipsSpace(' ', [x] + tail);
    SplitAfterWord([x], tail);
    SplitSkipsSpace(' ', p);
  }

  lemma SplitSkipsSpace(c: char, q: string)
    requires IsSpace(c)
    ensures SplitWhitespace([c] + q) == SplitWhitespace(q)
  {
    assert ([c] + q)[1..] == q;
  }

  lemma PaddedSplitAtom(s: string)
    requires s != [] && IsAtomChar(s[0])
    ensures SplitWhitespace(Padded(s)) == [LeadingAtom(s)] + SplitWhitespace(Padded(s[|LeadingAtom(s)|..]))
  {
    var a := LeadingAtom(s);
    var r := s[|a|..];
    PrefixSplit(a, s);
    PaddedAtomRun(a, r);
    SplitAfterWord(a, Padded(r));
  }

  lemma PrefixSplit(a: string, s: string)
    requires a <= s
    ensures s == a + s[|a|..]
  {
    assert s[..|a|] == a;
  }

  /** Padding leaves a run of atom characters alone and, when the run is
      followed by anything, puts whitespace right after it. */
  lemma PaddedAtomRun(a: string, r: string)
    requires AllAtomChars(a)
    requires r == [] || !IsAtomChar(r[0])
    ensures Padded(a + r) == a + Padded(r)
    ensures Padded(r) == [] || IsSpace(Padded(r)[0])
  {
    PaddedAppend(a, r);
    PaddedAtoms(a);
    if r != [] {
      PaddedStartsWithSpace(r);
    }
  }

  // ---------------------------------------------------------------------
  // Properties of the scanner

  lemma {:induction false} RemoveSpaceAppend(a: string, b: string)
    ensures RemoveSpace(a + b) == RemoveSpace(a) + RemoveSpace(b)
  {
    if a != [] {
      assert (a + b)[1..] == a[1..] + b;
      RemoveSpaceAppend(a[1..], b);
    } else {
      assert a + b == b;
    }
  }

  lemma {:induction false} RemoveSpaceAtoms(a: string)
    requires AllAtomChars(a)
    ensures RemoveSpace(a) == a
  {
    if a != [] {
      RemoveSpaceAtoms(a[1..]);
    }
  }

  lemma {:induction false} LexConcat(s: string)
    ensures Concat(Lex(s)) == RemoveSpace(s)
    decreases |s|
  {
    if s == [] {
    } else if IsSpace(s[0]) || IsParen(s[0]) {
      LexConcat(s[1..]);
      assert ([[s[0]]] + Lex(s[1..]))[1..] == Lex(s[1..]);
    } else {
      var a := LeadingAtom(s);
      var r := s[|a|..];
      PrefixSplit(a, s);
      RemoveSpaceAppend(a, r);
      RemoveSpaceAtoms(a);
      LexConcat(r);
      assert ([a] + Lex(r))[1..] == Lex(r);
    }
  }

  lemma {:induction false} LexEmpty(s: string)
    ensures Lex(s) == [] <==> AllSpace(s)
    decreases |s|
  {
    if s != [] {
      LexEmpty(s[1..]);
      if IsSpace(s[0]) {
        assert AllSpace(s) <==> AllSpace(s[1..]) by {
          if AllSpace(s[1..]) {
            forall i | 0 <= i < |s| ensures IsSpace(s[i]) {
              if i > 0 { assert s[i] == s[1..][i - 1]; }
            }
          }
        }
      } else {
        assert !IsSpace(s[0]);
      }
    }
  }

  lemma {:induction false} LeadingAtomOf(a: string, t: string)
    requires AllAtomChars(a)
    requires t == [] || !IsAtomChar(t[0])
    ensures LeadingAtom(a + t) == a
    decreases |a|
  {
    if a == [] {
      assert a + t == t;
    } else {
      var u := a + t;
      assert u[0] == a[0] && IsAtomChar(a[0]);
      assert u[1..] == a[1..] + t;
      assert AllAtomChars(a[1..]) by {
        forall i | 0 <= i < |a[1..]| ensures IsAtomChar(a[1..][i]) {
          assert a[1..][i] == a[i + 1];
        }
      }
      LeadingAtomOf(a[1..], t);
      assert [a[0]] + a[1..] == a;
    }
  }

  /** A lexeme is scanned back as itself when nothing can glue onto it. */
  lemma LexAfterLexeme(t: Token, u: string)
    requires IsLexeme(t)
    requires t == "(" || t == ")" || u == [] || !IsAtomChar(u[0])
    ensures Lex(t + u) == [t] + Lex(u)
  {
    if t == "(" || t == ")" {
      assert (t + u)[1..] == u;
    } else {
      LeadingAtomOf(t, u);
      assert (t + u)[0] == t[0];
      assert (t + u)[|t|..] == u;
    }
  }

  lemma {:induction false} LexSkipsSpace(w: string, u: string)
    requires AllSpace(w)
    ensures Lex(w + u) == Lex(u)
    decreases |w|
  {
    if w != [] {
      assert (w + u)[0] == w[0];
      assert (w + u)[1..] == w[1..] + u;
      LexSkipsSpace(w[1..], u);
    } else {
      assert w + u == u;
    }
  }

  /** `gaps[i]` is the whitespace written before `ts[i]`: lexemes laid out
      with whitespace between them, which may be empty except between two
      atoms. */
  predicate Fits(ts: seq<Token>, gaps: seq<string>) {
    |gaps| == |ts| &&
    (ts == [] ||
     (IsLexeme(ts[0]) && AllSpace(gaps[0]) &&
      (|ts| > 1 && IsAtomChar(ts[0][0]) && ts[1] != [] && IsAtomChar(ts[1][0]) ==> gaps[1] != []) &&
      Fits(ts[1..], gaps[1..])))
  }

  /** The text: each gap followed by its lexeme. */
  function Layout(ts: seq<Token>, gaps: seq<string>): string
    requires |gaps| == |ts|
  {
    if ts == [] then [] else gaps[0] + ts[0] + Layout(ts[1..], gaps[1..])
  }

  /** Scanning lexemes laid out with fitting whitespace gives the lexemes back. */
  lemma {:induction false} LexLayout(ts: seq<Token>, gaps: seq<string>)
    requires Fits(ts, gaps)
    ensures Lex(Layout(ts, gaps)) == ts
  {
    if ts != [] {
      LayoutHead(ts, gaps);
      LexLayout(ts[1..], gaps[1..]);
      LexGapLexeme(gaps[0], ts[0], Layout(ts[1..], gaps[1..]), ts[1..]);
      assert [ts[0]] + ts[1..] == ts;
    }
  }

  /** Whitespace, then a lexeme nothing glues onto, then text: the lexeme
      and the tokens of the text. */
  lemma LexGapLexeme(g: string, t: Token, q: string, rest: seq<Token>)
    requires AllSpace(g) && IsLexeme(t)
    requires t == "(" || t == ")" || q == [] || !IsAtomChar(q[0])
    requires Lex(q) == rest
    ensures Lex(g + (t + q)) == [t] + rest
  {
    LexAfterLexeme(t, q);
    LexSkipsSpace(g, t + q);
  }

  /** The first gap and lexeme of a layout, and why nothing after the
      lexeme glues onto it. */
  lemma LayoutHead(ts: seq<Token>, gaps: seq<string>)
    requires Fits(ts, gaps) && ts != []
    ensures Fits(ts[1..], gaps[1..]) && IsLexeme(ts[0]) && AllSpace(gaps[0])
    ensures Layout(ts, gaps) == gaps[0] + (ts[0] + Layout(ts[1..], gaps[1..]))
    ensures var q := Layout(ts[1..], gaps[1..]);
      ts[0] == "(" || ts[0] == ")" || q == [] || !IsAtomChar(q[0])
  {
    var q := Layout(ts[1..], gaps[1..]);
    assert gaps[0] + ts[0] + q == gaps[0] + (ts[0] + q);
    if |ts| > 1 {
      LayoutNoGlue(ts, gaps);
    }
  }

  lemma LayoutNoGlue(ts: seq<Token>, gaps: seq<string>)
    requires Fits(ts, gaps) && |ts| > 1
    ensures var q := Layout(ts[1..], gaps[1..]);
      q != [] && (ts[0] == "(" || ts[0] == ")" || !IsAtomChar(q[0]))
  {
    assert Fits(ts[1..], gaps[1..]);
    LayoutStart(ts[1..], gaps[1..]);
    if gaps[1] != [] {
      assert gaps[1..][0] == gaps[1] && IsSpace(gaps[1][0]);
    } else {
      assert ts[1..][0] == ts[1];
    }
  }

  lemma LayoutStart(ts: seq<Token>, gaps: seq<string>)
    requires Fits(ts, gaps) && ts != []
    ensures Layout(ts, gaps) != []
    ensures Layout(ts, gaps)[0] == if gaps[0] != [] then gaps[0][0] else ts[0][0]
  {
    var w := ts[0] + Layout(ts[1..], gaps[1..]);
    assert Layout(ts, gaps) == gaps[0] + w;
    assert IsLexeme(ts[0]) && ts[0] != [];
    if gaps[0] != [] {
      assert (gaps[0] + w)[0] == gaps[0][0];
    } else {
      assert gaps[0] + w == w && w[0] == ts[0][0];
    }
  }

  /** Scanning lexemes joined by whitespace gives the lexemes back. */
  lemma {:induction false} LexJoin(ts: seq<Token>, sep: string)
    requires forall i :: 0 <= i < |ts| ==> IsLexeme(ts[i])
    requires sep != [] && AllSpace(sep)
    ensures Lex(Join(ts, sep)) == ts
  {
    if |ts| == 1 {
      LexAfterLexeme(ts[0], []);
      assert ts[0] + [] == ts[0];
    } else if |ts| > 1 {
      var j := Join(ts[1..], sep);
      assert Join(ts, sep) == ts[0] + (sep + j);
      LexAfterLexeme(ts[0], sep + j);
      LexSkipsSpace(sep, j);
      LexJoin(ts[1..], sep);
    }
  }

  /** Tokenizing the tokens joined by whitespace (by a single space, say)
      gives the same tokens: tokenizing is idempotent up to whitespace. */
  lemma RetokenizeJoined(s: string, sep: string)
    requires sep != [] && AllSpace(sep)
    ensures Tokenize(Join(Tokenize(s), sep)) == Tokenize(s)
  {
    LexJoin(Tokenize(s), sep);
  }
}
