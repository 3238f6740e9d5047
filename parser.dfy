/** The recursive-descent reader: `parse` reads one form from the front of
    a token slice and returns it with the unconsumed rest; `read_seq`
    collects the items of a list up to its closing parenthesis.

    ParseForm and ReadItems are the reference definitions, as mutually
    recursive functions.  Parse and ReadSeq are the source's procedures as
    methods (ReadSeq keeps its loop over a growing `res` and a moving cursor
    `xs`), each proved to return exactly what its reference definition
    gives, so every property proved here about the functions holds of them. */
module Parser {
  import opened Lexer
  import opened FloatSyntax
  import opened Syntax

  /** `parse_atom`: a number when the token is a float literal, otherwise the
      symbol named by the token; never a list, and printed back as the token. */
  function ParseAtom(t: Token): (e: Expression)
    ensures !e.List?
    ensures e.Symbol? <==> !IsFloatLiteral(t)
    ensures e.Symbol? ==> e.name == t
    ensures Unparse(e) == [t]
    ensures t != "(" && t != ")" ==> WellFormed(e)
  {
    match ParseFloat(t)
    case Some(v) => Number(v)
    case None => Symbol(t)
  }

  /** The list built from read items, or the error unchanged. */
  function AsList(r: Result<(seq<Expression>, seq<Token>)>): Result<(Expression, seq<Token>)> {
    match r
    case Ok((items, rest)) => Ok((List(items), rest))
    case Err(e) => Err(e)
  }

  /** `items` put in front of the items read, or the error unchanged. */
  function Prepend(items: seq<Expression>, r: Result<(seq<Expression>, seq<Token>)>): Result<(seq<Expression>, seq<Token>)> {
    match r
    case Ok((more, rest)) => Ok((items + more, rest))
    case Err(e) => Err(e)
  }

  /** `parse`.  On success the tokens are the form, printed back, followed by
      the remainder, so the remainder is a strictly shorter suffix; an empty
      slice, a leading `)` and an unclosed list are the only errors, each
      with its own message; an atom consumes exactly one token. */
  function ParseForm(tokens: seq<Token>): (r: Result<(Expression, seq<Token>)>)
    ensures r.Ok? ==> tokens == Unparse(r.value.0) + r.value.1 && WellFormed(r.value.0)
    ensures r.Ok? ==> |r.value.1| < |tokens| && r.value.1 == tokens[|tokens| - |r.value.1|..]
    ensures r.Err? ==> r.error == ParseError(
                          if tokens == [] then NoTokenMessage
                          else if tokens[0] == ")" then StrayCloseMessage
                          else UnclosedMessage)
    ensures tokens != [] && tokens[0] != "(" && tokens[0] != ")" ==> r == Ok((ParseAtom(tokens[0]), tokens[1..]))
    ensures tokens != [] && tokens[0] == "(" && r.Ok? ==> r.value.0.List?
    decreases |tokens|, 0
  {
    if tokens == [] then Err(ParseError(NoTokenMessage))
    else if tokens[0] == "(" then
      var r := ReadItems(tokens[1..]);
      if r.Ok? then ListForm(tokens, r.value.0, r.value.1); AsList(r) else AsList(r)
    else if tokens[0] == ")" then Err(ParseError(StrayCloseMessage))
    else AtomForm(tokens); Ok((ParseAtom(tokens[0]), tokens[1..]))
  }

  /** The items read after a `(`, and the `)` after them, make one list. */
  lemma ListForm(tokens: seq<Token>, items: seq<Expression>, rest: seq<Token>)
    requires tokens != [] && tokens[0] == "("
    requires tokens[1..] == UnparseAll(items) + [")"] + rest
    requires forall x | x in items :: WellFormed(x)
    ensures tokens == Unparse(List(items)) + rest && WellFormed(List(items))
    ensures |rest| < |tokens| && rest == tokens[|tokens| - |rest|..]
  {
    assert tokens == [tokens[0]] + tokens[1..];
  }

  /** An atom token read on its own. */
  lemma AtomForm(tokens: seq<Token>)
    requires tokens != [] && tokens[0] != "(" && tokens[0] != ")"
    ensures tokens == Unparse(ParseAtom(tokens[0])) + tokens[1..] && WellFormed(ParseAtom(tokens[0]))
    ensures tokens[1..] == tokens[|tokens| - |tokens[1..]|..]
  {
    assert tokens == [tokens[0]] + tokens[1..];
  }

  /** `read_seq`.  On success the tokens are the items, printed back in
      order, then the closing `)`, which is consumed and not among the
      items, then the remainder; the only error is the unclosed list. */
  function ReadItems(tokens: seq<Token>): (r: Result<(seq<Expression>, seq<Token>)>)
    ensures r.Ok? ==> tokens == UnparseAll(r.value.0) + [")"] + r.value.1
    ensures r.Ok? ==> forall x | x in r.value.0 :: WellFormed(x)
    ensures r.Err? ==> r.error == ParseError(UnclosedMessage)
    decreases |tokens|, 1
  {
    if tokens == [] then Err(ParseError(UnclosedMessage))
    else if tokens[0] == ")" then Ok(([], tokens[1..]))
    else
      match ParseForm(tokens)
      case Err(e) => Err(e)
      case Ok((x, rest)) =>
        match ReadItems(rest)
        case Err(e) => Err(e)
        case Ok((more, rest')) =>
          ItemsCons(x, more, tokens, rest, rest');
          Ok(([x] + more, rest'))
  }

  /** An item read, then the items after it: together they are the items. */
  lemma ItemsCons(x: Expression, more: seq<Expression>, ts: seq<Token>, rest: seq<Token>, rest': seq<Token>)
    requires WellFormed(x) && forall y | y in more :: WellFormed(y)
    requires ts == Unparse(x) + rest && rest == UnparseAll(more) + [")"] + rest'
    ensures ts == UnparseAll([x] + more) + [")"] + rest'
    ensures forall y | y in [x] + more :: WellFormed(y)
  {
    assert ([x] + more)[1..] == more;
  }

  /** One turn of the loop in `read_seq`: an item read in front of the rest. */
  lemma ReadItemsStep(xs: seq<Token>)
    requires xs != [] && xs[0] != ")" && ParseForm(xs).Ok?
    ensures ReadItems(xs) == Prepend([ParseForm(xs).value.0], ReadItems(ParseForm(xs).value.1))
  {
  }

  lemma PrependNothing(r: Result<(seq<Expression>, seq<Token>)>)
    ensures Prepend([], r) == r
  {
    if r.Ok? {
      assert [] + r.value.0 == r.value.0;
    }
  }

  lemma PrependTwice(a: seq<Expression>, b: seq<Expression>, r: Result<(seq<Expression>, seq<Token>)>)
    ensures Prepend(a, Prepend(b, r)) == Prepend(a + b, r)
  {
    if r.Ok? {
      assert a + (b + r.value.0) == (a + b) + r.value.0;
    }
  }

  // ---------------------------------------------------------------------
  // The source's procedures

  /** `parse`, as a procedure. */
  method Parse(tokens: seq<Token>) returns (r: Result<(Expression, seq<Token>)>)
    ensures r == ParseForm(tokens)
    decreases |tokens|, 0
  {
    if tokens == [] {
      return Err(ParseError(NoTokenMessage));
    }
    var token, rest := tokens[0], tokens[1..];
    if token == "(" {
      r := ReadSeq(rest);
    } else if token == ")" {
      r := Err(ParseError(StrayCloseMessage));
    } else {
      r := Ok((ParseAtom(token), rest));
    }
  }

  /** `read_seq`: loop, pushing each parsed item onto `res` and moving the
      cursor `xs` past it, until the cursor meets `)`. */
  method ReadSeq(tokens: seq<Token>) returns (r: Result<(Expression, seq<Token>)>)
    ensures r == AsList(ReadItems(tokens))
    decreases |tokens|, 1
  {
    var res: seq<Expression> := [];
    var xs := tokens;
    PrependNothing(ReadItems(tokens));
    while true
      invariant |xs| <= |tokens|
      invariant ReadItems(tokens) == Prepend(res, ReadItems(xs))
      decreases |xs|
    {
      if xs == [] {
        return Err(ParseError(UnclosedMessage));
      }
      var nextToken, rest := xs[0], xs[1..];
      if nextToken == ")" {
        assert res + [] == res;
        return Ok((List(res), rest));
      }
      var p := Parse(xs);
      if p.Err? {
        return Err(p.error);
      }
      var (exp, newXs) := p.value;
      ReadItemsStep(xs);
      PrependTwice(res, [exp], ReadItems(newXs));
      res := res + [exp];
      xs := newXs;
    }
  }

  // ---------------------------------------------------------------------
  // When reading fails

  /** A list's items fail to read exactly when the tokens run out before
      the `)` that closes it: when no prefix closes more than it opens. */
  lemma {:induction false} ReadItemsFailsIff(ts: seq<Token>)
    ensures ReadItems(ts).Err? <==> NoUnmatchedClose(ts)
    decreases |ts|
  {
    if ts == [] {
      assert ts[..0] == ts;
    } else if ts[0] == ")" {
      assert ts[..1] == [")"];
      assert Depth([")"]) == -1 by { assert [")"][1..] == []; }
    } else {
      var p := ParseForm(ts);
      if p.Err? {
        ReadItemsFailsIff(ts[1..]);
        assert ts == ["("] + ts[1..];
        NoUnmatchedCloseAfterOpen(ts[1..]);
      } else {
        var (e, rest) := p.value;
        UnparseBalanced(e);
        NoUnmatchedCloseAfterBalanced(Unparse(e), rest);
        ReadItemsFailsIff(rest);
      }
    }
  }

  /** `parse` fails exactly on an empty slice, on a leading `)`, and on a
      leading `(` whose list is never closed. */
  lemma ParseFailsIff(ts: seq<Token>)
    ensures ParseForm(ts).Err? <==>
              ts == [] || ts[0] == ")" || (ts[0] == "(" && NoUnmatchedClose(ts[1..]))
  {
    if ts != [] {
      ReadItemsFailsIff(ts[1..]);
    }
  }

  // ---------------------------------------------------------------------
  // What a successful read consumes

  /** The consumed prefix is exactly the form printed back, and it is
      balanced; the remainder is a proper suffix. */
  lemma ParseConsumesBalanced(ts: seq<Token>)
    requires ParseForm(ts).Ok?
    ensures var (e, rest) := ParseForm(ts).value;
            && |rest| < |ts| && ts[|ts| - |rest|..] == rest
            && ts[..|ts| - |rest|] == Unparse(e)
            && Balanced(ts[..|ts| - |rest|])
  {
    var (e, rest) := ParseForm(ts).value;
    UnparseBalanced(e);
    assert ts[..|ts| - |rest|] == Unparse(e);
  }

  /** A well-formed expression starts with `(` or with an atom, never `)`. */
  lemma UnparseHead(e: Expression)
    requires WellFormed(e)
    ensures Unparse(e)[0] != ")"
  {
    if e.Number? {
      FloatLiteralIsAtom(e.value.literal);
      assert IsAtomChar(e.value.literal[0]);
    }
  }

  /** Reading an expression's printed tokens gives the expression back and
      leaves whatever followed untouched. */
  lemma {:induction false} ParseUnparse(e: Expression, rest: seq<Token>)
    requires WellFormed(e)
    ensures ParseForm(Unparse(e) + rest) == Ok((e, rest))
    decreases e
  {
    var ts := Unparse(e) + rest;
    match e
    case Symbol(s) =>
      assert ts[0] == s && ts[1..] == rest;
    case Number(f) =>
      FloatLiteralIsAtom(f.literal);
      assert IsAtomChar(f.literal[0]);
      assert ts[0] == f.literal && ts[1..] == rest;
    case List(items) =>
      assert ts[0] == "(";
      assert ts[1..] == UnparseAll(items) + [")"] + rest;
      ReadItemsUnparse(items, rest);
  }

  lemma {:induction false} ReadItemsUnparse(es: seq<Expression>, rest: seq<Token>)
    requires forall x | x in es :: WellFormed(x)
    ensures ReadItems(UnparseAll(es) + [")"] + rest) == Ok((es, rest))
    decreases es
  {
    var ts := UnparseAll(es) + [")"] + rest;
    if es == [] {
      assert ts == [")"] + rest;
      assert ts[1..] == rest;
    } else {
      var x := es[0];
      assert x in es;
      var tail := UnparseAll(es[1..]) + [")"] + rest;
      assert ts == Unparse(x) + tail;
      UnparseHead(x);
      ParseUnparse(x, tail);
      ReadItemsUnparse(es[1..], rest);
      assert [x] + es[1..] == es;
    }
  }

  // ---------------------------------------------------------------------
  // Text to expression

  /** What the driver and the interactive loop do with a line of text:
      tokenize it, then parse one form from the tokens. */
  function Read(text: string): (r: Result<(Expression, seq<Token>)>)
    ensures r.Ok? ==> Tokenize(text) == Unparse(r.value.0) + r.value.1
    ensures AllSpace(text) ==> r == Err(ParseError(NoTokenMessage))
  {
    ParseForm(Tokenize(text))
  }

  /** An expression whose atoms each scan as one token: a symbol is a
      non-empty run of atom characters that is not a float literal. */
  predicate Printable(e: Expression) {
    match e
    case Symbol(s) => s != [] && AllAtomChars(s) && !IsFloatLiteral(s)
    case Number(f) => IsFloatLiteral(f.literal)
    case List(items) => forall x | x in items :: Printable(x)
  }

  lemma {:induction false} PrintableTokens(e: Expression)
    requires Printable(e)
    ensures WellFormed(e)
    ensures forall i :: 0 <= i < |Unparse(e)| ==> IsLexeme(Unparse(e)[i])
    decreases e
  {
    match e
    case Symbol(s) =>
      assert IsAtomChar(s[0]);
    case Number(f) =>
      FloatLiteralIsAtom(f.literal);
    case List(items) =>
      PrintableAllTokens(items);
  }

  lemma {:induction false} PrintableAllTokens(es: seq<Expression>)
    requires forall x | x in es :: Printable(x)
    ensures forall x | x in es :: WellFormed(x)
    ensures forall i :: 0 <= i < |UnparseAll(es)| ==> IsLexeme(UnparseAll(es)[i])
    decreases es
  {
    if es != [] {
      assert es[0] in es;
      PrintableTokens(es[0]);
      PrintableAllTokens(es[1..]);
      assert forall x | x in es :: x == es[0] || x in es[1..];
    }
  }

  /** Printing an expression as text, its tokens separated by whitespace,
      and reading the text back gives the expression and nothing left over. */
  lemma ReadPrinted(e: Expression, sep: string)
    requires Printable(e)
    requires sep != [] && AllSpace(sep)
    ensures Read(Join(Unparse(e), sep)) == Ok((e, []))
  {
    PrintableTokens(e);
    LexJoin(Unparse(e), sep);
    ParseUnparse(e, []);
    assert Unparse(e) + [] == Unparse(e);
  }
}
