/** The values the reader produces and the vocabulary used to state what
    the parser does: printing an expression back to tokens, nesting depth
    and balanced token runs. */
module Syntax {
  import opened Lexer
  import opened FloatSyntax

  /** `Expression`: a symbol, a number or a list of expressions. */
  datatype Expression =
    | Symbol(name: string)
    | Number(value: Float)
    | List(items: seq<Expression>)

  /** `Error` (`SchremeError` in the library copy): one variant with a message. */
  datatype Error = ParseError(message: string)

  datatype Result<T> = Ok(value: T) | Err(error: Error)

  const NoTokenMessage: string := "failed to parse token"
  const StrayCloseMessage: string := "unexpected `)`"
  const UnclosedMessage: string := "could not find closing `)`"

  /** What the parser can produce: a symbol is an atom that is neither a
      parenthesis nor a float literal, a number holds a float literal, and
      a list holds such expressions. */
  predicate WellFormed(e: Expression) {
    match e
    case Symbol(s) => s != "(" && s != ")" && !IsFloatLiteral(s)
    case Number(f) => IsFloatLiteral(f.literal)
    case List(items) => forall x | x in items :: WellFormed(x)
  }

  /** The tokens an expression is written with: a symbol as its text, a
      number as its literal, a list as `(`, its items, `)`. */
  function Unparse(e: Expression): (ts: seq<Token>)
    ensures ts != []
  {
    match e
    case Symbol(s) => [s]
    case Number(f) => [f.literal]
    case List(items) => ["("] + UnparseAll(items) + [")"]
  }

  function UnparseAll(es: seq<Expression>): seq<Token> {
    if es == [] then [] else Unparse(es[0]) + UnparseAll(es[1..])
  }

  /** +1 for an opening parenthesis, -1 for a closing one. */
  function Step(t: Token): int {
    if t == "(" then 1 else if t == ")" then -1 else 0
  }

  /** Opening minus closing parentheses. */
  function Depth(ts: seq<Token>): int {
    if ts == [] then 0 else Step(ts[0]) + Depth(ts[1..])
  }

  /** No prefix closes more parentheses than it opens. */
  predicate NoUnmatchedClose(ts: seq<Token>) {
    forall k :: 0 <= k <= |ts| ==> Depth(ts[..k]) >= 0
  }

  predicate Balanced(ts: seq<Token>) {
    Depth(ts) == 0 && NoUnmatchedClose(ts)
  }

  // ---------------------------------------------------------------------
  // Lemmas about depth

  lemma {:induction false} DepthAppend(a: seq<Token>, b: seq<Token>)
    ensures Depth(a + b) == Depth(a) + Depth(b)
  {
    if a == [] {
      assert a + b == b;
    } else {
      assert (a + b)[1..] == a[1..] + b;
      DepthAppend(a[1..], b);
    }
  }

  lemma BalancedAppend(a: seq<Token>, b: seq<Token>)
    requires Balanced(a) && Balanced(b)
    ensures Balanced(a + b)
  {
    DepthAppend(a, b);
    forall k | 0 <= k <= |a + b| ensures Depth((a + b)[..k]) >= 0 {
      if k <= |a| {
        assert (a + b)[..k] == a[..k];
      } else {
        assert (a + b)[..k] == a + b[..k - |a|];
        DepthAppend(a, b[..k - |a|]);
      }
    }
  }

  lemma BalancedWrap(x: seq<Token>)
    requires Balanced(x)
    ensures Balanced(["("] + x + [")"])
  {
    var w := ["("] + x + [")"];
    DepthAppend(["("] + x, [")"]);
    DepthAppend(["("], x);
    forall k | 0 <= k <= |w| ensures Depth(w[..k]) >= 0 {
      if 1 <= k <= |x| + 1 {
        assert w[..k] == ["("] + x[..k - 1];
        DepthAppend(["("], x[..k - 1]);
      } else if k == |w| {
        assert w[..k] == w;
      }
    }
  }

  lemma AtomBalanced(t: Token)
    requires t != "(" && t != ")"
    ensures Balanced([t])
  {
    assert [t][..1] == [t];
  }

  /** Every expression the parser can produce is written with a balanced
      run of tokens. */
  lemma {:induction false} UnparseBalanced(e: Expression)
    requires WellFormed(e)
    ensures Balanced(Unparse(e))
  {
    match e
    case Symbol(s) =>
      AtomBalanced(s);
    case Number(f) =>
      FloatLiteralIsAtom(f.literal);
      assert IsAtomChar(f.literal[0]);
      AtomBalanced(f.literal);
    case List(items) =>
      UnparseAllBalanced(items);
      BalancedWrap(UnparseAll(items));
  }

  lemma {:induction false} UnparseAllBalanced(es: seq<Expression>)
    requires forall x | x in es :: WellFormed(x)
    ensures Balanced(UnparseAll(es))
  {
    if es == [] {
      var none: seq<Token> := [];
      assert none[..0] == none;
    } else {
      assert es[0] in es;
      UnparseBalanced(es[0]);
      UnparseAllBalanced(es[1..]);
      BalancedAppend(Unparse(es[0]), UnparseAll(es[1..]));
    }
  }

  /** Whether a run of tokens leaves a parenthesis unmatched is not changed
      by putting a balanced run in front of it. */
  lemma NoUnmatchedCloseAfterBalanced(b: seq<Token>, r: seq<Token>)
    requires Balanced(b)
    ensures NoUnmatchedClose(b + r) <==> NoUnmatchedClose(r)
  {
    if NoUnmatchedClose(b + r) {
      forall k | 0 <= k <= |r| ensures Depth(r[..k]) >= 0 {
        assert (b + r)[..|b| + k] == b + r[..k];
        DepthAppend(b, r[..k]);
      }
    }
    if NoUnmatchedClose(r) {
      forall k | 0 <= k <= |b + r| ensures Depth((b + r)[..k]) >= 0 {
        if k <= |b| {
          assert (b + r)[..k] == b[..k];
        } else {
          assert (b + r)[..k] == b + r[..k - |b|];
          DepthAppend(b, r[..k - |b|]);
        }
      }
    }
  }

  lemma NoUnmatchedCloseAfterOpen(r: seq<Token>)
    requires NoUnmatchedClose(r)
    ensures NoUnmatchedClose(["("] + r)
  {
    forall k | 0 <= k <= |["("] + r| ensures Depth((["("] + r)[..k]) >= 0 {
      if k > 0 {
        assert (["("] + r)[..k] == ["("] + r[..k - 1];
        DepthAppend(["("], r[..k - 1]);
      }
    }
  }
}
