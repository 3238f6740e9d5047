/** Which atoms are numbers.  `parse_atom` asks Rust's `str::parse::<f64>`;
    this module recognises the strings that call accepts, following the
    grammar documented for `f64: FromStr` from Rust 1.55 on, matched
    without regard to ASCII case:

      Float  ::= Sign? ( 'inf' | 'infinity' | 'nan' | Number )
      Number ::= ( Digit+ | Digit+ '.' Digit* | Digit* '.' Digit+ ) Exp?
      Exp    ::= 'e' Sign? Digit+
      Sign   ::= [+-]

    The value the literal denotes (its rounding to a 64-bit float) is not
    modelled: a Float carries the literal text it was read from. */
module FloatSyntax {
  import opened Lexer

  datatype Option<T> = None | Some(value: T)

  /** The payload of a `Number`: the literal it was read from. */
  datatype Float = Float(literal: string)

  predicate IsDigit(c: char) {
    '0' <= c <= '9'
  }

  predicate AllDigits(s: string) {
    forall i :: 0 <= i < |s| ==> IsDigit(s[i])
  }

  function LowerChar(c: char): (l: char)
    ensures 'A' <= c <= 'Z' ==> 'a' <= l <= 'z'
    ensures !('A' <= c <= 'Z') ==> l == c
  {
    if 'A' <= c <= 'Z' then (c as int + 32) as char else c
  }

  /** ASCII lower-casing, character by character. */
  function Lower(s: string): (l: string)
    ensures |l| == |s|
    ensures forall i :: 0 <= i < |s| ==> l[i] == LowerChar(s[i])
  {
    if s == [] then [] else [LowerChar(s[0])] + Lower(s[1..])
  }

  /** The index of the first `c` in `s`, or `|s|` when there is none. */
  function Find(s: string, c: char): (k: nat)
    ensures k <= |s|
    ensures k < |s| ==> s[k] == c
    ensures forall i :: 0 <= i < k ==> s[i] != c
  {
    if s == [] then 0
    else if s[0] == c then 0
    else 1 + Find(s[1..], c)
  }

  /** `s` without one leading sign. */
  function Unsigned(s: string): (u: string)
    ensures u == s || (s != [] && (s[0] == '+' || s[0] == '-') && u == s[1..])
  {
    if s != [] && (s[0] == '+' || s[0] == '-') then s[1..] else s
  }

  /** Digit+ | Digit+ '.' Digit* | Digit* '.' Digit+ */
  predicate IsMantissa(m: string) {
    var j := Find(m, '.');
    AllDigits(m[..j]) &&
    if j == |m| then |m| > 0 else AllDigits(m[j + 1..]) && |m| > 1
  }

  /** Sign? Digit+ (after the 'e') */
  predicate IsExponent(x: string) {
    var d := Unsigned(x);
    d != [] && AllDigits(d)
  }

  predicate IsNumber(u: string) {
    var k := Find(u, 'e');
    IsMantissa(u[..k]) && (k == |u| || IsExponent(u[k + 1..]))
  }

  /** The grammar, on a lower-cased string. */
  predicate IsLowerFloat(s: string) {
    var u := Unsigned(s);
    u == "inf" || u == "infinity" || u == "nan" || IsNumber(u)
  }

  /** `token.parse::<f64>()` succeeds. */
  predicate IsFloatLiteral(t: string) {
    IsLowerFloat(Lower(t))
  }

  /** `token.parse::<f64>()`, with the literal standing for its value. */
  function ParseFloat(t: string): (f: Option<Float>)
    ensures f.Some? <==> IsFloatLiteral(t)
  {
    if IsFloatLiteral(t) then Some(Float(t)) else None
  }

  // ---------------------------------------------------------------------
  // What the grammar accepts and refuses

  lemma {:induction false} LowerAppend(s: string, t: string)
    ensures Lower(s + t) == Lower(s) + Lower(t)
  {
    if s == [] {
      assert s + t == t;
    } else {
      assert (s + t)[0] == s[0] && (s + t)[1..] == s[1..] + t;
      LowerAppend(s[1..], t);
    }
  }

  lemma LowerDigits(d: string)
    requires AllDigits(d)
    ensures Lower(d) == d
  {
    assert forall i :: 0 <= i < |d| ==> Lower(d)[i] == d[i];
  }

  /** A non-empty run of digits is a literal. */
  lemma DigitsAreLiteral(d: string)
    requires d != [] && AllDigits(d)
    ensures IsFloatLiteral(d)
  {
    LowerDigits(d);
    assert Unsigned(d) == d;
    DigitsAreMantissa(d);
    assert Find(d, 'e') == |d|;
  }

  lemma DigitsAreMantissa(d: string)
    requires d != [] && AllDigits(d)
    ensures IsMantissa(d)
  {
    assert Find(d, '.') == |d|;
    assert d[..|d|] == d;
  }

  /** Digits, a point, digits: a literal when there is at least one digit,
      on either side of the point. */
  lemma DecimalIsLiteral(a: string, b: string)
    requires AllDigits(a) && AllDigits(b)
    ensures IsFloatLiteral(a + "." + b) <==> a != [] || b != []
  {
    var m := a + "." + b;
    LowerAppend(a + ".", b);
    LowerAppend(a, ".");
    LowerDigits(a);
    LowerDigits(b);
    assert Lower(".") == ".";
    assert Unsigned(m) == m by {
      if a != [] { assert m[0] == a[0]; } else { assert m[0] == '.'; }
    }
    DecimalNumber(a, b);
  }

  lemma DecimalNumber(a: string, b: string)
    requires AllDigits(a) && AllDigits(b)
    ensures IsNumber(a + "." + b) <==> a != [] || b != []
  {
    var m := a + "." + b;
    assert Find(m, 'e') == |m| by {
      forall i | 0 <= i < |m| ensures m[i] != 'e' {
        if i < |a| { assert m[i] == a[i]; } else if i > |a| { assert m[i] == b[i - |a| - 1]; }
      }
    }
    assert m[..|m|] == m;
    assert Find(m, '.') == |a| by {
      forall i | 0 <= i < |a| ensures m[i] != '.' { assert m[i] == a[i]; }
      assert m[|a|] == '.';
    }
    assert m[..|a|] == a && m[|a| + 1..] == b;
  }

  /** Digits, an exponent marker of either case, an optional sign and
      digits: a literal. */
  lemma ExponentIsLiteral(d: string, e: char, sign: string, x: string)
    requires d != [] && AllDigits(d) && x != [] && AllDigits(x)
    requires e == 'e' || e == 'E'
    requires sign == "" || sign == "+" || sign == "-"
    ensures IsFloatLiteral(d + [e] + sign + x)
  {
    var u := d + "e" + sign + x;
    LowerExponentForm(d, e, sign, x);
    assert Unsigned(u) == u by { assert u[0] == d[0]; }
    NumberWithExponent(d, sign, x);
  }

  lemma LowerExponentForm(d: string, e: char, sign: string, x: string)
    requires AllDigits(d) && AllDigits(x)
    requires e == 'e' || e == 'E'
    requires sign == "" || sign == "+" || sign == "-"
    ensures Lower(d + [e] + sign + x) == d + "e" + sign + x
  {
    LowerAppend(d + [e] + sign, x);
    LowerAppend(d + [e], sign);
    LowerAppend(d, [e]);
    LowerDigits(d);
    LowerDigits(x);
    assert Lower([e]) == "e";
    assert Lower(sign) == sign;
  }

  lemma NumberWithExponent(d: string, sign: string, x: string)
    requires d != [] && AllDigits(d) && x != [] && AllDigits(x)
    requires sign == "" || sign == "+" || sign == "-"
    ensures IsNumber(d + "e" + sign + x)
  {
    var u := d + "e" + sign + x;
    assert u[|d|] == 'e';
    assert forall i :: 0 <= i < |d| ==> u[i] == d[i];
    assert Find(u, 'e') == |d|;
    assert u[..|d|] == d;
    DigitsAreMantissa(d);
    assert u[|d| + 1..] == sign + x;
    assert Unsigned(sign + x) == x by {
      if sign == "" { assert sign + x == x; assert IsDigit(x[0]); }
      else { assert (sign + x)[1..] == x; }
    }
  }

  /** One sign in front of a string without a sign keeps it a literal, or
      keeps it not one. */
  lemma SignedLiteral(c: char, t: string)
    requires c == '+' || c == '-'
    requires t == [] || (t[0] != '+' && t[0] != '-')
    ensures IsFloatLiteral([c] + t) <==> IsFloatLiteral(t)
  {
    var l := Lower(t);
    LowerAppend([c], t);
    assert Lower([c]) == [c];
    assert Unsigned([c] + l) == l by {
      assert ([c] + l)[0] == c && ([c] + l)[1..] == l;
    }
    assert Unsigned(l) == l by {
      if t != [] { assert l[0] == LowerChar(t[0]); }
    }
  }

  /** Two signs in a row are never a literal. */
  lemma DoubleSignNotLiteral(c: char, c': char, t: string)
    requires c == '+' || c == '-'
    requires c' == '+' || c' == '-'
    ensures !IsFloatLiteral([c, c'] + t)
  {
    var l := Lower([c, c'] + t);
    assert l[0] == c && l[1] == c';
    var u := Unsigned(l);
    assert u == l[1..] && u[0] == c';
    NumberStart(u);
  }

  /** A number starts with a digit, or with a point and a digit. */
  lemma NumberStart(u: string)
    ensures IsNumber(u) ==> u != [] && (IsDigit(u[0]) || (|u| > 1 && u[0] == '.' && IsDigit(u[1])))
  {
    if IsNumber(u) {
      var k := Find(u, 'e');
      var m := u[..k];
      var j := Find(m, '.');
      if j == 0 && j < |m| {
        assert m[j + 1..][0] == m[1] == u[1];
      } else {
        assert m[..j][0] == m[0] == u[0];
      }
    }
  }

  /** Besides `inf`, `infinity` and `nan`, a literal has a digit at its
      start, after its sign or after its leading point: a lone sign, a lone
      point and an empty string are not literals. */
  lemma LiteralStart(t: string)
    requires IsFloatLiteral(t)
    ensures var u := Unsigned(Lower(t));
      u == "inf" || u == "infinity" || u == "nan" ||
      (u != [] && (IsDigit(u[0]) || (|u| > 1 && u[0] == '.' && IsDigit(u[1]))))
  {
    NumberStart(Unsigned(Lower(t)));
  }

  /** A literal never ends in an exponent marker of either case. */
  lemma NoTrailingExponentMarker(t: string)
    requires t != [] && LowerChar(t[|t| - 1]) == 'e'
    ensures !IsFloatLiteral(t)
  {
    var l := Lower(t);
    var u := Unsigned(l);
    assert l[|l| - 1] == 'e';
    assert u != [] && u[|u| - 1] == 'e' by {
      if u != l { assert u == l[1..] && |l| > 1; }
    }
    assert u[|u| - 1] != "inf"[2] && u[|u| - 1] != "infinity"[7] && u[|u| - 1] != "nan"[2];
    NumberNotEndingInE(u);
  }

  lemma NumberNotEndingInE(u: string)
    requires u != [] && u[|u| - 1] == 'e'
    ensures !IsNumber(u)
  {
    var k := Find(u, 'e');
    assert k < |u|;
    var x := u[k + 1..];
    if x != [] {
      assert x[|x| - 1] == 'e';
      var d := Unsigned(x);
      if d != [] {
        assert d[|d| - 1] == 'e';
        assert !IsDigit(d[|d| - 1]);
      }
    }
  }

  lemma LowerTwice(t: string)
    ensures Lower(Lower(t)) == Lower(t)
  {
    assert forall i :: 0 <= i < |t| ==> Lower(Lower(t))[i] == Lower(t)[i];
  }

  /** The case of letters does not matter. */
  lemma CaseInsensitive(t: string)
    ensures IsFloatLiteral(Lower(t)) <==> IsFloatLiteral(t)
  {
    LowerTwice(t);
  }

  // ---------------------------------------------------------------------
  // A float literal is a single atom

  /** The characters the lower-cased grammar is written in. */
  predicate IsGrammarChar(c: char) {
    IsDigit(c) || c in ".e+-infinityan"
  }

  lemma GrammarCharIsAtomChar(c: char)
    requires IsGrammarChar(LowerChar(c))
    ensures IsAtomChar(c)
  {
  }

  lemma NumberChars(u: string)
    requires IsNumber(u)
    ensures u != []
    ensures forall i :: 0 <= i < |u| ==> IsGrammarChar(u[i])
  {
    var k := Find(u, 'e');
    var m := u[..k];
    var j := Find(m, '.');
    forall i | 0 <= i < |u| ensures IsGrammarChar(u[i]) {
      if i < k {
        assert u[i] == m[i];
        if i < j {
          assert m[i] == m[..j][i];
        } else if i > j {
          assert m[i] == m[j + 1..][i - j - 1];
        }
      } else if i > k {
        var x := u[k + 1..];
        assert u[i] == x[i - k - 1];
        if Unsigned(x) != x {
          if i - k - 1 > 0 {
            assert x[i - k - 1] == Unsigned(x)[i - k - 2];
          }
        } else {
          assert x[i - k - 1] == Unsigned(x)[i - k - 1];
        }
      }
    }
  }

  lemma LowerFloatChars(s: string)
    requires IsLowerFloat(s)
    ensures s != []
    ensures forall i :: 0 <= i < |s| ==> IsGrammarChar(s[i])
  {
    var u := Unsigned(s);
    if !(u == "inf" || u == "infinity" || u == "nan") {
      NumberChars(u);
    }
    assert forall i :: 0 <= i < |u| ==> IsGrammarChar(u[i]);
    forall i | 0 <= i < |s| ensures IsGrammarChar(s[i]) {
      if u != s {
        if i > 0 { assert s[i] == u[i - 1]; }
      }
    }
  }

  /** A float literal is a non-empty atom: no whitespace, no parenthesis.
      So a number never needs separating from its neighbours differently
      from a symbol, is never a parenthesis token, and scans as one token. */
  lemma FloatLiteralIsAtom(t: string)
    requires IsFloatLiteral(t)
    ensures t != [] && AllAtomChars(t)
    ensures Lex(t) == [t]
  {
    var l := Lower(t);
    LowerFloatChars(l);
    forall i | 0 <= i < |t| ensures IsAtomChar(t[i]) {
      GrammarCharIsAtomChar(t[i]);
    }
    LexAfterLexeme(t, []);
    assert t + [] == t;
  }
}
