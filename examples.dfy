/** The inputs the driver program feeds through `tokenize` and `parse`, the
    error cases of the reader, and which atoms are numbers, worked out on
    the model. */
module ReaderExamples {
  import opened Lexer
  import opened FloatSyntax
  import opened Syntax
  import opened Parser

  function Two(): Expression {
    Number(Float("2"))
  }

  /** The list `(+ 2 2)` reads to. */
  function AddTwoTwo(): Expression {
    List([Symbol("+"), Two(), Two()])
  }

  // ---------------------------------------------------------------------
  // Scanning the driver's inputs

  lemma AddTwoTwoLayout()
    ensures Fits(["(", "+", "2", "2", ")"], ["", "", " ", " ", ""])
    ensures Layout(["(", "+", "2", "2", ")"], ["", "", " ", " ", ""]) == "(+ 2 2)"
  {
  }

  /** `(+ 2 2)` is five tokens. */
  lemma ScanAddTwoTwo()
    ensures Tokenize("(+ 2 2)") == ["(", "+", "2", "2", ")"]
  {
    AddTwoTwoLayout();
    LexLayout(["(", "+", "2", "2", ")"], ["", "", " ", " ", ""]);
  }

  /** `()` is two tokens. */
  lemma ScanEmptyList()
    ensures Tokenize("()") == ["(", ")"]
  {
    LexAfterLexeme(")", "");
    LexAfterLexeme("(", ")");
  }

  // ---------------------------------------------------------------------
  // Reading the driver's inputs

  lemma AddTwoTwoWellFormed()
    ensures WellFormed(AddTwoTwo())
    ensures Unparse(AddTwoTwo()) == ["(", "+", "2", "2", ")"]
  {
    IntegerAtom();
    SignAtoms();
    var e := AddTwoTwo();
    assert forall x | x in e.items :: x == Symbol("+") || x == Two();
    AddTwoTwoTokens();
  }

  lemma AddTwoTwoTokens()
    ensures UnparseAll(AddTwoTwo().items) == ["+", "2", "2"]
  {
    assert UnparseAll([Two()]) == ["2"];
    assert UnparseAll([Two(), Two()]) == ["2", "2"];
  }

  /** `(+ 2 2)` reads as a list of three whose head is the symbol `+`,
      with nothing left over. */
  lemma ReadAddTwoTwo()
    ensures Read("(+ 2 2)") == Ok((AddTwoTwo(), []))
  {
    ScanAddTwoTwo();
    AddTwoTwoWellFormed();
    ParseUnparse(AddTwoTwo(), []);
    assert Unparse(AddTwoTwo()) + [] == Unparse(AddTwoTwo());
  }

  /** `()` reads as the empty list, nothing left over. */
  lemma ReadEmptyList()
    ensures Read("()") == Ok((List([]), []))
  {
    ScanEmptyList();
    assert ParseForm(["(", ")"]) == AsList(ReadItems([")"]));
  }

  /** The tokens of `(+ 2 (+ 2 2))`: the third item is itself a list of
      three, and nothing is left over. */
  lemma ParseNested()
    ensures ParseForm(["(", "+", "2", "(", "+", "2", "2", ")", ")"])
         == Ok((List([Symbol("+"), Two(), AddTwoTwo()]), []))
  {
    var e := List([Symbol("+"), Two(), AddTwoTwo()]);
    AddTwoTwoWellFormed();
    assert WellFormed(e) by {
      assert forall x | x in e.items :: x == Symbol("+") || x == Two() || x == AddTwoTwo();
    }
    assert Unparse(e) == ["(", "+", "2", "(", "+", "2", "2", ")", ")"] by {
      assert UnparseAll([AddTwoTwo()]) == Unparse(AddTwoTwo());
      assert UnparseAll([Two(), AddTwoTwo()]) == ["2"] + Unparse(AddTwoTwo());
      assert UnparseAll(e.items) == ["+", "2"] + Unparse(AddTwoTwo());
    }
    ParseUnparse(e, []);
    assert Unparse(e) + [] == Unparse(e);
  }

  // ---------------------------------------------------------------------
  // The three errors

  /** An empty slice, and any text that is all whitespace (two spaces,
      say), fail with "failed to parse token". */
  lemma ReadNothing(s: string)
    requires AllSpace(s)
    ensures ParseForm([]) == Err(ParseError(NoTokenMessage))
    ensures Read(s) == Err(ParseError(NoTokenMessage))
  {
  }

  lemma ReadTwoSpaces()
    ensures Read("  ") == Err(ParseError(NoTokenMessage))
  {
    assert AllSpace("  ");
    ReadNothing("  ");
  }

  /** A leading `)` fails with "unexpected `)`", whatever follows it. */
  lemma ReadStrayClose(rest: seq<Token>)
    ensures ParseForm([")"] + rest) == Err(ParseError(StrayCloseMessage))
    ensures ParseForm([")"]) == Err(ParseError(StrayCloseMessage))
  {
    assert ([")"] + rest)[0] == ")";
  }

  lemma ReadUnclosed()
    ensures ParseForm(["(", "+", "2"]) == Err(ParseError(UnclosedMessage))
  {
    assert ReadItems([]).Err?;
    assert ["2"][1..] == [];
    assert ReadItems(["2"]).Err?;
    assert ["+", "2"][1..] == ["2"];
    assert ReadItems(["+", "2"]).Err?;
    assert ["(", "+", "2"][1..] == ["+", "2"];
  }

  // ---------------------------------------------------------------------
  // Which atoms are numbers

  lemma IntegerAtom()
    ensures ParseAtom("2") == Number(Float("2"))
  {
  }

  lemma DecimalAtom()
    ensures ParseAtom("2.5") == Number(Float("2.5"))
  {
    assert "2" + "." + "5" == "2.5";
    DecimalIsLiteral("2", "5");
  }

  lemma FractionAtom()
    ensures ParseAtom(".5") == Number(Float(".5"))
  {
  }

  lemma InfinityAtom()
    ensures ParseAtom("inf") == Number(Float("inf"))
  {
  }

  lemma NotANumberAtom()
    ensures ParseAtom("NaN") == Number(Float("NaN"))
  {
  }

  lemma SignAtoms()
    ensures ParseAtom("+") == Symbol("+") && ParseAtom("-") == Symbol("-")
  {
  }

  lemma NameAtom()
    ensures ParseAtom("foo") == Symbol("foo")
  {
  }

  lemma DotAtom()
    ensures ParseAtom(".") == Symbol(".")
  {
  }

  lemma BareExponentAtom()
    ensures ParseAtom("1e") == Symbol("1e")
  {
  }
}
