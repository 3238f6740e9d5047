# The schreme reader, modelled in Dafny

schreme is a small Scheme-style interpreter written in Rust. This project
models its reader front end: the tokenizer and the recursive-descent
S-expression parser in `src/parser.rs`. `src/lib.rs` is the copy of the same
code that the library exports. It differs only in naming the error type
`SchremeError` instead of `Error`, so one model serves both. The rows below
cite `src/parser.rs` for the core; the same code sits one line earlier in
`src/lib.rs` from `tokenize` on (`tokenize` is `src/lib.rs:21-27`, `parse` 29-38,
`read_seq` 40-54, `parse_atom` 56-62).

- `Lexer` (lexer.dfy) models `tokenize`.
  - It is written as the pipeline the source uses: replace every `(` by
    ` ( `, then every `)` by ` ) `, then split on whitespace.
  - Whitespace is the exact character set of Rust's `char::is_whitespace`,
    which is what `split_whitespace` splits on.
  - The pipeline is proved equal to a direct scanner, `Lex`, which skips
    whitespace, makes each parenthesis a token of its own, and otherwise
    takes the longest run of other characters. Every property of the
    tokenizer is proved through that scanner.
- `FloatSyntax` (float_syntax.dfy) decides which atoms `parse_atom` turns
  into numbers.
  - `parse_atom` calls Rust's `str::parse::<f64>`, which the model cannot
    see into. `IsFloatLiteral` stands in for that call: it writes out the
    grammar documented for `f64: FromStr` since Rust 1.55: an optional sign, then
    `inf`, `infinity`, `nan` or a decimal number with an optional
    exponent. The lemmas beside it pin down what it accepts and refuses.
  - The ASCII case of letters is ignored, so `inf`, `Infinity`, `NaN` and
    `1E5` are all accepted, as they are from Rust 1.55 on; the model
    follows that grammar.
  - A `Number` carries the literal text it was read from, not a rounded
    binary float.
- `Syntax` (syntax.dfy) holds:
  - the `Expression`, `Error` and `Result` types;
  - `Unparse`, which prints an expression back to tokens: a symbol as its
    text, a number as its literal, a list as `(`, its items and `)`;
  - nesting depth and balance of a token run.
- `Parser` (parser.dfy) covers `parse`, `read_seq` and `parse_atom`.
  - `ParseForm` and `ReadItems` are the reference definitions, written as
    mutually recursive functions. Their measure is the token count: `parse`
    decreases `|tokens|, 0` and `read_seq` decreases `|tokens|, 1`.
  - `Parse` and `ReadSeq` are the source's procedures, as methods. `ReadSeq`
    keeps the source's loop, with its growing item list `res` and its moving
    cursor `xs`. Each method is proved to return exactly what its reference
    definition returns.
  - The properties are proved about the reference definitions:
    - which inputs fail, as an if-and-only-if;
    - that a successful read consumes a non-empty, balanced prefix and
      returns the rest;
    - that reading an expression's printed tokens gives the expression back.
- `ReaderExamples` (examples.dfy) works through three kinds of example:
  - the driver's inputs in `bin/main.rs`;
  - the three errors;
  - a set of atoms, some read as numbers and some as symbols.

## Model

| member | source | states |
|---|---|---|
| `Lexer.Replace` | src/parser.rs:23-24 | text without the replaced character is unchanged; when the replacement does not contain the character, the result does not either |
| `Lexer.LeadingWord` | src/parser.rs:25 | the first word of the text is one of its prefixes, has no whitespace, and stops at whitespace or at the end; it is non-empty when the text starts with a non-space character |
| `Lexer.Tokenize` | src/parser.rs:22-28 | the tokens equal those of the reference scanner `Lex`; every token is non-empty and holds no whitespace; a token holding a parenthesis is exactly that parenthesis; the tokens concatenated give the input without its whitespace; there are no tokens exactly when the input is empty or all whitespace |
| `Lexer.Lex` | src/parser.rs:22-28 | every token the scanner yields is a lone parenthesis or a non-empty run of atom characters |
| `Lexer.PaddedSplitIsLex` | src/parser.rs:22-28 | padding the parentheses and then splitting on whitespace gives exactly the scanner's tokens, for every input |
| `Lexer.LexConcat` | src/parser.rs:22-28 | the scanned tokens, concatenated, are the input with every whitespace character removed |
| `Lexer.LexEmpty` | src/parser.rs:22-28 | the scanner yields no tokens if and only if the input is all whitespace |
| `Lexer.LexAfterLexeme` | src/parser.rs:23-25 | a lexeme followed by text that cannot glue onto it scans as that lexeme and then the tokens of the text, whether the lexeme is a parenthesis or an atom |
| `Lexer.LexSkipsSpace` | src/parser.rs:25 | leading whitespace does not change the tokens |
| `Lexer.LexLayout` | src/parser.rs:22-28 | lexemes written out with whitespace before each, required only between two atoms, scan back to exactly those lexemes |
| `Lexer.LexJoin` | src/parser.rs:22-28 | lexemes joined by a non-empty whitespace separator scan back to exactly those lexemes |
| `Lexer.RetokenizeJoined` | src/parser.rs:22-28 | tokenizing the tokens of any text joined by a whitespace separator gives the same tokens |
| `FloatSyntax.DigitsAreLiteral` | src/parser.rs:58 | every non-empty run of decimal digits parses as a float |
| `FloatSyntax.DecimalIsLiteral` | src/parser.rs:58 | digits, a point and digits parse as a float if and only if there is at least one digit, before or after the point |
| `FloatSyntax.ExponentIsLiteral` | src/parser.rs:58 | digits, then `e` or `E`, then an optional sign, then digits, parse as a float |
| `FloatSyntax.SignedLiteral` | src/parser.rs:58 | one `+` or `-` in front of a string that has no sign of its own leaves whether it parses unchanged, in both directions |
| `FloatSyntax.DoubleSignNotLiteral` | src/parser.rs:58 | two signs in a row never parse as a float, whatever follows them |
| `FloatSyntax.LiteralStart` | src/parser.rs:58 | once its sign is removed, a float is `inf`, `infinity` or `nan`, or starts with a digit or with a point and a digit; so a lone sign, a lone point and the empty string do not parse |
| `FloatSyntax.NoTrailingExponentMarker` | src/parser.rs:58 | no string that ends in `e` or `E` parses as a float |
| `FloatSyntax.CaseInsensitive` | src/parser.rs:58 | lower-casing a string does not change whether it parses as a float |
| `FloatSyntax.FloatLiteralIsAtom` | src/parser.rs:58-60 | every float literal is a non-empty run of atom characters, so it is never a parenthesis and never holds whitespace, and the scanner reads it as exactly one token, itself |
| `Syntax.UnparseBalanced` | src/parser.rs:41-55 | every expression the parser can build is printed as a balanced token run |
| `Parser.ParseAtom` | src/parser.rs:57-63 | the result is never a list; it is a symbol exactly when the token is not a float literal, and that symbol is named by the token itself; it prints back as the token; it is well formed unless the token is a parenthesis |
| `Parser.ParseForm` | src/parser.rs:30-39 | on success the input is the form's printed tokens followed by the remainder, so the remainder is a strictly shorter suffix and the form is well formed; the error is "failed to parse token" for an empty slice, "unexpected `)`" for a leading `)`, and otherwise "could not find closing `)`"; an atom head gives `(parse_atom(head), tail)`; a `(` head gives a list on success |
| `Parser.ReadItems` | src/parser.rs:41-55 | on success the input is the items' printed tokens in order, then the closing `)`, which is consumed and not among the items, then the remainder; every item is well formed; the only error is "could not find closing `)`" |
| `Parser.Parse` | src/parser.rs:30-39 | the procedure returns exactly what `ParseForm` returns, errors included |
| `Parser.ReadSeq` | src/parser.rs:41-55 | the loop returns exactly the list `ReadItems` reads, or its error unchanged; its invariant is that the reference result equals the items collected so far in front of what the rest of the cursor reads |
| `Parser.ReadItemsStep` | src/parser.rs:51-53 | one turn of the loop: the items read at the cursor are the item parsed there, in front of the items read after it |
| `Parser.ReadItemsFailsIff` | src/parser.rs:44-54 | reading a list's items fails if and only if no prefix of the tokens closes more parentheses than it opens, that is, if and only if the tokens run out before the matching `)` |
| `Parser.ParseFailsIff` | src/parser.rs:30-39 | `parse` fails if and only if the slice is empty, or starts with `)`, or starts with a `(` that is never matched |
| `Parser.ParseConsumesBalanced` | src/parser.rs:30-55 | on success the remainder is a proper suffix, and the consumed prefix is the form's printed tokens and is balanced |
| `Parser.ParseUnparse` | src/parser.rs:30-39 | reading the printed tokens of any well-formed expression, followed by anything, gives that expression back and leaves the rest untouched |
| `Parser.ReadItemsUnparse` | src/parser.rs:41-55 | reading printed items followed by `)` gives those items back, in order, and leaves what follows the `)` untouched |
| `Parser.Read` | bin/main.rs:10-12 | what the driver does with a line of text: on success the text's tokens are the form's printed tokens followed by the remainder; empty or all-whitespace text fails with "failed to parse token" |
| `Parser.ReadPrinted` | bin/main.rs:10-12 | printing an expression with whitespace between its tokens and reading the text back gives the expression, with nothing left over |
| `ReaderExamples.ScanAddTwoTwo` | bin/main.rs:6 | `(+ 2 2)` is the five tokens `(`, `+`, `2`, `2`, `)` |
| `ReaderExamples.ScanEmptyList` | bin/main.rs:6 | `()` is the two tokens `(`, `)` |
| `ReaderExamples.ReadAddTwoTwo` | bin/main.rs:6 | `(+ 2 2)` reads as a list of three whose head is the symbol `+`, with nothing left over |
| `ReaderExamples.ReadEmptyList` | bin/main.rs:6 | `()` reads as the empty list, with nothing left over |
| `ReaderExamples.ParseNested` | bin/main.rs:6 | the tokens of `(+ 2 (+ 2 2))` read as a list of three whose third item is itself a list of three, with nothing left over |
| `ReaderExamples.ReadNothing` | src/parser.rs:31-33 | an empty slice fails with "failed to parse token", and so does every text that is empty or all whitespace |
| `ReaderExamples.ReadTwoSpaces` | src/parser.rs:31-33 | the text of two spaces fails with "failed to parse token" |
| `ReaderExamples.ReadStrayClose` | src/parser.rs:36 | a `)` followed by any tokens at all fails with "unexpected `)`", and so does a lone `)` |
| `ReaderExamples.ReadUnclosed` | src/parser.rs:45-47 | `( + 2` fails with "could not find closing `)`" |
| `ReaderExamples.IntegerAtom` | src/parser.rs:57-60 | `2` is a number |
| `ReaderExamples.DecimalAtom` | src/parser.rs:57-60 | `2.5` is a number |
| `ReaderExamples.FractionAtom` | src/parser.rs:57-60 | `.5` is a number |
| `ReaderExamples.InfinityAtom` | src/parser.rs:57-60 | `inf` is a number |
| `ReaderExamples.NotANumberAtom` | src/parser.rs:57-60 | `NaN` is a number |
| `ReaderExamples.SignAtoms` | src/parser.rs:57-61 | a lone `+` and a lone `-` are symbols |
| `ReaderExamples.NameAtom` | src/parser.rs:57-61 | `foo` is a symbol |
| `ReaderExamples.DotAtom` | src/parser.rs:57-61 | a lone `.` is a symbol |
| `ReaderExamples.BareExponentAtom` | src/parser.rs:57-61 | `1e`, an exponent marker with no digits after it, is a symbol |

## Left out

- `src/repl.rs`: the interactive loop. It is input and output built on the
  `rustyline` crate: reading lines, the history file, printing. Its
  `parse_line` does the same thing as the driver, and `Parser.Read` models it.
- `bin/main.rs`: the printing of the parsed results. Its three inputs appear
  in `ReaderExamples`.
- `src/env.rs`: it belongs to an evaluator that is not among the modelled
  files: it uses `Expr`, `Expr::Fun` and `parse_float_list`, none of which the
  parser defines. Its builtins are `f64` arithmetic. No evaluator and no
  function values are modelled.
- The `Environment` struct: it is declared but used nowhere in the parser.
- The value of a number: `Number` keeps the literal text, because rounding
  a decimal to a 64-bit float is not modelled. So `2` and `2.0` read as
  different numbers here, while Rust gives them equal values.
- The printed (`Debug`) form of results and errors: only the message text
  of each of the three errors is modelled.
- Slices: a remainder is a sequence equal to a suffix of the input. That it
  borrows from the same buffer is not modelled.
- Stack depth: deeply nested input that overflows Rust's call stack is not
  modelled; the model's recursion is unbounded.
- ReaderExamples.ParseNested: it starts from the tokens of `(+ 2 (+ 2 2))`,
  not from its text. The scanning of that text follows from
  `Lexer.LexLayout` but is not worked out as an example.
