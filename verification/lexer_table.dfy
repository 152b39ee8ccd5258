/** The test table of src/regex_lexer.rs: the tokens each pattern lexes to,
    derived from the model. Each lemma takes the pattern as a parameter fixed
    by its precondition; a companion lemma chains the `next_token` calls from
    the facts about the individual tokens. */
module LexerTable {
  import opened Wrappers
  import opened RegexLexer

  // ---------------------------------------------------------------------------
  // Patterns of one-character tokens

  /** `ab?`: two literals and the optional quantifier. */
  lemma OptionalSuffix(pattern: string)
    requires pattern == "ab?"
    ensures Tokens(New(pattern)).Ok?
    ensures Tokens(New(pattern)).value == [Literal('a'), Literal('b'), Quantifier(0, Some(1))]
  {
    SimplePatternTokens(pattern);
  }

  /** `a[bwz]b`: brackets are tokens of their own; their content is lexed
      like any other text. */
  lemma BracketTokens(pattern: string)
    requires pattern == "a[bwz]b"
    ensures Tokens(New(pattern)).Ok?
    ensures Tokens(New(pattern)).value ==
      [Literal('a'), LBracket, Literal('b'), Literal('w'), Literal('z'), RBracket, Literal('b')]
  {
    SimplePatternTokens(pattern);
  }

  /** `^a.b$`: both anchors and the wildcard. */
  lemma AnchorsAndWildcard(pattern: string)
    requires pattern == "^a.b$"
    ensures Tokens(New(pattern)).Ok?
    ensures Tokens(New(pattern)).value == [StartAnchor, Literal('a'), Wildcard, Literal('b'), EndAnchor]
  {
    SimplePatternTokens(pattern);
  }

  // ---------------------------------------------------------------------------
  // Patterns with escapes and braces

  /** `a*\d+`: the digit class between two shorthand quantifiers. */
  lemma DigitClass(pattern: string)
    requires pattern == "a*\\d+"
    ensures Tokens(New(pattern)).Ok?
    ensures Tokens(New(pattern)).value == [Literal('a'), Quantifier(0, None), Digit, Quantifier(1, None)]
  {
    ClassEscapes(pattern, 2);
    EscapeBetween(pattern, Digit, Quantifier(1, None));
  }

  /** `a*\wb`: the word class. */
  lemma WordClass(pattern: string)
    requires pattern == "a*\\wb"
    ensures Tokens(New(pattern)).Ok?
    ensures Tokens(New(pattern)).value == [Literal('a'), Quantifier(0, None), AlphaNum, Literal('b')]
  {
    ClassEscapes(pattern, 2);
    EscapeBetween(pattern, AlphaNum, Literal('b'));
  }

  /** `a*` followed by a two-character escape and one more token. */
  lemma EscapeBetween(chars: string, escaped: Token, last: Token)
    requires |chars| == 5 && chars[0] == 'a' && chars[1] == '*'
    requires NextToken(Lexer(chars, 2)) == Ok((escaped, Lexer(chars, 4))) && escaped != Eof
    requires chars[4] != '\\' && chars[4] != '{' && SimpleToken(chars[4]) == last
    ensures Tokens(Lexer(chars, 0)).Ok?
    ensures Tokens(Lexer(chars, 0)).value == [Literal('a'), Quantifier(0, None), escaped, last]
  {
    SimpleLast(chars, 4, 5);
    TokensStep(Lexer(chars, 2), escaped, Lexer(chars, 4));
    SimplePrefix(chars, [escaped, last]);
  }

  /** `a*` in front of the rest of a pattern. */
  lemma SimplePrefix(chars: string, rest: seq<Token>)
    requires 2 < |chars| && chars[0] == 'a' && chars[1] == '*'
    requires Tokens(Lexer(chars, 2)).Ok? && Tokens(Lexer(chars, 2)).value == rest
    ensures Tokens(Lexer(chars, 0)).Ok? && Tokens(Lexer(chars, 0)).value == [Literal('a'), Quantifier(0, None)] + rest
  {
    SimpleStep(chars, 1);
    TokensStep(Lexer(chars, 1), Quantifier(0, None), Lexer(chars, 2));
    SimpleFirst(chars, [Quantifier(0, None)] + rest);
  }

  /** `a{1}b`: an exact brace quantifier. */
  lemma ExactBrace(pattern: string)
    requires pattern == "a{1}b"
    ensures Tokens(New(pattern)).Ok?
    ensures Tokens(New(pattern)).value == [Literal('a'), Quantifier(1, Some(1)), Literal('b')]
  {
    assert DigitsAt(pattern, 2, 1) && DecimalValue(pattern, 2, 3) == 1;
    BraceExact(pattern, 1, 1);
    BraceBetweenLiterals(pattern, 4, 5, Quantifier(1, Some(1)));
  }

  /** `a{1,}b`: an open-ended brace quantifier. */
  lemma OpenBrace(pattern: string)
    requires pattern == "a{1,}b"
    ensures Tokens(New(pattern)).Ok?
    ensures Tokens(New(pattern)).value == [Literal('a'), Quantifier(1, None), Literal('b')]
  {
    assert DigitsAt(pattern, 2, 1) && DecimalValue(pattern, 2, 3) == 1;
    BraceUnbounded(pattern, 1, 1);
    BraceBetweenLiterals(pattern, 5, 6, Quantifier(1, None));
  }

  /** `a`, a brace quantifier ending before index `k`, and `b`. */
  lemma BraceBetweenLiterals(chars: string, k: nat, k1: nat, brace: Token)
    requires |chars| == k1 && k1 == k + 1 && 1 < k && chars[0] == 'a' && chars[k] == 'b'
    requires NextToken(Lexer(chars, 1)) == Ok((brace, Lexer(chars, k))) && brace != Eof
    ensures Tokens(Lexer(chars, 0)).Ok?
    ensures Tokens(Lexer(chars, 0)).value == [Literal('a'), brace, Literal('b')]
  {
    SimpleLast(chars, k, k1);
    TokensStep(Lexer(chars, 1), brace, Lexer(chars, k));
    SimpleFirst(chars, [brace, Literal('b')]);
  }

  /** `a\{`: an escaped punctuation character is a literal. */
  lemma EscapedBrace(pattern: string)
    requires pattern == "a\\{"
    ensures Tokens(New(pattern)).Ok?
    ensures Tokens(New(pattern)).value == [Literal('a'), Literal('{')]
  {
    PunctuationEscape(pattern, 1);
    EscapeAtEnd(pattern, Literal('{'));
  }

  lemma EscapeAtEnd(chars: string, escaped: Token)
    requires |chars| == 3 && chars[0] == 'a'
    requires NextToken(Lexer(chars, 1)) == Ok((escaped, Lexer(chars, 3))) && escaped != Eof
    ensures Tokens(Lexer(chars, 0)).Ok?
    ensures Tokens(Lexer(chars, 0)).value == [Literal('a'), escaped]
  {
    TokensOverSimple(chars, 3, 3);
    TokensStep(Lexer(chars, 1), escaped, Lexer(chars, 3));
    TokensOverSimple(chars, 0, 1);
  }

  /** `(a|bc){1,3}\12`: punctuators, a brace range, and a back-reference to
      group 12. */
  lemma RangeAndBackReference(pattern: string)
    requires pattern == "(a|bc){1,3}\\12"
    ensures Tokens(New(pattern)).Ok?
    ensures Tokens(New(pattern)).value ==
      [LParen, Literal('a'), Pipe, Literal('b'), Literal('c'), RParen, Quantifier(1, Some(3)), BackRef(12)]
  {
    RangeAndBackReferenceSteps(pattern);
    RangeAndBackReferenceTokens(pattern);
  }

  lemma RangeAndBackReferenceSteps(pattern: string)
    requires pattern == "(a|bc){1,3}\\12"
    ensures |pattern| == 14
    ensures forall j :: 0 <= j < 6 ==> pattern[j] != '\\' && pattern[j] != '{'
    ensures SimpleTokens(pattern[0..6]) == [LParen, Literal('a'), Pipe, Literal('b'), Literal('c'), RParen]
    ensures NextToken(Lexer(pattern, 6)) == Ok((Quantifier(1, Some(3)), Lexer(pattern, 11)))
    ensures NextToken(Lexer(pattern, 11)) == Ok((BackRef(12), Lexer(pattern, 14)))
  {
    RangeChars(pattern);
    RangeToken(pattern);
    BackReferenceToken(pattern);
  }

  lemma RangeChars(pattern: string)
    requires pattern == "(a|bc){1,3}\\12"
    ensures |pattern| == 14
    ensures forall j :: 0 <= j < 6 ==> pattern[j] != '\\' && pattern[j] != '{'
    ensures SimpleTokens(pattern[0..6]) == [LParen, Literal('a'), Pipe, Literal('b'), Literal('c'), RParen]
  {
  }

  lemma RangeToken(pattern: string)
    requires pattern == "(a|bc){1,3}\\12"
    ensures NextToken(Lexer(pattern, 6)) == Ok((Quantifier(1, Some(3)), Lexer(pattern, 11)))
  {
    assert DigitsAt(pattern, 7, 1) && DigitsAt(pattern, 9, 1);
    assert DecimalValue(pattern, 7, 8) == 1 && DecimalValue(pattern, 9, 10) == 3;
    BraceRange(pattern, 6, 1, 1);
  }

  lemma BackReferenceToken(pattern: string)
    requires pattern == "(a|bc){1,3}\\12"
    ensures NextToken(Lexer(pattern, 11)) == Ok((BackRef(12), Lexer(pattern, 14)))
  {
    assert DigitsAt(pattern, 12, 2);
    assert DecimalValue(pattern, 12, 14) == 12 by {
      assert DecimalValue(pattern, 12, 13) == 1;
    }
    BackReferenceEscape(pattern, 11, 2);
  }

  lemma RangeAndBackReferenceTokens(chars: string)
    requires |chars| == 14
    requires forall j :: 0 <= j < 6 ==> chars[j] != '\\' && chars[j] != '{'
    requires SimpleTokens(chars[0..6]) == [LParen, Literal('a'), Pipe, Literal('b'), Literal('c'), RParen]
    requires NextToken(Lexer(chars, 6)) == Ok((Quantifier(1, Some(3)), Lexer(chars, 11)))
    requires NextToken(Lexer(chars, 11)) == Ok((BackRef(12), Lexer(chars, 14)))
    ensures Tokens(Lexer(chars, 0)).Ok?
    ensures Tokens(Lexer(chars, 0)).value ==
      [LParen, Literal('a'), Pipe, Literal('b'), Literal('c'), RParen, Quantifier(1, Some(3)), BackRef(12)]
  {
    TokensOverSimple(chars, 14, 14);
    TokensStep(Lexer(chars, 11), BackRef(12), Lexer(chars, 14));
    TokensStep(Lexer(chars, 6), Quantifier(1, Some(3)), Lexer(chars, 11));
    TokensOverSimple(chars, 0, 6);
  }
}
