/** The tokenizer of src/regex_lexer.rs: a cursor over the pattern's characters
    and a `NextToken` step function that yields one token per call. */
module RegexLexer {
  import opened Wrappers
  import opened Ascii

  /** `RegexToken`. `Quantifier.max == None` stands for an unbounded repetition. */
  datatype Token =
    | Literal(c: char)
    | Digit
    | AlphaNum
    | Quantifier(min: nat, max: Option<nat>)
    | LParen
    | RParen
    | LBracket
    | RBracket
    | Pipe
    | Eof
    | BackRef(group: nat)
    | StartAnchor
    | EndAnchor
    | Wildcard

  /** Where the source prints a message and exits, or fails to parse a
      number, the model returns one of these, carrying the cursor. */
  datatype LexError =
    | BadNumber(at: nat)   // no digit where `read_number` expects one
    | BadBrace(at: nat)    // a brace quantifier of any other shape
    | BadEscape(at: nat)   // a backslash before an unsupported character

  /** `RegexLexer`: the pattern and the cursor `pos` (the source's `position`;
      its `read_position` is always `pos + 1`). `ch` is `None` past the end,
      and reading a character always moves the cursor, even past the end. */
  datatype Lexer = Lexer(chars: seq<char>, pos: nat) {

    /** The character under the cursor (`ch`). */
    function Ch(): Option<char> {
      if pos < |chars| then Some(chars[pos]) else None
    }

    /** `peek_char`: the character after the cursor. */
    function Peek(): Option<char> {
      if pos + 1 < |chars| then Some(chars[pos + 1]) else None
    }

    /** `read_char`: move the cursor by one. */
    function ReadChar(): (lx: Lexer)
      ensures lx.chars == chars && lx.pos == pos + 1
    {
      this.(pos := pos + 1)
    }

    /** How many pattern characters are still to be read, counting the
        one under the cursor. */
    function Remaining(): nat {
      if pos < |chars| then |chars| - pos else 0
    }

    predicate AtDigit() {
      pos < |chars| && IsDigit(chars[pos])
    }

    predicate BeforeDigit() {
      pos + 1 < |chars| && IsDigit(chars[pos + 1])
    }
  }

  /** `RegexLexer::new`: the cursor starts on the first character. */
  function New(pattern: string): (lx: Lexer)
    ensures lx.chars == pattern && lx.Remaining() == |pattern|
    ensures lx.Ch() == if pattern == [] then None else Some(pattern[0])
  {
    Lexer(pattern, 0)
  }

  // ---------------------------------------------------------------------------
  // Reference definitions for numbers: runs of digits and their decimal value.

  /** Every character of `chars[lo..hi]` is an ASCII digit. */
  predicate AllDigitsIn(chars: seq<char>, lo: nat, hi: nat) {
    hi <= |chars| && forall j :: lo <= j < hi ==> IsDigit(chars[j])
  }

  /** The value of the digits `chars[lo..hi]` read in decimal, most significant first. */
  function DecimalValue(chars: seq<char>, lo: nat, hi: nat): nat
    requires lo <= hi && AllDigitsIn(chars, lo, hi)
    decreases hi
  {
    if hi == lo then 0 else 10 * DecimalValue(chars, lo, hi - 1) + DigitValue(chars[hi - 1])
  }

  /** Length of the maximal run of ASCII digits of `chars` starting at `i`. */
  function DigitRun(chars: seq<char>, i: nat): (run: nat)
    ensures run > 0 ==> AllDigitsIn(chars, i, i + run)
    ensures i + run < |chars| ==> !IsDigit(chars[i + run])
    decreases |chars| - i
  {
    if i < |chars| && IsDigit(chars[i]) then 1 + DigitRun(chars, i + 1) else 0
  }

  /** A maximal run of `k > 0` digits starts at index `i`. */
  predicate DigitsAt(chars: seq<char>, i: nat, k: nat) {
    && 0 < k && AllDigitsIn(chars, i, i + k)
    && (i + k == |chars| || !IsDigit(chars[i + k]))
  }

  // ---------------------------------------------------------------------------
  // read_number

  /** The body of `read_number`'s loop, entered with the cursor on a digit:
      fold that digit into `acc` and move on while the next one is a digit.
      The cursor ends on the last digit of the run. */
  function ReadDigits(lx: Lexer, acc: nat): (r: (nat, Lexer))
    requires lx.AtDigit()
    ensures r.1.chars == lx.chars && lx.pos <= r.1.pos && r.1.AtDigit()
    decreases |lx.chars| - lx.pos
  {
    var acc' := acc * 10 + DigitValue(lx.chars[lx.pos]);
    if lx.BeforeDigit() then ReadDigits(lx.ReadChar(), acc') else (acc', lx)
  }

  /** From any digit of a run of `k` digits starting at `start`, with the
      digits before it already folded into the accumulator, `ReadDigits`
      yields the decimal value of the whole run and stops on its last digit. */
  lemma {:induction false} ReadDigitsValue(chars: seq<char>, start: nat, k: nat, pos: nat)
    requires DigitsAt(chars, start, k) && start <= pos < start + k
    ensures Lexer(chars, pos).AtDigit()
    ensures ReadDigits(Lexer(chars, pos), DecimalValue(chars, start, pos))
         == (DecimalValue(chars, start, start + k), Lexer(chars, start + k - 1))
    decreases start + k - pos
  {
    if pos + 1 < start + k {
      ReadDigitsValue(chars, start, k, pos + 1);
    }
  }

  /** `read_number`: read the digit run under the cursor, leaving the cursor
      on its last digit; no digit there is an error (the source's failed
      `parse::<usize>` of an empty string). What it reads is stated by
      `ReadNumberValue`. */
  function ReadNumber(lx: Lexer): (r: Result<(nat, Lexer), LexError>)
    ensures r.Err? <==> !lx.AtDigit()
    ensures r.Err? ==> r.error == BadNumber(lx.pos)
    ensures r.Ok? ==> r.value.1.chars == lx.chars && lx.pos <= r.value.1.pos < |lx.chars|
  {
    if lx.AtDigit() then Ok(ReadDigits(lx, 0)) else Err(BadNumber(lx.pos))
  }

  /** `read_number` on a run of `k` digits reads their decimal value. */
  lemma ReadNumberOfDigits(chars: seq<char>, i: nat, k: nat)
    requires DigitsAt(chars, i, k)
    ensures IsDigit(chars[i])
    ensures ReadNumber(Lexer(chars, i)) == Ok((DecimalValue(chars, i, i + k), Lexer(chars, i + k - 1)))
  {
    ReadDigitsValue(chars, i, k, i);
  }

  /** `read_number` reads the maximal digit run under the cursor as a decimal
      number and stops on its last digit; without a digit it fails. */
  lemma ReadNumberValue(chars: seq<char>, i: nat)
    ensures var run := DigitRun(chars, i);
      && (run == 0 ==> ReadNumber(Lexer(chars, i)) == Err(BadNumber(i)))
      && (run > 0 ==>
            ReadNumber(Lexer(chars, i)) == Ok((DecimalValue(chars, i, i + run), Lexer(chars, i + run - 1))))
  {
    var run := DigitRun(chars, i);
    if run > 0 {
      ReadNumberOfDigits(chars, i, run);
    }
  }

  // ---------------------------------------------------------------------------
  // read_brace_quantifier and next_token

  /** `read_brace_quantifier`, entered with the cursor on `{`. On success the
      cursor is on the closing `}`. */
  function ReadBrace(lx: Lexer): (r: Result<(Token, Lexer), LexError>)
    ensures r.Ok? ==> var (tok, lx') := r.value;
      && tok.Quantifier? && lx'.chars == lx.chars
      && lx.pos < lx'.pos < |lx.chars| && lx.chars[lx'.pos] == '}'
  {
    var (min, lx2) :- ReadNumber(lx.ReadChar());
    AfterLowerBound(min, lx2.ReadChar())
  }

  /** The rest of `read_brace_quantifier` once the lower bound is read, with
      the cursor on the character after it. */
  function AfterLowerBound(min: nat, lx: Lexer): (r: Result<(Token, Lexer), LexError>)
    ensures r.Ok? ==> var (tok, lx') := r.value;
      && tok.Quantifier? && lx'.chars == lx.chars
      && lx.pos <= lx'.pos < |lx.chars| && lx.chars[lx'.pos] == '}'
  {
    if lx.Ch() == Some('}') then Ok((Quantifier(min, Some(min)), lx))
    else if lx.Ch() == Some(',') then
      if lx.Peek() == Some('}') then Ok((Quantifier(min, None), lx.ReadChar()))
      else UpperBound(min, lx.ReadChar())
    else Err(BadBrace(lx.pos))
  }

  /** The upper bound of `{min,max}`, with the cursor on its first digit. */
  function UpperBound(min: nat, lx: Lexer): (r: Result<(Token, Lexer), LexError>)
    ensures r.Ok? ==> var (tok, lx') := r.value;
      && tok.Quantifier? && lx'.chars == lx.chars
      && lx.pos < lx'.pos < |lx.chars| && lx.chars[lx'.pos] == '}'
  {
    var (max, lx5) :- ReadNumber(lx);
    var lx6 := lx5.ReadChar();
    if lx6.Ch() == Some('}') then Ok((Quantifier(min, Some(max)), lx6))
    else Err(BadBrace(lx6.pos))
  }

  /** The token of a character that is neither `\\` nor `{`: the punctuators,
      the shorthand quantifiers, and otherwise the literal character. */
  function SimpleToken(c: char): Token {
    if c == '|' then Pipe
    else if c == '(' then LParen
    else if c == ')' then RParen
    else if c == '[' then LBracket
    else if c == ']' then RBracket
    else if c == '^' then StartAnchor
    else if c == '$' then EndAnchor
    else if c == '.' then Wildcard
    else if c == '*' then Quantifier(0, None)
    else if c == '+' then Quantifier(1, None)
    else if c == '?' then Quantifier(0, Some(1))
    else Literal(c)
  }

  /** The escape sequence that starts with the `\\` under the cursor; on
      success the cursor is on its last character. */
  function Escape(lx: Lexer): (r: Result<(Token, Lexer), LexError>)
    requires lx.pos < |lx.chars|
    ensures r.Ok? ==> var (tok, lx') := r.value;
      && tok != Eof && lx'.chars == lx.chars && lx.pos < lx'.pos < |lx.chars|
  {
    match lx.Peek()
    case None => Err(BadEscape(lx.pos))
    case Some(x) =>
      if x == 'w' then Ok((AlphaNum, lx.ReadChar()))
      else if x == 'd' then Ok((Digit, lx.ReadChar()))
      else if IsDigit(x) then
        var (num, lx') :- ReadNumber(lx.ReadChar());
        Ok((BackRef(num), lx'))
      else if IsPunctuation(x) then Ok((Literal(x), lx.ReadChar()))
      else Err(BadEscape(lx.pos))
  }

  /** The token under the cursor, before the final `read_char` of `next_token`. */
  function Scan(lx: Lexer): (r: Result<(Token, Lexer), LexError>)
    ensures r.Ok? ==> var (tok, lx') := r.value;
      && lx'.chars == lx.chars
      && (tok == Eof <==> lx.pos >= |lx.chars|)
      && (tok == Eof ==> lx' == lx)
      && (tok != Eof ==> lx.pos <= lx'.pos < |lx.chars|)
  {
    match lx.Ch()
    case None => Ok((Eof, lx))
    case Some(c) =>
      if c == '\\' then Escape(lx)
      else if c == '{' then ReadBrace(lx)
      else Ok((SimpleToken(c), lx))
  }

  /** `next_token`: scan one token, then step past its last character. `Eof`
      comes back exactly when the cursor is past the end; every other token
      strictly advances the cursor and leaves it within the pattern. */
  function NextToken(lx: Lexer): (r: Result<(Token, Lexer), LexError>)
    ensures lx.pos >= |lx.chars| ==> r == Ok((Eof, lx.ReadChar()))
    ensures r.Ok? ==> var (tok, lx') := r.value;
      && lx'.chars == lx.chars
      && (tok == Eof <==> lx.pos >= |lx.chars|)
      && (tok != Eof ==> lx.pos < lx'.pos <= |lx.chars| && lx'.Remaining() < lx.Remaining())
  {
    var (tok, lx') :- Scan(lx);
    Ok((tok, lx'.ReadChar()))
  }

  // ---------------------------------------------------------------------------
  // The token table

  /** Each of `| ( ) [ ] ^ $ .` yields its own token, and each of the shorthand
      quantifiers `* + ?` its quantifier, with the cursor moved by exactly one. */
  lemma SingleCharacterTokens(lx: Lexer)
    requires lx.pos < |lx.chars|
    ensures var c, next := lx.chars[lx.pos], Lexer(lx.chars, lx.pos + 1);
      && (c == '|' ==> NextToken(lx) == Ok((Pipe, next)))
      && (c == '(' ==> NextToken(lx) == Ok((LParen, next)))
      && (c == ')' ==> NextToken(lx) == Ok((RParen, next)))
      && (c == '[' ==> NextToken(lx) == Ok((LBracket, next)))
      && (c == ']' ==> NextToken(lx) == Ok((RBracket, next)))
      && (c == '^' ==> NextToken(lx) == Ok((StartAnchor, next)))
      && (c == '$' ==> NextToken(lx) == Ok((EndAnchor, next)))
      && (c == '.' ==> NextToken(lx) == Ok((Wildcard, next)))
      && (c == '*' ==> NextToken(lx) == Ok((Quantifier(0, None), next)))
      && (c == '+' ==> NextToken(lx) == Ok((Quantifier(1, None), next)))
      && (c == '?' ==> NextToken(lx) == Ok((Quantifier(0, Some(1)), next)))
  {
  }

  /** The characters that do not stand for themselves in a pattern. */
  predicate IsSpecial(c: char) {
    || c == '|' || c == '(' || c == ')' || c == '[' || c == ']' || c == '^' || c == '$'
    || c == '.' || c == '*' || c == '+' || c == '?' || c == '\\' || c == '{'
  }

  /** Every other character is a literal of itself, one character long. */
  lemma OrdinaryCharacter(lx: Lexer)
    requires lx.pos < |lx.chars| && !IsSpecial(lx.chars[lx.pos])
    ensures NextToken(lx) == Ok((Literal(lx.chars[lx.pos]), Lexer(lx.chars, lx.pos + 1)))
  {
  }

  /** A brace quantifier whose lower bound reads as `n`, ending on index `j`,
      continues as `AfterLowerBound` from the next character. */
  lemma BraceAfterLowerBound(chars: seq<char>, i: nat, n: nat, j: nat)
    requires i < |chars| && chars[i] == '{'
    requires ReadNumber(Lexer(chars, i + 1)) == Ok((n, Lexer(chars, j)))
    ensures Scan(Lexer(chars, i)) == AfterLowerBound(n, Lexer(chars, j + 1))
  {
  }

  /** After `{n`, a comma on `j + 1` and an upper bound `m` read from
      `j + 2` and ending on `j2`, the brace is closed exactly when `}`
      follows. */
  lemma UpperBoundAfterComma(chars: seq<char>, n: nat, j: nat, m: nat, j2: nat)
    requires j + 2 < |chars| && chars[j + 1] == ',' && chars[j + 2] != '}'
    requires ReadNumber(Lexer(chars, j + 2)) == Ok((m, Lexer(chars, j2)))
    ensures AfterLowerBound(n, Lexer(chars, j + 1)) ==
      if j2 + 1 < |chars| && chars[j2 + 1] == '}' then Ok((Quantifier(n, Some(m)), Lexer(chars, j2 + 1)))
      else Err(BadBrace(j2 + 1))
  {
    assert AfterLowerBound(n, Lexer(chars, j + 1)) == UpperBound(n, Lexer(chars, j + 2));
  }

  /** `{n,m}` with the lower bound `n` ending on index `j`, the comma on
      `j + 1` and the upper bound `m` ending on index `j2`. */
  lemma BraceClosedUpperBound(chars: seq<char>, i: nat, n: nat, j: nat, m: nat, j2: nat)
    requires i < |chars| && chars[i] == '{'
    requires ReadNumber(Lexer(chars, i + 1)) == Ok((n, Lexer(chars, j)))
    requires j + 2 < |chars| && chars[j + 1] == ',' && chars[j + 2] != '}'
    requires ReadNumber(Lexer(chars, j + 2)) == Ok((m, Lexer(chars, j2)))
    requires j2 + 1 < |chars| && chars[j2 + 1] == '}'
    ensures NextToken(Lexer(chars, i)) == Ok((Quantifier(n, Some(m)), Lexer(chars, j2 + 2)))
  {
    BraceAfterLowerBound(chars, i, n, j);
    UpperBoundAfterComma(chars, n, j, m, j2);
  }

  /** As above, but with no `}` after the upper bound. */
  lemma BraceUnclosedUpperBound(chars: seq<char>, i: nat, n: nat, j: nat, m: nat, j2: nat)
    requires i < |chars| && chars[i] == '{'
    requires ReadNumber(Lexer(chars, i + 1)) == Ok((n, Lexer(chars, j)))
    requires j + 2 < |chars| && chars[j + 1] == ',' && chars[j + 2] != '}'
    requires ReadNumber(Lexer(chars, j + 2)) == Ok((m, Lexer(chars, j2)))
    requires j2 + 1 >= |chars| || chars[j2 + 1] != '}'
    ensures NextToken(Lexer(chars, i)) == Err(BadBrace(j2 + 1))
  {
    BraceAfterLowerBound(chars, i, n, j);
    UpperBoundAfterComma(chars, n, j, m, j2);
  }

  /** `{n}` is the quantifier `{n, Some n}`; the cursor ends past the `}`. */
  lemma BraceExact(chars: seq<char>, i: nat, k: nat)
    requires i < |chars| && chars[i] == '{'
    requires DigitsAt(chars, i + 1, k)
    requires i + 1 + k < |chars| && chars[i + 1 + k] == '}'
    ensures var n := DecimalValue(chars, i + 1, i + 1 + k);
      NextToken(Lexer(chars, i)) == Ok((Quantifier(n, Some(n)), Lexer(chars, i + k + 2)))
  {
    ReadNumberOfDigits(chars, i + 1, k);
    BraceAfterLowerBound(chars, i, DecimalValue(chars, i + 1, i + 1 + k), i + k);
  }

  /** `{n,}` is the unbounded quantifier `{n, None}`. */
  lemma BraceUnbounded(chars: seq<char>, i: nat, k: nat)
    requires i < |chars| && chars[i] == '{'
    requires DigitsAt(chars, i + 1, k)
    requires i + 2 + k < |chars| && chars[i + 1 + k] == ',' && chars[i + 2 + k] == '}'
    ensures var n := DecimalValue(chars, i + 1, i + 1 + k);
      NextToken(Lexer(chars, i)) == Ok((Quantifier(n, None), Lexer(chars, i + k + 3)))
  {
    ReadNumberOfDigits(chars, i + 1, k);
    BraceAfterLowerBound(chars, i, DecimalValue(chars, i + 1, i + 1 + k), i + k);
  }

  /** `{n,m}` is the quantifier `{n, Some m}`. */
  lemma BraceRange(chars: seq<char>, i: nat, k: nat, k2: nat)
    requires i < |chars| && chars[i] == '{'
    requires DigitsAt(chars, i + 1, k) && i + 1 + k < |chars| && chars[i + 1 + k] == ','
    requires DigitsAt(chars, i + k + 2, k2)
    requires i + k + k2 + 2 < |chars| && chars[i + k + k2 + 2] == '}'
    ensures var n, m := DecimalValue(chars, i + 1, i + 1 + k), DecimalValue(chars, i + k + 2, i + k + k2 + 2);
      NextToken(Lexer(chars, i)) == Ok((Quantifier(n, Some(m)), Lexer(chars, i + k + k2 + 3)))
  {
    ReadNumberOfDigits(chars, i + 1, k);
    ReadNumberOfDigits(chars, i + k + 2, k2);
    BraceClosedUpperBound(chars, i, DecimalValue(chars, i + 1, i + 1 + k), i + k,
                          DecimalValue(chars, i + k + 2, i + k + k2 + 2), i + k + k2 + 1);
  }

  /** A brace with no digit after it fails. */
  lemma BraceWithoutBound(chars: seq<char>, i: nat)
    requires i < |chars| && chars[i] == '{'
    requires i + 1 == |chars| || !IsDigit(chars[i + 1])
    ensures NextToken(Lexer(chars, i)) == Err(BadNumber(i + 1))
  {
  }

  /** A lower bound followed by neither `}` nor `,` fails. */
  lemma BraceBadSeparator(chars: seq<char>, i: nat, k: nat)
    requires i < |chars| && chars[i] == '{'
    requires DigitsAt(chars, i + 1, k)
    requires i + 1 + k == |chars| || (chars[i + 1 + k] != '}' && chars[i + 1 + k] != ',')
    ensures NextToken(Lexer(chars, i)) == Err(BadBrace(i + 1 + k))
  {
    ReadNumberOfDigits(chars, i + 1, k);
    BraceAfterLowerBound(chars, i, DecimalValue(chars, i + 1, i + 1 + k), i + k);
  }

  /** `{n,` followed by neither `}` nor a digit fails. */
  lemma BraceMissingUpperBound(chars: seq<char>, i: nat, k: nat)
    requires i < |chars| && chars[i] == '{'
    requires DigitsAt(chars, i + 1, k) && i + 1 + k < |chars| && chars[i + 1 + k] == ','
    requires i + k + 2 == |chars| || (chars[i + k + 2] != '}' && !IsDigit(chars[i + k + 2]))
    ensures NextToken(Lexer(chars, i)) == Err(BadNumber(i + k + 2))
  {
    ReadNumberOfDigits(chars, i + 1, k);
    BraceAfterLowerBound(chars, i, DecimalValue(chars, i + 1, i + 1 + k), i + k);
  }

  /** `{n,m` not closed by `}` fails, at the end of the pattern as well. */
  lemma BraceUnclosed(chars: seq<char>, i: nat, k: nat, k2: nat)
    requires i < |chars| && chars[i] == '{'
    requires DigitsAt(chars, i + 1, k) && i + 1 + k < |chars| && chars[i + 1 + k] == ','
    requires DigitsAt(chars, i + k + 2, k2)
    requires i + k + k2 + 2 == |chars| || chars[i + k + k2 + 2] != '}'
    ensures NextToken(Lexer(chars, i)) == Err(BadBrace(i + k + k2 + 2))
  {
    ReadNumberOfDigits(chars, i + 1, k);
    ReadNumberOfDigits(chars, i + k + 2, k2);
    BraceUnclosedUpperBound(chars, i, DecimalValue(chars, i + 1, i + 1 + k), i + k,
                            DecimalValue(chars, i + k + 2, i + k + k2 + 2), i + k + k2 + 1);
  }

  /** `\w` is the word class and `\d` the digit class. */
  lemma ClassEscapes(chars: seq<char>, i: nat)
    requires i + 1 < |chars| && chars[i] == '\\'
    ensures chars[i + 1] == 'w' ==> NextToken(Lexer(chars, i)) == Ok((AlphaNum, Lexer(chars, i + 2)))
    ensures chars[i + 1] == 'd' ==> NextToken(Lexer(chars, i)) == Ok((Digit, Lexer(chars, i + 2)))
  {
  }

  /** A backslash before a digit run is a back-reference to the run's value. */
  lemma BackReferenceEscape(chars: seq<char>, i: nat, k: nat)
    requires i < |chars| && chars[i] == '\\'
    requires DigitsAt(chars, i + 1, k)
    ensures NextToken(Lexer(chars, i)) == Ok((BackRef(DecimalValue(chars, i + 1, i + 1 + k)), Lexer(chars, i + 1 + k)))
  {
    ReadNumberOfDigits(chars, i + 1, k);
  }

  /** A backslash before ASCII punctuation is that character as a literal. */
  lemma PunctuationEscape(chars: seq<char>, i: nat)
    requires i + 1 < |chars| && chars[i] == '\\' && IsPunctuation(chars[i + 1])
    ensures NextToken(Lexer(chars, i)) == Ok((Literal(chars[i + 1]), Lexer(chars, i + 2)))
  {
  }

  /** A backslash at the end of the pattern, or before a character that is not
      `w`, `d`, a digit or punctuation, fails. */
  lemma BadEscapes(chars: seq<char>, i: nat)
    requires i < |chars| && chars[i] == '\\'
    requires i + 1 < |chars| ==>
      var x := chars[i + 1]; x != 'w' && x != 'd' && !IsDigit(x) && !IsPunctuation(x)
    ensures NextToken(Lexer(chars, i)) == Err(BadEscape(i))
  {
  }

  // ---------------------------------------------------------------------------
  // Repeated calls

  /** The result of the `k+1`-th consecutive call of `next_token` from `lx`. */
  function NthToken(lx: Lexer, k: nat): Result<(Token, Lexer), LexError>
    decreases k
  {
    var (tok, lx') :- NextToken(lx);
    if k == 0 then Ok((tok, lx')) else NthToken(lx', k - 1)
  }

  lemma {:induction false} PastTheEnd(lx: Lexer, k: nat)
    requires lx.pos >= |lx.chars|
    ensures NthToken(lx, k) == Ok((Eof, Lexer(lx.chars, lx.pos + k + 1)))
    decreases k
  {
    if k > 0 {
      PastTheEnd(lx.ReadChar(), k - 1);
    }
  }

  /** Once `next_token` has returned `Eof`, every further call returns `Eof`. */
  lemma {:induction false} EofIsSticky(lx: Lexer, k: nat, j: nat)
    requires NthToken(lx, k).Ok? && NthToken(lx, k).value.0 == Eof
    requires k <= j
    ensures NthToken(lx, j).Ok? && NthToken(lx, j).value.0 == Eof
    decreases k
  {
    var (tok, lx') := NextToken(lx).value;
    if tok == Eof {
      PastTheEnd(lx, j);
    } else {
      EofIsSticky(lx', k - 1, j - 1);
    }
  }

  /** Every token but `Eof` consumes a character, so a pattern of length `n`
      yields `Eof` by the `n+1`-th call at the latest, unless a lexical error
      comes first. */
  lemma {:induction false} EofWithinLength(lx: Lexer, k: nat)
    requires k >= lx.Remaining() && NthToken(lx, k).Ok?
    ensures NthToken(lx, k).value.0 == Eof
    decreases k
  {
    var (tok, lx') := NextToken(lx).value;
    if tok != Eof {
      EofWithinLength(lx', k - 1);
    } else if k > 0 {
      PastTheEnd(lx', k - 1);
    }
  }

  /** The loop of the lexer tests: call `next_token` until `Eof`, collecting
      the tokens before it. */
  function Tokens(lx: Lexer): (r: Result<seq<Token>, LexError>)
    ensures r.Ok? ==> |r.value| <= lx.Remaining() && Eof !in r.value
    decreases lx.Remaining()
  {
    var (tok, lx') :- NextToken(lx);
    if tok == Eof then Ok([]) else
      var rest :- Tokens(lx');
      Ok([tok] + rest)
  }

  /** `Tokens` lists exactly the results of the successive `next_token` calls,
      and the call after the last of them returns `Eof`. */
  lemma {:induction false} TokensAreSuccessiveCalls(lx: Lexer)
    requires Tokens(lx).Ok?
    ensures var ts := Tokens(lx).value;
      && (forall i :: 0 <= i < |ts| ==> NthToken(lx, i).Ok? && NthToken(lx, i).value.0 == ts[i])
      && NthToken(lx, |ts|).Ok? && NthToken(lx, |ts|).value.0 == Eof
    decreases lx.Remaining()
  {
    var (tok, lx') := NextToken(lx).value;
    if tok != Eof {
      TokensAreSuccessiveCalls(lx');
      var ts := Tokens(lx).value;
      forall i | 0 < i < |ts|
        ensures NthToken(lx, i).Ok? && NthToken(lx, i).value.0 == ts[i]
      {
        assert NthToken(lx, i) == NthToken(lx', i - 1);
      }
    }
  }

  /** Reference definition: the tokens of a text with no `\\` and no `{`,
      one per character. */
  function SimpleTokens(s: string): (r: seq<Token>)
    ensures |r| == |s|
  {
    seq(|s|, j requires 0 <= j < |s| => SimpleToken(s[j]))
  }

  lemma SimpleTokensCons(chars: seq<char>, i: nat, k: nat)
    requires i < k <= |chars|
    ensures SimpleTokens(chars[i..k]) == [SimpleToken(chars[i])] + SimpleTokens(chars[i + 1..k])
  {
    var a, b := SimpleTokens(chars[i..k]), [SimpleToken(chars[i])] + SimpleTokens(chars[i + 1..k]);
    assert forall j :: 0 <= j < |a| ==> a[j] == b[j];
  }

  /** One character other than `\\` and `{` is one token, and the cursor
      moves past it. */
  lemma SimpleStep(chars: seq<char>, i: nat)
    requires i < |chars| && chars[i] != '\\' && chars[i] != '{'
    ensures NextToken(Lexer(chars, i)) == Ok((SimpleToken(chars[i]), Lexer(chars, i + 1)))
    ensures SimpleToken(chars[i]) != Eof
  {
  }

  /** Characters other than `\\` and `{` each lex to their own token, so a
      stretch of them lexes to `SimpleTokens` of it, followed by whatever the
      rest of the pattern lexes to. */
  lemma {:induction false} TokensOverSimple(chars: seq<char>, i: nat, k: nat)
    requires i <= k <= |chars| && forall j :: i <= j < k ==> chars[j] != '\\' && chars[j] != '{'
    requires Tokens(Lexer(chars, k)).Ok?
    ensures Tokens(Lexer(chars, i)).Ok?
    ensures Tokens(Lexer(chars, i)).value == SimpleTokens(chars[i..k]) + Tokens(Lexer(chars, k)).value
    decreases k - i
  {
    if i == k {
      assert SimpleTokens(chars[i..k]) == [];
    } else {
      TokensOverSimple(chars, i + 1, k);
      SimpleStepBefore(chars, i, k, Tokens(Lexer(chars, k)).value);
    }
  }

  /** One more simple character in front of a stretch already lexed. */
  lemma SimpleStepBefore(chars: seq<char>, i: nat, k: nat, rest: seq<Token>)
    requires i < k <= |chars| && chars[i] != '\\' && chars[i] != '{'
    requires Tokens(Lexer(chars, i + 1)).Ok?
    requires Tokens(Lexer(chars, i + 1)).value == SimpleTokens(chars[i + 1..k]) + rest
    ensures Tokens(Lexer(chars, i)).Ok?
    ensures Tokens(Lexer(chars, i)).value == SimpleTokens(chars[i..k]) + rest
  {
    SimpleStep(chars, i);
    TokensStep(Lexer(chars, i), SimpleToken(chars[i]), Lexer(chars, i + 1));
    SimpleTokensCons(chars, i, k);
  }

  /** A pattern with no `\\` and no `{` lexes to one token per character. */
  lemma SimplePatternTokens(pattern: string)
    requires forall j :: 0 <= j < |pattern| ==> pattern[j] != '\\' && pattern[j] != '{'
    ensures Tokens(New(pattern)).Ok? && Tokens(New(pattern)).value == SimpleTokens(pattern)
  {
    TokensOverSimple(pattern, 0, |pattern|);
    assert pattern[0..|pattern|] == pattern;
  }

  /** Past the end there are no more tokens. */
  lemma TokensAtEnd(chars: seq<char>, i: nat)
    requires |chars| <= i
    ensures Tokens(Lexer(chars, i)).Ok? && Tokens(Lexer(chars, i)).value == []
  {
  }

  /** A last character other than `\\` and `{` is the last token. */
  lemma SimpleLast(chars: seq<char>, k: nat, k1: nat)
    requires k1 == k + 1 && |chars| == k1 && chars[k] != '\\' && chars[k] != '{'
    ensures Tokens(Lexer(chars, k)).Ok? && Tokens(Lexer(chars, k)).value == [SimpleToken(chars[k])]
  {
    TokensAtEnd(chars, k1);
    SimpleStep(chars, k);
    TokensStep(Lexer(chars, k), SimpleToken(chars[k]), Lexer(chars, k1));
  }

  /** A first character other than `\\` and `{` is the first token. */
  lemma SimpleFirst(chars: seq<char>, rest: seq<Token>)
    requires 0 < |chars| && chars[0] != '\\' && chars[0] != '{'
    requires Tokens(Lexer(chars, 1)).Ok? && Tokens(Lexer(chars, 1)).value == rest
    ensures Tokens(Lexer(chars, 0)).Ok? && Tokens(Lexer(chars, 0)).value == [SimpleToken(chars[0])] + rest
  {
    SimpleStep(chars, 0);
    TokensStep(Lexer(chars, 0), SimpleToken(chars[0]), Lexer(chars, 1));
  }

  /** `Tokens` is the token of one `next_token` call followed by the tokens
      after it. */
  lemma TokensStep(lx: Lexer, tok: Token, lx': Lexer)
    requires NextToken(lx) == Ok((tok, lx')) && tok != Eof && Tokens(lx').Ok?
    ensures Tokens(lx).Ok? && Tokens(lx).value == [tok] + Tokens(lx').value
  {
  }
}
