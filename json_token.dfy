/** The JSON tokenizer of backend/json.c: whitespace skipping, one-byte
    punctuation, quoted strings without escapes, and bare words. */
module JsonTokens {
  import opened Common

  datatype TokenKind =
    | LBracket | RBracket | LBrace | RBrace
    | Str | Number | Null | True | False
    | Colon | Comma
    | Illegal | UnclosedString

  /** A token: its kind and the view of its bytes in the input. */
  datatype Token = Token(kind: TokenKind, value: View)

  /** The result of asking for the next token: none left, or a token and the
      Position the tokenizer writes back. */
  datatype Scan = NoToken | Scanned(token: Token, next: nat)

  /** JsonIsWhitespace: space, LF, CR and tab. */
  predicate IsWhitespace(c: Byte)
  {
    c == SPACE || c == LF || c == CR || c == TAB
  }

  /** The first byte at or after `p` that is not whitespace (or the end). */
  function SkipWhitespace(input: seq<Byte>, p: nat): (q: nat)
    ensures p <= q && (q <= |input| || q == p)
    ensures q < |input| ==> !IsWhitespace(input[q])
    ensures forall i :: p <= i < q && i < |input| ==> IsWhitespace(input[i])
    decreases |input| - p
  {
    if p < |input| && IsWhitespace(input[p]) then SkipWhitespace(input, p + 1) else p
  }

  /** The end of a bare word: the first whitespace byte at or after `p`. */
  function WordEnd(input: seq<Byte>, p: nat): (q: nat)
    ensures p <= q && (q <= |input| || q == p)
    ensures q < |input| ==> IsWhitespace(input[q])
    ensures forall i :: p <= i < q && i < |input| ==> !IsWhitespace(input[i])
    decreases |input| - p
  {
    if p < |input| && !IsWhitespace(input[p]) then WordEnd(input, p + 1) else p
  }

  predicate IsDigit(c: Byte)
  {
    DIGIT_ZERO <= c <= DIGIT_NINE
  }

  predicate AllDigits(word: seq<Byte>)
  {
    forall i :: 0 <= i < |word| ==> IsDigit(word[i])
  }

  const TRUE_TEXT: seq<Byte> := Ascii("true")
  const FALSE_TEXT: seq<Byte> := Ascii("false")
  const NULL_TEXT: seq<Byte> := Ascii("null")

  /** How a bare word is classified: exactly `true`, `false` or `null`, else
      an all-digit run is a number, else it is illegal. */
  function WordKind(word: seq<Byte>): TokenKind
  {
    if word == TRUE_TEXT then True
    else if word == FALSE_TEXT then False
    else if word == NULL_TEXT then Null
    else if AllDigits(word) then Number
    else Illegal
  }

  /** The kind of a one-byte punctuation token. */
  function PunctuationKind(c: Byte): TokenKind
    requires IsPunctuation(c)
  {
    if c == LBRACKET then LBracket
    else if c == RBRACKET then RBracket
    else if c == LBRACE then LBrace
    else if c == RBRACE then RBrace
    else if c == COMMA then Comma
    else Colon
  }

  predicate IsPunctuation(c: Byte)
  {
    c == LBRACKET || c == RBRACKET || c == LBRACE || c == RBRACE || c == COMMA || c == COLON
  }

  /** JsonNextToken as a function of the input and the caller's Position. */
  function NextToken(input: seq<Byte>, pos: nat): Scan
  {
    var c := SkipWhitespace(input, pos);
    if c >= |input| then NoToken
    else if IsPunctuation(input[c]) then
      // Position moves one past the caller's Position, not past the token.
      Scanned(Token(PunctuationKind(input[c]), View(c, 1)), pos + 1)
    else if input[c] == QUOTE then
      var close := IndexOf(input, c + 1, QUOTE);
      if close >= |input| then Scanned(Token(UnclosedString, View(c, close - c)), close + 1)
      else Scanned(Token(Str, View(c + 1, close - (c + 1))), close + 1)
    else
      var end := WordEnd(input, c);
      // Position is not written for a bare word.
      Scanned(Token(WordKind(input[c..end]), View(c, end - c)), pos)
  }

  /** A token's view always lies inside the input. */
  lemma TokenWithinInput(input: seq<Byte>, pos: nat)
    ensures NextToken(input, pos).Scanned? ==> NextToken(input, pos).token.value.Within(|input|)
  {
  }

  /** There is no token exactly when every byte from Position on is
      whitespace. */
  lemma NoTokenIffBlank(input: seq<Byte>, pos: nat)
    ensures NextToken(input, pos).NoToken? <==> forall i :: pos <= i < |input| ==> IsWhitespace(input[i])
  {
    var c := SkipWhitespace(input, pos);
    if c < |input| {
      assert !IsWhitespace(input[c]);
    }
  }

  /** A punctuation byte after optional whitespace is a one-byte token and
      Position becomes the caller's Position plus one. */
  lemma PunctuationToken(input: seq<Byte>, pos: nat, c: nat)
    requires pos <= c < |input| && IsPunctuation(input[c])
    requires forall i :: pos <= i < c ==> IsWhitespace(input[i])
    ensures NextToken(input, pos) == Scanned(Token(PunctuationKind(input[c]), View(c, 1)), pos + 1)
  {
    SkipToFirstNonBlank(input, pos, c);
  }

  /** Whitespace before punctuation makes the tokenizer return the same
      punctuation again on the next call. */
  lemma PunctuationAfterBlankIsReadTwice(input: seq<Byte>, pos: nat, c: nat)
    requires pos < c < |input| && IsPunctuation(input[c])
    requires forall i :: pos <= i < c ==> IsWhitespace(input[i])
    ensures NextToken(input, pos).Scanned? && NextToken(input, NextToken(input, pos).next).Scanned?
    ensures NextToken(input, NextToken(input, pos).next).token == NextToken(input, pos).token
  {
    PunctuationToken(input, pos, c);
    PunctuationToken(input, pos + 1, c);
  }

  lemma SkipToFirstNonBlank(input: seq<Byte>, pos: nat, c: nat)
    requires pos <= c < |input| && !IsWhitespace(input[c])
    requires forall i :: pos <= i < c ==> IsWhitespace(input[i])
    ensures SkipWhitespace(input, pos) == c
  {
  }

  /** A quote starts a string token: its bytes are those strictly between
      the quote and the next quote, with no escape handling, and Position
      becomes one past the closing quote. Without a closing quote the token is
      unclosed, starts at the opening quote and Position becomes Count + 1. */
  lemma StringToken(input: seq<Byte>, pos: nat, c: nat)
    requires pos <= c < |input| && input[c] == QUOTE
    requires forall i :: pos <= i < c ==> IsWhitespace(input[i])
    ensures NextToken(input, pos).Scanned?
    ensures var t := NextToken(input, pos).token;
      (exists close :: c < close < |input| && input[close] == QUOTE) ==>
        t.kind == Str && t.value.start == c + 1 &&
        NextToken(input, pos).next == t.value.start + t.value.count + 1 &&
        input[t.value.start + t.value.count] == QUOTE &&
        QUOTE !in input[t.value.start..t.value.start + t.value.count]
    ensures var t := NextToken(input, pos).token;
      (forall i :: c < i < |input| ==> input[i] != QUOTE) ==>
        t == Token(UnclosedString, View(c, |input| - c)) && NextToken(input, pos).next == |input| + 1
  {
    SkipToFirstNonBlank(input, pos, c);
    var close := IndexOf(input, c + 1, QUOTE);
    if exists k :: c < k < |input| && input[k] == QUOTE {
      var k :| c < k < |input| && input[k] == QUOTE;
      assert close <= k;
    }
  }

  /** The closed-string case with the closing quote named. */
  lemma ClosedStringToken(input: seq<Byte>, pos: nat, c: nat, close: nat)
    requires pos <= c < close < |input| && input[c] == QUOTE && input[close] == QUOTE
    requires forall i :: pos <= i < c ==> IsWhitespace(input[i])
    requires forall i :: c < i < close ==> input[i] != QUOTE
    ensures NextToken(input, pos) == Scanned(Token(Str, View(c + 1, close - (c + 1))), close + 1)
  {
    SkipToFirstNonBlank(input, pos, c);
    var found := IndexOf(input, c + 1, QUOTE);
    assert found <= close;
  }

  /** A NUMBER, TRUE, FALSE, NULL or ILLEGAL token is a bare word: the
      non-empty run of non-whitespace bytes at the first non-whitespace
      byte, with Position left alone. */
  lemma BareWordToken(input: seq<Byte>, pos: nat)
    requires NextToken(input, pos).Scanned?
    requires NextToken(input, pos).token.kind in {Number, True, False, Null, Illegal}
    ensures var c := SkipWhitespace(input, pos);
      c < |input| && NextToken(input, pos).next == pos &&
      NextToken(input, pos).token == Token(WordKind(input[c..WordEnd(input, c)]), View(c, WordEnd(input, c) - c)) &&
      WordEnd(input, c) > c
  {
  }

  /** The end of a bare word named. */
  lemma WordEndAt(input: seq<Byte>, c: nat, end: nat)
    requires c <= end <= |input| && (end < |input| ==> IsWhitespace(input[end]))
    requires forall i :: c <= i < end ==> !IsWhitespace(input[i])
    ensures WordEnd(input, c) == end
  {
  }

  /** Any other byte starts a bare word: the maximal run of non-whitespace
      bytes, classified by WordKind, and Position is left where it was. */
  lemma WordToken(input: seq<Byte>, pos: nat, c: nat)
    requires pos <= c < |input| && !IsWhitespace(input[c])
    requires !IsPunctuation(input[c]) && input[c] != QUOTE
    requires forall i :: pos <= i < c ==> IsWhitespace(input[i])
    ensures NextToken(input, pos).Scanned?
    ensures var t := NextToken(input, pos).token;
      t.value.start == c && t.value.count > 0 && t.value.Within(|input|) &&
      t.kind == WordKind(input[c..c + t.value.count]) &&
      (forall i :: c <= i < c + t.value.count ==> !IsWhitespace(input[i])) &&
      (c + t.value.count < |input| ==> IsWhitespace(input[c + t.value.count]))
    ensures NextToken(input, pos).next == pos
  {
    SkipToFirstNonBlank(input, pos, c);
  }

  /** Because a bare word leaves Position alone, asking again yields the same
      word again. */
  lemma WordIsReadAgain(input: seq<Byte>, pos: nat)
    requires NextToken(input, pos).Scanned?
    requires NextToken(input, pos).token.kind in {Number, True, False, Null, Illegal}
    ensures NextToken(input, NextToken(input, pos).next) == NextToken(input, pos)
  {
  }

  /** JsonNextToken: skip whitespace, then dispatch on the first byte.
      Without a token the caller's Position is left unwritten. */
  method JsonNextToken(input: seq<Byte>, position: nat) returns (found: bool, token: Token, next: nat)
    ensures found <==> NextToken(input, position).Scanned?
    ensures found ==> token == NextToken(input, position).token && next == NextToken(input, position).next
    ensures !found ==> next == position
  {
    next := position;
    token := Token(Illegal, View(0, 0));
    var current := position;
    while current < |input| && IsWhitespace(input[current])
      invariant position <= current
      invariant SkipWhitespace(input, current) == SkipWhitespace(input, position)
      decreases |input| - current
    {
      current := current + 1;
    }
    if current >= |input| {
      return false, token, next;
    }
    var ch := input[current];
    if IsPunctuation(ch) {
      return true, Token(PunctuationKind(ch), View(current, 1)), position + 1;
    }
    if ch == QUOTE {
      var stringStart := current + 1;
      current := ScanFor(input, stringStart, QUOTE);
      var kind := Str;
      if current >= |input| {
        kind := UnclosedString;
        stringStart := stringStart - 1;
      }
      return true, Token(kind, View(stringStart, current - stringStart)), current + 1;
    }
    var valueStart := current;
    while current < |input| && !IsWhitespace(input[current])
      invariant valueStart <= current
      invariant WordEnd(input, current) == WordEnd(input, valueStart)
      decreases |input| - current
    {
      current := current + 1;
    }
    var kind := ClassifyWord(input[valueStart..current]);
    token := Token(kind, View(valueStart, current - valueStart));
    found := true;
  }

  /** The loop that checks every byte of a bare word against `'0'..'9'`. */
  method ScanDigits(value: seq<Byte>) returns (digits: bool)
    ensures digits <==> AllDigits(value)
  {
    digits := true;
    for i := 0 to |value|
      invariant digits == AllDigits(value[..i])
    {
      if !IsDigit(value[i]) {
        digits := false;
        break;
      }
    }
    assert value[..|value|] == value;
  }

  /** The comparisons against `true`, `false` and `null`, then the digit
      scan, that classify a bare word. */
  method ClassifyWord(value: seq<Byte>) returns (kind: TokenKind)
    ensures kind == WordKind(value)
  {
    var isTrue := StringViewEqualLiteral(value, "true");
    var isFalse := StringViewEqualLiteral(value, "false");
    var isNull := StringViewEqualLiteral(value, "null");
    if isTrue {
      return True;
    } else if isFalse {
      return False;
    } else if isNull {
      return Null;
    }
    var digits := ScanDigits(value);
    kind := if digits then Number else Illegal;
  }

  /** JsonPeekToken: the same answer as JsonNextToken, with Position kept. */
  method JsonPeekToken(input: seq<Byte>, position: nat) returns (found: bool, token: Token)
    ensures found <==> NextToken(input, position).Scanned?
    ensures found ==> token == NextToken(input, position).token
  {
    var saved := position;
    var next;
    found, token, next := JsonNextToken(input, saved);
  }
}
