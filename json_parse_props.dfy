/** What the parser of backend/json.c does on the inputs its callers give
    it: empty containers, the cases that return 0, the cases that abort, and
    the consequences of the Position defects of the tokenizer. */
module JsonParserProperties {
  import opened Common
  import opened Arenas
  import opened JsonTokens
  import opened JsonValues
  import opened JsonParser
  import opened Fnv

  /** `[` immediately followed by optional whitespace and `]` is the empty
      array; the seven zeroed element slots stay pushed. */
  lemma EmptyArrayParses(input: seq<Byte>, pos: nat, close: nat, offset: nat, capacity: nat)
    requires pos < close < |input| && input[pos] == LBRACKET && input[close] == RBRACKET
    requires forall i :: pos < i < close ==> IsWhitespace(input[i])
    requires offset + ARRAY_SLOTS_SIZE <= capacity
    ensures ParseValue(input, pos, offset, capacity) == Parsed(JsonArray([]), pos + 2, offset + ARRAY_SLOTS_SIZE)
  {
    PunctuationToken(input, pos, pos);
    PunctuationToken(input, pos + 1, close);
    PushedExact(offset, capacity, ARRAY_SLOTS_SIZE);
  }

  /** `{` immediately followed by optional whitespace and `}` is the empty
      object of 37 free slots; both slot arrays stay pushed. */
  lemma EmptyObjectParses(input: seq<Byte>, pos: nat, close: nat, offset: nat, capacity: nat)
    requires pos < close < |input| && input[pos] == LBRACE && input[close] == RBRACE
    requires forall i :: pos < i < close ==> IsWhitespace(input[i])
    requires offset + KEY_SLOTS_SIZE + VALUE_SLOTS_SIZE <= capacity
    ensures ParseValue(input, pos, offset, capacity) ==
      Parsed(JsonObject(EmptyTable()), pos + 2, offset + KEY_SLOTS_SIZE + VALUE_SLOTS_SIZE)
  {
    PunctuationToken(input, pos, pos);
    PunctuationToken(input, pos + 1, close);
    PushedExact(offset, capacity, KEY_SLOTS_SIZE);
    PushedExact(offset + KEY_SLOTS_SIZE, capacity, VALUE_SLOTS_SIZE);
  }

  /** A token that cannot start a value (ILLEGAL, UNCLOSED_STRING, and the
      closing and separating punctuation) reaches `TODO()` and aborts. */
  lemma BadValueTokenAborts(input: seq<Byte>, pos: nat, offset: nat, capacity: nat)
    requires offset <= capacity
    requires NextToken(input, pos).Scanned?
    requires NextToken(input, pos).token.kind in {Illegal, UnclosedString, RBracket, RBrace, Comma, Colon}
    ensures ParseValue(input, pos, offset, capacity) == Aborted(NotImplemented)
  {
  }

  /** No token at all is a failure, not an abort, at the top level and at
      the top of either container loop. */
  lemma EndOfInputFails(input: seq<Byte>, pos: nat, offset: nat, capacity: nat)
    requires offset <= capacity
    requires forall i :: pos <= i < |input| ==> IsWhitespace(input[i])
    ensures ParseValue(input, pos, offset, capacity) == NoParse(offset)
    ensures forall elements: ArenaArray<JsonValue> | elements.Valid() ::
      ArrayAtPeek(input, pos, offset, capacity, elements) == NoParse(offset)
    ensures forall table: ObjectTable | table.Valid() ::
      ObjectAtPeek(input, pos, offset, capacity, table) == NoParse(offset)
  {
    NoTokenIffBlank(input, pos);
  }

  /** Inside an object, a key that is not a STRING, or a key not followed by
      a COLON, makes the parse return 0. */
  lemma BadKeyFails(input: seq<Byte>, pos: nat, offset: nat, capacity: nat, table: ObjectTable)
    requires offset <= capacity && table.Valid()
    requires NextToken(input, pos).Scanned?
    requires var key := NextToken(input, pos);
      key.token.kind != Str ||
      (var colon := NextToken(input, key.next); colon.NoToken? || colon.token.kind != Colon)
    ensures ObjectAtKey(input, pos, offset, capacity, table) == NoParse(offset)
  {
  }

  /** Every parsed number is non-negative: a NUMBER token has no `-`, so
      ParseF64's sign branch is unreachable from the parser. */
  lemma ParsedNumberIsNonNegative(input: seq<Byte>, pos: nat, offset: nat, capacity: nat)
    requires offset <= capacity
    requires ParseValue(input, pos, offset, capacity).Parsed?
    requires ParseValue(input, pos, offset, capacity).value.JsonNumber?
    ensures ParseValue(input, pos, offset, capacity).value.number >= 0
  {
    NumberComesFromToken(input, pos, offset, capacity);
    BareWordToken(input, pos);
    NumberTokenValue(Slice(input, NextToken(input, pos).token.value));
  }

  /** Only a NUMBER token parses into a number, and its value is ParseF64's. */
  lemma NumberComesFromToken(input: seq<Byte>, pos: nat, offset: nat, capacity: nat)
    requires offset <= capacity
    requires ParseValue(input, pos, offset, capacity).Parsed?
    requires ParseValue(input, pos, offset, capacity).value.JsonNumber?
    ensures NextToken(input, pos).Scanned? && NextToken(input, pos).token.kind == Number
    ensures NextToken(input, pos).token.value.Within(|input|)
    ensures var text := Slice(input, NextToken(input, pos).token.value);
      F64Value(text).Ok? && ParseValue(input, pos, offset, capacity).value.number == F64Value(text).value
  {
    TokenWithinInput(input, pos);
  }

  /** A bare word as an array element is parsed again and again: it leaves
      Position where it was, so the token after the element is that word
      once more, which is neither `,` nor `]` and is dropped. Each turn pushes
      another element, and the array's growth eventually exhausts the arena
      whatever its size. */
  lemma {:induction false} BareWordElementExhaustsArena(input: seq<Byte>, pos: nat, offset: nat, capacity: nat,
                                                         elements: ArenaArray<JsonValue>)
    requires offset <= capacity && elements.Valid()
    requires NextToken(input, pos).Scanned?
    requires NextToken(input, pos).token.kind in {Number, True, False, Null}
    ensures ArrayAtPeek(input, pos, offset, capacity, elements) == Aborted(OutOfMemory)
    decreases capacity - offset, elements.capacity - |elements.elems|
  {
    BareWordToken(input, pos);
    var token := NextToken(input, pos).token;
    TokenWithinInput(input, pos);
    if token.kind == Number {
      NumberTokenValue(Slice(input, token.value));
    }
    var element := ParseValue(input, pos, offset, capacity);
    assert element.Parsed? && element.pos == pos && element.offset == offset;
    ArrayPushKeepsElements(elements, element.value, SIZE_OF_JSON_VALUE, offset, capacity);
    PushedKeepsInvariant(offset, capacity, SIZE_OF_JSON_VALUE * ((elements.capacity + 1) * 2));
    var pushed := ArrayPushSpec(elements, element.value, SIZE_OF_JSON_VALUE, offset, capacity);
    if pushed.Ok? {
      BareWordElementExhaustsArena(input, pos, pushed.value.1, capacity, pushed.value.0);
    }
  }

  /** `[1 ]`: the element `1` is re-read until the arena runs out. */
  lemma NumberElementNeverEnds(offset: nat, capacity: nat)
    requires offset <= capacity
    ensures Parse([LBRACKET, 0x31, SPACE, RBRACKET], offset, capacity) == Aborted(OutOfMemory)
  {
    var input: seq<Byte> := [LBRACKET, 0x31, SPACE, RBRACKET];
    PunctuationToken(input, 0, 0);
    SkipToFirstNonBlank(input, 1, 1);
    WordEndAt(input, 1, 2);
    assert input[1..2] == [0x31];
    assert WordKind([0x31]) == Number;
    assert NextToken(input, 1).token.kind == Number;
    PushedKeepsInvariant(offset, capacity, ARRAY_SLOTS_SIZE);
    if Pushed(offset, capacity, ARRAY_SLOTS_SIZE).Ok? {
      BareWordElementExhaustsArena(input, 1, Pushed(offset, capacity, ARRAY_SLOTS_SIZE).value, capacity,
                                   ArenaArray([], DEFAULT_ARRAY_CAPACITY, offset));
    }
  }

  /** `[1]`: without whitespace the bare word is `1]`, which is ILLEGAL. */
  lemma NumberBeforeBracketAborts(offset: nat, capacity: nat)
    requires offset + ARRAY_SLOTS_SIZE <= capacity
    ensures Parse([LBRACKET, 0x31, RBRACKET], offset, capacity) == Aborted(NotImplemented)
  {
    var input: seq<Byte> := [LBRACKET, 0x31, RBRACKET];
    PunctuationToken(input, 0, 0);
    SkipToFirstNonBlank(input, 1, 1);
    WordEndAt(input, 1, 3);
    assert input[1..3] == [0x31, RBRACKET];
    assert !IsDigit([0x31, RBRACKET][1]);
    assert WordKind([0x31, RBRACKET]) == Illegal;
    var arrayEnd := offset + ARRAY_SLOTS_SIZE;
    var elements := ArenaArray([], DEFAULT_ARRAY_CAPACITY, offset);
    PushedExact(offset, capacity, ARRAY_SLOTS_SIZE);
    assert ParseValue(input, 1, arrayEnd, capacity) == Aborted(NotImplemented);
    assert ArrayAtElement(input, 1, arrayEnd, capacity, elements) == Aborted(NotImplemented);
    assert ArrayAtPeek(input, 1, arrayEnd, capacity, elements) == Aborted(NotImplemented);
  }

  /** `["a"]`: a string element advances past its closing quote, so the
      array closes. */
  lemma StringArrayParses(offset: nat, capacity: nat)
    requires offset + ARRAY_SLOTS_SIZE <= capacity
    ensures Parse([LBRACKET, QUOTE, 0x61, QUOTE, RBRACKET], offset, capacity) ==
      Parsed(JsonArray([JsonString([0x61])]), 5, offset + ARRAY_SLOTS_SIZE)
  {
    var input: seq<Byte> := [LBRACKET, QUOTE, 0x61, QUOTE, RBRACKET];
    PunctuationToken(input, 0, 0);
    ClosedStringToken(input, 1, 1, 3);
    assert input[2..3] == [0x61];
    PunctuationToken(input, 4, 4);
    var arrayEnd := offset + ARRAY_SLOTS_SIZE;
    var elements := ArenaArray([], DEFAULT_ARRAY_CAPACITY, offset);
    PushedExact(offset, capacity, ARRAY_SLOTS_SIZE);
    assert ParseValue(input, 1, arrayEnd, capacity) == Parsed(JsonString([0x61]), 4, arrayEnd);
    assert [] + [JsonString([0x61])] == [JsonString([0x61])];
    assert ArrayPushSpec(elements, JsonString([0x61]), SIZE_OF_JSON_VALUE, arrayEnd, capacity)
      == Ok((ArenaArray([JsonString([0x61])], DEFAULT_ARRAY_CAPACITY, offset), arrayEnd));
    assert ArrayAtElement(input, 1, arrayEnd, capacity, elements) == Parsed(JsonArray([JsonString([0x61])]), 5, arrayEnd);
    assert ArrayAtPeek(input, 1, arrayEnd, capacity, elements) == Parsed(JsonArray([JsonString([0x61])]), 5, arrayEnd);
  }

  /** A STRING token in value position is the value, with the token's
      bytes and Position past the closing quote; nothing is pushed. */
  lemma StringValueParses(input: seq<Byte>, pos: nat, offset: nat, capacity: nat)
    requires offset <= capacity
    requires NextToken(input, pos).Scanned? && NextToken(input, pos).token.kind == Str
    ensures NextToken(input, pos).token.value.Within(|input|)
    ensures ParseValue(input, pos, offset, capacity) ==
      Parsed(JsonString(Slice(input, NextToken(input, pos).token.value)), NextToken(input, pos).next, offset)
  {
    TokenWithinInput(input, pos);
  }

  /** One `"key" : value }` sequence in a fresh object yields that one entry. */
  lemma SinglePairObject(input: seq<Byte>, pos: nat, offset: nat, capacity: nat,
                         afterKey: nat, afterColon: nat, afterValue: nat, afterClose: nat,
                         key: seq<Byte>, value: JsonValue)
    requires offset <= capacity
    requires NextToken(input, pos).Scanned? && NextToken(input, pos).next == afterKey
    requires NextToken(input, pos).token.kind == Str
    requires NextToken(input, pos).token.value.Within(|input|) && Slice(input, NextToken(input, pos).token.value) == key
    requires NextToken(input, afterKey).Scanned? && NextToken(input, afterKey).token.kind == Colon
    requires NextToken(input, afterKey).next == afterColon
    requires ParseValue(input, afterColon, offset, capacity) == Parsed(value, afterValue, offset)
    requires NextToken(input, afterValue).Scanned? && NextToken(input, afterValue).token.kind == RBrace
    requires NextToken(input, afterValue).next == afterClose
    ensures var inserted := InsertSpec(EmptyTable(), key, value, offset, capacity);
      inserted.Ok? &&
      ObjectAtKey(input, pos, offset, capacity, EmptyTable()) == Parsed(JsonObject(inserted.value.0), afterClose, offset)
  {
    InsertIntoEmptyTable(key, value, offset, capacity);
  }

  /** The bytes `{"key":"text"}`. */
  function OnePairObject(key: seq<Byte>, text: seq<Byte>): seq<Byte>
  {
    [LBRACE, QUOTE] + key + [QUOTE, COLON, QUOTE] + text + [QUOTE, RBRACE]
  }

  /** The tokens of `{"key":"text"}`, with k = |key| and t = |text|. */
  lemma OnePairObjectTokens(key: seq<Byte>, text: seq<Byte>)
    requires QUOTE !in key && QUOTE !in text
    ensures var input := OnePairObject(key, text); var k := |key|; var t := |text|;
      |input| == 7 + k + t &&
      NextToken(input, 0) == Scanned(Token(LBrace, View(0, 1)), 1) &&
      NextToken(input, 1) == Scanned(Token(Str, View(2, k)), 3 + k) &&
      NextToken(input, 3 + k) == Scanned(Token(Colon, View(3 + k, 1)), 4 + k) &&
      NextToken(input, 4 + k) == Scanned(Token(Str, View(5 + k, t)), 6 + k + t) &&
      NextToken(input, 6 + k + t) == Scanned(Token(RBrace, View(6 + k + t, 1)), 7 + k + t) &&
      input[2..2 + k] == key && input[5 + k..5 + k + t] == text
  {
    OnePairObjectLayout(key, text);
    OnePairTokensAt(OnePairObject(key, text), |key|, |text|);
  }

  /** Where the brackets, quotes and colon of `{"key":"text"}` are. */
  lemma OnePairObjectLayout(key: seq<Byte>, text: seq<Byte>)
    requires QUOTE !in key && QUOTE !in text
    ensures var input := OnePairObject(key, text); var k := |key|; var t := |text|;
      |input| == 7 + k + t &&
      input[0] == LBRACE && input[1] == QUOTE && input[2 + k] == QUOTE && input[3 + k] == COLON &&
      input[4 + k] == QUOTE && input[5 + k + t] == QUOTE && input[6 + k + t] == RBRACE &&
      (forall i :: 2 <= i < 2 + k ==> input[i] != QUOTE) &&
      (forall i :: 5 + k <= i < 5 + k + t ==> input[i] != QUOTE) &&
      input[2..2 + k] == key && input[5 + k..5 + k + t] == text
  {
    var input := OnePairObject(key, text);
    var k := |key|;
    var closeKey := 2 + k;
    var openText := 4 + k;
    var closeText := 5 + k + |text|;
    assert input[2..closeKey] == key;
    assert input[openText + 1..closeText] == text;
    assert forall i :: 1 < i < closeKey ==> input[i] == key[i - 2];
    assert forall i :: openText < i < closeText ==> input[i] == text[i - openText - 1];
  }

  /** Five tokens of a one-pair object, from where its punctuation is. */
  lemma OnePairTokensAt(input: seq<Byte>, k: nat, t: nat)
    requires |input| == 7 + k + t
    requires input[0] == LBRACE && input[1] == QUOTE && input[2 + k] == QUOTE && input[3 + k] == COLON
    requires input[4 + k] == QUOTE && input[5 + k + t] == QUOTE && input[6 + k + t] == RBRACE
    requires forall i :: 2 <= i < 2 + k ==> input[i] != QUOTE
    requires forall i :: 5 + k <= i < 5 + k + t ==> input[i] != QUOTE
    ensures NextToken(input, 0) == Scanned(Token(LBrace, View(0, 1)), 1)
    ensures NextToken(input, 1) == Scanned(Token(Str, View(2, k)), 3 + k)
    ensures NextToken(input, 3 + k) == Scanned(Token(Colon, View(3 + k, 1)), 4 + k)
    ensures NextToken(input, 4 + k) == Scanned(Token(Str, View(5 + k, t)), 6 + k + t)
    ensures NextToken(input, 6 + k + t) == Scanned(Token(RBrace, View(6 + k + t, 1)), 7 + k + t)
  {
    PunctuationAt(input, 0, LBRACE, LBrace, 1);
    StringAt(input, 1, 2, k, 2 + k, 3 + k);
    PunctuationAt(input, 3 + k, COLON, Colon, 4 + k);
    StringAt(input, 4 + k, 5 + k, t, 5 + k + t, 6 + k + t);
    PunctuationAt(input, 6 + k + t, RBRACE, RBrace, 7 + k + t);
  }

  /** A string closed at `close`, then one punctuation byte. */
  lemma StringThenPunctuation(input: seq<Byte>, open: nat, close: nat)
    requires open < close && close + 1 < |input|
    requires input[open] == QUOTE && input[close] == QUOTE && IsPunctuation(input[close + 1])
    requires forall i :: open < i < close ==> input[i] != QUOTE
    ensures NextToken(input, open) == Scanned(Token(Str, View(open + 1, close - open - 1)), close + 1)
    ensures NextToken(input, close + 1) ==
      Scanned(Token(PunctuationKind(input[close + 1]), View(close + 1, 1)), close + 2)
  {
    ClosedStringToken(input, open, open, close);
    PunctuationToken(input, close + 1, close + 1);
  }


  /** A `{` token at Position 0 pushes both slot tables and goes on with
      a fresh 37-slot object at the next Position. */
  lemma ObjectOpens(input: seq<Byte>, offset: nat, capacity: nat)
    requires offset + KEY_SLOTS_SIZE + VALUE_SLOTS_SIZE <= capacity
    requires NextToken(input, 0).Scanned? && NextToken(input, 0).token.kind == LBrace
    ensures Parse(input, offset, capacity) ==
      ObjectAtPeek(input, NextToken(input, 0).next, offset + KEY_SLOTS_SIZE + VALUE_SLOTS_SIZE, capacity, EmptyTable())
  {
    PushedExact(offset, capacity, KEY_SLOTS_SIZE);
    PushedExact(offset + KEY_SLOTS_SIZE, capacity, VALUE_SLOTS_SIZE);
  }

  /** The tokens `{ STRING : STRING }`, wherever they come from, parse into
      the one-entry object under which the key finds the string. */
  lemma OnePairTokensParse(input: seq<Byte>, key: seq<Byte>, text: seq<Byte>, offset: nat, capacity: nat,
                           afterOpen: nat, afterKey: nat, afterColon: nat, afterValue: nat, afterClose: nat)
    requires offset + KEY_SLOTS_SIZE + VALUE_SLOTS_SIZE <= capacity
    requires NextToken(input, 0).Scanned? && NextToken(input, 0).token.kind == LBrace
    requires NextToken(input, 0).next == afterOpen
    requires NextToken(input, afterOpen).Scanned? && NextToken(input, afterOpen).next == afterKey
    requires NextToken(input, afterOpen).token.kind == Str
    requires NextToken(input, afterOpen).token.value.Within(|input|)
    requires Slice(input, NextToken(input, afterOpen).token.value) == key
    requires NextToken(input, afterKey).Scanned? && NextToken(input, afterKey).token.kind == Colon
    requires NextToken(input, afterKey).next == afterColon
    requires NextToken(input, afterColon).Scanned? && NextToken(input, afterColon).token.kind == Str
    requires NextToken(input, afterColon).token.value.Within(|input|)
    requires Slice(input, NextToken(input, afterColon).token.value) == text
    requires NextToken(input, afterColon).next == afterValue
    requires NextToken(input, afterValue).Scanned? && NextToken(input, afterValue).token.kind == RBrace
    requires NextToken(input, afterValue).next == afterClose
    ensures var r := Parse(input, offset, capacity);
      r.Parsed? && r.pos == afterClose && r.offset == offset + KEY_SLOTS_SIZE + VALUE_SLOTS_SIZE &&
      r.value.JsonObject? && r.value.table.count == 1 && |r.value.table.slots| == DEFAULT_OBJECT_CAPACITY &&
      Lookup(r.value.table, key) == Some(JsonString(text))
  {
    var valuesEnd := offset + KEY_SLOTS_SIZE + VALUE_SLOTS_SIZE;
    var value := JsonString(text);
    ObjectOpens(input, offset, capacity);
    StringValueParses(input, afterColon, valuesEnd, capacity);
    SinglePairObject(input, afterOpen, valuesEnd, capacity, afterKey, afterColon, afterValue, afterClose, key, value);
    InsertIntoEmptyTable(key, value, valuesEnd, capacity);
    InsertedKeyIsFound(EmptyTable(), key, value, valuesEnd, capacity);
  }

  /** `{"key":"text"}` with no quote inside key or text parses into a
      one-entry object of 37 slots in which JsonObjectGet finds the string
      under the key. */
  lemma OnePairObjectParses(key: seq<Byte>, text: seq<Byte>, offset: nat, capacity: nat)
    requires QUOTE !in key && QUOTE !in text
    requires offset + KEY_SLOTS_SIZE + VALUE_SLOTS_SIZE <= capacity
    ensures var r := Parse(OnePairObject(key, text), offset, capacity);
      r.Parsed? && r.pos == |OnePairObject(key, text)| && r.offset == offset + KEY_SLOTS_SIZE + VALUE_SLOTS_SIZE &&
      r.value.JsonObject? && r.value.table.count == 1 && |r.value.table.slots| == DEFAULT_OBJECT_CAPACITY &&
      Lookup(r.value.table, key) == Some(JsonString(text))
  {
    var k := |key|;
    var t := |text|;
    OnePairObjectTokens(key, text);
    OnePairTokensParse(OnePairObject(key, text), key, text, offset, capacity, 1, 3 + k, 4 + k, 6 + k + t, 7 + k + t);
  }

  /** A key and its string value. */
  type StringPair = (seq<Byte>, seq<Byte>)

  /** No key and no string holds a quote (nothing is escaped). */
  predicate QuoteFree(pairs: seq<StringPair>)
  {
    forall n :: 0 <= n < |pairs| ==> QUOTE !in pairs[n].0 && QUOTE !in pairs[n].1
  }

  /** No two pairs share a key. */
  predicate DistinctKeys(pairs: seq<StringPair>)
  {
    forall m, n :: 0 <= m < n < |pairs| ==> pairs[m].0 != pairs[n].0
  }

  /** The bytes `"key":"text"` of one pair. */
  function PairText(pair: StringPair): seq<Byte>
  {
    [QUOTE] + pair.0 + [QUOTE, COLON, QUOTE] + pair.1 + [QUOTE]
  }

  /** The members from pair `d` on, each after a `,` but the first, and
      the closing `}`. */
  function MembersText(pairs: seq<StringPair>, d: nat): seq<Byte>
    requires d < |pairs|
    decreases |pairs| - d
  {
    PairText(pairs[d]) + (if d + 1 == |pairs| then [RBRACE] else [COMMA] + MembersText(pairs, d + 1))
  }

  /** The bytes of an object of string members, with no whitespace. */
  function ObjectText(pairs: seq<StringPair>): seq<Byte>
  {
    [LBRACE] + (if |pairs| == 0 then [RBRACE] else MembersText(pairs, 0))
  }

  /** The table holds exactly the first `d` pairs: Count is `d`, the keys
      are unique, each of those keys finds its string, and no other key is
      found. */
  ghost predicate HoldsPairs(table: ObjectTable, pairs: seq<StringPair>, d: nat)
    requires d <= |pairs|
  {
    table.Valid() && UniqueKeys(table.slots) && table.count == d &&
    (forall n :: 0 <= n < d ==> Lookup(table, pairs[n].0) == Some(JsonString(pairs[n].1))) &&
    (forall key :: Lookup(table, key).Some? ==> exists n :: 0 <= n < d && pairs[n].0 == key)
  }

  /** Where the quotes, the colon and the separator of `"key":"text"` and
      the byte after it are, each Position named: the key's closing quote,
      the colon, the string's opening quote, its first byte, its closing
      quote and the separator. */
  lemma PairLayout(input: seq<Byte>, pos: nat, pair: StringPair, sep: Byte, next: nat)
    returns (keyClose: nat, afterKey: nat, afterColon: nat, textStart: nat, textClose: nat, afterValue: nat)
    requires QUOTE !in pair.0 && QUOTE !in pair.1
    requires next == pos + |PairText(pair)| + 1
    requires next <= |input| && input[pos..next] == PairText(pair) + [sep]
    ensures keyClose == pos + 1 + |pair.0| && afterKey == keyClose + 1 && afterColon == afterKey + 1
    ensures textStart == afterColon + 1 && textClose == textStart + |pair.1| && afterValue == textClose + 1
    ensures next == afterValue + 1
    ensures PairBytesAt(input, pos, keyClose, afterKey, afterColon, textClose, afterValue, sep)
    ensures Slice(input, View(pos + 1, |pair.0|)) == pair.0
    ensures Slice(input, View(textStart, |pair.1|)) == pair.1
  {
    var k := |pair.0|;
    var t := |pair.1|;
    keyClose, afterKey, afterColon, textStart := pos + 1 + k, pos + 2 + k, pos + 3 + k, pos + 4 + k;
    textClose, afterValue := pos + 4 + k + t, pos + 5 + k + t;
    PairTextBytes(input, pos, pair, sep, next);
    PairTextSlices(input, pos, pair, sep, next);
  }

  /** The bytes of PairLayout, at Positions written out from `pos`. */
  lemma PairTextBytes(input: seq<Byte>, pos: nat, pair: StringPair, sep: Byte, next: nat)
    requires QUOTE !in pair.0 && QUOTE !in pair.1
    requires next == pos + |PairText(pair)| + 1
    requires next <= |input| && input[pos..next] == PairText(pair) + [sep]
    ensures var k := |pair.0|; var t := |pair.1|;
      PairBytesAt(input, pos, pos + 1 + k, pos + 2 + k, pos + 3 + k, pos + 4 + k + t, pos + 5 + k + t, sep)
  {
    var k := |pair.0|;
    var t := |pair.1|;
    var w := PairText(pair) + [sep];
    assert w == [QUOTE] + pair.0 + [QUOTE, COLON, QUOTE] + pair.1 + [QUOTE, sep];
    assert w[0] == QUOTE && w[1 + k] == QUOTE && w[2 + k] == COLON && w[3 + k] == QUOTE;
    assert w[4 + k + t] == QUOTE && w[5 + k + t] == sep;
    assert forall i :: 0 <= i < |w| ==> input[pos + i] == w[i];
    assert forall i :: 1 <= i < 1 + k ==> w[i] == pair.0[i - 1];
    assert forall i :: 4 + k <= i < 4 + k + t ==> w[i] == pair.1[i - 4 - k];
    assert forall i :: pos < i < pos + 1 + k ==> input[i] == pair.0[i - pos - 1];
    assert forall i :: pos + 3 + k < i < pos + 4 + k + t ==> input[i] == pair.1[i - pos - 4 - k];
  }

  /** The key and the string of PairLayout, as slices of the input. */
  lemma PairTextSlices(input: seq<Byte>, pos: nat, pair: StringPair, sep: Byte, next: nat)
    requires next == pos + |PairText(pair)| + 1
    requires next <= |input| && input[pos..next] == PairText(pair) + [sep]
    ensures pos + 4 + |pair.0| + |pair.1| < |input|
    ensures Slice(input, View(pos + 1, |pair.0|)) == pair.0
    ensures Slice(input, View(pos + 4 + |pair.0|, |pair.1|)) == pair.1
  {
    var k := |pair.0|;
    var t := |pair.1|;
    var w := PairText(pair) + [sep];
    assert w == [QUOTE] + pair.0 + [QUOTE, COLON, QUOTE] + pair.1 + [QUOTE, sep];
    assert forall i :: 0 <= i < |w| ==> input[pos + i] == w[i];
    assert forall i :: 0 <= i < k ==> input[pos + 1 + i] == pair.0[i];
    assert forall i :: 0 <= i < t ==> input[pos + 4 + k + i] == pair.1[i];
    assert input[pos + 1..pos + 1 + k] == pair.0;
    assert input[pos + 4 + k..pos + 4 + k + t] == pair.1;
  }

  /** The bytes of a pair at its named Positions: quotes around the key,
      the colon, quotes around the string, no quote inside either, and the
      separator. */
  predicate PairBytesAt(input: seq<Byte>, pos: nat, keyClose: nat, afterKey: nat, afterColon: nat,
                        textClose: nat, afterValue: nat, sep: Byte)
  {
    pos < keyClose < afterKey < afterColon < textClose < afterValue < |input| &&
    input[pos] == QUOTE && input[keyClose] == QUOTE && input[afterKey] == COLON &&
    input[afterColon] == QUOTE && input[textClose] == QUOTE && input[afterValue] == sep &&
    (forall i :: pos < i < keyClose ==> input[i] != QUOTE) &&
    (forall i :: afterColon < i < textClose ==> input[i] != QUOTE)
  }

  /** A string token whose quotes are at `open` and `close`. */
  lemma StringAt(input: seq<Byte>, open: nat, start: nat, count: nat, close: nat, next: nat)
    requires start == open + 1 && close == start + count && next == close + 1 && close < |input|
    requires input[open] == QUOTE && input[close] == QUOTE
    requires forall i :: open < i < close ==> input[i] != QUOTE
    ensures NextToken(input, open) == Scanned(Token(Str, View(start, count)), next)
  {
    ClosedStringToken(input, open, open, close);
  }

  /** A one-byte punctuation token of kind `kind` at `at`. */
  lemma PunctuationAt(input: seq<Byte>, at: nat, c: Byte, kind: TokenKind, next: nat)
    requires next == at + 1 && at < |input| && input[at] == c
    requires IsPunctuation(c) && PunctuationKind(c) == kind
    ensures NextToken(input, at) == Scanned(Token(kind, View(at, 1)), next)
  {
    PunctuationToken(input, at, at);
  }

  /** The four tokens of a pair and its separator, from its bytes. */
  lemma PairTokensNamed(input: seq<Byte>, pos: nat, k: nat, t: nat, keyClose: nat, afterKey: nat,
                        afterColon: nat, textStart: nat, textClose: nat, afterValue: nat, sep: Byte, next: nat)
    requires sep == RBRACE || sep == COMMA
    requires keyClose == pos + 1 + k && afterKey == keyClose + 1 && afterColon == afterKey + 1
    requires textStart == afterColon + 1 && textClose == textStart + t && afterValue == textClose + 1
    requires next == afterValue + 1
    requires PairBytesAt(input, pos, keyClose, afterKey, afterColon, textClose, afterValue, sep)
    ensures NextToken(input, pos) == Scanned(Token(Str, View(pos + 1, k)), afterKey)
    ensures NextToken(input, afterKey) == Scanned(Token(Colon, View(afterKey, 1)), afterColon)
    ensures NextToken(input, afterColon) == Scanned(Token(Str, View(textStart, t)), afterValue)
    ensures NextToken(input, afterValue) == Scanned(Token(SeparatorKind(sep), View(afterValue, 1)), next)
  {
    StringAt(input, pos, pos + 1, k, keyClose, afterKey);
    PunctuationAt(input, afterKey, COLON, Colon, afterColon);
    StringAt(input, afterColon, textStart, t, textClose, afterValue);
    SeparatorIsPunctuation(sep);
    PunctuationAt(input, afterValue, sep, SeparatorKind(sep), next);
  }

  /** The token kind of a `}` or `,` separator. */
  function SeparatorKind(sep: Byte): TokenKind
  {
    if sep == RBRACE then RBrace else Comma
  }

  /** `}` and `,` are punctuation of the kinds SeparatorKind names. */
  lemma SeparatorIsPunctuation(sep: Byte)
    requires sep == RBRACE || sep == COMMA
    ensures IsPunctuation(sep) && PunctuationKind(sep) == SeparatorKind(sep)
  {
  }

  /** The object loop's key/value step from the tokens it reads. */
  lemma PairStepAt(input: seq<Byte>, pos: nat, offset: nat, capacity: nat, table: ObjectTable,
                   key: seq<Byte>, text: seq<Byte>, afterKey: nat, afterColon: nat, textStart: nat,
                   afterValue: nat, sep: Byte, next: nat)
    requires offset <= capacity && table.Valid() && (sep == RBRACE || sep == COMMA)
    requires NextToken(input, pos) == Scanned(Token(Str, View(pos + 1, |key|)), afterKey)
    requires NextToken(input, afterKey) == Scanned(Token(Colon, View(afterKey, 1)), afterColon)
    requires textStart == afterColon + 1
    requires NextToken(input, afterColon) == Scanned(Token(Str, View(textStart, |text|)), afterValue)
    requires NextToken(input, afterValue) == Scanned(Token(SeparatorKind(sep), View(afterValue, 1)), next)
    requires pos + 1 + |key| <= |input| && Slice(input, View(pos + 1, |key|)) == key
    requires textStart + |text| <= |input| && Slice(input, View(textStart, |text|)) == text
    ensures var step := InsertSpec(table, key, JsonString(text), offset, capacity);
      ObjectAtKey(input, pos, offset, capacity, table) ==
        if step.Abort? then Aborted(step.fault)
        else if sep == RBRACE then Parsed(JsonObject(step.value.0), next, step.value.1)
        else ObjectAtKey(input, next, step.value.1, capacity, step.value.0)
  {
    StringValueParses(input, afterColon, offset, capacity);
  }

  /** The insertions of pairs `d` onwards, in order, each as the object
      loop performs it, with the arena Offset they leave. */
  function InsertPairs(table: ObjectTable, pairs: seq<StringPair>, d: nat, offset: nat, capacity: nat)
    : (r: Outcome<(ObjectTable, nat)>)
    requires table.Valid() && offset <= capacity && d <= |pairs|
    ensures r.Ok? ==> r.value.0.Valid() && offset <= r.value.1 <= capacity
    decreases |pairs| - d
  {
    if d == |pairs| then Ok((table, offset))
    else
      var step := InsertSpec(table, pairs[d].0, JsonString(pairs[d].1), offset, capacity);
      if step.Abort? then Abort(step.fault)
      else InsertPairs(step.value.0, pairs, d + 1, step.value.1, capacity)
  }

  /** The members from pair `d` on are laid out from `pos`: each pair and
      its separator, `,` before another pair and `}` after the last. */
  predicate MembersAt(input: seq<Byte>, pos: nat, pairs: seq<StringPair>, d: nat)
    requires d < |pairs|
    decreases |pairs| - d
  {
    var next := pos + |PairText(pairs[d])| + 1;
    next <= |input| &&
    input[pos..next] == PairText(pairs[d]) + [if d + 1 == |pairs| then RBRACE else COMMA] &&
    (d + 1 < |pairs| ==> MembersAt(input, next, pairs, d + 1))
  }

  /** MembersText at `pos` is the layout MembersAt describes. */
  lemma {:induction false} MembersTextAt(input: seq<Byte>, pos: nat, pairs: seq<StringPair>, d: nat)
    requires d < |pairs|
    requires pos + |MembersText(pairs, d)| <= |input|
    requires input[pos..pos + |MembersText(pairs, d)|] == MembersText(pairs, d)
    ensures MembersAt(input, pos, pairs, d)
    decreases |pairs| - d
  {
    var n := MembersHead(input, pos, pairs, d);
    if d + 1 < |pairs| {
      MembersTextAt(input, pos + n, pairs, d + 1);
    }
  }

  /** The members from pair `d` on, at a key position of the object loop:
      the loop inserts those pairs in order and ends after the closing `}`,
      or aborts where an insertion does. */
  lemma {:induction false} MembersParse(input: seq<Byte>, pos: nat, offset: nat, capacity: nat,
                                        table: ObjectTable, pairs: seq<StringPair>, d: nat)
    requires offset <= capacity && table.Valid() && d < |pairs| && QuoteFree(pairs)
    requires MembersAt(input, pos, pairs, d)
    ensures NextToken(input, pos).Scanned? && NextToken(input, pos).token.kind == Str
    ensures var r := InsertPairs(table, pairs, d, offset, capacity);
      ObjectAtKey(input, pos, offset, capacity, table) ==
        if r.Abort? then Aborted(r.fault)
        else Parsed(JsonObject(r.value.0), pos + |MembersText(pairs, d)|, r.value.1)
    decreases |pairs| - d
  {
    var next := MembersAtHead(input, pos, pairs, d);
    if d + 1 == |pairs| {
      MembersLast(input, pos, offset, capacity, table, pairs, d, next);
    } else {
      var step := MembersMore(input, pos, offset, capacity, table, pairs, d, next);
      if step.Ok? {
        MembersParse(input, next, step.value.1, capacity, step.value.0, pairs, d + 1);
      }
    }
  }

  /** The first pair of a MembersAt layout, and the layout after it. */
  lemma MembersAtHead(input: seq<Byte>, pos: nat, pairs: seq<StringPair>, d: nat) returns (next: nat)
    requires d < |pairs| && MembersAt(input, pos, pairs, d)
    ensures next == pos + |PairText(pairs[d])| + 1 && next <= |input|
    ensures d + 1 == |pairs| ==>
      input[pos..next] == PairText(pairs[d]) + [RBRACE] && pos + |MembersText(pairs, d)| == next
    ensures d + 1 < |pairs| ==>
      input[pos..next] == PairText(pairs[d]) + [COMMA] && MembersAt(input, next, pairs, d + 1) &&
      pos + |MembersText(pairs, d)| == next + |MembersText(pairs, d + 1)|
  {
    next := pos + |PairText(pairs[d])| + 1;
  }

  /** The last pair of MembersParse: its insertion, then the closing `}`. */
  lemma MembersLast(input: seq<Byte>, pos: nat, offset: nat, capacity: nat,
                    table: ObjectTable, pairs: seq<StringPair>, d: nat, next: nat)
    requires offset <= capacity && table.Valid() && d + 1 == |pairs| && QuoteFree(pairs)
    requires next == pos + |PairText(pairs[d])| + 1
    requires next <= |input| && input[pos..next] == PairText(pairs[d]) + [RBRACE]
    ensures NextToken(input, pos).Scanned? && NextToken(input, pos).token.kind == Str
    ensures var r := InsertPairs(table, pairs, d, offset, capacity);
      ObjectAtKey(input, pos, offset, capacity, table) ==
        if r.Abort? then Aborted(r.fault)
        else Parsed(JsonObject(r.value.0), pos + |MembersText(pairs, d)|, r.value.1)
  {
    assert QUOTE !in pairs[d].0 && QUOTE !in pairs[d].1;
    PairStepSliced(input, pos, offset, capacity, table, pairs[d], RBRACE, next);
    var step := InsertPairsStep(table, pairs, d, offset, capacity);
  }

  /** A pair of MembersParse followed by `,`: its insertion aborts the
      loop, or the loop goes on at the byte after the comma with the rest
      of the insertions still to come. */
  lemma MembersMore(input: seq<Byte>, pos: nat, offset: nat, capacity: nat,
                    table: ObjectTable, pairs: seq<StringPair>, d: nat, next: nat)
    returns (step: Outcome<(ObjectTable, nat)>)
    requires offset <= capacity && table.Valid() && d + 1 < |pairs| && QuoteFree(pairs)
    requires next == pos + |PairText(pairs[d])| + 1
    requires next <= |input| && input[pos..next] == PairText(pairs[d]) + [COMMA]
    ensures NextToken(input, pos).Scanned? && NextToken(input, pos).token.kind == Str
    ensures step.Abort? ==>
      InsertPairs(table, pairs, d, offset, capacity) == Abort(step.fault) &&
      ObjectAtKey(input, pos, offset, capacity, table) == Aborted(step.fault)
    ensures step.Ok? ==>
      step.value.0.Valid() && offset <= step.value.1 <= capacity &&
      ObjectAtKey(input, pos, offset, capacity, table) ==
        ObjectAtKey(input, next, step.value.1, capacity, step.value.0) &&
      InsertPairs(table, pairs, d, offset, capacity) ==
        InsertPairs(step.value.0, pairs, d + 1, step.value.1, capacity)
  {
    assert QUOTE !in pairs[d].0 && QUOTE !in pairs[d].1;
    PairStepSliced(input, pos, offset, capacity, table, pairs[d], COMMA, next);
    step := InsertPairsStep(table, pairs, d, offset, capacity);
  }

  /** PairStep for a pair given by its bytes. */
  lemma PairStepSliced(input: seq<Byte>, pos: nat, offset: nat, capacity: nat, table: ObjectTable,
                       pair: StringPair, sep: Byte, next: nat)
    requires offset <= capacity && table.Valid()
    requires QUOTE !in pair.0 && QUOTE !in pair.1 && (sep == RBRACE || sep == COMMA)
    requires next == pos + |PairText(pair)| + 1
    requires next <= |input| && input[pos..next] == PairText(pair) + [sep]
    ensures NextToken(input, pos).Scanned? && NextToken(input, pos).token.kind == Str
    ensures var step := InsertSpec(table, pair.0, JsonString(pair.1), offset, capacity);
      ObjectAtKey(input, pos, offset, capacity, table) ==
        if step.Abort? then Aborted(step.fault)
        else if sep == RBRACE then Parsed(JsonObject(step.value.0), next, step.value.1)
        else ObjectAtKey(input, next, step.value.1, capacity, step.value.0)
  {
    var keyClose, afterKey, afterColon, textStart, textClose, afterValue := PairLayout(input, pos, pair, sep, next);
    PairTokensNamed(input, pos, |pair.0|, |pair.1|, keyClose, afterKey, afterColon, textStart, textClose,
                    afterValue, sep, next);
    PairStepAt(input, pos, offset, capacity, table, pair.0, pair.1, afterKey, afterColon, textStart,
               afterValue, sep, next);
  }


  /** One insertion of InsertPairs. */
  lemma InsertPairsStep(table: ObjectTable, pairs: seq<StringPair>, d: nat, offset: nat, capacity: nat)
    returns (step: Outcome<(ObjectTable, nat)>)
    requires table.Valid() && offset <= capacity && d < |pairs|
    ensures step == InsertSpec(table, pairs[d].0, JsonString(pairs[d].1), offset, capacity)
    ensures step.Abort? ==> InsertPairs(table, pairs, d, offset, capacity) == Abort(step.fault)
    ensures step.Ok? ==> step.value.0.Valid() && offset <= step.value.1 <= capacity
    ensures step.Ok? ==>
      InsertPairs(table, pairs, d, offset, capacity) == InsertPairs(step.value.0, pairs, d + 1, step.value.1, capacity)
    ensures step.Ok? && d + 1 == |pairs| ==>
      InsertPairs(table, pairs, d, offset, capacity) == Ok((step.value.0, step.value.1))
  {
    step := InsertSpec(table, pairs[d].0, JsonString(pairs[d].1), offset, capacity);
  }

  /** The first pair of the members and its separator, and the members
      after it. */
  lemma MembersHead(input: seq<Byte>, pos: nat, pairs: seq<StringPair>, d: nat) returns (n: nat)
    requires d < |pairs|
    requires pos + |MembersText(pairs, d)| <= |input|
    requires input[pos..pos + |MembersText(pairs, d)|] == MembersText(pairs, d)
    ensures var sep := if d + 1 == |pairs| then RBRACE else COMMA;
      n == |PairText(pairs[d])| + 1 && pos + n <= |input| &&
      input[pos..pos + n] == PairText(pairs[d]) + [sep]
    ensures d + 1 == |pairs| ==> |MembersText(pairs, d)| == n
    ensures d + 1 < |pairs| ==>
      |MembersText(pairs, d)| == n + |MembersText(pairs, d + 1)| &&
      input[pos + n..pos + n + |MembersText(pairs, d + 1)|] == MembersText(pairs, d + 1)
  {
    var sep := if d + 1 == |pairs| then RBRACE else COMMA;
    var head := PairText(pairs[d]) + [sep];
    var members := MembersText(pairs, d);
    n := |head|;
    assert members[..n] == head;
    assert input[pos..pos + n] == members[..n];
    if d + 1 < |pairs| {
      var rest := MembersText(pairs, d + 1);
      assert members == head + rest;
      assert input[pos + n..pos + n + |rest|] == members[n..];
    }
  }

  /** Inserting pairs `d` onwards into a table that holds the pairs before
      `d`: afterwards it holds every pair; only growth can abort, and only
      for want of arena, which up to 25 pairs does not happen. */
  lemma {:induction false} InsertPairsHold(table: ObjectTable, pairs: seq<StringPair>, d: nat, offset: nat, capacity: nat)
    requires offset <= capacity && d <= |pairs|
    requires DistinctKeys(pairs) && HoldsPairs(table, pairs, d)
    ensures var r := InsertPairs(table, pairs, d, offset, capacity);
      (r.Ok? || r == Abort(OutOfMemory)) && (r.Ok? ==> HoldsPairs(r.value.0, pairs, |pairs|)) &&
      (|pairs| <= 25 ==> r.Ok? && r.value.1 == offset)
    decreases |pairs| - d
  {
    if d < |pairs| {
      var step := HoldsStep(table, pairs, d, offset, capacity);
      if step.Ok? {
        InsertPairsHold(step.value.0, pairs, d + 1, step.value.1, capacity);
      }
    }
  }

  /** One insertion of InsertPairsHold: the pair's key is not yet in the
      table, so only growth can abort, and on success the table holds one
      pair more. */
  lemma HoldsStep(table: ObjectTable, pairs: seq<StringPair>, d: nat, offset: nat, capacity: nat)
    returns (step: Outcome<(ObjectTable, nat)>)
    requires offset <= capacity && d < |pairs|
    requires DistinctKeys(pairs) && HoldsPairs(table, pairs, d)
    ensures step.Ok? || step == Abort(OutOfMemory)
    ensures step.Abort? ==> InsertPairs(table, pairs, d, offset, capacity) == Abort(step.fault)
    ensures step.Ok? ==>
      offset <= step.value.1 <= capacity && HoldsPairs(step.value.0, pairs, d + 1) &&
      InsertPairs(table, pairs, d, offset, capacity) == InsertPairs(step.value.0, pairs, d + 1, step.value.1, capacity)
    ensures |pairs| <= 25 ==> step.Ok? && step.value.1 == offset
  {
    var pair := pairs[d];
    var value := JsonString(pair.1);
    AbsentKey(table, pairs, d);
    InsertFreshKey(table, pair.0, value, offset, capacity);
    if |pairs| <= 25 {
      NoGrowthBelow(table);
    }
    step := InsertPairsStep(table, pairs, d, offset, capacity);
    if step.Ok? {
      HoldsAfterInsert(table, step.value.0, pairs, d);
    }
  }

  /** The key of pair `d` is not among the first `d` pairs, so a table
      holding just those does not find it. */
  lemma AbsentKey(table: ObjectTable, pairs: seq<StringPair>, d: nat)
    requires d < |pairs| && DistinctKeys(pairs) && HoldsPairs(table, pairs, d)
    ensures Lookup(table, pairs[d].0) == None
  {
    assert forall m :: 0 <= m < d ==> pairs[m].0 != pairs[d].0;
  }

  /** Adding pair `d`'s key, with every other lookup unchanged, to a table
      holding the first `d` pairs gives one holding the first `d + 1`. */
  lemma HoldsAfterInsert(table: ObjectTable, grown: ObjectTable, pairs: seq<StringPair>, d: nat)
    requires d < |pairs| && DistinctKeys(pairs) && HoldsPairs(table, pairs, d)
    requires grown.Valid() && UniqueKeys(grown.slots) && grown.count == table.count + 1
    requires Lookup(grown, pairs[d].0) == Some(JsonString(pairs[d].1))
    requires forall other :: other != pairs[d].0 ==> Lookup(grown, other) == Lookup(table, other)
    ensures HoldsPairs(grown, pairs, d + 1)
  {
    forall m | 0 <= m < d + 1
      ensures Lookup(grown, pairs[m].0) == Some(JsonString(pairs[m].1))
    {
      if m < d {
        assert pairs[m].0 != pairs[d].0;
      }
    }
    forall key | Lookup(grown, key).Some?
      ensures exists m :: 0 <= m < d + 1 && pairs[m].0 == key
    {
      if key != pairs[d].0 {
        assert Lookup(table, key).Some?;
        var m :| 0 <= m < d && pairs[m].0 == key;
        assert 0 <= m < d + 1 && pairs[m].0 == key;
      } else {
        assert pairs[d].0 == key;
      }
    }
  }

  /** An object of string members with distinct, quote-free keys and
      quote-free strings, written with no whitespace, parses back: Position
      ends after the closing `}`, the object holds exactly those pairs and
      each key's lookup gives its string. Only the table's growth can make
      it run out of arena, and up to 25 pairs it cannot. */
  lemma ObjectTextParses(pairs: seq<StringPair>, offset: nat, capacity: nat)
    requires QuoteFree(pairs) && DistinctKeys(pairs)
    requires offset + KEY_SLOTS_SIZE + VALUE_SLOTS_SIZE <= capacity
    ensures var r := Parse(ObjectText(pairs), offset, capacity);
      (r.Parsed? || r == Aborted(OutOfMemory)) &&
      (r.Parsed? ==> r.pos == |ObjectText(pairs)| && r.value.JsonObject? &&
                     HoldsPairs(r.value.table, pairs, |pairs|)) &&
      (|pairs| <= 25 ==> r.Parsed? && r.offset == offset + KEY_SLOTS_SIZE + VALUE_SLOTS_SIZE)
  {
    var valuesEnd := offset + KEY_SLOTS_SIZE + VALUE_SLOTS_SIZE;
    EmptyHoldsNoPairs(pairs);
    InsertPairsHold(EmptyTable(), pairs, 0, valuesEnd, capacity);
    if |pairs| == 0 {
      EmptyObjectTextParses(offset, capacity);
    } else {
      ObjectTextLayout(pairs);
      MembersObjectParses(ObjectText(pairs), pairs, offset, capacity);
    }
  }

  /** The empty table holds the first none of any pairs. */
  lemma EmptyHoldsNoPairs(pairs: seq<StringPair>)
    ensures HoldsPairs(EmptyTable(), pairs, 0)
  {
    forall key ensures Lookup(EmptyTable(), key) == None {
      EmptyTableHasNoKeys(key);
    }
  }

  /** `{}` parses into the empty object after both slot tables are pushed. */
  lemma EmptyObjectTextParses(offset: nat, capacity: nat)
    requires offset + KEY_SLOTS_SIZE + VALUE_SLOTS_SIZE <= capacity
    ensures Parse(ObjectText([]), offset, capacity) ==
      Parsed(JsonObject(EmptyTable()), 2, offset + KEY_SLOTS_SIZE + VALUE_SLOTS_SIZE)
  {
    var input := ObjectText([]);
    assert input == [LBRACE, RBRACE];
    PunctuationToken(input, 0, 0);
    ObjectOpens(input, offset, capacity);
    PunctuationToken(input, 1, 1);
  }

  /** Where ObjectText puts the `{` and the members. */
  lemma ObjectTextLayout(pairs: seq<StringPair>)
    requires |pairs| > 0
    ensures var input := ObjectText(pairs);
      |input| == 1 + |MembersText(pairs, 0)| && input[0] == LBRACE && MembersAt(input, 1, pairs, 0)
  {
    var input := ObjectText(pairs);
    var members := MembersText(pairs, 0);
    assert input == [LBRACE] + members;
    assert input[1..1 + |members|] == members;
    MembersTextAt(input, 1, pairs, 0);
  }

  /** `{` and then the members: both slot tables are pushed and the object
      loop reads the members into the empty table. */
  lemma MembersObjectParses(input: seq<Byte>, pairs: seq<StringPair>, offset: nat, capacity: nat)
    requires |pairs| > 0 && QuoteFree(pairs)
    requires offset + KEY_SLOTS_SIZE + VALUE_SLOTS_SIZE <= capacity
    requires |input| == 1 + |MembersText(pairs, 0)| && input[0] == LBRACE && MembersAt(input, 1, pairs, 0)
    ensures var r := InsertPairs(EmptyTable(), pairs, 0, offset + KEY_SLOTS_SIZE + VALUE_SLOTS_SIZE, capacity);
      Parse(input, offset, capacity) ==
        if r.Abort? then Aborted(r.fault) else Parsed(JsonObject(r.value.0), |input|, r.value.1)
  {
    var valuesEnd := offset + KEY_SLOTS_SIZE + VALUE_SLOTS_SIZE;
    PunctuationToken(input, 0, 0);
    ObjectOpens(input, offset, capacity);
    MembersParse(input, 1, valuesEnd, capacity, EmptyTable(), pairs, 0);
    PeekAtKey(input, 1, valuesEnd, capacity, EmptyTable());
  }

  /** At a STRING token the top of the object loop goes on to the key. */
  lemma PeekAtKey(input: seq<Byte>, pos: nat, offset: nat, capacity: nat, table: ObjectTable)
    requires offset <= capacity && table.Valid()
    requires NextToken(input, pos).Scanned? && NextToken(input, pos).token.kind == Str
    ensures ObjectAtPeek(input, pos, offset, capacity, table) == ObjectAtKey(input, pos, offset, capacity, table)
  {
  }

  /** `{ "a" : "b" }`: the whitespace before `:` makes the colon's Position
      land on the colon itself, so it is read again as the value and the
      parse aborts. */
  lemma SpacedObjectAborts(offset: nat, capacity: nat)
    requires offset + KEY_SLOTS_SIZE + VALUE_SLOTS_SIZE <= capacity
    ensures Parse([LBRACE, SPACE, QUOTE, 0x61, QUOTE, SPACE, COLON, SPACE, QUOTE, 0x62, QUOTE, SPACE, RBRACE],
                  offset, capacity) == Aborted(NotImplemented)
  {
    var input: seq<Byte> := [LBRACE, SPACE, QUOTE, 0x61, QUOTE, SPACE, COLON, SPACE, QUOTE, 0x62, QUOTE, SPACE, RBRACE];
    PunctuationToken(input, 0, 0);
    ClosedStringToken(input, 1, 2, 4);
    PunctuationToken(input, 5, 6);
    PunctuationToken(input, 6, 6);
    ColonReadAsValueAborts(input, offset, capacity, 1, 5, 6);
  }

  /** When the Position after a key's colon still points at that colon,
      the colon is read again as the value, and the parse aborts. */
  lemma ColonReadAsValueAborts(input: seq<Byte>, offset: nat, capacity: nat,
                               afterOpen: nat, afterKey: nat, afterColon: nat)
    requires offset + KEY_SLOTS_SIZE + VALUE_SLOTS_SIZE <= capacity
    requires NextToken(input, 0).Scanned? && NextToken(input, 0).token.kind == LBrace
    requires NextToken(input, 0).next == afterOpen
    requires NextToken(input, afterOpen).Scanned? && NextToken(input, afterOpen).next == afterKey
    requires NextToken(input, afterOpen).token.kind == Str
    requires NextToken(input, afterKey).Scanned? && NextToken(input, afterKey).token.kind == Colon
    requires NextToken(input, afterKey).next == afterColon
    requires NextToken(input, afterColon).Scanned? && NextToken(input, afterColon).token.kind == Colon
    ensures Parse(input, offset, capacity) == Aborted(NotImplemented)
  {
    var valuesEnd := offset + KEY_SLOTS_SIZE + VALUE_SLOTS_SIZE;
    ObjectOpens(input, offset, capacity);
    assert ParseValue(input, afterColon, valuesEnd, capacity) == Aborted(NotImplemented);
    assert ObjectAtKey(input, afterOpen, valuesEnd, capacity, EmptyTable()) == Aborted(NotImplemented);
  }

}
