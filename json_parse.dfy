/** The recursive-descent parser of backend/json.c: ParseF64, JsonParseValue
    and JsonParse, with the arena Offset each step consumes. */
module JsonParser {
  import opened Common
  import opened Arenas
  import opened Fnv
  import opened JsonTokens
  import opened JsonValues

  /** `10^n`. */
  function Pow10(n: nat): (p: nat)
    ensures p >= 1
  {
    if n == 0 then 1 else 10 * Pow10(n - 1)
  }

  /** The decimal value of a digit run, most significant digit first. */
  function DecimalValue(digits: seq<Byte>): nat
    requires AllDigits(digits)
  {
    if |digits| == 0 then 0
    else 10 * DecimalValue(digits[..|digits| - 1]) + (digits[|digits| - 1] - DIGIT_ZERO)
  }

  /** What ParseF64 computes: an empty buffer fails the ASSERT, a non-digit
      at index 1 or later panics, index 0 is never read as a digit, and a
      leading `-` negates. */
  function F64Value(buffer: seq<Byte>): Outcome<int>
  {
    if |buffer| == 0 then Abort(AssertionFailed)
    else if !AllDigits(buffer[1..]) then Abort(BadNumber)
    else
      var magnitude: int := DecimalValue(buffer[1..]);
      Ok(if buffer[0] == MINUS then -magnitude else magnitude)
  }

  /** A digit in front of a run weighs `10^|run|`: the accumulation
      `Result += Mult * Digit; Mult *= 10` from the last byte backwards. */
  lemma {:induction false} DecimalValuePrepend(d: Byte, digits: seq<Byte>)
    requires IsDigit(d) && AllDigits(digits)
    ensures AllDigits([d] + digits)
    ensures DecimalValue([d] + digits) == (d - DIGIT_ZERO) * Pow10(|digits|) + DecimalValue(digits)
    decreases |digits|
  {
    var all := [d] + digits;
    assert AllDigits(all) by {
      forall i | 0 <= i < |all| ensures IsDigit(all[i]) {
        if i > 0 { assert all[i] == digits[i - 1]; }
      }
    }
    if |digits| > 0 {
      var init := digits[..|digits| - 1];
      var last := digits[|digits| - 1];
      assert all[..|all| - 1] == [d] + init;
      assert AllDigits(init);
      DecimalValuePrepend(d, init);
      var w := d - DIGIT_ZERO;
      calc {
        DecimalValue(all);
        10 * DecimalValue([d] + init) + (last - DIGIT_ZERO);
        10 * (w * Pow10(|init|) + DecimalValue(init)) + (last - DIGIT_ZERO);
        { ShiftWeight(w as nat, Pow10(|init|), DecimalValue(init), (last - DIGIT_ZERO) as nat); }
        w * (10 * Pow10(|init|)) + (10 * DecimalValue(init) + (last - DIGIT_ZERO));
      }
    }
  }

  /** Multiplying a weighted digit and a tail by ten moves the factor into
      the weight. */
  lemma ShiftWeight(w: nat, p: nat, v: nat, l: nat)
    ensures 10 * (w * p + v) + l == w * (10 * p) + (10 * v + l)
  {
  }

  /** One turn of the ParseF64 loop keeps `Result` the value of the digits
      after index I and `Mult` the weight of the digit at I. */
  lemma AccumulateDigit(buffer: seq<Byte>, i: nat, result: nat, mult: nat)
    requires 0 < i < |buffer| && IsDigit(buffer[i]) && AllDigits(buffer[i + 1..])
    requires result == DecimalValue(buffer[i + 1..]) && mult == Pow10(|buffer| - 1 - i)
    ensures AllDigits(buffer[i..])
    ensures result + mult * (buffer[i] - DIGIT_ZERO) == DecimalValue(buffer[i..])
    ensures mult * 10 == Pow10(|buffer| - i)
  {
    DecimalValuePrepend(buffer[i], buffer[i + 1..]);
    assert [buffer[i]] + buffer[i + 1..] == buffer[i..];
  }

  /** ParseF64: the loop from the last byte down to index 1. */
  method ParseF64(buffer: seq<Byte>) returns (r: Outcome<int>)
    ensures r == F64Value(buffer)
  {
    if |buffer| == 0 {
      return Abort(AssertionFailed);
    }
    var mult: nat := 1;
    var result: nat := 0;
    var i := |buffer| - 1;
    assert buffer[i + 1..] == [];
    while i > 0
      invariant 0 <= i < |buffer|
      invariant AllDigits(buffer[i + 1..])
      invariant result == DecimalValue(buffer[i + 1..]) && mult == Pow10(|buffer| - 1 - i)
    {
      var c := buffer[i];
      if c < DIGIT_ZERO || c > DIGIT_NINE {
        assert !IsDigit(buffer[1..][i - 1]);
        return Abort(BadNumber);
      }
      AccumulateDigit(buffer, i, result, mult);
      result := result + mult * (c - DIGIT_ZERO);
      mult := mult * 10;
      i := i - 1;
    }
    if buffer[0] == MINUS {
      return Ok(-(result as int));
    }
    return Ok(result);
  }

  /** Byte 0 is never read as a digit: `123` gives 23, `5` gives 0 and a
      leading `-` only selects the sign. */
  lemma ParseF64Examples()
    ensures F64Value([0x31, 0x32, 0x33]) == Ok(23)
    ensures F64Value([0x35]) == Ok(0)
    ensures F64Value([MINUS, 0x35]) == Ok(-5)
    ensures F64Value([]) == Abort(AssertionFailed)
    ensures F64Value([0x31, MINUS]) == Abort(BadNumber)
  {
    assert [0x31, 0x32, 0x33][1..] == [0x32, 0x33];
    assert [0x32, 0x33][..1] == [0x32];
    assert [0x32][..0] == [];
    assert [MINUS, 0x35][1..] == [0x35];
    assert [0x35][..0] == [];
    assert !IsDigit([0x31, MINUS][1..][0]);
  }

  /** A NUMBER token reaches ParseF64 as a non-empty digit run, so it never
      aborts there and never yields a negative value; its first digit is
      dropped. */
  lemma NumberTokenValue(word: seq<Byte>)
    requires |word| > 0 && WordKind(word) == Number
    ensures F64Value(word).Ok? && F64Value(word).value >= 0
    ensures AllDigits(word[1..]) && F64Value(word) == Ok(DecimalValue(word[1..]))
  {
    assert IsDigit(word[0]);
    assert AllDigits(word[1..]) by {
      forall i | 0 <= i < |word| - 1 ensures IsDigit(word[1..][i]) {
        assert word[1..][i] == word[i + 1];
      }
    }
  }

  /** What a parse step yields: a value with the Position and arena Offset
      after it, a failure (the C returns 0; Position is then dead but the
      arena keeps what was pushed), or an abort. */
  datatype ParseResult<T> = Parsed(value: T, pos: nat, offset: nat) | NoParse(offset: nat) | Aborted(fault: Fault)

  /** Arena use only grows and never passes the capacity. */
  predicate Consumes<T>(r: ParseResult<T>, offset: nat, capacity: nat)
  {
    match r
    case Parsed(_, _, o) => offset <= o <= capacity
    case NoParse(o) => offset <= o <= capacity
    case Aborted(_) => true
  }

  const ARRAY_SLOTS_SIZE: nat := SIZE_OF_JSON_VALUE * DEFAULT_ARRAY_CAPACITY
  const KEY_SLOTS_SIZE: nat := SIZE_OF_VIEW * DEFAULT_OBJECT_CAPACITY
  const VALUE_SLOTS_SIZE: nat := SIZE_OF_JSON_VALUE * DEFAULT_OBJECT_CAPACITY

  /** JsonParseValue. It terminates because every container step either
      consumes arena bytes or fills one more slot of the current array or
      object; a loop that re-reads the same bare word therefore ends when
      the arena is exhausted. */
  function ParseValue(input: seq<Byte>, pos: nat, offset: nat, capacity: nat): (r: ParseResult<JsonValue>)
    requires offset <= capacity
    ensures Consumes(r, offset, capacity)
    decreases capacity - offset, 0, 0
  {
    match NextToken(input, pos)
    case NoToken => NoParse(offset)
    case Scanned(token, next) =>
      TokenWithinInput(input, pos);
      var text := Slice(input, token.value);
      match token.kind
      case Number =>
        (match F64Value(text)
         case Ok(n) => Parsed(JsonNumber(n), next, offset)
         case Abort(f) => Aborted(f))
      case Str => Parsed(JsonString(text), next, offset)
      case True => Parsed(JsonTrue, next, offset)
      case False => Parsed(JsonFalse, next, offset)
      case Null => Parsed(JsonNull, next, offset)
      case LBracket =>
        (match Pushed(offset, capacity, ARRAY_SLOTS_SIZE)
         case Abort(f) => Aborted(f)
         case Ok(arrayEnd) =>
           PushedKeepsInvariant(offset, capacity, ARRAY_SLOTS_SIZE);
           ArrayAtPeek(input, next, arrayEnd, capacity, ArenaArray([], DEFAULT_ARRAY_CAPACITY, offset)))
      case LBrace =>
        (match Pushed(offset, capacity, KEY_SLOTS_SIZE)
         case Abort(f) => Aborted(f)
         case Ok(keysEnd) =>
           PushedKeepsInvariant(offset, capacity, KEY_SLOTS_SIZE);
           match Pushed(keysEnd, capacity, VALUE_SLOTS_SIZE)
           case Abort(f) => Aborted(f)
           case Ok(valuesEnd) =>
             PushedKeepsInvariant(keysEnd, capacity, VALUE_SLOTS_SIZE);
             ObjectAtPeek(input, next, valuesEnd, capacity, EmptyTable()))
      case _ => Aborted(NotImplemented)
  }

  /** The top of the array loop: peek; `]` ends the array (and is consumed),
      anything else is parsed as an element. */
  function ArrayAtPeek(input: seq<Byte>, pos: nat, offset: nat, capacity: nat, elements: ArenaArray<JsonValue>)
    : (r: ParseResult<JsonValue>)
    requires offset <= capacity && elements.Valid()
    ensures Consumes(r, offset, capacity)
    ensures r.Parsed? ==> r.value.JsonArray?
    decreases capacity - offset, elements.capacity - |elements.elems| + 1, 2
  {
    match NextToken(input, pos)
    case NoToken => NoParse(offset)
    case Scanned(token, next) =>
      if token.kind == RBracket then Parsed(JsonArray(elements.elems), next, offset)
      else ArrayAtElement(input, pos, offset, capacity, elements)
  }

  /** `ParseElement:` parse an element, push it, then read one token: `]`
      ends the array, `,` parses another element, and any other token is
      dropped before returning to the top of the loop. */
  function ArrayAtElement(input: seq<Byte>, pos: nat, offset: nat, capacity: nat, elements: ArenaArray<JsonValue>)
    : (r: ParseResult<JsonValue>)
    requires offset <= capacity && elements.Valid()
    ensures Consumes(r, offset, capacity)
    ensures r.Parsed? ==> r.value.JsonArray?
    decreases capacity - offset, elements.capacity - |elements.elems| + 1, 1
  {
    match ParseValue(input, pos, offset, capacity)
    case Aborted(f) => Aborted(f)
    case NoParse(o) => NoParse(o)
    case Parsed(element, afterElement, elementEnd) =>
      ArrayPushKeepsElements(elements, element, SIZE_OF_JSON_VALUE, elementEnd, capacity);
      PushedKeepsInvariant(elementEnd, capacity, SIZE_OF_JSON_VALUE * ((elements.capacity + 1) * 2));
      match ArrayPushSpec(elements, element, SIZE_OF_JSON_VALUE, elementEnd, capacity)
      case Abort(f) => Aborted(f)
      case Ok((pushed, pushEnd)) =>
        match NextToken(input, afterElement)
        case NoToken => NoParse(pushEnd)
        case Scanned(token, next) =>
          if token.kind == RBracket then Parsed(JsonArray(pushed.elems), next, pushEnd)
          else if token.kind == Comma then ArrayAtElement(input, next, pushEnd, capacity, pushed)
          else ArrayAtPeek(input, next, pushEnd, capacity, pushed)
  }

  /** The top of the object loop: peek; `}` ends the object, anything else
      starts a key/value pair. */
  function ObjectAtPeek(input: seq<Byte>, pos: nat, offset: nat, capacity: nat, table: ObjectTable)
    : (r: ParseResult<JsonValue>)
    requires offset <= capacity && table.Valid()
    ensures Consumes(r, offset, capacity)
    ensures r.Parsed? ==> r.value.JsonObject? && r.value.table.Valid()
    decreases capacity - offset, |table.slots| - table.count + 1, 2
  {
    match NextToken(input, pos)
    case NoToken => NoParse(offset)
    case Scanned(token, next) =>
      if token.kind == RBrace then Parsed(JsonObject(table), next, offset)
      else ObjectAtKey(input, pos, offset, capacity, table)
  }

  /** `ParseKeyValue:` a STRING key, a COLON, a value, the insertion, then
      one token: `}` ends the object, `,` reads another pair, and any other
      token is dropped before returning to the top of the loop. */
  function ObjectAtKey(input: seq<Byte>, pos: nat, offset: nat, capacity: nat, table: ObjectTable)
    : (r: ParseResult<JsonValue>)
    requires offset <= capacity && table.Valid()
    ensures Consumes(r, offset, capacity)
    ensures r.Parsed? ==> r.value.JsonObject? && r.value.table.Valid()
    decreases capacity - offset, |table.slots| - table.count + 1, 1
  {
    match NextToken(input, pos)
    case NoToken => NoParse(offset)
    case Scanned(keyToken, afterKey) =>
      if keyToken.kind != Str then NoParse(offset)
      else
        TokenWithinInput(input, pos);
        var key := Slice(input, keyToken.value);
        match NextToken(input, afterKey)
        case NoToken => NoParse(offset)
        case Scanned(colon, afterColon) =>
          if colon.kind != Colon then NoParse(offset)
          else
            match ParseValue(input, afterColon, offset, capacity)
            case Aborted(f) => Aborted(f)
            case NoParse(o) => NoParse(o)
            case Parsed(value, afterValue, valueEnd) =>
              match InsertSpec(table, key, value, valueEnd, capacity)
              case Abort(f) => Aborted(f)
              case Ok((inserted, insertEnd)) =>
                match NextToken(input, afterValue)
                case NoToken => NoParse(insertEnd)
                case Scanned(token, next) =>
                  if token.kind == RBrace then Parsed(JsonObject(inserted), next, insertEnd)
                  else if token.kind == Comma then ObjectAtKey(input, next, insertEnd, capacity, inserted)
                  else ObjectAtPeek(input, next, insertEnd, capacity, inserted)
  }

  /** JsonParse: JsonParseValue from Position 0. */
  function Parse(input: seq<Byte>, offset: nat, capacity: nat): (r: ParseResult<JsonValue>)
    requires offset <= capacity
    ensures Consumes(r, offset, capacity)
  {
    ParseValue(input, 0, offset, capacity)
  }
}
