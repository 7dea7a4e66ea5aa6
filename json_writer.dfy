/** The incremental JSON writer of backend/json.c: the globals
    `CurrentJsonArena`, `CurrentJsonStart`, `CurrentJsonCount` and
    `CurrentJsonState` as one object, and the bytes each call appends. */
module JsonWriting {
  import opened Common
  import opened Arenas
  import opened JsonValues
  import opened JsonParser
  import opened JsonParserProperties

  /** STATE_CLEAN right after an opening bracket, STATE_DIRTY after a value
      or a closing bracket. */
  datatype WriterState = Clean | Dirty

  /** One writer call, with its argument. */
  datatype Call =
    | BeginObject
    | EndObject
    | BeginArray
    | EndArray
    | PutKey(key: seq<Byte>)
    | PutString(text: seq<Byte>)

  /** The bytes a call appends in a given state: a bracket, `"k":` or
      `,"k":` for a key, `"s"` for a string; nothing is escaped and no
      separator is written before a bracket or a string. */
  function Fragment(state: WriterState, call: Call): seq<Byte>
  {
    match call
    case BeginObject => [LBRACE]
    case EndObject => [RBRACE]
    case BeginArray => [LBRACKET]
    case EndArray => [RBRACKET]
    case PutKey(key) =>
      if state == Clean then [QUOTE] + key + [QUOTE, COLON] else [COMMA, QUOTE] + key + [QUOTE, COLON]
    case PutString(text) => [QUOTE] + text + [QUOTE]
  }

  /** The state a call leaves: opening brackets clean it, closing brackets
      and strings dirty it, a key leaves it as it was. */
  function After(state: WriterState, call: Call): WriterState
  {
    match call
    case BeginObject => Clean
    case BeginArray => Clean
    case EndObject => Dirty
    case EndArray => Dirty
    case PutKey(_) => state
    case PutString(_) => Dirty
  }

  /** The room each call asserts before it writes: `BytesRequired` in
      JsonPutKey and JsonPutString, one byte for a bracket. */
  lemma FragmentSize(state: WriterState, call: Call)
    ensures call.PutKey? ==> |Fragment(state, call)| == |call.key| + (if state == Clean then 3 else 4)
    ensures call.PutString? ==> |Fragment(state, call)| == |call.text| + 2
    ensures !call.PutKey? && !call.PutString? ==> |Fragment(state, call)| == 1
    ensures call.PutKey? ==> After(state, call) == state
  {
  }

  /** The bytes a run of calls appends, starting from `state`. */
  function Render(state: WriterState, calls: seq<Call>): seq<Byte>
    decreases |calls|
  {
    if calls == [] then [] else Fragment(state, calls[0]) + Render(After(state, calls[0]), calls[1..])
  }

  /** The state after a run of calls. */
  function FinalState(state: WriterState, calls: seq<Call>): WriterState
    decreases |calls|
  {
    if calls == [] then state else FinalState(After(state, calls[0]), calls[1..])
  }

  /** One more call appends its fragment, in the state the earlier calls
      left, to what they wrote. */
  lemma {:induction false} RenderAppend(state: WriterState, calls: seq<Call>, call: Call)
    ensures Render(state, calls + [call]) == Render(state, calls) + Fragment(FinalState(state, calls), call)
    ensures FinalState(state, calls + [call]) == After(FinalState(state, calls), call)
    decreases |calls|
  {
    if calls == [] {
      assert [] + [call] == [call];
    } else {
      var first, rest := calls[0], calls[1..];
      assert calls == [first] + rest;
      assert calls + [call] == [first] + (rest + [call]);
      RenderCons(state, first, rest);
      RenderCons(state, first, rest + [call]);
      RenderAppend(After(state, first), rest, call);
      var head := Fragment(state, first);
      var middle := Render(After(state, first), rest);
      var last := Fragment(FinalState(state, calls), call);
      assert head + (middle + last) == (head + middle) + last;
    }
  }

  /** Render takes the first call's fragment, then the rest from the state
      that call leaves. */
  lemma RenderCons(state: WriterState, call: Call, rest: seq<Call>)
    ensures Render(state, [call] + rest) == Fragment(state, call) + Render(After(state, call), rest)
    ensures FinalState(state, [call] + rest) == FinalState(After(state, call), rest)
  {
    assert ([call] + rest)[0] == call && ([call] + rest)[1..] == rest;
  }

  /** The calls for `{"key":"text"}` write exactly those bytes. */
  lemma OnePairRender(key: seq<Byte>, text: seq<Byte>)
    ensures Render(Clean, [BeginObject, PutKey(key), PutString(text), EndObject]) == OnePairObject(key, text)
    ensures FinalState(Clean, [BeginObject, PutKey(key), PutString(text), EndObject]) == Dirty
  {
    var c3 := [EndObject];
    var c2 := [PutString(text)] + c3;
    var c1 := [PutKey(key)] + c2;
    var c0 := [BeginObject] + c1;
    assert c0 == [BeginObject, PutKey(key), PutString(text), EndObject];
    RenderCons(Dirty, EndObject, []);
    RenderCons(Clean, PutString(text), c3);
    RenderCons(Clean, PutKey(key), c2);
    RenderCons(Clean, BeginObject, c1);
    var f1 := [QUOTE] + key + [QUOTE, COLON];
    var f2 := [QUOTE] + text + [QUOTE];
    assert Render(Clean, c0) == [LBRACE] + (f1 + (f2 + [RBRACE]));
    OnePairBytes(key, text);
  }

  /** `{`, `"key":`, `"text"` and `}` put together are `{"key":"text"}`. */
  lemma OnePairBytes(key: seq<Byte>, text: seq<Byte>)
    ensures [LBRACE] + (([QUOTE] + key + [QUOTE, COLON]) + (([QUOTE] + text + [QUOTE]) + [RBRACE])) ==
      OnePairObject(key, text)
  {
    var f1 := [QUOTE] + key + [QUOTE, COLON];
    var f2 := [QUOTE] + text + [QUOTE];
    assert f1 + (f2 + [RBRACE]) == f1 + f2 + [RBRACE];
    assert [LBRACE] + (f1 + f2 + [RBRACE]) == [LBRACE] + f1 + f2 + [RBRACE];
    assert [LBRACE] + f1 == [LBRACE, QUOTE] + key + [QUOTE, COLON];
    assert [LBRACE] + f1 + f2 == [LBRACE, QUOTE] + key + [QUOTE, COLON, QUOTE] + text + [QUOTE];
  }

  /** What the writer produces for one key and one string, the parser reads
      back: a one-entry object whose lookup of the key gives the string,
      provided neither holds a quote (the writer escapes nothing). */
  lemma WrittenPairReadsBack(key: seq<Byte>, text: seq<Byte>, offset: nat, capacity: nat)
    requires QUOTE !in key && QUOTE !in text
    requires offset + KEY_SLOTS_SIZE + VALUE_SLOTS_SIZE <= capacity
    ensures var written := Render(Clean, [BeginObject, PutKey(key), PutString(text), EndObject]);
      var r := Parse(written, offset, capacity);
      r.Parsed? && r.pos == |written| && r.value.JsonObject? && r.value.table.count == 1 &&
      Lookup(r.value.table, key) == Some(JsonString(text))
  {
    OnePairRender(key, text);
    OnePairObjectParses(key, text, offset, capacity);
  }

  /** The calls that write pairs `d` onwards: a key, then its string. */
  function PairCalls(pairs: seq<StringPair>, d: nat): seq<Call>
    requires d <= |pairs|
    decreases |pairs| - d
  {
    if d == |pairs| then [] else [PutKey(pairs[d].0), PutString(pairs[d].1)] + PairCalls(pairs, d + 1)
  }

  /** The calls that write an object of string members. */
  function ObjectCalls(pairs: seq<StringPair>): seq<Call>
  {
    [BeginObject] + (PairCalls(pairs, 0) + [EndObject])
  }

  /** The pairs from `d` on and the closing bracket come out as the
      members text: the writer's comma before each key but the first is
      the separator the parser expects. */
  lemma {:induction false} RenderMembers(state: WriterState, pairs: seq<StringPair>, d: nat)
    requires d < |pairs|
    ensures Render(state, PairCalls(pairs, d) + [EndObject]) ==
      (if state == Clean then [] else [COMMA]) + MembersText(pairs, d)
    decreases |pairs| - d
  {
    var rest := PairCalls(pairs, d + 1) + [EndObject];
    assert PairCalls(pairs, d) + [EndObject] == [PutKey(pairs[d].0), PutString(pairs[d].1)] + rest;
    PairRender(state, pairs[d], rest);
    if d + 1 == |pairs| {
      assert rest == [EndObject];
      RenderCons(Dirty, EndObject, []);
    } else {
      RenderMembers(Dirty, pairs, d + 1);
    }
  }

  /** A key and its string write the pair's text after the separator the
      state calls for, and leave the writer dirty. */
  lemma PairRender(state: WriterState, pair: StringPair, rest: seq<Call>)
    ensures Render(state, [PutKey(pair.0), PutString(pair.1)] + rest) ==
      (if state == Clean then [] else [COMMA]) + (PairText(pair) + Render(Dirty, rest))
  {
    var key, text := pair.0, pair.1;
    var calls := [PutKey(key), PutString(text)] + rest;
    assert calls == [PutKey(key)] + ([PutString(text)] + rest);
    RenderCons(state, PutKey(key), [PutString(text)] + rest);
    RenderCons(state, PutString(text), rest);
    var prefix: seq<Byte> := if state == Clean then [] else [COMMA];
    assert Render(state, calls) ==
      (prefix + ([QUOTE] + key + [QUOTE, COLON])) + (([QUOTE] + text + [QUOTE]) + Render(Dirty, rest));
    PairBytes(prefix, pair, Render(Dirty, rest));
  }

  /** A key fragment and a string fragment put together are the pair's text. */
  lemma PairBytes(prefix: seq<Byte>, pair: StringPair, tail: seq<Byte>)
    ensures (prefix + ([QUOTE] + pair.0 + [QUOTE, COLON])) + (([QUOTE] + pair.1 + [QUOTE]) + tail) ==
      prefix + (PairText(pair) + tail)
  {
    var keyBytes := [QUOTE] + pair.0 + [QUOTE, COLON];
    var textBytes := [QUOTE] + pair.1 + [QUOTE];
    assert keyBytes + textBytes == PairText(pair);
    assert (prefix + keyBytes) + (textBytes + tail) == prefix + ((keyBytes + textBytes) + tail);
  }

  /** The calls for an object of string members write its text. */
  lemma RenderObject(pairs: seq<StringPair>)
    ensures Render(Clean, ObjectCalls(pairs)) == ObjectText(pairs)
  {
    var body := PairCalls(pairs, 0) + [EndObject];
    RenderCons(Clean, BeginObject, body);
    if |pairs| == 0 {
      assert body == [EndObject];
      RenderCons(Clean, EndObject, []);
    } else {
      RenderMembers(Clean, pairs, 0);
    }
  }

  /** What the writer produces for any run of distinct, quote-free keys
      each followed by a quote-free string, the parser reads back: Position
      ends after the closing `}`, and the object holds exactly those pairs,
      each key finding its string. Only the table's growth can run out of
      arena, and up to 25 pairs it does not. */
  lemma WrittenObjectReadsBack(pairs: seq<StringPair>, offset: nat, capacity: nat)
    requires QuoteFree(pairs) && DistinctKeys(pairs)
    requires offset + KEY_SLOTS_SIZE + VALUE_SLOTS_SIZE <= capacity
    ensures var written := Render(Clean, ObjectCalls(pairs));
      var r := Parse(written, offset, capacity);
      (r.Parsed? || r == Aborted(OutOfMemory)) &&
      (r.Parsed? ==> (r.pos == |written| && r.value.JsonObject? && r.value.table.count == |pairs| &&
        (forall n :: 0 <= n < |pairs| ==> Lookup(r.value.table, pairs[n].0) == Some(JsonString(pairs[n].1))) &&
        (forall key :: Lookup(r.value.table, key).Some? ==> exists n :: 0 <= n < |pairs| && pairs[n].0 == key))) &&
      (|pairs| <= 25 ==> r.Parsed?)
  {
    RenderObject(pairs);
    ObjectTextParses(pairs, offset, capacity);
  }

  /** A key that follows a string value is preceded by a comma, in
      whatever state the string was written: `"x","b":`. */
  lemma KeyAfterStringHasComma(state: WriterState, x: seq<Byte>, b: seq<Byte>)
    ensures Render(state, [PutString(x), PutKey(b)]) == [QUOTE] + x + [QUOTE, COMMA, QUOTE] + b + [QUOTE, COLON]
    ensures FinalState(state, [PutString(x), PutKey(b)]) == Dirty
  {
    var c1 := [PutKey(b)];
    assert [PutString(x), PutKey(b)] == [PutString(x)] + c1;
    assert c1 + [] == c1;
    RenderCons(Dirty, PutKey(b), []);
    RenderCons(state, PutString(x), c1);
    StringKeyBytes(x, b);
  }

  /** `"x"` and `,"b":` put together. */
  lemma StringKeyBytes(x: seq<Byte>, b: seq<Byte>)
    ensures ([QUOTE] + x + [QUOTE]) + (([COMMA, QUOTE] + b + [QUOTE, COLON]) + []) ==
      [QUOTE] + x + [QUOTE, COMMA, QUOTE] + b + [QUOTE, COLON]
  {
    var f2 := [COMMA, QUOTE] + b + [QUOTE, COLON];
    assert f2 + [] == f2;
  }

  /** Nothing separates a bracket from the value before it: two objects in
      an array come out as `[{}{}]`. */
  lemma AdjacentObjectsHaveNoComma()
    ensures Render(Clean, [BeginArray, BeginObject, EndObject, BeginObject, EndObject, EndArray]) ==
      [LBRACKET, LBRACE, RBRACE, LBRACE, RBRACE, RBRACKET]
  {
    var calls := [BeginArray, BeginObject, EndObject, BeginObject, EndObject, EndArray];
    assert calls[1..] == [BeginObject, EndObject, BeginObject, EndObject, EndArray];
    assert calls[2..] == [EndObject, BeginObject, EndObject, EndArray];
    assert calls[1..][1..] == calls[2..];
    assert calls[2..][1..] == [BeginObject, EndObject, EndArray];
    assert calls[2..][1..][1..] == [EndObject, EndArray];
    assert calls[2..][1..][1..][1..] == [EndArray];
    assert calls[2..][1..][1..][1..][1..] == [];
  }

  /** The writer globals. `history` is the run of calls since JsonBegin. */
  class JsonWriter {
    var arena: Arena?
    var start: nat
    var count: nat
    var state: WriterState
    ghost var history: seq<Call>

    /** The globals' invariant: once an arena is attached it is valid and
        the start lies below its Offset; the count is zero, since nothing
        ever increments it (only JsonEnd writes it, with zero). */
    ghost predicate Valid()
      reads this, arena
    {
      (arena != null ==> arena.Valid() && start <= arena.offset) && count == 0
    }

    /** Between JsonBegin and JsonEnd: the bytes from the start to Offset
        are what the calls since JsonBegin wrote, and the state is theirs. */
    ghost predicate Writing()
      reads this, arena, if arena != null then {arena.items} else {}
    {
      Valid() && arena != null &&
      arena.items[start..arena.offset] == Render(Clean, history) && state == FinalState(Clean, history)
    }

    /** The bytes written since JsonBegin. */
    ghost function Output(): seq<Byte>
      reads this, arena, if arena != null then {arena.items} else {}
      requires Valid() && arena != null
    {
      arena.items[start..arena.offset]
    }

    /** Static storage: no arena, start and count zero, STATE_CLEAN (0). */
    constructor ()
      ensures Valid() && arena == null && start == 0 && count == 0 && state == Clean
    {
      arena := null;
      start := 0;
      count := 0;
      state := Clean;
      history := [];
    }

    /** JsonBegin: attach the arena, start at its Offset, state CLEAN. The
        count is left as it was. */
    method Begin(a: Arena)
      requires Valid() && a.Valid()
      modifies this
      ensures Writing() && arena == a && start == a.offset && state == Clean && history == []
      ensures count == old(count)
    {
      arena := a;
      start := a.offset;
      state := Clean;
      history := [];
    }

    /** JsonEnd: the view at the start with length `CurrentJsonCount`,
        which is always zero; the count is reset and Offset rounded up to
        the word size (an arena whose capacity is a multiple of 8 has room). */
    method End() returns (v: View)
      requires Valid() && arena != null && arena.capacity % 8 == 0
      modifies this, arena
      ensures Valid() && arena == old(arena) && arena.items == old(arena.items)
      ensures arena.capacity == old(arena.capacity)
      ensures v == View(old(start), old(count)) && v.count == 0
      ensures count == 0 && arena.offset == AlignWord(old(arena.offset))
      ensures start == old(start) && state == old(state) && history == old(history)
    {
      v := View(start, count);
      count := 0;
      AlignedOffsetFits(arena.offset, arena.capacity);
      AlignWordIsLeastMultiple(arena.offset);
      arena.offset := AlignWord(arena.offset);
    }

    /** `ASSERT(Capacity - Offset >= n)`, then the bytes at Offset and
        Offset moved past them; every other byte stays. */
    method Append(bytes: seq<Byte>) returns (r: Outcome<()>)
      requires Valid() && arena != null
      modifies arena, arena.items
      ensures arena.items == old(arena.items) && arena.capacity == old(arena.capacity)
      ensures Valid()
      ensures r.Ok? <==> old(arena.capacity - arena.offset) >= |bytes|
      ensures r.Ok? ==> (arena.offset == old(arena.offset) + |bytes| &&
        arena.items[..] == old(arena.items[..arena.offset]) + bytes + old(arena.items[arena.offset + |bytes|..]))
      ensures r.Ok? ==> arena.items[start..arena.offset] == old(arena.items[start..arena.offset]) + bytes
      ensures r.Abort? ==> (r.fault == AssertionFailed && arena.offset == old(arena.offset) &&
        arena.items[..] == old(arena.items[..]))
    {
      if arena.capacity - arena.offset < |bytes| {
        return Abort(AssertionFailed);
      }
      var at := arena.offset;
      forall i | at <= i < at + |bytes| {
        arena.items[i] := bytes[i - at];
      }
      arena.offset := at + |bytes|;
      assert arena.items[..] == old(arena.items[..at]) + bytes + old(arena.items[at + |bytes|..]);
      assert arena.items[start..arena.offset] == old(arena.items[start..at]) + bytes;
      r := Ok(());
    }

    /** Records a written call in the history; the invariant then holds
        again by RenderAppend. */
    method Record(call: Call)
      requires Valid() && arena != null && start <= arena.offset
      requires arena.items[start..arena.offset] == Render(Clean, history) + Fragment(state, call)
      requires state == FinalState(Clean, history)
      modifies this
      ensures Writing() && history == old(history) + [call] && state == After(old(state), call)
      ensures arena == old(arena) && start == old(start) && count == old(count)
    {
      RenderAppend(Clean, history, call);
      history := history + [call];
      state := After(state, call);
    }

    /** JsonBeginObject: `{`, then CLEAN. */
    method BeginObject() returns (r: Outcome<()>)
      requires Writing()
      modifies this, arena, arena.items
      ensures arena == old(arena) && start == old(start) && count == old(count)
      ensures arena.items == old(arena.items) && arena.capacity == old(arena.capacity)
      ensures r.Ok? <==> old(arena.capacity - arena.offset) >= 1
      ensures r.Ok? ==> (Writing() && Output() == old(Output()) + [LBRACE] && state == Clean &&
        history == old(history) + [Call.BeginObject])
      ensures r.Ok? ==> (arena.items[..] ==
        old(arena.items[..arena.offset]) + [LBRACE] + old(arena.items[arena.offset + 1..]))
      ensures r.Abort? ==> r.fault == AssertionFailed && arena.offset == old(arena.offset)
      ensures r.Abort? ==> (arena.items[..] == old(arena.items[..]) && state == old(state) &&
        history == old(history))
    {
      r := Append([LBRACE]);
      if r.Ok? {
        Record(Call.BeginObject);
      }
    }

    /** JsonEndObject: `}`, then DIRTY. */
    method EndObject() returns (r: Outcome<()>)
      requires Writing()
      modifies this, arena, arena.items
      ensures arena == old(arena) && start == old(start) && count == old(count)
      ensures arena.items == old(arena.items) && arena.capacity == old(arena.capacity)
      ensures r.Ok? <==> old(arena.capacity - arena.offset) >= 1
      ensures r.Ok? ==> (Writing() && Output() == old(Output()) + [RBRACE] && state == Dirty &&
        history == old(history) + [Call.EndObject])
      ensures r.Ok? ==> (arena.items[..] ==
        old(arena.items[..arena.offset]) + [RBRACE] + old(arena.items[arena.offset + 1..]))
      ensures r.Abort? ==> r.fault == AssertionFailed && arena.offset == old(arena.offset)
      ensures r.Abort? ==> (arena.items[..] == old(arena.items[..]) && state == old(state) &&
        history == old(history))
    {
      r := Append([RBRACE]);
      if r.Ok? {
        Record(Call.EndObject);
      }
    }

    /** JsonBeginArray: `[`, then CLEAN. */
    method BeginArray() returns (r: Outcome<()>)
      requires Writing()
      modifies this, arena, arena.items
      ensures arena == old(arena) && start == old(start) && count == old(count)
      ensures arena.items == old(arena.items) && arena.capacity == old(arena.capacity)
      ensures r.Ok? <==> old(arena.capacity - arena.offset) >= 1
      ensures r.Ok? ==> (Writing() && Output() == old(Output()) + [LBRACKET] && state == Clean &&
        history == old(history) + [Call.BeginArray])
      ensures r.Ok? ==> (arena.items[..] ==
        old(arena.items[..arena.offset]) + [LBRACKET] + old(arena.items[arena.offset + 1..]))
      ensures r.Abort? ==> r.fault == AssertionFailed && arena.offset == old(arena.offset)
      ensures r.Abort? ==> (arena.items[..] == old(arena.items[..]) && state == old(state) &&
        history == old(history))
    {
      r := Append([LBRACKET]);
      if r.Ok? {
        Record(Call.BeginArray);
      }
    }

    /** JsonEndArray: `]`, then DIRTY. */
    method EndArray() returns (r: Outcome<()>)
      requires Writing()
      modifies this, arena, arena.items
      ensures arena == old(arena) && start == old(start) && count == old(count)
      ensures arena.items == old(arena.items) && arena.capacity == old(arena.capacity)
      ensures r.Ok? <==> old(arena.capacity - arena.offset) >= 1
      ensures r.Ok? ==> (Writing() && Output() == old(Output()) + [RBRACKET] && state == Dirty &&
        history == old(history) + [Call.EndArray])
      ensures r.Ok? ==> (arena.items[..] ==
        old(arena.items[..arena.offset]) + [RBRACKET] + old(arena.items[arena.offset + 1..]))
      ensures r.Abort? ==> r.fault == AssertionFailed && arena.offset == old(arena.offset)
      ensures r.Abort? ==> (arena.items[..] == old(arena.items[..]) && state == old(state) &&
        history == old(history))
    {
      r := Append([RBRACKET]);
      if r.Ok? {
        Record(Call.EndArray);
      }
    }

    /** JsonPutKey: `"k":` when CLEAN (Count + 3 bytes), `,"k":` when DIRTY
        (Count + 4 bytes); the state does not change. */
    method PutKey(key: seq<Byte>) returns (r: Outcome<()>)
      requires Writing()
      modifies this, arena, arena.items
      ensures arena == old(arena) && start == old(start) && count == old(count)
      ensures arena.items == old(arena.items) && arena.capacity == old(arena.capacity)
      ensures r.Ok? <==> old(arena.capacity - arena.offset) >= |key| + (if old(state) == Clean then 3 else 4)
      ensures r.Ok? ==> (Writing() && state == old(state) && history == old(history) + [Call.PutKey(key)])
      ensures r.Ok? && old(state) == Clean ==> Output() == old(Output()) + [QUOTE] + key + [QUOTE, COLON]
      ensures r.Ok? && old(state) == Dirty ==> Output() == old(Output()) + [COMMA, QUOTE] + key + [QUOTE, COLON]
      ensures r.Ok? ==> (arena.items[..] ==
        old(arena.items[..arena.offset]) + Fragment(old(state), Call.PutKey(key)) +
        old(arena.items[arena.offset + |Fragment(state, Call.PutKey(key))|..]))
      ensures r.Abort? ==> r.fault == AssertionFailed && arena.offset == old(arena.offset)
      ensures r.Abort? ==> (arena.items[..] == old(arena.items[..]) && state == old(state) &&
        history == old(history))
    {
      var bytes := if state == Clean then [QUOTE] + key + [QUOTE, COLON] else [COMMA, QUOTE] + key + [QUOTE, COLON];
      assert bytes == Fragment(state, Call.PutKey(key));
      r := Append(bytes);
      if r.Ok? {
        Record(Call.PutKey(key));
      }
    }

    /** JsonPutString: `"s"` (Count + 2 bytes), then DIRTY. */
    method PutString(text: seq<Byte>) returns (r: Outcome<()>)
      requires Writing()
      modifies this, arena, arena.items
      ensures arena == old(arena) && start == old(start) && count == old(count)
      ensures arena.items == old(arena.items) && arena.capacity == old(arena.capacity)
      ensures r.Ok? <==> old(arena.capacity - arena.offset) >= |text| + 2
      ensures r.Ok? ==> (Writing() && Output() == old(Output()) + [QUOTE] + text + [QUOTE] && state == Dirty &&
        history == old(history) + [Call.PutString(text)])
      ensures r.Ok? ==> (arena.items[..] ==
        old(arena.items[..arena.offset]) + [QUOTE] + text + [QUOTE] + old(arena.items[arena.offset + |text| + 2..]))
      ensures r.Abort? ==> r.fault == AssertionFailed && arena.offset == old(arena.offset)
      ensures r.Abort? ==> (arena.items[..] == old(arena.items[..]) && state == old(state) &&
        history == old(history))
    {
      var bytes := [QUOTE] + text + [QUOTE];
      r := Append(bytes);
      if r.Ok? {
        Record(Call.PutString(text));
      }
    }
  }
}
