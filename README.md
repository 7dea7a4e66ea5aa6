# A verified model of the C backend: arena, JSON and HTTP

This project models the core of a small C web backend in Dafny and proves
properties of that model. It covers the following parts:

- **The bump-allocator arena** (`arena`), with word alignment, `ArenaPush`,
  the zeroing pushes, `ArenaRealloc`, `ArenaReset` and the lazily created
  scratch arena of `GetTempArena`.
- **Arena-backed growable arrays** (`ARRAY_INIT`, `ARRAY_PUSH`) and borrowed
  byte views (`string_view`), with their byte-wise comparisons.
- **The 64-bit FNV-1 hash** (`HashFnv1`).
- **The JSON tokenizer, parser and object table.** The object table uses
  open addressing with linear probing, grows without rehashing and is
  searched circularly. The number conversion `ParseF64` is included.
- **The incremental JSON writer**, which appends bytes to an arena and keeps
  a CLEAN/DIRTY state global.
- **HTTP.** This part has three pieces:
  - `HttpRequestParse`: the request line after section 5.1 of RFC 2616, the
    header lines, and the body.
  - The server's handler table (`HttpServerInit`, `HttpServerAttachHandler`).
  - One turn of the server loop. It parses the request, finds the first
    handler whose path equals the request path, and builds the response text
    (status line, CORS header, blank line, content).

The model follows the code as written, including its defects:

- Punctuation tokens move Position to the caller's start plus one.
- Bare words never advance Position, so `[1 ]` re-reads `1` until the arena
  runs out.
- `ParseF64` never reads byte 0 as a digit.
- A token that follows an array element and is neither `,` nor `]` is
  dropped.
- Object growth keeps slot indices and does not rehash.
- A header value view starts two bytes past its line's CR. Its length wraps
  round in unsigned 64-bit arithmetic.
- The scan for a header's `:` is not bounded by its line, so a line without
  a colon takes its name from the lines after it.
- `JsonEnd` returns a count that nothing ever increments.

`PANIC`, `ASSERT`, `TODO` and `UNREACHABLE` become an `Abort(fault)`
result of the `Outcome` datatype. A C return of 0 becomes `None` or
`NoParse`.

The model follows the form of the source:

- **Pure code** is modelled as functions with lemmas: `AlignForward`, FNV-1,
  the tokenizer's decisions, the parser, the object table, the response text
  and route matching.
- **Code that mutates state** is modelled as classes with `modifies`
  clauses. These are:
  - the arena (`Arenas.Arena`);
  - the static scratch arena (`Arenas.TempArenaSlot`);
  - the writer globals (`JsonWriting.JsonWriter`);
  - the server's handler table (`HttpServers.HttpServer`).
- **Loops** are methods with a `while` or `for` loop, each proved equal to
  the function that specifies it. These are the scan loops, the digit
  loops, `HashFnv1`, `ParseF64`, the insertion probe of the object table,
  `JsonObjectGet`, the request-line and header scans, the route loop and the
  `recv` copy.
- **Two parser loops** are modelled by recursive functions only, with no
  method that runs them: the array loop of `JsonParseValue`
  (`ArrayAtPeek`, `ArrayAtElement`) and its object loop (`ObjectAtPeek`,
  `ObjectAtKey`). Each `goto` and each turn of the loop is one recursive
  call.

Files:

| file | contents |
|---|---|
| `common.dfy` | bytes, views, aborts, the alignment lemmas, scans, C strings, view equality |
| `arena.dfy` | the arena class, arrays, the temp arena |
| `hash.dfy` | FNV-1 |
| `json_token.dfy` | the tokenizer |
| `json_value.dfy` | JSON values and the object table |
| `json_parse.dfy` | `ParseF64` and the recursive-descent parser |
| `json_parse_props.dfy` | what the parser does on given inputs |
| `json_writer.dfy` | the writer |
| `http_request.dfy` | request parsing |
| `http_server.dfy` | handler table, routing, response text, the server loop turn |

## Model

| member | source | states |
|---|---|---|
| Common.Ascii | backend/common.h:70-79 | the bytes of a C string literal: one byte per character, with the same code |
| Common.AlignForwardValue | backend/common.h:97-99 | the bit-mask formula is the size itself when it is a multiple of the power-of-two alignment, and the next multiple otherwise |
| Common.AlignForwardIsLeastMultiple | backend/common.h:97-99 | AlignForward gives a multiple of the alignment, at least the size and less than size + alignment, and never more than any multiple that is at least the size |
| Common.NextMultipleIsLeast | backend/common.h:97-99 | a multiple of `a` that is at least a non-multiple `size` is at least the next multiple after it |
| Common.AlignForwardIdempotent | backend/common.h:97-99 | aligning an aligned size changes nothing |
| Common.AlignWordIsLeastMultiple | backend/common.h:102 | rounding to `sizeof(uz)` gives the least multiple of 8 that is at least the size |
| Common.AlignedOffsetFits | backend/common.h:102 | an Offset within a capacity that is a multiple of 8 is still within it after rounding up to 8 |
| Common.IndexOf | backend/http.c:16-18 | the first index at or after `from` holding the byte; no earlier index holds it; the end when none does |
| Common.ScanFor | backend/http.c:16-18 | the `for (...; I < Count; ++I) if (Items[I] == b) break;` loop stops where IndexOf says |
| Common.CStrLength | backend/common.h:71 | `strlen`: the index of the first NUL, with no NUL before it |
| Common.CStr | backend/common.h:70-79 | a C string literal holds its characters' bytes, then a NUL, and its length is the character count |
| Common.CStrLengthOf | backend/common.h:71 | a NUL-free byte string with a NUL appended has that string's length |
| Common.StringViewEqual | backend/common.h:81-89 | true exactly when the counts are equal and every byte matches, that is, when the two views denote the same bytes |
| Common.StringViewEqualCStr | backend/common.h:70-79 | true exactly when the count equals `strlen` and every byte matches the C string, that is, when the view equals the bytes before the NUL |
| Common.StringViewEqualLiteral | backend/common.h:70-79 | against a literal, true exactly when the view is the literal's bytes |
| Arenas.PushedKeepsInvariant | backend/common.h:101-109 | a push that succeeds covers the whole request, stays within Capacity, overshoots by less than 8 and keeps an 8-aligned Offset aligned; it aborts exactly when `Capacity - Offset` is below the rounded size |
| Arenas.PushedExact | backend/common.h:101-109 | a push of a multiple of 8 that fits moves Offset by exactly that size |
| Arenas.Arena.Init | backend/common.h:113-117 | ArenaInit gives a fresh buffer of Capacity zero bytes, with Offset 0 |
| Arenas.Arena.Push | backend/common.h:101-109 | ArenaPush returns the old Offset and moves Offset as Pushed says; out of room it aborts and leaves Offset alone; the buffer is unchanged either way |
| Arenas.Arena.PushZero | backend/common.h:111 | ARENA_PUSH_ZERO and ARENA_NEW zero exactly the requested bytes, not the rounded size, and change no other byte |
| Arenas.Arena.Reset | backend/common.h:144-146 | ArenaReset sets Offset to 0 and keeps the buffer, Capacity and every byte |
| Arenas.Arena.Realloc | backend/common.h:134-140 | ArenaRealloc pushes a new region whose first OldSize bytes copy the old region; the old region and all other bytes stay |
| Arenas.Arena.CloneCStr | backend/common.h:152-157 | StringViewCloneCStr pushes Count + 1 bytes, which hold the view followed by NUL; no other byte changes |
| Arenas.ArrayPushKeepsElements | backend/common.h:169-178 | ARRAY_PUSH appends the element after the earlier ones, keeps Count ≤ Capacity, grows Capacity to `(Capacity + 1) * 2` exactly when the array was full, and can abort only then |
| Arenas.ArrayInit | backend/common.h:161-167 | ARRAY_INIT on an arena is ArrayInitSpec: Count 0, Capacity 7 and the region of seven slots pushed; those slots are zeroed and every other byte is kept |
| Arenas.ArrayPush | backend/common.h:169-178 | ARRAY_PUSH on an arena, including the growth realloc, is ArrayPushSpec, and earlier arena bytes are kept |
| Arenas.TempArenaSlot.constructor | backend/common.c:4 | the static TempArena starts with no buffer |
| Arenas.TempArenaSlot.GetTempArena | backend/common.c:6-16 | the first call creates a 4 MiB zeroed arena with Offset 0; later calls return the same arena with Offset 0 and the same Capacity, buffer and bytes |
| Fnv.Fnv1Step | backend/common.c:43-48 | each byte multiplies the hash by 0x100000001B3 modulo 2^64 and then XORs in the byte (FNV-1, not FNV-1a) |
| Fnv.Fnv1KnownValues | backend/common.c:37-51 | the empty view hashes to the offset basis 0xCBF29CE484222325; `"a"` hashes to the FNV-1 value, not to the FNV-1a value |
| Fnv.EqualViewsProbeAlike | backend/common.c:37-51 | byte-wise equal views hash equal and start probing at the same slot, which lies within the table |
| Fnv.HashFnv1 | backend/common.c:37-51 | the loop with its local accumulator computes Fnv1 of the view |
| JsonTokens.SkipWhitespace | backend/json.c:30-32 | the first non-whitespace byte at or after Position; every byte skipped is space, LF, CR or tab |
| JsonTokens.WordEnd | backend/json.c:101-104 | a bare word ends at the first whitespace byte; every byte before that is non-whitespace |
| JsonTokens.TokenWithinInput | backend/json.c:27-131 | every token's view lies inside the input |
| JsonTokens.NoTokenIffBlank | backend/json.c:30-34 | JsonNextToken finds no token exactly when every byte from Position on is whitespace |
| JsonTokens.PunctuationToken | backend/json.c:39-79 | a `[ ] { } , :` after optional whitespace is a one-byte token at that byte, and Position becomes the caller's Position + 1 |
| JsonTokens.PunctuationAfterBlankIsReadTwice | backend/json.c:43 | whitespace before punctuation makes asking again give the same token |
| JsonTokens.SkipToFirstNonBlank | backend/json.c:30-32 | whitespace up to a non-whitespace byte is skipped to exactly that byte |
| JsonTokens.StringToken | backend/json.c:81-98 | a quote starts a STRING whose bytes lie strictly between it and the next quote, with Position one past the closing quote; with no closing quote the token is UNCLOSED_STRING from the opening quote, with Position at Count + 1 |
| JsonTokens.ClosedStringToken | backend/json.c:81-98 | where the closing quote is known, the STRING token's view and Position are exactly those |
| JsonTokens.BareWordToken | backend/json.c:100-129 | a NUMBER, TRUE, FALSE, NULL or ILLEGAL token is the maximal non-whitespace run at the first non-whitespace byte, and Position is not advanced |
| JsonTokens.WordEndAt | backend/json.c:101-104 | a run of non-whitespace bytes ended by whitespace or the end is where WordEnd stops |
| JsonTokens.WordToken | backend/json.c:100-129 | any other first byte gives a bare word: exactly `true`/`false`/`null` get those kinds, an all-digit run is NUMBER, anything else is ILLEGAL, and Position stays |
| JsonTokens.WordIsReadAgain | backend/json.c:100-129 | because Position stays, asking again after a bare word returns the same token |
| JsonTokens.JsonNextToken | backend/json.c:27-131 | the C tokenizer with its loops returns 1 exactly when NextToken finds a token, with that token and Position; on 0 Position is unchanged |
| JsonTokens.ScanDigits | backend/json.c:114-122 | the digit loop yields NUMBER exactly when every byte of the word is `0`–`9` |
| JsonTokens.ClassifyWord | backend/json.c:106-125 | the `true`/`false`/`null` comparisons and then the digit loop give WordKind |
| JsonTokens.JsonPeekToken | backend/json.c:133-138 | the same result and token as JsonNextToken, and Position is restored |
| JsonValues.EmptyTable | backend/json.c:218-222 | a new object has 37 zeroed slots and Count 0, which is valid |
| JsonValues.NoEntriesNoneOccupied | backend/json.c:218-222 | a table of empty slots has no occupied slot |
| JsonValues.OccupiedAppendEmpty | backend/json.c:247-250 | the empty tail that growth adds adds no occupied slot |
| JsonValues.OccupiedFill | backend/json.c:257-261 | storing into an empty slot adds exactly one to the number of occupied slots, matching `++Count` |
| JsonValues.FreeSlotExists | backend/json.c:255-270 | fewer occupied slots than slots means some slot is empty |
| JsonValues.CircularReach | backend/json.c:268-269 | from any start, the wrapping walk reaches every slot within one lap |
| JsonValues.CircularStep | backend/json.c:268-269 | `++I; if (I >= Capacity) I = 0;` is one more step of the circular walk, and it returns to the start exactly after a full lap |
| JsonValues.ProbeFrom | backend/json.c:255-270 | the probe stops at a free slot, or at a slot holding an equal key |
| JsonValues.ProbeStops | backend/json.c:255-270 | the probe always stops when some slot later on the lap is free |
| JsonValues.ProbeOfValidTableStops | backend/json.c:255-270 | on a table with a free slot the probe never runs a full lap |
| JsonValues.Place | backend/json.c:253-270 | an insertion keeps the capacity, adds one to Count, keeps Count equal to the occupied slots, and aborts only on a duplicate key |
| JsonValues.PlaceEntry | backend/json.c:253-270 | hashing the key to its start slot and then probing stores the entry or panics exactly as Place says |
| JsonValues.ProbeSlots | backend/json.c:255-270 | the `while (1)` probe loop with its wrapping index, from the hash slot, stores the entry in the first free slot or panics on an equal key, exactly as Place says |
| JsonValues.GrowKeepsValid | backend/json.c:246-251 | growth to `(Capacity + 1) * 3` keeps every old slot at its index (no rehash) and keeps the table valid |
| JsonValues.BelowThresholdLeavesRoom | backend/json.c:244-246 | below 65 percent load at least two slots are free, so one more entry still leaves a free slot |
| JsonValues.InsertSpec | backend/json.c:244-270 | an insertion that succeeds adds one entry to a valid table; it consumes arena bytes exactly when the load is at least 65 percent, and then the capacity becomes `(Capacity + 1) * 3` |
| JsonValues.InsertIntoEmptyTable | backend/json.c:244-270 | the first insertion lands in the key's hash slot and consumes no arena bytes |
| JsonValues.ScanFromFinds | backend/json.c:294-304 | the lookup walk finds a key that sits later on the lap |
| JsonValues.ScanFromSound | backend/json.c:294-304 | whatever the lookup walk returns is stored beside an equal key in some slot |
| JsonValues.LookupIff | backend/json.c:290-307 | JsonObjectGet succeeds exactly when some occupied slot holds a byte-equal key, and it then returns the value stored beside such a key |
| JsonValues.EmptyTableHasNoKeys | backend/json.c:290-307 | a new object finds no key |
| JsonValues.PlacedIsFirstMatch | backend/json.c:255-270 | the lookup walk from the probe's start meets the newly stored entry first |
| JsonValues.InsertedKeyIsFound | backend/json.c:244-307 | after an insertion, looking the key up returns the value just inserted |
| JsonValues.PlacedKeyIsFound | backend/json.c:253-307 | what the probe stores, the lookup of its key finds |
| JsonValues.ScanIgnoresOtherKey | backend/json.c:294-304 | storing a different key into an empty slot does not change the lookup walk for this key |
| JsonValues.InsertKeepsOtherKeys | backend/json.c:253-307 | an insertion without growth leaves every other key's lookup unchanged |
| JsonValues.GrowKeepsKeys | backend/json.c:246-307 | after growth without rehash every key is still found, because the lookup covers the whole lap |
| JsonValues.UniqueLookup | backend/json.c:290-307 | when no two slots hold equal keys, JsonObjectGet of a stored key gives the value stored beside it |
| JsonValues.GrowKeepsLookups | backend/json.c:246-251 | with distinct keys, growth without rehash keeps the keys distinct and changes no key's lookup |
| JsonValues.InsertFreshKey | backend/json.c:244-270 | inserting a key the object does not hold can only fail for want of arena, and never below 65 percent load; afterwards keys stay distinct, the key gives its value and every other key's lookup is unchanged |
| JsonValues.NoGrowthBelow | backend/json.c:244-246 | up to 24 entries in at least 37 slots stay below 65 percent load, so the next insertion does not grow the table |
| JsonValues.PlaceAtProbe | backend/json.c:255-266 | at the slot where the probe stops, a free slot takes the entry and an equal key panics as a duplicate |
| JsonValues.PlaceProbeGoesOn | backend/json.c:264-269 | a slot holding another key sends the probe on to the next index, and a valid table's lap is not over there |
| JsonValues.DuplicateMissedWhenHashSlotFree | backend/json.c:255-266 | the duplicate check only looks along the probe walk: when a key's hash slot is free, a second copy of a key held elsewhere is stored without an abort |
| JsonValues.ProbeMeetsDuplicate | backend/json.c:255-266 | an equal key reached before any free slot stops the probe as a duplicate |
| JsonValues.DuplicateOnWalkAborts | backend/json.c:264-266 | an equal key reached before any free slot makes the insertion abort |
| JsonValues.ObjectGet | backend/json.c:290-307 | JsonObjectGet's do/while walk from the hash slot is Lookup |
| JsonValues.ScanSlots | backend/json.c:294-304 | the do/while walk with a wrapping index returns the first equal occupied key within one lap |
| JsonValues.ObjectGetString | backend/json.c:309-315 | JsonObjectGet_string_view succeeds exactly when the lookup succeeds with a JSON_STRING, and it yields that string |
| JsonParser.Pow10 | backend/json.c:143-150 | the weight `Mult` is always at least 1 |
| JsonParser.DecimalValuePrepend | backend/json.c:145-151 | a digit in front of a run weighs `10^|run|` |
| JsonParser.AccumulateDigit | backend/json.c:145-151 | one turn of the loop keeps `Result` the value of the digits after I and `Mult` the weight of the digit at I |
| JsonParser.ParseF64 | backend/json.c:140-158 | the loop from the last byte down to index 1 computes F64Value: the ASSERT on an empty buffer, the PANIC on a non-digit after byte 0, and the negation on a leading `-` |
| JsonParser.ParseF64Examples | backend/json.c:140-158 | `123` gives 23, `5` gives 0, `-5` gives -5, empty aborts on the ASSERT, and a `-` after byte 0 panics |
| JsonParser.NumberTokenValue | backend/json.c:114-158 | a NUMBER token never aborts in ParseF64 and never gives a negative value; its first digit is dropped |
| JsonParser.ParseValue | backend/json.c:162-283 | arena use only grows and never passes Capacity |
| JsonParser.ArrayAtPeek | backend/json.c:195-200 | the top of the array loop yields an array, and arena use only grows within Capacity |
| JsonParser.ArrayAtElement | backend/json.c:202-211 | after an element, `]` ends, `,` parses another element and any other token is dropped; the result is an array, and arena use stays within Capacity |
| JsonParser.ObjectAtPeek | backend/json.c:224-229 | the top of the object loop yields a valid object table, and arena use only grows within Capacity |
| JsonParser.ObjectAtKey | backend/json.c:231-275 | a key/value step yields a valid object table, and arena use only grows within Capacity |
| JsonParser.Parse | backend/json.c:285-288 | JsonParse starts at Position 0; arena use only grows within Capacity |
| JsonParserProperties.EmptyArrayParses | backend/json.c:191-200 | `[` then optional whitespace then `]` is the empty array; it consumes the seven element slots and ends at Position + 2 |
| JsonParserProperties.EmptyObjectParses | backend/json.c:217-229 | `{` then optional whitespace then `}` is the empty object with both 37-slot tables pushed |
| JsonParserProperties.BadValueTokenAborts | backend/json.c:281 | an ILLEGAL, UNCLOSED_STRING or non-opening punctuation token in value position hits the TODO |
| JsonParserProperties.EndOfInputFails | backend/json.c:165-225 | running out of tokens returns 0 (not an abort) at the top level and at the top of an array or object loop |
| JsonParserProperties.BadKeyFails | backend/json.c:232-238 | an object key that is not a STRING, or that is not followed by COLON, returns 0 |
| JsonParserProperties.ParsedNumberIsNonNegative | backend/json.c:114-172 | every parsed number is non-negative, because a NUMBER token has no `-` |
| JsonParserProperties.NumberComesFromToken | backend/json.c:168-172 | only a NUMBER token yields a number, and its value is ParseF64 of the token |
| JsonParserProperties.BareWordElementExhaustsArena | backend/json.c:100-211 | a bare-word element after which the next token is neither `,` nor `]` is parsed again and again until the arena aborts |
| JsonParserProperties.NumberElementNeverEnds | backend/json.c:100-211 | `[1 ]` re-reads `1` until the arena runs out |
| JsonParserProperties.NumberBeforeBracketAborts | backend/json.c:100-281 | `[1]` aborts, because the bare word is `1]`, which is ILLEGAL |
| JsonParserProperties.StringArrayParses | backend/json.c:191-216 | `["a"]` parses into the one-element array holding `a` |
| JsonParserProperties.StringValueParses | backend/json.c:174-178 | a STRING token in value position is the value, with the token's bytes |
| JsonParserProperties.SinglePairObject | backend/json.c:231-279 | one `"key" : value }` in a new object gives that one entry in the key's hash slot |
| JsonParserProperties.OnePairObjectTokens | backend/json.c:27-131 | the token sequence of `{"key":"text"}` |
| JsonParserProperties.OnePairObjectLayout | backend/json.c:27-131 | where the brackets, quotes and colon of `{"key":"text"}` are |
| JsonParserProperties.OnePairTokensAt | backend/json.c:39-98 | the five tokens of a one-pair object, from where its punctuation is |
| JsonParserProperties.StringThenPunctuation | backend/json.c:39-98 | a string closed at some index, then one punctuation byte, gives those two tokens |
| JsonParserProperties.ObjectOpens | backend/json.c:217-222 | a `{` at Position 0 pushes both 37-slot tables and goes on with an empty table |
| JsonParserProperties.OnePairTokensParse | backend/json.c:217-280 | the tokens `{ STRING : STRING }` parse into an object whose lookup of the key gives the string |
| JsonParserProperties.OnePairObjectParses | backend/json.c:217-307 | `{"key":"text"}` with no quote inside parses into an object where JsonObjectGet of `key` gives `text` |
| JsonParserProperties.StringAt | backend/json.c:81-99 | two quotes with no quote between them give a STRING token of the bytes between, and Position moves past the closing quote |
| JsonParserProperties.PunctuationAt | backend/json.c:39-80 | a punctuation byte gives its one-byte token, and Position moves past it |
| JsonParserProperties.PairTokensNamed | backend/json.c:39-98 | `"key":"text"` and then `,` or `}` give the tokens STRING, COLON, STRING and the separator |
| JsonParserProperties.PairStepAt | backend/json.c:231-275 | from those tokens one turn of the object loop inserts the pair, then ends the object at `}`, goes on after `,`, or aborts where the insertion does |
| JsonParserProperties.MembersParse | backend/json.c:224-275 | the object loop from some pair onwards inserts each remaining pair in order and ends after the closing `}`, or aborts where an insertion does |
| JsonParserProperties.InsertPairsHold | backend/json.c:244-270 | inserting distinct keys one after another leaves a table holding exactly those pairs; only growth can abort, for want of arena, and up to 25 pairs not at all |
| JsonParserProperties.HoldsStep | backend/json.c:244-270 | one insertion of a key not yet held: it can only abort for want of arena, and it adds that one pair to what the table holds |
| JsonParserProperties.ObjectTextParses | backend/json.c:217-280 | any list of distinct quote-free key/string pairs, written with no whitespace, parses into an object holding exactly those pairs, with Position after the closing `}`; up to 25 pairs it never runs out of arena |
| JsonParserProperties.EmptyObjectTextParses | backend/json.c:217-229 | `{}` parses into the empty object after both 37-slot tables are pushed |
| JsonParserProperties.MembersObjectParses | backend/json.c:217-280 | `{` and then the members push both tables and read the members into the empty table |
| JsonParserProperties.SpacedObjectAborts | backend/json.c:43-281 | `{ "a" : "b" }` aborts: the whitespace before `:` leaves Position on the colon, which is then read as the value |
| JsonParserProperties.ColonReadAsValueAborts | backend/json.c:237-281 | when the Position after a key's colon still points at that colon, the parse aborts |
| JsonWriting.FragmentSize | backend/json.c:339-411 | each call writes the byte count its ASSERT checks for: 1 per bracket, Count + 3 or Count + 4 per key, Count + 2 per string; a key keeps the state |
| JsonWriting.RenderAppend | backend/json.c:339-411 | one more call appends its fragment, in the state the earlier calls left |
| JsonWriting.RenderCons | backend/json.c:339-411 | a run of calls writes the first call's fragment, then the rest from the state it leaves |
| JsonWriting.OnePairRender | backend/json.c:339-411 | BeginObject, PutKey, PutString, EndObject write exactly `{"key":"text"}` and end DIRTY |
| JsonWriting.OnePairBytes | backend/json.c:339-411 | the four fragments together are `{"key":"text"}` |
| JsonWriting.WrittenPairReadsBack | backend/json.c:217-411 | what the writer produces for one key and one string, the parser reads back, and the lookup of the key gives the string |
| JsonWriting.PairRender | backend/json.c:371-411 | PutKey then PutString write the separator the state calls for, then `"key":"text"`, and leave DIRTY |
| JsonWriting.RenderMembers | backend/json.c:347-411 | a run of PutKey and PutString pairs and EndObject writes the pairs separated by commas and then `}` |
| JsonWriting.RenderObject | backend/json.c:339-411 | BeginObject, the pairs, EndObject write exactly the object text of those pairs |
| JsonWriting.WrittenObjectReadsBack | backend/json.c:217-411 | what the writer produces for any list of distinct quote-free keys with string values, the parser reads back to the end: every key gives its string and no other key is found; up to 25 pairs it never runs out of arena |
| JsonWriting.KeyAfterStringHasComma | backend/json.c:371-411 | a key after a string value is preceded by a comma, because PutString leaves DIRTY |
| JsonWriting.AdjacentObjectsHaveNoComma | backend/json.c:339-369 | nothing separates two objects in an array: `[{}{}]` |
| JsonWriting.JsonWriter.constructor | backend/json.c:317-324 | static storage: no arena, start and count 0, CLEAN |
| JsonWriting.JsonWriter.Begin | backend/json.c:326-330 | JsonBegin attaches the arena and starts at its Offset, CLEAN, with Count untouched |
| JsonWriting.JsonWriter.End | backend/json.c:332-337 | JsonEnd returns the view at the start with length CurrentJsonCount, which is always 0; it zeroes the count and aligns Offset to 8; the bytes stay |
| JsonWriting.JsonWriter.Append | backend/json.c:340-343 | `ASSERT(Capacity - Offset >= n)`, then the bytes at Offset and Offset + n; on an abort nothing moves |
| JsonWriting.JsonWriter.Record | backend/json.c:339-411 | a written call joins the history, and the state follows it |
| JsonWriting.JsonWriter.BeginObject | backend/json.c:339-345 | aborts exactly when no byte is free; otherwise appends `{` and sets CLEAN |
| JsonWriting.JsonWriter.EndObject | backend/json.c:347-353 | aborts exactly when no byte is free; otherwise appends `}` and sets DIRTY |
| JsonWriting.JsonWriter.BeginArray | backend/json.c:355-361 | aborts exactly when no byte is free; otherwise appends `[` and sets CLEAN |
| JsonWriting.JsonWriter.EndArray | backend/json.c:363-369 | aborts exactly when no byte is free; otherwise appends `]` and sets DIRTY |
| JsonWriting.JsonWriter.PutKey | backend/json.c:371-398 | aborts exactly when fewer than Count + 3 (CLEAN) or Count + 4 (DIRTY) bytes are free; otherwise appends `"k":` or `,"k":` and keeps the state |
| JsonWriting.JsonWriter.PutString | backend/json.c:400-411 | aborts exactly when fewer than Count + 2 bytes are free; otherwise appends `"s"` and sets DIRTY |
| HttpRequests.MethodNameIsAscii | backend/http.h:7-14 | the bytes compared for each method are the text of its enumerator name |
| HttpRequests.MethodNameIsWord | backend/http.h:7-14 | no method name is empty or holds a space |
| HttpRequests.VersionStringIsAscii | backend/http.h:32-33 | the one version string is `HTTP/1.1` |
| HttpRequests.MethodOfIsName | backend/http.c:22-34 | a method is recognised exactly when the bytes equal its name, case-sensitively |
| HttpRequests.VersionOfIsString | backend/http.c:60-72 | a version is recognised exactly when the bytes are `HTTP/1.1` |
| HttpRequests.RequestLineOf | backend/http.c:15-80 | an accepted request line gives a path view inside the buffer and a header start within it |
| HttpRequests.Wrap64 | backend/http.c:110 | unsigned 64-bit subtraction: the result modulo 2^64 |
| HttpRequests.HeaderLineAt | backend/http.c:91-114 | a header line's name starts at the line, and the line ends with CR LF |
| HttpRequests.ScanHeaders | backend/http.c:88-119 | the header loop keeps the headers in wire order, and it stops at a line beginning with CR LF |
| HttpRequests.RequestParse | backend/http.c:9-132 | an accepted request has its headers and body inside the buffer; arena use only grows within Capacity; the only abort is the arena running out |
| HttpRequests.ParsedPathIsWithin | backend/http.c:48-125 | the path of a parsed request lies inside the buffer |
| HttpRequests.RequestAfterLine | backend/http.c:85-131 | after an accepted request line: the headers and body lie inside the buffer, and the body runs to the end of it |
| HttpRequests.EqualsMethodName | backend/http.c:24 | StringViewEqualCStr against a method name: true exactly when the bytes are that name |
| HttpRequests.ParseMethod | backend/http.c:22-34 | the `X(Method)` chain gives MethodOf: the first name that matches |
| HttpRequests.ParseVersion | backend/http.c:60-72 | the `X(Version, String)` chain gives VersionOf |
| HttpRequests.ParseRequestLine | backend/http.c:15-80 | the three scans and the checks give RequestLineOf |
| HttpRequests.ReadHeaderLine | backend/http.c:91-110 | the scans to the colon and to the CR give HeaderLineAt |
| HttpRequests.ReadHeaders | backend/http.c:88-119 | the header loop with one ArenaPush per header gives ScanHeaders, or aborts when slots run out; earlier arena bytes are kept |
| HttpRequests.SlotsOverflow | backend/http.c:113 | when the slot after k slots does not fit, no more than k slots fit |
| HttpRequests.ScanHeadersStep | backend/http.c:88-117 | a header line is one step of the header loop |
| HttpRequests.HttpRequestParse | backend/http.c:9-132 | HttpRequestParse on an arena gives RequestParse, with the same Offset; earlier arena bytes are kept |
| HttpRequests.ParseAfterLine | backend/http.c:85-131 | the part after the request line gives RequestAfterLine |
| HttpRequests.IndexOfIs | backend/http.c:16-18 | the scan finds a byte at an index when no earlier index from the start holds it |
| HttpRequests.RequestLineAt | backend/http.c:15-80 | where the separators are, the request line gives that method, the path strictly between the spaces, HTTP/1.1, and headers two bytes past the CR |
| HttpRequests.RequestLineLayout | backend/http.c:15-80 | where the spaces and CR LF of a request line put together from its parts fall |
| HttpRequests.RequestLineReadsBack | backend/http.c:15-80 | a request line built from a method, a path without a space and HTTP/1.1 reads back as those parts |
| HttpRequests.HeaderLineAtSeparators | backend/http.c:91-117 | at the first `:` and first CR of a line, the header is the untrimmed name, and the value view starts two past the CR with length `cr - colon - 3` modulo 2^64 |
| HttpRequests.BlankLineEndsHeaders | backend/http.c:89 | a line beginning with CR LF ends the headers there |
| HttpRequests.HeaderBlockLayout | backend/http.c:88-122 | where the colon and the CR LF pairs of `name:value CRLF CRLF body` fall |
| HttpRequests.RequestOfScan | backend/http.c:85-131 | headers that end at a blank line give a request with those headers and the body after the blank line, consuming one zeroed slot plus one per header |
| HttpRequests.AcceptedLineParses | backend/http.c:79-80 | once the request line is accepted, parsing continues from the bytes after it |
| HttpRequests.OneHeaderRequestParses | backend/http.c:9-132 | a request with one header and a body, put together from its parts, parses into that method and path, the one header with the name as written and the mis-computed value view, and the body as written |
| HttpRequests.OneHeaderAfterText | backend/http.c:85-131 | the same for any request line text that the request line parse accepts |
| HttpRequests.OneHeaderViewsReadBack | backend/http.c:99-122 | the name and body views read back the bytes put there |
| HttpRequests.OneHeaderWithSlices | backend/http.c:85-131 | the one-header request with its name and body read back from the buffer |
| HttpRequests.OneHeaderRequestAt | backend/http.c:85-131 | an accepted line, one header line and a blank line give that request and consume two header slots |
| HttpRequests.OneHeaderSlices | backend/http.c:99-122 | where the name and the body sit in a one-header request |
| HttpRequests.OneHeaderAfterLine | backend/http.c:85-131 | after an accepted line, a block of one header line and a blank line gives the one-header request |
| HttpRequests.OneHeaderBlockScans | backend/http.c:88-119 | the one-header block scans into one header and the blank line |
| HttpRequests.ShortHeaderValueWraps | backend/http.c:110 | a header value of one byte or none gets a length near 2^64 |
| HttpRequests.UnknownMethodRejected | backend/http.c:22-34 | a first word that is no method name, such as lower-case `get`, is not a request, and nothing is pushed |
| HttpRequests.NoSpaceRejected | backend/http.c:20 | bytes with no space at all are not a request |
| HttpRequests.MissingBlankLineYieldsNoRequest | backend/http.c:97-119 | when the bytes end before the blank line, or a line lacks `:` or CR LF, there is no request, though the header slots stay pushed |
| HttpRequests.MalformedHeadersAfterLine | backend/http.c:97-119 | the same, after the request line |
| HttpServers.ReasonPhrase | backend/http.c:134-141 | a phrase exists exactly for 200, 404 and 500; any other status is UNREACHABLE |
| HttpServers.ReasonPhrasesAreAscii | backend/http.h:51-54 | the phrases are `OK`, `Not Found` and `Internal Server Error` |
| HttpServers.DecimalText | backend/http.c:243-248 | `%u` prints a non-empty run of digits |
| HttpServers.DecimalTextReadsBack | backend/http.c:243-248 | `%u` reads back as the number it printed, with no leading zero |
| HttpServers.Printed | backend/http.c:243-248 | `%.*s` prints the content up to its first NUL: a prefix with no NUL, and all of it when it holds none |
| HttpServers.CorsHeaderIsAscii | backend/http.c:244 | the header is `Access-Control-Allow-Origin: *` and CR LF |
| HttpServers.ResponseText | backend/http.c:238-267 | the response aborts exactly when the status has no phrase |
| HttpServers.SpaceTerminatedFields | backend/http.c:244 | two space-terminated fields at the start of a text are found by the space scans |
| HttpServers.ResponseReadsBack | backend/http.c:238-248 | the response begins with the request's version, then the status code in decimal between the first two spaces, and ends with the printed content |
| HttpServers.HeadReadsBack | backend/http.c:244 | the same for any phrase and any printed content |
| HttpServers.HeadStartsWithFields | backend/http.c:244 | the response starts with the version, a space, the code and a space |
| HttpServers.FirstMatchFrom | backend/http.c:229-231 | the route search returns a position holding the path with no earlier match, or none when no position holds it |
| HttpServers.FirstMatchIsEarliest | backend/http.c:229-231 | a handler is found exactly when its path was attached, and it is the first one attached with that path |
| HttpServers.FirstMatchAt | backend/http.c:229-231 | the first position that holds the path is the one found |
| HttpServers.AttachedPathIsRouted | backend/http.c:229-231 | after attaching one more path, an earlier equal path still wins, and otherwise the new one is found when it equals the path |
| HttpServers.AttachedPathIsAnswered | backend/http.c:229-248 | a request whose path was attached is answered by the first handler with that path, with its status and content |
| HttpServers.UnattachedPathIsNotFound | backend/http.c:256-267 | a request whose path was never attached gets `404 Not Found` in the same shape, with no content |
| HttpServers.RejectedRequestGetsNoResponse | backend/http.c:220-226 | bytes without an accepted request line get no response |
| HttpServers.HttpServer.Init | backend/http.c:292-299 | HttpServerInit: a 4 GiB arena holding the 100-entry handler table and then the path table; no handler attached |
| HttpServers.HttpServer.AttachHandler | backend/http.c:282-290 | aborts when 100 handlers are already attached; otherwise appends the path's bytes before its NUL and the handler, and keeps the earlier entries |
| HttpServers.HttpServer.Route | backend/http.c:229-231 | the handler loop finds FirstMatch of the attached paths |
| HttpServers.HttpServer.Serve | backend/http.c:196-273 | one turn of the server loop: the received bytes sit at the start of the request arena, and the response is ServeConnection |
| HttpServers.HttpServer.Answer | backend/http.c:229-272 | the handler loop and the response text for a parsed request are Respond |
| HttpServers.Receive | backend/http.c:198-219 | ArenaReset, then the received bytes at the start of the buffer and Offset rounded up to a word |

## Left out

- Sockets. `getaddrinfo`, `socket`, `setsockopt`, `bind`, `listen`, `accept`, `send` and `close` in `HttpServerStart` (backend/http.c:153-195, 201-206, 250-253, 269-272) are not modelled, because they are blocking network I/O. The bytes that `recv` delivered are a parameter of `Serve`.
- A failed `recv` is not modelled. The model takes the bytes it delivered.
- The handler's own code is not modelled. A handler is application code reached through the handler table, so its status and content are a parameter function `handle` of the handler, the request and the buffer. The handler's own arena pushes are not modelled either.
- `ArenaFormat` (backend/common.h:119-132) uses `vsnprintf`/`vsprintf`, a libc formatter. The response bytes are specified directly. The arena push for the formatted text, its NUL terminator and the return address are not modelled.
- The `(int)` cast of the count in `SV_ARG` is not modelled. Counts above `INT_MAX` are not distinguished.
- `http_request.Headers.Items` is not modelled: where the header slots sit and what bytes they hold in the arena. Only the Offset they consume is tracked, with the header values themselves.
- The arena images of JSON values, array elements and object slots are not modelled. The parser works on values and tracks only the arena Offset.
- The parser's in-place writes into arena memory are not modelled.
- JsonParser.ArrayAtElement and JsonParser.ObjectAtKey: the array and object loops of `JsonParseValue` (backend/json.c:195-211, 224-275) are recursive functions on values, not loops in a method. The order of the steps is the same. What is not captured is the update in place of the caller's `Position` and `OutValue`, and of the local `Elements` and `Object` between turns.
- JsonParser.ParseF64: does not model the f64 conversion of a number or the u64 wrap-around of ParseF64's accumulator. A number is the unbounded integer of its digits after byte 0. Digit runs long enough to overflow 64 bits are outside the model.
- JsonValues.Grow: treats the new tail slots after growth as empty. That is true only for arena memory never used before. ArenaRealloc copies just the old slots, and neither the per-connection ArenaReset nor GetTempArena's reset clears memory, so a reused region holds stale bytes. A stale non-NULL key in the tail, which the C would probe past and compare, is not modelled.
- ArenaRealloc's bytes past OldSize are not modelled: whatever the region held before is taken as given.
- Common.AlignForward: computed on unbounded naturals. The wrap-around of `Size + ...` near 2^64 is not modelled.
- Arena offsets and capacities are unbounded naturals, so the wrap of `Offset + Size` near `SIZE_MAX` is not modelled.
- A `calloc` failure in `ArenaInit` (a null `Items`) is not modelled.
- `ArenaPop` (backend/common.h:142) is only declared and has no body in this repository.
- `HttpResponseWrite` (backend/http.h:80) is only declared and has no body in this repository.
- `JsonPutNumber`, `JsonPutTrue`, `JsonPutFalse` and `JsonPutNull` are declared in backend/json.h but have no body in this repository.
- `ReadFullFile` (backend/common.c:18-35) is file I/O.
- The `printf` logging (backend/http.c:10, 210, 224) is output only.
- `PANIC_FMT`, `ASSERT` and friends write a message to `stderr` before aborting. Only the abort and its cause are modelled.
- backend/db.c and backend/db.h are not part of this model. They wrap a MongoDB client library that is not visible here.
- backend/main.c is not part of this model. It only starts the program and wires the parts together.
- The TypeScript front end under src/ is not part of this model.
- Concurrency: the server is single-threaded and the writer state is global, so there is none to model.
