/** The parsed JSON tagged union of backend/json.h and the open-addressing
    object table of backend/json.c: linear probing from the FNV-1 slot,
    growth by copying slots without rehashing, and circular lookup. */
module JsonValues {
  import opened Common
  import opened Fnv
  import opened Arenas

  /** `json_value`: the tag and its payload. Strings and keys are the bytes
      of the view into the input; a number is the integer ParseF64 computes
      before its conversion to `f64`. */
  datatype JsonValue =
    | JsonNumber(number: int)
    | JsonString(text: seq<Byte>)
    | JsonArray(elements: seq<JsonValue>)
    | JsonObject(table: ObjectTable)
    | JsonTrue
    | JsonFalse
    | JsonNull

  /** One slot of the parallel `Keys`/`Values` arrays; a slot whose key has
      `Items == NULL` is empty. */
  datatype Slot = Empty | Entry(key: seq<Byte>, value: JsonValue)

  /** `json_object`: the slots (Capacity is their number) and Count. */
  datatype ObjectTable = ObjectTable(slots: seq<Slot>, count: nat)
  {
    /** Count is the number of occupied slots, at least one slot is free,
        and the capacity never drops below the initial 37. */
    predicate Valid() {
      |slots| >= DEFAULT_OBJECT_CAPACITY && count == Occupied(slots) && count < |slots|
    }
  }

  const DEFAULT_OBJECT_CAPACITY: nat := 37

  /** The number of occupied slots. */
  function Occupied(slots: seq<Slot>): nat
  {
    if |slots| == 0 then 0 else (if slots[0].Entry? then 1 else 0) + Occupied(slots[1..])
  }

  /** The table a `{` starts with: 37 zeroed slots, Count 0. */
  function EmptyTable(): (t: ObjectTable)
    ensures t.Valid() && t.count == 0 && |t.slots| == DEFAULT_OBJECT_CAPACITY
    ensures forall i :: 0 <= i < |t.slots| ==> t.slots[i].Empty?
  {
    var slots := seq(DEFAULT_OBJECT_CAPACITY, _ => Empty);
    NoEntriesNoneOccupied(slots);
    ObjectTable(slots, 0)
  }

  lemma {:induction false} NoEntriesNoneOccupied(slots: seq<Slot>)
    requires forall i :: 0 <= i < |slots| ==> slots[i].Empty?
    ensures Occupied(slots) == 0
  {
    if |slots| > 0 {
      NoEntriesNoneOccupied(slots[1..]);
    }
  }

  /** Appending empty slots adds no occupied slot. */
  lemma {:induction false} OccupiedAppendEmpty(slots: seq<Slot>, tail: seq<Slot>)
    requires forall i :: 0 <= i < |tail| ==> tail[i].Empty?
    ensures Occupied(slots + tail) == Occupied(slots)
  {
    if |slots| == 0 {
      assert slots + tail == tail;
      NoEntriesNoneOccupied(tail);
    } else {
      assert (slots + tail)[1..] == slots[1..] + tail;
      OccupiedAppendEmpty(slots[1..], tail);
    }
  }

  /** Filling an empty slot adds exactly one occupied slot. */
  lemma {:induction false} OccupiedFill(slots: seq<Slot>, i: nat, entry: Slot)
    requires i < |slots| && slots[i].Empty? && entry.Entry?
    ensures Occupied(slots[i := entry]) == Occupied(slots) + 1
  {
    if i > 0 {
      assert slots[i := entry][1..] == slots[1..][i - 1 := entry];
      OccupiedFill(slots[1..], i - 1, entry);
    } else {
      assert slots[i := entry][1..] == slots[1..];
    }
  }

  /** Fewer occupied slots than slots means some slot is empty. */
  lemma {:induction false} FreeSlotExists(slots: seq<Slot>) returns (j: nat)
    requires Occupied(slots) < |slots|
    ensures j < |slots| && slots[j].Empty?
  {
    if slots[0].Empty? {
      j := 0;
    } else {
      var k := FreeSlotExists(slots[1..]);
      j := k + 1;
    }
  }

  /** Every slot is reached by the circular walk from any start within one
      lap. */
  lemma CircularReach(start: nat, j: nat, capacity: nat) returns (k: nat)
    requires start < capacity && j < capacity
    ensures k < capacity && (start + k) % capacity == j
  {
    if j >= start {
      k := j - start;
      ModUnique(j, capacity, 0, j);
    } else {
      k := j + capacity - start;
      ModUnique(j + capacity, capacity, 1, j);
    }
  }

  /** The wrapping increment `++I; if (I >= Capacity) I = 0;` is one more
      step of the circular walk, and it is back at the start exactly after
      a full lap. */
  lemma CircularStep(start: nat, k: nat, capacity: nat)
    requires start < capacity && k < capacity
    ensures var i := (start + k) % capacity;
      (if i + 1 >= capacity then 0 else i + 1) == (start + k + 1) % capacity
    ensures (start + k + 1) % capacity == start <==> k + 1 == capacity
  {
    var q := (start + k) / capacity;
    var i := (start + k) % capacity;
    assert start + k == q * capacity + i;
    if i + 1 < capacity {
      ModUnique(start + k + 1, capacity, q, i + 1);
    } else {
      ModUnique(start + k + 1, capacity, q + 1, 0);
    }
    if k + 1 == capacity {
      ModUnique(start + k + 1, capacity, 1, start);
    } else if start + k + 1 < capacity {
      ModUnique(start + k + 1, capacity, 0, start + k + 1);
    } else {
      ModUnique(start + k + 1, capacity, 1, start + k + 1 - capacity);
    }
  }

  /** Where the insertion probe stops: a free slot, a slot holding an equal
      key, or (on a table with no free slot, which Valid rules out) nowhere. */
  datatype Probe = Vacant(index: nat) | Duplicate(index: nat) | Full

  /** The probe loop from step `k` of the lap that starts at `start`. */
  function ProbeFrom(slots: seq<Slot>, key: seq<Byte>, start: nat, k: nat): (p: Probe)
    requires start < |slots| && k <= |slots|
    ensures p.Vacant? ==> p.index < |slots| && slots[p.index].Empty?
    ensures p.Duplicate? ==> p.index < |slots| && slots[p.index].Entry? && slots[p.index].key == key
    decreases |slots| - k
  {
    if k == |slots| then Full
    else
      var i := (start + k) % |slots|;
      match slots[i]
      case Empty => Vacant(i)
      case Entry(other, _) => if other == key then Duplicate(i) else ProbeFrom(slots, key, start, k + 1)
  }

  /** The probe always stops when some slot on the rest of the lap is free. */
  lemma {:induction false} ProbeStops(slots: seq<Slot>, key: seq<Byte>, start: nat, k: nat, free: nat)
    requires start < |slots| && k <= free < |slots| && slots[(start + free) % |slots|].Empty?
    ensures !ProbeFrom(slots, key, start, k).Full?
    decreases free - k
  {
    var i := (start + k) % |slots|;
    if slots[i].Entry? && slots[i].key != key {
      ProbeStops(slots, key, start, k + 1, free);
    }
  }

  /** The probe on a valid table never runs a full lap. */
  lemma ProbeOfValidTableStops(table: ObjectTable, key: seq<Byte>)
    requires table.Valid()
    ensures !ProbeFrom(table.slots, key, ProbeStart(key, |table.slots|), 0).Full?
  {
    var start := ProbeStart(key, |table.slots|);
    var j := FreeSlotExists(table.slots);
    var k := CircularReach(start, j, |table.slots|);
    ProbeStops(table.slots, key, start, 0, k);
  }

  /** The probe and store of lines 253-270: the first free slot on the
      wrapping walk from `HashFnv1(Key) % Capacity` receives the entry and
      Count grows by one; an equal key met first aborts. */
  function Place(table: ObjectTable, key: seq<Byte>, value: JsonValue): (r: Outcome<ObjectTable>)
    requires table.Valid()
    ensures r.Ok? ==> |r.value.slots| == |table.slots| && r.value.count == table.count + 1
    ensures r.Ok? ==> r.value.count == Occupied(r.value.slots)
    ensures r.Abort? ==> r.fault == DuplicateKey
  {
    var probe := ProbeFrom(table.slots, key, ProbeStart(key, |table.slots|), 0);
    match probe
    case Vacant(i) =>
      OccupiedFill(table.slots, i, Entry(key, value));
      Ok(ObjectTable(table.slots[i := Entry(key, value)], table.count + 1))
    case Duplicate(_) => Abort(DuplicateKey)
    case Full => ProbeOfValidTableStops(table, key); assert false; Abort(Unreachable)
  }

  /** Lines 253-270: the hash slot of the key, then the probe loop. */
  method PlaceEntry(table: ObjectTable, key: seq<Byte>, value: JsonValue) returns (r: Outcome<ObjectTable>)
    requires table.Valid()
    ensures r == Place(table, key, value)
  {
    var capacity := |table.slots|;
    var hash := HashFnv1(key);
    var startIndex := (hash as int) % capacity;
    assert startIndex == ProbeStart(key, capacity);
    r := ProbeSlots(table, key, value, startIndex);
  }

  /** The probe loop of lines 255-270: from the hash slot, the index wraps
      to 0 at Capacity; a free slot receives the entry and Count grows, an
      equal key panics. A valid table always has a free slot, so the loop
      ends. */
  method ProbeSlots(table: ObjectTable, key: seq<Byte>, value: JsonValue, startIndex: nat) returns (r: Outcome<ObjectTable>)
    requires table.Valid() && startIndex == ProbeStart(key, |table.slots|)
    ensures r == Place(table, key, value)
  {
    var capacity := |table.slots|;
    var index := startIndex;
    ghost var k := 0;
    ModUnique(startIndex, capacity, 0, startIndex);
    while true
      invariant k < capacity && index == (startIndex + k) % capacity
      invariant ProbeFrom(table.slots, key, startIndex, k) == ProbeFrom(table.slots, key, startIndex, 0)
      decreases capacity - k
    {
      var current := table.slots[index];
      if current.Empty? {
        PlaceAtProbe(table, key, value, k);
        return Ok(ObjectTable(table.slots[index := Entry(key, value)], table.count + 1));
      }
      var equal := StringViewEqual(current.key, key);
      if equal {
        PlaceAtProbe(table, key, value, k);
        return Abort(DuplicateKey);
      }
      PlaceProbeGoesOn(table, key, k);
      CircularStep(startIndex, k, capacity);
      index := index + 1;
      if index >= capacity {
        index := 0;
      }
      k := k + 1;
    }
  }

  /** Place, from the probe step `k` that stops. */
  lemma PlaceAtProbe(table: ObjectTable, key: seq<Byte>, value: JsonValue, k: nat)
    requires table.Valid() && k < |table.slots|
    requires var start := ProbeStart(key, |table.slots|);
      ProbeFrom(table.slots, key, start, k) == ProbeFrom(table.slots, key, start, 0)
    ensures var i := (ProbeStart(key, |table.slots|) + k) % |table.slots|;
      (table.slots[i].Empty? ==> Place(table, key, value) == Ok(ObjectTable(table.slots[i := Entry(key, value)], table.count + 1))) &&
      (table.slots[i].Entry? && table.slots[i].key == key ==> Place(table, key, value) == Abort(DuplicateKey))
  {
  }

  /** A slot with another key sends the probe on, and the lap is not over. */
  lemma PlaceProbeGoesOn(table: ObjectTable, key: seq<Byte>, k: nat)
    requires table.Valid() && k < |table.slots|
    requires var start := ProbeStart(key, |table.slots|);
      ProbeFrom(table.slots, key, start, k) == ProbeFrom(table.slots, key, start, 0)
    requires var i := (ProbeStart(key, |table.slots|) + k) % |table.slots|;
      table.slots[i].Entry? && table.slots[i].key != key
    ensures var start := ProbeStart(key, |table.slots|);
      k + 1 < |table.slots| &&
      ProbeFrom(table.slots, key, start, k + 1) == ProbeFrom(table.slots, key, start, 0)
  {
    ProbeOfValidTableStops(table, key);
  }

  /** The load test of line 246, in integer percent. */
  predicate NeedsGrowth(table: ObjectTable)
    requires |table.slots| > 0
  {
    100 * table.count / |table.slots| >= 65
  }

  function GrownCapacity(capacity: nat): nat
  {
    (capacity + 1) * 3
  }

  /** Growth as ArenaRealloc performs it: the old slots keep their indices
      and nothing is rehashed. The new tail is taken to be empty. That holds
      only for arena memory never used before: ArenaRealloc copies just the
      old slots, and ArenaReset does not clear memory, so in a reused region
      the tail holds stale bytes, and a stale non-NULL key there would be
      probed past and compared. */
  function Grow(table: ObjectTable): (g: ObjectTable)
  {
    ObjectTable(table.slots + seq(GrownCapacity(|table.slots|) - |table.slots|, _ => Empty), table.count)
  }

  lemma GrowKeepsValid(table: ObjectTable)
    requires table.Valid()
    ensures Grow(table).Valid() && |Grow(table).slots| == GrownCapacity(|table.slots|)
    ensures Grow(table).slots[..|table.slots|] == table.slots
  {
    var tail := seq(GrownCapacity(|table.slots|) - |table.slots|, _ => Empty);
    OccupiedAppendEmpty(table.slots, tail);
    assert (table.slots + tail)[..|table.slots|] == table.slots;
  }

  /** Below the growth threshold at least two slots are free, so one more
      entry keeps a free slot. */
  lemma BelowThresholdLeavesRoom(count: nat, capacity: nat)
    requires capacity >= DEFAULT_OBJECT_CAPACITY && 100 * count / capacity < 65
    ensures count + 1 < capacity
  {
    var q := 100 * count / capacity;
    var r := 100 * count % capacity;
    assert 100 * count == q * capacity + r;
    MulMonotone(q + 1, 65, capacity);
  }

  /** One key/value insertion (lines 244-270): grow when the load is at
      least 65 percent, pushing new `Keys` and `Values` regions, then probe.
      The result pairs the table with the arena's new Offset. */
  function InsertSpec(table: ObjectTable, key: seq<Byte>, value: JsonValue, offset: nat, capacity: nat)
    : (r: Outcome<(ObjectTable, nat)>)
    requires table.Valid() && offset <= capacity
    ensures r.Ok? ==> r.value.0.Valid() && r.value.0.count == table.count + 1
    ensures r.Ok? ==> offset <= r.value.1 <= capacity
    ensures r.Ok? ==> (r.value.1 == offset <==> !NeedsGrowth(table))
    ensures r.Ok? ==> |r.value.0.slots| == if NeedsGrowth(table) then GrownCapacity(|table.slots|) else |table.slots|
  {
    if NeedsGrowth(table) then
      var newCapacity := GrownCapacity(|table.slots|);
      match Pushed(offset, capacity, SIZE_OF_VIEW * newCapacity)
      case Abort(f) => Abort(f)
      case Ok(keysEnd) =>
        PushedKeepsInvariant(offset, capacity, SIZE_OF_VIEW * newCapacity);
        match Pushed(keysEnd, capacity, SIZE_OF_JSON_VALUE * newCapacity)
        case Abort(f) => Abort(f)
        case Ok(valuesEnd) =>
          PushedKeepsInvariant(keysEnd, capacity, SIZE_OF_JSON_VALUE * newCapacity);
          GrowKeepsValid(table);
          match Place(Grow(table), key, value)
          case Abort(f) => Abort(f)
          case Ok(placed) => Ok((placed, valuesEnd))
    else
      BelowThresholdLeavesRoom(table.count, |table.slots|);
      match Place(table, key, value)
      case Abort(f) => Abort(f)
      case Ok(placed) => Ok((placed, offset))
  }

  /** The first insertion into a fresh table lands in the key's hash slot
      and consumes no arena bytes. */
  lemma InsertIntoEmptyTable(key: seq<Byte>, value: JsonValue, offset: nat, capacity: nat)
    requires offset <= capacity
    ensures var start := ProbeStart(key, DEFAULT_OBJECT_CAPACITY);
      InsertSpec(EmptyTable(), key, value, offset, capacity) ==
        Ok((ObjectTable(EmptyTable().slots[start := Entry(key, value)], 1), offset))
  {
    var empty := EmptyTable();
    assert !NeedsGrowth(empty);
    var start := ProbeStart(key, DEFAULT_OBJECT_CAPACITY);
    assert ProbeFrom(empty.slots, key, start, 0) == Vacant(start) by {
      ModUnique(start, DEFAULT_OBJECT_CAPACITY, 0, start);
    }
  }

  /** The lookup walk from step `k`: the first occupied slot with an equal
      key, visiting each slot at most once. */
  function ScanFrom(slots: seq<Slot>, key: seq<Byte>, start: nat, k: nat): Option<JsonValue>
    requires start < |slots| && k <= |slots|
    decreases |slots| - k
  {
    if k == |slots| then None
    else
      var i := (start + k) % |slots|;
      if slots[i].Entry? && slots[i].key == key then Some(slots[i].value)
      else ScanFrom(slots, key, start, k + 1)
  }

  /** JsonObjectGet as a function: the lap starts at the key's hash slot. */
  function Lookup(table: ObjectTable, key: seq<Byte>): Option<JsonValue>
    requires |table.slots| > 0
  {
    ScanFrom(table.slots, key, ProbeStart(key, |table.slots|), 0)
  }

  lemma {:induction false} ScanFromFinds(slots: seq<Slot>, key: seq<Byte>, start: nat, k: nat, hit: nat)
    requires start < |slots| && k <= hit < |slots|
    requires var j := (start + hit) % |slots|; slots[j].Entry? && slots[j].key == key
    ensures ScanFrom(slots, key, start, k).Some?
    decreases hit - k
  {
    var i := (start + k) % |slots|;
    if !(slots[i].Entry? && slots[i].key == key) {
      ScanFromFinds(slots, key, start, k + 1, hit);
    }
  }

  lemma {:induction false} ScanFromSound(slots: seq<Slot>, key: seq<Byte>, start: nat, k: nat) returns (j: nat)
    requires start < |slots| && k <= |slots|
    requires ScanFrom(slots, key, start, k).Some?
    ensures j < |slots| && slots[j] == Entry(key, ScanFrom(slots, key, start, k).value)
    decreases |slots| - k
  {
    var i := (start + k) % |slots|;
    if slots[i].Entry? && slots[i].key == key {
      j := i;
    } else {
      j := ScanFromSound(slots, key, start, k + 1);
    }
  }

  /** Lookup succeeds exactly when some occupied slot holds a byte-equal
      key, and then it yields the value stored beside such a key. The lap
      covers every slot, so this holds even for keys growth left away from
      their new hash slot. */
  lemma LookupIff(table: ObjectTable, key: seq<Byte>)
    requires |table.slots| > 0
    ensures Lookup(table, key).Some? <==>
      exists j :: 0 <= j < |table.slots| && table.slots[j].Entry? && table.slots[j].key == key
    ensures Lookup(table, key).Some? ==>
      exists j :: 0 <= j < |table.slots| && table.slots[j] == Entry(key, Lookup(table, key).value)
  {
    var start := ProbeStart(key, |table.slots|);
    if j :| 0 <= j < |table.slots| && table.slots[j].Entry? && table.slots[j].key == key {
      var k := CircularReach(start, j, |table.slots|);
      ScanFromFinds(table.slots, key, start, 0, k);
    }
    if Lookup(table, key).Some? {
      var j := ScanFromSound(table.slots, key, start, 0);
    }
  }

  /** An empty table holds no key. */
  lemma EmptyTableHasNoKeys(key: seq<Byte>)
    ensures Lookup(EmptyTable(), key) == None
  {
    LookupIff(EmptyTable(), key);
  }

  lemma {:induction false} PlacedIsFirstMatch(slots: seq<Slot>, key: seq<Byte>, value: JsonValue, start: nat, k: nat, i: nat)
    requires start < |slots| && k <= |slots|
    requires ProbeFrom(slots, key, start, k) == Vacant(i)
    ensures ScanFrom(slots[i := Entry(key, value)], key, start, k) == Some(value)
    decreases |slots| - k
  {
    var here := (start + k) % |slots|;
    if here != i {
      PlacedIsFirstMatch(slots, key, value, start, k + 1, i);
    }
  }

  /** A successful insertion is found again by JsonObjectGet, with the
      value just stored: the lookup lap starts where the probe did and
      passes the same non-matching slots first. */
  lemma InsertedKeyIsFound(table: ObjectTable, key: seq<Byte>, value: JsonValue, offset: nat, capacity: nat)
    requires table.Valid() && offset <= capacity
    requires InsertSpec(table, key, value, offset, capacity).Ok?
    ensures Lookup(InsertSpec(table, key, value, offset, capacity).value.0, key) == Some(value)
  {
    if NeedsGrowth(table) {
      GrowKeepsValid(table);
      PlacedKeyIsFound(Grow(table), key, value);
    } else {
      BelowThresholdLeavesRoom(table.count, |table.slots|);
      PlacedKeyIsFound(table, key, value);
    }
  }

  /** What Place stores, the lookup of its key finds. */
  lemma PlacedKeyIsFound(table: ObjectTable, key: seq<Byte>, value: JsonValue)
    requires table.Valid() && Place(table, key, value).Ok?
    ensures Lookup(Place(table, key, value).value, key) == Some(value)
  {
    var start := ProbeStart(key, |table.slots|);
    var probe := ProbeFrom(table.slots, key, start, 0);
    PlacedIsFirstMatch(table.slots, key, value, start, 0, probe.index);
  }

  lemma {:induction false} ScanIgnoresOtherKey(slots: seq<Slot>, key: seq<Byte>, other: seq<Byte>, value: JsonValue, start: nat, k: nat, i: nat)
    requires start < |slots| && k <= |slots| && i < |slots| && slots[i].Empty? && other != key
    ensures ScanFrom(slots[i := Entry(other, value)], key, start, k) == ScanFrom(slots, key, start, k)
    decreases |slots| - k
  {
    if k < |slots| {
      ScanIgnoresOtherKey(slots, key, other, value, start, k + 1, i);
    }
  }

  /** Inserting without growth leaves every other key's lookup unchanged. */
  lemma InsertKeepsOtherKeys(table: ObjectTable, key: seq<Byte>, value: JsonValue, offset: nat, capacity: nat, other: seq<Byte>)
    requires table.Valid() && offset <= capacity && other != key
    requires !NeedsGrowth(table) && InsertSpec(table, key, value, offset, capacity).Ok?
    ensures Lookup(InsertSpec(table, key, value, offset, capacity).value.0, other) == Lookup(table, other)
  {
    BelowThresholdLeavesRoom(table.count, |table.slots|);
    var probe := ProbeFrom(table.slots, key, ProbeStart(key, |table.slots|), 0);
    ScanIgnoresOtherKey(table.slots, other, key, value, ProbeStart(other, |table.slots|), 0, probe.index);
  }

  /** Growth keeps every key findable, though not at its new hash slot. */
  lemma GrowKeepsKeys(table: ObjectTable, key: seq<Byte>)
    requires table.Valid()
    ensures Lookup(Grow(table), key).Some? <==> Lookup(table, key).Some?
  {
    GrowKeepsValid(table);
    LookupIff(table, key);
    LookupIff(Grow(table), key);
    var n := |table.slots|;
    if Lookup(Grow(table), key).Some? {
      var j :| 0 <= j < |Grow(table).slots| && Grow(table).slots[j].Entry? && Grow(table).slots[j].key == key;
      assert j < n;
      assert table.slots[j] == Grow(table).slots[j];
    }
    if Lookup(table, key).Some? {
      var j :| 0 <= j < n && table.slots[j].Entry? && table.slots[j].key == key;
      assert Grow(table).slots[j] == table.slots[j];
    }
  }

  /** No two occupied slots hold equal keys. */
  predicate UniqueKeys(slots: seq<Slot>)
  {
    forall i, j ::
      (0 <= i < |slots| && 0 <= j < |slots| && slots[i].Entry? && slots[j].Entry? &&
       slots[i].key == slots[j].key) ==> i == j
  }

  /** With unique keys, the lookup of a stored key yields the value stored
      beside it. */
  lemma UniqueLookup(table: ObjectTable, j: nat)
    requires |table.slots| > 0 && UniqueKeys(table.slots)
    requires j < |table.slots| && table.slots[j].Entry?
    ensures Lookup(table, table.slots[j].key) == Some(table.slots[j].value)
  {
    var key := table.slots[j].key;
    LookupIff(table, key);
    var i :| 0 <= i < |table.slots| && table.slots[i] == Entry(key, Lookup(table, key).value);
    assert i == j;
  }

  /** With unique keys, growth without rehashing changes no lookup. */
  lemma GrowKeepsLookups(table: ObjectTable, key: seq<Byte>)
    requires table.Valid() && UniqueKeys(table.slots)
    ensures UniqueKeys(Grow(table).slots)
    ensures Lookup(Grow(table), key) == Lookup(table, key)
  {
    GrowKeepsValid(table);
    var n := |table.slots|;
    var grown := Grow(table).slots;
    assert forall i :: n <= i < |grown| ==> grown[i].Empty?;
    assert forall i :: 0 <= i < n ==> grown[i] == table.slots[i];
    GrowKeepsKeys(table, key);
    if Lookup(table, key).Some? {
      LookupIff(table, key);
      var j :| 0 <= j < n && table.slots[j] == Entry(key, Lookup(table, key).value);
      UniqueLookup(Grow(table), j);
    }
  }

  /** Filling a free slot with a key no slot holds keeps the keys unique. */
  lemma FillKeepsUnique(slots: seq<Slot>, i: nat, key: seq<Byte>, value: JsonValue)
    requires UniqueKeys(slots) && i < |slots| && slots[i].Empty?
    requires forall j :: 0 <= j < |slots| && slots[j].Entry? ==> slots[j].key != key
    ensures UniqueKeys(slots[i := Entry(key, value)])
  {
  }

  /** Inserting a key the table does not hold, into a table with unique
      keys: it can only run out of arena (never below the growth
      threshold), and afterwards the keys are still unique, the key finds
      its value and every other key's lookup is what it was. */
  lemma InsertFreshKey(table: ObjectTable, key: seq<Byte>, value: JsonValue, offset: nat, capacity: nat)
    requires table.Valid() && offset <= capacity && UniqueKeys(table.slots)
    requires Lookup(table, key) == None
    ensures var r := InsertSpec(table, key, value, offset, capacity);
      (r.Ok? || r == Abort(OutOfMemory)) && (!NeedsGrowth(table) ==> r.Ok?)
    ensures var r := InsertSpec(table, key, value, offset, capacity);
      r.Ok? ==> (UniqueKeys(r.value.0.slots) && Lookup(r.value.0, key) == Some(value) &&
        forall other :: other != key ==> Lookup(r.value.0, other) == Lookup(table, other))
  {
    var r := InsertSpec(table, key, value, offset, capacity);
    if !NeedsGrowth(table) {
      BelowThresholdLeavesRoom(table.count, |table.slots|);
    } else {
      GrowKeepsValid(table);
      GrowKeepsLookups(table, key);
    }
    var base := if NeedsGrowth(table) then Grow(table) else table;
    assert base.Valid() && UniqueKeys(base.slots) && Lookup(base, key) == None;
    LookupIff(base, key);
    var start := ProbeStart(key, |base.slots|);
    var probe := ProbeFrom(base.slots, key, start, 0);
    ProbeOfValidTableStops(base, key);
    assert probe.Vacant?;
    if r.Ok? {
      var placed := base.slots[probe.index := Entry(key, value)];
      assert r.value.0.slots == placed;
      FillKeepsUnique(base.slots, probe.index, key, value);
      InsertedKeyIsFound(table, key, value, offset, capacity);
      forall other | other != key
        ensures Lookup(r.value.0, other) == Lookup(table, other)
      {
        ScanIgnoresOtherKey(base.slots, other, key, value, ProbeStart(other, |base.slots|), 0, probe.index);
        if NeedsGrowth(table) {
          GrowKeepsLookups(table, other);
        }
      }
    }
  }

  /** Up to 24 entries in a table of at least 37 slots stay below the 65
      percent threshold: the 25th insertion does not grow the table. */
  lemma NoGrowthBelow(table: ObjectTable)
    requires |table.slots| >= DEFAULT_OBJECT_CAPACITY && table.count <= 24
    ensures !NeedsGrowth(table)
  {
    var n := |table.slots|;
    var q := 100 * table.count / n;
    assert 100 * table.count == q * n + 100 * table.count % n;
    if q >= 65 {
      MulMonotone(65, q, n);
    }
  }

  /** The duplicate check only looks along the probe walk up to the first
      free slot: when the key's hash slot is free, a second copy of a key
      already held elsewhere (as growth without rehashing leaves it) is
      stored without an abort. */
  lemma DuplicateMissedWhenHashSlotFree(table: ObjectTable, key: seq<Byte>, value: JsonValue, j: nat)
    requires table.Valid()
    requires j < |table.slots| && table.slots[j].Entry? && table.slots[j].key == key
    requires table.slots[ProbeStart(key, |table.slots|)].Empty?
    ensures Place(table, key, value).Ok?
    ensures var placed := Place(table, key, value).value.slots;
      placed[j].key == key && placed[ProbeStart(key, |table.slots|)] == Entry(key, value)
  {
    ModUnique(ProbeStart(key, |table.slots|), |table.slots|, 0, ProbeStart(key, |table.slots|));
  }

  /** The slot visited at step `m` of the lap that starts at `start`. */
  function WalkSlot(slots: seq<Slot>, start: nat, m: nat): Slot
    requires |slots| > 0
  {
    slots[(start + m) % |slots|]
  }

  lemma {:induction false} ProbeMeetsDuplicate(slots: seq<Slot>, key: seq<Byte>, start: nat, k: nat, hit: nat)
    requires start < |slots| && k <= hit < |slots|
    requires var j := (start + hit) % |slots|; slots[j].Entry? && slots[j].key == key
    requires forall m :: k <= m < hit ==> WalkSlot(slots, start, m).Entry?
    ensures ProbeFrom(slots, key, start, k).Duplicate?
    decreases hit - k
  {
    if k < hit {
      assert WalkSlot(slots, start, k).Entry?;
      var i := (start + k) % |slots|;
      if slots[i].key != key {
        ProbeMeetsDuplicate(slots, key, start, k + 1, hit);
      }
    }
  }

  /** A key that sits on the probe walk before any free slot is caught:
      the insertion aborts. */
  lemma DuplicateOnWalkAborts(table: ObjectTable, key: seq<Byte>, value: JsonValue, hit: nat)
    requires table.Valid() && hit < |table.slots|
    requires var start := ProbeStart(key, |table.slots|);
      var j := (start + hit) % |table.slots|;
      table.slots[j].Entry? && table.slots[j].key == key &&
      forall m :: 0 <= m < hit ==> WalkSlot(table.slots, start, m).Entry?
    ensures Place(table, key, value) == Abort(DuplicateKey)
  {
    ProbeMeetsDuplicate(table.slots, key, ProbeStart(key, |table.slots|), 0, hit);
  }

  /** JsonObjectGet: the do/while walk with a wrapping index, from the
      hash slot round to it again. */
  method ObjectGet(table: ObjectTable, searchKey: seq<Byte>) returns (r: Option<JsonValue>)
    requires |table.slots| > 0
    ensures r == Lookup(table, searchKey)
  {
    var capacity := |table.slots|;
    var hash := HashFnv1(searchKey);
    var startIndex := (hash as int) % capacity;
    assert startIndex == ProbeStart(searchKey, capacity);
    r := ScanSlots(table.slots, searchKey, startIndex);
  }

  /** The do/while walk of JsonObjectGet over the slots from `startIndex`. */
  method ScanSlots(slots: seq<Slot>, searchKey: seq<Byte>, startIndex: nat) returns (r: Option<JsonValue>)
    requires startIndex < |slots|
    ensures r == ScanFrom(slots, searchKey, startIndex, 0)
  {
    var capacity := |slots|;
    var currentIndex := startIndex;
    ghost var k := 0;
    ModUnique(startIndex, capacity, 0, startIndex);
    while true
      invariant k < capacity && currentIndex == (startIndex + k) % capacity
      invariant ScanFrom(slots, searchKey, startIndex, k) == ScanFrom(slots, searchKey, startIndex, 0)
      decreases capacity - k
    {
      var slot := slots[currentIndex];
      if slot.Entry? {
        var equal := StringViewEqual(slot.key, searchKey);
        if equal {
          return Some(slot.value);
        }
      }
      CircularStep(startIndex, k, capacity);
      currentIndex := currentIndex + 1;
      if currentIndex >= capacity {
        currentIndex := 0;
      }
      if currentIndex == startIndex {
        return None;
      }
      k := k + 1;
    }
  }

  /** JsonObjectGet_string_view: also fails when the stored value is not a
      string. */
  method ObjectGetString(table: ObjectTable, key: seq<Byte>) returns (r: Option<seq<Byte>>)
    requires |table.slots| > 0
    ensures r.Some? <==> Lookup(table, key).Some? && Lookup(table, key).value.JsonString?
    ensures r.Some? ==> Lookup(table, key) == Some(JsonString(r.value))
  {
    var value := ObjectGet(table, key);
    if value.None? || !value.value.JsonString? {
      return None;
    }
    r := Some(value.value.text);
  }
}
