/** Bytes, borrowed views, process aborts, word alignment and byte-wise
    view equality: the vocabulary shared by the allocator, the JSON engine
    and the HTTP engine (backend/common.h). */
module Common {

  /** An unsigned 8-bit value (`u8`). */
  type Byte = b: int | 0 <= b < 256

  /** The bytes of an ASCII string literal. */
  function Ascii(s: string): (r: seq<Byte>)
    requires forall i :: 0 <= i < |s| ==> s[i] as int < 256
    ensures |r| == |s|
    ensures forall i :: 0 <= i < |s| ==> r[i] == s[i] as int
  {
    seq(|s|, i requires 0 <= i < |s| => s[i] as int)
  }

  /** A borrowed `(Items, Count)` pair, as an offset into the byte
      sequence it points into. */
  datatype View = View(start: nat, count: nat)
  {
    /** The view lies inside a buffer of `size` bytes. */
    predicate Within(size: nat) {
      start + count <= size
    }
  }

  /** The bytes a view denotes. */
  function Slice(bytes: seq<Byte>, v: View): seq<Byte>
    requires v.Within(|bytes|)
  {
    bytes[v.start..v.start + v.count]
  }

  /** Why the process terminates: `PANIC`, `ASSERT`, `TODO` and
      `UNREACHABLE` all end in `abort()`. */
  datatype Fault =
    | OutOfMemory       // ArenaPush: not enough room left
    | AssertionFailed   // ASSERT(X) with X false
    | NotImplemented    // TODO()
    | Unreachable       // UNREACHABLE()
    | BadNumber         // ParseF64 met a byte that is not a digit
    | DuplicateKey      // a JSON object received the same key twice
    | TooManyHandlers   // HttpServerAttachHandler past the table size

  datatype Option<T> = None | Some(value: T)

  /** Either a value, or the process aborted. */
  datatype Outcome<T> = Ok(value: T) | Abort(fault: Fault)

  // Byte values the engines look for.
  const NUL: Byte := 0x00
  const TAB: Byte := 0x09
  const LF: Byte := 0x0A
  const CR: Byte := 0x0D
  const SPACE: Byte := 0x20
  const QUOTE: Byte := 0x22
  const COMMA: Byte := 0x2C
  const MINUS: Byte := 0x2D
  const DIGIT_ZERO: Byte := 0x30
  const DIGIT_NINE: Byte := 0x39
  const COLON: Byte := 0x3A
  const LBRACKET: Byte := 0x5B
  const RBRACKET: Byte := 0x5D
  const LBRACE: Byte := 0x7B
  const RBRACE: Byte := 0x7D

  // Sizes of the C structures on an LP64 target; they decide how far
  // each allocation moves an arena's Offset.
  const SIZE_OF_UZ: nat := 8          // sizeof(uz), the alignment of every push
  const SIZE_OF_VIEW: nat := 16       // sizeof(string_view)
  const SIZE_OF_JSON_VALUE: nat := 40 // sizeof(json_value): tag, padding, 32-byte union
  const SIZE_OF_HTTP_HEADER: nat := 32 // sizeof(http_header): two views

  predicate IsPowerOfTwo(n: nat)
  {
    if n <= 1 then n == 1 else n % 2 == 0 && IsPowerOfTwo(n / 2)
  }

  /** `Size + ((Alignment - (Size & (Alignment - 1))) & (Alignment - 1))`:
      for a power-of-two alignment, masking with `Alignment - 1` keeps the
      remainder modulo `Alignment`. */
  function AlignForward(size: nat, alignment: nat): nat
    requires IsPowerOfTwo(alignment)
  {
    size + (alignment - size % alignment) % alignment
  }

  /** Every push is rounded to a multiple of `sizeof(uz)`. */
  function AlignWord(size: nat): nat
  {
    assert IsPowerOfTwo(SIZE_OF_UZ) by {
      assert IsPowerOfTwo(1) && IsPowerOfTwo(2) && IsPowerOfTwo(4);
    }
    AlignForward(size, SIZE_OF_UZ)
  }

  lemma {:induction false} PowerOfTwoPositive(n: nat)
    requires IsPowerOfTwo(n)
    ensures n >= 1
  {
    if n > 1 {
      PowerOfTwoPositive(n / 2);
    }
  }
  /** Division by a positive divisor has one quotient and one remainder. */
  lemma ModUnique(x: int, a: int, k: int, r: int)
    requires a > 0 && x == k * a + r && 0 <= r < a
    ensures x % a == r && x / a == k
  {
    var q, m := x / a, x % a;
    assert x == q * a + m;
    if q > k {
      MulMonotone(k + 1, q, a);
    } else if q < k {
      MulMonotone(q + 1, k, a);
    }
  }
  lemma MulMonotone(k: int, q: int, a: int)
    requires a > 0 && k <= q
    ensures k * a <= q * a
  {
  }
  /** The value of AlignForward: the size itself when it is a multiple, otherwise the next multiple. */
  lemma AlignForwardValue(size: nat, alignment: nat)
    requires IsPowerOfTwo(alignment)
    ensures alignment > 0
    ensures size % alignment == 0 ==> AlignForward(size, alignment) == size
    ensures size % alignment != 0 ==> AlignForward(size, alignment) == (size / alignment + 1) * alignment
  {
    PowerOfTwoPositive(alignment);
    var r := size % alignment;
    var q := size / alignment;
    assert size == q * alignment + r;
    if r == 0 {
      ModUnique(alignment, alignment, 1, 0);
    } else {
      ModUnique(alignment - r, alignment, 0, alignment - r);
    }
  }
  /** AlignForward yields the least multiple of the alignment that is not
      below the size. */
  lemma AlignForwardIsLeastMultiple(size: nat, alignment: nat)
    requires IsPowerOfTwo(alignment)
    ensures alignment > 0
    ensures AlignForward(size, alignment) % alignment == 0
    ensures size <= AlignForward(size, alignment) < size + alignment
    ensures forall m: nat :: m >= size && m % alignment == 0 ==> AlignForward(size, alignment) <= m
  {
    AlignForwardValue(size, alignment);
    var a := alignment;
    var q := size / a;
    var result := AlignForward(size, a);
    if size % a != 0 {
      ModUnique(result, a, q + 1, 0);
      forall m: nat | m >= size && m % a == 0
        ensures result <= m
      {
        NextMultipleIsLeast(size, a, q, m);
      }
    }
  }

  /** A multiple of `a` that is at least `size` is at least the multiple
      after `size`'s quotient, when `size` is not itself a multiple. */
  lemma NextMultipleIsLeast(size: nat, a: nat, q: nat, m: nat)
    requires a > 0 && q == size / a && size % a != 0
    requires m >= size && m % a == 0
    ensures (q + 1) * a <= m
  {
    var k := m / a;
    assert m == k * a;
    assert size == q * a + size % a;
    if k <= q {
      MulMonotone(k, q, a);
    }
  }

  /** Aligning twice is aligning once. */
  lemma AlignForwardIdempotent(size: nat, alignment: nat)
    requires IsPowerOfTwo(alignment)
    ensures AlignForward(AlignForward(size, alignment), alignment) == AlignForward(size, alignment)
  {
    AlignForwardIsLeastMultiple(size, alignment);
    AlignForwardValue(AlignForward(size, alignment), alignment);
  }

  lemma AlignWordIsLeastMultiple(size: nat)
    ensures AlignWord(size) % 8 == 0
    ensures size <= AlignWord(size) < size + 8
    ensures forall m: nat :: m >= size && m % 8 == 0 ==> AlignWord(size) <= m
  {
    assert IsPowerOfTwo(1) && IsPowerOfTwo(2) && IsPowerOfTwo(4) && IsPowerOfTwo(8);
    AlignForwardIsLeastMultiple(size, 8);
  }

  /** An arena whose capacity is a multiple of 8 has room for its Offset
      rounded up to the word size, which JsonEnd and the request loop rely on. */
  lemma AlignedOffsetFits(offset: nat, capacity: nat)
    requires capacity % 8 == 0 && offset <= capacity
    ensures AlignWord(offset) <= capacity
  {
    AlignWordIsLeastMultiple(offset);
  }

  /** The first index at or after `from` that holds `b`, or the end of the
      buffer: the shape of every `for (...) if (Items[I] == b) break;` scan. */
  function IndexOf(bytes: seq<Byte>, from: nat, b: Byte): (i: nat)
    ensures from <= i && (i <= |bytes| || i == from)
    ensures i < |bytes| ==> bytes[i] == b
    ensures forall j :: from <= j < i && j < |bytes| ==> bytes[j] != b
    decreases |bytes| - from
  {
    if from < |bytes| && bytes[from] != b then IndexOf(bytes, from + 1, b) else from
  }

  /** The scan loop behind IndexOf: it stops at the first `b` or at the end. */
  method ScanFor(bytes: seq<Byte>, from: nat, b: Byte) returns (i: nat)
    ensures i == IndexOf(bytes, from, b)
  {
    i := from;
    while i < |bytes| && bytes[i] != b
      invariant from <= i
      invariant IndexOf(bytes, i, b) == IndexOf(bytes, from, b)
      decreases |bytes| - i
    {
      i := i + 1;
    }
  }

  /** The length of a NUL-terminated C string: the index of its first NUL
      (`strlen`). */
  function CStrLength(cstr: seq<Byte>): (n: nat)
    requires NUL in cstr
    ensures n < |cstr| && cstr[n] == NUL
    ensures forall i :: 0 <= i < n ==> cstr[i] != NUL
  {
    if cstr[0] == NUL then 0 else 1 + CStrLength(cstr[1..])
  }

  /** A C string literal: the ASCII bytes followed by their terminator. */
  function CStr(s: string): (r: seq<Byte>)
    requires forall i :: 0 <= i < |s| ==> 0 < s[i] as int < 256
    ensures NUL in r && CStrLength(r) == |s| && r[..|s|] == Ascii(s)
  {
    CStrLengthOf(Ascii(s));
    assert (Ascii(s) + [NUL])[..|s|] == Ascii(s);
    Ascii(s) + [NUL]
  }

  lemma CStrLengthOf(s: seq<Byte>)
    requires NUL !in s
    ensures CStrLength(s + [NUL]) == |s|
  {
    assert (s + [NUL])[|s|] == NUL;
  }

  /** StringViewEqual: equal counts and equal bytes. */
  method StringViewEqual(lhs: seq<Byte>, rhs: seq<Byte>) returns (equal: bool)
    ensures equal <==> |lhs| == |rhs| && forall i :: 0 <= i < |lhs| ==> lhs[i] == rhs[i]
    ensures equal <==> lhs == rhs
  {
    if |lhs| != |rhs| {
      return false;
    }
    for i := 0 to |lhs|
      invariant forall j :: 0 <= j < i ==> lhs[j] == rhs[j]
    {
      if lhs[i] != rhs[i] {
        return false;
      }
    }
    return true;
  }

  /** StringViewEqualCStr: the same test against a C string up to its NUL. */
  method StringViewEqualCStr(sv: seq<Byte>, cstr: seq<Byte>) returns (equal: bool)
    requires NUL in cstr
    ensures equal <==> |sv| == CStrLength(cstr) && forall i :: 0 <= i < |sv| ==> sv[i] == cstr[i]
    ensures equal <==> sv == cstr[..CStrLength(cstr)]
  {
    var length := CStrLength(cstr);
    if |sv| != length {
      return false;
    }
    for i := 0 to |sv|
      invariant forall j :: 0 <= j < i ==> sv[j] == cstr[j]
    {
      if sv[i] != cstr[i] {
        return false;
      }
    }
    assert sv == cstr[..length];
    return true;
  }

  /** StringViewEqualCStr against a string literal, which C stores with
      its NUL. */
  method StringViewEqualLiteral(sv: seq<Byte>, literal: string) returns (equal: bool)
    requires forall i :: 0 <= i < |literal| ==> 0 < literal[i] as int < 256
    ensures equal <==> sv == Ascii(literal)
  {
    var cstr := CStr(literal);
    equal := StringViewEqualCStr(sv, cstr);
  }
}
