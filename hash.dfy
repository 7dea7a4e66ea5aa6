/** The 64-bit Fowler–Noll–Vo hash of backend/common.c, in its FNV-1 form:
    multiply by the prime, then XOR the byte. */
module Fnv {
  import opened Common

  const FNV_OFFSET_BASIS: bv64 := 0xCBF29CE484222325
  const FNV_PRIME: bv64 := 0x100000001B3

  /** The hash of a byte string, folded from the first byte to the last;
      `bv64` multiplication wraps modulo 2^64 as `u64` does. */
  function Fnv1(bytes: seq<Byte>): bv64
  {
    if |bytes| == 0 then FNV_OFFSET_BASIS
    else Fnv1Round(Fnv1(bytes[..|bytes| - 1]), bytes[|bytes| - 1])
  }

  /** One round: multiply the hash so far by the prime, then XOR in the byte
      (multiplying first is what makes this FNV-1 and not FNV-1a). */
  function Fnv1Round(hash: bv64, b: Byte): bv64
  {
    (hash * FNV_PRIME) ^ (b as bv64)
  }

  /** Appending a byte to the input is one more round on its hash. */
  lemma Fnv1Step(bytes: seq<Byte>, b: Byte)
    ensures Fnv1(bytes + [b]) == Fnv1Round(Fnv1(bytes), b)
  {
    assert (bytes + [b])[..|bytes|] == bytes;
  }

  /** The empty view hashes to the offset basis, and the one-byte string "a"
      gives the published FNV-1 value, not the FNV-1a value 0xAF63DC4C8601EC8C. */
  lemma Fnv1KnownValues()
    ensures Fnv1([]) == 0xCBF29CE484222325
    ensures Fnv1([0x61]) == 0xAF63BD4C8601B7BE
    ensures Fnv1([0x61]) != 0xAF63DC4C8601EC8C
  {
    var empty: seq<Byte> := [];
    Fnv1Step(empty, 0x61);
    assert empty + [0x61] == [0x61];
    assert Fnv1Round(FNV_OFFSET_BASIS, 0x61) == 0xAF63BD4C8601B7BE by {
      assert FNV_OFFSET_BASIS * FNV_PRIME == 0xAF63BD4C8601B7DF;
    }
  }

  /** The slot where probing for a key starts in a table of `capacity` slots:
      `HashFnv1(Key) % Capacity`. */
  function ProbeStart(key: seq<Byte>, capacity: nat): nat
    requires capacity > 0
  {
    (Fnv1(key) as int) % capacity
  }

  /** The hash reads only the bytes: byte-wise equal views hash alike and
      start probing at the same slot. Since views are modelled by their
      bytes, the first half holds by construction; what the lemma adds is
      that the start slot lies inside the table. */
  lemma EqualViewsProbeAlike(lhs: seq<Byte>, rhs: seq<Byte>, capacity: nat)
    requires capacity > 0
    requires |lhs| == |rhs| && forall i :: 0 <= i < |lhs| ==> lhs[i] == rhs[i]
    ensures Fnv1(lhs) == Fnv1(rhs)
    ensures ProbeStart(lhs, capacity) == ProbeStart(rhs, capacity) < capacity
  {
    assert lhs == rhs;
  }

  /** HashFnv1: the loop over the view with a local accumulator. */
  method HashFnv1(input: seq<Byte>) returns (hash: bv64)
    ensures hash == Fnv1(input)
  {
    hash := FNV_OFFSET_BASIS;
    for i := 0 to |input|
      invariant hash == Fnv1(input[..i])
    {
      var b := input[i];
      hash := Fnv1Round(hash, b);
      Fnv1Step(input[..i], b);
      assert input[..i] + [b] == input[..i + 1];
    }
    assert input[..|input|] == input;
  }
}
