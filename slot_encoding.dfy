/** The sign encoding of one accessor slot. A user accessor property always
    owns two storage slots in its script object, one for the getter and one
    for the setter. A raw slot value `s >= 0` means a function is installed
    at storage index `s`. A raw slot value `s < 0` means the function is
    null, while storage index `-s - 1` stays reserved for it, so redefining
    the property later needs no new slot. */
module SlotEncoding {
  import opened JavaInt

  /** The storage index a raw slot denotes, computed as Java does:
      `slot < 0 ? -slot - 1 : slot`. */
  function StorageIndex(slot: int32): (k: int32)
    ensures k >= 0
    ensures slot >= 0 ==> k == slot
    ensures slot < 0 ==> k as int == -(slot as int) - 1
  {
    if slot < 0 then Sub(Neg(slot), 1) else slot
  }

  /** Whether a raw slot holds a live function (Java: `slot > -1`). */
  predicate IsPresent(slot: int32) {
    slot > -1
  }

  /** The raw slot that reserves storage index `k` with a function present
      or absent: the convention the owner of the property map follows when
      it allocates the two slots. */
  function Encode(k: int32, present: bool): (slot: int32)
    requires k >= 0
    ensures present ==> slot >= 0
    ensures !present ==> slot < 0
  {
    if present then k else Sub(Neg(k), 1)
  }

  /** Decoding undoes encoding: the storage index and the presence flag
      come back unchanged. */
  lemma DecodeEncode(k: int32, present: bool)
    requires k >= 0
    ensures StorageIndex(Encode(k, present)) == k
    ensures IsPresent(Encode(k, present)) == present
  {
  }

  /** Encoding undoes decoding: every Java `int` is the encoding of exactly
      one (storage index, presence) pair, so the encoding is a bijection
      between `int` and the pairs with index in 0..Integer.MAX_VALUE. */
  lemma EncodeDecode(slot: int32)
    ensures Encode(StorageIndex(slot), IsPresent(slot)) == slot
  {
  }

  /** Two raw slots are equal exactly when they denote the same storage
      index with the same presence. */
  lemma SameSlotIff(s: int32, t: int32)
    ensures s == t <==> (StorageIndex(s) == StorageIndex(t) && IsPresent(s) == IsPresent(t))
  {
    if StorageIndex(s) == StorageIndex(t) && IsPresent(s) == IsPresent(t) {
      EncodeDecode(s);
      EncodeDecode(t);
    }
  }

  /** The raw slot with the opposite presence and the same reservation. */
  function Flip(slot: int32): (f: int32)
    ensures StorageIndex(f) == StorageIndex(slot)
    ensures IsPresent(f) == !IsPresent(slot)
  {
    Encode(StorageIndex(slot), !IsPresent(slot))
  }

  /** Flipping the presence of a slot is the bitwise complement of its
      32-bit pattern, and flipping twice gives the slot back. */
  lemma FlipIsComplement(slot: int32)
    ensures Unsigned(Flip(slot)) == Complement32(Unsigned(slot))
    ensures Flip(Flip(slot)) == slot
  {
    MinusOneMinusIsComplement(slot, Flip(slot));
  }
}
