/** A property whose value is computed by user-defined getter and setter
    functions. The functions themselves live in the owning script object;
    the property holds only their two raw slots, in the sign encoding of
    module SlotEncoding. The descriptor is immutable: both slots are fixed
    at construction, and redefinition builds a new descriptor. */
module AccessorProperty {
  import opened JavaInt
  import opened SlotEncoding

  /** The fields of the generic property base class that this descriptor
      passes through without interpreting them. */
  datatype PropertyBase = PropertyBase(key: string, flags: int32)

  datatype UserAccessorProperty = UserAccessorProperty(
    base: PropertyBase,
    getterSlot: int32,
    setterSlot: int32)

  /** A Java reference that may be null. */
  datatype Option<T> = None | Some(value: T)

  /** The two accessor functions a descriptor reserves storage for. */
  datatype Accessor = Getter | Setter

  /** Where a storage index lives in a script object: one of the embedded
      fields, or an index into the spill array. */
  datatype Location = Embed(field: nat) | Spill(index: nat)

  /** The invocation handles this property hands out: the script object's
      generic getter trampoline, adapted to a return type, and its generic
      setter trampoline. */
  datatype MethodHandle<T> = UserAccessorGetter(returnType: T) | UserAccessorSetter

  function RawSlot(p: UserAccessorProperty, a: Accessor): int32 {
    match a
    case Getter => p.getterSlot
    case Setter => p.setterSlot
  }

  /** The public constructor: key and flags go to the base property, the
      raw slots are stored as given (the caller has already encoded them). */
  function Create(key: string, flags: int32, getterSlot: int32, setterSlot: int32): (p: UserAccessorProperty)
    ensures p.base == PropertyBase(key, flags)
    ensures RawSlot(p, Getter) == getterSlot && RawSlot(p, Setter) == setterSlot
  {
    UserAccessorProperty(PropertyBase(key, flags), getterSlot, setterSlot)
  }

  /** A descriptor built from encoded slots decodes back to the storage
      indices and presence flags it was built from. */
  lemma CreateDecodes(key: string, flags: int32, k: int32, getterPresent: bool, j: int32, setterPresent: bool)
    requires k >= 0 && j >= 0
    ensures var p := Create(key, flags, Encode(k, getterPresent), Encode(j, setterPresent));
      && GetGetterSlot(p) == k && HasGetterFunction(p) == getterPresent
      && GetSetterSlot(p) == j && HasSetterFunction(p) == setterPresent
  {
    DecodeEncode(k, getterPresent);
    DecodeEncode(j, setterPresent);
  }

  /** `copy()`, through the private copy constructor: the base fields and
      both raw slots carry over, so the copy equals its source. */
  function Copy(p: UserAccessorProperty): (c: UserAccessorProperty)
    ensures c.base == p.base
    ensures c.getterSlot == p.getterSlot && c.setterSlot == p.setterSlot
    ensures Equals(c, p) && Equals(p, c)
  {
    UserAccessorProperty(p.base, p.getterSlot, p.setterSlot)
  }

  /** `getGetterSlot()`: the embed/spill index reserved for the getter. */
  function GetGetterSlot(p: UserAccessorProperty): (k: int32)
    ensures k >= 0
    ensures p.getterSlot >= 0 ==> k == p.getterSlot
    ensures p.getterSlot < 0 ==> k as int == -(p.getterSlot as int) - 1
  {
    StorageIndex(p.getterSlot)
  }

  /** `getSetterSlot()`: the embed/spill index reserved for the setter. */
  function GetSetterSlot(p: UserAccessorProperty): (k: int32)
    ensures k >= 0
    ensures p.setterSlot >= 0 ==> k == p.setterSlot
    ensures p.setterSlot < 0 ==> k as int == -(p.setterSlot as int) - 1
  {
    StorageIndex(p.setterSlot)
  }

  /** `hasGetterFunction()`: a getter is installed exactly when its raw slot is
      itself the reserved storage index. */
  predicate HasGetterFunction(p: UserAccessorProperty)
    ensures HasGetterFunction(p) <==> p.getterSlot == GetGetterSlot(p)
  {
    IsPresent(p.getterSlot)
  }

  /** `hasSetterFunction()`: a setter is installed exactly when its raw slot is
      itself the reserved storage index. */
  predicate HasSetterFunction(p: UserAccessorProperty)
    ensures HasSetterFunction(p) <==> p.setterSlot == GetSetterSlot(p)
  {
    IsPresent(p.setterSlot)
  }

  /** The layout of a script object's storage: a slot value below the embed
      size names an embedded field, and a slot value `index + embedSize`
      names spill array entry `index`. */
  function Locate(k: int32, embedSize: nat): (loc: Location)
    requires k >= 0
    ensures loc.Embed? <==> k as int < embedSize
    ensures loc.Embed? ==> loc.field == k as int
    ensures loc.Spill? ==> loc.index + embedSize == k as int
  {
    if (k as int) < embedSize then Embed(k as int) else Spill(k as int - embedSize)
  }

  /** The accessors of `p` whose reserved storage lies in the spill array. */
  function SpilledAccessors(p: UserAccessorProperty, embedSize: nat): set<Accessor> {
    set a: Accessor | a in {Getter, Setter} && Locate(StorageIndex(RawSlot(p, a)), embedSize).Spill?
  }

  function Indicator(b: bool): nat {
    if b then 1 else 0
  }

  /** `getSpillCount()`: how many of the two reserved storage indices lie at
      or past the embed size. */
  function SpillCount(p: UserAccessorProperty, embedSize: nat): (n: nat)
    ensures n <= 2
    ensures n == 0 <==> (GetGetterSlot(p) as int) < embedSize && (GetSetterSlot(p) as int) < embedSize
    ensures n == 2 <==> (GetGetterSlot(p) as int) >= embedSize && (GetSetterSlot(p) as int) >= embedSize
  {
    Indicator(GetGetterSlot(p) as int >= embedSize) + Indicator(GetSetterSlot(p) as int >= embedSize)
  }

  /** The spill count is the number of accessors whose reserved storage is
      in the spill array. */
  lemma SpillCountIsSpilledAccessors(p: UserAccessorProperty, embedSize: nat)
    ensures SpillCount(p, embedSize) == |SpilledAccessors(p, embedSize)|
  {
    var g := GetGetterSlot(p) as int >= embedSize;
    var s := GetSetterSlot(p) as int >= embedSize;
    var spilled := SpilledAccessors(p, embedSize);
    assert Getter in spilled <==> g;
    assert Setter in spilled <==> s;
    if g && s {
      assert spilled == {Getter, Setter};
    } else if g {
      assert spilled == {Getter};
    } else if s {
      assert spilled == {Setter};
    } else {
      assert spilled == {};
    }
  }

  /** The spill count depends only on the reserved storage indices, never on
      whether the functions are present. */
  lemma SpillCountIgnoresPresence(p: UserAccessorProperty, q: UserAccessorProperty, embedSize: nat)
    requires GetGetterSlot(p) == GetGetterSlot(q) && GetSetterSlot(p) == GetSetterSlot(q)
    ensures SpillCount(p, embedSize) == SpillCount(q, embedSize)
  {
  }

  /** `equals(Object)` against another user accessor property: equal base
      fields and identical raw slots, signs included. */
  predicate Equals(a: UserAccessorProperty, b: UserAccessorProperty)
    ensures Equals(a, b) <==> a == b
  {
    a.base == b.base && a.getterSlot == b.getterSlot && a.setterSlot == b.setterSlot
  }

  /** Equality through the decoded view: same base fields, and for each
      accessor the same storage index and the same presence. */
  lemma EqualsIffSameDecoding(a: UserAccessorProperty, b: UserAccessorProperty)
    ensures Equals(a, b) <==>
      && a.base == b.base
      && GetGetterSlot(a) == GetGetterSlot(b) && HasGetterFunction(a) == HasGetterFunction(b)
      && GetSetterSlot(a) == GetSetterSlot(b) && HasSetterFunction(a) == HasSetterFunction(b)
  {
    SameSlotIff(a.getterSlot, b.getterSlot);
    SameSlotIff(a.setterSlot, b.setterSlot);
  }

  /** Redefining a property with other getter and setter presence keeps
      both reservations, hence the spill count, and yields a descriptor
      equal to the old one only when neither presence changed. */
  lemma RedefinitionKeepsSlots(p: UserAccessorProperty, getterPresent: bool, setterPresent: bool, embedSize: nat)
    ensures var q := Create(p.base.key, p.base.flags,
                            Encode(GetGetterSlot(p), getterPresent),
                            Encode(GetSetterSlot(p), setterPresent));
      && GetGetterSlot(q) == GetGetterSlot(p) && HasGetterFunction(q) == getterPresent
      && GetSetterSlot(q) == GetSetterSlot(p) && HasSetterFunction(q) == setterPresent
      && SpillCount(q, embedSize) == SpillCount(p, embedSize)
      && (Equals(q, p) <==> getterPresent == HasGetterFunction(p) && setterPresent == HasSetterFunction(p))
  {
    var q := Create(p.base.key, p.base.flags,
                    Encode(GetGetterSlot(p), getterPresent),
                    Encode(GetSetterSlot(p), setterPresent));
    CreateDecodes(p.base.key, p.base.flags, GetGetterSlot(p), getterPresent, GetSetterSlot(p), setterPresent);
    SpillCountIgnoresPresence(q, p, embedSize);
    assert q.base == p.base;
    EqualsIffSameDecoding(q, p);
  }

  /** `hashCode()`: the base hash, exclusive-or the two raw slots. The base
      class's hash is a parameter. */
  function HashCode(p: UserAccessorProperty, baseHash: PropertyBase -> int32): (h: int32)
    ensures Unsigned(h) == XorBits32(XorBits32(Unsigned(baseHash(p.base)), Unsigned(p.getterSlot)), Unsigned(p.setterSlot))
  {
    Xor(Xor(baseHash(p.base), p.getterSlot), p.setterSlot)
  }

  /** Equal descriptors have equal hash codes. */
  lemma HashConsistentWithEquals(a: UserAccessorProperty, b: UserAccessorProperty, baseHash: PropertyBase -> int32)
    requires Equals(a, b)
    ensures HashCode(a, baseHash) == HashCode(b, baseHash)
  {
  }

  /** Turning the getter's presence around (same reservation) complements
      every bit of the hash code, so the hash code changes. */
  lemma FlipGetterComplementsHash(p: UserAccessorProperty, baseHash: PropertyBase -> int32)
    ensures var q := p.(getterSlot := Flip(p.getterSlot));
      && Unsigned(HashCode(q, baseHash)) == Complement32(Unsigned(HashCode(p, baseHash)))
      && HashCode(q, baseHash) != HashCode(p, baseHash)
  {
    var q := p.(getterSlot := Flip(p.getterSlot));
    var h := baseHash(p.base);
    FlipIsComplement(p.getterSlot);
    XorComplementRightInt(h, p.getterSlot, q.getterSlot);
    XorComplementLeft(Xor(h, p.getterSlot), p.setterSlot, Xor(h, q.getterSlot));
  }

  /** Turning the setter's presence around (same reservation) complements
      every bit of the hash code, so the hash code changes. */
  lemma FlipSetterComplementsHash(p: UserAccessorProperty, baseHash: PropertyBase -> int32)
    ensures var q := p.(setterSlot := Flip(p.setterSlot));
      && Unsigned(HashCode(q, baseHash)) == Complement32(Unsigned(HashCode(p, baseHash)))
      && HashCode(q, baseHash) != HashCode(p, baseHash)
  {
    var h := Xor(baseHash(p.base), p.getterSlot);
    FlipIsComplement(p.setterSlot);
    XorComplementRightInt(h, p.setterSlot, Flip(p.setterSlot));
  }

  /** Turning both presences around at once leaves the hash code unchanged:
      the hash is sensitive to the sign of each slot alone, not of both. */
  lemma FlipBothKeepsHash(p: UserAccessorProperty, baseHash: PropertyBase -> int32)
    ensures var q := p.(getterSlot := Flip(p.getterSlot), setterSlot := Flip(p.setterSlot));
      && !Equals(q, p)
      && HashCode(q, baseHash) == HashCode(p, baseHash)
  {
    var r := p.(getterSlot := Flip(p.getterSlot));
    var q := r.(setterSlot := Flip(r.setterSlot));
    FlipGetterComplementsHash(p, baseHash);
    FlipSetterComplementsHash(r, baseHash);
    var u := Unsigned(HashCode(q, baseHash));
    var v := Unsigned(HashCode(p, baseHash));
    assert u == v;
    WrapUnsigned(HashCode(q, baseHash));
    WrapUnsigned(HashCode(p, baseHash));
  }

  /** `value instanceof ScriptFunction ? (ScriptFunction) value : null`. */
  function AsScriptFunction<V>(value: V, isScriptFunction: V -> bool): (r: Option<V>)
    ensures r.Some? <==> isScriptFunction(value)
    ensures r.Some? ==> r.value == value
  {
    if isScriptFunction(value) then Some(value) else None
  }

  /** `getGetterFunction(obj)`: the object's storage is read at the RAW
      getter slot, and the value is returned when it is a script function. */
  function GetGetterFunction<V>(p: UserAccessorProperty, getEmbedOrSpill: int32 -> V, isScriptFunction: V -> bool): (r: Option<V>)
    ensures r.Some? <==> isScriptFunction(getEmbedOrSpill(p.getterSlot))
    ensures r.Some? ==> r.value == getEmbedOrSpill(p.getterSlot)
  {
    AsScriptFunction(getEmbedOrSpill(p.getterSlot), isScriptFunction)
  }

  /** `getSetterFunction(obj)`: the object's storage is read at the RAW
      setter slot, and the value is returned when it is a script function. */
  function GetSetterFunction<V>(p: UserAccessorProperty, getEmbedOrSpill: int32 -> V, isScriptFunction: V -> bool): (r: Option<V>)
    ensures r.Some? <==> isScriptFunction(getEmbedOrSpill(p.setterSlot))
    ensures r.Some? ==> r.value == getEmbedOrSpill(p.setterSlot)
  {
    AsScriptFunction(getEmbedOrSpill(p.setterSlot), isScriptFunction)
  }

  /** With a getter present the lookup reads the getter's reserved storage
      index; with none present it reads at a negative slot, which is never
      the reserved index. */
  lemma GetterLookupSlot<V>(p: UserAccessorProperty, getEmbedOrSpill: int32 -> V, isScriptFunction: V -> bool)
    ensures HasGetterFunction(p) ==>
      GetGetterFunction(p, getEmbedOrSpill, isScriptFunction)
        == AsScriptFunction(getEmbedOrSpill(GetGetterSlot(p)), isScriptFunction)
    ensures !HasGetterFunction(p) ==>
      && p.getterSlot < 0 && p.getterSlot != GetGetterSlot(p)
      && GetGetterFunction(p, getEmbedOrSpill, isScriptFunction)
           == AsScriptFunction(getEmbedOrSpill(Encode(GetGetterSlot(p), false)), isScriptFunction)
  {
  }

  /** The setter counterpart of GetterLookupSlot. */
  lemma SetterLookupSlot<V>(p: UserAccessorProperty, getEmbedOrSpill: int32 -> V, isScriptFunction: V -> bool)
    ensures HasSetterFunction(p) ==>
      GetSetterFunction(p, getEmbedOrSpill, isScriptFunction)
        == AsScriptFunction(getEmbedOrSpill(GetSetterSlot(p)), isScriptFunction)
    ensures !HasSetterFunction(p) ==>
      && p.setterSlot < 0 && p.setterSlot != GetSetterSlot(p)
      && GetSetterFunction(p, getEmbedOrSpill, isScriptFunction)
           == AsScriptFunction(getEmbedOrSpill(Encode(GetSetterSlot(p), false)), isScriptFunction)
  {
  }

  /** `getGetter(type)`: the script object's generic getter trampoline with
      its return type filtered to `type`. */
  function GetGetter<T>(p: UserAccessorProperty, returnType: T): (h: MethodHandle<T>)
    ensures h.UserAccessorGetter? && h.returnType == returnType
  {
    UserAccessorGetter(returnType)
  }

  /** `getSetter(type, currentMap)`: the script object's generic setter
      trampoline. */
  function GetSetter<T, M>(p: UserAccessorProperty, valueType: T, currentMap: M): (h: MethodHandle<T>)
    ensures h.UserAccessorSetter?
  {
    UserAccessorSetter
  }

  /** The handles are not bound to this property's slots: every user
      accessor property hands out the same two trampolines, which find the
      functions through the property at call time. */
  lemma AccessHandlesIgnoreSlots<T, M>(p: UserAccessorProperty, q: UserAccessorProperty, t: T, m: M)
    ensures GetGetter(p, t) == GetGetter(q, t)
    ensures GetSetter(p, t, m) == GetSetter(q, t, m)
    ensures GetGetter(p, t) != GetSetter(p, t, m)
    ensures GetGetter(p, t).returnType == t
  {
  }
}
