# User accessor property slots (Nashorn)

This project models the slot descriptor of Nashorn's `UserAccessorProperty`, in Dafny. That is the property kind for JavaScript properties defined by a user getter and setter. The functions themselves live in the owning `ScriptObject`, either in its embedded fields or in its spill array. The property holds only two raw `int` slots, one for the getter and one for the setter, in a sign encoding:

- a raw slot `s >= 0` means a function is installed at embed/spill index `s`;
- a raw slot `s < 0` means the function is null, and index `-s - 1` stays reserved for it, so redefining the property later needs no new slot.

The descriptor is immutable. It is modelled as a datatype with pure functions and lemmas, in three modules:

- `JavaInt` (`java_int.dfy`) covers Java's 32-bit `int`. It defines the range and the two's-complement wrap-around of `-x` and `x - y`. It also defines `^`, as a bitwise exclusive or over the 32-bit pattern.
- `SlotEncoding` (`slot_encoding.dfy`) covers one slot: decoding to a storage index, presence, encoding, and flipping presence.
- `AccessorProperty` (`accessor_property.dfy`) covers the descriptor: construction, copy, slot and presence queries, the spill count, equality, the hash code, function lookup and the access handles.

Collaborators are parameters:

- The embed size of a script object is a `nat`.
- The base `Property` fields are a plain record `PropertyBase(key, flags)`. The base class's `equals` is equality of that record, and its `hashCode` is a function parameter.
- `ScriptObject.getEmbedOrSpill` is a function parameter `int32 -> V`.
- The `instanceof ScriptFunction` test is a predicate parameter `V -> bool`.
- A Java `null` result is `None`.

Java's arithmetic is modelled explicitly. `-slot - 1` is computed with wrap-around. At `Integer.MIN_VALUE` both operations wrap: `-slot` gives `Integer.MIN_VALUE` again, and subtracting 1 then gives `Integer.MAX_VALUE`. The two wraps cancel, so the result equals the mathematical `-slot - 1` for every `int`, and no slot needs a precondition.

Three points about the code:

- `getGetterFunction` and `getSetterFunction` pass the raw slot to `getEmbedOrSpill`, not the decoded index. When no function is present, the lookup therefore happens at a negative slot and never at the reserved index. `GetterLookupSlot` and `SetterLookupSlot` state this.
- The access handles from `getGetter` and `getSetter` are not bound to the property's slots. They are the script object's two generic trampolines. `AccessHandlesIgnoreSlots` states this.
- The hash mixes in both raw slots, so flipping one slot's presence complements every bit of the hash. Flipping both presences at once leaves the hash unchanged (`FlipBothKeepsHash`). That is a legitimate hash collision, not a fault.

## Model

| member | source | states |
|---|---|---|
| `JavaInt.Wrap` | nashorn/src/jdk/nashorn/internal/runtime/UserAccessorProperty.java:80 | Java's narrowing: the result is the unique `int` congruent to the input modulo 2^32, and an input already in the `int` range is returned unchanged |
| `JavaInt.Xor` | nashorn/src/jdk/nashorn/internal/runtime/UserAccessorProperty.java:108 | Java's `^` on `int`: the 32-bit pattern of the result is the bitwise exclusive or of the operands' patterns |
| `JavaInt.XorComplementRight` | nashorn/src/jdk/nashorn/internal/runtime/UserAccessorProperty.java:108 | complementing one operand of a bitwise exclusive or complements its result (proved by induction on the bit count) |
| `JavaInt.XorBitsSymmetric` | nashorn/src/jdk/nashorn/internal/runtime/UserAccessorProperty.java:108 | bitwise exclusive or is symmetric (proved by induction on the bit count) |
| `JavaInt.MinusOneMinusIsComplement` | nashorn/src/jdk/nashorn/internal/runtime/UserAccessorProperty.java:39-44 | the absent encoding `-x - 1` is the bitwise complement of `x` |
| `SlotEncoding.StorageIndex` | nashorn/src/jdk/nashorn/internal/runtime/UserAccessorProperty.java:79-81 | the decoded index is never negative; it is the raw slot when that is non-negative, and `-slot - 1` otherwise, equal to the mathematical value for every `int` because the two wraps at `Integer.MIN_VALUE` cancel |
| `SlotEncoding.Encode` | nashorn/src/jdk/nashorn/internal/runtime/UserAccessorProperty.java:39-44 | encoding a reserved index as present gives a non-negative slot, and as absent a negative one |
| `SlotEncoding.DecodeEncode` | nashorn/src/jdk/nashorn/internal/runtime/UserAccessorProperty.java:40-44 | a slot built from index `k` decodes back to `k` with the presence it was built with, whether that is `k` or `-k - 1` |
| `SlotEncoding.EncodeDecode` | nashorn/src/jdk/nashorn/internal/runtime/UserAccessorProperty.java:36-44 | every `int` is the encoding of its own decoded index and presence, so the encoding is a bijection |
| `SlotEncoding.SameSlotIff` | nashorn/src/jdk/nashorn/internal/runtime/UserAccessorProperty.java:103 | two raw slots are equal exactly when their decoded indices and presences are both equal |
| `SlotEncoding.Flip` | nashorn/src/jdk/nashorn/internal/runtime/UserAccessorProperty.java:42-44 | flipping presence never moves the storage index |
| `SlotEncoding.FlipIsComplement` | nashorn/src/jdk/nashorn/internal/runtime/UserAccessorProperty.java:41 | flipping presence complements the 32-bit pattern, and flipping twice restores the slot |
| `AccessorProperty.Create` | nashorn/src/jdk/nashorn/internal/runtime/UserAccessorProperty.java:62-66 | key and flags go to the base fields, and both raw slots are stored exactly as given |
| `AccessorProperty.CreateDecodes` | nashorn/src/jdk/nashorn/internal/runtime/UserAccessorProperty.java:59-60 | a descriptor built from encoded slots reports the indices and presences it was built from |
| `AccessorProperty.Copy` | nashorn/src/jdk/nashorn/internal/runtime/UserAccessorProperty.java:68-94 | the copy has the same base fields and raw slots and is `equals` to its source, in both directions |
| `AccessorProperty.GetGetterSlot` | nashorn/src/jdk/nashorn/internal/runtime/UserAccessorProperty.java:79-81 | the getter index is non-negative; it is the raw slot when that is non-negative, and `-slot - 1` otherwise |
| `AccessorProperty.GetSetterSlot` | nashorn/src/jdk/nashorn/internal/runtime/UserAccessorProperty.java:87-89 | the setter index is non-negative; it is the raw slot when that is non-negative, and `-slot - 1` otherwise |
| `AccessorProperty.HasGetterFunction` | nashorn/src/jdk/nashorn/internal/runtime/UserAccessorProperty.java:127-130 | a getter is present exactly when its raw slot is itself the reserved index, that is, when the raw slot is non-negative |
| `AccessorProperty.HasSetterFunction` | nashorn/src/jdk/nashorn/internal/runtime/UserAccessorProperty.java:132-135 | a setter is present exactly when its raw slot is itself the reserved index, that is, when the raw slot is non-negative |
| `AccessorProperty.Locate` | nashorn/src/jdk/nashorn/internal/runtime/UserAccessorProperty.java:36-38 | an index below the embed size names that embedded field; otherwise it names spill entry `index - embedSize` |
| `AccessorProperty.SpillCount` | nashorn/src/jdk/nashorn/internal/runtime/UserAccessorProperty.java:114-125 | the count is at most 2; it is 0 exactly when both decoded indices are embedded, and 2 exactly when both are spilled |
| `AccessorProperty.SpillCountIsSpilledAccessors` | nashorn/src/jdk/nashorn/internal/runtime/UserAccessorProperty.java:116-124 | the count equals the number of accessors whose reserved storage lies in the spill array |
| `AccessorProperty.SpillCountIgnoresPresence` | nashorn/src/jdk/nashorn/internal/runtime/UserAccessorProperty.java:118-121 | the count depends only on the decoded indices, never on the signs |
| `AccessorProperty.Equals` | nashorn/src/jdk/nashorn/internal/runtime/UserAccessorProperty.java:96-104 | `equals` holds exactly when base fields and both raw slots are identical, signs included |
| `AccessorProperty.EqualsIffSameDecoding` | nashorn/src/jdk/nashorn/internal/runtime/UserAccessorProperty.java:98-103 | equality holds exactly when the base fields match and each accessor has the same index and the same presence, so a sign difference at the same index breaks equality |
| `AccessorProperty.RedefinitionKeepsSlots` | nashorn/src/jdk/nashorn/internal/runtime/UserAccessorProperty.java:40-44 | re-encoding either presence keeps both reserved indices and the spill count; the result equals the original only if no presence changed |
| `AccessorProperty.HashCode` | nashorn/src/jdk/nashorn/internal/runtime/UserAccessorProperty.java:106-109 | the 32-bit pattern of the hash is the base hash xor the raw getter slot xor the raw setter slot; its properties are `HashConsistentWithEquals` and the `Flip*Hash` lemmas |
| `AccessorProperty.GetGetter` | nashorn/src/jdk/nashorn/internal/runtime/UserAccessorProperty.java:137-140 | an opaque token for the generic getter trampoline, adapted to the requested return type |
| `AccessorProperty.GetSetter` | nashorn/src/jdk/nashorn/internal/runtime/UserAccessorProperty.java:148-151 | an opaque token for the generic setter trampoline |
| `AccessorProperty.HashConsistentWithEquals` | nashorn/src/jdk/nashorn/internal/runtime/UserAccessorProperty.java:106-109 | descriptors that are `equals` have equal hash codes |
| `AccessorProperty.FlipGetterComplementsHash` | nashorn/src/jdk/nashorn/internal/runtime/UserAccessorProperty.java:107-108 | flipping the getter's presence complements every bit of the hash, so the hash changes |
| `AccessorProperty.FlipSetterComplementsHash` | nashorn/src/jdk/nashorn/internal/runtime/UserAccessorProperty.java:108 | flipping the setter's presence complements every bit of the hash, so the hash changes |
| `AccessorProperty.FlipBothKeepsHash` | nashorn/src/jdk/nashorn/internal/runtime/UserAccessorProperty.java:108-109 | flipping both presences gives an unequal descriptor with the same hash |
| `AccessorProperty.AsScriptFunction` | nashorn/src/jdk/nashorn/internal/runtime/UserAccessorProperty.java:145 | the value is returned exactly when it is a script function; otherwise null |
| `AccessorProperty.GetGetterFunction` | nashorn/src/jdk/nashorn/internal/runtime/UserAccessorProperty.java:142-146 | the result is non-null exactly when the value stored at the raw getter slot is a script function, and it is then that value |
| `AccessorProperty.GetSetterFunction` | nashorn/src/jdk/nashorn/internal/runtime/UserAccessorProperty.java:153-157 | the result is non-null exactly when the value stored at the raw setter slot is a script function, and it is then that value |
| `AccessorProperty.GetterLookupSlot` | nashorn/src/jdk/nashorn/internal/runtime/UserAccessorProperty.java:144 | with a getter present, the lookup reads the reserved index; with none present, it reads at the negative raw slot, never at the reserved index |
| `AccessorProperty.SetterLookupSlot` | nashorn/src/jdk/nashorn/internal/runtime/UserAccessorProperty.java:155 | with a setter present, the lookup reads the reserved index; with none present, it reads at the negative raw slot, never at the reserved index |
| `AccessorProperty.AccessHandlesIgnoreSlots` | nashorn/src/jdk/nashorn/internal/runtime/UserAccessorProperty.java:137-151 | every descriptor hands out the same getter trampoline, adapted to the requested return type, and the same distinct setter trampoline |

## Left out

- The base `Property` class is not part of this model. Its key and flags are an opaque record compared structurally. Its hash is a parameter. The field slot `-1` passed to the base constructor is not kept. The null or empty key check belongs to the base class.
- `Equals` compares two user accessor properties. The base class's `equals` against `null` or another class of object is not part of this model.
- `ScriptObject.getEmbedOrSpill` and the embed/spill arrays are an abstract lookup. What that lookup does at a negative slot is not part of this model.
- `getGetter` and `getSetter` return Java method handles built by `Lookup.filterReturnType` and `ScriptObject.USER_ACCESSOR_GETTER`/`USER_ACCESSOR_SETTER`. They are opaque tokens here, and invoking them is not modelled.
- "The descriptor is unchanged by a lookup" holds by construction. Every operation is a pure function of an immutable value, so there is no separate statement of it.
- `src/hotspot/share/gc/shared/genOopClosures.cpp` (garbage-collector oop closures) is unrelated to accessor properties.
