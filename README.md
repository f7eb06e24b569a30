# ArduinoJson variant handles, in Dafny

This project models the variant handle layer of ArduinoJson 6:
- `VariantRef` and `VariantConstRef`, the handles on one JSON value;
- `ArrayRef` and `ObjectRef`, the handles on a collection;
- `ElementProxy`, what `array[index]` returns;
- the "create nested" compositions built from them.

A handle is a memory pool plus a possibly-null pointer to a tagged value (`VariantData`). The model keeps that shape:
- `Pool.MemoryPool` is a class whose `cells` hold the pool's variants, addressed by offset. Cell 0 is the document's root.
- A collection refers to its children by address. Every child is allocated after its parent, so it sits at a greater address. The invariant `Pool.WellFormed` says exactly this, and `Pool.TreeAt` uses it to read any subtree as a `Content.Value`.
- The handles are datatypes holding a `MemoryPool?` and an `Option<Addr>`. Their mutating members are methods that modify the pool they point into. Their queries are functions that read it.

Modules, in dependency order:
- `Wrappers` (`wrappers.dfy`): `Option`, standing in for a nullable pointer.
- `Integers` (`integers.dfy`):
  - the 64-bit `UInt` payload and the signed `Integer` argument type;
  - the integral target types T;
  - the C++ conversion `T(x)`;
  - the two's-complement negation `~x + 1`.
- `Content` (`content.dfy`): the kinds of `VariantData`, `asIntegral`, `asString`, the signed and unsigned setters' encodings, and subtree cost, depth and equality.
- `Pool` (`pool.dfy`): the pool and the primitives the handles call:
  - `get` by index and by key;
  - `add` and `getOrCreate`;
  - `toArray`, `toObject` and `setNull`;
  - the scalar setters;
  - the deep copy.
- `Refs` (`refs.dfy`): the four handle types, the `set` overload routing, and `is<T>`, `size`, `memoryUsage` and `nesting`.
- `ElementProxies` (`elementproxy.dfy`): `ElementProxy`, over an `ArrayRef` or a `VariantRef` parent.
- `Scenarios` (`scenarios.dfy`): the library's create-nested test cases, on a fresh 4096-unit document.

How promotion works in the model:
- `to<ArrayRef>()` and `to<ObjectRef>()` reset a variant of any kind. That is what `set(ArrayRef)` needs, since it is `to<ArrayRef>().copyFrom(array)` (src/ArduinoJson/Variant/VariantImpl.hpp:64-70) and must work on a variant holding a string or a number.
- `add()` and `getOrCreate(key)` promote only from null. On any other kind that is not already the matching collection, they give a null handle.

## Model

| member | source | states |
|---|---|---|
| Integers.Negate | src/ArduinoJson/Variant/VariantImpl.hpp:23-24 | `~x + 1` in 64 bits is the additive inverse of x modulo 2^64: 0 for 0, 2^64 - x otherwise |
| Integers.Convert | src/ArduinoJson/Variant/VariantImpl.hpp:20-24 | `T(x)` is a value of T congruent to x modulo 2^width |
| Integers.ConvertExact | src/ArduinoJson/Variant/VariantImpl.hpp:20-22 | converting a value that T can hold leaves it unchanged |
| Integers.ConvertCongruent | src/ArduinoJson/Variant/VariantImpl.hpp:20-24 | integers congruent modulo 2^width convert to the same value |
| Integers.ConvertNegate | src/ArduinoJson/Variant/VariantImpl.hpp:23-24 | reading `~m + 1` as T gives minus the magnitude modulo 2^width, and exactly -m whenever T can hold -m |
| Content.VariantData.AsIntegral | src/ArduinoJson/Variant/VariantImpl.hpp:17-33 | positive integers and booleans give their payload converted to T (1 or 0 for a boolean); negative integers give minus the magnitude modulo 2^width, exact when it fits. Strings give the parser's result, floats the supplied conversion, and null, raw and collections 0 |
| Content.VariantData.AsString | src/ArduinoJson/Variant/VariantImpl.hpp:54-62 | a string exactly for linked and owned strings, that string itself; null for every other kind, raw fragments included |
| Content.SignedInteger | src/ArduinoJson/Variant/VariantRef.hpp:153-164 | the signed setter stores an integer kind |
| Content.UnsignedInteger | src/ArduinoJson/Variant/VariantRef.hpp:166-174 | the unsigned setter stores a positive integer |
| Content.SignedRoundTrip | src/ArduinoJson/Variant/VariantRef.hpp:153-164 | a signed value stored and read back as any T that can hold it is unchanged |
| Content.UnsignedRoundTrip | src/ArduinoJson/Variant/VariantRef.hpp:166-174 | an unsigned value stored and read back as any T that can hold it is unchanged |
| Content.SignedTruncates | src/ArduinoJson/Variant/VariantImpl.hpp:20-24 | a stored signed value read as any T is the value modulo 2^width |
| Content.Depth | src/ArduinoJson/Variant/VariantRef.hpp:105-107 | nesting depth is 0 exactly for scalars |
| Pool.FindKey | src/ArduinoJson/Variant/VariantImpl.hpp:137-145 | key lookup finds the first member with the key; none when no member has it |
| Pool.FindKeyAppend | src/ArduinoJson/Variant/VariantImpl.hpp:147-157 | appending a member keeps an existing first match, and makes the new member the match when there was none |
| Pool.FirstMatch | src/ArduinoJson/Variant/VariantImpl.hpp:137-145 | a matching position with no earlier match is the one key lookup returns |
| Pool.MemoryPool.constructor | test/JsonDocument/createNested.cpp:9 | a new document has one null root and its whole capacity free |
| Pool.MemoryPool.Element | src/ArduinoJson/Variant/VariantImpl.hpp:133-135 | element `index` exactly when the cell is an array that long; the element lies above its parent |
| Pool.MemoryPool.MemberByKey | src/ArduinoJson/Variant/VariantImpl.hpp:137-145 | a member's value exactly when the cell is an object with a member of that key |
| Pool.MemoryPool.SetNull | src/ArduinoJson/Variant/VariantImpl.hpp:122-127 | the cell becomes null; nothing else changes |
| Pool.MemoryPool.SetScalar | src/ArduinoJson/Variant/VariantRef.hpp:139-211 | succeeds exactly when the copied string fits, and then stores the data; on failure nothing changes |
| Pool.MemoryPool.ToArray | src/ArduinoJson/Variant/VariantImpl.hpp:110-114 | the cell becomes an empty array, whatever it held |
| Pool.MemoryPool.ToObject | src/ArduinoJson/Variant/VariantImpl.hpp:116-120 | the cell becomes an empty object, whatever it held |
| Pool.MemoryPool.AddElement | src/ArduinoJson/Array/ArrayImpl.hpp:12-14 | appends one fresh null element to an array when a slot fits; otherwise nothing changes |
| Pool.MemoryPool.AddMember | src/ArduinoJson/Object/ObjectImpl.hpp:12-20 | appends a member with a fresh null value to an object when a slot fits |
| Pool.MemoryPool.GetOrAddMember | src/ArduinoJson/Object/ObjectImpl.hpp:12-20 | the first member of that key, unchanged, or else a newly appended one |
| Pool.MemoryPool.Add | src/ArduinoJson/Array/ArrayImpl.hpp:16-19 | promotes a null cell to an array, then appends; any other kind gets nothing |
| Pool.MemoryPool.GetOrCreate | src/ArduinoJson/Variant/VariantImpl.hpp:147-157 | promotes a null cell to an object, then gets or appends the key's member; any other kind gets nothing |
| Pool.MemoryPool.CopyFrom | src/ArduinoJson/Variant/VariantImpl.hpp:90-96 | succeeds exactly when the copy fits; the cell's subtree becomes the source value, and every other existing cell keeps its data |
| Refs.Is | src/ArduinoJson/Variant/VariantRef.hpp:45-95 | each `is<T>` tests the kind its overload group names; false on a null handle |
| Refs.IsOneKind | src/ArduinoJson/Variant/VariantRef.hpp:45-95 | two `is<T>` tests hold together only within one group (integral types, or string types) |
| Refs.IsNullIsNoKind | src/ArduinoJson/Variant/VariantRef.hpp:97-99 | a null variant, or a null handle, is of no kind |
| Refs.IsStringEitherLifetime | src/ArduinoJson/Variant/VariantRef.hpp:70-77 | `is<string>` holds for linked and owned strings alike, for every string type |
| Refs.IsNull | src/ArduinoJson/Variant/VariantRef.hpp:97-99 | true for a null handle, and otherwise exactly for a null variant |
| Refs.Size | src/ArduinoJson/Variant/VariantRef.hpp:109-111 | 0 for a null handle; non-zero only for a collection |
| Refs.MemoryUsage | src/ArduinoJson/Variant/VariantRef.hpp:101-103 | 0 for a null handle, otherwise what a deep copy of the subtree allocates |
| Refs.Nesting | src/ArduinoJson/Variant/VariantRef.hpp:105-107 | 0 for a null handle; non-zero exactly for a collection |
| Refs.AsIntegral | src/ArduinoJson/Variant/VariantRef.hpp:228-235 | 0 for a null handle, otherwise the data's `asIntegral` |
| Refs.AsString | src/ArduinoJson/Variant/VariantRef.hpp:228-235 | a string exactly when `is<const char*>` holds, namely the stored one |
| Refs.Routed | src/ArduinoJson/Variant/VariantRef.hpp:139-211 | only `const char*` is stored linked; every other string type is copied; the same split holds for serialized fragments; booleans and integers keep their value |
| Refs.StoreCost | src/ArduinoJson/Variant/VariantRef.hpp:176-211 | a copied string costs its length plus one and a copied fragment its length; linked data and scalars cost nothing |
| Refs.SetThenAsIntegral | src/ArduinoJson/Variant/VariantRef.hpp:153-174 | an integer passed to `set` reads back unchanged through `as<T>` for any T that can hold it |
| Refs.SetThenAsString | src/ArduinoJson/Variant/VariantRef.hpp:191-211 | a string passed to `set` reads back through `as<const char*>`, linked or owned |
| Refs.VariantCopyFrom | src/ArduinoJson/Variant/VariantImpl.hpp:90-96 | false for a null destination; a null source makes it null; otherwise it becomes a copy exactly when the copy fits |
| Refs.VariantRef.Uninitialized | src/ArduinoJson/Variant/VariantRef.hpp:137 | the default handle has null data and a null pool, and reads as null with size 0 |
| Refs.ConstViewAgrees | src/ArduinoJson/Variant/VariantRef.hpp:311 | the read-only view `VariantConstRef(var)` reads what the handle reads: at every index the same element as `get(index)`, at every key the same member as `get(key)` |
| Refs.VariantRef.AsArray | src/ArduinoJson/Variant/VariantImpl.hpp:98-102 | the same data exactly when it is an array; a null array handle otherwise, including for null data |
| Refs.VariantRef.AsObject | src/ArduinoJson/Variant/VariantImpl.hpp:104-108 | the same data exactly when it is an object; a null object handle otherwise |
| Refs.VariantRef.GetIndex | src/ArduinoJson/Variant/VariantImpl.hpp:133-135 | element `index` exactly when the variant is an array that long; null data with the same pool otherwise |
| Refs.VariantRef.GetKey | src/ArduinoJson/Variant/VariantImpl.hpp:137-145 | the first member of that key exactly when the variant is an object that has one; null data with the same pool otherwise |
| Refs.VariantRef.Equals | src/ArduinoJson/Variant/VariantRef.hpp:261-263 | a null handle equals only a null handle; equal handles agree on `isNull()` |
| Refs.NotEqualsOnKindMismatch | src/ArduinoJson/Variant/VariantRef.hpp:265-267 | `!=` holds between any two handles that some `is<T>` tells apart |
| Refs.NotEqualsDistinctBooleans | src/ArduinoJson/Variant/VariantRef.hpp:265-267 | two variants given `set(true)` and `set(false)` are `!=` both ways |
| Refs.EqualsReflexive | src/ArduinoJson/Variant/VariantRef.hpp:261-263 | every handle equals itself |
| Refs.EqualsSymmetric | src/ArduinoJson/Variant/VariantRef.hpp:261-263 | `==` is symmetric |
| Refs.EqualsIgnoresLifetime | src/ArduinoJson/Variant/VariantRef.hpp:261-263 | a linked string equals an owned copy of it |
| Refs.EqualsSameKind | src/ArduinoJson/Variant/VariantRef.hpp:261-263 | equal handles agree on every `is<T>` |
| Refs.VariantRef.Set | src/ArduinoJson/Variant/VariantRef.hpp:139-211 | the variant takes the routed data, exactly when a copied string fits; a null handle, or a copy that does not fit, changes nothing and answers false |
| Refs.VariantRef.SetVariant | src/ArduinoJson/Variant/VariantImpl.hpp:94-96 | the variant becomes a deep copy of the source, with the same memory usage and nesting. It then `==` the source whenever the source's subtree does not strictly contain the variant. A null source makes it null, and a copy that does not fit changes nothing. Other cells keep their data |
| Refs.VariantRef.SetConst | src/ArduinoJson/Variant/VariantImpl.hpp:90-92 | the same copy, from a read-only handle |
| Refs.VariantRef.SetArray | src/ArduinoJson/Variant/VariantImpl.hpp:64-70 | `to<ArrayRef>` then copy. On failure the variant is an empty array and nothing else changes. When the source's subtree does not contain the variant, success means the copy fits and the variant becomes the source's value. Copying a variant into itself leaves an empty array |
| Refs.VariantRef.SetObject | src/ArduinoJson/Variant/VariantImpl.hpp:76-82 | `to<ObjectRef>` then copy, with the same cases as `SetArray` |
| Refs.VariantRef.ToArray | src/ArduinoJson/Variant/VariantImpl.hpp:110-114 | the variant becomes an empty array, and the returned handle points at it; null data changes nothing |
| Refs.VariantRef.ToObject | src/ArduinoJson/Variant/VariantImpl.hpp:116-120 | the variant becomes an empty object, and the returned handle points at it |
| Refs.VariantRef.ToVariant | src/ArduinoJson/Variant/VariantImpl.hpp:122-127 | the variant becomes null and the same handle is returned |
| Refs.VariantRef.GetOrCreate | src/ArduinoJson/Variant/VariantImpl.hpp:147-167 | null data gives null and allocates nothing. Otherwise it is the first member of that key, created when missing on a null-or-object variant, and `get(key)` afterwards returns it |
| Refs.VariantRef.Add | src/ArduinoJson/Array/ArrayImpl.hpp:16-19 | null data gives null; otherwise a new null element at the end of a null-or-array variant, which `get(size() - 1)` returns |
| Refs.VariantRef.CreateNestedArray | test/JsonVariant/createNested.cpp:23-33 | `add()` then `to<ArrayRef>()`: a null or array variant ends with a new empty array as its last element |
| Refs.VariantRef.CreateNestedObject | src/ArduinoJson/Array/ArrayImpl.hpp:16-19 | `add()` then `to<ObjectRef>()`: a null or array variant ends with a new empty object as its last element |
| Refs.VariantRef.CreateNestedArrayAt | test/JsonDocument/createNested.cpp:8-26 | `getOrCreate(key)` then `to<ArrayRef>()`: a null or object variant ends as an object whose member `key` is an empty array |
| Refs.VariantRef.CreateNestedObjectAt | src/ArduinoJson/Object/ObjectImpl.hpp:22-34 | `getOrCreate(key)` then `to<ObjectRef>()`: the member `key` becomes an empty object |
| Refs.VariantConstRef.Uninitialized | src/ArduinoJson/Variant/VariantRef.hpp:309 | the default read-only handle is null |
| Refs.VariantConstRef.AtIndex | src/ArduinoJson/Variant/VariantImpl.hpp:129-131 | element `index` exactly when the variant is an array that long; null otherwise |
| Refs.VariantConstRef.AtKey | src/ArduinoJson/Variant/VariantRef.hpp:327-345 | null whenever the variant is not an object; otherwise the first member of that key, if any |
| Refs.ArrayRef.Get | src/ArduinoJson/Array/ElementProxy.hpp:115-118 | element `index` exactly when there is one; null data otherwise, never creating |
| Refs.ArrayRef.Add | src/ArduinoJson/Array/ArrayImpl.hpp:12-14 | a new null element at the end, which `get(size() - 1)` returns; null when the handle is null or the pool is full |
| Refs.ArrayRef.CreateNestedArray | src/ArduinoJson/Array/ArrayImpl.hpp:12-14 | `add()` then `to<ArrayRef>()`: the array ends with a new empty array |
| Refs.ArrayRef.CreateNestedObject | src/ArduinoJson/Array/ArrayImpl.hpp:16-19 | `add()` then `to<ObjectRef>()`: the array ends with a new empty object |
| Refs.ArrayRef.CopyFrom | src/ArduinoJson/Variant/VariantImpl.hpp:64-70 | a deep copy of the source array, exactly when both handles are non-null, the target cell still holds an array and the copy fits; otherwise nothing changes |
| Refs.ObjectRef.Get | src/ArduinoJson/Variant/VariantRef.hpp:333-334 | the first member of that key when there is one; null data otherwise |
| Refs.ObjectRef.GetOrCreate | src/ArduinoJson/Object/ObjectImpl.hpp:12-20 | an existing member unchanged, or a new member appended when a slot fits; `get(key)` afterwards returns it |
| Refs.ObjectRef.CreateNestedArray | src/ArduinoJson/Object/ObjectImpl.hpp:12-20 | `getOrCreate(key)` then `to<ArrayRef>()`: the member `key`, old or new, is now an empty array |
| Refs.ObjectRef.CreateNestedObject | src/ArduinoJson/Object/ObjectImpl.hpp:22-34 | `getOrCreate(key)` then `to<ObjectRef>()`: the member `key` is now an empty object |
| Refs.ObjectRef.CopyFrom | src/ArduinoJson/Variant/VariantImpl.hpp:76-82 | a deep copy of the source object, exactly when both handles are non-null, the target cell still holds an object and the copy fits; otherwise nothing changes |
| ElementProxies.Parent.Get | src/ArduinoJson/Array/ElementProxy.hpp:115-118 | the parent's non-creating `get(index)`: the element exactly when the parent is an array that long |
| ElementProxies.Subscript | src/ArduinoJson/Array/ElementProxy.hpp:124-128 | `operator[]` keeps the parent and index; the proxy resolves to an element exactly when the parent has one there |
| ElementProxies.ElementProxy.GetImpl | src/ArduinoJson/Array/ElementProxy.hpp:115-118 | the element comes from the parent's `get(index)` and lies above the parent |
| ElementProxies.ElementProxy.IsNull | src/ArduinoJson/Array/ElementProxy.hpp:50-52 | a missing element reads as null; an existing one is null exactly when its cell is `Null` |
| ElementProxies.ElementProxy.Is | src/ArduinoJson/Array/ElementProxy.hpp:59-62 | `is<T>` holds exactly when the element exists and its cell is of kind T |
| ElementProxies.ElementProxy.Size | src/ArduinoJson/Array/ElementProxy.hpp:91-93 | a missing element has size 0; an existing one has its array's element count or its object's member count, and 0 for any other kind |
| ElementProxies.ElementProxy.AsIntegral | src/ArduinoJson/Array/ElementProxy.hpp:54-57 | the element's `asIntegral`; 0 when it is missing |
| ElementProxies.ElementProxy.AsString | src/ArduinoJson/Array/ElementProxy.hpp:54-57 | exactly the element cell's `asString`; null when the element is missing |
| ElementProxies.ElementProxy.AsConst | src/ArduinoJson/Array/ElementProxy.hpp:26-29 | `as<VariantConstRef>` points at exactly the element's cell, and is null exactly when the element is missing |
| ElementProxies.ElementProxy.GetKey | src/ArduinoJson/Array/ElementProxy.hpp:95-103 | the element's `get(key)`: non-null exactly when the element exists, is an object and has a member with that key; then it is the value of the first such member. Null when the element is missing |
| ElementProxies.ElementProxy.Set | src/ArduinoJson/Array/ElementProxy.hpp:74-84 | `get(index).set(value)`: a missing element answers false and changes nothing; otherwise only the element's cell changes, never the parent's |
| ElementProxies.ElementProxy.SetVariant | src/ArduinoJson/Array/ElementProxy.hpp:36-40 | `get(index).set(src)`, with the whole state `VariantRef::set` gives: a missing element answers false and changes nothing. A null source makes the element null. A copy that fits makes the element the source's value and takes its cost from `free`; one that does not fit changes nothing. Every other cell, the parent's included, keeps its data |
| ElementProxies.ElementProxy.SetArray | src/ArduinoJson/Array/ElementProxy.hpp:36-40 | `get(index).set(src)`: the cases of `VariantRef::set(ArrayRef)` on the element, with `free` stated and every other cell, the parent's included, kept |
| ElementProxies.ElementProxy.SetObject | src/ArduinoJson/Array/ElementProxy.hpp:36-40 | `get(index).set(src)`: the cases of `VariantRef::set(ObjectRef)` on the element, with `free` stated and every other cell kept |
| ElementProxies.ElementProxy.Assign | src/ArduinoJson/Array/ElementProxy.hpp:26-29 | proxy-to-proxy assignment copies the source element as it reads now, and a missing source element makes this one null. A copy that fits takes its cost from `free`; one that does not fit changes nothing. Every other cell keeps its data |
| ElementProxies.ElementProxy.ToArray | src/ArduinoJson/Array/ElementProxy.hpp:64-67 | the element becomes an empty array and `free` is unchanged; no other cell changes, and a missing element changes nothing |
| ElementProxies.ElementProxy.ToObject | src/ArduinoJson/Array/ElementProxy.hpp:64-67 | the element becomes an empty object and `free` is unchanged; no other cell changes, and a missing element changes nothing |
| ElementProxies.ElementProxy.ToVariant | src/ArduinoJson/Array/ElementProxy.hpp:64-67 | the element becomes null and `free` is unchanged; no other cell changes, and a missing element changes nothing |
| ElementProxies.ElementProxy.GetOrCreate | src/ArduinoJson/Array/ElementProxy.hpp:105-113 | acts on the element, not on the parent array. A missing element gives null and changes nothing. A null element is promoted to an object, and another non-object kind gives null and changes nothing. An existing first member of that key is returned; otherwise one is appended when a slot fits, and a full pool changes only the promotion. The element's `get(key)` then returns the member |
| ElementProxies.SetFromElement | src/ArduinoJson/Variant/VariantImpl.hpp:72-74 | `set(proxy)` copies the proxy's element, and a missing element makes the variant null. A copy that fits takes its cost from `free`; one that does not fit changes nothing. Every other cell keeps its data |
| Scenarios.DocumentCreateNestedArrayPromotesToObject | test/JsonDocument/createNested.cpp:8-26 | on an empty document `createNestedArray(key)` leaves the root an object whose member `key` is the new array |
| Scenarios.VariantCreateNestedObjectPromotesToArray | test/JsonVariant/createNested.cpp:11-21 | on a null variant `createNestedObject()` makes the variant an array and returns a non-null object |
| Scenarios.VariantCreateNestedArrayPromotesToArray | test/JsonVariant/createNested.cpp:23-33 | on a null variant `createNestedArray()` makes the variant an array and returns a non-null array |

## Left out

- Floating point:
  - `set(float)` and `set(double)` are not modelled;
  - `asFloat` is not modelled;
  - a float variant keeps its 64 bits opaquely;
  - converting a float to an integer is a caller-supplied function (`Content.Coercions.convertFloat`).
  Floating-point numerics are outside this model.
- Parsing a string as an integer is a caller-supplied function (`Content.Coercions.parseInteger`), because `parseInteger` is not part of this model.
- `MemberProxy`, `ObjectShortcuts::operator[]` and `VariantRef::set(const MemberProxy&)` (src/ArduinoJson/Variant/VariantImpl.hpp:84-88) are left out, because the `MemberProxy` type is not part of this model.
- src/ArduinoJson/Variant/VariantMemberProxy.hpp is left out as stale:
  - nothing includes it (the other headers include `MemberProxy.hpp`);
  - its subscript operators return a type other than the one src/ArduinoJson/Object/ObjectShortcuts.hpp declares;
  - it calls a `promoteToObject()` that nothing defines.
- The declaration-only headers (ArrayShortcuts.hpp, ObjectShortcuts.hpp, VariantSubscripts.hpp, ArduinoJson.hpp) have no behaviour of their own beyond what the rows above model.
- `accept` and the visitors are left out; they are the serializers' interface, which is not part of this model.
- `as<T>` is modelled only for integral T, `const char*` and the handle types. `as<bool>`, `as<std::string>`, `as<float>` and the rest go through `variantAs`, which is not part of this model.
- Memory is counted in abstract units: one per slot, length plus one per copied string, length per copied raw fragment. The arena's byte layout and alignment are not modelled. Keys cost nothing, and keys are never copied.
- Pool exhaustion is a deterministic capacity check. An allocation that does not fit changes nothing.
- A pool never frees: the cells a `to<...>` or a copy orphans stay allocated.
- Host string types (`std::string`, Arduino `String`, flash strings) are all Dafny strings. Only the argument's type tag is kept, because routing depends on it. `char` is taken as a signed type.
- There are no separate `ArrayConstRef` and `ObjectConstRef` types: `set(ArrayConstRef)` and `set(ObjectConstRef)` are `SetArray` and `SetObject`.
- `VariantConstRef` carries the pool as well as the data pointer, so that it can be read.
- The document type is a pool whose cell 0 is the root; `doc.to<JsonVariant>()` is `ToVariant` on that root.
- `ArrayRef` and `ObjectRef` hold the address of a variant cell rather than a pointer to the collection inside it. A collection handle on a cell that no longer holds that kind of collection acts as a null handle.
- Refs.VariantRef.SetArray: states the copied value only when the source is in another pool, or its subtree (`Pool.Within`) does not contain the variant. Earlier siblings and unrelated cells are covered (`Pool.TreeAtAvoid`). When the source is an ancestor of the variant, `to<ArrayRef>()` empties part of the source first, and the result is not stated.
- Refs.VariantRef.SetObject: the same restriction as `SetArray`.
- Refs.VariantRef.SetVariant: states `==` with the source only under the same restriction as `SetArray`. The copied value is stated in every case, but it is the source's value before the write, as for `ArrayRef.CopyFrom` below. It differs from the library's copy-while-writing only when the source contains the target (`arr[0] = arr`, say).
- Refs.VariantRef.SetConst: copies the source's value before the write, as for `ArrayRef.CopyFrom` below.
- ElementProxies.ElementProxy.SetVariant: copies the source's value before the write, as for `ArrayRef.CopyFrom` below.
- ElementProxies.ElementProxy.Assign: copies the source element's value before the write, as for `ArrayRef.CopyFrom` below.
- ElementProxies.SetFromElement: copies the proxy element's value before the write, as for `ArrayRef.CopyFrom` below.
- ElementProxies.ElementProxy.SetArray: states the copied value under the same restriction as `Refs.VariantRef.SetArray`.
- ElementProxies.ElementProxy.SetObject: states the copied value under the same restriction as `Refs.VariantRef.SetArray`.
- Refs.ArrayRef.CopyFrom: the source's value is taken before the target is written. The library copies while writing, and the two differ only when the source contains the target.
- Refs.ObjectRef.CopyFrom: the same as `ArrayRef.CopyFrom`.
- Refs.VariantCopyFrom: the same as `ArrayRef.CopyFrom`.
- `is<T>()` and `isNull()` call `variantIsInteger`, `variantIsFloat`, `variantIsBoolean`, `variantIsString`, `variantIsArray`, `variantIsObject` and `variantIsNull` (src/ArduinoJson/Variant/VariantRef.hpp:45-99). These are not part of this model. Each is read as an exact test of the stored kind: an integer is never `is<float>()`, and a string is `is<string>` whether linked or owned. `Refs.Is` and `Refs.IsOneKind` rest on that reading.
- `as<VariantRef>()` (src/ArduinoJson/Variant/VariantRef.hpp:249-254) and the `VariantRef`-to-`VariantConstRef` conversion (line 311) are one-line definitions (`Refs.VariantRef.AsVariant`, `Refs.VariantRef.AsConst`), with no row of their own. `!=` (`Refs.VariantRef.NotEquals`) is likewise the negation of `==` by definition.
- Refs.VariantRef.Equals: `operator==` delegates to `variantEquals`, which is not part of this model. The model reads it as equality of values that ignores where strings live (linked or copied) and compares an object's members in order, so `{"a":1,"b":2}` and `{"b":2,"a":1}` are unequal here. Values of different stored kinds are unequal: an integer never equals a float, so `1` and `1.0` are unequal (Refs.NotEqualsOnKindMismatch), and floats compare by their stored bits. Integers compare by sign tag and magnitude; `set` never stores a negatively tagged 0, so each integer has one form. Refs.EqualsIgnoresLifetime, Refs.EqualsSameKind and Refs.NotEqualsOnKindMismatch rest on this reading.
- The JSON and MessagePack codecs are not part of this model.
