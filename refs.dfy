/**
  The handles: `VariantRef`, `VariantConstRef`, `ArrayRef` and `ObjectRef`.

  A handle is a value made of a pool and a possibly-null data pointer (an
  address in that pool). Copying a handle copies the pointer, never the data,
  so every handle on the same address sees the same variant. The mutating
  members change the variant in the pool they point into; a handle whose
  data is null changes nothing and answers null, 0 or false.
*/
module Refs {
  import opened Wrappers
  import opened Integers
  import opened Content
  import opened Pool

  /**
    A handle's pool and data agree: the data is null or is a cell of the
    pool, and the pool keeps its invariant.
  */
  predicate Points(pool: MemoryPool?, data: Option<Addr>)
    reads pool
  {
    (pool != null ==> pool.Valid()) && (data.Some? ==> pool != null && data.value < |pool.cells|)
  }

  /** The variant a handle points to, if any. */
  function Deref(pool: MemoryPool?, data: Option<Addr>): (r: Option<Cell>)
    reads pool
    requires Points(pool, data)
    ensures r.Some? <==> data.Some?
  {
    if data.None? then None else Some(pool.cells[data.value])
  }

  /** The value of the whole subtree a handle points to, if any. */
  function Snapshot(pool: MemoryPool?, data: Option<Addr>): (r: Option<Value>)
    reads pool
    requires Points(pool, data)
    ensures r.Some? <==> data.Some?
  {
    if data.None? then None else Some(pool.Tree(data.value))
  }

  // ----- The queries shared by VariantRef and VariantConstRef (VariantRefBase) -----

  /** The C++ types T that `is<T>()` accepts, grouped as the overloads group them. */
  datatype Target =
    | IntegralTarget(t: IntegralType)
    | FloatingTarget
    | BoolTarget
    | StringTarget(kind: StringType)
    | ArrayTarget
    | ObjectTarget

  /** The string types a caller can pass: `const char*`, `char*`, `std::string`, Arduino `String`, flash strings. */
  datatype StringType = ConstCharPtr | CharPtr | StdString | ArduinoString | FlashString

  /**
    `is<T>()`: whether the variant holds the kind T names. Every integral T
    tests for an integer, every string type for a (linked or owned) string;
    a null handle holds no kind.
  */
  predicate Is(pool: MemoryPool?, data: Option<Addr>, target: Target)
    reads pool
    requires Points(pool, data)
    ensures Is(pool, data, target) ==> data.Some?
  {
    match Deref(pool, data)
    case None => false
    case Some(d) =>
      match target
      case IntegralTarget(_) => d.IsInteger()
      case FloatingTarget => d.IsFloat()
      case BoolTarget => d.IsBoolean()
      case StringTarget(_) => d.IsString()
      case ArrayTarget => d.IsArray()
      case ObjectTarget => d.IsObject()
  }

  /** Two targets of the same overload group: equal up to which integral or string type. */
  predicate SameGroup(t1: Target, t2: Target)
  {
    (t1.IntegralTarget? && t2.IntegralTarget?) || (t1.StringTarget? && t2.StringTarget?) || t1 == t2
  }

  /** `isNull()`: true for a null handle and for a handle on a null variant. */
  predicate IsNull(pool: MemoryPool?, data: Option<Addr>)
    reads pool
    requires Points(pool, data)
    ensures data.None? ==> IsNull(pool, data)
    ensures data.Some? ==> (IsNull(pool, data) <==> pool.cells[data.value].Null?)
  {
    Deref(pool, data).None? || Deref(pool, data).value.IsNull()
  }

  /** `size()`: the number of elements or members, 0 for a scalar and for a null handle. */
  function Size(pool: MemoryPool?, data: Option<Addr>): (n: nat)
    reads pool
    requires Points(pool, data)
    ensures data.None? ==> n == 0
    ensures n > 0 ==> Is(pool, data, ArrayTarget) || Is(pool, data, ObjectTarget)
  {
    if data.None? then 0 else pool.Size(data.value)
  }

  /**
    `memoryUsage()`: the pool units the subtree occupies, which is what a deep
    copy of it allocates; 0 for a null handle.
  */
  function MemoryUsage(pool: MemoryPool?, data: Option<Addr>): (n: nat)
    reads pool
    requires Points(pool, data)
    ensures data.None? ==> n == 0
    ensures data.Some? ==> n == Cost(Snapshot(pool, data).value)
  {
    if data.None? then 0 else Cost(pool.Tree(data.value))
  }

  /** `nesting()`: the depth of nested collections below the variant; 0 for a null handle. */
  function Nesting(pool: MemoryPool?, data: Option<Addr>): (n: nat)
    reads pool
    requires Points(pool, data)
    ensures data.None? ==> n == 0
    ensures n > 0 <==> Is(pool, data, ArrayTarget) || Is(pool, data, ObjectTarget)
  {
    match Snapshot(pool, data)
    case None => 0
    case Some(v) => Depth(v)
  }

  /** `as<T>()` for an integral T: `asIntegral<T>()` of the data, 0 for a null handle. */
  function AsIntegral(pool: MemoryPool?, data: Option<Addr>, t: IntegralType, c: Coercions): (r: int)
    reads pool
    requires Points(pool, data)
    ensures data.None? ==> r == 0
    ensures data.Some? ==> r == pool.cells[data.value].AsIntegral(t, c)
  {
    match Deref(pool, data)
    case None => 0
    case Some(d) => d.AsIntegral(t, c)
  }

  /** `as<const char*>()`: `asString()` of the data, null for a null handle. */
  function AsString(pool: MemoryPool?, data: Option<Addr>): (r: Option<string>)
    reads pool
    requires Points(pool, data)
    ensures r.Some? <==> Is(pool, data, StringTarget(ConstCharPtr))
    ensures r.Some? ==> r.value == pool.cells[data.value].s
  {
    match Deref(pool, data)
    case None => None
    case Some(d) => d.AsString()
  }

  /** Each `is<T>()` tests one kind: two that hold at once belong to the same overload group. */
  lemma IsOneKind(pool: MemoryPool?, data: Option<Addr>, t1: Target, t2: Target)
    requires Points(pool, data) && Is(pool, data, t1) && Is(pool, data, t2)
    ensures SameGroup(t1, t2)
  {
  }

  /** A null variant, and a null handle, is of no kind. */
  lemma IsNullIsNoKind(pool: MemoryPool?, data: Option<Addr>, t: Target)
    requires Points(pool, data) && IsNull(pool, data)
    ensures !Is(pool, data, t)
  {
  }

  /** `is<string>` holds of linked and of owned strings alike, whatever string type is asked for. */
  lemma IsStringEitherLifetime(pool: MemoryPool?, data: Option<Addr>, kind: StringType)
    requires Points(pool, data) && data.Some?
    ensures Is(pool, data, StringTarget(kind)) <==>
      (pool.cells[data.value].LinkedString? || pool.cells[data.value].OwnedString?)
  {
  }

  // ----- Overload routing of VariantRef::set -----

  /** The scalar arguments of `VariantRef::set`, by the C++ type of the argument. */
  datatype Argument =
    | Bool(b: bool)
      /** char, signed char, short, int, long */
    | Signed(x: Integer)
      /** unsigned short, unsigned int, unsigned long (cast to UInt) */
    | Unsigned(u: UInt)
      /** a string of one of the string types */
    | Text(kind: StringType, s: string)
      /** `serialized(...)` of a string of one of the string types */
    | Serialized(kind: StringType, raw: string)

  /**
    The data each `set` overload stores: only a `const char*` is linked, any
    other string type is copied, and the same split holds for serialized
    fragments; a signed integer goes through the signed setter and an
    unsigned one is stored as it is.
  */
  function Routed(arg: Argument): (d: Cell)
    ensures !d.IsCollection()
    ensures arg.Bool? ==> d == Boolean(arg.b)
    ensures arg.Signed? ==> d.IsInteger()
    ensures arg.Unsigned? ==> d == PositiveInteger(arg.u)
    ensures arg.Text? ==> d.IsString() && d.s == arg.s && (d.LinkedString? <==> arg.kind == ConstCharPtr)
    ensures arg.Serialized? ==>
      (d.LinkedRaw? || d.OwnedRaw?) && d.raw == arg.raw && (d.LinkedRaw? <==> arg.kind == ConstCharPtr)
  {
    match arg
    case Bool(b) => Boolean(b)
    case Signed(x) => SignedInteger(x)
    case Unsigned(u) => UnsignedInteger(u)
    case Text(kind, s) => if kind == ConstCharPtr then LinkedString(s) else OwnedString(s)
    case Serialized(kind, raw) => if kind == ConstCharPtr then LinkedRaw(raw) else OwnedRaw(raw)
  }

  /** The pool units storing an argument takes: the copy of an owned string or fragment. */
  function StoreCost(arg: Argument): (n: nat)
    ensures arg.Text? && arg.kind != ConstCharPtr ==> n == |arg.s| + 1
    ensures arg.Serialized? && arg.kind != ConstCharPtr ==> n == |arg.raw|
    ensures !(arg.Text? || arg.Serialized?) || arg.kind == ConstCharPtr ==> n == 0
  {
    Cost(Value(ScalarAs(Routed(arg))))
  }

  /** An integer set through `set` reads back unchanged through `as<T>` for any T that can hold it. */
  lemma {:induction false} SetThenAsIntegral(arg: Argument, t: IntegralType, c: Coercions)
    requires arg.Signed? || arg.Unsigned?
    requires t.Contains(if arg.Signed? then arg.x else arg.u)
    ensures Routed(arg).AsIntegral(t, c) == (if arg.Signed? then arg.x else arg.u)
  {
    if arg.Signed? {
      SignedRoundTrip<Addr>(arg.x, t, c);
    } else {
      UnsignedRoundTrip<Addr>(arg.u, t, c);
    }
  }

  /** A string set through `set` reads back as the same text through `as<const char*>`, linked or owned. */
  lemma SetThenAsString(arg: Argument)
    requires arg.Text?
    ensures Routed(arg).AsString() == Some(arg.s)
  {
  }

  /**
    `variantCopyFrom(dst, src, pool)`: false when dst is null; a null source
    makes the destination null; otherwise the destination becomes a deep copy
    of the source's value, or stays as it was when the copy does not fit.
  */
  method VariantCopyFrom(pool: MemoryPool?, dst: Option<Addr>, srcPool: MemoryPool?, src: Option<Addr>)
    returns (ok: bool)
    requires Points(pool, dst) && Points(srcPool, src)
    modifies pool
    ensures Points(pool, dst)
    ensures dst.None? ==> !ok && (pool != null ==> unchanged(pool))
    ensures dst.Some? && src.None? ==>
      ok && pool.cells == old(pool.cells)[dst.value := Null] && pool.free == old(pool.free)
    ensures dst.Some? && src.Some? ==>
      var v := old(srcPool.Tree(src.value));
      (ok <==> Cost(v) <= old(pool.free))
      && (ok ==> pool.Tree(dst.value) == v && pool.free == old(pool.free) - Cost(v)
                 && |pool.cells| >= old(|pool.cells|)
                 && forall k :: 0 <= k < old(|pool.cells|) && k != dst.value ==> pool.cells[k] == old(pool.cells[k]))
      && (!ok ==> unchanged(pool))
  {
    if dst.None? {
      return false;
    }
    if src.None? {
      pool.SetNull(dst.value);
      return true;
    }
    var v := srcPool.Tree(src.value);
    ok := pool.CopyFrom(dst.value, v);
  }

  // ----- VariantRef -----

  /** A mutable handle on one variant. */
  datatype VariantRef = VariantRef(pool: MemoryPool?, data: Option<Addr>) {

    /** The default constructor: an uninitialised handle, with null data and null pool. */
    static function Uninitialized(): (r: VariantRef)
      ensures r.pool == null && r.data.None? && r.Valid()
      ensures IsNull(r.pool, r.data) && Size(r.pool, r.data) == 0
    {
      VariantRef(null, None)
    }

    predicate Valid()
      reads pool
    {
      Points(pool, data)
    }

    /** `as<VariantRef>()`: the handle itself. */
    function AsVariant(): (r: VariantRef)
      ensures r.pool == pool && r.data == data
    {
      this
    }

    /** The conversion to `VariantConstRef`: the same data, read only. */
    function AsConst(): (r: VariantConstRef)
      ensures r.data == data && r.pool == pool
    {
      VariantConstRef(pool, data)
    }

    /**
      `as<ArrayRef>()`: an array handle on the same data when the variant is
      an array, and a null array handle otherwise; a null handle gives a null
      array handle rather than a crash.
    */
    function AsArray(): (r: ArrayRef)
      reads pool
      requires Valid()
      ensures r.pool == pool && r.Valid()
      ensures r.data.Some? <==> Is(pool, data, ArrayTarget)
      ensures r.data.Some? ==> r.data == data
    {
      ArrayRef(pool, if Is(pool, data, ArrayTarget) then data else None)
    }

    /** `as<ObjectRef>()`: an object handle on the same data when the variant is an object, a null one otherwise. */
    function AsObject(): (r: ObjectRef)
      reads pool
      requires Valid()
      ensures r.pool == pool && r.Valid()
      ensures r.data.Some? <==> Is(pool, data, ObjectTarget)
      ensures r.data.Some? ==> r.data == data
    {
      ObjectRef(pool, if Is(pool, data, ObjectTarget) then data else None)
    }

    /**
      `get(index)`: a handle on element `index` when the variant is an array
      that long, and a handle with null data otherwise; the pool is kept.
    */
    function GetIndex(index: nat): (r: VariantRef)
      reads pool
      requires Valid()
      ensures r.pool == pool && r.Valid()
      ensures data.None? ==> r.data.None?
      ensures r.data.Some? <==> Is(pool, data, ArrayTarget) && index < Size(pool, data)
      ensures r.data.Some? ==> r.data.value == pool.cells[data.value].elements[index] && r.data.value > data.value
    {
      VariantRef(pool, if data.None? then None else pool.Element(data.value, index))
    }

    /**
      `get(key)`, for pointer and reference keys alike: a handle on the first
      member named `key` when the variant is an object that has one, and a
      handle with null data otherwise; the pool is kept.
    */
    function GetKey(key: string): (r: VariantRef)
      reads pool
      requires Valid()
      ensures r.pool == pool && r.Valid()
      ensures data.None? ==> r.data.None?
      ensures r.data.Some? <==> (Is(pool, data, ObjectTarget) &&
        exists j :: 0 <= j < |pool.cells[data.value].members| && pool.cells[data.value].members[j].key == key)
      ensures r.data.Some? ==> var ms := pool.cells[data.value].members;
        FindKey(ms, key).Some? && r.data.value == ms[FindKey(ms, key).value].value
    {
      VariantRef(pool, if data.None? then None else pool.MemberByKey(data.value, key))
    }

    /** `operator==`: both null, or both non-null with equal values (whatever their strings' lifetimes). */
    predicate Equals(other: VariantRef)
      reads pool, other.pool
      requires Valid() && other.Valid()
      ensures data.None? || other.data.None? ==> (Equals(other) <==> data.None? && other.data.None?)
      ensures Equals(other) && data.Some? ==> (IsNull(pool, data) <==> IsNull(other.pool, other.data))
    {
      match (Snapshot(pool, data), Snapshot(other.pool, other.data))
      case (None, None) => true
      case (Some(v), Some(w)) => Equivalent(v, w)
      case _ => false
    }

    /** `operator!=`: the negation of `operator==`. */
    predicate NotEquals(other: VariantRef)
      reads pool, other.pool
      requires Valid() && other.Valid()
      ensures NotEquals(other) <==> !Equals(other)
    {
      !Equals(other)
    }

    /**
      The scalar `set` overloads: the variant takes the data chosen by
      `Routed`; a copied string that does not fit leaves it as it was and
      answers false; a null handle answers false and changes nothing.
    */
    method Set(arg: Argument) returns (ok: bool)
      requires Valid()
      modifies pool
      ensures Valid()
      ensures data.None? ==> !ok && (pool != null ==> unchanged(pool))
      ensures data.Some? ==> (ok <==> StoreCost(arg) <= old(pool.free))
      ensures data.Some? && ok ==>
        pool.cells == old(pool.cells)[data.value := Routed(arg)] && pool.free == old(pool.free) - StoreCost(arg)
      ensures data.Some? && !ok ==> unchanged(pool)
    {
      if data.None? {
        return false;
      }
      ok := pool.SetScalar(data.value, Routed(arg));
    }

    /** `set(VariantRef)`: `variantCopyFrom` of the other handle's data into this one's. */
    method SetVariant(src: VariantRef) returns (ok: bool)
      requires Valid() && src.Valid()
      modifies pool
      ensures Valid()
      ensures data.None? ==> !ok && (pool != null ==> unchanged(pool))
      ensures data.Some? && src.data.None? ==>
        ok && pool.cells == old(pool.cells)[data.value := Null] && pool.free == old(pool.free)
      ensures data.Some? && src.data.Some? ==>
        var v := old(src.pool.Tree(src.data.value));
        (ok <==> Cost(v) <= old(pool.free))
        && (ok ==> pool.Tree(data.value) == v && pool.free == old(pool.free) - Cost(v)
                   && MemoryUsage(pool, data) == old(MemoryUsage(src.pool, src.data))
                   && Nesting(pool, data) == old(Nesting(src.pool, src.data)))
        && (!ok ==> unchanged(pool))
      ensures data.Some? ==>
        |pool.cells| >= old(|pool.cells|)
        && forall k :: 0 <= k < old(|pool.cells|) && k != data.value ==> pool.cells[k] == old(pool.cells[k])
      ensures
        (ok && data.Some? && src.data.Some?
         && (src.pool != pool || src.data == data || old(!Within(pool.cells, src.data.value, data.value))))
        ==> Equals(src)
    {
      ghost var before := if src.pool == null then [] else src.pool.cells;
      ok := VariantCopyFrom(pool, data, src.pool, src.data);
      if ok && data.Some? && src.data.Some? && src.pool == pool && src.data != data && !Within(before, src.data.value, data.value) {
        TreeAtAvoid(before, pool.cells, src.data.value, data.value);
      }
    }

    /** `set(VariantConstRef)`: the same copy, from a read-only handle. */
    method SetConst(src: VariantConstRef) returns (ok: bool)
      requires Valid() && src.Valid()
      modifies pool
      ensures Valid()
      ensures data.None? ==> !ok && (pool != null ==> unchanged(pool))
      ensures data.Some? && src.data.None? ==>
        ok && pool.cells == old(pool.cells)[data.value := Null] && pool.free == old(pool.free)
      ensures data.Some? && src.data.Some? ==>
        var v := old(src.pool.Tree(src.data.value));
        (ok <==> Cost(v) <= old(pool.free))
        && (ok ==> pool.Tree(data.value) == v && pool.free == old(pool.free) - Cost(v)
                   && MemoryUsage(pool, data) == old(MemoryUsage(src.pool, src.data))
                   && Nesting(pool, data) == old(Nesting(src.pool, src.data)))
        && (!ok ==> unchanged(pool))
      ensures data.Some? ==>
        |pool.cells| >= old(|pool.cells|)
        && forall k :: 0 <= k < old(|pool.cells|) && k != data.value ==> pool.cells[k] == old(pool.cells[k])
    {
      ok := VariantCopyFrom(pool, data, src.pool, src.data);
    }

    /**
      `set(ArrayRef)` and `set(ArrayConstRef)`: `to<ArrayRef>()` first, so the
      variant is an empty array whatever it held, then a copy of the source
      array as the source reads after that conversion.
    */
    method SetArray(src: ArrayRef) returns (ok: bool)
      requires Valid() && src.Valid()
      modifies pool
      ensures Valid()
      ensures data.None? ==> !ok && (pool != null ==> unchanged(pool))
      ensures data.Some? && !ok ==>
        pool.cells == old(pool.cells)[data.value := Array([])] && pool.free == old(pool.free)
      ensures data.Some? ==>
        |pool.cells| >= old(|pool.cells|)
        && forall k :: 0 <= k < old(|pool.cells|) && k != data.value ==> pool.cells[k] == old(pool.cells[k])
      ensures data.Some? && src.data.None? ==> !ok
      ensures data.Some? && src.data.Some? && (src.pool != pool || old(!Within(pool.cells, src.data.value, data.value))) ==>
        var v := old(src.pool.Tree(src.data.value));
        (ok <==> v.data.Array? && Cost(v) <= old(pool.free))
        && (ok ==> pool.Tree(data.value) == v && pool.free == old(pool.free) - Cost(v))
      ensures data.Some? && src.pool == pool && src.data == data ==>
        ok && pool.Tree(data.value) == Value(Array([])) && pool.free == old(pool.free)
    {
      ghost var before := if pool == null then [] else pool.cells;
      var target := ToArray();
      if data.Some? && src.data.Some? && src.pool == pool && !Within(before, src.data.value, data.value) {
        TreeAtAvoid(before, pool.cells, src.data.value, data.value);
      }
      if data.Some? && src.pool == pool && src.data == data {
        assert pool.Tree(data.value) == Value(Array([]));
      }
      ok := target.CopyFrom(src);
    }

    /** `set(ObjectRef)` and `set(ObjectConstRef)`: `to<ObjectRef>()` first, then a copy of the source object. */
    method SetObject(src: ObjectRef) returns (ok: bool)
      requires Valid() && src.Valid()
      modifies pool
      ensures Valid()
      ensures data.None? ==> !ok && (pool != null ==> unchanged(pool))
      ensures data.Some? && !ok ==>
        pool.cells == old(pool.cells)[data.value := Object([])] && pool.free == old(pool.free)
      ensures data.Some? ==>
        |pool.cells| >= old(|pool.cells|)
        && forall k :: 0 <= k < old(|pool.cells|) && k != data.value ==> pool.cells[k] == old(pool.cells[k])
      ensures data.Some? && src.data.None? ==> !ok
      ensures data.Some? && src.data.Some? && (src.pool != pool || old(!Within(pool.cells, src.data.value, data.value))) ==>
        var v := old(src.pool.Tree(src.data.value));
        (ok <==> v.data.Object? && Cost(v) <= old(pool.free))
        && (ok ==> pool.Tree(data.value) == v && pool.free == old(pool.free) - Cost(v))
      ensures data.Some? && src.pool == pool && src.data == data ==>
        ok && pool.Tree(data.value) == Value(Object([])) && pool.free == old(pool.free)
    {
      ghost var before := if pool == null then [] else pool.cells;
      var target := ToObject();
      if data.Some? && src.data.Some? && src.pool == pool && !Within(before, src.data.value, data.value) {
        TreeAtAvoid(before, pool.cells, src.data.value, data.value);
      }
      if data.Some? && src.pool == pool && src.data == data {
        assert pool.Tree(data.value) == Value(Object([]));
      }
      ok := target.CopyFrom(src);
    }

    /** `to<ArrayRef>()`: the variant becomes an empty array whatever it held; an array handle on it is returned. */
    method ToArray() returns (r: ArrayRef)
      requires Valid()
      modifies pool
      ensures Valid() && r.Valid() && r.pool == pool && r.data == data
      ensures data.None? ==> pool != null ==> unchanged(pool)
      ensures data.Some? ==> pool.cells == old(pool.cells)[data.value := Array([])] && pool.free == old(pool.free)
      ensures data.Some? ==> Is(pool, data, ArrayTarget) && Size(pool, data) == 0
    {
      if data.Some? {
        pool.ToArray(data.value);
      }
      r := ArrayRef(pool, data);
    }

    /** `to<ObjectRef>()`: the variant becomes an empty object whatever it held; an object handle on it is returned. */
    method ToObject() returns (r: ObjectRef)
      requires Valid()
      modifies pool
      ensures Valid() && r.Valid() && r.pool == pool && r.data == data
      ensures data.None? ==> pool != null ==> unchanged(pool)
      ensures data.Some? ==> pool.cells == old(pool.cells)[data.value := Object([])] && pool.free == old(pool.free)
      ensures data.Some? ==> Is(pool, data, ObjectTarget) && Size(pool, data) == 0
    {
      if data.Some? {
        pool.ToObject(data.value);
      }
      r := ObjectRef(pool, data);
    }

    /** `to<VariantRef>()`: the variant becomes null and the same handle is returned. */
    method ToVariant() returns (r: VariantRef)
      requires Valid()
      modifies pool
      ensures Valid() && r == this
      ensures data.None? ==> pool != null ==> unchanged(pool)
      ensures data.Some? ==> pool.cells == old(pool.cells)[data.value := Null] && pool.free == old(pool.free)
      ensures IsNull(pool, data)
    {
      if data.Some? {
        pool.SetNull(data.value);
      }
      r := this;
    }

    /**
      `getOrCreate(key)`, for pointer and reference keys alike: a null variant
      is promoted to an object, then the first member named `key` is returned,
      appended with a null value if missing. A handle with null data allocates
      nothing and gives a null handle; so do a variant of another kind and a
      full pool.
    */
    method GetOrCreate(key: string) returns (r: VariantRef)
      requires Valid()
      modifies pool
      ensures Valid() && r.Valid() && r.pool == pool
      ensures data.None? ==> r.data.None? && (pool != null ==> unchanged(pool))
      ensures data.Some? ==>
        var d := old(pool.cells[data.value]);
        (!d.Null? && !d.Object? ==> r.data.None? && unchanged(pool))
        && (d.Null? || d.Object? ==>
             var ms := MembersOrEmpty(d);
             pool.cells[data.value].Object?
             && (FindKey(ms, key).Some? ==>
                   r.data == Some(ms[FindKey(ms, key).value].value)
                   && pool.cells == old(pool.cells)[data.value := Object(ms)] && pool.free == old(pool.free))
             && (FindKey(ms, key).None? ==>
                   (r.data.Some? <==> SlotCost <= old(pool.free))
                   && (r.data.Some? ==>
                         r.data.value == old(|pool.cells|)
                         && pool.cells == old(pool.cells)[data.value := Object(ms + [Member(key, r.data.value)])] + [Null]
                         && pool.free == old(pool.free) - SlotCost)
                   && (r.data.None? ==>
                         pool.cells == old(pool.cells)[data.value := Object(ms)] && pool.free == old(pool.free))))
      ensures r.data.Some? ==> GetKey(key) == r
    {
      if data.None? {
        return VariantRef(pool, None);
      }
      ghost var ms := MembersOrEmpty(pool.cells[data.value]);
      FindKeyAppend(ms, key, Member(key, |pool.cells|));
      var a := pool.GetOrCreate(data.value, key);
      r := VariantRef(pool, a);
    }

    /**
      `add()`: a null variant is promoted to an array, then a fresh null
      element is appended and a handle on it returned. A handle with null
      data, a variant of another kind or a full pool gives a null handle.
    */
    method Add() returns (r: VariantRef)
      requires Valid()
      modifies pool
      ensures Valid() && r.Valid() && r.pool == pool
      ensures data.None? ==> r.data.None? && (pool != null ==> unchanged(pool))
      ensures data.Some? ==>
        var d := old(pool.cells[data.value]);
        (!d.Null? && !d.Array? ==> r.data.None? && unchanged(pool))
        && (d.Null? || d.Array? ==>
             var es := ElementsOrEmpty(d);
             (r.data.Some? <==> SlotCost <= old(pool.free))
             && (r.data.Some? ==>
                   r.data.value == old(|pool.cells|)
                   && pool.cells == old(pool.cells)[data.value := Array(es + [r.data.value])] + [Null]
                   && pool.free == old(pool.free) - SlotCost)
             && (r.data.None? ==>
                   pool.cells == old(pool.cells)[data.value := Array(es)] && pool.free == old(pool.free)))
      ensures r.data.Some? ==> Size(pool, data) > 0 && GetIndex(Size(pool, data) - 1) == r
    {
      if data.None? {
        return VariantRef(pool, None);
      }
      var a := pool.Add(data.value);
      r := VariantRef(pool, a);
    }

    /**
      `createNestedArray()` on a variant: `add()` then `to<ArrayRef>()` on the
      new element. A null or array variant ends as an array whose last
      element is a new empty array, returned as a non-null handle.
    */
    method CreateNestedArray() returns (r: ArrayRef)
      requires Valid()
      modifies pool
      ensures Valid() && r.Valid() && r.pool == pool
      ensures data.None? ==> r.data.None? && (pool != null ==> unchanged(pool))
      ensures data.Some? ==>
        var d := old(pool.cells[data.value]);
        (!d.Null? && !d.Array? ==> r.data.None? && unchanged(pool))
        && (d.Null? || d.Array? ==>
             var es := ElementsOrEmpty(d);
             (r.data.Some? <==> SlotCost <= old(pool.free))
             && (r.data.Some? ==>
                   r.data.value == old(|pool.cells|)
                   && pool.cells == old(pool.cells)[data.value := Array(es + [r.data.value])] + [Array([])]
                   && pool.free == old(pool.free) - SlotCost)
             && (r.data.None? ==>
                   pool.cells == old(pool.cells)[data.value := Array(es)] && pool.free == old(pool.free)))
      ensures r.data.Some? ==>
        Size(pool, data) > 0 && GetIndex(Size(pool, data) - 1).data == r.data
        && Is(pool, r.data, ArrayTarget) && Size(pool, r.data) == 0
    {
      var element := Add();
      r := element.ToArray();
    }

    /** `createNestedObject()` on a variant: `add()` then `to<ObjectRef>()` on the new element. */
    method CreateNestedObject() returns (r: ObjectRef)
      requires Valid()
      modifies pool
      ensures Valid() && r.Valid() && r.pool == pool
      ensures data.None? ==> r.data.None? && (pool != null ==> unchanged(pool))
      ensures data.Some? ==>
        var d := old(pool.cells[data.value]);
        (!d.Null? && !d.Array? ==> r.data.None? && unchanged(pool))
        && (d.Null? || d.Array? ==>
             var es := ElementsOrEmpty(d);
             (r.data.Some? <==> SlotCost <= old(pool.free))
             && (r.data.Some? ==>
                   r.data.value == old(|pool.cells|)
                   && pool.cells == old(pool.cells)[data.value := Array(es + [r.data.value])] + [Object([])]
                   && pool.free == old(pool.free) - SlotCost)
             && (r.data.None? ==>
                   pool.cells == old(pool.cells)[data.value := Array(es)] && pool.free == old(pool.free)))
      ensures r.data.Some? ==>
        Size(pool, data) > 0 && GetIndex(Size(pool, data) - 1).data == r.data
        && Is(pool, r.data, ObjectTarget) && Size(pool, r.data) == 0
    {
      var element := Add();
      r := element.ToObject();
    }

    /**
      `createNestedArray(key)` on a variant (a document's root, for one):
      `getOrCreate(key)` then `to<ArrayRef>()` on that member. A null or
      object variant ends as an object whose member `key` is an empty array.
    */
    method CreateNestedArrayAt(key: string) returns (r: ArrayRef)
      requires Valid()
      modifies pool
      ensures Valid() && r.Valid() && r.pool == pool
      ensures data.None? ==> r.data.None? && (pool != null ==> unchanged(pool))
      ensures data.Some? ==>
        var d := old(pool.cells[data.value]);
        (!d.Null? && !d.Object? ==> r.data.None? && unchanged(pool))
        && (d.Null? || d.Object? ==>
             var ms := MembersOrEmpty(d);
             (FindKey(ms, key).Some? ==>
                r.data == Some(ms[FindKey(ms, key).value].value)
                && pool.cells == old(pool.cells)[data.value := Object(ms)][r.data.value := Array([])]
                && pool.free == old(pool.free))
             && (FindKey(ms, key).None? ==>
                   (r.data.Some? <==> SlotCost <= old(pool.free))
                   && (r.data.Some? ==>
                         r.data.value == old(|pool.cells|)
                         && pool.cells == old(pool.cells)[data.value := Object(ms + [Member(key, r.data.value)])] + [Array([])]
                         && pool.free == old(pool.free) - SlotCost)
                   && (r.data.None? ==>
                         pool.cells == old(pool.cells)[data.value := Object(ms)] && pool.free == old(pool.free))))
      ensures r.data.Some? ==>
        GetKey(key).data == r.data && Is(pool, r.data, ArrayTarget) && Size(pool, r.data) == 0
    {
      var member := GetOrCreate(key);
      r := member.ToArray();
    }

    /**
      `createNestedObject(key)` on a variant: `getOrCreate(key)` then
      `to<ObjectRef>()` on that member.
    */
    method CreateNestedObjectAt(key: string) returns (r: ObjectRef)
      requires Valid()
      modifies pool
      ensures Valid() && r.Valid() && r.pool == pool
      ensures data.None? ==> r.data.None? && (pool != null ==> unchanged(pool))
      ensures data.Some? ==>
        var d := old(pool.cells[data.value]);
        (!d.Null? && !d.Object? ==> r.data.None? && unchanged(pool))
        && (d.Null? || d.Object? ==>
             var ms := MembersOrEmpty(d);
             (FindKey(ms, key).Some? ==>
                r.data == Some(ms[FindKey(ms, key).value].value)
                && pool.cells == old(pool.cells)[data.value := Object(ms)][r.data.value := Object([])]
                && pool.free == old(pool.free))
             && (FindKey(ms, key).None? ==>
                   (r.data.Some? <==> SlotCost <= old(pool.free))
                   && (r.data.Some? ==>
                         r.data.value == old(|pool.cells|)
                         && pool.cells == old(pool.cells)[data.value := Object(ms + [Member(key, r.data.value)])] + [Object([])]
                         && pool.free == old(pool.free) - SlotCost)
                   && (r.data.None? ==>
                         pool.cells == old(pool.cells)[data.value := Object(ms)] && pool.free == old(pool.free))))
      ensures r.data.Some? ==>
        GetKey(key).data == r.data && Is(pool, r.data, ObjectTarget) && Size(pool, r.data) == 0
    {
      var member := GetOrCreate(key);
      r := member.ToObject();
    }
  }

  /** `operator==` is reflexive on every handle. */
  lemma EqualsReflexive(v: VariantRef)
    requires v.Valid()
    ensures v.Equals(v)
  {
  }

  /** `operator==` is symmetric. */
  lemma EqualsSymmetric(v: VariantRef, w: VariantRef)
    requires v.Valid() && w.Valid()
    ensures v.Equals(w) <==> w.Equals(v)
  {
  }

  /** A linked string and an owned copy of the same text compare equal. */
  lemma EqualsIgnoresLifetime(v: VariantRef, w: VariantRef, s: string)
    requires v.Valid() && w.Valid() && v.data.Some? && w.data.Some?
    requires v.pool.cells[v.data.value] == LinkedString(s) && w.pool.cells[w.data.value] == OwnedString(s)
    ensures v.Equals(w)
  {
  }

  /** Equal handles hold the same kind: `==` never equates values that `is<T>` tells apart. */
  lemma {:induction false} EqualsSameKind(v: VariantRef, w: VariantRef, t: Target)
    requires v.Valid() && w.Valid() && v.Equals(w)
    ensures Is(v.pool, v.data, t) <==> Is(w.pool, w.data, t)
  {
    if v.data.Some? && w.data.Some? {
      var x, y := v.pool.Tree(v.data.value), w.pool.Tree(w.data.value);
      assert Unowned(x) == Unowned(y);
      UnownedKind(v.pool.cells, v.data.value);
      UnownedKind(w.pool.cells, w.data.value);
    }
  }

  /** Handles that some `is<T>` tells apart compare unequal: `!=` holds between them. */
  lemma NotEqualsOnKindMismatch(v: VariantRef, w: VariantRef, t: Target)
    requires v.Valid() && w.Valid()
    requires Is(v.pool, v.data, t) != Is(w.pool, w.data, t)
    ensures v.NotEquals(w)
  {
    if v.Equals(w) {
      EqualsSameKind(v, w, t);
    }
  }

  /** Two variants given different booleans through `set` compare unequal. */
  lemma NotEqualsDistinctBooleans(v: VariantRef, w: VariantRef, b: bool)
    requires v.Valid() && w.Valid() && v.data.Some? && w.data.Some?
    requires v.pool.cells[v.data.value] == Routed(Bool(b)) && w.pool.cells[w.data.value] == Routed(Bool(!b))
    ensures v.NotEquals(w) && w.NotEquals(v)
  {
  }

  /**
    The read-only view of a handle, `VariantConstRef(var)`, reads what the
    handle reads: the same element at every index, the same member at every key.
  */
  lemma ConstViewAgrees(v: VariantRef, index: nat, key: string)
    requires v.Valid()
    ensures v.AsConst().AtIndex(index).data == v.GetIndex(index).data
    ensures v.AsConst().AtKey(key).data == v.GetKey(key).data
  {
  }

  /** `Unowned` keeps the kind of a stored variant, reading an owned string as a linked one and an owned raw fragment as a linked one. */
  lemma UnownedKind(cells: seq<Cell>, a: Addr)
    requires WellFormed(cells) && a < |cells|
    ensures var d := cells[a]; var u := Unowned(TreeAt(cells, a)).data;
      (u.IsInteger() <==> d.IsInteger()) && (u.IsFloat() <==> d.IsFloat()) && (u.IsBoolean() <==> d.IsBoolean())
      && (u.IsString() <==> d.IsString()) && (u.IsArray() <==> d.IsArray()) && (u.IsObject() <==> d.IsObject())
      && (u.IsNull() <==> d.IsNull())
  {
  }

  // ----- VariantConstRef -----

  /** A read-only handle on one variant. */
  datatype VariantConstRef = VariantConstRef(pool: MemoryPool?, data: Option<Addr>) {

    /** The default constructor: a handle with null data. */
    static function Uninitialized(): (r: VariantConstRef)
      ensures r.data.None? && r.Valid() && IsNull(r.pool, r.data)
    {
      VariantConstRef(null, None)
    }

    predicate Valid()
      reads pool
    {
      Points(pool, data)
    }

    /**
      `operator[](index)`: element `index` when the variant is an array that
      long, and a null handle otherwise.
    */
    function AtIndex(index: nat): (r: VariantConstRef)
      reads pool
      requires Valid()
      ensures r.Valid() && r.pool == pool
      ensures r.data.Some? <==> Is(pool, data, ArrayTarget) && index < Size(pool, data)
      ensures r.data.Some? ==> r.data.value == pool.cells[data.value].elements[index]
    {
      VariantConstRef(pool, if Is(pool, data, ArrayTarget) then pool.Element(data.value, index) else None)
    }

    /**
      `operator[](key)`, for pointer and reference keys alike: the first
      member named `key` when the variant is an object that has one, and a
      null handle otherwise; in particular whenever the variant is not an
      object.
    */
    function AtKey(key: string): (r: VariantConstRef)
      reads pool
      requires Valid()
      ensures r.Valid() && r.pool == pool
      ensures !Is(pool, data, ObjectTarget) ==> r.data.None?
      ensures r.data.Some? <==> (Is(pool, data, ObjectTarget) &&
        exists j :: 0 <= j < |pool.cells[data.value].members| && pool.cells[data.value].members[j].key == key)
      ensures r.data.Some? ==> var ms := pool.cells[data.value].members;
        FindKey(ms, key).Some? && r.data.value == ms[FindKey(ms, key).value].value
    {
      VariantConstRef(pool, if Is(pool, data, ObjectTarget) then pool.MemberByKey(data.value, key) else None)
    }
  }

  // ----- ArrayRef -----

  /** A handle on an array's collection. */
  datatype ArrayRef = ArrayRef(pool: MemoryPool?, data: Option<Addr>) {

    predicate Valid()
      reads pool
    {
      Points(pool, data)
    }

    /** `isNull()`: whether the handle has no collection. */
    predicate IsNull()
    {
      data.None?
    }

    /** `get(index)`: a handle on element `index`, null when out of range or when the handle is null. */
    function Get(index: nat): (r: VariantRef)
      reads pool
      requires Valid()
      ensures r.Valid() && r.pool == pool
      ensures data.None? ==> r.data.None?
      ensures r.data.Some? <==> data.Some? && pool.cells[data.value].Array? && index < |pool.cells[data.value].elements|
      ensures r.data.Some? ==> r.data.value == pool.cells[data.value].elements[index] && r.data.value > data.value
    {
      VariantRef(pool, if data.None? then None else pool.Element(data.value, index))
    }

    /** `add()`: appends a fresh null element and returns a handle on it; null when the handle is null or the pool full. */
    method Add() returns (r: VariantRef)
      requires Valid()
      modifies pool
      ensures Valid() && r.Valid() && r.pool == pool
      ensures data.None? ==> r.data.None? && (pool != null ==> unchanged(pool))
      ensures data.Some? ==>
        (r.data.Some? <==> old(pool.cells[data.value]).Array? && SlotCost <= old(pool.free))
        && (r.data.Some? ==>
              r.data.value == old(|pool.cells|)
              && pool.cells == old(pool.cells)[data.value := Array(old(pool.cells[data.value]).elements + [r.data.value])] + [Null]
              && pool.free == old(pool.free) - SlotCost)
        && (r.data.None? ==> unchanged(pool))
      ensures r.data.Some? ==> Size(pool, data) > 0 && Get(Size(pool, data) - 1) == r
    {
      if data.None? {
        return VariantRef(pool, None);
      }
      var a := pool.AddElement(data.value);
      r := VariantRef(pool, a);
    }

    /**
      `createNestedArray()`: `add()` then `to<ArrayRef>()` on the added
      element, which so becomes an empty array at the end of this one.
    */
    method CreateNestedArray() returns (r: ArrayRef)
      requires Valid()
      modifies pool
      ensures Valid() && r.Valid() && r.pool == pool
      ensures data.None? ==> r.data.None? && (pool != null ==> unchanged(pool))
      ensures data.Some? ==>
        (r.data.Some? <==> old(pool.cells[data.value]).Array? && SlotCost <= old(pool.free))
        && (r.data.Some? ==>
              r.data.value == old(|pool.cells|)
              && pool.cells == old(pool.cells)[data.value := Array(old(pool.cells[data.value]).elements + [r.data.value])] + [Array([])]
              && pool.free == old(pool.free) - SlotCost)
        && (r.data.None? ==> unchanged(pool))
      ensures r.data.Some? ==>
        Size(pool, data) > 0 && Get(Size(pool, data) - 1).data == r.data
        && Is(pool, r.data, ArrayTarget) && Size(pool, r.data) == 0
    {
      var element := Add();
      r := element.ToArray();
    }

    /** `createNestedObject()`: `add()` then `to<ObjectRef>()` on the added element. */
    method CreateNestedObject() returns (r: ObjectRef)
      requires Valid()
      modifies pool
      ensures Valid() && r.Valid() && r.pool == pool
      ensures data.None? ==> r.data.None? && (pool != null ==> unchanged(pool))
      ensures data.Some? ==>
        (r.data.Some? <==> old(pool.cells[data.value]).Array? && SlotCost <= old(pool.free))
        && (r.data.Some? ==>
              r.data.value == old(|pool.cells|)
              && pool.cells == old(pool.cells)[data.value := Array(old(pool.cells[data.value]).elements + [r.data.value])] + [Object([])]
              && pool.free == old(pool.free) - SlotCost)
        && (r.data.None? ==> unchanged(pool))
      ensures r.data.Some? ==>
        Size(pool, data) > 0 && Get(Size(pool, data) - 1).data == r.data
        && Is(pool, r.data, ObjectTarget) && Size(pool, r.data) == 0
    {
      var element := Add();
      r := element.ToObject();
    }

    /**
      `copyFrom(array)`: a deep copy of the source array into this one;
      false when either handle is null (a handle whose cell no longer holds
      an array counts as null), the source is not an array, or the copy does
      not fit, and then nothing changes.
    */
    method CopyFrom(src: ArrayRef) returns (ok: bool)
      requires Valid() && src.Valid()
      modifies pool
      ensures Valid()
      ensures (data.None? || src.data.None?) ==> !ok && (pool != null ==> unchanged(pool))
      ensures data.Some? && src.data.Some? ==>
        var v := old(src.pool.Tree(src.data.value));
        (ok <==> old(pool.cells[data.value]).Array? && v.data.Array? && Cost(v) <= old(pool.free))
        && (ok ==> pool.Tree(data.value) == v && pool.free == old(pool.free) - Cost(v)
                   && |pool.cells| >= old(|pool.cells|)
                   && forall k :: 0 <= k < old(|pool.cells|) && k != data.value ==> pool.cells[k] == old(pool.cells[k]))
        && (!ok ==> unchanged(pool))
    {
      if data.None? || src.data.None? || !pool.cells[data.value].Array?
         || !src.pool.cells[src.data.value].Array? {
        return false;
      }
      var v := src.pool.Tree(src.data.value);
      ok := pool.CopyFrom(data.value, v);
    }
  }

  // ----- ObjectRef -----

  /** A handle on an object's collection. */
  datatype ObjectRef = ObjectRef(pool: MemoryPool?, data: Option<Addr>) {

    predicate Valid()
      reads pool
    {
      Points(pool, data)
    }

    /** `isNull()`: whether the handle has no collection. */
    predicate IsNull()
    {
      data.None?
    }

    /** `get(key)`: a handle on the first member named `key`, null when there is none or the handle is null. */
    function Get(key: string): (r: VariantRef)
      reads pool
      requires Valid()
      ensures r.Valid() && r.pool == pool
      ensures data.None? ==> r.data.None?
      ensures r.data.Some? <==> (data.Some? && pool.cells[data.value].Object? &&
        exists j :: 0 <= j < |pool.cells[data.value].members| && pool.cells[data.value].members[j].key == key)
      ensures r.data.Some? ==> var ms := pool.cells[data.value].members;
        FindKey(ms, key).Some? && r.data.value == ms[FindKey(ms, key).value].value
    {
      VariantRef(pool, if data.None? then None else pool.MemberByKey(data.value, key))
    }

    /**
      `getOrCreate(key)`: the first member named `key`, appended with a null
      value when missing; null when the handle is null or the pool full.
    */
    method GetOrCreate(key: string) returns (r: VariantRef)
      requires Valid()
      modifies pool
      ensures Valid() && r.Valid() && r.pool == pool
      ensures data.None? ==> r.data.None? && (pool != null ==> unchanged(pool))
      ensures data.Some? && old(pool.cells[data.value]).Object? ==>
        var ms := old(pool.cells[data.value]).members;
        (FindKey(ms, key).Some? ==> r.data == Some(ms[FindKey(ms, key).value].value) && unchanged(pool))
        && (FindKey(ms, key).None? ==>
              (r.data.Some? <==> SlotCost <= old(pool.free))
              && (r.data.Some? ==>
                    r.data.value == old(|pool.cells|)
                    && pool.cells == old(pool.cells)[data.value := Object(ms + [Member(key, r.data.value)])] + [Null]
                    && pool.free == old(pool.free) - SlotCost)
              && (r.data.None? ==> unchanged(pool)))
      ensures data.Some? && !old(pool.cells[data.value]).Object? ==> r.data.None? && unchanged(pool)
      ensures r.data.Some? ==> data.Some? && r.data.value > data.value
      ensures r.data.Some? ==> Get(key) == r
    {
      if data.None? {
        return VariantRef(pool, None);
      }
      ghost var ms := MembersOrEmpty(pool.cells[data.value]);
      FindKeyAppend(ms, key, Member(key, |pool.cells|));
      var a := pool.GetOrAddMember(data.value, key);
      r := VariantRef(pool, a);
    }

    /**
      `createNestedArray(key)`, for pointer and reference keys alike:
      `getOrCreate(key)` then `to<ArrayRef>()` on that member, which so
      becomes an empty array whether it was new or not.
    */
    method CreateNestedArray(key: string) returns (r: ArrayRef)
      requires Valid()
      modifies pool
      ensures Valid() && r.Valid() && r.pool == pool
      ensures data.None? ==> r.data.None? && (pool != null ==> unchanged(pool))
      ensures data.Some? && old(pool.cells[data.value]).Object? ==>
        var ms := old(pool.cells[data.value]).members;
        (FindKey(ms, key).Some? ==>
           r.data == Some(ms[FindKey(ms, key).value].value)
           && pool.cells == old(pool.cells)[r.data.value := Array([])] && pool.free == old(pool.free))
        && (FindKey(ms, key).None? ==>
              (r.data.Some? <==> SlotCost <= old(pool.free))
              && (r.data.Some? ==>
                    r.data.value == old(|pool.cells|)
                    && pool.cells == old(pool.cells)[data.value := Object(ms + [Member(key, r.data.value)])] + [Array([])]
                    && pool.free == old(pool.free) - SlotCost)
              && (r.data.None? ==> unchanged(pool)))
      ensures data.Some? && !old(pool.cells[data.value]).Object? ==> r.data.None? && unchanged(pool)
      ensures r.data.Some? ==>
        Get(key).data == r.data && Is(pool, r.data, ArrayTarget) && Size(pool, r.data) == 0
    {
      var member := GetOrCreate(key);
      r := member.ToArray();
    }

    /**
      `createNestedObject(key)`, for pointer and reference keys alike:
      `getOrCreate(key)` then `to<ObjectRef>()` on that member.
    */
    method CreateNestedObject(key: string) returns (r: ObjectRef)
      requires Valid()
      modifies pool
      ensures Valid() && r.Valid() && r.pool == pool
      ensures data.None? ==> r.data.None? && (pool != null ==> unchanged(pool))
      ensures data.Some? && old(pool.cells[data.value]).Object? ==>
        var ms := old(pool.cells[data.value]).members;
        (FindKey(ms, key).Some? ==>
           r.data == Some(ms[FindKey(ms, key).value].value)
           && pool.cells == old(pool.cells)[r.data.value := Object([])] && pool.free == old(pool.free))
        && (FindKey(ms, key).None? ==>
              (r.data.Some? <==> SlotCost <= old(pool.free))
              && (r.data.Some? ==>
                    r.data.value == old(|pool.cells|)
                    && pool.cells == old(pool.cells)[data.value := Object(ms + [Member(key, r.data.value)])] + [Object([])]
                    && pool.free == old(pool.free) - SlotCost)
              && (r.data.None? ==> unchanged(pool)))
      ensures data.Some? && !old(pool.cells[data.value]).Object? ==> r.data.None? && unchanged(pool)
      ensures r.data.Some? ==>
        Get(key).data == r.data && Is(pool, r.data, ObjectTarget) && Size(pool, r.data) == 0
    {
      var member := GetOrCreate(key);
      r := member.ToObject();
    }

    /**
      `copyFrom(object)`: a deep copy of the source object into this one;
      false when either handle is null (a handle whose cell no longer holds
      an object counts as null), the source is not an object, or the copy does
      not fit, and then nothing changes.
    */
    method CopyFrom(src: ObjectRef) returns (ok: bool)
      requires Valid() && src.Valid()
      modifies pool
      ensures Valid()
      ensures (data.None? || src.data.None?) ==> !ok && (pool != null ==> unchanged(pool))
      ensures data.Some? && src.data.Some? ==>
        var v := old(src.pool.Tree(src.data.value));
        (ok <==> old(pool.cells[data.value]).Object? && v.data.Object? && Cost(v) <= old(pool.free))
        && (ok ==> pool.Tree(data.value) == v && pool.free == old(pool.free) - Cost(v)
                   && |pool.cells| >= old(|pool.cells|)
                   && forall k :: 0 <= k < old(|pool.cells|) && k != data.value ==> pool.cells[k] == old(pool.cells[k]))
        && (!ok ==> unchanged(pool))
    {
      if data.None? || src.data.None? || !pool.cells[data.value].Object?
         || !src.pool.cells[src.data.value].Object? {
        return false;
      }
      var v := src.pool.Tree(src.data.value);
      ok := pool.CopyFrom(data.value, v);
    }
  }
}
