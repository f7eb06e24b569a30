/**
  `ElementProxy`: what `array[index]` returns. A proxy keeps the parent
  handle and the index given to `operator[]`, and every read and write
  resolves the element afresh with the parent's non-creating `get(index)`.
  So a proxy on an index past the end reads as null and writes nothing, and
  no proxy operation ever adds an element to the parent.
*/
module ElementProxies {
  import opened Wrappers
  import opened Integers
  import opened Content
  import opened Pool
  import opened Refs

  /** The handle a proxy indexes (its template argument TArray): an array handle or a variant handle. */
  datatype Parent = ArrayParent(array: ArrayRef) | VariantParent(variant: VariantRef) {

    function PoolRef(): MemoryPool?
    {
      match this
      case ArrayParent(a) => a.pool
      case VariantParent(v) => v.pool
    }

    function Data(): Option<Addr>
    {
      match this
      case ArrayParent(a) => a.data
      case VariantParent(v) => v.data
    }

    predicate Valid()
      reads PoolRef()
    {
      Points(PoolRef(), Data())
    }

    /** Whether the parent is an array with more than `index` elements. */
    predicate HasElement(index: nat)
      reads PoolRef()
      requires Valid()
    {
      Data().Some? && PoolRef().cells[Data().value].Array? && index < |PoolRef().cells[Data().value].elements|
    }

    /**
      The parent's `get(index)`, by `ArrayRef::get` or `VariantRef::get`: the
      element when there is one, and null data otherwise; never creating.
    */
    function Get(index: nat): (r: VariantRef)
      reads PoolRef()
      requires Valid()
      ensures r.pool == PoolRef() && r.Valid()
      ensures r.data.Some? <==> HasElement(index)
      ensures r.data.Some? ==>
        r.data.value == PoolRef().cells[Data().value].elements[index] && r.data.value > Data().value
    {
      match this
      case ArrayParent(a) => a.Get(index)
      case VariantParent(v) => v.GetIndex(index)
    }
  }

  /** `ArrayShortcuts::operator[](index)`: a proxy on the parent and that index, which it keeps for good. */
  function Subscript(parent: Parent, index: nat): (p: ElementProxy)
    ensures p.parent == parent && p.index == index
    ensures parent.Valid() ==> p.Valid() && (p.Element().Some? <==> parent.HasElement(index))
  {
    ElementProxy(parent, index)
  }

  datatype ElementProxy = ElementProxy(parent: Parent, index: nat) {

    predicate Valid()
      reads parent.PoolRef()
    {
      parent.Valid()
    }

    /** `get_impl()`: the element, resolved through the parent's `get(index)`. */
    function GetImpl(): (r: VariantRef)
      reads parent.PoolRef()
      requires Valid()
      ensures r.pool == parent.PoolRef() && r.Valid()
      ensures r.data.Some? <==> parent.HasElement(index)
      ensures r.data.Some? ==> r.data.value > parent.Data().value
    {
      parent.Get(index)
    }

    /** The address of the element the proxy resolves to now, if any. */
    function Element(): Option<Addr>
      reads parent.PoolRef()
      requires Valid()
    {
      GetImpl().data
    }

    // ----- Reads -----

    /** `isNull()`: the element is null, or missing. */
    predicate IsNull()
      reads parent.PoolRef()
      requires Valid()
      ensures !parent.HasElement(index) ==> IsNull()
      ensures parent.HasElement(index) ==> (IsNull() <==> parent.PoolRef().cells[Element().value].Null?)
    {
      Refs.IsNull(parent.PoolRef(), Element())
    }

    /** `is<T>()` of the element; false when it is missing. */
    predicate Is(target: Target)
      reads parent.PoolRef()
      requires Valid()
      ensures Is(target) <==> parent.HasElement(index) && Refs.Is(parent.PoolRef(), Element(), target)
    {
      Refs.Is(parent.PoolRef(), Element(), target)
    }

    /** `size()` of the element; 0 when it is missing. */
    function Size(): (n: nat)
      reads parent.PoolRef()
      requires Valid()
      ensures !parent.HasElement(index) ==> n == 0
      ensures parent.HasElement(index) ==>
        var d := parent.PoolRef().cells[Element().value];
        (d.Array? ==> n == |d.elements|) && (d.Object? ==> n == |d.members|) && (!d.IsCollection() ==> n == 0)
    {
      Refs.Size(parent.PoolRef(), Element())
    }

    /** `as<T>()` for an integral T, of the element; 0 when it is missing. */
    function AsIntegral(t: IntegralType, c: Coercions): (r: int)
      reads parent.PoolRef()
      requires Valid()
      ensures !parent.HasElement(index) ==> r == 0
      ensures parent.HasElement(index) ==> r == parent.PoolRef().cells[Element().value].AsIntegral(t, c)
    {
      Refs.AsIntegral(parent.PoolRef(), Element(), t, c)
    }

    /** `as<const char*>()` of the element; null when it is missing. */
    function AsString(): (r: Option<string>)
      reads parent.PoolRef()
      requires Valid()
      ensures !parent.HasElement(index) ==> r.None?
      ensures parent.HasElement(index) ==> r == parent.PoolRef().cells[Element().value].AsString()
    {
      Refs.AsString(parent.PoolRef(), Element())
    }

    /** `as<VariantConstRef>()`: a read-only handle on the element, null when it is missing. */
    function AsConst(): (r: VariantConstRef)
      reads parent.PoolRef()
      requires Valid()
      ensures r.Valid() && r.pool == parent.PoolRef()
      ensures r.data.Some? <==> parent.HasElement(index)
      ensures r.data == Element()
    {
      GetImpl().AsConst()
    }

    /** `get(key)` on the element, for pointer and reference keys alike; null when the element is missing. */
    function GetKey(key: string): (r: VariantRef)
      reads parent.PoolRef()
      requires Valid()
      ensures r.Valid() && r.pool == parent.PoolRef()
      ensures !parent.HasElement(index) ==> r.data.None?
      ensures r.data.Some? ==> r.data.value > Element().value
      ensures r.data.Some? <==> (parent.HasElement(index) && Refs.Is(parent.PoolRef(), Element(), ObjectTarget) &&
        var ms := parent.PoolRef().cells[Element().value].members;
        exists j :: 0 <= j < |ms| && ms[j].key == key)
      ensures r.data.Some? ==> var ms := parent.PoolRef().cells[Element().value].members;
        FindKey(ms, key).Some? && r.data.value == ms[FindKey(ms, key).value].value
    {
      GetImpl().GetKey(key)
    }

    // ----- Writes -----

    /**
      `set(value)` and `operator=(value)` for a scalar: `get(index).set(value)`.
      A missing element answers false and nothing changes; otherwise only the
      element's own cell changes, never the parent's.
    */
    method Set(arg: Argument) returns (ok: bool)
      requires Valid()
      modifies parent.PoolRef()
      ensures Valid()
      ensures parent.PoolRef() != null ==> |parent.PoolRef().cells| >= old(|parent.PoolRef().cells|)
      ensures old(Element()).None? ==> !ok && (parent.PoolRef() != null ==> unchanged(parent.PoolRef()))
      ensures old(Element()).Some? ==>
        var e := old(Element()).value;
        (ok <==> StoreCost(arg) <= old(parent.PoolRef().free))
        && (ok ==> parent.PoolRef().cells == old(parent.PoolRef().cells)[e := Routed(arg)]
                   && parent.PoolRef().free == old(parent.PoolRef().free) - StoreCost(arg))
        && (!ok ==> unchanged(parent.PoolRef()))
      ensures parent.Data().Some? ==> ParentUnchanged(old(parent.PoolRef().cells))
    {
      var element := GetImpl();
      ok := element.Set(arg);
    }

    /**
      `set(VariantRef)` and `operator=(VariantRef)`: `get(index).set(src)`, a
      deep copy of the source into the element, with everything
      `VariantRef::set` promises: a null source makes the element null, a copy
      that does not fit changes nothing.
    */
    method SetVariant(src: VariantRef) returns (ok: bool)
      requires Valid() && src.Valid()
      modifies parent.PoolRef()
      ensures Valid()
      ensures parent.PoolRef() != null ==> |parent.PoolRef().cells| >= old(|parent.PoolRef().cells|)
      ensures old(Element()).None? ==> !ok && (parent.PoolRef() != null ==> unchanged(parent.PoolRef()))
      ensures old(Element()).Some? && src.data.None? ==>
        var e := old(Element()).value;
        ok && parent.PoolRef().cells == old(parent.PoolRef().cells)[e := Null]
        && parent.PoolRef().free == old(parent.PoolRef().free)
      ensures old(Element()).Some? && src.data.Some? ==>
        var e := old(Element()).value;
        var v := old(src.pool.Tree(src.data.value));
        (ok <==> Cost(v) <= old(parent.PoolRef().free))
        && (ok ==> parent.PoolRef().Tree(e) == v && parent.PoolRef().free == old(parent.PoolRef().free) - Cost(v))
        && (!ok ==> unchanged(parent.PoolRef()))
      ensures old(Element()).Some? ==> OthersUnchanged(old(Element()).value, old(parent.PoolRef().cells))
      ensures parent.Data().Some? ==> ParentUnchanged(old(parent.PoolRef().cells))
    {
      var element := GetImpl();
      ok := element.SetVariant(src);
    }

    /**
      `set(ArrayRef)` and `operator=(ArrayRef)`: `get(index).set(src)`, so the
      element becomes an empty array, then a copy of the source array.
    */
    method SetArray(src: ArrayRef) returns (ok: bool)
      requires Valid() && src.Valid()
      modifies parent.PoolRef()
      ensures Valid()
      ensures parent.PoolRef() != null ==> |parent.PoolRef().cells| >= old(|parent.PoolRef().cells|)
      ensures old(Element()).None? ==> !ok && (parent.PoolRef() != null ==> unchanged(parent.PoolRef()))
      ensures old(Element()).Some? && !ok ==>
        var e := old(Element()).value;
        parent.PoolRef().cells == old(parent.PoolRef().cells)[e := Array([])]
        && parent.PoolRef().free == old(parent.PoolRef().free)
      ensures old(Element()).Some? && src.data.None? ==> !ok
      ensures
        (old(Element()).Some? && src.data.Some?
         && (src.pool != parent.PoolRef() || old(!Within(parent.PoolRef().cells, src.data.value, Element().value))))
        ==>
        var e := old(Element()).value;
        var v := old(src.pool.Tree(src.data.value));
        (ok <==> v.data.Array? && Cost(v) <= old(parent.PoolRef().free))
        && (ok ==> parent.PoolRef().Tree(e) == v && parent.PoolRef().free == old(parent.PoolRef().free) - Cost(v))
      ensures old(Element()).Some? && src.pool == parent.PoolRef() && src.data == old(Element()) ==>
        var e := old(Element()).value;
        ok && parent.PoolRef().Tree(e) == Value(Array([])) && parent.PoolRef().free == old(parent.PoolRef().free)
      ensures old(Element()).Some? ==> OthersUnchanged(old(Element()).value, old(parent.PoolRef().cells))
      ensures parent.Data().Some? ==> ParentUnchanged(old(parent.PoolRef().cells))
    {
      var element := GetImpl();
      ok := element.SetArray(src);
    }

    /**
      `set(ObjectRef)` and `operator=(ObjectRef)`: `get(index).set(src)`, so
      the element becomes an empty object, then a copy of the source object.
    */
    method SetObject(src: ObjectRef) returns (ok: bool)
      requires Valid() && src.Valid()
      modifies parent.PoolRef()
      ensures Valid()
      ensures parent.PoolRef() != null ==> |parent.PoolRef().cells| >= old(|parent.PoolRef().cells|)
      ensures old(Element()).None? ==> !ok && (parent.PoolRef() != null ==> unchanged(parent.PoolRef()))
      ensures old(Element()).Some? && !ok ==>
        var e := old(Element()).value;
        parent.PoolRef().cells == old(parent.PoolRef().cells)[e := Object([])]
        && parent.PoolRef().free == old(parent.PoolRef().free)
      ensures old(Element()).Some? && src.data.None? ==> !ok
      ensures
        (old(Element()).Some? && src.data.Some?
         && (src.pool != parent.PoolRef() || old(!Within(parent.PoolRef().cells, src.data.value, Element().value))))
        ==>
        var e := old(Element()).value;
        var v := old(src.pool.Tree(src.data.value));
        (ok <==> v.data.Object? && Cost(v) <= old(parent.PoolRef().free))
        && (ok ==> parent.PoolRef().Tree(e) == v && parent.PoolRef().free == old(parent.PoolRef().free) - Cost(v))
      ensures old(Element()).Some? && src.pool == parent.PoolRef() && src.data == old(Element()) ==>
        var e := old(Element()).value;
        ok && parent.PoolRef().Tree(e) == Value(Object([])) && parent.PoolRef().free == old(parent.PoolRef().free)
      ensures old(Element()).Some? ==> OthersUnchanged(old(Element()).value, old(parent.PoolRef().cells))
      ensures parent.Data().Some? ==> ParentUnchanged(old(parent.PoolRef().cells))
    {
      var element := GetImpl();
      ok := element.SetObject(src);
    }

    /**
      `operator=(const ElementProxy&)`: the element takes a copy of the
      source proxy's element as it reads now (through `as<VariantConstRef>`);
      a missing source element makes this one null, and a copy that does not
      fit changes nothing.
    */
    method Assign(src: ElementProxy)
      requires Valid() && src.Valid()
      modifies parent.PoolRef()
      ensures Valid()
      ensures parent.PoolRef() != null ==> |parent.PoolRef().cells| >= old(|parent.PoolRef().cells|)
      ensures old(Element()).None? ==> parent.PoolRef() != null ==> unchanged(parent.PoolRef())
      ensures old(Element()).Some? && old(src.Element()).None? ==>
        var e := old(Element()).value;
        parent.PoolRef().cells == old(parent.PoolRef().cells)[e := Null]
        && parent.PoolRef().free == old(parent.PoolRef().free)
      ensures old(Element()).Some? && old(src.Element()).Some? ==>
        var e := old(Element()).value;
        var v := old(src.parent.PoolRef().Tree(src.Element().value));
        (Cost(v) <= old(parent.PoolRef().free) ==>
           parent.PoolRef().Tree(e) == v && parent.PoolRef().free == old(parent.PoolRef().free) - Cost(v))
        && (Cost(v) > old(parent.PoolRef().free) ==> unchanged(parent.PoolRef()))
      ensures old(Element()).Some? ==> OthersUnchanged(old(Element()).value, old(parent.PoolRef().cells))
      ensures parent.Data().Some? ==> ParentUnchanged(old(parent.PoolRef().cells))
    {
      var element := GetImpl();
      var value := src.AsConst();
      var _ := element.SetConst(value);
    }

    /** `to<ArrayRef>()`: the element becomes an empty array; a null array handle when it is missing. */
    method ToArray() returns (r: ArrayRef)
      requires Valid()
      modifies parent.PoolRef()
      ensures parent.PoolRef() != null ==> |parent.PoolRef().cells| >= old(|parent.PoolRef().cells|)
      ensures Valid() && r.Valid() && r.pool == parent.PoolRef() && r.data == old(Element())
      ensures old(Element()).None? ==> parent.PoolRef() != null ==> unchanged(parent.PoolRef())
      ensures old(Element()).Some? ==>
        parent.PoolRef().cells == old(parent.PoolRef().cells)[old(Element()).value := Array([])]
        && parent.PoolRef().free == old(parent.PoolRef().free)
      ensures parent.Data().Some? ==> ParentUnchanged(old(parent.PoolRef().cells))
    {
      var element := GetImpl();
      r := element.ToArray();
    }

    /** `to<ObjectRef>()`: the element becomes an empty object; a null object handle when it is missing. */
    method ToObject() returns (r: ObjectRef)
      requires Valid()
      modifies parent.PoolRef()
      ensures parent.PoolRef() != null ==> |parent.PoolRef().cells| >= old(|parent.PoolRef().cells|)
      ensures Valid() && r.Valid() && r.pool == parent.PoolRef() && r.data == old(Element())
      ensures old(Element()).None? ==> parent.PoolRef() != null ==> unchanged(parent.PoolRef())
      ensures old(Element()).Some? ==>
        parent.PoolRef().cells == old(parent.PoolRef().cells)[old(Element()).value := Object([])]
        && parent.PoolRef().free == old(parent.PoolRef().free)
      ensures parent.Data().Some? ==> ParentUnchanged(old(parent.PoolRef().cells))
    {
      var element := GetImpl();
      r := element.ToObject();
    }

    /** `to<VariantRef>()`: the element becomes null; a handle on it is returned. */
    method ToVariant() returns (r: VariantRef)
      requires Valid()
      modifies parent.PoolRef()
      ensures parent.PoolRef() != null ==> |parent.PoolRef().cells| >= old(|parent.PoolRef().cells|)
      ensures Valid() && r.Valid() && r.pool == parent.PoolRef() && r.data == old(Element())
      ensures old(Element()).None? ==> parent.PoolRef() != null ==> unchanged(parent.PoolRef())
      ensures old(Element()).Some? ==>
        parent.PoolRef().cells == old(parent.PoolRef().cells)[old(Element()).value := Null]
        && parent.PoolRef().free == old(parent.PoolRef().free)
      ensures parent.Data().Some? ==> ParentUnchanged(old(parent.PoolRef().cells))
    {
      var element := GetImpl();
      r := element.ToVariant();
    }

    /**
      `getOrCreate(key)` on the element, for pointer and reference keys
      alike: a null element is promoted to an object, then the first member
      named `key` is returned, appended with a null value if missing. A
      missing element, an element of another kind and a full pool give a null
      handle; the parent array is never touched.
    */
    method GetOrCreate(key: string) returns (r: VariantRef)
      requires Valid()
      modifies parent.PoolRef()
      ensures parent.PoolRef() != null ==> |parent.PoolRef().cells| >= old(|parent.PoolRef().cells|)
      ensures Valid() && r.Valid() && r.pool == parent.PoolRef()
      ensures old(Element()).None? ==> r.data.None? && (parent.PoolRef() != null ==> unchanged(parent.PoolRef()))
      ensures old(Element()).Some? ==>
        var e := old(Element()).value;
        var d := old(parent.PoolRef().cells[e]);
        (!d.Null? && !d.Object? ==> r.data.None? && unchanged(parent.PoolRef()))
        && (d.Null? || d.Object? ==>
             var ms := MembersOrEmpty(d);
             parent.PoolRef().cells[e].Object?
             && (FindKey(ms, key).Some? ==>
                   r.data == Some(ms[FindKey(ms, key).value].value)
                   && parent.PoolRef().cells == old(parent.PoolRef().cells)[e := Object(ms)]
                   && parent.PoolRef().free == old(parent.PoolRef().free))
             && (FindKey(ms, key).None? ==>
                   (r.data.Some? <==> SlotCost <= old(parent.PoolRef().free))
                   && (r.data.Some? ==>
                         r.data.value == old(|parent.PoolRef().cells|)
                         && parent.PoolRef().cells
                            == old(parent.PoolRef().cells)[e := Object(ms + [Member(key, r.data.value)])] + [Null]
                         && parent.PoolRef().free == old(parent.PoolRef().free) - SlotCost)
                   && (r.data.None? ==>
                         parent.PoolRef().cells == old(parent.PoolRef().cells)[e := Object(ms)]
                         && parent.PoolRef().free == old(parent.PoolRef().free))))
      ensures r.data.Some? ==> old(Element()).Some? && r.data.value > old(Element()).value
      ensures r.data.Some? ==> Element() == old(Element()) && GetKey(key) == r
      ensures parent.Data().Some? ==> ParentUnchanged(old(parent.PoolRef().cells))
    {
      var element := GetImpl();
      r := element.GetOrCreate(key);
    }

    /** Every cell of `before` other than e keeps its data, and the pool has not shrunk. */
    predicate OthersUnchanged(e: Addr, before: seq<Cell>)
      reads parent.PoolRef()
      requires parent.PoolRef() != null
    {
      |parent.PoolRef().cells| >= |before|
      && forall k :: 0 <= k < |before| && k != e ==> parent.PoolRef().cells[k] == before[k]
    }

    /** The parent's own cell (its list of elements) is as it was in `before`. */
    predicate ParentUnchanged(before: seq<Cell>)
      reads parent.PoolRef()
      requires parent.Data().Some? && parent.PoolRef() != null
    {
      parent.Data().value < |before| && parent.Data().value < |parent.PoolRef().cells|
      && parent.PoolRef().cells[parent.Data().value] == before[parent.Data().value]
    }
  }

  /**
    `VariantRef::set(const ElementProxy&)`: the variant takes a copy of the
    proxy's element, read through `as<VariantRef>()`; a missing element makes
    it null.
  */
  method SetFromElement(target: VariantRef, src: ElementProxy) returns (ok: bool)
    requires target.Valid() && src.Valid()
    modifies target.pool
    ensures target.Valid()
    ensures target.data.None? ==> !ok && (target.pool != null ==> unchanged(target.pool))
    ensures target.data.Some? && old(src.Element()).None? ==>
      ok && target.pool.cells == old(target.pool.cells)[target.data.value := Null]
      && target.pool.free == old(target.pool.free)
    ensures target.data.Some? && old(src.Element()).Some? ==>
      var v := old(src.parent.PoolRef().Tree(src.Element().value));
      (ok <==> Cost(v) <= old(target.pool.free))
      && (ok ==> target.pool.Tree(target.data.value) == v && target.pool.free == old(target.pool.free) - Cost(v))
      && (!ok ==> unchanged(target.pool))
    ensures target.data.Some? ==>
      |target.pool.cells| >= old(|target.pool.cells|)
      && forall k :: 0 <= k < old(|target.pool.cells|) && k != target.data.value ==>
           target.pool.cells[k] == old(target.pool.cells[k])
  {
    ok := target.SetVariant(src.GetImpl());
  }
}
