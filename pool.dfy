/**
  The memory pool and the primitive operations on the variants it holds.

  A pool is an arena of variant cells addressed by arena-relative offsets
  (`Addr`). Cell 0 is the document's own root variant; every other cell is a
  slot of some array or object. A collection refers to its children by
  address, and since a child is always allocated after its parent, every
  child address is larger than its parent's: the cells form a forest, and
  `TreeAt` reads the whole subtree below any address as a `Value`.

  The primitives here (get, add, getOrCreate, to-array, to-object, set-null,
  the scalar setters and the deep copy) are those the handle layer calls;
  their own source is not part of this model, so each is stated with the
  behaviour the handles rely on and no more. Capacity is counted in
  allocation units (see `Content.Cost`): an allocation that does not fit
  fails and changes nothing.
*/
module Pool {
  import opened Wrappers
  import opened Integers
  import opened Content

  /** The offset of a variant cell in the pool. */
  type Addr = nat

  /** A stored variant: collections hold the addresses of their children. */
  type Cell = VariantData<Addr>

  /** Every child of d, the cell at address a, lies above a and below n. */
  predicate ChildrenWithin(d: Cell, a: Addr, n: nat)
  {
    match d
    case Array(es) => forall j :: 0 <= j < |es| ==> a < es[j] < n
    case Object(ms) => forall j :: 0 <= j < |ms| ==> a < ms[j].value < n
    case _ => true
  }

  /** The pool's invariant: every child is allocated, and after its parent. */
  predicate WellFormed(cells: seq<Cell>)
  {
    forall a :: 0 <= a < |cells| ==> ChildrenWithin(cells[a], a, |cells|)
  }

  /** The value of the whole subtree stored at address a. */
  function TreeAt(cells: seq<Cell>, a: Addr): Value
    requires WellFormed(cells) && a < |cells|
    decreases |cells| - a
  {
    match cells[a]
    case Array(es) =>
      assert ChildrenWithin(cells[a], a, |cells|);
      Value(Array(seq(|es|, j requires 0 <= j < |es| => TreeAt(cells, es[j]))))
    case Object(ms) =>
      assert ChildrenWithin(cells[a], a, |cells|);
      Value(Object(seq(|ms|, j requires 0 <= j < |ms| =>
        Member(ms[j].key, TreeAt(cells, ms[j].value)))))
    case _ => Value(ScalarAs(cells[a]))
  }

  /**
    A subtree depends only on the cells at and above its address: two
    well-formed pools that agree there hold the same value at a.
  */
  lemma {:induction false} TreeAtFrame(c1: seq<Cell>, c2: seq<Cell>, a: Addr)
    requires WellFormed(c1) && WellFormed(c2) && a < |c1| <= |c2|
    requires forall k :: a <= k < |c1| ==> c1[k] == c2[k]
    ensures TreeAt(c1, a) == TreeAt(c2, a)
    decreases |c1| - a
  {
    assert c1[a] == c2[a];
    assert ChildrenWithin(c1[a], a, |c1|);
    match c1[a]
    case Array(es) =>
      forall j | 0 <= j < |es| ensures TreeAt(c1, es[j]) == TreeAt(c2, es[j]) {
        TreeAtFrame(c1, c2, es[j]);
      }
      assert TreeAt(c1, a).data.elements == TreeAt(c2, a).data.elements;
    case Object(ms) =>
      forall j | 0 <= j < |ms| ensures TreeAt(c1, ms[j].value) == TreeAt(c2, ms[j].value) {
        TreeAtFrame(c1, c2, ms[j].value);
      }
      assert TreeAt(c1, a).data.members == TreeAt(c2, a).data.members;
    case _ =>
  }

  /** Whether address t lies in the subtree stored at address a (a itself included). */
  predicate Within(cells: seq<Cell>, a: Addr, t: Addr)
    requires WellFormed(cells) && a < |cells|
    decreases |cells| - a
  {
    assert ChildrenWithin(cells[a], a, |cells|);
    a == t ||
    match cells[a]
    case Array(es) => exists j :: 0 <= j < |es| && Within(cells, es[j], t)
    case Object(ms) => exists j :: 0 <= j < |ms| && Within(cells, ms[j].value, t)
    case _ => false
  }

  /** Every address of a subtree is at or above its root. */
  lemma {:induction false} WithinAbove(cells: seq<Cell>, a: Addr, t: Addr)
    requires WellFormed(cells) && a < |cells| && Within(cells, a, t)
    ensures a <= t
    decreases |cells| - a
  {
    assert ChildrenWithin(cells[a], a, |cells|);
    if a != t {
      match cells[a]
      case Array(es) =>
        var j :| 0 <= j < |es| && Within(cells, es[j], t);
        WithinAbove(cells, es[j], t);
      case Object(ms) =>
        var j :| 0 <= j < |ms| && Within(cells, ms[j].value, t);
        WithinAbove(cells, ms[j].value, t);
    }
  }

  /**
    A subtree that does not contain address t keeps its value when only t
    changes (and the pool grows): a write elsewhere in the pool cannot reach it.
  */
  lemma {:induction false} TreeAtAvoid(c1: seq<Cell>, c2: seq<Cell>, a: Addr, t: Addr)
    requires WellFormed(c1) && WellFormed(c2) && a < |c1| <= |c2|
    requires forall k :: a <= k < |c1| && k != t ==> c1[k] == c2[k]
    requires !Within(c1, a, t)
    ensures TreeAt(c1, a) == TreeAt(c2, a)
    decreases |c1| - a
  {
    assert c1[a] == c2[a];
    assert ChildrenWithin(c1[a], a, |c1|);
    match c1[a]
    case Array(es) =>
      forall j | 0 <= j < |es| ensures TreeAt(c1, es[j]) == TreeAt(c2, es[j]) {
        assert !Within(c1, es[j], t);
        TreeAtAvoid(c1, c2, es[j], t);
      }
      assert TreeAt(c1, a).data.elements == TreeAt(c2, a).data.elements;
    case Object(ms) =>
      forall j | 0 <= j < |ms| ensures TreeAt(c1, ms[j].value) == TreeAt(c2, ms[j].value) {
        assert !Within(c1, ms[j].value, t);
        TreeAtAvoid(c1, c2, ms[j].value, t);
      }
      assert TreeAt(c1, a).data.members == TreeAt(c2, a).data.members;
    case _ =>
  }

  /** Growing the pool by one null slot keeps it well formed and every subtree as it was. */
  lemma AppendNull(cells: seq<Cell>)
    requires WellFormed(cells)
    ensures WellFormed(cells + [Null])
    ensures forall a :: 0 <= a < |cells| ==> TreeAt(cells + [Null], a) == TreeAt(cells, a)
  {
    var grown := cells + [Null];
    forall a | 0 <= a < |grown| ensures ChildrenWithin(grown[a], a, |grown|) {
      if a < |cells| {
        assert ChildrenWithin(cells[a], a, |cells|);
      }
    }
    forall a | 0 <= a < |cells| ensures TreeAt(grown, a) == TreeAt(cells, a) {
      TreeAtFrame(cells, grown, a);
    }
  }

  /** Replacing one cell by data whose children lie above it keeps the pool well formed. */
  lemma Replace(cells: seq<Cell>, a: Addr, d: Cell)
    requires WellFormed(cells) && a < |cells| && ChildrenWithin(d, a, |cells|)
    ensures WellFormed(cells[a := d])
  {
    var updated := cells[a := d];
    forall k | 0 <= k < |updated| ensures ChildrenWithin(updated[k], k, |updated|) {
      if k != a {
        assert ChildrenWithin(cells[k], k, |cells|);
      }
    }
  }

  /**
    The position of the first member whose key is `key`: lookup by key is a
    scan from the first member, so with duplicate keys the earliest wins.
  */
  function FindKey(ms: seq<Member<Addr>>, key: string): (r: Option<nat>)
    ensures r.Some? ==> r.value < |ms| && ms[r.value].key == key
    ensures r.Some? ==> forall j :: 0 <= j < r.value ==> ms[j].key != key
    ensures r.None? ==> forall j :: 0 <= j < |ms| ==> ms[j].key != key
  {
    if ms == [] then None
    else if ms[0].key == key then Some(0)
    else
      match FindKey(ms[1..], key)
      case None => None
      case Some(j) => Some(j + 1)
  }

  /**
    Appending a member leaves an existing first match where it was, and makes
    the new member the match for its key when it had none before.
  */
  lemma {:induction false} FindKeyAppend(ms: seq<Member<Addr>>, key: string, m: Member<Addr>)
    ensures FindKey(ms, key).Some? ==> FindKey(ms + [m], key) == FindKey(ms, key)
    ensures FindKey(ms, key).None? && m.key == key ==> FindKey(ms + [m], key) == Some(|ms|)
  {
    var grown := ms + [m];
    match FindKey(ms, key)
    case Some(j) =>
      assert grown[j].key == key;
      FirstMatch(grown, key, j);
    case None =>
      if m.key == key {
        assert grown[|ms|].key == key;
        FirstMatch(grown, key, |ms|);
      }
  }

  /** A position whose key matches and that no earlier member's key matches is the one `FindKey` finds. */
  lemma FirstMatch(ms: seq<Member<Addr>>, key: string, j: nat)
    requires j < |ms| && ms[j].key == key
    requires forall i :: 0 <= i < j ==> ms[i].key != key
    ensures FindKey(ms, key) == Some(j)
  {
  }

  /** The members of an object cell, or none when the cell is null (about to be promoted). */
  function MembersOrEmpty(d: Cell): seq<Member<Addr>>
  {
    if d.Object? then d.members else []
  }

  /** The elements of an array cell, or none when the cell is null (about to be promoted). */
  function ElementsOrEmpty(d: Cell): seq<Addr>
  {
    if d.Array? then d.elements else []
  }

  class MemoryPool {
    /** The variant cells allocated so far; cell 0 is the document's root. */
    var cells: seq<Cell>
    /** The allocation units still available. */
    var free: nat

    predicate Valid()
      reads this
    {
      |cells| > 0 && WellFormed(cells)
    }

    /** A document with a null root and `capacity` units of pool. */
    constructor (capacity: nat)
      ensures Valid() && cells == [Null] && free == capacity
    {
      cells := [Null];
      free := capacity;
    }

    /** The value of the subtree at address a. */
    function Tree(a: Addr): Value
      reads this
      requires Valid() && a < |cells|
    {
      TreeAt(cells, a)
    }

    /**
      `VariantData::get(index)`: the address of element `index` when the
      cell is an array that long, and none otherwise.
    */
    function Element(a: Addr, index: nat): (r: Option<Addr>)
      reads this
      requires Valid() && a < |cells|
      ensures r.Some? <==> cells[a].Array? && index < |cells[a].elements|
      ensures r.Some? ==> r.value == cells[a].elements[index] && a < r.value < |cells|
    {
      assert ChildrenWithin(cells[a], a, |cells|);
      if cells[a].Array? && index < |cells[a].elements| then Some(cells[a].elements[index]) else None
    }

    /**
      `VariantData::get(key)`: the address of the first member named `key`
      when the cell is an object that has one, and none otherwise.
    */
    function MemberByKey(a: Addr, key: string): (r: Option<Addr>)
      reads this
      requires Valid() && a < |cells|
      ensures r.Some? <==> cells[a].Object? && exists j :: 0 <= j < |cells[a].members| && cells[a].members[j].key == key
      ensures r.Some? ==> a < r.value < |cells|
      ensures r.Some? ==> exists j :: 0 <= j < |cells[a].members| && cells[a].members[j] == Member(key, r.value)
    {
      assert ChildrenWithin(cells[a], a, |cells|);
      if !cells[a].Object? then None
      else
        match FindKey(cells[a].members, key)
        case None => None
        case Some(j) => Some(cells[a].members[j].value)
    }

    /** `variantSize`: the number of elements or members of a collection, 0 for a scalar. */
    function Size(a: Addr): nat
      reads this
      requires Valid() && a < |cells|
    {
      match cells[a]
      case Array(es) => |es|
      case Object(ms) => |ms|
      case _ => 0
    }

    /** `variantSetNull`: the variant becomes null. */
    method SetNull(a: Addr)
      requires Valid() && a < |cells|
      modifies this
      ensures Valid() && cells == old(cells)[a := Null] && free == old(free)
    {
      Replace(cells, a, Null);
      cells := cells[a := Null];
    }

    /**
      The scalar setters (`variantSetBoolean`, the integer, string and raw
      setters): the variant takes d, and an owned string or raw fragment is
      first copied into the pool. When the copy does not fit, nothing changes
      and the result is false.
    */
    method SetScalar(a: Addr, d: Cell) returns (ok: bool)
      requires Valid() && a < |cells| && !d.IsCollection()
      modifies this
      ensures Valid()
      ensures ok <==> Cost(Value(ScalarAs(d))) <= old(free)
      ensures ok ==> cells == old(cells)[a := d] && free == old(free) - Cost(Value(ScalarAs(d)))
      ensures !ok ==> unchanged(this)
    {
      var cost := Cost(Value(ScalarAs(d)));
      ok := cost <= free;
      if ok {
        Replace(cells, a, d);
        cells := cells[a := d];
        free := free - cost;
      }
    }

    /** `VariantData::toArray`: whatever it held, the variant becomes an empty array. */
    method ToArray(a: Addr)
      requires Valid() && a < |cells|
      modifies this
      ensures Valid() && cells == old(cells)[a := Array([])] && free == old(free)
    {
      Replace(cells, a, Array([]));
      cells := cells[a := Array([])];
    }

    /** `VariantData::toObject`: whatever it held, the variant becomes an empty object. */
    method ToObject(a: Addr)
      requires Valid() && a < |cells|
      modifies this
      ensures Valid() && cells == old(cells)[a := Object([])] && free == old(free)
    {
      Replace(cells, a, Object([]));
      cells := cells[a := Object([])];
    }

    /**
      `CollectionData::add()` on an array: appends a fresh null slot and
      returns its address; none when the cell is not an array or the pool is
      full, and then nothing changes.
    */
    method AddElement(a: Addr) returns (r: Option<Addr>)
      requires Valid() && a < |cells|
      modifies this
      ensures Valid()
      ensures r.Some? <==> old(cells[a]).Array? && SlotCost <= old(free)
      ensures r.Some? ==> (r.value == old(|cells|)
        && cells == old(cells)[a := Array(old(cells[a]).elements + [r.value])] + [Null]
        && free == old(free) - SlotCost)
      ensures r.None? ==> unchanged(this)
    {
      if !cells[a].Array? || free < SlotCost {
        return None;
      }
      var n := |cells|;
      var d := Array(cells[a].elements + [n]);
      AppendNull(cells);
      assert ChildrenWithin(cells[a], a, |cells|);
      Replace(cells + [Null], a, d);
      cells := (cells + [Null])[a := d];
      assert cells == old(cells)[a := d] + [Null];
      free := free - SlotCost;
      r := Some(n);
    }

    /**
      `CollectionData::add(key)` on an object: appends a member `key` with a
      fresh null value and returns the value's address; none when the cell is
      not an object or the pool is full, and then nothing changes.
    */
    method AddMember(a: Addr, key: string) returns (r: Option<Addr>)
      requires Valid() && a < |cells|
      modifies this
      ensures Valid()
      ensures r.Some? <==> old(cells[a]).Object? && SlotCost <= old(free)
      ensures r.Some? ==> (r.value == old(|cells|)
        && cells == old(cells)[a := Object(old(cells[a]).members + [Member(key, r.value)])] + [Null]
        && free == old(free) - SlotCost)
      ensures r.None? ==> unchanged(this)
    {
      if !cells[a].Object? || free < SlotCost {
        return None;
      }
      var n := |cells|;
      var d := Object(cells[a].members + [Member(key, n)]);
      AppendNull(cells);
      assert ChildrenWithin(cells[a], a, |cells|);
      Replace(cells + [Null], a, d);
      cells := (cells + [Null])[a := d];
      assert cells == old(cells)[a := d] + [Null];
      free := free - SlotCost;
      r := Some(n);
    }

    /**
      `CollectionData::getOrCreate(key)`: the first member named `key` if
      there is one (nothing changes), otherwise a new member appended as by
      `AddMember`.
    */
    method GetOrAddMember(a: Addr, key: string) returns (r: Option<Addr>)
      requires Valid() && a < |cells|
      modifies this
      ensures Valid()
      ensures !old(cells[a]).Object? ==> r.None? && unchanged(this)
      ensures old(cells[a]).Object? && FindKey(old(cells[a]).members, key).Some? ==>
        unchanged(this)
        && r == Some(old(cells[a]).members[FindKey(old(cells[a]).members, key).value].value)
      ensures old(cells[a]).Object? && FindKey(old(cells[a]).members, key).None? ==>
        (r.Some? <==> SlotCost <= old(free))
        && (r.Some? ==> (r.value == old(|cells|)
             && cells == old(cells)[a := Object(old(cells[a]).members + [Member(key, r.value)])] + [Null]
             && free == old(free) - SlotCost))
        && (r.None? ==> unchanged(this))
      ensures r.Some? ==> a < r.value < |cells|
    {
      if !cells[a].Object? {
        return None;
      }
      assert ChildrenWithin(cells[a], a, |cells|);
      var found := FindKey(cells[a].members, key);
      if found.Some? {
        return Some(cells[a].members[found.value].value);
      }
      r := AddMember(a, key);
    }

    /**
      `VariantData::add()`: a null variant is first promoted to an empty
      array; an array then gets a fresh null element as by `AddElement`; any
      other kind is left alone and the result is none.
    */
    method Add(a: Addr) returns (r: Option<Addr>)
      requires Valid() && a < |cells|
      modifies this
      ensures Valid()
      ensures !old(cells[a]).Null? && !old(cells[a]).Array? ==> r.None? && unchanged(this)
      ensures (old(cells[a]).Null? || old(cells[a]).Array?) ==>
        (r.Some? <==> SlotCost <= old(free))
        && (r.Some? ==> (r.value == old(|cells|)
             && cells == old(cells)[a := Array(ElementsOrEmpty(old(cells[a])) + [r.value])] + [Null]
             && free == old(free) - SlotCost))
        && (r.None? ==> cells == old(cells)[a := Array(ElementsOrEmpty(old(cells[a])))] && free == old(free))
      ensures r.Some? ==> a < r.value < |cells|
    {
      if cells[a].Null? {
        ToArray(a);
      }
      assert cells[a].Array? ==> cells == old(cells)[a := Array(ElementsOrEmpty(old(cells[a])))];
      r := AddElement(a);
    }

    /**
      `VariantData::getOrCreate(key)`: a null variant is first promoted to an
      empty object; an object then gives its member `key`, created as by
      `GetOrAddMember` when missing; any other kind is left alone and the
      result is none.
    */
    method GetOrCreate(a: Addr, key: string) returns (r: Option<Addr>)
      requires Valid() && a < |cells|
      modifies this
      ensures Valid()
      ensures !old(cells[a]).Null? && !old(cells[a]).Object? ==> r.None? && unchanged(this)
      ensures (old(cells[a]).Null? || old(cells[a]).Object?) ==>
        var ms := MembersOrEmpty(old(cells[a]));
        var promoted := old(cells)[a := Object(ms)];
        (FindKey(ms, key).Some? ==>
           r == Some(ms[FindKey(ms, key).value].value) && cells == promoted && free == old(free))
        && (FindKey(ms, key).None? ==>
             (r.Some? <==> SlotCost <= old(free))
             && (r.Some? ==> (r.value == old(|cells|)
                  && cells == old(cells)[a := Object(ms + [Member(key, r.value)])] + [Null]
                  && free == old(free) - SlotCost))
             && (r.None? ==> cells == promoted && free == old(free)))
      ensures r.Some? ==> a < r.value < |cells|
    {
      if cells[a].Null? {
        ToObject(a);
      }
      assert cells[a].Object? ==> cells == old(cells)[a := Object(MembersOrEmpty(old(cells[a])))];
      r := GetOrAddMember(a, key);
    }

    /**
      The deep copy behind `variantCopyFrom` and the collections'
      `copyFrom`: the variant at dst becomes a copy of v, each child in a
      freshly allocated slot, every other cell keeping its data. When the copy
      does not fit, nothing changes and the result is false.
    */
    method CopyFrom(dst: Addr, v: Value) returns (ok: bool)
      requires Valid() && dst < |cells|
      modifies this
      ensures Valid() && |cells| >= old(|cells|)
      ensures ok <==> Cost(v) <= old(free)
      ensures ok ==> Tree(dst) == v && free == old(free) - Cost(v)
      ensures ok ==> forall k :: 0 <= k < old(|cells|) && k != dst ==> cells[k] == old(cells[k])
      ensures !ok ==> unchanged(this)
    {
      ok := Cost(v) <= free;
      if ok {
        Fill(dst, v);
      }
    }

    /** Writes a deep copy of v into the existing cell a, allocating every child afresh. */
    method Fill(a: Addr, v: Value)
      requires Valid() && a < |cells| && Cost(v) <= free
      modifies this
      ensures Valid() && |cells| >= old(|cells|)
      ensures forall k :: 0 <= k < old(|cells|) && k != a ==> cells[k] == old(cells[k])
      ensures free == old(free) - Cost(v)
      ensures TreeAt(cells, a) == v
      decreases v, 0
    {
      match v.data
      case Array(items) =>
        FillElements(a, items);
      case Object(members) =>
        FillMembers(a, members);
      case _ =>
        Replace(cells, a, ScalarAs(v.data));
        cells := cells[a := ScalarAs(v.data)];
        free := free - Cost(v);
    }

    /** Makes the existing cell a an array of deep copies of `items`. */
    method FillElements(a: Addr, items: seq<Value>)
      requires Valid() && a < |cells| && ElementsCost(items) <= free
      modifies this
      ensures Valid() && |cells| >= old(|cells|)
      ensures forall k :: 0 <= k < old(|cells|) && k != a ==> cells[k] == old(cells[k])
      ensures free == old(free) - ElementsCost(items)
      ensures TreeAt(cells, a) == Value(Array(items))
      decreases items, 3
    {
      var addrs := StoreElements(a, items);
      assert ChildrenWithin(Array(addrs), a, |cells|);
      ghost var before := cells;
      Replace(cells, a, Array(addrs));
      cells := cells[a := Array(addrs)];
      forall j | 0 <= j < |addrs| ensures TreeAt(cells, addrs[j]) == items[j] {
        TreeAtFrame(before, cells, addrs[j]);
      }
      assert TreeAt(cells, a).data.elements == items;
    }

    /** Makes the existing cell a an object of deep copies of `members`, keys in order. */
    method FillMembers(a: Addr, members: seq<Member<Value>>)
      requires Valid() && a < |cells| && MembersCost(members) <= free
      modifies this
      ensures Valid() && |cells| >= old(|cells|)
      ensures forall k :: 0 <= k < old(|cells|) && k != a ==> cells[k] == old(cells[k])
      ensures free == old(free) - MembersCost(members)
      ensures TreeAt(cells, a) == Value(Object(members))
      decreases members, 3
    {
      var ms := StoreMembers(a, members);
      assert ChildrenWithin(Object(ms), a, |cells|);
      ghost var before := cells;
      Replace(cells, a, Object(ms));
      cells := cells[a := Object(ms)];
      forall j | 0 <= j < |ms| ensures TreeAt(cells, ms[j].value) == members[j].value {
        TreeAtFrame(before, cells, ms[j].value);
      }
      assert TreeAt(cells, a).data.members == members;
    }

    /** Stores every item in a fresh slot, in order, for the array at `parent`. */
    method StoreElements(parent: Addr, items: seq<Value>) returns (addrs: seq<Addr>)
      requires Valid() && parent < |cells| && ElementsCost(items) <= free
      modifies this
      ensures Valid() && |cells| >= old(|cells|)
      ensures forall k :: 0 <= k < old(|cells|) ==> cells[k] == old(cells[k])
      ensures free == old(free) - ElementsCost(items)
      ensures |addrs| == |items|
      ensures forall j :: 0 <= j < |addrs| ==> parent < addrs[j] < |cells| && TreeAt(cells, addrs[j]) == items[j]
      decreases items, 2
    {
      addrs := [];
      var i := 0;
      while i < |items|
        invariant 0 <= i <= |items| && |addrs| == i
        invariant Valid() && |cells| >= old(|cells|)
        invariant forall k :: 0 <= k < old(|cells|) ==> cells[k] == old(cells[k])
        invariant ElementsCost(items[i..]) <= free
        invariant free + ElementsCost(items) == old(free) + ElementsCost(items[i..])
        invariant forall j :: 0 <= j < i ==> parent < addrs[j] < |cells| && TreeAt(cells, addrs[j]) == items[j]
      {
        assert items[i..][1..] == items[i + 1..];
        ghost var before := cells;
        var c := Store(items[i]);
        forall j | 0 <= j < i ensures TreeAt(cells, addrs[j]) == items[j] {
          TreeAtFrame(before, cells, addrs[j]);
        }
        addrs := addrs + [c];
        i := i + 1;
      }
    }

    /** Stores every member's value in a fresh slot, in order, for the object at `parent`. */
    method StoreMembers(parent: Addr, members: seq<Member<Value>>) returns (ms: seq<Member<Addr>>)
      requires Valid() && parent < |cells| && MembersCost(members) <= free
      modifies this
      ensures Valid() && |cells| >= old(|cells|)
      ensures forall k :: 0 <= k < old(|cells|) ==> cells[k] == old(cells[k])
      ensures free == old(free) - MembersCost(members)
      ensures |ms| == |members|
      ensures forall j :: 0 <= j < |ms| ==>
        ms[j].key == members[j].key && parent < ms[j].value < |cells| && TreeAt(cells, ms[j].value) == members[j].value
      decreases members, 2
    {
      ms := [];
      var i := 0;
      while i < |members|
        invariant 0 <= i <= |members| && |ms| == i
        invariant Valid() && |cells| >= old(|cells|)
        invariant forall k :: 0 <= k < old(|cells|) ==> cells[k] == old(cells[k])
        invariant MembersCost(members[i..]) <= free
        invariant free + MembersCost(members) == old(free) + MembersCost(members[i..])
        invariant forall j :: 0 <= j < i ==>
          ms[j].key == members[j].key && parent < ms[j].value < |cells| && TreeAt(cells, ms[j].value) == members[j].value
      {
        assert members[i..][1..] == members[i + 1..];
        ghost var before := cells;
        var c := Store(members[i].value);
        forall j | 0 <= j < i ensures TreeAt(cells, ms[j].value) == members[j].value {
          TreeAtFrame(before, cells, ms[j].value);
        }
        ms := ms + [Member(members[i].key, c)];
        i := i + 1;
      }
    }

    /** Allocates a fresh slot holding a deep copy of v and returns its address. */
    method Store(v: Value) returns (c: Addr)
      requires Valid() && SlotCost + Cost(v) <= free
      modifies this
      ensures Valid() && c == old(|cells|) < |cells|
      ensures forall k :: 0 <= k < old(|cells|) ==> cells[k] == old(cells[k])
      ensures free == old(free) - SlotCost - Cost(v)
      ensures TreeAt(cells, c) == v
      decreases v, 1
    {
      c := |cells|;
      AppendNull(cells);
      cells := cells + [Null];
      free := free - SlotCost;
      Fill(c, v);
    }
  }
}
