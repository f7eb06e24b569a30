/**
  The tagged value behind every handle (`VariantData`): one active kind and its
  payload, and the coercions `asIntegral` and `asString` that read a payload
  as another type.

  The type parameter C is how a collection refers to its children: an
  address in the memory pool for the stored form (see module Pool), or the
  child's own value for a snapshot of a whole subtree (`Value` below).
*/
module Content {
  import opened Wrappers
  import opened Integers

  /** The bits of a stored floating-point number; no arithmetic is modelled on them. */
  type FloatBits = bv64

  /** One member of an object: a key and the member's value. */
  datatype Member<C> = Member(key: string, value: C)

  /** The kinds a variant can hold, each with its payload. */
  datatype VariantData<C> =
    | Null
    | Boolean(b: bool)
    | PositiveInteger(u: UInt)
      /** a negative integer, stored as its magnitude */
    | NegativeInteger(magnitude: UInt)
    | Float(bits: FloatBits)
      /** a zero-copy string that the caller keeps alive */
    | LinkedString(s: string)
      /** a string copied into the memory pool */
    | OwnedString(s: string)
    | LinkedRaw(raw: string)
    | OwnedRaw(raw: string)
    | Array(elements: seq<C>)
    | Object(members: seq<Member<C>>)
  {
    predicate IsNull() { Null? }
    predicate IsBoolean() { Boolean? }
    predicate IsInteger() { PositiveInteger? || NegativeInteger? }
    predicate IsFloat() { Float? }
    predicate IsString() { LinkedString? || OwnedString? }
    predicate IsArray() { Array? }
    predicate IsObject() { Object? }
    predicate IsCollection() { Array? || Object? }

    /**
      `asIntegral<T>()`: the payload read as the integral type t. A positive
      integer or a boolean gives its payload converted to t, a negative one
      the 64-bit two's-complement negation of its magnitude converted to t,
      a string what the integer parser makes of it, a float its conversion,
      and every other kind 0.
    */
    function AsIntegral(t: IntegralType, c: Coercions): (r: int)
      ensures (PositiveInteger? || NegativeInteger? || Boolean?) ==> t.Contains(r)
      ensures PositiveInteger? ==> (r - u) % t.width.Modulus() == 0
      ensures PositiveInteger? && t.Contains(u) ==> r == u
      ensures Boolean? ==> r == (if b then 1 else 0)
      ensures NegativeInteger? ==> (r + magnitude) % t.width.Modulus() == 0
      ensures NegativeInteger? && t.Contains(-(magnitude as int)) ==> r == -(magnitude as int)
      ensures IsString() ==> r == c.parseInteger(t, s)
      ensures Float? ==> r == c.convertFloat(t, bits)
      ensures (Null? || LinkedRaw? || OwnedRaw? || IsCollection()) ==> r == 0
    {
      match this
      case PositiveInteger(u) =>
        ConvertExactIfContained(t, u);
        Convert(t, u)
      case Boolean(b) =>
        ConvertExact(t, BooleanPayload(b));
        Convert(t, BooleanPayload(b))
      case NegativeInteger(m) =>
        ConvertNegate(t, m);
        Convert(t, Negate(m))
      case LinkedString(s) => c.parseInteger(t, s)
      case OwnedString(s) => c.parseInteger(t, s)
      case Float(f) => c.convertFloat(t, f)
      case _ => 0
    }

    /**
      `asString()`: the stored string for a linked or an owned string, and
      no string for every other kind (raw fragments included).
    */
    function AsString(): (r: Option<string>)
      ensures r.Some? <==> IsString()
      ensures r.Some? ==> r.value == s
    {
      match this
      case LinkedString(s) => Some(s)
      case OwnedString(s) => Some(s)
      case _ => None
    }
  }

  /** A scalar (non-collection) variant read with another child type; the payload is unchanged. */
  function ScalarAs<C, D>(d: VariantData<C>): (r: VariantData<D>)
    requires !d.IsCollection()
    ensures !r.IsCollection()
  {
    match d
    case Null => Null
    case Boolean(b) => Boolean(b)
    case PositiveInteger(u) => PositiveInteger(u)
    case NegativeInteger(m) => NegativeInteger(m)
    case Float(f) => Float(f)
    case LinkedString(s) => LinkedString(s)
    case OwnedString(s) => OwnedString(s)
    case LinkedRaw(raw) => LinkedRaw(raw)
    case OwnedRaw(raw) => OwnedRaw(raw)
  }

  /**
    What the library does with a string or a float when read as an integer:
    `parseInteger<T>` and the float-to-integer conversion. Neither is part of
    this model, so callers supply them.
  */
  datatype Coercions = Coercions(
    parseInteger: (IntegralType, string) -> int,
    convertFloat: (IntegralType, FloatBits) -> int)

  /** The integer a boolean keeps in the integer field: 1 for true, 0 for false. */
  function BooleanPayload(b: bool): UInt
  {
    if b then 1 else 0
  }

  lemma ConvertExactIfContained(t: IntegralType, x: int)
    ensures t.Contains(x) ==> Convert(t, x) == x
  {
    if t.Contains(x) {
      ConvertExact(t, x);
    }
  }

  /**
    The data a signed setter stores: a non-negative value as a positive
    integer, a negative one as its magnitude.
  */
  function SignedInteger<C>(x: Integer): (d: VariantData<C>)
    ensures d.IsInteger()
  {
    if x >= 0 then PositiveInteger(x) else NegativeInteger(-(x as int))
  }

  /** The data an unsigned setter stores. */
  function UnsignedInteger<C>(x: UInt): (d: VariantData<C>)
    ensures d.PositiveInteger?
  {
    PositiveInteger(x)
  }

  /** A signed value stored and read back as any type that can hold it is unchanged. */
  lemma SignedRoundTrip<C>(x: Integer, t: IntegralType, c: Coercions)
    requires t.Contains(x)
    ensures SignedInteger<C>(x).AsIntegral(t, c) == x
  {
  }

  /** An unsigned value stored and read back as any type that can hold it is unchanged. */
  lemma UnsignedRoundTrip<C>(x: UInt, t: IntegralType, c: Coercions)
    requires t.Contains(x)
    ensures UnsignedInteger<C>(x).AsIntegral(t, c) == x
  {
  }

  /**
    A signed value read back as a narrower (or unsigned) type is the value
    modulo 2^width: the sign-and-magnitude storage loses nothing.
  */
  lemma {:induction false} SignedTruncates<C>(x: Integer, t: IntegralType, c: Coercions)
    ensures (SignedInteger<C>(x).AsIntegral(t, c) - x) % t.width.Modulus() == 0
  {
  }

  /** A snapshot of a whole subtree: a variant whose children are values. */
  datatype Value = Value(data: VariantData<Value>)

  /** The allocation units one slot of a collection takes in the pool. */
  const SlotCost: nat := 1

  /** The allocation units a copied string takes: its characters and the terminating NUL. */
  function StringCost(s: string): nat
  {
    |s| + 1
  }

  /**
    The pool units a deep copy of v into an existing variant allocates: a slot
    per element or member and the bytes of every owned string and owned raw
    fragment; linked strings and raw fragments are not copied.
  */
  function Cost(v: Value): nat
  {
    match v.data
    case OwnedString(s) => StringCost(s)
    case OwnedRaw(raw) => |raw|
    case Array(items) => ElementsCost(items)
    case Object(members) => MembersCost(members)
    case _ => 0
  }

  function ElementsCost(items: seq<Value>): nat
  {
    if items == [] then 0 else SlotCost + Cost(items[0]) + ElementsCost(items[1..])
  }

  function MembersCost(members: seq<Member<Value>>): nat
  {
    if members == [] then 0 else SlotCost + Cost(members[0].value) + MembersCost(members[1..])
  }

  /** Nesting depth: 0 for a scalar, one more than the deepest child for a collection. */
  function Depth(v: Value): (n: nat)
    ensures n == 0 <==> !v.data.IsCollection()
  {
    match v.data
    case Array(items) => 1 + ElementsDepth(items)
    case Object(members) => 1 + MembersDepth(members)
    case _ => 0
  }

  function ElementsDepth(items: seq<Value>): nat
  {
    if items == [] then 0 else Max(Depth(items[0]), ElementsDepth(items[1..]))
  }

  function MembersDepth(members: seq<Member<Value>>): nat
  {
    if members == [] then 0 else Max(Depth(members[0].value), MembersDepth(members[1..]))
  }

  function Max(x: nat, y: nat): nat
  {
    if x < y then y else x
  }

  /**
    The value with every string and raw fragment marked linked: two values
    that differ only in where their strings live compare equal.
  */
  function Unowned(v: Value): Value
  {
    match v.data
    case OwnedString(s) => Value(LinkedString(s))
    case OwnedRaw(raw) => Value(LinkedRaw(raw))
    case Array(items) => Value(Array(seq(|items|, i requires 0 <= i < |items| => Unowned(items[i]))))
    case Object(members) =>
      Value(Object(seq(|members|, i requires 0 <= i < |members| =>
        Member(members[i].key, Unowned(members[i].value)))))
    case _ => v
  }

  /** Equality of two values: same kinds, same payloads, same children in the same order. */
  predicate Equivalent(v: Value, w: Value)
  {
    Unowned(v) == Unowned(w)
  }
}
