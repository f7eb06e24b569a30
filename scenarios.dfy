/**
  The behaviour the library's own tests of the create-nested compositions
  check, stated on a fresh document of 4096 units.
*/
module Scenarios {
  import opened Wrappers
  import opened Content
  import opened Pool
  import opened Refs

  /**
    A document's `createNestedArray(key)` on an empty document promotes the
    root to an object, whether the key is a `const char*` or a `std::string`
    (both are the same key here). The new array is the root's member `key`.
  */
  method DocumentCreateNestedArrayPromotesToObject(key: string) returns (rootIsObject: bool, found: bool)
    ensures rootIsObject && found
  {
    var doc := new MemoryPool(4096);
    var root := VariantRef(doc, Some(0));
    var nested := root.CreateNestedArrayAt(key);
    rootIsObject := Is(doc, root.data, ObjectTarget);
    found := nested.data.Some? && root.GetKey(key).data == nested.data && Is(doc, nested.data, ArrayTarget);
  }

  /**
    `createNestedObject()` on the null variant `doc.to<JsonVariant>()`
    promotes the variant to an array and returns a non-null object.
  */
  method VariantCreateNestedObjectPromotesToArray() returns (variantIsArray: bool, objectIsNull: bool)
    ensures variantIsArray && !objectIsNull
  {
    var doc := new MemoryPool(4096);
    var variant := VariantRef(doc, Some(0)).ToVariant();
    var nested := variant.CreateNestedObject();
    variantIsArray := Is(doc, variant.data, ArrayTarget);
    objectIsNull := nested.IsNull();
  }

  /**
    `createNestedArray()` on the null variant `doc.to<JsonVariant>()`
    promotes the variant to an array and returns a non-null array.
  */
  method VariantCreateNestedArrayPromotesToArray() returns (variantIsArray: bool, arrayIsNull: bool)
    ensures variantIsArray && !arrayIsNull
  {
    var doc := new MemoryPool(4096);
    var variant := VariantRef(doc, Some(0)).ToVariant();
    var nested := variant.CreateNestedArray();
    variantIsArray := Is(doc, variant.data, ArrayTarget);
    arrayIsNull := nested.IsNull();
  }
}
