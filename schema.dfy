/**
  The read-only view of an OpenAPI schema node that the type resolver inspects.

  A node carries:
  - `typeFlags`: the JSON-schema type flags (`None` when the node declares no type at all);
  - `format`: the optional format string;
  - `oneOf`, `allOf`: nullable lists of child nodes (a missing list and an empty list differ);
  - `items`: the array element node, `additionalProperties`: the map value node;
  - `hasEnum`: whether an enum value list is present;
  - `referenceId`: the id of a by-reference node. A reference node carries the type flags of
    its target, so the target itself is never part of the tree.
*/
module OpenApiSchema {
  import opened Wrappers

  datatype TypeFlag = Null | Boolean | Integer | Number | String | Object | Array

  datatype Schema = Schema(
    typeFlags: Option<set<TypeFlag>>,
    format: Option<string>,
    oneOf: SchemaList,
    allOf: SchemaList,
    items: Option<Schema>,
    additionalProperties: Option<Schema>,
    hasEnum: bool,
    referenceId: Option<string>)

  /** A list of child nodes that may itself be null. */
  datatype SchemaList = NoList | List(elems: seq<Schema>)

  /** A node with no type, no composition, no children and no reference. */
  const Empty: Schema := Schema(None, None, NoList, NoList, None, None, false, None)

  /** `Type?.HasFlag(flag) == true`: the node is typed and its type includes `flag`. */
  predicate HasFlag(s: Schema, flag: TypeFlag) {
    s.typeFlags.Some? && flag in s.typeFlags.value
  }

  /**
    A node is nullable when its own type has the null flag, or when its `oneOf` list has
    exactly two members and one of them has the null flag.
  */
  predicate IsNullableType(s: Schema)
    ensures IsNullableType(s) <==>
      HasFlag(s, Null) ||
      (s.oneOf.List? && |s.oneOf.elems| == 2 && exists e :: e in s.oneOf.elems && HasFlag(e, Null))
  {
    var nullable := HasFlag(s, Null);
    if s.oneOf.List? && |s.oneOf.elems| == 2 then
      nullable || HasFlag(s.oneOf.elems[0], Null) || HasFlag(s.oneOf.elems[1], Null)
    else
      nullable
  }

  predicate IsArrayType(s: Schema) {
    HasFlag(s, Array)
  }

  /** Index of the first member that declares a type, if any. */
  function FirstTyped(l: seq<Schema>): (r: Option<nat>)
    ensures r.Some? ==> r.value < |l| && l[r.value].typeFlags.Some?
    ensures r.Some? ==> forall k :: 0 <= k < r.value ==> l[k].typeFlags.None?
    ensures r.None? ==> forall k :: 0 <= k < |l| ==> l[k].typeFlags.None?
  {
    if l == [] then None
    else if l[0].typeFlags.Some? then Some(0)
    else match FirstTyped(l[1..])
      case None => None
      case Some(i) => Some(i + 1)
  }
}
