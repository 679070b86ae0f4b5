/**
  Reduction of an OpenAPI schema node to the C# type name that the generated code uses.

  The repository carries two copies of the resolver (TeknixIT and Argon). They run the same
  checks in the same order and differ in two places: which `oneOf` member the nullable branch
  picks, and the `allOf` restart, which TeknixIT skips when the chosen member is the node itself
  while Argon always restarts. Schemas here are finite trees, so a member is never the node
  itself and the second difference cannot show; both copies are modelled by one function with a
  `Variant` parameter for the first.

  `FinalType` is the specification: the source's `while (true)` loop, whose only way back to
  the top is the `allOf` unwrap, is written as a recursive call on the chosen child.
  `DetermineFinalType` is the loop itself, proved to compute `FinalType`.
*/
module TypeUtils {
  import opened Wrappers
  import opened OpenApiSchema

  datatype Variant = TeknixIT | Argon

  /**
    The member the nullable branch may pick from a non-null `oneOf` list.
    TeknixIT takes any member whose type is absent or lacks the null flag;
    Argon takes only a member that has a type and whose type lacks the null flag.
  */
  predicate NonNullMember(v: Variant, e: Schema) {
    match v
    case TeknixIT => !HasFlag(e, Null)
    case Argon => e.typeFlags.Some? && Null !in e.typeFlags.value
  }

  /** Index of the first member `NonNullMember` accepts (`FirstOrDefault`), if any. */
  function FirstNonNull(v: Variant, l: seq<Schema>): (r: Option<nat>)
    ensures r.Some? ==> r.value < |l| && NonNullMember(v, l[r.value])
    ensures r.Some? ==> forall k :: 0 <= k < r.value ==> !NonNullMember(v, l[k])
    ensures r.None? ==> forall k :: 0 <= k < |l| ==> !NonNullMember(v, l[k])
  {
    if l == [] then None
    else if NonNullMember(v, l[0]) then Some(0)
    else match FirstNonNull(v, l[1..])
      case None => None
      case Some(i) => Some(i + 1)
  }

  /** The node an `allOf` unwrap moves to: its first member that declares a type. */
  function ResolveAllOf(s: Schema): (r: Option<Schema>)
    ensures r.Some? <==> s.allOf.List? && exists e :: e in s.allOf.elems && e.typeFlags.Some?
    ensures r.Some? ==> r.value.typeFlags.Some?
    ensures r.Some? ==>
      (exists i :: 0 <= i < |s.allOf.elems| && r.value == s.allOf.elems[i] &&
                   forall k :: 0 <= k < i ==> s.allOf.elems[k].typeFlags.None?)
  {
    if s.allOf.NoList? then None
    else match FirstTyped(s.allOf.elems)
      case None => None
      case Some(i) => Some(s.allOf.elems[i])
  }

  function IntegerType(format: Option<string>): (r: string)
    ensures r == "long" <==> format == Some("int64")
    ensures r == "int" <==> format != Some("int64")
  {
    match format
    case Some("int64") => "long"
    case _ => "int"
  }

  function NumberType(format: Option<string>): (r: string)
    ensures r == "float" <==> format == Some("float")
    ensures r == "double" <==> format == Some("double")
    ensures r == "decimal" <==> format != Some("float") && format != Some("double")
  {
    match format
    case Some("float") => "float"
    case Some("double") => "double"
    case _ => "decimal"
  }

  function StringType(format: Option<string>): (r: string)
    ensures r == "DateOnly" <==> format == Some("date")
    ensures r == "DateTime" <==> format == Some("date-time")
    ensures r == "Guid" <==> format == Some("uuid")
    ensures r == "byte[]" <==> format == Some("byte")
    ensures r == "string" <==>
      format !in {Some("date"), Some("date-time"), Some("uuid"), Some("byte")}
  {
    match format
    case Some("date") => "DateOnly"
    case Some("date-time") => "DateTime"
    case Some("uuid") => "Guid"
    case Some("byte") => "byte[]"
    case _ => "string"
  }

  /** The scalar part of the primitive dispatch: the first of integer, number, string, boolean. */
  function PrimitiveType(s: Schema): (r: Option<string>)
    ensures r.None? <==>
      !HasFlag(s, Integer) && !HasFlag(s, Number) && !HasFlag(s, String) && !HasFlag(s, Boolean)
    ensures HasFlag(s, Integer) ==> r == Some(IntegerType(s.format))
    ensures !HasFlag(s, Integer) && HasFlag(s, Number) ==> r == Some(NumberType(s.format))
    ensures !HasFlag(s, Integer) && !HasFlag(s, Number) && HasFlag(s, String) ==>
      r == Some(StringType(s.format))
    ensures !HasFlag(s, Integer) && !HasFlag(s, Number) && !HasFlag(s, String) && HasFlag(s, Boolean) ==>
      r == Some("bool")
  {
    if HasFlag(s, Integer) then Some(IntegerType(s.format))
    else if HasFlag(s, Number) then Some(NumberType(s.format))
    else if HasFlag(s, String) then Some(StringType(s.format))
    else if HasFlag(s, Boolean) then Some("bool")
    else None
  }

  /**
    The C# type of node `s`. With `escapeNullable` set, the nullable test is skipped, so no
    `?` marker is added at this level.
  */
  function FinalType(v: Variant, s: Schema, escapeNullable: bool): (r: string)
    decreases s, if escapeNullable then 0 else 1
  {
    if IsNullableType(s) && !escapeNullable then
      if s.oneOf.NoList? then
        FinalType(v, s, true) + "?"
      else
        match FirstNonNull(v, s.oneOf.elems)
        case Some(i) =>
          assert s.oneOf.elems[i] in s.oneOf.elems;
          FinalType(v, s.oneOf.elems[i], true) + "?"
        case None => "object?"
    else if ResolveAllOf(s).Some? then
      var t := ResolveAllOf(s).value;
      assert t in s.allOf.elems;
      FinalType(v, t, escapeNullable)
    else if s.referenceId.Some? then
      s.referenceId.value
    else if IsArrayType(s) then
      "ICollection<" + (if s.items.Some? then FinalType(v, s.items.value, false) else "object") + ">"
    else if s.hasEnum then
      "string"
    else if PrimitiveType(s).Some? then
      PrimitiveType(s).value
    else if HasFlag(s, Object) && s.additionalProperties.Some? then
      "IDictionary<string, " + FinalType(v, s.additionalProperties.value, false) + ">"
    else
      "object"
  }

  /** The resolver as the source runs it: a loop that restarts on the `allOf` child. */
  method DetermineFinalType(v: Variant, schema: Schema, escapeNullable: bool) returns (r: string)
    ensures r == FinalType(v, schema, escapeNullable)
    decreases schema, if escapeNullable then 0 else 1
  {
    var s := schema;
    while true
      invariant schema nonincreases to s
      invariant FinalType(v, s, escapeNullable) == FinalType(v, schema, escapeNullable)
      decreases s
    {
      if IsNullableType(s) && !escapeNullable {
        if s.oneOf.NoList? {
          r := DetermineFinalType(v, s, true);
          return r + "?";
        }
        var other := FirstNonNull(v, s.oneOf.elems);
        if other.Some? {
          assert s.oneOf.elems[other.value] in s.oneOf.elems;
          r := DetermineFinalType(v, s.oneOf.elems[other.value], true);
          return r + "?";
        }
        return "object?";
      }

      var first := ResolveAllOf(s);
      if first.Some? {
        assert first.value in s.allOf.elems;
        s := first.value;
        continue;
      }

      if s.referenceId.Some? {
        return s.referenceId.value;
      }

      if IsArrayType(s) {
        var itemType := "object";
        if s.items.Some? {
          itemType := DetermineFinalType(v, s.items.value, false);
        }
        return "ICollection<" + itemType + ">";
      }

      if s.hasEnum {
        return "string";
      }

      var primitive := PrimitiveType(s);
      if primitive.Some? {
        return primitive.value;
      }

      if HasFlag(s, Object) && s.additionalProperties.Some? {
        var valueType := DetermineFinalType(v, s.additionalProperties.value, false);
        return "IDictionary<string, " + valueType + ">";
      }
      return "object";
    }
  }
}
