/**
  Properties of the type resolver `TypeUtils.FinalType`, for both copies of the source.
*/
module TypeUtilsProperties {
  import opened Wrappers
  import opened OpenApiSchema
  import opened TypeUtils

  /** The nullable marker `?` ends the type name. */
  predicate EndsWithMarker(t: string) {
    |t| > 0 && t[|t| - 1] == '?'
  }

  /** No reference id anywhere in the tree ends with the nullable marker. */
  predicate ReferenceIdsPlain(s: Schema)
    decreases s
  {
    (s.referenceId.Some? ==> !EndsWithMarker(s.referenceId.value)) &&
    (s.oneOf.List? ==> forall e | e in s.oneOf.elems :: ReferenceIdsPlain(e)) &&
    (s.allOf.List? ==> forall e | e in s.allOf.elems :: ReferenceIdsPlain(e)) &&
    (s.items.Some? ==> ReferenceIdsPlain(s.items.value)) &&
    (s.additionalProperties.Some? ==> ReferenceIdsPlain(s.additionalProperties.value))
  }

  /** Every `oneOf` member anywhere in the tree declares a type. */
  predicate UnionMembersTyped(s: Schema)
    decreases s
  {
    (s.oneOf.List? ==> forall e | e in s.oneOf.elems :: e.typeFlags.Some? && UnionMembersTyped(e)) &&
    (s.allOf.List? ==> forall e | e in s.allOf.elems :: UnionMembersTyped(e)) &&
    (s.items.Some? ==> UnionMembersTyped(s.items.value)) &&
    (s.additionalProperties.Some? ==> UnionMembersTyped(s.additionalProperties.value))
  }

  /**
    With `escapeNullable` set the resolver never appends the marker itself, not even after
    any number of `allOf` unwraps.
  */
  lemma {:induction false} EscapedHasNoMarker(v: Variant, s: Schema)
    requires ReferenceIdsPlain(s)
    ensures !EndsWithMarker(FinalType(v, s, true))
    decreases s
  {
    if ResolveAllOf(s).Some? {
      var t := ResolveAllOf(s).value;
      assert t in s.allOf.elems;
      EscapedHasNoMarker(v, t);
    }
  }

  /** A nullable node at the top level ends in exactly one marker. */
  lemma NullableHasOneMarker(v: Variant, s: Schema)
    requires ReferenceIdsPlain(s) && IsNullableType(s)
    ensures var r := FinalType(v, s, false);
      EndsWithMarker(r) && !EndsWithMarker(r[..|r| - 1])
  {
    var r := FinalType(v, s, false);
    if s.oneOf.NoList? {
      EscapedHasNoMarker(v, s);
      assert r[..|r| - 1] == FinalType(v, s, true);
    } else {
      match FirstNonNull(v, s.oneOf.elems)
      case Some(i) =>
        var t := s.oneOf.elems[i];
        assert t in s.oneOf.elems;
        EscapedHasNoMarker(v, t);
        assert r[..|r| - 1] == FinalType(v, t, true);
      case None =>
        assert r[..|r| - 1] == "object";
    }
  }

  /** A top-level result carries at most one trailing nullable marker: never `??`. */
  lemma {:induction false} AtMostOneMarker(v: Variant, s: Schema)
    requires ReferenceIdsPlain(s)
    ensures var r := FinalType(v, s, false);
      EndsWithMarker(r) ==> !EndsWithMarker(r[..|r| - 1])
    decreases s
  {
    if IsNullableType(s) {
      NullableHasOneMarker(v, s);
    } else if ResolveAllOf(s).Some? {
      var t := ResolveAllOf(s).value;
      assert t in s.allOf.elems;
      AtMostOneMarker(v, t);
    } else {
      EscapedHasNoMarker(v, s);
      assert FinalType(v, s, false) == FinalType(v, s, true);
    }
  }

  /** On lists whose members all declare a type, the two copies pick the same member. */
  lemma {:induction false} ChoiceAgrees(l: seq<Schema>)
    requires forall e | e in l :: e.typeFlags.Some?
    ensures FirstNonNull(TeknixIT, l) == FirstNonNull(Argon, l)
  {
    if l != [] {
      assert l[0] in l;
      assert NonNullMember(TeknixIT, l[0]) == NonNullMember(Argon, l[0]);
      ChoiceAgrees(l[1..]);
    }
  }

  /**
    The two copies of the resolver give the same type for every node whose `oneOf` members
    all declare a type; they can differ only through an untyped `oneOf` member.
  */
  lemma {:induction false} VariantsAgree(s: Schema, escapeNullable: bool)
    requires UnionMembersTyped(s)
    ensures FinalType(TeknixIT, s, escapeNullable) == FinalType(Argon, s, escapeNullable)
    decreases s, if escapeNullable then 0 else 1
  {
    if IsNullableType(s) && !escapeNullable {
      if s.oneOf.NoList? {
        VariantsAgree(s, true);
      } else {
        ChoiceAgrees(s.oneOf.elems);
        match FirstNonNull(TeknixIT, s.oneOf.elems)
        case Some(i) =>
          assert s.oneOf.elems[i] in s.oneOf.elems;
          VariantsAgree(s.oneOf.elems[i], true);
        case None =>
      }
    } else if ResolveAllOf(s).Some? {
      var t := ResolveAllOf(s).value;
      assert t in s.allOf.elems;
      VariantsAgree(t, escapeNullable);
    } else if s.referenceId.Some? {
    } else if IsArrayType(s) {
      if s.items.Some? {
        VariantsAgree(s.items.value, false);
      }
    } else if !s.hasEnum && PrimitiveType(s).None? && HasFlag(s, Object) && s.additionalProperties.Some? {
      VariantsAgree(s.additionalProperties.value, false);
    }
  }

  /** A reference node whose target declares no type, and a node that is only the null type. */
  const PetReference: Schema := Empty.(referenceId := Some("Pet"))
  const NullSchema: Schema := Empty.(typeFlags := Some({Null}))

  /**
    `oneOf: [untyped reference, null]`: TeknixIT picks the untyped member, Argon skips it and
    falls back to `object?`.
  */
  lemma UntypedUnionMemberDiverges()
    ensures FinalType(TeknixIT, Empty.(oneOf := List([PetReference, NullSchema])), false) == "Pet?"
    ensures FinalType(Argon, Empty.(oneOf := List([PetReference, NullSchema])), false) == "object?"
  {
    var s := Empty.(oneOf := List([PetReference, NullSchema]));
    assert IsNullableType(s);
    assert FirstNonNull(TeknixIT, s.oneOf.elems) == Some(0);
    assert FirstNonNull(Argon, s.oneOf.elems) == None by {
      assert !NonNullMember(Argon, PetReference);
      assert !NonNullMember(Argon, NullSchema);
    }
  }

  /** `oneOf: [T, null]` (either order) resolves to `T` resolved with escaping, plus `?`. */
  lemma NullableUnionOfTwo(v: Variant, s: Schema, t: Schema, n: Schema)
    requires s.oneOf == List([t, n]) || s.oneOf == List([n, t])
    requires HasFlag(n, Null) && NonNullMember(v, t)
    ensures FinalType(v, s, false) == FinalType(v, t, true) + "?"
  {
    assert IsNullableType(s);
    assert FirstNonNull(v, [n, t]) == Some(1) by {
      assert !NonNullMember(v, n);
    }
  }

  /**
    A nullable node whose non-null `oneOf` list holds no member the copy accepts (every member
    null-typed, or for Argon untyped, or the list empty) resolves to `object?`.
  */
  lemma NullableWithoutMember(v: Variant, s: Schema)
    requires IsNullableType(s) && s.oneOf.List?
    requires forall e | e in s.oneOf.elems :: !NonNullMember(v, e)
    ensures FinalType(v, s, false) == "object?"
  {
    assert forall k | 0 <= k < |s.oneOf.elems| :: s.oneOf.elems[k] in s.oneOf.elems;
  }

  /** A nullable node without a `oneOf` list resolves to itself, escaped, plus `?`. */
  lemma NullableWithoutUnion(v: Variant, s: Schema)
    requires IsNullableType(s) && s.oneOf.NoList?
    ensures FinalType(v, s, false) == FinalType(v, s, true) + "?"
  {
  }

  /**
    A three-member `oneOf` that contains the null type does not make a node nullable: with no
    own null flag and no typed `allOf` member the escape flag changes nothing.
  */
  lemma ThreeMemberUnionIsNotNullable(v: Variant, s: Schema)
    requires !HasFlag(s, Null) && s.oneOf.List? && |s.oneOf.elems| == 3
    requires ResolveAllOf(s).None?
    ensures !IsNullableType(s)
    ensures FinalType(v, s, false) == FinalType(v, s, true)
  {
  }

  /**
    The `allOf` unwrap moves to the first typed member and keeps the escape flag; the `oneOf`
    and own type of the wrapper no longer matter once it is not nullable.
  */
  lemma AllOfUnwrap(v: Variant, s: Schema, escapeNullable: bool)
    requires escapeNullable || !IsNullableType(s)
    requires s.allOf.List? && FirstTyped(s.allOf.elems).Some?
    ensures FinalType(v, s, escapeNullable) ==
      FinalType(v, s.allOf.elems[FirstTyped(s.allOf.elems).value], escapeNullable)
  {
  }

  /**
    A reference node that is not taken by the nullable branch and has no typed `allOf` member
    resolves to its id, whatever its array, enum, format or other flags.
  */
  lemma ReferenceIsLeaf(v: Variant, s: Schema, escapeNullable: bool)
    requires escapeNullable || !IsNullableType(s)
    requires ResolveAllOf(s).None? && s.referenceId.Some?
    ensures FinalType(v, s, escapeNullable) == s.referenceId.value
    ensures forall f: Option<string>, flags: set<TypeFlag>, b: bool ::
      FinalType(v, s.(format := f, typeFlags := Some(flags - {Null}), hasEnum := b), true)
        == s.referenceId.value
  {
  }

  /**
    The array flag is tested before the enum marker: an array resolves to `ICollection<X>`
    with `X` its items resolved without escaping, or `object` without items.
  */
  lemma ArrayPrecedesEnum(v: Variant, s: Schema, escapeNullable: bool)
    requires escapeNullable || !IsNullableType(s)
    requires ResolveAllOf(s).None? && s.referenceId.None? && IsArrayType(s)
    ensures FinalType(v, s, escapeNullable) ==
      "ICollection<" + (if s.items.Some? then FinalType(v, s.items.value, false) else "object") + ">"
  {
  }

  /** An enum that is not an array resolves to `string`, whatever its declared type. */
  lemma EnumIsString(v: Variant, s: Schema, escapeNullable: bool)
    requires escapeNullable || !IsNullableType(s)
    requires ResolveAllOf(s).None? && s.referenceId.None? && !IsArrayType(s) && s.hasEnum
    ensures FinalType(v, s, escapeNullable) == "string"
  {
  }

  /**
    The primitive dispatch of a plain node: integer, number, string, boolean by that
    precedence, then a map for an object with `additionalProperties`, else `object`.
  */
  lemma PrimitiveDispatch(v: Variant, s: Schema, escapeNullable: bool)
    requires escapeNullable || !IsNullableType(s)
    requires ResolveAllOf(s).None? && s.referenceId.None? && !IsArrayType(s) && !s.hasEnum
    ensures HasFlag(s, Integer) ==> FinalType(v, s, escapeNullable) == IntegerType(s.format)
    ensures !HasFlag(s, Integer) && HasFlag(s, Number) ==>
      FinalType(v, s, escapeNullable) == NumberType(s.format)
    ensures !HasFlag(s, Integer) && !HasFlag(s, Number) && HasFlag(s, String) ==>
      FinalType(v, s, escapeNullable) == StringType(s.format)
    ensures !HasFlag(s, Integer) && !HasFlag(s, Number) && !HasFlag(s, String) && HasFlag(s, Boolean) ==>
      FinalType(v, s, escapeNullable) == "bool"
    ensures PrimitiveType(s).None? && HasFlag(s, Object) && s.additionalProperties.Some? ==>
      FinalType(v, s, escapeNullable) ==
        "IDictionary<string, " + FinalType(v, s.additionalProperties.value, false) + ">"
    ensures PrimitiveType(s).None? && !(HasFlag(s, Object) && s.additionalProperties.Some?) ==>
      FinalType(v, s, escapeNullable) == "object"
  {
  }

  function Typed(flag: TypeFlag, format: Option<string>): Schema {
    Empty.(typeFlags := Some({flag}), format := format)
  }

  /** Scalar mappings the repository's type-mapping tests expect. */
  lemma ScalarMappings(v: Variant)
    ensures FinalType(v, Typed(String, Some("uuid")), false) == "Guid"
    ensures FinalType(v, Typed(Integer, None), false) == "int"
    ensures FinalType(v, Typed(Integer, Some("int64")), false) == "long"
    ensures FinalType(v, Typed(Number, None), false) == "decimal"
    ensures FinalType(v, Typed(Number, Some("float")), false) == "float"
    ensures FinalType(v, Typed(Number, Some("double")), false) == "double"
    ensures FinalType(v, Typed(String, Some("date")), false) == "DateOnly"
    ensures FinalType(v, Typed(String, Some("date-time")), false) == "DateTime"
    ensures FinalType(v, Typed(String, Some("byte")), false) == "byte[]"
  {
  }

  /** An object with integer `additionalProperties` maps to a dictionary of `int`. */
  lemma DictionaryMapping(v: Variant)
    ensures FinalType(v, Typed(Object, None).(additionalProperties := Some(Typed(Integer, None))), false)
      == "IDictionary<string, int>"
  {
    var s := Typed(Object, None).(additionalProperties := Some(Typed(Integer, None)));
    assert !IsNullableType(s) && PrimitiveType(s).None?;
    assert FinalType(v, Typed(Integer, None), false) == "int";
  }

  /** `oneOf: [string, null]` maps to `string?`, a number that is also null to `decimal?`. */
  lemma NullableMappings(v: Variant)
    ensures FinalType(v, Empty.(oneOf := List([Typed(String, None), NullSchema])), false) == "string?"
    ensures FinalType(v, Empty.(typeFlags := Some({Number, Null})), false) == "decimal?"
  {
    NullableUnionOfTwo(v, Empty.(oneOf := List([Typed(String, None), NullSchema])), Typed(String, None), NullSchema);
    assert FinalType(v, Typed(String, None), true) == "string";
    var n := Empty.(typeFlags := Some({Number, Null}));
    assert IsNullableType(n) && PrimitiveType(n) == Some("decimal");
  }

  /** The items of an array are resolved without escaping, so their marker stays inside. */
  lemma ArrayOfNullableMapping(v: Variant)
    ensures FinalType(v, Typed(Array, None).(items := Some(Empty.(typeFlags := Some({String, Null})))), false)
      == "ICollection<string?>"
  {
    var item := Empty.(typeFlags := Some({String, Null}));
    assert IsNullableType(item) && PrimitiveType(item) == Some("string");
    assert FinalType(v, item, false) == "string?";
  }
}
