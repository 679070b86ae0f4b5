# OpenAPI source generator: a Dafny model of its core

The repository holds two copies of a Roslyn incremental source generator, TeknixIT and Argon.
Each reads OpenAPI documents listed as MSBuild additional files and emits C# contracts/DTOs and
controllers. This project models the logic those copies share:

- **Schema to C# type** (`schema.dfy`, `type_utils.dfy`). An OpenAPI schema node reduces to the
  C# type name the generated code uses. One function, `FinalType`, covers both copies. Its
  `Variant` parameter selects the one difference that shows on a finite schema tree: which
  `oneOf` member the nullable branch picks (the other difference, in the `allOf` restart, is
  described under "Left out"). The source's `while (true)` loop is the method `DetermineFinalType`,
  which is proved to compute `FinalType`. `type_utils_properties.dfy` proves what the resolver
  promises: check order, the single `?` marker, the `allOf` unwrap, the format tables, and
  where the two copies agree and disagree.
- **Name casing** (`string_extensions.dfy`, `string_extensions_properties.dfy`). `ToPascalCase`
  and `ToSnakeCase` are identical in both copies, so they are modelled once. `ToPascalCase` is
  proved equal to a character-by-character reference definition. From that come its shape
  (no separators; length is the input length minus the separators), case insensitivity and
  the documented examples. `ToSnakeCase` is proved to leave no upper-case letter, to place
  every input character lower-cased with an `_` before exactly the upper-case letters after
  index 0, and to be idempotent.
- **Options** (`options.dfy`). These are the analyzer-option lookups of both copies:
  - TeknixIT `GetBooleanOption` / `GetStringOption`.
  - Argon `GetBool` / `GetString`, which prefix the key with `build_metadata.AdditionalFiles.`.
  - `bool.TryParse` and `string.IsNullOrWhiteSpace` as the .NET documentation describes them.
- **Generator pipeline** (`generator_inputs.dfy`, `teknix_generator.dfy`,
  `argon_generator.dfy`). For each copy, the model covers:
  - the `SourceItemType` filter;
  - one configuration per kept file, with the option defaults;
  - the gating of the generation passes in `GenerateFromConfiguration`;
  - the loop over configurations, whose `try`/`catch` turns an exception into one diagnostic
    and goes on with the next configuration.

  Loading a document and running a pass are foreign calls. A per-configuration `Environment`
  stands for them: it says what loading returned and whether a pass threw.

Where the two copies behave differently, the model follows each copy's code:
- In the nullable branch, TeknixIT (`GetNullableType`) takes the first `oneOf` member whose
  type is absent or lacks `null`. Argon takes the first member whose type is present and lacks
  `null`.
  - So `oneOf: [$ref Pet, {type: null}]`, where the reference carries no type of its own, gives
    `Pet?` in TeknixIT and `object?` in Argon (`UntypedUnionMemberDiverges`).
  - When every member declares a type, the two copies agree on the whole tree
    (`VariantsAgree`).
- Argon's ARGON001 message interpolates the configuration object. `GeneratorConfiguration`
  does not override `ToString`, so the message shows the type name and not the file.
  TeknixIT's TEKX0001 names the file.

## Model

| member | source | states |
|---|---|---|
| OpenApiSchema.IsNullableType | src/TeknixIT.OpenApiGenerator.Server/TypeUtils.cs:16-26 | nullable iff the node's own type has the `null` flag, or `oneOf` has exactly two members and one of them has the `null` flag |
| OpenApiSchema.FirstTyped | src/TeknixIT.OpenApiGenerator.Server/TypeUtils.cs:109 | the index of the first list member whose type is present; none exactly when no member has a type |
| TypeUtils.FirstNonNull | src/TeknixIT.OpenApiGenerator.Server/TypeUtils.cs:95 | `FirstOrDefault`: the index of the first member the variant's non-null test accepts, every earlier member rejected; none only if all are rejected |
| TypeUtils.ResolveAllOf | src/TeknixIT.OpenApiGenerator.Server/TypeUtils.cs:107-110 | an unwrap happens iff `allOf` is present and holds a typed member; the target is typed, is a member, and every member before it is untyped |
| TypeUtils.IntegerType | src/TeknixIT.OpenApiGenerator.Server/TypeUtils.cs:160-167 | `long` exactly for format `int64`, `int` for every other format or none |
| TypeUtils.NumberType | src/TeknixIT.OpenApiGenerator.Server/TypeUtils.cs:172-180 | `float` iff format `float`, `double` iff `double`, `decimal` iff neither |
| TypeUtils.StringType | src/TeknixIT.OpenApiGenerator.Server/TypeUtils.cs:185-195 | `DateOnly`/`DateTime`/`Guid`/`byte[]` each iff its format; `string` iff none of those four |
| TypeUtils.PrimitiveType | src/TeknixIT.OpenApiGenerator.Server/TypeUtils.cs:127-147 | no scalar type iff none of integer, number, string or boolean is flagged; otherwise the first flagged of integer, number, string, boolean decides: the integer, number or string format table, or `bool` |
| TypeUtils.DetermineFinalType | src/TeknixIT.OpenApiGenerator.Server/TypeUtils.cs:44-83 | the loop, with its `allOf` restart and its recursive calls, returns exactly `FinalType` of its arguments; with the Argon variant it is the Argon loop (Argon.OpenApiGenerator/TypeUtils.cs, lines 24-112) |
| TypeUtilsProperties.EscapedHasNoMarker | src/TeknixIT.OpenApiGenerator.Server/TypeUtils.cs:44-60 | with `escapeNullable` set the result never ends in `?`, through any number of `allOf` unwraps, provided no reference id ends in `?` |
| TypeUtilsProperties.AtMostOneMarker | src/TeknixIT.OpenApiGenerator.Server/TypeUtils.cs:88-99 | a top-level result never ends in `??`, provided no reference id ends in `?` |
| TypeUtilsProperties.ChoiceAgrees | Argon.OpenApiGenerator/TypeUtils.cs:34 | over members that all declare a type, both copies' `oneOf` choices pick the same index |
| TypeUtilsProperties.VariantsAgree | Argon.OpenApiGenerator/TypeUtils.cs:28-40 | when every `oneOf` member anywhere in the tree declares a type, both copies give the same type for every node |
| TypeUtilsProperties.UntypedUnionMemberDiverges | Argon.OpenApiGenerator/TypeUtils.cs:34 | `oneOf: [untyped $ref Pet, null]` gives `Pet?` in TeknixIT and `object?` in Argon |
| TypeUtilsProperties.NullableUnionOfTwo | src/TeknixIT.OpenApiGenerator.Server/TypeUtils.cs:95-98 | a two-member union of a null member and an acceptable member, in either order, resolves to that member escaped plus `?` |
| TypeUtilsProperties.NullableWithoutMember | src/TeknixIT.OpenApiGenerator.Server/TypeUtils.cs:101 | a nullable node whose present `oneOf` has no acceptable member resolves to `object?` |
| TypeUtilsProperties.NullableWithoutUnion | src/TeknixIT.OpenApiGenerator.Server/TypeUtils.cs:90-93 | a nullable node without `oneOf` resolves to itself escaped plus `?` |
| TypeUtilsProperties.ThreeMemberUnionIsNotNullable | src/TeknixIT.OpenApiGenerator.Server/TypeUtils.cs:20-23 | a three-member `oneOf` does not make a node nullable, so the node resolves as if escaped |
| TypeUtilsProperties.AllOfUnwrap | src/TeknixIT.OpenApiGenerator.Server/TypeUtils.cs:55-60 | a non-nullable (or escaped) node with a typed `allOf` member resolves as that first typed member, with the same escape flag |
| TypeUtilsProperties.ReferenceIsLeaf | src/TeknixIT.OpenApiGenerator.Server/TypeUtils.cs:63-66 | a reference resolves to its id verbatim, whatever its array, enum, format or flag settings |
| TypeUtilsProperties.ArrayPrecedesEnum | src/TeknixIT.OpenApiGenerator.Server/TypeUtils.cs:69-72 | an array gives `ICollection<items>` with the items resolved without escaping, or `ICollection<object>` without items, even when it is an enum |
| TypeUtilsProperties.EnumIsString | src/TeknixIT.OpenApiGenerator.Server/TypeUtils.cs:75-78 | an enum that is not an array resolves to `string` |
| TypeUtilsProperties.PrimitiveDispatch | src/TeknixIT.OpenApiGenerator.Server/TypeUtils.cs:127-155 | integer, then number, then string, then boolean, then object with `additionalProperties` as `IDictionary<string, V>`, else `object` |
| TypeUtilsProperties.ScalarMappings | Argon.OpenApiGenerator/TypeUtils.cs:68-97 | uuid→`Guid`, int→`int`, int64→`long`, number→`decimal`, float, double, date→`DateOnly`, date-time→`DateTime`, byte→`byte[]`, in both copies |
| TypeUtilsProperties.DictionaryMapping | Argon.OpenApiGenerator/TypeUtils.cs:104-108 | an object whose `additionalProperties` are integers gives `IDictionary<string, int>` |
| TypeUtilsProperties.NullableMappings | Argon.OpenApiGenerator/TypeUtils.cs:28-39 | `oneOf: [string, null]` gives `string?`; type `[number, null]` gives `decimal?` |
| TypeUtilsProperties.ArrayOfNullableMapping | Argon.OpenApiGenerator/TypeUtils.cs:53-61 | an array of `[string, null]` items gives `ICollection<string?>` |
| StringExtensions.ToLower | src/TeknixIT.OpenApiGenerator.Server/StringExtensions.cs:25 | same length, every character lower-cased in place |
| StringExtensions.SplitWords | src/TeknixIT.OpenApiGenerator.Server/StringExtensions.cs:26-31 | splitting with empty entries removed yields non-empty words that hold no separator and that, joined, give the input with its separators removed |
| StringExtensionsProperties.SplitWordsAt | src/TeknixIT.OpenApiGenerator.Server/StringExtensions.cs:26-31 | the words are the maximal separator-free runs: a non-separator input character, at its index minus the separators before it in the joined words, begins a word iff it is the first character or follows a separator |
| StringExtensionsProperties.PascalCaseByCharacters | src/TeknixIT.OpenApiGenerator.Server/StringExtensions.cs:20-35 | split-capitalise-concatenate equals the reference definition: drop separators, upper-case a word's first letter, lower-case the rest |
| StringExtensionsProperties.PascalCaseIgnoresCase | Argon.OpenApiGenerator/StringExtensions.cs:13 | the result depends only on the lower-cased input |
| StringExtensionsProperties.PascalCaseShape | Argon.OpenApiGenerator/StringExtensions.cs:14-15 | no `_`, `-` or space in the result; its length is the input length minus the separator count; separators only (or empty) give empty |
| StringExtensionsProperties.PascalCaseAt | src/TeknixIT.OpenApiGenerator.Server/StringExtensions.cs:32-33 | every non-separator input character lands at its index minus the separators before it: upper-cased at a word start, lower-cased elsewhere |
| StringExtensionsProperties.PascalCaseUnderscoreExample | src/TeknixIT.OpenApiGenerator.Server/StringExtensions.cs:17 | `user_name` becomes `UserName` |
| StringExtensionsProperties.PascalCaseDashExample | src/TeknixIT.OpenApiGenerator.Server/StringExtensions.cs:18 | `user-name` becomes `UserName` |
| StringExtensionsProperties.PascalCaseLowersHumps | src/TeknixIT.OpenApiGenerator.Server/StringExtensions.cs:25 | `UserName` becomes `Username` |
| StringExtensionsProperties.PascalCaseNotIdempotent | src/TeknixIT.OpenApiGenerator.Server/StringExtensions.cs:25-33 | some input's result changes when converted again |
| StringExtensionsProperties.SnakeCaseShape | src/TeknixIT.OpenApiGenerator.Server/StringExtensions.cs:45-60 | no upper-case letter in the result; its length is the input length plus the upper-case letters after index 0; empty stays empty |
| StringExtensionsProperties.SnakeCaseOnlyLowersAndInserts | Argon.OpenApiGenerator/StringExtensions.cs:24-31 | with underscores removed, the result equals the lower-cased input with underscores removed; and every input character `i` sits lower-cased at `i` plus the upper-case letters in `s[1..i+1]`, preceded by an inserted `_` iff it is upper-case and `i > 0`, and otherwise by the previous input character lower-cased |
| StringExtensionsProperties.SnakeCaseAt | src/TeknixIT.OpenApiGenerator.Server/StringExtensions.cs:45-60 | character `i` of the input is placed lower-cased at `i` plus the upper-case letters in `s[1..i+1]`; the character before it is `_` exactly when `s[i]` is upper-case and `i > 0`, else `s[i-1]` lower-cased |
| StringExtensionsProperties.SnakeCaseKeepsLowerInput | src/TeknixIT.OpenApiGenerator.Server/StringExtensions.cs:52-53 | an input without upper-case letters is returned unchanged |
| StringExtensionsProperties.SnakeCaseIdempotent | Argon.OpenApiGenerator/StringExtensions.cs:19-32 | converting twice gives the same as converting once |
| StringExtensionsProperties.SnakeCaseExample | src/TeknixIT.OpenApiGenerator.Server/StringExtensions.cs:43 | `UserName` becomes `user_name` |
| StringExtensionsProperties.SnakeThenPascalRoundTrip | src/TeknixIT.OpenApiGenerator.Server/StringExtensions.cs:17-43 | `UserName` to snake case and back to Pascal case gives `UserName` |
| ConfigOptions.TryParseBool | TeknixIT.OpenApiGenerator.Server/OpenApiSourceGenerator.cs:111 | `true` iff the trimmed text is `true` in any case; `false` iff it is `false` in any case; otherwise no value |
| ConfigOptions.ParseBoolText | TeknixIT.OpenApiGenerator.Server/OpenApiSourceGenerator.cs:111 | parsing reads back `True`/`False` as written by `bool.ToString()` |
| ConfigOptions.GetBooleanOption | TeknixIT.OpenApiGenerator.Server/OpenApiSourceGenerator.cs:104-112 | the default when the key is absent; when the stored value parses, that value; otherwise the default |
| ConfigOptions.BooleanOptionRoundTrip | TeknixIT.OpenApiGenerator.Server/OpenApiSourceGenerator.cs:104-112 | a stored `True`/`False` is read back whatever the default |
| ConfigOptions.BooleanOptionIgnoresGarbage | TeknixIT.OpenApiGenerator.Server/OpenApiSourceGenerator.cs:111 | a stored value that does not parse yields the default |
| ConfigOptions.GetStringOption | TeknixIT.OpenApiGenerator.Server/OpenApiSourceGenerator.cs:121-126 | the stored value when present and not blank, else the default; a non-blank default gives a non-blank result |
| ConfigOptions.StringOptionRoundTrip | TeknixIT.OpenApiGenerator.Server/OpenApiSourceGenerator.cs:123-125 | a stored non-blank value is read back |
| ConfigOptions.GetBool | Argon.OpenApiGenerator/OpenApiSourceGenerator.cs:91-96 | the TeknixIT boolean lookup applied to `build_metadata.AdditionalFiles.` + key |
| ConfigOptions.GetString | Argon.OpenApiGenerator/OpenApiSourceGenerator.cs:98-103 | the TeknixIT string lookup applied to `build_metadata.AdditionalFiles.` + key |
| GeneratorInputs.PresentMembers | TeknixIT.OpenApiGenerator.Server/OpenApiSourceGenerator.cs:42 | dropping nulls keeps exactly the present values |
| GeneratorInputs.PresentAllSome | TeknixIT.OpenApiGenerator.Server/OpenApiSourceGenerator.cs:42 | a list without nulls is kept whole, every value at its own index |
| GeneratorInputs.PresentAppend | TeknixIT.OpenApiGenerator.Server/OpenApiSourceGenerator.cs:49-52 | dropping nulls preserves order: it distributes over concatenation |
| GeneratorInputs.CollectAll | TeknixIT.OpenApiGenerator.Server/OpenApiSourceGenerator.cs:49-69 | the `foreach` skips null items and builds one value per remaining item, in item order; the Argon loop (Argon.OpenApiGenerator/OpenApiSourceGenerator.cs, lines 44-62) is the same with its own builder |
| TeknixGenerator.Select | TeknixIT.OpenApiGenerator.Server/OpenApiSourceGenerator.cs:34-40 | a file passes through iff its `SourceItemType` metadata is present and equals the expected value |
| TeknixGenerator.MarkedFiles | TeknixIT.OpenApiGenerator.Server/OpenApiSourceGenerator.cs:26-42 | a file is kept iff it is marked; nothing else is kept |
| TeknixGenerator.MarkedFilesAppend | TeknixIT.OpenApiGenerator.Server/OpenApiSourceGenerator.cs:26-42 | filtering keeps the input order: it distributes over concatenation |
| TeknixGenerator.MarkedFilesKeepsMarked | TeknixIT.OpenApiGenerator.Server/OpenApiSourceGenerator.cs:34-38 | a list of marked files is kept whole and in order |
| TeknixGenerator.ConfigurationOptions | TeknixIT.OpenApiGenerator.Server/OpenApiSourceGenerator.cs:54-68 | the configuration holds the file path; each of the seven booleans is off iff its option parses as `false`; each string is its option unless absent or blank; grouping stays `ByTag` |
| TeknixGenerator.DefaultConfiguration | TeknixIT.OpenApiGenerator.Server/OpenApiSourceGenerator.cs:57-67 | a file that sets no option gets all seven booleans `true` and the four default strings |
| TeknixGenerator.CollectConfigurations | TeknixIT.OpenApiGenerator.Server/OpenApiSourceGenerator.cs:47-69 | the loop skips null items and yields one configuration per item, in item order |
| TeknixGenerator.Initialize | TeknixIT.OpenApiGenerator.Server/OpenApiSourceGenerator.cs:26-72 | exactly one configuration per kept file, in file order, each built from that file |
| TeknixGenerator.GenerateFromConfiguration | TeknixIT.OpenApiGenerator.Server/OpenApiSourceGenerator.cs:137-172 | a load exception propagates and nothing else happens; an invalid document gives exactly one `InvalidDocument` and no pass; contracts complete iff the document is ready, the option is on, schemas exist and the pass does not throw; controllers complete iff the document is ready, the option is on, neither earlier throw occurred; a pass that throws propagates its own exception; for a ready document the events are exactly the completed passes, contracts before controllers |
| TeknixGenerator.Guarded | TeknixIT.OpenApiGenerator.Server/OpenApiSourceGenerator.cs:79-90 | a configuration's events, followed by one `GenerationError` naming its file and carrying the exception message when it threw |
| TeknixGenerator.RegisterSourceOutput | TeknixIT.OpenApiGenerator.Server/OpenApiSourceGenerator.cs:75-92 | the loop's events are every configuration's guarded events, in order |
| TeknixGenerator.RunAllAppend | TeknixIT.OpenApiGenerator.Server/OpenApiSourceGenerator.cs:77-91 | a failing configuration does not stop the rest: the events of a list are those of its parts, concatenated |
| TeknixGenerator.OneErrorPerFailure | TeknixIT.OpenApiGenerator.Server/OpenApiSourceGenerator.cs:83-90 | the number of `GenerationError` diagnostics equals the number of configurations that threw |
| TeknixGenerator.NoErrorInRun | TeknixIT.OpenApiGenerator.Server/OpenApiSourceGenerator.cs:137-172 | `GenerateFromConfiguration` itself never reports a `GenerationError` |
| TeknixGenerator.ErrorsNameFailedFiles | TeknixIT.OpenApiGenerator.Server/OpenApiSourceGenerator.cs:85-89 | every `GenerationError` names the file of a configuration that threw, with that exception's message |
| TeknixGenerator.InvalidDocumentReportedOnce | TeknixIT.OpenApiGenerator.Server/OpenApiSourceGenerator.cs:150-157 | a null or errored document leaves exactly one `InvalidDocument` naming the file |
| ArgonGenerator.Select | Argon.OpenApiGenerator/OpenApiSourceGenerator.cs:32-35 | a file passes through iff its `SourceItemType` metadata is exactly `OpenApiGenerator` |
| ArgonGenerator.MarkedFiles | Argon.OpenApiGenerator/OpenApiSourceGenerator.cs:24-37 | a file is kept iff it is marked |
| ArgonGenerator.MarkerIsExact | Argon.OpenApiGenerator/OpenApiSourceGenerator.cs:32 | any other marker value, including another casing, drops the file |
| ArgonGenerator.SelectReadsPrefixedOption | Argon.OpenApiGenerator/OpenApiSourceGenerator.cs:32 | the filter keeps a file iff `GetString` of `SourceItemType`, with any default other than `OpenApiGenerator`, yields `OpenApiGenerator`: the filter and the option lookup read the same prefixed key |
| ArgonGenerator.MarkedFilesAppend | Argon.OpenApiGenerator/OpenApiSourceGenerator.cs:24-37 | filtering keeps the input order: it distributes over concatenation |
| ArgonGenerator.ConfigurationSwitches | Argon.OpenApiGenerator/OpenApiSourceGenerator.cs:47-61 | the configuration holds the file path; each of the seven booleans is off iff its prefixed option parses as `false` |
| ArgonGenerator.ConfigurationStrings | Argon.OpenApiGenerator/OpenApiSourceGenerator.cs:47-61 | each string is its prefixed option unless absent or blank, else `Generated`, `Dtos`, `Controllers` or `ControllerBase` |
| ArgonGenerator.DefaultConfiguration | Argon.OpenApiGenerator/OpenApiSourceGenerator.cs:50-60 | a file carrying only its marker is kept and gets all booleans `true` and the four literal defaults |
| ArgonGenerator.CollectConfigurations | Argon.OpenApiGenerator/OpenApiSourceGenerator.cs:42-63 | the loop skips null items and yields one configuration per item, in item order |
| ArgonGenerator.Initialize | Argon.OpenApiGenerator/OpenApiSourceGenerator.cs:24-64 | exactly one configuration per kept file, in file order, each built from that file |
| ArgonGenerator.GenerateFromConfiguration | Argon.OpenApiGenerator/OpenApiSourceGenerator.cs:105-144 | an invalid document gives exactly one ARGON002 and stops; the DTO pass completes iff the document is ready, `GenerateDtos` holds, schemas exist and the pass does not throw; controllers are skipped when `GenerateControllers` is false; a pass that throws propagates its own exception; for a ready document the events are exactly the completed passes, DTOs before controllers |
| ArgonGenerator.Guarded | Argon.OpenApiGenerator/OpenApiSourceGenerator.cs:71-86 | a configuration's events, followed by one ARGON001 when it threw |
| ArgonGenerator.RegisterSourceOutput | Argon.OpenApiGenerator/OpenApiSourceGenerator.cs:67-88 | the loop's events are every configuration's guarded events, in order |
| ArgonGenerator.RunAllAppend | Argon.OpenApiGenerator/OpenApiSourceGenerator.cs:69-87 | a failing configuration does not stop the rest: events concatenate |
| ArgonGenerator.OneErrorPerFailure | Argon.OpenApiGenerator/OpenApiSourceGenerator.cs:75-86 | the number of ARGON001 diagnostics equals the number of configurations that threw |
| ArgonGenerator.NoErrorInRun | Argon.OpenApiGenerator/OpenApiSourceGenerator.cs:105-144 | `GenerateFromConfiguration` itself never reports ARGON001 |
| ArgonGenerator.ErrorsCarryFailureMessages | Argon.OpenApiGenerator/OpenApiSourceGenerator.cs:81 | every ARGON001 carries the message of an exception that some configuration threw |
| ArgonGenerator.ErrorsDoNotNameTheFile | Argon.OpenApiGenerator/OpenApiSourceGenerator.cs:81 | any two configurations, for any files, that fail with the same message, whether loading, the DTO pass or the controllers pass threw, end with the identical ARGON001 carrying only that message |
| ArgonGenerator.InvalidDocumentReportedOnce | Argon.OpenApiGenerator/OpenApiSourceGenerator.cs:118-130 | a null or errored document leaves exactly one ARGON002 naming the file |

## Left out

- Null strings: C# `null` receivers and option values are not modelled. Every string in the model is a (possibly empty) sequence of characters.
- Unicode casing: `ToLower`, `ToUpperInvariant`, `ToLowerInvariant` and `char.IsUpper` act on ASCII letters only; every other character is left as it is. `string.IsNullOrWhiteSpace` uses the ASCII whitespace characters only; the trimming in `bool.TryParse` uses those and NUL.
- Culture: `ToPascalCase` calls the culture-sensitive `ToLower()`. The model assumes a culture that lower-cases ASCII letters as the invariant culture does; under tr-TR, for one, `I` becomes dotless `ı`, which the model does not capture.
- Reference cycles: a `Schema` is a finite tree, so a schema that reaches itself through `$ref` cannot be written. This hides two behaviours of the source. A cycle of `allOf` members makes the resolver loop forever in both copies. A node that lists itself in its own `allOf` (`Self: {type: object, allOf: [$ref Self]}`) gives `Self` in TeknixIT, whose restart test `resolvedSchema != schema` (src/TeknixIT.OpenApiGenerator.Server/TypeUtils.cs:56) stops on the node itself, while Argon, which restarts whenever a typed member exists (Argon.OpenApiGenerator/TypeUtils.cs:41-45), loops forever. The model has no identity test: on a finite tree the chosen member is never the node itself.
- Schema references: in the OpenAPI library a reference node forwards its type, format and lists to the referenced schema. The model gives each node the flags it resolves to. A reference is a node with a reference id.
- Roslyn plumbing: `Combine`, `Collect`, the incremental caching and the diagnostic transport are not modelled. The pipeline is modelled as plain functions over sequences, and `RegisterSourceOutput` as a method that returns the events it reports.
- `OpenApiDocument.LoadAsync` and the YAML/JSON readers are foreign calls. Their outcome is an input: a document or none, an error list or none, or an exception.
- `ContractGenerator`, `DtoGenerator` and `ControllerGenerator` are not part of this model. A pass is recorded only as completed or as throwing. Sources a pass added before it threw are not recorded.
- Controller grouping: the TeknixIT configuration keeps `ControllerGroupingStrategy.ByTag` because `Initialize` never reads a grouping option. The grouping algorithm itself is not part of this model.
- TeknixIT `Constants`: the metadata keys and default values come from a class that is not part of this model, so they are parameters (`MetadataKeys`, `Defaults`).
- `Path.GetFileNameWithoutExtension` in the Argon `GenerateFromConfiguration` computes a value that is never used, so it is left out.
- Diagnostic descriptors: only the diagnostic kind and its message arguments are kept. Titles, severities, categories and locations are left out.
