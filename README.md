# pgts core in Dafny

pgts reads a PostgreSQL (or SQLite) catalogue and generates TypeScript model classes.
At run time those classes are driven by a small client library. This project models
the logic of both halves and proves what each piece promises:

- **Relation graph** (`RelationGraph`). Each relation's columns are keyed, its
  foreign-key columns grouped by constraint, and its indices keyed by their sorted
  column names. One whole-schema pass then pushes a forward and a backward `Reference`
  per followed foreign key, and a second pass renames references whose names collide.
  The first pass is a loop over an `array` of reference lists; the rename pass runs
  in place over that array.
- **Naming helpers of the generator** (`PgtsNaming`): `CamelCase`, the qualifier
  stripping and `match` rules of `getJsType`/`getJsParser`, and `getTryGetDefault`.
- **Action/serializer registry** (`SerializeRegistry`). A serializer hangs on an
  object: a class's prototype, where the decorators register, or its constructor, where
  `serialize` looks. Each `Serializer` keeps an `actions` array and an `action_map`
  index that `addAction` updates. `Serializer.get` memoises one serializer per object
  and seeds it from the ancestors. The `PropAction` clones are covered too, as is the
  top-level `serialize` dispatch.
- **Model CRUD** (`ModelCrud`): `to_update_arg`, the primary key an instance was
  loaded with, and the PostgREST requests that `save`, `update`, `delete`, `remove` and
  `saveMany` would send. It also covers `create`, over the declared
  name-keyed `columns` object and over the array the generator emits, and the `Roles`
  permission table.
  `UriEncoding` gives `encodeURIComponent` and its inverse.
- **Chunked CSV parser** (`CsvParser`). It is a class with the parser's five fields.
  It records the column and line callbacks as an event trace and is proved against
  pure step functions. The class runs the corrected null test of the src/csv.ts:70
  row of "## Findings"; with it, quote-free input gives the same events however it is
  cut into chunks.
- **Range values** (`PgRange`): integer endpoints extended with ±∞, bounds checking,
  `includes`, `overlaps`, `clamp`, and the range text codec.
- **Type mapping** (`PgtsTypes`): the last-registered-wins basic-type registry, the
  recursive `jsName`/`jsSerializer`/`jsTypeNameExp`, the `defaultExp` precedence, the
  split of a function's arguments at the first TABLE argument, and `escapedName`.
- **Field serializers** (`FieldSerializers`): `Serializer.prop` and the
  `str`/`num`/`bool`/`json`/`hstore` transforms.
- **Legacy generators** (`PgCodegen`, `SqliteCodegen`): `camelcase`,
  `handle_udt_name`, `handle_default_value`, and the SQLite enum-literal expression.

Where a piece of the source does not do what its authors evidently intended, the model
keeps a member for the code as written next to the corrected one (see "## Findings").
Regular expressions are modelled by the JavaScript semantics of the patterns the code
uses:

- `.` does not match a line terminator.
- A greedy `(.*)` takes the last possible marker.
- `$` without the `m` flag means the end of the input.

`Wrappers`, `Strings` and `OrderedMaps` are shared support modules:

- `Result`/`Option`.
- String splitting, joining, sorting, decimal text and string-literal escaping.
- Insertion-ordered maps with `Map.groupBy`.

## Model

| member | source | states |
|---|---|---|
| RelationGraph.ConstraintGroups | src/pgts.ts:240-243 | grouping the referencing columns by constraint name yields non-empty groups, each of columns that reference something under that one constraint |
| Strings.SurrogatePairSortsLow | src/pgts.ts:247 | the default sort compares UTF-16 code units, so a character above the Basic Multilingual Plane sorts before one in 0xE000-0xFFFF |
| RelationGraph.ForeignKeyMapShape | src/pgts.ts:240-256 | every entry of `m_foreign_keys_to_others` is keyed by its own `strFrom`; its from- and to-column lists are sorted, of equal length ≥ 1, and `strFrom`/`strTo` are their ","-joins |
| RelationGraph.IndexMapDistinct | src/pgts.ts:277-278 | with distinct index names, `m_indices` keeps every index in order, so `m_indices_by_columns` is built from all of them |
| RelationGraph.UniqueOnLastIndex | src/pgts.ts:365-367 | `toIsUnique`/`fromIsUnique` hold iff the last index over exactly that sorted column set is unique; false when there is none |
| RelationGraph.StripIdOrS | src/pgts.ts:369 | removes one trailing `_id`, else one trailing `s`, else nothing: the result plus what was removed is the input |
| RelationGraph.BackName | src/pgts.ts:389 | the backward name is the origin's name, with "s" added iff the FK is not unique on the origin and the name does not already end in "s" |
| RelationGraph.BackwardMirrorsForward | src/pgts.ts:391-404 | the backward reference swaps from/to columns, their strings and `toIsUnique`/`fromIsUnique` relative to the forward one |
| RelationGraph.OutsideAllowedSchemasNoReferences | src/pgts.ts:354-362 | a relation outside the allowed schemas ends with no references, neither forward ones of its own nor backward ones from others |
| RelationGraph.ForeignKeyReferencesPresent | src/pgts.ts:357-404 | a foreign key of an allowed relation to an allowed destination puts its forward reference on the origin and its backward reference on the destination |
| RelationGraph.ReferenceCount | src/pgts.ts:350-406 | the total number of references is exactly twice the number of followed foreign keys |
| RelationGraph.PushForeignKeys | src/pgts.ts:357-406 | the inner loop leaves every relation's list equal to the lists after the pushes so far plus this relation's pushes |
| RelationGraph.BuildReferences | src/pgts.ts:352-408 | the nested push loops produce exactly `RawReferences`, the specification of the first pass |
| RelationGraph.CollidingIffShared | src/pgts.ts:410-415 | a slot is renamed by the grouping pass iff another reference of the same relation shares its `toTable.distantName` key |
| RelationGraph.DisambiguateRelation | src/pgts.ts:410-415 | the loop over `Map.groupBy` groups renames exactly as `Disambiguated` does: suffix the members of groups of two or more |
| RelationGraph.Disambiguate | src/pgts.ts:410-415 | the rename pass rewrites every relation's list in place to its disambiguated form |
| RelationGraph.RenameSeparates | src/pgts.ts:413 | two colliding references with different `toColumnsStr` get different names; `pgtsName` keeps the name from before the rename |
| RelationGraph.RenameKeepsSameColumnsCollision | src/pgts.ts:411-413 | two colliding references over the same destination columns are both renamed and still collide |
| RelationGraph.SchemaDetails.constructor | src/pgts.ts:218-416 | building `SchemaDetails` keys the relations and leaves exactly `FinalReferences` in their reference lists |
| PgtsNaming.CamelCaseOfWords | src/pgts.ts:98-100 | CamelCase of a snake_case name capitalises each word and drops the underscores |
| PgtsNaming.PlainCamelCase | src/pgts.ts:98-100 | a name without `_` only has its first letter raised |
| PgtsNaming.CamelCaseNotNumber | src/pgts.ts:134-144 | no camel-cased name is "number", so the fallback never masquerades as a matched type |
| PgtsNaming.StripBareName | src/pgts.ts:136-148 | a bare name followed by `[]` markers strips to the name itself |
| PgtsNaming.StripQualifiedName | src/pgts.ts:136-148 | `schema.name` and `schema.name[]` strip to `name` |
| PgtsNaming.Match | src/pgts.ts:39-48 | `match` gives None iff no rule accepts, and otherwise the value of the first accepting rule |
| PgtsNaming.NumberTypeNames | src/pgts.ts:134-144 | with whole-name patterns, a type is "number" iff its stripped name is one of the integer, numeric or float names |
| PgtsNaming.QualifiedArrayType | src/pgts.ts:134-158 | the array form of a qualified type maps to the element's type plus "[]" and the element's parser plus ".array" |
| PgtsNaming.QualifiedNameType | src/pgts.ts:134-144 | the type of a qualified non-array name depends on the name alone, as written and corrected |
| PgtsNaming.UnmatchedQualifiedName | src/pgts.ts:134-144 | a name no whole-name pattern accepts keeps its camel-cased name |
| PgtsNaming.CandidateTypeAsWritten | src/pgts.ts:40 | as written, a type named `candidate` in any schema is typed "Date", because `date$` is anchored at the end only |
| PgtsNaming.CandidateType | src/pgts.ts:137-144 | with whole-name patterns, `candidate` is typed "Candidate" |
| PgtsNaming.IntervalTypeAsWritten | src/pgts.ts:40 | as written, a type named `interval` is typed "number", because `^int` is anchored at the start only |
| PgtsNaming.IntervalType | src/pgts.ts:137-144 | with whole-name patterns, `interval` is typed "Interval" |
| PgtsNaming.TextDefaultOfLiteral | src/pgts.ts:183-184 | the text recovered from the default PostgreSQL prints for a text `t` is `t` |
| PgtsNaming.TextDefaultRoundTrip | src/pgts.ts:175-184 | nullable gives "null", then array gives "[]"; otherwise a text default gives a string literal that decodes to exactly the text |
| PgtsNaming.TextDefaultAsWrittenPlain | src/pgts.ts:183-184 | as written, text without quotes, backslashes or line breaks still yields a literal decoding to it |
| PgtsNaming.TextDefaultAsWrittenQuote | src/pgts.ts:183-184 | as written, the text default `a"b` yields `"a"b"`, which does not decode as one literal |
| PgtsNaming.OtherDefaults | src/pgts.ts:186-192 | for a non-nullable scalar, a decimal default is read as a number, `CURRENT_TIMESTAMP` gives `new Date()`, and no default gives `undefined!` |
| SerializeRegistry.AddIndexed | src/serialize.ts:170-184 | `addAction` keeps the index consistent: every key points at a slot holding an action with that key |
| SerializeRegistry.AddLookup | src/serialize.ts:170-184 | after `addAction(a)`, a's key resolves to `a` and every other key resolves as before |
| SerializeRegistry.AddLength | src/serialize.ts:172-183 | the action count is unchanged iff the key was mapped to a non-zero slot; otherwise the action is appended |
| SerializeRegistry.AddKeepsOtherSlots | src/serialize.ts:172-175 | an override in place changes no other slot |
| SerializeRegistry.SlotZeroDuplicates | src/serialize.ts:174 | re-adding the key held at slot 0 appends a second action with that key and re-points the index to it |
| SerializeRegistry.AddAllAppend | src/serialize.ts:143-147 | adding a sequence of actions is adding its first part, then the rest |
| SerializeRegistry.AddAllLookup | src/serialize.ts:170-184 | after a run of `addAction` calls each key resolves to the last action added with it |
| SerializeRegistry.LastWithKey | src/serialize.ts:143-147 | the action returned sits at a position holding that key with no later position holding it; None iff no action has the key |
| SerializeRegistry.PropertyTargets | src/serialize.ts:82-90 | `property(k)` keys the clone by `k`, keeps the functions and any target already set, and defaults an unset target to a string key |
| SerializeRegistry.PropertyIdempotent | src/serialize.ts:82-90 | taking the same property twice gives the same clone as taking it once |
| SerializeRegistry.PropertyRegistered | src/serialize.ts:111-115 | registering a property clone makes its key resolve to that clone |
| SerializeRegistry.PropAction.Property | src/serialize.ts:82-90 | returns a fresh clone with the property applied; the original is unchanged |
| SerializeRegistry.PropAction.To | src/serialize.ts:92-95 | overwrites `serializeTo` on the action itself and nothing else |
| SerializeRegistry.PropAction.From | src/serialize.ts:97-100 | overwrites `deserializeFrom` on the action itself and nothing else |
| SerializeRegistry.Serializer.AddAction | src/serialize.ts:170-184 | the action table after the call is `Add` of the old table, with the index invariant kept |
| SerializeRegistry.Serializer.AddActions | src/serialize.ts:143-147 | adding each action in turn yields `AddAll` of the old table |
| SerializeRegistry.InheritedOwner | src/serialize.ts:135 | the serializer found along the prototype chain belongs to the object itself or to the same kind of object (prototype or constructor) of an ancestor; None iff none of them owns one |
| SerializeRegistry.SubclassFindsParentSerializer | src/serialize.ts:135-137 | an object owning no serializer whose parent's counterpart owns one finds the parent's serializer |
| SerializeRegistry.ConstructorMissesPrototypes | src/serialize.ts:135-137 | when only prototypes own serializers, a lookup from a constructor finds none |
| SerializeRegistry.Registry.Seed | src/serialize.ts:140-149 | seeding adds the own actions of every ancestor's object of the same kind, root first, and modifies no ancestor's serializer |
| SerializeRegistry.Registry.GetAsWritten | src/serialize.ts:134-159 | as written: an inherited serializer is returned as is; only when no ancestor owns one is a new serializer made; without `create` that case throws |
| SerializeRegistry.Registry.NoOwnedAncestors | src/serialize.ts:140-149 | when no ancestor owns a serializer the seeding adds nothing |
| SerializeRegistry.Registry.Get | src/serialize.ts:134-159 | with `create`, the class's own serializer is returned if it exists, else a new one seeded root first is stored; without `create` nothing changes and a missing serializer is an error |
| SerializeRegistry.Registry.Register | src/serialize.ts:46-47 | the target's serializer now holds `Add` of its previous table and the action, where a missing serializer starts from its ancestors' actions: a keyed action overrides or is appended, and a keyless one (`Base`, `OnDeserialize`) is appended; its key resolves to it and every other key as before; every other serializer keeps its contents (uses the corrected `Get`) |
| SerializeRegistry.Registry.Decorate | src/serialize.ts:43-48 | a class decorator registers on the class's prototype, whose serializer now holds `Add` of its previous table and the action, keyless actions included; every other serializer keeps its contents (uses the corrected `Get`) |
| SerializeRegistry.Registry.AddTo | src/serialize.ts:111-115 | after `addTo(t, key)` t's serializer holds `Add` of its previous table and the property clone, so the key resolves to the clone and the other actions stay; every other serializer keeps its contents (uses the corrected `Get`) |
| SerializeRegistry.Registry.DecorateProperty | src/serialize.ts:118-120 | a property decorator registers the clone on the class's prototype, whose serializer holds `Add` of its previous table and the clone; every other serializer keeps its contents (uses the corrected `Get`) |
| SerializeRegistry.Registry.Serialize | src/serialize.ts:226-239 | null gives null; an object needs a serializer on its class's constructor chain as written, on its prototype chain as corrected, and otherwise throws; an array needs its first element's and gives an array of equal length |
| SerializeRegistry.DecoratedInstanceAsWritten | src/serialize.ts:236 | as written, an instance of a class with a decorated property cannot be serialised |
| SerializeRegistry.DecoratedInstance | src/serialize.ts:236 | looking on the prototype, that instance is serialised |
| ModelCrud.ToUpdateArgMeaning | src/index.ts:15-21 | null/undefined give "is.null", booleans give "is.true"/"is.false", and every other value gives "eq." followed by an encoding that decodes back to the value's text |
| ModelCrud.ToUpdateArgHasNoSeparator | src/index.ts:15-21 | a filter operand never holds "&", so it cannot split the query string |
| ModelCrud.UpdateQueryParts | src/index.ts:237-253 | the update URL is the table URL plus "?" and the filters by the loaded key, then `columns=…` when keys are given; the query splits back on "&" into exactly those parts |
| ModelCrud.UpdateFiltersByLoadedKey | src/index.ts:245-247 | when the loaded key has the current key's columns, `update` filters exactly by the loaded key's values |
| ModelCrud.RemoveRequest | src/index.ts:172-179 | an empty or missing suffix throws; otherwise a DELETE is sent to the URL with "?" and the query |
| ModelCrud.RemoveQuestionMark | src/index.ts:176 | a suffix with or without its leading "?" removes the same rows |
| ModelCrud.SaveManyRequest | src/index.ts:181-198 | nothing is sent iff the list is empty; otherwise one POST to the table URL |
| ModelCrud.CreatedFields | src/index.ts:285-293 | `create` sets a field iff its name is a column and its value is defined, and then to that value |
| ModelCrud.ModelInstance.Pk | src/index.ts:156 | the key is present iff the table has key columns and none of them is null or undefined, and then lists them with their values |
| ModelCrud.ModelInstance.OnDeserialized | src/index.ts:145-150 | the hook remembers the current key when there is one and otherwise keeps the previous one; fields are unchanged |
| ModelCrud.ModelInstance.ResetPk | src/index.ts:159-161 | forgets the loaded key and nothing else |
| ModelCrud.ModelInstance.Update | src/index.ts:237-254 | returns the request `UpdateRequest` describes, or its error when the key or the loaded key is missing |
| ModelCrud.ModelInstance.Save | src/index.ts:228-232 | an instance loaded with a key is updated; any other is POSTed to the table URL |
| ModelCrud.ModelInstance.Delete | src/index.ts:256-273 | throws without a key; otherwise a DELETE filtered by the current key values |
| ModelCrud.ModelInstance.CurrentFilters | src/index.ts:261-264 | the loop yields one filter per key column, by the field's current value |
| ModelCrud.LoadedKeyFilters | src/index.ts:245-247 | the loop yields one filter per key column, by the loaded key's value |
| ModelCrud.ColumnKeys | src/index.ts:287 | `Object.keys(meta.columns)` is the column names for the declared name-keyed object and the indices "0", "1", … for the array the generator emits |
| ModelCrud.Create | src/index.ts:285-293 | a new instance without a loaded key whose fields are the field initialisers' values `init` overridden by `Created` over the keys of `meta.columns` |
| ModelCrud.CreateOnEmittedColumns | src/index.ts:287 | on a generated class, whose `columns` is an array, `create` keeps every initialiser's value unless a key of `defs` is a run of digits |
| ModelCrud.CreateDropsNamedValue | src/index.ts:287 | `create({a: 1})` leaves `a` unset on a generated class with the column `a`, and sets it when the keys are the names |
| ModelCrud.CreatedOverInitialisers | src/index.ts:285-293 | after `create`, a column given a defined value holds it, and every other field keeps the value its initialiser gave it |
| ModelCrud.Roles.Rol | src/index.ts:132-135 | registers or replaces one role's permission string |
| ModelCrud.Roles.AnyRoleCan | src/index.ts:120-130 | true iff some asked role is registered and either no permissions are asked or its string holds one of their characters |
| ModelCrud.RolGrants | src/index.ts:120-135 | a role just registered grants exactly the permissions its string names |
| UriEncoding.DecodeEncode | src/index.ts:17-20 | `decodeURIComponent(encodeURIComponent(s)) == s` for every string of scalar values |
| UriEncoding.DecodeOneUtf8 | src/index.ts:17-20 | the percent-encoded UTF-8 form of one character decodes back to it and takes 3 characters per byte |
| UriEncoding.EncodeHasNoSeparators | src/index.ts:17-20 | an encoded value holds no "&", "=" or "," |
| CsvParser.Handled | src/csv.ts:22-34 | `handleColumn` throws iff it must strip or collapse a null field; otherwise it emits one column at the current index, advances the index and clears `quoted` |
| CsvParser.Ended | src/csv.ts:93-98 | `end` does nothing without leftovers; the leftovers are kept |
| CsvParser.CsvParser.Reset | src/csv.ts:14-20 | the state after `reset` is the initial state, with the trace untouched |
| CsvParser.CsvParser.HandleColumn | src/csv.ts:22-34 | the in-place update does what `Handled` describes |
| CsvParser.CsvParser.Parse | src/csv.ts:36-91 | for a text that does not end inside a quote, the loop does what `Parsed` describes; its null test is the corrected one of the src/csv.ts:70 Findings row |
| CsvParser.CsvParser.End | src/csv.ts:93-98 | the in-place update does what `Ended` describes |
| CsvParser.FeedQuoteFree | src/csv.ts:36-91 | quote-free chunks fed in turn report the same events as the reference reading of their concatenation, leftovers included |
| CsvParser.ChunkingInvariant | src/csv.ts:36-98 | however a quote-free text is cut into chunks, feeding them and calling `end` reports the same columns and lines as reading it in one piece |
| CsvParser.ChunkBoundaryDropsField | src/csv.ts:70 | as written, a field whose "," arrives in the next chunk is reported as null; in one piece it is reported in full |
| CsvParser.QuotedField | src/csv.ts:44-59 | a quoted field may hold separators and line breaks and is reported without its quotes (section 2, rule 6 of RFC 4180) |
| CsvParser.NeverEscaped | src/csv.ts:46 | `escaped` is never set by `parse`, so a doubled quote inside a quoted field is not collapsed |
| CsvParser.PlainChunk | src/csv.ts:80-84 | a chunk with no separator and no quote is kept whole as leftovers |
| PgRange.MakeRange | src/types/range.ts:58-66 | construction succeeds iff the bounds' first two characters are valid, "[]" by default, and keeps the endpoints |
| PgRange.InclusiveBounds | src/types/range.ts:50-56 | each side is inclusive exactly when its bounds character is the square bracket |
| PgRange.EndpointsIncluded | src/types/range.ts:68-80 | a range includes its start iff the lower side is inclusive and the range is not a single point with an exclusive upper side, and symmetrically for the end |
| PgRange.IncludesNested | src/types/range.ts:69-71 | a range includes every range nested in it with the same bounds |
| PgRange.OverlapsNotSymmetric | src/types/range.ts:82-84 | `overlaps` is not symmetric: [0,10] overlaps [4,5] but not conversely |
| PgRange.Clamp | src/types/range.ts:88-95 | clamping a range argument throws; a value is clamped |
| PgRange.ClampBetween | src/types/range.ts:92-94 | a clamped value lies between the endpoints and changes only when it is outside them |
| PgRange.ClampIdempotent | src/types/range.ts:92-94 | clamping twice is clamping once |
| PgRange.ClampIncludedWhenClosed | src/types/range.ts:92-94 | into a closed range the clamped value is included |
| PgRange.ClampIgnoresBounds | src/types/range.ts:92-94 | into a half-open range, clamping past the end gives the excluded end |
| PgRange.Deserialize | src/types/range.ts:22-36 | neither a string nor an object is rejected, and a read range always has valid bounds |
| PgRange.DeserializeSerialize | src/types/range.ts:16-30 | serializing a range (an unbounded side left empty) and reading it back gives the range |
| PgRange.FiniteRoundTripsAsWritten | src/types/range.ts:97-99 | a range that `isFinite` accepts is written the same as written and corrected, and reads back |
| PgRange.UnboundedDoesNotRoundTrip | src/types/range.ts:16-28 | as written, "[,5)" reads as the range from -∞ to 5 with 5 excluded, but writing that back gives "-Infinity", which `JSON.parse` rejects |
| PgtsTypes.CamelcaseOfWords | src/type.ts:389-391 | camelcase of a snake_case name capitalises each word and drops the underscores |
| PgtsTypes.DoubleUnderscore | src/type.ts:390 | `a__b` camel-cases to `A_b`: the second underscore is itself the character raised |
| PgtsTypes.LastMatch | src/type.ts:408-415 | the entry returned accepts the name and no later entry does; None iff none accepts |
| PgtsTypes.RegisterOverrides | src/type.ts:402-415 | a new registration wins for every name it accepts and changes nothing for the others |
| PgtsTypes.DefaultLookup | src/type.ts:484-491 | lookup over the load-time registrations is the priority list void, json, hstore, date, bool, number, text |
| PgtsTypes.LaterRegistrationWins | src/type.ts:486-488 | a name starting with `int` and holding `date` matches both patterns and is a Date |
| PgtsTypes.IntervalIsNumber | src/type.ts:486 | the prefix pattern `^(int…)` also accepts `interval`, which is typed as a number |
| PgtsTypes.BasicTypes.Register | src/type.ts:402-407 | appends one registration |
| PgtsTypes.BasicTypes.RegisterDefaults | src/type.ts:484-491 | appends the load-time registrations in order |
| PgtsTypes.BasicTypes.GetBasicType | src/type.ts:408-415 | the backward scan returns `LastMatch` of the registrations |
| PgtsTypes.ArrayLevels | src/type.ts:435-457 | each array level adds "[]" to the name and ".array" to the serializer of the base type |
| PgtsTypes.CompositeSerializer | src/type.ts:438-461 | a composite base type is embedded by its camel-cased name, at every array level |
| PgtsTypes.UnknownBaseType | src/type.ts:441-475 | a base type no registration accepts keeps its name and gets `s.pgts_unknown_type__<name>` |
| PgtsTypes.RegisteredBaseType | src/type.ts:441-472 | a registered base type takes its name and serializer from the same registration |
| PgtsTypes.NullableTypeName | src/type.ts:427-431 | `jsTypeNameExp` is `jsName`, widened by " \| null" iff the type is not declared not-null |
| PgtsTypes.DefaultPrecedence | src/type.ts:513-522 | array gives "[]", then composite gives `new X()`, then nullable gives "null", then a non-primary column without default gets the registered default |
| PgtsTypes.NumericDefault | src/type.ts:527-528 | a default starting with a digit and not ending in `::text` is copied as is |
| PgtsTypes.MissingDefault | src/type.ts:531 | with no default and no registration the initialiser is a typed `undefined!` |
| PgtsTypes.TextDefaultLiteral | src/type.ts:524-526 | a text default of a plain non-null column becomes a single-quoted literal denoting exactly the text |
| PgtsTypes.TextDefaultAsWrittenPlain | src/type.ts:524-526 | as written, text without `'`, backslashes or line breaks still comes out right |
| PgtsTypes.TextDefaultAsWrittenApostrophe | src/type.ts:525-526 | as written, the default `'it''s'::text` yields `'it's'`, which is not a literal |
| PgtsTypes.EscapedNameDecodes | src/type.ts:542 | the quoted argument name is a string literal denoting the name |
| PgtsTypes.EscapedNameAsWrittenPlain | src/type.ts:542 | as written, names without backslashes or line breaks are quoted correctly |
| PgtsTypes.EscapedNameTrailingBackslash | src/type.ts:542 | as written, the name `a\` is quoted as `"a\"`, a literal that never ends |
| PgtsTypes.TableStart | src/type.ts:555-559 | the index of the first TABLE-mode argument, or -1 iff there is none |
| PgtsTypes.SignatureOf | src/type.ts:549-572 | all arguments in order, named `$i+1` when unnamed; `args` is the prefix before the first TABLE argument and `recordargs` the rest, empty iff there is none |
| PgtsTypes.PgtsFunction.constructor | src/type.ts:546-572 | the constructor's loop fills the argument lists as `SignatureOf` says |
| PgtsTypes.PgtsFunction.ReturnTypeExp | src/type.ts:581-586 | a record lists its record columns as quoted names with their nullable types, quoted as written or corrected; any other type is its `jsName`; None iff a type is unknown |
| PgtsTypes.MembersAsWrittenPlain | src/type.ts:583 | with names free of backslashes and line breaks, the record members are the same as written and corrected |
| PgtsTypes.RecordMembersRead | src/type.ts:583 | every corrected record member is a literal that reads back as the column's name, then `: ` and its type |
| PgtsTypes.ReturnTypeExpAsWrittenPlain | src/type.ts:581-586 | the as-written and corrected `returnTypeExp` agree unless a record column's name holds a backslash or a line break |
| PgtsTypes.EmptyRecordType | src/type.ts:582-583 | a record function with no record columns is typed `{}` |
| PgtsTypes.RecordWithoutColumns | src/type.ts:566-571 | a function without a TABLE argument has no record columns and `args` is every argument |
| PgtsTypes.PrimaryKeys | src/type.ts:607 | exactly the primary-key columns, no more |
| PgtsTypes.PrimaryKeysKeepOrder | src/type.ts:607 | the filter keeps a single column iff it is a primary key and distributes over concatenation, so the primary-key columns come in the columns' order |
| PgtsTypes.HasPrimaryKeyIffPrimaryKeys | src/type.ts:607-623 | `hasPrimaryKey` holds iff `primary_keys` is not empty |
| FieldSerializers.StrTransform | src/serializers.ts:28-31 | null and undefined pass through; everything else becomes a string |
| FieldSerializers.NumTransform | src/serializers.ts:34-37 | null and undefined pass through; everything else becomes a number or NaN |
| FieldSerializers.BoolTransform | src/serializers.ts:40-43 | null and undefined pass through; everything else becomes a boolean |
| FieldSerializers.TransformsSettle | src/serializers.ts:28-48 | each scalar transform maps its results to themselves, and `json` is the identity |
| FieldSerializers.NumReadsStr | src/serializers.ts:28-37 | a number written by `str` is read back by `num` |
| FieldSerializers.BoolOfText | src/serializers.ts:40-43 | `bool` reads every non-empty text as true, "false" included |
| FieldSerializers.HstoreEntryReads | src/serializers.ts:54 | an entry escaped as the hstore text format reads back as its key and value |
| FieldSerializers.HstoreEntryAsWrittenPlain | src/serializers.ts:54 | as written, keys and values without `"` or `\` are read back correctly |
| FieldSerializers.HstoreEntryAsWrittenQuote | src/serializers.ts:54 | as written, the key `a"b` is written `"a""b"=>"x"`, which hstore does not read as a pair |
| FieldSerializers.HstoreSerializeReads | src/serializers.ts:51-55 | a map is written as one string per entry, in insertion order, each read back as that entry |
| FieldSerializers.HstoreDeserialize | src/serializers.ts:56-61 | null for null and undefined, an empty map for everything else |
| FieldSerializers.HstoreLosesEntries | src/serializers.ts:51-61 | deserializing what `hstore` serializes loses every entry of a non-empty map |
| FieldSerializers.FieldSerializer.Prop | src/serializers.ts:19-23 | a fresh serializer with the same transforms bound to the name, flags false; this one unchanged |
| PgCodegen.PlainName | src/pg.ts:180-205 | a name without a leading "_" is mapped by the element classification, with no "[]" |
| PgCodegen.ArrayOfElement | src/pg.ts:182-205 | a leading "_" maps to the element's type plus "[]", with the same second component |
| PgCodegen.SizedNumbers | src/pg.ts:190-191 | `int`/`float` followed by at least one digit give ("number", "number") |
| PgCodegen.UnknownWord | src/pg.ts:198-205 | an unmapped alphanumeric word gives its capitalised name in both components |
| PgCodegen.TimestamptzAsWritten | src/pg.ts:176 | as written, `timestamptz` misses the "timestampz" entry and is typed "Timestamptz" |
| PgCodegen.TimestamptzIsDate | src/pg.ts:173-203 | with the key spelt `timestamptz`, it and its array give Date with the UTC serializer |
| PgCodegen.LastMarker | src/pg.ts:212-218 | the greedy capture end: the last marker position on the line, None iff there is none |
| PgCodegen.FirstMarker | src/pg.ts:212-218 | the leftmost marker position, None iff there is none |
| PgCodegen.UnquotedDefault | src/pg.ts:209-221 | a default with no quote and no `::text` at its end falls through to `undefined! // s` |
| PgCodegen.JsonDefault | src/pg.ts:212-213 | `'…'::json` and `::jsonb` defaults give the quoted body |
| PgCodegen.QuotedTextDefault | src/pg.ts:212-213 | `'t'::text` gives `'t'`, and `''::text` gives `""` |
| PgCodegen.EmptyTextArrayDefault | src/pg.ts:215-216 | `'{}'::text[]` gives "[]" |
| PgCodegen.HstoreDefault | src/pg.ts:218-219 | `''::schema.hstore` gives "new Map()" |
| SqliteCodegen.CamelcaseHasNoDot | src/sqlite.ts:189-191 | camel-cased names hold no "." after the first character |
| SqliteCodegen.CamelcaseIgnoresDot | src/sqlite.ts:190 | a "." after the first character is dropped before camel-casing |
| SqliteCodegen.CamelcaseWithoutDots | src/sqlite.ts:189-191 | without dots, the SQLite camelcase is the PostgreSQL one |
| SqliteCodegen.UdtElement | src/sqlite.ts:242-257 | the second component is number, string, boolean, void or a mapped serializer |
| SqliteCodegen.UntypedIsString | src/sqlite.ts:231-245 | an empty type is read as "text" and gives "string" |
| SqliteCodegen.TextIsNotNumber | src/sqlite.ts:242-245 | "text" does not match the number pattern |
| SqliteCodegen.PlainName | src/sqlite.ts:229-258 | a name without "_" is mapped by the element classification, with no "[]" |
| SqliteCodegen.NumberAffinities | src/sqlite.ts:242-243 | `int`/`float` with any digits, none included, give "number" |
| SqliteCodegen.ArrayOfElement | src/sqlite.ts:233-258 | a leading "_" maps to the element's type plus "[]" |
| SqliteCodegen.IntegerIsString | src/sqlite.ts:242-257 | as written, a column declared `INTEGER` is typed and serialised as a string |
| SqliteCodegen.IntegerIsNumber | src/sqlite.ts:242-243 | with SQLite's affinity rules, `integer` and `real` columns are numbers |
| SqliteCodegen.ByAffinityKeepsNumbers | src/sqlite.ts:242-243 | every type the written pattern makes a number is the same number under the affinity rules |
| SqliteCodegen.TimestamptzAsWritten | src/sqlite.ts:54 | as written `timestamptz` falls through to "string"; with the corrected key it is Date |
| SqliteCodegen.QuotedValues | src/sqlite.ts:224 | every value is quoted, in order; None iff some value is null |
| SqliteCodegen.EnumUnionWith | src/sqlite.ts:222-224 | 50 or more values give null; otherwise an error iff some value is null, else the quoted values joined by " \| " |
| SqliteCodegen.EnumUnionParses | src/sqlite.ts:222-224 | the union of fewer than 50 values parses back as exactly those values |
| SqliteCodegen.EnumUnionAsWrittenPlain | src/sqlite.ts:224 | as written, values without backslashes give the same union |
| SqliteCodegen.EnumUnionTrailingBackslash | src/sqlite.ts:224 | as written, the value `a\` gives `"a\"`, which does not parse |

## Left out

- Database introspection (`get_all_types`, `get_table_like`, `get_functions`), `run`, `query` and `get_values` in src/pg.ts, and the PRAGMA loop in src/sqlite.ts. These are I/O. The catalogue rows they return are the models' inputs. The types map `PgtsType.map` is a parameter.
- The enum escape of src/pg.ts:168. It sits inside `get_values`, which is I/O. The SQLite expression at src/sqlite.ts:224 is modelled.
- The code emitter, CLI and prettier (`build` and the template rendering of src/pgts.ts), `extractSchemas`, and the debug `console.error` output. These are output plumbing.
- HTTP transport: `FETCH`, `GET`, `POST`, `DELETE`, `doSave`, `Model.get`, the Content-Range arithmetic and `get_csv`'s stream reading. An operation yields the request it would send, and nothing is received.
- The Date serializers, Date range endpoints, `to_local_datetime` and `serialize_tz`. These are floating point and clock values.
- Decorator machinery (`setPrototypeOf`, the descriptor-based `clone`). Actions are plain values.
- `ActionOnDeserialize`'s hook function and the (de)serialiser functions. These are opaque identifiers.
- The empty stubs: `Serializer.serialize`/`deserialize` return an empty object, and `removeAction`, `getFor`, `deserialize` and the `isAfterOrIncludes` family are not modelled.
- Aliasing: serializers and actions are values inside the registry. Two handles to the same `Serializer` object are not distinguished beyond that.
- Object key order: a key object (`__pk`) is a sequence in insertion order, which is the order `for…in` gives. `meta.columns` is the sequence of column names. The keys `Object.keys` gives for it are `ModelCrud.ColumnKeys`: the names for the name-keyed object `PgtsMeta` declares, and the indices for the array of names the generator emits (the src/index.ts:287 Findings row).
- `Model.createInDb`: the same loop as `create`, followed by `save`. Both are modelled; the request it sends is not.
- ModelCrud.Text, ModelCrud.ToUpdateArg, FieldSerializers.NumberOfText, FieldSerializers.StrTransform and the PgRange endpoints: numbers are exact unbounded integers, printed with every digit. JavaScript numbers are IEEE 754 doubles. Integers above 2^53 round to the nearest double: `Number("9007199254740993")` is 9007199254740992, and `JSON.parse` of a range side rounds the same way. `String` writes 10^21 and above in exponent form ("1e+21"). Neither the rounding nor the exponent form is modelled.
- FieldSerializers.NumberOfText: covers "" and optionally signed decimal integers. Every other text is NaN here, including texts `Number` reads as integers: surrounding whitespace (" 12 "), the `0x`/`0o`/`0b` prefixes, exponents ("1e3") and fractions with zero digits ("1.0"). Other fractions would be floating point, which is not modelled.
- PgRange: endpoints are integers or ±∞. A side whose text is neither empty nor an integer is an error, where `JSON.parse` would accept other JSON.
- PgtsTypes: basic-type registrations with a function-valued `jsname` or `serializer` are not modelled. Every load-time registration uses strings.
- PgtsTypes: regular expressions are limited to the load-time patterns.
- PgtsTypes: `PgtsColumn.typeName`, `isSystem`, `displayKind`, `returnsSet` and `isTrigger` are left out. They are one-line getters used only by the emitter.
- PgtsNaming.Match: rules are predicates, not regular expressions. `getJsType`/`getJsParser` use predicates equal to the patterns the source passes.
- PgCodegen.HstoreDefault: states only the empty-literal hstore default `''::schema.hstore`. Other quoted hstore literals follow the same code path.
- The camelcase of src/pg.ts:100-102 is the same code as src/type.ts:389-391 and is modelled once, by `PgtsTypes.Camelcase`.
- `console.warn` in the hstore deserializer is left out (output only).
- CsvParser: callbacks are recorded as a trace of events, and `get_csv`'s column converters are not modelled.
- CsvParser.CsvParser.Parse: requires that the text does not end inside an open quote, because the `continue` at src/csv.ts:51 skips the end-of-text test and the loop never stops there.
- CsvParser.CsvParser.Parse: runs the corrected null test of the src/csv.ts:70 Findings row, not the one written there. The as-written behaviour is modelled by the functions `ParsedAsWritten` and `Feed` with `asWritten` set.
- SerializeRegistry.Registry.Register, SerializeRegistry.Registry.Decorate, SerializeRegistry.Registry.AddTo and SerializeRegistry.Registry.DecorateProperty: call the corrected `Get` of the src/serialize.ts:135-149 Findings row. As written, decorating B, which extends an A that already owns a serializer, adds the action, or the property clone, to A's serializer (`GetAsWritten`).
- RelationGraph.BuildReferences, RelationGraph.PushForeignKeys, RelationGraph.SchemaDetails.constructor, RelationGraph.FinalReferences, RelationGraph.RawReferences, RelationGraph.ForeignKeyReferencesPresent, RelationGraph.ReferenceCount and RelationGraph.OutsideAllowedSchemasNoReferences: require `DestinationsKnown`, that every followed foreign key points at an introspected relation. Where one does not, src/pgts.ts:359-360 reads `schemaName` of undefined and throws a TypeError; that error path is not modelled.
- PgtsNaming.CamelCase, PgtsTypes.Camelcase and SqliteCodegen.Camelcase: `toUpperCase` is modelled on ASCII letters only (`Strings.Upper`). JavaScript also raises other letters ("é" to "É") and may lengthen a string ("ß" to "SS"); those names keep such characters unchanged here.

## Findings

| source | as written | input that shows it | evidently intended | confidence | as-written member | corrected member |
|---|---|---|---|---|---|---|
| src/serialize.ts:135-149 | `ctor[sym_serializer]` is found along the prototype chain, so a subclass gets its parent's serializer and the ancestor seeding never runs | a class B extending A, where A already has a serializer; `Serializer.get(B, true)` | B gets its own serializer seeded with A's actions (own-property test) | not executed; high | SerializeRegistry.Registry.GetAsWritten | SerializeRegistry.Registry.Get |
| src/type.ts:542 | `escapedName` escapes `"` but not `\` | the argument name `a\` gives `"a\"` | every character escaped as a literal body | not executed; high | PgtsTypes.EscapedNameTrailingBackslash | PgtsTypes.EscapedNameDecodes |
| src/sqlite.ts:224 | the enum literal escapes `\r`, `\n`, `"` but not `\` | the value `a\` gives `"a\"` | a literal that reads back as the value | not executed; high | SqliteCodegen.EnumUnionTrailingBackslash | SqliteCodegen.EnumUnionParses |
| src/pg.ts:176, src/sqlite.ts:54 | the type map key is spelt "timestampz" | the udt name `timestamptz` | `timestamptz` maps to Date | not executed; high | PgCodegen.TimestamptzAsWritten | PgCodegen.TimestamptzIsDate |
| src/pgts.ts:183-184 | the text of a `'…'::text` default is put between `"` as is | the default `'a"b'::text` gives `"a"b"` | a literal denoting the text | not executed; high | PgtsNaming.TextDefaultAsWrittenQuote | PgtsNaming.TextDefaultRoundTrip |
| src/csv.ts:70 | the null test looks only at this chunk's part of the field | chunks "a" then "," | the field "a" | not executed; high | CsvParser.ChunkBoundaryDropsField | CsvParser.ChunkingInvariant |
| src/pgts.ts:40 | each type pattern is anchored at one end only | the type names `candidate` and `interval` | whole-name matches | not executed; medium | PgtsNaming.CandidateTypeAsWritten | PgtsNaming.CandidateType |
| src/types/range.ts:16-19 | an unbounded side is written "-Infinity"/"Infinity" | the range read from "[,5)" | an empty side, which reads back | not executed; high | PgRange.UnboundedDoesNotRoundTrip | PgRange.DeserializeSerialize |
| src/type.ts:525-526 | the text of a `'…'::text` default is put between `'` with `'` unescaped | the default `'it''s'::text` gives `'it's'` | a literal denoting the text | not executed; high | PgtsTypes.TextDefaultAsWrittenApostrophe | PgtsTypes.TextDefaultLiteral |
| src/serializers.ts:54 | `"` in hstore keys and values is doubled | the key `a"b` | the hstore escape, a backslash before `"` and `\` | not executed; medium | FieldSerializers.HstoreEntryAsWrittenQuote | FieldSerializers.HstoreEntryReads |
| src/serialize.ts:229-236 | `serialize` looks the serializer up on `instance.constructor`, while both decorators register it on the prototype | a class C with a property decorated by `str`; `serialize(new C())` throws "there is no known serializer for this object" | the decorated instance is serialised with the serializer read from its prototype | not executed; high | SerializeRegistry.DecoratedInstanceAsWritten | SerializeRegistry.DecoratedInstance |
| src/sqlite.ts:242 | the number pattern `/^(int\|float)\d*$/` takes PostgreSQL's type names, which SQLite's `INTEGER` and `REAL` do not match | a column declared `INTEGER`, lower-cased at src/sqlite.ts:136, is typed `string` | `number`, as SQLite's integer and real affinities say | not executed; medium | SqliteCodegen.IntegerIsString | SqliteCodegen.IntegerIsNumber |
| src/index.ts:287 | `create` copies `defs[name]` for each `name` of `Object.keys(this.meta.columns)`, while the generator emits `columns` as an array of names (src/pgts.ts:497) | a generated class with the column `a`; `create({a: 1})` leaves `a` at its initialiser, because the keys read are "0", "1", … | the values of `defs` for the column names, as the name-keyed `columns` of `PgtsMeta` (src/index.ts:112) gives | not executed; high | ModelCrud.CreateDropsNamedValue | ModelCrud.CreatedOverInitialisers |
