# schema-validate, modelled in Dafny

schema-validate checks schema.org JSON-LD markup against two tables derived
from the schema.org vocabulary:

- a **subclass table**, mapping each type to its single parent;
- a **property table**, mapping each type to the properties it declares,
  each with the list of value types it accepts.

`SchemaValidator.validate` walks a node:

- It reports a missing `@type`, then an unknown type.
- For every other key it reports properties the type (with its ancestors)
  does not allow, and values whose guessed type is not an accepted one or a
  subtype of one.
- It recurses into typed sub-nodes, extending a path such as `step[0].`.

`stripInvalid` removes the keys a node's type does not allow, recursively.
The script `build-type-map.js` builds the two tables in one pass over the
vocabulary's `@graph`.

The project has one module per concern:

| module | file | models |
|---|---|---|
| `Json` | json.dfy | JSON values with ordered members, `obj[key]`, truthiness, the `@type` tag |
| `Hierarchy` | hierarchy.dfy | the tables, `getAllSuperClasses`, `isTypeOrSubtype`, the merge of allowed properties |
| `Patterns` | patterns.dfy | the duration and URL regular expressions as recognisers, with a grammar and a printer for durations |
| `ValueTypes` | value_types.dfy | `guessValueType` |
| `Validator` | validator.dfy | `validate`: the report as a function, the loop as methods, and a declarative "conforms" |
| `Sanitizer` | sanitizer.dfy | `stripInvalid`: the cleaned node as a function, and the loop that builds it |
| `TypeMapBuilder` | builder.dfy | the `graph.forEach` pass: a specification, and a class holding the two tables, updated in place |
| `Scenarios` | scenarios.dfy | the test-suite's four recipe cases, on a small invented table standing in for the schema.org data |

Each loop of the source is a method proved equal to a specification
function:

- `Hierarchy.GetAllSuperClasses` against `Ancestors`;
- `Validator.Validate` against `Violations`;
- `Sanitizer.StripInvalid` against `StripWith`;
- `TypeMapBuilder.TableBuilder.AddGraph` against `BuildFrom`.

The properties are proved about those functions. Each function is also tied
to an independent description:

- a parent chain;
- `SubtypeOf`, reachability by following parent links zero or more times;
- the duration grammar;
- `Conforms`;
- the key-level description of cleaning;
- the per-key description of the tables.

The ontology is a parameter (`Hierarchy.Ontology`), not a global loaded from
disk. Every query on it requires the subclass table to be acyclic
(`Hierarchy.Acyclic`). This is what makes `getAllSuperClasses` terminate.

## Model

| member | source | states |
|---|---|---|
| Hierarchy.GetAllSuperClasses | lib/SchemaValidator.js:12-20 | The loop returns exactly the parent chain of the type: the parent, the parent's parent, and so on, ending at a type with no truthy parent. |
| Hierarchy.AncestorsAreParentChain | lib/SchemaValidator.js:12-20 | The ancestor list is a parent chain, and it is the only one: any list in which each entry is the parent of the one before it and the last has no parent equals it. |
| Hierarchy.ChainIsParentChain | lib/SchemaValidator.js:12-20 | The fuelled chain of a type that reaches a root within the fuel is a parent chain. |
| Hierarchy.ParentChainIsChain | lib/SchemaValidator.js:12-20 | Any parent chain equals the fuelled chain (uniqueness). |
| Hierarchy.ChainFuel | lib/SchemaValidator.js:15 | The chain does not depend on how much fuel is given beyond what the type needs. |
| Hierarchy.ReachesRootMono | lib/SchemaValidator.js:15 | A type that reaches a root within n steps also does within any m >= n. |
| Hierarchy.ChainSuffix | lib/SchemaValidator.js:12-20 | The chain of the k-th ancestor is the tail of the chain after position k. |
| Hierarchy.AncestorsSuffix | lib/SchemaValidator.js:12-20 | The ancestors of the k-th ancestor are the remaining ancestors after it. |
| Hierarchy.AncestorsExcludeSelf | lib/SchemaValidator.js:12-20 | In an acyclic table a type is never its own ancestor. |
| Hierarchy.ChainReaches | lib/SchemaValidator.js:12-20 | A type is in the chain exactly when it is reached from the start by following one or more parent links. |
| Hierarchy.SubtypeOfIff | lib/SchemaValidator.js:23-27 | A type reaches another by zero or more parent links exactly when the other is itself or one of its ancestors. |
| Hierarchy.SubtypeIff | lib/SchemaValidator.js:23-27 | `isTypeOrSubtype` holds exactly when the actual type reaches some expected type by following zero or more parent links. |
| Hierarchy.SubtypeOfAncestors | lib/SchemaValidator.js:23-27 | A type is compatible with itself and with each of its ancestors. |
| Hierarchy.SubtypeTransitive | lib/SchemaValidator.js:23-27 | A subtype of a type that is compatible with a list is itself compatible with that list. |
| Hierarchy.SubtypeAntisymmetric | lib/SchemaValidator.js:23-27 | Two types that are each a subtype of the other are equal (acyclic table). |
| Hierarchy.AssignKeys | lib/SchemaValidator.js:67-68 | A property is in the merged map exactly when some type of the list declares it. |
| Hierarchy.AssignLastWins | lib/SchemaValidator.js:68 | `Object.assign` keeps the last declaration: the merged ranges are those of the last type in the list that declares the property. |
| Hierarchy.AllowedPropsKeys | lib/SchemaValidator.js:67-68 | A property is allowed for a type exactly when the type or one of its ancestors declares it. |
| Hierarchy.AllowedPropsFarthestWins | lib/SchemaValidator.js:67-68 | As written, the merged ranges come from the farthest ancestor that declares the property. |
| Hierarchy.AllowedPropsOneAncestor | lib/SchemaValidator.js:67-68 | A type with exactly one ancestor allows its own declarations overlaid by the parent's. |
| Hierarchy.NearestFirstWins | lib/SchemaValidator.js:67-68 | The corrected merge keeps the first (most specific) declaration of each property. |
| Hierarchy.NearestKeys | lib/SchemaValidator.js:67-68 | The corrected merge allows the same properties as the merge as written. |
| Hierarchy.NearestAllowedPropsMostSpecificWins | lib/SchemaValidator.js:67-68 | Corrected: the ranges come from the nearest type (the type itself first) that declares the property; the set of allowed properties is unchanged. |
| Hierarchy.ConsistentRangesAgree | lib/SchemaValidator.js:67-68 | When every type that declares a property gives it the same ranges, the two merges coincide. |
| Hierarchy.FirstDeclaring | lib/SchemaValidator.js:68 | Among the types that declare a property, there is a first one. |
| Hierarchy.LastDeclaring | lib/SchemaValidator.js:68 | Among the types that declare a property, there is a last one. |
| Hierarchy.PrecedenceExample | lib/SchemaValidator.js:67-68 | For a child re-declaring `p` as `X` under a parent declaring `Y`, the code allows `p: [Y]`; the corrected merge gives `p: [X]`. |
| Patterns.DigitRun | lib/SchemaValidator.js:49 | `\d+` is greedy: it takes the longest run of ASCII digits. |
| Patterns.ComponentAt | lib/SchemaValidator.js:49 | A component `(\d+U)?` reads a digit run followed by its unit letter, and reads nothing when the letter is a different one. |
| Patterns.ParseRender | lib/SchemaValidator.js:48-50 | Every duration of the grammar `P[T[nH][nM][nS]]` printed in upper case is accepted and parsed back to itself. |
| Patterns.ParseSound | lib/SchemaValidator.js:48-50 | Whatever the recogniser accepts is a valid duration whose printed form is the input in upper case. |
| Patterns.ComponentSound | lib/SchemaValidator.js:49 | A component read is valid and re-prints the consumed input. |
| Patterns.TimeSound | lib/SchemaValidator.js:49 | The time part is read as hours, then minutes, then seconds, and re-prints the consumed input. |
| Patterns.ParseUpper | lib/SchemaValidator.js:49 | The recogniser does not depend on letter case. |
| Patterns.DurationIff | lib/SchemaValidator.js:48-50 | `isIso8601Duration(s)` holds exactly when `s` is, up to case, the printed form of some duration of the grammar. |
| Patterns.SchemeLength | lib/SchemaValidator.js:53 | The optional scheme `(https?:)?` spans 0, 5 or 6 characters. |
| Patterns.UrlIff | lib/SchemaValidator.js:52-54 | `isValidUrl(s)` holds exactly when `s`, up to case, begins with `//`, `http://` or `https://`. |
| Patterns.DurationIsNotUrl | lib/SchemaValidator.js:31-34 | No string is both a duration and a URL, so the order of the two tests does not matter. |
| ValueTypes.FirstLeaf | lib/SchemaValidator.js:38-40 | Following first elements ends at a value that is not a non-empty array. |
| ValueTypes.GuessValueType | lib/SchemaValidator.js:30-46 | The guess is never empty; it is a built-in name, or the `@type` of the value reached through first elements. |
| ValueTypes.GuessFollowsFirstLeaf | lib/SchemaValidator.js:38-40 | An array is guessed as its first element, recursively; ending at an empty array gives `Unknown`. |
| ValueTypes.GuessStringRules | lib/SchemaValidator.js:31-35 | A string is guessed `Duration` exactly when it is a duration, `URL` exactly when it has one of the URL prefixes, and `Text` otherwise. |
| ValueTypes.PlainText | lib/SchemaValidator.js:31-35 | A string whose first character is not `P`, `H` or `/` (in either case) is `Text`. |
| ValueTypes.GuessBareDesignators | lib/SchemaValidator.js:49 | `P` and `pt` alone are durations. |
| ValueTypes.GuessMinutes | lib/SchemaValidator.js:49 | `PT5M` is a duration. |
| ValueTypes.GuessDateRejected | lib/SchemaValidator.js:49 | `P1D` is not: the pattern has no date part. |
| ValueTypes.GuessOrderRejected | lib/SchemaValidator.js:49 | `PT1M1H` is not: components appear in the order H, M, S. |
| ValueTypes.GuessRelativeUrl | lib/SchemaValidator.js:53 | A protocol-relative `//host` is a URL. |
| ValueTypes.GuessUpperCaseUrl | lib/SchemaValidator.js:53 | The scheme matches in upper case. |
| ValueTypes.GuessOtherSchemeRejected | lib/SchemaValidator.js:53 | `ftp://…` is `Text`. |
| Validator.NatToString | lib/SchemaValidator.js:93 | An array index is printed as a non-empty string of decimal digits. |
| Validator.NatToStringRoundTrip | lib/SchemaValidator.js:93 | Reading the printed index back gives the index. |
| Validator.NatToStringInjective | lib/SchemaValidator.js:93 | Distinct positions get distinct path segments. |
| Validator.Validate | lib/SchemaValidator.js:57-116 | The loop over keys returns exactly the specified report. |
| Validator.CheckMember | lib/SchemaValidator.js:75-112 | One key contributes exactly its specified findings: none for `@type` or `@context`; "not allowed"; or the findings of each array position in order, or of the single value. |
| Validator.CheckPosition | lib/SchemaValidator.js:89-99 | One value contributes a type mismatch when its guessed type is incompatible, then the report of the node itself when it is typed. |
| Validator.ViolationsEmptyIff | lib/SchemaValidator.js:57-116 | A node has an empty report exactly when it conforms: it is typed, its type allows some property, every non-reserved key is allowed, and every value (every position of an array) has a compatible guessed type and, if typed, conforms. |
| Validator.MembersViolationsEmptyIff | lib/SchemaValidator.js:75-113 | The members have no findings exactly when each member conforms. |
| Validator.MemberViolationsEmptyIff | lib/SchemaValidator.js:76-112 | One member has no findings exactly when it conforms. |
| Validator.ItemsViolationsEmptyIff | lib/SchemaValidator.js:87-100 | An array has no findings exactly when each of its positions conforms. |
| Validator.PositionViolationsEmptyIff | lib/SchemaValidator.js:89-99 | One position has no findings exactly when its type is compatible and, if typed, it conforms. |
| Validator.ViolationsUnderPrefix | lib/SchemaValidator.js:57-116 | Every finding's path extends the prefix of the node it was found under. |
| Validator.MembersViolationsUnderPrefix | lib/SchemaValidator.js:75-113 | The same, for the members of a node. |
| Validator.MemberViolationsUnderPrefix | lib/SchemaValidator.js:76-112 | The same, for one member. |
| Validator.ItemsViolationsUnderPrefix | lib/SchemaValidator.js:88-99 | The same, for the positions of an array. |
| Validator.PositionViolationsUnderPath | lib/SchemaValidator.js:89-99 | The same, for one position. |
| Validator.MembersViolationsInclude | lib/SchemaValidator.js:75-113 | Every finding of one member appears in the node's report. |
| Validator.ItemsViolationsInclude | lib/SchemaValidator.js:88-99 | Every finding of one array position appears in the array's findings. |
| Validator.NotAllowedReported | lib/SchemaValidator.js:80-83 | On a typed node whose type allows some property, each non-reserved key the type does not allow is reported at `prefix + key`. |
| Validator.MismatchReported | lib/SchemaValidator.js:102-108 | A scalar or object value of an allowed key whose guessed type is incompatible is reported at `prefix + key` with the expected list and the guess. |
| Validator.ItemMismatchReported | lib/SchemaValidator.js:90-96 | An incompatible array element is reported at `prefix + key + "[" + j + "]"`. |
| Sanitizer.StripInvalid | lib/SchemaValidator.js:119-142 | The loop over keys builds exactly the specified cleaned node. |
| Sanitizer.StripMemberCopy | lib/SchemaValidator.js:129-138 | A kept value is cleaned element-wise if it is an array, cleaned if it is a typed node, and copied otherwise. |
| Sanitizer.StripItems | lib/SchemaValidator.js:131-133 | Mapping over an array keeps its length. |
| Sanitizer.StripLookup | lib/SchemaValidator.js:127-140 | After cleaning, a key has a value exactly when it was present and is reserved or allowed, and that value is the cleaned original. |
| Sanitizer.StripKeys | lib/SchemaValidator.js:127-140 | The cleaned node's keys are the original keys that are kept, in their original order. |
| Sanitizer.KeptKeys | lib/SchemaValidator.js:128 | The kept keys are exactly the keys that are reserved or allowed. |
| Sanitizer.KeptKeysAppend | lib/SchemaValidator.js:127-128 | Filtering keys distributes over appending one key. |
| Sanitizer.LookupAppend | lib/SchemaValidator.js:137 | Appending a member does not change the value of a key present before. |
| Sanitizer.StripPreservesTag | lib/SchemaValidator.js:121-128 | Cleaning keeps the node's `@type`. |
| Sanitizer.StripItemPreservesTag | lib/SchemaValidator.js:131-135 | Cleaning a value in property position keeps its `@type`. |
| Sanitizer.StripIdempotent | lib/SchemaValidator.js:119-142 | Cleaning twice gives the same as cleaning once. |
| Sanitizer.StripMembersIdempotent | lib/SchemaValidator.js:127-140 | The same, on the members of a node. |
| Sanitizer.StripMemberValueIdempotent | lib/SchemaValidator.js:129-138 | The same, on one kept value. |
| Sanitizer.StripValueIdempotent | lib/SchemaValidator.js:130-138 | The same, on a value in property position. |
| Sanitizer.StripItemsIdempotent | lib/SchemaValidator.js:131-133 | The same, on an array. |
| Sanitizer.StripItemIdempotent | lib/SchemaValidator.js:132 | The same, on one element; a non-array stays a non-array. |
| Sanitizer.StripRemovesNotAllowed | lib/SchemaValidator.js:80-83 | The report of a cleaned node contains no "not allowed" finding, at any depth. |
| Sanitizer.StripMembersRemoveNotAllowed | lib/SchemaValidator.js:127-140 | The same, for the cleaned members of a node. |
| Sanitizer.StripValueRemovesNotAllowed | lib/SchemaValidator.js:129-138 | The same, for the cleaned value of an allowed key. |
| Sanitizer.StripItemsRemoveNotAllowed | lib/SchemaValidator.js:131-133 | The same, for a cleaned array. |
| Sanitizer.StripItemRemovesNotAllowed | lib/SchemaValidator.js:132 | The same, for one cleaned element. |
| Sanitizer.UnknownTypeCleaned | lib/SchemaValidator.js:123-128 | A node holding its `@type` and one non-reserved key, whose type allows nothing, is cleaned down to its `@type`, while `validate` reports it as exactly one unknown-type finding at its path (lines 70-73). |
| Sanitizer.ValidatedUnchanged | lib/SchemaValidator.js:57-142 | Corrected: when `@type` and `@context` values are copied as they are, a node with an empty report is left unchanged by cleaning. |
| Sanitizer.ConformingUnchanged | lib/SchemaValidator.js:119-142 | Corrected policy: a conforming node is left unchanged. |
| Sanitizer.ConformingMembersUnchanged | lib/SchemaValidator.js:127-140 | Corrected policy: conforming members are left unchanged. |
| Sanitizer.ConformingValueUnchanged | lib/SchemaValidator.js:129-138 | Corrected policy: a conforming value of an allowed key is left unchanged. |
| Sanitizer.ConformingItemsUnchanged | lib/SchemaValidator.js:131-133 | Corrected policy: an array of conforming positions is left unchanged. |
| Sanitizer.ConformingItemUnchanged | lib/SchemaValidator.js:132 | Corrected policy: a conforming position is left unchanged. |
| Sanitizer.ExampleHasNothingToReport | lib/SchemaValidator.js:75-76 | A `HowTo` whose `@context` holds a typed node of an unknown type with an extra key has an empty report: `@context` is skipped. |
| Sanitizer.ExampleContextCleaned | lib/SchemaValidator.js:128-135 | As written, that `@context` value is itself cleaned, losing its extra key. |
| Sanitizer.StripChangesValidatedNode | lib/SchemaValidator.js:57-142 | As written, a node with an empty report can still be changed by cleaning; under the corrected policy it is not. |
| TypeMapBuilder.StripSchema | scripts/build-type-map.js:48 | `replace('schema:', '')` removes seven characters or none. |
| TypeMapBuilder.StripSchemaNoOccurrence | scripts/build-type-map.js:48 | A name without `schema:` is unchanged. |
| TypeMapBuilder.StripSchemaFirstOccurrence | scripts/build-type-map.js:48 | Only the first occurrence of `schema:` is removed, wherever it is. |
| TypeMapBuilder.StripSchemaPrefix | scripts/build-type-map.js:48 | `schema:Thing` becomes `Thing`. |
| TypeMapBuilder.StripSchemaOnce | scripts/build-type-map.js:48 | `schema:schema:x` becomes `schema:x`. |
| TypeMapBuilder.StripSchemaInside | scripts/build-type-map.js:48 | `a:schema:b` becomes `a:b`. |
| TypeMapBuilder.OccursAtTail | scripts/build-type-map.js:48 | An occurrence at i+1 is an occurrence at i in the tail. |
| TypeMapBuilder.StripSchemaKeepsHead | scripts/build-type-map.js:48 | Without an occurrence at the start, the first character is kept. |
| TypeMapBuilder.IdName | scripts/build-type-map.js:48 | A node has a usable name exactly when its `@id` is a string. |
| TypeMapBuilder.TableBuilder.constructor | scripts/build-type-map.js:25-26 | Both tables start empty. |
| TypeMapBuilder.TableBuilder.AddItem | scripts/build-type-map.js:36-80 | One node: on a node the script gets through, the tables become the specified step; otherwise nothing changes and `false` is returned. |
| TypeMapBuilder.TableBuilder.AddParents | scripts/build-type-map.js:41-51 | Each parent naming an `@id`, in order, sets the node's parent; the property table is unchanged. |
| TypeMapBuilder.TableBuilder.AddProperty | scripts/build-type-map.js:54-79 | An `rdf:Property` with domains is added to each domain with its ranges; any other node leaves the property table as it was; the subclass table is unchanged. |
| TypeMapBuilder.TableBuilder.AddToDomains | scripts/build-type-map.js:68-78 | Each domain, created empty if missing, gets the property with the range list. |
| TypeMapBuilder.TableBuilder.AddGraph | scripts/build-type-map.js:36-80 | The pass succeeds exactly when the specification does, and then leaves exactly the specified tables. |
| TypeMapBuilder.BuildFromStops | scripts/build-type-map.js:36-80 | A node that throws ends the whole pass: no later node can make it succeed. |
| TypeMapBuilder.SubclassNoParent | scripts/build-type-map.js:46-50 | Parents that name no `@id` leave the subclass table unchanged. |
| TypeMapBuilder.SubclassLastParentWins | scripts/build-type-map.js:46-50 | With several named parents, the last one is the one recorded. |
| TypeMapBuilder.SubclassAfterKeys | scripts/build-type-map.js:46-50 | Entries for other types are untouched. |
| TypeMapBuilder.TypeMapAfterSpec | scripts/build-type-map.js:68-78 | After a property: the tables present are the old ones plus the domains; each domain's table is its old table (or empty) with the property set to the ranges; other tables are untouched. |
| TypeMapBuilder.ItemStepSubclass | scripts/build-type-map.js:41-51 | Per node: no named parent leaves the subclass table unchanged; otherwise the node's stripped `@id` maps to the last named parent's. |
| TypeMapBuilder.ItemStepTypeMap | scripts/build-type-map.js:54-79 | Per node: a property with domains sets itself in each domain with its ranges (empty without ranges) and keeps the domain's other properties and other types' tables; anything else leaves the property table unchanged. |
| TypeMapBuilder.UnmatchedItemUnchanged | scripts/build-type-map.js:36-80 | A node with neither `rdfs:subClassOf` nor type `rdf:Property` changes nothing. |
| TypeMapBuilder.TypeMapAfterConsistent | scripts/build-type-map.js:68-78 | Adding a property with the ranges it already has elsewhere keeps every declaration of it consistent, so both merge orders agree. |
| Scenarios.VocabularyAcyclic | test/validator.test.js:11-31 | The invented scenario table (`HowTo`, `HowToStep` and `HowToTool` under `CreativeWork`) has an acyclic subclass table. |
| Scenarios.AncestorsOfChild | test/validator.test.js:11-31 | Each recipe type has `CreativeWork` as its only ancestor. |
| Scenarios.AllowedOfChild | test/validator.test.js:11-31 | A recipe type allows its own properties plus the inherited `name`. |
| Scenarios.CompatibleOnlyWhenListed | test/validator.test.js:11-31 | A type with no parent in this vocabulary is compatible with a list exactly when it is listed. |
| Scenarios.TextMember | test/validator.test.js:15 | An allowed key accepting `Text`, holding a plain string, has no findings. |
| Scenarios.NameIsText | test/validator.test.js:15 | `name` with plain text has no findings on any recipe type. |
| Scenarios.NameConforms | test/validator.test.js:15 | The same, as conformance. |
| Scenarios.NamedMembersConform | test/validator.test.js:17-25 | A typed node holding just a name has no member findings. |
| Scenarios.NamedNodeConforms | test/validator.test.js:17-25 | Such a node has an empty report. |
| Scenarios.HowToDeclares | test/validator.test.js:14-26 | `HowTo` allows `totalTime`, `tool` and `step` with its own ranges. |
| Scenarios.HowToInherits | test/validator.test.js:53 | `HowTo` allows the inherited `name` but not `invalidProperty`. |
| Scenarios.TypedPosition | lib/SchemaValidator.js:97-98 | A typed value of the expected type contributes exactly its own report under `path.`. |
| Scenarios.NamedPosition | test/validator.test.js:17-25 | A named node of the expected type has no findings in property position. |
| Scenarios.NamedMember | test/validator.test.js:17-20 | `tool: {HowToTool}` has no findings. |
| Scenarios.NamedItemMember | test/validator.test.js:21-26 | `step: [{HowToStep}]` has no findings. |
| Scenarios.DurationMember | test/validator.test.js:16 | `totalTime: "PT5M"` has no findings. |
| Scenarios.RecipeTag | test/validator.test.js:14 | The recipe's type is `HowTo`. |
| Scenarios.RecipeTextConforms | test/validator.test.js:15-16 | `name` and `totalTime` of the recipe conform. |
| Scenarios.RecipeToolConforms | test/validator.test.js:17-20 | `tool` of the recipe conforms. |
| Scenarios.RecipeStepsConform | test/validator.test.js:21-26 | `step` of the recipe conforms. |
| Scenarios.RecipeMembersConform | test/validator.test.js:12-27 | Every member of the recipe conforms. |
| Scenarios.MakeTeaIsValid | test/validator.test.js:11-31 | The correct recipe has an empty report. |
| Scenarios.IntegerIsNotDuration | test/validator.test.js:38 | The number 5 is guessed `Integer`, which is not compatible with `Duration`. |
| Scenarios.IntegerMismatch | lib/SchemaValidator.js:101-108 | Any allowed scalar key holding an integer where `Integer` is not compatible is reported at that key. |
| Scenarios.IntegerDurationReported | test/validator.test.js:33-45 | On any `HowTo` node, `totalTime` holding an integer is reported as a mismatch at `totalTime`. |
| Scenarios.NumericDurationReported | test/validator.test.js:33-45 | The recipe with `totalTime: 5` reports the mismatch at `totalTime`. |
| Scenarios.UntypedReported | test/validator.test.js:70-78 | A node without `@type` gives exactly one finding, a missing type at the root. |
| Scenarios.UnknownTypeReported | lib/SchemaValidator.js:70-73 | A node of a type the tables do not know gives exactly one finding, an unknown type. |
| Scenarios.StringKept | lib/SchemaValidator.js:137 | A plain string is copied by cleaning. |
| Scenarios.HowToDrops | test/validator.test.js:63-64 | On any `HowTo` node, a key that is neither reserved nor allowed is gone after cleaning. |
| Scenarios.HowToKeepsName | test/validator.test.js:63-67 | On any `HowTo` node, `name` with a plain string is kept as it is. |
| Scenarios.MessyFacts | test/validator.test.js:47-53 | The node to clean has type `HowTo`, a name, and the undeclared `invalidProperty`. |
| Scenarios.MessyLosesUndeclared | test/validator.test.js:63-64 | Cleaning it drops `invalidProperty`. |
| Scenarios.MessyKeepsDeclared | test/validator.test.js:63-67 | Cleaning it keeps `name` with its value, and the type. |

## Left out

- Loading `typeMap.json` and `subclassMap.json` (lib/SchemaValidator.js:1-6) is I/O. The tables are a parameter instead.
- The script's own I/O is left out: the existence check, reading and parsing the input, and extracting `@graph` (scripts/build-type-map.js:13-33), and writing the two files (82-94). The pass starts from empty tables and a sequence of nodes.
- Numbers are reduced to whether they are integral. Floating point, `NaN` and the falsiness of `0` are not modelled: every number is truthy.
- `@type` is modelled as a string only; a non-string `@type` (a JSON-LD list of types, say) counts as missing. `validate` and `stripInvalid` would go on with such a value, and `guessValueType` would return it.
- Objects are a sequence of members, in the order `Object.keys` gives for non-integer keys. `JSON.parse` keeps only the last of duplicate keys; the model does not collapse them and reads `@type` from the first. Inputs are meant to have distinct keys, but no contract relies on it. Keys that look like array indices (which JavaScript lists first) are not modelled.
- Inherited object keys are not modelled. A key such as `constructor` would find a value on the prototype of `{}` in `allowedProps[prop]`.
- Validator.Validate: requires an acyclic subclass table, because `getAllSuperClasses` loops forever on a cycle. It also requires a non-null root, because `jsonLd['@type']` throws on `null`.
- Sanitizer.StripInvalid: requires an acyclic subclass table, for the same reason. It also requires a non-null root, as does `Sanitizer.StripWith`, because `jsonLd['@type']` throws on `null` (lib/SchemaValidator.js:120). Nested values are only cleaned when they are typed objects, so the requirement never binds below the root.
- Hierarchy.GetAllSuperClasses: requires an acyclic subclass table; the source loops forever on a cycle.
- The `parentType` argument of `validate` is never read by the source, so it is not modelled.
- Error messages are modelled as a structured `Kind` (missing type, unknown type, not allowed, mismatch with the expected list and the guess), not as formatted text.
- TypeMapBuilder.TableBuilder.AddItem: checks that the node will not throw before it changes anything. The script instead updates until the throw, then ends without writing either file, so the partial updates cannot be observed.
- The pass over the graph is split into `AddParents`, `AddProperty` and `AddToDomains`, one per part of the loop body.
- Scenarios.NumericDurationReported: states that the mismatch is in the report, rather than that it comes first as `errors[0]` (test/validator.test.js:43-44). The scenario's node also leaves out `@context` and `name`.
- The scenarios run on a small invented table (four types, four properties), not on the schema.org tables the tests load through lib/SchemaValidator.js:1-6.
- Scenarios.MessyLosesUndeclared: the test's nested `badField` inside `step` (test/validator.test.js:54-60, 65-67) is not part of the scenario. That case is covered for every node by `Sanitizer.StripLookup` and `Sanitizer.StripRemovesNotAllowed`.
- One would expect a type's own declaration to take precedence in `allowedProps`. The code lets the farthest ancestor win (lib/SchemaValidator.js:67-68), and the model follows the code; see "## Findings".

## Findings

| source | as written | input that shows it | evidently intended | confidence | as-written member | corrected member |
|---|---|---|---|---|---|---|
| lib/SchemaValidator.js:67-68 | `Object.assign` over `[type, ...supers]` lets the farthest ancestor's declaration overwrite the type's own | `A` under `B`, where `A` declares `p: [X]` and `B` declares `p: [Y]`: `p` is allowed as `[Y]` | a type's own declaration (the most specific) wins | not executed | Hierarchy.PrecedenceExample | Hierarchy.NearestAllowedPropsMostSpecificWins |
| lib/SchemaValidator.js:128-135 | `stripInvalid` cleans a typed node under `@context`, which `validate` skips (75-76) | a `HowTo` (declaring only `name`) whose `@context` value is `{"@type": "Thing", "note": "x"}`: `validate` reports nothing, yet `stripInvalid` drops `note` | a node with nothing to report is returned unchanged | not executed | Sanitizer.StripChangesValidatedNode | Sanitizer.ValidatedUnchanged |
