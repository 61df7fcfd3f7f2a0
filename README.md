# JsonNode: a verified model of VCMI's JSON tree and its merge algebra

VCMI keeps its game configuration as JSON trees. Several sources are layered
into one resolved tree: base definitions, mod fragments and per-object
overrides. `lib/JsonNode.h` declares the node type and the algebra that does
this layering. This project models both in Dafny and proves what the header
promises about them.

The node type (`JsonNode`) is a tagged union with seven alternatives: null,
bool, float, string, vector, struct and integer. Each node also has two
sidecar fields: `meta`, a free-form provenance string, and `flags`, a list of
meta-flags such as `override`. The model has these parts:

- `value.dfy`, module `JsonValue`. The node as a value: the `Node` datatype,
  `setType`/`clear`, the `is*` predicates, `containsBaseData`, the const
  accessors, the const `operator[]`, `operator==` and `setMeta`.
- `pointer.dfy`, module `JsonPointer`. The "json pointer" paths of
  `resolvePointer`. It covers splitting and joining paths and the array-index
  segments of section 4 of RFC 6901. It has the const resolution and the
  non-const one, together with the non-const `operator[]` by key and by index.
- `algebra.dfy`, module `JsonUtils`. The value that `merge` leaves in its
  destination, plus `inherit`, `intersect` (binary and over a list),
  `difference` and `boolNode`/`stringNode`/`intNode`.
- `node.dfy`, module `JsonObjects`. The in-place layer: class `JsonNode`,
  whose methods rewrite its stored variant. It also holds the destructive
  `merge`, which walks the source with loops, and `mergeCopy` and `inherit`.
  Each method is proved against the value functions above.
- `convert.dfy`, module `JsonConvert`. `convertTo` for bool, string, 32-bit
  integer and nested vector, set and map targets. The converter loops are
  proved against a recursive specification.
- `scenarios.dfy`, module `JsonScenarios`. Worked trees for merge with
  deletion, override, intersect with pruning, pointer lookup, conversion and
  difference.

The model follows the contract that `lib/JsonNode.h` declares: its
declarations, doc comments and inline templates. Where the header does not
decide a behaviour, the model fixes one reading and says so:

- Equality compares `data` only, recursively. `meta` and `flags` take no
  part in it.
- A source node flagged `override` is put in place whole. Without the flag it
  would be merged member by member or entry by entry. `ignoreOverride`
  switches the flag off at every depth.
- A null source at the top of `merge` leaves the destination as it is. A null
  member of a source struct deletes that member from the destination. A null
  entry of a source vector deletes the data of the matching destination
  entry, which stays in place as an empty node so that later entries keep
  their index.
- With `copyMeta`, every node that is merged into takes the source's `meta`.
  A node that is replaced takes the source's `meta` and `flags` in any case.
- `containsBaseData` looks at `data` only. A null node has no base data and a
  scalar always has it. A vector or struct has it exactly when one of its
  children does.
- The non-const `resolvePointer` and `operator[]` create what is missing.
  They coerce a node of another type to a struct or vector, add empty
  members, and grow vectors with empty entries.
- `merge` leaves its source with null data. Its `meta` and `flags` stay.

## Model

| member | source | states |
|---|---|---|
| JsonValue.DefaultData | lib/JsonNode.h:65-66 | the content a retyped node gets has the requested type and is empty: false, zero, "", [] or an empty map |
| JsonValue.NewNode | lib/JsonNode.h:50-51 | `JsonNode(Type)` has the requested type, holds that type's empty value, and has no meta and no flags |
| JsonValue.TypeOf | lib/JsonNode.h:67 | `getType()` names the alternative the node holds: null, vector and struct each exactly when the data is that alternative |
| JsonValue.SetType | lib/JsonNode.h:65-66 | after `setType(t)` the node has type `t`; a node already of type `t` is unchanged; any other node loses its content; meta and flags stay |
| JsonValue.Clear | lib/JsonNode.h:78-79 | after `clear()` the node is null and holds no data; meta and flags stay |
| JsonValue.IsNull | lib/JsonNode.h:69 | `isNull()` holds exactly when `getType()` is DATA_NULL |
| JsonValue.IsNumber | lib/JsonNode.h:70 | `isNumber()` holds exactly for DATA_FLOAT and DATA_INTEGER |
| JsonValue.IsString | lib/JsonNode.h:71 | `isString()` holds exactly when `getType()` is DATA_STRING |
| JsonValue.IsVector | lib/JsonNode.h:72 | `isVector()` holds exactly when `getType()` is DATA_VECTOR |
| JsonValue.IsStruct | lib/JsonNode.h:73 | `isStruct()` holds exactly when `getType()` is DATA_STRUCT |
| JsonValue.ContainsBaseData | lib/JsonNode.h:74-76 | a node with base data is not null; every scalar has base data; an empty vector or struct has none; a vector or struct has it exactly when a child has it |
| JsonValue.BaseDataRespectsEquals | lib/JsonNode.h:74-76 | equal nodes agree on `containsBaseData` |
| JsonValue.AsBool | lib/JsonNode.h:93 | const `Bool()` needs a bool node and reads back its payload |
| JsonValue.AsFloat | lib/JsonNode.h:94-95 | const `Float()` is allowed on float and integer nodes; an integer is read as the double nearest to it |
| JsonValue.AsInteger | lib/JsonNode.h:96-97 | const `Integer()` is allowed on integer nodes only and reads back the 64-bit payload |
| JsonValue.AsString | lib/JsonNode.h:98 | const `String()` needs a string node and reads back its text |
| JsonValue.AsVector | lib/JsonNode.h:99 | const `Vector()` needs a vector node and reads back its entries |
| JsonValue.AsStruct | lib/JsonNode.h:100 | const `Struct()` needs a struct node and reads back its members |
| JsonValue.CoercionEnablesConstAccess | lib/JsonNode.h:84-100 | after a mutating accessor's coercion the const accessor of that type is allowed; it reads the old payload when the type matched and the default otherwise |
| JsonValue.Member | lib/JsonNode.h:112-114 | const `operator[](key)` on a struct yields the member, or an empty node when the key is absent |
| JsonValue.Entry | lib/JsonNode.h:117 | const `operator[](index)` on a vector yields the entry at an index in range |
| JsonValue.EqualsReflexive | lib/JsonNode.h:60 | every node is `==` to itself |
| JsonValue.EqualsSymmetric | lib/JsonNode.h:60-61 | `==` is symmetric |
| JsonValue.EqualsTransitive | lib/JsonNode.h:60-61 | `==` is transitive |
| JsonValue.Equals | lib/JsonNode.h:60 | `==` compares data only, recursively: scalars are equal exactly when their values are; vectors entry by entry at equal length; structs key by key over equal key sets; equal nodes have the same type |
| JsonValue.SetMeta | lib/JsonNode.h:63 | `setMeta` sets meta at the top and keeps the flags, the type and the shape (vector length, struct keys); without `recursive` the data is untouched |
| JsonValue.SetMetaChangesMetaOnly | lib/JsonNode.h:63 | `setMeta` leaves the node `==` to itself, keeps every flag and sets meta at the top; when recursive it sets meta on every node below; otherwise the children stay untouched |
| JsonUtils.MergeValue | lib/JsonNode.h:139-147 | the node `merge` leaves in dest: a null source keeps dest; two structs or two vectors recurse unless the source is override-flagged; anything else is replaced; the result is a struct or a vector exactly when a non-null source is |
| JsonUtils.MergeStructMembers | lib/JsonNode.h:139-147 | two structs merge per key: a null source member deletes the key; a key only in dest stays; any other source member is merged into dest's member, or into an empty node |
| JsonUtils.MergeVectorEntries | lib/JsonNode.h:139-147 | two vectors merge entry by entry; a null source entry deletes the data of the dest entry; the longer vector gives the length; extra source entries are appended and extra dest entries stay |
| JsonUtils.MergeSourceWins | lib/JsonNode.h:143-147 | a null source changes nothing; otherwise the result has the source's type; a scalar source, a source of a different type or an override-flagged source replaces dest |
| JsonUtils.MergeKeepsNonNull | lib/JsonNode.h:139-147 | merging into a non-null node never gives a null node |
| JsonUtils.MergeIdempotent | lib/JsonNode.h:139-147 | merging a node into a copy of itself gives a node `==` to it |
| JsonUtils.IgnoreOverrideWithoutFlags | lib/JsonNode.h:48 | `ignoreOverride` makes no difference when no node of the source has the override flag |
| JsonUtils.CopyMetaChangesMetaOnly | lib/JsonNode.h:147 | with or without `copyMeta`, the merged trees are `==` |
| JsonUtils.Inherit | lib/JsonNode.h:159-162 | `inherit` merges the descendant into the base: a non-null descendant over a null base is kept as it is, and the result has the type of the descendant, or of the base when the descendant is null |
| JsonUtils.InheritIdentities | lib/JsonNode.h:159-162 | inheriting from a null base gives the descendant back; a node inheriting from itself gives a node `==` to it |
| JsonUtils.InheritFields | lib/JsonNode.h:159-162 | for structs, base members the descendant does not name are inherited; members it nulls are removed; its other members keep their type, and scalars keep their value |
| JsonUtils.Intersect | lib/JsonNode.h:164-171 | nodes of different types intersect to null; a non-null intersection has the type of both inputs; two nodes that are not both structs intersect to the first when equal and to null when not |
| JsonUtils.IntersectStructMembers | lib/JsonNode.h:164-171 | the intersection of two structs holds exactly their common keys, each intersected recursively; with `pruneEmpty`, the keys whose intersection has no base data are dropped |
| JsonUtils.IntersectCommutes | lib/JsonNode.h:171 | `intersect(a, b)` is `==` to `intersect(b, a)` |
| JsonUtils.IntersectSelf | lib/JsonNode.h:171 | `intersect(x, x, false)` is `==` to `x` |
| JsonUtils.IntersectSelfPruned | lib/JsonNode.h:166-171 | `intersect(x, x, true)` is `x` with the members holding no base data removed at every struct level |
| JsonUtils.IntersectBelowBoth | lib/JsonNode.h:164-171 | the intersection is a common part of both inputs |
| JsonUtils.IntersectAll | lib/JsonNode.h:172 | the list form gives null for no node and the node itself for one node |
| JsonUtils.IntersectFoldBelow | lib/JsonNode.h:172 | the pairwise fold is a common part of its start and of every node folded in |
| JsonUtils.IntersectAllBelowEach | lib/JsonNode.h:172 | the list intersection is a common part of every node in the list |
| JsonUtils.Overriding | lib/JsonNode.h:48 | the flagged copy carries "override" and is `==` to the node |
| JsonUtils.NoPlainDifferenceShrinksVector | lib/JsonNode.h:139-147 | no node without the override flag, merged into a vector, gives back a shorter vector: so `[1]` over base `[1,2]` needs an override-flagged difference |
| JsonUtils.NoPlainDifferenceKeepsNullMember | lib/JsonNode.h:139-147 | no node without the override flag, merged into a struct lacking a key, gives a struct holding null under that key: so `{a:null}` over base `{}` needs an override-flagged difference |
| JsonUtils.Difference | lib/JsonNode.h:174-178 | a non-null node that differs from its base has a non-null difference; two structs without null members give a plain, non-override struct |
| JsonUtils.DifferenceOfEqual | lib/JsonNode.h:174-178 | the difference of `==` nodes is null or an empty struct |
| JsonUtils.DifferenceRoundTrip | lib/JsonNode.h:174-178 | merging `difference(node, base)` into a copy of base gives a node `==` to node, with or without `copyMeta` |
| JsonUtils.BoolNode | lib/JsonNode.h:213-214 | `boolNode(v)` is a bool node reading `v`, with no meta and no flags |
| JsonUtils.StringNode | lib/JsonNode.h:216 | `stringNode(v)` is a string node reading `v`, with no meta and no flags |
| JsonUtils.IntNode | lib/JsonNode.h:217 | `intNode(v)` is an integer node reading `v`, with no meta and no flags |
| JsonPointer.Split | lib/JsonNode.h:102 | a path splits into at least one piece, and no piece holds a slash |
| JsonPointer.JoinSplit | lib/JsonNode.h:102 | joining the pieces of a path with slashes gives the path back |
| JsonPointer.SplitJoin | lib/JsonNode.h:102 | splitting the slash-joined text of slash-free pieces gives the pieces back |
| JsonPointer.PointerRoundTrip | lib/JsonNode.h:102 | segments and "/path/to/node" text are inverse in both directions, for a pointer that is empty or starts with a slash |
| JsonPointer.IndexTextParses | lib/JsonNode.h:102-104 | the decimal text of an index is an array index of RFC 6901 with that value |
| JsonPointer.ParsedIndexText | lib/JsonNode.h:102-104 | an array-index segment is the decimal text of its value |
| JsonPointer.IndexRoundTrip | lib/JsonNode.h:102-104 | index parsing and printing are inverse in both directions |
| JsonPointer.ResolvePointer | lib/JsonNode.h:103 | the const `resolvePointer` walks the path step by step: the empty pointer names the node itself, and every path below an empty node reads as an empty node |
| JsonPointer.MissingPathResolvesEmpty | lib/JsonNode.h:103 | the const `resolvePointer` yields an empty node when some step of the path is missing |
| JsonPointer.EmptyResolvesEmpty | lib/JsonNode.h:103 | any path below an empty node resolves to an empty node |
| JsonPointer.WithMember | lib/JsonNode.h:113 | non-const `operator[](key)` makes the node a struct holding `key`; other members of a struct stay; a missing member is created empty; a present one changes nothing |
| JsonPointer.WithEntry | lib/JsonNode.h:116 | non-const `operator[](index)` makes the node a vector long enough for `index`; existing entries stay and new ones are empty |
| JsonPointer.Put | lib/JsonNode.h:104 | a write through the non-const `resolvePointer`: the empty path puts the value in place of the node; a longer one leaves the node a struct or vector with its meta and flags |
| JsonPointer.Touch | lib/JsonNode.h:104 | the tree the non-const `resolvePointer` leaves: the empty path changes nothing; a longer one leaves the node a struct or vector with its meta and flags |
| JsonPointer.PutThenResolve | lib/JsonNode.h:103-104 | a node written through the non-const `resolvePointer` is what the const form then reads there |
| JsonPointer.TouchAgreesWithResolve | lib/JsonNode.h:103-104 | the non-const form leaves the const form's answer unchanged |
| JsonPointer.TouchExistingPath | lib/JsonNode.h:104 | the non-const form changes nothing when the whole path exists |
| JsonConvert.Convert | lib/JsonNode.h:106-110 | `convertTo` of a node whose tags match the target shape at every level yields a value of that shape |
| JsonConvert.ConvertVector | lib/JsonNode.h:285-297 | the vector converter gives one converted element per entry, in order |
| JsonConvert.ConvertSet | lib/JsonNode.h:271-283 | the set converter gives exactly the converted entries |
| JsonConvert.ConvertMap | lib/JsonNode.h:257-269 | the map converter keeps the key set and converts each member |
| JsonConvert.SetIsVectorElements | lib/JsonNode.h:271-297 | the set conversion is the set of the vector conversion's elements, no larger than the vector |
| JsonConvert.ConvertRespectsEquals | lib/JsonNode.h:318-322 | `==` nodes convert to the same value |
| JsonConvert.LeafConstructorsConvertBack | lib/JsonNode.h:299-315 | `boolNode`, `stringNode` and `intNode` convert back to the value they were built from |
| JsonObjects.JsonNode.constructor | lib/JsonNode.h:51 | the new node is `JsonNode(Type)`: the requested type, empty, no meta and no flags |
| JsonObjects.JsonNode.Copy | lib/JsonNode.h:157 | the copy holds the copied node, as the by-value parameter of `mergeCopy` does |
| JsonObjects.JsonNode.SetType | lib/JsonNode.h:65-66 | the stored node becomes `setType`'s result |
| JsonObjects.JsonNode.GetType | lib/JsonNode.h:67 | yields the tag of the stored variant |
| JsonObjects.JsonNode.Clear | lib/JsonNode.h:78-79 | the stored node becomes null; meta and flags stay |
| JsonObjects.JsonNode.BoolRef | lib/JsonNode.h:85 | `Bool()` retypes the node to bool and yields its payload |
| JsonObjects.JsonNode.FloatRef | lib/JsonNode.h:86 | `Float()` retypes the node to float and yields its payload |
| JsonObjects.JsonNode.IntegerRef | lib/JsonNode.h:87 | `Integer()` retypes the node to integer and yields its payload |
| JsonObjects.JsonNode.StringRef | lib/JsonNode.h:88 | `String()` retypes the node to string and yields its payload |
| JsonObjects.JsonNode.VectorRef | lib/JsonNode.h:89 | `Vector()` retypes the node to vector and yields its entries |
| JsonObjects.JsonNode.StructRef | lib/JsonNode.h:90 | `Struct()` retypes the node to struct and yields its members |
| JsonObjects.JsonNode.SetMeta | lib/JsonNode.h:63 | the stored node becomes `setMeta`'s result |
| JsonObjects.JsonNode.MemberRef | lib/JsonNode.h:113 | non-const `operator[](key)` updates the node in place and yields the member the const form then reads |
| JsonObjects.JsonNode.EntryRef | lib/JsonNode.h:116 | non-const `operator[](index)` updates the node in place and yields the entry the const form then reads |
| JsonObjects.JsonNode.AssignMember | lib/JsonNode.h:113 | `node[key] = v` leaves a struct reading `v` at `key`; the other members of a struct, meta and flags stay |
| JsonObjects.JsonNode.ResolvePointerRef | lib/JsonNode.h:104 | non-const `resolvePointer` creates the missing steps and yields the node the const form finds, before and after |
| JsonObjects.JsonNode.AssignPointer | lib/JsonNode.h:104 | a write through the non-const `resolvePointer` is read back by the const form |
| JsonObjects.Merge | lib/JsonNode.h:139-147 | `merge` leaves dest as the merge value of the two old nodes and leaves the source's data null |
| JsonObjects.MergeMembers | lib/JsonNode.h:141-144 | the loop over source members gives the key set minus deletions, each member merged recursively |
| JsonObjects.MergeEntries | lib/JsonNode.h:142 | the loop over source entries merges by index and appends the extra source entries |
| JsonObjects.MergeCopy | lib/JsonNode.h:149-157 | `mergeCopy` leaves dest as `merge` would, and the caller's source is unchanged |
| JsonObjects.Inherit | lib/JsonNode.h:159-162 | `inherit` leaves the descendant merged into a copy of the base, and the base is unchanged |
| JsonScenarios.MergeConfigOverride | lib/JsonNode.h:139-147 | `{speed:5, name, cost:60}` merged with `{speed:6, cost:null, shots:10}` gives `{speed:6, name, shots:10}` |
| JsonScenarios.OverrideReplacesVector | lib/JsonNode.h:147 | an override-flagged `[7]` replaces `[1,2]`; without the flag the merge gives `[7,2]` |
| JsonScenarios.NullEntryDeletes | lib/JsonNode.h:142-144 | merging `[null, 7]` into `[1, 2]` gives `[null, 7]`, and `[null]` gives `[null, 2]` |
| JsonScenarios.IntersectTwoBonuses | lib/JsonNode.h:164-171 | the pruned intersection of two bonuses that differ only in `val` keeps just `type` |
| JsonScenarios.ResolveNestedPointer | lib/JsonNode.h:102-103 | `/a/b/1` reads 20 in `{a:{b:[10,20]}}`, and `/a/b/9` reads an empty node |
| JsonScenarios.ConvertSmallVector | lib/JsonNode.h:271-297 | `[1,2,3]` converts to the vector `[1,2,3]` and to the set `{1,2,3}` |
| JsonScenarios.DifferenceAddsMember | lib/JsonNode.h:174-178 | `{a:1, b:2}` over `{a:1}` has difference `{b:2}`, which merges back to the node |

## Left out

- Construction from JSON text, bytes or files, `toJson` and `serialize` (lib/JsonNode.h:53-58, 119-126). They parse, print and do file I/O; the parser is not part of this model.
- `parseBonus`, `parseBuildingBonus`, `parseLimiter`, `parseSelector` and `resolveAddInfo` (lib/JsonNode.h:131-137). They build game objects whose definitions are not part of this model.
- `assembleFromFiles` (lib/JsonNode.h:184-188). It loads files and mod resources.
- `minimize`, `maximize`, `validate` and `getSchema` (lib/JsonNode.h:190-211). They depend on the process-wide schema store and validator, which are not part of this model.
- `TryBoolFromString` and `isCompact` (lib/JsonNode.h:77, 82). Which strings count as booleans and what "compact" means cannot be seen in the header.
- `floatNode` and floating point in general. A float payload is kept as opaque 64 bits. An integer read through const `Float()` is given as the exact integer, not rounded to a double. The numeric `JsonConvImpl` truncations (lib/JsonNode.h:224-243) are left out.
- JsonConvert.Convert: numeric targets accept integer nodes only, and only the `int` target in its 32-bit range. The header's numeric converter also reads float nodes through `Float()`; that path needs floating point.
- JsonConvert.ConvertMap: line 265 calls `ret.insert(entry.first, ...)`, whose arguments fit the hint-taking overload. The model gives the evident intent instead: one converted value under each key.
- The "~0" and "~1" escapes of section 4 of RFC 6901 are not decoded. A segment is the plain text between slashes.
- References and aliasing. The mutating accessors, the non-const `operator[]` and `resolvePointer` return handles into the tree. The model returns the node's value and states the tree that writes through the handle leave behind (`AssignMember`, `AssignPointer`). Later writes through a kept handle are not modelled.
- JsonObjects.Merge: the source's data is left null. The header says only that the data in the source is destroyed.
- JsonUtils.DifferenceRoundTrip: a null node over a non-null base is excluded. No merge turns a non-null node into null (`MergeKeepsNonNull`), so no difference can meet the header's promise there.
- JsonUtils.MergeIdempotent: requires that no struct member in the tree is null. A null member deletes itself when merged into its own copy.
- JsonUtils.InheritIdentities: self-inheritance requires that no struct member is null, for the same reason.
- JsonValue.ContainsBaseData: the override flag is not counted as base data. Counting it would make intersection depend on flags, which equality ignores.

## Findings

| source | as written | input that shows it | evidently intended | confidence | as-written member | corrected member |
|---|---|---|---|---|---|---|
| lib/JsonNode.h:175-177 | the header promises only that merging the difference with the base gives the node, while merge works entry by entry on vectors (line 142) and reads a null member as a deletion (line 144) | node `[1]`, base `[1,2]`: merging any difference without the override flag into `[1,2]` leaves at least two entries | a differing vector is emitted with the override flag, so merge puts it in place whole | low, not executed | JsonUtils.NoPlainDifferenceShrinksVector | JsonUtils.DifferenceRoundTrip |
| lib/JsonNode.h:175-177 | as above | node `{a:null}`, base `{}`: merging any difference without the override flag into `{}` gives either no key `a` or a non-null member under it | a struct holding a null member is emitted whole with the override flag, so merge keeps the null member | low, not executed | JsonUtils.NoPlainDifferenceKeepsNullMember | JsonUtils.DifferenceRoundTrip |
