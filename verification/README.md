# Manifest store model

A Dafny model of `useManifestStore`, the Pinia store of a browser-extension
companion UI that inspects the declarative-net-request (DNR) rulesets of an
extension manifest. The store holds two pieces of session state: the list of
known rulesets (`rulesetFilePaths`) and a first-visit flag (`isFirstVisit`).
Its actions do five things:

- import the rulesets named in a manifest's
  `declarative_net_request.rule_resources`;
- clear the ruleset list;
- flip one ruleset's `isEnabled` by file name;
- set the first-visit flag;
- check a manifest for four required top-level fields (`isValidManifest`).

Modules:

- `JsValues` (`js_values.dfy`): the JavaScript values the store tells
  apart. It covers `typeof`, `Array.isArray`, truthiness, and a property
  read that throws on `undefined`/`null`. A manifest is the map of its own
  properties.
- `ManifestValidation` (`validation.dfy`): the manifest check as
  specification functions. `Validate` says what the check returns.
  `Scan`/`Record` say what its loop builds, field by field. The lemmas relate
  the two and state the check's properties. `TypeTest` chooses between the
  type test as written and the intended one (see Findings).
- `Rulesets` (`rulesets.dfy`): how an entry is derived from a
  `rule_resources` element. The file name is `path.split('/').pop()`. The
  module also covers how `forEach` appends entries up to the first element
  that throws, and which entry a toggle reaches.
- `Store` (`manifest_store.dfy`): class `ManifestStore` with the two state
  fields. The getter is a function. The actions that change the state are
  methods over `modifies this`. `SetIsFirstVisit` and
  `ClearRulesetFilePaths` state their new state directly.
  `SetRulesetFilePaths` and `ToggleRulesetAvailability` are proved against
  the specification functions `ImportOf` and `Toggled`. `IsValidManifest`
  changes nothing; it is proved to return `Validate`. The class
  invariant `Valid()` says that every stored file name is the last path
  segment of its entry's path.

JavaScript exceptions are modelled as a returned `threw` flag. The state at
the moment of the throw is kept, as the source keeps it. The failure
record's `type` array is the field `types`, because `type` is a Dafny
keyword.

Two behaviours of the code differ from what a caller would expect. The
model follows the code in both:

- **Missing `declarative_net_request`.** A caller would expect a
  manifest without this key to leave the store unchanged without an
  error. The code reads `manifest.declarative_net_request.rule_resources`
  without a guard, so it throws a TypeError. `ImportOf` and
  `ManifestStore.SetRulesetFilePaths` model the throw: the list is
  unchanged and `threw` is set. When the key is present but
  `rule_resources` is absent or falsy, the `if` at line 21 skips the
  import: nothing is appended and nothing is thrown (`SkipsImport`).
- **Well-formed manifests.** A manifest whose four required fields all
  have the types the field table names should be accepted. As written, no
  manifest is accepted; see Findings.

## Model

| member | source | states |
|---|---|---|
| JsValues.TypeOf | src/stores/manifestStore.js:76 | no value has `typeof` "array"; "object" exactly for null, arrays and objects; "string"/"number" exactly for strings/numbers |
| JsValues.Get | src/stores/manifestStore.js:21-23 | a property read throws exactly on `undefined`/`null`, and yields an object's own property when it has one |
| ManifestValidation.ScanMatchesSpec | src/stores/manifestStore.js:58-85 | the record the loop builds lists exactly the missing and the mistyped fields, in field order. Each category is listed once, in order of first occurrence. `isError` holds iff a list is non-empty, and a category is present iff its list is non-empty. Resetting a list when its category first appears loses nothing |
| ManifestValidation.ScanIsValidate | src/stores/manifestStore.js:89-93 | returning the record when `isError` is set, and `true` otherwise, gives exactly `Validate` |
| ManifestValidation.Classification | src/stores/manifestStore.js:59-83 | a required field is listed as missing iff it is not an own property. It is listed as mistyped iff it is present and fails its type test. It is never listed as both |
| ManifestValidation.ListsInFieldOrder | src/stores/manifestStore.js:51-58 | both lists are subsequences of the required keys `name, version, manifest_version, permissions` |
| ManifestValidation.ErrorFlag | src/stores/manifestStore.js:60-93 | the record is returned iff some required field fails. Then `isError` is true and a list is non-empty; otherwise the result is success |
| ManifestValidation.CategoriesOnceInOrder | src/stores/manifestStore.js:61-64 | no category repeats. A category is present iff its list is non-empty. The first category is that of the first failing field |
| ManifestValidation.DedupProperties | src/stores/manifestStore.js:71-74 | the `includes` guard keeps each category once, keeps every category that occurred, and keeps the first one first |
| ManifestValidation.PermissionsAlwaysFlagged | src/stores/manifestStore.js:55-83 | as written, a present `permissions` is always reported as mistyped, whether or not it is an array; an absent one is reported as missing |
| ManifestValidation.NeverValid | src/stores/manifestStore.js:43-94 | as written, the check never returns `true` |
| ManifestValidation.UndefinedIsPresent | src/stores/manifestStore.js:59-76 | a required key whose value is `undefined` counts as present: it is listed as mistyped, not as missing |
| ManifestValidation.IntendedValidIff | src/stores/manifestStore.js:51-56 | with `Array.isArray` as the array test, `true` is returned iff `name`/`version` are strings, `manifest_version` is a number and `permissions` is an array (extra fields allowed) |
| Rulesets.Split | src/stores/manifestStore.js:24 | `split('/')` yields at least one piece, no piece holds '/', and joining the pieces with '/' restores the path |
| Rulesets.FileName | src/stores/manifestStore.js:24 | the file name holds no '/'. It is a suffix of the path, and it is either the whole path or preceded by '/' |
| Rulesets.FileNameUnique | src/stores/manifestStore.js:24 | those three properties determine the file name uniquely |
| Rulesets.EntryForObject | src/stores/manifestStore.js:23-31 | an element with a string `path` yields an entry that copies path, `id` and `enabled` (`undefined` when absent) and whose file name is that of the path |
| Rulesets.ImportSpec | src/stores/manifestStore.js:22-32 | entry k is built from element k. Without a throw, every element gives an entry. After a throw, the element right after the last entry is the one whose `path` is unreadable or not a string |
| Rulesets.CollectAfterThrow | src/stores/manifestStore.js:22-32 | once an element throws, later elements change nothing |
| Rulesets.ImportOf | src/stores/manifestStore.js:21 | a manifest without `declarative_net_request` throws and imports nothing; one whose `rule_resources` is absent or falsy imports nothing and does not throw |
| Rulesets.ImportOfDerived | src/stores/manifestStore.js:23-31 | every imported entry's file name is that of its path |
| Rulesets.FirstMatch | src/stores/manifestStore.js:36-38 | `find` returns the first index whose file name matches, or none when no entry matches |
| Rulesets.ToggledEffect | src/stores/manifestStore.js:35-42 | the toggle sets only the first match's `isEnabled`, to the negation of its truthiness. Length, names, paths, ids and every other entry are unchanged. Without a match, the list is unchanged |
| Rulesets.ToggledDerived | src/stores/manifestStore.js:35-42 | toggling keeps every entry's file name derived from its path |
| Rulesets.ToggleTwice | src/stores/manifestStore.js:40 | toggling a name twice restores the list when the flags are booleans; otherwise the reached flag becomes the boolean of its truthiness |
| Store.ManifestStore.constructor | src/stores/manifestStore.js:4-7 | initial state: no rulesets, first visit, invariant holds |
| Store.ManifestStore.GetRulesetFilePaths | src/stores/manifestStore.js:9-11 | the getter returns the stored list, whose entries satisfy the invariant |
| Store.ManifestStore.SetIsFirstVisit | src/stores/manifestStore.js:14-16 | overwrites the flag and leaves the list alone |
| Store.ManifestStore.ClearRulesetFilePaths | src/stores/manifestStore.js:17-19 | empties the list, keeps the flag, and restores the invariant |
| Store.ManifestStore.SetRulesetFilePaths | src/stores/manifestStore.js:20-34 | appends `ImportOf(manifest)`'s entries to the old list and never replaces it. It throws exactly when `ImportOf` does, leaving the entries pushed before the throw. Without `declarative_net_request` it throws and the list is unchanged. With `rule_resources` absent or falsy it neither throws nor changes the list. It keeps the invariant |
| Store.ManifestStore.AppendEntries | src/stores/manifestStore.js:22-32 | the `forEach` loop appends `Import(items)`'s entries to the old list, in element order, and throws exactly when `Import` does; the flag is kept |
| Store.ManifestStore.ToggleRulesetAvailability | src/stores/manifestStore.js:35-42 | the new list is `Toggled(old list, name)`; the flag and the invariant are kept |
| Store.ManifestStore.IsValidManifest | src/stores/manifestStore.js:43-94 | the loop returns exactly `Validate(manifest, AsWritten)`, which is never success |
| Store.CheckField | src/stores/manifestStore.js:59-83 | one loop pass updates the record exactly as `Record` does for the field's verdict |
| Store.Report | src/stores/manifestStore.js:61-65 | the category is added once; its list is restarted when the category first appears, then the field is pushed |
| Store.ImportTwice | src/stores/manifestStore.js:20-34 | importing the same manifest twice into a fresh store without clearing stores every entry twice |

## Left out

- The `persist` block (lines 96-99), which saves and restores the state in
  `sessionStorage`. It is browser storage I/O.
- Pinia's store mechanics: reactivity, getter caching, and `this` binding.
- Aliasing. `find` and the getter hand out references to the stored
  objects and array. The model stores values, so mutation through a
  reference held elsewhere is not captured.
- Store.ManifestStore.SetIsFirstVisit: the flag is a `bool`, although the
  source stores whatever value it is given.
- A `manifest` argument that is not an object. In the source,
  `isValidManifest` throws for `null` and `undefined`, because
  `Object.prototype.hasOwnProperty.call` cannot convert them to an object.
  For any other primitive (`42`, `"abc"`) it finds none of the fields and
  returns a record listing all four under `missingFields`.
  `setRulesetFilePaths` throws for every primitive, because
  `declarative_net_request` is then `undefined`. The model takes a manifest
  to be a map of its own properties.
- Inherited properties, property getters and proxies. A property read
  sees own properties only.
- Sparse arrays, whose holes `forEach` skips.
- A `path` that is not a string but has its own `split` method, and a
  truthy `rule_resources` that is not an array but has its own `forEach`
  function. Any such value is treated as a throw.
- Numbers are reals, so NaN and floating-point details are not modelled.
  Strings are sequences of characters, not UTF-16 code units.
- The router and the view components, which only render this state.

## Findings

| source | as written | input that shows it | evidently intended | confidence | as-written member | corrected member |
|---|---|---|---|---|---|---|
| src/stores/manifestStore.js:69-76 | a field expected to be `'array'` that passes `Array.isArray` still goes to the `typeof` test, and `typeof` of an array is `'object'`, so `permissions` is always reported as mistyped and `isValidManifest` never returns `true` | `{name: "a", version: "1", manifest_version: 3, permissions: []}` yields `{type: ['invalidValueTypes'], missingFields: [], invalidValueTypes: ['permissions'], isError: true}` | an array passes the `'array'` check, and a well-formed manifest yields `true` | high (proved; not executed) | ManifestValidation.NeverValid | ManifestValidation.IntendedValidIff |
