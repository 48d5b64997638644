# Feature availability core of the release roadmap (`src/App.js`)

The `App` component of the release roadmap lets a user pick a release and
tick features, and it shows the earliest release that offers every ticked
feature. This project models the logic behind that, in Dafny, and proves
what it promises:

- **Flattening** (`Flattening`): `flattenObject` turns a nested config tree
  into a one-level object whose keys are dotted paths. The model proves:
  - every key of the result names a path to the same leaf;
  - when no key contains a dot, every leaf appears under its path;
  - no value of the result is an object;
  - a flat object is returned unchanged, so flattening is idempotent.
- **Earliest release** (`Releases`): `findEarliestRelease` scans
  `release1 … releaseN` in order and returns the first release whose
  flattened config holds a truthy value at the key, or `null`. The model also
  covers the release keys `"release" + i` and their parsing back with
  `parseInt(key.replace("release", ""), 10)`.
- **Catalogue** (`Catalogue`): `loadFeatures` builds the feature list of a
  release. Its step-by-step construction is proved equal to a reference
  layout: the six known sections in order, then `other` exactly when it is
  needed, each section holding its keys in key order. The model proves that:
  - every key is placed exactly once;
  - every record's fields are those the source writes.
- **Selection** (`Selection`): the pure `map`s of `handleFeatureChange` and
  `resetFeaturesToRelease`, and the maximum with a floor of 1 that
  `updateEarliestMigrationRelease` computes.
- **Component state** (`AppState.App`): a class holding `selectedRelease`,
  `featureList` and `earliestMigrationRelease`, with one method per handler.
  The invariant `Valid()` of every reachable state says:
  - the projected release is one of the releases;
  - the selected release is `release<projected>`;
  - every feature carries the resolver's answer for its key;
  - the enabled features need no release later than the projected one.

  The constructor, the mount effect and the two `handle…` handlers establish
  or keep `Valid()`. `resetFeaturesToRelease` keeps only the feature-list
  part and the bound, because it leaves the selection to its caller.
  `updateEarliestMigrationRelease` on its own promises only how it sets the
  two releases. Toggling on a feature that needs a release past the
  projected one moves the projection to exactly that release. Toggling an
  enabled feature off never raises it.

A JavaScript object is an ordered list of (key, value) pairs (`JsObjects`).
A read goes to the first pair with that key. An assignment overwrites that
pair in place, or appends a new one. This keeps the insertion order that
`for…in`, `Object.keys` and `Object.values` follow, and so the order of the
sections and, until the first render re-sorts them, of the features inside them. The release trees and the feature
mapping table are inputs: `releases[i - 1]` is the `config` tree of release
`i`, and the mapping table is a `Dict<Mapping>`.

One might expect a reset to release K followed by the aggregation to give K
again. The code does not promise that. It gives at most K
(`Selection.MaxReleaseAfterReset`). It gives exactly K only when K is 1, or
when some listed feature is truthy in release K and first appears there
(`Selection.MaxReleaseAfterResetIs`). The model follows the code.

## Model

| member | source | states |
|---|---|---|
| `JsValues.Truthy` | src/App.js:132 | `!!v`: `null`, `false`, `0` and `""` are falsy; every other value, objects included, is truthy. |
| `JsValues.TruthyRead` | src/App.js:201-202 | `!!o[k]`: a missing property reads as `undefined` and is falsy; otherwise the value's truthiness. |
| `JsObjects.Keys` | src/App.js:192 | `Object.keys(o)`, used here and at line 129: one key per pair, the key of pair `i` at position `i`, so in insertion order. |
| `JsStrings.Decimal` | src/App.js:254 | How `"release" + i` here and `` `release${i}` `` at lines 170-171 render `i`: a non-empty run of decimal digits, starting with `0` exactly when `i` is 0, so with no leading zeros. |
| `JsObjects.Get` | src/App.js:255 | A property read `o[k]`: the value of the first pair with key `k`, or `undefined` when there is none. |
| `JsStrings.FirstSegment` | src/App.js:193 | `key.split(".")[0]`: the longest dot-free prefix of the key, followed in the key by a dot unless it is the whole key. |
| `JsStrings.ReplaceFirst` | src/App.js:137 | `s.replace(pat, rep)` with a string pattern: only the first occurrence is replaced; without one, `s` is returned. |
| `JsStrings.ParseInt10` | src/App.js:137 | `parseInt(s, 10)`: leading white space skipped, one optional sign, then the longest run of decimal digits; an empty run gives `NaN`. |
| `Releases.ReleaseKey` | src/App.js:254 | The release key `"release" + i`, with `i` in decimal. |
| `Releases.ReleaseOrdinal` | src/App.js:137 | The ordinal `parseInt(key.replace("release", ""), 10)`, `NaN` as none. |
| `Releases.LookupRelease` | src/App.js:178 | `releases[releaseKey]`: release `i` when the key is `release<i>` for 1 ≤ i ≤ N, `undefined` otherwise. |
| `Releases.Earliest` | src/App.js:252-260 | The value `findEarliestRelease(key)` returns: the first release, counting from 1, whose flattened config is truthy at the key, or `null`. |
| `Catalogue.SectionOf` | src/App.js:193-207 | The section a key is pushed into: its first segment when that is one of the six known sections, `other` otherwise. |
| `Catalogue.Describe` | src/App.js:195-217 | The record literal both branches push: key, mapped name and description or their defaults, `enabled` and `available` both the key's truthiness, and the resolver's answer. |
| `Catalogue.FeatureCatalogue` | src/App.js:176-222 | The feature list `loadFeatures` stores: the records of the flattened keys, in key order, pushed one by one into the six empty sections. |
| `Selection.Raises` | src/App.js:163 | `feature.earliestRelease > maxRelease`, with `null` comparing as `0`, so a `null` release never raises it. |
| `Selection.Step` | src/App.js:160-166 | One turn of the `forEach`: an enabled feature whose release exceeds the running maximum replaces it. |
| `Selection.MaxRelease` | src/App.js:157-167 | The value `maxRelease` ends with: the turns applied in order, starting from 1. |
| `Flattening.FlattenFirst` | src/App.js:236-246 | The outer `for…in` after its first `n` properties: a nested object's flattened properties are written under `i + "." + x`, any other value under `i`. |
| `Flattening.PutPrefixed` | src/App.js:240-243 | The inner `for…in`: each key `x` of the flattened child is assigned under `i + "." + x`, in order. |
| `Flattening.Flatten` | src/App.js:234-249 | The flattened object has no key twice and no value that is a nested object. |
| `Flattening.FlattenObject` | src/App.js:234-249 | The nested `for…in` loops, including the recursive call, compute exactly `Flatten(ob)`. |
| `Flattening.FlattenSound` | src/App.js:238-246 | For a tree with distinct keys, every key of the flattened object is the dotted join of a path, and its value is the leaf at that path. |
| `Flattening.FlattenComplete` | src/App.js:238-246 | For a tree with distinct, dot-free keys, every non-object leaf at path p1…pk appears under `"p1.….pk"` with the same value. |
| `Flattening.FlattenFlat` | src/App.js:236-246 | An object with distinct keys and no nested object is returned unchanged. |
| `Flattening.FlattenIdempotent` | src/App.js:234-249 | Flattening a flattened object changes nothing. |
| `Flattening.FlattenFixpoint` | src/App.js:234-249 | Flattening returns its input exactly when the input has distinct keys and no nested object. |
| `JsObjects.Put` | src/App.js:242-245 | After `o[k] = v`, `k` reads `v`, every other key reads as before, and no other pair appears. |
| `JsObjects.PutDistinct` | src/App.js:242-245 | An assignment into an object with distinct keys leaves the keys distinct. |
| `JsObjects.IndexOfFirst` | src/App.js:242-245 | A read finds the first pair with the key, and finds nothing exactly when no pair has the key. |
| `JsObjects.PutKeys` | src/App.js:144 | Assigning to an existing key keeps the key order; a new key is appended. |
| `JsStrings.FirstSegmentDotted` | src/App.js:193 | `key.split(".")[0]` of `a + "." + s` is `a` when `a` has no dot. |
| `JsStrings.ParseDecimal` | src/App.js:137 | `parseInt(s, 10)` reads back the decimal rendering of a non-negative integer. |
| `JsStrings.ReplaceLeadingPattern` | src/App.js:137 | `replace` removes a leading occurrence of the pattern and keeps the rest. |
| `Releases.ReleaseOrdinalOfKey` | src/App.js:136-138 | The ordinal parsed from `"release" + i` is `i`. |
| `Releases.ReleaseKeyInjective` | src/App.js:170 | Different ordinals give different `release${i}` keys. |
| `Releases.LookupReleaseIff` | src/App.js:60-69 | `releases[releaseKey]` finds release `i` exactly when `releaseKey` is `release<i>` and 1 ≤ i ≤ N. |
| `Releases.FindEarliestRelease` | src/App.js:252-260 | The indexed loop with its early return yields the first release whose flattened config is truthy at the key, and `null` if there is none. |
| `Releases.EarliestIsFirstTruthy` | src/App.js:253-259 | A non-null answer i is a release that is truthy at the key, and no earlier release is. The answer is null exactly when no release is truthy at the key. |
| `Releases.EarliestAtMost` | src/App.js:253-259 | A key truthy in release n has an earliest release, and it is at most n. |
| `Releases.EarliestInRange` | src/App.js:253-257 | A non-null answer lies between 1 and N. |
| `Releases.EarliestOfPrefix` | src/App.js:253 | With only the first m releases, the answer is the same if it is at most m, and null otherwise. |
| `Catalogue.EmptySections` | src/App.js:179-190 | The `reduce` creates every one of the six known sections. |
| `Catalogue.AddFeature` | src/App.js:192-218 | Pushing one record keeps all six known sections present. |
| `Catalogue.AddFirstOther` | src/App.js:205-217 | While `other` is missing, pushing a record of no known section appends `other` holding just that record. |
| `Catalogue.LayoutStepOther` | src/App.js:205-217 | Once `other` exists, a record of no known section is pushed onto it and no section is created. |
| `Catalogue.LoadFeatureList` | src/App.js:176-222 | The `forEach` with its `push`es builds exactly the step-by-step catalogue of the release's flattened keys. |
| `Catalogue.AddAllIsLayout` | src/App.js:179-218 | Pushing the records one at a time, creating `other` on first need, gives the reference layout of those records. |
| `Catalogue.CatalogueIsLayout` | src/App.js:179-218 | The step-by-step catalogue equals the reference layout: the six known sections in order, then `other` when some key went there, each holding the records of its own keys in key order. |
| `Catalogue.LayoutWellFormed` | src/App.js:179-190 | The reference layout has distinct section names and holds all six known sections. |
| `Catalogue.BucketMembers` | src/App.js:192-218 | A section holds a record exactly when it is the record of one of the keys that go to that section. |
| `Catalogue.BucketKeyCount` | src/App.js:192-218 | When the keys are distinct, a section holds one record of a key that goes there, and none of any other key. |
| `Catalogue.LayoutPlacement` | src/App.js:192-218 | In the reference layout, the section of a key's first segment (or `other`) counts the key as often as the records do, and every other section counts it zero times. That section exists if some record has the key. |
| `Catalogue.RecordKeys` | src/App.js:192-203 | One record per flattened key, in key order, with that key. Some record goes to `other` exactly when some key does. Distinct keys give distinct record keys. |
| `Catalogue.RecordKeyCount` | src/App.js:192-203 | With distinct flattened keys, the records hold a key once if it was flattened and not at all otherwise. |
| `Catalogue.CatalogueSections` | src/App.js:179-219 | The section names are the six known ones in their listed order. `other` follows exactly when some flattened key has a first segment that is not a known section. No name occurs twice. |
| `Catalogue.CataloguePlacement` | src/App.js:192-218 | Every flattened key is placed exactly once, in the section named by its first segment or in `other`. That section exists. A key outside the flattened config appears nowhere. |
| `Catalogue.CatalogueFields` | src/App.js:192-217 | Every record belongs to a flattened key of its own section. `enabled` and `available` both equal the key's truthiness. `earliestRelease` is the resolver's answer. `name` and `description` come from the mapping table, or default to the key and to "No description available.". |
| `Selection.CatalogueResolved` | src/App.js:203 | Every feature `loadFeatures` builds carries the resolver's answer for its key. |
| `Selection.CatalogueValid` | src/App.js:176-222 | The built feature list has distinct section names, and every feature in it carries the resolver's answer for its key. |
| `Selection.ToggleKey` | src/App.js:144-149 | The section keeps its length. Each feature keeps every field but `enabled`. `enabled` is negated exactly for the features whose key matches. |
| `Selection.ToggleExactlyOne` | src/App.js:144-149 | In a section with distinct keys, exactly the feature with the key is negated, and every other feature is unchanged. |
| `Selection.ToggleAbsent` | src/App.js:144-149 | A key that no feature of the section has leaves the section unchanged. |
| `Selection.ToggleInvolution` | src/App.js:144-149 | Toggling the same key twice restores the section. |
| `Selection.ToggleIn` | src/App.js:143-149 | Only section `parent` changes, to its toggled copy. The section names and their order are kept. |
| `Selection.ToggleInInvolution` | src/App.js:142-149 | Two `handleFeatureChange` updates with the same key and parent restore the feature list. |
| `Selection.ToggleInResolved` | src/App.js:142-149 | A toggle keeps every feature's `earliestRelease`. |
| `Selection.ResetFeatures` | src/App.js:130-133 | Each feature keeps every field but `enabled`. `enabled` becomes the truthiness of the feature's key in the release data. The section keeps its length. |
| `Selection.ResetAll` | src/App.js:128-134 | A reset keeps the section names, their order, and distinct keys. |
| `Selection.ResetSections` | src/App.js:128-134 | The `forEach` over `Object.keys` reassigns each section in place and yields exactly `ResetAll`. |
| `Selection.ResetAllFields` | src/App.js:127-134 | After a reset, each section keeps its name and length. Each feature keeps its other fields, and its `enabled` is its key's truthiness in the release. |
| `Selection.ResetAllIdempotent` | src/App.js:126-139 | Resetting twice to the same release is the same as resetting once. |
| `Selection.ResetAfterToggle` | src/App.js:126-149 | A reset discards an earlier toggle. |
| `Selection.ResetAllResolved` | src/App.js:128-134 | A reset keeps every feature's `earliestRelease`. |
| `Selection.AllFeatures` | src/App.js:158-159 | `Object.values(features).flat()` holds exactly the features of all the sections. |
| `Selection.ComputeMaxRelease` | src/App.js:157-167 | The loop with the accumulator `maxRelease` yields the fold `MaxRelease` over the flattened feature list. |
| `Selection.MaxReleaseIsMaximum` | src/App.js:157-167 | The result is at least 1 and at least the `earliestRelease` of every enabled feature. It equals 1 or one of those releases. |
| `Selection.MaxReleaseIgnores` | src/App.js:161-165 | A disabled feature, or one whose `earliestRelease` is `null`, never raises the result, wherever it stands in the list. |
| `Selection.FoldAppend` | src/App.js:160-167 | Folding over a concatenation folds the second part from the result of the first. |
| `Selection.MaxReleaseInRange` | src/App.js:157-167 | When every feature carries the resolver's answer, the result lies between 1 and N. |
| `Selection.CatalogueMaxRelease` | src/App.js:176-222 | The enabled features of release K's catalogue need no release later than K. |
| `Selection.ToggledFeature` | src/App.js:143-149 | After a toggle, every feature was already in the list or carries the toggled key. |
| `Selection.ToggleOffKeeps` | src/App.js:142-167 | Toggling an enabled feature off never raises the maximum over the enabled features. |
| `Selection.ToggleOnReaches` | src/App.js:142-167 | Toggling on a disabled feature whose `earliestRelease` exceeds the current maximum makes that release exactly the new maximum. |
| `Selection.MaxReleaseAfterReset` | src/App.js:126-139 | After a reset to release K, the enabled features need no release later than K. |
| `Selection.MaxReleaseAfterResetIs` | src/App.js:126-167 | After a reset to release K, the result is exactly K when K is 1 or some listed feature is truthy in K and first appears in K. Otherwise it is below K. |
| `AppState.App.constructor` | src/App.js:102-106 | The component starts with `"release4"`, an empty feature list and projected release 4, and the starting state is valid. |
| `AppState.App.Mount` | src/App.js:109-111 | The mount effect loads the catalogue of release 4 and leaves the selected and projected releases alone. On a state whose projected release is at least 4, as the initial one is, the result is valid. |
| `AppState.App.LoadFeatures` | src/App.js:176-222 | The feature list becomes the catalogue of the looked-up release K, whose enabled features need no release past K. Nothing else changes. The state is valid when K is not past the projected release. |
| `AppState.App.ResetFeaturesToRelease` | src/App.js:126-139 | The feature list becomes its reset to release K's flattened config. The projected release becomes K, parsed from the key. The selected release is unchanged. The enabled features need no release past K. |
| `AppState.App.HandleReleaseChange` | src/App.js:121-124 | The selected release becomes the key, the features are reset to it, and the projected release becomes its ordinal. The enabled features need no later release, and the state stays valid. |
| `AppState.App.UpdateEarliestMigrationRelease` | src/App.js:156-174 | The selected and projected releases are set to the maximum only when `release${max}` differs from the selection; otherwise both stay. From a synced state the projected release ends as the maximum either way. |
| `AppState.App.HandleFeatureChange` | src/App.js:142-154 | The feature list becomes the toggled list. The projected release becomes the maximum over it, and the selection names that release. The state stays valid. Turning on a feature that needs a release past the projected one moves the projection to exactly that release; turning an enabled one off never raises it. |

## Left out

- Rendering, styled components, the release timeline and the release chips are left out (src/App.js:23-56, 261-417). They are presentation only.
- The cosmetic lookups `releaseColors`, `releaseAliases` and `releaseDates` are left out (src/App.js:71-99). So is `sectionMappings`.
- The render-time `sort` of features is left out (src/App.js:353-354). It sorts each section's array of the `featureList` state in place, by `earliestRelease`, on every render. After the first render the features inside a section are therefore in release order, not in key order. No property proved here depends on the order inside a section. The maximum depends only on which features are enabled and on their releases: `Selection.MaxReleaseIsMaximum` fixes it as the largest such release, with a floor of 1. Toggle and reset act on each feature separately, so reordering a section reorders their result in the same way.
- The animation timer (`useEffect` with `setTimeout`) and the dialog state are left out. They are time- and UI-driven and do not touch the feature data.
- `console.log` calls are left out.
- The `require` of the JSON files is left out. The release trees and the mapping table are parameters of the model.
- React's batching of state setters is not modelled. Each setter is a field assignment, in call order. The handlers read only state that they have not yet set.
- Prototype properties (`hasOwnProperty`) are not modelled: a value tree has only own properties.
- JavaScript's rule that integer-like keys are enumerated first, in ascending order, is not modelled. Keys are kept in insertion order.
- Numbers are unbounded integers. Floating point, `NaN` and the precision limit of `parseInt` are left out.
- A JSON array is written as an object whose keys are the indices; there is no separate array value.
- Cyclic trees cannot be written as Dafny datatypes.
- A mapping-table entry is always an object, so it is always truthy. Entries that lack `name` or `description` (which would give `undefined`) are not modelled.
- Flattening.FlattenComplete: requires dot-free keys. With a key such as `"a.b"` beside a nested `a: { b: … }`, both paths give the same dotted key, and the later one overwrites the earlier.
- Flattening.FlattenSound: requires the tree to have distinct keys at every level, as every parsed JSON object has.
- Selection.MaxReleaseAfterReset: states at most K, because the code does not give exactly K in general. `Selection.MaxReleaseAfterResetIs` states when it does.
- AppState.App.LoadFeatures: requires `releases[releaseKey]` to exist; otherwise the source throws on `.config`. The same holds for `ResetFeaturesToRelease` and `HandleReleaseChange`.
- AppState.App.HandleFeatureChange: requires `parent` to be a section of the feature list; otherwise the source throws on `.map`.
