# Error reduction of the JSON Schema validator, in Dafny

The validator runs Ajv with `allErrors: true`, so one bad document yields a flat
list of Ajv error records, many of them about alternatives the user never meant.
Before anything is reported, an error-reduction pass in `src/validator.ts` shrinks
that list. This project models that pass and proves what it guarantees.

1. `extractErrorMessageKeyword` splices back the original errors that an
   `errorMessage` error (from ajv-errors) carries in `params.errors`. They go just
   before that error, and each is flagged for deletion.
2. `getSiblings` builds a map from each error's schema path to the paths of its
   "siblings". These are the other errors whose path starts with the parent of
   that path but not with the path itself. The test is on plain strings.
3. `applyOneOfOrAnyOf` runs for `oneOf` and then for `anyOf`.
   - It flags every error of that keyword.
   - For each distinct keyword path it groups the errors whose path strictly
     extends it.
   - A group whose path has siblings is flagged whole.
   - Otherwise the group is split into branches by the path segment after the
     keyword. Each branch is scored by its number of distinct child segments.
     Every branch except the first lowest-scoring one is flagged.
4. `deleteErrorsForKey` flags every `allOf`, `if`, `then` and `else` error.
5. `filterErrors` keeps the unflagged errors in order. If none is left, it keeps
   the first extracted error. `generateViolations` turns each kept error into a
   `Violation { path, message, context }`.

How the model is built:

- Error records are immutable values (`ErrorModel.Error`).
- The per-error `params.__filter.delete` scratch is an `array<bool>` parallel to
  the extracted list.
  - `ExtractErrorMessageKeyword` returns the initial flags as a sequence, and
    the array is created from it.
  - `GetSiblings` builds the sibling map and touches no flag.
  - The `oneOf`/`anyOf` and structural stages are methods with a `modifies`
    clause on the array, and they only ever set flags.
- Each imperative stage is proved against a specification function:
  - `Extracted`/`ExtractedFlags` for the extraction;
  - `SiblingMap` for the sibling map;
  - `DroppedFor` for a branching keyword;
  - `Reduced` for the whole filter.
- Lemmas prove what those functions promise.

The JavaScript primitives the pass relies on are modelled exactly:

- `substring` clamps its bounds and swaps them when start > end.
- `indexOf` and `lastIndexOf` return -1 when the character is absent.
- `startsWith` is the sequence prefix `<=`.
- lodash `uniq` keeps first occurrences.
- `Object.keys` lists array-index keys in ascending numeric order, then the other
  keys in insertion order.

Branch keys are therefore strings, not naturals. The usual keys (`0`, `1`, …)
are array indices, and `Branching.TieGoesToLowestIndex` shows that a tie then goes
to the lowest index. A key that is not an array index arises when a failure sits
on a branch schema itself, at `#/oneOf/0` with no further `/` (a `false` branch
schema, for example). `indexOf` then returns -1, and `substring(|t| + 1, -1)`
clamps and swaps its bounds. The key is the prefix `#/oneOf/`, not `0`. In
`Object.keys` such keys come after the array-index keys, in insertion order.

Three behaviours of the code are easy to miss; the model follows the code each
time:

- `if (error.params.errors)` is true for an empty list too. So an `errorMessage`
  error with `params.errors = []` also has that field removed (`ErrorMessage.HasOriginals`).
- Extracted originals are not special: they take part in the sibling map and in
  the `oneOf`/`anyOf` groups like every other error.
- A branch key is taken up to the next `/`. When a failure sits directly on the
  branch, for example `#/oneOf/0/required`, the segment `indexOf` looks for is
  missing. `substring(w, -1)` then returns the whole prefix `#/oneOf/0/`
  (`JsString.SubstringNegativeEnd`). As a result, all of a branch's direct
  failures count as one segment.

## Model

| member | source | states |
|---|---|---|
| JsString.IndexOf | src/validator.ts:238-241 | `indexOf("/", from)` is -1 when no `/` lies at or after the clamped start, and otherwise the first such position |
| JsString.LastIndexOf | src/validator.ts:179-182 | `lastIndexOf("/")` is -1 or the position of a `/` with no `/` after it |
| JsString.SubstringSlice | src/validator.ts:179-182 | `substring` with in-range, ordered bounds is the plain slice |
| JsString.SubstringNegativeEnd | src/validator.ts:252-255 | when `indexOf` finds no `/`, `substring(w, -1)` is the prefix of length `w` (bounds swapped after clamping) |
| JsCollections.Dedup | src/validator.ts:208-210 | lodash `uniq` keeps exactly the same elements, without duplicates, and is never longer |
| JsCollections.DedupKeepsFirstOccurrenceOrder | src/validator.ts:250-257 | `uniq` lists elements in the order of their first occurrences |
| JsCollections.ObjectKeysElements | src/validator.ts:248 | `Object.keys` lists each inserted key once |
| JsCollections.ObjectKeysOrder | src/validator.ts:259 | `Object.keys` lists the array-index keys first, in ascending numeric order, then the other keys in insertion order |
| JsCollections.ObjectKeysIdempotent | src/validator.ts:247-259 | inserting keys in `Object.keys` order into a new object gives the same `Object.keys`, so `allIndexes` is the branch order of `typeErrorsByIndex` |
| Violations.LeadingRun | src/validator.ts:104 | one regex match is the longest separator-free prefix |
| Violations.Tokens | src/validator.ts:104 | the matches of `/([^\\/])+/g` are non-empty and separator-free, and together they are the path with its separators removed |
| Violations.TokensSplit | src/validator.ts:104 | a separator always ends a match: the tokens of `a`, a separator, `b` are the tokens of `a` then those of `b` (so `"/a//b"` gives `a, b`) |
| Violations.TokensOfRun | src/validator.ts:104 | a non-empty run without separators is one whole match |
| Violations.PathOfTokens | src/validator.ts:104 | for an instance path `/t0/t1/…` the tokens are `t0, t1, …` and the violation path is their `.` join; the root path `""` gives `""` |
| Violations.PathHasNoSeparator | src/validator.ts:104 | a violation path never contains `/` or `\` |
| ErrorMessage.Extracted | src/validator.ts:152-172 | the output is as long as the input plus the number of originals replaced |
| ErrorMessage.ExtractErrorMessageKeyword | src/validator.ts:152-172 | the loop builds exactly the extracted list and its deletion flags |
| ErrorMessage.ExtractedPlacement | src/validator.ts:154-170 | each input error keeps a place in the output and is not flagged there; an `errorMessage` error with `params.errors` has lost that field |
| ErrorMessage.ExtractedOriginals | src/validator.ts:156-167 | the originals of an `errorMessage` error sit immediately before it, in order, all flagged |
| ErrorMessage.ExtractedOrder | src/validator.ts:154-170 | input errors keep their relative order |
| ErrorMessage.ExtractedFromInput | src/validator.ts:152-172 | every output error is an input error, a stripped `errorMessage` error or one of its originals |
| Siblings.GetSiblings | src/validator.ts:174-199 | the nested loops build exactly the sibling map |
| Siblings.PushSiblings | src/validator.ts:183-195 | the inner loop appends exactly the siblings of `sp`, in order, to its entry, creating the entry only when one is found |
| Siblings.SiblingsOf | src/validator.ts:183-195 | one pass of the inner loop records exactly the paths of the non-`errorMessage` errors that start with the parent of `sp` and not with `sp` |
| Siblings.ParentCut | src/validator.ts:179-182 | the parent is the path cut just before its last `/`, or `""` without one |
| Siblings.SiblingEntries | src/validator.ts:174-199 | every entry under `sp` starts with the parent of `sp` and not with `sp`; keys and entries come from non-`errorMessage` errors; a key is never its own entry; recorded entries are non-empty |
| Siblings.SiblingKeys | src/validator.ts:174-199 | a path is a key exactly when some non-`errorMessage` error with that path has a sibling |
| Siblings.SiblingsIff | src/validator.ts:231 | an error's path has a non-empty entry exactly when another non-`errorMessage` error is its sibling |
| Siblings.SiblingPrefixCollision | src/validator.ts:185-188 | the test is on strings: `#/ab/type` counts as a sibling of `#/a/oneOf` |
| Branching.DeleteErrorsForKey | src/validator.ts:280-289 | exactly the errors with the given keyword become flagged; no flag is cleared |
| Branching.KindPaths | src/validator.ts:208-210 | the paths listed are exactly those of the errors with the keyword |
| Branching.Group | src/validator.ts:214-227 | a group holds exactly the positions whose path strictly extends the group path |
| Branching.MembersAscending | src/validator.ts:214-227 | a group lists its members in ascending position, the order in which they are pushed and their branch keys first inserted |
| Branching.AddToGroups | src/validator.ts:215-226 | after the inner loop over the keyword paths, every group entry covers one more error |
| Branching.GroupByTypePath | src/validator.ts:212-227 | the dictionary has an entry for each keyword path with a non-empty group, and that entry is the group |
| Branching.BranchPositions | src/validator.ts:242-245 | a branch holds exactly the group members with that branch key |
| Branching.AddToBranch | src/validator.ts:237-246 | filing one more member keeps the dictionary equal to the branches of the members filed so far, and its keys in first-occurrence order |
| Branching.IndexBranches | src/validator.ts:236-246 | `typeErrorsByIndex` maps each branch key to its members, and its keys were inserted in order of first occurrence |
| Branching.DistinctSegments | src/validator.ts:247-258 | each branch's entry holds as many paths as the branch has distinct child segments |
| Branching.SelectBranch | src/validator.ts:259-268 | the running minimum is the first key of least score |
| Branching.DeleteOtherBranches | src/validator.ts:269-275 | exactly the members of the branches other than the kept one become flagged |
| Branching.DeleteGroup | src/validator.ts:231-234 | exactly the members of the group become flagged |
| Branching.DeleteLosingBranches | src/validator.ts:235-276 | exactly the members outside the kept branch become flagged |
| Branching.ApplyGroup | src/validator.ts:229-277 | a group with siblings is flagged whole; otherwise everything outside the kept branch is |
| Branching.ApplyOneOfOrAnyOf | src/validator.ts:201-278 | afterwards an error is flagged exactly when it was before, has the keyword, or is dropped by one of the keyword's groups |
| Branching.FirstMinimumIsLeast | src/validator.ts:259-268 | the strict `<` running minimum is a least score, and every earlier score is strictly larger |
| Branching.BranchOrderCoversGroup | src/validator.ts:236-259 | the branches listed are exactly the branch keys of the group's members |
| Branching.KeptBranchIsFewestSegments | src/validator.ts:247-268 | the kept branch is a branch of the group, no branch has fewer distinct segments, and every branch listed before it has strictly more |
| Branching.TieGoesToLowestIndex | src/validator.ts:259-268 | when all branch keys are array indices, a tie goes to the numerically lowest branch |
| Branching.OneBranchSurvives | src/validator.ts:235-276 | in a group without siblings some member survives, and all survivors share one branch |
| Filter.Unflagged | src/validator.ts:141 | the kept errors are unflagged errors of the list, and there are none exactly when every error is flagged |
| Filter.UnflaggedAppend | src/validator.ts:141 | filtering a concatenation filters each part and keeps the parts in order |
| Filter.UnflaggedAt | src/validator.ts:141 | every position is kept in place when unflagged and dropped when flagged, between what is kept before and after it |
| Filter.FilterErrors | src/validator.ts:124-150 | the stages in source order compute `Reduced`: the unflagged extracted errors, else the first extracted error, else the exception |
| Filter.ReducedNonEmpty | src/validator.ts:141-147 | filtering fails exactly on an empty list and otherwise returns at least one error; only an empty input gives no violations |
| Filter.ReducedIsUnflagged | src/validator.ts:141 | when some error survives, the result is exactly the unflagged extracted errors, in order |
| Filter.FallbackIsFirst | src/validator.ts:142-144 | when every error is flagged, the result is the first extracted error alone |
| Filter.NoStructuralSurvivors | src/validator.ts:133-141 | outside the fallback no result has keyword `oneOf`, `anyOf`, `allOf`, `if`, `then` or `else`, and none sits where an overridden original was spliced in |
| Filter.ReducedFromInput | src/validator.ts:124-150 | nothing is invented: each result is an input error, a stripped `errorMessage` error or one of its originals |
| Filter.GenerateViolations | src/validator.ts:93-109 | one violation per filtered error (or per input error when filtering throws), in order, with the tokenised path, the message and the remaining fields as context |
| Filter.ViolationPath | src/validator.ts:104 | no violation path contains a separator |
| Filter.Validate | src/validator.ts:77-91 | a valid document gives no violations; an invalid one gives, in order, the violation of each filtered error, and none only when Ajv reported no errors |

## Left out

- Compiling schemas is left out: `getAjv`, `getValidator`, `getCompiledValidator`
  and `standaloneCode` configure and call Ajv, ajv-errors and ajv-formats,
  which are not part of this model.
- Fetching remote schemas is left out: `downloadSchemaFromWeb`, `loadSchema` and
  the `loadedSchemas` cache do network I/O through asynchronous promises.
- Filter.Validate: Ajv's own evaluation is not modelled. The validator's verdict
  and its error list are parameters, and the call is synchronous.
- Several mutations are not modelled:
  - `filterErrors` can throw after it has changed `params`. The model treats
    the catch as "use the input list", and the input list is then empty anyway.
  - The same error object at two positions (aliasing) is not modelled; records
    are values.
- The scratch lists `__filter.oneOf`, `__filter.anyOf` and `__filter.errorMessage`
  are not modelled. They are written but never read, so they cannot change
  the result.
- `typeSchemaPathToErrorsMap` is walked in `uniq(typeSchemaPaths)` order, not in
  its `Object.keys` order. Each group decides its flags from schema paths and
  the sibling map alone, and flags only ever go from false to true. So the
  final flags do not depend on the order of the groups.
- Dictionary keys are assumed never to name a property of `Object.prototype`
  (such as `constructor` or `__proto__`), which Ajv schema paths, starting
  with `#`, never are.
- Some values Ajv does not produce are not modelled: a `null` `params.errors`,
  an undefined `message`, or a null error list on failure.
- Branching.DistinctSegments: states the size of each branch's list of distinct
  segments (what the selection reads), not its contents.
