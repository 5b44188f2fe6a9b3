# SARIF log builder: the completion pass

This project models the log-level core of a SARIF 2.1.0 log builder and proves
properties of it in Dafny 4.11. The builder keeps a log object. That object has a
`$schema`, a `version` and a list of runs. Each run holds rules, results and an
optional list of artifacts. Results point at rules by id and at files by URI.

Before the log is serialized, the builder runs a **completion pass** on every run:

1. it makes sure the run has an artifact list;
2. it appends one artifact for every result-location URI that no artifact lists yet,
   in first-seen order, with a source language taken from the URI's extension;
3. it builds a URI→index map and a rule-id→index map (later entries overwrite
   earlier ones);
4. it writes each result's `ruleIndex` and each location's artifact `index` from
   those maps.

Serialization then fails if the text contains the marker `SARIF_BUILDER_INVALID`.
The builder's constructor overrides the default log header with the defined values
of an options object (`setOptionValues`).

Files:

- `wrappers.dfy`: `Option` (`None` is JavaScript's `undefined`) and `Checked`
  (a value, or the message of a thrown error).
- `utils.dfy`: `Record`, a mutable string-keyed object, and `SetOptionValues`. This
  loop is proved to produce `Merge(old entries, options)`, and the merge's
  properties are proved on their own.
- `sarif_types.dfy`: the SARIF entities completion touches. `Truthy` is JavaScript
  truthiness of an optional string.
- `completion.dfy`: `CompleteRun`, a pure specification of the pass, and the lemmas
  about it: prefix preservation, coverage, deduplication, first-seen order, language
  inference, index correctness, "nothing else changes" and idempotence. It ends with
  the worked case from the test suite.
- `builder.dfy`: `CompleteRunFields`, the step-by-step pass with the source's `Set` and
  `Map`s as local state, proved equal to `CompleteRun`. Also the `SarifBuilder` class
  (constructor, `AddRun`, `BuildSarifOutput`, `BuildSarifJsonString`) and the
  invalid-marker check.

Collaborators that are parameters:

- the extension→language table `EXTENSIONS_LANGUAGES` is a `map<string, string>`;
- `JSON.stringify` (with or without indentation) is a function
  `(map<string, LogValue>, bool) -> string`.

With duplicate rule ids or URIs the code fills a `Map` in list order, so the last
occurrence wins; `LastRuleIndex` and `LastUriIndex` model that.

## Model

| member | source | states |
|---|---|---|
| `Utils.Merge` | src/lib/utils.ts:5-9 | the merged object's keys are the old keys plus the keys whose option value is defined; a defined option value replaces the entry; an undefined value or a key absent from the options leaves the entry as it was |
| `Utils.MergeIdempotent` | src/lib/utils.ts:5-9 | applying the same options twice gives the same object as applying them once |
| `Utils.MergeEmpty` | src/lib/utils.ts:5-9 | empty options leave the object unchanged |
| `Utils.SetOptionValues` | src/lib/utils.ts:1-11 | the key-by-key loop mutates the given object into `Merge(old entries, options)` and returns that very object |
| `Completion.ExistingUris` | src/lib/sarif-builder.ts:61-63 | a URI is in the set exactly when it is non-empty and some listed artifact names it |
| `Completion.SourceLanguage` | src/lib/sarif-builder.ts:70-72 | the language is the table's entry for the URI's extension when that entry exists and is non-empty, and `"unknown"` otherwise; it is never empty |
| `Completion.LocationUrisMembers` | src/lib/sarif-builder.ts:66-68 | the URIs scanned in one result are exactly the non-empty location URIs |
| `Completion.ResultUrisMembers` | src/lib/sarif-builder.ts:65-68 | the URIs scanned across all results are exactly the non-empty location URIs of any result |
| `Completion.FreshUris` | src/lib/sarif-builder.ts:61-78 | the URIs that get artifacts are exactly the scanned URIs not already seen, and they are pairwise distinct |
| `Completion.FreshUrisFirstSeen` | src/lib/sarif-builder.ts:65-78 | those URIs are ordered by their first occurrence in the scan |
| `Completion.LastDot` | src/lib/sarif-builder.ts:70 | `lastIndexOf('.')`: absent exactly when the URI has no `.`; otherwise a `.` with no `.` after it |
| `Completion.Extension` | src/lib/sarif-builder.ts:70-71 | the extension holds no `.`; it is `""` when the URI has no `.`; otherwise it is the suffix right after a `.` |
| `Completion.LastDotAt` | src/lib/sarif-builder.ts:70-71 | a `.` followed by no other `.` is the one `lastIndexOf` finds, and the extension is the text after it |
| `Completion.LastUriIndex` | src/lib/sarif-builder.ts:83-89 | the URI→index map keeps the largest position listing the URI, or has no entry when no artifact lists it |
| `Completion.LastRuleIndex` | src/lib/sarif-builder.ts:92-95 | the id→index map keeps the largest position with that rule id, or has no entry when no rule has it |
| `Completion.CompleteLocation` | src/lib/sarif-builder.ts:105-113 | the URI and region are kept; a non-empty URI that some artifact names gets the index of an artifact naming it (which one: `CompleteRunLocationIndex`) |
| `Completion.CompleteResult` | src/lib/sarif-builder.ts:98-116 | level, message, rule id and the number of locations are kept; a changed `ruleIndex` points at a rule with the result's rule id (which one: `CompleteRunRuleIndex`) |
| `Completion.CompleteRun` | src/lib/sarif-builder.ts:58-119 | the pure pass: the tool and rules are kept, the old artifacts (or `[]`) are a prefix of the new list, and the number of results is kept; its full properties are `CompleteRunArtifacts`, `CompleteRunFirstSeen`, `CompleteRunLocationIndex`, `CompleteRunRuleIndex`, `CompleteRunFrame` and `CompleteRunIdempotent` |
| `Completion.AllUrisListed` | src/lib/sarif-builder.ts:65-89 | after the artifacts are appended, every scanned URI is listed and has an index |
| `Completion.CompleteRunArtifacts` | src/lib/sarif-builder.ts:60-78 | the old artifacts (or `[]`) form an unchanged prefix; each appended artifact has a non-empty URI that no old artifact lists, the URIs are pairwise distinct, and each has `table[ext]` as source language (`"unknown"` when missing or empty) |
| `Completion.CompleteRunFirstSeen` | src/lib/sarif-builder.ts:61-80 | the appended artifacts are exactly the scanned URIs that were not listed, in first-seen order |
| `Completion.CompleteRunLocationIndex` | src/lib/sarif-builder.ts:83-115 | every location with a non-empty URI has its URI among the artifact URIs and gets the last index listing it; other locations keep their index |
| `Completion.CompleteRunRuleIndex` | src/lib/sarif-builder.ts:92-103 | a result whose rule id some rule has gets the largest such index; any other result keeps its `ruleIndex` |
| `Completion.CompleteRunFrame` | src/lib/sarif-builder.ts:58-119 | only the artifacts, `ruleIndex` and location `index` change; the tool, the rules, and the number, order and other fields of results and locations stay the same |
| `Completion.CompleteRunIdempotent` | src/lib/sarif-builder.ts:58-119 | completing a completed run changes nothing |
| `Completion.TwoFilesArtifacts` | src/lib/sarif-builder.spec.ts:308-322 | with `src/one.ts` already listed, completion appends only `src/two.js`, as JavaScript |
| `Completion.TwoFilesNewUris` | src/lib/sarif-builder.spec.ts:308-322 | in that case the scan's only unlisted URI is `src/two.js` |
| `Completion.TwoJsLanguage` | src/lib/sarif-builder.spec.ts:308-322 | `src/two.js` gets the table's language for `js` |
| `Completion.TwoFilesLookups` | src/lib/sarif-builder.spec.ts:323-332 | in that case each URI and each rule id sits at its own position |
| `Completion.TwoFilesExample` | src/lib/sarif-builder.spec.ts:271-333 | the test's run (tool `MegaLinter` 5.5.0) completes to two artifacts, rule indices 0 and 1 and artifact indices 0 and 1 |
| `Builder.CompleteRunFields` | src/lib/sarif-builder.ts:58-119 | the step-by-step pass yields exactly `CompleteRun` |
| `Builder.CollectMissingArtifacts` | src/lib/sarif-builder.ts:60-80 | the nested scan over results and locations appends exactly the synthesized artifacts to the old list |
| `Builder.PushMissingArtifacts` | src/lib/sarif-builder.ts:66-79 | one result's locations extend the seen-URI set and the artifact list as the specification does for the longer scan |
| `Builder.BuildArtifactIndexMap` | src/lib/sarif-builder.ts:83-89 | the map has exactly the non-empty listed URIs as keys, each mapped to its last position |
| `Builder.BuildRulesIndexMap` | src/lib/sarif-builder.ts:92-95 | the map has exactly the rule ids as keys, each mapped to its last position |
| `Builder.UpdateResultIndexes` | src/lib/sarif-builder.ts:98-116 | writing the indices from the two maps completes every result as `CompleteResult` does |
| `Builder.UpdateLocationIndexes` | src/lib/sarif-builder.ts:105-115 | each location gets its URI's artifact index when the URI is non-empty and listed, and is otherwise unchanged |
| `Builder.DefaultLog` | src/lib/sarif-builder.ts:13-17 | the default log is well formed and has no runs; `DefaultLogWithoutOptions` gives its `version` |
| `Builder.CompleteRuns` | src/lib/sarif-builder.ts:40 | one run per run, in order, each run completed on its own by `CompleteRun` and keeping its tool name, version and rules; `CompleteRunsIdempotent` shows a second pass changes nothing |
| `Builder.DefaultLogWithoutOptions` | src/lib/sarif-builder.ts:13-22 | the default log has exactly the keys `$schema`, `version` and `runs`, holding the schema URI, `2.1.0` and no runs, and empty options leave it unchanged |
| `Builder.CompleteRunsIdempotent` | src/lib/sarif-builder.ts:38-46 | building the output again on built output gives the same runs, so repeated `buildSarifJsonString` calls agree |
| `Builder.Includes` | src/lib/sarif-builder.ts:50 | `includes` is true exactly when the pattern occurs at some position |
| `Builder.CheckInvalidMarker` | src/lib/sarif-builder.ts:50-55 | serialization fails, with the source's message, exactly when the text contains `SARIF_BUILDER_INVALID`; otherwise it returns the text |
| `Builder.MarkerAnywhereFails` | src/lib/sarif-builder.spec.ts:243-254 | a marker anywhere in the serialized text makes serialization fail |
| `Builder.SarifBuilder.constructor` | src/lib/sarif-builder.ts:13-22 | the log is the default log overridden by the defined option values |
| `Builder.SarifBuilder.AddRun` | src/lib/sarif-builder.ts:24-26 | exactly one run is appended at the end of `log.runs`; no other key changes |
| `Builder.SarifBuilder.BuildSarifOutput` | src/lib/sarif-builder.ts:38-42 | every run is replaced by its own completion, with count and order kept; no other key changes; the log is returned |
| `Builder.SarifBuilder.BuildSarifJsonString` | src/lib/sarif-builder.ts:45-56 | the runs are completed, then the serialized text is returned, or the marker error when the text contains the marker |

## Left out

- `generateSarifFileSync` and `generateSarifFile` (src/lib/sarif-builder.ts:28-36): file writes, one of them asynchronous; I/O is outside the model.
- `JSON.stringify` and its 2-space indentation: a library call, modelled as the function parameter `stringify`; the model does not know what text it produces.
- The contents of `EXTENSIONS_LANGUAGES`: src/lib/languages.ts is not part of this model; the table is a map parameter. Lookups of inherited object properties (`EXTENSIONS_LANGUAGES["constructor"]`) are not modelled.
- `SarifRunBuilder`, `SarifResultBuilder` and `SarifRuleBuilder`, including `startLine` validation and column defaults: their source files are not part of this model. `Completion.SimpleResult` only rebuilds the result shape the worked test case uses.
- Aliasing: the source mutates run, result and location objects in place, and a caller that still holds the run builder sees the changes. The model treats runs as values: `CompleteRunFields` returns the new run and `BuildSarifOutput` stores it.
- Absent `results` or `locations` are modelled as empty sequences. The loops treat them the same way, but the source's output keeps the field absent.
- Null entries in the lists (`a?.location?.uri` on a null artifact) and rules without an `id` are not modelled. Rule ids are strings, so a result with no `ruleId` never matches a rule.
- SARIF fields that completion does not touch are reduced to a few representative ones: level, message, region, the rule descriptions, and the driver's name and version.
- `Builder.SarifBuilder.constructor`: requires that a defined `runs` option is a list of runs. This is the static typing of `LogOptions`; its type file is not part of this model.
