# vlt dependency ids, importer diff and result-count check, in Dafny

This project models three pieces of the vlt package manager and proves properties about them.

- **Dependency ids** (`src/dep-id/src/browser.ts`). A dependency id is a string such as `··pkg@1.2.3` or `git·github%3Aa§b·main` (the id written for the git remote `github:a/b` at `main`). Its segments are separated by `·` (U+00B7). The first segment names the specifier type: empty for the registry, `git`, `file`, `remote` or `workspace`. The other segments are escaped fields.
  - Escaping is `encodeURIComponent`, with `@` left readable and `/` written as `§` (U+00A7).
  - The model covers `joinDepIDTuple`, `splitDepID`, the `isDepID` grammar, `asDepID`, `baseDepID`, `hydrate`/`hydrateTuple`, `omitDefReg`, `getTuple`, `isPackageNameConfused` and `getId`.
  - `encodeURIComponent` and `decodeURIComponent` are modelled after section 19.2.6 of ECMA-262, with full UTF-8 and the decoder's validity checks.
- **Importer diff** (`src/graph/src/ideal/get-importer-specs.ts`). For every importer of a dependency graph it computes two things. The add side holds the dependencies its manifest lists but the graph has not resolved. The remove side holds the out-edges whose names the manifest no longer lists. The user's own add and remove requests are then merged in, empty remove sets are pruned, and two `modifiedDependencies` flags are set.
- **Expected result count** (`src/cli-sdk/src/commands/query.ts`). `--expect-results` takes `>=N`, `<=N`, `>N`, `<N` or `N` and is checked against the number of edges a query selected. A query that misses the expectation fails with `Unexpected number of items`.

Files:
- `wrappers.dfy`: `Option` and `Result`.
- `strings.dfy`: `String.prototype.replaceAll` and `split`.
- `uri_codec.dfy`: UTF-8, `encodeURIComponent` and `decodeURIComponent`.
- `dep_id.dfy`: ids and tuples.
- `spec_bridge.dfy`: from tuples to specifier-parser requests and back.
- `importer_specs.dfy`: the importer diff.
- `expect_results.dfy`: `trim`, `parseInt` and the count check.

Behaviours of the code worth knowing when reading the model:
- **Removing from a non-importer.** Only the add merge throws `Not an importer`. The remove merge skips ids that are not importers (`get-importer-specs.ts:113-120`). `ImporterSpecs.RemovedNames` states this.
- **No grammar check in `splitDepID`.** `splitDepID` does not check the id grammar:
  - segments after the fourth are dropped;
  - a `file`/`remote`/`workspace` id keeps its third segment as the extra field, and its fourth segment is dropped;
  - the first field is run through `decodeURIComponent` before the type is looked at, so a malformed escape there is reported ahead of an unknown type.

  `DepId.IsDepIDSplits` and `DepId.SplitDepIDErrors` state what holds.
- **Empty extra.** An extra field that is the empty string is not written by `joinDepIDTuple`, so it reads back as absent (`DepId.SplitJoinRoundTrip`).

## Model

| member | source | states |
|---|---|---|
| UriCodec.Utf8RoundTrip | src/dep-id/src/browser.ts:99-112 | The bytes `encodeURIComponent` writes for a character have the length their lead byte announces, and `decodeURIComponent`'s UTF-8 step reads them back to that character. |
| UriCodec.EncodeURIComponent | src/dep-id/src/browser.ts:98-105 | `encodeURIComponent` writes only unreserved characters and `%`, so its output never holds `@`, `/`, `§` or `·`. |
| UriCodec.DecodeURIComponent | src/dep-id/src/browser.ts:107-122 | `decodeURIComponent` never lengthens its input, and gives back unchanged any text without a `%`. |
| UriCodec.EncodeDecodeURIComponent | src/dep-id/src/browser.ts:99-112 | `decodeURIComponent(encodeURIComponent(s))` succeeds and gives back `s`, for every string. |
| DepId.EncodeAsWritten | src/dep-id/src/browser.ts:98-105 | `encode` as written (`encodeURIComponent`, then the three `replaceAll` calls, with `''` passed through) equals the per-character table `DepId.Encode` that the rest of the model uses. |
| DepId.EncodeIsTable | src/dep-id/src/browser.ts:98-105 | The field escape as written is the same as a per-character table. The pipeline is `encodeURIComponent`, then `%40`→`@`, `%2f`→`§`, `%2F`→`§`. The table is: `@` kept, `/` as `§`, every other character as `encodeURIComponent` writes it. No replacement matches across two escapes. |
| DepId.EncodeSafety | src/dep-id/src/browser.ts:98-105 | An escaped field never holds the delimiter `·` or a `/`. It holds `@` exactly when the input does, and `§` exactly when the input holds `/`. |
| DepId.EncodeEscapes | src/dep-id/src/browser.ts:98-105 | A character that is neither unreserved nor `@` nor `/` is written as its UTF-8 bytes in `%XX` form: three characters per byte, starting with `%`. |
| DepId.EncodeReservedExamples | src/dep-id/src/browser.ts:98-105 | `%` is written `%25`, `§` is written `%C2%A7` and `·` is written `%C2%B7`, so none of them can be confused with the id's own markers. |
| DepId.DecodeExtraRoundTrip | src/dep-id/src/browser.ts:107-112 | `decode` of an extra segment undoes `encode` once the id's `§` are `/` again. An absent extra reads back absent and an empty one empty. |
| DepId.FieldRoundTrip | src/dep-id/src/browser.ts:98-121 | After the id-wide `§`→`/`, an escaped field has no delimiter. Both `decodeURIComponent` and the extra-field `decode` recover the original field from it. |
| DepId.JoinLayout | src/dep-id/src/browser.ts:85-96 | `joinDepIDTuple` writes the type word, then each field escaped and preceded by `·`. The extra field is written only when it is present and non-empty. |
| DepId.SplitDepID | src/dep-id/src/browser.ts:117-149 | `splitDepID` fails on every leading segment other than `''`, `git`, `file`, `remote` and `workspace`. On success the tuple's type is the leading segment, and its first field is the second segment unescaped by `decodeURIComponent`. `DepId.SplitJoinRoundTrip` is its inverse. |
| DepId.SplitJoinRoundTrip | src/dep-id/src/browser.ts:85-149 | `splitDepID(joinDepIDTuple(t))` succeeds for every tuple and gives `t` back, except that an empty extra reads back as absent. |
| DepId.RoundTrip | src/dep-id/src/browser.ts:85-149 | For tuples without an empty extra, splitting the joined id gives back exactly the tuple. |
| DepId.IsDepIDSegments | src/dep-id/src/browser.ts:60-71 | `isDepID` rejects every string without a `·`. An id it accepts has at most four segments, so the limit `splitDepID` splits with drops none. |
| DepId.JoinIsDepID | src/dep-id/src/browser.ts:60-96 | Every joined id matches the id grammar: `''`/`git` followed by two or three delimiter-free fields, or `file`/`remote`/`workspace` followed by one or two. |
| DepId.AsDepID | src/dep-id/src/browser.ts:73-80 | Succeeds exactly on strings of the id grammar, returning them unchanged. Otherwise it fails with `Expected dep id`, naming the string. |
| DepId.JoinAsDepID | src/dep-id/src/browser.ts:73-96 | `asDepID` accepts every joined id unchanged. |
| DepId.IsDepIDSplits | src/dep-id/src/browser.ts:60-149 | `splitDepID` on a string of the id grammar never reports a structural error. It can only fail on a malformed escape. |
| DepId.SplitDepIDErrors | src/dep-id/src/browser.ts:117-149 | Once the first field unescapes, there are two structural errors. An unknown leading segment fails with `invalid DepID type` and the list `git, file, workspace, remote, ''`. A registry or git id with fewer than three segments fails with `invalid <type> id`, naming the id. |
| DepId.RegistryWordRejected | src/dep-id/src/browser.ts:122-147 | An id whose first segment is the word `registry` is rejected: the registry type is written as the empty segment. |
| DepId.BaseDepID | src/dep-id/src/browser.ts:155-164 | `baseDepID` fails exactly when `splitDepID` does, with the same error. Otherwise its result is a grammar id that splits into the original tuple with the extra dropped. |
| DepId.BaseOfJoin | src/dep-id/src/browser.ts:155-164 | The base of a joined id is the id of the same tuple without its extra field. |
| DepId.BaseIdempotent | src/dep-id/src/browser.ts:155-164 | Taking the base of a base id changes nothing. |
| SpecBridge.LookupRegistry | src/dep-id/src/browser.ts:220-227 | The named-registry lookup finds the registry configured under that alias, and finds none exactly when no entry has that alias. |
| SpecBridge.HydrateTuple | src/dep-id/src/browser.ts:178-264 | Hydration fails exactly when one of these holds: a remote, file, git or workspace tuple has an empty first field; a registry tuple has an empty spec; or a registry name that is not a URL is neither `npm` nor a configured alias. For the default registry, a name different from the parsed one gives an `npm:` alias. A workspace tuple with a different package name gives `workspace:<path>@*` under that name, and otherwise `workspace:*` under the path. A git tuple gives `remote#selector`. |
| SpecBridge.HydrateIgnoresExtra | src/dep-id/src/browser.ts:178-264 | The extra field plays no part in hydration: the tuple fails exactly when the tuple without its extra fails, otherwise both give the same request, and the two errors differ only in the extra of the tuple they report. |
| SpecBridge.Hydrate | src/dep-id/src/browser.ts:169-173 | `hydrate` fails with the split's error on an id that does not split. Otherwise it fails exactly when the split tuple is incomplete in the sense of `hydrateTuple`. |
| SpecBridge.HydrateJoined | src/dep-id/src/browser.ts:169-173 | `hydrate` of a joined id makes the same request as `hydrateTuple` of the tuple it was joined from. |
| SpecBridge.OmitDefReg | src/dep-id/src/browser.ts:267-274 | The registry is stored as the empty string exactly when it is absent, empty, or the default `https://registry.npmjs.org` with or without a trailing slash. Any other registry is stored unchanged. |
| SpecBridge.OmitDefRegIdempotent | src/dep-id/src/browser.ts:267-274 | Omitting the default registry twice is the same as once. |
| SpecBridge.FindAlias | src/dep-id/src/browser.ts:292-301 | The alias search returns an alias configured for that registry URL, and finds none exactly when no alias has that URL. |
| SpecBridge.RegistryFieldAlias | src/dep-id/src/browser.ts:289-301 | With no named registry (absent or empty), a registry URL configured under an alias is stored as the first such alias. |
| SpecBridge.RegistryFieldDefault | src/dep-id/src/browser.ts:289-310 | With no named registry on the default registry, the registry field is the empty string. |
| SpecBridge.StripV | src/dep-id/src/browser.ts:302-307 | One leading `v` is dropped from a manifest version, and nothing else changes. |
| SpecBridge.RegistryTupleSource | src/dep-id/src/browser.ts:289-313 | For every registry specifier, aliased ones included, the tuple stores the registry field and `name@version`. The name is the specifier's own if the manifest name is confused, else the manifest's, else the final specifier's. The version is the manifest version minus one leading `v`, else the final specifier's bare spec. |
| SpecBridge.RegistryNameIsSpecName | src/dep-id/src/browser.ts:308-360 | A named registry specifier that wraps nothing is stored under its own name, whatever name the manifest declares. This is the manifest-confusion guard. |
| SpecBridge.GetTuple | src/dep-id/src/browser.ts:282-350 | A successful tuple carries the given extra and is never of a path type. File and workspace specifiers fail with `Path-based dep ids are not supported`. A git specifier fails exactly when it has no remote, or has a named host without a path. A remote specifier fails exactly when it has no URL. A registry specifier never fails. A registry tuple holds the registry field and `name@version`. A git tuple holds `namedGitHost:namedGitHostPath` when there is a named host, else `gitRemote`, and the selector, `''` when absent. A remote tuple holds `remoteURL`. |
| SpecBridge.ConfusedNameReplaced | src/dep-id/src/browser.ts:308-360 | The name a registry tuple stores differs from the manifest's declared name only when `isPackageNameConfused` holds. The specifier's own name then replaces it. |
| SpecBridge.GetId | src/dep-id/src/browser.ts:368-372 | `getId` fails exactly when `getTuple` does, with the same error. Every id it produces matches the id grammar. |
| SpecBridge.GetIdSplits | src/dep-id/src/browser.ts:368-372 | Every id `getId` produces splits back into the tuple `getTuple` computed, with an empty extra read back as absent. |
| ImporterSpecs.HasDepName | src/graph/src/ideal/get-importer-specs.ts:27-34 | The bucket loop returns true exactly when some dependency bucket of the manifest lists the name. |
| ImporterSpecs.UserAddFor | src/graph/src/ideal/get-importer-specs.ts:75 | `add.get(id)` finds the user's entry for that importer, and finds none exactly when no entry has that id. |
| ImporterSpecs.MissingDeps | src/graph/src/ideal/get-importer-specs.ts:83-95 | A name is missing exactly when some bucket lists it and no out-edge with that name has a target. |
| ImporterSpecs.ComputedAdd | src/graph/src/ideal/get-importer-specs.ts:65-96 | Before the user's additions, the add map has exactly one key per importer, empty maps included. |
| ImporterSpecs.ComputedRemove | src/graph/src/ideal/get-importer-specs.ts:65-97 | Before the user's removals, the remove map has exactly one key per importer, empty sets included. |
| ImporterSpecs.MergeAdd | src/graph/src/ideal/get-importer-specs.ts:101-109 | The add merge succeeds exactly when every user entry names an importer, and keeps the set of importers. Otherwise it fails with `Not an importer`, naming the first such entry in insertion order. |
| ImporterSpecs.MergeRemove | src/graph/src/ideal/get-importer-specs.ts:113-120 | The remove merge never adds or drops an importer key: entries for non-importers are skipped. |
| ImporterSpecs.Prune | src/graph/src/ideal/get-importer-specs.ts:122-127 | After pruning, the result holds exactly the importers whose set is non-empty, each with its set unchanged. |
| ImporterSpecs.AddBeforeFilter | src/graph/src/ideal/get-importer-specs.ts:65-109 | When the merge succeeds, the add map has exactly one key per importer. |
| ImporterSpecs.GetImporterSpecs | src/graph/src/ideal/get-importer-specs.ts:55-148 | The call fails exactly when a user add names a non-importer. The add map is the filter applied to the merged map, and the remove map is the merged, pruned one. The add flag is set exactly when some importer's filtered map is non-empty. The remove flag is set exactly when some importer has an out-edge that no bucket lists and the user is not adding. |
| ImporterSpecs.StaleNames | src/graph/src/ideal/get-importer-specs.ts:70-80 | The stale names of an importer are exactly its out-edges whose name no bucket of the manifest lists and that the user's add map for that importer does not hold. |
| ImporterSpecs.StaleIff | src/graph/src/ideal/get-importer-specs.ts:27-80 | A name is stale exactly when it is an out-edge, no bucket lists it and no user add entry for that importer has it. So the stale step never removes a listed or user-added name. |
| ImporterSpecs.MissingLastBucketWins | src/graph/src/ideal/get-importer-specs.ts:83-95 | A name listed in several buckets is added with the entry built from the last bucket that lists it. |
| ImporterSpecs.MergeAddValue | src/graph/src/ideal/get-importer-specs.ts:101-109 | After the merge, each importer's map is its computed map overwritten by the user's additions for it. Names the user does not add keep their computed entries. |
| ImporterSpecs.MergeRemoveValue | src/graph/src/ideal/get-importer-specs.ts:113-120 | A name is in an importer's merged remove set exactly when the stale step put it there or some user remove entry for that importer names it. |
| ImporterSpecs.AddedDeps | src/graph/src/ideal/get-importer-specs.ts:83-109 | In an importer's merged add map, a user-added name has the user's entry. Any other name is present exactly when a bucket lists it and no edge resolves it, with the entry the missing step built. |
| ImporterSpecs.StaleNotAdded | src/graph/src/ideal/get-importer-specs.ts:72-109 | A name the stale step removes is never in the same importer's merged add map. An overlap between the two can only come from a user remove. |
| ImporterSpecs.RemovedNames | src/graph/src/ideal/get-importer-specs.ts:72-127 | An id that is not an importer never appears in the remove map. For an importer, a name is in its final set exactly when it is stale or some user remove entry for that importer names it. |
| ImporterSpecs.RemoveFlagHasNames | src/graph/src/ideal/get-importer-specs.ts:72-127 | Whenever the remove flag is set, the remove map is not empty. |
| ExpectResults.Trim | src/cli-sdk/src/commands/query.ts:115-123 | `trim` removes a whitespace-only prefix and suffix, leaving no ECMAScript whitespace or line terminator at either end. |
| ExpectResults.TrimPadded | src/cli-sdk/src/commands/query.ts:115-123 | Trimming a text with no whitespace at its ends, padded with whitespace, gives exactly that text. |
| ExpectResults.TrimIdempotent | src/cli-sdk/src/commands/query.ts:115-123 | Trimming twice is trimming once. |
| ExpectResults.ParseInt | src/cli-sdk/src/commands/query.ts:115-123 | `parseInt(s, 10)` yields a number, rather than `NaN`, exactly when a decimal digit follows the leading whitespace and at most one sign. |
| ExpectResults.ParseIntText | src/cli-sdk/src/commands/query.ts:115-123 | `parseInt` reads back any integer written in decimal, with or without a minus sign, whatever non-digit text follows it. |
| ExpectResults.Expectation | src/cli-sdk/src/commands/query.ts:114-124 | The prefixes are tested in the order `>=`, `<=`, `>`, `<`. A value starting with `>=` or `<=` picks at-least or at-most. One starting with `>` or `<` but not followed by `=` picks more-than or less-than. Any other value is an exact count. The operator and the text after it spell the expectation back. |
| ExpectResults.ValidateExpectedResult | src/cli-sdk/src/commands/query.ts:109-126 | An absent or empty expectation accepts every count. A met expectation always has a number after its operator, because a comparison with `NaN` is false. |
| ExpectResults.ValidateWritten | src/cli-sdk/src/commands/query.ts:109-126 | An expectation written as an operator, optional whitespace and an integer is met exactly when the count stands in that relation to the integer. |
| ExpectResults.ValidatePlain | src/cli-sdk/src/commands/query.ts:122-123 | A value that starts with neither `<` nor `>` is an exact count: it is met exactly when its trimmed text parses to the number of items. |
| ExpectResults.CheckResultCount | src/cli-sdk/src/commands/query.ts:222-227 | The query fails exactly when the expectation is not met, with `Unexpected number of items` carrying the count found and the expectation. Otherwise it passes the count on. |

## Left out

- Strings are sequences of Unicode scalar values, not UTF-16 code units. `encodeURIComponent` throws on a lone surrogate, which this model cannot represent.
- The `typeof str === 'string'` test of `isDepID` and the `typeof first !== 'string'` test of `hydrateTuple` cannot fail in a typed model.
- `Spec.parse` is not part of this model. `hydrateTuple` is modelled as the parser request it makes, and the parsed specifiers it inspects come from the function parameter `parse`. `getTuple` takes the fields of an already-parsed specifier.
- SpecBridge.GetTuple: returns the alias it finds instead of also writing it into the specifier's `namedRegistry`, an in-place mutation the caller can observe.
- SpecBridge.LookupRegistry: reads only the configured entries. JavaScript's `registries[name]` would also find inherited properties such as `toString`.
- `shorten`, `asDependency`, `Spec.parse` (for each manifest entry), `removeSatisfiedSpecs` and the contents of `longDependencyTypes` are not part of this model. They are parameters: `asDep`, `filter` and `buckets`. A parse error raised while building a dependency is not modelled.
- The graph's importers are a map keyed by id, since graph nodes are keyed by id. The user's add and remove maps are entry lists in insertion order. Lemmas that read the add map as a JavaScript `Map` require distinct keys.
- ExpectResults.ParseInt: returns the exact integer, whereas JavaScript's `parseInt` rounds digit strings beyond 2^53 to the nearest double.
- The rest of the query command (running the query, views, the GUI), `config.ts` and `variants.ts` are not part of this model.
