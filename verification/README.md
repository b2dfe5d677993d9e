# Feature-flag registry of the GitHub MCP server, in Dafny

This project models the start-up configuration core of the GitHub MCP server.
That core is the feature-flag registry (`FeatureSet` in `pkg/features/features.go`).
It also covers the pure part of `initFeatures` and the host choice in `cmd/github-mcp-server/main.go`.

The registry is a table from feature names to `Feature(name, description, enabled)`.
It also holds a sticky override bit, `everythingOn`. It has four operations:
- register a feature (an upsert);
- ask whether a name is enabled (this never fails);
- enable one name: the reserved name `everything` sets the override, and an unregistered name is an error;
- enable a list of names: it stops at the first error and keeps the effects of the earlier names.

`initFeatures` registers a fixed catalog of six groups, all disabled. It then picks the names to enable:
- a non-empty `GITHUB_FEATURES` value replaces the `--features` flag list;
- that value is split at commas and each piece is trimmed.

It enables the chosen list and fails on any unknown name. The host given to the GitHub client is `GH_HOST` when that value is non-empty, and `--gh-host` otherwise, including when `GH_HOST` is set to the empty string.

Go mutates the registry in place through its `*FeatureSet` receiver. Here every operation is a pure function that returns the new registry:
- `EnableFeature` returns `Result<FeatureSet, FeatureError>`. On an error the caller keeps the registry it had, just as Go returns before writing.
- `EnableFeatures` returns a `BatchOutcome(after, failure)`, because Go's in-place loop leaves the changes made before a failure in place.

Environment variables and flag values are plain parameters.

Modules:
- `Wrappers` (`wrappers.dfy`): `Option` and `Result`.
- `GoStrings` (`gostrings.dfy`): the two pieces of Go's `strings` package that the list resolution uses. These are `Split` with a one-character separator, with `Join` as its inverse, and `TrimSpace`.
- `Features` (`features.dfy`): the registry.
- `Startup` (`startup.dfy`): the catalog, list resolution, `initFeatures` and host selection.
  `InitFeaturesFrom` takes the catalog as a list of (name, description) entries. Its lemmas hold for any catalog, except the two empty-entry lemmas, which hold for any catalog without an empty name.
  `InitFeatures` applies it to the server's six-entry `Catalog`, registered in the source's order.

Notes on the source:
- The environment list takes precedence only when it is non-empty (`envFeats != ""`), not merely when the variable is set. The model follows the code: an empty `GITHUB_FEATURES` leaves the flag list in charge.
- The sentinel `everything` never touches a table entry. A feature registered under the name `everything` can therefore never have its own flag set by `EnableFeature`; only the override reaches it. The reference state `EnabledAfter` states this explicitly.

## Model

| member | source | states |
|---|---|---|
| Features.NewFeatureSet | pkg/features/features.go:16-21 | a fresh registry has an empty table and the override off, so no name at all reads as enabled |
| Features.AddFeature | pkg/features/features.go:23-29 | afterwards the entry under `name` is exactly `Feature(name, description, enabled)`, with nothing merged from an earlier entry; the key set grows by `name` only; the override is unchanged |
| Features.AddFeatureKeepsOthers | pkg/features/features.go:23-29 | registering one name leaves every other entry unchanged |
| Features.AddFeatureWellFormed | pkg/features/features.go:24-28 | registering keeps the invariant that every entry is stored under its own name |
| Features.AddFeatureIsEnabled | pkg/features/features_test.go:58-68 | after re-registering, the answer for that name is the newly supplied flag (or true under the override), whatever was registered before; other names answer as before |
| Features.IsEnabled | pkg/features/features.go:31-42 | the override makes every name enabled; without it a registered name answers with its stored flag and an unregistered one answers false (fail closed) |
| Features.EnableFeature | pkg/features/features.go:54-68 | succeeds exactly for the sentinel or a registered name; the sentinel sets the override and leaves the table alone; an unknown name gives `UnknownFeature(name)`; a registered name gets only its flag set, keeping name and description, with other entries and the override untouched |
| Features.EnableFeatureWellFormed | pkg/features/features.go:61-66 | enabling keeps every entry under its own name |
| Features.EnableFeatureEnables | pkg/features/features_test.go:108-115 | after enabling an accepted name that name reads as enabled |
| Features.EnableFeatureIdempotent | pkg/features/features_test.go:117-121 | a second enable of the same name succeeds again and leaves the registry unchanged |
| Features.EnableFeatureMonotone | pkg/features/features.go:54-68 | enabling never disables a name and never clears the override |
| Features.EnableEverythingEnablesAll | pkg/features/features_test.go:169-219 | enabling the sentinel always succeeds, and afterwards every string reads as enabled, registered or not |
| Features.EnableFeatureIsPerName | pkg/features/features.go:61-67 | enabling one registered name changes the answer for no other name |
| Features.EnableFeatures | pkg/features/features.go:44-52 | a batch never changes the table's key set and never switches the override off |
| Features.EnableFeaturesMonotone | pkg/features/features.go:44-52 | whether a batch succeeds or fails, every name enabled before it stays enabled |
| Features.EnableFeaturesAllKnown | pkg/features/features.go:44-52 | a batch of accepted names succeeds and reaches the fold-free reference state `EnabledAfter` |
| Features.EnableFeaturesStopsAtFirstUnknown | pkg/features/features_test.go:145-149 | a batch whose first unknown name is at index `i` fails with that name; it keeps exactly the effects of the names before `i` and applies none after it |
| Features.EnableFeaturesFailsIffUnknown | pkg/features/features.go:45-51 | a batch reports no error exactly when every name in it is accepted; this covers the empty list |
| Features.EnableFeaturesIsEnabled | pkg/features/features_test.go:131-143 | after a successful batch a name is enabled iff it was before, or the sentinel was listed, or it is registered and listed |
| Features.EnableFeaturesWellFormed | pkg/features/features.go:44-68 | a batch keeps every entry under its own name |
| Features.FirstUnknown | pkg/features/features.go:45-49 | a list with an unaccepted name has a first such name, and every name before it is accepted |
| GoStrings.Split | cmd/github-mcp-server/main.go:94 | `strings.Split` with a one-character separator always yields at least one piece, even for the empty string; the pieces themselves are pinned down by JoinSplit, SplitJoin and SplitPiecesLackSeparator |
| GoStrings.JoinSplit | cmd/github-mcp-server/main.go:94 | joining the pieces of `Split` with the separator gives back the original string |
| GoStrings.SplitJoin | cmd/github-mcp-server/main.go:94 | splitting the join of separator-free pieces gives back exactly those pieces |
| GoStrings.SplitCount | cmd/github-mcp-server/main.go:94 | a string with `n` separators splits into `n + 1` pieces |
| GoStrings.SplitPiecesLackSeparator | cmd/github-mcp-server/main.go:94 | no piece contains the separator |
| GoStrings.SplitAppend | cmd/github-mcp-server/main.go:94 | a separator between two strings splits them independently, so the pieces concatenate |
| GoStrings.TrimLeftSpec | cmd/github-mcp-server/main.go:95 | left trimming keeps a suffix, removes only whitespace, and stops at a non-space |
| GoStrings.TrimRightSpec | cmd/github-mcp-server/main.go:95 | right trimming keeps a prefix, removes only whitespace, and stops at a non-space |
| GoStrings.TrimSpace | cmd/github-mcp-server/main.go:95 | the trimmed string neither starts nor ends with whitespace and is no longer than the input |
| GoStrings.TrimSpaceIsSlice | cmd/github-mcp-server/main.go:95 | the result is one contiguous slice of the input, and everything cut away on either side is whitespace |
| GoStrings.TrimSpaceUnique | cmd/github-mcp-server/main.go:95 | for whitespace, then a trimmed core, then whitespace, TrimSpace returns exactly that core |
| GoStrings.TrimSpaceIdempotent | cmd/github-mcp-server/main.go:95 | trimming twice is the same as trimming once |
| Startup.CatalogNamesOf | cmd/github-mcp-server/main.go:78-83 | the server's catalog entries carry exactly the six names repos, issues, search, pull_requests, code_security and experiments |
| Startup.RegisterAllKeys | cmd/github-mcp-server/main.go:78-83 | registering a list of entries adds exactly their names to the table and leaves the override alone |
| Startup.RegisterAllDisabled | cmd/github-mcp-server/main.go:78-83 | registering entries with the flag `false` keeps every entry disabled and stored under its own name |
| Startup.RegistryContents | cmd/github-mcp-server/main.go:75-83 | before enabling, the registry holds exactly the catalog's names; each is stored under its own name and disabled, and the override is off |
| Startup.RegistryNothingEnabled | cmd/github-mcp-server/main.go:75-83 | before enabling, no name at all reads as enabled |
| Startup.RegistryKnown | cmd/github-mcp-server/main.go:78-83 | against a registered catalog, the names accepted by enable are the catalog's names and the sentinel |
| Startup.CatalogContents | cmd/github-mcp-server/main.go:75-83 | the server's registry, before enabling, holds exactly the six catalog names, each stored under its own name and disabled, with the override off |
| Startup.ResolveFeatureList | cmd/github-mcp-server/main.go:90-97 | an empty environment value leaves the flag list unchanged; a non-empty one yields entries that are all trimmed |
| Startup.EnvReplacesFlags | cmd/github-mcp-server/main.go:90-92 | with a non-empty environment value the flag list has no influence at all: it is replaced, not merged |
| Startup.ResolvedEntriesArePieces | cmd/github-mcp-server/main.go:93-96 | entry `i` is the trimmed `i`-th comma piece of the environment value, and the pieces join back to the value |
| Startup.TrimEach | cmd/github-mcp-server/main.go:93-96 | the append loop: one name per piece, in order, each the `TrimSpace` of its piece |
| Startup.ResolveCount | cmd/github-mcp-server/main.go:94-96 | a non-empty environment value with `n` commas yields `n + 1` names |
| Startup.ResolveExample | cmd/github-mcp-server/main.go:90-97 | `"repos, issues ,search"` resolves to `["repos", "issues", "search"]` |
| Startup.RequestableIffKnown | cmd/github-mcp-server/main.go:78-102 | a registered catalog accepts every name of a list exactly when each is a catalog name or the sentinel |
| Startup.InitFeaturesFrom | cmd/github-mcp-server/main.go:73-105 | start-up succeeds exactly when every resolved name is a catalog name or the sentinel |
| Startup.InitFeatures | cmd/github-mcp-server/main.go:73-105 | start-up over the server's own catalog succeeds exactly when every resolved name is one of the six catalog groups or the sentinel |
| Startup.InitFeaturesError | cmd/github-mcp-server/main.go:99-102 | when the first resolved name that is neither a catalog name nor the sentinel is at index `i`, start-up returns an error naming that entry and no registry |
| Startup.EmptyEntryRejected | cmd/github-mcp-server/main.go:94-102 | an environment piece that trims to the empty string makes start-up fail, for any catalog without an empty name |
| Startup.AdjacentCommasRejected | cmd/github-mcp-server/main.go:94-102 | any environment value containing `",,"` makes start-up fail, whatever the flags say |
| Startup.InitFeaturesEnabled | cmd/github-mcp-server/main.go:78-104 | on success a catalog name is enabled iff it or the sentinel was requested; any other name is enabled iff the sentinel was requested |
| Startup.InitFeaturesWellFormed | cmd/github-mcp-server/main.go:75-104 | on success the registry's keys are exactly the catalog's names, each stored under its own name |
| Startup.DefaultFeaturesAreCatalogNames | cmd/github-mcp-server/main.go:111 | the default flag list names only catalog entries, not the sentinel, namely repos, issues, pull_requests and search |
| Startup.DefaultFeaturesInit | cmd/github-mcp-server/main.go:111 | with no environment override the server's default flag list succeeds and enables exactly repos, issues, pull_requests and search |
| Startup.SelectHost | cmd/github-mcp-server/main.go:191-194 | a non-empty `GH_HOST` value wins, otherwise the `--gh-host` value is used; the result is empty only when both are |
| Startup.SelectHostIsFirstNonEmpty | cmd/github-mcp-server/main.go:190-194 | the chosen host is exactly the first non-empty value of `GH_HOST` then `--gh-host`, or empty when both are; no other host fits that reading |

## Left out

- Command-line and configuration binding (`cmd/github-mcp-server/main.go:30-71`, `107-136`). This is cobra and viper library plumbing. Flag and environment values are parameters instead, and the `--features` list arrives already split into names.
- Logger set-up (`initLogger`): opening a log file is file I/O.
- GitHub client construction, the token check, `WithEnterpriseURLs`, the server constructors and the translation helpers. These are foreign packages whose code is not part of this model. Only the host choice is modelled.
- `JSONPrettyPrintWriter`: a thin wrapper over `encoding/json.Indent`, whose behaviour lives in the Go standard library.
- The `runStdioServer` lifecycle: the worker goroutine, the signal-driven `select` and the stdin/stdout decoration are concurrency and I/O. The `runConfig` record only carries values to that code.
- `main`, process exit and printing.
- GoStrings.IsSpace: covers only the six ASCII whitespace characters of Go's fast path (tab, newline, vertical tab, form feed, carriage return, space). The Unicode spaces that `unicode.IsSpace` also accepts, such as U+0085 and U+00A0, are not modelled.
- The text of the unknown-feature error (`pkg/features/features.go:63`) is not modelled. The error is the value `UnknownFeature(name)`, which carries the offending name.
