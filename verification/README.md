# Task-manifest resolver

A Dafny model of `LoadManifest` from `internal/config/loader.go` of the
dev-toolkit MCP server. The resolver looks for a task manifest in a fixed
priority order: the caller's custom path, then `./mcp-tasks.yaml`, then
`./.mcp/tasks.yaml`. It skips empty candidates and candidates whose
existence check fails. It commits to the first candidate that is present:
that file is parsed and validated, and a failure of either is returned as an
error naming that path, with no fallback to later candidates. When no
candidate is present, it returns an empty manifest (version `"1.0"`, no
tasks), `loaded = false` and no error.

The outside world is a set of parameters:

- `present: Path -> bool` stands for `os.Stat` succeeding. Every failure of
  the check, whatever its kind, reads as "not present".
- `parse: Path -> Parsed<T>` stands for `ParseManifest`.
- `validate: Manifest<T> -> Check` stands for `Validate`.

The task type is the type parameter `T`, because its structure belongs to
the parser and validator.

Modules:

- `Manifests` (`manifest.dfy`): the manifest, the collaborators' answers
  and the resolution `Outcome`.
- `Loader` (`loader.dfy`): the candidate list, the recursive search and
  `LoadManifest`. It also holds `LoadManifestLoop`, the same procedure
  written as the program's loop and proved equal to the search.
- `LoaderProperties` (`loader_properties.dfy`): which candidate is chosen,
  and which oracle answers can never affect the result.
- `Returns` (`returns.dfy`): the program's three return values
  `(manifest, loaded, error)` and how they stay consistent.

The model is a pure function of its arguments: the custom path and the
answers of the existence check, the parser and the validator.

Two facts about the code that the model keeps:

- On a parse or validation failure the code returns a nil manifest
  (`internal/config/loader.go:38` and `:43`), even though its doc comment
  (`:15`) describes the result as "the loaded manifest, or an empty manifest
  if none found". `Returns.Returned` therefore holds `None` there.
- The loop (`internal/config/loader.go:25-47`) returns at the first
  candidate that exists. When that candidate fails to parse or validate,
  no later candidate is tried.

## Model

| member | source | states |
|---|---|---|
| Loader.Commit | internal/config/loader.go:35-46 | the chosen candidate is never the default. A parse failure gives a parse error carrying that path and the parser's failure. A manifest that parses but fails validation gives a validation error carrying that path. Otherwise it is loaded, and the result is exactly what the parser produced. |
| Loader.Search | internal/config/loader.go:25-56 | the result is the empty default exactly when no candidate is both non-empty and present, and the default is then the empty manifest |
| Loader.SearchChoosesFirstFound | internal/config/loader.go:25-47 | when some candidate is the first that is non-empty and present, the result is the parse-and-validate verdict on that candidate, whatever comes after it |
| Loader.SearchPathsInOrder | internal/config/loader.go:19-47 | over the three candidates, a found custom path decides the result; otherwise a present ./mcp-tasks.yaml does; otherwise a present ./.mcp/tasks.yaml does. In general the first found candidate decides. |
| Loader.LoadManifest | internal/config/loader.go:18-57 | candidate order is custom path, then ./mcp-tasks.yaml, then ./.mcp/tasks.yaml. A non-empty present custom path overrides both defaults. The default manifest is returned exactly when none of the three is found, and it has version "1.0" and no tasks. |
| Loader.LoadManifestLoop | internal/config/loader.go:19-47 | the loop that skips empty and absent candidates and returns at the first present one computes the same outcome as the resolver |
| LoaderProperties.FirstFoundExists | internal/config/loader.go:25-33 | when some candidate is found, a first found candidate exists |
| LoaderProperties.SearchCases | internal/config/loader.go:25-56 | every search is either the empty default, when nothing is found, or the verdict on the first candidate found |
| LoaderProperties.LaterCandidatesIgnored | internal/config/loader.go:25-47 | candidates after the first one found are never consulted: dropping all of them gives the same result |
| LoaderProperties.OraclesIgnoredPastChoice | internal/config/loader.go:36-47 | only the existence answers up to the chosen candidate, the parser's answer for that candidate and the validator's answer for its manifest affect the result. A parse or validation failure of the chosen candidate is final. |
| LoaderProperties.EmptyCandidatesNeverProbed | internal/config/loader.go:26-28 | the existence answer for the empty string never affects the result |
| LoaderProperties.AbsentCandidatesNeverParsed | internal/config/loader.go:30-36 | the parser is consulted only on candidates that are named and present. The validator is consulted only on what the parser produced for them. |
| LoaderProperties.LoadedIffChosenSucceeds | internal/config/loader.go:36-46 | a file is loaded exactly when the first candidate found both parses and validates. The manifest returned is the one parsed from that candidate. |
| Returns.ToReturned | internal/config/loader.go:14-17 | the three return values are consistent. An error comes with no manifest and loaded false; no error comes with a manifest. loaded holds exactly for a loaded file, and an error is returned exactly on parse or validation failure. The outcome can be read back from the three values, so they lose nothing. |
| Returns.FromReturned | internal/config/loader.go:14-17 | a triple can be read back as an outcome exactly when its three parts are consistent |
| Returns.ConsistentRoundTrip | internal/config/loader.go:14-17 | every consistent triple reads back to an outcome that spreads back to the same triple |
| Returns.LoadManifestReturned | internal/config/loader.go:18-57 | as the caller sees it: nothing found gives (empty manifest, false, no error). A parse or validation failure of the first candidate found gives (no manifest, false, an error naming exactly that path). Success gives (the parsed manifest, true, no error). |

## Left out

- The file system: `os.Stat` is the `present` parameter. Stat errors other than "not found", such as permission denied, are not told apart, because the program treats them all as absence.
- The bodies of `ParseManifest` and `Validate` are not part of this model. They are the `parse` and `validate` parameters, so no YAML syntax or schema rule is modelled.
- The error message text of `fmt.Errorf` and the `%w` wrapping chain: an error records only its kind, the path and the collaborator's failure description.
- The structure of a task, and the identity (address) of the returned `*Manifest`: neither affects which candidate is chosen or what is returned.
- Loader.Commit: the returned manifest is exactly what the parser produced, and a result without an error always carries a manifest, only under two assumptions about collaborators whose bodies are not part of this model. `Validate` must not modify the manifest it is passed (`internal/config/loader.go:42` passes the same `*Manifest` that `:46` returns). `ParseManifest` must return a non-nil manifest whenever it returns no error; a nil one would be returned at `:46` with `loaded = true`, which `Parsed<T>` cannot express.
