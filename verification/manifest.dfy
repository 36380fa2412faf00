/** Data model of the task-manifest resolver: the manifest itself, the
    answers of the outside collaborators (file-existence check, parser,
    validator) and the outcome of one resolution.

    A task's own structure belongs to the parser and validator, so it is
    the type parameter `T` throughout.
 */
module Manifests {

  /** A file-system location, as the caller or the fixed defaults spell it. */
  type Path = string

  /** A versioned container of named tasks; task names are unique because
      they are the keys of a map. */
  datatype Manifest<T> = Manifest(version: string, tasks: map<string, T>)

  /** The version tag of the manifest synthesized when no file is found. */
  const DefaultVersion: string := "1.0"

  /** The manifest handed back when no candidate file exists. */
  function EmptyManifest<T>(): Manifest<T>
  {
    Manifest(DefaultVersion, map[])
  }

  /** What the parser answers for a path: a manifest, or a failure whose
      description is `cause`. */
  datatype Parsed<T> = ParseOk(manifest: Manifest<T>) | ParseFail(cause: string)

  /** What the validator answers for a parsed manifest. */
  datatype Check = Valid | Invalid(cause: string)

  /** The result of one resolution.  `Loaded` and `Default` carry the
      manifest handed to the caller; the two error cases carry the path of
      the candidate that failed and the collaborator's own failure. */
  datatype Outcome<T> =
    | Loaded(manifest: Manifest<T>)
    | Default(manifest: Manifest<T>)
    | ParseErr(path: Path, cause: string)
    | ValidateErr(path: Path, cause: string)
  {
    /** True when the resolution ended in an error returned to the caller. */
    predicate IsError() {
      ParseErr? || ValidateErr?
    }
  }
}
