/** The manifest resolver: a fixed priority list of candidate paths, a
    search that commits to the first candidate that is named and present,
    and a fallback to the empty manifest when none is.

    The outside world is passed in: `present` stands for the file-existence
    check succeeding, `parse` for the parser and `validate` for the
    validator.  Every function here is pure, so calling it twice on the same
    arguments gives the same answer.
 */
module Loader {
  import opened Manifests

  /** The project-root default location, second in priority. */
  const ProjectRootPath: Path := "./mcp-tasks.yaml"

  /** The hidden-directory default location, last in priority. */
  const HiddenDirPath: Path := "./.mcp/tasks.yaml"

  /** The candidates in priority order: the caller's path (possibly empty),
      then the two fixed defaults. */
  function SearchPaths(customPath: Path): seq<Path>
  {
    [customPath, ProjectRootPath, HiddenDirPath]
  }

  /** A candidate is found when it is non-empty and the existence check
      then succeeds; the check is not even made for an empty candidate, and
      any failure of it counts as "not present". */
  predicate Found(path: Path, present: Path -> bool)
  {
    path != "" && present(path)
  }

  /** No candidate in `paths` is both named and present. */
  ghost predicate NoneFound(paths: seq<Path>, present: Path -> bool)
  {
    forall j | 0 <= j < |paths| :: !Found(paths[j], present)
  }

  /** `i` is the index of the first candidate that is named and present. */
  ghost predicate IsFirstFound(paths: seq<Path>, present: Path -> bool, i: int)
  {
    && 0 <= i < |paths|
    && Found(paths[i], present)
    && forall j | 0 <= j < i :: !Found(paths[j], present)
  }

  /** Parse and then validate the chosen candidate; there is no fallback
      either way. */
  function Commit<T>(path: Path, parse: Path -> Parsed<T>, validate: Manifest<T> -> Check): (o: Outcome<T>)
    ensures !o.Default?
    ensures o.ParseErr? <==> parse(path).ParseFail?
    ensures o.ParseErr? ==> o.path == path && o.cause == parse(path).cause
    ensures o.ValidateErr? <==> parse(path).ParseOk? && validate(parse(path).manifest).Invalid?
    ensures o.ValidateErr? ==> o.path == path && o.cause == validate(parse(path).manifest).cause
    ensures o.Loaded? <==> parse(path).ParseOk? && validate(parse(path).manifest).Valid?
    ensures o.Loaded? ==> o.manifest == parse(path).manifest
  {
    match parse(path)
    case ParseFail(cause) => ParseErr(path, cause)
    case ParseOk(m) =>
      match validate(m)
      case Invalid(cause) => ValidateErr(path, cause)
      case Valid => Loaded(m)
  }

  /** The search over the candidates, first to last.  The result is the
      default exactly when nothing is found, and then it is the empty
      manifest; which candidate decides it otherwise is stated by
      `SearchChoosesFirstFound`. */
  function Search<T>(paths: seq<Path>, present: Path -> bool, parse: Path -> Parsed<T>,
                     validate: Manifest<T> -> Check): (o: Outcome<T>)
    ensures o.Default? <==> NoneFound(paths, present)
    ensures o.Default? ==> o.manifest == EmptyManifest()
    decreases |paths|
  {
    if |paths| == 0 then
      Default(EmptyManifest())
    else if Found(paths[0], present) then
      Commit(paths[0], parse, validate)
    else
      var rest := Search(paths[1..], present, parse, validate);
      assert NoneFound(paths[1..], present) ==> NoneFound(paths, present);
      rest
  }

  /** The first candidate found decides the search alone: whatever comes
      after it, the result is the parse-and-validate verdict on it. */
  lemma {:induction false} SearchChoosesFirstFound<T>(paths: seq<Path>, present: Path -> bool,
                                                     parse: Path -> Parsed<T>, validate: Manifest<T> -> Check,
                                                     i: nat)
    requires IsFirstFound(paths, present, i)
    ensures Search(paths, present, parse, validate) == Commit(paths[i], parse, validate)
    decreases i
  {
    if i > 0 {
      assert IsFirstFound(paths[1..], present, i - 1);
      SearchChoosesFirstFound(paths[1..], present, parse, validate, i - 1);
    }
  }

  /** Over the three candidates, the search takes the caller's path when
      it is found, then the project-root default, then the hidden-directory
      default: the first found decides the result alone. */
  lemma SearchPathsInOrder<T>(customPath: Path, present: Path -> bool, parse: Path -> Parsed<T>,
                              validate: Manifest<T> -> Check)
    ensures Found(customPath, present) ==>
              Search(SearchPaths(customPath), present, parse, validate) == Commit(customPath, parse, validate)
    ensures !Found(customPath, present) && present(ProjectRootPath) ==>
              Search(SearchPaths(customPath), present, parse, validate) == Commit(ProjectRootPath, parse, validate)
    ensures !Found(customPath, present) && !present(ProjectRootPath) && present(HiddenDirPath) ==>
              Search(SearchPaths(customPath), present, parse, validate) == Commit(HiddenDirPath, parse, validate)
    ensures forall i | IsFirstFound(SearchPaths(customPath), present, i) ::
              Search(SearchPaths(customPath), present, parse, validate) == Commit(SearchPaths(customPath)[i], parse, validate)
  {
    var paths := SearchPaths(customPath);
    forall i | IsFirstFound(paths, present, i)
      ensures Search(paths, present, parse, validate) == Commit(paths[i], parse, validate)
    {
      SearchChoosesFirstFound(paths, present, parse, validate, i);
    }
    if !Found(customPath, present) {
      assert present(ProjectRootPath) ==> IsFirstFound(paths, present, 1);
      assert !present(ProjectRootPath) && present(HiddenDirPath) ==> IsFirstFound(paths, present, 2);
    } else {
      assert IsFirstFound(paths, present, 0);
    }
  }

  /** The resolver: search the three candidates in priority order. */
  function LoadManifest<T>(customPath: Path, present: Path -> bool, parse: Path -> Parsed<T>,
                           validate: Manifest<T> -> Check): (o: Outcome<T>)
    // A named, present custom path overrides both defaults.
    ensures customPath != "" && present(customPath) ==> o == Commit(customPath, parse, validate)
    // Otherwise the project-root default comes next ...
    ensures !Found(customPath, present) && present(ProjectRootPath) ==> o == Commit(ProjectRootPath, parse, validate)
    // ... and the hidden-directory default last.
    ensures !Found(customPath, present) && !present(ProjectRootPath) && present(HiddenDirPath)
            ==> o == Commit(HiddenDirPath, parse, validate)
    // Nothing found is the empty default, never an error.
    ensures o.Default? <==> !Found(customPath, present) && !present(ProjectRootPath) && !present(HiddenDirPath)
    ensures o.Default? ==> o.manifest.version == "1.0" && o.manifest.tasks == map[]
  {
    SearchPathsInOrder(customPath, present, parse, validate);
    Search(SearchPaths(customPath), present, parse, validate)
  }

  /** The resolver written as the loop over the candidate list that the
      program runs: skip, skip, ..., then commit to the first present
      candidate, or fall through to the empty default. */
  method LoadManifestLoop<T>(customPath: Path, present: Path -> bool, parse: Path -> Parsed<T>,
                             validate: Manifest<T> -> Check) returns (o: Outcome<T>)
    ensures o == LoadManifest(customPath, present, parse, validate)
  {
    var searchPaths := SearchPaths(customPath);
    var k := 0;
    while k < |searchPaths|
      invariant 0 <= k <= |searchPaths|
      invariant forall j | 0 <= j < k :: !Found(searchPaths[j], present)
    {
      var path := searchPaths[k];
      if path == "" {
        k := k + 1;
        continue;
      }
      if !present(path) {
        k := k + 1;
        continue;
      }
      SearchChoosesFirstFound(searchPaths, present, parse, validate, k);
      match parse(path)
      case ParseFail(cause) =>
        return ParseErr(path, cause);
      case ParseOk(manifest) =>
        match validate(manifest)
        case Invalid(cause) =>
          return ValidateErr(path, cause);
        case Valid =>
          return Loaded(manifest);
    }
    o := Default(EmptyManifest());
  }
}
