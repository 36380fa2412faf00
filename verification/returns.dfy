/** The resolver's three-part answer as the program hands it to its caller:
    a manifest that may be absent, a flag saying whether a file was loaded,
    and an error that may be absent.  The error keeps the failing path and
    the collaborator's failure it wraps; the message wording is not
    modelled. */
module Returns {
  import opened Manifests
  import opened Loader

  datatype Option<T> = None | Some(value: T)

  /** The two error kinds, each carrying the path of the failing candidate. */
  datatype LoadError = ParseError(path: Path, cause: string) | ValidationError(path: Path, cause: string)

  datatype Returned<T> = Returned(manifest: Option<Manifest<T>>, loaded: bool, err: Option<LoadError>)

  /** The three parts stay consistent with each other: an error comes with
      no manifest and `loaded` false, no error comes with a manifest, and
      `loaded` is true only when no error is returned. */
  ghost predicate Consistent<T>(r: Returned<T>)
  {
    && (r.err.Some? ==> r.manifest.None? && !r.loaded)
    && (r.err.None? ==> r.manifest.Some?)
  }

  /** Spread an outcome over the three return values. */
  function ToReturned<T>(o: Outcome<T>): (r: Returned<T>)
    ensures Consistent(r)
    ensures r.loaded <==> o.Loaded?
    ensures r.err.Some? <==> o.IsError()
    ensures r.manifest.Some? ==> r.manifest.value == o.manifest
    // Nothing is lost: the outcome can be read back from the three values.
    ensures FromReturned(r) == Some(o)
  {
    match o
    case Loaded(m) => Returned(Some(m), true, None)
    case Default(m) => Returned(Some(m), false, None)
    case ParseErr(p, c) => Returned(None, false, Some(ParseError(p, c)))
    case ValidateErr(p, c) => Returned(None, false, Some(ValidationError(p, c)))
  }

  /** Read an outcome back from three return values; a combination the
      resolver never produces has no outcome. */
  function FromReturned<T>(r: Returned<T>): (o: Option<Outcome<T>>)
    ensures o.Some? <==> Consistent(r)
  {
    match r
    case Returned(Some(m), true, None) => Some(Loaded(m))
    case Returned(Some(m), false, None) => Some(Default(m))
    case Returned(None, false, Some(ParseError(p, c))) => Some(ParseErr(p, c))
    case Returned(None, false, Some(ValidationError(p, c))) => Some(ValidateErr(p, c))
    case _ => None
  }

  /** A consistent triple reads back to an outcome that spreads back to
      the very same triple. */
  lemma ConsistentRoundTrip<T>(r: Returned<T>)
    requires Consistent(r)
    ensures FromReturned(r).Some? && ToReturned(FromReturned(r).value) == r
  {
  }

  /** The resolver as the program's callers see it. */
  function LoadManifestReturned<T>(customPath: Path, present: Path -> bool, parse: Path -> Parsed<T>,
                                   validate: Manifest<T> -> Check): (r: Returned<T>)
    ensures Consistent(r)
    // Nothing found: the empty manifest, not loaded, no error.
    ensures !Found(customPath, present) && !present(ProjectRootPath) && !present(HiddenDirPath)
            ==> r == Returned(Some(Manifest("1.0", map[])), false, None)
    // The first candidate found fails to parse: an error naming exactly it.
    ensures forall i | IsFirstFound(SearchPaths(customPath), present, i) ::
              parse(SearchPaths(customPath)[i]).ParseFail? ==>
                r == Returned(None, false,
                              Some(ParseError(SearchPaths(customPath)[i], parse(SearchPaths(customPath)[i]).cause)))
    // It parses but fails validation: an error naming exactly it.
    ensures forall i | IsFirstFound(SearchPaths(customPath), present, i) ::
              parse(SearchPaths(customPath)[i]).ParseOk? &&
              validate(parse(SearchPaths(customPath)[i]).manifest).Invalid? ==>
                r == Returned(None, false,
                              Some(ValidationError(SearchPaths(customPath)[i],
                                                   validate(parse(SearchPaths(customPath)[i]).manifest).cause)))
    // It parses and validates: exactly the parsed manifest, loaded.
    ensures forall i | IsFirstFound(SearchPaths(customPath), present, i) ::
              parse(SearchPaths(customPath)[i]).ParseOk? &&
              validate(parse(SearchPaths(customPath)[i]).manifest).Valid? ==>
                r == Returned(Some(parse(SearchPaths(customPath)[i]).manifest), true, None)
  {
    SearchPathsInOrder(customPath, present, parse, validate);
    ToReturned(LoadManifest(customPath, present, parse, validate))
  }
}
