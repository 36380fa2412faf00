/** Properties of the resolver that relate several calls: which candidate
    is chosen, and which answers of the outside world can never influence
    the result. */
module LoaderProperties {
  import opened Manifests
  import opened Loader

  /** When something is found, there is a first such candidate, so the
      search is decided by exactly one index. */
  lemma {:induction false} FirstFoundExists(paths: seq<Path>, present: Path -> bool)
    requires !NoneFound(paths, present)
    ensures exists i :: IsFirstFound(paths, present, i)
    decreases |paths|
  {
    if Found(paths[0], present) {
      assert IsFirstFound(paths, present, 0);
    } else {
      assert !NoneFound(paths[1..], present) by {
        var j :| 0 <= j < |paths| && Found(paths[j], present);
        assert paths[1..][j - 1] == paths[j];
      }
      FirstFoundExists(paths[1..], present);
      var i :| IsFirstFound(paths[1..], present, i);
      assert IsFirstFound(paths, present, i + 1);
    }
  }

  /** Every search ends in one of two ways: the empty default when nothing
      is found, or the parse-then-validate verdict on the first candidate
      found. */
  lemma SearchCases<T>(paths: seq<Path>, present: Path -> bool, parse: Path -> Parsed<T>,
                       validate: Manifest<T> -> Check)
    ensures NoneFound(paths, present) ==> Search(paths, present, parse, validate) == Default(EmptyManifest())
    ensures !NoneFound(paths, present) ==>
              exists i :: IsFirstFound(paths, present, i)
                          && Search(paths, present, parse, validate) == Commit(paths[i], parse, validate)
  {
    if !NoneFound(paths, present) {
      FirstFoundExists(paths, present);
      var i :| IsFirstFound(paths, present, i);
      SearchChoosesFirstFound(paths, present, parse, validate, i);
    }
  }

  /** Candidates after the first one found are never consulted: the
      search over the candidates up to and including it, with every later
      one dropped, gives the same result. */
  lemma LaterCandidatesIgnored<T>(paths: seq<Path>, present: Path -> bool, parse: Path -> Parsed<T>,
                                  validate: Manifest<T> -> Check, i: nat)
    requires IsFirstFound(paths, present, i)
    ensures Search(paths[..i + 1], present, parse, validate) == Search(paths, present, parse, validate)
  {
    assert IsFirstFound(paths[..i + 1], present, i);
    SearchChoosesFirstFound(paths, present, parse, validate, i);
    SearchChoosesFirstFound(paths[..i + 1], present, parse, validate, i);
  }

  /** The outside world is asked about nothing past the chosen candidate:
      existence answers beyond it, parser answers for any other path, and
      validator answers for any other manifest leave the result unchanged.
      So a parse or validation failure of the chosen candidate is final. */
  lemma OraclesIgnoredPastChoice<T>(paths: seq<Path>, present: Path -> bool, parse: Path -> Parsed<T>,
                                    validate: Manifest<T> -> Check, i: nat,
                                    present2: Path -> bool, parse2: Path -> Parsed<T>,
                                    validate2: Manifest<T> -> Check)
    requires IsFirstFound(paths, present, i)
    requires forall j | 0 <= j <= i :: present2(paths[j]) == present(paths[j])
    requires parse2(paths[i]) == parse(paths[i])
    requires parse(paths[i]).ParseOk? ==> validate2(parse(paths[i]).manifest) == validate(parse(paths[i]).manifest)
    ensures Search(paths, present2, parse2, validate2) == Search(paths, present, parse, validate)
  {
    assert IsFirstFound(paths, present2, i);
    SearchChoosesFirstFound(paths, present, parse, validate, i);
    SearchChoosesFirstFound(paths, present2, parse2, validate2, i);
  }

  /** An empty candidate is never probed: what the existence check would
      say about the empty string cannot change the result. */
  lemma {:induction false} EmptyCandidatesNeverProbed<T>(paths: seq<Path>, present: Path -> bool,
                                                        present2: Path -> bool, parse: Path -> Parsed<T>,
                                                        validate: Manifest<T> -> Check)
    requires forall p: Path | p != "" :: present2(p) == present(p)
    ensures Search(paths, present2, parse, validate) == Search(paths, present, parse, validate)
    decreases |paths|
  {
    if |paths| > 0 && !Found(paths[0], present) {
      EmptyCandidatesNeverProbed(paths[1..], present, present2, parse, validate);
    }
  }

  /** Only a candidate that is named and present is ever parsed, and only
      a manifest the parser produced for such a candidate is ever validated:
      the parser's and validator's answers elsewhere cannot change the
      result. */
  lemma {:induction false} AbsentCandidatesNeverParsed<T>(paths: seq<Path>, present: Path -> bool,
                                                         parse: Path -> Parsed<T>, parse2: Path -> Parsed<T>,
                                                         validate: Manifest<T> -> Check,
                                                         validate2: Manifest<T> -> Check)
    requires forall p: Path | Found(p, present) :: parse2(p) == parse(p)
    requires forall p: Path | Found(p, present) && parse(p).ParseOk? ::
               validate2(parse(p).manifest) == validate(parse(p).manifest)
    ensures Search(paths, present, parse2, validate2) == Search(paths, present, parse, validate)
    decreases |paths|
  {
    if |paths| > 0 && !Found(paths[0], present) {
      AbsentCandidatesNeverParsed(paths[1..], present, parse, parse2, validate, validate2);
    }
  }

  /** Success is decided by the chosen candidate alone: the resolver loads
      a file exactly when some candidate is found and the first one found
      both parses and validates, and then hands back what the parser
      produced for it. */
  lemma LoadedIffChosenSucceeds<T>(customPath: Path, present: Path -> bool, parse: Path -> Parsed<T>,
                                   validate: Manifest<T> -> Check)
    ensures LoadManifest(customPath, present, parse, validate).Loaded? <==>
              exists i :: IsFirstFound(SearchPaths(customPath), present, i)
                          && parse(SearchPaths(customPath)[i]).ParseOk?
                          && validate(parse(SearchPaths(customPath)[i]).manifest).Valid?
    ensures forall i | IsFirstFound(SearchPaths(customPath), present, i) ::
              LoadManifest(customPath, present, parse, validate).Loaded? ==>
                LoadManifest(customPath, present, parse, validate).manifest == parse(SearchPaths(customPath)[i]).manifest
  {
    var paths := SearchPaths(customPath);
    assert LoadManifest(customPath, present, parse, validate) == Search(paths, present, parse, validate);
    SearchCases(paths, present, parse, validate);
    forall i | IsFirstFound(paths, present, i)
      ensures Search(paths, present, parse, validate) == Commit(paths[i], parse, validate)
    {
      SearchChoosesFirstFound(paths, present, parse, validate, i);
    }
  }
}
