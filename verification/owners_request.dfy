/**
 * `OwnersRequest.validate`: the `--owner-of` arguments may name files only;
 * an argument with a comma (a mistaken attempt at listing several files) or
 * with a glob is refused, commas being reported first.
 */
module OwnersRequests {
  import opened Wrappers
  import opened Collections

  /** `InvalidOwnersOfArgs`, with the offending arguments it quotes, in argument order. */
  datatype InvalidOwnersOfArgs =
    | CommasInSources(offenders: seq<string>)
    | GlobsInSources(offenders: seq<string>)

  /** `[source for source in sources if c in source]`. */
  function SourcesContaining(sources: seq<string>, c: char): (r: seq<string>)
    ensures forall s :: s in r <==> s in sources && c in s
    ensures |r| <= |sources|
    ensures r == [] <==> forall s :: s in sources ==> c !in s
  {
    if sources == [] then []
    else
      var rest := SourcesContaining(sources[1..], c);
      assert forall s :: s in sources <==> s == sources[0] || s in sources[1..];
      if c in sources[0] then [sources[0]] + rest else rest
  }

  /** The filter keeps the arguments' order: it is a subsequence of the arguments. */
  lemma {:induction false} SourcesContainingIsSubsequence(sources: seq<string>, c: char)
    ensures SubsequenceOf(SourcesContaining(sources, c), sources)
  {
    if sources != [] {
      SourcesContainingIsSubsequence(sources[1..], c);
    }
  }

  /**
   * `validate`: refuse arguments with commas, then arguments with globs;
   * otherwise accept.
   */
  function Validate(sources: seq<string>): (r: Outcome<InvalidOwnersOfArgs>)
    ensures r.Pass? <==> forall s :: s in sources ==> ',' !in s && '*' !in s
    ensures r.Fail? && r.error.CommasInSources? <==> exists s :: s in sources && ',' in s
    ensures r.Fail? && r.error.GlobsInSources? <==>
      (forall s :: s in sources ==> ',' !in s) && exists s :: s in sources && '*' in s
    ensures r.Fail? ==> r.error.offenders != []
    ensures r.Fail? && r.error.CommasInSources? ==> (forall s :: s in r.error.offenders <==> s in sources && ',' in s)
    ensures r.Fail? && r.error.GlobsInSources? ==> (forall s :: s in r.error.offenders <==> s in sources && '*' in s)
  {
    var withCommas := SourcesContaining(sources, ',');
    if withCommas != [] then Fail(CommasInSources(withCommas))
    else
      var withGlobs := SourcesContaining(sources, '*');
      if withGlobs != [] then Fail(GlobsInSources(withGlobs))
      else Pass
  }
}
