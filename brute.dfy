/**
 * The body of `main` (src/main.rs) once the command line is parsed: load
 * the wordlists, compute the combinations, pick the builder from the method
 * table, and decide on ONE request carrying the literal `--params`.
 */
module Brute {
  import opened Wrappers
  import opened HttpMethod
  import opened Wordlists
  import opened Combination

  /** How one run ends, short of building and executing the request. */
  datatype Outcome =
    | LoadPanic(error: IoError)
      // `Wordlist::from(..).unwrap()` on a file that cannot be opened
    | UnsupportedMethod(name: string)
      // the diagnostic naming the method, then `exit(1)`
    | SendOne(verb: Verb, placement: Placement, url: string, params: seq<Pair>)
      // the request `main` decides on: verb, placement, URL and parameters

  /**
   * `main` after `Cli::parse`: a load failure panics before the method is
   * looked at; the combinations are computed but not used, so the request
   * decided on carries the literal parameters whatever the wordlists hold
   * (`build().unwrap()` on an unparsable URL is not modelled).
   */
  method Run(fs: FileSystem, url: string, name: string, params: seq<Pair>, wordlist: seq<(string, Path)>)
    returns (outcome: Outcome)
    ensures outcome.LoadPanic? <==> !AllOpen(fs, wordlist)
    ensures outcome.LoadPanic? ==> exists i :: 0 <= i < |wordlist| && fs(wordlist[i].1) == Err(outcome.error)
    ensures outcome.UnsupportedMethod? <==> AllOpen(fs, wordlist) && RouteOf(name) == Unsupported
    ensures outcome.UnsupportedMethod? ==> outcome.name == name
    ensures outcome.SendOne? ==>
      RouteOf(name) == Send(outcome.verb, outcome.placement) && outcome.url == url && outcome.params == params
  {
    var loaded := Wordlist.From(fs, wordlist);
    if loaded.Err? {
      return LoadPanic(loaded.error);
    }
    var combinations := ParamCombination(loaded.value.data, 0, []);
    match RouteOf(name)
    case Unsupported =>
      return UnsupportedMethod(name);
    case Send(verb, placement) =>
      return SendOne(verb, placement, url, params);
  }
}
