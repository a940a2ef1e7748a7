/**
 * The method table of `main` (src/main.rs): the `--method` text, lowercased,
 * picks the HTTP verb the request is built with and where the literal
 * parameters go; any other text ends the run.
 */
module HttpMethod {

  /** The `reqwest` builders `main` calls: `client.get` or `client.post`. */
  datatype Verb = Get | Post

  /** Where the parameters are encoded: `.query(..)` (URL query string) or `.form(..)` (urlencoded body). */
  datatype Placement = Query | Form

  /** The decision for one method text; `Unsupported` is the diagnostic and `exit(1)` branch. */
  datatype Route = Send(verb: Verb, placement: Placement) | Unsupported

  predicate IsAsciiUpper(c: char) {
    'A' <= c <= 'Z'
  }

  function LowerChar(c: char): char {
    if IsAsciiUpper(c) then (c as int + 32) as char else c
  }

  /** ASCII lowercasing: `A`-`Z` become `a`-`z`, every other character stays. */
  function ToAsciiLower(s: string): (r: string)
    ensures |r| == |s|
    ensures forall i :: 0 <= i < |s| ==> !IsAsciiUpper(r[i])
    ensures forall i :: 0 <= i < |s| && IsAsciiUpper(s[i]) ==> r[i] as int == s[i] as int + 32
    ensures forall i :: 0 <= i < |s| && !IsAsciiUpper(s[i]) ==> r[i] == s[i]
  {
    seq(|s|, i requires 0 <= i < |s| => LowerChar(s[i]))
  }

  /** The `match` on `cli.method.to_lowercase()`. */
  function RouteOf(name: string): (r: Route)
    ensures r.Send? <==> ToAsciiLower(name) in {"get", "post", "put", "delete"}
    ensures r.Send? ==> (r.verb == Get <==> ToAsciiLower(name) == "get")
    ensures r.Send? ==> (r.placement == Query <==> ToAsciiLower(name) in {"get", "delete"})
  {
    var m := ToAsciiLower(name);
    if m == "get" then Send(Get, Query)
    else if m == "post" then Send(Post, Form)
    else if m == "put" then Send(Post, Form)
    else if m == "delete" then Send(Post, Query)
    else Unsupported
  }

  /** Lowercasing twice changes nothing more. */
  lemma ToAsciiLowerIdempotent(s: string)
    ensures ToAsciiLower(ToAsciiLower(s)) == ToAsciiLower(s)
  {
  }

  /** The table is case-insensitive: a name and its lowercase form are routed alike. */
  lemma RouteOfIgnoresCase(name: string)
    ensures RouteOf(ToAsciiLower(name)) == RouteOf(name)
  {
  }

  /** `GET` in any case: a GET request with the parameters in the query string. */
  lemma RouteGet()
    ensures RouteOf("GET") == Send(Get, Query)
  {
  }

  /** `PUT` goes through the POST builder with a form body, as `post` does. */
  lemma RoutePut()
    ensures RouteOf("Put") == Send(Post, Form) == RouteOf("post")
  {
    assert ToAsciiLower("Put") == "put";
    assert ToAsciiLower("post") == "post";
  }

  /** `DELETE` goes through the POST builder with the parameters in the query string. */
  lemma RouteDelete()
    ensures RouteOf("DELETE") == Send(Post, Query)
  {
  }

  /** A method outside the table, such as `PATCH`, is rejected. */
  lemma RoutePatch()
    ensures RouteOf("PATCH") == Unsupported
  {
  }
}
