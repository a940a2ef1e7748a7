/**
 * The two `value_parser`s of the command line (src/main.rs): `parse_param`
 * splits a `--params key:value` argument and `parse_wordlist` a
 * `--wordlist key:path` argument, both at the first `:`.
 */
module CliArgs {
  import opened Wrappers

  /**
   * Position of the first `c` in `s`, as `str::find` with a `char` pattern.
   * Positions are counted in characters, not UTF-8 bytes.
   */
  function FindChar(s: string, c: char): (r: Option<nat>)
    ensures r.None? <==> c !in s
    ensures r.Some? ==> r.value < |s| && s[r.value] == c && c !in s[..r.value]
  {
    if s == [] then None
    else if s[0] == c then Some(0)
    else match FindChar(s[1..], c)
      case None => None
      case Some(i) =>
        assert s[..i + 1] == [s[0]] + s[1..][..i];
        Some(i + 1)
  }

  /** `parse_param`: the key before the first `:`, the value after it. */
  function ParseParam(s: string): (r: Result<(string, string), string>)
    ensures r.Err? <==> ':' !in s
    ensures r.Ok? ==> ':' !in r.value.0 && r.value.0 + ":" + r.value.1 == s
  {
    match FindChar(s, ':')
    case None => Err("Invalid key:value : no : found in " + s)
    case Some(pos) => Ok((s[..pos], s[pos + 1..]))
  }

  /** `parse_wordlist`: the parameter name before the first `:`, the file path after it. */
  function ParseWordlist(s: string): (r: Result<(string, Path), string>)
    ensures r.Err? <==> ':' !in s
    ensures r.Ok? ==> ':' !in r.value.0 && r.value.0 + ":" + r.value.1 == s
  {
    match FindChar(s, ':')
    case None => Err("invalid key, `:` not found in " + s + " ")
    case Some(pos) => Ok((s[..pos], s[pos + 1..]))
  }

  /** The `:` that joins a colon-free key to its value is the first one of the whole text. */
  lemma {:induction false} FindCharAfterKey(key: string, rest: string)
    requires ':' !in key
    ensures FindChar(key + ":" + rest, ':') == Some(|key|)
  {
    var s := key + ":" + rest;
    if key == [] {
      assert s[0] == ':';
    } else {
      assert s[1..] == key[1..] + ":" + rest;
      FindCharAfterKey(key[1..], rest);
    }
  }

  /**
   * Splitting is the inverse of joining: any colon-free key joined to any
   * value (colons allowed) by `:` parses back to that key and value.
   */
  lemma ParseParamJoin(key: string, value: string)
    requires ':' !in key
    ensures ParseParam(key + ":" + value) == Ok((key, value))
  {
    var s := key + ":" + value;
    FindCharAfterKey(key, value);
    assert s[..|key|] == key;
    assert s[|key| + 1..] == value;
  }

  /** The value may itself hold `:`; only the first one splits. */
  lemma ParseParamKeepsLaterColons()
    ensures ParseParam("a:b:c") == Ok(("a", "b:c"))
  {
    ParseParamJoin("a", "b:c");
    assert "a" + ":" + "b:c" == "a:b:c";
  }

  /** `parse_wordlist` splits exactly where `parse_param` does and fails exactly when it does. */
  lemma ParseWordlistAgrees(s: string)
    ensures ParseWordlist(s).Ok? <==> ParseParam(s).Ok?
    ensures ParseWordlist(s).Ok? ==> ParseWordlist(s).value == ParseParam(s).value
  {
  }
}
