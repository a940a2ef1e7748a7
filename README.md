# brutforce-testing, modelled in Dafny

A model of the pure and stateful core of `brutforce-testing`, a command-line
tool that sends one HTTP request built from command-line parameters; wordlist
files are loaded and expanded but not used. The model covers:

- the two `key:value` splitters that parse `--params` and `--wordlist`
  arguments (`parse_param`, `parse_wordlist`);
- the method table that maps the `--method` text to the `reqwest` builder and
  to where the parameters go (query string or form body);
- the `Wordlist` container (`new`, `add`, `from`), with file reading as an
  oracle;
- the cartesian-product generator `param_combination`, exactly as written,
  together with the one-pair-per-key version it was evidently meant to be;
- the body of `main` after argument parsing, which ties the pieces together.

Files: `wrappers.dfy` (Option/Result), `cli_args.dfy`, `http_method.dfy`,
`wordlist.dfy`, `combination.dfy`, `brute.dfy` (one module each).

Three behaviours of the code are easy to misread:

- `main` computes the combinations and then ignores them. It sends ONE request
  built from the literal `--params`. There is no per-combination fan-out and no
  ordered collection of results (`Brute.Run`).
- The generator does not build one `(key, value)` per key. The push at
  src/main.rs:86 is never undone, so every output carries all values of a key up
  to the chosen one (see Findings).
- `put` and `delete` both go through `client.post`. `put` sends a form body and
  `delete` sends a query string, so no request is sent with the PUT or DELETE
  verb. The model keeps this table as written.

The generator is specified against an odometer enumeration of index tuples
(`Combination.Odometer`). The first entry varies slowest. The method
`ParamCombination` mirrors the source's loop and recursion: it pushes onto a
running `current` and appends each recursive result. Its postcondition ties
the output to the expansion of each odometer tuple. The lemmas prove the
count, the order, coverage and the shape of each output.

## Model

| member | source | states |
|---|---|---|
| `CliArgs.FindChar` | src/main.rs:59-61 | `find(':')` is None exactly when there is no `:`; otherwise it is the position of a `:` with none before it |
| `CliArgs.FindCharAfterKey` | src/main.rs:59-61 | in `key + ":" + rest` with a colon-free key, the first `:` is at position `|key|` |
| `CliArgs.ParseParam` | src/main.rs:58-64 | errors exactly when the input has no `:`; on success the key has no `:` and key + ":" + value rebuilds the input |
| `CliArgs.ParseParamJoin` | src/main.rs:58-64 | round trip the other way: a colon-free key joined to any value by `:` parses back to that key and value |
| `CliArgs.ParseParamKeepsLaterColons` | src/main.rs:63 | only the first `:` splits; `a:b:c` gives key `a` and value `b:c` |
| `CliArgs.ParseWordlist` | src/main.rs:66-71 | errors exactly when there is no `:`; on success the name has no `:` and name + ":" + path rebuilds the input |
| `CliArgs.ParseWordlistAgrees` | src/main.rs:58-71 | `parse_wordlist` fails exactly when `parse_param` does and splits at the same place |
| `HttpMethod.ToAsciiLower` | src/main.rs:35 | same length, no upper-case ASCII letter left, `A`-`Z` shifted to `a`-`z`, every other character kept |
| `HttpMethod.RouteOf` | src/main.rs:35-47 | a request is built exactly for get/post/put/delete after lowercasing; only `get` uses the GET builder; the query string is used exactly for get and delete |
| `HttpMethod.ToAsciiLowerIdempotent` | src/main.rs:35 | lowercasing twice is lowercasing once |
| `HttpMethod.RouteOfIgnoresCase` | src/main.rs:35 | a method name and its lowercase form get the same route |
| `HttpMethod.RouteGet` | src/main.rs:36 | `GET` is a GET request with a query string |
| `HttpMethod.RoutePut` | src/main.rs:37-38 | `Put` and `post` both become POST with a form body |
| `HttpMethod.RouteDelete` | src/main.rs:39 | `DELETE` becomes POST with a query string |
| `HttpMethod.RoutePatch` | src/main.rs:40-46 | `PATCH` is rejected |
| `Wordlists.KeepOk` | src/wordlist.rs:43 | keeps no more lines than were read, and every kept line was read successfully |
| `Wordlists.KeepOkAppend` | src/wordlist.rs:43 | line order is kept: filtering two stretches of reads is filtering each, concatenated |
| `Wordlists.KeepOkAllRead` | src/wordlist.rs:43 | when every line reads, every line is kept in file order, blank lines included |
| `Wordlists.ReadFile` | src/wordlist.rs:36-44 | fails with the open error exactly when the file cannot be opened; otherwise gives the lines that read successfully, for a line stream that ends |
| `Wordlists.LoadAll` | src/wordlist.rs:25-31 | succeeds exactly when every file opens; then one entry per argument, in argument order, with that argument's name and its file's lines; on failure the error is that of a file that failed to open |
| `Wordlists.LoadAllEmpty` | src/wordlist.rs:23-33 | loading no files succeeds with no entries |
| `Wordlists.LoadAllKeepsDuplicates` | src/wordlist.rs:25-31 | two arguments with the same name give two entries, each with its own file's lines |
| `Wordlists.Wordlist.constructor` | src/wordlist.rs:15-17 | a new wordlist has no entries |
| `Wordlists.Wordlist.Add` | src/wordlist.rs:19-21 | the entry goes last and the earlier entries are unchanged |
| `Wordlists.Wordlist.From` | src/wordlist.rs:23-34 | a fresh wordlist exactly when every file opens, holding the loaded entries; otherwise no wordlist and the error of a failing file |
| `Combination.Odometer` | src/main.rs:78-90 | the tuples number the product of the sizes, and each picks an in-range index at every position |
| `Combination.ProductZero` | src/main.rs:85-90 | the product of the sizes is 0 exactly when some size is 0 |
| `Combination.OdometerSorted` | src/main.rs:85-88 | the tuples come in strictly increasing lexicographic order, with the first position slowest |
| `Combination.OdometerComplete` | src/main.rs:85-88 | every in-range index tuple is enumerated |
| `Combination.OdometerTwoByTwo` | src/main.rs:85-88 | for two lists of two values the order is (0,0), (0,1), (1,0), (1,1) |
| `Combination.ParamCombination` | src/main.rs:73-91 | returns the expansion of each odometer tuple, in order; their number is the product of the remaining sizes, and with no entries left it is `[current]` |
| `Combination.CombinationsEnumerate` | src/main.rs:73-91 | output k is the expansion of odometer tuple k, the tuples strictly increase, and the count is the product of the sizes |
| `Combination.CombinationsNoEntries` | src/main.rs:78-80 | when `index == params.len()` the result is exactly one output, equal to `current` |
| `Combination.CombinationsEmpty` | src/main.rs:85-90 | there is no output exactly when some remaining entry has no values |
| `Combination.CombinationsCover` | src/main.rs:82-88 | the output for every in-range choice of value indices is present |
| `Combination.ExpandShape` | src/main.rs:85-87 | each output starts with `current` and adds `t[j] + 1` pairs for entry j |
| `Combination.ExpandBlock` | src/main.rs:85-87 | block j of an output holds entry j's key with its values `0..=t[j]`, and its last pair holds the chosen value |
| `Combination.ExpandIsChosenIff` | src/main.rs:86 | an output equals `current` plus one pair per key exactly when every entry's first value is chosen |
| `Combination.ExpandBlockEndsAreChosen` | src/main.rs:86 | the last pair of block j is the one-pair-per-key choice for entry j |
| `Combination.ParamCombinationOnePerKey` | src/main.rs:73-91 | corrected generator: `current` plus one chosen pair per remaining entry, in odometer order, with product-of-sizes outputs |
| `Combination.OnePerKeyNoEntries` | src/main.rs:78-80 | the corrected generator with no entries left also gives exactly `[current]` |
| `Combination.OnePerKeyShape` | src/main.rs:82-88 | each corrected output is `current` and then exactly one pair per remaining entry, with that entry's key and one of its values |
| `Combination.WrittenAgreesWithOnePerKey` | src/main.rs:86 | as-written and corrected outputs come in the same number and order, and the corrected pair j is the last pair of block j of the as-written output |
| `Combination.TwoByTwoExample` | src/main.rs:86 | with A=[a1,a2] and B=[b1,b2] the third output is (A,a1),(A,a2),(B,b1) as written, where (A,a2),(B,b1) was intended |
| `Brute.Run` | src/main.rs:32-47 | a load failure ends the run first; otherwise an unsupported method ends it; otherwise the request is decided with the table's verb and placement, the URL and the literal parameters |

## Findings

| source | as written | input that shows it | evidently intended | confidence | as-written member | corrected member |
|---|---|---|---|---|---|---|
| src/main.rs:86 | `current.push(..)` is never undone, so each output keeps every earlier value of the same key | entries A=[a1,a2], B=[b1,b2]; the third output is (A,a1),(A,a2),(B,b1) | one pair per key, (A,a2),(B,b1), as the name `param_combination` and the odometer loop suggest | high; not executed | `Combination.TwoByTwoExample` | `Combination.ParamCombinationOnePerKey` |

`Brute.Run` calls the as-written `ParamCombination`, as `main` does. `main`
discards the result, so no other member depends on which generator is used.

## Left out

- Command-line parsing (`Cli`, `Cli::parse`) comes from the `clap` library. `Brute.Run` takes the parsed URL, method text, `--params` pairs and `--wordlist` pairs as inputs.
- The `reqwest` client is left out: building it, `.query`/`.form` encoding, `build()`, `execute(..).await` and printing the status or error. These are network I/O and a foreign library. The model stops at the decision of verb, placement, URL and parameters.
- The `tokio` runtime is left out. `main` sends one request and awaits nothing else.
- `eprintln!` and `std::process::exit(1)` become the `Unsupported` route and the `UnsupportedMethod` outcome. The panic of `unwrap()` at src/main.rs:32 becomes the `LoadPanic` outcome.
- Brute.Run: `request_builder.build().unwrap()` (src/main.rs:48) panics when reqwest cannot parse the URL (for example `not-a-url`), so no request is built or sent. URL parsing is not modelled, and `SendOne` does not capture this panic; it records only the decision of verb, placement, URL and parameters.
- File access (`File::open`, `BufReader`, `lines()`) is the `FileSystem` oracle. It gives an open error, or each line's text or read error in order. Line-terminator stripping happens inside the oracle.
- Wordlists.ReadFile: the oracle's line stream is a finite sequence, so `ReadFile`, `LoadAll` and `From` always return. In the source the stream can fail to end. A path can open and then fail on every read; a directory on Linux is one example. Then `lines()` yields an error forever, `filter_map(Result::ok)` never yields an item, and the `collect` at src/wordlist.rs:28 never finishes, so `from` and `main` hang. The model does not capture this non-termination.
- Rayon's `par_iter` is modelled as a sequential, order-preserving map. The indexed `collect` keeps input order, so the entries agree.
- Wordlists.Wordlist.From: when several files fail, the parallel `collect` may report any of their errors. The contract promises only the error of some failing file. `LoadAll` happens to pick the first.
- HttpMethod.ToAsciiLower: Rust's `to_lowercase` is Unicode-aware; the model lowercases ASCII only. The routing decision is unaffected. Outside ASCII, the only characters that lowercase into ASCII letters are the Kelvin sign (to `k`) and dotted capital I (to `i` plus a combining dot). Neither letter occurs in `get`, `post`, `put` or `delete`.
- CliArgs.FindChar: positions count characters, not UTF-8 bytes as in Rust. The slices before and after the `:` are the same either way.
- Combination.ParamCombination: requires `index <= params.len()`. A larger index would panic at `params[index]`, and the only caller passes 0.
- Integer widths (`usize`) are unbounded in the model. Eager materialisation of the product and its memory use are not modelled.
