/**
 * The wordlist container (src/wordlist.rs): an ordered list of
 * (parameter name, candidate values) entries, loaded one file per entry.
 * Opening and reading files is the `FileSystem` oracle passed in.
 */
module Wordlists {
  import opened Wrappers

  /** One wordlist entry: a parameter name and its values in file order. */
  type Entry = (string, seq<string>)

  /** The `std::io::Error` a failed open or read yields; its kind is kept as text. */
  datatype IoError = IoError(kind: string)

  /** One item of `BufRead::lines`: the line's text, or the error reading it (invalid UTF-8, say). */
  type LineRead = Result<string, IoError>

  /**
   * The file system as `read_file` sees it: opening `path` fails, or
   * yields the file's line reads in order.
   */
  type FileSystem = Path -> Result<seq<LineRead>, IoError>

  /** `filter_map(Result::ok)`: the lines that were read, in order; failed reads are dropped. */
  function KeepOk(items: seq<LineRead>): (lines: seq<string>)
    ensures |lines| <= |items|
    ensures forall l :: l in lines ==> Ok(l) in items
  {
    if items == [] then []
    else (if items[0].Ok? then [items[0].value] else []) + KeepOk(items[1..])
  }

  /** `read_file` followed by `collect`: the open error, or the lines that were read. */
  function ReadFile(fs: FileSystem, path: Path): (r: Result<seq<string>, IoError>)
    ensures r.Err? <==> fs(path).Err?
    ensures r.Err? ==> r.error == fs(path).error
    ensures r.Ok? ==> r.value == KeepOk(fs(path).value)
  {
    match fs(path)
    case Err(e) => Err(e)
    case Ok(items) => Ok(KeepOk(items))
  }

  /** Every file named by `args` opens. */
  predicate AllOpen(fs: FileSystem, args: seq<(string, Path)>) {
    forall i :: 0 <= i < |args| ==> fs(args[i].1).Ok?
  }

  /**
   * The `map`/`collect::<Result<Vec<_>, _>>` pipeline of `from`, run in
   * input order: one entry per argument, or an error as soon as one file
   * fails to open.
   */
  function LoadAll(fs: FileSystem, args: seq<(string, Path)>): (r: Result<seq<Entry>, IoError>)
    ensures r.Ok? <==> AllOpen(fs, args)
    ensures r.Ok? ==> |r.value| == |args|
    ensures r.Ok? ==> forall i :: 0 <= i < |args| ==>
      r.value[i] == (args[i].0, KeepOk(fs(args[i].1).value))
    ensures r.Err? ==> exists i :: 0 <= i < |args| && fs(args[i].1) == Err(r.error)
  {
    if args == [] then Ok([])
    else match ReadFile(fs, args[0].1)
      case Err(e) => Err(e)
      case Ok(lines) =>
        match LoadAll(fs, args[1..])
        case Err(e) => Err(e)
        case Ok(rest) => Ok([(args[0].0, lines)] + rest)
  }

  /** Line order is kept: the lines of two stretches of reads are those of each, one after the other. */
  lemma {:induction false} KeepOkAppend(a: seq<LineRead>, b: seq<LineRead>)
    ensures KeepOk(a + b) == KeepOk(a) + KeepOk(b)
  {
    if a != [] {
      assert (a + b)[0] == a[0];
      assert (a + b)[1..] == a[1..] + b;
      KeepOkAppend(a[1..], b);
      var head := if a[0].Ok? then [a[0].value] else [];
      calc {
        KeepOk(a + b);
        head + KeepOk(a[1..] + b);
        head + (KeepOk(a[1..]) + KeepOk(b));
        (head + KeepOk(a[1..])) + KeepOk(b);
      }
    } else {
      assert a + b == b;
    }
  }

  /** When every line reads, no line is lost: blank lines are values like any other. */
  lemma {:induction false} KeepOkAllRead(items: seq<LineRead>)
    requires forall i :: 0 <= i < |items| ==> items[i].Ok?
    ensures |KeepOk(items)| == |items|
    ensures forall i :: 0 <= i < |items| ==> KeepOk(items)[i] == items[i].value
  {
    if items != [] {
      KeepOkAllRead(items[1..]);
    }
  }

  /** Loading no files succeeds with no entries. */
  lemma LoadAllEmpty(fs: FileSystem)
    ensures LoadAll(fs, []) == Ok([])
  {
  }

  /** Duplicate names are kept as separate entries, each with its own file's lines. */
  lemma LoadAllKeepsDuplicates(fs: FileSystem, name: string, p: Path, q: Path)
    requires fs(p).Ok? && fs(q).Ok?
    ensures LoadAll(fs, [(name, p), (name, q)]).Ok?
    ensures LoadAll(fs, [(name, p), (name, q)]).value
      == [(name, KeepOk(fs(p).value)), (name, KeepOk(fs(q).value))]
  {
  }

  /** `Wordlist`: the loaded entries, in input order. */
  class Wordlist {
    var data: seq<Entry>

    /** `Wordlist::new`: no entries. */
    constructor ()
      ensures data == []
    {
      data := [];
    }

    /** `add`: appends one entry after the existing ones. */
    method Add(key: string, value: seq<string>)
      modifies this
      ensures data == old(data) + [(key, value)]
    {
      data := data + [(key, value)];
    }

    /**
     * `from`: one entry per (name, path) argument, in argument order, holding
     * the lines read from that path; if any file fails to open, the error of
     * one failing file and no wordlist.
     */
    static method From(fs: FileSystem, args: seq<(string, Path)>) returns (r: Result<Wordlist, IoError>)
      ensures r.Ok? <==> AllOpen(fs, args)
      ensures r.Ok? ==> fresh(r.value) && r.value.data == LoadAll(fs, args).value
      ensures r.Err? ==> exists i :: 0 <= i < |args| && fs(args[i].1) == Err(r.error)
    {
      var wordList := new Wordlist();
      var loaded := LoadAll(fs, args);
      if loaded.Err? {
        return Err(loaded.error);
      }
      wordList.data := loaded.value;
      return Ok(wordList);
    }
  }
}
