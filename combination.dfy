/**
 * `param_combination` (src/main.rs): one output per choice of one value per
 * wordlist entry, enumerated like an odometer (the first entry turns
 * slowest). The source pushes each value onto `current` and never pops it,
 * so an output holds, for every entry, ALL values up to the chosen one;
 * `ParamCombination` models that, `ParamCombinationOnePerKey` the one
 * (key, value) pair per entry that was evidently intended.
 */
module Combination {
  import opened Wordlists

  /** A request parameter: a key and one value. */
  type Pair = (string, string)

  // ---------------------------------------------------------------------
  // Index tuples and their odometer enumeration

  /** The number of values of each entry. */
  function Sizes(params: seq<Entry>): (ns: seq<nat>)
    ensures |ns| == |params|
    ensures forall j :: 0 <= j < |params| ==> ns[j] == |params[j].1|
  {
    seq(|params|, j requires 0 <= j < |params| => |params[j].1|)
  }

  function Product(ns: seq<nat>): nat {
    if ns == [] then 1 else ns[0] * Product(ns[1..])
  }

  /** `t` picks one index below `ns[j]` for every position `j`. */
  predicate InRange(t: seq<nat>, ns: seq<nat>) {
    |t| == |ns| && forall j :: 0 <= j < |t| ==> t[j] < ns[j]
  }

  /** Strict lexicographic order on index tuples. */
  predicate LexLess(a: seq<nat>, b: seq<nat>)
    decreases |a|
  {
    a != [] && b != [] && (a[0] < b[0] || (a[0] == b[0] && LexLess(a[1..], b[1..])))
  }

  function PrependAll(i: nat, ts: seq<seq<nat>>): seq<seq<nat>> {
    seq(|ts|, k requires 0 <= k < |ts| => [i] + ts[k])
  }

  /**
   * Every in-range index tuple for `ns`, first position slowest: for each
   * first index in turn, the tuples of the remaining positions.
   */
  function Odometer(ns: seq<nat>): (ts: seq<seq<nat>>)
    decreases |ns|, if ns == [] then 0 else ns[0] + 1
    ensures |ts| == Product(ns)
    ensures forall k :: 0 <= k < |ts| ==> InRange(ts[k], ns)
  {
    if ns == [] then [[]] else Layers(ns, ns[0])
  }

  /** The tuples of `Odometer(ns)` whose first index is below `i`. */
  function Layers(ns: seq<nat>, i: nat): (ts: seq<seq<nat>>)
    requires ns != [] && i <= ns[0]
    decreases |ns|, i
    ensures |ts| == i * Product(ns[1..])
    ensures forall k :: 0 <= k < |ts| ==> InRange(ts[k], ns) && ts[k][0] < i
  {
    if i == 0 then []
    else
      var rest := Odometer(ns[1..]);
      var ts := Layers(ns, i - 1) + PrependAll(i - 1, rest);
      forall k | 0 <= k < |ts|
        ensures InRange(ts[k], ns) && ts[k][0] < i
      {
        if k >= |Layers(ns, i - 1)| {
          var t := rest[k - |Layers(ns, i - 1)|];
          assert ts[k] == [i - 1] + t;
          assert InRange(t, ns[1..]);
        }
      }
      ts
  }

  // ---------------------------------------------------------------------
  // Properties of the enumeration

  /** The count is 0 exactly when some entry has no values. */
  lemma {:induction false} ProductZero(ns: seq<nat>)
    ensures Product(ns) == 0 <==> exists j :: 0 <= j < |ns| && ns[j] == 0
  {
    if ns != [] {
      ProductZero(ns[1..]);
      if Product(ns[1..]) == 0 {
        var j :| 0 <= j < |ns[1..]| && ns[1..][j] == 0;
        assert ns[j + 1] == 0;
      }
      if exists j :: 0 <= j < |ns| && ns[j] == 0 {
        var j :| 0 <= j < |ns| && ns[j] == 0;
        if j > 0 {
          assert ns[1..][j - 1] == 0;
        }
      }
    }
  }

  lemma {:induction false} LexLessPrepend(i: nat, a: seq<nat>, b: seq<nat>)
    requires LexLess(a, b)
    ensures LexLess([i] + a, [i] + b)
  {
  }

  /** Earlier layers come first and each layer is in order. */
  lemma {:induction false} LayersSorted(ns: seq<nat>, i: nat)
    requires ns != [] && i <= ns[0]
    requires forall a, b :: 0 <= a < b < |Odometer(ns[1..])| ==>
      LexLess(Odometer(ns[1..])[a], Odometer(ns[1..])[b])
    ensures forall a, b :: 0 <= a < b < |Layers(ns, i)| ==> LexLess(Layers(ns, i)[a], Layers(ns, i)[b])
    decreases i
  {
    if i > 0 {
      LayersSorted(ns, i - 1);
      var lo := Layers(ns, i - 1);
      var rest := Odometer(ns[1..]);
      var hi := PrependAll(i - 1, rest);
      var ts := Layers(ns, i);
      assert ts == lo + hi;
      forall a, b | 0 <= a < b < |ts|
        ensures LexLess(ts[a], ts[b])
      {
        if b < |lo| {
          assert ts[a] == lo[a] && ts[b] == lo[b];
        } else if a < |lo| {
          assert ts[a] == lo[a] && ts[b] == [i - 1] + rest[b - |lo|];
          assert InRange(rest[b - |lo|], ns[1..]);
          assert lo[a] != [] && lo[a][0] < i - 1;
        } else {
          LexLessPrepend(i - 1, rest[a - |lo|], rest[b - |lo|]);
        }
      }
    }
  }

  /** Odometer order: the tuples come in strictly increasing lexicographic order. */
  lemma {:induction false} OdometerSorted(ns: seq<nat>)
    ensures forall a, b :: 0 <= a < b < |Odometer(ns)| ==> LexLess(Odometer(ns)[a], Odometer(ns)[b])
    decreases |ns|
  {
    if ns != [] {
      OdometerSorted(ns[1..]);
      LayersSorted(ns, ns[0]);
    }
  }

  lemma {:induction false} LayersComplete(ns: seq<nat>, i: nat, t: seq<nat>)
    requires ns != [] && i <= ns[0]
    requires InRange(t, ns) && t[0] < i
    requires t[1..] in Odometer(ns[1..])
    ensures t in Layers(ns, i)
    decreases i
  {
    var rest := Odometer(ns[1..]);
    if t[0] == i - 1 {
      var k :| 0 <= k < |rest| && rest[k] == t[1..];
      assert PrependAll(i - 1, rest)[k] == t;
    } else {
      LayersComplete(ns, i - 1, t);
    }
  }

  /** Nothing is missed: every in-range index tuple is enumerated. */
  lemma {:induction false} OdometerComplete(ns: seq<nat>, t: seq<nat>)
    requires InRange(t, ns)
    ensures t in Odometer(ns)
    decreases |ns|
  {
    if ns == [] {
      assert t == [];
    } else {
      assert InRange(t[1..], ns[1..]);
      OdometerComplete(ns[1..], t[1..]);
      LayersComplete(ns, ns[0], t);
    }
  }

  /** The enumeration order of two lists of two: last position fastest. */
  lemma OdometerTwoByTwo()
    ensures Odometer([2, 2]) == [[0, 0], [0, 1], [1, 0], [1, 1]]
  {
    assert [2, 2][1..] == [2];
    assert [2][1..] == [];
    assert Odometer([]) == [[]];
    assert [0] + [] == [0] && [1] + [] == [1];
    assert [0] + [0] == [0, 0] && [0] + [1] == [0, 1] && [1] + [0] == [1, 0] && [1] + [1] == [1, 1];
    assert PrependAll(0, [[]]) == [[0]];
    assert PrependAll(1, [[]]) == [[1]];
    assert Layers([2], 1) == [[0]];
    assert Layers([2], 2) == [[0], [1]];
    assert Odometer([2]) == [[0], [1]];
    assert PrependAll(0, [[0], [1]]) == [[0, 0], [0, 1]];
    assert PrependAll(1, [[0], [1]]) == [[1, 0], [1, 1]];
    assert Layers([2, 2], 1) == [[0, 0], [0, 1]];
    assert Layers([2, 2], 2) == [[0, 0], [0, 1], [1, 0], [1, 1]];
  }

  // ---------------------------------------------------------------------
  // What one output holds, as the source builds it

  /** The pairs `(key, v)` for each `v` of `vals`, in order. */
  function Pushed(key: string, vals: seq<string>): seq<Pair> {
    seq(|vals|, m requires 0 <= m < |vals| => (key, vals[m]))
  }

  /** The sizes of the entries from `index` on, after the first of them, are those from `index + 1` on. */
  lemma SizesTail(params: seq<Entry>, index: nat)
    requires index < |params|
    ensures Sizes(params[index..])[1..] == Sizes(params[index + 1..])
  {
  }

  /**
   * The output for index tuple `t`: starting from `current`, entry `index + j`
   * contributes the pairs for its values `0..=t[j]`, because every value the
   * loop visits stays pushed on `current`.
   */
  function Expand(params: seq<Entry>, index: nat, current: seq<Pair>, t: seq<nat>): seq<Pair>
    requires index <= |params| && InRange(t, Sizes(params[index..]))
    decreases |t|
  {
    if t == [] then current
    else
      SizesTail(params, index);
      Expand(params, index + 1, current + Pushed(params[index].0, params[index].1[..t[0] + 1]), t[1..])
  }

  predicate AllInRange(ts: seq<seq<nat>>, ns: seq<nat>) {
    forall k :: 0 <= k < |ts| ==> InRange(ts[k], ns)
  }

  function ExpandAll(params: seq<Entry>, index: nat, current: seq<Pair>, ts: seq<seq<nat>>): seq<seq<Pair>>
    requires index <= |params| && AllInRange(ts, Sizes(params[index..]))
  {
    seq(|ts|, k requires 0 <= k < |ts| => Expand(params, index, current, ts[k]))
  }

  /** The result of `param_combination(params, index, current)`: one output per index tuple, in odometer order. */
  function Combinations(params: seq<Entry>, index: nat, current: seq<Pair>): seq<seq<Pair>>
    requires index <= |params|
  {
    ExpandAll(params, index, current, Odometer(Sizes(params[index..])))
  }

  /** One more turn of the loop: the outputs for first index `i` follow those for the smaller ones. */
  lemma ExpandAllStep(params: seq<Entry>, index: nat, current: seq<Pair>, i: nat)
    requires index < |params| && i < |params[index].1|
    ensures ExpandAll(params, index, current, Layers(Sizes(params[index..]), i + 1))
         == ExpandAll(params, index, current, Layers(Sizes(params[index..]), i))
          + Combinations(params, index + 1, current + Pushed(params[index].0, params[index].1[..i + 1]))
  {
    var ns := Sizes(params[index..]);
    SizesTail(params, index);
    var rest := Odometer(ns[1..]);
    var lo := Layers(ns, i);
    var hi := PrependAll(i, rest);
    var next := current + Pushed(params[index].0, params[index].1[..i + 1]);
    var lhs := ExpandAll(params, index, current, Layers(ns, i + 1));
    var rhs := ExpandAll(params, index, current, lo) + Combinations(params, index + 1, next);
    assert Layers(ns, i + 1) == lo + hi;
    forall k | 0 <= k < |lhs|
      ensures lhs[k] == rhs[k]
    {
      if k >= |lo| {
        var t := rest[k - |lo|];
        assert hi[k - |lo|] == [i] + t;
        assert ([i] + t)[1..] == t;
        assert Expand(params, index, current, [i] + t) == Expand(params, index + 1, next, t);
      }
    }
  }

  /**
   * `param_combination`: for each value of entry `index` the loop pushes
   * `(key, value)` onto `current` (never popping it) and appends the
   * outputs for the remaining entries from that `current`.
   */
  method ParamCombination(params: seq<Entry>, index: nat, current: seq<Pair>) returns (out: seq<seq<Pair>>)
    requires index <= |params|
    ensures out == Combinations(params, index, current)
    ensures |out| == Product(Sizes(params[index..]))
    ensures index == |params| ==> out == [current]
    decreases |params| - index
  {
    if index == |params| {
      return [current];
    }
    var key, values := params[index].0, params[index].1;
    ghost var ns := Sizes(params[index..]);
    out := [];
    var cur := current;
    for i := 0 to |values|
      invariant cur == current + Pushed(key, values[..i])
      invariant out == ExpandAll(params, index, current, Layers(ns, i))
    {
      cur := cur + [(key, values[i])];
      assert Pushed(key, values[..i + 1]) == Pushed(key, values[..i]) + [(key, values[i])];
      var sub := ParamCombination(params, index + 1, cur);
      ExpandAllStep(params, index, current, i);
      out := out + sub;
    }
  }

  // ---------------------------------------------------------------------
  // Count, order and coverage of the outputs

  /**
   * The outputs are the expansions of the odometer tuples, one each and in
   * that order: their number is the product of the entries' sizes, and the
   * tuples behind them strictly increase lexicographically.
   */
  lemma CombinationsEnumerate(params: seq<Entry>, index: nat, current: seq<Pair>)
    requires index <= |params|
    ensures |Combinations(params, index, current)| == Product(Sizes(params[index..]))
    ensures forall k :: 0 <= k < |Combinations(params, index, current)| ==>
      Combinations(params, index, current)[k] == Expand(params, index, current, Odometer(Sizes(params[index..]))[k])
    ensures forall a, b :: 0 <= a < b < |Odometer(Sizes(params[index..]))| ==>
      LexLess(Odometer(Sizes(params[index..]))[a], Odometer(Sizes(params[index..]))[b])
  {
    OdometerSorted(Sizes(params[index..]));
  }

  /** No entries left: exactly one output, `current` itself. */
  lemma CombinationsNoEntries(params: seq<Entry>, current: seq<Pair>)
    ensures Combinations(params, |params|, current) == [current]
  {
  }

  /** No output at all exactly when some remaining entry has no values. */
  lemma CombinationsEmpty(params: seq<Entry>, index: nat, current: seq<Pair>)
    requires index <= |params|
    ensures Combinations(params, index, current) == [] <==> exists j :: index <= j < |params| && params[j].1 == []
  {
    var ns := Sizes(params[index..]);
    ProductZero(ns);
    if exists j :: index <= j < |params| && params[j].1 == [] {
      var j :| index <= j < |params| && params[j].1 == [];
      assert ns[j - index] == 0;
    }
    if exists j :: 0 <= j < |ns| && ns[j] == 0 {
      var j :| 0 <= j < |ns| && ns[j] == 0;
      assert params[index + j].1 == [];
    }
  }

  /** Every choice of one value index per remaining entry has its output. */
  lemma CombinationsCover(params: seq<Entry>, index: nat, current: seq<Pair>, t: seq<nat>)
    requires index <= |params| && InRange(t, Sizes(params[index..]))
    ensures Expand(params, index, current, t) in Combinations(params, index, current)
  {
    var ts := Odometer(Sizes(params[index..]));
    OdometerComplete(Sizes(params[index..]), t);
    var k :| 0 <= k < |ts| && ts[k] == t;
    assert Combinations(params, index, current)[k] == Expand(params, index, current, t);
  }

  // ---------------------------------------------------------------------
  // The shape of one output

  /** How many pairs the tuple `t` adds: `t[j] + 1` for every position `j`. */
  function Weight(t: seq<nat>): nat {
    if t == [] then 0 else t[0] + 1 + Weight(t[1..])
  }

  /** An output starts with `current` and adds `t[j] + 1` pairs per entry. */
  lemma {:induction false} ExpandShape(params: seq<Entry>, index: nat, current: seq<Pair>, t: seq<nat>)
    requires index <= |params| && InRange(t, Sizes(params[index..]))
    ensures |Expand(params, index, current, t)| == |current| + Weight(t)
    ensures Expand(params, index, current, t)[..|current|] == current
    decreases |t|
  {
    if t != [] {
      SizesTail(params, index);
      var next := current + Pushed(params[index].0, params[index].1[..t[0] + 1]);
      ExpandShape(params, index + 1, next, t[1..]);
      var r := Expand(params, index, current, t);
      assert r[..|current|] == r[..|next|][..|current|];
    }
  }

  /**
   * Block `j` of an output, which starts after `current` and the earlier
   * blocks, holds entry `index + j`'s key with its values `0..=t[j]`; its
   * last pair carries the chosen value.
   */
  lemma {:induction false} ExpandBlock(params: seq<Entry>, index: nat, current: seq<Pair>, t: seq<nat>, j: nat)
    requires index <= |params| && InRange(t, Sizes(params[index..])) && j < |t|
    ensures |current| + Weight(t[..j]) + t[j] < |Expand(params, index, current, t)|
    ensures Expand(params, index, current, t)[|current| + Weight(t[..j])..][..t[j] + 1]
         == Pushed(params[index + j].0, params[index + j].1[..t[j] + 1])
    ensures Expand(params, index, current, t)[|current| + Weight(t[..j]) + t[j]]
         == (params[index + j].0, params[index + j].1[t[j]])
    decreases j
  {
    SizesTail(params, index);
    var block := Pushed(params[index].0, params[index].1[..t[0] + 1]);
    var next := current + block;
    var r := Expand(params, index, current, t);
    assert r == Expand(params, index + 1, next, t[1..]);
    if j == 0 {
      ExpandShape(params, index + 1, next, t[1..]);
      assert t[..0] == [];
      assert r[|current|..][..t[0] + 1] == r[..|next|][|current|..];
      assert next[|current|..] == block;
    } else {
      ExpandBlock(params, index + 1, next, t[1..], j - 1);
      assert t[..j][0] == t[0] && t[..j][1..] == t[1..][..j - 1];
      assert Weight(t[..j]) == t[0] + 1 + Weight(t[1..][..j - 1]);
      assert t[1..][j - 1] == t[j];
    }
  }

  // ---------------------------------------------------------------------
  // One pair per entry: what the un-popped push departs from

  /** One `(key, value)` pair per remaining entry: the value picked by `t`. */
  function Chosen(params: seq<Entry>, index: nat, t: seq<nat>): seq<Pair>
    requires index <= |params| && InRange(t, Sizes(params[index..]))
  {
    seq(|t|, j requires 0 <= j < |t| => (params[index + j].0, params[index + j].1[t[j]]))
  }

  lemma {:induction false} WeightAtLeastLength(t: seq<nat>)
    ensures Weight(t) >= |t|
    ensures Weight(t) == |t| ==> forall j :: 0 <= j < |t| ==> t[j] == 0
  {
    if t != [] {
      WeightAtLeastLength(t[1..]);
      assert forall j :: 1 <= j < |t| ==> t[j] == t[1..][j - 1];
    }
  }

  lemma {:induction false} ExpandZeros(params: seq<Entry>, index: nat, current: seq<Pair>, t: seq<nat>)
    requires index <= |params| && InRange(t, Sizes(params[index..]))
    requires forall j :: 0 <= j < |t| ==> t[j] == 0
    ensures Expand(params, index, current, t) == current + Chosen(params, index, t)
    decreases |t|
  {
    if t == [] {
      assert Chosen(params, index, t) == [];
    } else {
      SizesTail(params, index);
      var pair := (params[index].0, params[index].1[0]);
      assert Pushed(params[index].0, params[index].1[..t[0] + 1]) == [pair];
      ExpandZeros(params, index + 1, current + [pair], t[1..]);
      assert Chosen(params, index, t) == [pair] + Chosen(params, index + 1, t[1..]);
    }
  }

  /**
   * An output as the source builds it is the one-pair-per-entry parameter
   * set only when every entry's FIRST value is chosen; any later choice
   * drags the earlier values of that entry along.
   */
  lemma ExpandIsChosenIff(params: seq<Entry>, index: nat, current: seq<Pair>, t: seq<nat>)
    requires index <= |params| && InRange(t, Sizes(params[index..]))
    ensures Expand(params, index, current, t) == current + Chosen(params, index, t)
        <==> forall j :: 0 <= j < |t| ==> t[j] == 0
  {
    ExpandShape(params, index, current, t);
    WeightAtLeastLength(t);
    if forall j :: 0 <= j < |t| ==> t[j] == 0 {
      ExpandZeros(params, index, current, t);
    }
  }

  /**
   * The chosen pair of entry `index + j` is the last pair of block `j` of the
   * source's output: the intended parameter set can be read off it.
   */
  lemma ExpandBlockEndsAreChosen(params: seq<Entry>, index: nat, current: seq<Pair>, t: seq<nat>, j: nat)
    requires index <= |params| && InRange(t, Sizes(params[index..])) && j < |t|
    ensures |current| + Weight(t[..j]) + t[j] < |Expand(params, index, current, t)|
    ensures Expand(params, index, current, t)[|current| + Weight(t[..j]) + t[j]] == Chosen(params, index, t)[j]
  {
    ExpandBlock(params, index, current, t, j);
  }

  function ChosenAll(params: seq<Entry>, index: nat, current: seq<Pair>, ts: seq<seq<nat>>): seq<seq<Pair>>
    requires index <= |params| && AllInRange(ts, Sizes(params[index..]))
  {
    seq(|ts|, k requires 0 <= k < |ts| => current + Chosen(params, index, ts[k]))
  }

  /** The evidently intended result: `current` plus one chosen pair per remaining entry, in odometer order. */
  function OnePerKeyCombinations(params: seq<Entry>, index: nat, current: seq<Pair>): seq<seq<Pair>>
    requires index <= |params|
  {
    ChosenAll(params, index, current, Odometer(Sizes(params[index..])))
  }

  lemma ChosenAllStep(params: seq<Entry>, index: nat, current: seq<Pair>, i: nat)
    requires index < |params| && i < |params[index].1|
    ensures ChosenAll(params, index, current, Layers(Sizes(params[index..]), i + 1))
         == ChosenAll(params, index, current, Layers(Sizes(params[index..]), i))
          + OnePerKeyCombinations(params, index + 1, current + [(params[index].0, params[index].1[i])])
  {
    var ns := Sizes(params[index..]);
    SizesTail(params, index);
    var rest := Odometer(ns[1..]);
    var lo := Layers(ns, i);
    var hi := PrependAll(i, rest);
    var pair := (params[index].0, params[index].1[i]);
    var lhs := ChosenAll(params, index, current, Layers(ns, i + 1));
    var rhs := ChosenAll(params, index, current, lo) + OnePerKeyCombinations(params, index + 1, current + [pair]);
    assert Layers(ns, i + 1) == lo + hi;
    forall k | 0 <= k < |lhs|
      ensures lhs[k] == rhs[k]
    {
      if k >= |lo| {
        var t := rest[k - |lo|];
        assert hi[k - |lo|] == [i] + t;
        assert Chosen(params, index, [i] + t) == [pair] + Chosen(params, index + 1, t);
      }
    }
  }

  /** No entries left: the one intended output is `current` itself. */
  lemma OnePerKeyNoEntries(params: seq<Entry>, current: seq<Pair>)
    ensures OnePerKeyCombinations(params, |params|, current) == [current]
  {
    assert Sizes(params[|params|..]) == [];
    assert Chosen(params, |params|, []) == [];
    assert current + [] == current;
  }

  /** `param_combination` with the pushed pair taken off again before the next value. */
  method ParamCombinationOnePerKey(params: seq<Entry>, index: nat, current: seq<Pair>) returns (out: seq<seq<Pair>>)
    requires index <= |params|
    ensures out == OnePerKeyCombinations(params, index, current)
    ensures |out| == Product(Sizes(params[index..]))
    decreases |params| - index
  {
    if index == |params| {
      OnePerKeyNoEntries(params, current);
      return [current];
    }
    var key, values := params[index].0, params[index].1;
    ghost var ns := Sizes(params[index..]);
    out := [];
    for i := 0 to |values|
      invariant out == ChosenAll(params, index, current, Layers(ns, i))
    {
      var sub := ParamCombinationOnePerKey(params, index + 1, current + [(key, values[i])]);
      ChosenAllStep(params, index, current, i);
      out := out + sub;
    }
  }

  /**
   * Each intended output is `current` followed by exactly one pair per
   * remaining entry, in entry order, whose value is one of that entry's values.
   */
  lemma OnePerKeyShape(params: seq<Entry>, index: nat, current: seq<Pair>, k: nat, j: nat)
    requires index <= |params| && index + j < |params|
    requires k < |OnePerKeyCombinations(params, index, current)|
    ensures |OnePerKeyCombinations(params, index, current)[k]| == |current| + |params| - index
    ensures OnePerKeyCombinations(params, index, current)[k][..|current|] == current
    ensures OnePerKeyCombinations(params, index, current)[k][|current| + j].0 == params[index + j].0
    ensures OnePerKeyCombinations(params, index, current)[k][|current| + j].1 in params[index + j].1
  {
  }

  /**
   * The source's outputs and the intended ones come in the same order and
   * agree entry by entry: the last pair of each block is the intended pair.
   */
  lemma WrittenAgreesWithOnePerKey(params: seq<Entry>, index: nat, current: seq<Pair>, k: nat, j: nat)
    requires index <= |params| && index + j < |params|
    requires k < |Combinations(params, index, current)|
    ensures |OnePerKeyCombinations(params, index, current)| == |Combinations(params, index, current)|
    ensures
      var t := Odometer(Sizes(params[index..]))[k];
      |current| + Weight(t[..j]) + t[j] < |Combinations(params, index, current)[k]|
    ensures
      var t := Odometer(Sizes(params[index..]))[k];
      Combinations(params, index, current)[k][|current| + Weight(t[..j]) + t[j]]
        == OnePerKeyCombinations(params, index, current)[k][|current| + j]
  {
    var t := Odometer(Sizes(params[index..]))[k];
    ExpandBlockEndsAreChosen(params, index, current, t, j);
  }

  /**
   * Two entries of two values each, as `main` calls it (index 0, empty
   * `current`): the third output of the source carries both values of `A`,
   * where one pair per entry was intended.
   */
  lemma TwoByTwoExample()
    ensures
      var params := [("A", ["a1", "a2"]), ("B", ["b1", "b2"])];
      |Combinations(params, 0, [])| == 4 &&
      Combinations(params, 0, [])[2] == [("A", "a1"), ("A", "a2"), ("B", "b1")] &&
      OnePerKeyCombinations(params, 0, [])[2] == [("A", "a2"), ("B", "b1")]
  {
    var params := [("A", ["a1", "a2"]), ("B", ["b1", "b2"])];
    assert params[0..] == params;
    assert Sizes(params) == [2, 2];
    OdometerTwoByTwo();
    var t := [1, 0];
    assert Odometer(Sizes(params[0..]))[2] == t;
    SizesTail(params, 0);
    SizesTail(params, 1);
    assert params[0].1[..2] == ["a1", "a2"];
    assert params[1].1[..1] == ["b1"];
    assert t[1..] == [0] && [0][1..] == [];
    var afterA := Pushed("A", ["a1", "a2"]);
    assert afterA == [("A", "a1"), ("A", "a2")];
    assert Pushed("B", ["b1"]) == [("B", "b1")];
    assert Expand(params, 2, afterA + [("B", "b1")], []) == afterA + [("B", "b1")];
    assert Expand(params, 1, afterA, [0]) == afterA + [("B", "b1")];
    assert Expand(params, 0, [], t) == Expand(params, 1, [] + afterA, [0]);
    assert [] + afterA == afterA;
    assert Chosen(params, 0, t) == [("A", "a2"), ("B", "b1")];
  }
}
