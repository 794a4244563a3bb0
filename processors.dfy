/** The processor library of item loaders: the two composition primitives,
    the reducers, the regex extractor and the single-or-many dispatch scheme
    with the processors built on it. Processors are context-free unary
    functions (`Proc`); regex, markup and URL engines are parameters. */
module Processors {
  import opened Values
  import Strings

  type Proc = Val -> Val

  // ---------------------------------------------------------------------
  // MapCompose

  /** One stage of `MapCompose`: the in-order concatenation of
      `arg_to_iter(f(v))` over the batch. */
  function Stage(f: Proc, batch: seq<Val>): seq<Val>
  {
    if batch == [] then []
    else Stage(f, batch[..|batch| - 1]) + ArgToIter(f(batch[|batch| - 1]))
  }

  /** The batch after every function of `fs`, first to last, has been staged. */
  function Pipeline(fs: seq<Proc>, batch: seq<Val>): seq<Val>
  {
    if fs == [] then batch
    else Stage(fs[|fs| - 1], Pipeline(fs[..|fs| - 1], batch))
  }

  /** A stage works element by element: it distributes over concatenation. */
  lemma {:induction false} StageAppend(f: Proc, a: seq<Val>, b: seq<Val>)
    ensures Stage(f, a + b) == Stage(f, a) + Stage(f, b)
  {
    if b == [] {
      assert a + b == a;
    } else {
      var b', x := b[..|b| - 1], b[|b| - 1];
      assert b == b' + [x];
      StageAppend(f, a, b');
      StageAppendStep(f, a, b', x);
    }
  }

  /** Staging a batch with one more element at the end. */
  lemma StageLast(f: Proc, s: seq<Val>, x: Val)
    ensures Stage(f, s + [x]) == Stage(f, s) + ArgToIter(f(x))
  {
    assert (s + [x])[..|s|] == s;
  }

  /** The inductive step of `StageAppend`: one more element at the end. */
  lemma StageAppendStep(f: Proc, a: seq<Val>, b: seq<Val>, x: Val)
    requires Stage(f, a + b) == Stage(f, a) + Stage(f, b)
    ensures Stage(f, a + (b + [x])) == Stage(f, a) + Stage(f, b + [x])
  {
    SnocAssoc(a, b, [x]);
    StageLast(f, a + b, x);
    StageLast(f, b, x);
    SnocAssoc(Stage(f, a), Stage(f, b), ArgToIter(f(x)));
  }

  lemma SnocAssoc<T>(a: seq<T>, b: seq<T>, c: seq<T>)
    ensures a + (b + c) == (a + b) + c
  {
  }

  /** What one element contributes to a stage: `arg_to_iter(f(v))`, which is
      nothing when `f(v)` is `None` or an empty list. */
  lemma StageSingleton(f: Proc, v: Val)
    ensures Stage(f, [v]) == ArgToIter(f(v))
  {
    assert [v][..0] == [];
  }

  lemma StageElement(f: Proc, a: seq<Val>, v: Val, b: seq<Val>)
    ensures Stage(f, a + [v] + b) == Stage(f, a) + ArgToIter(f(v)) + Stage(f, b)
    ensures f(v) == None ==> Stage(f, a + [v] + b) == Stage(f, a) + Stage(f, b)
  {
    var av := a + [v];
    StageAppend(f, av, b);
    StageAppend(f, a, [v]);
    StageSingleton(f, v);
    assert Stage(f, av + b) == Stage(f, a) + ArgToIter(f(v)) + Stage(f, b);
    if f(v) == None {
      assert ArgToIter(f(v)) == [];
      assert Stage(f, a) + [] == Stage(f, a);
    }
  }

  /** Composing pipelines: staging `fs + gs` is staging `fs`, then `gs`. */
  lemma {:induction false} PipelineConcat(fs: seq<Proc>, gs: seq<Proc>, batch: seq<Val>)
    ensures Pipeline(fs + gs, batch) == Pipeline(gs, Pipeline(fs, batch))
  {
    if gs == [] {
      assert fs + gs == fs;
    } else {
      var gs' := gs[..|gs| - 1];
      assert (fs + gs)[..|fs + gs| - 1] == fs + gs';
      assert (fs + gs)[|fs + gs| - 1] == gs[|gs| - 1];
      PipelineConcat(fs, gs', batch);
    }
  }

  /** The first function of a pipeline is staged first. */
  lemma PipelineFirst(f: Proc, fs: seq<Proc>, batch: seq<Val>)
    ensures Pipeline([f] + fs, batch) == Pipeline(fs, Stage(f, batch))
  {
    PipelineConcat([f], fs, batch);
    assert [f][..0] == [];
  }

  /** Staging one more element of a batch. */
  lemma StageSnoc(f: Proc, batch: seq<Val>, j: nat)
    requires j < |batch|
    ensures Stage(f, batch[..j + 1]) == Stage(f, batch[..j]) + ArgToIter(f(batch[j]))
  {
    assert batch[..j + 1][..j] == batch[..j];
  }

  /** Running one more function of the pipeline. */
  lemma PipelineSnoc(fs: seq<Proc>, i: nat, batch: seq<Val>)
    requires i < |fs|
    ensures Pipeline(fs[..i + 1], batch) == Stage(fs[i], Pipeline(fs[..i], batch))
  {
    assert fs[..i + 1][..i] == fs[..i];
  }

  /** `MapCompose(*functions)(value)`. */
  method MapCompose(functions: seq<Proc>, value: Val) returns (r: seq<Val>)
    ensures r == Pipeline(functions, ArgToIter(value))
    ensures functions == [] ==> r == ArgToIter(value)
  {
    var values := ArgToIter(value);
    for i := 0 to |functions|
      invariant values == Pipeline(functions[..i], ArgToIter(value))
    {
      var func := functions[i];
      var next := [];
      for j := 0 to |values|
        invariant next == Stage(func, values[..j])
      {
        StageSnoc(func, values, j);
        next := next + ArgToIter(func(values[j]));
      }
      assert values[..|values|] == values;
      PipelineSnoc(functions, i, ArgToIter(value));
      values := next;
    }
    assert functions[..|functions|] == functions;
    r := values;
  }

  /** The processor `f(n) = [n, n]`. */
  function Double(v: Val): Val
  {
    List([v, v])
  }

  lemma StageDoublePair(x: Val, y: Val)
    ensures Stage(Double, [x, y]) == [x, x, y, y]
  {
    StageSingleton(Double, x);
    StageSingleton(Double, y);
    StageAppend(Double, [x], [y]);
    assert [x] + [y] == [x, y];
  }

  /** `f(n) = [n, n]` staged twice over `[x, y]` gives four of each, in
      order (for `[1, 2]`: `[1, 1, 1, 1, 2, 2, 2, 2]`). */
  lemma MapComposeDoubling(x: Val, y: Val)
    ensures Pipeline([Double, Double], [x, y]) == [x, x, x, x, y, y, y, y]
  {
    StageDoublePair(x, y);
    StageDoublePair(x, x);
    StageDoublePair(y, y);
    StageAppend(Double, [x, x], [y, y]);
    assert [x, x] + [y, y] == [x, x, y, y];
    PipelineTwo(Double, Double, [x, y]);
  }

  /** A two-function pipeline stages with the first, then the second. */
  lemma PipelineTwo(f: Proc, g: Proc, batch: seq<Val>)
    ensures Pipeline([f, g], batch) == Stage(g, Stage(f, batch))
  {
    assert [f, g][..1] == [f];
    assert [f][..0] == [];
    assert Pipeline([f], batch) == Stage(f, batch);
  }

  // ---------------------------------------------------------------------
  // Compose

  /** The value `Compose` returns: functions are applied in order and, when
      `stopOnNone` holds, the chain is cut as soon as the value is `None`. */
  function Chain(fs: seq<Proc>, stopOnNone: bool, v: Val): (r: Val)
    ensures fs == [] ==> r == v
    ensures stopOnNone && v == None ==> r == None
  {
    if fs == [] then v
    else if v == None && stopOnNone then None
    else Chain(fs[1..], stopOnNone, fs[0](v))
  }

  /** `stop_on_none` is read from the pipeline's default context, and is on
      unless that context holds a falsy value for it. */
  function StopOnNone(defaultContext: map<string, Val>): (b: bool)
    ensures !b <==> "stop_on_none" in defaultContext && !Truthy(defaultContext["stop_on_none"])
  {
    if "stop_on_none" in defaultContext then Truthy(defaultContext["stop_on_none"]) else true
  }

  /** `Compose(*functions, **defaultContext)(value)`. */
  method Compose(functions: seq<Proc>, defaultContext: map<string, Val>, value: Val) returns (r: Val)
    ensures r == Chain(functions, StopOnNone(defaultContext), value)
    ensures "stop_on_none" !in defaultContext ==> r == Chain(functions, true, value)
  {
    var stop := StopOnNone(defaultContext);
    var v := value;
    var i := 0;
    while i < |functions|
      invariant 0 <= i <= |functions|
      invariant Chain(functions[i..], stop, v) == Chain(functions, stop, value)
    {
      if v == None && stop {
        break;
      }
      assert functions[i..][1..] == functions[i + 1..];
      v := functions[i](v);
      i := i + 1;
    }
    r := v;
  }

  /** Once the value is `None`, a stopping chain returns `None`, whatever
      the remaining functions are (they are never applied). */
  lemma {:induction false} ChainNoneStops(fs: seq<Proc>)
    ensures Chain(fs, true, None) == None
  {
  }

  /** A stopping chain whose first function yields `None` returns `None`
      for every choice of the later functions. */
  lemma ChainCutByFirst(f: Proc, gs: seq<Proc>, x: Val)
    requires f(x) == None
    ensures Chain([f] + gs, true, x) == None
  {
    if x != None {
      assert ([f] + gs)[1..] == gs;
      ChainNoneStops(gs);
    }
  }

  /** Chains compose: running `fs + gs` is running `fs`, then `gs`. */
  lemma {:induction false} ChainConcat(fs: seq<Proc>, gs: seq<Proc>, stop: bool, v: Val)
    ensures Chain(fs + gs, stop, v) == Chain(gs, stop, Chain(fs, stop, v))
  {
    if fs == [] {
      assert fs + gs == gs;
    } else if v == None && stop {
      ChainNoneStops(gs);
    } else {
      assert (fs + gs)[1..] == fs[1..] + gs;
      ChainConcat(fs[1..], gs, stop, fs[0](v));
    }
  }

  /** Without `stop_on_none` every function is applied, the last one included. */
  lemma ChainNoStopAppliesLast(fs: seq<Proc>, g: Proc, v: Val)
    ensures Chain(fs + [g], false, v) == g(Chain(fs, false, v))
  {
    ChainConcat(fs, [g], false, v);
    assert [g][1..] == [];
  }

  // ---------------------------------------------------------------------
  // Reducers

  /** `TakeFirst()(values)`: the first truthy element, `None` if there is none. */
  method TakeFirst(values: seq<Val>) returns (r: Val)
    ensures r == None <==> forall i :: 0 <= i < |values| ==> !Truthy(values[i])
    ensures r != None ==> exists i ::
      && 0 <= i < |values| && r == values[i] && Truthy(r)
      && forall j :: 0 <= j < i ==> !Truthy(values[j])
  {
    for i := 0 to |values|
      invariant forall j :: 0 <= j < i ==> !Truthy(values[j])
    {
      if Truthy(values[i]) {
        return values[i];
      }
    }
    return None;
  }

  /** `Identity()(values)`, the class default of both loader processors. */
  function Identity(values: Val): (r: Val)
    ensures r == values
  {
    values
  }

  const DefaultSeparator: string := " "

  /** `separator.join(values)`. */
  function Join(separator: string, values: seq<string>): string
  {
    if values == [] then ""
    else if |values| == 1 then values[0]
    else values[0] + separator + Join(separator, values[1..])
  }

  function TotalLength(values: seq<string>): nat
  {
    if values == [] then 0 else |values[0]| + TotalLength(values[1..])
  }

  /** The separator stands between consecutive elements only: appending an
      element appends one separator and the element. */
  lemma {:induction false} JoinSnoc(separator: string, values: seq<string>, x: string)
    requires values != []
    ensures Join(separator, values + [x]) == Join(separator, values) + separator + x
  {
    if |values| == 1 {
      assert values + [x] == [values[0], x];
      assert [values[0], x][1..] == [x];
    } else {
      assert (values + [x])[1..] == values[1..] + [x];
      JoinSnoc(separator, values[1..], x);
    }
  }

  /** The joined text holds every element and `n - 1` separators. */
  lemma {:induction false} JoinLength(separator: string, values: seq<string>)
    ensures |Join(separator, values)|
      == TotalLength(values) + (if values == [] then 0 else |separator| * (|values| - 1))
  {
    if |values| > 1 {
      JoinLength(separator, values[1..]);
    }
  }

  lemma JoinExample()
    ensures Join(", ", ["a", "b", "c"]) == "a, b, c"
  {
    assert ["a", "b", "c"][1..] == ["b", "c"];
    assert ["b", "c"][1..] == ["c"];
  }

  /** `Take(start, end)(values)`: `values[start:]` or `values[start:end]`. */
  function Take(values: seq<Val>, start: int, end: Option<int>): (r: seq<Val>)
    ensures end.Nothing? && 0 <= start <= |values| ==> r == values[start..]
    ensures end.Some? && 0 <= start <= end.value <= |values| ==> r == values[start..end.value]
  {
    match end
    case Nothing => PySlice(values, start, |values|)
    case Some(e) => PySlice(values, start, e)
  }

  /** `Take(0, k)` and `Take(k)` split the values at `k`, for every `k`. */
  lemma TakeSplit(values: seq<Val>, k: int)
    ensures Take(values, 0, Some(k)) + Take(values, k, Nothing) == values
  {
    PySliceSplit(values, k);
  }

  /** `TakeOne(index)(values)`: `values[index]`, an `IndexError` out of range. */
  function TakeOne(values: seq<Val>, index: int): (r: Result<Val>)
    ensures r.Err? <==> index >= |values| || index < -|values|
    ensures r.Err? ==> r.error == IndexError
  {
    PyIndex(values, index)
  }

  /** Apart from index -1 (whose one-element slice `[-1:0]` is empty),
      `TakeOne(i)` succeeds exactly when `Take(i, i + 1)` is one element,
      and returns that element. */
  lemma TakeOneIsOneElementTake(values: seq<Val>, index: int)
    requires index != -1
    ensures TakeOne(values, index).Ok? <==> |Take(values, index, Some(index + 1))| == 1
    ensures TakeOne(values, index).Ok? ==>
      Take(values, index, Some(index + 1)) == [TakeOne(values, index).value]
  {
  }

  // ---------------------------------------------------------------------
  // RegexExtract

  /** `re.search(regex, value)`: the groups of the match, if there is one. */
  type Search = (string, Val) -> Option<seq<Val>>

  /** The groups of the first regex, in list order, that matches `v`. */
  function FirstMatch(search: Search, regexes: seq<string>, v: Val): seq<Val>
  {
    if regexes == [] then []
    else match search(regexes[0], v)
      case Some(groups) => groups
      case Nothing => FirstMatch(search, regexes[1..], v)
  }

  /** What `RegexExtract` collects from a batch of values, in input order. */
  function Extracted(search: Search, regexes: seq<string>, values: seq<Val>): seq<Val>
  {
    if values == [] then []
    else
      Extracted(search, regexes, values[..|values| - 1])
      + FirstMatch(search, regexes, values[|values| - 1])
  }

  /** `RegexExtract(regexes)(value)`. */
  method RegexExtract(search: Search, regexes: seq<string>, value: Val) returns (matches: seq<Val>)
    ensures matches == Extracted(search, regexes, ArgToIter(value))
  {
    matches := [];
    var values := ArgToIter(value);
    for i := 0 to |values|
      invariant matches == Extracted(search, regexes, values[..i])
    {
      assert values[..i + 1][..i] == values[..i];
      ghost var before := matches;
      var j := 0;
      while j < |regexes|
        invariant 0 <= j <= |regexes|
        invariant matches == before
        invariant FirstMatch(search, regexes, values[i]) == FirstMatch(search, regexes[j..], values[i])
      {
        var m := search(regexes[j], values[i]);
        if m.Some? {
          matches := matches + m.value;
          break;
        }
        assert regexes[j..][1..] == regexes[j + 1..];
        j := j + 1;
      }
    }
    assert values[..|values|] == values;
  }

  /** Only the first matching pattern counts: if pattern `k` matches and no
      earlier one does, its groups are the contribution; if none matches,
      the value contributes nothing. */
  lemma {:induction false} FirstMatchIsFirst(search: Search, regexes: seq<string>, v: Val)
    ensures (forall k :: 0 <= k < |regexes| ==> search(regexes[k], v).Nothing?)
      ==> FirstMatch(search, regexes, v) == []
    ensures forall k ::
      (&& 0 <= k < |regexes| && search(regexes[k], v).Some?
       && (forall j :: 0 <= j < k ==> search(regexes[j], v).Nothing?))
      ==> FirstMatch(search, regexes, v) == search(regexes[k], v).value
  {
    if regexes != [] {
      FirstMatchIsFirst(search, regexes[1..], v);
      assert forall k :: 1 <= k < |regexes| ==> regexes[1..][k - 1] == regexes[k];
    }
  }

  /** Values contribute independently and in order. */
  lemma {:induction false} ExtractedAppend(search: Search, regexes: seq<string>, a: seq<Val>, b: seq<Val>)
    ensures Extracted(search, regexes, a + b) == Extracted(search, regexes, a) + Extracted(search, regexes, b)
  {
    if b == [] {
      assert a + b == a;
    } else {
      var b' := b[..|b| - 1];
      assert (a + b)[..|a + b| - 1] == a + b';
      assert (a + b)[|a + b| - 1] == b[|b| - 1];
      ExtractedAppend(search, regexes, a, b');
    }
  }

  // ---------------------------------------------------------------------
  // SingleMultipleProcessor and the processors built on it

  /** `process` applied to every non-`None` element, in order. */
  function MapNonNone(process: Proc, xs: seq<Val>): seq<Val>
  {
    if xs == [] then []
    else
      MapNonNone(process, xs[..|xs| - 1])
      + (if xs[|xs| - 1] == None then [] else [process(xs[|xs| - 1])])
  }

  function KeysOf(entries: seq<(string, Val)>): (keys: seq<Val>)
    ensures |keys| == |entries|
    ensures forall i :: 0 <= i < |entries| ==> keys[i] == Str(entries[i].0)
  {
    seq(|entries|, i requires 0 <= i < |entries| => Str(entries[i].0))
  }

  /** `SingleMultipleProcessor.__call__`: an iterable (list, tuple, or dict,
      whose keys are iterated) maps `process` over its non-`None` elements
      without flattening; `None` stays `None`; a scalar (a string included)
      is processed directly. */
  function SingleMultiple(process: Proc, value: Val): (r: Val)
    ensures value == None ==> r == None
    ensures value.Str? || value.Int? ==> r == process(value)
    ensures value.Dict? ==> r == List(MapNonNone(process, KeysOf(value.entries)))
  {
    match value
    case List(xs) => List(MapNonNone(process, xs))
    case Dict(entries) => List(MapNonNone(process, KeysOf(entries)))
    case None => None
    case _ => process(value)
  }

  lemma {:induction false} MapNonNoneAppend(process: Proc, a: seq<Val>, b: seq<Val>)
    ensures MapNonNone(process, a + b) == MapNonNone(process, a) + MapNonNone(process, b)
  {
    if b == [] {
      assert a + b == a;
    } else {
      var b' := b[..|b| - 1];
      assert (a + b)[..|a + b| - 1] == a + b';
      assert (a + b)[|a + b| - 1] == b[|b| - 1];
      MapNonNoneAppend(process, a, b');
    }
  }

  /** On a list, the result has one element per non-`None` input element,
      and an element's contribution is `[process(x)]`, not flattened. */
  lemma {:induction false} SingleMultipleList(process: Proc, a: seq<Val>, x: Val, b: seq<Val>)
    ensures SingleMultiple(process, List(a + [x] + b)).items
      == SingleMultiple(process, List(a)).items
      + (if x == None then [] else [process(x)])
      + SingleMultiple(process, List(b)).items
  {
    MapNonNoneAppend(process, a + [x], b);
    MapNonNoneAppend(process, a, [x]);
    assert [x][..0] == [];
  }

  /** The length of a dispatched list is the number of non-`None` elements. */
  lemma {:induction false} SingleMultipleLength(process: Proc, xs: seq<Val>)
    ensures |SingleMultiple(process, List(xs)).items| == |xs| - multiset(xs)[None]
  {
    if xs != [] {
      var xs' := xs[..|xs| - 1];
      assert xs == xs' + [xs[|xs| - 1]];
      SingleMultipleLength(process, xs');
    }
  }

  /** Over a list without `None`, the result is the list of every element
      processed, position by position. */
  lemma {:induction false} MapNonNoneNoNone(process: Proc, xs: seq<Val>)
    requires forall i :: 0 <= i < |xs| ==> xs[i] != None
    ensures |MapNonNone(process, xs)| == |xs|
    ensures forall i :: 0 <= i < |xs| ==> MapNonNone(process, xs)[i] == process(xs[i])
  {
    if xs != [] {
      var xs' := xs[..|xs| - 1];
      assert forall i :: 0 <= i < |xs'| ==> xs'[i] == xs[i];
      MapNonNoneNoNone(process, xs');
    }
  }

  /** `Strip(chars).process(value)`: a string is stripped of `chars`
      (whitespace when `chars` is `None`); other values have no `strip`. */
  function StripOne(chars: Option<string>, value: Val): Val
  {
    match value
    case Str(s) => Str(Strings.StripChars(s, if chars.Some? then chars.value else Strings.Whitespace))
    case _ => value
  }

  /** `Strip(chars)(value)`. */
  function Strip(chars: Option<string>, value: Val): (r: Val)
    ensures value == None ==> r == None
    ensures value.Int? ==> r == value
    ensures value.Str? ==> r == Str(Strings.StripChars(value.s, if chars.Some? then chars.value else Strings.Whitespace))
    ensures value.List? || value.Dict? ==> r.List?
  {
    SingleMultiple(v => StripOne(chars, v), value)
  }

  /** A stripped string has no character of the set at either end, and what
      was dropped came from the set; any other scalar is unchanged. */
  lemma StripScalar(chars: Option<string>, value: Val)
    requires value.Str? || value.Int?
    ensures value.Int? ==> Strip(chars, value) == value
    ensures value.Str? ==>
      var set_ := if chars.Some? then chars.value else Strings.Whitespace;
      var r := Strip(chars, value);
      && r.Str?
      && (r.s != [] ==> r.s[0] !in set_ && r.s[|r.s| - 1] !in set_)
      && exists i, j :: 0 <= i <= j <= |value.s| && r.s == value.s[i..j]
          && Strings.AllIn(value.s[..i], set_) && Strings.AllIn(value.s[j..], set_)
  {
    if value.Str? {
      Strings.StripCharsSpec(value.s, if chars.Some? then chars.value else Strings.Whitespace);
    }
  }

  lemma {:induction false} StripOneTwice(chars: Option<string>, xs: seq<Val>)
    ensures MapNonNone(v => StripOne(chars, v), MapNonNone(v => StripOne(chars, v), xs))
      == MapNonNone(v => StripOne(chars, v), xs)
  {
    var p := (v: Val) => StripOne(chars, v);
    if xs != [] {
      var xs' := xs[..|xs| - 1];
      var x := xs[|xs| - 1];
      StripOneTwice(chars, xs');
      var once := MapNonNone(p, xs);
      var tail := if x == None then [] else [p(x)];
      assert once == MapNonNone(p, xs') + tail;
      MapNonNoneAppend(p, MapNonNone(p, xs'), tail);
      if x != None {
        if x.Str? {
          Strings.StripIdempotent(x.s, if chars.Some? then chars.value else Strings.Whitespace);
        }
        assert p(x) != None;
        assert MapNonNone(p, tail) == MapNonNone(p, []) + [p(p(x))] by {
          assert tail[..0] == [];
        }
      }
    }
  }

  /** `Strip` is idempotent on every value. */
  lemma StripIdempotent(chars: Option<string>, value: Val)
    ensures Strip(chars, Strip(chars, value)) == Strip(chars, value)
  {
    match value
    case List(xs) => StripOneTwice(chars, xs);
    case Dict(entries) => StripOneTwice(chars, KeysOf(entries));
    case Str(s) => Strings.StripIdempotent(s, if chars.Some? then chars.value else Strings.Whitespace);
    case _ =>
  }

  /** The configuration of `RemoveTag`; its constructor refuses `keep`
      without `keep_content`. */
  datatype RemoveTagConfig = RemoveTagConfig(whichOnes: seq<string>, keep: seq<string>, keepContent: bool)

  function NewRemoveTag(whichOnes: seq<string>, keep: seq<string>, keepContent: bool): (r: Result<RemoveTagConfig>)
    ensures r.Err? <==> keep != [] && !keepContent
    ensures r.Err? ==> r.error == AssertionError
    ensures r.Ok? ==> r.value == RemoveTagConfig(whichOnes, keep, keepContent)
  {
    if keep != [] && !keepContent then Err(AssertionError)
    else Ok(RemoveTagConfig(whichOnes, keep, keepContent))
  }

  /** `scrapy.utils.markup.remove_tags` and `remove_tags_with_content`. */
  type RemoveTags = (Val, seq<string>, seq<string>) -> Val
  type RemoveTagsWithContent = (Val, seq<string>) -> Val

  function RemoveTagOne(removeTags: RemoveTags, removeWithContent: RemoveTagsWithContent,
                        config: RemoveTagConfig, value: Val): Val
  {
    if !Truthy(value) then value
    else if config.keepContent then removeTags(value, config.whichOnes, config.keep)
    else removeWithContent(value, config.whichOnes)
  }

  /** `RemoveTag(...)(value)`. */
  function RemoveTag(removeTags: RemoveTags, removeWithContent: RemoveTagsWithContent,
                     config: RemoveTagConfig, value: Val): (r: Val)
    ensures value == None ==> r == None
    ensures value.Str? && value.s != [] && config.keepContent ==> r == removeTags(value, config.whichOnes, config.keep)
    ensures value.Str? && value.s != [] && !config.keepContent ==> r == removeWithContent(value, config.whichOnes)
    ensures value.List? || value.Dict? ==> r.List?
  {
    SingleMultiple(v => RemoveTagOne(removeTags, removeWithContent, config, v), value)
  }

  /** Every markup engine leaves a falsy element alone: an empty string or
      zero is returned as it is; a list of falsy, non-`None` elements is
      returned as it is; a falsy element before a `None` is kept while the
      `None` drops out. An empty dict, iterated over its keys, becomes the
      empty list. */
  lemma RemoveTagKeepsEmpty(removeTags: RemoveTags, removeWithContent: RemoveTagsWithContent,
                            config: RemoveTagConfig, value: Val)
    ensures (value.Str? || value.Int?) && !Truthy(value) ==>
      RemoveTag(removeTags, removeWithContent, config, value) == value
    ensures value.List? && (forall i :: 0 <= i < |value.items| ==> value.items[i] != None && !Truthy(value.items[i])) ==>
      RemoveTag(removeTags, removeWithContent, config, value) == value
    ensures value != None && !Truthy(value) ==>
      RemoveTag(removeTags, removeWithContent, config, List([value, None])) == List([value])
    ensures value == Dict([]) ==> RemoveTag(removeTags, removeWithContent, config, value) == List([])
  {
    var p := (v: Val) => RemoveTagOne(removeTags, removeWithContent, config, v);
    if value != None && !Truthy(value) {
      assert p(value) == value;
      MapNonNonePair(p, value);
    }
    if value.List? && forall i :: 0 <= i < |value.items| ==> value.items[i] != None && !Truthy(value.items[i]) {
      MapNonNoneNoNone(p, value.items);
      assert MapNonNone(p, value.items) == value.items;
    }
  }

  /** A non-`None` element followed by `None` maps to the one processed
      element. */
  lemma MapNonNonePair(process: Proc, x: Val)
    requires x != None
    ensures MapNonNone(process, [x, None]) == [process(x)]
  {
    assert [x, None][..1] == [x];
    assert [x][..0] == [];
    assert MapNonNone(process, [x]) == [] + [process(x)];
    assert MapNonNone(process, [x, None]) == MapNonNone(process, [x]) + [];
  }

  /** `scrapy.utils.markup.replace_tags`. */
  type ReplaceTags = (Val, string) -> Val

  /** `ReplaceTag(replacement)(value)`. */
  function ReplaceTag(replaceTags: ReplaceTags, replacement: string, value: Val): (r: Val)
    ensures value == None ==> r == None
    ensures value.Str? || value.Int? ==> r == replaceTags(value, replacement)
    ensures value.List? || value.Dict? ==> r.List?
  {
    SingleMultiple(v => replaceTags(v, replacement), value)
  }

  /** Over a list without `None`, every element has its tags replaced, in
      place. */
  lemma ReplaceTagList(replaceTags: ReplaceTags, replacement: string, xs: seq<Val>)
    requires forall i :: 0 <= i < |xs| ==> xs[i] != None
    ensures var r := ReplaceTag(replaceTags, replacement, List(xs));
      && r.List? && |r.items| == |xs|
      && forall i :: 0 <= i < |xs| ==> r.items[i] == replaceTags(xs[i], replacement)
  {
    MapNonNoneNoNone(v => replaceTags(v, replacement), xs);
  }

  /** `re.sub(pattern, replacement, value)`. */
  type Substitute = (string, string, Val) -> Val

  /** `Replace(pattern, replacement)(value)`. */
  function Replace(sub: Substitute, pattern: string, replacement: string, value: Val): (r: Val)
    ensures value == None ==> r == None
    ensures value.Str? || value.Int? ==> r == sub(pattern, replacement, value)
    ensures value.List? || value.Dict? ==> r.List?
  {
    SingleMultiple(v => sub(pattern, replacement, v), value)
  }

  /** Over a list without `None`, every element is substituted, in place. */
  lemma ReplaceList(sub: Substitute, pattern: string, replacement: string, xs: seq<Val>)
    requires forall i :: 0 <= i < |xs| ==> xs[i] != None
    ensures var r := Replace(sub, pattern, replacement, List(xs));
      && r.List? && |r.items| == |xs|
      && forall i :: 0 <= i < |xs| ==> r.items[i] == sub(pattern, replacement, xs[i])
  {
    MapNonNoneNoNone(v => sub(pattern, replacement, v), xs);
  }

  /** `re.split(pattern, value)`. */
  type RegexSplit = (string, Val) -> Val

  /** `Split(pattern)(value)`: over a list, one split result per element. */
  function Split(split: RegexSplit, pattern: string, value: Val): (r: Val)
    ensures value == None ==> r == None
    ensures value.Str? || value.Int? ==> r == split(pattern, value)
    ensures value.List? || value.Dict? ==> r.List?
  {
    SingleMultiple(v => split(pattern, v), value)
  }

  /** Splitting a list gives a list of split results, one per non-`None`
      element and not flattened; a scalar gives its own split result. */
  lemma SplitPerElement(split: RegexSplit, pattern: string, xs: seq<Val>, s: string)
    requires forall i :: 0 <= i < |xs| ==> xs[i] != None
    ensures var r := Split(split, pattern, List(xs));
      && r.List? && |r.items| == |xs|
      && forall i :: 0 <= i < |xs| ==> r.items[i] == split(pattern, xs[i])
    ensures Split(split, pattern, Str(s)) == split(pattern, Str(s))
  {
    MapNonNoneNoNone(v => split(pattern, v), xs);
  }

  /** `urljoin_rfc(base, url)` and `canonicalize_url(url)`. */
  type UrlJoin = (string, Val) -> Val
  type Canonicalize = Val -> Val

  function JoinCanonicalizeUrlOne(urljoin: UrlJoin, canonicalize: Canonicalize,
                                  base: Option<string>, doCanonicalize: bool, url: Val): Val
  {
    var joined := if base.Some? && base.value != "" then urljoin(base.value, url) else url;
    if doCanonicalize then canonicalize(joined) else joined
  }

  /** `JoinCanonicalizeUrl(base, canonicalize)(value)`. */
  function JoinCanonicalizeUrl(urljoin: UrlJoin, canonicalize: Canonicalize,
                               base: Option<string>, doCanonicalize: bool, value: Val): (r: Val)
    ensures value == None ==> r == None
    ensures value.Str? && (base.Nothing? || base.value == "") && !doCanonicalize ==> r == value
    ensures value.Str? && base.Some? && base.value != "" && !doCanonicalize ==> r == urljoin(base.value, value)
    ensures value.Str? && (base.Nothing? || base.value == "") && doCanonicalize ==> r == canonicalize(value)
    ensures value.List? || value.Dict? ==> r.List?
  {
    SingleMultiple(v => JoinCanonicalizeUrlOne(urljoin, canonicalize, base, doCanonicalize, v), value)
  }

  /** Without a truthy base and without canonicalization the processor
      changes nothing: a URL is kept and so is a list without `None`. With
      both, the URL is joined first and the joined URL canonicalized. */
  lemma JoinCanonicalizeUrlNoOp(urljoin: UrlJoin, canonicalize: Canonicalize, base: Option<string>,
                                url: string, xs: seq<Val>)
    requires forall i :: 0 <= i < |xs| ==> xs[i] != None
    ensures base.Nothing? || base.value == "" ==>
      && JoinCanonicalizeUrl(urljoin, canonicalize, base, false, Str(url)) == Str(url)
      && JoinCanonicalizeUrl(urljoin, canonicalize, base, false, List(xs)) == List(xs)
    ensures base.Some? && base.value != "" ==>
      JoinCanonicalizeUrl(urljoin, canonicalize, base, true, Str(url))
      == canonicalize(urljoin(base.value, Str(url)))
  {
    var p := (v: Val) => JoinCanonicalizeUrlOne(urljoin, canonicalize, base, false, v);
    MapNonNoneNoNone(p, xs);
    if base.Nothing? || base.value == "" {
      var r := MapNonNone(p, xs);
      assert forall i :: 0 <= i < |xs| ==> r[i] == xs[i];
      assert r == xs;
    }
  }
}
