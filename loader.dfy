/** Item loaders: an accumulator of input-processed values per field, the
    resolution of each field's input and output processors, and the writing
    of output-processed values into the item; plus the XPath loader, which
    feeds the accumulator from an XPath selector. Processors are context-free
    unary functions; a loader class's `<field>_in` and `<field>_out`
    attributes are given as maps. */
module Loader {
  import opened Values
  import Processors
  import SelectorList

  type Proc = Processors.Proc

  /** The `_values` dictionary: the collected values of each field. */
  type Collected = map<string, seq<Val>>

  /** The processor keys of one declared field of an `Item` class; `Nothing`
      when the field's metadata has no such key. */
  datatype FieldMeta = FieldMeta(inputProcessor: Option<Proc>, outputProcessor: Option<Proc>)

  /** An instance of an `Item` class, with its declared fields, or any other
      mapping (a plain dict, say), which declares none. */
  datatype ItemKind = ItemClass(fields: map<string, FieldMeta>) | PlainMapping

  /** The item being loaded: its kind and the values written into it. */
  datatype Item = Item(kind: ItemKind, values: map<string, Val>)

  /** What a loader class declares: its `<field>_in` and `<field>_out`
      attributes (`Nothing` for an attribute holding a falsy value, no
      entry for an attribute it lacks), the class defaults, and the fields of
      `default_item_class`. */
  datatype LoaderConfig = LoaderConfig(
    fieldIn: map<string, Option<Proc>>,
    fieldOut: map<string, Option<Proc>>,
    defaultIn: Proc,
    defaultOut: Proc,
    defaultItemFields: map<string, FieldMeta>)

  /** The `ItemLoader` class itself: no per-field attributes, `Identity` as
      both defaults and `Item` (no declared field) as the item class. */
  function BaseConfig(): (c: LoaderConfig)
    ensures c.fieldIn == map[] && c.fieldOut == map[]
    ensures forall v :: c.defaultIn(v) == v && c.defaultOut(v) == v
    ensures c.defaultItemFields == map[]
  {
    LoaderConfig(map[], map[], Processors.Identity, Processors.Identity, map[])
  }

  /** A value of the loader context: the item, the selector, the response
      (possibly `None`) or any other keyword argument. */
  datatype Response = Response(url: string, body: string)
  datatype ContextValue =
    | ItemRef
    | SelectorRef(selector: SelectorList.Selector)
    | ResponseRef(response: Option<Response>)
    | Other(value: Val)

  /** The outcome of one step on the collected values. A failing step keeps
      the changes made before the exception. */
  datatype Step = Step(values: Collected, outcome: Outcome)

  // ---------------------------------------------------------------------
  // Processor resolution

  /** `_get_item_field_attr(field, key, default)`: the field metadata's
      processor for an `Item`, the default for it when the metadata lacks the
      key, the default for any other item; an `Item` without the field raises
      a `KeyError`. */
  function ItemFieldAttr(kind: ItemKind, field: string, input: bool, default: Proc): (r: Result<Proc>)
    ensures r.Err? <==> kind.ItemClass? && field !in kind.fields
    ensures r.Err? ==> r.error == KeyError(field)
    ensures kind.PlainMapping? ==> r.Ok? && r.value == default
    ensures kind.ItemClass? && field in kind.fields ==>
      var m := if input then kind.fields[field].inputProcessor else kind.fields[field].outputProcessor;
      r.Ok? && r.value == (if m.Some? then m.value else default)
  {
    match kind
    case PlainMapping => Ok(default)
    case ItemClass(fields) =>
      if field !in fields then Err(KeyError(field))
      else
        var m := if input then fields[field].inputProcessor else fields[field].outputProcessor;
        match m
        case Some(p) => Ok(p)
        case Nothing => Ok(default)
  }

  /** `get_input_processor(field)`: a truthy `<field>_in` attribute wins,
      otherwise the item's field metadata or the class default decides. */
  function InputProcessor(cfg: LoaderConfig, kind: ItemKind, field: string): (r: Result<Proc>)
    ensures field in cfg.fieldIn && cfg.fieldIn[field].Some? ==> r.Ok? && r.value == cfg.fieldIn[field].value
    ensures !(field in cfg.fieldIn && cfg.fieldIn[field].Some?) ==> r == ItemFieldAttr(kind, field, true, cfg.defaultIn)
  {
    if field in cfg.fieldIn && cfg.fieldIn[field].Some? then Ok(cfg.fieldIn[field].value)
    else ItemFieldAttr(kind, field, true, cfg.defaultIn)
  }

  /** `get_output_processor(field)`, the same search with `<field>_out`. */
  function OutputProcessor(cfg: LoaderConfig, kind: ItemKind, field: string): (r: Result<Proc>)
    ensures field in cfg.fieldOut && cfg.fieldOut[field].Some? ==> r.Ok? && r.value == cfg.fieldOut[field].value
    ensures !(field in cfg.fieldOut && cfg.fieldOut[field].Some?) ==> r == ItemFieldAttr(kind, field, false, cfg.defaultOut)
  {
    if field in cfg.fieldOut && cfg.fieldOut[field].Some? then Ok(cfg.fieldOut[field].value)
    else ItemFieldAttr(kind, field, false, cfg.defaultOut)
  }

  /** The precedence of both resolutions: a truthy loader attribute, then the
      item's field metadata, then the class default; resolution fails only
      for an `Item` that does not declare the field and only when no
      attribute is set. */
  lemma ProcessorResolution(cfg: LoaderConfig, kind: ItemKind, field: string)
    ensures field in cfg.fieldIn && cfg.fieldIn[field].Some? ==>
      InputProcessor(cfg, kind, field).Ok? && InputProcessor(cfg, kind, field).value == cfg.fieldIn[field].value
    ensures field in cfg.fieldOut && cfg.fieldOut[field].Some? ==>
      OutputProcessor(cfg, kind, field).Ok? && OutputProcessor(cfg, kind, field).value == cfg.fieldOut[field].value
    ensures InputProcessor(cfg, kind, field).Err? <==>
      !(field in cfg.fieldIn && cfg.fieldIn[field].Some?) && kind.ItemClass? && field !in kind.fields
    ensures OutputProcessor(cfg, kind, field).Err? <==>
      !(field in cfg.fieldOut && cfg.fieldOut[field].Some?) && kind.ItemClass? && field !in kind.fields
    ensures kind.PlainMapping? && !(field in cfg.fieldIn && cfg.fieldIn[field].Some?) ==>
      InputProcessor(cfg, kind, field).Ok? && InputProcessor(cfg, kind, field).value == cfg.defaultIn
    ensures kind.PlainMapping? && !(field in cfg.fieldOut && cfg.fieldOut[field].Some?) ==>
      OutputProcessor(cfg, kind, field).Ok? && OutputProcessor(cfg, kind, field).value == cfg.defaultOut
  {
  }

  // ---------------------------------------------------------------------
  // Collecting values

  /** `self._values[field]` read through the default dictionary. */
  function CollectedOf(values: Collected, field: string): (r: seq<Val>)
    ensures field in values ==> r == values[field]
    ensures field !in values ==> r == []
  {
    if field in values then values[field] else []
  }

  /** `values` and `other` agree on `field`: both lack it or both hold the
      same list. */
  predicate SameAt(values: Collected, other: Collected, field: string) {
    (field in values <==> field in other) && (field in values ==> values[field] == other[field])
  }

  /** Every collected list is non-empty. */
  predicate NonEmptyLists(values: Collected) {
    forall f :: f in values ==> values[f] != []
  }

  /** `_add_value(field, value)`: the value, as a list, goes through the
      field's input processor; a truthy result is appended to the field's
      list, a falsy one changes nothing. */
  function AddOne(cfg: LoaderConfig, kind: ItemKind, values: Collected, field: string, value: Val): (r: Step)
    ensures forall f :: f != field ==> SameAt(r.values, values, f)
    ensures InputProcessor(cfg, kind, field).Err? <==> r.outcome.Fail?
    ensures r.outcome.Fail? ==> r.values == values && r.outcome.error == KeyError(field)
    ensures InputProcessor(cfg, kind, field).Ok? ==>
      var processed := InputProcessor(cfg, kind, field).value(List(ArgToIter(value)));
      && (Truthy(processed) ==>
            field in r.values && r.values[field] == CollectedOf(values, field) + ArgToIter(processed)
            && r.values[field] != [])
      && (!Truthy(processed) ==> r.values == values)
  {
    match InputProcessor(cfg, kind, field)
    case Err(e) => Step(values, Fail(e))
    case Ok(p) =>
      var processed := p(List(ArgToIter(value)));
      if Truthy(processed) then
        TruthyArgToIterNonEmpty(processed);
        Step(values[field := CollectedOf(values, field) + ArgToIter(processed)], Pass)
      else Step(values, Pass)
  }

  /** `_replace_value(field, value)`: the field's list is dropped first, even
      when resolving the input processor then fails; the field stays absent
      when the processed value is falsy. */
  function ReplaceOne(cfg: LoaderConfig, kind: ItemKind, values: Collected, field: string, value: Val): (r: Step)
    ensures forall f :: f != field ==> SameAt(r.values, values, f)
    ensures InputProcessor(cfg, kind, field).Err? <==> r.outcome.Fail?
    ensures r.outcome.Fail? ==> r.values == values - {field} && r.outcome.error == KeyError(field)
    ensures InputProcessor(cfg, kind, field).Ok? ==>
      var processed := InputProcessor(cfg, kind, field).value(List(ArgToIter(value)));
      && (field in r.values <==> Truthy(processed))
      && (field in r.values ==> r.values[field] == ArgToIter(processed))
  {
    AddOne(cfg, kind, values - {field}, field, value)
  }

  /** One entry of a fanned-out dictionary, added or replaced. */
  function StepOne(cfg: LoaderConfig, kind: ItemKind, values: Collected, field: string, value: Val, replace: bool): (r: Step)
    ensures forall f :: f != field ==> SameAt(r.values, values, f)
    ensures InputProcessor(cfg, kind, field).Err? <==> r.outcome.Fail?
    ensures r.outcome.Fail? ==> r.outcome.error == KeyError(field)
  {
    if replace then ReplaceOne(cfg, kind, values, field, value) else AddOne(cfg, kind, values, field, value)
  }

  /** The entries of a dictionary, one after the other, stopping at the
      first that fails. */
  function AddEntries(cfg: LoaderConfig, kind: ItemKind, values: Collected, entries: seq<(string, Val)>, replace: bool): (r: Step)
    ensures r.outcome.Fail? ==>
      exists i :: 0 <= i < |entries| && r.outcome.error == KeyError(entries[i].0)
                  && InputProcessor(cfg, kind, entries[i].0).Err?
    decreases |entries|
  {
    if entries == [] then Step(values, Pass)
    else
      var s := StepOne(cfg, kind, values, entries[0].0, entries[0].1, replace);
      if s.outcome.Fail? then s else AddEntries(cfg, kind, s.values, entries[1..], replace)
  }

  /** `add_value(field, value, *processors)` or, with `replace`,
      `replace_value`: a falsy processed value changes nothing; an empty
      field name fans a dictionary out over its keys and fails with an
      `AttributeError` on anything else. */
  function PutValue(cfg: LoaderConfig, kind: ItemKind, values: Collected, field: string, value: Val,
                    processors: seq<Proc>, replace: bool): (r: Step)
    ensures !Truthy(Processors.Chain(processors, true, value)) ==> r == Step(values, Pass)
    ensures (field == "" && Truthy(Processors.Chain(processors, true, value))
             && !Processors.Chain(processors, true, value).Dict?) ==> r == Step(values, Fail(AttributeError))
  {
    var v := Processors.Chain(processors, true, value);
    if !Truthy(v) then Step(values, Pass)
    else if field == "" then
      if v.Dict? then AddEntries(cfg, kind, values, v.entries, replace) else Step(values, Fail(AttributeError))
    else StepOne(cfg, kind, values, field, v, replace)
  }

  /** Adding or replacing keeps every collected list non-empty. */
  lemma {:induction false} AddEntriesNonEmpty(cfg: LoaderConfig, kind: ItemKind, values: Collected,
                                               entries: seq<(string, Val)>, replace: bool)
    requires NonEmptyLists(values)
    ensures NonEmptyLists(AddEntries(cfg, kind, values, entries, replace).values)
    decreases |entries|
  {
    if entries != [] {
      var s := StepOne(cfg, kind, values, entries[0].0, entries[0].1, replace);
      StepOneNonEmpty(cfg, kind, values, entries[0].0, entries[0].1, replace);
      if s.outcome.Pass? {
        AddEntriesNonEmpty(cfg, kind, s.values, entries[1..], replace);
      }
    }
  }

  lemma StepOneNonEmpty(cfg: LoaderConfig, kind: ItemKind, values: Collected, field: string, value: Val, replace: bool)
    requires NonEmptyLists(values)
    ensures NonEmptyLists(StepOne(cfg, kind, values, field, value, replace).values)
  {
    var r := StepOne(cfg, kind, values, field, value, replace);
    forall f | f in r.values ensures r.values[f] != [] {
      if f != field {
        assert SameAt(r.values, values, f);
      }
    }
  }

  lemma PutValueNonEmpty(cfg: LoaderConfig, kind: ItemKind, values: Collected, field: string, value: Val,
                         processors: seq<Proc>, replace: bool)
    requires NonEmptyLists(values)
    ensures NonEmptyLists(PutValue(cfg, kind, values, field, value, processors, replace).values)
  {
    var v := Processors.Chain(processors, true, value);
    if Truthy(v) {
      if field == "" && v.Dict? {
        AddEntriesNonEmpty(cfg, kind, values, v.entries, replace);
      } else if field != "" {
        StepOneNonEmpty(cfg, kind, values, field, v, replace);
      }
    }
  }

  /** The base `ItemLoader` on an instance of the base `Item`, which
      declares no field, collects nothing: resolving any field's input
      processor raises a `KeyError`. On a plain mapping it collects the
      coerced value unchanged, through the identity input processor. */
  lemma BaseLoader(field: string, value: Val)
    ensures var c := BaseConfig();
      AddOne(c, ItemClass(c.defaultItemFields), map[], field, value) == Step(map[], Fail(KeyError(field)))
    ensures var s := AddOne(BaseConfig(), PlainMapping, map[], field, value);
      && s.outcome == Pass
      && (ArgToIter(value) != [] ==> s.values == map[field := ArgToIter(value)])
      && (ArgToIter(value) == [] ==> s.values == map[])
  {
    var c := BaseConfig();
    ArgToIterIdempotent(value);
    assert InputProcessor(c, PlainMapping, field) == Ok(c.defaultIn);
    assert c.defaultIn(List(ArgToIter(value))) == List(ArgToIter(value));
    assert CollectedOf(map[], field) + ArgToIter(value) == ArgToIter(value);
    var m: Collected := map[];
    assert m[field := ArgToIter(value)] == map[field := ArgToIter(value)];
  }

  /** What adding does to `field` depends only on what `field` held. */
  lemma AddOneLocal(cfg: LoaderConfig, kind: ItemKind, a: Collected, b: Collected, field: string, value: Val)
    requires SameAt(a, b, field)
    ensures SameAt(AddOne(cfg, kind, a, field, value).values, AddOne(cfg, kind, b, field, value).values, field)
    ensures AddOne(cfg, kind, a, field, value).outcome == AddOne(cfg, kind, b, field, value).outcome
  {
    assert CollectedOf(a, field) == CollectedOf(b, field);
  }

  /** What a step does to `field` depends only on what `field` held. */
  lemma StepOneLocal(cfg: LoaderConfig, kind: ItemKind, a: Collected, b: Collected, field: string, value: Val, replace: bool)
    requires SameAt(a, b, field)
    ensures SameAt(StepOne(cfg, kind, a, field, value, replace).values,
                   StepOne(cfg, kind, b, field, value, replace).values, field)
    ensures StepOne(cfg, kind, a, field, value, replace).outcome
         == StepOne(cfg, kind, b, field, value, replace).outcome
  {
    if replace {
      AddOneLocal(cfg, kind, a - {field}, b - {field}, field, value);
    } else {
      AddOneLocal(cfg, kind, a, b, field, value);
    }
  }

  predicate DistinctKeys(entries: seq<(string, Val)>) {
    forall i, j :: 0 <= i < j < |entries| ==> entries[i].0 != entries[j].0
  }

  predicate KeyOf(entries: seq<(string, Val)>, f: string) {
    exists i :: 0 <= i < |entries| && entries[i].0 == f
  }

  /** With distinct keys, a fan-out that succeeds leaves each key as adding
      its own entry alone would, and every other field as it was. The result
      is therefore the same in every iteration order of the dictionary. */
  lemma {:induction false} FanOutPointwise(cfg: LoaderConfig, kind: ItemKind, values: Collected,
                                           entries: seq<(string, Val)>, replace: bool)
    requires DistinctKeys(entries)
    requires AddEntries(cfg, kind, values, entries, replace).outcome.Pass?
    ensures var r := AddEntries(cfg, kind, values, entries, replace).values;
      && (forall i :: 0 <= i < |entries| ==>
            SameAt(r, StepOne(cfg, kind, values, entries[i].0, entries[i].1, replace).values, entries[i].0))
      && (forall f :: !KeyOf(entries, f) ==> SameAt(r, values, f))
    decreases |entries|
  {
    var r := AddEntries(cfg, kind, values, entries, replace).values;
    if entries != [] {
      var k := entries[0].0;
      var s := StepOne(cfg, kind, values, k, entries[0].1, replace);
      var rest := entries[1..];
      assert DistinctKeys(rest) by {
        forall i, j | 0 <= i < j < |rest| ensures rest[i].0 != rest[j].0 {
          assert rest[i] == entries[i + 1] && rest[j] == entries[j + 1];
        }
      }
      FanOutPointwise(cfg, kind, s.values, rest, replace);
      assert !KeyOf(rest, k) by {
        forall i | 0 <= i < |rest| ensures rest[i].0 != k {
          assert rest[i] == entries[i + 1];
        }
      }
      forall i | 0 <= i < |entries|
        ensures SameAt(r, StepOne(cfg, kind, values, entries[i].0, entries[i].1, replace).values, entries[i].0)
      {
        if i == 0 {
          assert SameAt(r, s.values, k);
        } else {
          assert entries[i] == rest[i - 1];
          var f := entries[i].0;
          assert f != k;
          assert SameAt(s.values, values, f);
          StepOneLocal(cfg, kind, s.values, values, f, entries[i].1, replace);
        }
      }
      forall f | !KeyOf(entries, f) ensures SameAt(r, values, f) {
        assert f != k by {
          assert entries[0].0 == k;
        }
        assert !KeyOf(rest, f) by {
          forall i | 0 <= i < |rest| ensures rest[i].0 != f {
            assert rest[i] == entries[i + 1];
          }
        }
        assert SameAt(r, s.values, f);
        assert SameAt(s.values, values, f);
      }
    }
  }

  // ---------------------------------------------------------------------
  // Output

  /** Every collected field has an output processor. */
  predicate OutputsResolve(cfg: LoaderConfig, kind: ItemKind, values: Collected) {
    forall f :: f in values ==> OutputProcessor(cfg, kind, f).Ok?
  }

  /** What `load_item` writes: every collected field, empty outputs
      included, set to its output processor's value on its list. */
  function Outputs(cfg: LoaderConfig, kind: ItemKind, values: Collected): (r: map<string, Val>)
    requires OutputsResolve(cfg, kind, values)
    ensures r.Keys == values.Keys
    ensures forall f :: f in r ==> r[f] == OutputProcessor(cfg, kind, f).value(List(values[f]))
  {
    map f | f in values :: OutputProcessor(cfg, kind, f).value(List(values[f]))
  }

  lemma UpdateAfterMerge(m: map<string, Val>, w: map<string, Val>, f: string, v: Val)
    ensures (m + w)[f := v] == m + w[f := v]
  {
  }

  /** Merging the same map a second time changes nothing. */
  lemma MergeTwice(item: map<string, Val>, out: map<string, Val>)
    ensures (item + out) + out == item + out
  {
    assert forall f :: f in (item + out) + out <==> f in item + out;
  }

  /** `load_item` stopped by an exception: the fields of `w`, all of them
      collected and resolvable, were already written with their output
      values over the item's old values, and no other field was. */
  ghost predicate WrittenBefore(cfg: LoaderConfig, kind: ItemKind, values: Collected, w: set<string>,
                                before: map<string, Val>, after: map<string, Val>) {
    && w <= values.Keys
    && (forall f :: f in w ==> OutputProcessor(cfg, kind, f).Ok?)
    && after == before + (map f | f in w :: OutputProcessor(cfg, kind, f).value(List(values[f])))
  }

  /** The outputs written so far, as a set of fields. */
  lemma WrittenSoFar(cfg: LoaderConfig, kind: ItemKind, values: Collected, written: map<string, Val>,
                     before: map<string, Val>, after: map<string, Val>)
    requires written.Keys <= values.Keys
    requires forall f :: f in written ==>
      OutputProcessor(cfg, kind, f).Ok? && written[f] == OutputProcessor(cfg, kind, f).value(List(values[f]))
    requires after == before + written
    ensures WrittenBefore(cfg, kind, values, written.Keys, before, after)
  {
    assert written == map f | f in written.Keys :: OutputProcessor(cfg, kind, f).value(List(values[f]));
  }

  // ---------------------------------------------------------------------
  // The loaders

  class ItemLoader {
    const config: LoaderConfig
    var item: Item
    var context: map<string, ContextValue>
    /** `_values`; a field read through the default dictionary is inserted. */
    var values: Collected

    /** `ItemLoader(item, **context)`: without an item, an empty instance of
        `default_item_class`; the context gets the item under `item`. */
    constructor (config: LoaderConfig, item: Option<Item>, context: map<string, ContextValue>)
      ensures this.config == config
      ensures this.item == if item.Some? then item.value else Item(ItemClass(config.defaultItemFields), map[])
      ensures this.context == context["item" := ItemRef]
      ensures values == map[]
    {
      this.config := config;
      this.item := if item.Some? then item.value else Item(ItemClass(config.defaultItemFields), map[]);
      this.context := context["item" := ItemRef];
      this.values := map[];
    }

    /** `get_value(value, *processors)`: the processors, left to right,
        until the value is `None`. */
    method GetValue(value: Val, processors: seq<Proc>) returns (r: Val)
      ensures r == Processors.Chain(processors, true, value)
    {
      r := value;
      var i := 0;
      while i < |processors|
        invariant 0 <= i <= |processors|
        invariant Processors.Chain(processors[i..], true, r) == Processors.Chain(processors, true, value)
      {
        if r == None {
          break;
        }
        assert processors[i..][1..] == processors[i + 1..];
        r := processors[i](r);
        i := i + 1;
      }
    }

    /** `_add_value(field, value)`. */
    method AddOneValue(field: string, value: Val) returns (o: Outcome)
      modifies this
      ensures Step(values, o) == AddOne(config, item.kind, old(values), field, value)
      ensures item == old(item) && context == old(context)
    {
      var p := InputProcessor(config, item.kind, field);
      if p.Err? {
        return Fail(p.error);
      }
      var processed := p.value(List(ArgToIter(value)));
      if Truthy(processed) {
        values := values[field := CollectedOf(values, field) + ArgToIter(processed)];
      }
      return Pass;
    }

    /** `_replace_value(field, value)`. */
    method ReplaceOneValue(field: string, value: Val) returns (o: Outcome)
      modifies this
      ensures Step(values, o) == ReplaceOne(config, item.kind, old(values), field, value)
      ensures item == old(item) && context == old(context)
    {
      values := values - {field};
      o := AddOneValue(field, value);
    }

    method PutEntries(entries: seq<(string, Val)>, replace: bool) returns (o: Outcome)
      modifies this
      ensures Step(values, o) == AddEntries(config, item.kind, old(values), entries, replace)
      ensures item == old(item) && context == old(context)
    {
      var i := 0;
      while i < |entries|
        invariant 0 <= i <= |entries|
        invariant AddEntries(config, item.kind, values, entries[i..], replace)
               == AddEntries(config, item.kind, old(values), entries, replace)
        invariant item == old(item) && context == old(context)
      {
        assert entries[i..][1..] == entries[i + 1..];
        if replace {
          o := ReplaceOneValue(entries[i].0, entries[i].1);
        } else {
          o := AddOneValue(entries[i].0, entries[i].1);
        }
        if o.Fail? {
          return;
        }
        i := i + 1;
      }
      return Pass;
    }

    method Put(field: string, value: Val, processors: seq<Proc>, replace: bool) returns (o: Outcome)
      modifies this
      ensures Step(values, o) == PutValue(config, item.kind, old(values), field, value, processors, replace)
      ensures item == old(item) && context == old(context)
    {
      var v := GetValue(value, processors);
      if !Truthy(v) {
        return Pass;
      }
      if field == "" {
        if !v.Dict? {
          return Fail(AttributeError);
        }
        o := PutEntries(v.entries, replace);
      } else if replace {
        o := ReplaceOneValue(field, v);
      } else {
        o := AddOneValue(field, v);
      }
    }

    /** `add_value(field, value, *processors)`; the empty field name stands
        for every falsy one. */
    method AddValue(field: string, value: Val, processors: seq<Proc>) returns (o: Outcome)
      modifies this
      ensures Step(values, o) == PutValue(config, item.kind, old(values), field, value, processors, false)
      ensures item == old(item) && context == old(context)
    {
      o := Put(field, value, processors, false);
    }

    /** `replace_value(field, value, *processors)`. */
    method ReplaceValue(field: string, value: Val, processors: seq<Proc>) returns (o: Outcome)
      modifies this
      ensures Step(values, o) == PutValue(config, item.kind, old(values), field, value, processors, true)
      ensures item == old(item) && context == old(context)
    {
      o := Put(field, value, processors, true);
    }

    /** `get_output_value(field)`: the output processor on the field's list;
        a field never added reads `[]` and is inserted with it. */
    method GetOutputValue(field: string) returns (r: Result<Val>)
      modifies this
      ensures OutputProcessor(config, item.kind, field).Err? ==>
        r == Err(KeyError(field)) && values == old(values)
      ensures OutputProcessor(config, item.kind, field).Ok? ==>
        && values == old(values)[field := CollectedOf(old(values), field)]
        && r == Ok(OutputProcessor(config, item.kind, field).value(List(CollectedOf(old(values), field))))
      ensures item == old(item) && context == old(context)
    {
      var p := OutputProcessor(config, item.kind, field);
      if p.Err? {
        return Err(p.error);
      }
      var collected := CollectedOf(values, field);
      values := values[field := collected];
      return Ok(p.value(List(collected)));
    }

    /** `get_collected_values(field)`: the field's list, `[]` (and inserted)
        for a field never added. */
    method GetCollectedValues(field: string) returns (r: seq<Val>)
      modifies this
      ensures r == CollectedOf(old(values), field)
      ensures values == old(values)[field := r]
      ensures item == old(item) && context == old(context)
    {
      r := CollectedOf(values, field);
      values := values[field := r];
    }

    /** `load_item()`: every collected field is set in the item to its
        output value. The collected values are left as they were, so a
        second call writes the same contents. A field whose output processor
        cannot be resolved raises a `KeyError`, after the fields already
        written. */
    method LoadItem() returns (r: Result<Item>)
      modifies this
      ensures values == old(values) && context == old(context)
      ensures item.kind == old(item).kind
      ensures r.Ok? <==> OutputsResolve(config, item.kind, values)
      ensures r.Ok? ==>
        r.value == item && item.values == old(item).values + Outputs(config, item.kind, values)
      ensures r.Err? ==>
        exists f :: f in values && r.error == KeyError(f) && OutputProcessor(config, item.kind, f).Err?
      ensures r.Err? ==>
        exists w: set<string> :: WrittenBefore(config, item.kind, values, w, old(item).values, item.values)
    {
      var remaining := values.Keys;
      ghost var written: map<string, Val> := map[];
      while remaining != {}
        invariant remaining <= values.Keys
        invariant values == old(values) && context == old(context) && item.kind == old(item).kind
        invariant written.Keys == values.Keys - remaining
        invariant forall f :: f in written ==>
          OutputProcessor(config, item.kind, f).Ok?
          && written[f] == OutputProcessor(config, item.kind, f).value(List(values[f]))
        invariant item.values == old(item).values + written
        decreases remaining
      {
        var f :| f in remaining;
        var o := GetOutputValue(f);
        assert values == old(values);
        if o.Err? {
          WrittenSoFar(config, item.kind, values, written, old(item).values, item.values);
          return Err(o.error);
        }
        UpdateAfterMerge(old(item).values, written, f, o.value);
        item := item.(values := item.values[f := o.value]);
        written := written[f := o.value];
        remaining := remaining - {f};
      }
      assert written == Outputs(config, item.kind, values);
      return Ok(item);
    }

    /** `load_item()` called twice in a row: the second call succeeds
        exactly when the first did and then writes the same contents, since
        the collected values are left as they were. */
    method LoadItemTwice() returns (first: Result<Item>, second: Result<Item>)
      modifies this
      ensures first.Ok? <==> second.Ok?
      ensures first.Ok? <==> OutputsResolve(config, item.kind, values)
      ensures first.Ok? ==>
        && second.value.values == first.value.values
        && first.value.values == old(item).values + Outputs(config, item.kind, values)
      ensures values == old(values) && context == old(context) && item.kind == old(item).kind
    {
      first := LoadItem();
      second := LoadItem();
      if first.Ok? {
        MergeTwice(old(item).values, Outputs(config, item.kind, values));
      }
    }
  }

  /** `XPathItemLoader._get_values(field, xpath, re)`: the selection's `re`
      matches when `re` is truthy, its extracted strings otherwise. */
  function XPathValues(engine: SelectorList.Engine, selector: SelectorList.Selector, xpath: string,
                       re: Option<string>): (r: seq<string>)
    ensures var x := SelectorList.SelList(engine.select(selector, xpath));
      && (re.Some? && re.value != "" ==> r == SelectorList.Re(x, engine, re.value))
      && (re.Nothing? || re.value == "" ==> r == SelectorList.Extract(x, engine))
  {
    var x := SelectorList.SelList(engine.select(selector, xpath));
    if re.Some? && re.value != "" then SelectorList.Re(x, engine, re.value)
    else SelectorList.Extract(x, engine)
  }

  /** The strings as the list value handed to `add_value`. */
  function StrList(ss: seq<string>): (r: Val)
    ensures r.List? && |r.items| == |ss|
    ensures forall i :: 0 <= i < |ss| ==> r.items[i] == Str(ss[i])
  {
    if ss == [] then List([]) else List(StrList(ss[..|ss| - 1]).items + [Str(ss[|ss| - 1])])
  }

  class XPathItemLoader {
    const loader: ItemLoader
    const selector: SelectorList.Selector
    const engine: SelectorList.Engine

    constructor Make(loader: ItemLoader, selector: SelectorList.Selector, engine: SelectorList.Engine)
      ensures this.loader == loader && this.selector == selector && this.engine == engine
    {
      this.loader := loader;
      this.selector := selector;
      this.engine := engine;
    }

    /** `XPathItemLoader(item, selector, response, **context)`: a
        `RuntimeError` without selector and response; otherwise the given
        selector, or the default selector class built on the response, and a
        context holding the item, the selector and the response. */
    static method New(config: LoaderConfig, item: Option<Item>, selector: Option<SelectorList.Selector>,
                      response: Option<Response>, context: map<string, ContextValue>,
                      defaultSelector: Response -> SelectorList.Selector, engine: SelectorList.Engine)
      returns (r: Result<XPathItemLoader>)
      ensures r.Err? <==> selector.Nothing? && response.Nothing?
      ensures r.Err? ==> r.error == RuntimeError
      ensures r.Ok? ==>
        var sel := if selector.Some? then selector.value else defaultSelector(response.value);
        && fresh(r.value) && fresh(r.value.loader)
        && r.value.selector == sel && r.value.engine == engine
        && r.value.loader.config == config
        && r.value.loader.item == (if item.Some? then item.value else Item(ItemClass(config.defaultItemFields), map[]))
        && r.value.loader.context
           == context["selector" := SelectorRef(sel)]["response" := ResponseRef(response)]["item" := ItemRef]
        && r.value.loader.values == map[]
    {
      if selector.Nothing? && response.Nothing? {
        return Err(RuntimeError);
      }
      var sel := if selector.Some? then selector.value else defaultSelector(response.value);
      var ctx := context["selector" := SelectorRef(sel)]["response" := ResponseRef(response)];
      var base := new ItemLoader(config, item, ctx);
      var x := new XPathItemLoader.Make(base, sel, engine);
      return Ok(x);
    }

    /** `add_xpath(field, xpath, re)`. */
    method AddXPath(field: string, xpath: string, re: Option<string>) returns (o: Outcome)
      modifies loader
      ensures Step(loader.values, o)
        == PutValue(loader.config, loader.item.kind, old(loader.values), field,
                    StrList(XPathValues(engine, selector, xpath, re)), [], false)
      ensures loader.item == old(loader.item) && loader.context == old(loader.context)
    {
      o := loader.AddValue(field, StrList(XPathValues(engine, selector, xpath, re)), []);
    }

    /** `replace_xpath(field, xpath, re)`. */
    method ReplaceXPath(field: string, xpath: string, re: Option<string>) returns (o: Outcome)
      modifies loader
      ensures Step(loader.values, o)
        == PutValue(loader.config, loader.item.kind, old(loader.values), field,
                    StrList(XPathValues(engine, selector, xpath, re)), [], true)
      ensures loader.item == old(loader.item) && loader.context == old(loader.context)
    {
      o := loader.ReplaceValue(field, StrList(XPathValues(engine, selector, xpath, re)), []);
    }
  }
}
