# Item loaders, loader processors, the CSS-to-XPath translator and selector lists

This project models four parts of scrapy's scraping toolkit in Dafny and
proves properties of them.

* **Loader processors** (`Processors`). These are the processors an item
  loader chains over scraped values:
  * `MapCompose` stages every function over a flattened batch of values;
  * `Compose` chains functions over one value and stops at `None`;
  * the reducers `TakeFirst`, `Identity`, `Join`, `Take` and `TakeOne`;
  * the regex extractor `RegexExtract`;
  * the single-or-many dispatch of `SingleMultipleProcessor`, with
    `ReplaceTag`, `RemoveTag`, `Strip`, `Replace`, `Split` and
    `JoinCanonicalizeUrl` built on it.
* **Item loaders** (`Loader`). `ItemLoader` is a class holding the item,
  the loader context and the `_values` accumulator of collected values per
  field. Its methods change the accumulator:
  * `add_value` and `replace_value`, through `get_value`, `_add_value` and
    `_replace_value`, including the fan-out of a dictionary when the field
    name is empty;
  * the resolution of input and output processors: a loader attribute,
    then the item's field metadata, then the class default;
  * `get_output_value`, `get_collected_values` and `load_item`.

  `XPathItemLoader` wraps an item loader and feeds it from an XPath
  selector.
* **CSS-to-XPath translation** (`CssPath`). `css2xpath` splits a mixture of
  CSS and XPath at slash runs. It keeps the slash runs, and rewrites each
  other piece that `is_css_path` accepts with `term`. `term` splits the
  piece at combinator runs of spaces and `>`, and `operand` renders class
  and id selectors as XPath predicates. Every example in the translator's
  documentation is proved.
* **Selector lists** (`SelectorList`). `XPathSelectorList`'s `select`,
  `re`, `re1`, `extract`, `extract1`, `extract_unquoted`, slicing and `x`
  are modelled over an abstract per-element XPath engine.

Shared Python semantics live in `Values` (`values.dfy`): values,
truthiness, `arg_to_iter`, the exceptions the core raises, and slice and
index arithmetic. The `re` character classes and `str.strip` live in
`Strings` (`strings.dfy`).

Loops in the source are methods with loop invariants. Each is proved equal
to a specification function, and the properties are proved about those
functions:
* `MapCompose`, `Compose`, `TakeFirst` and `RegexExtract`;
* `css2xpath`, `term` and `operand`;
* `get_value`, the dictionary fan-out and `load_item`.

The model keeps the source's error paths as values: `Result` and
`Outcome` carry `IndexError`, `KeyError`, `AttributeError`,
`AssertionError` and `RuntimeError`.

Where the documentation and the code differ, the model follows the code:
* `re1` with a negative index below minus the number of matches raises an
  `IndexError`. The length test lets every negative index through, and
  Python indexing then fails.
* `operand` iterates the four patterns of a dictionary in no fixed order.
  The model tries them in a fixed order, and `PatternsExclusive` shows
  that no text matches two patterns, so the order does not change the
  result.

## Model

| member | source | states |
|---|---|---|
| Values.ArgToIter | scrapy/contrib/loader/processor.py:20 | `None` becomes the empty batch; a list or tuple is kept; anything else, strings and dicts included, becomes a one-element batch |
| Values.TruthyArgToIterNonEmpty | scrapy/contrib/loader/__init__.py:65-66 | a truthy processed value never coerces to an empty batch, so a recorded list is never empty |
| Values.ArgToIterIdempotent | scrapy/contrib/loader/__init__.py:63-64 | coercing a coerced batch again changes nothing |
| Values.SliceBound | scrapy/contrib/loader/processor.py:82-84 | Python's bound normalisation: negative bounds count from the end, then bounds are clamped to the length |
| Values.PySlice | scrapy/contrib/loader/processor.py:82-84 | `values[i:j]` has the length of the normalised range and holds the elements of that range in order |
| Values.PyIndex | scrapy/contrib/loader/processor.py:90 | `values[i]` succeeds exactly for `-len <= i < len`; a negative index counts from the end; otherwise `IndexError` |
| Values.PySliceSplit | scrapy/contrib/loader/processor.py:82-84 | `s[:k] + s[k:] == s` for every integer `k` |
| Strings.LeadingRunSpec | scrapy/contrib/loader/processor.py:171-172 | the leading strippable run consists of strippable characters and cannot be extended |
| Strings.TrailingRunSpec | scrapy/contrib/loader/processor.py:171-172 | the trailing strippable run consists of strippable characters and cannot be extended |
| Strings.StripChars | scrapy/contrib/loader/processor.py:171-172 | `str.strip(chars)`, characterised by `StripCharsSpec`, `StripIdempotent` and `StripKeepsTrimmed` |
| Strings.StripCharsSpec | scrapy/contrib/loader/processor.py:171-172 | `strip` keeps a middle part whose cut-off ends are strippable and whose own ends are not; a fully strippable string becomes empty |
| Strings.StripIdempotent | scrapy/contrib/loader/processor.py:171-172 | stripping twice is stripping once |
| Strings.StripKeepsTrimmed | scrapy/selector/csspath.py:75 | a string with no strippable character at either end is unchanged |
| Processors.Stage | scrapy/contrib/loader/processor.py:27-30 | one `MapCompose` stage over a batch, characterised by `StageAppend`, `StageSingleton` and `StageElement` |
| Processors.Pipeline | scrapy/contrib/loader/processor.py:26-30 | every function staged in turn, characterised by `PipelineConcat` and `PipelineFirst`, and by the method `MapCompose` |
| Processors.StageAppend | scrapy/contrib/loader/processor.py:27-30 | one `MapCompose` stage works element by element: it distributes over concatenation of the batch |
| Processors.StageSingleton | scrapy/contrib/loader/processor.py:29 | one element contributes `arg_to_iter(f(v))` to the next batch |
| Processors.StageElement | scrapy/contrib/loader/processor.py:28-29 | an element whose result is `None` drops out of the batch while its neighbours stay in order |
| Processors.PipelineConcat | scrapy/contrib/loader/processor.py:26-30 | running `fs + gs` runs `fs`, then runs `gs` on the result |
| Processors.PipelineFirst | scrapy/contrib/loader/processor.py:26-30 | the first function is staged first |
| Processors.MapCompose | scrapy/contrib/loader/processor.py:19-31 | the nested loops return the pipeline of all functions over `arg_to_iter(value)`; without functions, that batch itself |
| Processors.MapComposeDoubling | scrapy/contrib/loader/processor.py:26-30 | staging `f(n) = [n, n]` twice over `[x, y]` gives four `x` then four `y`, flattened in order |
| Processors.StopOnNone | scrapy/contrib/loader/processor.py:38 | `stop_on_none` is off exactly when the default context holds a falsy value for it |
| Processors.Compose | scrapy/contrib/loader/processor.py:41-51 | the loop returns the chain of the functions over the value, cut at `None` when `stop_on_none` holds, which is the default |
| Processors.Chain | scrapy/contrib/loader/processor.py:46-51 | without functions the value is returned; a `None` value stays `None` when the chain stops on `None`; see also `ChainConcat` and `ChainCutByFirst` |
| Processors.ChainNoneStops | scrapy/contrib/loader/processor.py:48-49 | once the value is `None`, a stopping chain returns `None` for any remaining functions |
| Processors.ChainCutByFirst | scrapy/contrib/loader/processor.py:47-50 | a first function yielding `None` makes the whole stopping chain `None`, whatever follows |
| Processors.ChainConcat | scrapy/contrib/loader/processor.py:47-50 | chains compose: running `fs + gs` is running `fs`, then `gs` |
| Processors.ChainNoStopAppliesLast | scrapy/contrib/loader/processor.py:47-50 | without `stop_on_none` the last function is applied even to `None` |
| Processors.TakeFirst | scrapy/contrib/loader/processor.py:56-59 | the result is `None` exactly when no value is truthy; otherwise it is the first truthy value |
| Processors.Identity | scrapy/contrib/loader/processor.py:62-65 | the values are returned as they are |
| Processors.Join | scrapy/contrib/loader/processor.py:73-74 | `separator.join(values)`, characterised by `JoinSnoc`, `JoinLength` and `JoinExample` |
| Processors.JoinSnoc | scrapy/contrib/loader/processor.py:73-74 | the separator stands only between consecutive values |
| Processors.JoinLength | scrapy/contrib/loader/processor.py:73-74 | the joined text has the lengths of all values plus `n - 1` separators |
| Processors.JoinExample | scrapy/contrib/loader/processor.py:70-74 | `", ".join(["a", "b", "c"])` is `"a, b, c"` |
| Processors.Take | scrapy/contrib/loader/processor.py:80-84 | within range, `values[start:]` without an end and `values[start:end]` with one |
| Processors.TakeSplit | scrapy/contrib/loader/processor.py:80-84 | `Take(0, k)` followed by `Take(k)` gives back the values, for every `k` |
| Processors.TakeOne | scrapy/contrib/loader/processor.py:89-90 | `IndexError` exactly when the index is out of range on both sides |
| Processors.TakeOneIsOneElementTake | scrapy/contrib/loader/processor.py:80-90 | except at index -1, `TakeOne(i)` succeeds exactly when `Take(i, i + 1)` is one element, and returns that element |
| Processors.RegexExtract | scrapy/contrib/loader/processor.py:97-107 | the nested loops collect, in input order, the groups of the first regex matching each value |
| Processors.FirstMatchIsFirst | scrapy/contrib/loader/processor.py:101-105 | only the first matching regex contributes; a value no regex matches contributes nothing |
| Processors.ExtractedAppend | scrapy/contrib/loader/processor.py:100-104 | values contribute independently and in order |
| Processors.SingleMultiple | scrapy/contrib/loader/processor.py:129-133 | `None` stays `None`; a scalar is processed directly; a dict maps over its keys |
| Processors.SingleMultipleList | scrapy/contrib/loader/processor.py:131 | on a list, each non-`None` element contributes `[process(x)]` in place, not flattened; `None` elements drop out |
| Processors.SingleMultipleLength | scrapy/contrib/loader/processor.py:131 | the result has one element per non-`None` input element |
| Processors.MapNonNoneAppend | scrapy/contrib/loader/processor.py:131 | the per-element mapping distributes over concatenation |
| Processors.MapNonNoneNoNone | scrapy/contrib/loader/processor.py:131 | over a list without `None`, the result is every element processed, position by position |
| Processors.StripScalar | scrapy/contrib/loader/processor.py:170-173 | a stripped string is a middle part of the input with strippable ends cut off, whitespace by default; an integer has no `strip` and is kept |
| Processors.Strip | scrapy/contrib/loader/processor.py:166-173 | `None` stays `None`; an integer, which has no `strip`, is kept; a string is stripped of the given characters, whitespace by default; a list or dict gives a list |
| Processors.StripIdempotent | scrapy/contrib/loader/processor.py:166-173 | `Strip` applied twice equals `Strip` applied once, on every value |
| Processors.NewRemoveTag | scrapy/contrib/loader/processor.py:151-155 | the constructor fails with an `AssertionError` exactly when `keep` is given without `keep_content` |
| Processors.RemoveTag | scrapy/contrib/loader/processor.py:149-164 | `None` stays `None`; a non-empty string goes to `remove_tags` with content kept and to `remove_tags_with_content` otherwise; a list or dict gives a list |
| Processors.RemoveTagKeepsEmpty | scrapy/contrib/loader/processor.py:157-160 | an empty string or zero is returned untouched; so is a list whose elements are all falsy and not `None`; a falsy element before a `None` is kept while the `None` drops out; the empty dict becomes the empty list |
| Processors.ReplaceTag | scrapy/contrib/loader/processor.py:140-147 | `None` stays `None`; a scalar goes through `replace_tags` with the replacement; a list or dict gives a list |
| Processors.ReplaceTagList | scrapy/contrib/loader/processor.py:140-147 | over a list, every element has its tags replaced, in place |
| Processors.Replace | scrapy/contrib/loader/processor.py:175-182 | `None` stays `None`; a scalar goes through `re.sub` with the pattern and replacement; a list or dict gives a list |
| Processors.ReplaceList | scrapy/contrib/loader/processor.py:175-182 | over a list, every element is substituted, in place |
| Processors.Split | scrapy/contrib/loader/processor.py:184-190 | `None` stays `None`; a scalar goes through `re.split` with the pattern; a list or dict gives a list |
| Processors.SplitPerElement | scrapy/contrib/loader/processor.py:184-190 | a list gives one split result per element, not flattened; a string gives its own split |
| Processors.JoinCanonicalizeUrl | scrapy/contrib/loader/processor.py:192-203 | `None` stays `None`; a URL is joined to a truthy base, then canonicalized when asked; with neither it is kept; a list or dict gives a list |
| Processors.JoinCanonicalizeUrlNoOp | scrapy/contrib/loader/processor.py:197-203 | without a truthy base and without canonicalization nothing changes; with both, the URL is joined first and then canonicalized |
| SelectorList.FlattenAppend | scrapy/selector/list.py:10 | flattening distributes over concatenation |
| SelectorList.FlattenMembers | scrapy/selector/list.py:10 | an element is in the flattening exactly when it is in one of the lists |
| SelectorList.Select | scrapy/selector/list.py:9-10 | the flattened selections of the elements, characterised by `SelectBase`, `SelectAppend` and `SelectMembers` |
| SelectorList.SelectBase | scrapy/selector/list.py:9-10 | selecting on no element gives an empty list; on one element, that element's selection |
| SelectorList.SelectAppend | scrapy/selector/list.py:9-10 | `select` distributes over list concatenation, so results keep element order |
| SelectorList.SelectMembers | scrapy/selector/list.py:9-10 | a node is selected exactly when some element selects it |
| SelectorList.Re | scrapy/selector/list.py:12-13 | the flattened matches of the elements, characterised by `ReBase`, `ReAppend` and `ReMembers` |
| SelectorList.ReBase | scrapy/selector/list.py:12-13 | `re` on no element is empty; on one element, that element's matches |
| SelectorList.ReAppend | scrapy/selector/list.py:12-13 | `re` distributes over list concatenation |
| SelectorList.ReMembers | scrapy/selector/list.py:12-13 | a string is a match exactly when some element matched it |
| SelectorList.Re1 | scrapy/selector/list.py:15-22 | the match at a valid index; `None` at or beyond the number of matches; from the end for a negative index; `IndexError` below minus the number of matches |
| SelectorList.Re1First | scrapy/selector/list.py:15-22 | with the default index, the first match, or `None` when nothing matched |
| SelectorList.Extract | scrapy/selector/list.py:24-25 | one extracted string per element, in element order |
| SelectorList.ExtractUnquoted | scrapy/selector/list.py:36-37 | one unquoted string per element, in element order |
| SelectorList.ExtractAppend | scrapy/selector/list.py:24-25 | `extract` distributes over list concatenation |
| SelectorList.Extract1 | scrapy/selector/list.py:27-34 | `None` exactly when the index is out of range; otherwise the element at the index, counted from the end for a negative index |
| SelectorList.Slice | scrapy/selector/list.py:6-7 | a selector list holding Python's slice of the elements |
| SelectorList.SliceSelect | scrapy/selector/list.py:6-10 | selecting on `l[:k]` and on `l[k:]` gives the whole list's selection |
| SelectorList.X | scrapy/selector/list.py:39-41 | the deprecated `x` returns what `select` returns |
| SelectorList.XIsSelect | scrapy/selector/list.py:39-41 | the deprecated `x` is `select` |
| CssPath.Runs | scrapy/selector/csspath.py:33-34 | the capturing split with empty pieces filtered out, characterised by `RunsConcat`, `RunsAlternate`, `RunsNonEmpty` and `RunsStep` |
| CssPath.RunsConcat | scrapy/selector/csspath.py:33-34 | the non-empty pieces of the capturing split concatenate back to the input |
| CssPath.RunsAlternate | scrapy/selector/csspath.py:33-34 | every piece is a non-empty uniform run, and neighbouring pieces alternate between separator and non-separator |
| CssPath.RunsNonEmpty | scrapy/selector/csspath.py:34 | empty pieces are filtered out |
| CssPath.RunsStep | scrapy/selector/csspath.py:33-34 | a maximal uniform first run splits off first |
| CssPath.IsCssPath | scrapy/selector/csspath.py:51-53 | the `is_css_path` pattern, characterised by `IsCssPathChars` and `CssPathHasNoSlash` |
| CssPath.IsCssPathChars | scrapy/selector/csspath.py:51-53 | a path is CSS exactly when it has a word character and only space, `>`, word, `#`, `.` and `-` characters, allowing a final newline |
| CssPath.CssPathHasNoSlash | scrapy/selector/csspath.py:51-53 | a CSS path has no slash |
| CssPath.PatternsExclusive | scrapy/selector/csspath.py:76-85 | no text matches two of the four operand patterns |
| CssPath.Operand | scrapy/selector/csspath.py:74-101 | the loop over the patterns returns the specified rendering |
| CssPath.OperandByPattern | scrapy/selector/csspath.py:82-101 | whatever pattern matches the stripped operand renders it; an operand matching none is returned stripped |
| CssPath.OperandName | scrapy/selector/csspath.py:74-101 | a bare element name is kept |
| CssPath.OperandTagged | scrapy/selector/csspath.py:86-94 | `tag.name` and `tag#name` render the class or id template on `tag`; trailing text that cannot extend the name is dropped |
| CssPath.OperandMarked | scrapy/selector/csspath.py:91-96 | `.name` and `#name` render the class or id template on `*` |
| CssPath.TermCombinator | scrapy/selector/csspath.py:63-66 | a run of spaces becomes `//`; a run holding `>` becomes `/` |
| CssPath.Term | scrapy/selector/csspath.py:55-71 | the loop returns the specified rewriting of the pieces |
| CssPath.TermKeepsXPath | scrapy/selector/csspath.py:56-57 | a piece that is not a CSS path is returned as it is |
| CssPath.TermOperand | scrapy/selector/csspath.py:59-71 | a CSS term without combinators is one operand |
| CssPath.TermTwoOperands | scrapy/selector/csspath.py:59-71 | `a <combinator> b` rewrites to both operands around `/` or `//` |
| CssPath.Css2XPathSpec | scrapy/selector/csspath.py:33-48 | the empty input is the only failure, an `IndexError` at `parts[0]` |
| CssPath.KeptStep | scrapy/selector/csspath.py:39-45 | one loop step appends the rewritten piece unless it is empty |
| CssPath.Css2XPath | scrapy/selector/csspath.py:33-48 | the loop returns the specified translation |
| CssPath.ConcatKept | scrapy/selector/csspath.py:44-48 | dropping empty rewritten pieces does not change the joined result |
| CssPath.Css2XPathShape | scrapy/selector/csspath.py:33-48 | the result is `//` when the first piece is a CSS path, followed by every piece in order: slash runs verbatim, other pieces through `term` |
| CssPath.Css2XPathByPieces | scrapy/selector/csspath.py:33-48 | the translation concatenates the given non-empty rewritten pieces after the optional `//` |
| CssPath.XPathPassesThrough | scrapy/selector/csspath.py:33-48 | a pure XPath, none of whose pieces is a CSS path, is returned unchanged |
| CssPath.CssPathTranslated | scrapy/selector/csspath.py:36-45 | a CSS path without slashes becomes `//` followed by its term |
| CssPath.DescendantOrChild | scrapy/selector/csspath.py:9-14 | two element names joined by spaces become a descendant step; joined by a run holding `>`, a child step |
| CssPath.ClassOrIdPath | scrapy/selector/csspath.py:15-22 | an optional element name and one class or id selector become `//` plus the class or id template |
| CssPath.ExampleTag | scrapy/selector/csspath.py:7-8 | `span` becomes `//span` |
| CssPath.ExampleDescendant | scrapy/selector/csspath.py:9-10 | `div span` becomes `//div//span` |
| CssPath.ExampleChildSpaced | scrapy/selector/csspath.py:11-12 | `div > span` becomes `//div/span` |
| CssPath.ExampleChildTight | scrapy/selector/csspath.py:13-14 | `div>span` becomes `//div/span` |
| CssPath.ExampleClass | scrapy/selector/csspath.py:15-16 | `span.red` becomes the class test on `//span` |
| CssPath.ExampleAnyClass | scrapy/selector/csspath.py:17-18 | `.red` becomes the class test on `//*` |
| CssPath.ExampleId | scrapy/selector/csspath.py:19-20 | `div#red` becomes `//div[@id="red"]` |
| CssPath.ExampleAnyId | scrapy/selector/csspath.py:21-22 | `#red` becomes `//*[@id="red"]` |
| CssPath.ExampleMixed | scrapy/selector/csspath.py:23-24 | `//h1 span/b` becomes `//h1//span/b` |
| CssPath.ExampleXPathKept | scrapy/selector/csspath.py:25-26 | an XPath already holding the class test is returned unchanged |
| CssPath.ExampleRelative | scrapy/selector/csspath.py:27-28 | `./span` stays `./span` |
| CssPath.ExampleAttribute | scrapy/selector/csspath.py:29-30 | `@href` stays `@href` |
| Loader.BaseConfig | scrapy/contrib/loader/__init__.py:15-19 | the base loader declares no field attributes, both default processors are the identity, and its item class declares no field |
| Loader.BaseLoader | scrapy/contrib/loader/__init__.py:15-19 | on an instance of the base `Item` the base loader collects nothing and raises a `KeyError` for every field; on a plain mapping it collects the coerced value unchanged |
| Loader.ItemFieldAttr | scrapy/contrib/loader/__init__.py:116-121 | an `Item` gives the field metadata's processor or the default, and a `KeyError` for an undeclared field; any other item gives the default |
| Loader.InputProcessor | scrapy/contrib/loader/__init__.py:97-102 | a truthy `<field>_in` attribute is the processor; otherwise the item's field metadata or the default input processor |
| Loader.OutputProcessor | scrapy/contrib/loader/__init__.py:104-109 | a truthy `<field>_out` attribute is the processor; otherwise the item's field metadata or the default output processor |
| Loader.ProcessorResolution | scrapy/contrib/loader/__init__.py:97-109 | a truthy `<field>_in` or `<field>_out` attribute wins; resolution fails exactly when no attribute is set and an `Item` lacks the field; a plain mapping falls back to the class default |
| Loader.CollectedOf | scrapy/contrib/loader/__init__.py:26 | the default dictionary reads `[]` for a field never collected |
| Loader.AddOne | scrapy/contrib/loader/__init__.py:62-66 | other fields are untouched; a truthy processed value is appended and leaves a non-empty list; a falsy one changes nothing; an unresolved processor is a `KeyError` |
| Loader.ReplaceOne | scrapy/contrib/loader/__init__.py:68-70 | the field ends holding exactly the coerced processed value when that is truthy and is otherwise absent; failure exactly when the input processor cannot be resolved, with a `KeyError` for the field; the old list is dropped even on failure |
| Loader.StepOne | scrapy/contrib/loader/__init__.py:40-41 | one entry added or replaced: other fields are untouched, and the step fails exactly when the field's input processor cannot be resolved, with a `KeyError` for the field |
| Loader.AddEntries | scrapy/contrib/loader/__init__.py:39-41 | a failing fan-out fails with the `KeyError` of one of the dictionary's keys whose input processor cannot be resolved; see also `FanOutPointwise` and `AddEntriesNonEmpty` |
| Loader.PutValue | scrapy/contrib/loader/__init__.py:28-60 | a falsy processed value changes nothing; an empty field name with a processed value that is not a dict raises an `AttributeError` |
| Loader.AddEntriesNonEmpty | scrapy/contrib/loader/__init__.py:40-41 | fanning out a dictionary keeps every collected list non-empty |
| Loader.StepOneNonEmpty | scrapy/contrib/loader/__init__.py:62-70 | adding or replacing one value keeps every collected list non-empty |
| Loader.PutValueNonEmpty | scrapy/contrib/loader/__init__.py:28-60 | `add_value` and `replace_value` never leave an empty list in `_values` |
| Loader.AddOneLocal | scrapy/contrib/loader/__init__.py:62-66 | the effect of adding to a field depends only on what that field held |
| Loader.StepOneLocal | scrapy/contrib/loader/__init__.py:62-70 | the effect of a step on a field depends only on what that field held |
| Loader.FanOutPointwise | scrapy/contrib/loader/__init__.py:39-41 | with distinct keys, a successful fan-out leaves each key as adding its own entry alone would, and every other field unchanged, in any iteration order |
| Loader.Outputs | scrapy/contrib/loader/__init__.py:85-86 | every collected field, and only those, is written with its output processor's value on its list |
| Loader.ItemLoader.constructor | scrapy/contrib/loader/__init__.py:21-26 | without an item, an empty instance of the item class; the context records the item; nothing is collected |
| Loader.ItemLoader.GetValue | scrapy/contrib/loader/__init__.py:72-81 | the loop applies the processors left to right and stops at `None` |
| Loader.ItemLoader.AddOneValue | scrapy/contrib/loader/__init__.py:62-66 | the new `_values` and outcome are those of `AddOne`; the item and context are unchanged |
| Loader.ItemLoader.ReplaceOneValue | scrapy/contrib/loader/__init__.py:68-70 | the new `_values` and outcome are those of `ReplaceOne` |
| Loader.ItemLoader.PutEntries | scrapy/contrib/loader/__init__.py:40-41 | the loop over a dictionary's entries stops at the first failure and reaches the state of the fan-out function |
| Loader.ItemLoader.Put | scrapy/contrib/loader/__init__.py:28-60 | the new `_values` and outcome are those of `PutValue`; the item and context are unchanged |
| Loader.ItemLoader.AddValue | scrapy/contrib/loader/__init__.py:28-43 | the new `_values` and outcome are those of `PutValue` without replacement |
| Loader.ItemLoader.ReplaceValue | scrapy/contrib/loader/__init__.py:45-60 | the new `_values` and outcome are those of `PutValue` with replacement |
| Loader.ItemLoader.GetOutputValue | scrapy/contrib/loader/__init__.py:89-92 | the output processor on the field's list, inserting `[]` for a field never added; a `KeyError` when the processor cannot be resolved |
| Loader.ItemLoader.GetCollectedValues | scrapy/contrib/loader/__init__.py:94-95 | the field's list, or `[]`, which the default dictionary then inserts |
| Loader.ItemLoader.LoadItem | scrapy/contrib/loader/__init__.py:83-87 | success exactly when every collected field resolves; the item is then its old values overwritten by the outputs; otherwise a `KeyError` for such a field, after some set of resolvable fields has already been written over the old values; `_values` is unchanged |
| Loader.ItemLoader.LoadItemTwice | scrapy/contrib/loader/__init__.py:83-87 | a second `load_item` succeeds exactly when the first did and then writes the same contents |
| Loader.XPathValues | scrapy/contrib/loader/__init__.py:143-145 | the selection's `re` matches when a truthy regex is given, its extracted strings otherwise |
| Loader.StrList | scrapy/contrib/loader/__init__.py:138 | the strings become one list value, element by element |
| Loader.XPathItemLoader.Make | scrapy/contrib/loader/__init__.py:133 | records the wrapped loader, the selector and the engine |
| Loader.XPathItemLoader.New | scrapy/contrib/loader/__init__.py:127-135 | a `RuntimeError` exactly when neither selector nor response is given; otherwise the given selector, or one built on the response, and a context holding item, selector and response |
| Loader.XPathItemLoader.AddXPath | scrapy/contrib/loader/__init__.py:137-138 | `add_value` of the field with the XPath's values, without processors |
| Loader.XPathItemLoader.ReplaceXPath | scrapy/contrib/loader/__init__.py:140-141 | `replace_value` of the field with the XPath's values, without processors |

## Left out

- `XPathExtract` (scrapy/contrib/loader/processor.py:109-126) is not modelled. It builds a new HTML selector from each value's text, which needs an HTML parser and XPath engine that are not part of this model.
- Regex matching, markup stripping and URL joining are parameters of the model: `re.search`, `re.sub`, `re.split`, `scrapy.utils.markup` and `scrapy.utils.url`. Their own behaviour is not modelled. The regexes of `csspath.py` are the exception: they are written out as character scanners.
- The XPath selector is an abstract engine, and so is `HtmlXPathSelector`, the default selector class built on a response. The engine gives `select`, `re`, `extract` and `extract_unquoted` per element.
- `wrap_loader_context` and the loader context are not threaded into processors. Processors are context-free functions, and `default_loader_context` only supplies `stop_on_none` to `Compose`.
- Exceptions raised inside processors are not modelled; processors are total functions.
- `Item.__setitem__` rejecting an undeclared field in `load_item` is not modelled; `scrapy.item` is not part of this model. `load_item` fails only when an output processor cannot be resolved, for an `Item` lacking the field.
- Dictionary iteration order is not chosen by the model. A dict is an ordered list of entries given by the caller. `FanOutPointwise` shows that the fan-out result does not depend on that order when the keys are distinct.
- `load_item` visits the collected fields in an arbitrary order, chosen by the verifier. On success the result is proved independent of that order. On failure, which field's `KeyError` is raised and which fields were written before it both depend on that order.
- Loader.ItemLoader.LoadItem, Loader.ItemLoader.GetCollectedValues and Loader.ItemLoader.AddValue: the sharing of list objects is not captured. `_add_value` extends the field's list in place, `load_item` stores the list that the identity output processor returns, and `get_collected_values` hands out the live list. So in the source, adding a value after `load_item` also changes the returned item, and changing the returned list changes the loader. The model's item values and collected lists are values.
- A field name of `None` or `''` is modelled as the empty string; both are falsy in the source.
- `\w` and `str.strip()` whitespace are the ASCII classes; Unicode categories are not modelled.
- Loader.PutValue: its own contract covers only the falsy and non-dict cases. The fan-out and single-field cases are stated by `FanOutPointwise`, `AddOne`, `ReplaceOne` and the non-empty-list lemmas.
- Processors.TakeOneIsOneElementTake: it excludes index -1, because Python's slice `[-1:0]` is empty there while `values[-1]` is not.
- `scrapy/shell.py` and `scrapy/exceptions.py` are not modelled; they are context only.
