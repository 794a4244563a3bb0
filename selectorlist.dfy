/** `XPathSelectorList`: a list of XPath selectors whose methods map over
    the elements and flatten the per-element results, in element order. The
    XPath engine itself is abstract: an `Engine` gives, for each element, its
    `select`, `re`, `extract` and `extract_unquoted` results. */
module SelectorList {
  import opened Values

  /** One XPath selector: a reference to a node of a parsed document. */
  datatype Selector = Selector(node: nat)

  /** What the XPath selector of each element answers. */
  datatype Engine = Engine(
    select: (Selector, string) -> seq<Selector>,
    re: (Selector, string) -> seq<string>,
    extract: Selector -> string,
    extractUnquoted: Selector -> string)

  /** An `XPathSelectorList`; operations that return the list class return
      this type. */
  datatype SelList = SelList(items: seq<Selector>)

  /** `flatten` of a list of lists whose elements are not themselves lists:
      the in-order concatenation. */
  function Flatten<T>(xss: seq<seq<T>>): (r: seq<T>)
  {
    if xss == [] then [] else Flatten(xss[..|xss| - 1]) + xss[|xss| - 1]
  }

  lemma {:induction false} FlattenAppend<T>(a: seq<seq<T>>, b: seq<seq<T>>)
    ensures Flatten(a + b) == Flatten(a) + Flatten(b)
  {
    if b == [] {
      assert a + b == a;
    } else {
      var b' := b[..|b| - 1];
      assert (a + b)[..|a + b| - 1] == a + b';
      assert (a + b)[|a + b| - 1] == b[|b| - 1];
      FlattenAppend(a, b');
    }
  }

  /** An element occurs in the flattening exactly when it occurs in one of
      the lists. */
  lemma {:induction false} FlattenMembers<T>(xss: seq<seq<T>>, y: T)
    ensures y in Flatten(xss) <==> exists i :: 0 <= i < |xss| && y in xss[i]
  {
    if xss != [] {
      var init := xss[..|xss| - 1];
      FlattenMembers(init, y);
      assert forall i :: 0 <= i < |init| ==> init[i] == xss[i];
      if y in Flatten(init) {
        var i :| 0 <= i < |init| && y in init[i];
        assert y in xss[i];
      }
    }
  }

  function SelectEach(l: seq<Selector>, e: Engine, xpath: string): (r: seq<seq<Selector>>)
    ensures |r| == |l| && forall i :: 0 <= i < |l| ==> r[i] == e.select(l[i], xpath)
  {
    if l == [] then [] else SelectEach(l[..|l| - 1], e, xpath) + [e.select(l[|l| - 1], xpath)]
  }

  function ReEach(l: seq<Selector>, e: Engine, regex: string): (r: seq<seq<string>>)
    ensures |r| == |l| && forall i :: 0 <= i < |l| ==> r[i] == e.re(l[i], regex)
  {
    if l == [] then [] else ReEach(l[..|l| - 1], e, regex) + [e.re(l[|l| - 1], regex)]
  }

  /** `select(xpath)`: every element's selection, element by element; the
      result is again a selector list. */
  function Select(l: SelList, e: Engine, xpath: string): (r: SelList)
  {
    SelList(Flatten(SelectEach(l.items, e, xpath)))
  }

  /** `re(regex)`: every element's matches, element by element. */
  function Re(l: SelList, e: Engine, regex: string): (r: seq<string>)
  {
    Flatten(ReEach(l.items, e, regex))
  }

  /** Selecting on an empty list gives an empty list; on one element, that
      element's own selection. */
  lemma SelectBase(e: Engine, x: Selector, xpath: string)
    ensures Select(SelList([]), e, xpath) == SelList([])
    ensures Select(SelList([x]), e, xpath) == SelList(e.select(x, xpath))
  {
    assert SelectEach([x], e, xpath) == [e.select(x, xpath)];
    assert Flatten([e.select(x, xpath)]) == Flatten<Selector>([]) + e.select(x, xpath);
  }

  /** `select` distributes over list concatenation, so the results keep the
      order of the elements. */
  lemma SelectAppend(a: seq<Selector>, b: seq<Selector>, e: Engine, xpath: string)
    ensures Select(SelList(a + b), e, xpath).items
      == Select(SelList(a), e, xpath).items + Select(SelList(b), e, xpath).items
  {
    assert SelectEach(a + b, e, xpath) == SelectEach(a, e, xpath) + SelectEach(b, e, xpath);
    FlattenAppend(SelectEach(a, e, xpath), SelectEach(b, e, xpath));
  }

  /** A selector is in the selection exactly when some element selects it. */
  lemma SelectMembers(l: SelList, e: Engine, xpath: string, y: Selector)
    ensures y in Select(l, e, xpath).items
      <==> exists i :: 0 <= i < |l.items| && y in e.select(l.items[i], xpath)
  {
    var each := SelectEach(l.items, e, xpath);
    FlattenMembers(each, y);
    assert forall i :: 0 <= i < |l.items| ==> each[i] == e.select(l.items[i], xpath);
  }

  lemma ReBase(e: Engine, x: Selector, regex: string)
    ensures Re(SelList([]), e, regex) == []
    ensures Re(SelList([x]), e, regex) == e.re(x, regex)
  {
    assert ReEach([x], e, regex) == [e.re(x, regex)];
    assert Flatten([e.re(x, regex)]) == Flatten<string>([]) + e.re(x, regex);
  }

  /** `re` distributes over list concatenation. */
  lemma ReAppend(a: seq<Selector>, b: seq<Selector>, e: Engine, regex: string)
    ensures Re(SelList(a + b), e, regex) == Re(SelList(a), e, regex) + Re(SelList(b), e, regex)
  {
    assert ReEach(a + b, e, regex) == ReEach(a, e, regex) + ReEach(b, e, regex);
    FlattenAppend(ReEach(a, e, regex), ReEach(b, e, regex));
  }

  /** A string is among the matches exactly when some element matched it. */
  lemma ReMembers(l: SelList, e: Engine, regex: string, m: string)
    ensures m in Re(l, e, regex) <==> exists i :: 0 <= i < |l.items| && m in e.re(l.items[i], regex)
  {
    var each := ReEach(l.items, e, regex);
    FlattenMembers(each, m);
    assert forall i :: 0 <= i < |l.items| ==> each[i] == e.re(l.items[i], regex);
  }

  /** `re1(regex, index)`: the match at `index` when there are more than
      `index` matches, otherwise `None`. A negative index passes the length
      test and indexes from the end; below minus the number of matches it
      raises an `IndexError`. */
  function Re1(l: SelList, e: Engine, regex: string, index: int): (r: Result<Option<string>>)
    ensures var m := Re(l, e, regex);
      && (0 <= index < |m| ==> r == Ok(Some(m[index])))
      && (index >= |m| ==> r == Ok(Nothing))
      && (-|m| <= index < 0 ==> r == Ok(Some(m[|m| + index])))
      && (index < -|m| ==> r == Err(IndexError))
  {
    var matches := Re(l, e, regex);
    if |matches| > index then
      match PyIndex(matches, index)
      case Ok(m) => Ok(Some(m))
      case Err(err) => Err(err)
    else Ok(Nothing)
  }

  /** With the default index 0, `re1` is the first match, or `None` when
      nothing matched; it never fails. */
  lemma Re1First(l: SelList, e: Engine, regex: string)
    ensures var m := Re(l, e, regex);
      Re1(l, e, regex, 0) == if m == [] then Ok(Nothing) else Ok(Some(m[0]))
  {
  }

  /** `extract()`: one string per element, in element order. */
  function Extract(l: SelList, e: Engine): (r: seq<string>)
    ensures |r| == |l.items|
    ensures forall i :: 0 <= i < |l.items| ==> r[i] == e.extract(l.items[i])
    decreases |l.items|
  {
    if l.items == [] then []
    else Extract(SelList(l.items[..|l.items| - 1]), e) + [e.extract(l.items[|l.items| - 1])]
  }

  /** `extract_unquoted()`: one string per element, in element order. */
  function ExtractUnquoted(l: SelList, e: Engine): (r: seq<string>)
    ensures |r| == |l.items|
    ensures forall i :: 0 <= i < |l.items| ==> r[i] == e.extractUnquoted(l.items[i])
    decreases |l.items|
  {
    if l.items == [] then []
    else ExtractUnquoted(SelList(l.items[..|l.items| - 1]), e) + [e.extractUnquoted(l.items[|l.items| - 1])]
  }

  /** `extract` distributes over list concatenation. */
  lemma ExtractAppend(a: seq<Selector>, b: seq<Selector>, e: Engine)
    ensures Extract(SelList(a + b), e) == Extract(SelList(a), e) + Extract(SelList(b), e)
  {
  }

  /** `extract1(index)`: the extracted string at `index`, Python-style
      negative indices included, or `None` when the index is out of range. */
  function Extract1(l: SelList, e: Engine, index: int): (r: Option<string>)
    ensures r.Nothing? <==> (index >= |l.items| || index < -|l.items|)
    ensures 0 <= index < |l.items| ==> r == Some(e.extract(l.items[index]))
    ensures -|l.items| <= index < 0 ==> r == Some(e.extract(l.items[|l.items| + index]))
  {
    match PyIndex(Extract(l, e), index)
    case Ok(s) => Some(s)
    case Err(_) => Nothing
  }

  /** `l[i:j]`: a selector list again, holding the elements of Python's
      slice. */
  function Slice(l: SelList, i: int, j: int): (r: SelList)
    ensures var lo, hi := SliceBound(i, |l.items|), SliceBound(j, |l.items|);
      && |r.items| == (if lo <= hi then hi - lo else 0)
      && forall k :: 0 <= k < |r.items| ==> r.items[k] == l.items[lo + k]
  {
    SelList(PySlice(l.items, i, j))
  }

  /** Slicing at any bound and selecting on both halves gives the selection
      of the whole list. */
  lemma SliceSelect(l: SelList, k: int, e: Engine, xpath: string)
    ensures Select(Slice(l, 0, k), e, xpath).items + Select(Slice(l, k, |l.items|), e, xpath).items
      == Select(l, e, xpath).items
  {
    PySliceSplit(l.items, k);
    SelectAppend(PySlice(l.items, 0, k), PySlice(l.items, k, |l.items|), e, xpath);
  }

  /** The deprecated `x(xpath)`. */
  function X(l: SelList, e: Engine, xpath: string): (r: SelList)
    ensures r == Select(l, e, xpath)
  {
    Select(l, e, xpath)
  }

  /** `x` is `select`. */
  lemma XIsSelect(l: SelList, e: Engine, xpath: string)
    ensures X(l, e, xpath) == Select(l, e, xpath)
  {
  }
}
