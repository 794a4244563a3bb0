/** The Python values that flow through loaders and processors, their
    truthiness, the `arg_to_iter` coercion, the exceptions the core raises,
    and Python's slice and index arithmetic on lists. */
module Values {

  /** A Python value as the loader sees it. `List` stands for both lists and
      tuples (`arg_to_iter` and `__iter__` treat them alike). A `Dict` lists
      its entries in the dictionary's iteration order. */
  datatype Val =
    | None
    | Str(s: string)
    | Int(n: int)
    | List(items: seq<Val>)
    | Dict(entries: seq<(string, Val)>)

  datatype Option<T> = Nothing | Some(value: T)

  /** The exceptions the modelled code raises itself. */
  datatype Error =
    | IndexError
    | KeyError(key: string)
    | AttributeError
    | AssertionError
    | RuntimeError

  datatype Result<T> = Ok(value: T) | Err(error: Error)

  datatype Outcome = Pass | Fail(error: Error)

  /** Python truthiness: `None`, `''`, `0`, `[]`, `()` and `{}` are false. */
  predicate Truthy(v: Val) {
    match v
    case None => false
    case Str(s) => s != ""
    case Int(n) => n != 0
    case List(xs) => xs != []
    case Dict(es) => es != []
  }

  /** `scrapy.utils.misc.arg_to_iter`: `None` becomes the empty list, a list
      or tuple is kept, anything else (strings and dicts included) is wrapped. */
  function ArgToIter(v: Val): (r: seq<Val>)
    ensures v == None ==> r == []
    ensures v.List? ==> r == v.items
    ensures !v.None? && !v.List? ==> r == [v]
  {
    match v
    case None => []
    case List(xs) => xs
    case _ => [v]
  }

  /** A truthy value never coerces to the empty batch. */
  lemma TruthyArgToIterNonEmpty(v: Val)
    requires Truthy(v)
    ensures ArgToIter(v) != []
  {
  }

  /** Coercing twice (through a list) is coercing once. */
  lemma ArgToIterIdempotent(v: Val)
    ensures ArgToIter(List(ArgToIter(v))) == ArgToIter(v)
  {
  }

  /** Python's normalisation of one slice bound against a length `n`:
      a negative bound counts from the end, then it is clamped to `0..n`. */
  function SliceBound(i: int, n: nat): (r: nat)
    ensures r <= n
    ensures 0 <= i <= n ==> r == i
    ensures i > n ==> r == n
    ensures i < 0 && 0 <= i + n ==> r == n + i
    ensures i + n < 0 ==> r == 0
  {
    if i < 0 then (if i + n < 0 then 0 else i + n)
    else if i > n then n
    else i
  }

  /** `s[i:j]` with Python's semantics for negative and out-of-range bounds. */
  function PySlice<T>(s: seq<T>, i: int, j: int): (r: seq<T>)
    ensures var lo, hi := SliceBound(i, |s|), SliceBound(j, |s|);
      && |r| == (if lo <= hi then hi - lo else 0)
      && forall k :: 0 <= k < |r| ==> r[k] == s[lo + k]
  {
    var lo, hi := SliceBound(i, |s|), SliceBound(j, |s|);
    if lo <= hi then s[lo..hi] else []
  }

  /** `s[i]` with Python's negative indexing; out of range is an `IndexError`. */
  function PyIndex<T>(s: seq<T>, i: int): (r: Result<T>)
    ensures r.Err? <==> (i >= |s| || i < -|s|)
    ensures r.Err? ==> r.error == IndexError
    ensures 0 <= i < |s| ==> r == Ok(s[i])
    ensures -|s| <= i < 0 ==> r == Ok(s[|s| + i])
  {
    if 0 <= i < |s| then Ok(s[i])
    else if -|s| <= i < 0 then Ok(s[|s| + i])
    else Err(IndexError)
  }

  /** For every bound `k`, `s[:k] + s[k:] == s`. */
  lemma PySliceSplit<T>(s: seq<T>, k: int)
    ensures PySlice(s, 0, k) + PySlice(s, k, |s|) == s
  {
    var b := SliceBound(k, |s|);
    assert PySlice(s, 0, k) == s[..b];
    assert PySlice(s, k, |s|) == s[b..];
  }
}
