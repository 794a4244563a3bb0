/** The CSS-and-XPath mixture translator of the selector package: slash
    runs are kept, every other piece that looks like a CSS path is rewritten
    combinator by combinator and operand by operand. Regular expressions are
    modelled as explicit character-class scanners. */
module CssPath {
  import opened Values
  import Strings

  // ---------------------------------------------------------------------
  // Splitting into runs: re.split with a capturing group, empty pieces dropped

  /** The two separator classes the translator splits on: runs of `/` and
      runs of spaces and `>`. */
  datatype SepClass = Slashes | Combinators

  predicate IsSep(sc: SepClass, c: char) {
    match sc
    case Slashes => c == '/'
    case Combinators => c == ' ' || c == '>'
  }

  /** All characters of `p` are on the same side of the separator class. */
  predicate Uniform(sc: SepClass, p: string) {
    forall i :: 0 <= i < |p| ==> IsSep(sc, p[i]) == IsSep(sc, p[0])
  }

  /** `''.join(parts)`. */
  function Concat(parts: seq<string>): string
  {
    if parts == [] then "" else Concat(parts[..|parts| - 1]) + parts[|parts| - 1]
  }

  lemma {:induction false} ConcatAppend(a: seq<string>, b: seq<string>)
    ensures Concat(a + b) == Concat(a) + Concat(b)
  {
    if b == [] {
      assert a + b == a;
    } else {
      var b' := b[..|b| - 1];
      assert (a + b)[..|a + b| - 1] == a + b';
      assert (a + b)[|a + b| - 1] == b[|b| - 1];
      ConcatAppend(a, b');
    }
  }

  lemma ConcatSingle(x: string)
    ensures Concat([x]) == x
  {
    assert [x][..0] == [];
  }

  /** Length of the run that starts `s`. */
  function RunLength(sc: SepClass, s: string): (k: nat)
    requires s != []
    ensures 1 <= k <= |s|
  {
    if |s| == 1 || IsSep(sc, s[1]) != IsSep(sc, s[0]) then 1
    else 1 + RunLength(sc, s[1..])
  }

  /** The first run is uniform and cannot be extended. */
  lemma {:induction false} RunLengthSpec(sc: SepClass, s: string)
    requires s != []
    ensures var k := RunLength(sc, s);
      Uniform(sc, s[..k]) && (k < |s| ==> IsSep(sc, s[k]) != IsSep(sc, s[0]))
  {
    if !(|s| == 1 || IsSep(sc, s[1]) != IsSep(sc, s[0])) {
      RunLengthSpec(sc, s[1..]);
      var k := RunLength(sc, s);
      assert forall i :: 0 < i < k ==> s[..k][i] == s[1..][..k - 1][i - 1];
    }
  }

  /** The maximal runs of separator and of non-separator characters, in
      order: the non-empty pieces of `re.split('(sep+)', s)`. `RunsConcat`
      and `RunsAlternate` state what they are. */
  function Runs(sc: SepClass, s: string): (parts: seq<string>)
    decreases |s|
  {
    if s == [] then []
    else
      var k := RunLength(sc, s);
      [s[..k]] + Runs(sc, s[k..])
  }

  /** The runs concatenate back to `s`. */
  lemma {:induction false} RunsConcat(sc: SepClass, s: string)
    decreases |s|
    ensures Concat(Runs(sc, s)) == s
  {
    if s != [] {
      var k := RunLength(sc, s);
      RunsConcat(sc, s[k..]);
      ConcatAppend([s[..k]], Runs(sc, s[k..]));
      ConcatSingle(s[..k]);
      assert s[..k] + s[k..] == s;
    }
  }

  /** Each run is uniform and starts with the kind its neighbours lack; so
      each run is maximal. */
  lemma {:induction false} RunsAlternate(sc: SepClass, s: string)
    decreases |s|
    ensures var parts := Runs(sc, s);
      && (forall i :: 0 <= i < |parts| ==> parts[i] != [] && Uniform(sc, parts[i]))
      && (forall i :: 0 <= i < |parts| - 1 ==> IsSep(sc, parts[i][0]) != IsSep(sc, parts[i + 1][0]))
      && (s != [] ==> parts[0][0] == s[0])
  {
    if s != [] {
      var k := RunLength(sc, s);
      var rest := Runs(sc, s[k..]);
      RunLengthSpec(sc, s);
      RunsAlternate(sc, s[k..]);
      var parts := [s[..k]] + rest;
      assert Runs(sc, s) == parts;
      forall i | 0 <= i < |parts| - 1
        ensures IsSep(sc, parts[i][0]) != IsSep(sc, parts[i + 1][0])
      {
        if i > 0 {
          assert parts[i] == rest[i - 1] && parts[i + 1] == rest[i];
        }
      }
      forall i | 0 <= i < |parts| ensures parts[i] != [] && Uniform(sc, parts[i]) {
        if i > 0 {
          assert parts[i] == rest[i - 1];
        }
      }
    }
  }

  /** No run is empty. */
  lemma {:induction false} RunsNonEmpty(sc: SepClass, s: string)
    decreases |s|
    ensures forall i :: 0 <= i < |Runs(sc, s)| ==> Runs(sc, s)[i] != []
  {
    if s != [] {
      var k := RunLength(sc, s);
      RunsNonEmpty(sc, s[k..]);
      assert forall i :: 0 < i < |Runs(sc, s)| ==> Runs(sc, s)[i] == Runs(sc, s[k..])[i - 1];
    }
  }

  /** The first run has the only length that is uniform and maximal. */
  lemma RunLengthUnique(sc: SepClass, s: string, k: nat)
    requires 0 < k <= |s|
    requires Uniform(sc, s[..k])
    requires k < |s| ==> IsSep(sc, s[k]) != IsSep(sc, s[0])
    ensures RunLength(sc, s) == k
  {
    var j := RunLength(sc, s);
    RunLengthSpec(sc, s);
    assert forall i :: 0 <= i < k ==> s[..k][i] == s[i];
    assert forall i :: 0 <= i < j ==> s[..j][i] == s[i];
  }

  /** One step of the split, given the length of the first run. */
  lemma RunsStep(sc: SepClass, s: string, k: nat)
    requires 0 < k <= |s|
    requires Uniform(sc, s[..k])
    requires k < |s| ==> IsSep(sc, s[k]) != IsSep(sc, s[0])
    ensures Runs(sc, s) == [s[..k]] + Runs(sc, s[k..])
  {
    RunLengthUnique(sc, s, k);
  }

  /** A string with no separator, or one made only of separators, is one run. */
  lemma RunsWhole(sc: SepClass, s: string)
    requires s != [] && Uniform(sc, s)
    ensures Runs(sc, s) == [s]
  {
    RunsStep(sc, s, |s|);
    assert s[..|s|] == s;
  }

  // ---------------------------------------------------------------------
  // is_css_path

  predicate IsCssChar(c: char) {
    c == ' ' || c == '>' || Strings.IsWordChar(c) || c == '#' || c == '.' || c == '-'
  }

  predicate AllCss(s: string) {
    s == [] || (IsCssChar(s[0]) && AllCss(s[1..]))
  }

  predicate HasWordChar(s: string) {
    s != [] && (Strings.IsWordChar(s[0]) || HasWordChar(s[1..]))
  }

  lemma {:induction false} AllCssEach(s: string)
    ensures AllCss(s) <==> forall i :: 0 <= i < |s| ==> IsCssChar(s[i])
  {
    if s != [] {
      AllCssEach(s[1..]);
      assert forall i :: 0 < i < |s| ==> s[i] == s[1..][i - 1];
      if AllCss(s) {
        assert forall i :: 0 <= i < |s| ==> IsCssChar(s[i]);
      }
    }
  }

  lemma {:induction false} HasWordCharEach(s: string)
    ensures HasWordChar(s) <==> exists i :: 0 <= i < |s| && Strings.IsWordChar(s[i])
  {
    if s != [] {
      HasWordCharEach(s[1..]);
      assert forall i :: 0 < i < |s| ==> s[i] == s[1..][i - 1];
      if HasWordChar(s[1..]) {
        var i :| 0 <= i < |s| - 1 && Strings.IsWordChar(s[1..][i]);
        assert Strings.IsWordChar(s[i + 1]);
      }
    }
  }

  lemma {:induction false} AllCssConcat(a: string, b: string)
    ensures AllCss(a + b) == (AllCss(a) && AllCss(b))
  {
    if a == [] {
      assert a + b == b;
    } else {
      assert (a + b)[0] == a[0];
      assert (a + b)[1..] == a[1..] + b;
      AllCssConcat(a[1..], b);
    }
  }

  lemma {:induction false} HasWordCharConcat(a: string, b: string)
    ensures HasWordChar(a + b) == (HasWordChar(a) || HasWordChar(b))
  {
    if a == [] {
      assert a + b == b;
    } else {
      assert (a + b)[0] == a[0];
      assert (a + b)[1..] == a[1..] + b;
      HasWordCharConcat(a[1..], b);
    }
  }

  /** `is_css_path`: the search for `[.#]?\w+` succeeds exactly when some
      word character occurs, and `[ >\w#.-]+$` matches from the start, where
      `$` also accepts the position before a final newline. */
  predicate IsCssPath(p: string) {
    && HasWordChar(p)
    && (AllCss(p) || (|p| >= 2 && p[|p| - 1] == '\n' && AllCss(p[..|p| - 1])))
  }

  /** `is_css_path` in terms of characters: some word character occurs, and
      every character is one of space, `>`, a word character, `#`, `.` and
      `-`, except possibly a final newline after at least one of them. */
  lemma IsCssPathChars(p: string)
    ensures IsCssPath(p) <==>
      && (exists i :: 0 <= i < |p| && Strings.IsWordChar(p[i]))
      && (|| (forall i :: 0 <= i < |p| ==> IsCssChar(p[i]))
          || (|p| >= 2 && p[|p| - 1] == '\n' && forall i :: 0 <= i < |p| - 1 ==> IsCssChar(p[i])))
  {
    HasWordCharEach(p);
    AllCssEach(p);
    if |p| >= 1 {
      var q := p[..|p| - 1];
      AllCssEach(q);
      assert forall i :: 0 <= i < |q| ==> q[i] == p[i];
    }
  }

  /** A CSS path holds no slash, so the slash split leaves it whole. */
  lemma CssPathHasNoSlash(p: string)
    requires IsCssPath(p)
    ensures Uniform(Slashes, p) && !IsSep(Slashes, p[0])
  {
    if AllCss(p) {
      AllCssEach(p);
    } else {
      AllCssEach(p[..|p| - 1]);
      assert forall i :: 0 <= i < |p| - 1 ==> p[i] == p[..|p| - 1][i];
    }
  }

  // ---------------------------------------------------------------------
  // operand

  /** `[-\w]`. */
  predicate IsNameChar(c: char) {
    c == '-' || Strings.IsWordChar(c)
  }

  /** Length of the run of `[-\w]` characters that starts `s`. */
  function NameRun(s: string): (k: nat)
    ensures k <= |s|
  {
    if s == [] || !IsNameChar(s[0]) then 0 else 1 + NameRun(s[1..])
  }

  /** The name run is made of name characters and cannot be extended. */
  lemma {:induction false} NameRunSpec(s: string)
    ensures var k := NameRun(s);
      (forall i :: 0 <= i < k ==> IsNameChar(s[i])) && (k < |s| ==> !IsNameChar(s[k]))
  {
    if s != [] && IsNameChar(s[0]) {
      NameRunSpec(s[1..]);
      assert forall i :: 0 < i < |s| ==> s[i] == s[1..][i - 1];
    }
  }

  lemma NameRunIs(s: string, k: nat)
    requires k <= |s|
    requires forall i :: 0 <= i < k ==> IsNameChar(s[i])
    requires k < |s| ==> !IsNameChar(s[k])
    ensures NameRun(s) == k
  {
    var j := NameRun(s);
    NameRunSpec(s);
    if j < k {
      assert false;
    }
    if k < j {
      assert false;
    }
  }

  /** The four keys of `name2regex`: `p.red`, `p#red`, `.red` and `#red`. */
  datatype Pattern = TagClass | TagId | Class | Id

  /** The order in which the model tries the patterns. The source iterates a
      dictionary, whose order is unspecified; `PatternsExclusive` shows that
      the order cannot matter. */
  const Patterns: seq<Pattern> := [TagClass, TagId, Class, Id]

  /** `([-\w]+)<mark>([-\w]+)` matched at the start: the element name and
      the class or id name. */
  function TagMatch(s: string, mark: char): Option<(string, string)>
  {
    var k := NameRun(s);
    if 0 < k < |s| && s[k] == mark && NameRun(s[k + 1..]) > 0
    then Some((s[..k], s[k + 1..][..NameRun(s[k + 1..])]))
    else Nothing
  }

  /** `<mark>([-\w]+)` matched at the start: any element, and the name. */
  function MarkMatch(s: string, mark: char): Option<(string, string)>
  {
    if |s| > 0 && s[0] == mark && NameRun(s[1..]) > 0
    then Some(("*", s[1..][..NameRun(s[1..])]))
    else Nothing
  }

  function Match(p: Pattern, s: string): Option<(string, string)>
  {
    match p
    case TagClass => TagMatch(s, '.')
    case TagId => TagMatch(s, '#')
    case Class => MarkMatch(s, '.')
    case Id => MarkMatch(s, '#')
  }

  /** The two halves of the class template: the class attribute, padded
      with spaces, must contain the name padded with spaces. */
  const ClassOpen: string := "[contains(concat(\" \", @class, \" \"), \" "
  const ClassClose: string := " \")]"

  /** The two halves of the id template. */
  const IdOpen: string := "[@id=\""
  const IdClose: string := "\"]"

  /** The class and id templates. */
  function Render(p: Pattern, m: (string, string)): string
  {
    if p == TagClass || p == Class
    then m.0 + ClassOpen + m.1 + ClassClose
    else m.0 + IdOpen + m.1 + IdClose
  }

  /** No text matches two of the patterns. */
  lemma PatternsExclusive(s: string, p: Pattern, q: Pattern)
    requires p != q && Match(p, s).Some?
    ensures Match(q, s).Nothing?
  {
    if s != [] {
      if s[0] == '.' || s[0] == '#' {
        assert NameRun(s) == 0;
      }
    }
  }

  /** `operand(css)`: the stripped text, rewritten by the first pattern of
      `Patterns` it matches, or returned stripped when none matches. */
  function OperandSpec(s: string): string
  {
    var t := Strings.StripChars(s, Strings.Whitespace);
    if Match(TagClass, t).Some? then Render(TagClass, Match(TagClass, t).value)
    else if Match(TagId, t).Some? then Render(TagId, Match(TagId, t).value)
    else if Match(Class, t).Some? then Render(Class, Match(Class, t).value)
    else if Match(Id, t).Some? then Render(Id, Match(Id, t).value)
    else t
  }

  /** The first pattern that matches the stripped operand renders it. */
  lemma OperandFirstMatch(s: string, t: string, i: nat)
    requires t == Strings.StripChars(s, Strings.Whitespace)
    requires i < |Patterns| && Match(Patterns[i], t).Some?
    requires forall j :: 0 <= j < i ==> Match(Patterns[j], t).Nothing?
    ensures OperandSpec(s) == Render(Patterns[i], Match(Patterns[i], t).value)
  {
    if i == 0 {
    } else if i == 1 {
      assert Match(Patterns[0], t).Nothing?;
    } else if i == 2 {
      assert Match(Patterns[0], t).Nothing? && Match(Patterns[1], t).Nothing?;
    } else {
      assert Match(Patterns[0], t).Nothing? && Match(Patterns[1], t).Nothing?;
      assert Match(Patterns[2], t).Nothing?;
    }
  }

  /** An operand that no pattern matches is returned stripped. */
  lemma OperandNoMatch(s: string, t: string)
    requires t == Strings.StripChars(s, Strings.Whitespace)
    requires forall j :: 0 <= j < |Patterns| ==> Match(Patterns[j], t).Nothing?
    ensures OperandSpec(s) == t
  {
    assert Match(Patterns[0], t).Nothing? && Match(Patterns[1], t).Nothing?;
    assert Match(Patterns[2], t).Nothing? && Match(Patterns[3], t).Nothing?;
  }

  /** `operand`, looping over the patterns with an early return. */
  method Operand(s: string) returns (r: string)
    ensures r == OperandSpec(s)
  {
    var t := Strings.StripChars(s, Strings.Whitespace);
    for i := 0 to |Patterns|
      invariant forall j :: 0 <= j < i ==> Match(Patterns[j], t).Nothing?
    {
      var m := Match(Patterns[i], t);
      if m.Some? {
        OperandFirstMatch(s, t, i);
        return Render(Patterns[i], m.value);
      }
    }
    OperandNoMatch(s, t);
    return t;
  }

  /** Whatever the pattern order, an operand matching pattern `p` is rendered
      by `p`; one matching none is returned stripped. */
  lemma OperandByPattern(s: string)
    ensures var t := Strings.StripChars(s, Strings.Whitespace);
      && (forall p :: Match(p, t).Some? ==> OperandSpec(s) == Render(p, Match(p, t).value))
      && ((forall p :: Match(p, t).Nothing?) ==> OperandSpec(s) == t)
  {
    var t := Strings.StripChars(s, Strings.Whitespace);
    forall p | Match(p, t).Some?
      ensures OperandSpec(s) == Render(p, Match(p, t).value)
    {
      forall q | q != p ensures Match(q, t).Nothing? {
        PatternsExclusive(t, p, q);
      }
    }
  }

  predicate AllName(s: string) {
    forall i :: 0 <= i < |s| ==> IsNameChar(s[i])
  }

  /** A bare element name is kept. */
  lemma OperandName(s: string)
    requires s != [] && AllName(s)
    ensures OperandSpec(s) == s
  {
    Strings.StripKeepsTrimmed(s, Strings.Whitespace);
    NameRunIs(s, |s|);
  }

  /** `tag<mark>name` followed by text that cannot extend the name: only the
      first name is used and the rest is dropped. */
  lemma OperandTagged(tag: string, mark: char, name: string, rest: string)
    requires mark == '.' || mark == '#'
    requires tag != [] && AllName(tag) && name != [] && AllName(name)
    requires rest != [] ==> !IsNameChar(rest[0]) && rest[|rest| - 1] !in Strings.Whitespace
    ensures var p := if mark == '.' then TagClass else TagId;
      OperandSpec(tag + [mark] + name + rest) == Render(p, (tag, name))
  {
    var s := tag + [mark] + name + rest;
    var p := if mark == '.' then TagClass else TagId;
    TaggedMatch(tag, mark, name, rest);
    Strings.StripKeepsTrimmed(s, Strings.Whitespace);
    OperandByPattern(s);
  }

  lemma TaggedMatch(tag: string, mark: char, name: string, rest: string)
    requires mark == '.' || mark == '#'
    requires tag != [] && AllName(tag) && name != [] && AllName(name)
    requires rest != [] ==> !IsNameChar(rest[0])
    ensures TagMatch(tag + [mark] + name + rest, mark) == Some((tag, name))
  {
    var s := tag + [mark] + name + rest;
    NameRunIs(s, |tag|);
    assert s[|tag| + 1..] == name + rest;
    NameRunIs(name + rest, |name|);
    assert s[..|tag|] == tag;
    assert (name + rest)[..|name|] == name;
  }

  /** `<mark>name` followed by text that cannot extend the name. */
  lemma OperandMarked(mark: char, name: string, rest: string)
    requires mark == '.' || mark == '#'
    requires name != [] && AllName(name)
    requires rest != [] ==> !IsNameChar(rest[0]) && rest[|rest| - 1] !in Strings.Whitespace
    ensures var p := if mark == '.' then Class else Id;
      OperandSpec([mark] + name + rest) == Render(p, ("*", name))
  {
    var s := [mark] + name + rest;
    Strings.StripKeepsTrimmed(s, Strings.Whitespace);
    assert s[1..] == name + rest;
    NameRunIs(name + rest, |name|);
    assert (name + rest)[..|name|] == name;
    var p := if mark == '.' then Class else Id;
    OperandByPattern(s);
    assert Match(p, s) == Some(("*", name));
  }

  // ---------------------------------------------------------------------
  // term

  /** `re.match('^ +$', part)`. */
  predicate SpaceRun(q: string) {
    || (q != [] && forall i :: 0 <= i < |q| ==> q[i] == ' ')
    || (|q| >= 2 && q[|q| - 1] == '\n' && forall i :: 0 <= i < |q| - 1 ==> q[i] == ' ')
  }

  /** One piece of a CSS term rewritten. */
  function TermPiece(q: string): string
  {
    if SpaceRun(q) then "//"
    else if q != [] && IsSep(Combinators, q[0]) then "/"
    else OperandSpec(q)
  }

  /** A combinator run made only of spaces is a descendant step; one holding
      a `>` is a child step. */
  lemma TermCombinator(q: string)
    requires q != [] && Uniform(Combinators, q) && IsSep(Combinators, q[0])
    ensures TermPiece(q) == if '>' in q then "/" else "//"
  {
    if '>' in q {
      var i :| 0 <= i < |q| && q[i] == '>';
      assert !SpaceRun(q) by {
        assert q[|q| - 1] != '\n' by {
          assert IsSep(Combinators, q[|q| - 1]);
        }
      }
    } else {
      forall i | 0 <= i < |q| ensures q[i] == ' ' {
        assert IsSep(Combinators, q[i]);
        assert q[i] != '>';
      }
    }
  }

  function TermPieces(parts: seq<string>): (r: seq<string>)
    ensures |r| == |parts|
    ensures forall i :: 0 <= i < |parts| ==> r[i] == TermPiece(parts[i])
  {
    if parts == [] then []
    else TermPieces(parts[..|parts| - 1]) + [TermPiece(parts[|parts| - 1])]
  }

  /** `term(css_or_xpath)`. */
  function TermSpec(p: string): string
  {
    if !IsCssPath(p) then p
    else Concat(TermPieces(Runs(Combinators, p)))
  }

  /** `term`, building the list of new parts in a loop. */
  method Term(p: string) returns (r: string)
    ensures r == TermSpec(p)
  {
    if !IsCssPath(p) {
      return p;
    }
    var parts := Runs(Combinators, p);
    RunsNonEmpty(Combinators, p);
    var newParts: seq<string> := [];
    for i := 0 to |parts|
      invariant newParts == TermPieces(parts[..i])
    {
      var part := parts[i];
      var newPart: string;
      if SpaceRun(part) {
        newPart := "//";
      } else if IsSep(Combinators, part[0]) {
        newPart := "/";
      } else {
        newPart := Operand(part);
      }
      assert parts[..i + 1][..i] == parts[..i];
      newParts := newParts + [newPart];
    }
    assert parts[..|parts|] == parts;
    r := Concat(newParts);
  }

  /** A piece that is not a CSS path is returned unchanged. */
  lemma TermKeepsXPath(p: string)
    requires !IsCssPath(p)
    ensures TermSpec(p) == p
  {
  }

  /** A CSS term with no combinator is one operand. */
  lemma TermOperand(p: string)
    requires IsCssPath(p) && Uniform(Combinators, p) && !IsSep(Combinators, p[0])
    ensures TermSpec(p) == OperandSpec(p)
  {
    RunsWhole(Combinators, p);
    assert TermPieces([p]) == [TermPiece(p)];
    ConcatSingle(TermPiece(p));
  }

  /** A run followed by text starting with the other kind splits off first. */
  lemma RunsPrefix(sc: SepClass, a: string, r: string)
    requires a != [] && Uniform(sc, a)
    requires r != [] ==> IsSep(sc, a[0]) != IsSep(sc, r[0])
    ensures Runs(sc, a + r) == [a] + Runs(sc, r)
  {
    var s := a + r;
    assert s[..|a|] == a;
    assert s[|a|..] == r;
    assert s[0] == a[0];
    assert r != [] ==> s[|a|] == r[0];
    RunsStep(sc, s, |a|);
  }

  /** Three runs of alternating kinds split back into those runs. */
  lemma RunsThree(sc: SepClass, a: string, c: string, b: string)
    requires a != [] && Uniform(sc, a) && c != [] && Uniform(sc, c) && b != [] && Uniform(sc, b)
    requires IsSep(sc, a[0]) != IsSep(sc, c[0]) && IsSep(sc, c[0]) != IsSep(sc, b[0])
    ensures Runs(sc, a + c + b) == [a, c, b]
  {
    assert a + c + b == a + (c + b);
    RunsPrefix(sc, a, c + b);
    RunsPrefix(sc, c, b);
    RunsWhole(sc, b);
  }

  /** Four runs of alternating kinds split back into those runs. */
  lemma RunsFour(sc: SepClass, a: string, b: string, c: string, d: string)
    requires a != [] && Uniform(sc, a) && b != [] && Uniform(sc, b)
    requires c != [] && Uniform(sc, c) && d != [] && Uniform(sc, d)
    requires IsSep(sc, a[0]) != IsSep(sc, b[0]) && IsSep(sc, b[0]) != IsSep(sc, c[0])
    requires IsSep(sc, c[0]) != IsSep(sc, d[0])
    ensures Runs(sc, a + b + c + d) == [a, b, c, d]
  {
    assert a + b + c + d == a + (b + c + d);
    RunsPrefix(sc, a, b + c + d);
    RunsThree(sc, b, c, d);
  }

  lemma ConcatThree(x: string, y: string, z: string)
    ensures Concat([x, y, z]) == x + y + z
  {
    assert [x, y, z] == [x, y] + [z];
    assert [x, y] == [x] + [y];
    ConcatAppend([x, y], [z]);
    ConcatAppend([x], [y]);
    ConcatSingle(x);
    ConcatSingle(y);
    ConcatSingle(z);
  }

  /** A piece that is not a combinator run is an operand. */
  lemma TermOperandPiece(a: string)
    requires a != [] && Uniform(Combinators, a) && !IsSep(Combinators, a[0])
    ensures TermPiece(a) == OperandSpec(a)
  {
    assert !SpaceRun(a);
  }

  /** A CSS term `a <combinator> b` with operands `a` and `b`: the pieces
      are rewritten in order. */
  lemma TermTwoOperands(a: string, c: string, b: string)
    requires a != [] && Uniform(Combinators, a) && !IsSep(Combinators, a[0])
    requires c != [] && Uniform(Combinators, c) && IsSep(Combinators, c[0])
    requires b != [] && Uniform(Combinators, b) && !IsSep(Combinators, b[0])
    requires IsCssPath(a + c + b)
    ensures TermSpec(a + c + b) == OperandSpec(a) + (if '>' in c then "/" else "//") + OperandSpec(b)
  {
    RunsThree(Combinators, a, c, b);
    TermCombinator(c);
    TermOperandPiece(a);
    TermOperandPiece(b);
    assert TermPieces([a, c, b]) == [TermPiece(a), TermPiece(c), TermPiece(b)];
    ConcatThree(TermPiece(a), TermPiece(c), TermPiece(b));
  }

  // ---------------------------------------------------------------------
  // css2xpath

  /** A slash run is kept, any other piece goes through `term`. */
  function XPathPiece(part: string): string
  {
    if part != [] && IsSep(Slashes, part[0]) then part else TermSpec(part)
  }

  /** The non-empty rewritten pieces, in order. */
  function Kept(parts: seq<string>): seq<string>
  {
    if parts == [] then []
    else
      Kept(parts[..|parts| - 1])
      + (if XPathPiece(parts[|parts| - 1]) == "" then [] else [XPathPiece(parts[|parts| - 1])])
  }

  /** `css2xpath(s)`: `//` first when the first piece is a CSS path, then the
      rewritten pieces; the empty input fails at `parts[0]`. */
  function Css2XPathSpec(s: string): (r: Result<string>)
    ensures r.Err? <==> s == []
    ensures r.Err? ==> r.error == IndexError
  {
    var parts := Runs(Slashes, s);
    if parts == [] then Err(IndexError)
    else Ok(Concat((if IsCssPath(parts[0]) then ["//"] else []) + Kept(parts)))
  }

  /** One more rewritten piece, kept unless it is empty: the loop state
      after piece `i`. */
  lemma KeptStep(prefix: seq<string>, parts: seq<string>, i: nat, newParts: seq<string>, newPart: string)
    requires i < |parts| && parts[i] != []
    requires newPart == (if IsSep(Slashes, parts[i][0]) then parts[i] else TermSpec(parts[i]))
    requires newParts == prefix + Kept(parts[..i])
    ensures (if newPart == "" then newParts else newParts + [newPart]) == prefix + Kept(parts[..i + 1])
  {
    assert parts[..i + 1][..i] == parts[..i];
    assert newPart == XPathPiece(parts[i]);
    assert Kept(parts[..i + 1]) == Kept(parts[..i]) + (if newPart == "" then [] else [newPart]);
    if newPart == "" {
      assert Kept(parts[..i]) + [] == Kept(parts[..i]);
    } else {
      assert newParts + [newPart] == prefix + (Kept(parts[..i]) + [newPart]);
    }
  }

  /** The loop state after the last piece is the specified output. */
  lemma KeptDone(s: string, prefix: seq<string>, newParts: seq<string>)
    requires Runs(Slashes, s) != []
    requires prefix == if IsCssPath(Runs(Slashes, s)[0]) then ["//"] else []
    requires newParts == prefix + Kept(Runs(Slashes, s)[..|Runs(Slashes, s)|])
    ensures Css2XPathSpec(s) == Ok(Concat(newParts))
  {
    var parts := Runs(Slashes, s);
    assert parts[..|parts|] == parts;
  }

  /** `css2xpath`, building the list of new parts in a loop. */
  method Css2XPath(s: string) returns (r: Result<string>)
    ensures r == Css2XPathSpec(s)
  {
    var parts := Runs(Slashes, s);
    RunsNonEmpty(Slashes, s);
    if parts == [] {
      return Err(IndexError);
    }
    var newParts: seq<string> := if IsCssPath(parts[0]) then ["//"] else [];
    ghost var prefix := newParts;
    for i := 0 to |parts|
      invariant newParts == prefix + Kept(parts[..i])
    {
      var part := parts[i];
      var newPart: string;
      if IsSep(Slashes, part[0]) {
        newPart := part;
      } else {
        newPart := Term(part);
      }
      KeptStep(prefix, parts, i, newParts, newPart);
      if newPart != "" {
        newParts := newParts + [newPart];
      }
    }
    KeptDone(s, prefix, newParts);
    return Ok(Concat(newParts));
  }

  /** Every piece rewritten, empty results included: slash runs verbatim,
      other pieces through `term`. */
  function XPathPieces(parts: seq<string>): (r: seq<string>)
    ensures |r| == |parts|
    ensures forall i :: 0 <= i < |parts| ==> r[i] == XPathPiece(parts[i])
  {
    if parts == [] then []
    else XPathPieces(parts[..|parts| - 1]) + [XPathPiece(parts[|parts| - 1])]
  }

  /** Dropping the empty rewritten pieces does not change their join. */
  lemma {:induction false} ConcatKept(parts: seq<string>)
    ensures Concat(Kept(parts)) == Concat(XPathPieces(parts))
  {
    if parts != [] {
      var init := parts[..|parts| - 1];
      var x := XPathPiece(parts[|parts| - 1]);
      ConcatKept(init);
      ConcatAppend(Kept(init), if x == "" then [] else [x]);
      ConcatAppend(XPathPieces(init), [x]);
      ConcatSingle(x);
      if x == "" {
        assert Kept(init) + [] == Kept(init);
        assert Concat([]) == "";
      }
    }
  }

  /** The translation of a non-empty input: `//` exactly when the first piece
      of the slash split is a CSS path, then every piece in order, slash runs
      copied verbatim and the other pieces through `term`. */
  lemma Css2XPathShape(s: string)
    requires s != []
    ensures var parts := Runs(Slashes, s);
      && parts != []
      && Css2XPathSpec(s)
         == Ok((if IsCssPath(parts[0]) then "//" else "") + Concat(XPathPieces(parts)))
  {
    var parts := Runs(Slashes, s);
    RunsNonEmpty(Slashes, s);
    var prefix: seq<string> := if IsCssPath(parts[0]) then ["//"] else [];
    assert Css2XPathSpec(s) == Ok(Concat(prefix + Kept(parts)));
    ConcatAppend(prefix, Kept(parts));
    ConcatKept(parts);
    if prefix != [] {
      ConcatSingle("//");
    } else {
      assert Concat(prefix) == "";
    }
  }

  /** When no piece rewrites to the empty string, every rewritten piece is
      kept, in order. */
  lemma {:induction false} KeptPieces(parts: seq<string>, pieces: seq<string>)
    requires |pieces| == |parts|
    requires forall i :: 0 <= i < |parts| ==> pieces[i] != [] && XPathPiece(parts[i]) == pieces[i]
    ensures Kept(parts) == pieces
  {
    if parts != [] {
      KeptPieces(parts[..|parts| - 1], pieces[..|pieces| - 1]);
      assert pieces == pieces[..|pieces| - 1] + [pieces[|pieces| - 1]];
    }
  }

  /** The translation is the concatenation of the rewritten pieces: slash
      runs verbatim, other pieces through `term`, after a leading `//` when
      the first piece is a CSS path. */
  lemma Css2XPathByPieces(s: string, pieces: seq<string>)
    requires s != []
    requires |pieces| == |Runs(Slashes, s)|
    requires forall i :: 0 <= i < |pieces| ==>
      pieces[i] != [] && XPathPiece(Runs(Slashes, s)[i]) == pieces[i]
    ensures Css2XPathSpec(s)
      == Ok((if IsCssPath(Runs(Slashes, s)[0]) then "//" else "") + Concat(pieces))
  {
    var parts := Runs(Slashes, s);
    assert parts != [];
    var prefix: seq<string> := if IsCssPath(parts[0]) then ["//"] else [];
    assert Css2XPathSpec(s) == Ok(Concat(prefix + Kept(parts)));
    KeptPieces(parts, pieces);
    ConcatAppend(prefix, pieces);
    if prefix != [] {
      ConcatSingle("//");
    }
  }

  /** A pure XPath, whose pieces between slashes are none of them CSS paths,
      passes through unchanged. */
  lemma XPathPassesThrough(s: string)
    requires s != []
    requires forall i :: 0 <= i < |Runs(Slashes, s)| ==> !IsCssPath(Runs(Slashes, s)[i])
    ensures Css2XPathSpec(s) == Ok(s)
  {
    var parts := Runs(Slashes, s);
    RunsNonEmpty(Slashes, s);
    RunsConcat(Slashes, s);
    forall i | 0 <= i < |parts| ensures parts[i] != [] && XPathPiece(parts[i]) == parts[i] {
      TermKeepsXPath(parts[i]);
    }
    Css2XPathByPieces(s, parts);
    assert "" + s == s;
  }

  /** A plain CSS path becomes `//` followed by its term. */
  lemma CssPathTranslated(s: string)
    requires IsCssPath(s)
    ensures Css2XPathSpec(s) == Ok("//" + TermSpec(s))
  {
    CssPathHasNoSlash(s);
    RunsWhole(Slashes, s);
    assert Css2XPathSpec(s) == Ok(Concat(["//"] + Kept([s])));
    var t := TermSpec(s);
    assert [s][..0] == [];
    assert XPathPiece(s) == t;
    if t == "" {
      assert Kept([s]) == [];
      ConcatSingle("//");
      assert ["//"] + [] == ["//"];
      assert "//" + t == "//";
    } else {
      assert Kept([s]) == [t];
      ConcatAppend(["//"], [t]);
      ConcatSingle("//");
      ConcatSingle(t);
    }
  }

  /** A word of name characters with no leading class or id mark. */
  predicate PlainName(s: string) {
    s != [] && AllName(s) && Strings.IsWordChar(s[0])
  }

  lemma PlainNameIsCss(s: string)
    requires PlainName(s)
    ensures IsCssPath(s) && Uniform(Combinators, s) && !IsSep(Combinators, s[0])
  {
    AllCssEach(s);
  }

  lemma PlainNameTerm(s: string)
    requires PlainName(s)
    ensures TermSpec(s) == s
  {
    PlainNameIsCss(s);
    TermOperand(s);
    OperandName(s);
  }

  /** Two element names joined by a combinator run form a CSS path. */
  lemma CombinedIsCss(a: string, c: string, b: string)
    requires PlainName(a) && PlainName(b)
    requires c != [] && Uniform(Combinators, c) && IsSep(Combinators, c[0])
    ensures IsCssPath(a + c + b)
  {
    var s := a + c + b;
    assert Strings.IsWordChar(s[0]);
    forall i | 0 <= i < |s| ensures IsCssChar(s[i]) {
      if i < |a| {
        assert s[i] == a[i];
      } else if i < |a| + |c| {
        assert s[i] == c[i - |a|];
        assert IsSep(Combinators, c[i - |a|]);
      } else {
        assert s[i] == b[i - |a| - |c|];
      }
    }
    AllCssEach(s);
  }

  lemma DescendantOrChildTerm(a: string, c: string, b: string)
    requires PlainName(a) && PlainName(b)
    requires c != [] && Uniform(Combinators, c) && IsSep(Combinators, c[0])
    ensures TermSpec(a + c + b) == a + (if '>' in c then "/" else "//") + b
  {
    CombinedIsCss(a, c, b);
    PlainNameIsCss(a);
    PlainNameIsCss(b);
    TermTwoOperands(a, c, b);
    OperandName(a);
    OperandName(b);
  }

  /** Two element names joined by spaces become a descendant step, joined by
      a run holding `>` a child step. */
  lemma DescendantOrChild(a: string, c: string, b: string)
    requires PlainName(a) && PlainName(b)
    requires c != [] && Uniform(Combinators, c) && IsSep(Combinators, c[0])
    ensures Css2XPathSpec(a + c + b) == Ok("//" + a + (if '>' in c then "/" else "//") + b)
  {
    var x := if '>' in c then "/" else "//";
    CombinedIsCss(a, c, b);
    DescendantOrChildTerm(a, c, b);
    CssPathTranslated(a + c + b);
    PrefixAssoc("//", a, x, b);
  }

  lemma PrefixAssoc(p: string, a: string, x: string, b: string)
    ensures p + (a + x + b) == p + a + x + b
  {
  }

  /** An element name, or none, followed by one class or id selector. */
  lemma ClassOrIdPath(tag: string, mark: char, name: string)
    requires mark == '.' || mark == '#'
    requires (tag != [] ==> PlainName(tag)) && PlainName(name)
    ensures var p := if tag == [] then (if mark == '.' then Class else Id)
                     else (if mark == '.' then TagClass else TagId);
      Css2XPathSpec(tag + [mark] + name)
      == Ok("//" + Render(p, (if tag == [] then "*" else tag, name)))
  {
    var s := tag + [mark] + name;
    if tag == [] {
      assert s == [mark] + name && s[1..] == name;
      assert HasWordChar(s[1..]);
    } else {
      assert Strings.IsWordChar(s[0]);
    }
    forall i | 0 <= i < |s| ensures IsCssChar(s[i]) && !IsSep(Combinators, s[i]) {
      if i < |tag| {
        assert s[i] == tag[i];
      } else if i > |tag| {
        assert s[i] == name[i - |tag| - 1];
      }
    }
    AllCssEach(s);
    assert IsCssPath(s);
    TermOperand(s);
    CssPathTranslated(s);
    if tag == [] {
      OperandMarked(mark, name, []);
      assert [mark] + name + [] == s;
    } else {
      OperandTagged(tag, mark, name, []);
      assert tag + [mark] + name + [] == s;
    }
  }

  // ---------------------------------------------------------------------
  // The translator's own examples

  lemma ConcatFour(w: string, x: string, y: string, z: string)
    ensures Concat([w, x, y, z]) == w + x + y + z
  {
    assert [w, x, y, z] == [w, x, y] + [z];
    ConcatAppend([w, x, y], [z]);
    ConcatThree(w, x, y);
    ConcatSingle(z);
  }

  /** A piece with no word character, such as a slash run or `.`, is not a
      CSS path. */
  lemma NoWordCharNotCss(s: string)
    requires forall i :: 0 <= i < |s| ==> !Strings.IsWordChar(s[i])
    ensures !IsCssPath(s)
  {
    HasWordCharEach(s);
  }

  /** A text without `/` is one non-separator run of the slash split. */
  lemma SlashFree(s: string)
    requires s != [] && '/' !in s
    ensures Uniform(Slashes, s) && !IsSep(Slashes, s[0])
  {
    assert forall i :: 0 <= i < |s| ==> s[i] in s;
  }

  lemma SlashRun(s: string)
    requires s != [] && forall i :: 0 <= i < |s| ==> s[i] == '/'
    ensures Uniform(Slashes, s) && IsSep(Slashes, s[0])
  {
  }

  lemma ExampleTagAt(s: string)
    requires s == "span"
    ensures Css2XPathSpec(s) == Ok("//span")
  {
    PlainNameIsCss(s);
    CssPathTranslated(s);
    PlainNameTerm(s);
    assert "//" + "span" == "//span";
  }

  lemma ExampleTag()
    ensures Css2XPathSpec("span") == Ok("//span")
  {
    ExampleTagAt("span");
  }

  lemma ExampleDescendantAt(s: string)
    requires s == "div span"
    ensures Css2XPathSpec(s) == Ok("//div//span")
  {
    DescendantOrChild("div", " ", "span");
    assert "div" + " " + "span" == s;
    assert '>' !in " ";
    assert "//" + "div" + "//" + "span" == "//div//span";
  }

  lemma ExampleDescendant()
    ensures Css2XPathSpec("div span") == Ok("//div//span")
  {
    ExampleDescendantAt("div span");
  }

  lemma ExampleChildAt(s: string, a: string, c: string, b: string)
    requires a == "div" && b == "span" && c != [] && '>' in c
    requires Uniform(Combinators, c) && IsSep(Combinators, c[0])
    requires s == a + c + b
    ensures Css2XPathSpec(s) == Ok("//div/span")
  {
    DescendantOrChild(a, c, b);
    assert "//" + a + "/" + b == "//div/span";
  }

  lemma ExampleChildSpaced()
    ensures Css2XPathSpec("div > span") == Ok("//div/span")
  {
    var c := " > ";
    assert c[1] == '>';
    ExampleChildAt("div > span", "div", c, "span");
  }

  lemma ExampleChildTight()
    ensures Css2XPathSpec("div>span") == Ok("//div/span")
  {
    var c := ">";
    assert c[0] == '>';
    ExampleChildAt("div>span", "div", c, "span");
  }

  lemma Regroup(a: string, b: string, c: string, d: string, e: string)
    ensures a + (b + c + d + e) == a + b + c + d + e
  {
  }

  lemma ExampleClassAt(s: string, tag: string, name: string)
    requires tag == "span" && name == "red" && s == tag + ['.'] + name
    ensures Css2XPathSpec(s) == Ok("//span" + ClassOpen + "red" + ClassClose)
  {
    ClassOrIdPath(tag, '.', name);
    Regroup("//", tag, ClassOpen, name, ClassClose);
    assert "//" + tag == "//span";
  }

  lemma ExampleAnyClassAt(s: string, name: string)
    requires name == "red" && s == [] + ['.'] + name
    ensures Css2XPathSpec(s) == Ok("//*" + ClassOpen + "red" + ClassClose)
  {
    ClassOrIdPath([], '.', name);
    Regroup("//", "*", ClassOpen, name, ClassClose);
    assert "//" + "*" == "//*";
  }

  lemma ExampleIdAt(s: string, tag: string, name: string)
    requires tag == "div" && name == "red" && s == tag + ['#'] + name
    ensures Css2XPathSpec(s) == Ok("//div" + IdOpen + "red" + IdClose)
  {
    ClassOrIdPath(tag, '#', name);
    Regroup("//", tag, IdOpen, name, IdClose);
    assert "//" + tag == "//div";
  }

  lemma ExampleAnyIdAt(s: string, name: string)
    requires name == "red" && s == [] + ['#'] + name
    ensures Css2XPathSpec(s) == Ok("//*" + IdOpen + "red" + IdClose)
  {
    ClassOrIdPath([], '#', name);
    Regroup("//", "*", IdOpen, name, IdClose);
    assert "//" + "*" == "//*";
  }

  lemma ExampleClass()
    ensures Css2XPathSpec("span.red") == Ok("//span" + ClassOpen + "red" + ClassClose)
  {
    ExampleClassAt("span.red", "span", "red");
  }

  lemma ExampleAnyClass()
    ensures Css2XPathSpec(".red") == Ok("//*" + ClassOpen + "red" + ClassClose)
  {
    ExampleAnyClassAt(".red", "red");
  }

  lemma ExampleId()
    ensures Css2XPathSpec("div#red") == Ok("//div" + IdOpen + "red" + IdClose)
  {
    ExampleIdAt("div#red", "div", "red");
  }

  lemma ExampleAnyId()
    ensures Css2XPathSpec("#red") == Ok("//*" + IdOpen + "red" + IdClose)
  {
    ExampleAnyIdAt("#red", "red");
  }

  /** A translation whose slash split has four pieces. */
  lemma Css2XPathFour(s: string, a: string, b: string, c: string, d: string,
                      pa: string, pb: string, pc: string, pd: string)
    requires s != [] && Runs(Slashes, s) == [a, b, c, d]
    requires XPathPiece(a) == pa && XPathPiece(b) == pb && XPathPiece(c) == pc && XPathPiece(d) == pd
    requires pa != [] && pb != [] && pc != [] && pd != []
    ensures Css2XPathSpec(s) == Ok((if IsCssPath(a) then "//" else "") + (pa + pb + pc + pd))
  {
    var parts := [a, b, c, d];
    var pieces := [pa, pb, pc, pd];
    forall i | 0 <= i < 4 ensures pieces[i] != [] && XPathPiece(parts[i]) == pieces[i] {
      assert i == 0 || i == 1 || i == 2 || i == 3;
    }
    Css2XPathByPieces(s, pieces);
    ConcatFour(pa, pb, pc, pd);
  }

  lemma ExampleMixedRuns(s: string, a: string, b: string, c: string, d: string)
    requires a == "//" && b == "h1" + " " + "span" && c == "/" && d == "b"
    requires s == a + b + c + d
    ensures Runs(Slashes, s) == [a, b, c, d]
  {
    SlashRun(a);
    SlashFree(b);
    SlashRun(c);
    SlashFree(d);
    RunsFour(Slashes, a, b, c, d);
  }

  lemma ExampleMixedTermAt(a: string, c: string, b: string)
    requires a == "h1" && c == " " && b == "span"
    ensures XPathPiece(a + c + b) == a + "//" + b
  {
    DescendantOrChildTerm(a, c, b);
  }

  lemma ExampleMixedAt(s: string, a: string, h: string, w: string, sp: string, c: string, d: string)
    requires a == "//" && h == "h1" && w == " " && sp == "span" && c == "/" && d == "b"
    requires s == a + (h + w + sp) + c + d
    ensures Css2XPathSpec(s) == Ok(a + (h + "//" + sp) + c + d)
  {
    var b := h + w + sp;
    ExampleMixedRuns(s, a, b, c, d);
    ExampleMixedTermAt(h, w, sp);
    PlainNameTerm(d);
    NoWordCharNotCss(a);
    var t := h + "//" + sp;
    Css2XPathFour(s, a, b, c, d, a, t, c, d);
    assert !IsCssPath(a);
    assert "" + (a + t + c + d) == a + t + c + d;
  }

  lemma ExampleMixedStrings()
    ensures "//h1 span/b" == "//" + ("h1" + " " + "span") + "/" + "b"
    ensures "//" + ("h1" + "//" + "span") + "/" + "b" == "//h1//span/b"
  {
  }

  lemma ExampleMixed()
    ensures Css2XPathSpec("//h1 span/b") == Ok("//h1//span/b")
  {
    ExampleMixedStrings();
    ExampleMixedAt("//h1 span/b", "//", "h1", " ", "span", "/", "b");
  }

  lemma ExampleAttributeAt(s: string)
    requires s == "@href"
    ensures Css2XPathSpec(s) == Ok(s)
  {
    RunsWhole(Slashes, s);
    AllCssEach(s);
    assert !IsCssChar(s[0]);
    XPathPassesThrough(s);
  }

  lemma ExampleAttribute()
    ensures Css2XPathSpec("@href") == Ok("@href")
  {
    ExampleAttributeAt("@href");
  }

  lemma ExampleXPathKeptRuns(s: string, slashes: string, tail: string, tag: string, name: string)
    requires slashes == "//" && tag == "span" && name == "red"
    requires tail == tag + ClassOpen + name + ClassClose
    requires s == slashes + tag + ClassOpen + name + ClassClose
    ensures Runs(Slashes, s) == [slashes, tail]
    ensures !IsCssPath(slashes) && !IsCssPath(tail)
  {
    Regroup(slashes, tag, ClassOpen, name, ClassClose);
    SlashFree(tail);
    SlashRun(slashes);
    RunsPrefix(Slashes, slashes, tail);
    RunsWhole(Slashes, tail);
    NoWordCharNotCss(slashes);
    AllCssEach(tail);
    assert !IsCssChar(tail[4]);
  }

  lemma ExampleXPathKeptAt(s: string, slashes: string, tag: string, name: string)
    requires slashes == "//" && tag == "span" && name == "red"
    requires s == slashes + tag + ClassOpen + name + ClassClose
    ensures Css2XPathSpec(s) == Ok(s)
  {
    var tail := tag + ClassOpen + name + ClassClose;
    ExampleXPathKeptRuns(s, slashes, tail, tag, name);
    var parts := Runs(Slashes, s);
    forall i | 0 <= i < |parts| ensures !IsCssPath(parts[i]) {
      if i == 0 {
        assert parts[i] == slashes;
      } else {
        assert parts[i] == tail;
      }
    }
    XPathPassesThrough(s);
  }

  /** An XPath that already is the class test is kept as it is. */
  lemma ExampleXPathKept()
    ensures Css2XPathSpec("//" + "span" + ClassOpen + "red" + ClassClose)
      == Ok("//" + "span" + ClassOpen + "red" + ClassClose)
  {
    ExampleXPathKeptAt("//" + "span" + ClassOpen + "red" + ClassClose, "//", "span", "red");
  }

  lemma ExampleRelativeRuns(s: string, a: string, b: string, c: string)
    requires a == "." && b == "/" && c == "span"
    requires s == a + b + c
    ensures Runs(Slashes, s) == [a, b, c]
  {
    SlashFree(a);
    SlashRun(b);
    SlashFree(c);
    RunsThree(Slashes, a, b, c);
  }

  lemma ExampleRelativePieces()
    ensures XPathPiece(".") == "." && XPathPiece("/") == "/" && XPathPiece("span") == "span"
  {
    NoWordCharNotCss(".");
    PlainNameTerm("span");
  }

  lemma ExampleRelativeOutput()
    ensures Concat([".", "/", "span"]) == "./span"
  {
    ConcatThree(".", "/", "span");
  }

  lemma ExampleRelativeAt(s: string)
    requires s == "./span"
    ensures Css2XPathSpec(s) == Ok("./span")
  {
    var parts := [".", "/", "span"];
    ExampleRelativeRuns(s, ".", "/", "span");
    ExampleRelativePieces();
    NoWordCharNotCss(".");
    forall i | 0 <= i < 3 ensures parts[i] != [] && XPathPiece(parts[i]) == parts[i] {
      assert i == 0 || i == 1 || i == 2;
    }
    Css2XPathByPieces(s, parts);
    ExampleRelativeOutput();
    assert !IsCssPath(Runs(Slashes, s)[0]);
    assert "" + Concat(parts) == Concat(parts);
  }

  lemma ExampleRelative()
    ensures Css2XPathSpec("./span") == Ok("./span")
  {
    ExampleRelativeAt("./span");
  }
}
