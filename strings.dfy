/** Character classes of Python's `re` module (byte-string patterns, no
    UNICODE flag) and `str.strip` on text. */
module Strings {

  /** The characters `str.strip()` removes when called without an argument. */
  const Whitespace: string := " \t\n\r\U{B}\U{C}"

  /** `\w`: an ASCII letter, a digit or the underscore. */
  predicate IsWordChar(c: char) {
    ('a' <= c <= 'z') || ('A' <= c <= 'Z') || ('0' <= c <= '9') || c == '_'
  }

  predicate AllIn(s: string, chars: string) {
    forall k :: 0 <= k < |s| ==> s[k] in chars
  }

  /** Length of the longest prefix of `s` made of characters of `chars`. */
  function LeadingRun(s: string, chars: string): (k: nat)
    ensures k <= |s|
  {
    if s == [] || s[0] !in chars then 0 else 1 + LeadingRun(s[1..], chars)
  }

  /** Length of the longest suffix of `s` made of characters of `chars`. */
  function TrailingRun(s: string, chars: string): (k: nat)
    ensures k <= |s|
  {
    if s == [] || s[|s| - 1] !in chars then 0 else 1 + TrailingRun(s[..|s| - 1], chars)
  }

  /** The leading run is made of `chars` and cannot be extended. */
  lemma {:induction false} LeadingRunSpec(s: string, chars: string)
    ensures var k := LeadingRun(s, chars);
      AllIn(s[..k], chars) && (k < |s| ==> s[k] !in chars)
  {
    if s != [] && s[0] in chars {
      LeadingRunSpec(s[1..], chars);
      var k := LeadingRun(s, chars);
      assert s[..k] == [s[0]] + s[1..][..k - 1];
    }
  }

  /** The trailing run is made of `chars` and cannot be extended. */
  lemma {:induction false} TrailingRunSpec(s: string, chars: string)
    ensures var k := TrailingRun(s, chars);
      AllIn(s[|s| - k..], chars) && (k < |s| ==> s[|s| - k - 1] !in chars)
  {
    if s != [] && s[|s| - 1] in chars {
      TrailingRunSpec(s[..|s| - 1], chars);
      var k := TrailingRun(s, chars);
      assert s[|s| - k..] == s[..|s| - 1][|s| - k..] + [s[|s| - 1]];
    }
  }

  /** `s.strip(chars)`: drop every leading and trailing character of `chars`.
      `StripCharsSpec` states what remains. */
  function StripChars(s: string, chars: string): (r: string)
  {
    var i := LeadingRun(s, chars);
    var rest := s[i..];
    rest[..|rest| - TrailingRun(rest, chars)]
  }

  /** What is left is a middle part of `s` whose cut-off ends consist of
      `chars` and whose own ends do not; stripping a string made only of
      `chars` leaves nothing. */
  lemma StripCharsSpec(s: string, chars: string)
    ensures var r := StripChars(s, chars);
      && (exists i, j ::
        && 0 <= i <= j <= |s| && r == s[i..j]
        && AllIn(s[..i], chars) && AllIn(s[j..], chars))
      && (r != [] ==> r[0] !in chars && r[|r| - 1] !in chars)
      && (AllIn(s, chars) ==> r == [])
  {
    var i := LeadingRun(s, chars);
    var rest := s[i..];
    var j := |rest| - TrailingRun(rest, chars);
    LeadingRunSpec(s, chars);
    TrailingRunSpec(rest, chars);
    assert s[i..i + j] == rest[..j];
    assert s[i + j..] == rest[j..];
    assert AllIn(s, chars) ==> i == |s|;
  }

  /** Stripping twice is stripping once. */
  lemma StripIdempotent(s: string, chars: string)
    ensures StripChars(StripChars(s, chars), chars) == StripChars(s, chars)
  {
    var r := StripChars(s, chars);
    StripCharsSpec(s, chars);
    if r != [] {
      assert LeadingRun(r, chars) == 0;
      assert TrailingRun(r, chars) == 0;
    }
  }

  /** A string with no strippable character at either end is left as is. */
  lemma StripKeepsTrimmed(s: string, chars: string)
    requires s != [] ==> s[0] !in chars && s[|s| - 1] !in chars
    ensures StripChars(s, chars) == s
  {
    if s != [] {
      assert LeadingRun(s, chars) == 0;
      assert TrailingRun(s, chars) == 0;
    }
  }
}
