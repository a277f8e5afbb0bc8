/**
  The citation pattern library of `CitationExtractor`: the twenty regular
  expressions, in priority order, exactly as the extractor holds them, and the
  contract the model places on the regular-expression engine (`re.finditer`),
  which is not modelled itself.
*/
module CitationPatterns {
  import opened Wrappers
  import opened Strings

  /**
    The author-name piece shared by the author-year patterns: capitalised
    words separated by whitespace. The patterns below are written with it; each
    is, character for character, the pattern the extractor holds.
  */
  const AuthorName: string := @"[A-Z][a-z]+(?:\s+[A-Z][a-z]+)*"

  /** The patterns, in the order the extractor tries them. */
  const Patterns: seq<string> := [
    // numerical citations
    @"\[(\d+)\](?:\s*[A-Za-z\s\-\.\']+)?",
    @"\[(\d+(?:,\s*\d+)*)\]",
    @"\[(?:\d+)(?:\-\d+)*\]",
    @"\((\d+)\)",
    @"\((\d+(?:,\s*\d+)*)\)",
    // Author et al. (Year)
    "(" + AuthorName + @")\s+et\s+al\.\s*\((\d{4})\)",
    @"\((" + AuthorName + @")\s+et\s+al\.\s*,\s*(\d{4})\)",
    // single author (Year)
    "(" + AuthorName + @")\s*\((\d{4})\)",
    @"\((" + AuthorName + @")\s*,\s*(\d{4})\)",
    // two authors
    "(" + AuthorName + @")\s+and\s+(" + AuthorName + @")\s*\((\d{4})\)",
    @"\((" + AuthorName + @")\s+and\s+(" + AuthorName + @"),\s*(\d{4})\)",
    // alphanumeric keys such as [Smi20a]
    @"\[([A-Za-z]+\d{2}(?:[a-z])?)\]",
    // et al. with a lettered year
    "(" + AuthorName + @")\s+et\s+al\.\s*\((\d{4}(?:[a-z])?)\)",
    @"\((" + AuthorName + @")\s+et\s+al\.\s*,\s*(\d{4}(?:[a-z])?)\)",
    // several authors separated by commas
    "(" + AuthorName + @")(?:\s*,\s*" + AuthorName + @")*\s+et\s+al\.\s*\((\d{4})\)",
    @"\((" + AuthorName + @")(?:\s*,\s*" + AuthorName + @")*\s+et\s+al\.\s*,\s*(\d{4})\)",
    // with a page number
    "(" + AuthorName + @")\s*\((\d{4}),\s*p\.\s*\d+\)",
    @"\((" + AuthorName + @")\s*,\s*(\d{4}),\s*p\.\s*\d+\)",
    // with a volume number
    "(" + AuthorName + @")\s*\((\d{4}),\s*vol\.\s*\d+\)",
    @"\((" + AuthorName + @")\s*,\s*(\d{4}),\s*vol\.\s*\d+\)"
  ]

  // ---------------------------------------------------------------------------
  // Capturing groups
  // ---------------------------------------------------------------------------

  /**
    The number of capturing groups in `p[i..]`: an unescaped `(` outside a
    character class that is not followed by `?`. `inClass` says whether `i`
    lies inside a `[...]` class. Covers the syntax the patterns above use.
  */
  function GroupsFrom(p: string, i: nat, inClass: bool): nat
    decreases |p| - i
  {
    if i >= |p| then 0
    else if p[i] == '\\' then GroupsFrom(p, i + 2, inClass)
    else if inClass then GroupsFrom(p, i + 1, p[i] != ']')
    else if p[i] == '[' then GroupsFrom(p, i + 1, true)
    else if p[i] == '(' && !(i + 1 < |p| && p[i + 1] == '?') then 1 + GroupsFrom(p, i + 1, false)
    else GroupsFrom(p, i + 1, false)
  }

  function GroupCount(p: string): nat
  {
    GroupsFrom(p, 0, false)
  }

  // ---------------------------------------------------------------------------
  // The regular-expression engine, as a contract
  // ---------------------------------------------------------------------------

  /** Half-open character positions `[start, end)` of a text. */
  datatype Span = Span(start: nat, end: nat)

  /**
    One result of `re.finditer`: the span of the whole match (`group(0)`) and,
    for each capturing group `1..n` in order, its span or None when the group
    did not take part in the match.
  */
  datatype Match = Match(span: Span, groups: seq<Option<Span>>)

  /** `re.finditer(pattern, text)`, taken as a parameter: (pattern, text) to matches. */
  type Matcher = (string, string) -> seq<Match>

  /**
    What `re.finditer` guarantees: spans lie inside the text, come left to
    right and do not overlap, every match reports one entry per capturing
    group of the pattern, and a group lies inside its match.
  */
  predicate Conforms(pattern: string, text: string, ms: seq<Match>)
  {
    && (forall k :: 0 <= k < |ms| ==>
          ms[k].span.start <= ms[k].span.end <= |text|
          && |ms[k].groups| == GroupCount(pattern)
          && forall g :: 0 <= g < |ms[k].groups| && ms[k].groups[g].Some? ==>
               ms[k].span.start <= ms[k].groups[g].value.start <= ms[k].groups[g].value.end <= ms[k].span.end)
    && (forall k, l :: 0 <= k < l < |ms| ==> ms[k].span.end <= ms[l].span.start)
  }

  /**
    The matcher behaves as `re.finditer` does on the patterns of the library;
    other pattern strings are never passed to it.
  */
  ghost predicate MatcherConforms(matcher: Matcher)
  {
    forall p, t :: p in Patterns ==> Conforms(p, t, matcher(p, t))
  }

  // ---------------------------------------------------------------------------
  // The branch taken for a match
  // ---------------------------------------------------------------------------

  /**
    The test that sends a match down the numerical path, as written:
    `'[' in pattern or ('(' in pattern and any(c.isdigit() for c in text))`.
  */
  predicate TakesNumericalPath(pattern: string, matchText: string)
  {
    Contains(pattern, "[") || (Contains(pattern, "(") && HasDigit(matchText))
  }

  /** The second test, for two-author citations: `'and' in pattern`. */
  predicate TakesTwoAuthorPath(pattern: string)
  {
    Contains(pattern, "and")
  }

  /** The patterns of the library that contain no `[` at all. */
  predicate IsParenthesisPattern(k: int)
  {
    k == 3 || k == 4
  }

  /** Every pattern but the two parenthesised-number ones contains a `[`. */
  lemma BracketInPattern(k: nat)
    requires k < |Patterns| && !IsParenthesisPattern(k)
    ensures '[' in Patterns[k]
  {
    if k <= 2 || k == 11 {
      assert Patterns[k][1] == '[';
    } else {
      assert AuthorName[22] == '[';
    }
  }

  /** The characters of the two parenthesised-number patterns: no `[`, a `(`, no `a`. */
  lemma ParenthesisPatternChars(k: nat)
    requires IsParenthesisPattern(k)
    ensures '[' !in Patterns[k] && '(' in Patterns[k] && 'a' !in Patterns[k]
  {
    assert Patterns[k][1] == '(';
  }

  /** Each parenthesised-number pattern has exactly one capturing group. */
  lemma ParenthesisPatternGroups(k: nat)
    requires IsParenthesisPattern(k)
    ensures GroupCount(Patterns[k]) == 1
  {
    if k == 3 {
      assert GroupsFrom(@"\((\d+)\)", 0, false) == 1;
    } else {
      var p := @"\((\d+(?:,\s*\d+)*)\)";
      assert GroupsFrom(p, 16, false) == 0;
      assert GroupsFrom(p, 9, false) == 0;
      assert GroupsFrom(p, 3, false) == 0;
      assert GroupsFrom(p, 0, false) == 1;
    }
  }

  lemma {:induction false} NoFirstCharNoOccurrence(s: string, sub: string)
    requires |sub| > 0 && sub[0] !in s
    ensures !Contains(s, sub)
  {
    forall i | 0 <= i <= |s| - |sub| ensures !OccursAt(s, sub, i) {
      assert s[i] in s;
    }
  }

  /**
    For the library as shipped, the numerical test holds for every match of a
    pattern with a `[`, and for the two parenthesised-number patterns exactly
    when the matched text has a digit.
  */
  lemma ShippedNumericalTest(k: nat, matchText: string)
    requires k < |Patterns|
    ensures TakesNumericalPath(Patterns[k], matchText) <==> !IsParenthesisPattern(k) || HasDigit(matchText)
  {
    if IsParenthesisPattern(k) {
      ParenthesisPatternChars(k);
      ContainsChar(Patterns[k], '[');
      ContainsChar(Patterns[k], '(');
    } else {
      BracketInPattern(k);
      ContainsChar(Patterns[k], '[');
    }
  }

  /** Neither parenthesised-number pattern contains `and`, so neither takes the two-author path. */
  lemma ParenthesisPatternNotTwoAuthor(k: nat)
    requires IsParenthesisPattern(k)
    ensures !TakesTwoAuthorPath(Patterns[k])
  {
    ParenthesisPatternChars(k);
    NoFirstCharNoOccurrence(Patterns[k], "and");
  }
}
