/**
  `CitationExtractor.extract_citations` and `process_text`: every pattern is
  run over two regions (the whole text, tagged inline, and the references
  section, tagged reference); each match becomes zero or more records; a set
  of string keys keeps the first record of each key, in discovery order.

  The specification is `Extraction`, built from `Candidates` (every record in
  discovery order) and `Kept` (first record of each key). The method
  `ExtractCitations` keeps the source's loops and its set of seen keys and is
  proved equal to `Extraction`; the properties are lemmas about `Extraction`.
*/
module CitationExtractor {
  import opened Wrappers
  import opened Strings
  import opened CitationPatterns
  import opened CitationValidators
  import opened ReferencesSection
  import opened SeenKeys

  // ---------------------------------------------------------------------------
  // Records
  // ---------------------------------------------------------------------------

  /** The region a record was found in: the `citation_type` field. */
  datatype CitationType = Inline | Reference

  function TypeName(t: CitationType): string
  {
    match t
    case Inline => "inline"
    case Reference => "reference"
  }

  /**
    The three record shapes. A numerical record is the dictionary with
    `type: "numerical"`; a two-author record carries `authors: [author1, author2]`.
  */
  datatype Citation =
    | Numerical(citationText: string, number: string, citationType: CitationType, context: string)
    | SingleAuthor(author: string, year: string, citationType: CitationType, context: string)
    | TwoAuthors(author1: string, author2: string, year: string, citationType: CitationType, context: string)

  /** The dedup key the source builds for each shape, fields joined with `_`. */
  function Key(c: Citation): string
  {
    match c
    case Numerical(text, number, t, _) => TypeName(t) + "_" + text + "_" + number
    case SingleAuthor(author, year, t, _) => TypeName(t) + "_" + author + "_" + year
    case TwoAuthors(a1, a2, year, t, _) => TypeName(t) + "_" + a1 + "_" + a2 + "_" + year
  }

  // ---------------------------------------------------------------------------
  // The records of one match
  // ---------------------------------------------------------------------------

  /** `match.group(0)`. */
  function MatchText(text: string, m: Match): string
  {
    Slice(text, m.span.start, m.span.end)
  }

  /** The context: up to 50 characters on each side of the match, stripped; a piece of the region. */
  function Context(text: string, span: Span): (ctx: string)
    ensures IsSubstring(ctx, text)
  {
    var window := Slice(text, Max(0, span.start - 50), Min(|text|, span.end + 50));
    StripIsSubstring(window);
    SubstringTransitive(Strip(window), window, text);
    Strip(window)
  }

  /** A record with the key the source builds for it. */
  type Candidate = (Citation, string)

  /** One numerical record per number, all sharing the match text and the context, each keyed by its number. */
  function NumericalCandidates(matchText: string, numbers: seq<string>, t: CitationType, ctx: string): (r: seq<Candidate>)
  {
    seq(|numbers|, i requires 0 <= i < |numbers| =>
      (Numerical(matchText, numbers[i], t, ctx), TypeName(t) + "_" + matchText + "_" + numbers[i]))
  }

  /** `match.group(g + 1)` stripped, or None where the source raises (no such group, or a group that did not take part). */
  function StrippedGroup(text: string, m: Match, g: nat): Option<string>
  {
    if g < |m.groups| && m.groups[g].Some? then
      Some(Strip(Slice(text, m.groups[g].value.start, m.groups[g].value.end)))
    else None
  }

  /**
    The candidates one match contributes: the numerical branch (every digit
    run of the match), the two-author branch and the single-author branch,
    each author-year record only when the validators accept it, and nothing
    when the source raises and skips the match.
  */
  function MatchCandidates(pattern: string, text: string, t: CitationType, m: Match, currentYear: int): seq<Candidate>
  {
    var matchText := MatchText(text, m);
    var ctx := Context(text, m.span);
    if TakesNumericalPath(pattern, matchText) then
      NumericalCandidates(matchText, DigitRuns(matchText), t, ctx)
    else if TakesTwoAuthorPath(pattern) then
      var a1, a2, y := StrippedGroup(text, m, 0), StrippedGroup(text, m, 1), StrippedGroup(text, m, 2);
      if a1.Some? && a2.Some? && y.Some?
         && ValidAuthor(a1.value) && ValidAuthor(a2.value) && ValidYear(y.value, currentYear)
      then [(TwoAuthors(a1.value, a2.value, y.value, t, ctx), TypeName(t) + "_" + a1.value + "_" + a2.value + "_" + y.value)]
      else []
    else
      var a, y := StrippedGroup(text, m, 0), StrippedGroup(text, m, 1);
      if a.Some? && y.Some? && ValidAuthor(a.value) && ValidYear(y.value, currentYear)
      then [(SingleAuthor(a.value, y.value, t, ctx), TypeName(t) + "_" + a.value + "_" + y.value)]
      else []
  }

  // ---------------------------------------------------------------------------
  // All candidates, in discovery order
  // ---------------------------------------------------------------------------

  /** `f` applied to the first `n` elements of `xs`, the results concatenated in order. */
  function FlatMap<A, B>(f: A -> seq<B>, xs: seq<A>, n: nat): seq<B>
    requires n <= |xs|
  {
    if n == 0 then [] else FlatMap(f, xs, n - 1) + f(xs[n - 1])
  }

  /** The candidates of the first `n` matches `ms` of one pattern, in match order. */
  function MatchesCandidates(pattern: string, text: string, t: CitationType, ms: seq<Match>, n: nat, currentYear: int): seq<Candidate>
    requires n <= |ms|
  {
    FlatMap((m: Match) => MatchCandidates(pattern, text, t, m, currentYear), ms, n)
  }

  /** The candidates of the first `n` of `patterns` over one region, in pattern order. */
  function PatternsCandidates(patterns: seq<string>, text: string, t: CitationType, matcher: Matcher, currentYear: int, n: nat): seq<Candidate>
    requires n <= |patterns|
  {
    FlatMap((p: string) => MatchesCandidates(p, text, t, matcher(p, text), |matcher(p, text)|, currentYear), patterns, n)
  }

  /** The candidates of all patterns over one region. */
  function RegionCandidates(text: string, t: CitationType, matcher: Matcher, currentYear: int): seq<Candidate>
  {
    PatternsCandidates(Patterns, text, t, matcher, currentYear, |Patterns|)
  }

  /** Every candidate, in the order the loops discover them: the whole text, then the references section. */
  function Candidates(text: string, matcher: Matcher, currentYear: int): seq<Candidate>
  {
    RegionCandidates(text, Inline, matcher, currentYear)
    + RegionCandidates(ReferencesText(text), Reference, matcher, currentYear)
  }

  /** What `extract_citations` returns. */
  function Extraction(text: string, matcher: Matcher, currentYear: int): seq<Citation>
  {
    if text == [] then [] else Kept(Candidates(text, matcher, currentYear))
  }

  // ---------------------------------------------------------------------------
  // The loops
  // ---------------------------------------------------------------------------

  /** The check at the end of each record: append the record unless its key was seen. */
  method AddIfUnseen(citations0: seq<Citation>, seen0: set<string>, citation: Citation, citationKey: string,
                     ghost done: seq<Candidate>)
    returns (citations: seq<Citation>, seen: set<string>)
    requires citations0 == Kept(done) && seen0 == Seen(done)
    ensures citations == Kept(done + [(citation, citationKey)]) && seen == Seen(done + [(citation, citationKey)])
    ensures citationKey in seen
  {
    KeptSnoc(done, (citation, citationKey));
    citations, seen := citations0, seen0;
    if citationKey !in seen {
      citations := citations + [citation];
      seen := seen + {citationKey};
    }
  }

  /** The loop over the digit runs of a numerical match; `last` is the last record and key it built. */
  method AddNumbers(citationText: string, numbers: seq<string>, citationType: CitationType, context: string,
                    citations0: seq<Citation>, seen0: set<string>, ghost done0: seq<Candidate>)
    returns (citations: seq<Citation>, seen: set<string>, last: Option<Candidate>)
    requires citations0 == Kept(done0) && seen0 == Seen(done0)
    ensures citations == Kept(done0 + NumericalCandidates(citationText, numbers, citationType, context))
    ensures seen == Seen(done0 + NumericalCandidates(citationText, numbers, citationType, context))
    ensures last.Some? ==> last.value.1 in seen
  {
    citations, seen, last := citations0, seen0, None;
    ghost var done := done0;
    for n := 0 to |numbers|
      invariant done == done0 + NumericalCandidates(citationText, numbers[..n], citationType, context)
      invariant citations == Kept(done) && seen == Seen(done)
      invariant last.Some? ==> last.value.1 in seen
    {
      var citation := Numerical(citationText, numbers[n], citationType, context);
      var citationKey := TypeName(citationType) + "_" + citationText + "_" + numbers[n];
      citations, seen := AddIfUnseen(citations, seen, citation, citationKey, done);
      assert NumericalCandidates(citationText, numbers[..n + 1], citationType, context)
          == NumericalCandidates(citationText, numbers[..n], citationType, context) + [(citation, citationKey)];
      done := done + [(citation, citationKey)];
      last := Some((citation, citationKey));
    }
    assert numbers[..|numbers|] == numbers;
  }

  /** The body of the loop over matches: the three branches, then the check they share. */
  method ScanMatch(pattern: string, currentText: string, citationType: CitationType, m: Match,
                   currentYear: int, citations0: seq<Citation>, seen0: set<string>, ghost done0: seq<Candidate>)
    returns (citations: seq<Citation>, seen: set<string>)
    requires citations0 == Kept(done0) && seen0 == Seen(done0)
    ensures citations == Kept(done0 + MatchCandidates(pattern, currentText, citationType, m, currentYear))
    ensures seen == Seen(done0 + MatchCandidates(pattern, currentText, citationType, m, currentYear))
  {
    citations, seen := citations0, seen0;
    var citationText := MatchText(currentText, m);
    var context := Context(currentText, m.span);
    var pending: Option<Candidate> := None;
    if TakesNumericalPath(pattern, citationText) {
      var numbers := DigitRuns(citationText);
      citations, seen, pending := AddNumbers(citationText, numbers, citationType, context, citations, seen, done0);
    } else if TakesTwoAuthorPath(pattern) {
      var author1, author2, year := StrippedGroup(currentText, m, 0), StrippedGroup(currentText, m, 1), StrippedGroup(currentText, m, 2);
      if author1.Some? && author2.Some? && year.Some?
         && ValidAuthor(author1.value) && ValidAuthor(author2.value) && ValidYear(year.value, currentYear) {
        var citation := TwoAuthors(author1.value, author2.value, year.value, citationType, context);
        pending := Some((citation, TypeName(citationType) + "_" + author1.value + "_" + author2.value + "_" + year.value));
      }
      assert pending.Some? ==> MatchCandidates(pattern, currentText, citationType, m, currentYear) == [pending.value];
      assert pending.None? ==> MatchCandidates(pattern, currentText, citationType, m, currentYear) == [];
    } else {
      var author, year := StrippedGroup(currentText, m, 0), StrippedGroup(currentText, m, 1);
      if author.Some? && year.Some? && ValidAuthor(author.value) && ValidYear(year.value, currentYear) {
        var citation := SingleAuthor(author.value, year.value, citationType, context);
        pending := Some((citation, TypeName(citationType) + "_" + author.value + "_" + year.value));
      }
      assert pending.Some? ==> MatchCandidates(pattern, currentText, citationType, m, currentYear) == [pending.value];
      assert pending.None? ==> MatchCandidates(pattern, currentText, citationType, m, currentYear) == [];
    }
    // The check shared by the branches. For a numerical match `pending` is its
    // last record, whose key was just added, so the check never appends.
    if pending.Some? && pending.value.1 !in seen {
      KeptSnoc(done0, pending.value);
      citations := citations + [pending.value.0];
      seen := seen + {pending.value.1};
    } else if pending.Some? && !TakesNumericalPath(pattern, citationText) {
      KeptSnoc(done0, pending.value);
    }
    if MatchCandidates(pattern, currentText, citationType, m, currentYear) == [] {
      assert done0 + [] == done0;
    }
  }

  /** Concatenation is associative; stated once so that the loops need not prove it element by element. */
  lemma ConcatAssoc<T>(a: seq<T>, b: seq<T>, c: seq<T>)
    ensures (a + b) + c == a + (b + c)
  {
  }

  /** The loop over the matches of one pattern in one region. */
  method ScanMatches(pattern: string, currentText: string, citationType: CitationType, matches: seq<Match>,
                     currentYear: int, citations0: seq<Citation>, seen0: set<string>, ghost done0: seq<Candidate>)
    returns (citations: seq<Citation>, seen: set<string>)
    requires citations0 == Kept(done0) && seen0 == Seen(done0)
    ensures citations == Kept(done0 + MatchesCandidates(pattern, currentText, citationType, matches, |matches|, currentYear))
    ensures seen == Seen(done0 + MatchesCandidates(pattern, currentText, citationType, matches, |matches|, currentYear))
  {
    citations, seen := citations0, seen0;
    assert done0 + [] == done0;
    for j := 0 to |matches|
      invariant citations == Kept(done0 + MatchesCandidates(pattern, currentText, citationType, matches, j, currentYear))
      invariant seen == Seen(done0 + MatchesCandidates(pattern, currentText, citationType, matches, j, currentYear))
    {
      ghost var before := MatchesCandidates(pattern, currentText, citationType, matches, j, currentYear);
      ghost var recs := MatchCandidates(pattern, currentText, citationType, matches[j], currentYear);
      citations, seen := ScanMatch(pattern, currentText, citationType, matches[j], currentYear, citations, seen, done0 + before);
      ConcatAssoc(done0, before, recs);
    }
  }

  /** The loop over the patterns for one region. */
  method ScanPatterns(patterns: seq<string>, currentText: string, citationType: CitationType, matcher: Matcher,
                      currentYear: int, citations0: seq<Citation>, seen0: set<string>, ghost done0: seq<Candidate>)
    returns (citations: seq<Citation>, seen: set<string>)
    requires citations0 == Kept(done0) && seen0 == Seen(done0)
    ensures citations == Kept(done0 + PatternsCandidates(patterns, currentText, citationType, matcher, currentYear, |patterns|))
    ensures seen == Seen(done0 + PatternsCandidates(patterns, currentText, citationType, matcher, currentYear, |patterns|))
  {
    citations, seen := citations0, seen0;
    assert done0 + [] == done0;
    for k := 0 to |patterns|
      invariant citations == Kept(done0 + PatternsCandidates(patterns, currentText, citationType, matcher, currentYear, k))
      invariant seen == Seen(done0 + PatternsCandidates(patterns, currentText, citationType, matcher, currentYear, k))
    {
      var pattern := patterns[k];
      var matches := matcher(pattern, currentText);
      ghost var before := PatternsCandidates(patterns, currentText, citationType, matcher, currentYear, k);
      ghost var recs := MatchesCandidates(pattern, currentText, citationType, matches, |matches|, currentYear);
      citations, seen := ScanMatches(pattern, currentText, citationType, matches, currentYear, citations, seen, done0 + before);
      ConcatAssoc(done0, before, recs);
    }
  }

  /** `extract_citations`: the loops over regions and patterns, with the list of records and the set of seen keys. */
  method ExtractCitations(text: string, matcher: Matcher, currentYear: int) returns (citations: seq<Citation>)
    ensures citations == Extraction(text, matcher, currentYear)
  {
    if text == [] {
      return [];
    }
    citations := [];
    var seen: set<string> := {};
    var referencesText := ReferencesText(text);
    citations, seen := ScanPatterns(Patterns, text, Inline, matcher, currentYear, citations, seen, []);
    ghost var done := RegionCandidates(text, Inline, matcher, currentYear);
    assert [] + done == done;
    citations, seen := ScanPatterns(Patterns, referencesText, Reference, matcher, currentYear, citations, seen, done);
  }

  /** The dictionary `process_text` returns. */
  datatype ProcessResult = ProcessResult(success: bool, citations: seq<Citation>, error: Option<string>)

  /** What `process_text` returns; `extract_citations` never raises, so its except branch is never taken. */
  function ProcessTextResult(text: string, matcher: Matcher, currentYear: int): ProcessResult
  {
    if text == [] then ProcessResult(false, [], Some("Empty text provided"))
    else ProcessResult(true, Extraction(text, matcher, currentYear), None)
  }

  method ProcessText(text: string, matcher: Matcher, currentYear: int) returns (result: ProcessResult)
    ensures result == ProcessTextResult(text, matcher, currentYear)
    ensures result.success <==> text != []
    ensures text == [] ==> result == ProcessResult(false, [], Some("Empty text provided"))
  {
    result := ProcessResult(false, [], None);
    if text == [] {
      result := result.(error := Some("Empty text provided"));
      return;
    }
    var citations := ExtractCitations(text, matcher, currentYear);
    result := result.(success := true, citations := citations);
  }
}
