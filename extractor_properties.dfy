/**
  What `extract_citations` promises, proved about `Extraction`: where each
  record comes from, that keys are unique and the first record of each key is
  kept, that inline records come before reference records, that under the
  shipped pattern list every record is numerical, and that every digit run of
  a numerical match yields exactly one record.
*/
module ExtractorProperties {
  import opened Wrappers
  import opened Strings
  import opened CitationPatterns
  import opened CitationValidators
  import opened ReferencesSection
  import opened SeenKeys
  import opened CitationExtractor

  // ---------------------------------------------------------------------------
  // One match
  // ---------------------------------------------------------------------------

  /**
    A candidate of a region tagged `t`: keyed as the source keys it, tagged
    `t`, its context a piece of the region, and a numerical record's number a
    run of digits of its own citation text.
  */
  predicate WellFormed(c: Candidate, region: string, t: CitationType)
  {
    && c.1 == Key(c.0)
    && c.0.citationType == t
    && IsSubstring(c.0.context, region)
    && (c.0.Numerical? ==> |c.0.number| > 0 && AllDigits(c.0.number) && c.0.number in DigitRuns(c.0.citationText))
  }

  lemma NumericalCandidatesWellFormed(matchText: string, numbers: seq<string>, t: CitationType, region: string, ctx: string)
    requires IsSubstring(ctx, region)
    requires forall q :: 0 <= q < |numbers| ==> numbers[q] in DigitRuns(matchText)
    ensures forall c :: c in NumericalCandidates(matchText, numbers, t, ctx) ==> WellFormed(c, region, t)
  {
    forall c | c in NumericalCandidates(matchText, numbers, t, ctx) ensures WellFormed(c, region, t) {
      var q :| 0 <= q < |numbers| && NumericalCandidates(matchText, numbers, t, ctx)[q] == c;
    }
  }

  /** Every candidate of a match is well formed. */
  lemma MatchCandidatesWellFormed(pattern: string, region: string, t: CitationType, m: Match, currentYear: int)
    ensures forall c :: c in MatchCandidates(pattern, region, t, m, currentYear) ==> WellFormed(c, region, t)
  {
    var matchText := MatchText(region, m);
    var ctx := Context(region, m.span);
    if TakesNumericalPath(pattern, matchText) {
      NumericalCandidatesWellFormed(matchText, DigitRuns(matchText), t, region, ctx);
    } else {
      var cs := MatchCandidates(pattern, region, t, m, currentYear);
      assert cs == [] || (|cs| == 1 && cs[0].0.context == ctx && cs[0].0.citationType == t && cs[0].1 == Key(cs[0].0));
    }
  }

  /**
    A match of a shipped pattern, reported as `re.finditer` reports it, yields
    numerical records only: the two parenthesised-number patterns send a match
    without digits to the single-author branch, which asks for a second group
    those patterns do not have, so the match is skipped.
  */
  lemma MatchCandidatesNumerical(k: nat, region: string, t: CitationType, m: Match, currentYear: int)
    requires k < |Patterns|
    requires |m.groups| == GroupCount(Patterns[k])
    ensures forall c :: c in MatchCandidates(Patterns[k], region, t, m, currentYear) ==> c.0.Numerical?
  {
    var pattern := Patterns[k];
    var matchText := MatchText(region, m);
    ShippedNumericalTest(k, matchText);
    if TakesNumericalPath(pattern, matchText) {
      var numbers := DigitRuns(matchText);
      var ctx := Context(region, m.span);
      forall c | c in NumericalCandidates(matchText, numbers, t, ctx) ensures c.0.Numerical? {
        var q :| 0 <= q < |numbers| && NumericalCandidates(matchText, numbers, t, ctx)[q] == c;
      }
    } else {
      ParenthesisPatternNotTwoAuthor(k);
      ParenthesisPatternGroups(k);
      assert StrippedGroup(region, m, 1).None?;
    }
  }

  /** The candidates of one match do not depend on the current year when the match is numerical. */
  lemma MatchCandidatesIgnoreYear(k: nat, region: string, t: CitationType, m: Match, year1: int, year2: int)
    requires k < |Patterns|
    requires |m.groups| == GroupCount(Patterns[k])
    ensures MatchCandidates(Patterns[k], region, t, m, year1) == MatchCandidates(Patterns[k], region, t, m, year2)
  {
    var matchText := MatchText(region, m);
    ShippedNumericalTest(k, matchText);
    if !TakesNumericalPath(Patterns[k], matchText) {
      ParenthesisPatternNotTwoAuthor(k);
      ParenthesisPatternGroups(k);
      assert StrippedGroup(region, m, 1).None?;
    }
  }

  /** A group of a match over the empty region is empty, when it is there at all. */
  lemma StrippedGroupOfEmptyRegion(m: Match, g: nat)
    ensures StrippedGroup("", m, g).Some? ==> StrippedGroup("", m, g).value == ""
  {
    if g < |m.groups| && m.groups[g].Some? {
      assert Slice("", m.groups[g].value.start, m.groups[g].value.end) == "";
      assert LStrip("") == "" && RStrip("") == "";
    }
  }

  /** Over the empty region no match yields anything: the match text, and every group, is empty. */
  lemma MatchCandidatesOfEmptyRegion(pattern: string, t: CitationType, m: Match, currentYear: int)
    ensures MatchCandidates(pattern, "", t, m, currentYear) == []
  {
    var matchText := MatchText("", m);
    assert matchText == "";
    DigitRunsBase(matchText);
    StrippedGroupOfEmptyRegion(m, 0);
    StrippedGroupOfEmptyRegion(m, 1);
  }

  // ---------------------------------------------------------------------------
  // Where a candidate comes from, and where it goes
  // ---------------------------------------------------------------------------

  /** An element of a concatenation comes from one of its parts. */
  lemma {:induction false} FlatMapOrigin<A, B>(f: A -> seq<B>, xs: seq<A>, n: nat, c: B) returns (j: nat)
    requires n <= |xs| && c in FlatMap(f, xs, n)
    ensures j < n && c in f(xs[j])
  {
    if c in f(xs[n - 1]) {
      j := n - 1;
    } else {
      j := FlatMapOrigin(f, xs, n - 1, c);
    }
  }

  /** Every element of every part is in the concatenation. */
  lemma {:induction false} FlatMapIn<A, B>(f: A -> seq<B>, xs: seq<A>, n: nat, j: nat, c: B)
    requires j < n <= |xs| && c in f(xs[j])
    ensures c in FlatMap(f, xs, n)
  {
    if j < n - 1 {
      FlatMapIn(f, xs, n - 1, j, c);
    }
  }

  /** A candidate of a region comes from one match of one shipped pattern over that region. */
  lemma RegionOrigin(region: string, t: CitationType, matcher: Matcher, currentYear: int, c: Candidate)
    returns (k: nat, j: nat)
    requires c in RegionCandidates(region, t, matcher, currentYear)
    ensures k < |Patterns| && j < |matcher(Patterns[k], region)|
    ensures c in MatchCandidates(Patterns[k], region, t, matcher(Patterns[k], region)[j], currentYear)
  {
    var perPattern := (p: string) => MatchesCandidates(p, region, t, matcher(p, region), |matcher(p, region)|, currentYear);
    k := FlatMapOrigin(perPattern, Patterns, |Patterns|, c);
    var ms := matcher(Patterns[k], region);
    j := FlatMapOrigin((m: Match) => MatchCandidates(Patterns[k], region, t, m, currentYear), ms, |ms|, c);
  }

  /** Every candidate of every match of every shipped pattern is a candidate of the region. */
  lemma InRegion(region: string, t: CitationType, matcher: Matcher, currentYear: int, k: nat, j: nat, c: Candidate)
    requires k < |Patterns| && j < |matcher(Patterns[k], region)|
    requires c in MatchCandidates(Patterns[k], region, t, matcher(Patterns[k], region)[j], currentYear)
    ensures c in RegionCandidates(region, t, matcher, currentYear)
  {
    var ms := matcher(Patterns[k], region);
    FlatMapIn((m: Match) => MatchCandidates(Patterns[k], region, t, m, currentYear), ms, |ms|, j, c);
    var perPattern := (p: string) => MatchesCandidates(p, region, t, matcher(p, region), |matcher(p, region)|, currentYear);
    FlatMapIn(perPattern, Patterns, |Patterns|, k, c);
  }

  // ---------------------------------------------------------------------------
  // All candidates
  // ---------------------------------------------------------------------------

  lemma RegionWellFormed(region: string, t: CitationType, matcher: Matcher, currentYear: int)
    ensures forall c :: c in RegionCandidates(region, t, matcher, currentYear) ==> WellFormed(c, region, t)
  {
    forall c | c in RegionCandidates(region, t, matcher, currentYear) ensures WellFormed(c, region, t) {
      var k, j := RegionOrigin(region, t, matcher, currentYear, c);
      MatchCandidatesWellFormed(Patterns[k], region, t, matcher(Patterns[k], region)[j], currentYear);
    }
  }

  lemma RegionNumerical(region: string, t: CitationType, matcher: Matcher, currentYear: int)
    requires MatcherConforms(matcher)
    ensures forall c :: c in RegionCandidates(region, t, matcher, currentYear) ==> c.0.Numerical?
  {
    forall c | c in RegionCandidates(region, t, matcher, currentYear) ensures c.0.Numerical? {
      var k, j := RegionOrigin(region, t, matcher, currentYear, c);
      var ms := matcher(Patterns[k], region);
      assert Conforms(Patterns[k], region, ms);
      MatchCandidatesNumerical(k, region, t, ms[j], currentYear);
    }
  }

  /** The empty region has no candidates, whatever the matcher reports. */
  lemma EmptyRegionNoCandidates(t: CitationType, matcher: Matcher, currentYear: int)
    ensures RegionCandidates("", t, matcher, currentYear) == []
  {
    var cs := RegionCandidates("", t, matcher, currentYear);
    if cs != [] {
      var k, j := RegionOrigin("", t, matcher, currentYear, cs[0]);
      MatchCandidatesOfEmptyRegion(Patterns[k], t, matcher(Patterns[k], "")[j], currentYear);
    }
  }

  /**
    The candidates of a non-empty text: the first `|inline|` are the inline
    ones and the rest the reference ones; each is keyed as the source keys it
    and its context is a piece of the text.
  */
  lemma CandidatesWellFormed(text: string, matcher: Matcher, currentYear: int)
    ensures var cs := Candidates(text, matcher, currentYear);
            var n := |RegionCandidates(text, Inline, matcher, currentYear)|;
            && n <= |cs|
            && (forall i :: 0 <= i < |cs| ==> cs[i].1 == Key(cs[i].0) && IsSubstring(cs[i].0.context, text))
            && (forall i :: 0 <= i < |cs| ==> cs[i].0.Numerical? ==> |cs[i].0.number| > 0 && AllDigits(cs[i].0.number))
            && (forall i :: 0 <= i < n ==> cs[i].0.citationType == Inline)
            && (forall i :: n <= i < |cs| ==> cs[i].0.citationType == Reference)
  {
    var a := RegionCandidates(text, Inline, matcher, currentYear);
    var references := ReferencesText(text);
    var b := RegionCandidates(references, Reference, matcher, currentYear);
    var cs := a + b;
    RegionWellFormed(text, Inline, matcher, currentYear);
    RegionWellFormed(references, Reference, matcher, currentYear);
    forall i | 0 <= i < |cs|
      ensures cs[i].1 == Key(cs[i].0) && IsSubstring(cs[i].0.context, text)
      ensures cs[i].0.Numerical? ==> |cs[i].0.number| > 0 && AllDigits(cs[i].0.number)
      ensures cs[i].0.citationType == if i < |a| then Inline else Reference
    {
      if i < |a| {
        assert cs[i] == a[i] && a[i] in a;
      } else {
        assert cs[i] == b[i - |a|] && b[i - |a|] in b;
        SubstringTransitive(cs[i].0.context, references, text);
      }
    }
  }

  /** The number of every numerical candidate is a digit run of its own citation text. */
  lemma CandidatesNumbersAreRuns(text: string, matcher: Matcher, currentYear: int)
    ensures forall c :: c in Candidates(text, matcher, currentYear) && c.0.Numerical? ==> c.0.number in DigitRuns(c.0.citationText)
  {
    RegionWellFormed(text, Inline, matcher, currentYear);
    RegionWellFormed(ReferencesText(text), Reference, matcher, currentYear);
  }

  lemma CandidatesNumerical(text: string, matcher: Matcher, currentYear: int)
    requires MatcherConforms(matcher)
    ensures forall c :: c in Candidates(text, matcher, currentYear) ==> c.0.Numerical?
  {
    RegionNumerical(text, Inline, matcher, currentYear);
    RegionNumerical(ReferencesText(text), Reference, matcher, currentYear);
  }

  // ---------------------------------------------------------------------------
  // Numerical keys
  // ---------------------------------------------------------------------------

  /** A key ending in `_` and a run of digits splits uniquely at that last `_`. */
  lemma KeySplit(p1: string, n1: string, p2: string, n2: string)
    requires p1 + "_" + n1 == p2 + "_" + n2
    requires AllDigits(n1) && AllDigits(n2)
    ensures p1 == p2 && n1 == n2
  {
    var s := p1 + "_" + n1;
    assert s[|p1|] == '_' && s[|p2|] == '_';
    assert forall j :: |p1| < j < |s| ==> s[j] == n1[j - |p1| - 1];
    assert forall j :: |p2| < j < |s| ==> s[j] == n2[j - |p2| - 1];
    assert |p1| == |p2|;
    assert p1 == s[..|p1|] == p2;
    assert n1 == s[|p1| + 1..] == n2;
  }

  /** The region name at the head of a key is told apart by its first letter. */
  lemma TypeNamePrefix(t1: CitationType, x1: string, t2: CitationType, x2: string)
    requires TypeName(t1) + "_" + x1 == TypeName(t2) + "_" + x2
    ensures t1 == t2 && x1 == x2
  {
    var s := TypeName(t1) + "_" + x1;
    assert s[0] == TypeName(t1)[0] == TypeName(t2)[0];
    var n := |TypeName(t1)| + 1;
    assert s[n..] == x1;
    assert (TypeName(t2) + "_" + x2)[n..] == x2;
  }

  /** Two numerical records with the same key have the same text, number and region. */
  lemma NumericalKeyInjective(a: Citation, b: Citation)
    requires a.Numerical? && b.Numerical? && AllDigits(a.number) && AllDigits(b.number)
    requires Key(a) == Key(b)
    ensures a.citationText == b.citationText && a.number == b.number && a.citationType == b.citationType
  {
    KeySplit(TypeName(a.citationType) + "_" + a.citationText, a.number,
             TypeName(b.citationType) + "_" + b.citationText, b.number);
    TypeNamePrefix(a.citationType, a.citationText, b.citationType, b.citationText);
  }

  // ---------------------------------------------------------------------------
  // What `extract_citations` returns
  // ---------------------------------------------------------------------------

  /**
    First occurrence wins: the output is the records of candidates at strictly
    increasing positions, no earlier candidate shares the key of an output
    record, no two output records share a key, and every candidate's key is
    the key of an output record found no later than it.
  */
  lemma ExtractionKeepsFirst(text: string, matcher: Matcher, currentYear: int) returns (idx: seq<nat>)
    requires text != []
    ensures var cs, out := Candidates(text, matcher, currentYear), Extraction(text, matcher, currentYear);
            && |idx| == |out|
            && (forall i :: 0 <= i < |idx| ==> idx[i] < |cs| && out[i] == cs[idx[i]].0)
            && (forall i, j :: 0 <= i < j < |idx| ==> idx[i] < idx[j])
            && (forall i, j :: 0 <= i < |idx| && 0 <= j < idx[i] ==> Key(cs[j].0) != Key(out[i]))
            && (forall i, j :: 0 <= i < j < |out| ==> Key(out[i]) != Key(out[j]))
            && (forall j :: 0 <= j < |cs| ==> exists i :: 0 <= i < |out| && idx[i] <= j && Key(out[i]) == Key(cs[j].0))
  {
    var cs := Candidates(text, matcher, currentYear);
    var out := Extraction(text, matcher, currentYear);
    CandidatesWellFormed(text, matcher, currentYear);
    var cover;
    idx, cover := KeptFirstOccurrences(cs);
    forall j | 0 <= j < |cs| ensures exists i :: 0 <= i < |out| && idx[i] <= j && Key(out[i]) == Key(cs[j].0) {
      var i := cover[j];
      assert out[i] == cs[idx[i]].0;
    }
  }

  /** No two output records share a key. */
  lemma ExtractionDistinctKeys(text: string, matcher: Matcher, currentYear: int)
    ensures var out := Extraction(text, matcher, currentYear);
            forall i, j :: 0 <= i < j < |out| ==> Key(out[i]) != Key(out[j])
  {
    if text != [] {
      var idx := ExtractionKeepsFirst(text, matcher, currentYear);
    }
  }

  /** Every context is a piece of the text: a stripped window of the text or of its references section. */
  lemma ExtractionContextInText(text: string, matcher: Matcher, currentYear: int)
    ensures forall c :: c in Extraction(text, matcher, currentYear) ==> IsSubstring(c.context, text)
  {
    if text != [] {
      var cs := Candidates(text, matcher, currentYear);
      CandidatesWellFormed(text, matcher, currentYear);
      var idx, cover := KeptFirstOccurrences(cs);
      var out := Kept(cs);
      forall c | c in out ensures IsSubstring(c.context, text) {
        var i :| 0 <= i < |out| && out[i] == c;
        assert out[i] == cs[idx[i]].0;
      }
    }
  }

  /** All inline records come before all reference records. */
  lemma InlineBeforeReference(text: string, matcher: Matcher, currentYear: int)
    ensures var out := Extraction(text, matcher, currentYear);
            forall i, j :: 0 <= i < j < |out| && out[j].citationType == Inline ==> out[i].citationType == Inline
  {
    if text != [] {
      var a := RegionCandidates(text, Inline, matcher, currentYear);
      var b := RegionCandidates(ReferencesText(text), Reference, matcher, currentYear);
      CandidatesWellFormed(text, matcher, currentYear);
      var x := KeptAppend(a, b);
      var kept := Kept(a);
      var idx, cover := KeptFirstOccurrences(a);
      assert forall i :: 0 <= i < |kept| ==> kept[i].citationType == Inline by {
        forall i | 0 <= i < |kept| ensures kept[i].citationType == Inline {
          assert kept[i] == a[idx[i]].0 && (a + b)[idx[i]] == a[idx[i]];
        }
      }
      forall i | 0 <= i < |x| ensures x[i].citationType == Reference {
        assert x[i] in x;
        var q :| 0 <= q < |b| && b[q].0 == x[i];
        assert (a + b)[|a| + q] == b[q];
      }
    }
  }

  /** Without a references heading the reference region is empty, and every record is inline. */
  lemma NoHeadingAllInline(text: string, matcher: Matcher, currentYear: int)
    requires forall i, k :: 0 <= i <= |text| && 0 <= k < |Headings| ==> !HeadingAt(text, i, Headings[k])
    ensures text != [] ==> Extraction(text, matcher, currentYear) == Kept(RegionCandidates(text, Inline, matcher, currentYear))
    ensures forall c :: c in Extraction(text, matcher, currentYear) ==> c.citationType == Inline
  {
    NoHeadingNoReferences(text);
    EmptyRegionNoCandidates(Reference, matcher, currentYear);
    var a := RegionCandidates(text, Inline, matcher, currentYear);
    assert Candidates(text, matcher, currentYear) == a + [] == a;
    if text != [] {
      CandidatesWellFormed(text, matcher, currentYear);
      var idx, cover := KeptFirstOccurrences(a);
      var out := Kept(a);
      forall c | c in out ensures c.citationType == Inline {
        var i :| 0 <= i < |out| && out[i] == c;
        assert out[i] == a[idx[i]].0;
      }
    }
  }

  /**
    Under the shipped patterns and a matcher that behaves as `re.finditer`
    does, every record is numerical: the author-year branches and the
    validators never contribute.
  */
  lemma EveryRecordNumerical(text: string, matcher: Matcher, currentYear: int)
    requires MatcherConforms(matcher)
    ensures forall c :: c in Extraction(text, matcher, currentYear) ==> c.Numerical?
  {
    if text != [] {
      CandidatesNumerical(text, matcher, currentYear);
      var idx := ExtractionKeepsFirst(text, matcher, currentYear);
      var out := Extraction(text, matcher, currentYear);
      var cs := Candidates(text, matcher, currentYear);
      forall c | c in out ensures c.Numerical? {
        var i :| 0 <= i < |out| && out[i] == c;
        assert cs[idx[i]] in cs;
      }
    }
  }

  /** The region a tag stands for: the whole text for inline records, the references section for reference records. */
  function RegionOf(text: string, t: CitationType): (region: string)
    ensures IsSubstring(region, text)
  {
    if t == Inline then (assert text == text[0..|text|]; text) else ReferencesText(text)
  }

  /** A digit run of a numerical match over either region is the number of some candidate, with that match's text and tag. */
  lemma NumericalCandidateAt(text: string, matcher: Matcher, currentYear: int, t: CitationType, k: nat, j: nat, r: string)
    returns (p: nat)
    requires k < |Patterns| && j < |matcher(Patterns[k], RegionOf(text, t))|
    requires TakesNumericalPath(Patterns[k], MatchText(RegionOf(text, t), matcher(Patterns[k], RegionOf(text, t))[j]))
    requires r in DigitRuns(MatchText(RegionOf(text, t), matcher(Patterns[k], RegionOf(text, t))[j]))
    ensures var cs := Candidates(text, matcher, currentYear);
            && p < |cs| && cs[p].0.Numerical?
            && cs[p].0.citationText == MatchText(RegionOf(text, t), matcher(Patterns[k], RegionOf(text, t))[j])
            && cs[p].0.number == r && cs[p].0.citationType == t && AllDigits(r)
  {
    var region := RegionOf(text, t);
    var m := matcher(Patterns[k], region)[j];
    var mt := MatchText(region, m);
    var nums := DigitRuns(mt);
    var q :| 0 <= q < |nums| && nums[q] == r;
    var c := NumericalCandidates(mt, nums, t, Context(region, m.span))[q];
    assert c in MatchCandidates(Patterns[k], region, t, m, currentYear);
    InRegion(region, t, matcher, currentYear, k, j, c);
    var a := RegionCandidates(text, Inline, matcher, currentYear);
    var b := RegionCandidates(ReferencesText(text), Reference, matcher, currentYear);
    assert Candidates(text, matcher, currentYear) == a + b;
    if t == Inline {
      p :| 0 <= p < |a| && a[p] == c;
    } else {
      var p' :| 0 <= p' < |b| && b[p'] == c;
      p := |a| + p';
    }
  }

  /**
    Completeness for numbers: every digit run of a match that takes the
    numerical branch, over the whole text or over the references section, is
    the number of exactly one output record carrying that match's text and
    that region's tag. Its context is that of the first match with the same
    text and number, which need not be this one.
  */
  lemma NumericalMatchEmitted(text: string, matcher: Matcher, currentYear: int, t: CitationType, k: nat, j: nat, r: string)
    returns (i: nat)
    requires MatcherConforms(matcher) && text != []
    requires k < |Patterns| && j < |matcher(Patterns[k], RegionOf(text, t))|
    requires TakesNumericalPath(Patterns[k], MatchText(RegionOf(text, t), matcher(Patterns[k], RegionOf(text, t))[j]))
    requires r in DigitRuns(MatchText(RegionOf(text, t), matcher(Patterns[k], RegionOf(text, t))[j]))
    ensures var out, mt := Extraction(text, matcher, currentYear), MatchText(RegionOf(text, t), matcher(Patterns[k], RegionOf(text, t))[j]);
            && i < |out| && out[i].Numerical?
            && out[i].citationText == mt && out[i].number == r && out[i].citationType == t
            && forall i' :: (0 <= i' < |out| && out[i'].Numerical? && out[i'].citationText == mt
                             && out[i'].number == r && out[i'].citationType == t) ==> i' == i
  {
    var p := NumericalCandidateAt(text, matcher, currentYear, t, k, j, r);
    var out := Extraction(text, matcher, currentYear);
    var p2;
    i, p2 := ExtractionCovers(text, matcher, currentYear, p);
    CandidateNumericalAt(text, matcher, currentYear, p2);
    NumericalKeyInjective(out[i], Candidates(text, matcher, currentYear)[p].0);
    forall i' | 0 <= i' < |out| && out[i'].Numerical? && out[i'].citationText == out[i].citationText
                && out[i'].number == out[i].number && out[i'].citationType == out[i].citationType
      ensures i' == i
    {
      assert Key(out[i']) == Key(out[i]);
    }
  }

  /**
    Soundness for numbers: the number of every numerical output record is a
    non-empty digit run of its own citation text.
  */
  lemma ExtractionNumbersAreRuns(text: string, matcher: Matcher, currentYear: int)
    ensures forall c :: c in Extraction(text, matcher, currentYear) && c.Numerical? ==>
              |c.number| > 0 && AllDigits(c.number) && c.number in DigitRuns(c.citationText)
  {
    if text != [] {
      CandidatesWellFormed(text, matcher, currentYear);
      CandidatesNumbersAreRuns(text, matcher, currentYear);
      var idx := ExtractionKeepsFirst(text, matcher, currentYear);
      var cs := Candidates(text, matcher, currentYear);
      var out := Extraction(text, matcher, currentYear);
      forall c | c in out && c.Numerical?
        ensures |c.number| > 0 && AllDigits(c.number) && c.number in DigitRuns(c.citationText)
      {
        var i :| 0 <= i < |out| && out[i] == c;
        assert out[i] == cs[idx[i]].0 && cs[idx[i]] in cs;
      }
    }
  }

  /** The output record that carries the key of candidate `p`, and the candidate it was taken from. */
  lemma ExtractionCovers(text: string, matcher: Matcher, currentYear: int, p: nat) returns (i: nat, p2: nat)
    requires text != [] && p < |Candidates(text, matcher, currentYear)|
    ensures var cs, out := Candidates(text, matcher, currentYear), Extraction(text, matcher, currentYear);
            && i < |out| && p2 < |cs| && out[i] == cs[p2].0 && Key(out[i]) == Key(cs[p].0)
            && forall i' :: 0 <= i' < |out| && Key(out[i']) == Key(out[i]) ==> i' == i
  {
    var out := Extraction(text, matcher, currentYear);
    var idx := ExtractionKeepsFirst(text, matcher, currentYear);
    i :| 0 <= i < |out| && idx[i] <= p && Key(out[i]) == Key(Candidates(text, matcher, currentYear)[p].0);
    p2 := idx[i];
  }

  /** Under a conforming matcher, candidate `p` is numerical and its number a run of digits. */
  lemma CandidateNumericalAt(text: string, matcher: Matcher, currentYear: int, p: nat)
    requires MatcherConforms(matcher) && p < |Candidates(text, matcher, currentYear)|
    ensures var c := Candidates(text, matcher, currentYear)[p].0;
            c.Numerical? && AllDigits(c.number)
  {
    CandidatesWellFormed(text, matcher, currentYear);
    CandidatesNumerical(text, matcher, currentYear);
    assert Candidates(text, matcher, currentYear)[p] in Candidates(text, matcher, currentYear);
  }
}
