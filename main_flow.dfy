/**
  The command-line flow's own logic: picking the PDF link out of a search
  response, laying a summary out under its key section headings, and
  grouping the inline citations of a summary by number for the listing.
  Printing is modelled as the sequence of things shown.
*/
module MainFlow {
  import opened Wrappers
  import opened Strings
  import opened Ranking
  import opened CitationPatterns
  import opened CitationExtractor
  import ExtractorProperties

  // ---------------------------------------------------------------------------
  // The first PDF link of a search response
  // ---------------------------------------------------------------------------

  /** A dictionary entry that may be missing; present values may themselves be `None`. */
  datatype Field<T> = Missing | Present(v: T)

  /** One search result: its `pdf_url` entry (the formatted link, possibly `None`) and its `url` entry. */
  datatype ResultRecord = ResultRecord(pdfUrl: Field<Option<string>>, url: Field<string>)

  /** The search response: not a dictionary at all, or a dictionary whose `results` entry may be missing. */
  datatype SearchResponse = NotADict | Response(results: Option<seq<ResultRecord>>)

  predicate EndsWith(s: string, suffix: string)
  {
    |suffix| <= |s| && s[|s| - |suffix|..] == suffix
  }

  /** The results the loop walks: none for a malformed or empty response. */
  function ResultsOf(response: SearchResponse): seq<ResultRecord>
  {
    if response.Response? && response.results.Some? then response.results.value else []
  }

  /** A result settles the search: it has a `pdf_url` entry, or a `url` ending in `.pdf` in any letter case. */
  predicate Settles(r: ResultRecord)
  {
    r.pdfUrl.Present? || (r.url.Present? && EndsWith(Lower(r.url.v), ".pdf"))
  }

  /** What a settling result yields: its `pdf_url` entry when it has one, otherwise its `url`. */
  function LinkOf(r: ResultRecord): Option<string>
    requires Settles(r)
  {
    if r.pdfUrl.Present? then r.pdfUrl.v else Some(r.url.v)
  }

  /**
    `extract_first_pdf_url`: the first result that settles the search
    decides the answer, even when its `pdf_url` entry is `None`; with no
    settling result (or no results at all) the answer is `None`.
  */
  method ExtractFirstPdfUrl(response: SearchResponse) returns (link: Option<string>)
    ensures var rs := ResultsOf(response);
            forall i :: 0 <= i < |rs| && Settles(rs[i]) && (forall j :: 0 <= j < i ==> !Settles(rs[j])) ==> link == LinkOf(rs[i])
    ensures (forall i :: 0 <= i < |ResultsOf(response)| ==> !Settles(ResultsOf(response)[i])) ==> link == None
    ensures link.Some? ==> exists i :: 0 <= i < |ResultsOf(response)| && Settles(ResultsOf(response)[i])
                                      && (ResultsOf(response)[i].pdfUrl == Present(link)
                                          || (ResultsOf(response)[i].url == Present(link.value) && EndsWith(Lower(link.value), ".pdf")))
  {
    if response.NotADict? || response.results.None? || response.results.value == [] {
      return None;
    }
    var rs := response.results.value;
    var i := 0;
    while i < |rs|
      invariant 0 <= i <= |rs|
      invariant forall j :: 0 <= j < i ==> !Settles(rs[j])
    {
      var r := rs[i];
      if r.pdfUrl.Present? {
        return r.pdfUrl.v;
      } else if r.url.Present? && EndsWith(Lower(r.url.v), ".pdf") {
        return Some(r.url.v);
      }
      i := i + 1;
    }
    return None;
  }

  // ---------------------------------------------------------------------------
  // Key sections of a summary
  // ---------------------------------------------------------------------------

  /** The key section types, in the order the keyword table lists them. */
  datatype SectionType = Abstract | Introduction | Methods | Results | Conclusion

  const SectionOrder: seq<SectionType> := [Abstract, Introduction, Methods, Results, Conclusion]

  /** The position of a type in `SectionOrder`. */
  function Rank(t: SectionType): (p: nat)
    ensures p < |SectionOrder| && SectionOrder[p] == t
  {
    match t
    case Abstract => 0
    case Introduction => 1
    case Methods => 2
    case Results => 3
    case Conclusion => 4
  }

  /** The keywords that announce a section type. */
  function Keywords(t: SectionType): seq<string>
  {
    match t
    case Abstract => ["abstract", "summary"]
    case Introduction => ["introduction", "background"]
    case Methods => ["methods", "methodology", "approach"]
    case Results => ["results", "findings", "analysis"]
    case Conclusion => ["conclusion", "discussion", "implications"]
  }

  /** The lower-cased section mentions one of the type's keywords. */
  predicate Mentions(lower: string, t: SectionType)
  {
    exists w :: w in Keywords(t) && Contains(lower, w)
  }

  /** The type would open a new heading: mentioned, and not shown before. */
  predicate IsNew(lower: string, processed: set<SectionType>, t: SectionType)
  {
    Mentions(lower, t) && t !in processed
  }

  /**
    The first type at or after position `k` of the table that the section
    mentions and that has no heading yet. A mentioned type that already has
    one does not stop the scan.
  */
  function FirstNewFrom(lower: string, processed: set<SectionType>, k: nat): (r: Option<SectionType>)
    requires k <= |SectionOrder|
    decreases |SectionOrder| - k
    ensures r.Some? ==> k <= Rank(r.value) && IsNew(lower, processed, r.value)
                        && forall q :: k <= q < Rank(r.value) ==> !IsNew(lower, processed, SectionOrder[q])
    ensures r.None? ==> forall q :: k <= q < |SectionOrder| ==> !IsNew(lower, processed, SectionOrder[q])
  {
    if k == |SectionOrder| then None
    else if IsNew(lower, processed, SectionOrder[k]) then Some(SectionOrder[k])
    else FirstNewFrom(lower, processed, k + 1)
  }

  /** What the layout shows for one section: a new heading with its body, a paragraph under the current heading, or general content. */
  datatype Shown = Heading(kind: SectionType, body: string) | UnderCurrent(text: string) | General(text: string)

  /** The layout so far: what was shown, the types with a heading, and the current heading. */
  datatype Layout = Layout(shown: seq<Shown>, processed: set<SectionType>, current: Option<SectionType>)

  /** The body shown under a new heading: everything after the section's first line, stripped. */
  function HeadingBody(section: string): string
  {
    match Find(section, "\n")
    case Some(i) => Strip(section[i + 1..])
    case None => Strip(section)
  }

  /** Laying out one more section. */
  function Step(d: Layout, section: string): Layout
  {
    var s := Strip(section);
    if s == [] then d
    else
      match FirstNewFrom(Lower(s), d.processed, 0)
      case Some(t) => Layout(d.shown + [Heading(t, HeadingBody(s))], d.processed + {t}, Some(t))
      case None => Layout(d.shown + [if d.current.Some? then UnderCurrent(s) else General(s)], d.processed, d.current)
  }

  /** The layout of a run of sections, from an empty start. */
  function LayOut(sections: seq<string>): Layout
  {
    if sections == [] then Layout([], {}, None)
    else Step(LayOut(sections[..|sections| - 1]), sections[|sections| - 1])
  }

  lemma LayOutSnoc(sections: seq<string>, i: nat)
    requires i < |sections|
    ensures LayOut(sections[..i + 1]) == Step(LayOut(sections[..i]), sections[i])
  {
    assert sections[..i + 1][..i] == sections[..i];
    assert sections[..i + 1][i] == sections[i];
  }

  lemma StepHeading(d: Layout, section: string, t: SectionType)
    requires Strip(section) != [] && FirstNewFrom(Lower(Strip(section)), d.processed, 0) == Some(t)
    ensures Step(d, section) == Layout(d.shown + [Heading(t, HeadingBody(Strip(section)))], d.processed + {t}, Some(t))
  {
  }

  lemma StepPlain(d: Layout, section: string)
    requires Strip(section) != [] && FirstNewFrom(Lower(Strip(section)), d.processed, 0).None?
    ensures Step(d, section) == Layout(d.shown + [if d.current.Some? then UnderCurrent(Strip(section)) else General(Strip(section))], d.processed, d.current)
  {
  }

  lemma ScanStep(lower: string, processed: set<SectionType>, k: nat)
    requires k < |SectionOrder|
    ensures FirstNewFrom(lower, processed, k)
            == if IsNew(lower, processed, SectionOrder[k]) then Some(SectionOrder[k]) else FirstNewFrom(lower, processed, k + 1)
  {
  }

  /** The section loop of the summary display, with its type scan that stops at the first new type. */
  method ShowSections(sections: seq<string>) returns (shown: seq<Shown>)
    ensures shown == LayOut(sections).shown
  {
    var processed: set<SectionType> := {};
    var current: Option<SectionType> := None;
    shown := [];
    var i := 0;
    while i < |sections|
      invariant 0 <= i <= |sections|
      invariant Layout(shown, processed, current) == LayOut(sections[..i])
    {
      LayOutSnoc(sections, i);
      ghost var before := Layout(shown, processed, current);
      var section := Strip(sections[i]);
      if section != [] {
        var lower := Lower(section);
        ghost var scan := FirstNewFrom(lower, processed, 0);
        var found := false;
        var k := 0;
        while k < |SectionOrder| && !found
          invariant 0 <= k <= |SectionOrder|
          decreases |SectionOrder| - k, if found then 0 else 1
          invariant !found ==> Layout(shown, processed, current) == before && scan == FirstNewFrom(lower, before.processed, k)
          invariant found ==> scan.Some? && Layout(shown, processed, current) == Layout(before.shown + [Heading(scan.value, HeadingBody(section))], before.processed + {scan.value}, Some(scan.value))
        {
          var t := SectionOrder[k];
          ScanStep(lower, processed, k);
          if IsNew(lower, processed, t) {
            current := Some(t);
            processed := processed + {t};
            shown := shown + [Heading(t, HeadingBody(section))];
            found := true;
          } else {
            k := k + 1;
          }
        }
        if found {
          StepHeading(before, sections[i], scan.value);
        } else {
          StepPlain(before, sections[i]);
          if current.Some? {
            shown := shown + [UnderCurrent(section)];
          } else {
            shown := shown + [General(section)];
          }
        }
      }
      i := i + 1;
    }
    assert sections[..i] == sections;
  }

  /** The types announced by the headings of `shown`, in order. */
  function Announced(shown: seq<Shown>): seq<SectionType>
  {
    if shown == [] then []
    else
      var last := shown[|shown| - 1];
      Announced(shown[..|shown| - 1]) + (if last.Heading? then [last.kind] else [])
  }

  /** The number of sections that are not blank. */
  function NonBlank(sections: seq<string>): nat
  {
    if sections == [] then 0
    else NonBlank(sections[..|sections| - 1]) + (if Strip(sections[|sections| - 1]) == [] then 0 else 1)
  }

  /**
    The layout's bookkeeping agrees with what it showed: the processed types
    are exactly the announced ones, no type is announced twice, the current
    heading is the last one announced, general content only comes before the
    first heading and paragraphs under a heading only after one.
  */
  predicate Consistent(d: Layout)
  {
    var a := Announced(d.shown);
    && (forall t :: t in d.processed <==> t in a)
    && (forall i, j :: 0 <= i < j < |a| ==> a[i] != a[j])
    && d.current == (if a == [] then None else Some(a[|a| - 1]))
    && (forall i :: 0 <= i < |d.shown| && d.shown[i].General? ==> Announced(d.shown[..i]) == [])
    && (forall i :: 0 <= i < |d.shown| && d.shown[i].UnderCurrent? ==> Announced(d.shown[..i]) != [])
  }

  lemma AnnouncedSnoc(shown: seq<Shown>, e: Shown)
    ensures Announced(shown + [e]) == Announced(shown) + (if e.Heading? then [e.kind] else [])
  {
    assert (shown + [e])[..|shown|] == shown;
  }

  /** Each step keeps the layout consistent. */
  lemma StepConsistent(d: Layout, section: string)
    requires Consistent(d)
    ensures Consistent(Step(d, section))
  {
    var s := Strip(section);
    if s != [] {
      var d2 := Step(d, section);
      var e := d2.shown[|d.shown|];
      assert d2.shown == d.shown + [e];
      AnnouncedSnoc(d.shown, e);
      var a := Announced(d.shown);
      var a2 := Announced(d2.shown);
      forall i | 0 <= i < |d2.shown| ensures d2.shown[..i] == d.shown[..i] || i == |d.shown| {
        if i < |d.shown| {
          assert d2.shown[..i] == d.shown[..i];
        }
      }
      assert d2.shown[..|d.shown|] == d.shown;
      if e.Heading? {
        assert e.kind !in d.processed;
        forall i, j | 0 <= i < j < |a2| ensures a2[i] != a2[j] {
          if j == |a| {
            assert a2[i] == a[i] && a[i] in a;
          } else {
            assert a2[i] == a[i] && a2[j] == a[j];
          }
        }
      }
    }
  }

  /**
    Whatever the sections, the layout is consistent (every type gets at most
    one heading) and shows one entry per non-blank section.
  */
  lemma {:induction false} LayOutConsistent(sections: seq<string>)
    ensures Consistent(LayOut(sections))
    ensures |LayOut(sections).shown| == NonBlank(sections)
  {
    if sections != [] {
      var init := sections[..|sections| - 1];
      LayOutConsistent(init);
      StepConsistent(LayOut(init), sections[|sections| - 1]);
    }
  }

  /** The processed types only grow from one prefix of the sections to a longer one. */
  lemma {:induction false} ProcessedGrows(sections: seq<string>, i: nat)
    requires i <= |sections|
    ensures LayOut(sections[..i]).processed <= LayOut(sections).processed
    ensures LayOut(sections[..i]).shown <= LayOut(sections).shown
  {
    if i < |sections| {
      var init := sections[..|sections| - 1];
      assert sections[..i] == init[..i];
      ProcessedGrows(init, i);
      assert sections[..|sections|] == sections;
    } else {
      assert sections[..i] == sections;
    }
  }

  /**
    A section whose first-listed mentioned type already has a heading still
    opens the heading of a later mentioned type that has none.
  */
  lemma FallsThrough(d: Layout, section: string, seen: SectionType, newer: SectionType)
    requires Strip(section) != []
    requires Mentions(Lower(Strip(section)), seen) && seen in d.processed
    requires IsNew(Lower(Strip(section)), d.processed, newer)
    requires forall q :: 0 <= q < Rank(newer) ==> !IsNew(Lower(Strip(section)), d.processed, SectionOrder[q])
    ensures Step(d, section).shown == d.shown + [Heading(newer, HeadingBody(Strip(section)))]
  {
    var r := FirstNewFrom(Lower(Strip(section)), d.processed, 0);
    assert r == Some(newer) by {
      assert IsNew(Lower(Strip(section)), d.processed, SectionOrder[Rank(newer)]);
    }
  }

  /** The heading body drops the section's first line. */
  lemma HeadingBodyDropsFirstLine(first: string, rest: string)
    requires '\n' !in first
    ensures HeadingBody(first + "\n" + rest) == Strip(rest)
  {
    var s := first + "\n" + rest;
    FindFromChar(s, '\n', 0);
    assert s[|first|] == '\n';
    forall j | 0 <= j < |first| ensures s[j] != '\n' {
      assert s[j] == first[j];
    }
    assert s[|first| + 1..] == rest;
  }

  // ---------------------------------------------------------------------------
  // Grouping the inline citations
  // ---------------------------------------------------------------------------

  /** The inline records, in order. */
  function InlineOnly(cs: seq<Citation>): seq<Citation>
  {
    if cs == [] then []
    else InlineOnly(cs[..|cs| - 1]) + (if cs[|cs| - 1].citationType == Inline then [cs[|cs| - 1]] else [])
  }

  /** The inline records are exactly the records of inline type. */
  lemma {:induction false} InlineMembers(cs: seq<Citation>)
    ensures forall c :: c in InlineOnly(cs) <==> c in cs && c.citationType == Inline
  {
    if cs != [] {
      var init := cs[..|cs| - 1];
      InlineMembers(init);
      assert cs == init + [cs[|cs| - 1]];
    }
  }

  /** The numbers of the numerical records, in order, repeats kept. */
  function NumbersOf(cs: seq<Citation>): seq<string>
  {
    if cs == [] then []
    else
      var last := cs[|cs| - 1];
      NumbersOf(cs[..|cs| - 1]) + (if last.Numerical? then [last.number] else [])
  }

  /** The texts of the numerical records carrying `number`, in order. */
  function TextsOf(cs: seq<Citation>, number: string): seq<string>
  {
    if cs == [] then []
    else
      var last := cs[|cs| - 1];
      TextsOf(cs[..|cs| - 1], number) + (if last.Numerical? && last.number == number then [last.citationText] else [])
  }

  /** The records that are not numerical, in order. */
  function AuthorRecords(cs: seq<Citation>): seq<Citation>
  {
    if cs == [] then []
    else
      var last := cs[|cs| - 1];
      AuthorRecords(cs[..|cs| - 1]) + (if last.Numerical? then [] else [last])
  }

  /** The grouping state after the records `xs`. */
  ghost predicate GroupedAs(xs: seq<Citation>, keys: seq<string>, numerical: map<string, seq<string>>, authors: seq<Citation>)
  {
    && keys == Distinct(NumbersOf(xs))
    && (forall n :: n in numerical <==> n in keys)
    && (forall n :: n in numerical ==> numerical[n] == TextsOf(xs, n))
    && authors == AuthorRecords(xs)
  }

  /**
    The grouping loop: the numbers of the inline numerical records, in the
    order the dictionary first received them; for each, the texts of the
    records carrying it; and the other inline records in order.
  */
  method GroupCitations(citations: seq<Citation>) returns (keys: seq<string>, numerical: map<string, seq<string>>, authors: seq<Citation>)
    ensures keys == Distinct(NumbersOf(InlineOnly(citations)))
    ensures forall n :: n in numerical <==> n in keys
    ensures forall n :: n in numerical ==> numerical[n] == TextsOf(InlineOnly(citations), n)
    ensures authors == AuthorRecords(InlineOnly(citations))
  {
    var inline := InlineOnly(citations);
    keys, numerical, authors := [], map[], [];
    var i := 0;
    while i < |inline|
      invariant 0 <= i <= |inline|
      invariant GroupedAs(inline[..i], keys, numerical, authors)
    {
      var c := inline[i];
      assert inline[..i + 1] == inline[..i] + [c];
      if c.Numerical? {
        var num := c.number;
        if num !in numerical {
          GroupNewNumber(inline[..i], c, keys, numerical, authors);
          keys := keys + [num];
          numerical := numerical[num := []];
        } else {
          GroupKnownNumber(inline[..i], c, keys, numerical, authors);
        }
        numerical := numerical[num := numerical[num] + [c.citationText]];
      } else {
        GroupAuthor(inline[..i], c, keys, numerical, authors);
        authors := authors + [c];
      }
      i := i + 1;
    }
    assert inline[..i] == inline;
  }

  /** A numerical record with a number not seen before: the number is appended to the keys with this text. */
  lemma GroupNewNumber(xs: seq<Citation>, c: Citation, keys: seq<string>, numerical: map<string, seq<string>>, authors: seq<Citation>)
    requires GroupedAs(xs, keys, numerical, authors) && c.Numerical? && c.number !in numerical
    ensures GroupedAs(xs + [c], keys + [c.number], numerical[c.number := []][c.number := [] + [c.citationText]], authors)
  {
    NumbersSnoc(xs, c);
    AuthorsSnoc(xs, c);
    TextsOfAbsent(xs, c.number);
    TextsStep(xs, c, numerical, numerical[c.number := []][c.number := [] + [c.citationText]]);
  }

  /** A numerical record with a known number: its text joins that number's list. */
  lemma GroupKnownNumber(xs: seq<Citation>, c: Citation, keys: seq<string>, numerical: map<string, seq<string>>, authors: seq<Citation>)
    requires GroupedAs(xs, keys, numerical, authors) && c.Numerical? && c.number in numerical
    ensures GroupedAs(xs + [c], keys, numerical[c.number := numerical[c.number] + [c.citationText]], authors)
  {
    NumbersSnoc(xs, c);
    AuthorsSnoc(xs, c);
    TextsStep(xs, c, numerical, numerical[c.number := numerical[c.number] + [c.citationText]]);
  }

  /** The texts of every number after one more numerical record, given the list it gets. */
  lemma TextsStep(xs: seq<Citation>, c: Citation, numerical: map<string, seq<string>>, m: map<string, seq<string>>)
    requires c.Numerical?
    requires forall n :: n in numerical ==> numerical[n] == TextsOf(xs, n)
    requires forall n :: n in m <==> n in numerical || n == c.number
    requires forall n :: n in m && n != c.number ==> m[n] == numerical[n]
    requires m[c.number] == TextsOf(xs, c.number) + [c.citationText]
    ensures forall n :: n in m ==> m[n] == TextsOf(xs + [c], n)
  {
    TextsSnoc(xs, c);
  }

  /** One record of another shape joins the author list. */
  lemma GroupAuthor(xs: seq<Citation>, c: Citation, keys: seq<string>, numerical: map<string, seq<string>>, authors: seq<Citation>)
    requires GroupedAs(xs, keys, numerical, authors) && !c.Numerical?
    ensures GroupedAs(xs + [c], keys, numerical, authors + [c])
  {
    NumbersSnoc(xs, c);
    AuthorsSnoc(xs, c);
    TextsSnoc(xs, c);
  }

  /** A number that no record carries has no texts. */
  lemma {:induction false} TextsOfAbsent(cs: seq<Citation>, number: string)
    requires number !in NumbersOf(cs)
    ensures TextsOf(cs, number) == []
  {
    if cs != [] {
      var init := cs[..|cs| - 1];
      assert NumbersOf(cs) == NumbersOf(init) + (if cs[|cs| - 1].Numerical? then [cs[|cs| - 1].number] else []);
      TextsOfAbsent(init, number);
    }
  }

  /** How the numbers and their first-occurrence order grow by one record. */
  lemma NumbersSnoc(cs: seq<Citation>, c: Citation)
    ensures NumbersOf(cs + [c]) == if c.Numerical? then NumbersOf(cs) + [c.number] else NumbersOf(cs)
    ensures Distinct(NumbersOf(cs + [c])) == if c.Numerical? && c.number !in NumbersOf(cs) then Distinct(NumbersOf(cs)) + [c.number] else Distinct(NumbersOf(cs))
  {
    assert (cs + [c])[..|cs|] == cs;
    assert NumbersOf(cs) + [] == NumbersOf(cs);
    if c.Numerical? {
      var xs := NumbersOf(cs) + [c.number];
      assert xs[..|xs| - 1] == NumbersOf(cs);
    }
  }

  /** How the texts of every number grow by one record. */
  lemma TextsSnoc(cs: seq<Citation>, c: Citation)
    ensures forall n :: TextsOf(cs + [c], n) == if c.Numerical? && c.number == n then TextsOf(cs, n) + [c.citationText] else TextsOf(cs, n)
  {
    assert (cs + [c])[..|cs|] == cs;
    assert forall n :: TextsOf(cs, n) + [] == TextsOf(cs, n);
  }

  /** How the author list grows by one record. */
  lemma AuthorsSnoc(cs: seq<Citation>, c: Citation)
    ensures AuthorRecords(cs + [c]) == if c.Numerical? then AuthorRecords(cs) else AuthorRecords(cs) + [c]
  {
    assert (cs + [c])[..|cs|] == cs;
    assert AuthorRecords(cs) + [] == AuthorRecords(cs);
  }

  /** `int(num)` as the listing's sort key; only numbers that parse are ever sorted. */
  function IntKey(num: string): int
  {
    ParseInt(num).GetOr(0)
  }

  /** Python's stable `sorted` by `int` over the dictionary's items: by value, ties in insertion order. */
  function ByValue(keys: seq<string>): (string, string) -> bool
  {
    (a: string, b: string) => IntKey(a) < IntKey(b) || (IntKey(a) == IntKey(b) && FirstPos(keys, a) < FirstPos(keys, b))
  }

  /** One line of the numerical listing: the number and how many distinct texts cite it. */
  datatype Listed = Listed(number: string, occurrences: nat)

  function ListingOf(order: seq<string>, numerical: map<string, seq<string>>): (r: seq<Listed>)
    requires forall n :: n in order ==> n in numerical
    ensures |r| == |order|
    ensures forall i :: 0 <= i < |r| ==> r[i].number == order[i] && r[i].occurrences == |set t | t in numerical[order[i]]|
  {
    if order == [] then []
    else [Listed(order[0], |set t | t in numerical[order[0]]|)] + ListingOf(order[1..], numerical)
  }

  /** The numerical listing: the numbers sorted by value, each with its count of distinct texts. */
  function NumericalListing(keys: seq<string>, numerical: map<string, seq<string>>): seq<Listed>
    requires forall n :: n in keys ==> n in numerical
  {
    var order := SortBy(ByValue(keys), keys);
    SortByMembers(ByValue(keys), keys);
    ListingOf(order, numerical)
  }

  /** Sorting keeps the elements (a helper for `NumericalListing`'s precondition). */
  lemma {:induction false} SortByMembers(before: (string, string) -> bool, ds: seq<string>)
    ensures forall a :: a in SortBy(before, ds) ==> a in ds
  {
    if ds != [] {
      SortByMembers(before, ds[1..]);
      InsertMembers(before, ds[0], SortBy(before, ds[1..]));
    }
  }

  lemma {:induction false} InsertMembers(before: (string, string) -> bool, t: string, s: seq<string>)
    ensures forall a :: a in Insert(before, t, s) ==> a == t || a in s
  {
    if s != [] && !before(t, s[0]) {
      InsertMembers(before, t, s[1..]);
    }
  }

  lemma ByValueStrictTotal(keys: seq<string>)
    ensures StrictTotalOn(ByValue(keys), keys)
  {
    forall a, b | a in keys && b in keys && a != b ensures ByValue(keys)(a, b) || ByValue(keys)(b, a) {
      assert keys[FirstPos(keys, a)] == a && keys[FirstPos(keys, b)] == b;
    }
  }

  /**
    When every number parses, the listing holds each distinct number once, in
    ascending order of value, numbers of equal value in the order they first
    appeared.
  */
  lemma ListingSorted(keys: seq<string>, numerical: map<string, seq<string>>)
    requires forall i, j :: 0 <= i < j < |keys| ==> keys[i] != keys[j]
    requires forall n :: n in keys ==> n in numerical && ParseInt(n).Some?
    ensures var l := NumericalListing(keys, numerical);
            && multiset(SortBy(ByValue(keys), keys)) == multiset(keys)
            && |l| == |keys|
            && (forall i :: 0 <= i < |l| ==> l[i].number == SortBy(ByValue(keys), keys)[i] && ParseInt(l[i].number) == Some(IntKey(l[i].number)))
            && (forall i, j :: 0 <= i < j < |l| ==>
                  IntKey(l[i].number) < IntKey(l[j].number)
                  || (IntKey(l[i].number) == IntKey(l[j].number) && FirstPos(keys, l[i].number) < FirstPos(keys, l[j].number)))
  {
    ByValueStrictTotal(keys);
    SortBySorted(ByValue(keys), keys, keys);
    var order := SortBy(ByValue(keys), keys);
    SortByMembers(ByValue(keys), keys);
    var l := NumericalListing(keys, numerical);
    assert |multiset(order)| == |order| && |multiset(keys)| == |keys|;
    forall i | 0 <= i < |l| ensures ParseInt(l[i].number) == Some(IntKey(l[i].number)) {
      assert l[i].number == order[i] && order[i] in keys;
    }
    forall i, j | 0 <= i < j < |l|
      ensures IntKey(l[i].number) < IntKey(l[j].number)
              || (IntKey(l[i].number) == IntKey(l[j].number) && FirstPos(keys, l[i].number) < FirstPos(keys, l[j].number))
    {
      assert l[i].number == order[i] && l[j].number == order[j];
      assert ByValue(keys)(order[i], order[j]);
    }
  }

  /** Where a text under `number` came from: a numerical inline record carrying it. */
  lemma {:induction false} TextOrigin(cs: seq<Citation>, number: string, k: nat) returns (p: nat)
    requires k < |TextsOf(InlineOnly(cs), number)|
    ensures p < |cs| && cs[p].Numerical? && cs[p].citationType == Inline && cs[p].number == number
            && cs[p].citationText == TextsOf(InlineOnly(cs), number)[k]
  {
    var init := cs[..|cs| - 1];
    var last := cs[|cs| - 1];
    var xs := InlineOnly(cs);
    var xs0 := InlineOnly(init);
    if last.citationType == Inline {
      assert xs == xs0 + [last];
      assert xs[..|xs| - 1] == xs0;
    } else {
      assert xs == xs0;
    }
    var ts0 := TextsOf(xs0, number);
    if k < |ts0| {
      p := TextOrigin(init, number, k);
      assert cs[p] == init[p];
    } else {
      p := |cs| - 1;
    }
  }

  /**
    With distinct dedup keys (as extraction guarantees), no text is listed
    twice under one number, so a number's occurrence count is the number of
    its records.
  */
  lemma {:induction false} TextsDistinct(cs: seq<Citation>, number: string)
    requires forall i, j :: 0 <= i < j < |cs| ==> Key(cs[i]) != Key(cs[j])
    ensures forall i, j :: 0 <= i < j < |TextsOf(InlineOnly(cs), number)| ==> TextsOf(InlineOnly(cs), number)[i] != TextsOf(InlineOnly(cs), number)[j]
  {
    if cs != [] {
      var init := cs[..|cs| - 1];
      var last := cs[|cs| - 1];
      TextsDistinct(init, number);
      var xs := InlineOnly(cs);
      var xs0 := InlineOnly(init);
      var ts0 := TextsOf(xs0, number);
      if last.citationType == Inline {
        assert xs == xs0 + [last];
        assert xs[..|xs| - 1] == xs0;
        if last.Numerical? && last.number == number {
          var ts := TextsOf(xs, number);
          assert ts == ts0 + [last.citationText];
          forall k | 0 <= k < |ts0| ensures ts0[k] != last.citationText {
            var p := TextOrigin(init, number, k);
            assert Key(init[p]) != Key(last) by {
              assert init[p] == cs[p];
            }
          }
        }
      } else {
        assert xs == xs0;
      }
    }
  }

  /** A sequence without repeats has as many distinct elements as entries. */
  lemma {:induction false} DistinctCount(ts: seq<string>)
    requires forall i, j :: 0 <= i < j < |ts| ==> ts[i] != ts[j]
    ensures |set t | t in ts| == |ts|
  {
    if ts != [] {
      var init := ts[..|ts| - 1];
      DistinctCount(init);
      assert (set t | t in ts) == (set t | t in init) + {ts[|ts| - 1]};
      assert ts[|ts| - 1] !in init;
    }
  }

  /** Every number of an extracted record is a non-empty run of digits, so `int` never fails on it. */
  lemma ExtractionNumbersParse(text: string, matcher: Matcher, currentYear: int)
    ensures forall c :: c in Extraction(text, matcher, currentYear) && c.Numerical? ==>
              ParseInt(c.number) == Some(DecimalValue(c.number))
  {
    if text != [] {
      ExtractorProperties.CandidatesWellFormed(text, matcher, currentYear);
      var idx := ExtractorProperties.ExtractionKeepsFirst(text, matcher, currentYear);
      var out := Extraction(text, matcher, currentYear);
      forall c | c in out && c.Numerical? ensures ParseInt(c.number) == Some(DecimalValue(c.number)) {
        var i :| 0 <= i < |out| && out[i] == c;
        ParseIntOfDigits(c.number);
      }
    }
  }

  /** Every number grouped from an extraction parses, so sorting the listing never fails. */
  lemma GroupedNumbersParse(text: string, matcher: Matcher, currentYear: int)
    ensures forall n :: n in NumbersOf(InlineOnly(Extraction(text, matcher, currentYear))) ==> ParseInt(n) == Some(DecimalValue(n))
  {
    var out := Extraction(text, matcher, currentYear);
    ExtractionNumbersParse(text, matcher, currentYear);
    InlineMembers(out);
    NumbersAreOfRecords(InlineOnly(out));
  }

  /**
    The occurrence count the listing prints for a number of an extraction
    is the number of its records: dedup already made their texts distinct.
  */
  lemma GroupedCountsExact(text: string, matcher: Matcher, currentYear: int, number: string)
    ensures var ts := TextsOf(InlineOnly(Extraction(text, matcher, currentYear)), number);
            |set t | t in ts| == |ts|
  {
    var out := Extraction(text, matcher, currentYear);
    ExtractorProperties.ExtractionDistinctKeys(text, matcher, currentYear);
    TextsDistinct(out, number);
    DistinctCount(TextsOf(InlineOnly(out), number));
  }

  /** Under the shipped patterns the author-citation block of the listing is always empty. */
  lemma NoAuthorCitations(text: string, matcher: Matcher, currentYear: int)
    requires MatcherConforms(matcher)
    ensures AuthorRecords(InlineOnly(Extraction(text, matcher, currentYear))) == []
  {
    var out := Extraction(text, matcher, currentYear);
    ExtractorProperties.EveryRecordNumerical(text, matcher, currentYear);
    InlineMembers(out);
    NoAuthorRecords(InlineOnly(out));
  }

  lemma {:induction false} NumbersAreOfRecords(cs: seq<Citation>)
    ensures forall n :: n in NumbersOf(cs) ==> exists c :: c in cs && c.Numerical? && c.number == n
  {
    if cs != [] {
      var init := cs[..|cs| - 1];
      NumbersAreOfRecords(init);
      forall n | n in NumbersOf(cs) ensures exists c :: c in cs && c.Numerical? && c.number == n {
        if n in NumbersOf(init) {
          var c :| c in init && c.Numerical? && c.number == n;
          assert c in cs;
        } else {
          assert cs[|cs| - 1] in cs;
        }
      }
    }
  }

  lemma {:induction false} NoAuthorRecords(cs: seq<Citation>)
    requires forall c :: c in cs ==> c.Numerical?
    ensures AuthorRecords(cs) == []
  {
    if cs != [] {
      var init := cs[..|cs| - 1];
      assert forall c :: c in init ==> c in cs;
      NoAuthorRecords(init);
      assert cs[|cs| - 1] in cs;
    }
  }
}
