/**
  The pure helpers of `ArxivSearch` and the result loop of its `search`.

  `PreprocessQuery` shortens a long query to its most frequent key terms,
  given the tokenizer (which may fail) and the stop-word set. `FormatPdfUrl`
  turns an arXiv abstract URL into the PDF URL. `FilterResults` is the loop
  over the results the client returned: too old or without a PDF URL is
  skipped, and the loop stops once the cap is reached.
*/
module ArxivSearch {
  import opened Wrappers
  import opened Strings
  import opened Ranking

  // ---------------------------------------------------------------------------
  // Sequences
  // ---------------------------------------------------------------------------

  /** `s[:n]` for a non-negative `n`. */
  function Take<T>(s: seq<T>, n: nat): (r: seq<T>)
    ensures |r| == Min(n, |s|) && r == s[..|r|]
  {
    s[..Min(n, |s|)]
  }

  /** How often `a` occurs in `xs`: `Counter(xs)[a]`. */
  function Count(xs: seq<string>, a: string): nat
  {
    multiset(xs)[a]
  }

  // ---------------------------------------------------------------------------
  // Ranking: `Counter.most_common`
  // ---------------------------------------------------------------------------

  /**
    The order `most_common` lists terms in: more frequent first, and between
    equally frequent terms the one that occurred first.
  */
  predicate Before(xs: seq<string>, a: string, b: string)
  {
    Count(xs, a) > Count(xs, b) || (Count(xs, a) == Count(xs, b) && FirstPos(xs, a) < FirstPos(xs, b))
  }

  /** `Before` as a comparison on the terms of `xs`. */
  function ByFrequency(xs: seq<string>): (string, string) -> bool
  {
    (a: string, b: string) => Before(xs, a, b)
  }

  predicate RankedBy(xs: seq<string>, r: seq<string>)
  {
    SortedBy(ByFrequency(xs), r)
  }

  /** Two different terms of `xs` are always ordered one way or the other, and the order is transitive. */
  lemma BeforeStrictTotal(xs: seq<string>)
    ensures StrictTotalOn(ByFrequency(xs), xs)
  {
    forall a, b | a in xs && b in xs && a != b ensures Before(xs, a, b) || Before(xs, b, a) {
      assert xs[FirstPos(xs, a)] == a && xs[FirstPos(xs, b)] == b;
    }
  }

  /** `[term for term, _ in Counter(xs).most_common(n)]`. */
  function MostCommon(xs: seq<string>, n: nat): seq<string>
  {
    Take(SortBy(ByFrequency(xs), Distinct(xs)), n)
  }

  /**
    The top `n` terms: at most `n` distinct terms of `xs` in `most_common`
    order, each going before every term left out, and all terms when fewer
    than `n` are listed.
  */
  lemma MostCommonTop(xs: seq<string>, n: nat)
    ensures var r := MostCommon(xs, n);
            && |r| <= n
            && (forall a :: a in r ==> a in xs)
            && (forall i, j :: 0 <= i < j < |r| ==> r[i] != r[j])
            && RankedBy(xs, r)
            && (forall a, b :: a in r && b in xs && b !in r ==> Before(xs, a, b))
            && (|r| < n ==> forall b :: b in xs ==> b in r)
  {
    var ds := Distinct(xs);
    BeforeStrictTotal(xs);
    SortBySorted(ByFrequency(xs), xs, ds);
    var all := SortBy(ByFrequency(xs), ds);
    var r := MostCommon(xs, n);
    assert r == all[..|r|];
    forall a | a in all ensures a in xs {
      assert a in multiset(ds);
    }
    forall b | b in xs ensures b in all {
      assert b in multiset(ds);
    }
    forall i, j | 0 <= i < j < |r| ensures r[i] != r[j] {
      assert ByFrequency(xs)(all[i], all[j]);
    }
    forall a, b | a in r && b in xs && b !in r ensures Before(xs, a, b) {
      var i :| 0 <= i < |r| && r[i] == a;
      var j :| 0 <= j < |all| && all[j] == b;
      forall k | 0 <= k < |r| ensures all[k] != b {
        assert all[k] == r[k];
      }
    }
  }

  // ---------------------------------------------------------------------------
  // `_preprocess_query`
  // ---------------------------------------------------------------------------

  /** A token that survives the filter: not a stop-word, alphanumeric, longer than two characters. */
  predicate KeyToken(token: string, stopWords: set<string>)
  {
    token !in stopWords && |token| > 0 && AllAlnum(token) && |token| > 2
  }

  /** The filtered tokens, in order. */
  function FilterTokens(tokens: seq<string>, stopWords: set<string>): (r: seq<string>)
    ensures forall t :: t in r <==> t in tokens && KeyToken(t, stopWords)
  {
    if tokens == [] then []
    else (if KeyToken(tokens[0], stopWords) then [tokens[0]] else []) + FilterTokens(tokens[1..], stopWords)
  }

  /** A kept token is counted as often among the filtered tokens as among all of them. */
  lemma {:induction false} FilterTokensCount(tokens: seq<string>, stopWords: set<string>, t: string)
    requires KeyToken(t, stopWords)
    ensures Count(FilterTokens(tokens, stopWords), t) == Count(tokens, t)
  {
    if tokens != [] {
      FilterTokensCount(tokens[1..], stopWords, t);
      assert tokens == [tokens[0]] + tokens[1..];
    }
  }

  const QueryLimit: nat := 200
  const TermSeparator: string := " AND "

  /**
    `_preprocess_query`. `tokenize` is `word_tokenize`, None where it raises;
    `stopWords` is the English stop-word set.
  */
  function PreprocessQuery(query: string, tokenize: string -> Option<seq<string>>, stopWords: set<string>, maxTerms: nat): (r: string)
    ensures |query| <= QueryLimit ==> r == query
    ensures |query| > QueryLimit && tokenize(Lower(query)).None? ==> r == query[..QueryLimit]
  {
    if |query| <= QueryLimit then query
    else
      match tokenize(Lower(query))
      case None => query[..QueryLimit]
      case Some(tokens) => Join(KeyTerms(tokens, stopWords, maxTerms), TermSeparator)
  }

  /** The key terms of a long query: the most common filtered tokens. */
  function KeyTerms(tokens: seq<string>, stopWords: set<string>, maxTerms: nat): seq<string>
  {
    MostCommon(FilterTokens(tokens, stopWords), maxTerms)
  }

  /**
    The terms a long query is cut down to: at most `maxTerms` distinct key
    tokens, the most frequent in the tokens first and ties in order of first
    occurrence, every term listed going before every key token left out.
  */
  lemma KeyTermsSpec(tokens: seq<string>, stopWords: set<string>, maxTerms: nat)
    ensures var r, kept := KeyTerms(tokens, stopWords, maxTerms), FilterTokens(tokens, stopWords);
            && |r| <= maxTerms
            && (forall a :: a in r ==> a in tokens && KeyToken(a, stopWords))
            && (forall i, j :: 0 <= i < j < |r| ==> r[i] != r[j])
            && (forall a :: a in r ==> Count(kept, a) == Count(tokens, a))
            && RankedBy(kept, r)
            && (forall a, b :: a in r && b in tokens && KeyToken(b, stopWords) && b !in r ==> Before(kept, a, b))
            && (|r| < maxTerms ==> forall b :: b in tokens && KeyToken(b, stopWords) ==> b in r)
  {
    var kept := FilterTokens(tokens, stopWords);
    MostCommonTop(kept, maxTerms);
    forall a | a in KeyTerms(tokens, stopWords, maxTerms) ensures Count(kept, a) == Count(tokens, a) {
      FilterTokensCount(tokens, stopWords, a);
    }
  }

  // ---------------------------------------------------------------------------
  // `_format_pdf_url`
  // ---------------------------------------------------------------------------

  /**
    `re.search(r'abs/([^/]+)$', url)` from index `i`: group 1 at the leftmost
    "abs/" followed by at least one character and no '/' up to the end.
  */
  function AbsTailFrom(url: string, i: nat): (r: Option<string>)
    decreases |url| - i
  {
    if i + 4 >= |url| then None
    else if AbsTailAt(url, i) then Some(url[i + 4..])
    else AbsTailFrom(url, i + 1)
  }

  /** The expression matches at `i`. */
  predicate AbsTailAt(url: string, i: nat)
  {
    i + 4 < |url| && url[i..i + 4] == "abs/" && '/' !in url[i + 4..]
  }

  function PaperIdOf(url: string): Option<string>
  {
    AbsTailFrom(url, 0)
  }

  /** The id found is what follows the last '/', that '/' ending "abs/" and something following it. */
  lemma {:induction false} AbsTailShape(url: string, i: nat)
    ensures AbsTailFrom(url, i).Some? ==>
              var id := AbsTailFrom(url, i).value;
              && id != [] && '/' !in id
              && |url| >= |id| + 4 && url[|url| - |id| - 4..|url| - |id|] == "abs/" && url[|url| - |id|..] == id
    decreases |url| - i
  {
    if i + 4 < |url| && !AbsTailAt(url, i) {
      AbsTailShape(url, i + 1);
    }
  }

  /** A URL that ends in "abs/" and an id without '/' yields that id. */
  lemma PaperIdOfParts(pre: string, id: string)
    requires id != [] && '/' !in id
    ensures PaperIdOf(pre + "abs/" + id) == Some(id)
  {
    var url := pre + "abs/" + id;
    var n := |pre|;
    assert url[n + 3] == '/';
    forall i | 0 <= i < n ensures !AbsTailAt(url, i) {
      assert url[i + 4..][n - 1 - i] == url[n + 3];
    }
    AbsTailEarly(url, 0, n);
    assert url[n..n + 4] == "abs/" && url[n + 4..] == id;
    assert AbsTailAt(url, n);
  }

  lemma {:induction false} AbsTailEarly(url: string, i: nat, n: nat)
    requires i <= n && n + 4 < |url|
    requires forall k :: i <= k < n ==> !AbsTailAt(url, k)
    ensures AbsTailFrom(url, i) == AbsTailFrom(url, n)
    decreases n - i
  {
    if i < n {
      AbsTailEarly(url, i + 1, n);
    }
  }

  /** `\d{4}\.\d{5}`. */
  predicate IsCoreId(c: string)
  {
    |c| == 10 && AllDigits(c[..4]) && c[4] == '.' && AllDigits(c[5..])
  }

  /** `v\d+`. */
  predicate IsVersion(v: string)
  {
    |v| >= 2 && v[0] == 'v' && AllDigits(v[1..])
  }

  /** What `\d{4}\.\d{5}(?:v\d+)?` matches in full. */
  predicate IsIdBody(b: string)
  {
    |b| >= 10 && IsCoreId(b[..10]) && (|b| == 10 || IsVersion(b[10..]))
  }

  /** `re.match(r'^\d{4}\.\d{5}(?:v\d+)?$', id)`: `$` also matches before a final newline. */
  predicate ValidPaperId(id: string)
  {
    IsIdBody(id) || (|id| > 0 && id[|id| - 1] == '\n' && IsIdBody(id[..|id| - 1]))
  }

  /** `id.split('v')[0]`: everything before the first 'v'. */
  function BeforeV(id: string): (r: string)
    ensures |r| <= |id| && 'v' !in r && r == id[..|r|]
    ensures |r| < |id| ==> id[|r|] == 'v'
  {
    if id == [] || id[0] == 'v' then [] else [id[0]] + BeforeV(id[1..])
  }

  /** The digits and dot of an id stop short of any 'v'. */
  lemma BeforeVOfBody(core: string, tail: string)
    requires IsCoreId(core) && (tail == [] || tail[0] == 'v')
    ensures BeforeV(core + tail) == core
  {
    var s := core + tail;
    var r := BeforeV(s);
    forall j | 0 <= j < 10 ensures s[j] != 'v' {
      assert s[j] == core[j];
      if j < 4 {
        assert core[j] == core[..4][j];
      } else if j > 4 {
        assert core[j] == core[5..][j - 5];
      }
    }
    assert |r| >= 10;
    if tail != [] {
      assert s[10] == 'v';
    }
    assert r == s[..10] == core;
  }

  const PdfPrefix: string := "https://arxiv.org/pdf/"
  const PdfSuffix: string := ".pdf"

  /** `_format_pdf_url`: the PDF URL of an arXiv abstract URL, or None. */
  function FormatPdfUrl(arxivUrl: string): (r: Option<string>)
    ensures r.Some? <==> PaperIdOf(arxivUrl).Some? && ValidPaperId(PaperIdOf(arxivUrl).value)
  {
    match PaperIdOf(arxivUrl)
    case None => None
    case Some(id) =>
      if !ValidPaperId(id) then None
      else
        var core := if 'v' in id then BeforeV(id) else id;
        Some(PdfPrefix + core + PdfSuffix)
  }

  /**
    An abstract URL ending in a well-formed id gives the PDF URL of the id
    without its version, so a versioned id and its unversioned form give the
    same URL.
  */
  lemma FormatPdfUrlOfId(pre: string, core: string, version: string)
    requires IsCoreId(core) && (version == [] || IsVersion(version))
    ensures FormatPdfUrl(pre + "abs/" + core + version) == Some(PdfPrefix + core + PdfSuffix)
  {
    var id := core + version;
    assert pre + "abs/" + core + version == pre + "abs/" + id;
    assert '/' !in id by {
      forall j | 0 <= j < |id| ensures id[j] != '/' {
        if j < 4 {
          assert id[j] == core[..4][j];
        } else if 4 < j < 10 {
          assert id[j] == core[5..][j - 5];
        } else if j > 10 {
          assert id[j] == version[1..][j - 11];
        }
      }
    }
    PaperIdOfParts(pre, id);
    assert id[..10] == core;
    if version != [] {
      assert id[10..] == version;
    }
    assert IsIdBody(id);
    BeforeVOfBody(core, version);
    if 'v' !in id {
      assert version == [];
      assert id == core;
    }
  }

  /**
    `$` also matches before a final newline, so an id followed by a newline
    passes the check and the newline, having no 'v' before it, stays in the
    PDF URL.
  */
  lemma FormatPdfUrlKeepsNewline(pre: string, core: string)
    requires IsCoreId(core)
    ensures FormatPdfUrl(pre + "abs/" + core + "\n") == Some(PdfPrefix + core + "\n" + PdfSuffix)
  {
    var id := core + "\n";
    assert pre + "abs/" + core + "\n" == pre + "abs/" + id;
    forall j | 0 <= j < |id| ensures id[j] != '/' && id[j] != 'v' {
      if j < 4 {
        assert id[j] == core[..4][j];
      } else if 4 < j < 10 {
        assert id[j] == core[5..][j - 5];
      }
    }
    PaperIdOfParts(pre, id);
    assert id[..|id| - 1] == core;
    assert id[..|id| - 1][..10] == core;
    assert ValidPaperId(id);
    assert 'v' !in id;
    assert PdfPrefix + id + PdfSuffix == PdfPrefix + core + "\n" + PdfSuffix;
  }

  /** An abstract URL whose tail is not a well-formed id, or that has no "abs/" tail, gives None. */
  lemma FormatPdfUrlNone(arxivUrl: string)
    requires PaperIdOf(arxivUrl).None? || !ValidPaperId(PaperIdOf(arxivUrl).value)
    ensures FormatPdfUrl(arxivUrl).None?
  {
  }

  // ---------------------------------------------------------------------------
  // The result loop of `search`
  // ---------------------------------------------------------------------------

  /** One result of the arXiv client; `published` is its time, already made timezone-aware. */
  datatype Entry = Entry(title: string, authors: seq<string>, summary: string, published: int, doi: Option<string>, entryId: string)

  /** The `paper_data` dictionary of one kept result. */
  datatype Paper = Paper(title: string, authors: seq<string>, summary: string, published: int, pdfUrl: string, doi: Option<string>, arxivUrl: string)

  /** A result the loop keeps: not older than the date filter and with a PDF URL. */
  predicate Kept(e: Entry, dateFilter: int)
  {
    e.published >= dateFilter && FormatPdfUrl(e.entryId).Some?
  }

  function PaperOf(e: Entry): Paper
    requires FormatPdfUrl(e.entryId).Some?
  {
    Paper(e.title, e.authors, e.summary, e.published, FormatPdfUrl(e.entryId).value, e.doi, e.entryId)
  }

  /** The papers of the kept results, in the client's order, before any cap. */
  function Selected(es: seq<Entry>, dateFilter: int): seq<Paper>
  {
    if es == [] then []
    else
      var last := es[|es| - 1];
      Selected(es[..|es| - 1], dateFilter) + (if Kept(last, dateFilter) then [PaperOf(last)] else [])
  }

  /** Later results never change the papers selected from earlier ones. */
  lemma {:induction false} SelectedPrefix(es: seq<Entry>, i: nat, dateFilter: int)
    requires i <= |es|
    ensures var p := Selected(es[..i], dateFilter);
            |p| <= |Selected(es, dateFilter)| && Selected(es, dateFilter)[..|p|] == p
    decreases |es| - i
  {
    if i < |es| {
      SelectedPrefix(es, i + 1, dateFilter);
      assert es[..i + 1][..i] == es[..i];
    } else {
      assert es[..i] == es;
    }
  }

  /** Exactly the kept results become papers, carrying their own data and their PDF URL. */
  lemma {:induction false} SelectedSpec(es: seq<Entry>, dateFilter: int)
    ensures forall p :: p in Selected(es, dateFilter) ==>
              p.published >= dateFilter && FormatPdfUrl(p.arxivUrl) == Some(p.pdfUrl)
    ensures forall e :: e in es && Kept(e, dateFilter) ==> PaperOf(e) in Selected(es, dateFilter)
  {
    if es != [] {
      var init := es[..|es| - 1];
      SelectedSpec(init, dateFilter);
      assert forall e :: e in es ==> e in init || e == es[|es| - 1];
    }
  }

  /**
    Where the papers come from: the `i`-th paper is the paper of the kept
    result at `idx[i]`, the positions increase (the client's order), and
    every kept result is among them.
  */
  lemma {:induction false} SelectedOrigin(es: seq<Entry>, dateFilter: int) returns (idx: seq<nat>)
    ensures var ps := Selected(es, dateFilter);
            && |idx| == |ps|
            && (forall i :: 0 <= i < |idx| ==> idx[i] < |es| && Kept(es[idx[i]], dateFilter) && ps[i] == PaperOf(es[idx[i]]))
            && (forall i, j :: 0 <= i < j < |idx| ==> idx[i] < idx[j])
            && (forall j :: 0 <= j < |es| && Kept(es[j], dateFilter) ==> j in idx)
  {
    if es == [] {
      idx := [];
    } else {
      var n := |es| - 1;
      var init := es[..n];
      var idx0 := SelectedOrigin(init, dateFilter);
      assert forall j :: 0 <= j < n ==> init[j] == es[j];
      if Kept(es[n], dateFilter) {
        idx := idx0 + [n];
      } else {
        idx := idx0;
      }
    }
  }

  /** `max_results or self.max_results`: an absent or zero argument falls back to the default. */
  function Cap(maxResults: Option<int>, defaultMax: int): int
  {
    if maxResults.None? || maxResults.value == 0 then defaultMax else maxResults.value
  }

  /**
    The loop over the client's results: a result is appended when kept, and
    the loop stops right after an append that reaches the cap. The check
    follows the append, so a cap below one still lets one paper through.
  */
  method FilterResults(es: seq<Entry>, dateFilter: int, cap: int) returns (papers: seq<Paper>)
    ensures papers == Take(Selected(es, dateFilter), Max(cap, 1))
    ensures |papers| <= Max(cap, 1)
  {
    papers := [];
    var i := 0;
    while i < |es|
      invariant 0 <= i <= |es|
      invariant papers == Selected(es[..i], dateFilter)
      invariant |papers| < Max(cap, 1)
    {
      var e := es[i];
      assert es[..i + 1][..i] == es[..i];
      i := i + 1;
      if e.published < dateFilter {
        continue;
      }
      var pdfUrl := FormatPdfUrl(e.entryId);
      if pdfUrl.None? {
        continue;
      }
      papers := papers + [Paper(e.title, e.authors, e.summary, e.published, pdfUrl.value, e.doi, e.entryId)];
      if |papers| >= cap {
        SelectedPrefix(es, i, dateFilter);
        return;
      }
    }
    assert es[..i] == es;
  }

  /**
    `search`: an empty query gives no results; a long query is preprocessed
    first; `client` stands for the arXiv client, asked for at most the cap.
  */
  method Search(query: string, maxResults: Option<int>, defaultMax: int, dateFilter: int,
                client: (string, int) -> seq<Entry>,
                tokenize: string -> Option<seq<string>>, stopWords: set<string>) returns (papers: seq<Paper>)
    ensures query == [] ==> papers == []
    ensures query != [] ==>
              var q := if |query| > QueryLimit then PreprocessQuery(query, tokenize, stopWords, 10) else query;
              var cap := Cap(maxResults, defaultMax);
              papers == Take(Selected(client(q, cap), dateFilter), Max(cap, 1))
    ensures |papers| <= Max(Cap(maxResults, defaultMax), 1)
  {
    if query == [] {
      return [];
    }
    var q := query;
    if |q| > QueryLimit {
      q := PreprocessQuery(q, tokenize, stopWords, 10);
    }
    var cap := Cap(maxResults, defaultMax);
    papers := FilterResults(client(q, cap), dateFilter, cap);
  }
}
