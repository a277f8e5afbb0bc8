/**
  The search `CitationExtractor` makes for a references section: a heading
  (References, Bibliography or Works Cited, in any case), whitespace that holds
  at least one newline, and then the section body, which runs lazily up to the
  first blank line (`\n\n`) or the end of the text. Written out by hand, with
  the semantics of Python's `re.search` for that one expression under
  `DOTALL | IGNORECASE`.
*/
module ReferencesSection {
  import opened Wrappers
  import opened Strings

  /** The three headings, in the order of the alternation, written in lower case. */
  const Headings: seq<string> := ["references", "bibliography", "works cited"]

  /**
    `c` matches the heading character `h` (a lower-case ASCII letter or a
    space) under `IGNORECASE`: its own upper case, and the non-ASCII characters
    that Python's matcher folds to `i`, `s` and `k`.
  */
  predicate FoldEq(c: char, h: char)
  {
    || c == h
    || (IsLowerLetter(h) && c as int == h as int - 32)
    || (h == 'i' && (c == 'İ' || c == 'ı'))
    || (h == 's' && c == 'ſ')
    || (h == 'k' && c == 'K')
  }

  /** The heading `h` matches `text` at index `i`. */
  predicate HeadingAt(text: string, i: nat, h: string)
  {
    i + |h| <= |text| && forall j :: 0 <= j < |h| ==> FoldEq(text[i + j], h[j])
  }

  /** The end of the maximal run of whitespace that starts at `i` (the greedy `\s*`). */
  function SpaceRunEnd(text: string, i: nat): (e: nat)
    requires i <= |text|
    ensures i <= e <= |text|
    ensures forall j :: i <= j < e ==> IsSpace(text[j])
    ensures e == |text| || !IsSpace(text[e])
    decreases |text| - i
  {
    if i == |text| || !IsSpace(text[i]) then i else SpaceRunEnd(text, i + 1)
  }

  /** The last newline in `text[a..b]`. */
  function LastNewline(text: string, a: nat, b: nat): (r: Option<nat>)
    requires a <= b <= |text|
    ensures r.Some? ==> a <= r.value < b && text[r.value] == '\n'
                        && forall j :: r.value < j < b ==> text[j] != '\n'
    ensures r.None? ==> forall j :: a <= j < b ==> text[j] != '\n'
    decreases b - a
  {
    if a == b then None
    else if text[b - 1] == '\n' then Some(b - 1)
    else LastNewline(text, a, b - 1)
  }

  /** A blank line (`\n\n`) starts at `q`. */
  predicate BlankLineAt(text: string, q: nat)
  {
    q + 1 < |text| && text[q] == '\n' && text[q + 1] == '\n'
  }

  /** Where the lazy body stops: the first blank line at or after `from`, or the end. */
  function BodyEnd(text: string, from: nat): (q: nat)
    requires from <= |text|
    ensures from <= q <= |text|
    ensures q == |text| || BlankLineAt(text, q)
    ensures forall j :: from <= j < q ==> !BlankLineAt(text, j)
    decreases |text| - from
  {
    if from == |text| || BlankLineAt(text, from) then from else BodyEnd(text, from + 1)
  }

  /**
    Where the body starts when a heading ends at `e0`: just after the last
    newline of the whitespace that follows (`\s*` gives back characters
    until `\n+` can match); None when that whitespace has no newline.
  */
  function BodyStart(text: string, e0: nat): (r: Option<nat>)
    requires e0 <= |text|
    ensures r.Some? ==> e0 < r.value <= |text| && text[r.value - 1] == '\n'
  {
    var e := SpaceRunEnd(text, e0);
    var p := LastNewline(text, e0, e);
    if p.Some? then Some(p.value + 1) else None
  }

  /** The body found by the alternatives `Headings[k..]` tried at index `i`. */
  function MatchAt(text: string, i: nat, k: nat): (r: Option<string>)
    requires i <= |text| && k <= |Headings|
    ensures r.Some? ==> IsSubstring(r.value, text)
    decreases |Headings| - k
  {
    if k == |Headings| then None
    else if HeadingAt(text, i, Headings[k]) && BodyStart(text, i + |Headings[k]|).Some? then
      var b := BodyStart(text, i + |Headings[k]|).value;
      var q := BodyEnd(text, b);
      assert text[b..q] == text[b..q];
      Some(text[b..q])
    else MatchAt(text, i, k + 1)
  }

  /** `re.search` from index `i`: the leftmost index where the whole expression matches. */
  function SearchFrom(text: string, i: nat): (r: Option<string>)
    requires i <= |text|
    ensures r.Some? ==> IsSubstring(r.value, text)
    decreases |text| - i
  {
    var here := MatchAt(text, i, 0);
    if here.Some? then here
    else if i == |text| then None
    else SearchFrom(text, i + 1)
  }

  /** `references_match.group(1) if references_match else ""`. */
  function ReferencesText(text: string): (r: string)
    ensures IsSubstring(r, text)
  {
    assert text[0..0] == "";
    SearchFrom(text, 0).GetOr("")
  }

  /** No heading anywhere in the text: the references region is empty. */
  lemma {:induction false} NoHeadingNoReferences(text: string)
    requires forall i, k :: 0 <= i <= |text| && 0 <= k < |Headings| ==> !HeadingAt(text, i, Headings[k])
    ensures ReferencesText(text) == ""
  {
    NoHeadingSearch(text, 0);
  }

  lemma {:induction false} NoHeadingSearch(text: string, i: nat)
    requires i <= |text|
    requires forall i, k :: 0 <= i <= |text| && 0 <= k < |Headings| ==> !HeadingAt(text, i, Headings[k])
    ensures SearchFrom(text, i).None?
    decreases |text| - i
  {
    assert !HeadingAt(text, i, Headings[0]) && !HeadingAt(text, i, Headings[1]) && !HeadingAt(text, i, Headings[2]);
    assert MatchAt(text, i, 0).None?;
    if i < |text| {
      NoHeadingSearch(text, i + 1);
    }
  }

  lemma {:induction false} BodyEndIs(text: string, from: nat, q: nat)
    requires from <= q <= |text|
    requires forall j :: from <= j < q ==> !BlankLineAt(text, j)
    requires q == |text| || BlankLineAt(text, q)
    ensures BodyEnd(text, from) == q
    decreases q - from
  {
    if from < q {
      BodyEndIs(text, from + 1, q);
    }
  }

  /**
    A heading at the very start, followed by one newline, yields the text after
    that newline up to the first blank line, or up to the end.
  */
  lemma LeadingHeading(k: nat, body: string, rest: string)
    requires k < |Headings|
    requires |body| > 0 && !IsSpace(body[0]) && body[|body| - 1] != '\n'
    requires forall j :: 0 <= j < |body| - 1 ==> !(body[j] == '\n' && body[j + 1] == '\n')
    requires rest == [] || (|rest| >= 2 && rest[0] == '\n' && rest[1] == '\n')
    ensures ReferencesText(Headings[k] + "\n" + body + rest) == body
  {
    var h := Headings[k];
    var text := h + "\n" + body + rest;
    var e0 := |h|;
    var b := e0 + 1;
    assert text[e0] == '\n' && text[b] == body[0];
    assert SpaceRunEnd(text, b) == b;
    assert SpaceRunEnd(text, e0) == b;
    assert BodyStart(text, e0) == Some(b);
    forall j | b <= j < b + |body| ensures !BlankLineAt(text, j) {
      assert text[j] == body[j - b];
      if j + 1 < b + |body| {
        assert text[j + 1] == body[j + 1 - b];
      }
    }
    if rest != [] {
      assert text[b + |body|] == '\n' && text[b + |body| + 1] == '\n';
    }
    BodyEndIs(text, b, b + |body|);
    assert text[b..b + |body|] == body;
    assert HeadingAt(text, 0, h) by {
      forall j | 0 <= j < |h| ensures FoldEq(text[j], h[j]) {
        assert text[j] == h[j];
      }
    }
    forall k' | 0 <= k' < k ensures !HeadingAt(text, 0, Headings[k']) {
      assert text[0] == h[0];
      assert !FoldEq(h[0], Headings[k'][0]);
    }
    assert MatchAt(text, 0, k) == Some(body);
    LeadingHeadingFirst(text, k, body);
  }

  lemma {:induction false} LeadingHeadingFirst(text: string, k: nat, body: string)
    requires k < |Headings| && |text| > 0
    requires forall k' :: 0 <= k' < k ==> !HeadingAt(text, 0, Headings[k'])
    requires MatchAt(text, 0, k) == Some(body)
    ensures ReferencesText(text) == body
  {
    if k >= 1 {
      assert MatchAt(text, 0, k - 1) == MatchAt(text, 0, k);
    }
    if k >= 2 {
      assert MatchAt(text, 0, k - 2) == MatchAt(text, 0, k - 1);
    }
    assert MatchAt(text, 0, 0) == Some(body);
  }
}
