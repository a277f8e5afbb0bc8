/**
  The two filters of `CitationExtractor` for author-year candidates: a year
  check and an author-name check. The current year, which the source reads
  from the clock, is a parameter.
*/
module CitationValidators {
  import opened Wrappers
  import opened Strings

  /**
    `re.sub(r'[a-z]$', '', year)`: removes one lowercase letter standing at
    the end, or standing just before a final newline (where `$` also matches).
  */
  function DropYearSuffix(year: string): (r: string)
  {
    var n := |year|;
    if n >= 1 && IsLowerLetter(year[n - 1]) then year[..n - 1]
    else if n >= 2 && year[n - 1] == '\n' && IsLowerLetter(year[n - 2]) then year[..n - 2] + "\n"
    else year
  }

  /** `_validate_year`: the year, its letter suffix dropped, parses and lies in [1800, currentYear + 1]. */
  predicate ValidYear(year: string, currentYear: int)
  {
    var v := ParseInt(DropYearSuffix(year));
    v.Some? && 1800 <= v.value <= currentYear + 1
  }

  /** The characters `[A-Za-z\s\-\.\']` allows in a name. */
  predicate IsNameChar(c: char)
  {
    IsLetter(c) || IsSpace(c) || c == '-' || c == '.' || c == '\''
  }

  /**
    `re.match(r'^[A-Za-z\s\-\.\']+$', author)`: one or more name characters
    up to the end, or up to a final newline (where `$` also matches).
  */
  predicate MatchesNamePattern(s: string)
  {
    (|s| > 0 && forall i :: 0 <= i < |s| ==> IsNameChar(s[i]))
    || (|s| >= 2 && s[|s| - 1] == '\n' && forall i :: 0 <= i < |s| - 1 ==> IsNameChar(s[i]))
  }

  /** `_validate_author`. */
  predicate ValidAuthor(author: string)
  {
    |Words(author)| >= 1 && MatchesNamePattern(author) && |author| >= 2
  }

  /**
    A name is accepted exactly when it has a character that is not whitespace,
    every character is a letter, whitespace, `-`, `.` or `'`, and it is at
    least two characters long.
  */
  lemma ValidAuthorIff(author: string)
    ensures ValidAuthor(author) <==>
              (exists i :: 0 <= i < |author| && !IsSpace(author[i]))
              && (forall i :: 0 <= i < |author| ==> IsNameChar(author[i]))
              && |author| >= 2
  {
    WordsNonEmpty(author);
    if MatchesNamePattern(author) && |author| >= 1 && author[|author| - 1] == '\n' {
      assert IsSpace(author[|author| - 1]);
    }
  }

  /** One letter after a year of digits is dropped; the year is then judged by its value. */
  lemma {:induction false} ValidYearOfDigits(n: nat, suffix: string, currentYear: int)
    requires suffix == [] || (|suffix| == 1 && IsLowerLetter(suffix[0]))
    ensures ValidYear(DecimalString(n) + suffix, currentYear) <==> 1800 <= n <= currentYear + 1
  {
    var d := DecimalString(n);
    if suffix == [] {
      assert d + suffix == d;
      assert !IsLowerLetter(d[|d| - 1]) && d[|d| - 1] != '\n';
    } else {
      assert (d + suffix)[..|d + suffix| - 1] == d;
    }
    assert DropYearSuffix(d + suffix) == d;
    ParseIntOfDecimal(n);
  }

  /** Only one letter is dropped: a year of digits followed by two letters never passes. */
  lemma TwoLetterSuffixRejected(n: nat, a: char, b: char, currentYear: int)
    requires IsLowerLetter(a) && IsLowerLetter(b)
    ensures !ValidYear(DecimalString(n) + [a, b], currentYear)
  {
    var d := DecimalString(n);
    var y := d + [a, b];
    assert DropYearSuffix(y) == d + [a];
    var t := d + [a];
    assert !IsSpace(t[0]) && !IsSpace(t[|t| - 1]);
    assert LStrip(t) == t && RStrip(t) == t;
    assert Strip(t) == t;
    assert !IsIntBody(t) && !IsIntBody(t[1..]);
  }
}
