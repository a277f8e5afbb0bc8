/**
  The fragments of Python's `str` behaviour that the research assistant relies on:
  character classes, `strip`, `find`, substring tests, `replace`, `split`, `join`,
  `re.findall(r'\d+', ...)` and `int(...)`.

  Digits, letters and case mapping are ASCII; whitespace is Python's full
  `str.isspace` set, which is also what `\s` and `split()` use.
*/
module Strings {
  import opened Wrappers

  // ---------------------------------------------------------------------------
  // Character classes
  // ---------------------------------------------------------------------------

  predicate IsDigit(c: char) { '0' <= c <= '9' }

  predicate IsLowerLetter(c: char) { 'a' <= c <= 'z' }

  predicate IsUpperLetter(c: char) { 'A' <= c <= 'Z' }

  predicate IsLetter(c: char) { IsLowerLetter(c) || IsUpperLetter(c) }

  /** `str.isalnum` restricted to ASCII. */
  predicate IsAlnum(c: char) { IsLetter(c) || IsDigit(c) }

  /** Python's `str.isspace`: the characters `split()`, `strip()` and `\s` treat as whitespace. */
  predicate IsSpace(c: char)
  {
    var n := c as int;
    (9 <= n <= 13) || (28 <= n <= 32) || n == 0x85 || n == 0xA0 || n == 0x1680
    || (0x2000 <= n <= 0x200A) || n == 0x2028 || n == 0x2029 || n == 0x202F
    || n == 0x205F || n == 0x3000
  }

  predicate AllDigits(s: string) { forall i :: 0 <= i < |s| ==> IsDigit(s[i]) }

  predicate HasDigit(s: string) { exists i :: 0 <= i < |s| && IsDigit(s[i]) }

  predicate AllAlnum(s: string) { forall i :: 0 <= i < |s| ==> IsAlnum(s[i]) }

  function ToLower(c: char): char
  {
    if IsUpperLetter(c) then (c as int + 32) as char else c
  }

  /** `str.lower()` on ASCII letters; every other character is kept. */
  function Lower(s: string): (r: string)
    ensures |r| == |s|
    ensures forall i :: 0 <= i < |s| ==> r[i] == ToLower(s[i])
  {
    seq(|s|, i requires 0 <= i < |s| => ToLower(s[i]))
  }

  // ---------------------------------------------------------------------------
  // Substrings, search and slicing
  // ---------------------------------------------------------------------------

  /** `sub` occurs in `s` at index `i`. */
  predicate OccursAt(s: string, sub: string, i: int)
  {
    0 <= i && i + |sub| <= |s| && s[i..i + |sub|] == sub
  }

  /** Python's `sub in s` for strings. */
  predicate Contains(s: string, sub: string)
  {
    exists i :: 0 <= i <= |s| - |sub| && OccursAt(s, sub, i)
  }

  /** `t` is a contiguous piece of `s`. */
  predicate IsSubstring(t: string, s: string)
  {
    exists i, j :: 0 <= i <= j <= |s| && s[i..j] == t
  }

  lemma SubstringTransitive(a: string, b: string, c: string)
    requires IsSubstring(a, b) && IsSubstring(b, c)
    ensures IsSubstring(a, c)
  {
    var i, j :| 0 <= i <= j <= |b| && b[i..j] == a;
    var k, l :| 0 <= k <= l <= |c| && c[k..l] == b;
    assert |b| == l - k;
    forall t | 0 <= t < j - i ensures c[k + i..k + j][t] == a[t] {
      assert a[t] == b[i + t] == c[k + i + t];
    }
    assert c[k + i..k + j] == a;
  }

  lemma ContainsChar(s: string, c: char)
    ensures Contains(s, [c]) <==> c in s
  {
    if c in s {
      var i :| 0 <= i < |s| && s[i] == c;
      assert s[i..i + 1] == [c];
      assert OccursAt(s, [c], i);
    }
    if Contains(s, [c]) {
      var i :| 0 <= i <= |s| - 1 && OccursAt(s, [c], i);
      assert s[i] == s[i..i + 1][0];
    }
  }

  /** `s.find(sub, from)`: the first index at or after `from` where `sub` occurs. */
  function FindFrom(s: string, sub: string, from: nat): (r: Option<nat>)
    decreases |s| - from
    ensures r.Some? ==> from <= r.value && OccursAt(s, sub, r.value)
    ensures r.Some? ==> forall j :: from <= j < r.value ==> !OccursAt(s, sub, j)
    ensures r.None? ==> forall j :: from <= j ==> !OccursAt(s, sub, j)
  {
    if from + |sub| > |s| then None
    else if s[from..from + |sub|] == sub then Some(from)
    else FindFrom(s, sub, from + 1)
  }

  /** `s.find(sub)`. */
  function Find(s: string, sub: string): (r: Option<nat>)
    ensures r.Some? <==> Contains(s, sub)
    ensures r.Some? ==> OccursAt(s, sub, r.value)
                        && forall j :: 0 <= j < r.value ==> !OccursAt(s, sub, j)
  {
    FindFrom(s, sub, 0)
  }

  /** A one-character string occurs exactly where that character stands. */
  lemma OccursAtChar(s: string, c: char, j: int)
    ensures OccursAt(s, [c], j) <==> 0 <= j < |s| && s[j] == c
  {
    if 0 <= j < |s| {
      assert s[j..j + 1] == [s[j]];
    }
  }

  /** `s.find(c, from)` for one character `c`, stated on characters. */
  lemma FindFromChar(s: string, c: char, from: nat)
    ensures var r := FindFrom(s, [c], from);
            && (r.Some? ==> from <= r.value < |s| && s[r.value] == c && forall j :: from <= j < r.value ==> s[j] != c)
            && (r.None? ==> forall j :: from <= j < |s| ==> s[j] != c)
  {
    var r := FindFrom(s, [c], from);
    if r.Some? {
      OccursAtChar(s, c, r.value);
    }
    forall j | from <= j < |s| && (r.None? || j < r.value) ensures s[j] != c {
      OccursAtChar(s, c, j);
    }
  }

  /**
    A word whose first character does not recur in it cannot start inside a
    prefix that lacks the word's first `m` characters, when the rest of the
    string starts with the word: its first occurrence is where the rest starts.
  */
  lemma NoOccurrenceBefore(pre: string, rest: string, w: string, m: nat)
    requires 0 < m <= |w| && w[0] !in w[1..]
    requires !Contains(pre, w[..m]) && OccursAt(rest, w, 0)
    ensures forall j :: 0 <= j < |pre| ==> !OccursAt(pre + rest, w, j)
    ensures Find(pre + rest, w) == Some(|pre|)
  {
    var s := pre + rest;
    forall j | 0 <= j < |pre| ensures !OccursAt(s, w, j) {
      if j + |w| <= |s| {
        if j + m <= |pre| {
          assert s[j..j + m] == pre[j..j + m];
          assert !OccursAt(pre, w[..m], j);
          assert s[j..j + |w|][..m] == s[j..j + m];
        } else {
          var k := |pre| - j;
          assert s[|pre|] == rest[0] == rest[..|w|][0] == w[0];
          assert s[j..j + |w|][k] == s[|pre|];
          assert w[k] == w[1..][k - 1];
        }
      }
    }
    assert s[|pre|..|pre| + |w|] == rest[..|w|];
    assert OccursAt(s, w, |pre|);
  }

  function Min(a: int, b: int): int { if a <= b then a else b }

  function Max(a: int, b: int): int { if a <= b then b else a }

  /** Python's slice `s[i:j]` for non-negative bounds: both ends are clipped to `|s|`. */
  function Slice(s: string, i: nat, j: nat): (r: string)
    ensures IsSubstring(r, s)
  {
    var hi := Min(j, |s|);
    var lo := Min(i, hi);
    assert s[lo..hi] == s[lo..hi];
    s[lo..hi]
  }

  // ---------------------------------------------------------------------------
  // strip / rstrip
  // ---------------------------------------------------------------------------

  /** `s.lstrip()`. */
  function LStrip(s: string): (r: string)
    ensures |r| <= |s|
    ensures r == [] || !IsSpace(r[0])
    ensures forall i :: 0 <= i < |s| - |r| ==> IsSpace(s[i])
  {
    if s == [] || !IsSpace(s[0]) then s else LStrip(s[1..])
  }

  /** `s.rstrip(chars)`: drops trailing characters that belong to `chars`. */
  function RStripChars(s: string, chars: set<char>): (r: string)
    ensures |r| <= |s|
    ensures r == [] || r[|r| - 1] !in chars
    ensures forall i :: |r| <= i < |s| ==> s[i] in chars
  {
    if s == [] || s[|s| - 1] !in chars then s else RStripChars(s[..|s| - 1], chars)
  }

  /** `s.rstrip()`. */
  function RStrip(s: string): (r: string)
    ensures |r| <= |s|
    ensures r == [] || !IsSpace(r[|r| - 1])
    ensures forall i :: |r| <= i < |s| ==> IsSpace(s[i])
  {
    if s == [] || !IsSpace(s[|s| - 1]) then s else RStrip(s[..|s| - 1])
  }

  /** `lstrip` keeps a suffix. */
  lemma {:induction false} LStripSuffix(s: string)
    ensures LStrip(s) == s[|s| - |LStrip(s)|..]
  {
    if s != [] && IsSpace(s[0]) {
      LStripSuffix(s[1..]);
    }
  }

  /** `rstrip(chars)` keeps a prefix. */
  lemma {:induction false} RStripCharsPrefix(s: string, chars: set<char>)
    ensures RStripChars(s, chars) == s[..|RStripChars(s, chars)|]
  {
    if s != [] && s[|s| - 1] in chars {
      RStripCharsPrefix(s[..|s| - 1], chars);
    }
  }

  /** `rstrip` keeps a prefix. */
  lemma {:induction false} RStripPrefix(s: string)
    ensures RStrip(s) == s[..|RStrip(s)|]
  {
    if s != [] && IsSpace(s[|s| - 1]) {
      RStripPrefix(s[..|s| - 1]);
    }
  }

  /** `s.strip()`: the piece of `s` left after removing whitespace at both ends. */
  function Strip(s: string): (r: string)
  {
    RStrip(LStrip(s))
  }

  /** What `strip()` keeps, stated as positions: `s[a..b]`, with only whitespace cut away. */
  lemma StripIsSlice(s: string) returns (a: nat, b: nat)
    ensures a <= b <= |s| && Strip(s) == s[a..b]
    ensures forall i :: 0 <= i < a ==> IsSpace(s[i])
    ensures forall i :: b <= i < |s| ==> IsSpace(s[i])
    ensures a < b ==> !IsSpace(s[a]) && !IsSpace(s[b - 1])
  {
    var l := LStrip(s);
    var r := RStrip(l);
    LStripSuffix(s);
    RStripPrefix(l);
    a := |s| - |l|;
    b := a + |r|;
    assert l == s[a..];
    assert r == l[..|r|];
    assert Strip(s) == s[a..b];
    forall i | b <= i < |s| ensures IsSpace(s[i]) {
      assert s[i] == l[i - a];
    }
    if a < b {
      assert s[a] == r[0];
      assert s[b - 1] == r[|r| - 1];
    }
  }

  lemma StripIsSubstring(s: string)
    ensures IsSubstring(Strip(s), s)
  {
    var a, b := StripIsSlice(s);
  }

  // ---------------------------------------------------------------------------
  // replace / split / join
  // ---------------------------------------------------------------------------

  /** `s.replace(pat, "")`: removes the occurrences of `pat` found scanning left to right. */
  function RemoveAll(s: string, pat: string): (r: string)
    requires pat != []
    ensures |r| <= |s|
    decreases |s|
  {
    if |s| < |pat| then s
    else if s[..|pat|] == pat then RemoveAll(s[|pat|..], pat)
    else [s[0]] + RemoveAll(s[1..], pat)
  }

  lemma {:induction false} RemoveAllAbsent(s: string, pat: string)
    requires pat != [] && !Contains(s, pat)
    ensures RemoveAll(s, pat) == s
    decreases |s|
  {
    if |s| >= |pat| {
      assert !OccursAt(s, pat, 0);
      assert !Contains(s[1..], pat) by {
        forall i | OccursAt(s[1..], pat, i) ensures false {
          assert s[1..][i..i + |pat|] == s[i + 1..i + 1 + |pat|];
          assert OccursAt(s, pat, i + 1);
        }
      }
      RemoveAllAbsent(s[1..], pat);
    }
  }

  /** `s.split()`: the maximal runs of non-whitespace characters. */
  function Words(s: string): (r: seq<string>)
    decreases |s|
  {
    if s == [] then []
    else if IsSpace(s[0]) then Words(s[1..])
    else
      var n := WordLength(s);
      [s[..n]] + Words(s[n..])
  }

  /** The length of the run of non-whitespace characters at the start of `s`. */
  function WordLength(s: string): (n: nat)
    ensures n <= |s|
    ensures forall i :: 0 <= i < n ==> !IsSpace(s[i])
    ensures n == |s| || IsSpace(s[n])
    ensures s != [] && !IsSpace(s[0]) ==> n > 0
  {
    if s == [] || IsSpace(s[0]) then 0 else 1 + WordLength(s[1..])
  }

  /** `split()` yields at least one word exactly when some character is not whitespace. */
  lemma {:induction false} WordsNonEmpty(s: string)
    ensures |Words(s)| >= 1 <==> exists i :: 0 <= i < |s| && !IsSpace(s[i])
    decreases |s|
  {
    if s != [] && IsSpace(s[0]) {
      WordsNonEmpty(s[1..]);
      if exists i :: 0 <= i < |s| && !IsSpace(s[i]) {
        var i :| 0 <= i < |s| && !IsSpace(s[i]);
        assert !IsSpace(s[1..][i - 1]);
      }
    } else if s != [] {
      assert !IsSpace(s[0]);
    }
  }

  /** `sep.join(ts)`. */
  function Join(ts: seq<string>, sep: string): (r: string)
  {
    if ts == [] then []
    else if |ts| == 1 then ts[0]
    else ts[0] + sep + Join(ts[1..], sep)
  }

  // ---------------------------------------------------------------------------
  // Digit runs and integers
  // ---------------------------------------------------------------------------

  /** The end of the run of digits of `s` that starts at `i`. */
  function DigitEnd(s: string, i: nat): (e: nat)
    requires i <= |s|
    ensures i <= e <= |s|
    ensures forall j :: i <= j < e ==> IsDigit(s[j])
    ensures e == |s| || !IsDigit(s[e])
    decreases |s| - i
  {
    if i < |s| && IsDigit(s[i]) then DigitEnd(s, i + 1) else i
  }

  /** The maximal runs of digits of `s` from index `i` on, left to right. */
  function DigitRunsFrom(s: string, i: nat): (r: seq<string>)
    requires i <= |s|
    ensures forall k :: 0 <= k < |r| ==> |r[k]| > 0 && AllDigits(r[k])
    decreases |s| - i
  {
    if i == |s| then []
    else if !IsDigit(s[i]) then DigitRunsFrom(s, i + 1)
    else
      var e := DigitEnd(s, i + 1);
      [s[i..e]] + DigitRunsFrom(s, e)
  }

  /** `re.findall(r'\d+', s)`: the maximal runs of digits, left to right. */
  function DigitRuns(s: string): (r: seq<string>)
    ensures forall k :: 0 <= k < |r| ==> |r[k]| > 0 && AllDigits(r[k])
  {
    DigitRunsFrom(s, 0)
  }

  lemma {:induction false} DigitRunsFromNone(s: string, i: nat)
    requires i <= |s|
    requires forall j :: i <= j < |s| ==> !IsDigit(s[j])
    ensures DigitRunsFrom(s, i) == []
    decreases |s| - i
  {
    if i < |s| {
      DigitRunsFromNone(s, i + 1);
    }
  }

  lemma {:induction false} DigitEndAll(s: string, i: nat)
    requires i <= |s|
    requires forall j :: i <= j < |s| ==> IsDigit(s[j])
    ensures DigitEnd(s, i) == |s|
    decreases |s| - i
  {
    if i < |s| {
      DigitEndAll(s, i + 1);
    }
  }

  /** A string without digits has no digit runs; a non-empty all-digit string is one run. */
  lemma DigitRunsBase(s: string)
    ensures !HasDigit(s) ==> DigitRuns(s) == []
    ensures |s| > 0 && AllDigits(s) ==> DigitRuns(s) == [s]
  {
    if !HasDigit(s) {
      DigitRunsFromNone(s, 0);
    }
    if |s| > 0 && AllDigits(s) {
      DigitEndAll(s, 1);
      assert DigitRunsFrom(s, |s|) == [];
      assert DigitRunsFrom(s, 0) == [s[0..|s|]] + DigitRunsFrom(s, |s|);
      assert s[0..|s|] == s;
    }
  }

  function DigitValue(c: char): nat
  {
    if IsDigit(c) then c as int - '0' as int else 0
  }

  /** The number a string of decimal digits denotes (leading zeros allowed). */
  function DecimalValue(s: string): (v: nat)
  {
    if s == [] then 0 else 10 * DecimalValue(s[..|s| - 1]) + DigitValue(s[|s| - 1])
  }

  /** The decimal digits of `n`, without leading zeros. */
  function DecimalString(n: nat): (s: string)
    ensures |s| > 0 && AllDigits(s)
  {
    if n < 10 then [('0' as int + n) as char]
    else DecimalString(n / 10) + [('0' as int + n % 10) as char]
  }

  lemma {:induction false} DecimalRoundTrip(n: nat)
    ensures DecimalValue(DecimalString(n)) == n
  {
    if n >= 10 {
      var s := DecimalString(n);
      assert s[..|s| - 1] == DecimalString(n / 10);
      DecimalRoundTrip(n / 10);
    }
  }

  /** The body of a Python integer literal: digits, with single underscores between digits. */
  predicate IsIntBody(s: string)
  {
    |s| > 0 && IsDigit(s[0]) && IsDigit(s[|s| - 1])
    && forall i :: 0 <= i < |s| ==> IsDigit(s[i]) || (s[i] == '_' && 0 < i < |s| - 1 && IsDigit(s[i - 1]) && IsDigit(s[i + 1]))
  }

  /** The digits of `s`, in order, underscores dropped. */
  function DigitsOnly(s: string): (r: string)
    ensures AllDigits(r)
  {
    if s == [] then []
    else if IsDigit(s[|s| - 1]) then DigitsOnly(s[..|s| - 1]) + [s[|s| - 1]]
    else DigitsOnly(s[..|s| - 1])
  }

  /** Python's `int(s)` in base 10: surrounding whitespace, an optional sign, and a body. */
  function ParseInt(s: string): (r: Option<int>)
  {
    var t := Strip(s);
    if |t| > 0 && (t[0] == '+' || t[0] == '-') then
      if IsIntBody(t[1..]) then
        var v: int := DecimalValue(DigitsOnly(t[1..]));
        Some(if t[0] == '-' then -v else v)
      else None
    else if IsIntBody(t) then Some(DecimalValue(DigitsOnly(t)))
    else None
  }

  lemma {:induction false} DigitsOnlyOfDigits(s: string)
    requires AllDigits(s)
    ensures DigitsOnly(s) == s
  {
    if s != [] {
      DigitsOnlyOfDigits(s[..|s| - 1]);
    }
  }

  /** `int` of a non-empty string of digits is its decimal value. */
  lemma ParseIntOfDigits(s: string)
    requires |s| > 0 && AllDigits(s)
    ensures ParseInt(s) == Some(DecimalValue(s))
  {
    assert IsDigit(s[0]) && IsDigit(s[|s| - 1]);
    assert LStrip(s) == s;
    assert RStrip(s) == s;
    assert Strip(s) == s;
    assert !(s[0] == '+' || s[0] == '-');
    assert IsIntBody(s);
    DigitsOnlyOfDigits(s);
  }

  /** `int` reads back what `str` writes for every natural number. */
  lemma ParseIntOfDecimal(n: nat)
    ensures ParseInt(DecimalString(n)) == Some(n)
  {
    ParseIntOfDigits(DecimalString(n));
    DecimalRoundTrip(n);
  }
}
