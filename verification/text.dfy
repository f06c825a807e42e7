/**
 * String normalisation used by the answer checks: `toLowerCase()` followed by
 * `trim()`, and the comparison of a submitted answer with a stored one.
 */
module Text {
  import opened Wrappers

  /** The code points `String.prototype.trim` removes: ECMAScript WhiteSpace and LineTerminator. */
  predicate IsTrimmable(c: char) {
    || c == ' ' || c == '\t' || c == '\n' || c == '\r'
    || c == '\U{000B}' || c == '\U{000C}' || c == '\U{00A0}' || c == '\U{FEFF}'
    || c == '\U{1680}' || ('\U{2000}' <= c <= '\U{200A}')
    || c == '\U{2028}' || c == '\U{2029}' || c == '\U{202F}' || c == '\U{205F}' || c == '\U{3000}'
  }

  /** An upper-case letter of the ASCII or Latin-1 ranges. */
  predicate IsUpper(c: char) {
    ('A' <= c <= 'Z') || ('\U{00C0}' <= c <= '\U{00DE}' && c != '\U{00D7}')
  }

  /** Lower-case mapping of one character; both upper-case ranges sit 32 code points below their lower-case forms. */
  function LowerChar(c: char): (d: char)
    ensures !IsUpper(c) ==> d == c
  {
    if IsUpper(c) then (c as int + 32) as char else c
  }

  /** Lower-casing never produces an upper-case letter and never turns whitespace into text or back. */
  lemma LowerCharProperties(c: char)
    ensures !IsUpper(LowerChar(c))
    ensures IsTrimmable(LowerChar(c)) <==> IsTrimmable(c)
  {
  }

  /**
   * `toLowerCase()`: maps every character, keeping the length. A capital
   * becomes the letter 32 code points above it, every other character is
   * kept; so no upper-case letter is left, and every character stays blank
   * or non-blank as it was.
   */
  function Lower(s: string): (r: string)
    ensures |r| == |s|
    ensures forall i {:trigger r[i]} :: 0 <= i < |s| && !IsUpper(s[i]) ==> r[i] == s[i]
    ensures forall i {:trigger r[i]} :: 0 <= i < |s| && IsUpper(s[i]) ==> r[i] as int == s[i] as int + 32
    ensures forall i :: 0 <= i < |r| ==> !IsUpper(r[i])
    ensures forall i {:trigger r[i]} :: 0 <= i < |r| ==> (IsTrimmable(r[i]) <==> IsTrimmable(s[i]))
  {
    var r := seq(|s|, i requires 0 <= i < |s| => LowerChar(s[i]));
    assert forall i :: 0 <= i < |r| ==> !IsUpper(r[i]) && (IsTrimmable(r[i]) <==> IsTrimmable(s[i])) by {
      forall i | 0 <= i < |r| {
        LowerCharProperties(s[i]);
      }
    }
    r
  }

  /** The number of trimmable characters `s` starts with. */
  function Leading(s: string): (n: nat)
    ensures n <= |s|
    ensures forall k {:trigger IsTrimmable(s[k])} :: 0 <= k < n ==> IsTrimmable(s[k])
    ensures n == |s| || !IsTrimmable(s[n])
    decreases |s|
  {
    if |s| > 0 && IsTrimmable(s[0]) then 1 + Leading(s[1..]) else 0
  }

  /** The number of trimmable characters `s` ends with. */
  function Trailing(s: string): (n: nat)
    ensures n <= |s|
    ensures forall k {:trigger IsTrimmable(s[k])} :: |s| - n <= k < |s| ==> IsTrimmable(s[k])
    ensures n == |s| || !IsTrimmable(s[|s| - 1 - n])
    decreases |s|
  {
    if |s| > 0 && IsTrimmable(s[|s| - 1]) then 1 + Trailing(s[..|s| - 1]) else 0
  }

  /** Leading is the only count with its contract: a blank prefix followed by the end or a non-blank. */
  lemma LeadingUnique(s: string, n: nat)
    requires n <= |s|
    requires forall k {:trigger IsTrimmable(s[k])} :: 0 <= k < n ==> IsTrimmable(s[k])
    requires n == |s| || !IsTrimmable(s[n])
    ensures Leading(s) == n
  {
  }

  lemma TrailingUnique(s: string, n: nat)
    requires n <= |s|
    requires forall k {:trigger IsTrimmable(s[k])} :: |s| - n <= k < |s| ==> IsTrimmable(s[k])
    requires n == |s| || !IsTrimmable(s[|s| - 1 - n])
    ensures Trailing(s) == n
  {
  }

  /** `trimStart()`: the suffix left after the leading blanks. */
  function TrimStart(s: string): string
  {
    s[Leading(s)..]
  }

  /** `trimEnd()`: the prefix left before the trailing blanks. */
  function TrimEnd(s: string): string
  {
    s[..|s| - Trailing(s)]
  }

  /** `trim()`: the infix of `s` left after removing trimmable characters at both ends. */
  function Trim(s: string): (r: string)
    ensures |r| <= |s|
    ensures r == [] || (!IsTrimmable(r[0]) && !IsTrimmable(r[|r| - 1]))
  {
    var t := TrimStart(s);
    var r := TrimEnd(t);
    assert r == [] || r[0] == t[0];
    r
  }

  /** What Trim removes: only trimmable characters, and only at the two ends. */
  lemma TrimIsInfix(s: string)
    ensures var r := Trim(s); var lo := Leading(s);
      && lo + |r| <= |s| && r == s[lo..lo + |r|]
      && (forall k :: 0 <= k < lo ==> IsTrimmable(s[k]))
      && (forall k :: lo + |r| <= k < |s| ==> IsTrimmable(s[k]))
  {
    var lo := Leading(s);
    var t := s[lo..];
    var hi := |t| - Trailing(t);
    assert Trim(s) == t[..hi];
    SliceOfSuffix(s, lo, hi);
    forall k | lo + hi <= k < |s|
      ensures IsTrimmable(s[k])
    {
      assert s[k] == t[k - lo];
    }
  }

  lemma SliceOfSuffix<T>(s: seq<T>, lo: nat, hi: nat)
    requires lo <= |s| && hi <= |s| - lo
    ensures s[lo..][..hi] == s[lo..lo + hi]
  {
  }

  /** Blanks put in front of a string are all removed by TrimStart. */
  lemma TrimStartPrefix(p: string, x: string)
    requires forall k :: 0 <= k < |p| ==> IsTrimmable(p[k])
    ensures TrimStart(p + x) == TrimStart(x)
  {
    var lo := Leading(x);
    assert lo == |x| || (p + x)[|p| + lo] == x[lo];
    LeadingUnique(p + x, |p| + lo);
    assert (p + x)[|p| + lo..] == x[lo..];
  }

  /** Blanks put after a string are all removed by TrimEnd. */
  lemma TrimEndSuffix(x: string, q: string)
    requires forall k :: 0 <= k < |q| ==> IsTrimmable(q[k])
    ensures TrimEnd(x + q) == TrimEnd(x)
  {
    var n := Trailing(x);
    assert n == |x| || (x + q)[|x + q| - 1 - (|q| + n)] == x[|x| - 1 - n];
    TrailingUnique(x + q, |q| + n);
    assert (x + q)[..|x + q| - (|q| + n)] == x[..|x| - n];
  }

  /** Text after a non-blank start is carried through TrimStart untouched. */
  lemma TrimStartAppend(x: string, q: string)
    requires Leading(x) < |x|
    ensures TrimStart(x + q) == TrimStart(x) + q
  {
    LeadingAppend(x, q);
    SliceOfAppend(x, q, Leading(x));
  }

  /** Appending after a non-blank character leaves the leading blanks as they were. */
  lemma LeadingAppend(x: string, q: string)
    requires Leading(x) < |x|
    ensures Leading(x + q) == Leading(x)
  {
    var lo := Leading(x);
    forall k | 0 <= k < lo
      ensures IsTrimmable((x + q)[k])
    {
      assert (x + q)[k] == x[k];
    }
    assert (x + q)[lo] == x[lo];
    LeadingUnique(x + q, lo);
  }

  lemma SliceOfAppend<T>(x: seq<T>, q: seq<T>, lo: nat)
    requires lo <= |x|
    ensures (x + q)[lo..] == x[lo..] + q
  {
  }

  /** Surrounding trimmable characters do not change the trimmed text. */
  lemma TrimPadding(p: string, s: string, q: string)
    requires forall k :: 0 <= k < |p| ==> IsTrimmable(p[k])
    requires forall k :: 0 <= k < |q| ==> IsTrimmable(q[k])
    ensures Trim(p + s + q) == Trim(s)
  {
    assert p + s + q == p + (s + q);
    TrimStartPrefix(p, s + q);
    if Leading(s) < |s| {
      TrimStartAppend(s, q);
      TrimEndSuffix(TrimStart(s), q);
    } else {
      assert s + q == s + q + [];
      TrimStartPrefix(s + q, []);
    }
  }

  /** A string whose ends are not trimmable is its own trim. */
  lemma TrimOfTrimmed(s: string)
    requires s == [] || (!IsTrimmable(s[0]) && !IsTrimmable(s[|s| - 1]))
    ensures Trim(s) == s
  {
    if s != [] {
      LeadingUnique(s, 0);
      TrailingUnique(s, 0);
    }
  }

  /** The normal form both sides of an answer comparison are reduced to. */
  function Normalize(s: string): (r: string)
    ensures r == Lower(Trim(s))
    ensures |r| <= |s|
    ensures r == [] || (!IsTrimmable(r[0]) && !IsTrimmable(r[|r| - 1]))
    ensures forall i :: 0 <= i < |r| ==> !IsUpper(r[i])
  {
    TrimIsInfix(Lower(s));
    LowerTrimStart(s);
    LowerTrimEnd(TrimStart(s));
    Trim(Lower(s))
  }

  /**
   * An answer check: a missing submission counts as the empty string, and the
   * two answers match when their normal forms are equal.
   */
  predicate Matches(submitted: Option<string>, stored: string): (b: bool)
    ensures submitted.Some? && Lower(submitted.value) == Lower(stored) ==> b
    ensures submitted.None? ==> (b <==> Normalize(stored) == [])
  {
    Normalize(submitted.GetOr("")) == Normalize(stored)
  }

  lemma LowerIdempotent(s: string)
    ensures Lower(Lower(s)) == Lower(s)
  {
    forall i | 0 <= i < |s| {
      LowerCharProperties(s[i]);
    }
  }

  /** Lower-casing keeps every blank and every non-blank where it is. */
  lemma LowerKeepsBlanks(s: string)
    ensures Leading(Lower(s)) == Leading(s)
    ensures Trailing(Lower(s)) == Trailing(s)
  {
    var l := Lower(s);
    forall k | 0 <= k < |s|
      ensures IsTrimmable(l[k]) <==> IsTrimmable(s[k])
    {
      LowerCharProperties(s[k]);
    }
    LeadingUnique(l, Leading(s));
    TrailingUnique(l, Trailing(s));
  }

  lemma LowerSuffix(s: string, lo: nat)
    requires lo <= |s|
    ensures Lower(s)[lo..] == Lower(s[lo..])
  {
    assert forall i :: 0 <= i < |s| - lo ==> Lower(s)[lo..][i] == LowerChar(s[lo + i]);
  }

  lemma LowerPrefix(s: string, hi: nat)
    requires hi <= |s|
    ensures Lower(s)[..hi] == Lower(s[..hi])
  {
    assert forall i :: 0 <= i < hi ==> Lower(s)[..hi][i] == LowerChar(s[i]);
  }

  lemma LowerTrimStart(s: string)
    ensures TrimStart(Lower(s)) == Lower(TrimStart(s))
  {
    LowerKeepsBlanks(s);
    LowerSuffix(s, Leading(s));
  }

  lemma LowerTrimEnd(s: string)
    ensures TrimEnd(Lower(s)) == Lower(TrimEnd(s))
  {
    LowerKeepsBlanks(s);
    LowerPrefix(s, |s| - Trailing(s));
  }

  /** Lower-casing and trimming commute, so the order the source applies them in is immaterial. */
  lemma NormalizeIsLowerOfTrim(s: string)
    ensures Normalize(s) == Lower(Trim(s))
  {
    LowerTrimStart(s);
    LowerTrimEnd(TrimStart(s));
  }

  /** Normalising is idempotent: a normal form is its own normal form. */
  lemma NormalizeIdempotent(s: string)
    ensures Normalize(Normalize(s)) == Normalize(s)
  {
    var n := Normalize(s);
    NormalizeIsLowerOfTrim(n);
    TrimOfTrimmed(n);
    LowerIdempotent(Trim(s));
    NormalizeIsLowerOfTrim(s);
  }

  /** Answer matching is insensitive to letter case and to surrounding whitespace on the submitted side. */
  lemma MatchesIgnoresCaseAndPadding(p: string, s: string, q: string, stored: string)
    requires forall k :: 0 <= k < |p| ==> IsTrimmable(p[k])
    requires forall k :: 0 <= k < |q| ==> IsTrimmable(q[k])
    ensures Matches(Some(p + s + q), stored) <==> Matches(Some(s), stored)
    ensures Matches(Some(Lower(s)), stored) <==> Matches(Some(s), stored)
  {
    NormalizeIsLowerOfTrim(p + s + q);
    NormalizeIsLowerOfTrim(s);
    TrimPadding(p, s, q);
    LowerIdempotent(s);
  }

  /** Matching, read on present submissions, is an equivalence relation. */
  lemma MatchesIsEquivalence(a: string, b: string, c: string)
    ensures Matches(Some(a), a)
    ensures Matches(Some(a), b) <==> Matches(Some(b), a)
    ensures Matches(Some(a), b) && Matches(Some(b), c) ==> Matches(Some(a), c)
  {
  }

  lemma NormalizeEmpty()
    ensures Normalize("") == []
  {
    var l := Lower("");
    assert |l| == 0;
    assert |Trim(l)| == 0;
  }

  /** A missing submission is the empty string; it matches only answers made entirely of whitespace. */
  lemma MissingSubmission(stored: string)
    ensures Matches(None, stored) <==> Normalize(stored) == []
    ensures Matches(None, stored) <==> Matches(Some(""), stored)
  {
    NormalizeEmpty();
  }

  lemma PaddedParisIsPadding()
    ensures " paris " == " " + "paris" + " "
  {
  }

  lemma TrimPaddedParis()
    ensures Trim(" paris ") == "paris"
  {
    PaddedParisIsPadding();
    TrimPadding(" ", "paris", " ");
    TrimOfTrimmed("paris");
  }

  lemma NormalizePaddedParis()
    ensures Normalize(" paris ") == "paris"
  {
    TrimPaddedParis();
    NormalizeIsLowerOfTrim(" paris ");
    LowerParis();
  }

  lemma NormalizeParis()
    ensures Normalize("Paris") == "paris"
    ensures Normalize("paris") == "paris"
  {
    TrimOfTrimmed("Paris");
    TrimOfTrimmed("paris");
    NormalizeIsLowerOfTrim("Paris");
    NormalizeIsLowerOfTrim("paris");
    LowerParis();
  }

  lemma NormalizeRome()
    ensures Normalize("Rome")[0] == 'r'
  {
    TrimOfTrimmed("Rome");
    NormalizeIsLowerOfTrim("Rome");
    assert Lower("Rome")[0] == 'r';
  }

  /** The worked examples: `" paris "` and `"paris"` match `"Paris"`, `"Rome"` does not. */
  lemma MatchesExamples()
    ensures Matches(Some(" paris "), "Paris")
    ensures Matches(Some("paris"), "Paris")
    ensures !Matches(Some("Rome"), "Paris")
  {
    NormalizePaddedParis();
    NormalizeParis();
    NormalizeRome();
  }

  lemma LowerParis()
    ensures Lower("Paris") == "paris"
    ensures Lower("paris") == "paris"
  {
    assert LowerChar('P') == 'p';
  }
}
