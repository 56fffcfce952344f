/** Character and string vocabulary shared by the dashboard scripts: Python's
    notion of whitespace (used by `str.strip()` and by the regular-expression
    class `\s`), ASCII lower-casing, substring search, and Python's ordering
    of strings by code point. */
module Text {

  /** The characters for which Python's `str.isspace()` holds. */
  predicate IsSpace(c: char) {
    || ('\t' <= c <= '\r')
    || ('\U{1C}' <= c <= ' ')
    || c == '\U{85}' || c == '\U{A0}' || c == '\U{1680}'
    || ('\U{2000}' <= c <= '\U{200A}')
    || c == '\U{2028}' || c == '\U{2029}' || c == '\U{202F}' || c == '\U{205F}'
    || c == '\U{3000}'
  }

  predicate IsUpper(c: char) {
    'A' <= c <= 'Z'
  }

  function LowerChar(c: char): (d: char)
    ensures !IsUpper(d)
    ensures IsSpace(d) <==> IsSpace(c)
    ensures c != d ==> IsUpper(c)
  {
    if IsUpper(c) then (c as int + 32) as char else c
  }

  /** `str.lower()`, restricted to the ASCII letters. */
  function Lower(s: string): (r: string)
    ensures |r| == |s|
    ensures forall i :: 0 <= i < |s| ==> r[i] == LowerChar(s[i])
  {
    if s == [] then [] else [LowerChar(s[0])] + Lower(s[1..])
  }

  lemma LowerIdempotent(s: string)
    ensures Lower(Lower(s)) == Lower(s)
  {
    var l := Lower(s);
    assert forall i :: 0 <= i < |l| ==> Lower(l)[i] == l[i];
  }

  /** Number of whitespace characters at the front of `s`. */
  function LeadingSpaces(s: string): (k: nat)
    ensures k <= |s|
    ensures forall i :: 0 <= i < k ==> IsSpace(s[i])
    ensures k < |s| ==> !IsSpace(s[k])
  {
    if s == [] || !IsSpace(s[0]) then 0 else 1 + LeadingSpaces(s[1..])
  }

  /** Length of `s` once its trailing whitespace is removed. */
  function KeptLength(s: string): (k: nat)
    ensures k <= |s|
    ensures forall i :: k <= i < |s| ==> IsSpace(s[i])
    ensures 0 < k ==> !IsSpace(s[k - 1])
  {
    if s == [] || !IsSpace(s[|s| - 1]) then |s| else KeptLength(s[..|s| - 1])
  }

  /** `str.lstrip()` */
  function TrimLeft(s: string): string {
    s[LeadingSpaces(s)..]
  }

  /** `str.rstrip()` */
  function TrimRight(s: string): string {
    s[..KeptLength(s)]
  }

  /** `str.strip()`: a slice of `s` that neither starts nor ends with whitespace,
      and only whitespace was cut away. */
  function Strip(s: string): (r: string)
    ensures r == [] || (!IsSpace(r[0]) && !IsSpace(r[|r| - 1]))
    ensures var a := LeadingSpaces(s);
      && a + |r| <= |s| && r == s[a..a + |r|]
      && (forall i :: a + |r| <= i < |s| ==> IsSpace(s[i]))
  {
    var a := LeadingSpaces(s);
    var r := TrimRight(s[a..]);
    assert r == s[a..a + |r|];
    r
  }

  /** A string with no whitespace at either end is its own `strip()`. */
  lemma StripTight(s: string)
    requires s == [] || (!IsSpace(s[0]) && !IsSpace(s[|s| - 1]))
    ensures Strip(s) == s
  {
  }

  /** `not s.strip()` holds exactly when `s` is empty or all whitespace. */
  lemma StripEmptyIffBlank(s: string)
    ensures Strip(s) == [] <==> forall i :: 0 <= i < |s| ==> IsSpace(s[i])
  {
  }

  /** `needle in haystack` for Python strings. */
  predicate Contains(haystack: string, needle: string) {
    exists i :: 0 <= i <= |haystack| && needle <= haystack[i..]
  }

  /** Literal, case-insensitive substring test. */
  predicate ContainsIgnoringCase(haystack: string, needle: string) {
    Contains(Lower(haystack), Lower(needle))
  }

  /** `needle` occurs at position `i` of `haystack` up to case. */
  predicate MatchesAt(haystack: string, needle: string, i: nat) {
    && i + |needle| <= |haystack|
    && forall j :: 0 <= j < |needle| ==> LowerChar(haystack[i + j]) == LowerChar(needle[j])
  }

  /** The case-insensitive test holds exactly when the needle occurs
      somewhere in the haystack, character by character up to case; the
      empty needle is found in every string. */
  lemma ContainsIgnoringCaseAt(haystack: string, needle: string)
    ensures ContainsIgnoringCase(haystack, needle) <==> exists i: nat :: MatchesAt(haystack, needle, i)
    ensures needle == [] ==> ContainsIgnoringCase(haystack, needle)
  {
    var h, n := Lower(haystack), Lower(needle);
    if ContainsIgnoringCase(haystack, needle) {
      var i :| 0 <= i <= |h| && n <= h[i..];
      forall j | 0 <= j < |needle| ensures LowerChar(haystack[i + j]) == LowerChar(needle[j]) {
        assert h[i..][j] == n[j];
      }
      assert MatchesAt(haystack, needle, i);
    }
    if exists i: nat :: MatchesAt(haystack, needle, i) {
      var i: nat :| MatchesAt(haystack, needle, i);
      assert n <= h[i..] by {
        forall j | 0 <= j < |n| ensures h[i..][j] == n[j] {
          assert h[i + j] == LowerChar(haystack[i + j]);
        }
      }
    }
    if needle == [] {
      assert n <= h[0..];
    }
  }

  /** Python's `a < b` on strings: lexicographic by code point, a proper
      prefix sorting first. */
  predicate StrLt(a: string, b: string)
    decreases |a|
  {
    if a == [] then b != []
    else if b == [] then false
    else a[0] < b[0] || (a[0] == b[0] && StrLt(a[1..], b[1..]))
  }

  lemma {:induction false} StrLtIrreflexive(a: string)
    ensures !StrLt(a, a)
  {
    if a != [] {
      StrLtIrreflexive(a[1..]);
    }
  }

  lemma {:induction false} StrLtTransitive(a: string, b: string, c: string)
    requires StrLt(a, b) && StrLt(b, c)
    ensures StrLt(a, c)
    decreases |a|
  {
    if a != [] && a[0] == b[0] && b[0] == c[0] {
      StrLtTransitive(a[1..], b[1..], c[1..]);
    }
  }

  lemma {:induction false} StrLtTrichotomy(a: string, b: string)
    ensures a == b || StrLt(a, b) || StrLt(b, a)
    decreases |a|
  {
    if a != [] && b != [] && a[0] == b[0] {
      StrLtTrichotomy(a[1..], b[1..]);
      if a[1..] == b[1..] {
        assert a == [a[0]] + a[1..] && b == [b[0]] + b[1..];
      }
    }
  }

  lemma {:induction false} StrLtAsymmetric(a: string, b: string)
    requires StrLt(a, b)
    ensures !StrLt(b, a)
  {
    if StrLt(b, a) {
      StrLtTransitive(a, b, a);
      StrLtIrreflexive(a);
    }
  }

  /** Which characters a script's column-name cleaning turns into `_`:
      `str.replace(' ', '_')`, or `str.replace(r"[ \(\)]", "_", regex=True)`. */
  datatype NameStyle = SpacesOnly | SpacesAndParentheses

  predicate Replaced(style: NameStyle, c: char) {
    c == ' ' || (style == SpacesAndParentheses && (c == '(' || c == ')'))
  }

  function ReplaceChars(style: NameStyle, s: string): (r: string)
    ensures |r| == |s|
    ensures forall i :: 0 <= i < |s| ==> r[i] == if Replaced(style, s[i]) then '_' else s[i]
  {
    if s == [] then [] else [if Replaced(style, s[0]) then '_' else s[0]] + ReplaceChars(style, s[1..])
  }

  /** `df.columns.str.strip().str.lower()` followed by the style's replacement.
      The name keeps the length of its stripped form, holds no upper-case
      letter and no replaced character, and has no whitespace at either end. */
  function NormalizeColumnName(style: NameStyle, name: string): (r: string)
    ensures |r| == |Strip(name)|
    ensures forall i :: 0 <= i < |r| ==> !IsUpper(r[i]) && !Replaced(style, r[i])
    ensures forall i :: 0 <= i < |r| ==>
              r[i] == if Replaced(style, Strip(name)[i]) then '_' else LowerChar(Strip(name)[i])
    ensures r == [] || (!IsSpace(r[0]) && !IsSpace(r[|r| - 1]))
  {
    var stripped := Strip(name);
    CleanedChars(style, stripped);
    CleanedEndsTight(style, stripped);
    ReplaceChars(style, Lower(stripped))
  }

  /** Lower-casing then replacing: each character to be replaced becomes `_`,
      every other one its lower case, and none is upper case or still to be
      replaced. */
  lemma CleanedChars(style: NameStyle, s: string)
    ensures var r := ReplaceChars(style, Lower(s));
      && |r| == |s|
      && (forall i :: 0 <= i < |r| ==> !IsUpper(r[i]) && !Replaced(style, r[i]))
      && (forall i :: 0 <= i < |r| ==> r[i] == if Replaced(style, s[i]) then '_' else LowerChar(s[i]))
  {
    var l := Lower(s);
    var r := ReplaceChars(style, l);
    forall i | 0 <= i < |r|
      ensures !IsUpper(r[i]) && !Replaced(style, r[i])
      ensures r[i] == if Replaced(style, s[i]) then '_' else LowerChar(s[i])
    {
      assert l[i] == LowerChar(s[i]);
    }
  }

  /** Lower-casing and replacing keep a string free of whitespace at its
      ends. */
  lemma CleanedEndsTight(style: NameStyle, s: string)
    requires s == [] || (!IsSpace(s[0]) && !IsSpace(s[|s| - 1]))
    ensures var r := ReplaceChars(style, Lower(s));
      r == [] || (!IsSpace(r[0]) && !IsSpace(r[|r| - 1]))
  {
    var l := Lower(s);
    if s != [] {
      assert l[0] == LowerChar(s[0]) && l[|l| - 1] == LowerChar(s[|s| - 1]);
    }
  }

  /** Cleaning an already cleaned column name changes nothing. */
  lemma NormalizeColumnNameIdempotent(style: NameStyle, name: string)
    ensures NormalizeColumnName(style, NormalizeColumnName(style, name))
         == NormalizeColumnName(style, name)
  {
    var r := NormalizeColumnName(style, name);
    StripTight(r);
    var r2 := NormalizeColumnName(style, r);
    assert |r2| == |r|;
    forall i | 0 <= i < |r| ensures r2[i] == r[i] {
      assert Lower(r)[i] == LowerChar(r[i]) == r[i];
    }
  }
}
