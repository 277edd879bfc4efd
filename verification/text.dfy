/**
 The handful of Python string primitives the loader script relies on, each
 written out explicitly: ASCII character classes, `str.lower` on ASCII,
 the `re.sub(r'[^a-zA-Z0-9]', '_', ...)` substitution, `str.strip()`,
 `str.replace(old, new)` and `str.rfind`.

 Strings are `seq<char>`; a `char` is a Unicode scalar value, which matches
 a Python code point.
 */
module PyText {

  predicate IsAsciiDigit(c: char) { '0' <= c <= '9' }
  predicate IsAsciiUpper(c: char) { 'A' <= c <= 'Z' }
  predicate IsAsciiLowerLetter(c: char) { 'a' <= c <= 'z' }
  predicate IsAsciiAlnum(c: char) { IsAsciiDigit(c) || IsAsciiUpper(c) || IsAsciiLowerLetter(c) }

  /** No ASCII upper-case letter anywhere in `s`. */
  predicate HasNoAsciiUpper(s: string) {
    forall i :: 0 <= i < |s| ==> !IsAsciiUpper(s[i])
  }

  /** Python's `str.lower` restricted to ASCII letters. */
  function ToLowerChar(c: char): (r: char)
    ensures !IsAsciiUpper(r)
    ensures IsAsciiUpper(c) ==> IsAsciiLowerLetter(r) && r as int - c as int == 'a' as int - 'A' as int
    ensures !IsAsciiUpper(c) ==> r == c
  {
    if IsAsciiUpper(c) then (c as int - 'A' as int + 'a' as int) as char else c
  }

  /** ASCII lower-casing of a whole string, character by character. */
  function Lower(s: string): (r: string)
    ensures |r| == |s|
    ensures forall i :: 0 <= i < |s| ==> r[i] == ToLowerChar(s[i])
    ensures HasNoAsciiUpper(r)
  {
    if s == [] then [] else [ToLowerChar(s[0])] + Lower(s[1..])
  }

  /** Lower-casing leaves a string with no upper-case letter unchanged. */
  lemma LowerFixesLowerStrings(s: string)
    requires HasNoAsciiUpper(s)
    ensures Lower(s) == s
  {
  }

  /** `re.sub(r'[^a-zA-Z0-9]', '_', s)`: every character outside the ASCII
      letters and digits, non-ASCII letters included, becomes `_`. */
  function ReplaceNonAlnum(s: string): (r: string)
    ensures |r| == |s|
    ensures forall i :: 0 <= i < |s| ==> IsAsciiAlnum(s[i]) ==> r[i] == s[i]
    ensures forall i :: 0 <= i < |s| ==> !IsAsciiAlnum(s[i]) ==> r[i] == '_'
  {
    if s == [] then []
    else [if IsAsciiAlnum(s[0]) then s[0] else '_'] + ReplaceNonAlnum(s[1..])
  }

  // ---------------------------------------------------------------------
  // str.strip()

  /** The characters for which Python's `str.isspace()` holds. */
  predicate IsSpace(c: char) {
    || '\t' <= c <= '\r'
    || '\U{1C}' <= c <= ' '
    || c == '\U{85}' || c == '\U{A0}' || c == '\U{1680}'
    || '\U{2000}' <= c <= '\U{200A}'
    || c == '\U{2028}' || c == '\U{2029}' || c == '\U{202F}' || c == '\U{205F}' || c == '\U{3000}'
  }

  /** Neither begins nor ends with whitespace: what `str.strip()` returns. */
  predicate IsStripped(s: string) {
    s == [] || (!IsSpace(s[0]) && !IsSpace(s[|s| - 1]))
  }

  /** `r` occurs in `s` at offset `i`, and everything around it is whitespace. */
  predicate StripsTo(s: string, r: string, i: int) {
    && 0 <= i && i + |r| <= |s|
    && s[i..i + |r|] == r
    && (forall k :: 0 <= k < i ==> IsSpace(s[k]))
    && (forall k :: i + |r| <= k < |s| ==> IsSpace(s[k]))
  }

  /** The length of the leading run of whitespace. */
  function LeadingSpaces(s: string): (n: nat)
    ensures n <= |s|
    ensures forall k :: 0 <= k < n ==> IsSpace(s[k])
    ensures n < |s| ==> !IsSpace(s[n])
  {
    if s == [] || !IsSpace(s[0]) then 0 else 1 + LeadingSpaces(s[1..])
  }

  /** The length of the trailing run of whitespace. */
  function TrailingSpaces(s: string): (n: nat)
    ensures n <= |s|
    ensures forall k :: |s| - n <= k < |s| ==> IsSpace(s[k])
    ensures n < |s| ==> !IsSpace(s[|s| - n - 1])
  {
    if s == [] || !IsSpace(s[|s| - 1]) then 0 else 1 + TrailingSpaces(s[..|s| - 1])
  }

  /** Python's `str.strip()` with no argument. */
  function Strip(s: string): (r: string)
    ensures IsStripped(r)
    ensures StripsTo(s, r, LeadingSpaces(s))
    ensures |r| <= |s|
  {
    var n := LeadingSpaces(s);
    var m := TrailingSpaces(s[n..]);
    s[n..|s| - m]
  }

  /** A stripped window of `s` surrounded only by whitespace is exactly what
      `Strip` returns: `Strip` is the unique such window. */
  lemma StripCharacterized(s: string, r: string, i: int)
    requires StripsTo(s, r, i)
    requires IsStripped(r)
    ensures Strip(s) == r
  {
    var n := LeadingSpaces(s);
    var t := Strip(s);
    if r == [] {
      assert forall k :: 0 <= k < |s| ==> IsSpace(s[k]);
      assert n == |s|;
    } else {
      assert s[i] == r[0];
      assert i == n;
      assert s[i + |r| - 1] == r[|r| - 1];
      assert t != [];
      assert s[n + |t| - 1] == t[|t| - 1];
      assert |t| == |r|;
    }
  }

  /** Stripping leaves an already stripped string alone. */
  lemma StripFixesStripped(s: string)
    requires IsStripped(s)
    ensures Strip(s) == s
  {
    StripCharacterized(s, s, 0);
  }

  /** Stripping twice is stripping once. */
  lemma StripIdempotent(s: string)
    ensures Strip(Strip(s)) == Strip(s)
  {
    StripFixesStripped(Strip(s));
  }

  // ---------------------------------------------------------------------
  // str.replace(old, new)

  /** `p` occurs in `s` at offset `i`. */
  predicate OccursAt(s: string, p: string, i: int) {
    0 <= i && i + |p| <= |s| && s[i..i + |p|] == p
  }

  /** `p` occurs nowhere in `s`. */
  predicate NoOccurrence(s: string, p: string) {
    forall i :: 0 <= i <= |s| - |p| ==> !OccursAt(s, p, i)
  }

  /** Python's `s.replace(pat, rep)` for a non-empty `pat`: scanning from the
      left, every non-overlapping occurrence of `pat` is replaced by `rep`. */
  function ReplaceAll(s: string, pat: string, rep: string): (r: string)
    requires pat != []
    ensures |rep| <= |pat| ==> |r| <= |s|
    ensures |rep| == |pat| ==> |r| == |s|
    decreases |s|
  {
    if |s| < |pat| then s
    else if s[..|pat|] == pat then rep + ReplaceAll(s[|pat|..], pat, rep)
    else [s[0]] + ReplaceAll(s[1..], pat, rep)
  }

  /** A string with no occurrence of the pattern comes back unchanged. */
  lemma {:induction false} ReplaceAllNoOccurrence(s: string, pat: string, rep: string)
    requires pat != []
    requires NoOccurrence(s, pat)
    ensures ReplaceAll(s, pat, rep) == s
    decreases |s|
  {
    if |s| >= |pat| {
      assert !OccursAt(s, pat, 0);
      assert s[..|pat|] != pat;
      forall i | 0 <= i <= |s[1..]| - |pat|
        ensures !OccursAt(s[1..], pat, i)
      {
        assert !OccursAt(s, pat, i + 1);
        assert s[1..][i..i + |pat|] == s[i + 1..i + 1 + |pat|];
      }
      ReplaceAllNoOccurrence(s[1..], pat, rep);
    }
  }

  /** Replacing a pattern by itself is the identity: every non-overlapping
      occurrence the scan consumes is put back verbatim. */
  lemma {:induction false} ReplaceAllWithItself(s: string, pat: string)
    requires pat != []
    ensures ReplaceAll(s, pat, pat) == s
    decreases |s|
  {
    if |s| >= |pat| {
      if s[..|pat|] == pat {
        ReplaceAllWithItself(s[|pat|..], pat);
        assert s == s[..|pat|] + s[|pat|..];
      } else {
        ReplaceAllWithItself(s[1..], pat);
        assert s == [s[0]] + s[1..];
      }
    }
  }

  /** When the first occurrence of `pat` in `u + pat + v` is the one right
      after `u`, the scan copies `u`, replaces that occurrence and goes on
      with `v`. */
  lemma {:induction false} ReplaceAllAtFirstOccurrence(u: string, pat: string, v: string, rep: string)
    requires pat != []
    requires forall i :: 0 <= i < |u| ==> !OccursAt(u + pat, pat, i)
    ensures ReplaceAll(u + pat + v, pat, rep) == ReplaceAll(u, pat, rep) + rep + ReplaceAll(v, pat, rep)
    decreases |u|
  {
    var s := u + pat + v;
    if u == [] {
      assert s == pat + v;
      assert s[..|pat|] == pat;
      assert s[|pat|..] == v;
    } else {
      var u' := u[1..];
      assert s[..|pat|] != pat by {
        assert !OccursAt(u + pat, pat, 0);
        assert (u + pat)[..|pat|] == s[..|pat|];
      }
      assert s[1..] == u' + pat + v;
      assert ReplaceAll(s, pat, rep) == [u[0]] + ReplaceAll(u' + pat + v, pat, rep);
      NoEarlyOccurrenceInTail(u, pat);
      ReplaceAllAtFirstOccurrence(u', pat, v, rep);
      ReplaceAllFirstChar(u, pat, rep);
    }
  }

  /** Dropping the first character of `u` keeps `u + pat` free of occurrences
      of `pat` that start inside `u`. */
  lemma NoEarlyOccurrenceInTail(u: string, pat: string)
    requires u != []
    requires forall i :: 0 <= i < |u| ==> !OccursAt(u + pat, pat, i)
    ensures forall i :: 0 <= i < |u[1..]| ==> !OccursAt(u[1..] + pat, pat, i)
  {
    forall i | 0 <= i < |u[1..]|
      ensures !OccursAt(u[1..] + pat, pat, i)
    {
      assert !OccursAt(u + pat, pat, i + 1);
      assert (u[1..] + pat)[i..i + |pat|] == (u + pat)[i + 1..i + 1 + |pat|];
    }
  }

  /** When `pat` does not occur at the start of `u + pat`, replacing in `u`
      begins by copying its first character. */
  lemma ReplaceAllFirstChar(u: string, pat: string, rep: string)
    requires pat != [] && u != []
    requires !OccursAt(u + pat, pat, 0)
    ensures ReplaceAll(u, pat, rep) == [u[0]] + ReplaceAll(u[1..], pat, rep)
  {
    if |u| >= |pat| {
      assert (u + pat)[..|pat|] == u[..|pat|];
    } else {
      assert |u[1..]| < |pat|;
      assert u == [u[0]] + u[1..];
    }
  }

  /** Removing a pattern from `base + pat`, when no occurrence starts inside
      `base`, leaves exactly `base`. */
  lemma ReplaceAllRemovesSuffix(base: string, pat: string)
    requires pat != []
    requires forall i :: 0 <= i < |base| ==> !OccursAt(base + pat, pat, i)
    ensures ReplaceAll(base + pat, pat, "") == base
  {
    forall i | 0 <= i <= |base| - |pat|
      ensures !OccursAt(base, pat, i)
    {
      assert !OccursAt(base + pat, pat, i);
      assert (base + pat)[i..i + |pat|] == base[i..i + |pat|];
    }
    ReplaceAllNoOccurrence(base, pat, "");
    ReplaceAllAtFirstOccurrence(base, pat, "", "");
    assert base + pat + "" == base + pat;
  }

  /** A string shorter than the pattern is left alone. */
  lemma ReplaceAllShort(s: string, pat: string, rep: string)
    requires pat != [] && |s| < |pat|
    ensures ReplaceAll(s, pat, rep) == s
  {
  }

  /** If some character of the pattern appears nowhere in `s`, the pattern
      does not occur in `s`. */
  lemma MissingCharMeansNoOccurrence(s: string, pat: string, k: int)
    requires 0 <= k < |pat|
    requires forall i :: 0 <= i < |s| ==> s[i] != pat[k]
    ensures NoOccurrence(s, pat)
  {
    forall i | 0 <= i <= |s| - |pat|
      ensures !OccursAt(s, pat, i)
    {
      assert s[i..i + |pat|][k] == s[i + k];
    }
  }

  // ---------------------------------------------------------------------
  // str.rfind(c)

  /** Python's `s.rfind(c)`: the last index holding `c`, or -1. */
  function LastIndexOf(s: string, c: char): (i: int)
    ensures -1 <= i < |s|
    ensures 0 <= i ==> s[i] == c
    ensures forall j :: i < j < |s| ==> s[j] != c
  {
    if s == [] then -1
    else if s[|s| - 1] == c then |s| - 1
    else LastIndexOf(s[..|s| - 1], c)
  }
}
