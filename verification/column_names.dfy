/**
 Column-name normalisation, `clean_col_names` in load_data_to_postgis.py:
 every character outside `[A-Za-z0-9]` becomes `_`, the result is
 lower-cased, and a name that then starts with a digit gets a leading `_`.
 */
module ColumnNames {
  import opened PyText

  /** The alphabet of a normalised column name: `[a-z0-9_]`. */
  predicate IsCleanChar(c: char) {
    IsAsciiLowerLetter(c) || IsAsciiDigit(c) || c == '_'
  }

  /** A normalised column name: only `[a-z0-9_]`, and no leading digit. */
  predicate IsCleanName(s: string) {
    && (forall i :: 0 <= i < |s| ==> IsCleanChar(s[i]))
    && (s != [] ==> !IsAsciiDigit(s[0]))
  }

  /** Where a single input character ends up: kept (lower-cased) when it is
      an ASCII letter or digit, `_` otherwise. */
  function CleanChar(c: char): (r: char)
    ensures IsCleanChar(r)
    ensures IsAsciiDigit(r) <==> IsAsciiDigit(c)
  {
    if IsAsciiAlnum(c) then ToLowerChar(c) else '_'
  }

  /** True when the name must be escaped with a leading `_`. */
  predicate StartsWithDigit(s: string) {
    s != [] && IsAsciiDigit(s[0])
  }

  /** One column name through `clean_col_names`. The escape `_` is added
      exactly when the substituted, lower-cased name starts with a digit,
      which is exactly when the original name does. */
  function CleanColName(col: string): (r: string)
    ensures IsCleanName(r)
    ensures |r| == if StartsWithDigit(col) then |col| + 1 else |col|
    ensures StartsWithDigit(col) ==> r[0] == '_'
    ensures forall i :: 0 <= i < |col| ==> r[|r| - |col| + i] == CleanChar(col[i])
    ensures col == [] <==> r == []
  {
    var t := Lower(ReplaceNonAlnum(col));
    if t != [] && IsAsciiDigit(t[0]) then "_" + t else t
  }

  /** Normalised names are exactly the fixed points of the normalisation. */
  lemma CleanNameIffFixed(s: string)
    ensures IsCleanName(s) <==> CleanColName(s) == s
  {
    if IsCleanName(s) {
      assert !StartsWithDigit(s);
      forall i | 0 <= i < |s|
        ensures CleanColName(s)[i] == s[i]
      {
        assert IsCleanChar(s[i]);
      }
    }
  }

  /** Normalising twice is normalising once. */
  lemma CleanColNameIdempotent(col: string)
    ensures CleanColName(CleanColName(col)) == CleanColName(col)
  {
    CleanNameIffFixed(CleanColName(col));
  }

  /** A name not starting with a digit normalises character by character. */
  lemma CleanColNameByChars(col: string, expected: string)
    requires !StartsWithDigit(col)
    requires |expected| == |col|
    requires forall i :: 0 <= i < |col| ==> expected[i] == CleanChar(col[i])
    ensures CleanColName(col) == expected
  {
  }

  /** A non-ASCII letter is replaced, not transliterated. */
  lemma NonAsciiLetterBecomesUnderscore()
    ensures CleanColName("Ōpōtiki") == "_p_tiki"
  {
    CleanColNameByChars("Ōpōtiki", "_p_tiki");
  }

  /** The header of the area column normalises with two underscores: both
      the space and the opening parenthesis are replaced. */
  lemma TotalHaHeader()
    ensures CleanColName("Total (ha)") == "total__ha_"
  {
    var s, e := "Total (ha)", "total__ha_";
    forall i | 0 <= i < |s|
      ensures e[i] == CleanChar(s[i])
    {
      if i < 5 || 7 <= i < 9 {
        assert IsAsciiAlnum(s[i]);
      } else {
        assert !IsAsciiAlnum(s[i]);
      }
    }
    CleanColNameByChars(s, e);
  }

  /** Two distinct headers can normalise to the same name; the loader does
      not detect such collisions. */
  lemma CleanColNameNotInjective()
    ensures CleanColName("Total [ha]") == CleanColName("Total (ha)")
  {
    var s, e := "Total [ha]", "total__ha_";
    forall i | 0 <= i < |s|
      ensures e[i] == CleanChar(s[i])
    {
      if i < 5 || 7 <= i < 9 {
        assert IsAsciiAlnum(s[i]);
      } else {
        assert !IsAsciiAlnum(s[i]);
      }
    }
    CleanColNameByChars(s, e);
    TotalHaHeader();
  }

  /** The district header normalises to the join column the final view uses. */
  lemma TerritorialAuthorityHeader()
    ensures CleanColName("Territorial Authority") == "territorial_authority"
  {
    var s, e := "Territorial Authority", "territorial_authority";
    forall i | 0 <= i < |s|
      ensures e[i] == CleanChar(s[i])
    {
      if i != 11 {
        assert IsAsciiAlnum(s[i]);
      } else {
        assert !IsAsciiAlnum(s[i]);
      }
    }
    CleanColNameByChars(s, e);
  }

  /** `clean_col_names` over a header list: one output per input, in the
      same order, each normalised on its own. */
  function CleanColNames(cols: seq<string>): (r: seq<string>)
    ensures |r| == |cols|
    ensures forall i :: 0 <= i < |cols| ==> r[i] == CleanColName(cols[i])
  {
    if cols == [] then [] else [CleanColName(cols[0])] + CleanColNames(cols[1..])
  }

  /** Normalising a header list twice is normalising it once. */
  lemma CleanColNamesIdempotent(cols: seq<string>)
    ensures CleanColNames(CleanColNames(cols)) == CleanColNames(cols)
  {
    forall i | 0 <= i < |cols|
      ensures CleanColNames(CleanColNames(cols))[i] == CleanColNames(cols)[i]
    {
      CleanColNameIdempotent(cols[i]);
    }
  }
}
