/**
 Target-table names for the CSV files: the file's stem (its name without
 the last extension) with three fixed patterns removed, longest first, and
 then lower-cased.
 */
module TableNames {
  import opened PyText

  const AreaPattern := "_area_by_age_and_district_filled"
  const ByAgePattern := "_by_age_and_district_filled"
  const FilledPattern := "_filled"

  /** `pathlib.PurePath.stem` of a bare file name: everything before the last
      `.`, unless that dot is the first or the last character. */
  function Stem(name: string): (r: string)
    ensures r <= name
    ensures r == name || (0 < |r| < |name| - 1 && name[|r|] == '.')
    ensures r != name ==> forall j :: |r| < j < |name| ==> name[j] != '.'
    ensures r == name <==>
              (name != [] && name[|name| - 1] == '.') || forall j :: 0 < j < |name| ==> name[j] != '.'
  {
    var i := LastIndexOf(name, '.');
    if 0 < i < |name| - 1 then name[..i] else name
  }

  /** The stem of `base.csv` is `base`, as long as `base` is not empty. */
  lemma StemOfCsv(base: string)
    requires base != []
    ensures Stem(base + ".csv") == base
  {
    var name := base + ".csv";
    assert name[|base|] == '.';
    assert forall j :: |base| < j < |name| ==> name[j] != '.';
    assert LastIndexOf(name, '.') == |base|;
    assert name[..|base|] == base;
  }

  /** Line 86: the three removals in their fixed order, then lower-casing. */
  function TableName(stem: string): (r: string)
    ensures HasNoAsciiUpper(r)
    ensures |r| <= |stem|
  {
    var a := ReplaceAll(stem, AreaPattern, "");
    var b := ReplaceAll(a, ByAgePattern, "");
    var c := ReplaceAll(b, FilledPattern, "");
    Lower(c)
  }

  /** The table a CSV file is loaded into. */
  function TableNameOfFile(name: string): (r: string)
    ensures HasNoAsciiUpper(r)
    ensures |r| <= |name|
  {
    TableName(Stem(name))
  }

  /** No occurrence of `_filled` starts inside `base` in `base + "_filled"`:
      only its first character is `_`, so it cannot overlap itself. */
  lemma FilledNotReformed(base: string)
    requires NoOccurrence(base, FilledPattern)
    ensures forall i :: 0 <= i < |base| ==> !OccursAt(base + FilledPattern, FilledPattern, i)
  {
    var s := base + FilledPattern;
    forall i | 0 <= i < |base|
      ensures !OccursAt(s, FilledPattern, i)
    {
      if i + |FilledPattern| <= |base| {
        assert !OccursAt(base, FilledPattern, i);
        assert s[i..i + |FilledPattern|] == base[i..i + |FilledPattern|];
      } else {
        var d := |base| - i;
        assert 0 < d < |FilledPattern|;
        assert s[i..i + |FilledPattern|][d] == s[|base|] == '_';
        assert FilledPattern[d] != '_';
      }
    }
  }

  /** A stem `base + "_filled"` in which neither longer pattern occurs and
      `base` holds no `_filled` of its own loads into `lower(base)`. The
      patterns are matched before lower-casing, so they are case-sensitive. */
  lemma FilledStem(base: string)
    requires NoOccurrence(base + FilledPattern, AreaPattern)
    requires NoOccurrence(base + FilledPattern, ByAgePattern)
    requires NoOccurrence(base, FilledPattern)
    ensures TableName(base + FilledPattern) == Lower(base)
  {
    var s := base + FilledPattern;
    ReplaceAllNoOccurrence(s, AreaPattern, "");
    ReplaceAllNoOccurrence(s, ByAgePattern, "");
    FilledNotReformed(base);
    ReplaceAllAtFirstOccurrence(base, FilledPattern, "", "");
    ReplaceAllNoOccurrence(base, FilledPattern, "");
    assert s + "" == s;
  }

  /** A stem `base + "_area_by_age_and_district_filled"` loads into
      `lower(base)` when no occurrence of that pattern starts inside `base`
      and `base` holds neither shorter pattern. */
  lemma AreaStem(base: string)
    requires forall i :: 0 <= i < |base| ==> !OccursAt(base + AreaPattern, AreaPattern, i)
    requires NoOccurrence(base, ByAgePattern)
    requires NoOccurrence(base, FilledPattern)
    ensures TableName(base + AreaPattern) == Lower(base)
  {
    ReplaceAllRemovesSuffix(base, AreaPattern);
    LaterRemovalsKeep(base);
  }

  /** A string holding neither shorter pattern survives the last two removals. */
  lemma LaterRemovalsKeep(s: string)
    requires NoOccurrence(s, ByAgePattern)
    requires NoOccurrence(s, FilledPattern)
    ensures ReplaceAll(ReplaceAll(s, ByAgePattern, ""), FilledPattern, "") == s
  {
    ReplaceAllNoOccurrence(s, ByAgePattern, "");
    ReplaceAllNoOccurrence(s, FilledPattern, "");
  }

  /** A stem `base + "_by_age_and_district_filled"` loads into `lower(base)`
      when the longest pattern does not occur in it, no occurrence of the
      suffix starts inside `base`, and `base` holds no `_filled`. */
  lemma ByAgeStem(base: string)
    requires NoOccurrence(base + ByAgePattern, AreaPattern)
    requires forall i :: 0 <= i < |base| ==> !OccursAt(base + ByAgePattern, ByAgePattern, i)
    requires NoOccurrence(base, FilledPattern)
    ensures TableName(base + ByAgePattern) == Lower(base)
  {
    ReplaceAllNoOccurrence(base + ByAgePattern, AreaPattern, "");
    ReplaceAllRemovesSuffix(base, ByAgePattern);
    ReplaceAllNoOccurrence(base, FilledPattern, "");
  }

  /** The longest pattern goes first, so the area file loads into `pine`. */
  lemma PineAreaFile()
    ensures TableNameOfFile("pine" + AreaPattern + ".csv") == "pine"
  {
    var stem := "pine" + AreaPattern;
    StemOfCsv(stem);
    forall i | 0 <= i < 4
      ensures !OccursAt(stem, AreaPattern, i)
    {
      assert stem[i] != AreaPattern[0];
    }
    ReplaceAllAtFirstOccurrence("pine", AreaPattern, "", "");
    assert "pine" + AreaPattern + "" == stem;
    ReplaceAllShort("pine", AreaPattern, "");
    ReplaceAllShort("pine", ByAgePattern, "");
    ReplaceAllShort("pine", FilledPattern, "");
    assert ReplaceAll(stem, AreaPattern, "") == "pine";
    LowerFixesLowerStrings("pine");
  }

  /** Removing `_filled` first would have left `pine_area_by_age_and_district`. */
  lemma PineAreaFileOtherOrder()
    ensures ReplaceAll("pine_area_by_age_and_district" + FilledPattern, FilledPattern, "")
         == "pine_area_by_age_and_district"
  {
    var base := "pine_area_by_age_and_district";
    forall i | 0 <= i < |base|
      ensures base[i] != 'f'
    {
    }
    assert FilledPattern[1] == 'f';
    MissingCharMeansNoOccurrence(base, FilledPattern, 1);
    FilledNotReformed(base);
    ReplaceAllAtFirstOccurrence(base, FilledPattern, "", "");
    ReplaceAllNoOccurrence(base, FilledPattern, "");
    assert base + FilledPattern + "" == base + FilledPattern;
  }

  /** The stem of the relationships file. */
  const RelationshipsStem := "territorial_authority_relationships"

  /** No letter of the relationships stem is `f` or upper-case. */
  lemma RelationshipsStemLetters()
    ensures forall i :: 0 <= i < |RelationshipsStem| ==> RelationshipsStem[i] != 'f'
    ensures HasNoAsciiUpper(RelationshipsStem)
  {
    forall i | 0 <= i < |RelationshipsStem|
      ensures RelationshipsStem[i] != 'f' && !IsAsciiUpper(RelationshipsStem[i])
    {
    }
  }

  /** The relationships file has none of the patterns in its name (none of
      its letters is `f`), so its table keeps the file's stem. */
  lemma RelationshipsFile()
    ensures TableNameOfFile(RelationshipsStem + ".csv") == RelationshipsStem
  {
    var stem := RelationshipsStem;
    StemOfCsv(stem);
    RelationshipsStemLetters();
    assert AreaPattern[|AreaPattern| - 6] == 'f';
    assert ByAgePattern[|ByAgePattern| - 6] == 'f';
    assert FilledPattern[1] == 'f';
    MissingCharMeansNoOccurrence(stem, AreaPattern, |AreaPattern| - 6);
    MissingCharMeansNoOccurrence(stem, ByAgePattern, |ByAgePattern| - 6);
    MissingCharMeansNoOccurrence(stem, FilledPattern, 1);
    ReplaceAllNoOccurrence(stem, AreaPattern, "");
    ReplaceAllNoOccurrence(stem, ByAgePattern, "");
    ReplaceAllNoOccurrence(stem, FilledPattern, "");
    LowerFixesLowerStrings(stem);
  }
}
