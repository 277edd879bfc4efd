/**
 What the loader does to one CSV between reading and writing it: when a
 column is headed exactly `Territorial Authority`, each of its values is
 standardised; then every header is normalised. Cells are strings.
 */
module CsvTables {
  import opened PyText
  import opened ColumnNames
  import opened NameMapping

  /** A data frame as read from a CSV: headers and rows of cells, cell `j`
      of a row belonging to header `j`. */
  datatype Table = Table(columns: seq<string>, rows: seq<seq<string>>)

  /** The header whose values are standardised, matched before normalisation. */
  const DistrictColumn := "Territorial Authority"

  /** Does cell `j` of a row sit under the district header? */
  predicate IsDistrictCell(columns: seq<string>, j: int) {
    0 <= j < |columns| && columns[j] == DistrictColumn
  }

  /** One row with its district cells standardised. */
  function StandardizeRow(m: map<string, string>, columns: seq<string>, row: seq<string>): (r: seq<string>)
    ensures |r| == |row|
    ensures forall j :: 0 <= j < |row| && IsDistrictCell(columns, j) ==> r[j] == Standardize(m, row[j])
    ensures forall j :: 0 <= j < |row| && !IsDistrictCell(columns, j) ==> r[j] == row[j]
  {
    seq(|row|, j requires 0 <= j < |row| =>
      if IsDistrictCell(columns, j) then Standardize(m, row[j]) else row[j])
  }

  /** Lines 91-93: the district column is standardised when it exists, and
      the table is untouched otherwise. */
  function StandardizeDistricts(m: map<string, string>, t: Table): (r: Table)
    ensures r.columns == t.columns
    ensures |r.rows| == |t.rows|
    ensures forall i :: 0 <= i < |t.rows| ==> r.rows[i] == StandardizeRow(m, t.columns, t.rows[i])
    ensures DistrictColumn !in t.columns ==> r == t
  {
    if DistrictColumn in t.columns then
      Table(t.columns, seq(|t.rows|, i requires 0 <= i < |t.rows| => StandardizeRow(m, t.columns, t.rows[i])))
    else
      t
  }

  /** Lines 91-95: standardise the district column, then normalise headers. */
  function PrepareCsv(m: map<string, string>, t: Table): (r: Table)
    ensures r.columns == CleanColNames(t.columns)
    ensures IsCleanHeaderList(r.columns)
    ensures |r.rows| == |t.rows|
    ensures forall i :: 0 <= i < |t.rows| ==> |r.rows[i]| == |t.rows[i]|
    ensures forall i, j :: 0 <= i < |t.rows| && 0 <= j < |t.rows[i]| ==>
              r.rows[i][j] == if IsDistrictCell(t.columns, j) then Standardize(m, t.rows[i][j]) else t.rows[i][j]
  {
    var s := StandardizeDistricts(m, t);
    Table(CleanColNames(s.columns), s.rows)
  }

  /** Every header of the list is normalised. */
  predicate IsCleanHeaderList(cols: seq<string>) {
    forall j :: 0 <= j < |cols| ==> IsCleanName(cols[j])
  }

  /** A normalised header never equals `Territorial Authority` (it has no
      upper-case letter and no space). */
  lemma CleanHeaderIsNotDistrictColumn(s: string)
    requires IsCleanName(s)
    ensures s != DistrictColumn
  {
    assert !IsCleanChar(DistrictColumn[0]);
  }

  /** The mapping is keyed on the raw header: a table whose district column is
      already called `territorial_authority` keeps its values. */
  lemma MappingNeedsRawHeader(m: map<string, string>, t: Table)
    requires DistrictColumn !in t.columns
    ensures PrepareCsv(m, t).rows == t.rows
  {
  }

  /** Preparing a prepared table changes nothing: the second pass finds no
      raw district header, and normalised headers stay as they are. */
  lemma PrepareCsvIdempotent(m: map<string, string>, t: Table)
    ensures PrepareCsv(m, PrepareCsv(m, t)) == PrepareCsv(m, t)
  {
    var p := PrepareCsv(m, t);
    forall j | 0 <= j < |p.columns|
      ensures p.columns[j] != DistrictColumn
    {
      CleanHeaderIsNotDistrictColumn(p.columns[j]);
    }
    CleanColNamesIdempotent(t.columns);
  }

  /** The two-row example: `Territorial Authority, Total (ha)` with an
      Opotiki row and an unknown district. The area header gets two
      underscores. */
  lemma TwoRowExample()
    ensures PrepareCsv(NameMappingDict,
              Table(["Territorial Authority", "Total (ha)"],
                    [["Opotiki District", "10"], ["Unknown District", "5"]]))
         == Table(["territorial_authority", "total__ha_"],
                  [["Ōpōtiki District", "10"], ["Unknown District", "5"]])
  {
    var cols := ["Territorial Authority", "Total (ha)"];
    var rows := [["Opotiki District", "10"], ["Unknown District", "5"]];
    var p := PrepareCsv(NameMappingDict, Table(cols, rows));
    ExampleHeaders();
    ExampleDistricts();
    assert IsDistrictCell(cols, 0);
    assert !IsDistrictCell(cols, 1);
    PairByElements(p.rows[0], "Ōpōtiki District", "10");
    PairByElements(p.rows[1], "Unknown District", "5");
    PairByElements(p.rows, ["Ōpōtiki District", "10"], ["Unknown District", "5"]);
    PairByElements(p.columns, "territorial_authority", "total__ha_");
  }

  /** A two-element sequence is determined by its elements. */
  lemma PairByElements<T>(s: seq<T>, a: T, b: T)
    requires |s| == 2 && s[0] == a && s[1] == b
    ensures s == [a, b]
  {
  }

  /** The two headers of the example, normalised. */
  lemma ExampleHeaders()
    ensures CleanColNames(["Territorial Authority", "Total (ha)"]) == ["territorial_authority", "total__ha_"]
  {
    TerritorialAuthorityHeader();
    TotalHaHeader();
  }

  /** The two district values of the example, standardised. */
  lemma ExampleDistricts()
    ensures Standardize(NameMappingDict, "Opotiki District") == "Ōpōtiki District"
    ensures Standardize(NameMappingDict, "Unknown District") == "Unknown District"
  {
    StripFixesStripped("Opotiki District");
    assert Lookup(NameMappingDict, "Opotiki District") == "Ōpōtiki District";
    assert "Unknown District" !in NameMappingDict;
    UnknownDistrictUnchanged("Unknown District");
  }
}
