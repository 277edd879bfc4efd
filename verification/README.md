# NEFD loader, modelled in Dafny

`load_data_to_postgis.py` loads New Zealand forestry data into PostGIS. It
connects to the database, loads two geopackage layers (territorial
authorities and wood supply regions), loads the CSV tables, and prints a SQL
view for the operator to run. Each load replaces its table. The first failing
step ends the run.

This project models the logic of that script that does not depend on the
libraries it calls:

- `text.dfy` (`PyText`) — the Python string operations the script uses. These
  are ASCII `str.lower`, the `[^a-zA-Z0-9]` substitution, `str.strip()` with
  Python's whitespace set, `str.replace` (non-overlapping, left to right) and
  `str.rfind`.
- `column_names.dfy` (`ColumnNames`) — `clean_col_names`.
- `table_names.dfy` (`TableNames`) — `Path.stem` and the table-name chain of
  line 86.
- `name_mapping.dfy` (`NameMapping`) — `NAME_MAPPING_DICT` and the
  strip-then-lookup of district names.
- `csv_tables.dfy` (`CsvTables`) — what happens to one CSV between reading and
  writing it: districts are standardised first, then headers are normalised.
- `pipeline.dfy` (`Pipeline`) — the step list, the abort-on-first-failure run,
  and the database as a map from table name to contents. Each load overwrites
  its entry in that map.

`main` corresponds to `Pipeline.Run(Plan(globbed), outcomes, db)`. Here
`globbed` is the list of files the glob matched, and `outcomes` gives each
step's result (the contents it writes, or its error) as an input.

`clean_col_names` replaces the space and each parenthesis separately, so
`Total (ha)` becomes `total__ha_`, with two underscores
(`ColumnNames.TotalHaHeader`).

The `Connect` step stands for `create_engine` (line 47), which only parses the
URL and loads the driver; it fails only on a malformed URL or a missing
driver. An unreachable database first shows up as a failure of the
territorial-authority layer step, at its `to_postgis` call (line 61).

## Model

| member | source | states |
|---|---|---|
| PyText.ReplaceNonAlnum | load_data_to_postgis.py:34 | the substitution keeps the length, keeps ASCII letters and digits, and turns every other character (non-ASCII letters included) into `_` |
| PyText.Lower | load_data_to_postgis.py:34 | lower-casing keeps the length, maps each character through ASCII lower-casing, and leaves no upper-case letter |
| PyText.Strip | load_data_to_postgis.py:93 | the stripped value is a window of the input with only whitespace around it, and it neither starts nor ends with whitespace |
| PyText.StripCharacterized | load_data_to_postgis.py:93 | any whitespace-surrounded window that is itself stripped equals `Strip` of the input, so the strip result is unique |
| PyText.StripIdempotent | load_data_to_postgis.py:93 | stripping twice is stripping once |
| PyText.ReplaceAll | load_data_to_postgis.py:86 | removing a pattern (replacement no longer than it) never lengthens the string; a same-length replacement keeps the length |
| PyText.ReplaceAllNoOccurrence | load_data_to_postgis.py:86 | a string in which the pattern does not occur comes back unchanged |
| PyText.ReplaceAllWithItself | load_data_to_postgis.py:86 | replacing a pattern with itself returns the input, so the scan consumes exactly the occurrences it replaces |
| PyText.ReplaceAllRemovesSuffix | load_data_to_postgis.py:86 | removing a pattern from `base + pat`, when no occurrence starts inside `base`, leaves exactly `base` |
| PyText.LastIndexOf | load_data_to_postgis.py:86 | `rfind` as `Path.stem` uses it: -1 or an index holding the character, with no later occurrence |
| PyText.ReplaceAllAtFirstOccurrence | load_data_to_postgis.py:86 | when the first occurrence in `u + pat + v` is the one after `u`, the result is `u` processed, then the replacement, then `v` processed |
| ColumnNames.CleanColName | load_data_to_postgis.py:34-36 | the result uses only `[a-z0-9_]` and does not start with a digit; its length is the input's, plus one exactly when the input starts with a digit (then it starts with `_`); each input character lands in order as its lower-cased self or `_`; the empty name stays empty |
| ColumnNames.CleanNameIffFixed | load_data_to_postgis.py:34-36 | a name is left unchanged by normalisation if and only if it is already a normalised name |
| ColumnNames.CleanColNameIdempotent | load_data_to_postgis.py:34-36 | normalising a column name twice gives the same result as normalising it once |
| ColumnNames.NonAsciiLetterBecomesUnderscore | load_data_to_postgis.py:34 | `Ōpōtiki` becomes `_p_tiki`: non-ASCII letters become `_` rather than being transliterated |
| ColumnNames.TotalHaHeader | load_data_to_postgis.py:34 | `Total (ha)` becomes `total__ha_` |
| ColumnNames.CleanColNameNotInjective | load_data_to_postgis.py:31-38 | the distinct headers `Total [ha]` and `Total (ha)` normalise to the same name, and the loader does not detect the collision |
| ColumnNames.TerritorialAuthorityHeader | load_data_to_postgis.py:34 | `Territorial Authority` becomes `territorial_authority` |
| ColumnNames.CleanColNames | load_data_to_postgis.py:30-39 | the header list keeps its length and order, with exactly one normalised name per input name |
| ColumnNames.CleanColNamesIdempotent | load_data_to_postgis.py:30-39 | normalising a header list twice gives the same result as normalising it once |
| TableNames.Stem | load_data_to_postgis.py:86 | the stem is the non-empty prefix before the last `.` when that dot is neither the first nor the last character, and the whole name exactly when there is no such dot |
| TableNames.StemOfCsv | load_data_to_postgis.py:81-86 | the stem of `base.csv` is `base` when `base` is non-empty |
| TableNames.TableName | load_data_to_postgis.py:86 | a derived table name has no upper-case letter and is no longer than the stem |
| TableNames.FilledNotReformed | load_data_to_postgis.py:86 | in `base + "_filled"` where `base` has no `_filled`, no occurrence of `_filled` starts inside `base`, so none is re-formed across the end of `base` |
| TableNames.FilledStem | load_data_to_postgis.py:86 | for a stem `base + "_filled"` that contains neither longer pattern, where `base` has no `_filled`, the table name is `lower(base)`; matching is case-sensitive and happens before lower-casing |
| TableNames.AreaStem | load_data_to_postgis.py:86 | for every `base` with no area pattern starting inside it and neither shorter pattern in it, `base + "_area_by_age_and_district_filled"` loads into `lower(base)` |
| TableNames.ByAgeStem | load_data_to_postgis.py:86 | for every `base` with no `_filled` in it, where the area pattern does not occur in the stem and no by-age pattern starts inside `base`, `base + "_by_age_and_district_filled"` loads into `lower(base)` |
| TableNames.TableNameOfFile | load_data_to_postgis.py:86 | the table of a CSV file is derived from its stem: it has no upper-case letter and is no longer than the file name |
| TableNames.PineAreaFile | load_data_to_postgis.py:86 | `pine_area_by_age_and_district_filled.csv` loads into `pine` |
| TableNames.PineAreaFileOtherOrder | load_data_to_postgis.py:86 | removing `_filled` first would have left `pine_area_by_age_and_district`, so the order of the removals matters |
| TableNames.RelationshipsFile | load_data_to_postgis.py:82-86 | `territorial_authority_relationships.csv` loads into `territorial_authority_relationships` |
| NameMapping.Lookup | load_data_to_postgis.py:93 | `dict.get(x, x)`: the mapped value for a key, the input itself otherwise |
| NameMapping.Standardize | load_data_to_postgis.py:93 | a cell is trimmed, then replaced by its mapping target when the trimmed value is a key, and left trimmed otherwise |
| NameMapping.StandardizeRange | load_data_to_postgis.py:93 | a standardised value is the trimmed input or a mapping target, and it differs from the trimmed input only when that is a key |
| NameMapping.StandardizeIdempotent | load_data_to_postgis.py:93 | when every target is stripped and maps to itself or is no key, standardising twice is standardising once |
| NameMapping.NameMappingDictSettled | load_data_to_postgis.py:21-27 | the loader's mapping satisfies that condition: no corrected name is corrected again |
| NameMapping.CentralHawkesBayNoOp | load_data_to_postgis.py:26 | `Central Hawke's Bay District`, with any whitespace before and any whitespace after it, standardises to itself |
| NameMapping.OpotikiCorrected | load_data_to_postgis.py:22 | ` Opotiki District ` is trimmed and corrected to `Ōpōtiki District` |
| NameMapping.UnknownDistrictUnchanged | load_data_to_postgis.py:93 | a stripped value that is not a key passes through unchanged |
| NameMapping.PaddedUnknownDistrictTrimmed | load_data_to_postgis.py:93 | a value that is not a key, with any whitespace around it, comes back trimmed |
| CsvTables.StandardizeDistricts | load_data_to_postgis.py:91-93 | headers and row count are kept; each row's district cells are standardised; without an exact `Territorial Authority` header the table is unchanged |
| CsvTables.PrepareCsv | load_data_to_postgis.py:91-95 | the headers are the normalised input headers, all normalised; every row keeps its length; a cell under the raw `Territorial Authority` header is standardised and every other cell is unchanged |
| CsvTables.CleanHeaderIsNotDistrictColumn | load_data_to_postgis.py:91-95 | no normalised header equals `Territorial Authority`, so the lookup must run before normalisation |
| CsvTables.MappingNeedsRawHeader | load_data_to_postgis.py:91-95 | without the exact raw header, for instance with a header already named `territorial_authority`, no cell changes |
| CsvTables.PrepareCsvIdempotent | load_data_to_postgis.py:91-95 | preparing an already prepared table changes nothing |
| CsvTables.TwoRowExample | load_data_to_postgis.py:91-95 | a two-row table with headers `Territorial Authority, Total (ha)` becomes `territorial_authority, total__ha_`, with `Opotiki District` corrected and `Unknown District` kept |
| Pipeline.Plan | load_data_to_postgis.py:45-84 | the run connects, loads the territorial-authority layer, then the wood-supply-region layer, then each globbed CSV in order, and the relationships CSV last |
| Pipeline.CsvFiles | load_data_to_postgis.py:81-82 | the CSV list is the globbed files, in order, followed by the relationships file |
| Pipeline.Apply | load_data_to_postgis.py:61-96 | a successful load replaces its table wholesale and leaves every other table as it was; connecting writes nothing |
| Pipeline.Commit | load_data_to_postgis.py:61-96 | a run of loads never drops a table, and every table it adds was written by one of its successful steps |
| Pipeline.CommitLastWriteWins | load_data_to_postgis.py:96 | after a sequence of loads, a table holds what its last successful load wrote (replace, not append) |
| Pipeline.CommitUnwrittenTable | load_data_to_postgis.py:61-96 | a table that no successful step wrote keeps its previous contents, or stays absent |
| Pipeline.FirstFailure | load_data_to_postgis.py:45-101 | the index of the first failing step: every step before it succeeded, and it failed unless it is the end of the run |
| Pipeline.Run | load_data_to_postgis.py:42-101 | the steps attempted are the plan's prefix up to and including the first failure; no step after a failure is attempted; the notice appears exactly when no step failed; an abort reports the failing step and its error; the database holds exactly the writes of the steps before the failure |
| Pipeline.LayerFailureLoadsNoCsv | load_data_to_postgis.py:54-65 | if the territorial-authority layer fails, the run stops at or before it, no CSV step is attempted, and no table is written |
| Pipeline.CsvFailureKeepsEarlierLoads | load_data_to_postgis.py:84-99 | a failing CSV is the first failure, and a table loaded before it still holds the contents last written there |
| Pipeline.FilledCsvLandsInItsTable | load_data_to_postgis.py:84-96 | in a run without failures, a `base_filled.csv` step that writes the prepared table leaves those prepared rows in table `lower(base)`, unless a later step replaces that table |
| Pipeline.RenameColumns | load_data_to_postgis.py:58 | `rename(columns=m)`: the header list keeps its length and order, and each header is looked up in `m` or kept |
| Pipeline.RenamedLayerHasTaName | load_data_to_postgis.py:58 | after the rename, a layer that had `TA2023_V1_00_NAME` has a `ta_name` column |

## Left out

- Database access (`create_engine`, `to_postgis`, `to_sql`). These calls go into SQLAlchemy and GeoAlchemy, which are not part of this model. A step's success and the contents it writes are inputs (`Outcome`). "Replace" is modelled as overwriting an entry of a map.
- File reading (`gpd.read_file`, `pd.read_csv`) and directory globbing. The glob's matches are an input sequence. Their order comes from the file system, so it is not modelled.
- Reprojection to EPSG:3857. This is floating-point geodesy inside pyproj, so layer contents are abstract.
- All console output, including the `CREATE OR REPLACE VIEW` text. It is printed, never executed.
- The hard-coded connection settings and paths. They are configuration with no logic in them.
- NEFD_v1/map.js. It is browser map configuration with no logic to model.
- pandas cell types. Every cell is a string. `.str.strip()` on a NaN or non-string cell (which gives NaN) is not modelled. Column labels are strings as well.
- Duplicate CSV headers. `read_csv` renames duplicates, so a header appears at most once. The model standardises every column headed `Territorial Authority`.
- Errors raised inside a CSV step are not derived from the data. For example, `to_sql` may reject two headers that normalise to the same name. Such errors are part of that step's abstract outcome.
- TableName: lower-cases ASCII letters only. Python's `str.lower` also lower-cases non-ASCII letters in a stem, so the "no upper-case letter" guarantee covers ASCII only, and the length bound `|r| <= |stem|` holds only for ASCII lower-casing (`'İ'.lower()` is two code points in Python). `clean_col_names` is not affected, because only ASCII characters survive its substitution.
- TableNames.TableNameOfFile: states only the bounds of `TableName`, with the same ASCII-only lower-casing. The name a CSV file actually gets is stated by `StemOfCsv` together with `FilledStem`, `AreaStem` and `ByAgeStem`.
- PyText.ReplaceAll: requires a non-empty pattern. Python's empty-pattern `replace` (inserting between characters) is not modelled, because the script passes only three non-empty literals.
- TableNames.Stem: follows the `rfind` rule of `pathlib` in Python 3.12 and 3.13: a leading or trailing `.` gives no suffix. Other Python versions may differ for names ending in `.`. No name the glob matches ends that way.
