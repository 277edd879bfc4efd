/**
 The loader's control flow: connect, load the territorial-authority layer,
 load the wood-supply-region layer, load each CSV in list order, and print
 the completion notice. Every step either succeeds or fails; the first
 failure ends the run. What a step reads and writes is abstract: a step's
 outcome is an input, and the database is a map from table name to
 contents in which every load overwrites its table.
 */
module Pipeline {
  import opened NameMapping
  import opened TableNames
  import opened CsvTables
  import opened PyText

  /** One step of the run. */
  datatype Step = Connect | LoadLayer(table: string) | LoadCsv(file: string)

  /** What the environment answers when a step is attempted: the contents the
      step writes, or the error it reports. */
  datatype Outcome<D> = Done(data: D) | Failed(error: string)

  /** How a run ends: with the completion notice, or at a failing step. */
  datatype Ending = Completed | Aborted(step: Step, error: string)

  /** The steps attempted, the database afterwards, and how the run ended. */
  datatype Report<D> = Report(attempted: seq<Step>, db: map<string, D>, ending: Ending)

  const TerritorialAuthoritiesTable := "territorial_authorities"
  const WoodSupplyRegionsTable := "wood_supply_regions"
  const RelationshipsFile := RelationshipsStem + ".csv"

  /** Lines 81-82: the files the glob matched, then the relationships file. */
  function CsvFiles(globbed: seq<string>): (r: seq<string>)
    ensures |r| == |globbed| + 1
    ensures forall i :: 0 <= i < |globbed| ==> r[i] == globbed[i]
    ensures r[|globbed|] == RelationshipsFile
  {
    globbed + [RelationshipsFile]
  }

  /** The steps of a run, in order, for the files the glob matched. */
  function Plan(globbed: seq<string>): (p: seq<Step>)
    ensures |p| == |globbed| + 4
    ensures p[0] == Connect
    ensures p[1] == LoadLayer(TerritorialAuthoritiesTable)
    ensures p[2] == LoadLayer(WoodSupplyRegionsTable)
    ensures forall i :: 0 <= i < |globbed| ==> p[3 + i] == LoadCsv(globbed[i])
    ensures p[|p| - 1] == LoadCsv(RelationshipsFile)
  {
    var files := CsvFiles(globbed);
    [Connect, LoadLayer(TerritorialAuthoritiesTable), LoadLayer(WoodSupplyRegionsTable)]
      + seq(|files|, i requires 0 <= i < |files| => LoadCsv(files[i]))
  }

  /** Does the step write a table? Connecting writes nothing. */
  predicate Writes(step: Step) {
    !step.Connect?
  }

  /** The table a step replaces. */
  function TargetTable(step: Step): string
    requires Writes(step)
  {
    match step
    case LoadLayer(t) => t
    case LoadCsv(f) => TableNameOfFile(f)
  }

  /** One successful step applied to the database: its table is replaced
      wholesale, whatever it held before. */
  function Apply<D>(db: map<string, D>, step: Step, d: D): (r: map<string, D>)
    ensures Writes(step) ==> r.Keys == db.Keys + {TargetTable(step)} && r[TargetTable(step)] == d
    ensures forall t :: t in db && (!Writes(step) || t != TargetTable(step)) ==> t in r && r[t] == db[t]
    ensures !Writes(step) ==> r == db
  {
    if Writes(step) then db[TargetTable(step) := d] else db
  }

  /** The database after the successful steps among `steps`, applied in
      order; failed steps write nothing. */
  function Commit<D>(db: map<string, D>, steps: seq<Step>, outs: seq<Outcome<D>>): (r: map<string, D>)
    requires |steps| == |outs|
    ensures db.Keys <= r.Keys
    ensures forall t :: t in r && t !in db ==> exists j :: WritesTable(steps, outs, j, t)
    decreases |steps|
  {
    if steps == [] then db
    else
      var n := |steps| - 1;
      var before := Commit(db, steps[..n], outs[..n]);
      assert forall j, t :: WritesTable(steps[..n], outs[..n], j, t) ==> WritesTable(steps, outs, j, t);
      assert outs[n].Done? && Writes(steps[n]) ==> WritesTable(steps, outs, n, TargetTable(steps[n]));
      if outs[n].Done? then Apply(before, steps[n], outs[n].data) else before
  }

  /** Step `i` is a successful write of table `t`. */
  predicate WritesTable<D>(steps: seq<Step>, outs: seq<Outcome<D>>, i: int, t: string)
    requires |steps| == |outs|
  {
    0 <= i < |steps| && outs[i].Done? && Writes(steps[i]) && TargetTable(steps[i]) == t
  }

  /** Replace semantics, stated without the fold: a table holds what its
      last successful write put there. */
  lemma {:induction false} CommitLastWriteWins<D>(db: map<string, D>, steps: seq<Step>, outs: seq<Outcome<D>>, t: string, i: int)
    requires |steps| == |outs|
    requires WritesTable(steps, outs, i, t)
    requires forall j :: i < j < |steps| ==> !WritesTable(steps, outs, j, t)
    ensures t in Commit(db, steps, outs) && Commit(db, steps, outs)[t] == outs[i].data
    decreases |steps|
  {
    var n := |steps| - 1;
    var ps, po := steps[..n], outs[..n];
    if i < n {
      assert WritesTable(ps, po, i, t);
      forall j | i < j < n
        ensures !WritesTable(ps, po, j, t)
      {
        assert !WritesTable(steps, outs, j, t);
      }
      CommitLastWriteWins(db, ps, po, t, i);
      assert !WritesTable(steps, outs, n, t);
    }
  }

  /** A table that no successful step wrote keeps its old contents, or stays
      absent: nothing is dropped or added behind the loads' backs. */
  lemma {:induction false} CommitUnwrittenTable<D>(db: map<string, D>, steps: seq<Step>, outs: seq<Outcome<D>>, t: string)
    requires |steps| == |outs|
    requires forall j :: 0 <= j < |steps| ==> !WritesTable(steps, outs, j, t)
    ensures t in Commit(db, steps, outs) <==> t in db
    ensures t in db ==> Commit(db, steps, outs)[t] == db[t]
    decreases |steps|
  {
    if steps != [] {
      var n := |steps| - 1;
      var ps, po := steps[..n], outs[..n];
      forall j | 0 <= j < n
        ensures !WritesTable(ps, po, j, t)
      {
        assert !WritesTable(steps, outs, j, t);
      }
      CommitUnwrittenTable(db, ps, po, t);
      assert !WritesTable(steps, outs, n, t);
    }
  }

  /** Lines 88-99 and 101: the first step whose outcome is a failure, or the
      number of steps when none fails. */
  function FirstFailure<D>(outs: seq<Outcome<D>>): (k: nat)
    ensures k <= |outs|
    ensures forall i :: 0 <= i < k ==> outs[i].Done?
    ensures k < |outs| ==> outs[k].Failed?
  {
    if outs == [] || outs[0].Failed? then 0 else 1 + FirstFailure(outs[1..])
  }

  /** The run as `main` performs it: steps in order, each successful one
      committed at once, and a return at the first failure. */
  method Run<D>(plan: seq<Step>, outs: seq<Outcome<D>>, db0: map<string, D>) returns (rep: Report<D>)
    requires |outs| == |plan|
    ensures var k := FirstFailure(outs);
            rep.attempted == plan[..if k < |plan| then k + 1 else k]
    ensures forall i :: 0 <= i < |plan| && outs[i].Failed? ==> |rep.attempted| <= i + 1
    ensures rep.ending.Completed? <==> forall i :: 0 <= i < |outs| ==> outs[i].Done?
    ensures rep.ending.Aborted? ==>
              var k := |rep.attempted| - 1;
              0 <= k && rep.ending == Aborted(plan[k], outs[k].error)
    ensures var k := FirstFailure(outs);
            rep.db == Commit(db0, plan[..k], outs[..k])
  {
    var db := db0;
    var i := 0;
    while i < |plan|
      invariant 0 <= i <= |plan|
      invariant forall j :: 0 <= j < i ==> outs[j].Done?
      invariant db == Commit(db0, plan[..i], outs[..i])
    {
      match outs[i]
      case Failed(e) =>
        assert FirstFailure(outs) == i;
        return Report(plan[..i + 1], db, Aborted(plan[i], e));
      case Done(d) =>
        assert plan[..i + 1][..i] == plan[..i];
        assert outs[..i + 1][..i] == outs[..i];
        db := Apply(db, plan[i], d);
        i := i + 1;
    }
    assert FirstFailure(outs) == |plan|;
    assert plan[..i] == plan;
    return Report(plan, db, Completed);
  }

  /** A failing territorial-authority layer: the run stops after connecting
      and that layer, no CSV step is attempted, and no table is written. */
  lemma LayerFailureLoadsNoCsv<D>(globbed: seq<string>, outs: seq<Outcome<D>>, db0: map<string, D>)
    requires |outs| == |Plan(globbed)|
    requires outs[1].Failed?
    ensures FirstFailure(outs) <= 1
    ensures forall j :: 0 <= j <= FirstFailure(outs) ==> !Plan(globbed)[j].LoadCsv?
    ensures var k := FirstFailure(outs);
            Commit(db0, Plan(globbed)[..k], outs[..k]) == db0
  {
    var p := Plan(globbed);
    var k := FirstFailure(outs);
    if k == 1 {
      assert p[..1] == [Connect];
      assert Commit(db0, p[..1][..0], outs[..1][..0]) == db0;
    }
  }

  /** A failing CSV stops every CSV after it, while a table replaced before
      it keeps the contents written there last. */
  lemma CsvFailureKeepsEarlierLoads<D>(globbed: seq<string>, outs: seq<Outcome<D>>, db0: map<string, D>, c: nat, t: string, i: nat)
    requires |outs| == |Plan(globbed)|
    requires 3 <= c < |outs| && outs[c].Failed?
    requires forall j :: 0 <= j < c ==> outs[j].Done?
    requires i < c && Writes(Plan(globbed)[i]) && TargetTable(Plan(globbed)[i]) == t
    requires forall j :: i < j < c ==> !Writes(Plan(globbed)[j]) || TargetTable(Plan(globbed)[j]) != t
    ensures FirstFailure(outs) == c
    ensures var db := Commit(db0, Plan(globbed)[..c], outs[..c]);
            t in db && db[t] == outs[i].data
  {
    var p := Plan(globbed);
    forall j | i < j < c
      ensures !WritesTable(p[..c], outs[..c], j, t)
    {
    }
    CommitLastWriteWins(db0, p[..c], outs[..c], t, i);
  }

  /** End to end for one `_filled` CSV: when its step writes the prepared
      table and no later step replaces the same table, the run leaves the
      prepared rows in the table named after the file's base, lower-cased. */
  lemma FilledCsvLandsInItsTable(globbed: seq<string>, outs: seq<Outcome<Table>>, db0: map<string, Table>,
                                 i: nat, base: string, read: Table)
    requires |outs| == |Plan(globbed)|
    requires forall j :: 0 <= j < |outs| ==> outs[j].Done?
    requires NoOccurrence(base + FilledPattern, AreaPattern)
    requires NoOccurrence(base + FilledPattern, ByAgePattern)
    requires NoOccurrence(base, FilledPattern)
    requires i < |outs| && Plan(globbed)[i] == LoadCsv(base + FilledPattern + ".csv")
    requires outs[i] == Done(PrepareCsv(NameMappingDict, read))
    requires forall j :: i < j < |outs| ==> !Writes(Plan(globbed)[j]) || TargetTable(Plan(globbed)[j]) != Lower(base)
    ensures FirstFailure(outs) == |outs|
    ensures var db := Commit(db0, Plan(globbed), outs);
            Lower(base) in db && db[Lower(base)] == PrepareCsv(NameMappingDict, read)
  {
    var p := Plan(globbed);
    StemOfCsv(base + FilledPattern);
    FilledStem(base);
    assert TargetTable(p[i]) == Lower(base);
    forall j | i < j < |p|
      ensures !WritesTable(p, outs, j, Lower(base))
    {
    }
    CommitLastWriteWins(db0, p, outs, Lower(base), i);
  }

  /** The columns renamed in the territorial-authority layer (line 58). */
  const LayerRenames: map<string, string> := map[
    "TA2023_V1_00_NAME" := "ta_name",
    "wsr_name" := "supply_region_name"
  ]

  /** `rename(columns=m)`: each header found in `m` is replaced by its image,
      the others stay, and the order is kept. */
  function RenameColumns(m: map<string, string>, cols: seq<string>): (r: seq<string>)
    ensures |r| == |cols|
    ensures forall i :: 0 <= i < |cols| ==> r[i] == Lookup(m, cols[i])
  {
    seq(|cols|, i requires 0 <= i < |cols| => Lookup(m, cols[i]))
  }

  /** After the rename, the layer has the `ta_name` column the final view
      joins on, in place of the source name column. */
  lemma RenamedLayerHasTaName(cols: seq<string>)
    requires "TA2023_V1_00_NAME" in cols
    ensures "ta_name" in RenameColumns(LayerRenames, cols)
  {
    var i :| 0 <= i < |cols| && cols[i] == "TA2023_V1_00_NAME";
    assert RenameColumns(LayerRenames, cols)[i] == "ta_name";
  }
}
