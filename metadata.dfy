/**
  The exam-level metadata merge of `load_metadata`: the three source tables
  (cases, imaging studies, MR series) each use `submitter_id` and `type` for
  their own meaning, so each is renamed through its own map onto shared key
  names; series is then left-joined to studies on the study key and the
  result to cases on the patient key, the redundant key copies are dropped,
  and the free-text manufacturer is upper-cased.
*/
module Metadata {
  import opened Wrappers
  import opened Tables

  /** Case table: `submitter_id` is the patient id. */
  const CaseRenames: RenameMap := [("submitter_id", "patient_id"), ("type", "case_type")]

  /** Study table: `submitter_id` is the study UID; `case_ids` is the patient it belongs to. */
  const StudyRenames: RenameMap :=
    [("submitter_id", "study_submitter_id"), ("case_ids", "patient_id"), ("type", "study_type")]

  /** Series table: `submitter_id` is the series UID; the study and the patient are foreign keys. */
  const SeriesRenames: RenameMap := [
    ("imaging_studies.submitter_id", "study_submitter_id"),
    ("type", "series_type"),
    ("submitter_id", "series_submitter_id"),
    ("case_ids", "patient_id"),
    ("image_data_modified", "series_image_data_modified")
  ]

  const StudyKey: Column := "study_submitter_id"
  const PatientKey: Column := "patient_id"

  /** The key copies dropped after both joins. */
  const Redundant: seq<Column> := ["study_submitter_id", "patient_id_right", "cases.submitter_id", "case_ids"]

  const Manufacturer: Column := "manufacturer"

  /**
    Merges the three tables into one row per series (given unique keys on the
    right sides). Any schema error of a step is the result.
  */
  function LoadMetadata(cases: Table, studies: Table, series: Table): (r: Result<Table, SchemaError>)
    requires WellFormed(cases) && WellFormed(studies) && WellFormed(series)
    ensures (exists s | s in Sources(CaseRenames) :: s !in cases.columns) ==>
              r.Failure? && r.error.ColumnNotFound? && r.error.column !in cases.columns
    ensures r.Success? ==>
              && WellFormed(r.value)
              && |r.value.rows| >= |series.rows|
              && (forall c | c in Redundant :: c !in r.value.columns)
              && Manufacturer in r.value.columns
  {
    var c :- Rename(cases, CaseRenames);
    var st :- Rename(studies, StudyRenames);
    var se :- Rename(series, SeriesRenames);
    var j1 :- LeftJoin(se, st, StudyKey);
    var j2 :- LeftJoin(j1, c, PatientKey);
    var d :- Drop(j2, Redundant);
    UpperCaseColumn(d, Manufacturer)
  }

  /** Renaming column `k` keeps its cell in every row, now under the new name. */
  lemma RenameKeepsKeyCell(t: Table, m: RenameMap, k: nat)
    requires WellFormed(t) && Rename(t, m).Success?
    requires k < |t.columns|
    ensures var out := Rename(t, m).value;
      forall i | 0 <= i < |t.rows| :: KeyCell(out.rows[i], out.columns[k]) == KeyCell(t.rows[i], t.columns[k])
  {
    var out := Rename(t, m).value;
    forall i | 0 <= i < |t.rows| ensures KeyCell(out.rows[i], out.columns[k]) == KeyCell(t.rows[i], t.columns[k]) {
      assert out.rows[i] in out.rows && t.rows[i] in t.rows;
    }
  }

  /** A key that is unique before renaming is unique under its new name. */
  lemma RenameKeepsUniqueKey(t: Table, m: RenameMap, key: Column)
    requires WellFormed(t) && Rename(t, m).Success?
    requires key in t.columns
    requires UniqueKey(t.rows, key)
    ensures UniqueKey(Rename(t, m).value.rows, Renamed(key, m))
  {
    var out := Rename(t, m).value;
    var k :| 0 <= k < |t.columns| && t.columns[k] == key;
    RenameKeepsKeyCell(t, m, k);
    assert out.columns[k] == Renamed(key, m);
  }

  /** Cases: `submitter_id` becomes the patient key and `type` becomes `case_type`. */
  lemma CaseRenamesDisambiguate(cases: Table)
    requires WellFormed(cases) && Rename(cases, CaseRenames).Success?
    ensures var c := Rename(cases, CaseRenames).value;
      && "submitter_id" !in c.columns && "type" !in c.columns
      && PatientKey in c.columns && "case_type" in c.columns
  {
    assert Sources(CaseRenames) == ["submitter_id", "type"];
    assert Targets(CaseRenames) == ["patient_id", "case_type"];
    RenameRemovesSource(cases, CaseRenames, "submitter_id");
    RenameRemovesSource(cases, CaseRenames, "type");
    RenamedHas(cases, CaseRenames, 0);
    RenamedHas(cases, CaseRenames, 1);
  }

  /**
    Studies: `submitter_id` becomes the study key, the patient foreign key
    `case_ids` becomes the patient key and `type` becomes `study_type`.
  */
  lemma StudyRenamesDisambiguate(studies: Table)
    requires WellFormed(studies) && Rename(studies, StudyRenames).Success?
    ensures var st := Rename(studies, StudyRenames).value;
      && "submitter_id" !in st.columns && "type" !in st.columns && "case_ids" !in st.columns
      && StudyKey in st.columns && PatientKey in st.columns && "study_type" in st.columns
  {
    assert Sources(StudyRenames) == ["submitter_id", "case_ids", "type"];
    assert Targets(StudyRenames) == ["study_submitter_id", "patient_id", "study_type"];
    RenameRemovesSource(studies, StudyRenames, "submitter_id");
    RenameRemovesSource(studies, StudyRenames, "case_ids");
    RenameRemovesSource(studies, StudyRenames, "type");
    RenamedHas(studies, StudyRenames, 0);
    RenamedHas(studies, StudyRenames, 1);
    RenamedHas(studies, StudyRenames, 2);
  }

  /**
    Series: the study foreign key becomes the study key, `submitter_id` the
    series key, `case_ids` the patient key, and the colliding `type` and
    `image_data_modified` get a `series_` prefix.
  */
  lemma SeriesRenamesDisambiguate(series: Table)
    requires WellFormed(series) && Rename(series, SeriesRenames).Success?
    ensures var se := Rename(series, SeriesRenames).value;
      && StudyKey in se.columns && PatientKey in se.columns && "series_submitter_id" in se.columns
      && "series_type" in se.columns && "series_image_data_modified" in se.columns
  {
    assert Sources(SeriesRenames) == ["imaging_studies.submitter_id", "type", "submitter_id", "case_ids", "image_data_modified"];
    RenamedHas(series, SeriesRenames, 0);
    RenamedHas(series, SeriesRenames, 1);
    RenamedHas(series, SeriesRenames, 2);
    RenamedHas(series, SeriesRenames, 3);
    RenamedHas(series, SeriesRenames, 4);
  }

  /** Series: none of the three renamed key names is left as a column. */
  lemma SeriesRenamesRemoveKeys(series: Table)
    requires WellFormed(series) && Rename(series, SeriesRenames).Success?
    ensures var se := Rename(series, SeriesRenames).value;
      "submitter_id" !in se.columns && "case_ids" !in se.columns && "imaging_studies.submitter_id" !in se.columns
  {
    assert Sources(SeriesRenames) == ["imaging_studies.submitter_id", "type", "submitter_id", "case_ids", "image_data_modified"];
    assert Targets(SeriesRenames) == ["study_submitter_id", "series_type", "series_submitter_id", "patient_id", "series_image_data_modified"];
    RenameRemovesSource(series, SeriesRenames, "imaging_studies.submitter_id");
    RenameRemovesSource(series, SeriesRenames, "submitter_id");
    RenameRemovesSource(series, SeriesRenames, "case_ids");
  }

  /** Series: the columns that clash with study columns, `type` and `image_data_modified`, are gone. */
  lemma SeriesRenamesRemoveClashes(series: Table)
    requires WellFormed(series) && Rename(series, SeriesRenames).Success?
    ensures var se := Rename(series, SeriesRenames).value;
      "type" !in se.columns && "image_data_modified" !in se.columns
  {
    assert Sources(SeriesRenames) == ["imaging_studies.submitter_id", "type", "submitter_id", "case_ids", "image_data_modified"];
    assert Targets(SeriesRenames) == ["study_submitter_id", "series_type", "series_submitter_id", "patient_id", "series_image_data_modified"];
    RenameRemovesSource(series, SeriesRenames, "type");
    RenameRemovesSource(series, SeriesRenames, "image_data_modified");
  }

  /** The `k`-th pair's new name is a column after the rename. */
  lemma RenamedHas(t: Table, m: RenameMap, k: nat)
    requires WellFormed(t) && Rename(t, m).Success?
    requires k < |m| && Distinct(Sources(m))
    ensures m[k].1 in Rename(t, m).value.columns
  {
    assert Sources(m)[k] == m[k].0;
    assert m[k].0 in t.columns;
    var j :| 0 <= j < |t.columns| && t.columns[j] == m[k].0;
    RenamedPair(m, k);
    assert Rename(t, m).value.columns[j] == m[k].1;
  }

  /** A left column's cell is unchanged by a left join on a key unique on the right. */
  lemma JoinKeepsLeftCell(left: Table, right: Table, key: Column, out: Table, i: nat, name: Column)
    requires WellFormed(left) && WellFormed(right) && UniqueKey(right.rows, key)
    requires LeftJoin(left, right, key) == Success(out)
    requires i < |left.rows| && name in left.columns
    ensures i < |out.rows| && name in out.columns && out.rows[i][name] == left.rows[i][name]
  {
    LeftJoinKeepsRows(left, right, key);
  }

  /** A cell of a column that is not dropped is unchanged by the drop. */
  lemma DropKeepsCell(t: Table, names: seq<Column>, out: Table, i: nat, name: Column)
    requires WellFormed(t) && Drop(t, names) == Success(out)
    requires i < |t.rows| && name in t.columns && name !in names
    ensures i < |out.rows| && name in out.columns && out.rows[i][name] == t.rows[i][name]
  {
    assert name in Without(t.columns, names);
  }

  /** Upper-casing one column upper-cases that column's cell and keeps every other. */
  lemma UpperKeepsCell(t: Table, col: Column, out: Table, i: nat, name: Column)
    requires WellFormed(t) && UpperCaseColumn(t, col) == Success(out)
    requires i < |t.rows| && name in t.columns
    ensures i < |out.rows|
    ensures out.rows[i][name] == if name == col then UpperCell(t.rows[i][name]) else t.rows[i][name]
  {
  }

  /** A left cell of a join with unique right keys survives a second such join, the drop and the upper-casing. */
  lemma LeftCellSurvives(se: Table, st: Table, c: Table, skey: Column, pkey: Column, dropped: seq<Column>, upper: Column,
                         j1: Table, j2: Table, d: Table, out: Table, i: nat, name: Column)
    requires WellFormed(se) && WellFormed(st) && WellFormed(c)
    requires UniqueKey(st.rows, skey) && UniqueKey(c.rows, pkey)
    requires LeftJoin(se, st, skey) == Success(j1)
    requires LeftJoin(j1, c, pkey) == Success(j2)
    requires Drop(j2, dropped) == Success(d)
    requires UpperCaseColumn(d, upper) == Success(out)
    requires i < |j1.rows| && |j1.rows| == |se.rows| && name in j1.columns && name !in dropped
    ensures i < |out.rows| && name in out.rows[i] && name in j1.rows[i]
    ensures out.rows[i][name] == if name == upper then UpperCell(j1.rows[i][name]) else j1.rows[i][name]
  {
    JoinKeepsLeftCell(j1, c, pkey, j2, i, name);
    DropKeepsCell(j2, dropped, d, i, name);
    UpperKeepsCell(d, upper, out, i, name);
  }

  /** A right column's cell after a left join on a key unique on the right is the matched row's cell. */
  lemma JoinRightCell(left: Table, right: Table, key: Column, out: Table, i: nat, col: Column)
    requires WellFormed(left) && WellFormed(right) && UniqueKey(right.rows, key)
    requires LeftJoin(left, right, key) == Success(out)
    requires i < |left.rows| && col in RightRest(right.columns, key)
    ensures i < |out.rows| && OutName(col, left.columns) in out.columns
    ensures out.rows[i][OutName(col, left.columns)] == CellOf(Match(left.rows[i], right.rows, key), col)
  {
    JoinRowsUnique(left.rows, right.rows, right.columns, key, left.columns);
    UniqueJoinRowsIndex(left.rows, right.rows, right.columns, key, left.columns);
    JoinedRowRight(left.rows[i], Match(left.rows[i], right.rows, key), right.columns, key, left.columns);
    var k :| 0 <= k < |RightRest(right.columns, key)| && RightRest(right.columns, key)[k] == col;
    assert out.columns[|left.columns| + k] == OutName(col, left.columns);
  }

  /** The row count of the join-drop-upper tail, given unique right keys. */
  lemma MergeTailRows(se: Table, st: Table, c: Table, skey: Column, pkey: Column, dropped: seq<Column>, upper: Column,
                      j1: Table, j2: Table, d: Table, out: Table)
    requires WellFormed(se) && WellFormed(st) && WellFormed(c)
    requires UniqueKey(st.rows, skey) && UniqueKey(c.rows, pkey)
    requires LeftJoin(se, st, skey) == Success(j1)
    requires LeftJoin(j1, c, pkey) == Success(j2)
    requires Drop(j2, dropped) == Success(d)
    requires UpperCaseColumn(d, upper) == Success(out)
    ensures |j1.rows| == |se.rows| && |out.rows| == |se.rows|
  {
    LeftJoinKeepsRows(se, st, skey);
    LeftJoinKeepsRows(j1, c, pkey);
  }

  /** In the join-drop-upper tail, a surviving study column holds the joined study's cell. */
  lemma MergeTailStudy(se: Table, st: Table, c: Table, skey: Column, pkey: Column, dropped: seq<Column>, upper: Column,
                       j1: Table, j2: Table, d: Table, out: Table, i: nat, col: Column)
    requires WellFormed(se) && WellFormed(st) && WellFormed(c)
    requires UniqueKey(st.rows, skey) && UniqueKey(c.rows, pkey)
    requires LeftJoin(se, st, skey) == Success(j1)
    requires LeftJoin(j1, c, pkey) == Success(j2)
    requires Drop(j2, dropped) == Success(d)
    requires UpperCaseColumn(d, upper) == Success(out)
    requires i < |se.rows| && col in RightRest(st.columns, skey)
    requires OutName(col, se.columns) !in dropped && OutName(col, se.columns) != upper
    ensures i < |out.rows| && OutName(col, se.columns) in out.rows[i]
    ensures out.rows[i][OutName(col, se.columns)] == CellOf(Match(se.rows[i], st.rows, skey), col)
  {
    MergeTailRows(se, st, c, skey, pkey, dropped, upper, j1, j2, d, out);
    JoinRightCell(se, st, skey, j1, i, col);
    LeftCellSurvives(se, st, c, skey, pkey, dropped, upper, j1, j2, d, out, i, OutName(col, se.columns));
  }

  /**
    In the join-drop-upper tail, a surviving case column holds the cell of the
    case whose patient key equals the left row's.
  */
  lemma MergeTailCase(se: Table, st: Table, c: Table, skey: Column, pkey: Column, dropped: seq<Column>, upper: Column,
                      j1: Table, j2: Table, d: Table, out: Table, i: nat, col: Column)
    requires WellFormed(se) && WellFormed(st) && WellFormed(c)
    requires UniqueKey(st.rows, skey) && UniqueKey(c.rows, pkey)
    requires LeftJoin(se, st, skey) == Success(j1)
    requires LeftJoin(j1, c, pkey) == Success(j2)
    requires Drop(j2, dropped) == Success(d)
    requires UpperCaseColumn(d, upper) == Success(out)
    requires i < |se.rows| && pkey in se.columns && col in RightRest(c.columns, pkey)
    requires OutName(col, j1.columns) !in dropped && OutName(col, j1.columns) != upper
    ensures i < |out.rows| && OutName(col, j1.columns) in out.rows[i]
    ensures out.rows[i][OutName(col, j1.columns)] == CellOf(Match(se.rows[i], c.rows, pkey), col)
  {
    var name := OutName(col, j1.columns);
    MergeTailRows(se, st, c, skey, pkey, dropped, upper, j1, j2, d, out);
    JoinKeepsLeftCell(se, st, skey, j1, i, pkey);
    assert se.rows[i].Keys == ColumnSet(se.columns) && j1.rows[i].Keys == ColumnSet(j1.columns);
    MatchesByKey(j1.rows[i], se.rows[i], c.rows, pkey);
    JoinRightCell(j1, c, pkey, j2, i, col);
    DropKeepsCell(j2, dropped, d, i, name);
    UpperKeepsCell(d, upper, out, i, name);
  }

  /** The intermediate tables of a merge that succeeds. */
  lemma MergeSteps(cases: Table, studies: Table, series: Table) returns (c: Table, st: Table, se: Table, j1: Table, j2: Table, d: Table)
    requires WellFormed(cases) && WellFormed(studies) && WellFormed(series)
    requires LoadMetadata(cases, studies, series).Success?
    ensures Rename(cases, CaseRenames) == Success(c)
    ensures Rename(studies, StudyRenames) == Success(st)
    ensures Rename(series, SeriesRenames) == Success(se)
    ensures LeftJoin(se, st, StudyKey) == Success(j1)
    ensures LeftJoin(j1, c, PatientKey) == Success(j2)
    ensures Drop(j2, Redundant) == Success(d)
    ensures UpperCaseColumn(d, Manufacturer) == LoadMetadata(cases, studies, series)
  {
    c := Rename(cases, CaseRenames).value;
    st := Rename(studies, StudyRenames).value;
    se := Rename(series, SeriesRenames).value;
    j1 := LeftJoin(se, st, StudyKey).value;
    j2 := LeftJoin(j1, c, PatientKey).value;
    d := Drop(j2, Redundant).value;
  }

  /** Column `k` of a renamed table is the renamed name of column `k`, with the same cells. */
  lemma RenameCell(t: Table, m: RenameMap, out: Table, i: nat, k: nat)
    requires WellFormed(t) && Rename(t, m) == Success(out)
    requires i < |t.rows| && k < |t.columns|
    ensures out.columns[k] == RenamedColumns(t.columns, m)[k] && out.columns[k] in out.columns
    ensures out.rows[i][out.columns[k]] == t.rows[i][t.columns[k]]
  {
  }

  /** Whether a column of the merged table is neither dropped nor the upper-cased one. */
  predicate PassesThrough(c: Column) {
    c !in Redundant && c != Manufacturer
  }

  /** Source-side uniqueness of `submitter_id` makes the renamed join keys unique. */
  lemma RenamedKeysUnique(cases: Table, studies: Table, c: Table, st: Table)
    requires WellFormed(cases) && WellFormed(studies)
    requires Rename(cases, CaseRenames) == Success(c) && Rename(studies, StudyRenames) == Success(st)
    requires "submitter_id" in studies.columns && UniqueKey(studies.rows, "submitter_id")
    requires "submitter_id" in cases.columns && UniqueKey(cases.rows, "submitter_id")
    ensures UniqueKey(st.rows, StudyKey) && UniqueKey(c.rows, PatientKey)
  {
    RenameKeepsUniqueKey(studies, StudyRenames, "submitter_id");
    assert Renamed("submitter_id", StudyRenames) == StudyKey;
    RenameKeepsUniqueKey(cases, CaseRenames, "submitter_id");
    assert Renamed("submitter_id", CaseRenames) == PatientKey;
  }

  /**
    With the study key unique in studies and the patient key unique in cases,
    the merge has exactly one row per series row, in series order.
  */
  lemma LoadMetadataOneRowPerSeries(cases: Table, studies: Table, series: Table)
    requires WellFormed(cases) && WellFormed(studies) && WellFormed(series)
    requires LoadMetadata(cases, studies, series).Success?
    requires "submitter_id" in studies.columns && UniqueKey(studies.rows, "submitter_id")
    requires "submitter_id" in cases.columns && UniqueKey(cases.rows, "submitter_id")
    ensures |LoadMetadata(cases, studies, series).value.rows| == |series.rows|
  {
    var c, st, se, j1, j2, d := MergeSteps(cases, studies, series);
    RenamedKeysUnique(cases, studies, c, st);
    MergeTailRows(se, st, c, StudyKey, PatientKey, Redundant, Manufacturer, j1, j2, d, LoadMetadata(cases, studies, series).value);
  }

  /**
    Under the same uniqueness, series cell `k` of row `i`, unless its renamed
    column is dropped, keeps its value in row `i` of the merge under its
    renamed name; in the manufacturer column it is upper-cased.
  */
  lemma LoadMetadataKeepsSeries(cases: Table, studies: Table, series: Table, i: nat, k: nat)
    requires WellFormed(cases) && WellFormed(studies) && WellFormed(series)
    requires LoadMetadata(cases, studies, series).Success?
    requires "submitter_id" in studies.columns && UniqueKey(studies.rows, "submitter_id")
    requires "submitter_id" in cases.columns && UniqueKey(cases.rows, "submitter_id")
    requires i < |series.rows| && k < |series.columns|
    requires RenamedColumns(series.columns, SeriesRenames)[k] !in Redundant
    ensures var out := LoadMetadata(cases, studies, series).value;
      var name := RenamedColumns(series.columns, SeriesRenames)[k];
      i < |out.rows| && name in out.rows[i] &&
      out.rows[i][name] == if name == Manufacturer then UpperCell(series.rows[i][series.columns[k]])
                           else series.rows[i][series.columns[k]]
  {
    var c, st, se, j1, j2, d := MergeSteps(cases, studies, series);
    RenamedKeysUnique(cases, studies, c, st);
    RenameCell(series, SeriesRenames, se, i, k);
    JoinKeepsLeftCell(se, st, StudyKey, j1, i, se.columns[k]);
    MergeTailRows(se, st, c, StudyKey, PatientKey, Redundant, Manufacturer, j1, j2, d, LoadMetadata(cases, studies, series).value);
    LeftCellSurvives(se, st, c, StudyKey, PatientKey, Redundant, Manufacturer, j1, j2, d, LoadMetadata(cases, studies, series).value, i, se.columns[k]);
  }

  /**
    Under the same uniqueness, each study column that is not dropped holds, in
    the row of each series, the cell of the study that series belongs to, or
    null when the study table has no such study.
  */
  lemma LoadMetadataJoinsStudy(cases: Table, studies: Table, series: Table, i: nat, col: Column)
    requires WellFormed(cases) && WellFormed(studies) && WellFormed(series)
    requires LoadMetadata(cases, studies, series).Success?
    requires "submitter_id" in studies.columns && UniqueKey(studies.rows, "submitter_id")
    requires "submitter_id" in cases.columns && UniqueKey(cases.rows, "submitter_id")
    requires i < |series.rows| && col in RightRest(Rename(studies, StudyRenames).value.columns, StudyKey)
    requires PassesThrough(OutName(col, Rename(series, SeriesRenames).value.columns))
    ensures var out := LoadMetadata(cases, studies, series).value;
      var se := Rename(series, SeriesRenames).value;
      var st := Rename(studies, StudyRenames).value;
      var name := OutName(col, se.columns);
      i < |out.rows| && name in out.rows[i] && out.rows[i][name] == CellOf(Match(se.rows[i], st.rows, StudyKey), col)
  {
    var c, st, se, j1, j2, d := MergeSteps(cases, studies, series);
    RenamedKeysUnique(cases, studies, c, st);
    MergeTailStudy(se, st, c, StudyKey, PatientKey, Redundant, Manufacturer, j1, j2, d, LoadMetadata(cases, studies, series).value, i, col);
  }

  /**
    Under the same uniqueness, each case column that is not dropped holds, in
    the row of each series, the cell of the patient that series belongs to, or
    null when the case table has no such patient.
  */
  lemma LoadMetadataJoinsCase(cases: Table, studies: Table, series: Table, i: nat, col: Column)
    requires WellFormed(cases) && WellFormed(studies) && WellFormed(series)
    requires LoadMetadata(cases, studies, series).Success?
    requires "submitter_id" in studies.columns && UniqueKey(studies.rows, "submitter_id")
    requires "submitter_id" in cases.columns && UniqueKey(cases.rows, "submitter_id")
    requires i < |series.rows| && col in RightRest(Rename(cases, CaseRenames).value.columns, PatientKey)
    requires PassesThrough(OutName(col, JoinColumns(Rename(series, SeriesRenames).value.columns,
                                                    Rename(studies, StudyRenames).value.columns, StudyKey)))
    ensures var out := LoadMetadata(cases, studies, series).value;
      var se := Rename(series, SeriesRenames).value;
      var c := Rename(cases, CaseRenames).value;
      var name := OutName(col, JoinColumns(se.columns, Rename(studies, StudyRenames).value.columns, StudyKey));
      i < |out.rows| && name in out.rows[i] && out.rows[i][name] == CellOf(Match(se.rows[i], c.rows, PatientKey), col)
  {
    var c, st, se, j1, j2, d := MergeSteps(cases, studies, series);
    RenamedKeysUnique(cases, studies, c, st);
    SeriesRenamesDisambiguate(series);
    MergeTailCase(se, st, c, StudyKey, PatientKey, Redundant, Manufacturer, j1, j2, d, LoadMetadata(cases, studies, series).value, i, col);
  }
  /**
    What the merge makes of (renamed) series row `s`, whatever the keys: its
    own cells under their names, the manufacturer upper-cased, each study
    column the cell of the first study it joins, and each case column the cell
    of the first case with its patient key, null where there is none. Dropped
    columns are not constrained.
  */
  predicate MergedFrom(o: Row, s: Row, se: Table, st: Table, c: Table) {
    var studyCols := JoinColumns(se.columns, st.columns, StudyKey);
    && (forall n | n in se.columns && PassesThrough(n) :: n in o && n in s && o[n] == s[n])
    && (Manufacturer in se.columns ==> Manufacturer in o && Manufacturer in s && o[Manufacturer] == UpperCell(s[Manufacturer]))
    && (forall col | col in RightRest(st.columns, StudyKey) && PassesThrough(OutName(col, se.columns)) ::
          OutName(col, se.columns) in o && o[OutName(col, se.columns)] == CellOf(Match(s, st.rows, StudyKey), col))
    && (forall col | col in RightRest(c.columns, PatientKey) && PassesThrough(OutName(col, studyCols)) ::
          OutName(col, studyCols) in o && o[OutName(col, studyCols)] == CellOf(Match(s, c.rows, PatientKey), col))
  }

  /** A column of the second join's result that is not dropped reaches row `b` of the merge, upper-cased if it is the manufacturer. */
  lemma TailKeepsCell(j2: Table, d: Table, out: Table, b: nat, name: Column)
    requires WellFormed(j2) && Drop(j2, Redundant) == Success(d) && UpperCaseColumn(d, Manufacturer) == Success(out)
    requires b < |j2.rows| && name in j2.columns && name !in Redundant
    ensures b < |out.rows| && name in out.rows[b] && name in j2.rows[b]
    ensures out.rows[b][name] == if name == Manufacturer then UpperCell(j2.rows[b][name]) else j2.rows[b][name]
  {
    DropKeepsCell(j2, Redundant, d, b, name);
    UpperKeepsCell(d, Manufacturer, out, b, name);
  }

  /** Row `r` of the second join carries series row `s`'s cells and its study's and patient's cells. */
  predicate JoinedTwiceFrom(r: Row, s: Row, se: Table, st: Table, c: Table) {
    var studyCols := JoinColumns(se.columns, st.columns, StudyKey);
    && (forall n | n in se.columns :: n in r && n in s && r[n] == s[n])
    && (forall col | col in RightRest(st.columns, StudyKey) ::
          OutName(col, se.columns) in r && r[OutName(col, se.columns)] == CellOf(Match(s, st.rows, StudyKey), col))
    && (forall col | col in RightRest(c.columns, PatientKey) ::
          OutName(col, studyCols) in r && r[OutName(col, studyCols)] == CellOf(Match(s, c.rows, PatientKey), col))
  }

  /** Chaining the two joins row by row: the patient key is a series column, so the case match is the series row's. */
  lemma JoinTwice(r2: Row, r1: Row, s: Row, se: Table, st: Table, c: Table)
    requires PatientKey in se.columns
    requires JoinedFrom(r1, s, st, StudyKey, se.columns)
    requires JoinedFrom(r2, r1, c, PatientKey, JoinColumns(se.columns, st.columns, StudyKey))
    ensures JoinedTwiceFrom(r2, s, se, st, c)
  {
    var studyCols := JoinColumns(se.columns, st.columns, StudyKey);
    assert forall n | n in se.columns :: n in studyCols;
    assert forall col | col in RightRest(st.columns, StudyKey) :: OutName(col, se.columns) in studyCols;
    assert KeyCell(r1, PatientKey) == KeyCell(s, PatientKey);
    MatchesByKey(r1, s, c.rows, PatientKey);
  }

  /** The series cells of a twice-joined row reach the merge, the manufacturer upper-cased. */
  lemma TailSeriesCells(se: Table, st: Table, c: Table, j2: Table, d: Table, out: Table, s: Row, b: nat)
    requires WellFormed(j2) && Drop(j2, Redundant) == Success(d) && UpperCaseColumn(d, Manufacturer) == Success(out)
    requires b < |j2.rows| && JoinedTwiceFrom(j2.rows[b], s, se, st, c)
    ensures b < |out.rows|
    ensures forall n | n in se.columns && PassesThrough(n) :: n in out.rows[b] && n in s && out.rows[b][n] == s[n]
    ensures Manufacturer in se.columns ==>
              Manufacturer in out.rows[b] && Manufacturer in s && out.rows[b][Manufacturer] == UpperCell(s[Manufacturer])
  {
    var r := j2.rows[b];
    assert r.Keys == ColumnSet(j2.columns);
    forall n | n in se.columns && PassesThrough(n) ensures n in out.rows[b] && n in s && out.rows[b][n] == s[n] {
      TailKeepsCell(j2, d, out, b, n);
    }
    if Manufacturer in se.columns {
      TailKeepsCell(j2, d, out, b, Manufacturer);
    }
  }

  /** The study cells of a twice-joined row reach the merge unless dropped. */
  lemma TailStudyCells(se: Table, st: Table, c: Table, j2: Table, d: Table, out: Table, s: Row, b: nat)
    requires WellFormed(j2) && Drop(j2, Redundant) == Success(d) && UpperCaseColumn(d, Manufacturer) == Success(out)
    requires b < |j2.rows| && JoinedTwiceFrom(j2.rows[b], s, se, st, c)
    ensures b < |out.rows|
    ensures forall col | col in RightRest(st.columns, StudyKey) && PassesThrough(OutName(col, se.columns)) ::
              OutName(col, se.columns) in out.rows[b] &&
              out.rows[b][OutName(col, se.columns)] == CellOf(Match(s, st.rows, StudyKey), col)
  {
    var r := j2.rows[b];
    assert r.Keys == ColumnSet(j2.columns);
    forall col | col in RightRest(st.columns, StudyKey) && PassesThrough(OutName(col, se.columns))
      ensures OutName(col, se.columns) in out.rows[b] &&
              out.rows[b][OutName(col, se.columns)] == CellOf(Match(s, st.rows, StudyKey), col)
    {
      TailKeepsCell(j2, d, out, b, OutName(col, se.columns));
    }
  }

  /** The case cells of a twice-joined row reach the merge unless dropped. */
  lemma TailCaseCells(se: Table, st: Table, c: Table, j2: Table, d: Table, out: Table, s: Row, b: nat)
    requires WellFormed(j2) && Drop(j2, Redundant) == Success(d) && UpperCaseColumn(d, Manufacturer) == Success(out)
    requires b < |j2.rows| && JoinedTwiceFrom(j2.rows[b], s, se, st, c)
    ensures b < |out.rows|
    ensures var studyCols := JoinColumns(se.columns, st.columns, StudyKey);
      forall col | col in RightRest(c.columns, PatientKey) && PassesThrough(OutName(col, studyCols)) ::
        OutName(col, studyCols) in out.rows[b] &&
        out.rows[b][OutName(col, studyCols)] == CellOf(Match(s, c.rows, PatientKey), col)
  {
    var r := j2.rows[b];
    var studyCols := JoinColumns(se.columns, st.columns, StudyKey);
    assert r.Keys == ColumnSet(j2.columns);
    forall col | col in RightRest(c.columns, PatientKey) && PassesThrough(OutName(col, studyCols))
      ensures OutName(col, studyCols) in out.rows[b] &&
              out.rows[b][OutName(col, studyCols)] == CellOf(Match(s, c.rows, PatientKey), col)
    {
      TailKeepsCell(j2, d, out, b, OutName(col, studyCols));
    }
  }

  /** The join-drop-upper tail keeps every series row, whatever the keys. */
  lemma MergeTailCovers(se: Table, st: Table, c: Table, j1: Table, j2: Table, d: Table, out: Table, i: nat)
    requires WellFormed(se) && WellFormed(st) && WellFormed(c)
    requires LeftJoin(se, st, StudyKey) == Success(j1)
    requires LeftJoin(j1, c, PatientKey) == Success(j2)
    requires Drop(j2, Redundant) == Success(d)
    requires UpperCaseColumn(d, Manufacturer) == Success(out)
    requires PatientKey in se.columns && i < |se.rows|
    ensures exists b | 0 <= b < |out.rows| :: MergedFrom(out.rows[b], se.rows[i], se, st, c)
  {
    var s := se.rows[i];
    LeftJoinKeepsEveryRow(se, st, StudyKey, i);
    var a :| 0 <= a < |j1.rows| && JoinedFrom(j1.rows[a], s, st, StudyKey, se.columns);
    LeftJoinKeepsEveryRow(j1, c, PatientKey, a);
    var b :| 0 <= b < |j2.rows| && JoinedFrom(j2.rows[b], j1.rows[a], c, PatientKey, j1.columns);
    JoinTwice(j2.rows[b], j1.rows[a], s, se, st, c);
    TailSeriesCells(se, st, c, j2, d, out, s, b);
    TailStudyCells(se, st, c, j2, d, out, s, b);
    TailCaseCells(se, st, c, j2, d, out, s, b);
    assert MergedFrom(out.rows[b], s, se, st, c);
  }
  /**
    Whatever the keys, no series row is lost: the merge has a row made from
    each one, holding its own cells and its study's and patient's cells, or
    nulls where the study or the patient is missing.
  */
  lemma LoadMetadataCoversSeries(cases: Table, studies: Table, series: Table, i: nat)
    requires WellFormed(cases) && WellFormed(studies) && WellFormed(series)
    requires LoadMetadata(cases, studies, series).Success?
    requires i < |series.rows|
    ensures var out := LoadMetadata(cases, studies, series).value;
      var se := Rename(series, SeriesRenames).value;
      i < |se.rows| &&
      exists b | 0 <= b < |out.rows| ::
        MergedFrom(out.rows[b], se.rows[i], se, Rename(studies, StudyRenames).value, Rename(cases, CaseRenames).value)
  {
    var c, st, se, j1, j2, d := MergeSteps(cases, studies, series);
    SeriesRenamesDisambiguate(series);
    MergeTailCovers(se, st, c, j1, j2, d, LoadMetadata(cases, studies, series).value, i);
  }

  /**
    A series row whose study is not in the study table and whose patient is
    not in the case table is still in the merge, with its own cells and null
    in every study and case column.
  */
  lemma LoadMetadataUnmatchedSeries(cases: Table, studies: Table, series: Table, i: nat)
    requires WellFormed(cases) && WellFormed(studies) && WellFormed(series)
    requires LoadMetadata(cases, studies, series).Success?
    requires i < |series.rows|
    requires forall r | r in Rename(studies, StudyRenames).value.rows ::
               !Joins(Rename(series, SeriesRenames).value.rows[i], r, StudyKey)
    requires forall r | r in Rename(cases, CaseRenames).value.rows ::
               !Joins(Rename(series, SeriesRenames).value.rows[i], r, PatientKey)
    ensures var out := LoadMetadata(cases, studies, series).value;
      var se, st, c := Rename(series, SeriesRenames).value, Rename(studies, StudyRenames).value, Rename(cases, CaseRenames).value;
      var studyCols := JoinColumns(se.columns, st.columns, StudyKey);
      exists b | 0 <= b < |out.rows| ::
        && MergedFrom(out.rows[b], se.rows[i], se, st, c)
        && (forall col | col in RightRest(st.columns, StudyKey) && PassesThrough(OutName(col, se.columns)) ::
              OutName(col, se.columns) in out.rows[b] && out.rows[b][OutName(col, se.columns)].None?)
        && (forall col | col in RightRest(c.columns, PatientKey) && PassesThrough(OutName(col, studyCols)) ::
              OutName(col, studyCols) in out.rows[b] && out.rows[b][OutName(col, studyCols)].None?)
  {
    var out := LoadMetadata(cases, studies, series).value;
    var se, st, c := Rename(series, SeriesRenames).value, Rename(studies, StudyRenames).value, Rename(cases, CaseRenames).value;
    LoadMetadataCoversSeries(cases, studies, series, i);
    var b :| 0 <= b < |out.rows| && MergedFrom(out.rows[b], se.rows[i], se, st, c);
    NoMatch(se.rows[i], st.rows, StudyKey);
    NoMatch(se.rows[i], c.rows, PatientKey);
    UnmatchedMerged(out.rows[b], se.rows[i], se, st, c);
  }

  /** A merged row whose series row matched no study and no case has null in every study and case column. */
  lemma UnmatchedMerged(o: Row, s: Row, se: Table, st: Table, c: Table)
    requires MergedFrom(o, s, se, st, c)
    requires Match(s, st.rows, StudyKey) == None && Match(s, c.rows, PatientKey) == None
    ensures var studyCols := JoinColumns(se.columns, st.columns, StudyKey);
      && (forall col | col in RightRest(st.columns, StudyKey) && PassesThrough(OutName(col, se.columns)) ::
            OutName(col, se.columns) in o && o[OutName(col, se.columns)].None?)
      && (forall col | col in RightRest(c.columns, PatientKey) && PassesThrough(OutName(col, studyCols)) ::
            OutName(col, studyCols) in o && o[OutName(col, studyCols)].None?)
  {
  }

  lemma NoMatch(l: Row, rs: seq<Row>, key: Column)
    requires forall r | r in rs :: !Joins(l, r, key)
    ensures Match(l, rs, key) == None
  {
    forall k | 0 <= k < |rs| ensures !Joins(l, rs[k], key) {
      assert rs[k] in rs;
    }
  }
}
