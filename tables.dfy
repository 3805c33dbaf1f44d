/**
  Tables of named columns and the relational operations that `load_metadata`
  chains together: rename, left join, drop, and upper-casing one text column.
  A table has a header (its column names, in order) and rows; every row maps
  each column of its table to a cell, a null cell being `None`.
*/
module Tables {
  import opened Wrappers
  import opened Strings

  type Column = string

  datatype Value = Text(text: string) | Integer(i: int) | Number(x: real)

  type Cell = Option<Value>

  type Row = map<Column, Cell>

  datatype Table = Table(columns: seq<Column>, rows: seq<Row>)

  /** The schema errors the relational operations raise. */
  datatype SchemaError =
    | ColumnNotFound(column: Column)
    | DuplicateColumn(column: Column)
    | InvalidType(column: Column)

  predicate Distinct(cs: seq<Column>) {
    forall i, j | 0 <= i < j < |cs| :: cs[i] != cs[j]
  }

  function ColumnSet(cs: seq<Column>): set<Column> {
    set c | c in cs
  }

  /** A table whose header has no repeated name and whose rows have exactly its columns. */
  predicate WellFormed(t: Table) {
    && Distinct(t.columns)
    && forall i | 0 <= i < |t.rows| :: t.rows[i].Keys == ColumnSet(t.columns)
  }

  /** The first of `names` that is not among `cs`, if any. */
  function FirstMissing(names: seq<Column>, cs: seq<Column>): (r: Option<Column>)
    ensures r.None? <==> forall n | n in names :: n in cs
    ensures r.Some? ==> r.value in names && r.value !in cs
  {
    if names == [] then None
    else if names[0] !in cs then Some(names[0])
    else FirstMissing(names[1..], cs)
  }

  /** The first name of `cs` that occurs again later in `cs`, if any. */
  function FirstDuplicate(cs: seq<Column>): (r: Option<Column>)
    ensures r.None? <==> Distinct(cs)
    ensures r.Some? ==> exists i, j | 0 <= i < j < |cs| :: cs[i] == r.value && cs[j] == r.value
  {
    if cs == [] then None
    else if cs[0] in cs[1..] then
      var k :| 0 <= k < |cs[1..]| && cs[1..][k] == cs[0];
      assert cs[k + 1] == cs[0];
      Some(cs[0])
    else
      var r := FirstDuplicate(cs[1..]);
      assert r.None? ==> Distinct(cs) by {
        if r.None? {
          forall i, j | 0 <= i < j < |cs| ensures cs[i] != cs[j] {
            if i > 0 {
              assert cs[i] == cs[1..][i - 1] && cs[j] == cs[1..][j - 1];
            } else {
              assert cs[j] == cs[1..][j - 1];
            }
          }
        }
      }
      assert r.Some? ==> exists i, j | 0 <= i < j < |cs| :: cs[i] == r.value && cs[j] == r.value by {
        if r.Some? {
          var i, j :| 0 <= i < j < |cs[1..]| && cs[1..][i] == r.value && cs[1..][j] == r.value;
          assert cs[i + 1] == r.value && cs[j + 1] == r.value;
        }
      }
      r
  }

  /** `cs` without the names in `drop`, order kept. */
  function Without(cs: seq<Column>, drop: seq<Column>): (r: seq<Column>)
    ensures forall c :: c in r <==> c in cs && c !in drop
    ensures Distinct(cs) ==> Distinct(r)
  {
    if cs == [] then []
    else
      var rest := Without(cs[1..], drop);
      assert Distinct(cs) ==> Distinct(cs[1..]) by {
        if Distinct(cs) {
          forall i, j | 0 <= i < j < |cs[1..]| ensures cs[1..][i] != cs[1..][j] {
            assert cs[1..][i] == cs[i + 1] && cs[1..][j] == cs[j + 1];
          }
        }
      }
      if cs[0] in drop then rest
      else
        assert Distinct(cs) ==> Distinct([cs[0]] + rest) by {
          if Distinct(cs) {
            forall k | 0 <= k < |cs[1..]| ensures cs[1..][k] != cs[0] {
              assert cs[1..][k] == cs[k + 1];
            }
            assert cs[0] !in rest;
            forall i, j | 0 <= i < j < |[cs[0]] + rest| ensures ([cs[0]] + rest)[i] != ([cs[0]] + rest)[j] {
              if i == 0 {
                assert ([cs[0]] + rest)[j] == rest[j - 1];
              } else {
                assert ([cs[0]] + rest)[i] == rest[i - 1] && ([cs[0]] + rest)[j] == rest[j - 1];
              }
            }
          }
        }
        [cs[0]] + rest
  }

  // ---------------------------------------------------------------------------
  // Rename

  /** A rename map: the ordered `{old: new}` pairs handed to polars' `rename`. */
  type RenameMap = seq<(Column, Column)>

  function Sources(m: RenameMap): seq<Column> {
    seq(|m|, i requires 0 <= i < |m| => m[i].0)
  }

  function Targets(m: RenameMap): seq<Column> {
    seq(|m|, i requires 0 <= i < |m| => m[i].1)
  }

  /** The name that column `c` carries after renaming with `m`. */
  function Renamed(c: Column, m: RenameMap): Column {
    if m == [] then c else if m[0].0 == c then m[0].1 else Renamed(c, m[1..])
  }

  function RenamedColumns(cs: seq<Column>, m: RenameMap): seq<Column> {
    seq(|cs|, i requires 0 <= i < |cs| => Renamed(cs[i], m))
  }

  function RenameRows(rows: seq<Row>, cs: seq<Column>, names: seq<Column>): (r: seq<Row>)
    requires |names| == |cs|
    ensures |r| == |rows|
  {
    seq(|rows|, i requires 0 <= i < |rows| => Relabel(cs, names, Some(rows[i])))
  }

  /**
    Polars' `rename`: every old name must be a column, the renamed header must
    have no repeats, and each cell keeps its value under the column's new name.
  */
  function Rename(t: Table, m: RenameMap): (r: Result<Table, SchemaError>)
    requires WellFormed(t)
    ensures r.Success? <==> (forall s | s in Sources(m) :: s in t.columns) && Distinct(RenamedColumns(t.columns, m))
    ensures (exists s | s in Sources(m) :: s !in t.columns) ==>
              r.Failure? && r.error.ColumnNotFound? && r.error.column in Sources(m) && r.error.column !in t.columns
    ensures r.Success? ==>
              && WellFormed(r.value)
              && r.value.columns == RenamedColumns(t.columns, m)
              && |r.value.rows| == |t.rows|
    ensures r.Success? ==>
              forall i, k | 0 <= i < |t.rows| && 0 <= k < |t.columns| ::
                r.value.rows[i][r.value.columns[k]] == t.rows[i][t.columns[k]]
  {
    match FirstMissing(Sources(m), t.columns)
    case Some(c) => Failure(ColumnNotFound(c))
    case None =>
      var cols := RenamedColumns(t.columns, m);
      match FirstDuplicate(cols)
      case Some(c) => Failure(DuplicateColumn(c))
      case None =>
        RenameRowsFacts(t, cols);
        Success(Table(cols, RenameRows(t.rows, t.columns, cols)))
  }

  lemma {:induction false} RenamedIsTargetOrSelf(c: Column, m: RenameMap)
    ensures Renamed(c, m) == c || Renamed(c, m) in Targets(m)
    ensures c in Sources(m) ==> Renamed(c, m) in Targets(m)
  {
    if m != [] {
      RenamedIsTargetOrSelf(c, m[1..]);
      assert Targets(m) == [m[0].1] + Targets(m[1..]);
      assert Sources(m) == [m[0].0] + Sources(m[1..]);
    }
  }

  /** A pair whose old name no earlier pair has renames that name. */
  lemma {:induction false} RenamedPair(m: RenameMap, k: nat)
    requires k < |m| && Distinct(Sources(m))
    ensures Renamed(m[k].0, m) == m[k].1
  {
    if k > 0 {
      assert Sources(m)[0] != Sources(m)[k];
      assert Distinct(Sources(m[1..])) by {
        forall i, j | 0 <= i < j < |m| - 1 ensures Sources(m[1..])[i] != Sources(m[1..])[j] {
          assert Sources(m)[i + 1] != Sources(m)[j + 1];
        }
      }
      RenamedPair(m[1..], k - 1);
    }
  }

  /** After a rename, an old name that is not also a new name is no longer a column. */
  lemma RenameRemovesSource(t: Table, m: RenameMap, s: Column)
    requires WellFormed(t) && Rename(t, m).Success?
    requires s in Sources(m) && s !in Targets(m)
    ensures s !in Rename(t, m).value.columns
  {
    var out := Rename(t, m).value;
    forall k | 0 <= k < |out.columns| ensures out.columns[k] != s {
      RenamedIsTargetOrSelf(t.columns[k], m);
    }
  }

  lemma RenameRowsFacts(t: Table, names: seq<Column>)
    requires WellFormed(t)
    requires |names| == |t.columns| && Distinct(names)
    ensures var rows := RenameRows(t.rows, t.columns, names);
      && (forall r | r in rows :: r.Keys == ColumnSet(names))
      && (forall i, k | 0 <= i < |t.rows| && 0 <= k < |t.columns| :: rows[i][names[k]] == t.rows[i][t.columns[k]])
  {
    var rows := RenameRows(t.rows, t.columns, names);
    forall i | 0 <= i < |t.rows|
      ensures rows[i].Keys == ColumnSet(names)
      ensures forall k | 0 <= k < |t.columns| :: rows[i][names[k]] == t.rows[i][t.columns[k]]
    {
      assert t.rows[i] in t.rows;
      RelabelFacts(t.columns, names, Some(t.rows[i]));
    }
  }

  // ---------------------------------------------------------------------------
  // Left join

  const RightSuffix: string := "_right"

  /** The output name of a right-side column: suffixed when the left side already has that name. */
  function OutName(c: Column, left: seq<Column>): Column {
    if c in left then c + RightSuffix else c
  }

  /** The right side's columns other than the key, in right-table order. */
  function RightRest(right: seq<Column>, key: Column): seq<Column> {
    Without(right, [key])
  }

  /** The output names of the columns `rest` of the right side. */
  function OutNames(rest: seq<Column>, left: seq<Column>): (r: seq<Column>)
    ensures |r| == |rest| && forall k | 0 <= k < |rest| :: r[k] == OutName(rest[k], left)
  {
    seq(|rest|, k requires 0 <= k < |rest| => OutName(rest[k], left))
  }

  /** The join's header: the left header, then the right side's other columns under their output names. */
  function JoinColumns(left: seq<Column>, right: seq<Column>, key: Column): seq<Column> {
    left + OutNames(RightRest(right, key), left)
  }

  lemma DistinctSplit(left: seq<Column>, outs: seq<Column>)
    requires Distinct(left + outs)
    ensures Distinct(outs)
    ensures forall k | 0 <= k < |outs| :: outs[k] !in left
  {
    var all := left + outs;
    forall i, j | 0 <= i < j < |outs| ensures outs[i] != outs[j] {
      assert all[|left| + i] == outs[i] && all[|left| + j] == outs[j];
    }
    forall k | 0 <= k < |outs| ensures outs[k] !in left {
      forall n | 0 <= n < |left| ensures left[n] != outs[k] {
        assert all[n] == left[n] && all[|left| + k] == outs[k];
      }
    }
  }

  function KeyCell(r: Row, key: Column): Cell {
    if key in r then r[key] else None
  }

  /** A right row joins a left row when the left key is not null and both keys are equal. */
  predicate Joins(l: Row, r: Row, key: Column) {
    KeyCell(l, key).Some? && KeyCell(r, key) == KeyCell(l, key)
  }

  /** The right rows that join `l`, in right-table order. */
  function Matches(l: Row, rs: seq<Row>, key: Column): (ms: seq<Row>)
    ensures forall r | r in ms :: r in rs && Joins(l, r, key)
    ensures forall r | r in rs && Joins(l, r, key) :: r in ms
    ensures (forall k | 0 <= k < |rs| :: !Joins(l, rs[k], key)) ==> ms == []
  {
    if rs == [] then []
    else (if Joins(l, rs[0], key) then [rs[0]] else []) + Matches(l, rs[1..], key)
  }

  /** Which right rows a left row matches depends on its key cell alone. */
  lemma {:induction false} MatchesByKey(a: Row, b: Row, rs: seq<Row>, key: Column)
    requires KeyCell(a, key) == KeyCell(b, key)
    ensures Matches(a, rs, key) == Matches(b, rs, key)
  {
    if rs != [] {
      MatchesByKey(a, b, rs[1..], key);
    }
  }

  function CellOf(matched: Option<Row>, c: Column): Cell {
    if matched.Some? && c in matched.value then matched.value[c] else None
  }

  /** The cells of `source` in columns `rest`, each under the matching name in `names`; nulls when there is no source row. */
  function Relabel(rest: seq<Column>, names: seq<Column>, matched: Option<Row>): Row
    requires |names| == |rest|
  {
    if rest == [] then map[]
    else
      var n := |rest| - 1;
      Relabel(rest[..n], names[..n], matched)[names[n] := CellOf(matched, rest[n])]
  }

  lemma {:induction false} RelabelFacts(rest: seq<Column>, names: seq<Column>, matched: Option<Row>)
    requires |names| == |rest|
    requires Distinct(names)
    ensures Relabel(rest, names, matched).Keys == ColumnSet(names)
    ensures forall k | 0 <= k < |rest| :: Relabel(rest, names, matched)[names[k]] == CellOf(matched, rest[k])
  {
    RelabelKeys(rest, names, matched);
    RelabelCells(rest, names, matched);
  }

  lemma {:induction false} RelabelKeys(rest: seq<Column>, names: seq<Column>, matched: Option<Row>)
    requires |names| == |rest|
    ensures Relabel(rest, names, matched).Keys == ColumnSet(names)
  {
    if rest != [] {
      var n := |rest| - 1;
      RelabelKeys(rest[..n], names[..n], matched);
      assert names == names[..n] + [names[n]];
      assert ColumnSet(names) == ColumnSet(names[..n]) + {names[n]};
    }
  }

  lemma DistinctPrefix(names: seq<Column>, n: nat)
    requires Distinct(names) && n <= |names|
    ensures Distinct(names[..n])
  {
    forall i, j | 0 <= i < j < n ensures names[..n][i] != names[..n][j] {
      assert names[..n][i] == names[i] && names[..n][j] == names[j];
    }
  }

  lemma {:induction false} RelabelCells(rest: seq<Column>, names: seq<Column>, matched: Option<Row>)
    requires |names| == |rest|
    requires Distinct(names)
    ensures forall k | 0 <= k < |rest| :: names[k] in Relabel(rest, names, matched) &&
                                           Relabel(rest, names, matched)[names[k]] == CellOf(matched, rest[k])
  {
    if rest != [] {
      var n := |rest| - 1;
      DistinctPrefix(names, n);
      RelabelCells(rest[..n], names[..n], matched);
      forall k | 0 <= k < n
        ensures names[k] in Relabel(rest, names, matched) && Relabel(rest, names, matched)[names[k]] == CellOf(matched, rest[k])
      {
        assert names[k] != names[n];
        assert names[..n][k] == names[k] && rest[..n][k] == rest[k];
      }
    }
  }

  /** The output row for left row `l` and the right row it matched, or nulls when none did. */
  function JoinedRow(l: Row, matched: Option<Row>, right: seq<Column>, key: Column, left: seq<Column>): Row {
    var rest := RightRest(right, key);
    l + Relabel(rest, OutNames(rest, left), matched)
  }

  /** The rows a left join emits for one left row: one per match, or one null-padded row. */
  function RowsFor(l: Row, rs: seq<Row>, right: seq<Column>, key: Column, left: seq<Column>): seq<Row> {
    var ms := Matches(l, rs, key);
    if ms == [] then [JoinedRow(l, None, right, key, left)]
    else seq(|ms|, i requires 0 <= i < |ms| => JoinedRow(l, Some(ms[i]), right, key, left))
  }

  function JoinRows(ls: seq<Row>, rs: seq<Row>, right: seq<Column>, key: Column, left: seq<Column>): seq<Row> {
    if ls == [] then [] else RowsFor(ls[0], rs, right, key, left) + JoinRows(ls[1..], rs, right, key, left)
  }

  lemma JoinedRowFacts(l: Row, matched: Option<Row>, right: seq<Column>, key: Column, left: seq<Column>)
    requires Distinct(JoinColumns(left, right, key))
    requires l.Keys == ColumnSet(left)
    ensures JoinedRow(l, matched, right, key, left).Keys == ColumnSet(JoinColumns(left, right, key))
    ensures forall c | c in left :: JoinedRow(l, matched, right, key, left)[c] == l[c]
    ensures forall c | c in RightRest(right, key) ::
              JoinedRow(l, matched, right, key, left)[OutName(c, left)] == CellOf(matched, c)
  {
    JoinedRowHeader(l, matched, right, key, left);
    JoinedRowRight(l, matched, right, key, left);
  }

  /** The joined row has exactly the join's columns and the left row's cells. */
  lemma JoinedRowHeader(l: Row, matched: Option<Row>, right: seq<Column>, key: Column, left: seq<Column>)
    requires Distinct(JoinColumns(left, right, key))
    requires l.Keys == ColumnSet(left)
    ensures JoinedRow(l, matched, right, key, left).Keys == ColumnSet(JoinColumns(left, right, key))
    ensures forall c | c in left :: JoinedRow(l, matched, right, key, left)[c] == l[c]
  {
    var rest := RightRest(right, key);
    var outs := OutNames(rest, left);
    DistinctSplit(left, outs);
    RelabelKeys(rest, outs, matched);
    JoinedRowKeys(l, Relabel(rest, outs, matched), left, outs);
  }

  /** Joining a row with relabelled right cells: the keys are the whole header, left cells untouched. */
  lemma JoinedRowKeys(l: Row, cells: Row, left: seq<Column>, outs: seq<Column>)
    requires l.Keys == ColumnSet(left) && cells.Keys == ColumnSet(outs)
    requires forall k | 0 <= k < |outs| :: outs[k] !in left
    ensures (l + cells).Keys == ColumnSet(left + outs)
    ensures forall c | c in left :: (l + cells)[c] == l[c]
  {
    assert ColumnSet(left + outs) == ColumnSet(left) + ColumnSet(outs);
    forall c | c in left ensures c !in cells {
      assert c !in ColumnSet(outs);
    }
  }

  lemma JoinedRowRight(l: Row, matched: Option<Row>, right: seq<Column>, key: Column, left: seq<Column>)
    requires Distinct(JoinColumns(left, right, key))
    ensures forall c | c in RightRest(right, key) ::
              OutName(c, left) in JoinedRow(l, matched, right, key, left) &&
              JoinedRow(l, matched, right, key, left)[OutName(c, left)] == CellOf(matched, c)
  {
    var rest := RightRest(right, key);
    var outs := OutNames(rest, left);
    DistinctSplit(left, outs);
    RelabelCells(rest, outs, matched);
    var cells := Relabel(rest, outs, matched);
    forall c | c in rest
      ensures OutName(c, left) in JoinedRow(l, matched, right, key, left) &&
              JoinedRow(l, matched, right, key, left)[OutName(c, left)] == CellOf(matched, c)
    {
      var k :| 0 <= k < |rest| && rest[k] == c;
      assert outs[k] == OutName(c, left) && outs[k] in cells;
    }
  }

  lemma {:induction false} JoinRowsWellFormed(ls: seq<Row>, rs: seq<Row>, right: seq<Column>, key: Column, left: seq<Column>)
    requires Distinct(JoinColumns(left, right, key))
    requires forall l | l in ls :: l.Keys == ColumnSet(left)
    ensures |JoinRows(ls, rs, right, key, left)| >= |ls|
    ensures forall r | r in JoinRows(ls, rs, right, key, left) :: r.Keys == ColumnSet(JoinColumns(left, right, key))
  {
    if ls != [] {
      JoinRowsWellFormed(ls[1..], rs, right, key, left);
      var ms := Matches(ls[0], rs, key);
      JoinedRowHeader(ls[0], None, right, key, left);
      forall i | 0 <= i < |ms| {
        JoinedRowHeader(ls[0], Some(ms[i]), right, key, left);
      }
    }
  }

  /**
    Polars' left join on `key`: both sides must have the key column, the
    output header (left columns, then the right side's other columns, a name
    the left side already has suffixed with "_right") must have no repeats,
    and every left row is kept, in order.
  */
  function LeftJoin(left: Table, right: Table, key: Column): (r: Result<Table, SchemaError>)
    requires WellFormed(left) && WellFormed(right)
    ensures key !in left.columns || key !in right.columns ==> r == Failure(ColumnNotFound(key))
    ensures r.Success? <==> key in left.columns && key in right.columns && Distinct(JoinColumns(left.columns, right.columns, key))
    ensures r.Success? ==>
              && WellFormed(r.value)
              && r.value.columns == JoinColumns(left.columns, right.columns, key)
              && |r.value.rows| >= |left.rows|
  {
    if key !in left.columns || key !in right.columns then Failure(ColumnNotFound(key))
    else
      var cols := JoinColumns(left.columns, right.columns, key);
      match FirstDuplicate(cols)
      case Some(c) => Failure(DuplicateColumn(c))
      case None =>
        JoinRowsWellFormed(left.rows, right.rows, right.columns, key, left.columns);
        Success(Table(cols, JoinRows(left.rows, right.rows, right.columns, key, left.columns)))
  }

  /** No two rows of `rs` share a non-null value in column `key`. */
  predicate UniqueKey(rs: seq<Row>, key: Column) {
    forall i, j | 0 <= i < j < |rs| :: KeyCell(rs[i], key).Some? ==> KeyCell(rs[i], key) != KeyCell(rs[j], key)
  }

  lemma {:induction false} AtMostOneMatch(l: Row, rs: seq<Row>, key: Column)
    requires UniqueKey(rs, key)
    ensures |Matches(l, rs, key)| <= 1
  {
    if rs != [] {
      assert UniqueKey(rs[1..], key) by {
        forall i, j | 0 <= i < j < |rs[1..]| ensures KeyCell(rs[1..][i], key).Some? ==> KeyCell(rs[1..][i], key) != KeyCell(rs[1..][j], key) {
          assert rs[1..][i] == rs[i + 1] && rs[1..][j] == rs[j + 1];
        }
      }
      AtMostOneMatch(l, rs[1..], key);
      if Joins(l, rs[0], key) {
        forall k | 0 <= k < |rs[1..]| ensures !Joins(l, rs[1..][k], key) {
          assert rs[1..][k] == rs[k + 1];
        }
      }
    }
  }

  /** The right row a left row joins when keys are unique on the right, if any. */
  function Match(l: Row, rs: seq<Row>, key: Column): Option<Row> {
    var ms := Matches(l, rs, key);
    if ms == [] then None else Some(ms[0])
  }

  /** A left row with at most one match emits exactly one row, joined to that match or null-padded. */
  lemma RowsForOne(l: Row, rs: seq<Row>, right: seq<Column>, key: Column, left: seq<Column>)
    requires |Matches(l, rs, key)| <= 1
    ensures RowsFor(l, rs, right, key, left) == [JoinedRow(l, Match(l, rs, key), right, key, left)]
  {
  }

  /** One output row per left row, joined to its match or null-padded: the join when right keys are unique. */
  function UniqueJoinRows(ls: seq<Row>, rs: seq<Row>, right: seq<Column>, key: Column, left: seq<Column>): seq<Row> {
    if ls == [] then []
    else [JoinedRow(ls[0], Match(ls[0], rs, key), right, key, left)] + UniqueJoinRows(ls[1..], rs, right, key, left)
  }

  lemma {:induction false} UniqueJoinRowsIndex(ls: seq<Row>, rs: seq<Row>, right: seq<Column>, key: Column, left: seq<Column>)
    ensures |UniqueJoinRows(ls, rs, right, key, left)| == |ls|
    ensures forall i | 0 <= i < |ls| ::
              UniqueJoinRows(ls, rs, right, key, left)[i] == JoinedRow(ls[i], Match(ls[i], rs, key), right, key, left)
  {
    if ls != [] {
      UniqueJoinRowsIndex(ls[1..], rs, right, key, left);
      var whole, tail := UniqueJoinRows(ls, rs, right, key, left), UniqueJoinRows(ls[1..], rs, right, key, left);
      forall i | 1 <= i < |ls| ensures whole[i] == JoinedRow(ls[i], Match(ls[i], rs, key), right, key, left) {
        assert whole[i] == tail[i - 1];
        assert ls[1..][i - 1] == ls[i];
      }
    }
  }

  lemma {:induction false} JoinRowsUnique(ls: seq<Row>, rs: seq<Row>, right: seq<Column>, key: Column, left: seq<Column>)
    requires UniqueKey(rs, key)
    ensures JoinRows(ls, rs, right, key, left) == UniqueJoinRows(ls, rs, right, key, left)
  {
    if ls != [] {
      JoinRowsUnique(ls[1..], rs, right, key, left);
      AtMostOneMatch(ls[0], rs, key);
      RowsForOne(ls[0], rs, right, key, left);
    }
  }

  /**
    With unique keys on the right, a left join keeps exactly one output row per
    left row, in order; the row's left cells are unchanged, and each right
    column holds the matching right row's cell, or null when no right row matched.
  */
  lemma LeftJoinKeepsRows(left: Table, right: Table, key: Column)
    requires WellFormed(left) && WellFormed(right)
    requires UniqueKey(right.rows, key)
    requires LeftJoin(left, right, key).Success?
    ensures var out := LeftJoin(left, right, key).value;
      && |out.rows| == |left.rows|
      && (forall i, c | 0 <= i < |left.rows| && c in left.columns :: out.rows[i][c] == left.rows[i][c])
      && (forall i, c | 0 <= i < |left.rows| && c in RightRest(right.columns, key) ::
            out.rows[i][OutName(c, left.columns)] == CellOf(Match(left.rows[i], right.rows, key), c))
  {
    JoinRowsUnique(left.rows, right.rows, right.columns, key, left.columns);
    UniqueJoinRowsIndex(left.rows, right.rows, right.columns, key, left.columns);
    var out := LeftJoin(left, right, key).value;
    forall i | 0 <= i < |left.rows|
      ensures forall c | c in left.columns :: out.rows[i][c] == left.rows[i][c]
      ensures forall c | c in RightRest(right.columns, key) ::
                out.rows[i][OutName(c, left.columns)] == CellOf(Match(left.rows[i], right.rows, key), c)
    {
      assert left.rows[i] in left.rows;
      JoinedRowFacts(left.rows[i], Match(left.rows[i], right.rows, key), right.columns, key, left.columns);
    }
  }

  /**
    Among the rows left row `i` emits is the one joined to its first match, or
    its null-padded row when nothing matches.
  */
  lemma {:induction false} JoinRowsCover(ls: seq<Row>, rs: seq<Row>, right: seq<Column>, key: Column, left: seq<Column>, i: nat)
    requires i < |ls|
    ensures JoinedRow(ls[i], Match(ls[i], rs, key), right, key, left) in JoinRows(ls, rs, right, key, left)
  {
    if i == 0 {
      var here := RowsFor(ls[0], rs, right, key, left);
      assert here[0] == JoinedRow(ls[0], Match(ls[0], rs, key), right, key, left);
      assert JoinRows(ls, rs, right, key, left)[0] == here[0];
    } else {
      JoinRowsCover(ls[1..], rs, right, key, left, i - 1);
      assert ls[1..][i - 1] == ls[i];
    }
  }

  /** Row `o` carries left row `l`'s cells and, in each right column, the cell of `l`'s first match (null without one). */
  predicate JoinedFrom(o: Row, l: Row, right: Table, key: Column, left: seq<Column>) {
    && (forall c | c in left :: c in o && c in l && o[c] == l[c])
    && (forall c | c in RightRest(right.columns, key) ::
          OutName(c, left) in o && o[OutName(c, left)] == CellOf(Match(l, right.rows, key), c))
  }

  /**
    Whatever the right keys, no left row is lost: some output row keeps its
    left cells and holds, in each right column, its first match's cell, or
    null when no right row matches.
  */
  lemma LeftJoinKeepsEveryRow(left: Table, right: Table, key: Column, i: nat)
    requires WellFormed(left) && WellFormed(right)
    requires LeftJoin(left, right, key).Success?
    requires i < |left.rows|
    ensures var out := LeftJoin(left, right, key).value;
      exists j | 0 <= j < |out.rows| :: JoinedFrom(out.rows[j], left.rows[i], right, key, left.columns)
  {
    var out := LeftJoin(left, right, key).value;
    var l, m := left.rows[i], Match(left.rows[i], right.rows, key);
    JoinRowsCover(left.rows, right.rows, right.columns, key, left.columns, i);
    var j :| 0 <= j < |out.rows| && out.rows[j] == JoinedRow(l, m, right.columns, key, left.columns);
    assert l in left.rows;
    JoinedRowHeader(l, m, right.columns, key, left.columns);
    JoinedRowRight(l, m, right.columns, key, left.columns);
    assert JoinedFrom(out.rows[j], l, right, key, left.columns);
  }

  /**
    A left row that no right row joins is kept, whatever the right keys: some
    output row holds its left cells and null in every right-side column.
  */
  lemma LeftJoinUnmatchedIsNull(left: Table, right: Table, key: Column, i: nat)
    requires WellFormed(left) && WellFormed(right)
    requires LeftJoin(left, right, key).Success?
    requires i < |left.rows|
    requires forall r | r in right.rows :: !Joins(left.rows[i], r, key)
    ensures var out := LeftJoin(left, right, key).value;
      exists j | 0 <= j < |out.rows| ::
        && (forall c | c in left.columns :: c in out.rows[j] && out.rows[j][c] == left.rows[i][c])
        && (forall c | c in RightRest(right.columns, key) ::
              OutName(c, left.columns) in out.rows[j] && out.rows[j][OutName(c, left.columns)].None?)
  {
    var out := LeftJoin(left, right, key).value;
    var l := left.rows[i];
    LeftJoinKeepsEveryRow(left, right, key, i);
    forall k | 0 <= k < |right.rows| ensures !Joins(l, right.rows[k], key) {
      assert right.rows[k] in right.rows;
    }
    var j :| 0 <= j < |out.rows| && JoinedFrom(out.rows[j], l, right, key, left.columns);
    UnmatchedCells(out.rows[j], l, right, key, left.columns);
  }

  /** A row joined from a left row without a match has null in every right-side column. */
  lemma UnmatchedCells(o: Row, l: Row, right: Table, key: Column, left: seq<Column>)
    requires JoinedFrom(o, l, right, key, left) && Match(l, right.rows, key) == None
    ensures forall c | c in RightRest(right.columns, key) :: OutName(c, left) in o && o[OutName(c, left)].None?
  {
  }

  // ---------------------------------------------------------------------------
  // Drop

  function DropRow(row: Row, names: seq<Column>): Row {
    map c | c in row && c !in names :: row[c]
  }

  /** Polars' `drop`: every named column must exist; the rest of each row is unchanged. */
  function Drop(t: Table, names: seq<Column>): (r: Result<Table, SchemaError>)
    requires WellFormed(t)
    ensures r.Failure? <==> exists n | n in names :: n !in t.columns
    ensures r.Failure? ==> r.error.ColumnNotFound? && r.error.column in names && r.error.column !in t.columns
    ensures r.Success? ==>
              && WellFormed(r.value)
              && r.value.columns == Without(t.columns, names)
              && |r.value.rows| == |t.rows|
              && (forall n | n in names :: n !in r.value.columns)
    ensures r.Success? ==>
              forall i, c | 0 <= i < |t.rows| && c in t.columns && c !in names :: r.value.rows[i][c] == t.rows[i][c]
  {
    match FirstMissing(names, t.columns)
    case Some(c) => Failure(ColumnNotFound(c))
    case None =>
      var rows := seq(|t.rows|, i requires 0 <= i < |t.rows| => DropRow(t.rows[i], names));
      assert forall i | 0 <= i < |rows| :: rows[i].Keys == ColumnSet(Without(t.columns, names)) by {
        forall i | 0 <= i < |rows| ensures rows[i].Keys == ColumnSet(Without(t.columns, names)) {
          assert t.rows[i] in t.rows;
        }
      }
      Success(Table(Without(t.columns, names), rows))
  }

  // ---------------------------------------------------------------------------
  // Upper-casing a text column

  predicate IsTextOrNull(x: Cell) {
    x.None? || x.value.Text?
  }

  function UpperCell(x: Cell): Cell {
    match x
    case Some(Text(s)) => Some(Text(Upper(s)))
    case _ => x
  }

  function FirstNonText(rows: seq<Row>, col: Column): (r: Option<nat>)
    ensures r.None? <==> forall i | 0 <= i < |rows| :: col in rows[i] ==> IsTextOrNull(rows[i][col])
    ensures r.Some? ==> r.value < |rows| && col in rows[r.value] && !IsTextOrNull(rows[r.value][col])
  {
    if rows == [] then None
    else if col in rows[0] && !IsTextOrNull(rows[0][col]) then Some(0)
    else match FirstNonText(rows[1..], col)
      case None => None
      case Some(k) => Some(k + 1)
  }

  /**
    `with_columns(pl.col(col).str.to_uppercase())`: the column must exist and
    hold text (or nulls); its text is upper-cased and every other cell kept.
  */
  function UpperCaseColumn(t: Table, col: Column): (r: Result<Table, SchemaError>)
    requires WellFormed(t)
    ensures col !in t.columns ==> r == Failure(ColumnNotFound(col))
    ensures col in t.columns ==>
              (r.Success? <==> forall i | 0 <= i < |t.rows| :: IsTextOrNull(t.rows[i][col]))
    ensures col in t.columns && r.Failure? ==> r == Failure(InvalidType(col))
    ensures r.Success? ==>
              && WellFormed(r.value)
              && r.value.columns == t.columns
              && |r.value.rows| == |t.rows|
              && (forall i | 0 <= i < |t.rows| :: r.value.rows[i][col] == UpperCell(t.rows[i][col]))
              && (forall i, c | 0 <= i < |t.rows| && c in t.columns && c != col :: r.value.rows[i][c] == t.rows[i][c])
  {
    if col !in t.columns then Failure(ColumnNotFound(col))
    else
      assert forall i | 0 <= i < |t.rows| :: col in t.rows[i] by {
        forall i | 0 <= i < |t.rows| ensures col in t.rows[i] {
          assert t.rows[i] in t.rows;
        }
      }
      match FirstNonText(t.rows, col)
      case Some(_) => Failure(InvalidType(col))
      case None =>
        var rows := seq(|t.rows|, i requires 0 <= i < |t.rows| => t.rows[i][col := UpperCell(t.rows[i][col])]);
        assert forall r | r in rows :: r.Keys == ColumnSet(t.columns) by {
          forall r | r in rows ensures r.Keys == ColumnSet(t.columns) {
            var i :| 0 <= i < |rows| && rows[i] == r;
            assert t.rows[i] in t.rows;
          }
        }
        Success(Table(t.columns, rows))
  }

  lemma UpperCellIdempotent(x: Cell)
    ensures UpperCell(UpperCell(x)) == UpperCell(x)
  {
    if x.Some? && x.value.Text? {
      UpperIdempotent(x.value.text);
    }
  }

  /** Upper-casing a column a second time changes nothing. */
  lemma UpperCaseColumnIdempotent(t: Table, col: Column)
    requires WellFormed(t)
    requires UpperCaseColumn(t, col).Success?
    ensures UpperCaseColumn(UpperCaseColumn(t, col).value, col) == UpperCaseColumn(t, col)
  {
    var once := UpperCaseColumn(t, col).value;
    forall i | 0 <= i < |once.rows| ensures IsTextOrNull(once.rows[i][col]) {
    }
    var twice := UpperCaseColumn(once, col).value;
    forall i | 0 <= i < |once.rows| ensures twice.rows[i] == once.rows[i] {
      UpperCellIdempotent(t.rows[i][col]);
      assert once.rows[i] in once.rows && t.rows[i] in t.rows;
      assert twice.rows[i].Keys == once.rows[i].Keys;
    }
    assert twice.rows == once.rows;
  }
}
