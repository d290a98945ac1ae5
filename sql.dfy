/** The relational backend (sql.go, and the `DB` type of
    src/hourglass/database.go, which runs the same statements). The SQL
    engine is modelled by the two tables the statements touch; the
    driver's behaviour is given by the functions below. */
module SqlBackend {
  import opened Wrappers
  import opened Activities
  import opened Database

  /** `SqlVersion`, the same value as `DatabaseVersion`. */
  const SqlVersion: int := DatabaseVersion

  const UnknownDriver: string := "sql: unknown driver"
  const ScanFailure: string := "sql: Scan error"

  /** A cell as the driver hands it back. */
  datatype Value = Null | Integer(i: int) | Text(s: string) | Timestamp(t: int)

  /** A row of `activities`; `id INTEGER PRIMARY KEY` is the row id. */
  datatype StoredRow = StoredRow(id: int, name: Value, project: Value, tags: Value, start: Value, end: Value)

  /** The database the data source names. A table that has not been
      created is `None`; `activities` is kept in ascending id order, the
      order a query without ORDER BY returns it in. `registered` says
      whether the driver named in the configuration is known. */
  datatype Engine = Engine(registered: bool, schemaInfo: Option<seq<int>>, activities: Option<seq<StoredRow>>)

  /** What a statement leaves behind: the new database state and, when the
      statement failed, the driver's message. */
  datatype Outcome = Outcome(engine: Engine, err: Option<string>)

  function NoSuchTable(name: string): string { "no such table: " + name }
  function TableExists(name: string): string { "table " + name + " already exists" }

  // The statements of Migrate.

  /** `CREATE TABLE schema_info (version INT)`. */
  function CreateSchemaInfo(e: Engine): (o: Outcome)
    ensures o.err.None? <==> e.schemaInfo.None?
    ensures o.err.None? ==> o.engine == e.(schemaInfo := Some([]))
    ensures o.err.Some? ==> o.engine == e
  {
    if e.schemaInfo.Some? then Outcome(e, Some(TableExists("schema_info")))
    else Outcome(e.(schemaInfo := Some([])), None)
  }

  /** `INSERT INTO schema_info VALUES (?)`. */
  function InsertVersion(e: Engine, version: int): (o: Outcome)
    ensures o.err.None? <==> e.schemaInfo.Some?
    ensures o.err.None? ==> o.engine == e.(schemaInfo := Some(e.schemaInfo.value + [version]))
    ensures o.err.Some? ==> o.engine == e
  {
    if e.schemaInfo.None? then Outcome(e, Some(NoSuchTable("schema_info")))
    else Outcome(e.(schemaInfo := Some(e.schemaInfo.value + [version])), None)
  }

  /** `CREATE TABLE activities (...)`. */
  function CreateActivities(e: Engine): (o: Outcome)
    ensures o.err.None? <==> e.activities.None?
    ensures o.err.None? ==> o.engine == e.(activities := Some([]))
    ensures o.err.Some? ==> o.engine == e
  {
    if e.activities.Some? then Outcome(e, Some(TableExists("activities")))
    else Outcome(e.(activities := Some([])), None)
  }

  /** Every entry of a sequence replaced by `v`. */
  function Fill(s: seq<int>, v: int): (r: seq<int>)
    ensures |r| == |s| && forall i :: 0 <= i < |r| ==> r[i] == v
  {
    seq(|s|, _ => v)
  }

  /** `UPDATE schema_info SET version = ?`: every row of the table. */
  function UpdateVersion(e: Engine, version: int): (o: Outcome)
    ensures o.err.None? <==> e.schemaInfo.Some?
    ensures o.err.Some? ==> o.engine == e
    ensures o.err.None? ==> o.engine.activities == e.activities && o.engine.registered == e.registered
    ensures o.err.None? && e.schemaInfo.value != [] ==> StoredVersion(o.engine) == version
  {
    if e.schemaInfo.None? then Outcome(e, Some(NoSuchTable("schema_info")))
    else Outcome(e.(schemaInfo := Some(Fill(e.schemaInfo.value, version))), None)
  }

  /** `SELECT version FROM schema_info` scanned into a variable that starts
      at 0: a missing table or an empty one leaves it 0, otherwise it is
      the first row's version. */
  function StoredVersion(e: Engine): int
  {
    if e.schemaInfo.Some? && e.schemaInfo.value != [] then e.schemaInfo.value[0] else 0
  }

  /** The statements of one migration step (the `switch` in Migrate). */
  function Step(e: Engine, version: int): (o: Outcome)
    ensures version == 0 && o.err.None? ==> o.engine.schemaInfo.Some? && o.engine.schemaInfo.value != []
    ensures version != 0 ==> o.engine.schemaInfo == e.schemaInfo
    ensures o.engine.registered == e.registered
  {
    if version == 0 then
      var created := CreateSchemaInfo(e);
      if created.err.Some? then created else InsertVersion(created.engine, 0)
    else if version == 1 then CreateActivities(e)
    else Outcome(e, None)
  }

  /** What the migration loop does from `version` on: each step, then the
      stored version set to the next one, stopping at the first failure
      with its message. */
  datatype Migration = Migration(engine: Engine, errors: seq<string>)

  function MigrateFrom(e: Engine, version: int): (m: Migration)
    ensures |m.errors| <= 1
    ensures m.engine.registered == e.registered
    decreases SqlVersion - version
  {
    if version >= SqlVersion then Migration(e, [])
    else
      var step := Step(e, version);
      if step.err.Some? then Migration(step.engine, [step.err.value])
      else
        var bump := UpdateVersion(step.engine, version + 1);
        if bump.err.Some? then Migration(bump.engine, [bump.err.value])
        else MigrateFrom(bump.engine, version + 1)
  }

  /** `Migrate` as a whole: opening fails for an unknown driver; otherwise
      the loop starts from the stored version. */
  function MigrateAll(e: Engine): Migration
  {
    if !e.registered then Migration(e, [UnknownDriver])
    else MigrateFrom(e, StoredVersion(e))
  }

  /** The loop ends without error exactly when the stored version has
      reached `SqlVersion`, and it never lowers the stored version. */
  lemma {:induction false} MigrateFromOutcome(e: Engine, version: int)
    requires StoredVersion(e) == version
    ensures MigrateFrom(e, version).errors == [] <==> StoredVersion(MigrateFrom(e, version).engine) >= SqlVersion
    ensures StoredVersion(MigrateFrom(e, version).engine) >= version
    decreases SqlVersion - version
  {
    if version < SqlVersion {
      var step := Step(e, version);
      if step.err.None? {
        var bump := UpdateVersion(step.engine, version + 1);
        if bump.err.None? {
          assert step.engine.schemaInfo.value != [] by {
            if version != 0 {
              assert step.engine.schemaInfo == e.schemaInfo;
            }
          }
          MigrateFromOutcome(bump.engine, version + 1);
        }
      }
    }
  }

  /** `Migrate` returns no error exactly when the stored version is
      current afterwards, and it never moves the stored version back. */
  lemma MigrateOutcome(e: Engine)
    ensures MigrateAll(e).errors == [] <==> e.registered && StoredVersion(MigrateAll(e).engine) >= SqlVersion
    ensures StoredVersion(MigrateAll(e).engine) >= StoredVersion(e)
  {
    if e.registered {
      MigrateFromOutcome(e, StoredVersion(e));
    }
  }

  /** On a current store `Migrate` runs no statement. */
  lemma MigrateCurrentIsNoop(e: Engine)
    requires e.registered && StoredVersion(e) >= SqlVersion
    ensures MigrateAll(e) == Migration(e, [])
  {
  }

  /** A migration that succeeded leaves nothing for a second one to do. */
  lemma MigrateIdempotent(e: Engine)
    requires MigrateAll(e).errors == []
    ensures MigrateAll(MigrateAll(e).engine) == Migration(MigrateAll(e).engine, [])
  {
    MigrateOutcome(e);
  }

  /** A new database gets both tables, no activity, and version 2. */
  lemma MigrateNewDatabase()
    ensures MigrateAll(Engine(true, None, None)) == Migration(Engine(true, Some([SqlVersion]), Some([])), [])
  {
    var e0 := Engine(true, None, None);
    var e1 := Engine(true, Some([0]), None);
    assert [] + [0] == [0];
    assert Step(e0, 0) == Outcome(e1, None);
    assert Fill([0], 1) == [1];
    var e2 := Engine(true, Some([1]), None);
    assert UpdateVersion(e1, 1) == Outcome(e2, None);
    var e3 := Engine(true, Some([1]), Some([]));
    assert Step(e2, 1) == Outcome(e3, None);
    assert Fill([1], 2) == [2];
  }

  /** A `schema_info` table without rows reads as version 0, so the first
      step tries to create it again and every migration fails. */
  lemma MigrateStuckOnEmptySchemaInfo(activities: Option<seq<StoredRow>>)
    ensures MigrateAll(Engine(true, Some([]), activities)).errors == [TableExists("schema_info")]
  {
  }

  // The statements of the activity operations.

  /** The row ids are positive and ascend. */
  predicate Keyed(rows: seq<StoredRow>)
  {
    (forall i :: 0 <= i < |rows| ==> rows[i].id > 0)
    && forall i, j :: 0 <= i < j < |rows| ==> rows[i].id < rows[j].id
  }

  predicate HasId(rows: seq<StoredRow>, id: int)
  {
    exists i :: 0 <= i < |rows| && rows[i].id == id
  }

  /** The id SQLite gives a new row: one past the largest, so positive,
      fresh and larger than every id present, which keeps the rows in id
      order. */
  function NextRowId(rows: seq<StoredRow>): (id: int)
    requires Keyed(rows)
    ensures id > 0 && !HasId(rows, id)
    ensures Keyed(rows + [StoredRow(id, Null, Null, Null, Null, Null)])
  {
    if rows == [] then 1 else rows[|rows| - 1].id + 1
  }

  /** The cells an activity is stored as. */
  function RowOf(id: int, a: Activity): StoredRow
  {
    StoredRow(id, Text(a.name), Text(a.project), Text(TagList(a.tags)), Timestamp(a.start), Timestamp(a.end))
  }

  /** `INSERT INTO activities (...) VALUES (...)`, with the new row id. */
  function InsertRow(e: Engine, a: Activity): (r: (Outcome, int))
    requires e.activities.Some? ==> Keyed(e.activities.value)
    ensures r.0.err.None? <==> e.activities.Some?
    ensures r.0.err.Some? ==> r.0.engine == e
    ensures r.0.err.None? ==>
      r.1 > 0 && !HasId(e.activities.value, r.1)
      && r.0.engine == e.(activities := Some(e.activities.value + [RowOf(r.1, a)]))
      && Keyed(r.0.engine.activities.value)
  {
    if e.activities.None? then (Outcome(e, Some(NoSuchTable("activities"))), 0)
    else
      var rows := e.activities.value;
      var id := NextRowId(rows);
      assert Keyed(rows + [RowOf(id, a)]) by {
        assert Keyed(rows + [StoredRow(id, Null, Null, Null, Null, Null)]);
      }
      (Outcome(e.(activities := Some(rows + [RowOf(id, a)])), None), id)
  }

  /** The rows with the cells of those whose id is `a.id` replaced by the
      activity's. */
  function Replace(rows: seq<StoredRow>, a: Activity): (r: seq<StoredRow>)
    ensures |r| == |rows|
    ensures forall i :: 0 <= i < |rows| ==> r[i] == if rows[i].id == a.id then RowOf(a.id, a) else rows[i]
  {
    seq(|rows|, i requires 0 <= i < |rows| => if rows[i].id == a.id then RowOf(a.id, a) else rows[i])
  }

  /** `UPDATE activities SET ... WHERE id = ?`: no row matching is not an
      error. */
  function UpdateRow(e: Engine, a: Activity): (o: Outcome)
    ensures o.err.None? <==> e.activities.Some?
    ensures o.err.Some? ==> o.engine == e
    ensures o.err.None? ==> o.engine == e.(activities := Some(Replace(e.activities.value, a)))
  {
    if e.activities.None? then Outcome(e, Some(NoSuchTable("activities")))
    else Outcome(e.(activities := Some(Replace(e.activities.value, a))), None)
  }

  /** The rows without those whose id is `id`. */
  function Without(rows: seq<StoredRow>, id: int): (r: seq<StoredRow>)
    ensures !HasId(r, id)
    ensures forall x :: x in r <==> x in rows && x.id != id
    ensures |r| <= |rows|
  {
    if rows == [] then []
    else if rows[0].id == id then Without(rows[1..], id)
    else [rows[0]] + Without(rows[1..], id)
  }

  /** `DELETE FROM activities WHERE id = ?`, with the number of rows it
      removed. */
  function DeleteRows(e: Engine, id: int): (r: (Outcome, nat))
    ensures r.0.err.None? <==> e.activities.Some?
    ensures r.0.err.Some? ==> r.0.engine == e
    ensures r.0.err.None? ==> r.0.engine == e.(activities := Some(Without(e.activities.value, id)))
    ensures r.0.err.None? ==> r.1 == |e.activities.value| - |Without(e.activities.value, id)|
  {
    if e.activities.None? then (Outcome(e, Some(NoSuchTable("activities"))), 0)
    else
      var rows := Without(e.activities.value, id);
      (Outcome(e.(activities := Some(rows)), None), |e.activities.value| - |rows|)
  }

  /** The WHERE clauses of the queries. */
  datatype Filter = ById(id: int) | All | Running | Between(lower: int, upper: int)

  /** Whether a row satisfies the clause: `id = ?`; none; `end IS ?` with
      the zero time; `start >= ? AND start < ?`. */
  predicate Selects(f: Filter, row: StoredRow)
  {
    match f
    case ById(id) => row.id == id
    case All => true
    case Running => row.end == Timestamp(ZeroTime)
    case Between(lower, upper) => row.start.Timestamp? && lower <= row.start.t < upper
  }

  /** `rows.Scan(&id, &name, &project, &tagList, &start, &end)`: each cell
      must have the kind of its destination. */
  function ScanRow(row: StoredRow): (a: Option<Activity>)
    ensures a.Some? ==> a.value.id == row.id
    ensures a.Some? ==> row.end == Timestamp(a.value.end) && row.start == Timestamp(a.value.start)
  {
    if row.name.Text? && row.project.Text? && row.tags.Text? && row.start.Timestamp? && row.end.Timestamp? then
      Some(Activity(row.id, row.name.s, row.project.s, SetTagList(row.tags.s), row.start.t, row.end.t))
    else None
  }

  /** The rows a query with the clause returns, in table order. */
  function Selected(rows: seq<StoredRow>, f: Filter): (s: seq<StoredRow>)
    ensures forall x :: x in s <==> x in rows && Selects(f, x)
    ensures |s| <= |rows|
  {
    if rows == [] then []
    else if Selects(f, rows[0]) then [rows[0]] + Selected(rows[1..], f)
    else Selected(rows[1..], f)
  }

  /** The result of scanning query rows one after the other: the rows that
      scanned and one message per row that did not. */
  datatype Collected = Collected(activities: seq<Activity>, errors: seq<string>)

  function Collect(rows: seq<StoredRow>): (c: Collected)
    ensures |c.activities| + |c.errors| == |rows|
  {
    if rows == [] then Collected([], [])
    else
      var rest := Collect(rows[1..]);
      match ScanRow(rows[0])
      case Some(a) => Collected([a] + rest.activities, rest.errors)
      case None => Collected(rest.activities, [ScanFailure] + rest.errors)
  }

  /** The activities collected are exactly those of the rows that scan,
      and there is no error exactly when every row scans. */
  lemma {:induction false} CollectContents(rows: seq<StoredRow>)
    ensures forall a :: a in Collect(rows).activities <==> exists r :: r in rows && ScanRow(r) == Some(a)
    ensures Collect(rows).errors == [] <==> forall r :: r in rows ==> ScanRow(r).Some?
  {
    if rows != [] {
      CollectContents(rows[1..]);
      assert forall r :: r in rows <==> r == rows[0] || r in rows[1..];
    }
  }

  /** Scanning from row `i` is scanning row `i` and then the rest. */
  lemma CollectStep(rows: seq<StoredRow>, i: nat)
    requires i < |rows|
    ensures Collect(rows[i..]) == match ScanRow(rows[i])
      case Some(a) => Collected([a] + Collect(rows[i + 1..]).activities, Collect(rows[i + 1..]).errors)
      case None => Collected(Collect(rows[i + 1..]).activities, [ScanFailure] + Collect(rows[i + 1..]).errors)
  {
    assert rows[i..][1..] == rows[i + 1..];
  }

  /** One step of the scan loop: what is collected from row `i` on, after
      what was collected before it, is this row's outcome and then the rest. */
  lemma CollectSplit(rows: seq<StoredRow>, i: nat, activities: seq<Activity>, errors: seq<string>)
    requires i < |rows|
    ensures var c := Collect(rows[i..]);
      var rest := Collect(rows[i + 1..]);
      match ScanRow(rows[i])
      case Some(a) =>
        activities + c.activities == (activities + [a]) + rest.activities && errors + c.errors == errors + rest.errors
      case None =>
        activities + c.activities == activities + rest.activities
        && errors + c.errors == (errors + [Driver(ScanFailure).Message()]) + rest.errors
  {
    CollectStep(rows, i);
    var rest := Collect(rows[i + 1..]);
    match ScanRow(rows[i]) {
      case Some(a) =>
        assert activities + ([a] + rest.activities) == (activities + [a]) + rest.activities;
      case None =>
        assert errors + ([ScanFailure] + rest.errors) == (errors + [ScanFailure]) + rest.errors;
    }
  }

  /** What `findActivities` returns: the rows that scanned, even when some
      did not, and the collected errors. */
  function Found(e: Engine, f: Filter): (r: (seq<Activity>, Option<Error>))
  {
    if !e.registered then ([], AsError([UnknownDriver]))
    else if e.activities.None? then ([], AsError([NoSuchTable("activities")]))
    else
      var c := Collect(Selected(e.activities.value, f));
      (c.activities, AsError(c.errors))
  }

  /** The clause restated on an activity. */
  predicate Satisfies(f: Filter, a: Activity)
  {
    match f
    case ById(id) => a.id == id
    case All => true
    case Running => IsRunning(a)
    case Between(lower, upper) => lower <= a.start < upper
  }

  /** Every activity a query returns satisfies its clause, and every row
      that satisfies it and scans is returned. */
  lemma FoundExactly(e: Engine, f: Filter, row: StoredRow)
    requires e.registered && e.activities.Some?
    ensures forall a :: a in Found(e, f).0 ==> Satisfies(f, a)
    ensures row in e.activities.value && Selects(f, row) && ScanRow(row).Some? ==> ScanRow(row).value in Found(e, f).0
  {
    CollectContents(Selected(e.activities.value, f));
  }

  /** Rows that all scan give no error, and every selected row comes back. */
  lemma FoundWithoutErrors(e: Engine, f: Filter)
    requires e.registered && e.activities.Some?
    requires forall r :: r in e.activities.value ==> ScanRow(r).Some?
    ensures Found(e, f).1.None?
    ensures |Found(e, f).0| == |Selected(e.activities.value, f)|
  {
    CollectContents(Selected(e.activities.value, f));
  }

  /** `FindActivity`: an error from the query, otherwise the first row, or
      `ErrNotFound` when there is none. */
  function FindOne(e: Engine, id: int): (r: (Option<Activity>, Option<Error>))
    ensures r.0.Some? ==> r.0.value.id == id
    ensures r.0.Some? <==> r.1.None?
  {
    var (activities, err) := Found(e, ById(id));
    if err.Some? then (None, err)
    else if |activities| == 0 then (None, Some(NotFound))
    else
      assert activities[0] in activities;
      FoundExactly(e, ById(id), StoredRow(0, Null, Null, Null, Null, Null));
      (Some(activities[0]), None)
  }

  /** The rows saved by the backend scan; other writers could leave cells
      of other kinds. */
  predicate WellTyped(rows: seq<StoredRow>)
  {
    forall r :: r in rows ==> ScanRow(r).Some?
  }

  /** A usable activities table: known driver, table present, ids keyed,
      cells of the right kinds. */
  predicate Ready(e: Engine)
  {
    e.registered && e.activities.Some? && Keyed(e.activities.value) && WellTyped(e.activities.value)
  }

  /** On a usable table the lookup fails with `ErrNotFound` exactly when no
      row has the id. */
  lemma FindOneNotFound(e: Engine, id: int)
    requires Ready(e)
    ensures FindOne(e, id).1 == Some(NotFound) <==> !HasId(e.activities.value, id)
    ensures FindOne(e, id).1.None? <==> HasId(e.activities.value, id)
  {
    var rows := e.activities.value;
    FoundWithoutErrors(e, ById(id));
    if HasId(rows, id) {
      var i :| 0 <= i < |rows| && rows[i].id == id;
      assert rows[i] in Selected(rows, ById(id));
    } else {
      SelectedAbsent(rows, id);
    }
  }

  lemma {:induction false} SelectedAbsent(rows: seq<StoredRow>, id: int)
    requires !HasId(rows, id)
    ensures Selected(rows, ById(id)) == []
  {
    if rows != [] {
      HasIdCons(rows, id);
      SelectedAbsent(rows[1..], id);
    }
  }

  /** The activity a row holds once saved and read back. */
  lemma ScanRowOf(id: int, a: Activity)
    requires SetTagList(TagList(a.tags)) == a.tags
    ensures ScanRow(RowOf(id, a)) == Some(a.(id := id))
  {
  }

  // `SaveActivity`.

  datatype Saving = Saving(engine: Engine, saved: Activity, errors: seq<string>)

  /** `SaveActivity`: an insert for an unsaved activity, which gives it the
      new row id, and an update by id otherwise, which keeps its id. */
  function Save(e: Engine, a: Activity): (r: Saving)
    requires e.activities.Some? ==> Keyed(e.activities.value)
    ensures r.errors == [] ==> r.engine.activities.Some? && Keyed(r.engine.activities.value)
    ensures r.engine.activities.Some? ==> Keyed(r.engine.activities.value)
    ensures r.errors != [] ==> r.engine == e
    ensures a.id != 0 ==> r.saved == a
    ensures a.id == 0 && r.errors == [] ==> e.activities.Some? && r.saved.id != 0 && !HasId(e.activities.value, r.saved.id)
    ensures r.saved.(id := a.id) == a
  {
    if !e.registered then Saving(e, a, [UnknownDriver])
    else if a.id == 0 then
      var (o, id) := InsertRow(e, a);
      if o.err.Some? then Saving(o.engine, a, [o.err.value]) else Saving(o.engine, a.(id := id), [])
    else
      var o := UpdateRow(e, a);
      KeyedReplace(e.activities, a);
      if o.err.Some? then Saving(o.engine, a, [o.err.value]) else Saving(o.engine, a, [])
  }

  lemma KeyedReplace(rows: Option<seq<StoredRow>>, a: Activity)
    requires rows.Some? ==> Keyed(rows.value)
    ensures rows.Some? ==> Keyed(Replace(rows.value, a)) && forall i :: 0 <= i < |rows.value| ==> Replace(rows.value, a)[i].id == rows.value[i].id
  {
  }

  /** A save into a usable table succeeds, keeps it usable, and leaves the
      saved activity's row in it. */
  lemma SaveStoresRow(e: Engine, a: Activity)
    requires Ready(e) && SetTagList(TagList(a.tags)) == a.tags
    requires a.id != 0 ==> HasId(e.activities.value, a.id)
    ensures Save(e, a).errors == [] && Ready(Save(e, a).engine)
    ensures exists k :: (0 <= k < |Save(e, a).engine.activities.value|
      && Save(e, a).engine.activities.value[k] == RowOf(Save(e, a).saved.id, Save(e, a).saved))
  {
    var r := Save(e, a);
    var old_rows := e.activities.value;
    var rows := r.engine.activities.value;
    ScanRowOf(r.saved.id, a);
    assert RowOf(r.saved.id, a) == RowOf(r.saved.id, r.saved);
    if a.id == 0 {
      assert rows == old_rows + [RowOf(r.saved.id, a)];
      assert forall x :: x in rows ==> x in old_rows || x == RowOf(r.saved.id, a);
      assert rows[|old_rows|] == RowOf(r.saved.id, r.saved);
    } else {
      forall x | x in rows ensures ScanRow(x).Some? {
        var i :| 0 <= i < |rows| && rows[i] == x;
        assert old_rows[i] in old_rows;
      }
      var k :| 0 <= k < |old_rows| && old_rows[k].id == a.id;
      assert rows[k] == RowOf(a.id, a);
    }
  }

  /** After a save the activity is found as saved: under its new id after
      an insert, under its own id after an update of an existing row. */
  lemma FindAfterSave(e: Engine, a: Activity)
    requires Ready(e) && SetTagList(TagList(a.tags)) == a.tags
    requires a.id != 0 ==> HasId(e.activities.value, a.id)
    ensures Save(e, a).errors == []
    ensures Ready(Save(e, a).engine)
    ensures FindOne(Save(e, a).engine, Save(e, a).saved.id) == (Some(Save(e, a).saved), None)
  {
    SaveStoresRow(e, a);
    var r := Save(e, a);
    var rows := r.engine.activities.value;
    var k :| 0 <= k < |rows| && rows[k] == RowOf(r.saved.id, r.saved);
    ScanRowOf(r.saved.id, a);
    assert rows[k].id == r.saved.id;
    FindOneNotFound(r.engine, r.saved.id);
    var found := FindOne(r.engine, r.saved.id);
    FoundExactly(r.engine, ById(r.saved.id), rows[k]);
    KeyedIdsUnique(rows, found.0.value, r.saved.id);
    assert rows[k] in rows;
  }

  /** In a keyed table a scanned activity with a given id comes from the one
      row with that id. */
  lemma KeyedIdsUnique(rows: seq<StoredRow>, a: Activity, id: int)
    requires Keyed(rows) && a.id == id
    requires exists r :: r in rows && ScanRow(r) == Some(a)
    ensures forall r :: r in rows && r.id == id ==> ScanRow(r) == Some(a)
  {
  }

  /** A row appended to a table is selected after the rows before it. */
  lemma {:induction false} SelectedAppend(rows: seq<StoredRow>, row: StoredRow, f: Filter)
    ensures Selected(rows + [row], f) == Selected(rows, f) + (if Selects(f, row) then [row] else [])
  {
    if rows != [] {
      assert (rows + [row])[1..] == rows[1..] + [row];
      SelectedAppend(rows[1..], row, f);
    }
  }

  /** Inserting a new activity leaves every other id's lookup as it was. */
  lemma FindOtherAfterInsert(e: Engine, a: Activity, id: int)
    requires Ready(e) && a.id == 0 && id != Save(e, a).saved.id
    ensures FindOne(Save(e, a).engine, id) == FindOne(e, id)
  {
    var r := Save(e, a);
    var (o, newId) := InsertRow(e, a);
    assert r.engine == e.(activities := Some(e.activities.value + [RowOf(newId, a)]));
    SelectedAppend(e.activities.value, RowOf(newId, a), ById(id));
    assert Selected(r.engine.activities.value, ById(id)) == Selected(e.activities.value, ById(id));
  }

  /** Rows of the right kinds scan without error, one activity per row. */
  lemma {:induction false} CollectWellTyped(rows: seq<StoredRow>)
    requires WellTyped(rows)
    ensures Collect(rows).errors == [] && |Collect(rows).activities| == |rows|
    ensures forall k :: 0 <= k < |rows| ==> ScanRow(rows[k]) == Some(Collect(rows).activities[k])
  {
    if rows != [] {
      assert rows[0] in rows;
      assert forall r :: r in rows[1..] ==> r in rows;
      CollectWellTyped(rows[1..]);
      var c := Collect(rows);
      forall k | 0 < k < |rows| ensures ScanRow(rows[k]) == Some(c.activities[k]) {
        assert rows[k] == rows[1..][k - 1];
      }
    }
  }

  // `DeleteActivity`.

  /** `DeleteActivity`: fails with `ErrNotFound` unless exactly one row was
      removed. */
  function Delete(e: Engine, id: int): (r: (Engine, Option<Error>))
  {
    if !e.registered then (e, Some(Driver(UnknownDriver)))
    else
      var (o, n) := DeleteRows(e, id);
      if o.err.Some? then (o.engine, Some(Driver(o.err.value)))
      else if n != 1 then (o.engine, Some(NotFound))
      else (o.engine, None)
  }

  /** An id is in a non-empty table when it is the first row's or in the rest. */
  lemma HasIdCons(rows: seq<StoredRow>, id: int)
    requires rows != []
    ensures HasId(rows, id) <==> rows[0].id == id || HasId(rows[1..], id)
  {
    if HasId(rows, id) {
      var i :| 0 <= i < |rows| && rows[i].id == id;
      if i > 0 { assert rows[1..][i - 1].id == id; }
    }
    if HasId(rows[1..], id) {
      var i :| 0 <= i < |rows[1..]| && rows[1..][i].id == id;
      assert rows[i + 1].id == id;
    }
  }

  /** The first row of a keyed table has an id no other row has. */
  lemma KeyedFirst(rows: seq<StoredRow>)
    requires rows != [] && Keyed(rows)
    ensures Keyed(rows[1..]) && !HasId(rows[1..], rows[0].id)
    ensures forall x :: x in rows[1..] ==> rows[0].id < x.id
  {
    forall i | 0 <= i < |rows[1..]| ensures rows[1..][i].id > rows[0].id {
      assert rows[1..][i] == rows[i + 1];
    }
  }

  /** Deleting by an id no row has leaves the rows as they were. */
  lemma {:induction false} WithoutAbsent(rows: seq<StoredRow>, id: int)
    requires !HasId(rows, id)
    ensures Without(rows, id) == rows
  {
    if rows != [] {
      HasIdCons(rows, id);
      WithoutAbsent(rows[1..], id);
      assert rows == [rows[0]] + rows[1..];
    }
  }

  /** In a keyed table deleting by id removes one row when one has the id. */
  lemma {:induction false} WithoutCount(rows: seq<StoredRow>, id: int)
    requires Keyed(rows)
    ensures |rows| - |Without(rows, id)| == if HasId(rows, id) then 1 else 0
  {
    if rows != [] {
      KeyedFirst(rows);
      HasIdCons(rows, id);
      WithoutCount(rows[1..], id);
      if rows[0].id == id {
        WithoutAbsent(rows[1..], id);
      }
    }
  }

  /** A row whose id is positive and below every id of a keyed table can go
      in front of it. */
  lemma KeyedCons(x: StoredRow, w: seq<StoredRow>)
    requires Keyed(w) && x.id > 0 && forall y :: y in w ==> x.id < y.id
    ensures Keyed([x] + w)
  {
    var r := [x] + w;
    forall i, j | 0 <= i < j < |r| ensures r[i].id < r[j].id {
      assert r[j] == w[j - 1];
      if i > 0 {
        assert r[i] == w[i - 1];
      } else {
        assert w[j - 1] in w;
      }
    }
  }

  /** Deleting keeps the ids keyed. */
  lemma {:induction false} WithoutKeyed(rows: seq<StoredRow>, id: int)
    requires Keyed(rows)
    ensures Keyed(Without(rows, id))
  {
    if rows != [] {
      KeyedFirst(rows);
      WithoutKeyed(rows[1..], id);
      if rows[0].id != id {
        KeyedCons(rows[0], Without(rows[1..], id));
      }
    }
  }

  /** On a usable table a delete succeeds exactly when a row has the id;
      afterwards no row has it, and a failed delete changes nothing. */
  lemma DeleteOutcome(e: Engine, id: int)
    requires Ready(e)
    ensures Delete(e, id).1.None? <==> HasId(e.activities.value, id)
    ensures Delete(e, id).1.Some? ==> Delete(e, id).1 == Some(NotFound) && Delete(e, id).0 == e
    ensures Ready(Delete(e, id).0)
    ensures FindOne(Delete(e, id).0, id).1 == Some(NotFound)
  {
    WithoutCount(e.activities.value, id);
    WithoutKeyed(e.activities.value, id);
    if !HasId(e.activities.value, id) {
      WithoutAbsent(e.activities.value, id);
    }
    FindOneNotFound(Delete(e, id).0, id);
  }

  /** The database connection of one `Sql` value. */
  class Sql {
    var engine: Engine

    constructor (engine: Engine)
      ensures this.engine == engine
    {
      this.engine := engine;
    }

    /** The relational part of the invariant: row ids stay keyed. */
    predicate Valid()
      reads this
    {
      engine.activities.Some? ==> Keyed(engine.activities.value)
    }

    /** `Version`: the stored version, 0 when there is none. */
    method Version() returns (version: int, err: Option<Error>)
      ensures !engine.registered ==> version == 0 && err == Some(Driver(UnknownDriver))
      ensures engine.registered ==> version == StoredVersion(engine) && err.None?
    {
      if !engine.registered {
        return 0, Some(Driver(UnknownDriver));
      }
      version := 0;
      if engine.schemaInfo.Some? && engine.schemaInfo.value != [] {
        version := engine.schemaInfo.value[0];
      }
      err := None;
    }

    /** `Migrate`: the steps from the stored version to `SqlVersion`, each
        followed by the version update, stopping at the first failure. */
    method Migrate() returns (err: Option<Error>)
      requires Valid()
      modifies this
      ensures Valid()
      ensures engine == MigrateAll(old(engine)).engine
      ensures err == AsError(MigrateAll(old(engine)).errors)
    {
      var errs := new DatabaseErrors();
      if !engine.registered {
        errs.Append(Driver(UnknownDriver));
        assert errs.errors == [UnknownDriver];
        return AsError(errs.errors);
      }
      ghost var target := MigrateAll(engine);
      var version := StoredVersion(engine);
      var execErr: Option<string> := None;
      while version < SqlVersion
        invariant errs.errors == [] && execErr.None?
        invariant MigrateFrom(engine, version) == target
        invariant Valid()
        decreases SqlVersion - version
      {
        ghost var before := engine;
        var o: Outcome;
        if version == 0 {
          o := CreateSchemaInfo(engine);
          engine, execErr := o.engine, o.err;
          if execErr.None? {
            o := InsertVersion(engine, 0);
            engine, execErr := o.engine, o.err;
          }
        } else if version == 1 {
          o := CreateActivities(engine);
          engine, execErr := o.engine, o.err;
        }
        assert Outcome(engine, execErr) == Step(before, version);
        if execErr.Some? {
          errs.Append(Driver(execErr.value));
          assert target == Migration(engine, errs.errors);
          break;
        } else {
          o := UpdateVersion(engine, version + 1);
          engine, execErr := o.engine, o.err;
          if execErr.Some? {
            errs.Append(Driver(execErr.value));
            assert target == Migration(engine, errs.errors);
            break;
          }
        }
        version := version + 1;
      }
      err := AsError(errs.errors);
    }

    /** `SaveActivity`. */
    method SaveActivity(a: Activity) returns (saved: Activity, err: Option<Error>)
      requires Valid()
      modifies this
      ensures Valid()
      ensures engine == Save(old(engine), a).engine && saved == Save(old(engine), a).saved
      ensures err == AsError(Save(old(engine), a).errors)
    {
      var errs := new DatabaseErrors();
      if !engine.registered {
        errs.Append(Driver(UnknownDriver));
        assert errs.errors == [UnknownDriver];
        return a, AsError(errs.errors);
      }
      saved := a;
      if a.id == 0 {
        var (o, id) := InsertRow(engine, a);
        engine := o.engine;
        if o.err.None? {
          saved := a.(id := id);
        } else {
          errs.Append(Driver(o.err.value));
          assert errs.errors == [o.err.value];
        }
      } else {
        KeyedReplace(engine.activities, a);
        var o := UpdateRow(engine, a);
        engine := o.engine;
        if o.err.Some? {
          errs.Append(Driver(o.err.value));
          assert errs.errors == [o.err.value];
        }
      }
      err := AsError(errs.errors);
    }

    /** `findActivities`: an error opening or querying, or the query's rows
        scanned by `ScanRows`. */
    method FindActivities(f: Filter) returns (activities: seq<Activity>, err: Option<Error>)
      ensures (activities, err) == Found(engine, f)
    {
      var errs := new DatabaseErrors();
      activities := [];
      if !engine.registered {
        errs.Append(Driver(UnknownDriver));
        assert errs.errors == [UnknownDriver];
        return activities, AsError(errs.errors);
      }
      if engine.activities.None? {
        errs.Append(Driver(NoSuchTable("activities")));
        assert errs.errors == [NoSuchTable("activities")];
      } else {
        activities := ScanRows(Selected(engine.activities.value, f), errs);
      }
      err := AsError(errs.errors);
    }

    /** `FindActivity`. */
    method FindActivity(id: int) returns (found: Option<Activity>, err: Option<Error>)
      ensures (found, err) == FindOne(engine, id)
    {
      var activities, findErr := FindActivities(ById(id));
      if findErr.Some? {
        return None, findErr;
      }
      if |activities| == 0 {
        return None, Some(NotFound);
      }
      return Some(activities[0]), None;
    }

    /** `FindAllActivities`. */
    method FindAllActivities() returns (activities: seq<Activity>, err: Option<Error>)
      ensures (activities, err) == Found(engine, All)
    {
      activities, err := FindActivities(All);
    }

    /** `FindRunningActivities`: the rows whose end is the zero time. */
    method FindRunningActivities() returns (activities: seq<Activity>, err: Option<Error>)
      ensures (activities, err) == Found(engine, Running)
      ensures forall a :: a in activities ==> IsRunning(a)
    {
      activities, err := FindActivities(Running);
      if engine.registered && engine.activities.Some? {
        FoundExactly(engine, Running, StoredRow(0, Null, Null, Null, Null, Null));
      }
    }

    /** `FindActivitiesBetween`: the rows that start in [lower, upper). */
    method FindActivitiesBetween(lower: int, upper: int) returns (activities: seq<Activity>, err: Option<Error>)
      ensures (activities, err) == Found(engine, Between(lower, upper))
      ensures forall a :: a in activities ==> lower <= a.start < upper
    {
      activities, err := FindActivities(Between(lower, upper));
      if engine.registered && engine.activities.Some? {
        FoundExactly(engine, Between(lower, upper), StoredRow(0, Null, Null, Null, Null, Null));
      }
    }

    /** `DeleteActivity`. */
    method DeleteActivity(id: int) returns (err: Option<Error>)
      requires Valid()
      modifies this
      ensures Valid()
      ensures (engine, err) == Delete(old(engine), id)
    {
      if !engine.registered {
        return Some(Driver(UnknownDriver));
      }
      var (o, n) := DeleteRows(engine, id);
      engine := o.engine;
      if o.err.Some? {
        return Some(Driver(o.err.value));
      }
      WithoutCount(old(engine).activities.value, id);
      WithoutKeyed(old(engine).activities.value, id);
      if n != 1 {
        return Some(NotFound);
      }
      return None;
    }
  }

  /** The `rows.Next()` loop of `findActivities`: every row is scanned; a
      row that does not scan adds its error to `errs` and the loop goes on. */
  method ScanRows(rows: seq<StoredRow>, errs: DatabaseErrors) returns (activities: seq<Activity>)
    requires errs.errors == []
    modifies errs
    ensures Collected(activities, errs.errors) == Collect(rows)
  {
    activities := [];
    var i := 0;
    while i < |rows|
      invariant 0 <= i <= |rows|
      invariant Collect(rows).activities == activities + Collect(rows[i..]).activities
      invariant Collect(rows).errors == errs.errors + Collect(rows[i..]).errors
      decreases |rows| - i
    {
      CollectSplit(rows, i, activities, errs.errors);
      match ScanRow(rows[i]) {
        case Some(a) =>
          activities := activities + [a];
        case None =>
          errs.Append(Driver(ScanFailure));
      }
      i := i + 1;
    }
    assert rows[i..] == [];
    assert activities + [] == activities && errs.errors + [] == errs.errors;
  }
}
