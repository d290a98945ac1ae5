/** The commands of the command line, run over the SQL backend: those of
    commands.go, of src/hourglass/commands/commands.go and of
    src/hourglass/commands.go. The clock reading, the calendar bounds of
    "today", the date parser and the row layout of the tables are
    parameters. */
module Commands {
  import opened Wrappers
  import Strings
  import Decimal
  import opened Activities
  import opened Database
  import opened SqlBackend
  import opened ProjectTotals

  /** How a command set prints and fails: commands.go and
      src/hourglass/commands/commands.go put "\n" between output lines and
      report a `SyntaxError`; src/hourglass/commands.go ends every line
      with "\n" and reports a plain `errors.New` value. */
  datatype Style = Joined | Terminated

  /** The output text of some lines in the style. */
  function Report(lines: seq<string>, style: Style): string
  {
    match style
    case Joined => Strings.Join(lines, "\n")
    case Terminated => Terminate(lines)
  }

  function Terminate(lines: seq<string>): string
  {
    if lines == [] then "" else Terminate(lines[..|lines| - 1]) + lines[|lines| - 1] + "\n"
  }

  /** One more line of output: after a "\n" when lines are joined and there
      is one already, followed by "\n" when every line is terminated. */
  lemma ReportSnoc(lines: seq<string>, line: string, style: Style)
    ensures Report(lines + [line], style) == match style
      case Joined => if lines == [] then line else Report(lines, style) + "\n" + line
      case Terminated => Report(lines, style) + line + "\n"
  {
    Strings.JoinSnoc(lines, line, "\n");
    assert (lines + [line])[..|lines|] == lines;
  }

  /** The error for a missing argument in the style. */
  function Usage(message: string, style: Style): (err: Error)
    ensures err.Message() == (if style == Joined then "syntax error: " + message else message)
  {
    match style
    case Joined => Syntax(message)
    case Terminated => Plain(message)
  }

  // `StartCommand`.

  /** The argument loop of `StartCommand.Run`: the first argument is the
      name, the second the project, and all from the third on are tags. */
  method PartitionArgs(args: seq<string>) returns (name: string, project: string, tags: seq<string>)
    ensures name == (if |args| > 0 then args[0] else "")
    ensures project == (if |args| > 1 then args[1] else "")
    ensures tags == (if |args| > 2 then args[2..] else [])
  {
    name, project, tags := "", "", [];
    var i := 0;
    while i < |args|
      invariant 0 <= i <= |args|
      invariant name == (if i > 0 then args[0] else "")
      invariant project == (if i > 1 then args[1] else "")
      invariant tags == (if i > 2 then args[2..] else [])
    {
      if i == 0 {
        name := args[i];
      } else if i == 1 {
        project := args[i];
      } else if i == 2 {
        tags := args[2..];
      }
      i := i + 1;
    }
  }

  /** The activity `StartCommand` saves. */
  function Requested(args: seq<string>, now: int): Activity
    requires |args| > 0
  {
    NewActivity(args[0], if |args| > 1 then args[1] else "", if |args| > 2 then args[2..] else [], now)
  }

  /** `StartCommand.Run`: without arguments an error and nothing saved;
      otherwise the new activity is saved and its id reported. */
  method StartCommand(db: Sql, args: seq<string>, now: int, style: Style) returns (output: string, err: Option<Error>)
    requires db.Valid()
    modifies db
    ensures db.Valid()
    ensures |args| == 0 ==>
      output == "" && err == Some(Usage("missing name argument", style)) && db.engine == old(db.engine)
    ensures |args| > 0 ==>
      var r := Save(old(db.engine), Requested(args, now));
      db.engine == r.engine && err == AsError(r.errors)
      && output == (if r.errors == [] then Report(["started activity " + Decimal.FormatInt(r.saved.id)], style) else "")
  {
    output := "";
    if |args| == 0 {
      return "", Some(Usage("missing name argument", style));
    }
    var name, project, tags := PartitionArgs(args);
    var saved;
    saved, err := db.SaveActivity(NewActivity(name, project, tags, now));
    if err.None? {
      ReportSnoc([], "started activity " + Decimal.FormatInt(saved.id), style);
      output := Report(["started activity " + Decimal.FormatInt(saved.id)], style);
    }
  }

  /** A successful start stores what the arguments say: the name, the
      project or "", the tags or none, started now and running. */
  lemma StartStoresArguments(e: Engine, args: seq<string>, now: int)
    requires Ready(e) && |args| > 0
    requires |args| > 2 ==> TagsRoundTrip(args[2..])
    ensures Save(e, Requested(args, now)).errors == []
    ensures var r := Save(e, Requested(args, now));
      FindOne(r.engine, r.saved.id).1.None?
      && var a := FindOne(r.engine, r.saved.id).0.value;
      a.name == args[0] && a.project == (if |args| > 1 then args[1] else "")
      && a.tags == (if |args| > 2 then args[2..] else [])
      && a.start == now && a.end == ZeroTime && IsRunning(a)
  {
    if |args| > 2 {
      TagListRoundTrip(args[2..]);
    }
    FindAfterSave(e, Requested(args, now));
  }

  // `StopCommand`.

  /** The state of the stop loop once it is over: the engine, the ids of
      the activities it stopped, and the error that ended it, if any. */
  datatype Stopping = Stopping(engine: Engine, ids: seq<int>, err: Option<Error>)

  /** The stop loop over `running`: each activity gets end `now` and is
      saved; the first failed save ends the loop. */
  function StopAll(e: Engine, running: seq<Activity>, now: int): (r: Stopping)
    requires e.activities.Some? ==> Keyed(e.activities.value)
    ensures r.engine.activities.Some? ==> Keyed(r.engine.activities.value)
    ensures |r.ids| <= |running|
    decreases |running|
  {
    if running == [] then Stopping(e, [], None)
    else
      var s := Save(e, running[0].(end := now));
      if s.errors != [] then Stopping(s.engine, [], AsError(s.errors))
      else
        var rest := StopAll(s.engine, running[1..], now);
        Stopping(rest.engine, [s.saved.id] + rest.ids, rest.err)
  }

  /** The line reporting a stopped activity. */
  function StopLine(id: int): string
  {
    "stopped activity " + Decimal.FormatInt(id)
  }

  /** One `StopLine` per id. */
  function StopLines(ids: seq<int>): (lines: seq<string>)
    ensures |lines| == |ids|
  {
    seq(|ids|, i requires 0 <= i < |ids| => StopLine(ids[i]))
  }

  /** `StopCommand.Run`: with arguments nothing happens; otherwise every
      running activity is stopped at one instant, one line per activity,
      until a save fails. A failed save returns the lines so far. */
  method StopCommand(db: Sql, args: seq<string>, now: int, style: Style) returns (output: string, err: Option<Error>)
    requires db.Valid()
    modifies db
    ensures db.Valid()
    ensures |args| > 0 ==> output == "" && err.None? && db.engine == old(db.engine)
    ensures |args| == 0 && Found(old(db.engine), Running).1.Some? ==>
      output == "" && err == Found(old(db.engine), Running).1 && db.engine == old(db.engine)
    ensures |args| == 0 && Found(old(db.engine), Running).1.None? ==>
      var r := StopAll(old(db.engine), Found(old(db.engine), Running).0, now);
      db.engine == r.engine && err == r.err && output == Report(StopLines(r.ids), style)
  {
    output, err := "", None;
    if |args| > 0 {
      return;
    }
    var running, findErr := db.FindRunningActivities();
    if findErr.Some? {
      return "", findErr;
    }
    output, err := StopEach(db, running, now, style);
  }

  /** The loop of `StopCommand.Run` over the running activities. */
  method StopEach(db: Sql, running: seq<Activity>, now: int, style: Style) returns (output: string, err: Option<Error>)
    requires db.Valid()
    modifies db
    ensures db.Valid()
    ensures var r := StopAll(old(db.engine), running, now);
      db.engine == r.engine && err == r.err && output == Report(StopLines(r.ids), style)
  {
    output, err := "", None;
    ghost var target := StopAll(db.engine, running, now);
    ghost var ids: seq<int> := [];
    assert running[0..] == running;
    var i := 0;
    while i < |running| && err.None?
      invariant 0 <= i <= |running| && |ids| == i
      invariant db.Valid()
      invariant Tracks(target, db.engine, running, i, ids, err, now)
      invariant output == Report(StopLines(ids), style)
      decreases |running| - i, if err.None? then 1 else 0
    {
      output, err, ids := StopNext(db, running, i, now, style, output, ids, target);
      if err.None? {
        i := i + 1;
      }
    }
    StopLoopDone(target, db.engine, running, i, ids, err, now);
  }

  /** One turn of the stop loop: the `i`-th running activity gets end
      `now` and is saved; on success its line is added to the output. */
  method StopNext(db: Sql, running: seq<Activity>, i: nat, now: int, style: Style, output: string,
                  ghost ids: seq<int>, ghost target: Stopping)
    returns (next: string, err: Option<Error>, ghost nextIds: seq<int>)
    requires db.Valid() && i < |running| && |ids| == i
    requires Tracks(target, db.engine, running, i, ids, None, now)
    requires output == Report(StopLines(ids), style)
    modifies db
    ensures db.Valid()
    ensures err.None? ==>
      |nextIds| == i + 1 && Tracks(target, db.engine, running, i + 1, nextIds, None, now)
      && next == Report(StopLines(nextIds), style)
    ensures err.Some? ==>
      nextIds == ids && Tracks(target, db.engine, running, i, ids, err, now)
      && next == Report(StopLines(ids), style)
  {
    ghost var before := db.engine;
    var saved;
    saved, err := db.SaveActivity(running[i].(end := now));
    StopLoopStep(target, before, running, i, now, ids);
    next, nextIds := output, ids;
    if err.None? {
      next := AppendStopLine(output, ids, saved.id, i == 0, style);
      nextIds := ids + [saved.id];
    }
  }

  /** The invariant of the stop loop: with `i` activities stopped under
      `ids`, either the rest of the loop still leads to `target`, or a save
      failed and `target` is where the loop stopped. */
  ghost predicate Tracks(target: Stopping, e: Engine, running: seq<Activity>, i: nat, ids: seq<int>, err: Option<Error>, now: int)
  {
    i <= |running| && (e.activities.Some? ==> Keyed(e.activities.value)) &&
    if err.None? then
      var rest := StopAll(e, running[i..], now);
      target == Stopping(rest.engine, ids + rest.ids, rest.err)
    else
      target == Stopping(e, ids, err)
  }

  /** Where the stop loop ends: at `target`. */
  lemma StopLoopDone(target: Stopping, e: Engine, running: seq<Activity>, i: nat, ids: seq<int>, err: Option<Error>, now: int)
    requires Tracks(target, e, running, i, ids, err, now)
    requires !(i < |running| && err.None?)
    ensures target == Stopping(e, ids, err)
  {
    if err.None? {
      assert running[i..] == [];
      assert ids + [] == ids;
    }
  }

  /** The output of the stop loop after one more stopped activity: a "\n"
      before every line but the first, or after every line. */
  method AppendStopLine(output: string, ghost ids: seq<int>, id: int, first: bool, style: Style) returns (next: string)
    requires output == Report(StopLines(ids), style) && first == (ids == [])
    ensures next == Report(StopLines(ids + [id]), style)
  {
    StopReportStep(ids, id, style);
    next := output;
    match style {
      case Joined =>
        if !first {
          next := next + "\n";
        }
        next := next + StopLine(id);
      case Terminated =>
        next := next + StopLine(id) + "\n";
    }
  }

  /** The loop invariant of `StopCommand` after one more save. */
  lemma StopLoopStep(target: Stopping, e: Engine, running: seq<Activity>, i: nat, now: int, ids: seq<int>)
    requires i < |running|
    requires Tracks(target, e, running, i, ids, None, now)
    ensures var s := Save(e, running[i].(end := now));
      (s.errors != [] ==> Tracks(target, s.engine, running, i, ids, AsError(s.errors), now))
      && (s.errors == [] ==> Tracks(target, s.engine, running, i + 1, ids + [s.saved.id], None, now))
  {
    StopAllStep(e, running, i, now);
    var s := Save(e, running[i].(end := now));
    if s.errors == [] {
      var rest := StopAll(s.engine, running[i + 1..], now);
      assert ids + ([s.saved.id] + rest.ids) == (ids + [s.saved.id]) + rest.ids;
    }
  }

  /** One turn of the stop loop. */
  lemma StopAllStep(e: Engine, running: seq<Activity>, i: nat, now: int)
    requires e.activities.Some? ==> Keyed(e.activities.value)
    requires i < |running|
    ensures StopAll(e, running[i..], now) ==
      var s := Save(e, running[i].(end := now));
      if s.errors != [] then Stopping(s.engine, [], AsError(s.errors))
      else
        var rest := StopAll(s.engine, running[i + 1..], now);
        Stopping(rest.engine, [s.saved.id] + rest.ids, rest.err)
  {
    assert running[i..][1..] == running[i + 1..];
  }

  /** The report after one more stopped activity. */
  lemma StopReportStep(ids: seq<int>, id: int, style: Style)
    ensures Report(StopLines(ids + [id]), style) == match style
      case Joined => if ids == [] then StopLine(id) else Report(StopLines(ids), style) + "\n" + StopLine(id)
      case Terminated => Report(StopLines(ids), style) + StopLine(id) + "\n"
  {
    assert StopLines(ids + [id]) == StopLines(ids) + [StopLine(id)];
    ReportSnoc(StopLines(ids), StopLine(id), style);
  }

  /** The ids of some rows, in order. */
  function IdList(rows: seq<StoredRow>): (ids: seq<int>)
    ensures |ids| == |rows| && forall i :: 0 <= i < |rows| ==> ids[i] == rows[i].id
  {
    seq(|rows|, i requires 0 <= i < |rows| => rows[i].id)
  }

  /** The rows once those with the listed ids have end `now`. */
  function StopRows(rows: seq<StoredRow>, ids: seq<int>, now: int): (r: seq<StoredRow>)
    ensures |r| == |rows|
    ensures forall i :: 0 <= i < |rows| ==> r[i] == if rows[i].id in ids then rows[i].(end := Timestamp(now)) else rows[i]
  {
    seq(|rows|, i requires 0 <= i < |rows| => if rows[i].id in ids then rows[i].(end := Timestamp(now)) else rows[i])
  }

  /** A scanned row saved again with a new end is the row with that end. */
  lemma RowOfStopped(row: StoredRow, a: Activity, now: int)
    requires ScanRow(row) == Some(a)
    ensures RowOf(a.id, a.(end := now)) == row.(end := Timestamp(now))
  {
    TagListOfSetTagList(row.tags.s);
  }

  /** Stopping rows keeps their ids. */
  lemma StopRowsKeyed(rows: seq<StoredRow>, ids: seq<int>, now: int)
    requires Keyed(rows)
    ensures Keyed(StopRows(rows, ids, now))
  {
    var r := StopRows(rows, ids, now);
    assert forall i :: 0 <= i < |rows| ==> r[i].id == rows[i].id;
  }

  /** The ids of one more row. */
  lemma IdListSnoc(sel: seq<StoredRow>, k: nat)
    requires k < |sel|
    ensures IdList(sel[..k + 1]) == IdList(sel[..k]) + [sel[k].id]
  {
  }

  /** Saving the `k`-th running activity with its new end stops its row and
      no other. */
  lemma StopStep(rows: seq<StoredRow>, sel: seq<StoredRow>, running: seq<Activity>, k: nat, now: int)
    requires Keyed(rows) && k < |sel| && |running| == |sel|
    requires forall j :: 0 <= j < |sel| ==> sel[j] in rows && ScanRow(sel[j]) == Some(running[j])
    ensures running[k].id == sel[k].id && sel[k].id != 0
    ensures Keyed(StopRows(rows, IdList(sel[..k]), now))
    ensures Replace(StopRows(rows, IdList(sel[..k]), now), running[k].(end := now)) == StopRows(rows, IdList(sel[..k + 1]), now)
  {
    var a := running[k].(end := now);
    var target := sel[k];
    var before := IdList(sel[..k]);
    var cur := StopRows(rows, before, now);
    var next := StopRows(rows, IdList(sel[..k + 1]), now);
    var m :| 0 <= m < |rows| && rows[m] == target;
    IdListSnoc(sel, k);
    RowOfStopped(target, running[k], now);
    StopRowsKeyed(rows, before, now);
    var replaced := Replace(cur, a);
    assert |replaced| == |next|;
    forall i | 0 <= i < |rows| ensures replaced[i] == next[i] {
      if rows[i].id == target.id {
        assert i == m;
      }
    }
  }

  /** Saving the `k`-th running activity with its new end is an update that
      succeeds and stops its row. */
  lemma StopSave(e: Engine, rows: seq<StoredRow>, sel: seq<StoredRow>, running: seq<Activity>, k: nat, now: int)
    requires Keyed(rows) && k < |sel| && |running| == |sel|
    requires forall j :: 0 <= j < |sel| ==> sel[j] in rows && ScanRow(sel[j]) == Some(running[j])
    requires e.registered && e.activities == Some(StopRows(rows, IdList(sel[..k]), now))
    ensures Keyed(e.activities.value)
    ensures Save(e, running[k].(end := now)) ==
      Saving(e.(activities := Some(StopRows(rows, IdList(sel[..k + 1]), now))), running[k].(end := now), [])
  {
    StopStep(rows, sel, running, k, now);
  }

  /** From the `k`-th running activity on, the stop loop stops every
      remaining row and fails nowhere. */
  lemma {:induction false} StopAllFrom(e: Engine, rows: seq<StoredRow>, sel: seq<StoredRow>, running: seq<Activity>, k: nat, now: int)
    requires Keyed(rows) && k <= |sel| && |running| == |sel|
    requires forall j :: 0 <= j < |sel| ==> sel[j] in rows && ScanRow(sel[j]) == Some(running[j])
    requires e.registered && e.activities == Some(StopRows(rows, IdList(sel[..k]), now))
    ensures StopAll(e, running[k..], now) == Stopping(e.(activities := Some(StopRows(rows, IdList(sel), now))), IdList(sel[k..]), None)
    decreases |sel| - k
  {
    if k == |sel| {
      assert sel[..k] == sel;
      assert running[k..] == [];
    } else {
      StopSave(e, rows, sel, running, k, now);
      StopAllStep(e, running, k, now);
      var next := e.(activities := Some(StopRows(rows, IdList(sel[..k + 1]), now)));
      StopAllFrom(next, rows, sel, running, k + 1, now);
      IdListCons(sel, k);
    }
  }

  /** The ids from the `k`-th row on. */
  lemma IdListCons(sel: seq<StoredRow>, k: nat)
    requires k < |sel|
    ensures IdList(sel[k..]) == [sel[k].id] + IdList(sel[k + 1..])
  {
  }

  /** On a usable table with the clock past the zero time, stopping
      succeeds, gives each running row (in table order) the one end `now`,
      leaves every other row as it was, and leaves nothing running. */
  lemma StopEndsAllRunning(e: Engine, now: int)
    requires Ready(e) && now != ZeroTime
    ensures Found(e, Running).1.None?
    ensures var r := StopAll(e, Found(e, Running).0, now);
      var rows := e.activities.value;
      r.err.None? && r.ids == IdList(Selected(rows, Running))
      && r.engine == e.(activities := Some(StopRows(rows, r.ids, now)))
      && Ready(r.engine) && Found(r.engine, Running) == ([], None)
  {
    var rows := e.activities.value;
    var sel := Selected(rows, Running);
    CollectWellTyped(sel);
    var running := Found(e, Running).0;
    assert sel[..0] == [] && running[0..] == running && sel[0..] == sel;
    assert StopRows(rows, [], now) == rows;
    StopAllFrom(e, rows, sel, running, 0, now);
    StoppedRowsIdle(rows, now);
  }

  /** Once every running row is stopped at a non-zero time the table is
      still usable and nothing in it is running. */
  lemma StoppedRowsIdle(rows: seq<StoredRow>, now: int)
    requires Keyed(rows) && WellTyped(rows) && now != ZeroTime
    ensures var final := StopRows(rows, IdList(Selected(rows, Running)), now);
      Keyed(final) && WellTyped(final) && Selected(final, Running) == []
  {
    var sel := Selected(rows, Running);
    var final := StopRows(rows, IdList(sel), now);
    forall x | x in final ensures ScanRow(x).Some? && !Selects(Running, x) {
      var i :| 0 <= i < |final| && final[i] == x;
      assert rows[i] in rows;
    }
    NoneSelected(final, Running);
  }

  /** A query selects nothing from rows none of which satisfy its clause. */
  lemma {:induction false} NoneSelected(rows: seq<StoredRow>, f: Filter)
    requires forall x :: x in rows ==> !Selects(f, x)
    ensures Selected(rows, f) == []
  {
    if rows != [] {
      assert rows[0] in rows;
      assert forall x :: x in rows[1..] ==> x in rows;
      NoneSelected(rows[1..], f);
    }
  }

  // `RestartCommand`.

  /** The copy `RestartCommand` saves: no id, so that the save inserts it,
      started now and running. */
  function Restarted(a: Activity, now: int): Activity
  {
    a.(id := 0, start := now, end := ZeroTime)
  }

  /** `RestartCommand.Run`: the id argument must be present and an
      integer; the activity is looked up and saved again as a new one. */
  method RestartCommand(db: Sql, args: seq<string>, now: int) returns (output: string, err: Option<Error>)
    requires db.Valid()
    modifies db
    ensures db.Valid()
    ensures |args| == 0 ==> output == "" && err == Some(Syntax("missing id argument")) && db.engine == old(db.engine)
    ensures |args| > 0 && Decimal.ParseInt(args[0]).err.Some? ==>
      output == "" && err == Some(Syntax("invalid id argument")) && db.engine == old(db.engine)
    ensures |args| > 0 && Decimal.ParseInt(args[0]).err.None? ==>
      var id := Decimal.ParseInt(args[0]).value;
      var found := FindOne(old(db.engine), id);
      if found.1.Some? then output == "" && err == found.1 && db.engine == old(db.engine)
      else
        var r := Save(old(db.engine), Restarted(found.0.value, now));
        db.engine == r.engine && err == AsError(r.errors)
        && output == (if r.errors == [] then "restarted activity " + Decimal.FormatInt(id) + " (new id: " + Decimal.FormatInt(r.saved.id) + ")" else "")
  {
    output := "";
    if |args| == 0 {
      return "", Some(Syntax("missing id argument"));
    }
    var parsed := Decimal.ParseInt(args[0]);
    if parsed.err.Some? {
      return "", Some(Syntax("invalid id argument"));
    }
    var id := parsed.value;
    var found;
    found, err := db.FindActivity(id);
    if err.Some? {
      return;
    }
    var saved;
    saved, err := db.SaveActivity(Restarted(found.value, now));
    if err.None? {
      output := "restarted activity " + Decimal.FormatInt(id) + " (new id: " + Decimal.FormatInt(saved.id) + ")";
    }
  }

  /** An activity read from the table keeps its tags through a save. */
  lemma FoundTagsSurvive(e: Engine, id: int)
    requires Ready(e) && FindOne(e, id).0.Some?
    ensures var a := FindOne(e, id).0.value; SetTagList(TagList(a.tags)) == a.tags
  {
    var a := FindOne(e, id).0.value;
    CollectContents(Selected(e.activities.value, ById(id)));
    assert a in Found(e, ById(id)).0;
    var row :| row in Selected(e.activities.value, ById(id)) && ScanRow(row) == Some(a);
    TagListOfSetTagList(row.tags.s);
  }

  /** Restarting an existing activity adds a new running copy of it under a
      new id, started now, and leaves the original as it was. */
  lemma RestartCopies(e: Engine, id: int, now: int)
    requires Ready(e) && HasId(e.activities.value, id)
    ensures FindOne(e, id).0.Some?
    ensures var a := FindOne(e, id).0.value;
      var r := Save(e, Restarted(a, now));
      r.errors == [] && r.saved.id != id && Ready(r.engine)
      && FindOne(r.engine, r.saved.id) == (Some(a.(id := r.saved.id, start := now, end := ZeroTime)), None)
      && FindOne(r.engine, id) == FindOne(e, id)
  {
    FindOneNotFound(e, id);
    var a := FindOne(e, id).0.value;
    FoundTagsSurvive(e, id);
    FindAfterSave(e, Restarted(a, now));
    var r := Save(e, Restarted(a, now));
    assert r.saved.id != id;
    FindOtherAfterInsert(e, Restarted(a, now), id);
  }

  // `EditCommand`.

  const EditFields: set<string> := {"name", "project", "tags", "start", "end"}

  /** The field switch of `EditCommand.Run`: the activity with one field
      set from the values, or the syntax error for a bad edit. */
  function Edited(a: Activity, field: string, values: seq<string>, parseDate: string -> Option<int>): (r: Result<Activity, Error>)
    ensures r.Ok? ==> r.value.id == a.id
    ensures r.Ok? ==>
      (field == "name" || r.value.name == a.name) && (field == "project" || r.value.project == a.project)
      && (field == "tags" || r.value.tags == a.tags) && (field == "start" || r.value.start == a.start)
      && (field == "end" || r.value.end == a.end)
    ensures r.Err? <==>
      field !in EditFields || (values == [] && field in {"name", "start", "end"})
      || (values != [] && field in {"start", "end"} && parseDate(Strings.Join(values, " ")).None?)
    ensures r.Err? ==> r.error.Syntax?
    ensures field == "project" && values == [] ==> r == Ok(a.(project := ""))
    ensures field == "tags" ==> r == Ok(a.(tags := values))
  {
    if field == "name" then
      if values != [] then Ok(a.(name := Strings.Join(values, " "))) else Err(Syntax("name is required"))
    else if field == "project" then
      Ok(a.(project := if values != [] then Strings.Join(values, " ") else ""))
    else if field == "tags" then
      Ok(a.(tags := values))
    else if field == "start" || field == "end" then
      if values == [] then Err(Syntax("date is required"))
      else
        match parseDate(Strings.Join(values, " "))
        case None => Err(Syntax("invalid date"))
        case Some(t) => Ok(if field == "start" then a.(start := t) else a.(end := t))
    else Err(Syntax("invalid field name"))
  }

  /** `EditCommand.Run`: at least an id and a field; the id must be an
      integer; the activity is looked up, edited and saved, and "ok" is
      the output. */
  method EditCommand(db: Sql, args: seq<string>, parseDate: string -> Option<int>) returns (output: string, err: Option<Error>)
    requires db.Valid()
    modifies db
    ensures db.Valid()
    ensures |args| <= 1 ==>
      output == "" && err == Some(Syntax("must have at least 3 arguments")) && db.engine == old(db.engine)
    ensures |args| > 1 && Decimal.ParseInt(args[0]).err.Some? ==>
      output == "" && err == Some(Syntax("non-integer id")) && db.engine == old(db.engine)
    ensures |args| > 1 && Decimal.ParseInt(args[0]).err.None? ==>
      var found := FindOne(old(db.engine), Decimal.ParseInt(args[0]).value);
      if found.1.Some? then output == "" && err == found.1 && db.engine == old(db.engine)
      else match Edited(found.0.value, args[1], args[2..], parseDate)
        case Err(e) => output == "" && err == Some(e) && db.engine == old(db.engine)
        case Ok(a) =>
          var r := Save(old(db.engine), a);
          db.engine == r.engine && err == AsError(r.errors) && output == (if r.errors == [] then "ok" else "")
  {
    output := "";
    if |args| <= 1 {
      return "", Some(Syntax("must have at least 3 arguments"));
    }
    var parsed := Decimal.ParseInt(args[0]);
    if parsed.err.Some? {
      return "", Some(Syntax("non-integer id"));
    }
    var found;
    found, err := db.FindActivity(parsed.value);
    if err.Some? {
      return;
    }
    match Edited(found.value, args[1], args[2..], parseDate) {
      case Err(e) =>
        return "", Some(e);
      case Ok(a) =>
        var saved;
        saved, err := db.SaveActivity(a);
        if err.None? {
          output := "ok";
        }
    }
  }

  /** An edit of an existing activity is saved and read back as edited;
      new tags must survive their one-string form. */
  lemma EditThenFind(e: Engine, id: int, field: string, values: seq<string>, parseDate: string -> Option<int>)
    requires Ready(e) && HasId(e.activities.value, id)
    requires field == "tags" ==> TagsRoundTrip(values)
    ensures FindOne(e, id).0.Some?
    ensures var edit := Edited(FindOne(e, id).0.value, field, values, parseDate);
      edit.Ok? ==> Save(e, edit.value).errors == [] && FindOne(Save(e, edit.value).engine, id) == (Some(edit.value), None)
  {
    FindOneNotFound(e, id);
    var found := FindOne(e, id).0.value;
    var edit := Edited(found, field, values, parseDate);
    if edit.Ok? {
      FoundTagsSurvive(e, id);
      if field == "tags" {
        TagListRoundTrip(values);
      }
      var k :| 0 <= k < |e.activities.value| && e.activities.value[k].id == id;
      FindAfterSave(e, edit.value);
    }
  }

  // `DeleteCommand`.

  /** `DeleteCommand.Run`: the id argument must be present and an
      integer; the activity is deleted and its id reported. */
  method DeleteCommand(db: Sql, args: seq<string>) returns (output: string, err: Option<Error>)
    requires db.Valid()
    modifies db
    ensures db.Valid()
    ensures |args| == 0 ==> output == "" && err == Some(Syntax("missing id argument")) && db.engine == old(db.engine)
    ensures |args| > 0 && Decimal.ParseInt(args[0]).err.Some? ==>
      output == "" && err == Some(Syntax("invalid id argument")) && db.engine == old(db.engine)
    ensures |args| > 0 && Decimal.ParseInt(args[0]).err.None? ==>
      var id := Decimal.ParseInt(args[0]).value;
      (db.engine, err) == Delete(old(db.engine), id)
      && output == (if err.None? then "deleted activity " + Decimal.FormatInt(id) else "")
  {
    output := "";
    if |args| == 0 {
      return "", Some(Syntax("missing id argument"));
    }
    var parsed := Decimal.ParseInt(args[0]);
    if parsed.err.Some? {
      return "", Some(Syntax("invalid id argument"));
    }
    err := db.DeleteActivity(parsed.value);
    if err.None? {
      output := "deleted activity " + Decimal.FormatInt(parsed.value);
    }
  }

  // Tables of activities: `activityTable.String` and `StatusCommand`.

  /** The lines of a table below its header, each after a "\n"; `row`
      lays out one activity with its duration. */
  function Rows(activities: seq<Activity>, now: int, row: (Activity, int) -> string): string
  {
    if activities == [] then ""
    else
      var last := activities[|activities| - 1];
      Rows(activities[..|activities| - 1], now, row) + "\n" + row(last, Duration(last, now))
  }

  /** The table loop: the header, one line per activity, and every
      activity's duration added to its project's total once. */
  method Accumulate(header: string, activities: seq<Activity>, now: int, row: (Activity, int) -> string)
    returns (output: string, totals: ProjectDurationList)
    ensures fresh(totals) && totals.Valid()
    ensures Names(totals.entries) == Projects(activities)
    ensures forall p :: Total(totals.entries, p) == SumFor(activities, p, now)
    ensures output == header + Rows(activities, now, row)
  {
    totals := new ProjectDurationList();
    output := header;
    var i := 0;
    while i < |activities|
      invariant 0 <= i <= |activities|
      invariant fresh(totals) && totals.Valid()
      invariant Names(totals.entries) == Projects(activities[..i])
      invariant forall p :: Total(totals.entries, p) == SumFor(activities[..i], p, now)
      invariant output == header + Rows(activities[..i], now, row)
    {
      var a := activities[i];
      var duration := Duration(a, now);
      TableStep(activities, i, now, row);
      output := output + "\n" + row(a, duration);
      totals.Add(a.project, duration);
      i := i + 1;
    }
    assert activities[..i] == activities;
  }

  /** `activityTable.String` and the status table: the loop, then the
      totals after a "\n" when they are shown. */
  method Table(header: string, activities: seq<Activity>, now: int, row: (Activity, int) -> string, withTotals: bool)
    returns (output: string, totals: ProjectDurationList)
    ensures fresh(totals) && totals.Valid()
    ensures Names(totals.entries) == Projects(activities)
    ensures forall p :: Total(totals.entries, p) == SumFor(activities, p, now)
    ensures output == header + Rows(activities, now, row)
      + (if withTotals then "\n" + Strings.Join(Labels(totals.entries), ", ") else "")
  {
    output, totals := Accumulate(header, activities, now, row);
    if withTotals {
      var text := totals.String();
      output := output + "\n" + text;
    }
  }

  /** The table after one more activity: its line, its project, and its
      duration added to that project's sum. */
  lemma TableStep(activities: seq<Activity>, i: nat, now: int, row: (Activity, int) -> string)
    requires i < |activities|
    ensures var a := activities[i];
      Rows(activities[..i + 1], now, row) == Rows(activities[..i], now, row) + "\n" + row(a, Duration(a, now))
      && Projects(activities[..i + 1]) == Projects(activities[..i]) + {a.project}
      && (forall p :: SumFor(activities[..i + 1], p, now)
            == SumFor(activities[..i], p, now) + (if a.project == p then Duration(a, now) else 0))
  {
    var a := activities[i];
    assert activities[..i + 1][..i] == activities[..i];
    assert Projects(activities[..i + 1]) == Projects(activities[..i]) + {a.project} by {
      assert forall x :: x in activities[..i + 1] <==> x in activities[..i] || x == a;
    }
  }

  /** The three forms of `activityTable`. */
  datatype TableMode = DayMode | WeekMode | AllMode

  const DayHeader := "| id\t| name\t| project\t| tags\t| state\t| start\t| end\t| duration\t|"
  const AllHeader := "| date\t| id\t| name\t| project\t| tags\t| state\t| start\t| end\t| duration\t|"

  /** `activityTable.String`: the header of the mode and the activities,
      with the totals except in the "all" form. */
  method ActivityTable(activities: seq<Activity>, now: int, mode: TableMode, row: (Activity, int) -> string)
    returns (output: string, ghost totals: seq<ProjectDuration>)
    ensures Sorted(totals) && Names(totals) == Projects(activities)
    ensures forall p :: Total(totals, p) == SumFor(activities, p, now)
    ensures output == (if mode == AllMode then AllHeader else DayHeader) + Rows(activities, now, row)
      + (if mode != AllMode then "\n" + Strings.Join(Labels(totals), ", ") else "")
  {
    var list;
    output, list := Table(if mode == AllMode then AllHeader else DayHeader, activities, now, row, mode != AllMode);
    totals := list.entries;
  }

  const StatusHeader := "| id\t| name\t| project\t| tags\t| state\t| duration"
  const StatusAllHeader := "| date\t| id\t| name\t| project\t| tags\t| state\t| duration"
  const NoneToday := "there have been no activities today"
  const NoneAtAll := "there aren't any activities"

  /** `StatusCommand.Run`: with no argument the activities started in
      [lower, upper) (the calendar day, computed by the caller) with their
      totals; with "all" every activity without totals; otherwise nothing.
      An empty result gives a fixed message instead of a table. */
  method StatusCommand(db: Sql, args: seq<string>, now: int, lower: int, upper: int,
                       row: (Activity, int) -> string, datedRow: (Activity, int) -> string)
    returns (output: string, err: Option<Error>, ghost totals: seq<ProjectDuration>)
    ensures |args| == 0 ==>
      var found := Found(db.engine, Between(lower, upper));
      (found.1.Some? ==> output == "" && err == found.1)
      && (found.1.None? && found.0 == [] ==> output == NoneToday && err.None?)
      && (found.1.None? && found.0 != [] ==>
        err.None? && Sorted(totals) && Names(totals) == Projects(found.0)
        && (forall p :: Total(totals, p) == SumFor(found.0, p, now))
        && output == StatusHeader + Rows(found.0, now, row) + "\n" + Strings.Join(Labels(totals), ", "))
    ensures |args| > 0 && args[0] == "all" ==>
      var found := Found(db.engine, All);
      (found.1.Some? ==> output == "" && err == found.1)
      && (found.1.None? && found.0 == [] ==> output == NoneAtAll && err.None?)
      && (found.1.None? && found.0 != [] ==> err.None? && output == StatusAllHeader + Rows(found.0, now, datedRow))
    ensures |args| > 0 && args[0] != "all" ==> output == "" && err.None?
  {
    output, err, totals := "", None, [];
    if |args| == 0 {
      var activities;
      activities, err := db.FindActivitiesBetween(lower, upper);
      if err.Some? {
        return;
      }
      if |activities| == 0 {
        output := NoneToday;
      } else {
        var list;
        output, list := Table(StatusHeader, activities, now, row, true);
        totals := list.entries;
      }
    } else if args[0] == "all" {
      var activities;
      activities, err := db.FindAllActivities();
      if err.Some? {
        return;
      }
      if |activities| == 0 {
        output := NoneAtAll;
      } else {
        var list;
        output, list := Table(StatusAllHeader, activities, now, datedRow, false);
      }
    }
  }

  /** On a usable table the daily status finds no error, and shows the
      "no activities today" message exactly when no row starts in the day. */
  lemma StatusEmptyExactly(e: Engine, lower: int, upper: int)
    requires Ready(e)
    ensures Found(e, Between(lower, upper)).1.None?
    ensures Found(e, Between(lower, upper)).0 == [] <==>
      forall r :: r in e.activities.value ==> !Selects(Between(lower, upper), r)
  {
    FoundWithoutErrors(e, Between(lower, upper));
    var s := Selected(e.activities.value, Between(lower, upper));
    if s != [] {
      assert s[0] in s;
    }
  }
}
