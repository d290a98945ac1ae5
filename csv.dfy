/** The flat-file store (src/hourglass/csv.go). The file is a fixed-width
    front-matter line followed by CSV records; `Csv` caches the version and
    the last id handed out beside it. The bytes of the front matter are
    kept concretely and the records abstractly: the CSV record codec of
    `encoding/csv` is not part of this model. */
module CsvBackend {
  import opened Wrappers
  import Strings
  import Decimal
  import FrontMatter
  import opened Activities
  import opened Database

  const CsvVersion: int := 1

  /** The offset `seekPastFrontMatter` moves to before reading records. */
  const SeekOffset: nat := 45

  /** The column names stored as the first record by the migration. */
  const Header: seq<string> := ["id", "name", "project", "tags", "start", "end"]

  /** The contents of the store's file: the bytes before the records, then
      the records themselves. A failed operating-system call is given to
      the methods below as an optional error message. */
  datatype FileText = FileText(head: string, rows: seq<seq<string>>)

  const EmptyFile: FileText := FileText("", [])

  /** Records start at the seek offset, so the bytes before them are never
      longer than it, and the same as it once a record exists; the CSV
      reader skips empty lines, so no record is empty. */
  predicate WellFormed(t: FileText)
  {
    |t.head| <= SeekOffset
    && (t.rows != [] ==> |t.head| == SeekOffset)
    && forall i :: 0 <= i < |t.rows| ==> |t.rows[i]| > 0
  }

  /** The front matter is exactly as wide as the region readers skip. */
  lemma HeaderFillsSeekRegion(version: int, lastId: int)
    requires FrontMatter.Fits(version, lastId)
    ensures |FrontMatter.Encode(version, lastId)| == SeekOffset
  {
    FrontMatter.EncodeParse(version, lastId);
  }

  /** The file after `writeFrontMatter`: the write starts at offset 0 and
      does not truncate, so the header replaces the first bytes and the
      records stay as they were. */
  function WithFrontMatter(t: FileText, version: int, lastId: int): (r: FileText)
    requires WellFormed(t) && FrontMatter.Fits(version, lastId)
    ensures WellFormed(r) && |r.head| == SeekOffset && r.rows == t.rows
  {
    HeaderFillsSeekRegion(version, lastId);
    FileText(FrontMatter.Encode(version, lastId), t.rows)
  }

  /** The cached fields after `readFrontMatter`, and the error it returned. */
  datatype HeaderRead = HeaderRead(version: int, lastId: int, err: Option<Error>)

  /** The part of `readFrontMatter` after the first line is read: a line
      the header pattern does not match is bad front matter and keeps the
      cached values; a matching line gives its values, with ParseInt's
      error when the id overflows (Atoi of three digits cannot fail). */
  function ReadLine(line: string, version: int, lastId: int): (r: HeaderRead)
    ensures !FrontMatter.Matches(line) ==> r == HeaderRead(version, lastId, Some(BadFrontMatter))
    ensures FrontMatter.Matches(line) ==>
      var fields := FrontMatter.Parse(line).value;
      r.version == fields.version.value && r.lastId == fields.lastId.value
      && (r.err.None? <==> fields.lastId.err.None?)
      && (r.err.Some? ==> r.err.value.NumError?)
      && FrontMatter.Fits(r.version, r.lastId)
  {
    match FrontMatter.Parse(line)
    case None => HeaderRead(version, lastId, Some(BadFrontMatter))
    case Some(fields) =>
      var err := if fields.lastId.err.None? then None
                 else Some(NumError("ParseInt", line[25..44], fields.lastId.err.value));
      HeaderRead(fields.version.value, fields.lastId.value, err)
  }

  /** `readFrontMatter` on a file's contents, starting from the cached
      `version` and `lastId`. The first line is read up to its newline; an
      empty file is fine; a file with no newline ends in EOF; a first line
      the header pattern does not match is bad front matter. */
  function ReadHeader(t: FileText, version: int, lastId: int): (r: HeaderRead)
    requires WellFormed(t)
    ensures t == EmptyFile ==> r == HeaderRead(version, lastId, None)
    ensures r.err == Some(BadFrontMatter) || r.err == Some(EndOfFile) ==>
      r.version == version && r.lastId == lastId
    ensures r.err.None? && t != EmptyFile ==> FrontMatter.Matches(t.head) && FrontMatter.Fits(r.version, r.lastId)
    ensures FrontMatter.Fits(version, lastId) ==> FrontMatter.Fits(r.version, r.lastId)
    ensures var nl := Strings.IndexOf(t.head, "\n");
      nl.None? ==>
        r == HeaderRead(version, lastId,
                        if t.rows != [] then Some(BadFrontMatter) else if t.head == "" then None else Some(EndOfFile))
    ensures var nl := Strings.IndexOf(t.head, "\n");
      nl.Some? ==> r == ReadLine(t.head[..nl.value + 1], version, lastId)
  {
    match Strings.IndexOf(t.head, "\n")
    case None =>
      // Without a newline in the head the line either runs on into the
      // records, which makes it longer than the pattern allows, or the
      // file ends first.
      if t.rows != [] then HeaderRead(version, lastId, Some(BadFrontMatter))
      else if t.head == "" then HeaderRead(version, lastId, None)
      else HeaderRead(version, lastId, Some(EndOfFile))
    case Some(k) =>
      var line := t.head[..k + 1];
      assert FrontMatter.Matches(line) ==> line == t.head;
      ReadLine(line, version, lastId)
  }

  /** The only newline of a header that fits is its last byte. */
  lemma HeaderNewline(version: int, lastId: int)
    requires FrontMatter.Fits(version, lastId)
    ensures Strings.IndexOf(FrontMatter.Encode(version, lastId), "\n") == Some(SeekOffset - 1)
  {
    FrontMatter.EncodeParse(version, lastId);
    LastNewline(FrontMatter.Encode(version, lastId));
  }

  /** A line whose only newline is its last byte ends at that newline. */
  lemma LastNewline(h: string)
    requires |h| >= 1 && h[|h| - 1] == '\n'
    requires forall i :: 0 <= i < |h| - 1 ==> h[i] != '\n'
    ensures Strings.IndexOf(h, "\n") == Some(|h| - 1)
  {
    assert Strings.OccursAt(h, "\n", |h| - 1) by { assert h[|h| - 1..|h|] == "\n"; }
    var r := Strings.IndexOf(h, "\n");
    assert h[r.value..r.value + 1] == "\n";
    assert h[r.value] == '\n';
  }

  /** Reading the front matter back gives exactly what was written,
      whatever the records are. */
  lemma ReadAfterWrite(t: FileText, version: int, lastId: int, cachedVersion: int, cachedId: int)
    requires WellFormed(t) && FrontMatter.Fits(version, lastId)
    ensures ReadHeader(WithFrontMatter(t, version, lastId), cachedVersion, cachedId)
      == HeaderRead(version, lastId, None)
  {
    HeaderNewline(version, lastId);
    FrontMatter.EncodeParse(version, lastId);
    var h := FrontMatter.Encode(version, lastId);
    assert h[..SeekOffset] == h;
  }

  /** The file after `writeRecord`: the record goes after the last one. */
  function WithRecord(t: FileText, record: seq<string>): (r: FileText)
    requires WellFormed(t) && |t.head| == SeekOffset && record != []
    ensures WellFormed(r) && r.head == t.head
    ensures r.rows == t.rows + [record]
  {
    FileText(t.head, t.rows + [record])
  }

  /** The record `SaveActivity` writes for an activity under a given id. */
  function RecordOf(a: Activity, id: int): (r: seq<string>)
    ensures |r| == |Header|
    ensures Decimal.IsInt64(id) ==> Decimal.ParseInt(r[0]) == Decimal.ParsedInt(id, None)
  {
    var r := [Decimal.FormatInt(id), a.name, a.project, TagList(a.tags), FormatTime(a.start), FormatTime(a.end)];
    if Decimal.IsInt64(id) then Decimal.ParseFormatInt(id); r else r
  }

  /** The id the next save is given, or none once the int64 ids are used up
      (see NextIdAsWritten for the code as written). From a last id that
      fits a header, an id handed out is a fresh positive int64 whose header
      fits with any three-digit version. */
  function NextId(lastId: int): (r: Option<int>)
    ensures r.Some? <==> lastId < Decimal.MaxInt64
    ensures r.Some? ==> r.value == lastId + 1 <= Decimal.MaxInt64
    ensures r.Some? && 0 <= lastId ==> forall v :: 0 <= v < 1000 ==> FrontMatter.Fits(v, r.value)
  {
    if lastId < Decimal.MaxInt64 then Some(lastId + 1) else None
  }

  /** `id := db.lastId + 1` on an int64, as written: it wraps around. */
  function NextIdAsWritten(lastId: int): (r: int)
    requires Decimal.IsInt64(lastId)
    ensures Decimal.IsInt64(r)
    ensures lastId < Decimal.MaxInt64 ==> r == lastId + 1
  {
    Decimal.Wrap64(lastId + 1)
  }

  /** As written, saving at the last int64 id hands out the most negative
      id and writes a front matter one byte wider than the region readers
      skip, so the header overwrites the first byte of the records. */
  lemma SaveAtMaxIdOverrunsHeader()
    ensures NextIdAsWritten(Decimal.MaxInt64) == Decimal.MinInt64
    ensures |FrontMatter.Encode(CsvVersion, NextIdAsWritten(Decimal.MaxInt64))| == SeekOffset + 1
  {
    FrontMatter.EncodeWrappedIdOverruns();
  }

  /** With the corrected id allocation every header written fits. */
  lemma SavedHeaderFits(version: int, lastId: int)
    requires 0 <= version < 1000 && 0 <= lastId && NextId(lastId).Some?
    ensures FrontMatter.Fits(version, NextId(lastId).value)
    ensures |FrontMatter.Encode(version, NextId(lastId).value)| == SeekOffset
  {
    HeaderFillsSeekRegion(version, NextId(lastId).value);
  }

  /** The file after a migration from version 0 with no failure. */
  function MigratedFile(t: FileText): (r: FileText)
    requires WellFormed(t)
    ensures WellFormed(r) && r.rows == t.rows + [Header]
    ensures ReadHeader(r, 0, 0) == HeaderRead(CsvVersion, 1, None)
  {
    ReadAfterWrite(WithRecord(WithFrontMatter(t, 1, 1), Header), 1, 1, 0, 0);
    WithRecord(WithFrontMatter(t, 1, 1), Header)
  }

  /** A store migrated and reopened starts its ids at 2, though the same
      store saving straight after the migration gives its first record id
      1: the migration writes last-id 1 but leaves the cached id alone. */
  lemma ReopenAfterMigrate()
    ensures ReadHeader(MigratedFile(EmptyFile), 0, 0).lastId == 1
    ensures NextId(ReadHeader(MigratedFile(EmptyFile), 0, 0).lastId) == Some(2)
    ensures NextId(ReadHeader(EmptyFile, 0, 0).lastId) == Some(1)
  {
  }

  /** What `FindActivity` returns. */
  datatype Lookup = Lookup(found: Option<Activity>, err: Option<Error>)

  /** The id field of a record, as `strconv.ParseInt` reads it. */
  function RowId(record: seq<string>): (p: Decimal.ParsedInt)
    requires |record| > 0
  {
    Decimal.ParseInt(record[0])
  }

  /** A data record the scan passes over on its way to `id`: as wide as
      the first record, which fixes the width for the CSV reader, with an
      integer id that is not the one sought. */
  predicate Skipped(rows: seq<seq<string>>, k: int, id: int)
    requires 0 < k < |rows| && |rows[0]| > 0
  {
    |rows[k]| == |rows[0]| && RowId(rows[k]).err.None? && RowId(rows[k]).value != id
  }

  /** The activity of a matching record, its fields read in order: name,
      project and tags, then the start, then the end. A timestamp that does
      not parse stops decoding with the error, and the fields decoded so
      far are kept. Reading a field the record does not have makes the
      indexing panic: before the start for fewer than five fields, and
      before the end for five fields whose start parses. */
  function Decode(id: int, record: seq<string>): (r: Lookup)
    requires |record| > 0
    ensures r.found.Some? ==> r.found.value.id == id
    ensures r.found.None? <==> r.err == Some(IndexPanic)
    ensures r.found.None? <==> |record| < 5 || (|record| == 5 && ParseTime(record[4]).Some?)
    ensures r.err.None? ==> |record| >= 6 && ParseTime(record[4]).Some? && ParseTime(record[5]).Some?
  {
    if |record| < 5 then Lookup(None, Some(IndexPanic))
    else
      var base := Activity(id, record[1], record[2], SetTagList(record[3]), ZeroTime, ZeroTime);
      match ParseTime(record[4])
      case None => Lookup(Some(base), Some(TimeParse(record[4])))
      case Some(start) =>
        if |record| < 6 then Lookup(None, Some(IndexPanic))
        else
          match ParseTime(record[5])
          case None => Lookup(Some(base.(start := start)), Some(TimeParse(record[5])))
          case Some(end) => Lookup(Some(base.(start := start, end := end)), None)
  }

  /** A five-field record whose start does not parse is read as far as the
      start: the partial activity comes back with the parse error, and the
      missing end field is never touched. */
  lemma FiveFieldsBadStart()
    ensures var rows := [["a", "b", "c", "d", "e"], ["1", "n", "p", "t", "x"]];
      ScanFrom(rows, 1, 1) == Lookup(Some(Activity(1, "n", "p", SetTagList("t"), ZeroTime, ZeroTime)), Some(TimeParse("x")))
  {
    var rows := [["a", "b", "c", "d", "e"], ["1", "n", "p", "t", "x"]];
    assert Decimal.ParseInt("1") == Decimal.ParsedInt(1, None) by { Decimal.ParseFormatInt(1); }
    assert ParseTime("x").None?;
  }

  /** Every record from `i` up to `k` is passed over. */
  predicate SkippedUpTo(rows: seq<seq<string>>, i: nat, k: nat, id: int)
    requires 0 < i && k <= |rows| && 0 < |rows| && |rows[0]| > 0
  {
    forall j :: i <= j < k ==> Skipped(rows, j, id)
  }

  /** What the scan returns when record `k` is the first it does not pass
      over: a record of the wrong width is a field-count error on its
      line, an id that is not an integer is ParseInt's error, and a record
      with the id sought is decoded as `Decode` reads it. */
  predicate StopsWith(rows: seq<seq<string>>, k: nat, id: int, r: Lookup)
    requires 0 < k < |rows| && |rows[0]| > 0 && |rows[k]| > 0
  {
    (|rows[k]| != |rows[0]| ==> r == Lookup(None, Some(FieldCount(k + 1))))
    && (|rows[k]| == |rows[0]| && RowId(rows[k]).err.Some? ==>
          r == Lookup(None, Some(NumError("ParseInt", rows[k][0], RowId(rows[k]).err.value))))
    && (|rows[k]| == |rows[0]| && RowId(rows[k]).err.None? && RowId(rows[k]).value == id ==>
          r == Decode(id, rows[k]))
  }

  /** The scan of `FindActivity` from record `i` on, the first record being
      the column names. Reading stops at the first record of the wrong
      width, the first id that is not an integer, or the first match,
      which is decoded (see `Decode` for the records too narrow to read). */
  function ScanFrom(rows: seq<seq<string>>, i: nat, id: int): (r: Lookup)
    requires 0 < i <= |rows| && forall k :: 0 <= k < |rows| ==> |rows[k]| > 0
    ensures r.found.Some? ==> r.found.value.id == id
    ensures r == Lookup(None, None) <==> SkippedUpTo(rows, i, |rows|, id)
    ensures forall k :: i <= k < |rows| && SkippedUpTo(rows, i, k, id) && !Skipped(rows, k, id) ==>
      StopsWith(rows, k, id, r)
    ensures r.found.Some? ==>
      exists k :: i <= k < |rows| && SkippedUpTo(rows, i, k, id)
        && |rows[k]| == |rows[0]| >= 5 && RowId(rows[k]) == Decimal.ParsedInt(id, None)
        && r == Decode(id, rows[k])
    decreases |rows| - i
  {
    if i == |rows| then Lookup(None, None)
    else if |rows[i]| != |rows[0]| then
      assert !Skipped(rows, i, id);
      Lookup(None, Some(FieldCount(i + 1)))
    else
      var p := RowId(rows[i]);
      if p.err.Some? then
        assert !Skipped(rows, i, id);
        Lookup(None, Some(NumError("ParseInt", rows[i][0], p.err.value)))
      else if p.value != id then
        var r := ScanFrom(rows, i + 1, id);
        SkippedUpToCons(rows, i, id);
        r
      else
        assert !Skipped(rows, i, id);
        assert SkippedUpTo(rows, i, i, id);
        Decode(p.value, rows[i])
  }

  /** Passing over record `i` and then every record up to `k` is passing
      over every record from `i` up to `k`. */
  lemma SkippedUpToCons(rows: seq<seq<string>>, i: nat, id: int)
    requires 0 < i < |rows| && |rows[0]| > 0 && |rows[i]| > 0 && Skipped(rows, i, id)
    ensures forall k :: i < k <= |rows| ==> (SkippedUpTo(rows, i, k, id) <==> SkippedUpTo(rows, i + 1, k, id))
  {
  }

  /** `FindActivity` on the records of a file: the outcome of the first
      record after the column names that the scan does not pass over, or
      nothing when it passes over them all. */
  function FindIn(rows: seq<seq<string>>, id: int): (r: Lookup)
    requires forall k :: 0 <= k < |rows| ==> |rows[k]| > 0
    ensures r.found.Some? ==> r.found.value.id == id
    ensures r == Lookup(None, None) <==> rows == [] || SkippedUpTo(rows, 1, |rows|, id)
    ensures forall k :: 1 <= k < |rows| && SkippedUpTo(rows, 1, k, id) && !Skipped(rows, k, id) ==>
      StopsWith(rows, k, id, r)
    ensures r.found.Some? ==>
      exists k :: 1 <= k < |rows| && SkippedUpTo(rows, 1, k, id)
        && |rows[k]| == |rows[0]| >= 5 && RowId(rows[k]) == Decimal.ParsedInt(id, None)
        && r == Decode(id, rows[k])
  {
    if rows == [] then Lookup(None, None) else ScanFrom(rows, 1, id)
  }

  /** A store whose records are the column names and then records of
      saved activities, with integer ids between 1 and `lastId`, ascending. */
  predicate Consistent(rows: seq<seq<string>>, lastId: int)
  {
    |rows| > 0 && rows[0] == Header
    && (forall k :: 1 <= k < |rows| ==>
          |rows[k]| == |Header| && RowId(rows[k]).err.None? && 0 < RowId(rows[k]).value <= lastId)
    && (forall j, k :: 1 <= j < k < |rows| ==> RowId(rows[j]).value < RowId(rows[k]).value)
  }

  /** A record appended after records that the scan skips is where the
      scan ends up. */
  lemma {:induction false} ScanToLast(rows: seq<seq<string>>, i: nat, id: int)
    requires 0 < i < |rows| && forall k :: 0 <= k < |rows| ==> |rows[k]| > 0
    requires forall k :: i <= k < |rows| - 1 ==> Skipped(rows, k, id)
    ensures ScanFrom(rows, i, id) == ScanFrom(rows, |rows| - 1, id)
    decreases |rows| - i
  {
    if i < |rows| - 1 {
      assert Skipped(rows, i, id);
      ScanToLast(rows, i + 1, id);
    }
  }

  /** Appending a record of the right width with another integer id does
      not change what the scan finds for `id`. */
  lemma {:induction false} ScanIgnoresAppended(rows: seq<seq<string>>, record: seq<string>, i: nat, id: int)
    requires 0 < i <= |rows| && forall k :: 0 <= k < |rows| ==> |rows[k]| > 0
    requires |record| == |rows[0]| && RowId(record).err.None? && RowId(record).value != id
    ensures ScanFrom(rows + [record], i, id) == ScanFrom(rows, i, id)
    decreases |rows| - i
  {
    var rows' := rows + [record];
    assert rows'[0] == rows[0];
    if i < |rows| {
      assert rows'[i] == rows[i];
      ScanIgnoresAppended(rows, record, i + 1, id);
    }
  }

  /** Appending the record of the next id keeps a store consistent. */
  lemma SaveKeepsConsistent(rows: seq<seq<string>>, lastId: int, a: Activity)
    requires Consistent(rows, lastId) && 0 <= lastId < Decimal.MaxInt64
    ensures Consistent(rows + [RecordOf(a, lastId + 1)], lastId + 1)
  {
    var rows' := rows + [RecordOf(a, lastId + 1)];
    forall k | 1 <= k < |rows'|
      ensures |rows'[k]| == |Header| && RowId(rows'[k]).err.None? && 0 < RowId(rows'[k]).value <= lastId + 1
    {
      if k < |rows| { assert rows'[k] == rows[k]; }
    }
    forall j, k | 1 <= j < k < |rows'| ensures RowId(rows'[j]).value < RowId(rows'[k]).value {
      assert rows'[j] == rows[j];
      if k < |rows| { assert rows'[k] == rows[k]; }
    }
  }

  /** The record saved under the next id of a consistent store is what a
      search for that id finds. */
  lemma FindAfterSave(rows: seq<seq<string>>, lastId: int, a: Activity)
    requires Consistent(rows, lastId) && 0 <= lastId < Decimal.MaxInt64
    requires TagsRoundTrip(a.tags) && Decimal.IsInt64(a.start) && Decimal.IsInt64(a.end)
    ensures FindIn(rows + [RecordOf(a, lastId + 1)], lastId + 1) == Lookup(Some(a.(id := lastId + 1)), None)
  {
    var id := lastId + 1;
    var record := RecordOf(a, id);
    var rows' := rows + [record];
    assert rows'[0] == Header;
    forall k | 1 <= k < |rows'| - 1 ensures Skipped(rows', k, id) {
      assert rows'[k] == rows[k];
    }
    ScanToLast(rows', 1, id);
    assert rows'[|rows'| - 1] == record;
    TagListRoundTrip(a.tags);
    ParseFormatTime(a.start);
    ParseFormatTime(a.end);
  }

  /** Saving under the next id changes nothing a search for another id
      finds. */
  lemma FindOtherAfterSave(rows: seq<seq<string>>, lastId: int, a: Activity, other: int)
    requires Consistent(rows, lastId) && 0 <= lastId < Decimal.MaxInt64 && other != lastId + 1
    ensures var saved := rows + [RecordOf(a, lastId + 1)];
      (forall k :: 0 <= k < |saved| ==> |saved[k]| > 0)
      && FindIn(saved, other) == FindIn(rows, other)
  {
    var saved := rows + [RecordOf(a, lastId + 1)];
    forall k | 0 <= k < |saved| ensures |saved[k]| > 0 {
      if k < |rows| { assert saved[k] == rows[k]; }
    }
    ScanIgnoresAppended(rows, RecordOf(a, lastId + 1), 1, other);
  }

  /** The file the store keeps its records in. */
  class DataFile {
    var text: FileText

    constructor (text: FileText)
      ensures this.text == text
    {
      this.text := text;
    }
  }

  /** `Csv`: the file and the cached front matter. */
  class Csv {
    const file: DataFile
    var version: int
    var lastId: int

    /** The file is well formed and the cached values fit a header. */
    predicate Valid()
      reads this, file
    {
      WellFormed(file.text) && FrontMatter.Fits(version, lastId)
    }

    constructor (file: DataFile)
      ensures this.file == file && version == 0 && lastId == 0
    {
      this.file := file;
      version := 0;
      lastId := 0;
    }

    /** `readFrontMatter`. */
    method ReadFrontMatter(openFault: Option<string>) returns (err: Option<Error>)
      requires WellFormed(file.text)
      modifies this
      ensures openFault.Some? ==> err == Some(Os(openFault.value)) && version == old(version) && lastId == old(lastId)
      ensures openFault.None? ==> HeaderRead(version, lastId, err) == ReadHeader(file.text, old(version), old(lastId))
      ensures old(FrontMatter.Fits(version, lastId)) ==> Valid()
    {
      if openFault.Some? {
        return Some(Os(openFault.value));
      }
      var r := ReadHeader(file.text, version, lastId);
      version, lastId, err := r.version, r.lastId, r.err;
    }

    /** `writeFrontMatter`: the header of `version` and `lastId` over the
        first bytes of the file. */
    method WriteFrontMatter(version: int, lastId: int, openFault: Option<string>) returns (err: Option<Error>)
      requires WellFormed(file.text) && FrontMatter.Fits(version, lastId)
      modifies file
      ensures openFault.Some? ==> err == Some(Os(openFault.value)) && file.text == old(file.text)
      ensures openFault.None? ==> err.None? && file.text == WithFrontMatter(old(file.text), version, lastId)
    {
      if openFault.Some? {
        return Some(Os(openFault.value));
      }
      file.text := WithFrontMatter(file.text, version, lastId);
      err := None;
    }

    /** `writeRecord`: one record at the end of the file. */
    method WriteRecord(record: seq<string>, openFault: Option<string>) returns (err: Option<Error>)
      requires WellFormed(file.text) && |file.text.head| == SeekOffset && record != []
      modifies file
      ensures openFault.Some? ==> err == Some(Os(openFault.value)) && file.text == old(file.text)
      ensures openFault.None? ==> err.None? && file.text == WithRecord(old(file.text), record)
    {
      if openFault.Some? {
        return Some(Os(openFault.value));
      }
      file.text := WithRecord(file.text, record);
      err := None;
    }

    /** `Version`: the cached version, never an error. */
    method Version() returns (v: int, err: Option<Error>)
      ensures v == version && err.None?
    {
      return version, None;
    }

    /** `Migrate`: one step per version below `CsvVersion`. The step from
        version 0 writes the front matter (1, 1) and then the column names;
        a failed step returns its error with the version not advanced. */
    method Migrate(headerFault: Option<string>, recordFault: Option<string>) returns (err: Option<Error>)
      requires Valid()
      modifies this, file
      ensures Valid() && lastId == old(lastId)
      ensures old(version) >= CsvVersion ==> err.None? && version == old(version) && file.text == old(file.text)
      ensures old(version) < CsvVersion && headerFault.Some? ==>
        err == Some(Os(headerFault.value)) && version == old(version) && file.text == old(file.text)
      ensures old(version) < CsvVersion && headerFault.None? && recordFault.Some? ==>
        err == Some(Os(recordFault.value)) && version == old(version)
        && file.text == WithFrontMatter(old(file.text), 1, 1)
      ensures old(version) < CsvVersion && headerFault.None? && recordFault.None? ==>
        err.None? && version == CsvVersion && file.text == MigratedFile(old(file.text))
    {
      err := None;
      while version < CsvVersion
        invariant Valid() && lastId == old(lastId) && err.None?
        invariant (version == old(version) && file.text == old(file.text))
          || (old(version) == 0 && headerFault.None? && recordFault.None?
              && version == CsvVersion && file.text == MigratedFile(old(file.text)))
        decreases CsvVersion - version
      {
        if version == 0 {
          err := WriteFrontMatter(1, 1, headerFault);
          if err.None? {
            err := WriteRecord(Header, recordFault);
          }
        }
        if err.Some? {
          return;
        }
        version := version + 1;
      }
    }

    /** `SaveActivity`: appends the activity's record under the next id,
        then records that id as the last one in the cache and the front
        matter. With the id space used up it refuses (see the findings). */
    method SaveActivity(a: Activity, recordFault: Option<string>, headerFault: Option<string>)
      returns (saved: Activity, err: Option<Error>)
      requires Valid() && |file.text.head| == SeekOffset
      modifies this, file
      ensures Valid() && |file.text.head| == SeekOffset && version == old(version)
      ensures old(lastId) == Decimal.MaxInt64 ==>
        saved == a && err == Some(IdOverflow) && lastId == old(lastId) && file.text == old(file.text)
      ensures old(lastId) < Decimal.MaxInt64 && recordFault.Some? ==>
        saved == a && err == Some(Os(recordFault.value)) && lastId == old(lastId) && file.text == old(file.text)
      ensures old(lastId) < Decimal.MaxInt64 && recordFault.None? ==>
        lastId == old(lastId) + 1 && saved == a.(id := lastId)
        && file.text.rows == old(file.text.rows) + [RecordOf(a, lastId)]
        && (headerFault.None? ==> err.None? && file.text.head == FrontMatter.Encode(version, lastId))
        && (headerFault.Some? ==> err == Some(Os(headerFault.value)) && file.text.head == old(file.text.head))
    {
      var next := NextId(lastId);
      if next.None? {
        return a, Some(IdOverflow);
      }
      var id := next.value;
      err := WriteRecord(RecordOf(a, id), recordFault);
      if err.Some? {
        return a, err;
      }
      saved := a.(id := id);
      lastId := id;
      err := WriteFrontMatter(version, lastId, headerFault);
    }

    /** `FindActivity`: reads the records after the front matter, skipping
        the first, until one has the id sought. */
    method FindActivity(id: int, openFault: Option<string>) returns (found: Option<Activity>, err: Option<Error>)
      requires WellFormed(file.text)
      ensures openFault.Some? ==> found.None? && err == Some(Os(openFault.value))
      ensures openFault.None? ==> Lookup(found, err) == FindIn(file.text.rows, id)
    {
      if openFault.Some? {
        return None, Some(Os(openFault.value));
      }
      var rows := file.text.rows;
      var n := 0;
      while n < |rows|
        invariant 0 <= n <= |rows|
        invariant n > 0 ==> ScanFrom(rows, n, id) == FindIn(rows, id)
        decreases |rows| - n
      {
        var record := rows[n];
        if |record| != |rows[0]| {
          return None, Some(FieldCount(n + 1));
        }
        if n > 0 {
          var recordId := Decimal.ParseInt(record[0]);
          if recordId.err.Some? {
            return None, Some(NumError("ParseInt", record[0], recordId.err.value));
          }
          if recordId.value == id {
            var r := Decode(recordId.value, record);
            return r.found, r.err;
          }
        }
        n := n + 1;
      }
      return None, None;
    }
  }

  /** `NewCsv`: a store over the file, with the cache read from its front
      matter. The store is returned even when reading fails. */
  method NewCsv(file: DataFile, openFault: Option<string>) returns (db: Csv, err: Option<Error>)
    requires WellFormed(file.text)
    ensures fresh(db) && db.file == file && db.Valid()
    ensures openFault.Some? ==> err == Some(Os(openFault.value)) && db.version == 0 && db.lastId == 0
    ensures openFault.None? ==> HeaderRead(db.version, db.lastId, err) == ReadHeader(file.text, 0, 0)
  {
    db := new Csv(file);
    err := db.ReadFrontMatter(openFault);
  }
}
