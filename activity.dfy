/** The activity record (src/hourglass/activity.go) and the conversions its
    fields go through on the way to storage. Timestamps are integers
    (nanoseconds) and `ZeroTime` stands for Go's zero `time.Time`. */
module Activities {
  import opened Wrappers
  import Strings
  import Decimal

  /** The zero timestamp: an activity whose end is zero is still running. */
  const ZeroTime: int := 0

  /** One hour, in the nanosecond unit of Go's `time.Duration`. */
  const Hour: int := 3_600_000_000_000

  /** `id` 0 means the activity has not been saved yet. */
  datatype Activity = Activity(id: int, name: string, project: string,
                               tags: seq<string>, start: int, end: int)

  /** `IsRunning`: the end has not been set. */
  predicate IsRunning(a: Activity)
  {
    a.end == ZeroTime
  }

  /** `Duration`: up to `now` while running, otherwise from start to end.
      `now` is the clock reading `time.Since` would use. */
  function Duration(a: Activity, now: int): int
  {
    if IsRunning(a) then now - a.start else a.end - a.start
  }

  /** A new activity as the commands build it: only name, project, tags
      and start are set. */
  function NewActivity(name: string, project: string, tags: seq<string>, start: int): (a: Activity)
    ensures a.id == 0 && IsRunning(a)
  {
    Activity(0, name, project, tags, start, ZeroTime)
  }

  /** A stopped activity's duration does not depend on the clock; a running
      one's grows with it. */
  lemma DurationAgainstClock(a: Activity, now1: int, now2: int)
    ensures !IsRunning(a) ==> Duration(a, now1) == Duration(a, now2) == a.end - a.start
    ensures IsRunning(a) ==> Duration(a, now2) - Duration(a, now1) == now2 - now1
  {
  }

  /** A one-hour interval has a one-hour duration whatever the clock says. */
  lemma DurationOfOneHour(a: Activity, now: int)
    requires a.end != ZeroTime && a.end == a.start + Hour
    ensures Duration(a, now) == Hour
  {
  }

  /** `TagList`: the tags as one string, separated by ", ". */
  function TagList(tags: seq<string>): string
  {
    Strings.Join(tags, ", ")
  }

  /** `SetTagList`: the inverse reading; the empty string means no tags. */
  function SetTagList(s: string): seq<string>
  {
    if s == "" then [] else Strings.Split(s, ", ")
  }

  /** Tags survive a trip through their one-string form when none contains
      ", " and the list is not a single empty tag. */
  predicate TagsRoundTrip(tags: seq<string>)
  {
    tags != [""] && forall i :: 0 <= i < |tags| ==> !Strings.Contains(tags[i], ", ")
  }

  lemma TagListRoundTrip(tags: seq<string>)
    requires TagsRoundTrip(tags)
    ensures SetTagList(TagList(tags)) == tags
  {
    if tags != [] {
      Strings.TwoCharBorderFree(", ");
      if |tags| >= 2 {
        assert |TagList(tags)| >= 2;
      }
      Strings.SplitJoin(tags, ", ");
    }
  }

  /** The other direction: a tag string read and written again is the same
      string, so tags read from a record are stored unchanged. */
  lemma TagListOfSetTagList(s: string)
    ensures TagList(SetTagList(s)) == s
    ensures SetTagList(TagList(SetTagList(s))) == SetTagList(s)
  {
    if s != "" {
      Strings.JoinSplit(s, ", ");
    }
  }

  /** The textual form of a timestamp in a flat-file record. The decimal
      form stands in for RFC 3339, which is not modelled. */
  function FormatTime(t: int): string
  {
    Decimal.FormatInt(t)
  }

  function ParseTime(s: string): (t: Option<int>)
    ensures t.Some? ==> Decimal.IsInt64(t.value)
  {
    var p := Decimal.ParseInt(s);
    if p.err.None? then Some(p.value) else None
  }

  lemma ParseFormatTime(t: int)
    requires Decimal.IsInt64(t)
    ensures ParseTime(FormatTime(t)) == Some(t)
  {
    Decimal.ParseFormatInt(t);
  }
}
