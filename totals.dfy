/** Per-project totals (`projectDurationList` in commands.go and in
    src/hourglass/commands/commands.go): a list of (project, duration)
    entries kept sorted by name, with the empty name last, and summed by
    the tables of the list and status commands. */
module ProjectTotals {
  import Strings
  import Decimal
  import opened Activities

  datatype ProjectDuration = ProjectDuration(name: string, duration: int)

  /** `Less`: the empty name is never before another name and comes after
      every other one; other names compare as Go strings. */
  predicate Before(a: string, b: string)
  {
    if a == "" then false else if b == "" then true else Strings.Less(a, b)
  }

  lemma BeforeIrreflexive(a: string)
    ensures !Before(a, a)
  {
    Strings.LessIrreflexive(a);
  }

  lemma BeforeAsymmetric(a: string, b: string)
    ensures Before(a, b) ==> !Before(b, a)
  {
    if a != "" && b != "" && Strings.Less(a, b) {
      Strings.LessAsymmetric(a, b);
    }
  }

  lemma BeforeTransitive(a: string, b: string, c: string)
    ensures Before(a, b) && Before(b, c) ==> Before(a, c)
  {
    if a != "" && b != "" && c != "" && Strings.Less(a, b) && Strings.Less(b, c) {
      Strings.LessTransitive(a, b, c);
    }
  }

  lemma BeforeTotal(a: string, b: string)
    ensures a != b ==> Before(a, b) || Before(b, a)
  {
    if a != b && a != "" && b != "" {
      Strings.LessTotal(a, b);
    }
  }

  /** The order `sort.Sort` leaves the entries in. */
  predicate Sorted(s: seq<ProjectDuration>)
  {
    forall i, j :: 0 <= i < j < |s| ==> Before(s[i].name, s[j].name)
  }

  function Names(s: seq<ProjectDuration>): set<string>
  {
    set pd | pd in s :: pd.name
  }

  /** The duration recorded for a project: the sum over the entries with
      that name, of which a sorted list has at most one. */
  function Total(s: seq<ProjectDuration>, name: string): int
  {
    if s == [] then 0
    else (if s[0].name == name then s[0].duration else 0) + Total(s[1..], name)
  }

  /** In a sorted list the names are pairwise different and the empty name
      can only be last. */
  lemma SortedShape(s: seq<ProjectDuration>)
    requires Sorted(s)
    ensures forall i, j :: 0 <= i < j < |s| ==> s[i].name != s[j].name
    ensures forall i :: 0 <= i < |s| - 1 ==> s[i].name != ""
  {
    forall i, j | 0 <= i < j < |s| ensures s[i].name != s[j].name {
      BeforeIrreflexive(s[i].name);
    }
    forall i | 0 <= i < |s| - 1 ensures s[i].name != "" {
      assert Before(s[i].name, s[|s| - 1].name);
    }
  }

  /** The entry for a new name put where `sort.Sort` would put it. */
  function Insert(s: seq<ProjectDuration>, pd: ProjectDuration): (r: seq<ProjectDuration>)
    requires Sorted(s) && pd.name !in Names(s)
    ensures Sorted(r) && multiset(r) == multiset(s + [pd])
  {
    if s == [] then [pd]
    else if Before(pd.name, s[0].name) then
      var r := [pd] + s;
      assert r[1..] == s;
      forall j | 0 < j < |r| ensures Before(pd.name, r[j].name) {
        BeforeTransitive(pd.name, s[0].name, r[j].name);
      }
      r
    else
      TailSorted(s);
      var rest := Insert(s[1..], pd);
      InsertAfterFirst(s, pd, rest);
      MultisetAfterFirst(s, pd, rest);
      [s[0]] + rest
  }

  /** The tail of a sorted list is sorted and has no new name. */
  lemma TailSorted(s: seq<ProjectDuration>)
    requires s != [] && Sorted(s)
    ensures Sorted(s[1..]) && Names(s[1..]) <= Names(s)
  {
    forall x | x in s[1..] ensures x in s { }
  }

  lemma MultisetAfterFirst(s: seq<ProjectDuration>, pd: ProjectDuration, rest: seq<ProjectDuration>)
    requires s != [] && multiset(rest) == multiset(s[1..] + [pd])
    ensures multiset([s[0]] + rest) == multiset(s + [pd])
  {
    assert s + [pd] == [s[0]] + (s[1..] + [pd]);
  }

  /** The first entry is before every entry of the rest with the new one. */
  lemma InsertAfterFirst(s: seq<ProjectDuration>, pd: ProjectDuration, rest: seq<ProjectDuration>)
    requires s != [] && Sorted(s) && pd.name !in Names(s) && !Before(pd.name, s[0].name)
    requires multiset(rest) == multiset(s[1..] + [pd]) && Sorted(rest)
    ensures Sorted([s[0]] + rest)
  {
    assert s[0] in s;
    BeforeTotal(pd.name, s[0].name);
    var r := [s[0]] + rest;
    forall j | 0 < j < |r| ensures Before(s[0].name, r[j].name) {
      assert r[j] == rest[j - 1];
      assert rest[j - 1] in multiset(rest);
      assert r[j] in s[1..] + [pd];
      if r[j] != pd {
        var k :| 0 <= k < |s[1..]| && s[1..][k] == r[j];
        assert s[k + 1] == r[j];
      }
    }
    forall i, j | 0 < i < j < |r| ensures Before(r[i].name, r[j].name) {
      assert r[i] == rest[i - 1] && r[j] == rest[j - 1];
    }
  }

  /** Inserting adds the new name, and its duration to that name's total. */
  lemma InsertNames(s: seq<ProjectDuration>, pd: ProjectDuration)
    requires Sorted(s) && pd.name !in Names(s)
    ensures Names(Insert(s, pd)) == Names(s) + {pd.name}
  {
    var r := Insert(s, pd);
    assert forall x :: x in r <==> x in s || x == pd by {
      assert forall x :: x in r <==> x in multiset(r);
      assert forall x :: x in s + [pd] <==> x in s || x == pd;
    }
  }

  lemma {:induction false} InsertTotals(s: seq<ProjectDuration>, pd: ProjectDuration, n: string)
    requires Sorted(s) && pd.name !in Names(s)
    ensures Total(Insert(s, pd), n) == Total(s, n) + (if n == pd.name then pd.duration else 0)
  {
    var r := Insert(s, pd);
    if s != [] {
      if Before(pd.name, s[0].name) {
        assert r[1..] == s;
      } else {
        TailSorted(s);
        InsertTotals(s[1..], pd, n);
        assert r[1..] == Insert(s[1..], pd);
      }
    }
  }

  /** Two sorted arrangements of the same entries are the same, so keeping
      the list sorted by insertion is what sorting after `append` does. */
  lemma {:induction false} SortedUnique(a: seq<ProjectDuration>, b: seq<ProjectDuration>)
    requires Sorted(a) && Sorted(b) && multiset(a) == multiset(b)
    ensures a == b
  {
    assert |a| == |multiset(a)| == |multiset(b)| == |b|;
    if a != [] {
      SameFirst(a, b);
      TailMultiset(a);
      TailMultiset(b);
      SortedUnique(a[1..], b[1..]);
      assert a == [a[0]] + a[1..] && b == [b[0]] + b[1..];
    }
  }

  /** `append` followed by `sort.Sort`: whatever order the sort leaves the
      entries in, it is the one `Insert` computes. */
  lemma SortAfterAppend(s: seq<ProjectDuration>, pd: ProjectDuration, sorted: seq<ProjectDuration>)
    requires Sorted(s) && pd.name !in Names(s)
    requires Sorted(sorted) && multiset(sorted) == multiset(s + [pd])
    ensures sorted == Insert(s, pd)
  {
    SortedUnique(sorted, Insert(s, pd));
  }

  /** The first of a sorted arrangement is determined by its entries. */
  lemma SameFirst(a: seq<ProjectDuration>, b: seq<ProjectDuration>)
    requires Sorted(a) && Sorted(b) && multiset(a) == multiset(b) && a != [] && b != []
    ensures a[0] == b[0]
  {
    assert a[0] in multiset(b) && b[0] in multiset(a);
    var k :| 0 <= k < |b| && b[k] == a[0];
    var m :| 0 <= m < |a| && a[m] == b[0];
    BeforeIrreflexive(a[0].name);
    BeforeAsymmetric(a[0].name, b[0].name);
  }

  lemma TailMultiset(a: seq<ProjectDuration>)
    requires a != []
    ensures multiset(a[1..]) == multiset(a) - multiset{a[0]}
  {
    assert a == [a[0]] + a[1..];
  }

  /** Adding to the entry at index `i` changes that name's total only. */
  lemma {:induction false} TotalAfterUpdate(s: seq<ProjectDuration>, i: nat, d: int, n: string)
    requires i < |s|
    ensures Total(s[i := s[i].(duration := s[i].duration + d)], n) ==
      Total(s, n) + (if n == s[i].name then d else 0)
  {
    var s' := s[i := s[i].(duration := s[i].duration + d)];
    if i > 0 {
      assert s'[1..] == s[1..][i - 1 := s[i].(duration := s[i].duration + d)];
      TotalAfterUpdate(s[1..], i - 1, d, n);
    } else {
      assert s'[1..] == s[1..];
    }
  }

  function DurationText(d: int): string
  {
    Decimal.FormatInt(d)
  }

  /** How `String` shows an entry: the empty name as "unsorted". */
  function Label(pd: ProjectDuration): string
  {
    (if pd.name == "" then "unsorted" else pd.name) + ": " + DurationText(pd.duration)
  }

  function Labels(s: seq<ProjectDuration>): (r: seq<string>)
  {
    seq(|s|, i requires 0 <= i < |s| => Label(s[i]))
  }

  /** The durations of the activities of a project, with the clock at `now`. */
  function SumFor(activities: seq<Activity>, project: string, now: int): int
  {
    if activities == [] then 0
    else
      var last := activities[|activities| - 1];
      SumFor(activities[..|activities| - 1], project, now)
      + (if last.project == project then Duration(last, now) else 0)
  }

  function Projects(activities: seq<Activity>): set<string>
  {
    set a | a in activities :: a.project
  }

  /** `projectDurationList`. */
  class ProjectDurationList {
    var entries: seq<ProjectDuration>

    /** `newProjectDurationList`. */
    constructor ()
      ensures entries == []
    {
      entries := [];
    }

    predicate Valid()
      reads this
    {
      Sorted(entries)
    }

    /** `add`: the duration goes to the entry of that name, which is
        created, in sorted position, when there is none. */
    method Add(name: string, duration: int)
      requires Valid()
      modifies this
      ensures Valid()
      ensures Names(entries) == Names(old(entries)) + {name}
      ensures forall n :: Total(entries, n) == Total(old(entries), n) + (if n == name then duration else 0)
      ensures name in Names(old(entries)) ==> |entries| == |old(entries)|
      ensures name !in Names(old(entries)) ==> |entries| == |old(entries)| + 1
    {
      var i := 0;
      while i < |entries| && entries[i].name != name
        invariant 0 <= i <= |entries|
        invariant forall j :: 0 <= j < i ==> entries[j].name != name
      {
        i := i + 1;
      }
      if i < |entries| {
        var pd := entries[i];
        forall n ensures Total(entries[i := pd.(duration := pd.duration + duration)], n)
                         == Total(entries, n) + (if n == name then duration else 0) {
          TotalAfterUpdate(entries, i, duration, n);
        }
        assert Names(entries[i := pd.(duration := pd.duration + duration)]) == Names(entries) by {
          assert entries[i] in entries;
          forall x | x in Names(entries) ensures x in Names(entries[i := pd.(duration := pd.duration + duration)]) {
            var k :| 0 <= k < |entries| && entries[k].name == x;
            assert entries[i := pd.(duration := pd.duration + duration)][k].name == x;
          }
        }
        entries := entries[i := pd.(duration := pd.duration + duration)];
      } else {
        assert name !in Names(entries);
        var r := Insert(entries, ProjectDuration(name, duration));
        InsertNames(entries, ProjectDuration(name, duration));
        forall n ensures Total(r, n) == Total(entries, n) + (if n == name then duration else 0) {
          InsertTotals(entries, ProjectDuration(name, duration), n);
        }
        assert |r| == |multiset(r)| == |multiset(entries + [ProjectDuration(name, duration)])|;
        entries := r;
      }
    }

    /** `String`: the labels in list order, separated by ", ". */
    method String() returns (str: string)
      ensures str == Strings.Join(Labels(entries), ", ")
    {
      str := "";
      var i := 0;
      while i < |entries|
        invariant 0 <= i <= |entries|
        invariant str == Strings.Join(Labels(entries[..i]), ", ")
      {
        var text := Label(entries[i]);
        LabelsStep(entries, i);
        Strings.JoinSnoc(Labels(entries[..i]), text, ", ");
        if i > 0 {
          str := str + ", " + text;
        } else {
          str := text;
        }
        i := i + 1;
      }
      assert entries[..i] == entries;
    }
  }

  /** The labels of one more entry. */
  lemma LabelsStep(s: seq<ProjectDuration>, i: nat)
    requires i < |s|
    ensures Labels(s[..i + 1]) == Labels(s[..i]) + [Label(s[i])]
    ensures i == 0 <==> Labels(s[..i]) == []
  {
    assert s[..i + 1][..i] == s[..i];
  }

  /** A list of sorted entries shows the unsorted total, if any, last. */
  lemma UnsortedShownLast(s: seq<ProjectDuration>)
    requires Sorted(s) && "" in Names(s)
    ensures s[|s| - 1].name == ""
    ensures Labels(s)[|s| - 1] == "unsorted: " + DurationText(s[|s| - 1].duration)
  {
    SortedShape(s);
    var k :| 0 <= k < |s| && s[k].name == "";
  }
}
