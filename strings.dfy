/** String helpers with the semantics of Go's `strings.Join`,
    `strings.Split` and the `<` operator on strings. */
module Strings {
  import opened Wrappers

  /** `strings.Join`: the parts with `sep` between each neighbouring pair. */
  function Join(parts: seq<string>, sep: string): string
  {
    if |parts| == 0 then ""
    else if |parts| == 1 then parts[0]
    else parts[0] + sep + Join(parts[1..], sep)
  }

  /** `sep` occurs in `s` starting at index `i`. */
  predicate OccursAt(s: string, sep: string, i: int)
  {
    0 <= i && i + |sep| <= |s| && s[i..i + |sep|] == sep
  }

  /** `strings.Contains` */
  predicate Contains(s: string, sep: string)
  {
    exists i :: 0 <= i <= |s| && OccursAt(s, sep, i)
  }

  /** The first index at which a non-empty `sep` occurs in `s`, if any. */
  function IndexOf(s: string, sep: string): (r: Option<nat>)
    requires |sep| > 0
    ensures r.Some? ==> OccursAt(s, sep, r.value)
    ensures r.Some? ==> forall j :: 0 <= j < r.value ==> !OccursAt(s, sep, j)
    ensures r.None? <==> !Contains(s, sep)
    decreases |s|
  {
    if |s| < |sep| then None
    else if s[..|sep|] == sep then assert OccursAt(s, sep, 0); Some(0)
    else
      var rest := IndexOf(s[1..], sep);
      assert forall j :: 1 <= j <= |s| ==> (OccursAt(s, sep, j) <==> OccursAt(s[1..], sep, j - 1)) by {
        forall j | 1 <= j <= |s| ensures OccursAt(s, sep, j) <==> OccursAt(s[1..], sep, j - 1) {
          OccursAtTail(s, sep, j);
        }
      }
      if rest.Some? then Some(rest.value + 1) else None
  }

  /** An occurrence after the first character is an occurrence in the tail. */
  lemma OccursAtTail(s: string, sep: string, j: int)
    requires 1 <= j <= |s|
    ensures OccursAt(s, sep, j) <==> OccursAt(s[1..], sep, j - 1)
  {
    if j + |sep| <= |s| {
      var a, b := s[j..j + |sep|], s[1..][j - 1..j - 1 + |sep|];
      assert |a| == |b|;
      assert forall k :: 0 <= k < |a| ==> a[k] == b[k];
      assert a == b;
    }
  }

  /** `strings.Split` for a non-empty separator: the maximal pieces of `s`
      between occurrences of `sep`, found left to right. */
  function Split(s: string, sep: string): (r: seq<string>)
    requires |sep| > 0
    ensures |r| >= 1
    decreases |s|
  {
    match IndexOf(s, sep)
    case None => [s]
    case Some(i) => [s[..i]] + Split(s[i + |sep|..], sep)
  }

  /** No proper prefix of `sep` is also a suffix of it, so two occurrences of
      `sep` can never overlap. ", ", "; " and "\n" are such separators. */
  predicate BorderFree(sep: string)
  {
    forall k :: 0 < k < |sep| ==> sep[..k] != sep[|sep| - k..]
  }

  /** A separator of two different characters has no border. */
  lemma TwoCharBorderFree(sep: string)
    requires |sep| == 2 && sep[0] != sep[1]
    ensures BorderFree(sep)
  {
    assert sep[..1] == [sep[0]] && sep[1..] == [sep[1]];
  }

  /** An occurrence of `sep` that starts inside `p` and ends inside the `sep`
      that follows it makes a suffix of `sep` equal to a prefix of it. */
  lemma StraddleIsBorder(p: string, sep: string, rest: string, j: int)
    requires 0 <= j < |p| < j + |sep|
    ensures var t := p + sep + rest; var k := j + |sep| - |p|;
      OccursAt(t, sep, j) ==> 0 < k < |sep| && sep[..k] == sep[|sep| - k..]
  {
    var t := p + sep + rest;
    var k := j + |sep| - |p|;
    if OccursAt(t, sep, j) {
      forall i | 0 <= i < k ensures sep[..k][i] == sep[|sep| - k..][i] {
        calc {
          sep[..k][i];
          t[|p| + i];
          t[j..j + |sep|][|sep| - k + i];
          sep[|sep| - k..][i];
        }
      }
    }
  }

  /** When `p` does not contain a border-free `sep`, the first occurrence of
      `sep` in `p + sep + rest` is the one right after `p`. */
  lemma IndexOfAfterPart(p: string, sep: string, rest: string)
    requires |sep| > 0 && BorderFree(sep) && !Contains(p, sep)
    ensures IndexOf(p + sep + rest, sep) == Some(|p|)
  {
    var t := p + sep + rest;
    assert OccursAt(t, sep, |p|) by { assert t[|p|..|p| + |sep|] == sep; }
    forall j | 0 <= j < |p| ensures !OccursAt(t, sep, j) {
      if j + |sep| <= |p| {
        assert t[j..j + |sep|] == p[j..j + |sep|];
        assert !OccursAt(p, sep, j);
      } else {
        StraddleIsBorder(p, sep, rest, j);
      }
    }
    assert Contains(t, sep);
  }

  /** Splitting a join gives the parts back, provided no part contains the
      (border-free) separator and the parts are not empty. */
  lemma {:induction false} SplitJoin(parts: seq<string>, sep: string)
    requires |sep| > 0 && BorderFree(sep) && |parts| > 0
    requires forall i :: 0 <= i < |parts| ==> !Contains(parts[i], sep)
    ensures Split(Join(parts, sep), sep) == parts
  {
    if |parts| == 1 {
      assert IndexOf(parts[0], sep).None?;
    } else {
      var p, rest := parts[0], Join(parts[1..], sep);
      IndexOfAfterPart(p, sep, rest);
      var t := p + sep + rest;
      assert t[..|p|] == p;
      assert t[|p| + |sep|..] == rest;
      SplitJoin(parts[1..], sep);
      assert parts == [p] + parts[1..];
    }
  }

  /** Joining the pieces of a split with the same separator gives the
      string back. */
  lemma {:induction false} JoinSplit(s: string, sep: string)
    requires |sep| > 0
    ensures Join(Split(s, sep), sep) == s
    decreases |s|
  {
    match IndexOf(s, sep)
    case None =>
    case Some(i) =>
      var rest := s[i + |sep|..];
      JoinSplit(rest, sep);
      var parts := Split(rest, sep);
      assert Split(s, sep) == [s[..i]] + parts;
      JoinCons(s[..i], parts, sep);
      assert s[i..i + |sep|] == sep;
      Reassemble(s, i, |sep|);
  }

  /** A string is its prefix, a middle piece and the rest. */
  lemma Reassemble(s: string, i: nat, n: nat)
    requires i + n <= |s|
    ensures s == s[..i] + s[i..i + n] + s[i + n..]
  {
    var t := s[..i] + s[i..i + n] + s[i + n..];
    assert |t| == |s|;
    forall k | 0 <= k < |s| ensures t[k] == s[k] {
      if k < i {
      } else if k < i + n {
        assert t[k] == s[i..i + n][k - i];
      } else {
        assert t[k] == s[i + n..][k - i - n];
      }
    }
  }

  /** Joining a part in front of at least one other. */
  lemma JoinCons(p: string, parts: seq<string>, sep: string)
    requires |parts| >= 1
    ensures Join([p] + parts, sep) == p + sep + Join(parts, sep)
  {
    assert ([p] + parts)[1..] == parts;
  }

  /** Joining one more part adds the separator and the part at the end. */
  lemma {:induction false} JoinSnoc(parts: seq<string>, p: string, sep: string)
    ensures Join(parts + [p], sep) == if parts == [] then p else Join(parts, sep) + sep + p
  {
    if |parts| > 1 {
      assert (parts + [p])[1..] == parts[1..] + [p];
      JoinSnoc(parts[1..], p, sep);
    } else if |parts| == 1 {
      assert (parts + [p])[1..] == [p];
    }
  }

  /** Go's `<` on strings: lexicographic order of the characters (for UTF-8
      text, byte order and code-point order agree). */
  predicate Less(a: string, b: string)
    decreases |a|
  {
    if |a| == 0 then |b| > 0
    else if |b| == 0 then false
    else if a[0] != b[0] then a[0] < b[0]
    else Less(a[1..], b[1..])
  }

  lemma {:induction false} LessIrreflexive(a: string)
    ensures !Less(a, a)
    decreases |a|
  {
    if |a| > 0 { LessIrreflexive(a[1..]); }
  }

  lemma {:induction false} LessTransitive(a: string, b: string, c: string)
    requires Less(a, b) && Less(b, c)
    ensures Less(a, c)
    decreases |a|
  {
    if |a| > 0 && a[0] == b[0] && b[0] == c[0] {
      LessTransitive(a[1..], b[1..], c[1..]);
    }
  }

  lemma {:induction false} LessTotal(a: string, b: string)
    requires a != b
    ensures Less(a, b) || Less(b, a)
    decreases |a|
  {
    if |a| > 0 && |b| > 0 && a[0] == b[0] {
      assert a == [a[0]] + a[1..] && b == [b[0]] + b[1..];
      LessTotal(a[1..], b[1..]);
    }
  }

  lemma {:induction false} LessAsymmetric(a: string, b: string)
    requires Less(a, b)
    ensures !Less(b, a)
    decreases |a|
  {
    if |a| > 0 && |b| > 0 && a[0] == b[0] {
      LessAsymmetric(a[1..], b[1..]);
    }
  }
}
