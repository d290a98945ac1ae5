/** The one-line header of the flat-file store (src/hourglass/csv.go): the
    schema version and the last id handed out, in a fixed-width line that
    the store rewrites in place. */
module FrontMatter {
  import opened Wrappers
  import Decimal

  /** The header is exactly this many bytes, newline included; readers of
      the data seek past it. */
  const Width: nat := 45

  const VersionLabel: string := "# version: "
  const IdLabel: string := ", last-id: "

  /** The values whose header has the fixed width: a version of at most
      three digits and a non-negative int64 id. */
  predicate Fits(version: int, lastId: int)
  {
    0 <= version < 1000 && 0 <= lastId <= Decimal.MaxInt64
  }

  /** `fmt.Sprintf("# version: %03d, last-id: %019d\n", version, lastId)`. */
  function Encode(version: int, lastId: int): string
  {
    VersionLabel + Decimal.FormatPadded(version, 3) + IdLabel + Decimal.FormatPadded(lastId, 19) + "\n"
  }

  /** The header regular expression `^# version: (\d{3}), last-id: (\d{19})\n`
      matches at the start of `line`. */
  predicate Matches(line: string)
  {
    |line| >= Width
    && line[..11] == VersionLabel && Decimal.AllDigits(line[11..14])
    && line[14..25] == IdLabel && Decimal.AllDigits(line[25..44])
    && line[44] == '\n'
  }

  /** The two captured groups, converted as `readFrontMatter` converts them:
      the version with `strconv.Atoi`, the id with `strconv.ParseInt`. */
  datatype Fields = Fields(version: Decimal.ParsedInt, lastId: Decimal.ParsedInt)

  function Parse(line: string): (r: Option<Fields>)
    ensures r.Some? <==> Matches(line)
    ensures r.Some? ==> r.value.version.err.None? && 0 <= r.value.version.value < 1000
    ensures r.Some? ==> 0 <= r.value.lastId.value <= Decimal.MaxInt64
    ensures r.Some? && r.value.lastId.err.Some? ==>
      r.value.lastId.err == Some(Decimal.RangeKind) && r.value.lastId.value == Decimal.MaxInt64
  {
    if Matches(line) then
      DigitsParse(line[11..14]);
      DigitsParse(line[25..44]);
      assert Decimal.ValueOf(line[11..14]) < 1000 by { DigitsBound(line[11..14]); Powers(); }
      Some(Fields(Decimal.ParseInt(line[11..14]), Decimal.ParseInt(line[25..44])))
    else
      None
  }

  /** A non-empty run of digits parses to its value, or to the int64
      maximum with a range error when it is larger. */
  lemma DigitsParse(s: string)
    requires |s| > 0 && Decimal.AllDigits(s)
    ensures Decimal.ParseInt(s) ==
      if Decimal.ValueOf(s) > Decimal.MaxInt64 then Decimal.ParsedInt(Decimal.MaxInt64, Some(Decimal.RangeKind))
      else Decimal.ParsedInt(Decimal.ValueOf(s), None)
  {
    assert s[0] != '-' && s[0] != '+';
  }

  lemma {:induction false} DigitsBound(s: string)
    requires Decimal.AllDigits(s)
    ensures Decimal.ValueOf(s) < Decimal.Pow10(|s|)
  {
    if s != [] {
      DigitsBound(s[..|s| - 1]);
    }
  }

  lemma Powers()
    ensures Decimal.Pow10(3) == 1000
    ensures Decimal.Pow10(18) == 1_000_000_000_000_000_000
    ensures Decimal.Pow10(19) == 10_000_000_000_000_000_000
  {
    assert Decimal.Pow10(6) == 1_000_000;
    assert Decimal.Pow10(9) == 1_000_000_000;
    assert Decimal.Pow10(12) == 1_000_000_000_000;
    assert Decimal.Pow10(15) == 1_000_000_000_000_000;
  }

  /** Where the parts of a header line sit, for a three-digit version field
      and a nineteen-digit id field, and that only its last byte is a
      newline. */
  lemma Layout(v: string, d: string)
    requires |v| == 3 && |d| == 19 && Decimal.AllDigits(v) && Decimal.AllDigits(d)
    ensures var e := VersionLabel + v + IdLabel + d + "\n";
      |e| == Width && e[..11] == VersionLabel && e[11..14] == v
      && e[14..25] == IdLabel && e[25..44] == d && e[44] == '\n'
      && forall i :: 0 <= i < Width - 1 ==> e[i] != '\n'
  {
    var e := VersionLabel + v + IdLabel + d + "\n";
    forall i | 0 <= i < Width - 1 ensures e[i] != '\n' {
      if i < 11 {
        assert e[i] == VersionLabel[i];
      } else if i < 14 {
        assert e[i] == v[i - 11];
      } else if i < 25 {
        assert e[i] == IdLabel[i - 14];
      } else {
        assert e[i] == d[i - 25];
      }
    }
  }

  /** A header that fits is exactly `Width` bytes, its only newline is the
      last byte, and reading it back gives the values written. */
  lemma EncodeParse(version: int, lastId: int)
    requires Fits(version, lastId)
    ensures |Encode(version, lastId)| == Width
    ensures forall i :: 0 <= i < Width - 1 ==> Encode(version, lastId)[i] != '\n'
    ensures Parse(Encode(version, lastId)) ==
      Some(Fields(Decimal.ParsedInt(version, None), Decimal.ParsedInt(lastId, None)))
  {
    Powers();
    var v := Decimal.FormatPadded(version, 3);
    var d := Decimal.FormatPadded(lastId, 19);
    Decimal.FormatPaddedWidth(version, 3);
    Decimal.FormatPaddedWidth(lastId, 19);
    Decimal.ParseFormatPadded(version, 3);
    Decimal.ParseFormatPadded(lastId, 19);
    var e := Encode(version, lastId);
    Layout(v, d);
    assert e == VersionLabel + v + IdLabel + d + "\n";
    assert Matches(e);
    assert Parse(e) == Some(Fields(Decimal.ParseInt(v), Decimal.ParseInt(d)));
  }

  /** The header of the id after the int64 maximum, which wraps to the
      minimum, is one byte longer than the region readers skip. */
  lemma EncodeWrappedIdOverruns()
    ensures Decimal.Wrap64(Decimal.MaxInt64 + 1) == Decimal.MinInt64
    ensures |Encode(1, Decimal.Wrap64(Decimal.MaxInt64 + 1))| == Width + 1
  {
    Powers();
    Decimal.FormatPaddedWidth(1, 3);
    Decimal.NatToStringLength(-Decimal.MinInt64, 19);
    Decimal.NatToStringLengthAtLeast(-Decimal.MinInt64, 19);
  }
}
