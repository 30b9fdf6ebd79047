/** The results viewer: its own readers for the total time and for split
    times, the choice of a team's total from its two time columns, the
    numbered split rows it charts, the filter that drops unreadable split
    times, and the order of the split labels on the chart's axis. */
module App {
  import opened Text
  import opened Clock
  import opened Records
  import Sorting

  // ---------------------------------------------------------------- total time

  /** app.py's `convert_time_to_seconds`: exactly three integer fields give
      h*3600 + m*60 + s; anything else, including two fields, gives `inf`. */
  function ConvertTimeToSeconds(timeStr: string): (r: Seconds)
    ensures r.Finite? <==> |Fields(timeStr)| == 3 && IntFields(Fields(timeStr)).Some?
  {
    match IntFields(Fields(timeStr))
    case Some(v) => if |v| == 3 then Finite(HmsValue(v[0], v[1], v[2])) else Inf
    case None => Inf
  }

  lemma ConvertThreeFields(h: string, m: string, s: string)
    requires IsField(h) && IsField(m) && IsField(s)
    ensures ConvertTimeToSeconds(h + ":" + m + ":" + s)
              == Finite(HmsValue(ParseInt(h).value, ParseInt(m).value, ParseInt(s).value))
  {
    FieldsOfThree(h, m, s);
  }

  /** "m:s" is not a total time here: two integer fields give `inf`. */
  lemma ConvertRejectsTwoFields(m: string, s: string)
    requires IsField(m) && IsField(s)
    ensures ConvertTimeToSeconds(m + ":" + s) == Inf
  {
    FieldsOfTwo(m, s);
  }

  /** The `TotalTimeInSeconds` column: from the two `Time` entries, the
      smaller conversion when both are non-empty, the one non-empty entry's
      conversion otherwise. */
  function TotalTime(first: string, second: string): (r: Seconds)
    ensures first != "" ==> NoLater(r, ConvertTimeToSeconds(first))
    ensures second != "" ==> NoLater(r, ConvertTimeToSeconds(second))
    ensures (first != "" && r == ConvertTimeToSeconds(first))
         || (second != "" && r == ConvertTimeToSeconds(second))
         || (first == "" && second == "" && r == Inf)
  {
    if first != "" && second != "" then Min(ConvertTimeToSeconds(first), ConvertTimeToSeconds(second))
    else if first != "" then ConvertTimeToSeconds(first)
    else
      SplitNoSeparator("", ':');
      ConvertTimeToSeconds(second)
  }

  /** A non-empty entry that cannot be read never wins over a readable one. */
  lemma UnreadableNeverWins(first: string, second: string)
    requires first != "" && ConvertTimeToSeconds(first) == Inf
    requires ConvertTimeToSeconds(second).Finite?
    ensures TotalTime(first, second) == ConvertTimeToSeconds(second)
  {
  }

  lemma TwoDigits(a: char, b: char)
    requires IsDigit(a) && IsDigit(b)
    ensures ParseInt([a, b]) == Some(10 * DigitValue(a) + DigitValue(b))
  {
    var s := [a, b];
    assert IsAllDigits(s);
    assert s[..1] == [a] && [a][..0] == [];
    assert DigitsValue([a]) == DigitValue(a);
    assert DigitsValue(s) == 10 * DigitValue(a) + DigitValue(b);
  }

  lemma FieldValues()
    ensures ParseInt("00") == Some(0) && ParseInt("01") == Some(1) && ParseInt("05") == Some(5)
    ensures ParseInt("10") == Some(10) && ParseInt("30") == Some(30) && ParseInt("45") == Some(45)
  {
    TwoDigits('0', '0');
    TwoDigits('0', '1');
    TwoDigits('0', '5');
    TwoDigits('1', '0');
    TwoDigits('3', '0');
    TwoDigits('4', '5');
  }

  /** Both entries present: the smaller wins (01:05:30 against 01:05:45). */
  lemma TotalTimeOfBoth()
    ensures TotalTime("01:05:30", "01:05:45") == Finite(3930)
  {
    FieldValues();
    assert "01:05:30" == "01" + ":" + "05" + ":" + "30";
    assert "01:05:45" == "01" + ":" + "05" + ":" + "45";
    ConvertThreeFields("01", "05", "30");
    ConvertThreeFields("01", "05", "45");
  }

  /** Only the second entry present: its conversion (01:10:00 is 4200 s). */
  lemma TotalTimeOfSecond()
    ensures TotalTime("", "01:10:00") == Finite(4200)
  {
    FieldValues();
    assert "01:10:00" == "01" + ":" + "10" + ":" + "00";
    ConvertThreeFields("01", "10", "00");
  }

  // ---------------------------------------------------------------- split time

  /** `convert_split_time_to_seconds`: every field is converted first, so a
      field that is not an integer gives `None` whatever the count; then
      three fields give h*3600 + m*60 + s, two give m*60 + s, any other count
      gives `inf`. */
  function ConvertSplitTimeToSeconds(timeStr: string): (r: Option<Seconds>)
    ensures r.None? <==> IntFields(Fields(timeStr)).None?
    ensures r == Some(Inf) <==> IntFields(Fields(timeStr)).Some? && |Fields(timeStr)| != 2 && |Fields(timeStr)| != 3
  {
    match IntFields(Fields(timeStr))
    case None => None
    case Some(parts) =>
      if |parts| == 3 then Some(Finite(HmsValue(parts[0], parts[1], parts[2])))
      else if |parts| == 2 then Some(Finite(MsValue(parts[0], parts[1])))
      else Some(Inf)
  }

  lemma SplitThreeFields(h: string, m: string, s: string)
    requires IsField(h) && IsField(m) && IsField(s)
    ensures ConvertSplitTimeToSeconds(h + ":" + m + ":" + s)
              == Some(Finite(HmsValue(ParseInt(h).value, ParseInt(m).value, ParseInt(s).value)))
  {
    FieldsOfThree(h, m, s);
  }

  lemma SplitTwoFields(m: string, s: string)
    requires IsField(m) && IsField(s)
    ensures ConvertSplitTimeToSeconds(m + ":" + s) == Some(Finite(MsValue(ParseInt(m).value, ParseInt(s).value)))
  {
    FieldsOfTwo(m, s);
  }

  /** A lone integer is read but has the wrong field count ("5" gives `inf`);
      the empty text is not an integer ("" gives `None`). */
  lemma SplitSentinels()
    ensures ConvertSplitTimeToSeconds("5") == Some(Inf)
    ensures ConvertSplitTimeToSeconds("") == None
  {
    SplitNoSeparator("5", ':');
    SplitNoSeparator("", ':');
    assert IsAllDigits("5");
  }

  // ---------------------------------------------------------------- split rows

  /** One row of `splits_df`: team name, numbered label and time text. */
  datatype SplitRow = SplitRow(team: string, splitLabel: string, splitTime: string)

  /** `f"{i + 1}. {label}"` */
  function SplitLabel(position: nat, name: string): string
  {
    NatToString(position) + ". " + name
  }

  /** `int(x.split(".")[0])`, or nothing when that prefix is not an integer. */
  function LabelPosition(text: string): Option<int>
  {
    ParseInt(Split(text, '.')[0])
  }

  /** The position a label was built with reads back from its prefix. */
  lemma SplitLabelPosition(position: nat, name: string)
    ensures LabelPosition(SplitLabel(position, name)) == Some(position)
  {
    var digits := NatToString(position);
    assert '.' !in digits by {
      forall i | 0 <= i < |digits| ensures digits[i] != '.' {
        assert IsDigit(digits[i]);
      }
    }
    assert SplitLabel(position, name) == digits + ['.'] + (" " + name);
    SplitAtFirst(digits, '.', " " + name);
  }

  /** The rows one team contributes: one per raw split, in order, labelled
      with its 1-based position. */
  function TeamSplitRows(team: string, splits: seq<ScrapedSplit>): seq<SplitRow>
    decreases |splits|
  {
    if splits == [] then []
    else
      var last := splits[|splits| - 1];
      TeamSplitRows(team, splits[..|splits| - 1]) + [SplitRow(team, SplitLabel(|splits|, last.name), last.time)]
  }

  /** One row per split, in order: the team's name, the split's time and the
      split's name behind its 1-based position. */
  lemma {:induction false} TeamSplitRowsCorrect(team: string, splits: seq<ScrapedSplit>)
    ensures |TeamSplitRows(team, splits)| == |splits|
    ensures forall i :: 0 <= i < |splits| ==>
              && TeamSplitRows(team, splits)[i].team == team
              && TeamSplitRows(team, splits)[i].splitTime == splits[i].time
              && TeamSplitRows(team, splits)[i].splitLabel == SplitLabel(i + 1, splits[i].name)
    decreases |splits|
  {
    if splits != [] {
      var init := splits[..|splits| - 1];
      TeamSplitRowsCorrect(team, init);
      forall i | 0 <= i < |init| ensures init[i] == splits[i] {
      }
    }
  }

  /** `split_records`: the teams' rows, team after team. */
  function SplitRows(teams: seq<Team>): seq<SplitRow>
    decreases |teams|
  {
    if teams == [] then []
    else
      var t := teams[|teams| - 1];
      SplitRows(teams[..|teams| - 1]) + TeamSplitRows(t.team, t.splits)
  }

  /** The nested loop over teams and their splits. */
  method ExtractSplitRows(teams: seq<Team>) returns (records: seq<SplitRow>)
    ensures records == SplitRows(teams)
  {
    records := [];
    var index := 0;
    while index < |teams|
      invariant 0 <= index <= |teams|
      invariant records == SplitRows(teams[..index])
    {
      var row := teams[index];
      ghost var before := records;
      var i := 0;
      while i < |row.splits|
        invariant 0 <= i <= |row.splits|
        invariant records == before + TeamSplitRows(row.team, row.splits[..i])
      {
        var split := row.splits[i];
        TeamSplitRowsSnoc(row.team, row.splits, i);
        records := records + [SplitRow(row.team, SplitLabel(i + 1, split.name), split.time)];
        i := i + 1;
      }
      assert row.splits[..i] == row.splits;
      SplitRowsSnoc(teams, index);
      index := index + 1;
    }
    assert teams[..index] == teams;
  }

  lemma TeamSplitRowsSnoc(team: string, splits: seq<ScrapedSplit>, i: nat)
    requires i < |splits|
    ensures TeamSplitRows(team, splits[..i + 1])
         == TeamSplitRows(team, splits[..i]) + [SplitRow(team, SplitLabel(i + 1, splits[i].name), splits[i].time)]
  {
    assert splits[..i + 1][..i] == splits[..i];
  }

  lemma SplitRowsSnoc(teams: seq<Team>, index: nat)
    requires index < |teams|
    ensures SplitRows(teams[..index + 1]) == SplitRows(teams[..index]) + TeamSplitRows(teams[index].team, teams[index].splits)
  {
    assert teams[..index + 1][..index] == teams[..index];
  }

  /** The rows of consecutive groups of teams follow each other. */
  lemma {:induction false} SplitRowsAppend(a: seq<Team>, b: seq<Team>)
    ensures SplitRows(a + b) == SplitRows(a) + SplitRows(b)
    decreases |b|
  {
    if b == [] {
      assert a + b == a;
    } else {
      var init, t := b[..|b| - 1], b[|b| - 1];
      assert (a + b)[..|a + b| - 1] == a + init;
      assert (a + b)[|a + b| - 1] == t;
      SplitRowsAppend(a, init);
      var rows := TeamSplitRows(t.team, t.splits);
      assert SplitRows(a + b) == SplitRows(a + init) + rows;
      assert SplitRows(b) == SplitRows(init) + rows;
    }
  }

  /** Every row's label reads back as the position of its split within its
      team, so sorting the labels never fails. */
  lemma TeamRowPositions(team: string, splits: seq<ScrapedSplit>)
    ensures |TeamSplitRows(team, splits)| == |splits|
    ensures forall i :: 0 <= i < |splits| ==> LabelPosition(TeamSplitRows(team, splits)[i].splitLabel) == Some(i + 1)
  {
    TeamSplitRowsLength(team, splits);
    forall i | 0 <= i < |splits| ensures LabelPosition(TeamSplitRows(team, splits)[i].splitLabel) == Some(i + 1) {
      TeamSplitRowLabel(team, splits, i);
      SplitLabelPosition(i + 1, splits[i].name);
    }
  }

  lemma TeamSplitRowsLength(team: string, splits: seq<ScrapedSplit>)
    ensures |TeamSplitRows(team, splits)| == |splits|
  {
    TeamSplitRowsCorrect(team, splits);
  }

  lemma TeamSplitRowLabel(team: string, splits: seq<ScrapedSplit>, i: nat)
    requires i < |splits|
    ensures |TeamSplitRows(team, splits)| == |splits|
    ensures TeamSplitRows(team, splits)[i].splitLabel == SplitLabel(i + 1, splits[i].name)
  {
    TeamSplitRowsCorrect(team, splits);
  }

  /** Every label of `split_records` has an integer prefix, so ordering the
      labels of any selection of those rows never raises. */
  lemma {:induction false} SplitRowsLabelled(teams: seq<Team>)
    ensures forall r :: r in SplitRows(teams) ==> LabelPosition(r.splitLabel).Some?
    decreases |teams|
  {
    if teams != [] {
      var t := teams[|teams| - 1];
      var rows := TeamSplitRows(t.team, t.splits);
      SplitRowsLabelled(teams[..|teams| - 1]);
      TeamRowPositions(t.team, t.splits);
      assert forall r :: r in rows ==> LabelPosition(r.splitLabel).Some?;
    }
  }

  // ---------------------------------------------------------------- conversion and filter

  /** A row with its `SplitTimeInSeconds` column. */
  datatype TimedRow = TimedRow(row: SplitRow, seconds: Option<Seconds>)

  function TimedRows(rows: seq<SplitRow>): (timed: seq<TimedRow>)
    ensures |timed| == |rows|
    ensures forall i :: 0 <= i < |rows| ==> timed[i].row == rows[i]
    ensures forall i :: 0 <= i < |rows| ==> timed[i].seconds == ConvertSplitTimeToSeconds(rows[i].splitTime)
  {
    seq(|rows|, i requires 0 <= i < |rows| => TimedRow(rows[i], ConvertSplitTimeToSeconds(rows[i].splitTime)))
  }

  /** `dropna(subset=["SplitTimeInSeconds"])`: keeps, in order, exactly the
      rows whose conversion did not fail; `inf` rows stay. */
  function DropUnparsed(timed: seq<TimedRow>): (kept: seq<TimedRow>)
    ensures |kept| <= |timed|
    ensures forall x :: x in kept <==> x in timed && x.seconds.Some?
    decreases |timed|
  {
    if timed == [] then []
    else
      var x := timed[|timed| - 1];
      DropUnparsed(timed[..|timed| - 1]) + (if x.seconds.Some? then [x] else [])
  }

  /** When every time was read, nothing is dropped. */
  lemma {:induction false} DropUnparsedNothing(timed: seq<TimedRow>)
    requires forall i :: 0 <= i < |timed| ==> timed[i].seconds.Some?
    ensures DropUnparsed(timed) == timed
    decreases |timed|
  {
    if timed != [] {
      var n := |timed| - 1;
      var init := timed[..n];
      forall i | 0 <= i < |init| ensures init[i].seconds.Some? {
        assert init[i] == timed[i];
      }
      DropUnparsedNothing(init);
      assert timed == init + [timed[n]];
    }
  }

  /** Filtering consecutive groups filters each. */
  lemma {:induction false} DropUnparsedAppend(a: seq<TimedRow>, b: seq<TimedRow>)
    ensures DropUnparsed(a + b) == DropUnparsed(a) + DropUnparsed(b)
    decreases |b|
  {
    if b == [] {
      assert a + b == a;
    } else {
      assert (a + b)[..|a + b| - 1] == a + b[..|b| - 1];
      DropUnparsedAppend(a, b[..|b| - 1]);
    }
  }

  // ---------------------------------------------------------------- axis order

  /** `unique()`: each label once, in order of first appearance. */
  function Unique(labels: seq<string>): (u: seq<string>)
    ensures forall k, l :: 0 <= k < l < |u| ==> u[k] != u[l]
    ensures forall x :: x in u <==> x in labels
    decreases |labels|
  {
    if labels == [] then []
    else
      var u := Unique(labels[..|labels| - 1]);
      var x := labels[|labels| - 1];
      assert forall y :: y in labels <==> y in labels[..|labels| - 1] || y == x by {
        assert labels == labels[..|labels| - 1] + [x];
      }
      if x in u then u else u + [x]
  }

  /** The unique labels of a prefix are a prefix of the unique labels: each
      label keeps the position of its first appearance. */
  lemma {:induction false} UniquePrefix(labels: seq<string>, i: nat)
    requires i <= |labels|
    ensures Unique(labels[..i]) <= Unique(labels)
    decreases |labels|
  {
    if i < |labels| {
      var init := labels[..|labels| - 1];
      assert labels[..i] == init[..i];
      UniquePrefix(init, i);
    } else {
      assert labels[..i] == labels;
    }
  }

  /** The sort key of a label: its integer prefix. */
  function PositionKey(text: string): real
  {
    match LabelPosition(text)
    case Some(n) => n as real
    case None => 0.0
  }

  /** A label's sort key is its position. */
  lemma PositionKeyOf(text: string, n: int)
    requires LabelPosition(text) == Some(n)
    ensures PositionKey(text) == n as real
  {
  }

  /** The axis categories: the unique labels sorted stably by their integer
      prefix. The source raises when a prefix is not an integer. */
  function OrderSplitLabels(labels: seq<string>): (ordered: seq<string>)
    requires forall i :: 0 <= i < |labels| ==> LabelPosition(labels[i]).Some?
    ensures multiset(ordered) == multiset(Unique(labels))
    ensures forall x :: x in ordered <==> x in labels
    ensures Sorting.SortedBy(ordered, PositionKey)
    ensures forall m :: Sorting.KeyClass(ordered, PositionKey, m) == Sorting.KeyClass(Unique(labels), PositionKey, m)
  {
    var u := Unique(labels);
    var ordered := Sorting.SortBy(u, PositionKey);
    Sorting.SortByCorrect(u, PositionKey);
    assert forall x :: x in ordered <==> x in u by {
      forall x ensures x in ordered <==> x in u {
        assert x in ordered <==> x in multiset(ordered);
        assert x in u <==> x in multiset(u);
      }
    }
    ordered
  }
}
