/** processor.py: club-name normalisation, running-segment renumbering,
    alignment of every team's splits onto the fixed station order, the
    reciprocal-rank club scoreboard, and the time codec with its H:MM:SS
    formatter. */
module Processor {
  import opened Text
  import opened Clock

  // ====================================================== club normaliser

  /** The curated spelling table of `normalize_club_name`. */
  const ClubTable: map<string, string> := map[
    "CFR" := "CFR",
    "CFRVK" := "CFR",
    "CfRvk" := "CFR",
    "CrossFit Reykjavík" := "CFR",
    "crossfit reykjavík" := "CFR",
    "Cfr" := "CFR",
    "CF RVK" := "CFR",
    "Crossfit Reykjavík" := "CFR",
    "Crossfit Reykjavik" := "CFR",
    "Cfrvk" := "CFR",
    "cfr" := "CFR",
    "Mjönir:" := "Mjönir",
    "World Class" := "WorldClass",
    "Worldfit" := "WorldFit",
    "Grandi101" := "Grandi 101",
    "ULTRA form" := "Ultraform"
  ]

  /** Exact-match lookup with identity fallback: a listed spelling becomes its
      canonical name, anything else passes through unchanged. */
  function NormalizeClubName(club: string): (r: string)
    ensures club in ClubTable ==> r == ClubTable[club]
    ensures club !in ClubTable ==> r == club
  {
    if club in ClubTable then ClubTable[club] else club
  }

  /** Normalising twice is normalising once: no canonical name in the table is
      itself a spelling that maps elsewhere. */
  lemma NormalizeIdempotent(club: string)
    ensures NormalizeClubName(NormalizeClubName(club)) == NormalizeClubName(club)
  {
    if club in ClubTable {
      var v := ClubTable[club];
      assert v in {"CFR", "Mjönir", "WorldClass", "WorldFit", "Grandi 101", "Ultraform"};
      assert v !in ClubTable || ClubTable[v] == v;
    }
  }

  lemma NormalizeExamples()
    ensures NormalizeClubName("CFRVK") == "CFR"
    ensures NormalizeClubName("Mjönir:") == "Mjönir"
    ensures NormalizeClubName("Some New Gym") == "Some New Gym"
  {
    assert "Some New Gym" !in ClubTable;
  }

  /** The `NormalizedClubs` column: one normalised name per listed club, in
      order, never merged or dropped. */
  function NormalizeClubs(clubs: seq<string>): (r: seq<string>)
    ensures |r| == |clubs|
    ensures forall i :: 0 <= i < |clubs| ==> r[i] == NormalizeClubName(clubs[i])
  {
    seq(|clubs|, i requires 0 <= i < |clubs| => NormalizeClubName(clubs[i]))
  }

  // ====================================================== time codec

  /** `convert_time_to_seconds`: "h:m:s" or "m:s" with integer fields; any
      other field count, or a field that is not an integer, gives `inf`. */
  function ConvertTimeToSeconds(timeStr: string): (r: Seconds)
    ensures r.Finite? <==> (|Fields(timeStr)| == 2 || |Fields(timeStr)| == 3) && IntFields(Fields(timeStr)).Some?
  {
    var parts := Fields(timeStr);
    if |parts| == 3 then
      match IntFields(parts)
      case Some(v) => Finite(HmsValue(v[0], v[1], v[2]))
      case None => Inf
    else if |parts| == 2 then
      match IntFields(parts)
      case Some(v) => Finite(MsValue(v[0], v[1]))
      case None => Inf
    else Inf
  }

  /** Three integer fields give hours, minutes and seconds. */
  lemma ConvertThreeFields(h: string, m: string, s: string)
    requires IsField(h) && IsField(m) && IsField(s)
    ensures ConvertTimeToSeconds(h + ":" + m + ":" + s)
         == Finite(HmsValue(ParseInt(h).value, ParseInt(m).value, ParseInt(s).value))
  {
    FieldsOfThree(h, m, s);
  }

  /** Two integer fields give minutes and seconds. */
  lemma ConvertTwoFields(m: string, s: string)
    requires IsField(m) && IsField(s)
    ensures ConvertTimeToSeconds(m + ":" + s) == Finite(MsValue(ParseInt(m).value, ParseInt(s).value))
  {
    FieldsOfTwo(m, s);
  }

  /** The gap filler "00:00" reads as zero seconds. */
  lemma GapIsZero()
    ensures ConvertTimeToSeconds("00:00") == Finite(0)
  {
    assert Pad2(0) == "00";
    assert "00:00" == "00" + ":" + "00";
    ConvertTwoFields("00", "00");
  }

  /** The `TotalTime` formatter: `f"{x//3600:02}:{x%3600//60:02}:{x%60:02}"`. */
  function FormatHms(x: nat): string
  {
    Pad2(x / 3600) + ":" + Pad2((x % 3600) / 60) + ":" + Pad2(x % 60)
  }

  /** The formatted text is three colon-separated digit fields; minutes and
      seconds are exactly two digits and below 60. */
  lemma FormatHmsShape(x: nat)
    ensures |Fields(FormatHms(x))| == 3
    ensures forall i :: 0 <= i < 3 ==> IsAllDigits(Fields(FormatHms(x))[i]) && |Fields(FormatHms(x))[i]| >= 2
    ensures |Fields(FormatHms(x))[1]| == 2 && DigitsValue(Fields(FormatHms(x))[1]) < 60
    ensures |Fields(FormatHms(x))[2]| == 2 && DigitsValue(Fields(FormatHms(x))[2]) < 60
  {
    FieldsOfThree(Pad2(x / 3600), Pad2((x % 3600) / 60), Pad2(x % 60));
  }

  /** Parsing the formatter's output gives back the original seconds. */
  lemma FormatThenParse(x: nat)
    ensures ConvertTimeToSeconds(FormatHms(x)) == Finite(x)
  {
    var h, m, s := Pad2(x / 3600), Pad2((x % 3600) / 60), Pad2(x % 60);
    PaddedField(x / 3600);
    PaddedField((x % 3600) / 60);
    PaddedField(x % 60);
    ConvertThreeFields(h, m, s);
    HmsRecombines(x);
  }

  /** The other direction: a canonical `H:MM:SS` text (hours zero-padded to
      at least two digits, minutes and seconds two digits below 60) parses
      to a number of seconds that formats back to the same text. */
  lemma ParseThenFormat(h: string, m: string, s: string)
    requires IsAllDigits(h) && IsAllDigits(m) && IsAllDigits(s)
    requires |m| == 2 && |s| == 2 && DigitsValue(m) < 60 && DigitsValue(s) < 60
    requires h == Pad2(DigitsValue(h))
    ensures var x := HmsValue(DigitsValue(h), DigitsValue(m), DigitsValue(s));
      && ConvertTimeToSeconds(h + ":" + m + ":" + s) == Finite(x)
      && FormatHms(x) == h + ":" + m + ":" + s
  {
    DigitField(h);
    DigitField(m);
    DigitField(s);
    ConvertThreeFields(h, m, s);
    HmsSplits(DigitsValue(h), DigitsValue(m), DigitsValue(s));
    TwoDigitsCanonical(m);
    TwoDigitsCanonical(s);
  }

  /** A non-empty digit string is a field that reads as its value. */
  lemma DigitField(d: string)
    requires IsAllDigits(d) && |d| > 0
    ensures IsField(d) && ParseInt(d) == Some(DigitsValue(d) as int)
  {
    assert ':' !in d by {
      forall i | 0 <= i < |d| ensures d[i] != ':' {
        assert IsDigit(d[i]);
      }
    }
  }

  /** A two-digit string is its own zero-padded value. */
  lemma TwoDigitsCanonical(d: string)
    requires IsAllDigits(d) && |d| == 2
    ensures Pad2(DigitsValue(d)) == d
  {
    TwoDigitValue(d);
    var p := Pad2(DigitsValue(d));
    TwoDigitValue(p);
    TwoDigitsDetermined(p, d);
  }

  lemma TwoDigitValue(d: string)
    requires IsAllDigits(d) && |d| == 2
    ensures DigitsValue(d) == 10 * DigitValue(d[0]) + DigitValue(d[1]) < 100
  {
    assert DigitsValue(d[..1]) == DigitValue(d[0]);
  }

  /** Two two-digit strings with the same digit values are the same string. */
  lemma TwoDigitsDetermined(p: string, d: string)
    requires IsAllDigits(p) && |p| == 2 && IsAllDigits(d) && |d| == 2
    requires 10 * DigitValue(p[0]) + DigitValue(p[1]) == 10 * DigitValue(d[0]) + DigitValue(d[1])
    ensures p == d
  {
    assert p[0] == d[0] && p[1] == d[1];
  }

  /** Hours, minutes below 60 and seconds below 60 are recovered by the
      formatter's divisions. */
  lemma HmsSplits(h: nat, m: nat, s: nat)
    requires m < 60 && s < 60
    ensures var x := HmsValue(h, m, s);
      && x / 3600 == h && (x % 3600) / 60 == m && x % 60 == s
  {
    var x := HmsValue(h, m, s);
    assert 0 <= m * 60 + s < 3600;
    assert x / 3600 == h && x % 3600 == m * 60 + s;
    assert x % 60 == s;
  }

  /** A zero-padded number is a field that reads back as the number. */
  lemma PaddedField(n: nat)
    ensures IsField(Pad2(n)) && ParseInt(Pad2(n)) == Some(n)
  {
    var d := Pad2(n);
    assert ':' !in d by {
      forall i | 0 <= i < |d| ensures d[i] != ':' {
        assert IsDigit(d[i]);
      }
    }
  }

  /** Hours, minutes and seconds of `x` add back up to `x`. */
  lemma HmsRecombines(x: nat)
    ensures HmsValue(x / 3600, (x % 3600) / 60, x % 60) == x
  {
    var h, r := x / 3600, x % 3600;
    assert x == h * 3600 + r;
    assert r == (r / 60) * 60 + r % 60;
    assert r % 60 == x % 60;
  }

  // ====================================================== split labels

  /** One raw split as the scraper hands it on: a label and its time text. */
  datatype LabelledSplit = LabelledSplit(name: string, time: string)  // the "label" and "time" keys

  predicate IsRunning(name: string) { Contains(name, "Hlaup") }

  /** The number of running segments among `splits`. */
  function RunningCount(splits: seq<LabelledSplit>): nat
  {
    if splits == [] then 0
    else RunningCount(splits[..|splits| - 1]) + (if IsRunning(splits[|splits| - 1].name) then 1 else 0)
  }

  function RunningLabel(k: nat): string { "Hlaup " + NatToString(k) }

  /** What `map_split_labels` makes of the i-th split: a running segment is
      renamed after how many running segments occur up to and including it. */
  function MappedSplit(splits: seq<LabelledSplit>, i: nat): LabelledSplit
    requires i < |splits|
  {
    if IsRunning(splits[i].name) then LabelledSplit(RunningLabel(RunningCount(splits[..i + 1])), splits[i].time)
    else splits[i]
  }

  function MappedSplits(splits: seq<LabelledSplit>): seq<LabelledSplit>
  {
    seq(|splits|, i requires 0 <= i < |splits| => MappedSplit(splits, i))
  }

  /** `map_split_labels`: one pass with a running counter. */
  method MapSplitLabels(splits: seq<LabelledSplit>) returns (mapped: seq<LabelledSplit>)
    ensures mapped == MappedSplits(splits)
    ensures |mapped| == |splits|
    ensures forall i :: 0 <= i < |splits| ==> mapped[i].time == splits[i].time
    ensures forall i :: 0 <= i < |splits| && !IsRunning(splits[i].name) ==> mapped[i] == splits[i]
    ensures forall i :: 0 <= i < |splits| && IsRunning(splits[i].name) ==>
              mapped[i].name == RunningLabel(RunningCount(splits[..i + 1]))
  {
    var hlaup := 0;  // split_counts["Hlaup"]
    mapped := [];
    for i := 0 to |splits|
      invariant hlaup == RunningCount(splits[..i])
      invariant |mapped| == i
      invariant forall j :: 0 <= j < i ==> mapped[j] == MappedSplit(splits, j)
    {
      assert splits[..i + 1][..i] == splits[..i];
      var name := splits[i].name;
      if IsRunning(name) {
        hlaup := hlaup + 1;
        name := RunningLabel(hlaup);
      }
      mapped := mapped + [LabelledSplit(name, splits[i].time)];
    }
  }

  lemma {:induction false} RunningCountPrefix(splits: seq<LabelledSplit>, i: nat, j: nat)
    requires i <= j <= |splits|
    ensures RunningCount(splits[..i]) <= RunningCount(splits[..j])
    decreases j - i
  {
    if i < j {
      RunningCountPrefix(splits, i, j - 1);
      assert splits[..j][..j - 1] == splits[..j - 1];
    }
  }

  /** Running segments are numbered 1..m in input order: each number is used,
      by exactly one segment, and later segments get larger numbers. */
  lemma {:induction false} RunningNumbering(splits: seq<LabelledSplit>)
    ensures forall i :: 0 <= i < |splits| && IsRunning(splits[i].name) ==>
              1 <= RunningCount(splits[..i + 1]) <= RunningCount(splits)
    ensures forall i, j :: 0 <= i < j < |splits| && IsRunning(splits[i].name) && IsRunning(splits[j].name) ==>
              RunningCount(splits[..i + 1]) < RunningCount(splits[..j + 1])
    ensures forall k :: 1 <= k <= RunningCount(splits) ==> RunningLabelUsed(splits, RunningLabel(k))
  {
    forall i | 0 <= i < |splits| && IsRunning(splits[i].name)
      ensures 1 <= RunningCount(splits[..i + 1]) <= RunningCount(splits)
    {
      assert splits[..i + 1][..i] == splits[..i];
      RunningCountPrefix(splits, i + 1, |splits|);
      assert splits[..|splits|] == splits;
    }
    forall i, j | 0 <= i < j < |splits| && IsRunning(splits[i].name) && IsRunning(splits[j].name)
      ensures RunningCount(splits[..i + 1]) < RunningCount(splits[..j + 1])
    {
      RunningCountPrefix(splits, i + 1, j);
      assert splits[..j + 1][..j] == splits[..j];
    }
    forall k | 1 <= k <= RunningCount(splits)
      ensures RunningLabelUsed(splits, RunningLabel(k))
    {
      RunningNumberUsed(splits, k);
    }
  }

  /** Some running segment of `splits` is renamed `name`. */
  predicate RunningLabelUsed(splits: seq<LabelledSplit>, name: string)
  {
    exists i :: 0 <= i < |splits| && IsRunning(splits[i].name) && MappedSplit(splits, i).name == name
  }

  lemma {:induction false} RunningNumberUsed(splits: seq<LabelledSplit>, k: nat)
    requires 1 <= k <= RunningCount(splits)
    ensures exists i :: 0 <= i < |splits| && IsRunning(splits[i].name) && RunningCount(splits[..i + 1]) == k
    ensures RunningLabelUsed(splits, RunningLabel(k))
    decreases |splits|
  {
    var n := |splits|;
    var init := splits[..n - 1];
    if IsRunning(splits[n - 1].name) && k == RunningCount(splits) {
      assert splits[..n] == splits;
    } else {
      RunningNumberUsed(init, k);
      var i :| 0 <= i < |init| && IsRunning(init[i].name) && RunningCount(init[..i + 1]) == k;
      assert init[..i + 1] == splits[..i + 1];
    }
  }

  // ====================================================== station alignment

  /** `split_order`: the sixteen stations every team is aligned onto. */
  const SplitOrder: seq<string> := [
    "Hlaup 1", "Ski-Erg", "Hlaup 2", "Ýta sleða", "Hlaup 3", "Draga sleða",
    "Hlaup 4", "Burpee langstökk", "Hlaup 5", "Róður", "Hlaup 6", "Bændaganga",
    "Hlaup 7", "Dumbell lovers", "Hlaup 8", "Wall Balls"
  ]

  /** `list.index`: the first position of `x` in `xs`. */
  function IndexOf(xs: seq<string>, x: string): (i: nat)
    requires x in xs
    ensures i < |xs| && xs[i] == x
    ensures forall j :: 0 <= j < i ==> xs[j] != x
  {
    if xs[0] == x then 0 else 1 + IndexOf(xs[1..], x)
  }

  lemma SplitOrderDistinct()
    ensures |SplitOrder| == 16
    ensures forall i, j :: 0 <= i < j < |SplitOrder| ==> SplitOrder[i] != SplitOrder[j]
  {
  }

  /** `{split["label"]: split["time"] for split in mapped}`. */
  function LabelTimes(mapped: seq<LabelledSplit>): map<string, string>
  {
    if mapped == [] then map[]
    else LabelTimes(mapped[..|mapped| - 1])[mapped[|mapped| - 1].name := mapped[|mapped| - 1].time]
  }

  /** `i` is the last position in `splits` of a split named `name`. */
  predicate IsLastNamed(splits: seq<LabelledSplit>, name: string, i: int)
  {
    0 <= i < |splits| && splits[i].name == name && forall j :: i < j < |splits| ==> splits[j].name != name
  }

  /** The dict holds exactly the labels that occur, each with the time of its
      last occurrence. */
  lemma LabelTimesLastWins(mapped: seq<LabelledSplit>, name: string)
    ensures name in LabelTimes(mapped) <==> exists i :: 0 <= i < |mapped| && mapped[i].name == name
    ensures forall i :: IsLastNamed(mapped, name, i) ==> name in LabelTimes(mapped) && LabelTimes(mapped)[name] == mapped[i].time
  {
    LabelTimesKeys(mapped, name);
    forall i | IsLastNamed(mapped, name, i)
      ensures name in LabelTimes(mapped) && LabelTimes(mapped)[name] == mapped[i].time
    {
      LabelTimesLast(mapped, name, i);
    }
  }

  lemma {:induction false} LabelTimesKeys(mapped: seq<LabelledSplit>, name: string)
    ensures name in LabelTimes(mapped) <==> exists i :: 0 <= i < |mapped| && mapped[i].name == name
    decreases |mapped|
  {
    if mapped != [] {
      var n := |mapped| - 1;
      var init := mapped[..n];
      LabelTimesKeys(init, name);
      if mapped[n].name != name && exists i :: 0 <= i < |mapped| && mapped[i].name == name {
        var i :| 0 <= i < |mapped| && mapped[i].name == name;
        assert init[i].name == name;
      }
    }
  }

  lemma {:induction false} LabelTimesLast(mapped: seq<LabelledSplit>, name: string, i: int)
    requires IsLastNamed(mapped, name, i)
    ensures name in LabelTimes(mapped) && LabelTimes(mapped)[name] == mapped[i].time
    decreases |mapped|
  {
    var n := |mapped| - 1;
    if i < n {
      assert IsLastNamed(mapped[..n], name, i);
      LabelTimesLast(mapped[..n], name, i);
    }
  }

  /** One row of `splits_df`; `seconds` is its `SplitTimeInSeconds` column. */
  datatype SplitRecord = SplitRecord(team: string, splitLabel: string, splitTime: string, order: nat, seconds: Seconds)

  /** The columns of `df` that `process_data` reads. */
  datatype TeamRow = TeamRow(team: string, clubs: seq<string>, rank: int, splits: seq<LabelledSplit>)

  /** The record `process_data` emits for station `k` of `stations` for `row`. */
  function StationRecord(row: TeamRow, stations: seq<string>, k: nat): SplitRecord
    requires k < |stations|
  {
    var times := LabelTimes(MappedSplits(row.splits));
    var station := stations[k];
    var time := if station in times then times[station] else "00:00";
    SplitRecord(row.team, station, time, IndexOf(stations, station), ConvertTimeToSeconds(time))
  }

  /** Station `k` of a team is labelled with the k-th station and ordered `k`;
      its time is that of the last mapped split with that label, or "00:00"
      (zero seconds) when the team has none. */
  lemma StationRecordFacts(row: TeamRow, k: nat)
    requires k < |SplitOrder|
    ensures StationRecord(row, SplitOrder, k).team == row.team
    ensures StationRecord(row, SplitOrder, k).splitLabel == SplitOrder[k]
    ensures StationRecord(row, SplitOrder, k).order == k
    ensures StationRecord(row, SplitOrder, k).seconds == ConvertTimeToSeconds(StationRecord(row, SplitOrder, k).splitTime)
    ensures forall i :: IsLastNamed(MappedSplits(row.splits), SplitOrder[k], i) ==>
              StationRecord(row, SplitOrder, k).splitTime == MappedSplits(row.splits)[i].time
    ensures (forall i :: 0 <= i < |row.splits| ==> MappedSplits(row.splits)[i].name != SplitOrder[k]) ==>
              StationRecord(row, SplitOrder, k).splitTime == "00:00" && StationRecord(row, SplitOrder, k).seconds == Finite(0)
  {
    SplitOrderDistinct();
    LabelTimesLastWins(MappedSplits(row.splits), SplitOrder[k]);
    GapIsZero();
  }

  /** The inner loop of `process_data`'s split-record loop: one record per
      station, for one team. */
  method AlignTeam(row: TeamRow, stations: seq<string>) returns (block: seq<SplitRecord>)
    ensures |block| == |stations|
    ensures forall k :: 0 <= k < |stations| ==> block[k] == StationRecord(row, stations, k)
  {
    var teamSplits := TeamTimes(row);
    block := [];
    for k := 0 to |stations|
      invariant |block| == k
      invariant forall i :: 0 <= i < k ==> block[i] == StationRecord(row, stations, i)
    {
      var record := StationStep(row, stations, k, teamSplits);
      block := block + [record];
    }
  }

  /** The team's label-to-time dict, built from its renumbered splits. */
  method TeamTimes(row: TeamRow) returns (teamSplits: map<string, string>)
    ensures teamSplits == LabelTimes(MappedSplits(row.splits))
  {
    var mapped := MapSplitLabels(row.splits);
    teamSplits := LabelTimes(mapped);
  }

  /** The body of that inner loop: the record of station `k`. */
  method StationStep(row: TeamRow, stations: seq<string>, k: nat, teamSplits: map<string, string>) returns (record: SplitRecord)
    requires k < |stations| && teamSplits == LabelTimes(MappedSplits(row.splits))
    ensures record == StationRecord(row, stations, k)
  {
    var station := stations[k];
    var time := if station in teamSplits then teamSplits[station] else "00:00";
    record := SplitRecord(row.team, station, time, IndexOf(stations, station), ConvertTimeToSeconds(time));
  }

  /** The split-record loop of `process_data`: sixteen records per team, team
      after team, station after station of `split_order`. */
  method AlignSplits(rows: seq<TeamRow>) returns (records: seq<SplitRecord>)
    ensures |records| == 16 * |rows|
    ensures forall j :: 0 <= j < |records| ==> records[j] == StationRecord(rows[j / 16], SplitOrder, j % 16)
  {
    records := [];
    for t := 0 to |rows|
      invariant |records| == 16 * t
      invariant forall j :: 0 <= j < |records| ==> records[j] == StationRecord(rows[j / 16], SplitOrder, j % 16)
    {
      var block := AlignTeam(rows[t], SplitOrder);
      AppendStationBlock(records, block, rows, t);
      records := records + block;
    }
  }

  lemma AppendStationBlock(records: seq<SplitRecord>, block: seq<SplitRecord>, rows: seq<TeamRow>, t: nat)
    requires t < |rows| && |records| == 16 * t && |block| == |SplitOrder|
    requires forall j :: 0 <= j < |records| ==> records[j] == StationRecord(rows[j / 16], SplitOrder, j % 16)
    requires forall i :: 0 <= i < |SplitOrder| ==> block[i] == StationRecord(rows[t], SplitOrder, i)
    ensures |records + block| == 16 * (t + 1)
    ensures forall j :: 0 <= j < |records + block| ==> (records + block)[j] == StationRecord(rows[j / 16], SplitOrder, j % 16)
  {
    assert |SplitOrder| == 16;
    forall j | 16 * t <= j < 16 * t + 16
      ensures (records + block)[j] == StationRecord(rows[j / 16], SplitOrder, j % 16)
    {
      assert j / 16 == t && j % 16 == j - 16 * t;
    }
  }

  // ====================================================== club scoreboard

  /** A row of `df.explode("NormalizedClubs")`: one normalised club of a team,
      with the team's rank. */
  datatype Membership = Membership(club: string, rank: int)

  predicate AllRanked(rows: seq<TeamRow>) { forall i :: 0 <= i < |rows| ==> rows[i].rank >= 1 }

  predicate PositiveRanks(ms: seq<Membership>) { forall i :: 0 <= i < |ms| ==> ms[i].rank >= 1 }

  function Memberships(row: TeamRow): seq<Membership>
  {
    var clubs := NormalizeClubs(row.clubs);
    seq(|clubs|, i requires 0 <= i < |clubs| => Membership(clubs[i], row.rank))
  }

  /** `df.explode("NormalizedClubs")`: a team with no club contributes no row. */
  function Explode(rows: seq<TeamRow>): (ms: seq<Membership>)
    ensures AllRanked(rows) ==> PositiveRanks(ms)
  {
    if rows == [] then [] else Explode(rows[..|rows| - 1]) + Memberships(rows[|rows| - 1])
  }

  /** `calculate_points`: 1 / Rank. */
  function Points(rank: int): (p: real)
    requires rank >= 1
    ensures 0.0 < p <= 1.0
  {
    1.0 / rank as real
  }

  /** The sum of 1/rank over the memberships attributed to `club`. */
  function PointsOf(ms: seq<Membership>, club: string): real
    requires PositiveRanks(ms)
  {
    if ms == [] then 0.0
    else PointsOf(ms[..|ms| - 1], club) + (if ms[|ms| - 1].club == club then Points(ms[|ms| - 1].rank) else 0.0)
  }

  /** The number of memberships attributed to `club`. */
  function CountOf(ms: seq<Membership>, club: string): nat
  {
    if ms == [] then 0
    else CountOf(ms[..|ms| - 1], club) + (if ms[|ms| - 1].club == club then 1 else 0)
  }

  lemma {:induction false} NoMembershipNoPoints(ms: seq<Membership>, club: string)
    requires PositiveRanks(ms) && CountOf(ms, club) == 0
    ensures PointsOf(ms, club) == 0.0
  {
    if ms != [] {
      NoMembershipNoPoints(ms[..|ms| - 1], club);
    }
  }

  /** A row of the `groupby(...).agg(["sum", "count"])` table. */
  datatype ClubSum = ClubSum(club: string, totalPoints: real, teamCount: nat)

  function SumRows(sums: seq<ClubSum>, club: string): nat
  {
    if sums == [] then 0 else (if sums[0].club == club then 1 else 0) + SumRows(sums[1..], club)
  }

  /** Add one membership to the grouped table. */
  function AddMembership(sums: seq<ClubSum>, m: Membership): seq<ClubSum>
    requires m.rank >= 1
    decreases |sums|
  {
    if sums == [] then [ClubSum(m.club, Points(m.rank), 1)]
    else if sums[0].club == m.club then
      [sums[0].(totalPoints := sums[0].totalPoints + Points(m.rank), teamCount := sums[0].teamCount + 1)] + sums[1..]
    else [sums[0]] + AddMembership(sums[1..], m)
  }

  /** The grouped sums and counts, one membership at a time. */
  function GroupByClub(ms: seq<Membership>): seq<ClubSum>
    requires PositiveRanks(ms)
  {
    if ms == [] then [] else AddMembership(GroupByClub(ms[..|ms| - 1]), ms[|ms| - 1])
  }

  /** `sums` is the grouped table of `ms`: one row per club that has a
      membership, holding that club's point sum and membership count. */
  ghost predicate GroupedFrom(sums: seq<ClubSum>, ms: seq<Membership>)
    requires PositiveRanks(ms)
  {
    && (forall c :: SumRows(sums, c) == if CountOf(ms, c) > 0 then 1 else 0)
    && (forall i :: 0 <= i < |sums| ==>
          sums[i].teamCount == CountOf(ms, sums[i].club) && sums[i].totalPoints == PointsOf(ms, sums[i].club))
  }

  lemma {:induction false} AddMembershipRows(sums: seq<ClubSum>, m: Membership, c: string)
    requires m.rank >= 1
    ensures SumRows(AddMembership(sums, m), c) == SumRows(sums, c) + (if m.club == c && SumRows(sums, m.club) == 0 then 1 else 0)
    decreases |sums|
  {
    if sums != [] && sums[0].club != m.club {
      AddMembershipRows(sums[1..], m, c);
    }
  }

  lemma {:induction false} NoRowsNoClub(sums: seq<ClubSum>, c: string, i: nat)
    requires i < |sums| && SumRows(sums, c) == 0
    ensures sums[i].club != c
  {
    SumRowsPositive(sums, i);
  }

  lemma {:induction false} AddMembershipEntries(sums: seq<ClubSum>, m: Membership, i: nat)
    requires m.rank >= 1 && i < |AddMembership(sums, m)|
    requires forall c :: SumRows(sums, c) <= 1
    ensures var r := AddMembership(sums, m)[i];
      || (i < |sums| && sums[i].club != m.club && r == sums[i])
      || (i < |sums| && sums[i].club == m.club && r == ClubSum(m.club, sums[i].totalPoints + Points(m.rank), sums[i].teamCount + 1))
      || (i == |sums| && SumRows(sums, m.club) == 0 && r == ClubSum(m.club, Points(m.rank), 1))
    decreases |sums|
  {
    if sums != [] && sums[0].club != m.club && i > 0 {
      assert forall c :: SumRows(sums[1..], c) <= SumRows(sums, c);
      AddMembershipEntries(sums[1..], m, i - 1);
    } else if sums != [] && sums[0].club == m.club && i > 0 {
      assert SumRows(sums, m.club) <= 1;
      NoRowsNoClub(sums[1..], m.club, i - 1);
    }
  }

  /** Grouping yields the per-club sum of 1/rank and the membership count. */
  lemma {:induction false} GroupByClubCorrect(ms: seq<Membership>)
    requires PositiveRanks(ms)
    ensures GroupedFrom(GroupByClub(ms), ms)
    decreases |ms|
  {
    if ms != [] {
      var init, m := ms[..|ms| - 1], ms[|ms| - 1];
      var sums := GroupByClub(init);
      GroupByClubCorrect(init);
      var r := AddMembership(sums, m);
      forall c ensures SumRows(r, c) == if CountOf(ms, c) > 0 then 1 else 0 {
        AddMembershipRows(sums, m, c);
      }
      forall i | 0 <= i < |r|
        ensures r[i].teamCount == CountOf(ms, r[i].club) && r[i].totalPoints == PointsOf(ms, r[i].club)
      {
        assert forall c :: SumRows(sums, c) <= 1;
        AddMembershipEntries(sums, m, i);
        if i == |sums| {
          NoMembershipNoPoints(init, m.club);
        }
      }
    }
  }

  /** A scoreboard row: the grouped sums with their `AveragePoints` column. */
  datatype ClubStat = ClubStat(club: string, totalPoints: real, teamCount: nat, averagePoints: real)

  /** `club_stats["AveragePoints"] = TotalPoints / TeamCount`. */
  function WithAverages(sums: seq<ClubSum>): (stats: seq<ClubStat>)
    requires forall i :: 0 <= i < |sums| ==> sums[i].teamCount >= 1
  {
    seq(|sums|, i requires 0 <= i < |sums| =>
      ClubStat(sums[i].club, sums[i].totalPoints, sums[i].teamCount, sums[i].totalPoints / sums[i].teamCount as real))
  }

  function StatRows(stats: seq<ClubStat>, club: string): nat
  {
    if stats == [] then 0 else (if stats[0].club == club then 1 else 0) + StatRows(stats[1..], club)
  }

  lemma {:induction false} WithAveragesRows(sums: seq<ClubSum>, c: string)
    requires forall i :: 0 <= i < |sums| ==> sums[i].teamCount >= 1
    ensures StatRows(WithAverages(sums), c) == SumRows(sums, c)
    decreases |sums|
  {
    if sums != [] {
      WithAveragesRows(sums[1..], c);
      assert WithAverages(sums)[1..] == WithAverages(sums[1..]);
    }
  }

  /** Row `a` may stand before row `b` when sorting descending by
      `TotalPoints`, then by `AveragePoints`. */
  predicate Ahead(a: ClubStat, b: ClubStat)
  {
    a.totalPoints > b.totalPoints || (a.totalPoints == b.totalPoints && a.averagePoints >= b.averagePoints)
  }

  predicate Descending(stats: seq<ClubStat>)
  {
    forall i, j :: 0 <= i < j < |stats| ==> Ahead(stats[i], stats[j])
  }

  function InsertClub(x: ClubStat, stats: seq<ClubStat>): seq<ClubStat>
    decreases |stats|
  {
    if stats == [] || Ahead(x, stats[0]) then [x] + stats else [stats[0]] + InsertClub(x, stats[1..])
  }

  /** `sort_values(by=["TotalPoints", "AveragePoints"], ascending=False)`. */
  function SortClubs(stats: seq<ClubStat>): seq<ClubStat>
    decreases |stats|
  {
    if stats == [] then [] else InsertClub(stats[0], SortClubs(stats[1..]))
  }

  lemma {:induction false} InsertClubPermutes(x: ClubStat, stats: seq<ClubStat>)
    ensures multiset(InsertClub(x, stats)) == multiset(stats) + multiset{x}
    decreases |stats|
  {
    if stats != [] && !Ahead(x, stats[0]) {
      InsertClubPermutes(x, stats[1..]);
      assert stats == [stats[0]] + stats[1..];
    }
  }

  lemma {:induction false} InsertClubRows(x: ClubStat, stats: seq<ClubStat>, c: string)
    ensures StatRows(InsertClub(x, stats), c) == StatRows(stats, c) + (if x.club == c then 1 else 0)
    decreases |stats|
  {
    if stats != [] && !Ahead(x, stats[0]) {
      InsertClubRows(x, stats[1..], c);
    }
  }

  lemma {:induction false} InsertClubDescending(x: ClubStat, stats: seq<ClubStat>)
    requires Descending(stats)
    ensures Descending(InsertClub(x, stats))
    decreases |stats|
  {
    if stats != [] && !Ahead(x, stats[0]) {
      var rest := InsertClub(x, stats[1..]);
      InsertClubDescending(x, stats[1..]);
      InsertClubPermutes(x, stats[1..]);
      forall j | 0 <= j < |rest| ensures Ahead(stats[0], rest[j]) {
        assert rest[j] in multiset(rest);
        assert rest[j] == x || rest[j] in stats[1..];
      }
    }
  }

  /** Sorting yields a descending permutation of the rows. */
  lemma {:induction false} SortClubsCorrect(stats: seq<ClubStat>)
    ensures Descending(SortClubs(stats))
    ensures multiset(SortClubs(stats)) == multiset(stats)
    ensures forall c :: StatRows(SortClubs(stats), c) == StatRows(stats, c)
    decreases |stats|
  {
    if stats != [] {
      var rest := SortClubs(stats[1..]);
      SortClubsCorrect(stats[1..]);
      InsertClubDescending(stats[0], rest);
      InsertClubPermutes(stats[0], rest);
      forall c ensures StatRows(SortClubs(stats), c) == StatRows(stats, c) {
        InsertClubRows(stats[0], rest, c);
      }
      assert stats == [stats[0]] + stats[1..];
    }
  }

  /** The club scoreboard of `process_data`: per normalised club, the sum of
      1/Rank over every (team, club) membership, their number and the
      average, sorted descending by total and then by average. */
  function ScoreClubs(rows: seq<TeamRow>): (board: seq<ClubStat>)
    requires AllRanked(rows)
    ensures Descending(board)
    ensures forall c :: StatRows(board, c) == if CountOf(Explode(rows), c) > 0 then 1 else 0
    ensures forall i :: 0 <= i < |board| ==> ScoredFrom(board[i], Explode(rows))
  {
    var ms := Explode(rows);
    StatsScored(ms);
    var stats := WithAverages(GroupByClub(ms));
    SortClubsCorrect(stats);
    var board := SortClubs(stats);
    assert forall i :: 0 <= i < |board| ==> board[i] in multiset(stats);
    board
  }

  /** A scoreboard row agrees with the memberships: its count is the club's
      number of memberships (at least one), its total their points, and its
      average the total over the count. */
  predicate ScoredFrom(st: ClubStat, ms: seq<Membership>)
    requires PositiveRanks(ms)
  {
    && st.teamCount == CountOf(ms, st.club) >= 1
    && st.totalPoints == PointsOf(ms, st.club)
    && st.averagePoints == st.totalPoints / st.teamCount as real
  }

  /** The unsorted table with averages has one row per club with a membership,
      each row agreeing with the memberships. */
  lemma StatsScored(ms: seq<Membership>)
    requires PositiveRanks(ms)
    ensures forall i :: 0 <= i < |GroupByClub(ms)| ==> GroupByClub(ms)[i].teamCount >= 1
    ensures var stats := WithAverages(GroupByClub(ms));
      && (forall c :: StatRows(stats, c) == if CountOf(ms, c) > 0 then 1 else 0)
      && (forall i :: 0 <= i < |stats| ==> ScoredFrom(stats[i], ms))
  {
    var sums := GroupByClub(ms);
    GroupByClubCorrect(ms);
    forall i | 0 <= i < |sums| ensures sums[i].teamCount >= 1 {
      SumRowsPositive(sums, i);
    }
    forall c ensures StatRows(WithAverages(sums), c) == SumRows(sums, c) {
      WithAveragesRows(sums, c);
    }
  }

  lemma {:induction false} SumRowsPositive(sums: seq<ClubSum>, i: nat)
    requires i < |sums|
    ensures SumRows(sums, sums[i].club) >= 1
    decreases i
  {
    if i > 0 {
      SumRowsPositive(sums[1..], i - 1);
    }
  }
}
