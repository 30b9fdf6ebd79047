/** The scraper's pure parts: its copy of the category fix, its time parser,
    the parsing of a team's raw split text into labelled splits, and the
    grouping of all teams by category with a rank per team. */
module Scraper {
  import opened Text
  import opened Clock
  import opened Records
  import Utils
  import Sorting

  // ---------------------------------------------------------------- category fix

  /** scraper.py's copy of `fix_wrong_category`. */
  method FixWrongCategory(value: TeamEntry) returns (r: TeamEntry)
    modifies value
    ensures r == value
    ensures value.Record() == old(value.Record()).(category := Utils.FixedCategory(old(value.team), old(value.category)))
  {
    if Utils.NamesEvent(value.team) {
      value.category := Replace(value.category, "OPEN", "PRO");
    }
    r := value;
  }

  /** The two copies of the fix agree on every team, and change nothing but
      the category. */
  method FixesAgree(t: Team) returns (a: Team, b: Team)
    ensures a == b
    ensures a == t.(category := Utils.FixedCategory(t.team, t.category))
  {
    var first := new TeamEntry(t);
    var fixedFirst := Utils.FixWrongCategory(first);
    a := fixedFirst.Record();
    var second := new TeamEntry(t);
    var fixedSecond := FixWrongCategory(second);
    b := fixedSecond.Record();
  }

  // ---------------------------------------------------------------- time

  /** scraper.py's `convert_time_to_seconds`: exactly three integer fields
      give h*3600 + m*60 + s; every other input gives 0. */
  function ConvertTimeToSeconds(timeStr: string): int
  {
    match IntFields(Fields(timeStr))
    case Some(v) => if |v| == 3 then HmsValue(v[0], v[1], v[2]) else 0
    case None => 0
  }

  lemma ConvertThreeFields(h: string, m: string, s: string)
    requires IsField(h) && IsField(m) && IsField(s)
    ensures ConvertTimeToSeconds(h + ":" + m + ":" + s)
              == HmsValue(ParseInt(h).value, ParseInt(m).value, ParseInt(s).value)
  {
    FieldsOfThree(h, m, s);
  }

  /** Input that is not three integer fields converts to 0. */
  lemma ConvertRejects(timeStr: string)
    requires |Fields(timeStr)| != 3 || exists i :: 0 <= i < |Fields(timeStr)| && ParseInt(Fields(timeStr)[i]).None?
    ensures ConvertTimeToSeconds(timeStr) == 0
  {
  }

  /** An unreadable time therefore counts as no slower than any time written
      as three unsigned digit fields. */
  lemma UnreadableIsFastest(bad: string, h: string, m: string, s: string)
    requires |Fields(bad)| != 3 || exists i :: 0 <= i < |Fields(bad)| && ParseInt(Fields(bad)[i]).None?
    requires ':' !in h && ':' !in m && ':' !in s
    requires |h| > 0 && |m| > 0 && |s| > 0 && IsAllDigits(h) && IsAllDigits(m) && IsAllDigits(s)
    ensures ConvertTimeToSeconds(bad) <= ConvertTimeToSeconds(h + ":" + m + ":" + s)
  {
    ConvertRejects(bad);
    ConvertThreeFields(h, m, s);
  }

  // ---------------------------------------------------------------- split text

  /** The split a piece holding "(" yields at 1-based position `order`: the
      stripped text before the first "(" is the time; the text after it,
      stripped, with digits and '.' removed and stripped again, is the label. */
  function PieceSplit(item: string, order: nat): (r: ScrapedSplit)
    requires '(' in item
    ensures r.order == order
    ensures forall c :: c in r.name ==> !IsDigit(c) && c != '.'
    ensures Unpadded(r.name) && Unpadded(r.time)
    ensures '(' !in r.time
  {
    var labelTime := Split(item, '(');
    ScrapedSplit(Strip(RemoveDigitsAndDots(Strip(labelTime[1]))), Strip(labelTime[0]), order)
  }

  /** The time of a piece's split is the text before its first "(", stripped. */
  lemma PieceTime(item: string, order: nat, k: nat)
    requires k < |item| && item[k] == '(' && '(' !in item[..k]
    ensures PieceSplit(item, order).time == Strip(item[..k])
  {
    var before := Split(item, '(')[0];
    assert forall j :: 0 <= j < |before| ==> item[j] == before[j];
    assert forall j :: 0 <= j < k ==> item[j] == item[..k][j];
    FirstIndexUnique(item, '(', |before|, k);
    assert before == item[..k];
  }

  /** Two first occurrences of the same character are the same position. */
  lemma FirstIndexUnique(s: string, c: char, a: nat, b: nat)
    requires a < |s| && s[a] == c && forall j :: 0 <= j < a ==> s[j] != c
    requires b < |s| && s[b] == c && forall j :: 0 <= j < b ==> s[j] != c
    ensures a == b
  {
  }

  /** What one piece yields: its split when it holds "(", nothing otherwise. */
  function PieceYield(item: string, order: nat): (y: Option<ScrapedSplit>)
    ensures y.Some? <==> '(' in item
    ensures y.Some? ==> y.value.order == order
  {
    if '(' in item then Some(PieceSplit(item, order)) else None
  }

  /** What each piece of the text cut at ")" yields under `parse`, piece `i`
      at order `i + 1`. */
  function Yields(pieces: seq<string>, parse: (string, nat) -> Option<ScrapedSplit>): seq<Option<ScrapedSplit>>
    decreases |pieces|
  {
    if pieces == [] then []
    else Yields(pieces[..|pieces| - 1], parse) + [parse(pieces[|pieces| - 1], |pieces|)]
  }

  lemma {:induction false} YieldsAt(pieces: seq<string>, parse: (string, nat) -> Option<ScrapedSplit>)
    ensures |Yields(pieces, parse)| == |pieces|
    ensures forall i :: 0 <= i < |pieces| ==> Yields(pieces, parse)[i] == parse(pieces[i], i + 1)
    decreases |pieces|
  {
    if pieces != [] {
      var init := pieces[..|pieces| - 1];
      YieldsAt(init, parse);
      forall i | 0 <= i < |init| ensures init[i] == pieces[i] {
      }
    }
  }

  /** The yielded splits, in piece order. */
  function Collect(ys: seq<Option<ScrapedSplit>>): seq<ScrapedSplit>
    decreases |ys|
  {
    if ys == [] then []
    else
      var last := ys[|ys| - 1];
      Collect(ys[..|ys| - 1]) + (if last.Some? then [last.value] else [])
  }

  /** One more piece adds its parse, if any, at the end. */
  lemma YieldsSnoc(pieces: seq<string>, item: string, parse: (string, nat) -> Option<ScrapedSplit>)
    ensures var y := parse(item, |pieces| + 1);
      Collect(Yields(pieces + [item], parse)) == Collect(Yields(pieces, parse)) + (if y.Some? then [y.value] else [])
  {
    var ys := Yields(pieces, parse);
    var y := parse(item, |pieces| + 1);
    assert (pieces + [item])[..|pieces|] == pieces;
    assert Yields(pieces + [item], parse) == ys + [y];
    assert (ys + [y])[..|ys|] == ys;
  }

  /** The splits of a team's raw split text. */
  function ParsedSplits(pieces: seq<string>): seq<ScrapedSplit>
  {
    Collect(Yields(pieces, PieceYield))
  }

  /** Every parse carries the 1-based position of its piece. */
  predicate Numbered(ys: seq<Option<ScrapedSplit>>)
  {
    forall i :: 0 <= i < |ys| && ys[i].Some? ==> ys[i].value.order == i + 1
  }

  /** `o` is the order of some split in `splits`. */
  predicate Emitted(splits: seq<ScrapedSplit>, o: nat)
  {
    exists k :: 0 <= k < |splits| && splits[k].order == o
  }

  /** At most one split per piece, each what the piece at its order yielded,
      with strictly increasing orders. */
  lemma {:induction false} CollectFromYields(ys: seq<Option<ScrapedSplit>>)
    requires Numbered(ys)
    ensures var splits := Collect(ys);
      && |splits| <= |ys|
      && (forall k :: 0 <= k < |splits| ==> 1 <= splits[k].order <= |ys| && ys[splits[k].order - 1] == Some(splits[k]))
      && (forall k, l :: 0 <= k < l < |splits| ==> splits[k].order < splits[l].order)
    decreases |ys|
  {
    if ys != [] {
      var init := ys[..|ys| - 1];
      CollectFromYields(init);
      var splits := Collect(init);
      forall k | 0 <= k < |splits| ensures ys[splits[k].order - 1] == Some(splits[k]) {
        assert init[splits[k].order - 1] == ys[splits[k].order - 1];
      }
    }
  }

  /** A position yields a split exactly when its order is emitted. */
  lemma {:induction false} CollectEmitted(ys: seq<Option<ScrapedSplit>>, i: nat)
    requires Numbered(ys) && i < |ys|
    ensures ys[i].Some? <==> Emitted(Collect(ys), i + 1)
    decreases |ys|
  {
    var n := |ys| - 1;
    var init := ys[..n];
    var splits := Collect(init);
    var r := Collect(ys);
    CollectFromYields(init);
    if i < n {
      CollectEmitted(init, i);
      assert init[i] == ys[i];
      if Emitted(splits, i + 1) {
        var k :| 0 <= k < |splits| && splits[k].order == i + 1;
        assert r[k] == splits[k];
      }
      if Emitted(r, i + 1) {
        var k :| 0 <= k < |r| && r[k].order == i + 1;
        assert k < |splits|;
        assert splits[k] == r[k];
      }
    } else if ys[n].Some? {
      assert r[|splits|].order == n + 1;
    } else {
      assert r == splits;
      assert !Emitted(r, n + 1);
    }
  }

  /** The collected yields of any numbering `parse`: at most one split per
      piece, the split at order `o` being what piece `o` yields, orders
      strictly increasing, and a split for exactly the pieces that parse one. */
  lemma CollectedYields(pieces: seq<string>, parse: (string, nat) -> Option<ScrapedSplit>)
    requires forall p: string, o: nat :: parse(p, o).Some? ==> parse(p, o).value.order == o
    ensures var splits := Collect(Yields(pieces, parse));
      && |splits| <= |pieces|
      && (forall k :: 0 <= k < |splits| ==>
            1 <= splits[k].order <= |pieces| && parse(pieces[splits[k].order - 1], splits[k].order) == Some(splits[k]))
      && (forall k, l :: 0 <= k < l < |splits| ==> splits[k].order < splits[l].order)
      && (forall i :: 0 <= i < |pieces| ==> (parse(pieces[i], i + 1).Some? <==> Emitted(splits, i + 1)))
  {
    var ys := Yields(pieces, parse);
    YieldsAt(pieces, parse);
    forall i | 0 <= i < |ys| && ys[i].Some? ensures ys[i].value.order == i + 1 {
      assert ys[i] == parse(pieces[i], i + 1);
    }
    CollectFromYields(ys);
    forall i | 0 <= i < |pieces| ensures parse(pieces[i], i + 1).Some? <==> Emitted(Collect(ys), i + 1) {
      CollectEmitted(ys, i);
    }
  }

  /** The split text's parse: at most one split per piece, the split at
      order `o` being what piece `o` yields, orders strictly increasing, and
      a split for exactly the pieces that hold "(". */
  lemma ParsedSplitsCorrect(pieces: seq<string>)
    ensures var splits := ParsedSplits(pieces);
      && |splits| <= |pieces|
      && (forall k :: 0 <= k < |splits| ==>
            1 <= splits[k].order <= |pieces| && PieceYield(pieces[splits[k].order - 1], splits[k].order) == Some(splits[k]))
      && (forall k, l :: 0 <= k < l < |splits| ==> splits[k].order < splits[l].order)
      && (forall i :: 0 <= i < |pieces| ==> ('(' in pieces[i] <==> Emitted(splits, i + 1)))
  {
    forall p: string, o: nat ensures PieceYield(p, o).Some? ==> PieceYield(p, o).value.order == o {
    }
    CollectedYields(pieces, PieceYield);
    var splits := ParsedSplits(pieces);
    forall i | 0 <= i < |pieces| ensures '(' in pieces[i] <==> Emitted(splits, i + 1) {
      assert PieceYield(pieces[i], i + 1).Some? <==> '(' in pieces[i];
    }
  }

  /** The body of that loop for a piece holding "(". */
  method SplitOfPiece(item: string, order: nat) returns (split: ScrapedSplit)
    requires '(' in item
    ensures split == PieceSplit(item, order)
  {
    var labelTime := Split(item, '(');
    var time := Strip(labelTime[0]);
    var name := Strip(labelTime[1]);
    name := Strip(RemoveDigitsAndDots(name));
    split := ScrapedSplit(name, time, order);
  }

  /** The loop over `split_text.split(")")` that appends a split dictionary
      for each piece holding "(". */
  method ParseSplitText(splitText: string) returns (splits: seq<ScrapedSplit>)
    ensures splits == ParsedSplits(Split(splitText, ')'))
  {
    var splitItems := Split(splitText, ')');
    splits := [];
    var i := 0;
    while i < |splitItems|
      invariant 0 <= i <= |splitItems|
      invariant splits == ParsedSplits(splitItems[..i])
    {
      var item := splitItems[i];
      assert splitItems[..i + 1] == splitItems[..i] + [item];
      YieldsSnoc(splitItems[..i], item, PieceYield);
      if '(' in item {
        var split := SplitOfPiece(item, i + 1);
        splits := splits + [split];
      }
      i := i + 1;
    }
    assert splitItems[..i] == splitItems;
  }

  /** A running segment "N. Hlaup" carries its number, which the filter
      removes: every running segment, whatever its N, gets the label "Hlaup". */
  lemma RunningSegmentLabel(time: string, n: nat)
    requires '(' !in time
    ensures PieceSplit(time + " (" + NatToString(n) + ". Hlaup", 1).name == "Hlaup"
  {
    var after := NatToString(n) + ". Hlaup";
    NumberedRunLacksParen(n);
    SplitAtParen(time, after);
    assert time + " (" + NatToString(n) + ". Hlaup" == time + " (" + after;
    NumberedRunLabel(n);
  }

  lemma NumberedRunLacksParen(n: nat)
    ensures '(' !in NatToString(n) + ". Hlaup"
  {
    var digits := NatToString(n);
    assert forall i :: 0 <= i < |digits| ==> IsDigit(digits[i]);
  }

  lemma SplitAtParen(time: string, after: string)
    requires '(' !in time && '(' !in after
    ensures Split(time + " (" + after, '(') == [time + " ", after]
  {
    assert time + " (" + after == (time + " ") + ['('] + after;
    SplitNoSeparator(after, '(');
    SplitAtFirst(time + " ", '(', after);
  }

  /** The label text "N. Hlaup" cleans to "Hlaup". */
  lemma NumberedRunLabel(n: nat)
    ensures Strip(RemoveDigitsAndDots(Strip(NatToString(n) + ". Hlaup"))) == "Hlaup"
  {
    var digits, w := NatToString(n), "Hlaup";
    assert digits + ". Hlaup" == digits + ". " + w;
    NumberedLabel(digits, w);
  }

  predicate NoDigitOrDot(w: string)
  {
    forall i :: 0 <= i < |w| ==> !IsDigit(w[i]) && w[i] != '.'
  }

  /** A label "N. w" for a word `w` without digits, dots or outer whitespace
      cleans to `w`. */
  lemma NumberedLabel(digits: string, w: string)
    requires |digits| > 0 && IsAllDigits(digits)
    requires |w| > 0 && Unpadded(w)
    requires NoDigitOrDot(w)
    ensures Strip(RemoveDigitsAndDots(Strip(digits + ". " + w))) == w
  {
    var x := digits + ". " + w;
    var filtered := [' '] + w;
    NumberFiltered(digits, w);
    NumberedUnpadded(digits, w);
    StripSpaceBefore(' ', w);
    StripUnpadded(w);
    calc {
      Strip(RemoveDigitsAndDots(Strip(x)));
      Strip(RemoveDigitsAndDots(x));
      Strip(filtered);
      w;
    }
  }

  lemma NumberedUnpadded(digits: string, w: string)
    requires |digits| > 0 && IsAllDigits(digits) && |w| > 0 && !IsSpace(w[|w| - 1])
    ensures Strip(digits + ". " + w) == digits + ". " + w
  {
    var after := digits + ". " + w;
    assert after[0] == digits[0] && after[|after| - 1] == w[|w| - 1];
    StripUnpadded(after);
  }

  lemma NumberFiltered(digits: string, w: string)
    requires IsAllDigits(digits) && NoDigitOrDot(w)
    ensures RemoveDigitsAndDots(digits + ". " + w) == [' '] + w
  {
    var rest := [' '] + w;
    assert digits + ". " + w == digits + (['.'] + rest);
    RemoveDigitsAndDotsAppend(digits, ['.'] + rest);
    RemoveDigitsAndDotsDrops(digits);
    assert (['.'] + rest)[1..] == rest;
    RemoveDigitsAndDotsKeeps(rest);
  }

  // ---------------------------------------------------------------- ranking

  /** `sum(time_seconds) / len(time_seconds)` over the two `Time` entries. */
  function AverageTime(t: Team): real
  {
    (ConvertTimeToSeconds(t.secondLastTime) + ConvertTimeToSeconds(t.totalTime)) as real / 2.0
  }

  /** A team dictionary after ranking: `AverageTimeInSeconds` and `Rank` added. */
  datatype RankedTeam = RankedTeam(entry: Team, averageTimeInSeconds: real, rank: nat)

  predicate HasCategory(teams: seq<Team>, c: string)
  {
    exists i :: 0 <= i < |teams| && teams[i].category == c
  }

  /** The keys of the `categories` dict: each category once, in order of its
      first appearance. */
  function Categories(teams: seq<Team>): (cats: seq<string>)
    ensures forall k, l :: 0 <= k < l < |cats| ==> cats[k] != cats[l]
    ensures forall c :: c in cats <==> HasCategory(teams, c)
    decreases |teams|
  {
    if teams == [] then []
    else
      var init := teams[..|teams| - 1];
      var c := teams[|teams| - 1].category;
      var cats := Categories(init);
      assert forall d :: HasCategory(init, d) ==> HasCategory(teams, d) by {
        forall d | HasCategory(init, d) ensures HasCategory(teams, d) {
          var i :| 0 <= i < |init| && init[i].category == d;
          assert teams[i].category == d;
        }
      }
      assert forall d :: HasCategory(teams, d) ==> d == c || HasCategory(init, d) by {
        forall d | HasCategory(teams, d) && d != c ensures HasCategory(init, d) {
          var i :| 0 <= i < |teams| && teams[i].category == d;
          assert init[i].category == d;
        }
      }
      assert HasCategory(teams, c) by {
        assert teams[|teams| - 1].category == c;
      }
      if c in cats then cats else cats + [c]
  }

  /** The list `categories[c]`: the teams of category `c`, in input order. */
  function Members(teams: seq<Team>, c: string): (ms: seq<Team>)
    ensures forall i :: 0 <= i < |ms| ==> ms[i].category == c
    decreases |teams|
  {
    if teams == [] then []
    else
      var t := teams[|teams| - 1];
      Members(teams[..|teams| - 1], c) + (if t.category == c then [t] else [])
  }

  lemma {:induction false} MembersOfAbsent(teams: seq<Team>, c: string)
    requires !HasCategory(teams, c)
    ensures Members(teams, c) == []
    decreases |teams|
  {
    if teams != [] {
      var init := teams[..|teams| - 1];
      forall i | 0 <= i < |init| ensures init[i].category != c {
        assert init[i] == teams[i];
      }
      MembersOfAbsent(init, c);
    }
  }

  /** The teams of one category sorted stably by average time and numbered
      from 1. */
  function RankBlock(members: seq<Team>, key: Team -> real): seq<RankedTeam>
  {
    var sorted := Sorting.SortBy(members, key);
    seq(|sorted|, i requires 0 <= i < |sorted| => RankedTeam(sorted[i], key(sorted[i]), i + 1))
  }

  /** The rank block of each category. */
  function BlockOf(teams: seq<Team>, key: Team -> real): string -> seq<RankedTeam>
  {
    c => RankBlock(Members(teams, c), key)
  }

  /** The flattened list: the blocks of `cats`, in that order. */
  function Assemble(cats: seq<string>, blockOf: string -> seq<RankedTeam>): seq<RankedTeam>
    decreases |cats|
  {
    if cats == [] then []
    else Assemble(cats[..|cats| - 1], blockOf) + blockOf(cats[|cats| - 1])
  }

  /** Assembling one more category appends its block. */
  lemma AssembleSnoc(cats: seq<string>, k: nat, blockOf: string -> seq<RankedTeam>)
    requires k < |cats|
    ensures Assemble(cats[..k + 1], blockOf) == Assemble(cats[..k], blockOf) + blockOf(cats[k])
  {
    assert cats[..k + 1][..k] == cats[..k];
  }

  /** The output of `main`: the rank blocks of the categories in order of
      first appearance. */
  function Ranking(teams: seq<Team>, key: Team -> real): seq<RankedTeam>
  {
    Assemble(Categories(teams), BlockOf(teams, key))
  }

  /** The team dictionaries of a ranked list, without the added keys. */
  function Entries(ranked: seq<RankedTeam>): (ts: seq<Team>)
    ensures |ts| == |ranked| && forall i :: 0 <= i < |ranked| ==> ts[i] == ranked[i].entry
  {
    seq(|ranked|, i requires 0 <= i < |ranked| => ranked[i].entry)
  }

  /** The `categories` dict of `main`: its keys in insertion order, each
      holding the teams of that category in input order. */
  method GroupByCategory(allTeams: seq<Team>) returns (categories: map<string, seq<Team>>, order: seq<string>)
    ensures order == Categories(allTeams)
    ensures forall c :: c in categories <==> c in order
    ensures forall c :: c in categories ==> categories[c] == Members(allTeams, c)
  {
    categories := map[];
    order := [];
    var i := 0;
    while i < |allTeams|
      invariant 0 <= i <= |allTeams|
      invariant Grouped(allTeams[..i], categories, order)
    {
      var team := allTeams[i];
      var category := team.category;
      ghost var before, beforeOrder := categories, order;
      if category !in categories {
        categories := categories[category := []];
        order := order + [category];
      }
      categories := categories[category := categories[category] + [team]];
      GroupStep(allTeams, i, before, beforeOrder, categories, order);
      i := i + 1;
    }
    assert allTeams[..i] == allTeams;
  }

  /** The dict and its key order hold exactly the grouping of `teams`. */
  ghost predicate Grouped(teams: seq<Team>, categories: map<string, seq<Team>>, order: seq<string>)
  {
    && order == Categories(teams)
    && (forall c :: c in categories <==> c in order)
    && (forall c :: c in categories ==> categories[c] == Members(teams, c))
  }

  /** One pass of the grouping loop keeps the grouping exact: the team's
      category is added to the keys if new, and the team is appended to its
      list. */
  lemma GroupStep(teams: seq<Team>, i: nat, categories: map<string, seq<Team>>, order: seq<string>,
                  next: map<string, seq<Team>>, nextOrder: seq<string>)
    requires i < |teams| && Grouped(teams[..i], categories, order)
    requires nextOrder == if teams[i].category in categories then order else order + [teams[i].category]
    requires next.Keys == categories.Keys + {teams[i].category}
    requires next[teams[i].category] == (if teams[i].category in categories then categories[teams[i].category] else []) + [teams[i]]
    requires forall d :: d in categories && d != teams[i].category ==> next[d] == categories[d]
    ensures nextOrder == Categories(teams[..i + 1])
    ensures forall d :: d in next <==> d in nextOrder
    ensures forall d :: d in next ==> next[d] == Members(teams[..i + 1], d)
  {
    var c := teams[i].category;
    CategoriesStep(teams, i);
    GroupKeys(categories, order, c, next, nextOrder);
    if c !in categories {
      MembersOfAbsent(teams[..i], c);
    }
    MembersAfterStep(teams, i, categories, next);
  }

  /** Adding a category to the dict and, if new, to the key order keeps the
      two in step. */
  lemma GroupKeys(categories: map<string, seq<Team>>, order: seq<string>, c: string,
                  next: map<string, seq<Team>>, nextOrder: seq<string>)
    requires forall d :: d in categories <==> d in order
    requires nextOrder == if c in categories then order else order + [c]
    requires next.Keys == categories.Keys + {c}
    ensures forall d :: d in next <==> d in nextOrder
  {
  }

  /** The lists of the dict after one pass are the members of the longer prefix. */
  lemma MembersAfterStep(teams: seq<Team>, i: nat, categories: map<string, seq<Team>>, next: map<string, seq<Team>>)
    requires i < |teams|
    requires forall d :: d in categories ==> categories[d] == Members(teams[..i], d)
    requires teams[i].category !in categories ==> Members(teams[..i], teams[i].category) == []
    requires next.Keys == categories.Keys + {teams[i].category}
    requires next[teams[i].category] == (if teams[i].category in categories then categories[teams[i].category] else []) + [teams[i]]
    requires forall d :: d in categories && d != teams[i].category ==> next[d] == categories[d]
    ensures forall d :: d in next ==> next[d] == Members(teams[..i + 1], d)
  {
    forall d | d in next ensures next[d] == Members(teams[..i + 1], d) {
      MembersStep(teams, i, d);
    }
  }

  lemma CategoriesStep(teams: seq<Team>, i: nat)
    requires i < |teams|
    ensures var cats, c := Categories(teams[..i]), teams[i].category;
      Categories(teams[..i + 1]) == if c in cats then cats else cats + [c]
  {
    assert teams[..i + 1][..i] == teams[..i];
  }

  lemma MembersStep(teams: seq<Team>, i: nat, c: string)
    requires i < |teams|
    ensures Members(teams[..i + 1], c) == Members(teams[..i], c) + (if teams[i].category == c then [teams[i]] else [])
  {
    assert teams[..i + 1][..i] == teams[..i];
  }

  /** The inner loop of `main`: the sorted teams of one category, each with
      its average time and its 1-based rank. */
  method NumberBlock(teams: seq<Team>, key: Team -> real) returns (block: seq<RankedTeam>)
    ensures block == RankBlock(teams, key)
  {
    var sorted := Sorting.SortBy(teams, key);
    block := [];
    var j := 0;
    while j < |sorted|
      invariant 0 <= j <= |sorted|
      invariant block == RankBlock(teams, key)[..j]
    {
      block := block + [RankedTeam(sorted[j], key(sorted[j]), j + 1)];
      j := j + 1;
    }
  }

  /** The ranking of `main`: for each category, in order of first
      appearance, sort its teams by average time, number them from 1 and
      append them to the flattened output. */
  method RankTeams(allTeams: seq<Team>) returns (ranked: seq<RankedTeam>)
    ensures ranked == Ranking(allTeams, AverageTime)
  {
    var categories, order := GroupByCategory(allTeams);
    ghost var blockOf := BlockOf(allTeams, AverageTime);
    ranked := [];
    var k := 0;
    while k < |order|
      invariant 0 <= k <= |order|
      invariant ranked == Assemble(order[..k], blockOf)
    {
      var block := NumberBlock(categories[order[k]], AverageTime);
      AssembleSnoc(order, k, blockOf);
      ranked := ranked + block;
      k := k + 1;
    }
    assert order[..k] == order;
  }

  // ---------------------------------------------------------------- ranking properties

  /** Within one category: ranks are exactly 1..n, average times never
      decrease along the ranks, the block holds exactly the category's teams,
      and teams with equal average keep their input order. */
  lemma RankBlockCorrect(members: seq<Team>, key: Team -> real)
    ensures var block := RankBlock(members, key);
      && |block| == |members|
      && (forall i :: 0 <= i < |block| ==> block[i].rank == i + 1)
      && (forall i :: 0 <= i < |block| ==> block[i].averageTimeInSeconds == key(block[i].entry))
      && (forall i, j :: 0 <= i < j < |block| ==> block[i].averageTimeInSeconds <= block[j].averageTimeInSeconds)
      && multiset(Entries(block)) == multiset(members)
      && (forall m :: Sorting.KeyClass(Entries(block), key, m) == Sorting.KeyClass(members, key, m))
  {
    var sorted := Sorting.SortBy(members, key);
    Sorting.SortByCorrect(members, key);
    Sorting.SortByLength(members, key);
    assert Entries(RankBlock(members, key)) == sorted;
  }

  /** Every category seen in a prefix of the input is already in the output
      order, in the same position: categories appear in order of first
      appearance. */
  lemma {:induction false} CategoriesPrefix(teams: seq<Team>, i: nat)
    requires i <= |teams|
    ensures Categories(teams[..i]) <= Categories(teams)
    decreases |teams|
  {
    if i < |teams| {
      var init := teams[..|teams| - 1];
      assert teams[..i] == init[..i];
      CategoriesPrefix(init, i);
    } else {
      assert teams[..i] == teams;
    }
  }

  /** The teams whose category is in `cats`, in input order. */
  function InCategories(teams: seq<Team>, cats: seq<string>): seq<Team>
    decreases |teams|
  {
    if teams == [] then []
    else
      var t := teams[|teams| - 1];
      InCategories(teams[..|teams| - 1], cats) + (if t.category in cats then [t] else [])
  }

  lemma {:induction false} InCategoriesExtend(teams: seq<Team>, cats: seq<string>, c: string)
    requires c !in cats
    ensures multiset(InCategories(teams, cats + [c])) == multiset(InCategories(teams, cats)) + multiset(Members(teams, c))
    decreases |teams|
  {
    if teams != [] {
      var init, t := teams[..|teams| - 1], teams[|teams| - 1];
      var a, b, m := InCategories(init, cats + [c]), InCategories(init, cats), Members(init, c);
      InCategoriesExtend(init, cats, c);
      assert t.category in cats + [c] <==> t.category in cats || t.category == c;
      if t.category == c {
        assert InCategories(teams, cats + [c]) == a + [t];
        assert InCategories(teams, cats) == b;
        assert Members(teams, c) == m + [t];
      } else if t.category in cats {
        assert InCategories(teams, cats + [c]) == a + [t];
        assert InCategories(teams, cats) == b + [t];
        assert Members(teams, c) == m;
      } else {
        assert InCategories(teams, cats + [c]) == a;
        assert InCategories(teams, cats) == b;
        assert Members(teams, c) == m;
      }
    }
  }

  lemma {:induction false} InCategoriesAll(teams: seq<Team>, cats: seq<string>)
    requires forall i :: 0 <= i < |teams| ==> teams[i].category in cats
    ensures InCategories(teams, cats) == teams
    decreases |teams|
  {
    if teams != [] {
      InCategoriesAll(teams[..|teams| - 1], cats);
    }
  }

  /** Assembling blocks that each permute their category's teams permutes
      the teams of those categories. */
  lemma {:induction false} AssemblePermutes(teams: seq<Team>, cats: seq<string>, blockOf: string -> seq<RankedTeam>)
    requires forall k, l :: 0 <= k < l < |cats| ==> cats[k] != cats[l]
    requires forall d :: multiset(Entries(blockOf(d))) == multiset(Members(teams, d))
    ensures multiset(Entries(Assemble(cats, blockOf))) == multiset(InCategories(teams, cats))
    decreases |cats|
  {
    if cats == [] {
      InCategoriesNone(teams);
    } else {
      var init, c := cats[..|cats| - 1], cats[|cats| - 1];
      AssemblePermutes(teams, init, blockOf);
      InCategoriesExtend(teams, init, c);
      assert cats == init + [c];
      EntriesAppend(Assemble(init, blockOf), blockOf(c));
    }
  }

  lemma BlockPermutes(members: seq<Team>, key: Team -> real)
    ensures multiset(Entries(RankBlock(members, key))) == multiset(members)
  {
    RankBlockCorrect(members, key);
  }

  lemma EntriesAppend(a: seq<RankedTeam>, b: seq<RankedTeam>)
    ensures Entries(a + b) == Entries(a) + Entries(b)
  {
  }

  lemma {:induction false} InCategoriesNone(teams: seq<Team>)
    ensures InCategories(teams, []) == []
    decreases |teams|
  {
    if teams != [] {
      InCategoriesNone(teams[..|teams| - 1]);
    }
  }

  /** The output holds every input team exactly once. */
  lemma RankTeamsPermutes(teams: seq<Team>, key: Team -> real)
    ensures multiset(Entries(Ranking(teams, key))) == multiset(teams)
  {
    var cats := Categories(teams);
    var blockOf := BlockOf(teams, key);
    forall d ensures multiset(Entries(blockOf(d))) == multiset(Members(teams, d)) {
      BlockPermutes(Members(teams, d), key);
    }
    AssemblePermutes(teams, cats, blockOf);
    forall i | 0 <= i < |teams| ensures teams[i].category in cats {
      assert HasCategory(teams, teams[i].category);
    }
    InCategoriesAll(teams, cats);
  }

  /** The ranked teams of category `c`, in output order. */
  function OfCategory(ranked: seq<RankedTeam>, c: string): seq<RankedTeam>
    decreases |ranked|
  {
    if ranked == [] then []
    else
      var r := ranked[|ranked| - 1];
      OfCategory(ranked[..|ranked| - 1], c) + (if r.entry.category == c then [r] else [])
  }

  lemma {:induction false} OfCategoryAppend(a: seq<RankedTeam>, b: seq<RankedTeam>, c: string)
    ensures OfCategory(a + b, c) == OfCategory(a, c) + OfCategory(b, c)
    decreases |b|
  {
    if b == [] {
      assert a + b == a;
    } else {
      assert (a + b)[..|a + b| - 1] == a + b[..|b| - 1];
      OfCategoryAppend(a, b[..|b| - 1], c);
    }
  }

  /** Filtering a block whose entries all share one category keeps all of it
      or none of it. */
  predicate AllOfCategory(block: seq<RankedTeam>, d: string)
  {
    forall i :: 0 <= i < |block| ==> block[i].entry.category == d
  }

  lemma {:induction false} OfCategoryUniform(block: seq<RankedTeam>, d: string, c: string)
    requires AllOfCategory(block, d)
    ensures OfCategory(block, c) == if c == d then block else []
    decreases |block|
  {
    if block != [] {
      OfCategoryUniform(block[..|block| - 1], d, c);
    }
  }

  lemma BlockCategory(teams: seq<Team>, d: string, key: Team -> real)
    ensures AllOfCategory(RankBlock(Members(teams, d), key), d)
  {
    var members := Members(teams, d);
    var block := RankBlock(members, key);
    RankBlockCorrect(members, key);
    forall i | 0 <= i < |block| ensures block[i].entry.category == d {
      assert Entries(block)[i] == block[i].entry;
      assert block[i].entry in multiset(members);
    }
  }

  /** Filtering assembled blocks, each of one category, to category `c`
      gives the block of `c`, or nothing when `c` is not assembled. */
  lemma {:induction false} AssembleOfCategory(cats: seq<string>, blockOf: string -> seq<RankedTeam>, c: string)
    requires forall k, l :: 0 <= k < l < |cats| ==> cats[k] != cats[l]
    requires forall k :: 0 <= k < |cats| ==> AllOfCategory(blockOf(cats[k]), cats[k])
    ensures OfCategory(Assemble(cats, blockOf), c) == if c in cats then blockOf(c) else []
    decreases |cats|
  {
    if cats != [] {
      var init, d := cats[..|cats| - 1], cats[|cats| - 1];
      var front, block := Assemble(init, blockOf), blockOf(d);
      assert Assemble(cats, blockOf) == front + block;
      OfCategoryUniform(block, d, c);
      DistinctSnoc(cats);
      forall k | 0 <= k < |init| ensures AllOfCategory(blockOf(init[k]), init[k]) {
        assert init[k] == cats[k];
      }
      AssembleOfCategory(init, blockOf, c);
      OfCategoryAppend(front, block, c);
    }
  }

  /** Splitting off the last of distinct names: the rest are distinct, do not
      hold it, and together with it hold exactly the names. */
  lemma DistinctSnoc(cats: seq<string>)
    requires cats != [] && forall k, l :: 0 <= k < l < |cats| ==> cats[k] != cats[l]
    ensures var init, d := cats[..|cats| - 1], cats[|cats| - 1];
      && (forall k, l :: 0 <= k < l < |init| ==> init[k] != init[l])
      && d !in init
      && (forall x :: x in cats <==> x in init || x == d)
  {
    var init, d := cats[..|cats| - 1], cats[|cats| - 1];
    assert cats == init + [d];
    forall k | 0 <= k < |init| ensures init[k] != d {
      assert init[k] == cats[k];
    }
  }

  /** The output restricted to one category is that category's rank block:
      its teams in input order, stably sorted by average time and ranked
      1..n (see `RankBlockCorrect`); a category with no team has no rows. */
  lemma RankTeamsByCategory(teams: seq<Team>, c: string, key: Team -> real)
    ensures OfCategory(Ranking(teams, key), c)
              == if HasCategory(teams, c) then RankBlock(Members(teams, c), key) else []
  {
    var blockOf := BlockOf(teams, key);
    forall d ensures AllOfCategory(blockOf(d), d) {
      BlockCategory(teams, d, key);
    }
    AssembleOfCategory(Categories(teams), blockOf, c);
  }
}
