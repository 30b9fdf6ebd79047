# Hyrox team-race results pipeline in Dafny

This project models the pure and loop-based core of a small results pipeline
for a team fitness race (Hyrox, June 2024). A scraper turns each team's
result row into a team record. It parses the raw split text
`"time (N. label)…"` into labelled splits, fixes a known category error and
ranks the teams within each category. A processor normalises club names,
renumbers the running segments and aligns each team's splits onto the fixed
sixteen-station order. It also scores clubs by reciprocal rank and formats
seconds as `HH:MM:SS`. Two viewers read times their own way: one builds
position-numbered split rows and drops unreadable split times, the other
converts a split table for a line chart.

The repository carries several diverging copies of the same routines. Each
copy is modelled as written, in its own module, so the disagreements can be
stated and proved (module `TimeVariants`).

| file | module | models |
|---|---|---|
| `text.dfy` | `Text` | the Python string built-ins the code relies on: `split`, `strip`, `lower`, `replace`, `in`, `int()`, zero-padded formatting, `re.sub(r"[0-9.]", "", …)` |
| `clock.dfy` | `Clock` | seconds or the `float("inf")` sentinel (`Seconds = Finite(int) \| Inf`), Python's `min` on them, field splitting and `map(int, …)` |
| `sorting.dfy` | `Sorting` | Python's stable `list.sort(key=…)` / `sorted(…, key=…)` on a numeric key |
| `records.dfy` | `Records` | the scraped team dictionary, as a value (`Team`) and as a mutable object (`TeamEntry`) |
| `utils.dfy` | `Utils` | `fix_wrong_category` in `utils.py` |
| `processor.dfy` | `Processor` | `processor.py` |
| `scraper.dfy` | `Scraper` | `scraper.py`: its copy of the category fix, its time parser, the split-text loop and the grouping and ranking in `main` |
| `app.dfy` | `App` | `app.py`: both time readers, the total-time rule, the split rows, the `dropna` filter and the axis order of split labels |
| `streamlit_app.dfy` | `StreamlitApp` | `streamlit_app.py`: `time_to_seconds`, the per-team data lists and the column names |
| `time_variants.dfy` | `TimeVariants` | the five time readers side by side |

Form follows the source. Lookups, parsers and formatters are functions.
Loops that append to a list are methods with loop invariants, each proved
equal to a specification function (`MapSplitLabels`, `AlignTeam`,
`AlignSplits`, `ParseSplitText`, `GroupByCategory`, `NumberBlock`,
`RankTeams`, `ExtractSplitRows`, `ChartData`). The properties are then
proved about those functions as lemmas. `fix_wrong_category` overwrites a
key of the caller's dictionary, so it is a method on the class `TeamEntry`
with a `modifies` clause.

## Model

| member | source | states |
|---|---|---|
| Processor.NormalizeClubName | processor.py:11-30 | a spelling listed in the table maps to its canonical name; any other string is returned unchanged |
| Processor.NormalizeIdempotent | processor.py:12-30 | normalising twice is normalising once: no canonical name is itself a key that maps elsewhere |
| Processor.NormalizeExamples | processor.py:14-30 | "CFRVK" becomes "CFR", "Mjönir:" becomes "Mjönir", an unlisted club passes through |
| Processor.NormalizeClubs | processor.py:85-87 | the `NormalizedClubs` list has one entry per listed club, the i-th being the normalised i-th club |
| Processor.ConvertTimeToSeconds | processor.py:47-60 | the result is finite exactly when there are two or three fields and all are integers; otherwise `inf`, never an error |
| Processor.ConvertThreeFields | processor.py:50-52 | three integer fields give h*3600 + m*60 + s |
| Processor.ConvertTwoFields | processor.py:53-55 | two integer fields give m*60 + s |
| Processor.GapIsZero | processor.py:100 | the gap filler "00:00" converts to zero seconds |
| Processor.FormatHmsShape | processor.py:137-139 | the formatter yields three digit fields of at least two digits; minutes and seconds are exactly two digits and below 60 |
| Processor.FormatThenParse | processor.py:139 | parsing the formatter's output gives back the original number of seconds |
| Processor.ParseThenFormat | processor.py:137-139 | a canonical `HH:MM:SS` text (hours zero-padded, minutes and seconds two digits below 60) parses to a number of seconds that the formatter turns back into the same text |
| Processor.MapSplitLabels | processor.py:33-44 | the loop equals its specification `MappedSplits`: same length, every time kept in place, labels without "Hlaup" unchanged, the running segment at i renamed "Hlaup k" with k the running segments up to and including i |
| Processor.RunningNumbering | processor.py:34-41 | running labels are numbered 1..m in input order, strictly increasing, and every number 1..m is used |
| Processor.RunningNumberUsed | processor.py:39-41 | each number k in 1..m is given to some running segment |
| Processor.RunningCountPrefix | processor.py:40 | the running counter never decreases along the input |
| Processor.IndexOf | processor.py:101 | `split_order.index(label)` is the first position holding the label |
| Processor.SplitOrderDistinct | processor.py:63-80 | `split_order` has sixteen distinct stations, so a station's index is its position |
| Processor.LabelTimesLastWins | processor.py:91-93 | the label-to-time dict has a key exactly for each mapped label, and a repeated label keeps the time of its last occurrence |
| Processor.StationRecordFacts | processor.py:95-108 | station k's record carries the team, the k-th station, order k and its converted time; the time is the last mapped time for that station, or "00:00" (zero seconds) when the team has none |
| Processor.AlignTeam | processor.py:95-103 | one record per station, the k-th record being the station record for k |
| Processor.AlignSplits | processor.py:89-103 | exactly sixteen records per team, team after team; record j is station j mod 16 of team j div 16 |
| Processor.Explode | processor.py:110 | exploding teams with ranks of at least 1 gives memberships with ranks of at least 1 |
| Processor.Points | processor.py:112-115 | `1/Rank` lies in (0, 1] for a rank of at least 1 |
| Processor.NoMembershipNoPoints | processor.py:117-122 | a club with no membership has no points |
| Processor.GroupByClubCorrect | processor.py:117-122 | the grouped table has one row per club with a membership; its `TotalPoints` is the sum of 1/Rank and its `TeamCount` the number of that club's memberships |
| Processor.WithAveragesRows | processor.py:124 | adding the average column keeps one row per club |
| Processor.StatsScored | processor.py:117-124 | every row of the table with averages agrees with the memberships: count at least 1, total, total divided by count |
| Processor.SortClubsCorrect | processor.py:125-127 | the sort gives a permutation, descending by `TotalPoints` and then by `AveragePoints`, still one row per club |
| Processor.ScoreClubs | processor.py:110-127 | the scoreboard is sorted descending, holds one row per club with a membership, and each row's total, count and average agree with the memberships |
| Utils.FixedCategory | utils.py:4-9 | the category changes only for a team naming the event (case-insensitively), and only if it contains "OPEN"; then "PRO" appears in it |
| Utils.FixWrongCategory | utils.py:4-9 | the caller's object is returned; its category becomes `FixedCategory` of the old team and category; every other key is unchanged |
| Utils.FixIgnoresCase | utils.py:5 | a team name and its lower-cased form get the same category |
| Utils.FixWhenNamed | utils.py:5-7 | for a team naming the event, the category is `replace("OPEN", "PRO")` of the old one |
| Utils.FixExample | utils.py:7 | "OPEN Women" becomes "PRO Women" |
| Utils.EventNameMatches | utils.py:5 | the event's own name matches, so the fix is reachable |
| Utils.FixNotIdempotent | utils.py:7 | "OOPENPEN" becomes "OPROPEN", and a second fix turns that into "OPRPRO" |
| Scraper.FixWrongCategory | scraper.py:9-14 | the same in-place update as `utils.py`'s copy |
| Scraper.FixesAgree | scraper.py:9-14 | the two copies of the fix give the same record, changed in the category alone |
| Scraper.ConvertThreeFields | scraper.py:17-20 | three integer fields give h*3600 + m*60 + s |
| Scraper.ConvertRejects | scraper.py:21-22 | any input that is not three integer fields gives 0, never an error |
| Scraper.UnreadableIsFastest | scraper.py:21-22 | an unreadable time is no slower than any readable time of three unsigned fields |
| Scraper.PieceSplit | scraper.py:70-75 | a piece's split has its 1-based order; its label has no digit, no '.' and no outer whitespace; its time has no outer whitespace and no "(" (its value is stated by `Scraper.PieceTime`) |
| Scraper.PieceTime | scraper.py:71-72 | the time of a piece's split is exactly the text before its first "(", stripped |
| Scraper.PieceYield | scraper.py:70 | a piece yields a split exactly when it holds "(", at its own order |
| Scraper.YieldsAt | scraper.py:69 | the i-th piece is processed with order i + 1 |
| Scraper.CollectedYields | scraper.py:69-75 | what the loop appends: at most one split per piece, orders strictly increasing, each split what its piece yields, and a split for exactly the pieces that yield one |
| Scraper.ParsedSplitsCorrect | scraper.py:66-75 | the same facts for this parser: a split for exactly the pieces holding "(", with orders strictly increasing and no more splits than pieces |
| Scraper.ParseSplitText | scraper.py:64-75 | the loop over the pieces of `split(")")` equals `ParsedSplits`; for each piece holding "(" its body builds exactly `PieceSplit` of that piece |
| Scraper.RunningSegmentLabel | scraper.py:73-74 | a running segment "N. Hlaup" gets the label "Hlaup", whatever N is |
| Scraper.NumberedLabel | scraper.py:73-74 | a label "N. w", for a word w without digits, dots or outer whitespace, cleans to w |
| Scraper.Categories | scraper.py:133-137 | the dict's keys: each category once, exactly the categories of the teams |
| Scraper.CategoriesPrefix | scraper.py:136-137 | categories are listed in order of first appearance |
| Scraper.Members | scraper.py:138 | each category's list holds only teams of that category |
| Scraper.GroupByCategory | scraper.py:132-138 | the loop builds a dict whose keys are `Categories` in insertion order, each holding its category's teams in input order |
| Scraper.NumberBlock | scraper.py:141-149 | one category's teams sorted by average time and numbered from 1, as `RankBlock` |
| Scraper.RankTeams | scraper.py:132-152 | the loops of `main` produce `Ranking`: the rank blocks of the categories in order of first appearance |
| Scraper.RankBlockCorrect | scraper.py:141-149 | within a category: ranks are exactly 1..n, average times never decrease, the block is a permutation of the category's teams, and teams with equal averages keep their input order |
| Scraper.RankTeamsPermutes | scraper.py:152 | the output holds every input team exactly once |
| Scraper.RankTeamsByCategory | scraper.py:133-152 | the output restricted to a category is that category's rank block, or empty for a category no team has |
| Sorting.SortByCorrect | scraper.py:147 | the stable sort gives a permutation in non-decreasing key order that keeps the input order of equal keys |
| App.ConvertTimeToSeconds | app.py:30-35 | finite exactly for three integer fields, `inf` for anything else |
| App.ConvertThreeFields | app.py:32-33 | three integer fields give h*3600 + m*60 + s |
| App.ConvertRejectsTwoFields | app.py:32-35 | "m:s" is not accepted: it gives `inf` |
| App.TotalTime | app.py:38-43 | the total is no later than the conversion of each non-empty entry and is the conversion of one of them; two empty entries give `inf` |
| App.UnreadableNeverWins | app.py:39-42 | an unreadable non-empty entry never beats a readable one |
| App.TotalTimeOfBoth | app.py:39-41 | ["01:05:30", "01:05:45"] gives 3930 |
| App.TotalTimeOfSecond | app.py:42 | ["", "01:10:00"] gives 4200 |
| App.ConvertSplitTimeToSeconds | app.py:47-60 | `None` exactly when a field is not an integer; `inf` exactly when all fields are integers but there are not two or three |
| App.SplitThreeFields | app.py:50-52 | three integer fields give h*3600 + m*60 + s |
| App.SplitTwoFields | app.py:53-55 | two integer fields give m*60 + s |
| App.SplitSentinels | app.py:56-60 | "5" gives `inf` and "" gives `None` |
| App.SplitLabelPosition | app.py:17 | a label built as "{i}. {name}" reads back position i from its prefix |
| App.TeamSplitRowsCorrect | app.py:16-24 | a team yields one row per raw split, in order, with the team's name, the split's time and the label "{i+1}. {name}" |
| App.ExtractSplitRows | app.py:14-24 | the nested loop equals `SplitRows`, the teams' rows team after team |
| App.SplitRowsAppend | app.py:15 | the rows of consecutive groups of teams follow each other |
| App.TeamRowPositions | app.py:16-17 | the row of the i-th split reads back position i + 1 |
| App.SplitRowsLabelled | app.py:17 | every label of the split rows has an integer prefix, so ordering them never raises |
| App.TimedRows | app.py:63-65 | the `SplitTimeInSeconds` column is the split reader applied to each row's time |
| App.DropUnparsed | app.py:67-68 | the filter keeps exactly the rows whose time was read; `inf` rows survive |
| App.DropUnparsedNothing | app.py:67-68 | when every time was read, nothing is dropped |
| App.DropUnparsedAppend | app.py:67-68 | the filter works row by row, keeping the order |
| App.Unique | app.py:99 | `unique()` lists each label once, exactly the labels present |
| App.UniquePrefix | app.py:99 | `unique()` keeps the order of first appearance: the unique labels of any prefix of the input are a prefix of the unique labels |
| App.PositionKeyOf | app.py:100 | a label's sort key is its integer prefix |
| App.OrderSplitLabels | app.py:96-103 | the axis order is a permutation of the unique labels, non-decreasing by position, keeping first-appearance order among equal positions |
| StreamlitApp.TimeToSeconds | streamlit_app.py:14-18 | a non-text cell is returned unchanged; a text cell raises exactly when it is not three integer fields; a result is never text |
| StreamlitApp.ThreeFields | streamlit_app.py:15-17 | three integer fields give h*3600 + m*60 + s |
| StreamlitApp.TwoFieldsRaise | streamlit_app.py:16 | "m:s" raises: there is no sentinel |
| StreamlitApp.ConvertRow | streamlit_app.py:20 | a row converts cell by cell, and raises exactly when one of its cells does |
| StreamlitApp.ConvertTable | streamlit_app.py:20 | the table converts row by row, and raises exactly when one of its rows does |
| StreamlitApp.DropMissing | streamlit_app.py:27 | `dropna()` keeps exactly the present cells |
| StreamlitApp.DropMissingNothing | streamlit_app.py:27 | a row without missing cells is kept whole |
| StreamlitApp.DropMissingAppend | streamlit_app.py:27 | dropping works cell by cell, keeping the order |
| StreamlitApp.ChartData | streamlit_app.py:23-29 | entry i is team i with its converted row, missing cells dropped |
| StreamlitApp.ConvertedValuesNumeric | streamlit_app.py:20-27 | after a conversion that did not raise, every value in a team's data list is a number |
| StreamlitApp.ColumnNames | streamlit_app.py:36 | column i is named "Split " followed by the number i + 1 |
| StreamlitApp.ColumnNamesDistinct | streamlit_app.py:36 | no two columns share a name |
| TimeVariants.AgreeOnThreeFields | processor.py:50-52 | the five readers agree on three integer fields: h*3600 + m*60 + s |
| TimeVariants.DisagreeOnTwoFields | scraper.py:19-22 | on "m:s" the readers disagree: processor and split reader m*60 + s, scraper 0, total-time reader `inf`, chart page raises |
| TimeVariants.DisagreeOnEmpty | app.py:58-60 | on "" the readers disagree: `inf`, 0, `inf`, `None`, raise |

## Left out

- HTTP and HTML scraping: `requests.get`, BeautifulSoup, the category-URL discovery and the member extraction from `<br>` siblings are I/O on a web page. The model starts from the extracted cell texts.
- File and JSON/CSV I/O, the JSON dump of the scraper and every `print` are left out. The error messages printed by the readers carry no result.
- Presentation: all Streamlit, Plotly and Altair calls, the category `selectbox` and the per-category filtering in `app.py` (lines 70-93) are left out. So is `about.py`, which is static text.
- Floating point: `float("inf")` is the constructor `Inf`. Points, averages and the scraper's mean time are `real`, so rounding is not modelled.
- pandas semantics: NaN ranks from `to_numeric(errors="coerce")`, `explode` of an empty list (which yields a NaN club row) and NaN handling in `groupby`/`count` are left out. A team with no club contributes no membership.
- App.TimedRows: on empty input the source raises where the model yields empty sequences. An empty team list makes `df["Time"]` raise KeyError (app.py:39), and empty `split_records` give a column-less DataFrame whose `splits_df["SplitTime"]` raises KeyError (app.py:63), before the "No data available" branch is reached; `pd.json_normalize([])` likewise makes `df["Rank"]` raise KeyError at processor.py:84. `App.ExtractSplitRows`, `App.TimedRows`, `Processor.AlignSplits` and `Processor.ScoreClubs` return empty sequences instead.
- Processor.ScoreClubs: requires every rank to be at least 1. A zero rank makes `1 / rank` raise ZeroDivisionError and a NaN rank gives NaN points; the model represents neither.
- Processor.SortClubsCorrect: does not claim an order among clubs equal on both `TotalPoints` and `AveragePoints`, because the pandas sort algorithm leaves that order unspecified.
- The `Club` field is a single string in the scraper's output but iterated as a list in `process_data`. The model takes the intended list of clubs and does not model per-character iteration.
- `calculate_overall_performance` (processor.py:132-136): its `groupby(...).mean()` over list-valued `Time` cells is not modelled. Only its `HH:MM:SS` formatter is, on natural numbers of seconds.
- `int()` is modelled on an optional sign followed by ASCII digits. Python also accepts surrounding whitespace, underscores and non-ASCII digits.
- `str.lower()` is modelled on Latin-1 capitals only, and `str.strip()` on Latin-1 whitespace. Full Unicode case mapping and whitespace are not modelled.
- `split_counter` (scraper.py:67) is never used and is not modelled.
- In-place updates: the ranking writes `Rank` and `AverageTimeInSeconds` into the shared team dicts and sorts the category lists in place. The model returns new `RankedTeam` values and sorted sequences instead, so it does not capture aliasing between the `categories` dict and `all_teams`. Likewise, DataFrame column assignments (`df["…"] = …`) are modelled as functions producing the new column.
- The `SplitTimeInSeconds` column of `process_data` is computed per record (`StationRecord.seconds`) rather than by a separate `apply` pass. The values are the same.
