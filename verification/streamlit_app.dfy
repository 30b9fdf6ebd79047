/** The line-chart page: the CSV's split columns converted to seconds, one
    data list per team with missing cells dropped, and the chart's column
    names. */
module StreamlitApp {
  import opened Text
  import opened Clock

  /** A cell of the split columns as the CSV reader hands it on: text, an
      already numeric value (a float64 column may hold non-integers), or a
      missing entry (NaN). */
  datatype Cell = Str(text: string) | Number(value: real) | Missing

  /** A conversion either yields a cell or raises. */
  datatype Converted<T> = Value(value: T) | Raises

  /** `time_to_seconds`: a text cell must be exactly three integer fields
      and becomes h*3600 + m*60 + s; anything that is not text is returned
      as it is. */
  function TimeToSeconds(cell: Cell): (r: Converted<Cell>)
    ensures !cell.Str? ==> r == Value(cell)
    ensures cell.Str? ==> (r.Raises? <==> |Fields(cell.text)| != 3 || IntFields(Fields(cell.text)).None?)
    ensures r.Value? ==> !r.value.Str?
  {
    match cell
    case Str(s) =>
      (match IntFields(Fields(s))
       case Some(v) => if |v| == 3 then Value(Number(HmsValue(v[0], v[1], v[2]) as real)) else Raises
       case None => Raises)
    case _ => Value(cell)
  }

  lemma ThreeFields(h: string, m: string, s: string)
    requires IsField(h) && IsField(m) && IsField(s)
    ensures TimeToSeconds(Str(h + ":" + m + ":" + s))
              == Value(Number(HmsValue(ParseInt(h).value, ParseInt(m).value, ParseInt(s).value) as real))
  {
    FieldsOfThree(h, m, s);
  }

  /** "m:s" has no sentinel here: two fields raise. */
  lemma TwoFieldsRaise(m: string, s: string)
    requires IsField(m) && IsField(s)
    ensures TimeToSeconds(Str(m + ":" + s)) == Raises
  {
    FieldsOfTwo(m, s);
  }

  /** `applymap(time_to_seconds)` on one row: every cell converted, or the
      whole conversion raises when one cell does. */
  function ConvertRow(row: seq<Cell>): (r: Converted<seq<Cell>>)
    ensures r.Raises? <==> exists j :: 0 <= j < |row| && TimeToSeconds(row[j]).Raises?
    ensures r.Value? ==> |r.value| == |row| && forall j :: 0 <= j < |row| ==> TimeToSeconds(row[j]) == Value(r.value[j])
    decreases |row|
  {
    if row == [] then Value([])
    else
      match TimeToSeconds(row[0])
      case Raises => Raises
      case Value(c) =>
        match ConvertRow(row[1..])
        case Raises => Raises
        case Value(cs) => Value([c] + cs)
  }

  /** `applymap(time_to_seconds)` on the table of split columns. */
  function ConvertTable(table: seq<seq<Cell>>): (r: Converted<seq<seq<Cell>>>)
    ensures r.Raises? <==> exists i :: 0 <= i < |table| && ConvertRow(table[i]).Raises?
    ensures r.Value? ==> |r.value| == |table| && forall i :: 0 <= i < |table| ==> ConvertRow(table[i]) == Value(r.value[i])
    decreases |table|
  {
    if table == [] then Value([])
    else
      match ConvertRow(table[0])
      case Raises => Raises
      case Value(row) =>
        match ConvertTable(table[1..])
        case Raises => Raises
        case Value(rows) => Value([row] + rows)
  }

  /** `dropna()` on a row: the present cells, in order. */
  function DropMissing(row: seq<Cell>): (kept: seq<Cell>)
    ensures |kept| <= |row|
    ensures forall c :: c in kept <==> c in row && !c.Missing?
    decreases |row|
  {
    if row == [] then []
    else (if row[0].Missing? then [] else [row[0]]) + DropMissing(row[1..])
  }

  /** A row with no missing cell is kept whole. */
  lemma {:induction false} DropMissingNothing(row: seq<Cell>)
    requires forall j :: 0 <= j < |row| ==> !row[j].Missing?
    ensures DropMissing(row) == row
    decreases |row|
  {
    if row != [] {
      DropMissingNothing(row[1..]);
    }
  }

  /** Dropping is done cell by cell, so the present cells keep their order. */
  lemma {:induction false} DropMissingAppend(a: seq<Cell>, b: seq<Cell>)
    ensures DropMissing(a + b) == DropMissing(a) + DropMissing(b)
    decreases |a|
  {
    if a == [] {
      assert a + b == b;
    } else {
      assert (a + b)[1..] == a[1..] + b;
      DropMissingAppend(a[1..], b);
    }
  }

  /** One entry of `data`: the team's name and its present split values. */
  datatype TeamData = TeamData(name: string, values: seq<Cell>)

  /** The loop building `data`: entry `i` is team `i` with row `i` of the
      converted table, missing cells dropped. */
  method ChartData(teams: seq<string>, table: seq<seq<Cell>>) returns (data: seq<TeamData>)
    requires |table| == |teams|
    ensures |data| == |teams|
    ensures forall i :: 0 <= i < |teams| ==> data[i] == TeamData(teams[i], DropMissing(table[i]))
  {
    data := [];
    var i := 0;
    while i < |teams|
      invariant 0 <= i <= |teams|
      invariant |data| == i
      invariant forall k :: 0 <= k < i ==> data[k] == TeamData(teams[k], DropMissing(table[k]))
    {
      data := data + [TeamData(teams[i], DropMissing(table[i]))];
      i := i + 1;
    }
  }

  /** After conversion every present value is a number of seconds (or a
      number the CSV already held): no text reaches the chart. */
  lemma ConvertedValuesNumeric(raw: seq<seq<Cell>>, table: seq<seq<Cell>>)
    requires ConvertTable(raw) == Value(table)
    ensures |table| == |raw|
    ensures forall i, c :: 0 <= i < |table| && c in DropMissing(table[i]) ==> c.Number?
  {
    forall i, c | 0 <= i < |table| && c in DropMissing(table[i]) ensures c.Number? {
      var row := table[i];
      assert ConvertRow(raw[i]) == Value(row);
      var j :| 0 <= j < |row| && row[j] == c;
      assert TimeToSeconds(raw[i][j]) == Value(c);
    }
  }

  /** `f"Split {i+1}"` */
  function ColumnName(i: nat): string
  {
    "Split " + NatToString(i + 1)
  }

  /** The chart's column names for `n` split columns. */
  function ColumnNames(n: nat): (names: seq<string>)
    ensures |names| == n
    ensures forall i :: 0 <= i < n ==> |names[i]| > 6 && names[i][..6] == "Split " && ParseInt(names[i][6..]) == Some(i + 1)
  {
    var names := seq(n, i requires 0 <= i < n => ColumnName(i));
    assert forall i :: 0 <= i < n ==> names[i][6..] == NatToString(i + 1);
    names
  }

  /** No two columns share a name. */
  lemma ColumnNamesDistinct(n: nat)
    ensures forall i, j :: 0 <= i < j < n ==> ColumnNames(n)[i] != ColumnNames(n)[j]
  {
    var names := ColumnNames(n);
    forall i, j | 0 <= i < j < n ensures names[i] != names[j] {
      assert ParseInt(names[i][6..]) != ParseInt(names[j][6..]);
    }
  }
}
