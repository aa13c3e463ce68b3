/**
 * The text-table reader of `read_md_to_excel` (data_process/pre.py), from the moment the
 * file's text is in hand: the text is stripped and cut into lines, the first line naming both
 * the flight-number and the departure-city column is the header, and every later non-blank
 * line that splits at runs of tabs into as many cells as the header is a data row. Every cell
 * of the resulting table is stripped, column by column. No header, or no data row, is an error
 * (the source returns `None` for both).
 */
module TextTable {
  import opened Wrappers
  import opened Text
  import opened Lists

  /** The two column names a header line must both contain. */
  const FlightNumberLabel: string := "航班号"
  const DepartureCityLabel: string := "出港城市"

  /**
   * Why no table comes out of the text. `DuplicateColumns` is the failure of the strip pass
   * when two columns share a name (selecting such a name yields a table, not a column).
   */
  datatype TableError = NoHeader | NoRows | DuplicateColumns

  /** A table: its column names and its rows of cells. */
  datatype Table = Table(headers: seq<string>, rows: seq<seq<string>>)

  /** The lines of the text: the whole text stripped, then split at every newline. */
  function Lines(content: string): seq<string> {
    SplitOn(Strip(content), '\n')
  }

  /** A line that names both the flight-number and the departure-city column. */
  predicate IsHeader(line: string) {
    Contains(line, FlightNumberLabel) && Contains(line, DepartureCityLabel)
  }

  /** The first header line at index `i` or later, if there is one. */
  function HeaderFrom(lines: seq<string>, i: nat): (h: Option<nat>)
    requires i <= |lines|
    ensures h.Some? ==> i <= h.value < |lines| && IsHeader(lines[h.value])
    ensures forall j :: i <= j < |lines| && (h.None? || j < h.value) ==> !IsHeader(lines[j])
    decreases |lines| - i
  {
    if i == |lines| then None
    else if IsHeader(lines[i]) then Some(i)
    else HeaderFrom(lines, i + 1)
  }

  /** The cells of a line: the stripped line split at runs of tabs, kept only when it is not blank and has `width` cells. */
  function LineCells(line: string, width: nat): Option<seq<string>> {
    var s := Strip(line);
    if s != "" && |SplitTabRuns(s)| == width then Some(SplitTabRuns(s)) else None
  }

  /** `LineCells` for a fixed width, as a function of the line. */
  function LineCellsOf(width: nat): string -> Option<seq<string>> {
    line => LineCells(line, width)
  }

  /** The data rows of a block of lines, in order (the specification of the row loop). */
  function KeptRows(lines: seq<string>, width: nat): seq<seq<string>> {
    Present(MapSeq(LineCellsOf(width), lines))
  }

  /** A row with every cell stripped. */
  function StripRow(row: seq<string>): seq<string> {
    MapSeq(Strip, row)
  }

  /** The table the text stands for (the specification of `ReadTable`). */
  function ParseTable(content: string): Result<Table, TableError> {
    var lines := Lines(content);
    match HeaderFrom(lines, 0)
    case None => Err(NoHeader)
    case Some(h) =>
      var headers := SplitTabRuns(Strip(lines[h]));
      var data := KeptRows(lines[h + 1..], |headers|);
      if data == [] then Err(NoRows)
      else if !Distinct(headers) then Err(DuplicateColumns)
      else Ok(Table(headers, MapSeq(StripRow, data)))
  }

  /**
   * The reader: a scan for the header line, a loop that collects the data rows after it, and
   * a loop that strips the cells one column at a time.
   */
  method ReadTable(content: string) returns (r: Result<Table, TableError>)
    ensures r == ParseTable(content)
  {
    var lines := SplitOn(Strip(content), '\n');
    var header, start := FindHeader(lines);
    if header.None? {
      return Err(NoHeader);
    }
    var headers := SplitTabRuns(Strip(header.value));
    var data := CollectRows(lines, start, |headers|);
    if data == [] {
      return Err(NoRows);
    }
    if !Distinct(headers) {
      return Err(DuplicateColumns);
    }
    KeptRowsWidth(lines[start..], |headers|);
    var rows := StripColumns(data, |headers|);
    r := Ok(Table(headers, rows));
  }

  /** The header scan: it stops at the first header line, and the data starts on the line after it. */
  method FindHeader(lines: seq<string>) returns (header: Option<string>, start: nat)
    ensures match HeaderFrom(lines, 0)
      case None => header.None?
      case Some(h) => header == Some(lines[h]) && start == h + 1
  {
    header, start := None, 0;
    var i := 0;
    while i < |lines|
      invariant 0 <= i <= |lines|
      invariant HeaderFrom(lines, i) == HeaderFrom(lines, 0)
    {
      if IsHeader(lines[i]) {
        header := Some(lines[i]);
        start := i + 1;
        break;
      }
      i := i + 1;
    }
  }

  /** The row loop: from line `start` on, every line with `width` cells is appended as a row. */
  method CollectRows(lines: seq<string>, start: nat, width: nat) returns (data: seq<seq<string>>)
    requires start <= |lines|
    ensures data == KeptRows(lines[start..], width)
  {
    var rest := lines[start..];
    data := [];
    for i := 0 to |rest|
      invariant data == KeptRows(rest[..i], width)
    {
      KeptRowsSnoc(rest, i, width);
      var row := LineRow(rest[i], width);
      if row.Some? {
        data := data + [row.value];
      }
    }
    assert rest[..|rest|] == rest;
  }

  /** One line of the row loop: its stripped text, when non-empty and split into `width` cells, is a row. */
  method LineRow(line: string, width: nat) returns (row: Option<seq<string>>)
    ensures row == LineCells(line, width)
    ensures row.Some? ==> |row.value| == width && forall c :: 0 <= c < width ==> '\t' !in row.value[c]
  {
    row := None;
    var stripped := Strip(line);
    if stripped != "" {
      var rowData := SplitTabRuns(stripped);
      if |rowData| == width {
        SplitTabRunsNoTab(stripped);
        row := Some(rowData);
      }
    }
  }

  /** One more line adds its cells, if it has `width` of them, at the end. */
  lemma KeptRowsSnoc(lines: seq<string>, i: nat, width: nat)
    requires i < |lines|
    ensures var c := LineCells(lines[i], width);
      KeptRows(lines[..i + 1], width) == KeptRows(lines[..i], width) + (if c.Some? then [c.value] else [])
  {
    var f := LineCellsOf(width);
    assert lines[..i + 1] == lines[..i] + [lines[i]];
    MapAppend(f, lines[..i], [lines[i]]);
    PresentSnoc(MapSeq(f, lines[..i]), f(lines[i]));
  }

  /** The strip pass: for each column in turn, the cell of that column is stripped in every row. */
  method StripColumns(data: seq<seq<string>>, width: nat) returns (rows: seq<seq<string>>)
    requires forall t :: 0 <= t < |data| ==> |data[t]| == width
    ensures rows == MapSeq(StripRow, data)
  {
    rows := data;
    var c := 0;
    while c < width
      invariant 0 <= c <= width
      invariant |rows| == |data|
      invariant forall t :: 0 <= t < |rows| ==> rows[t] == MapSeq(Strip, data[t][..c]) + data[t][c..]
    {
      rows := seq(|rows|, t requires 0 <= t < |rows| => rows[t][c := Strip(rows[t][c])]);
      forall t | 0 <= t < |rows|
        ensures rows[t] == MapSeq(Strip, data[t][..c + 1]) + data[t][c + 1..]
      {
        StripCellStep(data[t], c);
      }
      c := c + 1;
    }
    forall t | 0 <= t < |rows|
      ensures rows[t] == StripRow(data[t])
    {
      assert data[t][..c] == data[t] && data[t][c..] == [];
    }
  }

  /** Stripping cell `c` of a row whose first `c` cells are stripped leaves its first `c + 1` cells stripped. */
  lemma StripCellStep(row: seq<string>, c: nat)
    requires c < |row|
    ensures (MapSeq(Strip, row[..c]) + row[c..])[c := Strip(row[c])] == MapSeq(Strip, row[..c + 1]) + row[c + 1..]
  {
    var a := (MapSeq(Strip, row[..c]) + row[c..])[c := Strip(row[c])];
    var b := MapSeq(Strip, row[..c + 1]) + row[c + 1..];
    forall q | 0 <= q < |row|
      ensures a[q] == b[q]
    {
      if q < c {
        assert row[..c][q] == row[q] == row[..c + 1][q];
      } else if q > c {
        assert row[c..][q - c] == row[q] == row[c + 1..][q - c - 1];
      }
    }
  }

  /** Every data row has `width` cells, and each comes from a non-blank line. */
  lemma KeptRowsWidth(lines: seq<string>, width: nat)
    ensures forall t :: 0 <= t < |KeptRows(lines, width)| ==> |KeptRows(lines, width)[t]| == width
  {
    var os := MapSeq(LineCellsOf(width), lines);
    forall t | 0 <= t < |KeptRows(lines, width)|
      ensures |KeptRows(lines, width)[t]| == width
    {
      PresentMember(os, t);
    }
  }

  /** A table is the header line's cells over the stripped rows kept after it, which are not empty, under distinct names. */
  lemma ParseTableOk(content: string) returns (h: nat)
    requires ParseTable(content).Ok?
    ensures var lines, t := Lines(content), ParseTable(content).value;
      && HeaderFrom(lines, 0) == Some(h)
      && t.headers == SplitTabRuns(Strip(lines[h]))
      && KeptRows(lines[h + 1..], |t.headers|) != []
      && t.rows == MapSeq(StripRow, KeptRows(lines[h + 1..], |t.headers|))
      && Distinct(t.headers)
  {
    var lines := Lines(content);
    h := HeaderFrom(lines, 0).value;
    var headers := SplitTabRuns(Strip(lines[h]));
    var data := KeptRows(lines[h + 1..], |headers|);
    assert ParseTable(content) == Ok(Table(headers, MapSeq(StripRow, data)));
  }

  /** After a header, the result is the `NoRows` error exactly when no row is kept. */
  lemma NoRowsCase(content: string) returns (h: nat)
    requires HeaderFrom(Lines(content), 0).Some?
    ensures var lines := Lines(content);
      && HeaderFrom(lines, 0) == Some(h)
      && (ParseTable(content) == Err(NoRows) <==> KeptRows(lines[h + 1..], |SplitTabRuns(Strip(lines[h]))|) == [])
  {
    h := HeaderFrom(Lines(content), 0).value;
  }

  /** The text has no header line exactly when the result is the `NoHeader` error. */
  lemma NoHeaderIff(content: string)
    ensures ParseTable(content) == Err(NoHeader) <==>
      forall j :: 0 <= j < |Lines(content)| ==> !IsHeader(Lines(content)[j])
  {
  }

  /** The header is the first line naming both columns, and its cells are the column names. */
  lemma HeaderIsFirst(content: string) returns (h: nat)
    requires ParseTable(content) != Err(NoHeader)
    ensures var lines := Lines(content);
      && h < |lines| && IsHeader(lines[h])
      && (forall j :: 0 <= j < h ==> !IsHeader(lines[j]))
      && (ParseTable(content).Ok? ==> ParseTable(content).value.headers == SplitTabRuns(Strip(lines[h])))
  {
    h := HeaderFrom(Lines(content), 0).value;
  }

  /** With a header, the result is the `NoRows` error exactly when no later line has the header's number of cells. */
  lemma NoRowsIff(content: string)
    requires HeaderFrom(Lines(content), 0).Some?
    ensures var lines := Lines(content);
      var h := HeaderFrom(lines, 0).value;
      var width := |SplitTabRuns(Strip(lines[h]))|;
      ParseTable(content) == Err(NoRows) <==> forall j :: h < j < |lines| ==> LineCells(lines[j], width).None?
  {
    var lines := Lines(content);
    var h := NoRowsCase(content);
    var width := |SplitTabRuns(Strip(lines[h]))|;
    var after := lines[h + 1..];
    var os := MapSeq(LineCellsOf(width), after);
    PresentEmpty(os);
    forall j | h < j < |lines|
      ensures os[j - h - 1] == LineCells(lines[j], width)
    {
      assert after[j - h - 1] == lines[j];
    }
    assert (forall j :: h < j < |lines| ==> LineCells(lines[j], width).None?) <==>
      (forall k :: 0 <= k < |os| ==> os[k].None?) by {
      if forall k :: 0 <= k < |os| ==> os[k].None? {
        forall j | h < j < |lines|
          ensures LineCells(lines[j], width).None?
        {
          assert os[j - h - 1].None?;
        }
      }
    }
  }

  /** With a header and at least one row, the result is the `DuplicateColumns` error exactly when two header cells are equal. */
  lemma DuplicateColumnsIff(content: string)
    requires ParseTable(content) != Err(NoHeader) && ParseTable(content) != Err(NoRows)
    ensures var lines := Lines(content);
      var headers := SplitTabRuns(Strip(lines[HeaderFrom(lines, 0).value]));
      ParseTable(content) == Err(DuplicateColumns) <==> exists i, j :: 0 <= i < j < |headers| && headers[i] == headers[j]
  {
    var lines := Lines(content);
    DistinctIff(SplitTabRuns(Strip(lines[HeaderFrom(lines, 0).value])));
  }

  /** A table has at least one row, distinct column names, one cell per column in every row, and only stripped cells. */
  lemma TableShape(content: string)
    requires ParseTable(content).Ok?
    ensures var t := ParseTable(content).value;
      && t.rows != []
      && Distinct(t.headers)
      && (forall r :: 0 <= r < |t.rows| ==> |t.rows[r]| == |t.headers|)
      && (forall r, q :: 0 <= r < |t.rows| && 0 <= q < |t.rows[r]| ==> Strip(t.rows[r][q]) == t.rows[r][q])
  {
    var t := ParseTable(content).value;
    var h := ParseTableOk(content);
    KeptRowsWidth(Lines(content)[h + 1..], |t.headers|);
    StrippedRows(KeptRows(Lines(content)[h + 1..], |t.headers|), |t.headers|, t.rows);
  }

  /** The stripped rows of data rows of `width` cells have `width` cells, all stripped. */
  lemma StrippedRows(data: seq<seq<string>>, width: nat, rows: seq<seq<string>>)
    requires forall r :: 0 <= r < |data| ==> |data[r]| == width
    requires rows == MapSeq(StripRow, data)
    ensures forall r :: 0 <= r < |rows| ==> |rows[r]| == width
    ensures forall r, q :: 0 <= r < |rows| && 0 <= q < |rows[r]| ==> Strip(rows[r][q]) == rows[r][q]
  {
    forall r, q | 0 <= r < |rows| && 0 <= q < |rows[r]|
      ensures Strip(rows[r][q]) == rows[r][q]
    {
      assert rows[r] == StripRow(data[r]);
      StripIdempotent(data[r][q]);
    }
  }

  /**
   * Where the rows come from: row `r` is the stripped cells of line `idx[r]`, which lies after
   * the header and has the header's number of cells; the lines are taken in order, so lines
   * before the header are never kept.
   */
  lemma RowsOrigin(content: string) returns (idx: seq<nat>)
    requires ParseTable(content).Ok?
    ensures var lines, t := Lines(content), ParseTable(content).value;
      var h := HeaderFrom(lines, 0).value;
      && |idx| == |t.rows|
      && (forall r :: 0 <= r < |idx| ==>
            && h < idx[r] < |lines|
            && LineCells(lines[idx[r]], |t.headers|).Some?
            && t.rows[r] == StripRow(LineCells(lines[idx[r]], |t.headers|).value))
      && (forall r, r' :: 0 <= r < r' < |idx| ==> idx[r] < idx[r'])
      && (forall j :: h < j < |lines| && LineCells(lines[j], |t.headers|).Some? ==> j in idx)
  {
    var t := ParseTable(content).value;
    var h := ParseTableOk(content);
    idx := RowsAfter(Lines(content), h, |t.headers|, t.rows);
  }

  /** `RowsOrigin` for the rows kept after line `h`, with their positions counted in the whole text. */
  lemma RowsAfter(lines: seq<string>, h: nat, width: nat, rows: seq<seq<string>>) returns (idx: seq<nat>)
    requires h < |lines| && rows == MapSeq(StripRow, KeptRows(lines[h + 1..], width))
    ensures |idx| == |rows|
    ensures forall r :: 0 <= r < |idx| ==>
      && h < idx[r] < |lines|
      && LineCells(lines[idx[r]], width).Some?
      && rows[r] == StripRow(LineCells(lines[idx[r]], width).value)
    ensures forall r, r' :: 0 <= r < r' < |idx| ==> idx[r] < idx[r']
    ensures forall j :: h < j < |lines| && LineCells(lines[j], width).Some? ==> j in idx
  {
    var after := lines[h + 1..];
    var data := KeptRows(after, width);
    var pos := KeptRowsOrigin(after, width);
    idx := Shift(pos, h + 1);
    forall r | 0 <= r < |idx|
      ensures h < idx[r] < |lines| && LineCells(lines[idx[r]], width) == Some(data[r]) && rows[r] == StripRow(data[r])
    {
      assert after[pos[r]] == lines[idx[r]];
    }
    LinesAfter(lines, h, width, after, pos, idx);
  }

  /** A line after `h` that gives cells is line `j - h - 1` of the block after `h`, so it is shifted into `idx`. */
  lemma LinesAfter(lines: seq<string>, h: nat, width: nat, after: seq<string>, pos: seq<nat>, idx: seq<nat>)
    requires h < |lines| && after == lines[h + 1..]
    requires forall q :: 0 <= q < |after| && LineCells(after[q], width).Some? ==> q in pos
    requires |idx| == |pos| && forall r :: 0 <= r < |idx| ==> idx[r] == pos[r] + h + 1
    ensures forall j :: h < j < |lines| && LineCells(lines[j], width).Some? ==> j in idx
  {
    forall j | h < j < |lines| && LineCells(lines[j], width).Some?
      ensures j in idx
    {
      assert after[j - h - 1] == lines[j];
      var r :| 0 <= r < |pos| && pos[r] == j - h - 1;
      assert idx[r] == j;
    }
  }

  /** The positions `pos` moved up by `offset`. */
  lemma Shift(pos: seq<nat>, offset: nat) returns (idx: seq<nat>)
    ensures |idx| == |pos| && forall r :: 0 <= r < |idx| ==> idx[r] == pos[r] + offset
  {
    idx := seq(|pos|, r requires 0 <= r < |pos| => pos[r] + offset);
  }

  /** Data row `r` is the cells of line `idx[r]` of the block, and the lines are taken in order. */
  lemma KeptRowsOrigin(lines: seq<string>, width: nat) returns (idx: seq<nat>)
    ensures |idx| == |KeptRows(lines, width)|
    ensures forall r :: 0 <= r < |idx| ==>
      idx[r] < |lines| && LineCells(lines[idx[r]], width) == Some(KeptRows(lines, width)[r])
    ensures forall r, r' :: 0 <= r < r' < |idx| ==> idx[r] < idx[r']
    ensures forall j :: 0 <= j < |lines| && LineCells(lines[j], width).Some? ==> j in idx
  {
    var os := MapSeq(LineCellsOf(width), lines);
    idx := PresentOrigin(os);
    forall j | 0 <= j < |lines| && LineCells(lines[j], width).Some?
      ensures os[j].Some?
    {
    }
  }

  /**
   * Every line after the header with the header's number of cells gives a row, in its own place:
   * right after the rows of the lines between the header and it.
   */
  lemma RowKept(content: string, j: nat)
    requires ParseTable(content).Ok?
    requires var lines := Lines(content);
      HeaderFrom(lines, 0).value < j < |lines|
      && LineCells(lines[j], |ParseTable(content).value.headers|).Some?
    ensures var lines, t := Lines(content), ParseTable(content).value;
      var k := |KeptRows(lines[HeaderFrom(lines, 0).value + 1..j], |t.headers|)|;
      k < |t.rows| && t.rows[k] == StripRow(LineCells(lines[j], |t.headers|).value)
  {
    var lines, t := Lines(content), ParseTable(content).value;
    var h := ParseTableOk(content);
    var width := |t.headers|;
    var data := KeptRows(lines[h + 1..], width);
    var k := LineRank(lines, h, width, j, data);
    assert t.rows[k] == StripRow(data[k]);
  }

  /** Line `j` after `h` with cells gives data row `k`, where `k` counts the rows of the lines between. */
  lemma LineRank(lines: seq<string>, h: nat, width: nat, j: nat, data: seq<seq<string>>) returns (k: nat)
    requires h < j < |lines| && LineCells(lines[j], width).Some?
    requires data == KeptRows(lines[h + 1..], width)
    ensures k == |KeptRows(lines[h + 1..j], width)|
    ensures k < |data| && data[k] == LineCells(lines[j], width).value
  {
    var after, i := lines[h + 1..], j - h - 1;
    assert after[i] == lines[j];
    assert after[..i] == lines[h + 1..j];
    k := BlockRank(after, width, i);
  }

  /** Line `i` of a block with cells gives data row `k`, where `k` counts the rows of the lines before it. */
  lemma BlockRank(lines: seq<string>, width: nat, i: nat) returns (k: nat)
    requires i < |lines| && LineCells(lines[i], width).Some?
    ensures k == |KeptRows(lines[..i], width)|
    ensures k < |KeptRows(lines, width)| && KeptRows(lines, width)[k] == LineCells(lines[i], width).value
  {
    var os := MapSeq(LineCellsOf(width), lines);
    PresentRank(os, i);
    MapTake(LineCellsOf(width), lines, i);
    k := |Present(os[..i])|;
  }
}
