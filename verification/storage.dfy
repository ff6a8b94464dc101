/** The data-file format: a header line of comma-joined column names and one
    comma-joined line per row. `commit` (transaction.py) and `_persist_table`
    (table_manager.py) write it; `_load_table` (transaction.py) reads it. */
module Storage {
  import opened Base
  import opened Text
  import opened Tables

  /** The text written for an aligned table. With no columns it is the
      empty header line alone. */
  function Format(t: Table): string
    requires Valid(t)
  {
    LinesText(FormatLines(t))
  }

  /** The header line, then one line per row. */
  function FormatLines(t: Table): (ls: seq<string>)
    requires Valid(t)
    ensures |ls| == Height(t) + 1 && ls[0] == Join(t.columns, ',')
    ensures forall i :: 0 <= i < Height(t) ==> ls[i + 1] == Join(Row(t, i), ',')
  {
    [Join(t.columns, ',')] + seq(Height(t), i requires 0 <= i < Height(t) => Join(Row(t, i), ','))
  }

  /** `line.strip().split(",")`: the cells of one line. */
  function Cells(line: string): (cells: seq<string>)
    ensures |cells| >= 1
  {
    Split(Strip(line), ',')
  }

  /** `values[i] if i < len(values) else ""`: a short line is padded. */
  function Padded(values: seq<string>, i: nat): string
  {
    if i < |values| then values[i] else ""
  }

  /** What one line appends to column `c`, looking at the first `n` header
      names: one cell per position whose name is `c`. */
  function Entries(c: string, header: seq<string>, values: seq<string>, n: nat): seq<string>
    requires n <= |header|
  {
    if n == 0 then []
    else Entries(c, header, values, n - 1) + (if header[n - 1] == c then [Padded(values, n - 1)] else [])
  }

  /** Column `c` after every line of `rows` has been read. */
  function ColumnOf(c: string, header: seq<string>, rows: seq<seq<string>>): seq<string>
  {
    if |rows| == 0 then []
    else ColumnOf(c, header, rows[..|rows| - 1]) + Entries(c, header, Last(rows), |header|)
  }

  /** The header names of a data file, or none for an empty file. */
  function Header(text: string): (h: Option<seq<string>>)
    ensures h.None? <==> |Lines(text)| == 0
    ensures h.Some? ==> h.value == Cells(Lines(text)[0]) && |h.value| >= 1
  {
    var ls := Lines(text);
    if |ls| == 0 then None else Some(Cells(ls[0]))
  }

  /** With a duplicate-free header, a line adds exactly one cell to each
      column: the value at the column's position, padded. */
  lemma {:induction false} EntriesDistinct(header: seq<string>, values: seq<string>, j: nat, n: nat)
    requires Distinct(header) && j < |header| && n <= |header|
    ensures Entries(header[j], header, values, n) == (if j < n then [Padded(values, j)] else [])
    decreases n
  {
    if n > 0 {
      EntriesDistinct(header, values, j, n - 1);
    }
  }

  lemma {:induction false} ColumnOfDistinct(header: seq<string>, rows: seq<seq<string>>, j: nat)
    requires Distinct(header) && j < |header|
    ensures |ColumnOf(header[j], header, rows)| == |rows|
    ensures forall k :: 0 <= k < |rows| ==> ColumnOf(header[j], header, rows)[k] == Padded(rows[k], j)
    decreases |rows|
  {
    if |rows| > 0 {
      var init := rows[..|rows| - 1];
      ColumnOfDistinct(header, init, j);
      EntriesDistinct(header, Last(rows), j, |header|);
    }
  }

  /** The dict `_load_table` builds from a header and the split lines. */
  function Build(header: seq<string>, rows: seq<seq<string>>): (t: Table)
    ensures WellFormed(t)
    ensures forall c :: c in t.columns <==> c in header
  {
    Table(Dedup(header), map c | c in header :: ColumnOf(c, header, rows))
  }

  /** With a duplicate-free header, the table built is aligned, with one row
      per line, and its cells are the lines' cells, padded. */
  lemma {:induction false} BuildDistinct(header: seq<string>, rows: seq<seq<string>>)
    requires Distinct(header) && |header| > 0
    ensures Build(header, rows).columns == header
    ensures Valid(Build(header, rows)) && Height(Build(header, rows)) == |rows|
    ensures forall k, j :: 0 <= k < |rows| && 0 <= j < |header| ==>
              Build(header, rows).data[header[j]][k] == Padded(rows[k], j)
  {
    var t := Build(header, rows);
    forall j | 0 <= j < |header|
      ensures |t.data[header[j]]| == |rows|
      ensures forall k :: 0 <= k < |rows| ==> t.data[header[j]][k] == Padded(rows[k], j)
    {
      ColumnOfDistinct(header, rows, j);
    }
    forall c | c in t.data ensures |t.data[c]| == Height(t) {
      var j := IndexOf(header, c);
    }
  }

  /** The split lines after the header. */
  function DataRows(ls: seq<string>): (rows: seq<seq<string>>)
    requires |ls| > 0
    ensures |rows| == |ls| - 1
    ensures forall k :: 0 <= k < |rows| ==> rows[k] == Cells(ls[k + 1])
  {
    seq(|ls| - 1, k requires 0 <= k < |ls| - 1 => Cells(ls[k + 1]))
  }

  /** `_load_table` on the lines read: an empty file fails on `lines[0]`;
      otherwise the header's names become the columns in first-occurrence
      order, and each later line is split into cells and padded. */
  function ParseLines(table: string, ls: seq<string>): (r: Result<Table>)
    ensures r.Failure? <==> |ls| == 0
    ensures r.Failure? ==> r.error == EmptyFile(table)
    ensures r.Success? ==> WellFormed(r.value)
    ensures r.Success? ==> forall c :: c in r.value.columns <==> c in Cells(ls[0])
  {
    if |ls| == 0 then Failure(EmptyFile(table))
    else Success(Build(Cells(ls[0]), DataRows(ls)))
  }

  /** When the header repeats no name, the table loaded is aligned, with
      the header as its columns, one row per later line, and the lines'
      cells, padded, as its cells. */
  lemma {:induction false} ParseLinesDistinct(table: string, ls: seq<string>)
    requires |ls| > 0 && Distinct(Cells(ls[0]))
    ensures var t := ParseLines(table, ls).value;
            t.columns == Cells(ls[0]) && Valid(t) && Height(t) == |ls| - 1
            && forall k, j :: 0 <= k < |ls| - 1 && 0 <= j < |Cells(ls[0])| ==>
                 t.data[Cells(ls[0])[j]][k] == Padded(DataRows(ls)[k], j)
  {
    BuildDistinct(Cells(ls[0]), DataRows(ls));
  }

  /** A file of one line loads as `{col: [] for col in header}`, whether or
      not the header repeats a name. */
  lemma {:induction false} ParseHeaderOnly(table: string, ls: seq<string>)
    requires |ls| == 1
    ensures ParseLines(table, ls) == Success(EmptyTable(Cells(ls[0])))
  {
    var h := Cells(ls[0]);
    assert DataRows(ls) == [];
    assert (map c | c in h :: ColumnOf(c, h, [])) == (map c | c in h :: []);
  }

  /** The header line `create_table` writes loads back as the empty table it
      caches, provided the names are plain. */
  lemma {:induction false} HeaderRoundTrip(table: string, columns: seq<string>)
    requires |columns| > 0 && forall k :: 0 <= k < |columns| ==> PlainCell(columns[k])
    ensures Parse(table, LinesText([Join(columns, ',')])) == Success(EmptyTable(columns))
  {
    LineRoundTrip(columns);
    LinesRoundTrip([Join(columns, ',')]);
    ParseHeaderOnly(table, [Join(columns, ',')]);
  }

  /** The header of a file written in the commit format is the table's
      column list. */
  lemma {:induction false} HeaderOfFormat(t: Table)
    requires Valid(t) && |t.columns| > 0 && PlainTable(t)
    ensures Header(Format(t)) == Some(t.columns)
  {
    FormatNoNewline(t);
    LinesRoundTrip(FormatLines(t));
    FormatHeader(t);
  }

  /** The header of a file holding one comma-joined line of plain names is
      that list of names, repeats included. */
  lemma {:induction false} HeaderOfLine(columns: seq<string>)
    requires |columns| > 0 && forall k :: 0 <= k < |columns| ==> PlainCell(columns[k])
    ensures Header(LinesText([Join(columns, ',')])) == Some(columns)
  {
    LineRoundTrip(columns);
    LinesRoundTrip([Join(columns, ',')]);
  }

  /** `_load_table` reading a data file's text. */
  function Parse(table: string, text: string): (r: Result<Table>)
    ensures r.Failure? <==> Header(text).None?
    ensures r.Failure? ==> r.error == EmptyFile(table)
    ensures r.Success? ==> WellFormed(r.value) && forall c :: c in r.value.columns <==> c in Header(text).value
  {
    ParseLines(table, Lines(text))
  }

  /** A name or cell the format carries unchanged: no comma, no line-end
      character and no whitespace at either end. */
  predicate PlainCell(s: string)
  {
    ',' !in s && OneLine(s) && Trimmed(s, IsSpace)
  }

  predicate PlainTable(t: Table)
  {
    && (forall c :: c in t.columns ==> PlainCell(c))
    && (forall c, i :: c in t.data && 0 <= i < |t.data[c]| ==> PlainCell(t.data[c][i]))
  }

  /** One written line read back through `strip().split(",")`. */
  lemma {:induction false} LineRoundTrip(cells: seq<string>)
    requires |cells| >= 1
    requires forall k :: 0 <= k < |cells| ==> PlainCell(cells[k])
    ensures Cells(Join(cells, ',')) == cells
    ensures OneLine(Join(cells, ','))
  {
    JoinTrimmed(cells, ',', IsSpace);
    SplitJoin(cells, ',');
    JoinOneLine(cells, ',');
  }

  lemma {:induction false} RowPlain(t: Table, i: nat)
    requires Valid(t) && PlainTable(t) && |t.columns| > 0 && i < Height(t)
    ensures Cells(Join(Row(t, i), ',')) == Row(t, i)
    ensures OneLine(Join(Row(t, i), ','))
  {
    var row := Row(t, i);
    forall k | 0 <= k < |row| ensures PlainCell(row[k]) {
      assert row[k] == t.data[t.columns[k]][i];
    }
    LineRoundTrip(row);
  }

  lemma {:induction false} FormatHeader(t: Table)
    requires Valid(t) && |t.columns| > 0 && PlainTable(t)
    ensures Cells(FormatLines(t)[0]) == t.columns
    ensures OneLine(FormatLines(t)[0])
  {
    assert forall k :: 0 <= k < |t.columns| ==> PlainCell(t.columns[k]);
    LineRoundTrip(t.columns);
  }

  lemma LineNoNewline(t: Table, k: nat)
    requires Valid(t) && |t.columns| > 0 && PlainTable(t) && k < Height(t) + 1
    ensures OneLine(FormatLines(t)[k])
  {
    if k == 0 {
      FormatHeader(t);
    } else {
      var i := k - 1;
      assert FormatLines(t)[i + 1] == Join(Row(t, i), ',');
      RowPlain(t, i);
    }
  }

  lemma {:induction false} FormatNoNewline(t: Table)
    requires Valid(t) && |t.columns| > 0 && PlainTable(t)
    ensures forall k :: 0 <= k < |FormatLines(t)| ==> OneLine(FormatLines(t)[k])
  {
    forall k | 0 <= k < |FormatLines(t)| {
      LineNoNewline(t, k);
    }
  }

  /** Every written row line reads back as the row it was written from. */
  lemma {:induction false} FormatRows(t: Table)
    requires Valid(t) && |t.columns| > 0 && PlainTable(t)
    ensures forall i :: 0 <= i < Height(t) ==> DataRows(FormatLines(t))[i] == Row(t, i)
  {
    var ls := FormatLines(t);
    forall i | 0 <= i < Height(t) ensures DataRows(ls)[i] == Row(t, i) {
      RowPlain(t, i);
    }
  }

  /** Two aligned tables with the same header whose cells agree are equal. */
  lemma {:induction false} SameCells(t: Table, r: Table, rows: seq<seq<string>>)
    requires Valid(t) && Valid(r) && r.columns == t.columns && |t.columns| > 0
    requires Height(r) == Height(t) && |rows| == Height(t)
    requires forall i :: 0 <= i < Height(t) ==> rows[i] == Row(t, i)
    requires forall k, j :: 0 <= k < |rows| && 0 <= j < |t.columns| ==>
               r.data[t.columns[j]][k] == Padded(rows[k], j)
    ensures r == t
  {
    forall c | c in t.data ensures r.data[c] == t.data[c] {
      var j := IndexOf(t.columns, c);
      forall k | 0 <= k < Height(t) ensures r.data[c][k] == t.data[c][k] {
        assert rows[k] == Row(t, k);
      }
    }
    assert r.data == t.data;
  }

  /** Parsing the written lines gives the table back. */
  lemma {:induction false} ParseFormatLines(table: string, t: Table)
    requires Valid(t) && |t.columns| > 0
    requires Cells(FormatLines(t)[0]) == t.columns
    requires forall i :: 0 <= i < Height(t) ==> DataRows(FormatLines(t))[i] == Row(t, i)
    ensures ParseLines(table, FormatLines(t)) == Success(t)
  {
    var ls := FormatLines(t);
    var r := ParseLines(table, ls).value;
    assert Distinct(Cells(ls[0]));
    ParseLinesDistinct(table, ls);
    SameCells(t, r, DataRows(ls));
  }

  /** Writing an aligned table and loading the file back gives the same
      table, provided it has a column and its names and cells are plain. */
  lemma {:induction false} FormatRoundTrip(table: string, t: Table)
    requires Valid(t) && |t.columns| > 0 && PlainTable(t)
    ensures Parse(table, Format(t)) == Success(t)
  {
    FormatNoNewline(t);
    LinesRoundTrip(FormatLines(t));
    FormatHeader(t);
    FormatRows(t);
    ParseFormatLines(table, t);
  }
}
