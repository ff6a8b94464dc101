/** The in-memory table of transaction.py — a dict from column name to the
    list of that column's cells — and the row operations a transaction
    performs on it: insert, update, delete and the two reads. */
module Tables {
  import opened Base
  import opened Schema
  import opened Sorting

  /** A table as the source holds it: the dict's keys in order, and each
      key's list of cells. */
  datatype Table = Table(columns: seq<string>, data: map<string, seq<string>>)

  /** The key list and the dict agree: every name once, no other keys. */
  predicate WellFormed(t: Table)
  {
    Distinct(t.columns)
    && (forall c :: c in t.data ==> c in t.columns)
    && (forall c :: c in t.columns ==> c in t.data)
  }

  /** The number of rows, read off the first column. */
  function Height(t: Table): nat
  {
    if |t.columns| == 0 || t.columns[0] !in t.data then 0 else |t.data[t.columns[0]]|
  }

  /** Row alignment: every column holds one cell per row. */
  predicate Valid(t: Table)
  {
    WellFormed(t) && forall c :: c in t.data ==> |t.data[c]| == Height(t)
  }

  /** `{col: [] for col in columns}`: a table with the given header and no rows. */
  function EmptyTable(columns: seq<string>): (t: Table)
    ensures Valid(t) && Height(t) == 0
    ensures forall c :: c in t.columns <==> c in columns
    ensures Distinct(columns) ==> t.columns == columns
    ensures t.columns == Dedup(columns)
  {
    Table(Dedup(columns), map c | c in columns :: [])
  }

  /** Row `i`, its cells in column order. */
  function Row(t: Table, i: nat): seq<string>
    requires Valid(t) && i < Height(t)
  {
    seq(|t.columns|, j requires 0 <= j < |t.columns| => t.data[t.columns[j]][i])
  }

  /** The tuple `tuple(data[h][i] for h in headers)`. */
  function Project(t: Table, headers: seq<string>, i: nat): seq<string>
    requires Valid(t) && i < Height(t)
    requires forall h :: h in headers ==> h in t.data
  {
    seq(|headers|, j requires 0 <= j < |headers| => t.data[headers[j]][i])
  }

  /** The tuples of the rows at `ixs`, in that order. */
  function Projected(t: Table, headers: seq<string>, ixs: seq<nat>): (rows: seq<seq<string>>)
    requires Valid(t)
    requires forall h :: h in headers ==> h in t.data
    requires forall k :: 0 <= k < |ixs| ==> ixs[k] < Height(t)
    ensures |rows| == |ixs|
    ensures forall k :: 0 <= k < |ixs| ==> rows[k] == Project(t, headers, ixs[k])
  {
    seq(|ixs|, k requires 0 <= k < |ixs| => Project(t, headers, ixs[k]))
  }

  /** Every projected tuple is the tuple of one of the rows at `ixs`. */
  lemma ProjectedFrom(t: Table, headers: seq<string>, ixs: seq<nat>)
    requires Valid(t)
    requires forall h :: h in headers ==> h in t.data
    requires forall k :: 0 <= k < |ixs| ==> ixs[k] < Height(t)
    ensures forall row :: row in Projected(t, headers, ixs) ==>
              exists k :: 0 <= k < |ixs| && row == Project(t, headers, ixs[k])
  {
    var all := Projected(t, headers, ixs);
    forall row | row in all ensures exists k :: 0 <= k < |ixs| && row == Project(t, headers, ixs[k]) {
      var k :| 0 <= k < |all| && all[k] == row;
    }
  }

  /** The indices of `s`, in increasing order, whose cell equals `value`
      (`equal`) or differs from it (`!equal`). */
  function Positions(s: seq<string>, value: string, equal: bool): (r: seq<nat>)
    ensures forall k :: 0 <= k < |r| ==> r[k] < |s| && (s[r[k]] == value) == equal
    ensures forall k, l :: 0 <= k < l < |r| ==> r[k] < r[l]
    ensures forall i :: 0 <= i < |s| && (s[i] == value) == equal ==> i in r
    decreases |s|
  {
    if |s| == 0 then []
    else
      var prev := Positions(s[..|s| - 1], value, equal);
      if (Last(s) == value) == equal then prev + [|s| - 1] else prev
  }

  /** Every index either matches or does not. */
  lemma {:induction false} PositionsPartition(s: seq<string>, value: string)
    ensures |Positions(s, value, true)| + |Positions(s, value, false)| == |s|
    decreases |s|
  {
    if |s| > 0 {
      PositionsPartition(s[..|s| - 1], value);
    }
  }

  /** `0, 1, …, n - 1`. */
  function Range(n: nat): (r: seq<nat>)
    ensures |r| == n && forall k :: 0 <= k < n ==> r[k] == k
  {
    seq(n, k requires 0 <= k < n => k)
  }

  /** The cells of `s` at the indices `ixs`. */
  function Pick(s: seq<string>, ixs: seq<nat>): (r: seq<string>)
    requires forall k :: 0 <= k < |ixs| ==> ixs[k] < |s|
    ensures |r| == |ixs| && forall k :: 0 <= k < |ixs| ==> r[k] == s[ixs[k]]
  {
    seq(|ixs|, k requires 0 <= k < |ixs| => s[ixs[k]])
  }

  /** Picking at increasing indices from a duplicate-free column keeps it
      duplicate-free. */
  lemma PickDistinct(s: seq<string>, ixs: seq<nat>)
    requires forall k :: 0 <= k < |ixs| ==> ixs[k] < |s|
    requires forall k, l :: 0 <= k < l < |ixs| ==> ixs[k] < ixs[l]
    requires Distinct(s)
    ensures Distinct(Pick(s, ixs))
  {
    var r := Pick(s, ixs);
    forall k, l | 0 <= k < l < |r| ensures r[k] != r[l] {
      assert ixs[k] < ixs[l];
    }
  }

  /** The primary-key column and every unique column hold distinct values. */
  predicate UniqueIn(t: Table, meta: TableMetadata)
  {
    forall c :: c in t.data && Constrained(meta, c) ==> Distinct(t.data[c])
  }

  // ---------------------------------------------------------------- insert

  /** Value `j` of the new row may not go in: its column is constrained and
      already holds it. */
  predicate Clash(t: Table, meta: TableMetadata, values: seq<string>, j: nat)
    requires WellFormed(t) && |values| == |t.columns| && j < |t.columns|
  {
    Constrained(meta, t.columns[j]) && values[j] in t.data[t.columns[j]]
  }

  /** The first clashing column at or after `from`, in column order. */
  function FirstClash(t: Table, meta: TableMetadata, values: seq<string>, from: nat): (r: Option<nat>)
    requires WellFormed(t) && |values| == |t.columns|
    ensures r.Some? ==> from <= r.value < |t.columns| && Clash(t, meta, values, r.value)
    ensures r.Some? ==> forall k :: from <= k < r.value ==> !Clash(t, meta, values, k)
    ensures r.None? ==> forall k :: from <= k < |t.columns| ==> !Clash(t, meta, values, k)
    decreases |t.columns| - from
  {
    if from >= |t.columns| then None
    else if Clash(t, meta, values, from) then Some(from)
    else FirstClash(t, meta, values, from + 1)
  }

  /** Every column with its value of the new row appended. */
  function AppendRow(t: Table, values: seq<string>): (r: Table)
    requires WellFormed(t) && |values| == |t.columns|
    ensures r.columns == t.columns && WellFormed(r)
    ensures forall j :: 0 <= j < |t.columns| ==> r.data[t.columns[j]] == t.data[t.columns[j]] + [values[j]]
  {
    var data := map c | c in t.data :: t.data[c] + [values[IndexOf(t.columns, c)]];
    assert forall j :: 0 <= j < |t.columns| ==> IndexOf(t.columns, t.columns[j]) == j;
    Table(t.columns, data)
  }

  /** `insert_row` on the table: the value count must equal the column count,
      and no constrained column may already hold its new value; the check of
      every column comes before any append, so a refused row changes
      nothing. */
  function Insert(t: Table, meta: TableMetadata, values: seq<string>): (r: Result<Table>)
    requires WellFormed(t)
    ensures |values| != |t.columns| ==> r == Failure(ColumnCountMismatch)
    ensures |values| == |t.columns| ==>
              (r.Failure? <==> exists j :: 0 <= j < |t.columns| && Clash(t, meta, values, j))
    ensures |values| == |t.columns| && r.Failure? ==>
              exists j :: 0 <= j < |t.columns| && Clash(t, meta, values, j)
                && (forall k :: 0 <= k < j ==> !Clash(t, meta, values, k))
                && r.error == DuplicateValue(t.columns[j], values[j])
    ensures r.Success? ==> r.value.columns == t.columns && WellFormed(r.value)
    ensures r.Success? ==>
              forall j :: 0 <= j < |t.columns| ==> r.value.data[t.columns[j]] == t.data[t.columns[j]] + [values[j]]
  {
    if |values| != |t.columns| then Failure(ColumnCountMismatch)
    else match FirstClash(t, meta, values, 0)
      case Some(j) => Failure(DuplicateValue(t.columns[j], values[j]))
      case None => Success(AppendRow(t, values))
  }

  lemma {:induction false} AppendRowAligned(t: Table, values: seq<string>)
    requires Valid(t) && |t.columns| > 0 && |values| == |t.columns|
    ensures Valid(AppendRow(t, values)) && Height(AppendRow(t, values)) == Height(t) + 1
  {
    var r := AppendRow(t, values);
    assert r.data[t.columns[0]] == t.data[t.columns[0]] + [values[0]];
    forall c | c in r.data ensures |r.data[c]| == Height(r) {
      var j := IndexOf(t.columns, c);
      assert r.data[t.columns[j]] == t.data[t.columns[j]] + [values[j]];
    }
  }

  lemma {:induction false} AppendRowLast(t: Table, values: seq<string>)
    requires Valid(t) && |t.columns| > 0 && |values| == |t.columns|
    requires Valid(AppendRow(t, values)) && Height(AppendRow(t, values)) == Height(t) + 1
    ensures Row(AppendRow(t, values), Height(t)) == values
  {
    var r := AppendRow(t, values);
    forall j | 0 <= j < |t.columns| ensures Row(r, Height(t))[j] == values[j] {
      assert r.data[t.columns[j]] == t.data[t.columns[j]] + [values[j]];
    }
  }

  lemma {:induction false} AppendRowKeeps(t: Table, values: seq<string>, i: nat)
    requires Valid(t) && |t.columns| > 0 && |values| == |t.columns| && i < Height(t)
    requires Valid(AppendRow(t, values)) && Height(AppendRow(t, values)) == Height(t) + 1
    ensures Row(AppendRow(t, values), i) == Row(t, i)
  {
    var r := AppendRow(t, values);
    forall j | 0 <= j < |t.columns| ensures Row(r, i)[j] == Row(t, i)[j] {
      assert r.data[t.columns[j]] == t.data[t.columns[j]] + [values[j]];
    }
  }

  lemma {:induction false} AppendRowRows(t: Table, values: seq<string>)
    requires Valid(t) && |t.columns| > 0 && |values| == |t.columns|
    ensures Valid(AppendRow(t, values)) && Height(AppendRow(t, values)) == Height(t) + 1
    ensures Row(AppendRow(t, values), Height(t)) == values
    ensures forall i :: 0 <= i < Height(t) ==> Row(AppendRow(t, values), i) == Row(t, i)
  {
    AppendRowAligned(t, values);
    AppendRowLast(t, values);
    forall i | 0 <= i < Height(t) ensures Row(AppendRow(t, values), i) == Row(t, i) {
      AppendRowKeeps(t, values, i);
    }
  }

  /** A successful insert on an aligned table with columns adds exactly one
      row, equal to the values, after the existing rows, which stay as they
      were. */
  lemma {:induction false} InsertAppendsRow(t: Table, meta: TableMetadata, values: seq<string>)
    requires Valid(t) && |t.columns| > 0 && Insert(t, meta, values).Success?
    ensures Valid(Insert(t, meta, values).value)
    ensures Height(Insert(t, meta, values).value) == Height(t) + 1
    ensures Row(Insert(t, meta, values).value, Height(t)) == values
    ensures forall i :: 0 <= i < Height(t) ==> Row(Insert(t, meta, values).value, i) == Row(t, i)
  {
    assert Insert(t, meta, values).value == AppendRow(t, values);
    AppendRowRows(t, values);
  }

  /** A successful insert keeps the primary-key and unique columns free of
      duplicates. */
  lemma {:induction false} InsertKeepsUnique(t: Table, meta: TableMetadata, values: seq<string>)
    requires WellFormed(t) && UniqueIn(t, meta) && Insert(t, meta, values).Success?
    ensures UniqueIn(Insert(t, meta, values).value, meta)
  {
    var r := Insert(t, meta, values).value;
    forall c | c in r.data && Constrained(meta, c) ensures Distinct(r.data[c]) {
      var j := IndexOf(t.columns, c);
      assert !Clash(t, meta, values, j);
      assert r.data[c] == t.data[c] + [values[j]];
    }
  }

  // ---------------------------------------------------------------- update

  /** `target` with `newVal` at every index where `where` holds `whereVal`. */
  function Overwrite(target: seq<string>, where: seq<string>, whereVal: string, newVal: string): (r: seq<string>)
    requires |target| == |where|
    ensures |r| == |target|
    ensures forall i :: 0 <= i < |r| ==> r[i] == (if where[i] == whereVal then newVal else target[i])
    decreases |target|
  {
    if |target| == 0 then []
    else
      var n := |target| - 1;
      Overwrite(target[..n], where[..n], whereVal, newVal)
      + [if where[n] == whereVal then newVal else target[n]]
  }

  /** `update_rows` on the table: the WHERE column must exist; the SET column
      is looked up only at the first matching row, so it may be absent when
      no row matches. There is no uniqueness check. The number reported is
      the number of matching rows. */
  function Update(t: Table, setCol: string, newVal: string, whereCol: string, whereVal: string)
    : (r: Result<(Table, nat)>)
    requires Valid(t)
    ensures r.Failure? <==>
              whereCol !in t.data
              || (setCol !in t.data && exists i :: 0 <= i < |t.data[whereCol]| && t.data[whereCol][i] == whereVal)
    ensures whereCol !in t.data ==> r == Failure(ColumnNotFound(whereCol))
    ensures whereCol in t.data && r.Failure? ==> r == Failure(ColumnNotFound(setCol))
    ensures r.Success? ==> r.value.1 == |Positions(t.data[whereCol], whereVal, true)|
    ensures r.Success? ==> r.value.0.columns == t.columns && Valid(r.value.0) && Height(r.value.0) == Height(t)
    ensures r.Success? ==> forall c :: c in t.data && c != setCol ==> r.value.0.data[c] == t.data[c]
    ensures r.Success? && setCol in t.data ==>
              forall i :: 0 <= i < Height(t) ==>
                r.value.0.data[setCol][i] == (if t.data[whereCol][i] == whereVal then newVal else t.data[setCol][i])
  {
    if whereCol !in t.data then Failure(ColumnNotFound(whereCol))
    else
      var where := t.data[whereCol];
      var matches := Positions(where, whereVal, true);
      if setCol !in t.data then
        if |matches| > 0 then
          assert where[matches[0]] == whereVal;
          Failure(ColumnNotFound(setCol))
        else Success((t, 0))
      else
        var t' := t.(data := t.data[setCol := Overwrite(t.data[setCol], where, whereVal, newVal)]);
        assert |t.columns| > 0;
        assert Height(t') == Height(t) by {
          if t.columns[0] != setCol {
            assert t'.data[t.columns[0]] == t.data[t.columns[0]];
          }
        }
        Success((t', |matches|))
  }

  // ---------------------------------------------------------------- delete

  /** `delete_rows` on the table: the rows whose `column` cell equals `value`
      leave every column; the others keep their relative order. The number
      reported is the number of rows removed. */
  function Delete(t: Table, column: string, value: string): (r: Result<(Table, nat)>)
    requires Valid(t)
    ensures r.Failure? <==> column !in t.data
    ensures r.Failure? ==> r.error == ColumnNotFound(column)
    ensures r.Success? ==> r.value.0.columns == t.columns && Valid(r.value.0)
    ensures r.Success? ==> r.value.1 == |Positions(t.data[column], value, true)|
    ensures r.Success? ==> Height(r.value.0) + r.value.1 == Height(t)
    ensures r.Success? ==>
              var keep := Positions(t.data[column], value, false);
              Height(r.value.0) == |keep|
              && forall k :: 0 <= k < |keep| ==> Row(r.value.0, k) == Row(t, keep[k])
    ensures r.Success? ==> forall k :: 0 <= k < Height(r.value.0) ==> r.value.0.data[column][k] != value
  {
    if column !in t.data then Failure(ColumnNotFound(column))
    else
      var keep := Positions(t.data[column], value, false);
      PositionsPartition(t.data[column], value);
      Success((PickRows(t, keep), |Positions(t.data[column], value, true)|))
  }

  /** The table holding only the rows at `ixs`, in that order. */
  function PickRows(t: Table, ixs: seq<nat>): (r: Table)
    requires Valid(t) && |t.columns| > 0
    requires forall k :: 0 <= k < |ixs| ==> ixs[k] < Height(t)
    ensures r.columns == t.columns && Valid(r) && Height(r) == |ixs|
    ensures forall c :: c in t.data ==> c in r.data && r.data[c] == Pick(t.data[c], ixs)
    ensures forall k :: 0 <= k < |ixs| ==> Row(r, k) == Row(t, ixs[k])
  {
    var r := t.(data := map c | c in t.data :: Pick(t.data[c], ixs));
    assert r.data[t.columns[0]] == Pick(t.data[t.columns[0]], ixs);
    forall k | 0 <= k < |ixs| ensures Row(r, k) == Row(t, ixs[k]) {
      forall j | 0 <= j < |t.columns| ensures Row(r, k)[j] == Row(t, ixs[k])[j] {
        assert r.data[t.columns[j]] == Pick(t.data[t.columns[j]], ixs);
      }
    }
    r
  }

  /** Deleting keeps the primary-key and unique columns free of duplicates. */
  lemma {:induction false} DeleteKeepsUnique(t: Table, meta: TableMetadata, column: string, value: string)
    requires Valid(t) && UniqueIn(t, meta) && Delete(t, column, value).Success?
    ensures UniqueIn(Delete(t, column, value).value.0, meta)
  {
    var r := Delete(t, column, value).value.0;
    var keep := Positions(t.data[column], value, false);
    forall c | c in r.data && Constrained(meta, c) ensures Distinct(r.data[c]) {
      PickDistinct(t.data[c], keep);
    }
  }

  // ---------------------------------------------------------------- reads

  /** What a read prints: the header line's names and one tuple per row. */
  datatype Listing = Listing(headers: seq<string>, rows: seq<seq<string>>)

  /** The sort key `lambda x: x[k]`. */
  function CellKey(k: nat): seq<string> -> string
  {
    (row: seq<string>) => if k < |row| then row[k] else ""
  }

  /** The first of `names` that is not a column, if any. */
  function FirstMissing(t: Table, names: seq<string>): (r: Option<string>)
    ensures r.Some? ==> r.value in names && r.value !in t.data
    ensures r.None? <==> forall h :: h in names ==> h in t.data
  {
    if |names| == 0 then None
    else if names[0] !in t.data then Some(names[0])
    else FirstMissing(t, names[1..])
  }

  /** The names listed: the selected columns, or all columns when none are
      selected. */
  function Headers(t: Table, selected: seq<string>): seq<string>
  {
    if |selected| > 0 then selected else t.columns
  }

  /** Stable sort on the ORDER BY position, then the LIMIT cut: the rows
      kept are the first ones of the sorted order. */
  function Arrange(rows: seq<seq<string>>, key: Option<nat>, limit: Option<int>): (out: seq<seq<string>>)
    ensures |out| == (if limit.Some? then Kept(|rows|, limit.value) else |rows|)
    ensures key.Some? ==> SortedBy(out, CellKey(key.value))
    ensures key.Some? ==> out == SortBy(rows, CellKey(key.value))[..|out|]
    ensures key.None? ==> out == rows[..|out|]
    ensures multiset(out) <= multiset(rows)
    ensures limit.None? ==> multiset(out) == multiset(rows)
  {
    var sorted := if key.Some? then SortBy(rows, CellKey(key.value)) else rows;
    var out := if limit.Some? then Take(sorted, limit.value) else sorted;
    out
  }

  /** The rows at `ixs`, projected onto `headers`, then arranged. */
  function Selection(t: Table, headers: seq<string>, ixs: seq<nat>, key: Option<nat>, limit: Option<int>)
    : (rows: seq<seq<string>>)
    requires Valid(t)
    requires forall h :: h in headers ==> h in t.data
    requires forall k :: 0 <= k < |ixs| ==> ixs[k] < Height(t)
    ensures |rows| == (if limit.Some? then Kept(|ixs|, limit.value) else |ixs|)
    ensures forall row :: row in rows ==> exists k :: 0 <= k < |ixs| && row == Project(t, headers, ixs[k])
    ensures key.Some? ==> SortedBy(rows, CellKey(key.value))
    ensures key.Some? ==> rows == SortBy(Projected(t, headers, ixs), CellKey(key.value))[..|rows|]
    ensures key.None? ==> forall k :: 0 <= k < |rows| ==> rows[k] == Project(t, headers, ixs[k])
    ensures multiset(rows) <= multiset(Projected(t, headers, ixs))
    ensures limit.None? ==> multiset(rows) == multiset(Projected(t, headers, ixs))
  {
    var all := Projected(t, headers, ixs);
    var rows := Arrange(all, key, limit);
    ProjectedFrom(t, headers, ixs);
    SubMultisetIn(rows, all);
    rows
  }

  /** `read_table` on a present table: every selected column must exist;
      ORDER BY is ignored when it names no column of the table and must
      then be among the selected columns. An empty `orderBy` means none and
      an empty `selected` means every column. */
  function ReadTable(t: Table, selected: seq<string>, orderBy: string, limit: Option<int>): (r: Result<Listing>)
    requires Valid(t)
    ensures r.Failure? <==>
              (exists h :: h in Headers(t, selected) && h !in t.data)
              || (orderBy != "" && orderBy in t.data && orderBy !in Headers(t, selected))
    ensures (exists h :: h in Headers(t, selected) && h !in t.data) ==> r.Failure? && r.error.ColumnNotFound?
    ensures r.Success? ==> r.value.headers == Headers(t, selected)
    ensures r.Success? ==>
              |r.value.rows| == (if limit.Some? then Kept(Height(t), limit.value) else Height(t))
    ensures r.Success? ==>
              forall row :: row in r.value.rows ==>
                exists i :: 0 <= i < Height(t) && row == Project(t, r.value.headers, i)
    ensures r.Success? && orderBy != "" && orderBy in t.data ==>
              var key := CellKey(IndexOf(r.value.headers, orderBy));
              SortedBy(r.value.rows, key)
              && r.value.rows == SortBy(Projected(t, r.value.headers, Range(Height(t))), key)[..|r.value.rows|]
    ensures r.Success? && (orderBy == "" || orderBy !in t.data) ==>
              forall k :: 0 <= k < |r.value.rows| ==> r.value.rows[k] == Project(t, r.value.headers, k)
    ensures r.Success? ==> multiset(r.value.rows) <= multiset(Projected(t, r.value.headers, Range(Height(t))))
    ensures r.Success? && limit.None? ==>
              multiset(r.value.rows) == multiset(Projected(t, r.value.headers, Range(Height(t))))
  {
    var headers := Headers(t, selected);
    match FirstMissing(t, headers)
    case Some(h) => Failure(ColumnNotFound(h))
    case None => ReadAll(t, headers, orderBy, limit)
  }

  /** `read_table` once every listed name is a column: an ORDER BY column
      that is not listed fails; otherwise every row is projected, sorted
      when ORDER BY names a column, and cut at the limit. */
  function ReadAll(t: Table, headers: seq<string>, orderBy: string, limit: Option<int>): (r: Result<Listing>)
    requires Valid(t) && forall h :: h in headers ==> h in t.data
    ensures r.Failure? <==> orderBy != "" && orderBy in t.data && orderBy !in headers
    ensures r.Failure? ==> r.error == OrderByNotSelected(orderBy)
    ensures r.Success? ==> r.value.headers == headers
    ensures r.Success? ==>
              |r.value.rows| == (if limit.Some? then Kept(Height(t), limit.value) else Height(t))
    ensures r.Success? ==>
              forall row :: row in r.value.rows ==>
                exists i :: 0 <= i < Height(t) && row == Project(t, headers, i)
    ensures r.Success? && orderBy != "" && orderBy in t.data ==>
              var key := CellKey(IndexOf(headers, orderBy));
              SortedBy(r.value.rows, key)
              && r.value.rows == SortBy(Projected(t, headers, Range(Height(t))), key)[..|r.value.rows|]
    ensures r.Success? && (orderBy == "" || orderBy !in t.data) ==>
              forall k :: 0 <= k < |r.value.rows| ==> r.value.rows[k] == Project(t, headers, k)
    ensures r.Success? ==> multiset(r.value.rows) <= multiset(Projected(t, headers, Range(Height(t))))
    ensures r.Success? && limit.None? ==>
              multiset(r.value.rows) == multiset(Projected(t, headers, Range(Height(t))))
  {
    var ixs := Range(Height(t));
    if orderBy != "" && orderBy in t.data then
      if orderBy !in headers then Failure(OrderByNotSelected(orderBy))
      else Success(Listing(headers, Selection(t, headers, ixs, Some(IndexOf(headers, orderBy)), limit)))
    else Success(Listing(headers, Selection(t, headers, ixs, None, limit)))
  }

  /** `read_table_with_condition` on a present table: the WHERE column, the
      selected columns and the ORDER BY column are checked in that order;
      then the rows whose WHERE cell equals `value` are kept, projected,
      stably sorted on the ORDER BY column and cut at the limit. */
  function ReadWhere(t: Table, column: string, value: string, selected: seq<string>, orderBy: string, limit: Option<int>)
    : (r: Result<Listing>)
    requires Valid(t)
    ensures r.Failure? <==>
              column !in t.data
              || (exists h :: h in Headers(t, selected) && h !in t.data)
              || (orderBy != "" && orderBy !in Headers(t, selected))
    ensures column !in t.data ==> r == Failure(ColumnNotFound(column))
    ensures r.Success? ==> r.value.headers == Headers(t, selected)
    ensures r.Success? ==>
              var n := |Positions(t.data[column], value, true)|;
              |r.value.rows| == (if limit.Some? then Kept(n, limit.value) else n)
    ensures r.Success? ==>
              forall row :: row in r.value.rows ==>
                exists i :: 0 <= i < Height(t) && t.data[column][i] == value && row == Project(t, r.value.headers, i)
    ensures r.Success? && orderBy != "" ==>
              var key := CellKey(IndexOf(r.value.headers, orderBy));
              SortedBy(r.value.rows, key)
              && r.value.rows
                 == SortBy(Projected(t, r.value.headers, Positions(t.data[column], value, true)), key)[..|r.value.rows|]
    ensures r.Success? && orderBy == "" ==>
              var ixs := Positions(t.data[column], value, true);
              forall k :: 0 <= k < |r.value.rows| ==> r.value.rows[k] == Project(t, r.value.headers, ixs[k])
    ensures r.Success? ==>
              multiset(r.value.rows)
              <= multiset(Projected(t, r.value.headers, Positions(t.data[column], value, true)))
    ensures r.Success? && limit.None? ==>
              multiset(r.value.rows)
              == multiset(Projected(t, r.value.headers, Positions(t.data[column], value, true)))
  {
    var headers := Headers(t, selected);
    if column !in t.data then Failure(ColumnNotFound(column))
    else match FirstMissing(t, headers)
      case Some(h) => Failure(ColumnNotFound(h))
      case None =>
        if orderBy != "" && orderBy !in t.data then Failure(ColumnNotFound(orderBy))
        else
          var ixs := Positions(t.data[column], value, true);
          if orderBy != "" then
            if orderBy !in headers then Failure(OrderByNotSelected(orderBy))
            else Success(Listing(headers, Selection(t, headers, ixs, Some(IndexOf(headers, orderBy)), limit)))
          else Success(Listing(headers, Selection(t, headers, ixs, None, limit)))
  }

  /** Rows of a listing that share an ORDER BY value come out in table
      order: for every sort value, the listed rows with that value are the
      first of the table's rows with that value, all of them when there is
      no limit. */
  lemma {:induction false} ReadTableStable(t: Table, selected: seq<string>, orderBy: string, limit: Option<int>,
                                           k: string)
    requires Valid(t)
    requires ReadTable(t, selected, orderBy, limit).Success?
    requires orderBy != "" && orderBy in t.data
    ensures var r := ReadTable(t, selected, orderBy, limit).value;
            var key := CellKey(IndexOf(r.headers, orderBy));
            var all := Matching(Projected(t, r.headers, Range(Height(t))), key, k);
            Matching(r.rows, key, k) <= all && (limit.None? ==> Matching(r.rows, key, k) == all)
  {
    var r := ReadTable(t, selected, orderBy, limit).value;
    var key := CellKey(IndexOf(r.headers, orderBy));
    var rows := Projected(t, r.headers, Range(Height(t)));
    SortByStable(rows, key, k);
    MatchingPrefix(SortBy(rows, key), |r.rows|, key, k);
  }

  /** The same for a filtered read: among the rows whose WHERE cell matches,
      those sharing an ORDER BY value keep table order. */
  lemma {:induction false} ReadWhereStable(t: Table, column: string, value: string, selected: seq<string>,
                                           orderBy: string, limit: Option<int>, k: string)
    requires Valid(t)
    requires ReadWhere(t, column, value, selected, orderBy, limit).Success?
    requires orderBy != ""
    ensures var r := ReadWhere(t, column, value, selected, orderBy, limit).value;
            var key := CellKey(IndexOf(r.headers, orderBy));
            var all := Matching(Projected(t, r.headers, Positions(t.data[column], value, true)), key, k);
            Matching(r.rows, key, k) <= all && (limit.None? ==> Matching(r.rows, key, k) == all)
  {
    var r := ReadWhere(t, column, value, selected, orderBy, limit).value;
    var key := CellKey(IndexOf(r.headers, orderBy));
    var rows := Projected(t, r.headers, Positions(t.data[column], value, true));
    SortByStable(rows, key, k);
    MatchingPrefix(SortBy(rows, key), |r.rows|, key, k);
  }
}
