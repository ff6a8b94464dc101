/** table_manager.py: the state a `TableManager` keeps — the data and
    metadata files, the cached tables and metadata, the lock map — and the
    schema operations on it. Files are strings keyed by table name; a
    missing key is a missing file. */
module TableManager {
  import opened Base
  import opened Text
  import opened Schema
  import opened Tables
  import opened Storage

  /** `table_locks`: the lock of each table name, identified by a number;
      `next` is the number the next new lock gets. */
  datatype LockTable = LockTable(ids: map<string, nat>, next: nat)

  /** Every lock handed out so far has a number below `next`, and no two
      names share a lock. */
  predicate LocksFresh(l: LockTable)
  {
    && (forall n :: n in l.ids ==> l.ids[n] < l.next)
    && (forall a, b :: a in l.ids && b in l.ids && a != b ==> l.ids[a] != l.ids[b])
  }

  /** `get_table_lock`: the table's lock, created on first request. */
  function GetLock(l: LockTable, table: string): (r: (LockTable, nat))
    ensures table in r.0.ids && r.0.ids[table] == r.1
    ensures table in l.ids ==> r == (l, l.ids[table])
    ensures table !in l.ids ==> r.0.ids - {table} == l.ids
    ensures LocksFresh(l) ==> LocksFresh(r.0)
    ensures LocksFresh(l) && table !in l.ids ==> forall n :: n in l.ids ==> l.ids[n] != r.1
  {
    if table in l.ids then (l, l.ids[table])
    else
      var ids := l.ids[table := l.next];
      assert ids - {table} == l.ids;
      (LockTable(ids, l.next + 1), l.next)
  }

  /** Asking twice gives the same lock and changes nothing the second time. */
  lemma GetLockIdempotent(l: LockTable, table: string)
    ensures GetLock(GetLock(l, table).0, table) == GetLock(l, table)
  {
  }

  /** Different tables get different locks. */
  lemma {:induction false} GetLockDistinct(l: LockTable, a: string, b: string)
    requires LocksFresh(l) && a != b
    ensures var (l1, x) := GetLock(l, a);
            var (_, y) := GetLock(l1, b);
            x != y
  {
    var (l1, x) := GetLock(l, a);
    var (l2, y) := GetLock(l1, b);
    assert l1.ids[a] == x && l2.ids[b] == y && l2.ids[a] == x;
  }

  /** A `TableManager`. */
  datatype Manager = Manager(
    files: map<string, string>,               // data/<table>.txt
    metaFiles: map<string, string>,           // data/<table>.meta.txt
    tableData: map<string, Table>,            // table_data
    tableMetadata: map<string, TableMetadata>, // table_metadata
    locks: LockTable)                         // table_locks

  /** Every cached table is aligned. */
  predicate CacheValid(m: Manager)
  {
    forall n :: n in m.tableData ==> Valid(m.tableData[n])
  }

  function Get<V>(m: map<string, V>, k: string): (r: Option<V>)
    ensures r.Some? <==> k in m
    ensures r.Some? ==> r.value == m[k]
  {
    if k in m then Some(m[k]) else None
  }

  /** The first of `keys` that is not in `columns`. */
  function FirstNotIn(keys: seq<string>, columns: seq<string>): (r: Option<string>)
    ensures r.Some? ==> r.value in keys && r.value !in columns
    ensures r.None? <==> forall k :: k in keys ==> k in columns
  {
    if |keys| == 0 then None
    else if keys[0] !in columns then Some(keys[0])
    else FirstNotIn(keys[1..], columns)
  }

  // ------------------------------------------------------------- metadata

  /** `get_table_metadata`: the cached metadata, loaded from the metadata
      file (or made empty when there is none) on first request. */
  function GetMetadata(m: Manager, table: string): (r: (Manager, TableMetadata))
    ensures table in r.0.tableMetadata && r.0.tableMetadata[table] == r.1
    ensures table in m.tableMetadata ==> r == (m, m.tableMetadata[table])
    ensures table !in m.tableMetadata ==> r.1 == LoadMetadata(Get(m.metaFiles, table))
    ensures r.0 == m.(tableMetadata := r.0.tableMetadata)
    ensures r.0.tableMetadata - {table} == m.tableMetadata - {table}
  {
    if table in m.tableMetadata then (m, m.tableMetadata[table])
    else
      var meta := LoadMetadata(Get(m.metaFiles, table));
      (m.(tableMetadata := m.tableMetadata[table := meta]), meta)
  }

  /** A second request is answered from the cache, with the same value. */
  lemma GetMetadataIdempotent(m: Manager, table: string)
    ensures GetMetadata(GetMetadata(m, table).0, table) == GetMetadata(m, table)
  {
  }

  // ------------------------------------------------------- create and drop

  /** Only the entries of `table` may differ between the two states. */
  predicate OthersUnchanged(m: Manager, r: Manager, table: string)
  {
    && r.files - {table} == m.files - {table}
    && r.metaFiles - {table} == m.metaFiles - {table}
    && r.tableData - {table} == m.tableData - {table}
    && r.tableMetadata - {table} == m.tableMetadata - {table}
    && r.locks == m.locks
  }

  /** The data file of `table` holds what the cached table writes. */
  predicate DataPersisted(m: Manager, table: string)
  {
    table in m.tableData && Valid(m.tableData[table])
    && table in m.files && m.files[table] == Format(m.tableData[table])
  }

  /** The metadata file of `table` holds what the cached metadata writes. */
  predicate MetaPersisted(m: Manager, table: string)
  {
    table in m.tableMetadata && table in m.metaFiles
    && m.metaFiles[table] == EncodeMetadata(m.tableMetadata[table])
  }

  /** Every cached unique-key set is duplicate-free. */
  predicate MetadataValid(m: Manager)
  {
    forall n :: n in m.tableMetadata ==> Distinct(m.tableMetadata[n].uniqueKeys)
  }

  /** `table_data[table] = t` followed by `_persist_table(table)`. */
  function StoreTable(m: Manager, table: string, t: Table): (r: Manager)
    requires Valid(t)
    ensures DataPersisted(r, table) && r.tableData[table] == t
    ensures OthersUnchanged(m, r, table)
    ensures r.metaFiles == m.metaFiles && r.tableMetadata == m.tableMetadata
    ensures CacheValid(m) ==> CacheValid(r)
  {
    m.(tableData := m.tableData[table := t], files := m.files[table := Format(t)])
  }

  /** `table_metadata[table] = meta` followed by `_save_metadata(table)`. */
  function StoreMetadata(m: Manager, table: string, meta: TableMetadata): (r: Manager)
    ensures MetaPersisted(r, table) && r.tableMetadata[table] == meta
    ensures OthersUnchanged(m, r, table)
    ensures r.files == m.files && r.tableData == m.tableData
    ensures MetadataValid(m) && Distinct(meta.uniqueKeys) ==> MetadataValid(r)
  {
    m.(tableMetadata := m.tableMetadata[table := meta], metaFiles := m.metaFiles[table := EncodeMetadata(meta)])
  }

  /** The cached table and metadata of `table` replaced and both files
      written. */
  function StoreBoth(m: Manager, table: string, t: Table, meta: TableMetadata): (r: Manager)
    requires Valid(t)
    ensures DataPersisted(r, table) && MetaPersisted(r, table)
    ensures r.tableData[table] == t && r.tableMetadata[table] == meta
    ensures OthersUnchanged(m, r, table)
    ensures CacheValid(m) ==> CacheValid(r)
    ensures MetadataValid(m) && Distinct(meta.uniqueKeys) ==> MetadataValid(r)
  {
    StoreMetadata(StoreTable(m, table, t), table, meta)
  }

  /** The cached table of `table` replaced, with no file written. */
  function CacheOnly(m: Manager, table: string, t: Table): (r: Manager)
    requires CacheValid(m) && Valid(t)
    ensures CacheValid(r) && OthersUnchanged(m, r, table)
    ensures table in r.tableData && r.tableData[table] == t
    ensures r.files == m.files && r.metaFiles == m.metaFiles && r.tableMetadata == m.tableMetadata
  {
    m.(tableData := m.tableData[table := t])
  }

  /** The state after a successful `create_table`: the header line is
      written as given, repeated names included; the empty table and the
      metadata are cached, and the metadata file is written. */
  function Created(m: Manager, table: string, columns: seq<string>, primaryKey: string, uniqueKeys: seq<string>)
    : (n: Manager)
    ensures table in n.files && n.files[table] == LinesText([Join(columns, ',')])
    ensures Distinct(columns) ==> DataPersisted(n, table)
    ensures MetaPersisted(n, table)
    ensures table in n.tableData && Valid(n.tableData[table]) && Height(n.tableData[table]) == 0
    ensures forall c :: c in n.tableData[table].columns <==> c in columns
    ensures Distinct(columns) ==> n.tableData[table].columns == columns
    ensures n.tableMetadata[table].primaryKey == Some(primaryKey)
    ensures forall k :: k in n.tableMetadata[table].uniqueKeys <==> k in uniqueKeys
    ensures OthersUnchanged(m, n, table)
    ensures CacheValid(m) ==> CacheValid(n)
    ensures MetadataValid(m) ==> MetadataValid(n)
  {
    var s := StoreBoth(m, table, EmptyTable(columns), MakeMetadata(primaryKey, uniqueKeys));
    assert Distinct(columns) ==> Format(EmptyTable(columns)) == LinesText([Join(columns, ',')]) by {
      if Distinct(columns) { EmptyFormat(columns); }
    }
    WriteFile(s, table, LinesText([Join(columns, ',')]))
  }

  /** Writing one data file; nothing else changes. */
  function WriteFile(m: Manager, table: string, text: string): (r: Manager)
    ensures table in r.files && r.files[table] == text
    ensures r.files - {table} == m.files - {table}
    ensures r.metaFiles == m.metaFiles && r.tableData == m.tableData
    ensures r.tableMetadata == m.tableMetadata && r.locks == m.locks
  {
    m.(files := m.files[table := text])
  }

  /** With distinct names, the header line is what `_persist_table` writes
      for the empty table. */
  lemma EmptyFormat(columns: seq<string>)
    requires Distinct(columns)
    ensures Format(EmptyTable(columns)) == LinesText([Join(columns, ',')])
  {
    assert FormatLines(EmptyTable(columns)) == [Join(columns, ',')];
  }

  /** `create_table`: refused when the data file exists, when the primary key
      is not a column, or when a unique key is not a column (the first such
      key in `uniqueKeys` is named). Otherwise the header line is written,
      an empty table and the metadata are cached and the metadata file is
      written; nothing else changes. */
  function CreateTable(m: Manager, table: string, columns: seq<string>, primaryKey: string, uniqueKeys: seq<string>)
    : (r: Result<Manager>)
    ensures r.Failure? <==>
              table in m.files || primaryKey !in columns || exists k :: k in uniqueKeys && k !in columns
    ensures table in m.files ==> r == Failure(TableExists(table))
    ensures table !in m.files && primaryKey !in columns ==> r == Failure(PrimaryKeyNotColumn(primaryKey))
    ensures table !in m.files && primaryKey in columns && r.Failure? ==>
              r.error.UniqueKeyNotColumn? && r.error.key in uniqueKeys && r.error.key !in columns
    ensures r.Success? ==> r.value == Created(m, table, columns, primaryKey, uniqueKeys)
  {
    if table in m.files then Failure(TableExists(table))
    else if primaryKey !in columns then Failure(PrimaryKeyNotColumn(primaryKey))
    else match FirstNotIn(uniqueKeys, columns)
      case Some(k) => Failure(UniqueKeyNotColumn(k))
      case None => Success(Created(m, table, columns, primaryKey, uniqueKeys))
  }

  /** A created table with plain column names loads back from its data file
      as the empty table that was cached, also when a name is repeated. */
  lemma {:induction false} CreateThenLoad(m: Manager, table: string, columns: seq<string>, primaryKey: string,
                                          uniqueKeys: seq<string>)
    requires CreateTable(m, table, columns, primaryKey, uniqueKeys).Success?
    requires forall c :: c in columns ==> PlainCell(c)
    ensures var n := CreateTable(m, table, columns, primaryKey, uniqueKeys).value;
            Parse(table, n.files[table]) == Success(n.tableData[table])
  {
    var n := CreateTable(m, table, columns, primaryKey, uniqueKeys).value;
    assert primaryKey in columns;
    assert n.tableData[table] == EmptyTable(columns);
    HeaderRoundTrip(table, columns);
  }

  /** The metadata file of a created table, read back, gives the cached
      metadata when the key names are plain. */
  lemma {:induction false} CreateThenLoadMetadata(m: Manager, table: string, columns: seq<string>,
                                                  primaryKey: string, uniqueKeys: seq<string>)
    requires CreateTable(m, table, columns, primaryKey, uniqueKeys).Success?
    requires PlainName(primaryKey) && forall k :: k in uniqueKeys ==> PlainName(k)
    ensures var n := CreateTable(m, table, columns, primaryKey, uniqueKeys).value;
            DecodeMetadata(n.metaFiles[table]) == n.tableMetadata[table]
            && GetMetadata(n, table).1 == MakeMetadata(primaryKey, uniqueKeys)
  {
    var meta := MakeMetadata(primaryKey, uniqueKeys);
    MetadataRoundTrip(meta);
  }

  /** `drop_table`: refused when the data file is missing; otherwise both
      files, the cached table, the cached metadata and the lock go. */
  function DropTable(m: Manager, table: string): (r: Result<Manager>)
    ensures r.Failure? <==> table !in m.files
    ensures r.Failure? ==> r.error == TableNotFound(table)
    ensures r.Success? ==>
              && table !in r.value.files && table !in r.value.metaFiles && table !in r.value.tableData
              && table !in r.value.tableMetadata && table !in r.value.locks.ids
    ensures r.Success? ==>
              && r.value.files == m.files - {table}
              && r.value.metaFiles == m.metaFiles - {table}
              && r.value.tableData == m.tableData - {table}
              && r.value.tableMetadata == m.tableMetadata - {table}
              && r.value.locks.ids == m.locks.ids - {table}
  {
    if table !in m.files then Failure(TableNotFound(table))
    else Success(Manager(m.files - {table}, m.metaFiles - {table}, m.tableData - {table},
                         m.tableMetadata - {table}, m.locks.(ids := m.locks.ids - {table})))
  }

  /** Dropping a table that was just created leaves no trace of it. */
  lemma CreateThenDrop(m: Manager, table: string, columns: seq<string>, primaryKey: string, uniqueKeys: seq<string>)
    requires CreateTable(m, table, columns, primaryKey, uniqueKeys).Success?
    requires table !in m.locks.ids
    ensures var n := DropTable(CreateTable(m, table, columns, primaryKey, uniqueKeys).value, table);
            n.Success? && n.value == m.(metaFiles := m.metaFiles - {table},
                                       tableData := m.tableData - {table},
                                       tableMetadata := m.tableMetadata - {table})
  {
    var n := Created(m, table, columns, primaryKey, uniqueKeys);
    assert m.files - {table} == m.files;
    assert m.locks.ids - {table} == m.locks.ids;
    assert OthersUnchanged(m, n, table);
    assert n.locks.(ids := n.locks.ids - {table}) == m.locks;
  }

  // -------------------------------------------------------------- describe

  /** One line of `describe_table`: a column and whether it is flagged
      PRIMARY KEY and UNIQUE. */
  datatype ColumnFlags = ColumnFlags(column: string, primaryKey: bool, unique: bool)

  /** `_load_table_to_memory`: when the data file exists and has a line,
      the cached table is replaced by the header's columns with no rows;
      otherwise nothing changes. */
  function LoadHeaderOnly(m: Manager, table: string): (r: Manager)
    ensures (table !in m.files || Header(m.files[table]).None?) ==> r == m
    ensures table in m.files && Header(m.files[table]).Some? ==>
              && r == m.(tableData := r.tableData)
              && r.tableData - {table} == m.tableData - {table}
              && table in r.tableData && Valid(r.tableData[table]) && Height(r.tableData[table]) == 0
              && r.tableData[table] == EmptyTable(Header(m.files[table]).value)
    ensures CacheValid(m) ==> CacheValid(r)
    ensures r.files == m.files && r.metaFiles == m.metaFiles && r.tableMetadata == m.tableMetadata
    ensures MetadataValid(m) ==> MetadataValid(r)
  {
    if table !in m.files then m
    else match Header(m.files[table])
      case None => m
      case Some(header) => m.(tableData := m.tableData[table := EmptyTable(header)])
  }

  /** The flags of `columns` under `meta`. */
  function Flags(columns: seq<string>, meta: TableMetadata): (r: seq<ColumnFlags>)
    ensures |r| == |columns|
    ensures forall j :: 0 <= j < |r| ==>
              r[j].column == columns[j]
              && (r[j].primaryKey <==> meta.primaryKey == Some(columns[j]))
              && (r[j].unique <==> columns[j] in meta.uniqueKeys)
  {
    if |columns| == 0 then []
    else Flags(columns[..|columns| - 1], meta)
         + [ColumnFlags(Last(columns), meta.primaryKey == Some(Last(columns)), Last(columns) in meta.uniqueKeys)]
  }

  /** `describe_table`: the table is loaded (header only) if not cached, its
      metadata fetched, and each column listed with its flags. */
  function Describe(m: Manager, table: string): (r: (Manager, Result<seq<ColumnFlags>>))
    ensures var m1 := if table !in m.tableData then LoadHeaderOnly(m, table) else m;
            var (m2, meta) := GetMetadata(m1, table);
            && r.0 == m2
            && (r.1.Failure? <==> table !in m2.tableData || |m2.tableData[table].columns| == 0)
            && (r.1.Failure? ==> r.1.error == TableNotFound(table))
            && (r.1.Success? ==>
                  var cols := m2.tableData[table].columns;
                  |r.1.value| == |cols|
                  && forall j :: 0 <= j < |cols| ==>
                       r.1.value[j].column == cols[j]
                       && (r.1.value[j].primaryKey <==> meta.primaryKey == Some(cols[j]))
                       && (r.1.value[j].unique <==> cols[j] in meta.uniqueKeys))
  {
    var m1 := if table !in m.tableData then LoadHeaderOnly(m, table) else m;
    var (m2, meta) := GetMetadata(m1, table);
    if table !in m2.tableData || |m2.tableData[table].columns| == 0 then (m2, Failure(TableNotFound(table)))
    else (m2, Success(Flags(m2.tableData[table].columns, meta)))
  }

  /** With the table and its metadata cached, describing changes nothing
      and lists the flags of the cached columns. */
  lemma DescribeCached(m: Manager, table: string)
    requires table in m.tableData && table in m.tableMetadata && |m.tableData[table].columns| > 0
    ensures Describe(m, table) == (m, Success(Flags(m.tableData[table].columns, m.tableMetadata[table])))
  {
  }

  /** Right after a table is created, describing it flags exactly the
      primary-key column as PRIMARY KEY, and exactly the declared unique
      keys as UNIQUE. */
  lemma {:induction false} DescribeAfterCreate(m: Manager, table: string, columns: seq<string>,
                                               primaryKey: string, uniqueKeys: seq<string>)
    requires CreateTable(m, table, columns, primaryKey, uniqueKeys).Success?
    ensures var n := CreateTable(m, table, columns, primaryKey, uniqueKeys).value;
            var r := Describe(n, table);
            r.0 == n && r.1.Success?
            && (forall j :: 0 <= j < |r.1.value| ==>
                  (r.1.value[j].primaryKey <==> r.1.value[j].column == primaryKey)
                  && (r.1.value[j].unique <==> r.1.value[j].column in uniqueKeys))
            && (forall c :: c in columns <==> exists j :: 0 <= j < |r.1.value| && r.1.value[j].column == c)
  {
    var n := Created(m, table, columns, primaryKey, uniqueKeys);
    assert CreateTable(m, table, columns, primaryKey, uniqueKeys).value == n;
    var cols := n.tableData[table].columns;
    assert primaryKey in cols;
    DescribeCached(n, table);
    DeclaredFlags(cols, n.tableMetadata[table], columns, primaryKey, uniqueKeys);
  }

  lemma DeclaredFlags(cols: seq<string>, meta: TableMetadata, columns: seq<string>,
                      primaryKey: string, uniqueKeys: seq<string>)
    requires forall c :: c in cols <==> c in columns
    requires meta.primaryKey == Some(primaryKey)
    requires forall k :: k in meta.uniqueKeys <==> k in uniqueKeys
    ensures var flags := Flags(cols, meta);
            && (forall j :: 0 <= j < |flags| ==>
                  (flags[j].primaryKey <==> flags[j].column == primaryKey)
                  && (flags[j].unique <==> flags[j].column in uniqueKeys))
            && (forall c :: c in columns <==> exists j :: 0 <= j < |flags| && flags[j].column == c)
  {
    var flags := Flags(cols, meta);
    forall c | c in columns ensures exists j :: 0 <= j < |flags| && flags[j].column == c {
      var j := IndexOf(cols, c);
      assert flags[j].column == c;
    }
  }

  // ------------------------------------------------- ALTER on one table

  /** `alter_add_column` on the table: refused when the column exists or the
      table has no column to take the length from; otherwise the new
      column, filled with empty cells, goes last. */
  function AddColumn(t: Table, column: string): (r: Result<Table>)
    requires Valid(t)
    ensures column in t.data ==> r == Failure(ColumnExists(column))
    ensures column !in t.data && |t.columns| == 0 ==> r == Failure(NoColumns)
    ensures r.Success? <==> column !in t.data && |t.columns| > 0
    ensures r.Success? ==>
              && r.value.columns == t.columns + [column]
              && Valid(r.value) && Height(r.value) == Height(t)
              && (forall i :: 0 <= i < Height(t) ==> r.value.data[column][i] == "")
              && (forall c :: c in t.data ==> r.value.data[c] == t.data[c])
  {
    if column in t.data then Failure(ColumnExists(column))
    else if |t.columns| == 0 then Failure(NoColumns)
    else Success(WithColumn(t, column, seq(Height(t), _ => "")))
  }

  /** The table with a column `name` holding `cells` added last. */
  function WithColumn(t: Table, name: string, cells: seq<string>): (r: Table)
    requires Valid(t) && name !in t.data && (|t.columns| == 0 || |cells| == Height(t))
    ensures r.columns == t.columns + [name] && r.data == t.data[name := cells]
    ensures Valid(r) && Height(r) == |cells|
  {
    var r := Table(t.columns + [name], t.data[name := cells]);
    assert r.columns[0] == if |t.columns| == 0 then name else t.columns[0];
    r
  }

  /** The table with `column` cut out of the key list and the dict. */
  function WithoutColumn(t: Table, column: string): (r: Table)
    requires Valid(t) && column in t.data
    ensures r.columns == RemoveAt(t.columns, IndexOf(t.columns, column))
    ensures column !in r.data && Valid(r) && Height(r) == (if |r.columns| == 0 then 0 else Height(t))
    ensures forall c :: c in r.data ==> c in t.data && r.data[c] == t.data[c]
    ensures forall c :: c in t.data && c != column ==> c in r.data
  {
    var cols := RemoveAt(t.columns, IndexOf(t.columns, column));
    DroppedValid(t, column, cols);
    Table(cols, t.data - {column})
  }

  lemma DroppedValid(t: Table, column: string, cols: seq<string>)
    requires Valid(t) && Distinct(cols)
    requires forall c :: c in cols <==> c in t.columns && c != column
    ensures Valid(Table(cols, t.data - {column}))
    ensures Height(Table(cols, t.data - {column})) == if |cols| == 0 then 0 else Height(t)
  {
    assert |cols| > 0 ==> cols[0] in t.data;
  }

  /** The table with the cells of `oldName` moved to `newName`, which goes last. */
  function Renamed(t: Table, oldName: string, newName: string): (r: Table)
    requires Valid(t) && oldName in t.data && newName !in t.data
    ensures r.columns == RemoveAt(t.columns, IndexOf(t.columns, oldName)) + [newName]
    ensures oldName !in r.data && newName in r.data && r.data[newName] == t.data[oldName]
    ensures forall c :: c in t.data && c != oldName ==> c in r.data && r.data[c] == t.data[c]
    ensures Valid(r) && Height(r) == Height(t)
  {
    var w := WithoutColumn(t, oldName);
    var cells := t.data[oldName];
    assert |w.columns| == 0 || |cells| == Height(w);
    WithColumn(w, newName, cells)
  }

  /** `alter_drop_column` on the table and its metadata: refused for a
      missing column and for the primary-key column; otherwise the column
      leaves the table and the unique-key set, and everything else stays. */
  function DropColumn(t: Table, meta: TableMetadata, column: string): (r: Result<(Table, TableMetadata)>)
    requires Valid(t) && Distinct(meta.uniqueKeys)
    ensures column !in t.data ==> r == Failure(ColumnNotFound(column))
    ensures column in t.data && meta.primaryKey == Some(column) ==> r == Failure(PrimaryKeyDrop(column))
    ensures r.Success? <==> column in t.data && meta.primaryKey != Some(column)
    ensures r.Success? ==>
              var (t', meta') := r.value;
              && t'.columns == RemoveAt(t.columns, IndexOf(t.columns, column))
              && column !in t'.data && Valid(t') && Height(t') == (if |t'.columns| == 0 then 0 else Height(t))
              && (forall c :: c in t'.data ==> c in t.data && t'.data[c] == t.data[c])
    ensures r.Success? ==>
              var meta' := r.value.1;
              meta'.primaryKey == meta.primaryKey && Distinct(meta'.uniqueKeys)
              && (forall k :: k in meta'.uniqueKeys <==> k in meta.uniqueKeys && k != column)
  {
    if column !in t.data then Failure(ColumnNotFound(column))
    else if meta.primaryKey == Some(column) then Failure(PrimaryKeyDrop(column))
    else Success((WithoutColumn(t, column), meta.(uniqueKeys := Discard(meta.uniqueKeys, column))))
  }

  /** `alter_rename_column` on the table: refused for a missing old name
      and for a new name already present; otherwise the old column's cells
      move to the new name, which is placed LAST, since the dict entry is
      popped and inserted again. */
  function RenameColumn(t: Table, oldName: string, newName: string): (r: Result<Table>)
    requires Valid(t)
    ensures oldName !in t.data ==> r == Failure(ColumnNotFound(oldName))
    ensures oldName in t.data && newName in t.data ==> r == Failure(ColumnExists(newName))
    ensures r.Success? <==> oldName in t.data && newName !in t.data
    ensures r.Success? ==>
              && r.value.columns == RemoveAt(t.columns, IndexOf(t.columns, oldName)) + [newName]
              && oldName !in r.value.data && newName in r.value.data && r.value.data[newName] == t.data[oldName]
              && (forall c :: c in t.data && c != oldName ==> c in r.value.data && r.value.data[c] == t.data[c])
              && Valid(r.value) && Height(r.value) == Height(t)
  {
    if oldName !in t.data then Failure(ColumnNotFound(oldName))
    else if newName in t.data then Failure(ColumnExists(newName))
    else Success(Renamed(t, oldName, newName))
  }

  /** The metadata side of a rename: a primary key or unique key naming the
      old column names the new one afterwards. */
  function RenameInMetadata(meta: TableMetadata, oldName: string, newName: string): (r: TableMetadata)
    requires Distinct(meta.uniqueKeys)
    ensures meta.primaryKey == Some(oldName) ==> r.primaryKey == Some(newName)
    ensures meta.primaryKey != Some(oldName) ==> r.primaryKey == meta.primaryKey
    ensures Distinct(r.uniqueKeys)
    ensures forall k :: k in r.uniqueKeys <==>
              (k in meta.uniqueKeys && k != oldName) || (k == newName && oldName in meta.uniqueKeys)
  {
    var key := if meta.primaryKey == Some(oldName) then Some(newName) else meta.primaryKey;
    var keys := if oldName in meta.uniqueKeys then Add(Discard(meta.uniqueKeys, oldName), newName) else meta.uniqueKeys;
    TableMetadata(key, keys)
  }

  // ---------------------------------------------- ALTER on the manager

  /** What `alter_add_column` does once the reload is over: the cached table
      becomes what `AddColumn` makes of it and is written out; nothing else
      changes. A failure changes nothing. */
  function AddInCache(m: Manager, table: string, column: string): (r: (Manager, Result<()>))
    requires CacheValid(m)
    ensures CacheValid(r.0) && OthersUnchanged(m, r.0, table) && r.0.tableMetadata == m.tableMetadata
    ensures r.1.Failure? ==> r.0 == m
    ensures table !in m.tableData ==> r.1 == Failure(TableNotFound(table))
    ensures table in m.tableData && AddColumn(m.tableData[table], column).Failure? ==>
              r.1 == Failure(AddColumn(m.tableData[table], column).error)
    ensures r.1.Success? ==>
              table in m.tableData && DataPersisted(r.0, table) && r.0.metaFiles == m.metaFiles
              && AddColumn(m.tableData[table], column) == Success(r.0.tableData[table])
  {
    if table !in m.tableData then (m, Failure(TableNotFound(table)))
    else match AddColumn(m.tableData[table], column)
      case Failure(e) => (m, Failure(e))
      case Success(t) => (StoreTable(m, table, t), Success(()))
  }

  /** An ALTER that succeeds on a freshly reloaded table writes a data file
      holding the header line alone: the rows are not carried over. */
  predicate HeaderOnlyFile(m: Manager, table: string)
  {
    table in m.tableData && table in m.files && Valid(m.tableData[table]) && Height(m.tableData[table]) == 0
    && m.files[table] == LinesText([Join(m.tableData[table].columns, ',')])
  }

  lemma HeaderOnlyFormat(m: Manager, table: string)
    requires DataPersisted(m, table) && Height(m.tableData[table]) == 0
    ensures HeaderOnlyFile(m, table)
  {
    assert FormatLines(m.tableData[table]) == [Join(m.tableData[table].columns, ',')];
  }

  /** `alter_add_column`: the header-only reload, then the change. When the
      data file had a line, the new column goes after the header's columns
      and the file written has no rows. */
  function AlterAddColumn(m: Manager, table: string, column: string): (r: (Manager, Result<()>))
    requires CacheValid(m)
    ensures CacheValid(r.0)
    ensures r == AddInCache(LoadHeaderOnly(m, table), table, column)
    ensures r.1.Success? && table in m.files && Header(m.files[table]).Some? ==>
              HeaderOnlyFile(r.0, table) && Last(r.0.tableData[table].columns) == column
              && (forall c :: c in r.0.tableData[table].columns <==> c in Header(m.files[table]).value || c == column)
              && r.0.tableData[table].columns == Dedup(Header(m.files[table]).value) + [column]
  {
    var m1 := LoadHeaderOnly(m, table);
    var r := AddInCache(m1, table, column);
    if r.1.Success? && table in m.files && Header(m.files[table]).Some? then
      HeaderOnlyFormat(r.0, table);
      r
    else r
  }

  /** What `alter_drop_column` does once the reload is over: the column must
      exist, the metadata is read straight from the cache (so it must have
      been loaded before), and then the cached table and metadata become
      what `DropColumn` makes of them and both files are written out. A
      failure changes nothing. */
  function DropInCache(m: Manager, table: string, column: string): (r: (Manager, Result<()>))
    requires CacheValid(m) && MetadataValid(m)
    ensures CacheValid(r.0) && MetadataValid(r.0) && OthersUnchanged(m, r.0, table)
    ensures r.1.Failure? ==> r.0 == m
    ensures table !in m.tableData ==> r.1 == Failure(TableNotFound(table))
    ensures table in m.tableData && column !in m.tableData[table].data ==> r.1 == Failure(ColumnNotFound(column))
    ensures table in m.tableData && column in m.tableData[table].data && table !in m.tableMetadata ==>
              r.1 == Failure(MetadataNotLoaded(table))
    ensures table in m.tableData && table in m.tableMetadata
            && DropColumn(m.tableData[table], m.tableMetadata[table], column).Failure? ==>
              r.1 == Failure(DropColumn(m.tableData[table], m.tableMetadata[table], column).error)
    ensures r.1.Success? ==>
              table in m.tableData && table in m.tableMetadata
              && DataPersisted(r.0, table) && MetaPersisted(r.0, table)
              && DropColumn(m.tableData[table], m.tableMetadata[table], column)
                 == Success((r.0.tableData[table], r.0.tableMetadata[table]))
  {
    if table !in m.tableData then (m, Failure(TableNotFound(table)))
    else if column !in m.tableData[table].data then (m, Failure(ColumnNotFound(column)))
    else if table !in m.tableMetadata then (m, Failure(MetadataNotLoaded(table)))
    else
      var d := DropColumn(m.tableData[table], m.tableMetadata[table], column);
      if d.Failure? then (m, Failure(d.error))
      else (StoreBoth(m, table, d.value.0, d.value.1), Success(()))
  }

  /** `alter_drop_column`: the header-only reload, then the change. When the
      data file had a line, the file written has no rows. */
  function AlterDropColumn(m: Manager, table: string, column: string): (r: (Manager, Result<()>))
    requires CacheValid(m) && MetadataValid(m)
    ensures CacheValid(r.0) && MetadataValid(r.0)
    ensures r == DropInCache(LoadHeaderOnly(m, table), table, column)
    ensures r.1.Success? && table in m.files && Header(m.files[table]).Some? ==>
              HeaderOnlyFile(r.0, table)
              && (forall c :: c in r.0.tableData[table].columns <==> c in Header(m.files[table]).value && c != column)
              && var cols := Dedup(Header(m.files[table]).value);
                 column in cols && r.0.tableData[table].columns == RemoveAt(cols, IndexOf(cols, column))
  {
    var m1 := LoadHeaderOnly(m, table);
    var r := DropInCache(m1, table, column);
    if r.1.Success? && table in m.files && Header(m.files[table]).Some? then
      var t := m1.tableData[table];
      var i := IndexOf(t.columns, column);
      assert r.0.tableData[table].columns == RemoveAt(t.columns, i);
      HeaderOnlyFormat(r.0, table);
      r
    else r
  }

  /** What `alter_rename_column` does once the reload is over. The rename
      of the cached table happens BEFORE the metadata is read straight from
      the cache, so when the metadata was never loaded the cached table is
      renamed but nothing is written. Any other failure changes nothing. */
  function RenameInCache(m: Manager, table: string, oldName: string, newName: string): (r: (Manager, Result<()>))
    requires CacheValid(m) && MetadataValid(m)
    ensures CacheValid(r.0) && MetadataValid(r.0) && OthersUnchanged(m, r.0, table)
    ensures table !in m.tableData ==> r == (m, Failure(TableNotFound(table)))
    ensures table in m.tableData && RenameColumn(m.tableData[table], oldName, newName).Failure? ==>
              r == (m, Failure(RenameColumn(m.tableData[table], oldName, newName).error))
    ensures table in m.tableData && RenameColumn(m.tableData[table], oldName, newName).Success? ==>
              table in r.0.tableData && RenameColumn(m.tableData[table], oldName, newName) == Success(r.0.tableData[table])
    ensures table in m.tableData && table !in m.tableMetadata ==>
              r.1.Failure? && r.0.files == m.files && r.0.tableMetadata == m.tableMetadata
    ensures table in m.tableData && table !in m.tableMetadata
            && RenameColumn(m.tableData[table], oldName, newName).Success? ==>
              r.1 == Failure(MetadataNotLoaded(table))
    ensures r.1.Success? ==>
              table in m.tableMetadata && DataPersisted(r.0, table) && MetaPersisted(r.0, table)
              && r.0.tableMetadata[table] == RenameInMetadata(m.tableMetadata[table], oldName, newName)
  {
    if table !in m.tableData then (m, Failure(TableNotFound(table)))
    else
      var e := RenameColumn(m.tableData[table], oldName, newName);
      if e.Failure? then (m, Failure(e.error))
      else if table !in m.tableMetadata then
        (CacheOnly(m, table, e.value), Failure(MetadataNotLoaded(table)))
      else
        (StoreBoth(m, table, e.value, RenameInMetadata(m.tableMetadata[table], oldName, newName)), Success(()))
  }

  /** `alter_rename_column`: the header-only reload, then the change. When
      the data file had a line, the renamed column is last and the file
      written has no rows. */
  function AlterRenameColumn(m: Manager, table: string, oldName: string, newName: string): (r: (Manager, Result<()>))
    requires CacheValid(m) && MetadataValid(m)
    ensures CacheValid(r.0) && MetadataValid(r.0)
    ensures r == RenameInCache(LoadHeaderOnly(m, table), table, oldName, newName)
    ensures r.1.Success? && table in m.files && Header(m.files[table]).Some? ==>
              HeaderOnlyFile(r.0, table) && Last(r.0.tableData[table].columns) == newName
              && var cols := Dedup(Header(m.files[table]).value);
                 oldName in cols && r.0.tableData[table].columns == RemoveAt(cols, IndexOf(cols, oldName)) + [newName]
  {
    var r := RenameInCache(LoadHeaderOnly(m, table), table, oldName, newName);
    if r.1.Success? && table in m.files && Header(m.files[table]).Some? then
      RenameAfterReload(m, table, oldName, newName);
      r
    else r
  }

  /** A rename that succeeds after the header-only reload writes the header
      alone, with the new name last. */
  lemma RenameAfterReload(m: Manager, table: string, oldName: string, newName: string)
    requires CacheValid(m) && MetadataValid(m) && table in m.files && Header(m.files[table]).Some?
    requires RenameInCache(LoadHeaderOnly(m, table), table, oldName, newName).1.Success?
    ensures var r := RenameInCache(LoadHeaderOnly(m, table), table, oldName, newName).0;
            HeaderOnlyFile(r, table) && Last(r.tableData[table].columns) == newName
  {
    var m1 := LoadHeaderOnly(m, table);
    var t := m1.tableData[table];
    var r := RenameInCache(m1, table, oldName, newName).0;
    assert RenameColumn(t, oldName, newName) == Success(r.tableData[table]);
    HeaderOnlyFormat(r, table);
  }
}
