/** transaction.py: a transaction's sorted table list and the locks it
    takes, the copies of the tables it loads, the row operations on them,
    and `commit`, which writes every table back. */
module Transactions {
  import opened Base
  import opened Text
  import opened Sorting
  import opened Schema
  import opened Tables
  import opened Storage
  import opened TableManager

  /** A `Transaction`. `locks` holds the lock number of each entry of
      `tables`, in the order they were requested; `data` holds the copies a
      writing transaction loaded (a read-only one loads into the manager's
      cache instead and keeps `data` empty). */
  datatype Transaction = Transaction(tables: seq<string>, readOnly: bool, locks: seq<nat>, data: map<string, Table>)

  /** Every table the transaction holds is aligned. */
  predicate TxValid(tx: Transaction)
  {
    forall n :: n in tx.data ==> Valid(tx.data[n])
  }

  /** A data file that loads as an aligned table: its header repeats no
      name, or it has no line after the header. */
  predicate Loadable(file: string)
  {
    Header(file).Some? && |Lines(file)| > 1 ==> Distinct(Header(file).value)
  }

  /** Every data file among `names` is loadable. */
  predicate AllLoadable(m: Manager, names: seq<string>)
  {
    forall n :: n in names && n in m.files ==> Loadable(m.files[n])
  }

  /** The data file of `n` exists but holds no line. */
  predicate EmptyFileOf(m: Manager, n: string)
  {
    n in m.files && |Lines(m.files[n])| == 0
  }

  /** The tables a read sees: the manager's cache in a read-only
      transaction, the transaction's own copies otherwise. */
  function View(m: Manager, tx: Transaction): map<string, Table>
  {
    if tx.readOnly then m.tableData else tx.data
  }

  /** The table `n` in `view` is what its data file parses to, if the file exists. */
  predicate LoadedIn(files: map<string, string>, view: map<string, Table>, n: string)
  {
    n in files ==> n in view && Parse(n, files[n]) == Success(view[n])
  }

  /** The lock numbers of the first `k` tables are the manager's locks of those names. */
  predicate LocksHeld(l: LockTable, tx: Transaction, k: nat)
  {
    k <= |tx.tables| && |tx.locks| == k
    && forall j :: 0 <= j < k ==> tx.tables[j] in l.ids && l.ids[tx.tables[j]] == tx.locks[j]
  }

  lemma {:induction false} ParseLoadable(table: string, file: string)
    requires Loadable(file) && Parse(table, file).Success?
    ensures Valid(Parse(table, file).value)
  {
    assert Header(file).value == Cells(Lines(file)[0]);
    if |Lines(file)| == 1 {
      ParseHeaderOnly(table, Lines(file));
    } else {
      ParseLinesDistinct(table, Lines(file));
    }
  }

  // ----------------------------------------------------------------- begin

  /** `_load_table` on the tables it loads into: nothing happens when the
      data file is missing, an empty file fails on its first line, and
      otherwise the parsed table is stored under its name. */
  function LoadInto(files: map<string, string>, view: map<string, Table>, table: string)
    : (r: Result<map<string, Table>>)
    requires table in files ==> Loadable(files[table])
    requires forall n :: n in view ==> Valid(view[n])
    ensures r.Failure? <==> table in files && |Lines(files[table])| == 0
    ensures r.Failure? ==> r.error == EmptyFile(table)
    ensures r.Success? ==> (forall n :: n in r.value ==> Valid(r.value[n])) && LoadedIn(files, r.value, table)
    ensures r.Success? ==> forall n :: n != table ==> Get(r.value, n) == Get(view, n)
    ensures r.Success? && table !in files ==> r.value == view
  {
    if table !in files then Success(view)
    else match Parse(table, files[table])
      case Failure(e) => Failure(e)
      case Success(t) =>
        ParseLoadable(table, files[table]);
        Success(Put(view, table, t))
  }

  /** `view[table] = t`. */
  function Put(view: map<string, Table>, table: string, t: Table): (r: map<string, Table>)
    requires Valid(t) && forall n :: n in view ==> Valid(view[n])
    ensures forall n :: n in r ==> Valid(r[n])
    ensures table in r && r[table] == t
    ensures forall n :: n != table ==> Get(r, n) == Get(view, n)
  {
    view[table := t]
  }

  /** Loading keeps every table already loaded. */
  lemma {:induction false} LoadKeeps(files: map<string, string>, view: map<string, Table>, table: string)
    requires table in files ==> Loadable(files[table])
    requires forall k :: k in view ==> Valid(view[k])
    requires LoadInto(files, view, table).Success?
    ensures forall n :: LoadedIn(files, view, n) ==> LoadedIn(files, LoadInto(files, view, table).value, n)
  {
    var v := LoadInto(files, view, table).value;
    forall n | LoadedIn(files, view, n) ensures LoadedIn(files, v, n) {
      assert n != table ==> Get(v, n) == Get(view, n);
    }
  }

  /** Loading adds its own table, if it has a data file, and no other. */
  lemma {:induction false} LoadKeys(files: map<string, string>, view: map<string, Table>, table: string)
    requires table in files ==> Loadable(files[table])
    requires forall k :: k in view ==> Valid(view[k])
    requires LoadInto(files, view, table).Success?
    ensures forall n :: n in LoadInto(files, view, table).value <==> n in view || (n == table && n in files)
  {
    var v := LoadInto(files, view, table).value;
    forall n ensures n in v <==> n in view || (n == table && n in files) {
      assert n != table ==> Get(v, n) == Get(view, n);
    }
  }

  /** `tm.get_table_lock(table)` for table `i`, and the lock recorded. */
  function Request(m: Manager, tx: Transaction, i: nat): (r: (Manager, Transaction))
    requires i < |tx.tables| && LocksHeld(m.locks, tx, i)
    ensures r.0 == m.(locks := r.0.locks) && r.1 == tx.(locks := r.1.locks)
    ensures LocksHeld(r.0.locks, r.1, i + 1)
  {
    var (l, id) := GetLock(m.locks, tx.tables[i]);
    (m.(locks := l), tx.(locks := tx.locks + [id]))
  }

  /** One round of the loop in `Transaction.__init__`: the lock of table
      `i` is requested and recorded, then `_load_table` loads the table,
      into the manager's cache for a read-only transaction and into the
      transaction's own data for a writing one. A failed load keeps the
      new lock. */
  function Step(m: Manager, tx: Transaction, i: nat): (r: (Manager, Result<Transaction>))
    requires i < |tx.tables| && LocksHeld(m.locks, tx, i)
    requires AllLoadable(m, tx.tables) && CacheValid(m) && TxValid(tx)
    ensures CacheValid(r.0) && r.0 == m.(tableData := r.0.tableData, locks := r.0.locks)
    ensures r.1.Failure? <==> EmptyFileOf(m, tx.tables[i])
    ensures r.1.Failure? ==> r.1.error == EmptyFile(tx.tables[i])
    ensures r.1.Success? ==>
              && r.1.value.tables == tx.tables && r.1.value.readOnly == tx.readOnly
              && TxValid(r.1.value) && LocksHeld(r.0.locks, r.1.value, i + 1)
              && View(r.0, r.1.value) == LoadInto(m.files, View(m, tx), tx.tables[i]).value
    ensures r.1.Success? ==> if tx.readOnly then r.1.value.data == tx.data else r.0.tableData == m.tableData
  {
    var (m1, tx1) := Request(m, tx, i);
    match LoadInto(m.files, View(m, tx), tx.tables[i])
    case Failure(e) => (m1, Failure(e))
    case Success(v) =>
      var (m2, tx2) := Store(m1, tx1, v);
      (m2, Success(tx2))
  }

  /** Where `_load_table` stores a table: the manager's cache for a
      read-only transaction, the transaction's own data otherwise. */
  function Store(m: Manager, tx: Transaction, v: map<string, Table>): (r: (Manager, Transaction))
    ensures View(r.0, r.1) == v
    ensures r.0 == m.(tableData := r.0.tableData) && r.1 == tx.(data := r.1.data)
    ensures if tx.readOnly then r.1 == tx else r.0 == m
  {
    if tx.readOnly then (m.(tableData := v), tx) else (m, tx.(data := v))
  }

  /** The loop of `Transaction.__init__` from table `i` on. A failed load
      ends it; the locks and loads before it stay. */
  function Acquire(m: Manager, tx: Transaction, i: nat): (r: (Manager, Result<Transaction>))
    requires LocksHeld(m.locks, tx, i)
    requires AllLoadable(m, tx.tables) && CacheValid(m) && TxValid(tx)
    ensures CacheValid(r.0) && r.0 == m.(tableData := r.0.tableData, locks := r.0.locks)
    ensures r.1.Failure? <==> exists j :: i <= j < |tx.tables| && EmptyFileOf(m, tx.tables[j])
    ensures r.1.Failure? ==> r.1.error.EmptyFile?
    ensures r.1.Success? ==>
              && r.1.value.tables == tx.tables && r.1.value.readOnly == tx.readOnly
              && TxValid(r.1.value) && LocksHeld(r.0.locks, r.1.value, |tx.tables|)
    decreases |tx.tables| - i
  {
    if i == |tx.tables| then (m, Success(tx))
    else
      var (m2, r2) := Step(m, tx, i);
      if r2.Failure? then (m2, r2) else Acquire(m2, r2.value, i + 1)
  }

  /** `Transaction(tm, tables, is_read_only)`: the table names are sorted
      ascending (duplicates stay) and then locked and loaded in that order. */
  function Begin(m: Manager, names: seq<string>, readOnly: bool): (r: (Manager, Result<Transaction>))
    requires AllLoadable(m, names) && CacheValid(m)
    ensures CacheValid(r.0) && r.0 == m.(tableData := r.0.tableData, locks := r.0.locks)
    ensures r.1.Failure? <==> exists n :: n in names && EmptyFileOf(m, n)
    ensures r.1.Failure? ==> r.1.error.EmptyFile?
    ensures r.1.Success? ==>
              && SortedBy(r.1.value.tables, Name) && multiset(r.1.value.tables) == multiset(names)
              && r.1.value.readOnly == readOnly && TxValid(r.1.value)
              && LocksHeld(r.0.locks, r.1.value, |names|)
  {
    var tables := SortBy(names, Name);
    assert forall n :: n in tables <==> n in names by {
      assert forall n :: n in tables <==> n in multiset(tables);
    }
    var r := Acquire(m, Transaction(tables, readOnly, [], map[]), 0);
    assert r.1.Failure? ==> exists n :: n in names && EmptyFileOf(m, n);
    r
  }

  /** The sort key of `sorted(tables)`: the name itself. */
  function Name(s: string): string
  {
    s
  }

  /** One round of the loop: a failed step ends it, a successful one
      continues from the next table. */
  lemma {:induction false} AcquireStep(m: Manager, tx: Transaction, i: nat)
    requires i < |tx.tables| && LocksHeld(m.locks, tx, i)
    requires AllLoadable(m, tx.tables) && CacheValid(m) && TxValid(tx)
    ensures var (m2, r2) := Step(m, tx, i);
            && m2.files == m.files
            && (r2.Failure? ==> Acquire(m, tx, i) == (m2, r2))
            && (r2.Success? ==> LocksHeld(m2.locks, r2.value, i + 1) && AllLoadable(m2, r2.value.tables)
                                && CacheValid(m2) && TxValid(r2.value) && Acquire(m, tx, i) == Acquire(m2, r2.value, i + 1))
  {
  }

  /** A step keeps the tables loaded before it and loads its own. */
  lemma {:induction false} StepLoads(m: Manager, tx: Transaction, i: nat)
    requires i < |tx.tables| && LocksHeld(m.locks, tx, i)
    requires AllLoadable(m, tx.tables) && CacheValid(m) && TxValid(tx)
    requires forall j :: 0 <= j < i ==> LoadedIn(m.files, View(m, tx), tx.tables[j])
    requires Step(m, tx, i).1.Success?
    ensures var (m2, r2) := Step(m, tx, i);
            forall j :: 0 <= j < i + 1 ==> LoadedIn(m.files, View(m2, r2.value), tx.tables[j])
  {
    var v := LoadInto(m.files, View(m, tx), tx.tables[i]).value;
    LoadKeeps(m.files, View(m, tx), tx.tables[i]);
    assert forall j :: 0 <= j < i + 1 ==> LoadedIn(m.files, v, tx.tables[j]);
  }

  /** After the loop, every table with a data file is in the view, as its
      file parses. */
  lemma {:induction false} AcquireLoads(m: Manager, tx: Transaction, i: nat, m': Manager, tx': Transaction)
    requires LocksHeld(m.locks, tx, i) && AllLoadable(m, tx.tables) && CacheValid(m) && TxValid(tx)
    requires forall j :: 0 <= j < i ==> LoadedIn(m.files, View(m, tx), tx.tables[j])
    requires Acquire(m, tx, i) == (m', Success(tx'))
    ensures forall j :: 0 <= j < |tx.tables| ==> LoadedIn(m.files, View(m', tx'), tx.tables[j])
    decreases |tx.tables| - i
  {
    if i < |tx.tables| {
      var (m2, r2) := Step(m, tx, i);
      AcquireStep(m, tx, i);
      StepLoads(m, tx, i);
      AcquireLoads(m2, r2.value, i + 1, m', tx');
    }
  }

  /** The view after the loop holds what it held before and the tables
      from `i` on that have a data file, and nothing else. */
  lemma {:induction false} AcquireKeys(m: Manager, tx: Transaction, i: nat, m': Manager, tx': Transaction)
    requires LocksHeld(m.locks, tx, i) && AllLoadable(m, tx.tables) && CacheValid(m) && TxValid(tx)
    requires Acquire(m, tx, i) == (m', Success(tx'))
    ensures forall n :: n in View(m', tx') <==> n in View(m, tx) || (n in tx.tables[i..] && n in m.files)
    decreases |tx.tables| - i
  {
    if i < |tx.tables| {
      var (m2, r2) := Step(m, tx, i);
      AcquireStep(m, tx, i);
      StepKeys(m, tx, i);
      AcquireKeys(m2, r2.value, i + 1, m', tx');
      SuffixMembers(tx.tables, i);
    }
  }

  /** A step adds its own table, if it has a data file, and no other. */
  lemma {:induction false} StepKeys(m: Manager, tx: Transaction, i: nat)
    requires i < |tx.tables| && LocksHeld(m.locks, tx, i)
    requires AllLoadable(m, tx.tables) && CacheValid(m) && TxValid(tx)
    requires Step(m, tx, i).1.Success?
    ensures var (m2, r2) := Step(m, tx, i);
            forall n :: n in View(m2, r2.value) <==> n in View(m, tx) || (n == tx.tables[i] && n in m.files)
  {
    LoadKeys(m.files, View(m, tx), tx.tables[i]);
  }

  lemma {:induction false} SuffixMembers(s: seq<string>, i: nat)
    requires i < |s|
    ensures forall n :: n in s[i..] <==> n == s[i] || n in s[i + 1..]
  {
    assert s[i..] == [s[i]] + s[i + 1..];
  }

  /** The loop leaves a read-only transaction's own data and a writing
      transaction's manager cache as they were. */
  lemma {:induction false} AcquireFrame(m: Manager, tx: Transaction, i: nat, m': Manager, tx': Transaction)
    requires LocksHeld(m.locks, tx, i) && AllLoadable(m, tx.tables) && CacheValid(m) && TxValid(tx)
    requires Acquire(m, tx, i) == (m', Success(tx'))
    ensures if tx.readOnly then tx'.data == tx.data else m'.tableData == m.tableData
    decreases |tx.tables| - i
  {
    if i < |tx.tables| {
      var (m2, r2) := Step(m, tx, i);
      AcquireStep(m, tx, i);
      AcquireFrame(m2, r2.value, i + 1, m', tx');
    }
  }

  /** Right after a transaction begins, every requested table that has a
      data file is visible to it exactly as the file parses: in the
      manager's cache for a read-only transaction, in its own data for a
      writing one, which then holds no other table and leaves the cache as
      it was. */
  lemma {:induction false} BeginLoads(m: Manager, names: seq<string>, readOnly: bool)
    requires AllLoadable(m, names) && CacheValid(m)
    requires Begin(m, names, readOnly).1.Success?
    ensures var (m', tx) := (Begin(m, names, readOnly).0, Begin(m, names, readOnly).1.value);
            && (forall n :: n in names && n in m.files ==>
                  n in View(m', tx) && Parse(n, m.files[n]) == Success(View(m', tx)[n]))
            && (!readOnly ==> m'.tableData == m.tableData
                              && forall n :: n in tx.data <==> n in names && n in m.files)
            && (readOnly ==> tx.data == map[])
  {
    var tables := SortBy(names, Name);
    var tx0 := Transaction(tables, readOnly, [], map[]);
    assert forall n :: n in tables <==> n in names by {
      assert forall n :: n in tables <==> n in multiset(tables);
    }
    var (m', tx) := (Begin(m, names, readOnly).0, Begin(m, names, readOnly).1.value);
    AcquireLoads(m, tx0, 0, m', tx);
    AcquireKeys(m, tx0, 0, m', tx);
    AcquireFrame(m, tx0, 0, m', tx);
    assert tables[0..] == tables;
    forall n | n in names && n in m.files ensures n in View(m', tx) && Parse(n, m.files[n]) == Success(View(m', tx)[n]) {
      var j := IndexOf(tables, n);
      assert LoadedIn(m.files, View(m', tx), tables[j]);
    }
  }

  // --------------------------------------------------------- row operations

  /** What an operation leaves behind: the manager, the transaction and the outcome. */
  datatype Outcome<T> = Outcome(manager: Manager, tx: Transaction, result: Result<T>)

  /** A successful insert keeps a table aligned. */
  lemma {:induction false} InsertValid(t: Table, meta: TableMetadata, values: seq<string>)
    requires Valid(t) && Insert(t, meta, values).Success?
    ensures Valid(Insert(t, meta, values).value)
  {
    if |t.columns| > 0 {
      InsertAppendsRow(t, meta, values);
    }
  }

  /** `insert_row`: refused in a read-only transaction and for a table the
      transaction did not load; a value count that differs from the column
      count is refused before the metadata is fetched; otherwise the
      metadata is fetched (and cached) and the row is refused when a
      constrained column already holds its value, or else appended to the
      transaction's copy. A refused row changes no table. */
  function TxInsert(m: Manager, tx: Transaction, table: string, values: seq<string>): (r: Outcome<()>)
    requires TxValid(tx)
    ensures TxValid(r.tx) && r.tx.tables == tx.tables && r.tx.readOnly == tx.readOnly && r.tx.locks == tx.locks
    ensures r.result.Failure? ==> r.tx == tx
    ensures tx.readOnly ==> r == Outcome(m, tx, Failure(ReadOnlyViolation))
    ensures !tx.readOnly && table !in tx.data ==> r == Outcome(m, tx, Failure(TableNotFound(table)))
    ensures !tx.readOnly && table in tx.data && |values| != |tx.data[table].columns| ==>
              r == Outcome(m, tx, Failure(ColumnCountMismatch))
    ensures !tx.readOnly && table in tx.data && |values| == |tx.data[table].columns| ==>
              r.manager == GetMetadata(m, table).0
              && (r.result.Failure? <==> Insert(tx.data[table], GetMetadata(m, table).1, values).Failure?)
    ensures r.result.Failure? && r.result.error.DuplicateValue? ==>
              table in tx.data && r.result.error == Insert(tx.data[table], GetMetadata(m, table).1, values).error
    ensures r.result.Success? ==>
              table in tx.data && table in r.tx.data && r.tx.data - {table} == tx.data - {table}
              && Insert(tx.data[table], GetMetadata(m, table).1, values) == Success(r.tx.data[table])
  {
    if tx.readOnly then Outcome(m, tx, Failure(ReadOnlyViolation))
    else if table !in tx.data then Outcome(m, tx, Failure(TableNotFound(table)))
    else
      var t := tx.data[table];
      if |values| != |t.columns| then Outcome(m, tx, Failure(ColumnCountMismatch))
      else
        var (m', meta) := GetMetadata(m, table);
        match Insert(t, meta, values)
        case Failure(e) => Outcome(m', tx, Failure(e))
        case Success(t') =>
          InsertValid(t, meta, values);
          Outcome(m', tx.(data := tx.data[table := t']), Success(()))
  }

  /** A successful insert adds exactly the new row after the existing ones
      and keeps the primary-key and unique columns duplicate-free. */
  lemma {:induction false} TxInsertAppends(m: Manager, tx: Transaction, table: string, values: seq<string>)
    requires TxValid(tx) && TxInsert(m, tx, table, values).result.Success?
    requires table in tx.data && |tx.data[table].columns| > 0
    ensures var r := TxInsert(m, tx, table, values);
            var (t, t') := (tx.data[table], r.tx.data[table]);
            var meta := r.manager.tableMetadata[table];
            && Height(t') == Height(t) + 1 && Row(t', Height(t)) == values
            && (forall i :: 0 <= i < Height(t) ==> Row(t', i) == Row(t, i))
            && (UniqueIn(t, meta) ==> UniqueIn(t', meta))
  {
    var meta := GetMetadata(m, table).1;
    InsertAppendsRow(tx.data[table], meta, values);
    if UniqueIn(tx.data[table], meta) {
      InsertKeepsUnique(tx.data[table], meta, values);
    }
  }

  /** `update_rows`: refused in a read-only transaction and for a table the
      transaction did not load; otherwise the copy is updated as `Update`
      says, with no uniqueness check, and the number of matching rows is
      reported. */
  function TxUpdate(tx: Transaction, table: string, setCol: string, newVal: string, whereCol: string, whereVal: string)
    : (r: (Transaction, Result<nat>))
    requires TxValid(tx)
    ensures TxValid(r.0) && r.0.tables == tx.tables && r.0.readOnly == tx.readOnly && r.0.locks == tx.locks
    ensures r.1.Failure? ==> r.0 == tx
    ensures tx.readOnly ==> r.1 == Failure(ReadOnlyViolation)
    ensures !tx.readOnly && table !in tx.data ==> r.1 == Failure(TableNotFound(table))
    ensures !tx.readOnly && table in tx.data ==>
              (r.1.Failure? <==> Update(tx.data[table], setCol, newVal, whereCol, whereVal).Failure?)
    ensures r.1.Success? ==>
              table in tx.data && table in r.0.data && r.0.data - {table} == tx.data - {table}
              && Update(tx.data[table], setCol, newVal, whereCol, whereVal) == Success((r.0.data[table], r.1.value))
  {
    if tx.readOnly then (tx, Failure(ReadOnlyViolation))
    else if table !in tx.data then (tx, Failure(TableNotFound(table)))
    else match Update(tx.data[table], setCol, newVal, whereCol, whereVal)
      case Failure(e) => (tx, Failure(e))
      case Success((t', count)) => (tx.(data := tx.data[table := t']), Success(count))
  }

  /** `delete_rows`: refused in a read-only transaction and for a table the
      transaction did not load; otherwise the matching rows leave the copy
      as `Delete` says and their number is reported. */
  function TxDelete(tx: Transaction, table: string, column: string, value: string): (r: (Transaction, Result<nat>))
    requires TxValid(tx)
    ensures TxValid(r.0) && r.0.tables == tx.tables && r.0.readOnly == tx.readOnly && r.0.locks == tx.locks
    ensures r.1.Failure? ==> r.0 == tx
    ensures tx.readOnly ==> r.1 == Failure(ReadOnlyViolation)
    ensures !tx.readOnly && table !in tx.data ==> r.1 == Failure(TableNotFound(table))
    ensures !tx.readOnly && table in tx.data ==> (r.1.Failure? <==> column !in tx.data[table].data)
    ensures r.1.Success? ==>
              table in tx.data && table in r.0.data && r.0.data - {table} == tx.data - {table}
              && Delete(tx.data[table], column, value) == Success((r.0.data[table], r.1.value))
  {
    if tx.readOnly then (tx, Failure(ReadOnlyViolation))
    else if table !in tx.data then (tx, Failure(TableNotFound(table)))
    else match Delete(tx.data[table], column, value)
      case Failure(e) => (tx, Failure(e))
      case Success((t', count)) => (tx.(data := tx.data[table := t']), Success(count))
  }

  // ------------------------------------------------------------------ reads

  /** The table a read looks at: missing, or present without columns (an
      empty dict is false in Python), reads as "does not exist". */
  predicate Readable(m: Manager, tx: Transaction, table: string)
  {
    table in View(m, tx) && |View(m, tx)[table].columns| > 0
  }

  /** `read_table`: the view's table is listed as `ReadTable` says. */
  function TxRead(m: Manager, tx: Transaction, table: string, selected: seq<string>, orderBy: string, limit: Option<int>)
    : (r: Result<Listing>)
    requires CacheValid(m) && TxValid(tx)
    ensures !Readable(m, tx, table) ==> r == Failure(TableNotFound(table))
    ensures Readable(m, tx, table) ==> r == ReadTable(View(m, tx)[table], selected, orderBy, limit)
  {
    if !Readable(m, tx, table) then Failure(TableNotFound(table))
    else ReadTable(View(m, tx)[table], selected, orderBy, limit)
  }

  /** `read_table_with_condition`: the view's table is filtered and listed
      as `ReadWhere` says. */
  function TxReadWhere(m: Manager, tx: Transaction, table: string, column: string, value: string,
                       selected: seq<string>, orderBy: string, limit: Option<int>): (r: Result<Listing>)
    requires CacheValid(m) && TxValid(tx)
    ensures !Readable(m, tx, table) ==> r == Failure(TableNotFound(table))
    ensures Readable(m, tx, table) ==> r == ReadWhere(View(m, tx)[table], column, value, selected, orderBy, limit)
  {
    if !Readable(m, tx, table) then Failure(TableNotFound(table))
    else ReadWhere(View(m, tx)[table], column, value, selected, orderBy, limit)
  }

  /** Right after a transaction begins, a read of a requested table with a
      data file lists the table that file holds, whether the transaction
      is read-only or not. */
  lemma {:induction false} ReadAfterBegin(m: Manager, names: seq<string>, readOnly: bool, table: string,
                                          selected: seq<string>, orderBy: string, limit: Option<int>)
    requires AllLoadable(m, names) && CacheValid(m)
    requires Begin(m, names, readOnly).1.Success?
    requires table in names && table in m.files
    ensures var (m', tx) := (Begin(m, names, readOnly).0, Begin(m, names, readOnly).1.value);
            var t := Parse(table, m.files[table]).value;
            Valid(t) && TxRead(m', tx, table, selected, orderBy, limit) == ReadTable(t, selected, orderBy, limit)
  {
    BeginLoads(m, names, readOnly);
    var t := Parse(table, m.files[table]).value;
    ParseLoadable(table, m.files[table]);
    assert |t.columns| > 0 by {
      assert forall c :: c in t.columns <==> c in Cells(Lines(m.files[table])[0]);
      assert Cells(Lines(m.files[table])[0])[0] in t.columns;
    }
  }

  // ----------------------------------------------------------------- commit

  /** A table `commit` can write out: loaded, with at least one column. */
  predicate Committable(tx: Transaction, n: string)
  {
    n in tx.data && |tx.data[n].columns| > 0
  }

  /** The loop of `commit` from table `i` on: each table's text is written
      to its data file and the table is published to the manager's cache.
      A table the transaction never loaded stops the loop before its file
      is touched; a table without columns stops it after its file has been
      overwritten with an empty header line. Tables written before a
      failure stay written. */
  function CommitFrom(m: Manager, tx: Transaction, i: nat): (r: (Manager, Result<()>))
    requires i <= |tx.tables| && TxValid(tx) && CacheValid(m)
    ensures CacheValid(r.0)
    ensures r.0.metaFiles == m.metaFiles && r.0.tableMetadata == m.tableMetadata && r.0.locks == m.locks
    ensures r.1.Success? <==> FirstStop(tx, i) == |tx.tables|
    decreases |tx.tables| - i
  {
    if i == |tx.tables| then (m, Success(()))
    else
      var table := tx.tables[i];
      if !Committable(tx, table) then Stop(m, tx, table)
      else CommitFrom(StoreTable(m, table, tx.data[table]), tx, i + 1)
  }

  /** A table `commit` cannot write: one never loaded fails before its file
      is opened, one without columns after its file holds the empty header
      line. */
  function Stop(m: Manager, tx: Transaction, table: string): (r: (Manager, Result<()>))
    requires TxValid(tx) && CacheValid(m) && !Committable(tx, table)
    ensures CacheValid(r.0) && r.0.tableData == m.tableData
    ensures r.0.metaFiles == m.metaFiles && r.0.tableMetadata == m.tableMetadata && r.0.locks == m.locks
    ensures r.1 == Failure(if table in tx.data then NoColumns else TableNotFound(table))
    ensures forall n :: n != table ==> Get(r.0.files, n) == Get(m.files, n)
    ensures table in tx.data ==> Get(r.0.files, table) == Some(Format(tx.data[table]))
  {
    if table !in tx.data then (m, Failure(TableNotFound(table)))
    else (m.(files := m.files[table := Format(tx.data[table])]), Failure(NoColumns))
  }

  /** The data file and the cache entry of `n` hold the transaction's copy. */
  predicate Stored(m: Manager, tx: Transaction, n: string)
  {
    n in tx.data && DataPersisted(m, n) && m.tableData[n] == tx.data[n]
  }

  /** Once a table the commit can write is stored, the rest of the loop
      leaves it stored: a name listed twice is written again with the same
      copy, and a failing table is a different name. */
  lemma {:induction false} CommitFromKeeps(m: Manager, tx: Transaction, i: nat, n: string)
    requires i <= |tx.tables| && TxValid(tx) && CacheValid(m)
    requires Committable(tx, n) && Stored(m, tx, n)
    ensures Stored(CommitFrom(m, tx, i).0, tx, n)
    decreases |tx.tables| - i
  {
    if i < |tx.tables| {
      var table := tx.tables[i];
      if Committable(tx, table) {
        var m1 := StoreTable(m, table, tx.data[table]);
        CommitStep(m, tx, i);
        StoreKeeps(m, tx, table, n);
        CommitFromKeeps(m1, tx, i + 1, n);
      } else {
        CommitStops(m, tx, i, n);
      }
    }
  }

  /** A table the loop can write moves it on to the next table. */
  lemma {:induction false} CommitStep(m: Manager, tx: Transaction, i: nat)
    requires i < |tx.tables| && TxValid(tx) && CacheValid(m) && Committable(tx, tx.tables[i])
    ensures CacheValid(StoreTable(m, tx.tables[i], tx.data[tx.tables[i]]))
    ensures CommitFrom(m, tx, i) == CommitFrom(StoreTable(m, tx.tables[i], tx.data[tx.tables[i]]), tx, i + 1)
  {
  }

  /** Writing one table keeps every other stored table stored. */
  lemma {:induction false} StoreKeeps(m: Manager, tx: Transaction, table: string, n: string)
    requires TxValid(tx) && Committable(tx, table) && Stored(m, tx, n)
    ensures Stored(StoreTable(m, table, tx.data[table]), tx, n)
  {
    var r := StoreTable(m, table, tx.data[table]);
    if n != table {
      assert r.files[n] == m.files[n] && r.tableData[n] == m.tableData[n];
    }
  }

  /** A table the loop cannot write ends it, touching at most its own
      data file, which is not that of a table it can write. */
  lemma {:induction false} CommitStops(m: Manager, tx: Transaction, i: nat, n: string)
    requires i < |tx.tables| && TxValid(tx) && CacheValid(m) && !Committable(tx, tx.tables[i])
    requires Committable(tx, n) && Stored(m, tx, n)
    ensures Stored(CommitFrom(m, tx, i).0, tx, n)
  {
    var table := tx.tables[i];
    assert table != n;
    var r := CommitFrom(m, tx, i);
    assert r == Stop(m, tx, table);
    assert Get(r.0.files, n) == Get(m.files, n) && r.0.tableData == m.tableData;
  }

  /** Every table the loop gets through is stored when the loop ends,
      whether it ends in success or at a later failure. */
  lemma {:induction false} CommitFromWrites(m: Manager, tx: Transaction, i: nat, j: nat)
    requires i <= j < |tx.tables| && TxValid(tx) && CacheValid(m)
    requires forall k :: i <= k <= j ==> Committable(tx, tx.tables[k])
    ensures Stored(CommitFrom(m, tx, i).0, tx, tx.tables[j])
    decreases j - i
  {
    var table := tx.tables[i];
    assert Committable(tx, table);
    var m1 := StoreTable(m, table, tx.data[table]);
    assert CommitFrom(m, tx, i) == CommitFrom(m1, tx, i + 1);
    if i == j {
      CommitFromKeeps(m1, tx, i + 1, table);
    } else {
      CommitFromWrites(m1, tx, i + 1, j);
    }
  }

  /** Every table before the first one the loop cannot write is stored. */
  lemma {:induction false} CommitFromWritesAll(m: Manager, tx: Transaction, j: nat)
    requires j <= |tx.tables| && TxValid(tx) && CacheValid(m)
    requires forall k :: 0 <= k < j ==> Committable(tx, tx.tables[k])
    ensures forall k :: 0 <= k < j ==> Stored(CommitFrom(m, tx, 0).0, tx, tx.tables[k])
  {
    forall k | 0 <= k < j ensures Stored(CommitFrom(m, tx, 0).0, tx, tx.tables[k]) {
      CommitFromWrites(m, tx, 0, k);
    }
  }

  /** The loop touches no table it has not reached: names outside
      `tables[i..]` keep their data file and cache entry. */
  lemma {:induction false} CommitFromFrame(m: Manager, tx: Transaction, i: nat, n: string)
    requires i <= |tx.tables| && TxValid(tx) && CacheValid(m)
    requires n !in tx.tables[i..]
    ensures Get(CommitFrom(m, tx, i).0.files, n) == Get(m.files, n)
    ensures Get(CommitFrom(m, tx, i).0.tableData, n) == Get(m.tableData, n)
    decreases |tx.tables| - i
  {
    if i < |tx.tables| {
      var table := tx.tables[i];
      SuffixMembers(tx.tables, i);
      if Committable(tx, table) {
        var m1 := StoreTable(m, table, tx.data[table]);
        CommitStep(m, tx, i);
        assert Get(m1.files, n) == Get(m.files, n) && Get(m1.tableData, n) == Get(m.tableData, n);
        CommitFromFrame(m1, tx, i + 1, n);
      } else {
        assert CommitFrom(m, tx, i) == Stop(m, tx, table);
      }
    }
  }

  /** The first table from `i` on that the loop cannot write, or the end
      of the list. */
  function FirstStop(tx: Transaction, i: nat): (j: nat)
    requires i <= |tx.tables|
    ensures i <= j <= |tx.tables|
    ensures forall k :: i <= k < j ==> Committable(tx, tx.tables[k])
    ensures j < |tx.tables| ==> !Committable(tx, tx.tables[j])
    decreases |tx.tables| - i
  {
    if i == |tx.tables| || !Committable(tx, tx.tables[i]) then i else FirstStop(tx, i + 1)
  }

  /** A commit that fails stops at the first table it cannot write: one the
      transaction never loaded gives "does not exist", one without columns
      gives the error of reading its first header name. */
  lemma {:induction false} CommitFromStops(m: Manager, tx: Transaction, i: nat, e: Error)
    requires i <= |tx.tables| && TxValid(tx) && CacheValid(m)
    requires CommitFrom(m, tx, i).1 == Failure(e)
    ensures FirstStop(tx, i) < |tx.tables|
    ensures e == (if tx.tables[FirstStop(tx, i)] in tx.data then NoColumns else TableNotFound(tx.tables[FirstStop(tx, i)]))
    decreases |tx.tables| - i
  {
    var table := tx.tables[i];
    if Committable(tx, table) {
      CommitStep(m, tx, i);
      CommitFromStops(StoreTable(m, table, tx.data[table]), tx, i + 1, e);
    }
  }

  /** `commit`: a read-only transaction writes nothing; a writing one
      writes its tables in order. */
  function Commit(m: Manager, tx: Transaction): (r: (Manager, Result<()>))
    requires TxValid(tx) && CacheValid(m)
    ensures tx.readOnly ==> r == (m, Success(()))
    ensures !tx.readOnly ==> r == CommitFrom(m, tx, 0)
  {
    if tx.readOnly then (m, Success(())) else CommitFrom(m, tx, 0)
  }

  /** After a successful commit of a writing transaction, every table it
      holds is in its data file and in the cache; a table whose names and
      cells are plain reads back from its file exactly. */
  lemma {:induction false} CommitDurable(m: Manager, tx: Transaction, n: string)
    requires TxValid(tx) && CacheValid(m) && !tx.readOnly
    requires Commit(m, tx).1.Success? && n in tx.tables
    ensures Stored(Commit(m, tx).0, tx, n)
    ensures PlainTable(tx.data[n]) ==> Parse(n, Commit(m, tx).0.files[n]) == Success(tx.data[n])
  {
    var j := IndexOf(tx.tables, n);
    CommitFromWrites(m, tx, 0, j);
    if PlainTable(tx.data[n]) {
      FormatRoundTrip(n, tx.data[n]);
    }
  }

  /** A failing commit stops at the first table it cannot write, and every
      table before that one is already in its data file and in the cache:
      the commit is not atomic. */
  lemma {:induction false} CommitPartial(m: Manager, tx: Transaction)
    requires TxValid(tx) && CacheValid(m) && Commit(m, tx).1.Failure?
    ensures var j := FirstStop(tx, 0);
            && j < |tx.tables| && !Committable(tx, tx.tables[j])
            && Commit(m, tx).1.error == (if tx.tables[j] in tx.data then NoColumns else TableNotFound(tx.tables[j]))
            && forall k :: 0 <= k < j ==> Stored(Commit(m, tx).0, tx, tx.tables[k])
  {
    CommitFromStops(m, tx, 0, Commit(m, tx).1.error);
    CommitFromWritesAll(m, tx, FirstStop(tx, 0));
  }
}
