/**
 * The database file, its one-time setup, and the connection wrapper every
 * part of the application goes through: a context manager whose exit commits
 * on success and rolls back on an exception, and whose statement methods
 * refuse to run outside a `with` block.
 */
module DbManager {
  import opened Common
  import opened Database

  /**
   * The database file: whether it exists, whether the schema script has
   * created its tables, and the contents committed to it. A file that
   * `sqlite3.connect` created has no tables at all.
   */
  class Disk {
    var present: bool
    var hasSchema: bool
    var db: Db

    constructor(present: bool, hasSchema: bool, db: Db)
      ensures this.present == present && this.hasSchema == hasSchema && this.db == db
    {
      this.present := present;
      this.hasSchema := hasSchema;
      this.db := db;
    }
  }

  /** The contents a connection finds: an absent file is created empty. */
  function ConnectedDb(present: bool, db: Db): Db
  {
    if present then db else EmptyDb()
  }

  /**
   * What a statement that names a table raises before it touches anything:
   * nothing when the tables exist, OperationalError ("no such table") in a
   * file the schema script never ran on.
   */
  function TablesRefusal(hasSchema: bool): (r: Option<Error>)
    ensures r.None? <==> hasSchema
  {
    if hasSchema then None else Some(OperationalError)
  }

  /**
   * `setup_database()`: an existing file is left alone, whether or not it
   * has the tables; otherwise the schema file must exist, and the new file
   * holds every table, empty.
   */
  method SetupDatabase(disk: Disk, schemaExists: bool) returns (r: Outcome)
    modifies disk
    ensures old(disk.present) ==> r == Pass && unchanged(disk)
    ensures !old(disk.present) && !schemaExists ==> r == Fail(FileNotFoundError("schema.sql")) && unchanged(disk)
    ensures !old(disk.present) && schemaExists ==> r == Pass && disk.present && disk.hasSchema && disk.db == EmptyDb()
  {
    if disk.present {
      return Pass;
    }
    if !schemaExists {
      return Fail(FileNotFoundError("schema.sql"));
    }
    disk.present, disk.hasSchema, disk.db := true, true, EmptyDb();
    r := Pass;
  }

  /**
   * `DatabaseManager`: `open` stands for the connection and cursor being set;
   * `pending` is what the connection sees, the committed contents plus the
   * statements of the transaction in progress; `tables` is whether the file
   * it is connected to has the schema's tables.
   */
  class DatabaseManager {
    const disk: Disk
    var open: bool
    var tables: bool
    var inTransaction: bool
    var pending: Db
    var lastInsertRowId: int

    /**
     * Outside a transaction the connection sees exactly what is committed,
     * and it sees the file's tables, or their absence.
     */
    ghost predicate Valid()
      reads this, disk
    {
      && (open && !inTransaction ==> pending == disk.db)
      && (open ==> tables == disk.hasSchema)
    }

    /**
     * What a statement that names a table raises before it touches
     * anything: AttributeError without a cursor, OperationalError without
     * the tables, nothing when it can run.
     */
    function Refusal(): Option<Error>
      reads this
    {
      if !open then Some(AttributeError) else TablesRefusal(tables)
    }

    constructor(disk: Disk)
      ensures this.disk == disk && !open && !inTransaction
      ensures Valid()
    {
      this.disk := disk;
      open, tables, inTransaction := false, false, false;
      pending, lastInsertRowId := EmptyDb(), 0;
    }

    /**
     * `__enter__`: connecting may fail (`canOpen` is false), in which case the
     * error propagates and nothing changes. Connecting to an absent file
     * creates it, empty and without tables.
     */
    method Enter(canOpen: bool) returns (r: Outcome)
      requires Valid()
      modifies this, disk
      ensures !canOpen ==> r == Fail(OperationalError) && unchanged(this) && unchanged(disk)
      ensures canOpen ==> && r == Pass && open && !inTransaction && lastInsertRowId == 0
                          && disk.present && disk.db == ConnectedDb(old(disk.present), old(disk.db))
                          && disk.hasSchema == (old(disk.present) && old(disk.hasSchema))
                          && pending == disk.db && tables == disk.hasSchema
      ensures Valid()
    {
      if !canOpen {
        return Fail(OperationalError);
      }
      if !disk.present {
        disk.present, disk.hasSchema, disk.db := true, false, EmptyDb();
      }
      open, tables, inTransaction, pending, lastInsertRowId := true, disk.hasSchema, false, disk.db, 0;
      r := Pass;
    }

    /** `__exit__`: commit when the block ended normally, roll back when it raised, then close. */
    method Exit(raised: bool)
      requires Valid()
      modifies this, disk
      ensures !open && !inTransaction && disk.present == old(disk.present) && disk.hasSchema == old(disk.hasSchema)
      ensures old(open) && !raised ==> disk.db == old(pending)
      ensures old(open) && raised ==> disk.db == old(disk.db)
      ensures !old(open) ==> disk.db == old(disk.db)
      ensures Valid()
    {
      if open {
        if !raised {
          disk.db := pending;
        } else {
          pending := disk.db;
        }
      }
      open, inTransaction := false, false;
    }

    /** `begin_transaction`: nothing without a connection; a nested BEGIN is an error. */
    method Begin() returns (r: Outcome)
      requires Valid()
      modifies this
      ensures !old(open) ==> r == Pass && unchanged(this)
      ensures old(open) && old(inTransaction) ==> r == Fail(OperationalError) && unchanged(this)
      ensures old(open) && !old(inTransaction) ==> r == Pass && inTransaction
      ensures open == old(open) && tables == old(tables) && pending == old(pending)
      ensures lastInsertRowId == old(lastInsertRowId)
      ensures Valid()
    {
      if !open {
        return Pass;
      }
      if inTransaction {
        return Fail(OperationalError);
      }
      inTransaction := true;
      r := Pass;
    }

    /** `commit_transaction`: makes the pending contents the committed ones. */
    method Commit()
      requires Valid()
      modifies this, disk
      ensures old(open) ==> disk.db == old(pending) && !inTransaction
      ensures !old(open) ==> unchanged(disk) && inTransaction == old(inTransaction)
      ensures open == old(open) && tables == old(tables) && pending == old(pending)
      ensures disk.present == old(disk.present) && disk.hasSchema == old(disk.hasSchema)
      ensures lastInsertRowId == old(lastInsertRowId)
      ensures Valid()
    {
      if open {
        disk.db, inTransaction := pending, false;
      }
    }

    /** `rollback_transaction`: discards the pending statements. */
    method Rollback()
      requires Valid()
      modifies this
      ensures old(open) ==> pending == disk.db && !inTransaction
      ensures !old(open) ==> unchanged(this)
      ensures open == old(open) && tables == old(tables) && lastInsertRowId == old(lastInsertRowId)
      ensures Valid()
    {
      if open {
        pending, inTransaction := disk.db, false;
      }
    }

    /**
     * `execute` of a single-row INSERT: refused without a cursor or without
     * the table; otherwise the statement opens a transaction if none is open
     * and either takes effect or fails leaving the contents as they were. The
     * result is the cursor's lastrowid.
     */
    method Execute(s: Stmt) returns (r: Result<int, Error>)
      requires Valid() && !IsBatch(s)
      modifies this
      ensures old(Refusal()).Some? ==> r == Err(old(Refusal()).value) && unchanged(this)
      ensures old(Refusal()).None? ==> open && tables && inTransaction
      ensures old(Refusal()).None? && RunSingle(old(pending), s).Err? ==>
                r == Err(RunSingle(old(pending), s).error) && pending == old(pending)
                && lastInsertRowId == old(lastInsertRowId)
      ensures old(Refusal()).None? && RunSingle(old(pending), s).Ok? ==>
                r == Ok(RunSingle(old(pending), s).value.1) && pending == RunSingle(old(pending), s).value.0
                && lastInsertRowId == RunSingle(old(pending), s).value.1
      ensures Valid()
    {
      if Refusal().Some? {
        return Err(Refusal().value);
      }
      inTransaction := true;
      match RunSingle(pending, s)
      case Err(e) =>
        r := Err(e);
      case Ok((db, id)) =>
        pending, lastInsertRowId := db, id;
        r := Ok(id);
    }

    /**
     * `executemany` of a batch insert: refused without a cursor or without
     * the table; otherwise batch inserts do not fail.
     */
    method ExecuteMany(s: Stmt) returns (r: Outcome)
      requires Valid() && IsBatch(s)
      modifies this
      ensures old(Refusal()).Some? ==> r == Fail(old(Refusal()).value) && unchanged(this)
      ensures old(Refusal()).None? ==> r == Pass && inTransaction && pending == RunBatch(old(pending), s)
      ensures open == old(open) && tables == old(tables) && lastInsertRowId == old(lastInsertRowId)
      ensures Valid()
    {
      if Refusal().Some? {
        return Fail(Refusal().value);
      }
      inTransaction := true;
      pending := RunBatch(pending, s);
      r := Pass;
    }

    /** `fetchall`: every row of the query, refused without a cursor or without the table. */
    method FetchAll(q: Query) returns (r: Result<seq<Row>, Error>)
      ensures Refusal().Some? ==> r == Err(Refusal().value)
      ensures Refusal().None? ==> r == Ok(Select(pending, q))
    {
      if Refusal().Some? {
        return Err(Refusal().value);
      }
      r := Ok(Select(pending, q));
    }

    /**
     * `fetchall` of a query whose rows SQLite computes (`view`, which may
     * itself raise): refused without a cursor or without the tables.
     */
    method FetchView<T>(view: Db -> Result<seq<T>, Error>) returns (r: Result<seq<T>, Error>)
      ensures Refusal().Some? ==> r == Err(Refusal().value)
      ensures Refusal().None? ==> r == view(pending)
    {
      if Refusal().Some? {
        return Err(Refusal().value);
      }
      r := view(pending);
    }

    /** `fetch_one`: the first row of the query if there is one, refused without a cursor or without the table. */
    method FetchOne(q: Query) returns (r: Result<Option<Row>, Error>)
      ensures Refusal().Some? ==> r == Err(Refusal().value)
      ensures Refusal().None? && Select(pending, q) == [] ==> r == Ok(None)
      ensures Refusal().None? && Select(pending, q) != [] ==> r == Ok(Some(Select(pending, q)[0]))
    {
      if Refusal().Some? {
        return Err(Refusal().value);
      }
      var rows := Select(pending, q);
      r := if rows == [] then Ok(None) else Ok(Some(rows[0]));
    }

    /** `fetch_one("SELECT last_insert_rowid()")[0]`, which names no table. */
    method FetchLastInsertRowId() returns (r: Result<int, Error>)
      ensures !open ==> r == Err(AttributeError)
      ensures open ==> r == Ok(lastInsertRowId)
    {
      if !open {
        return Err(AttributeError);
      }
      r := Ok(lastInsertRowId);
    }
  }
}
