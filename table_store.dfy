/** The durable table store: parquet files, each read in full and rewritten
    in full. A file holds a table, that is a schema and a sequence of rows;
    the directory holds the four files the ingestion uses, each of which may
    not exist yet. */
module TableStore {
  import opened Chain

  datatype ColumnType = Int64 | UInt64 | Utf8

  datatype Column = Column(name: string, dtype: ColumnType)

  type Schema = seq<Column>

  /** The row of each of the four tables the ingestion keeps. */
  datatype Row =
    | BlockRow(blockNumber: int)
    | AddressRow(address: Address)
    | ContractRow(address: Address, abi: string)
    | TxRow(blockNumber: int, blockTimestamp: int, hash: string, data: string)

  datatype Table = Table(schema: Schema, rows: seq<Row>)

  /** The four parquet files the ingestion reads and rewrites, under
      `../data/raw/`: `blocks_ingested.parquet` (the ledger),
      `ignore_address.parquet`, `transactions.parquet` and `contracts.parquet`. */
  datatype File = LedgerFile | IgnoreFile | TransactionsFile | ContractsFile

  /** The directory: for each file, its table, or None while it does not exist. */
  datatype Files = Files(ledger: Option<Table>, ignore: Option<Table>, transactions: Option<Table>, contracts: Option<Table>)

  const NoFiles := Files(None, None, None, None)

  function Get(files: Files, f: File): Option<Table>
  {
    match f
    case LedgerFile => files.ledger
    case IgnoreFile => files.ignore
    case TransactionsFile => files.transactions
    case ContractsFile => files.contracts
  }

  /** The directory with `f` (over)written to hold `t`. */
  function Put(files: Files, f: File, t: Table): (after: Files)
    ensures Get(after, f) == Some(t)
    ensures forall g :: g != f ==> Get(after, g) == Get(files, g)
  {
    match f
    case LedgerFile => files.(ledger := Some(t))
    case IgnoreFile => files.(ignore := Some(t))
    case TransactionsFile => files.(transactions := Some(t))
    case ContractsFile => files.(contracts := Some(t))
  }

  /** The table `get_parquet(path, schema)` returns. */
  function Loaded(files: Files, f: File, schema: Schema): Table
  {
    match Get(files, f)
    case Some(t) => t
    case None => Table(schema, [])
  }

  /** The files after `get_parquet(path, schema)`: an absent file is written
      empty, a present one is left as it is. */
  function Created(files: Files, f: File, schema: Schema): Files
  {
    if Get(files, f).Some? then files else Put(files, f, Table(schema, []))
  }

  /** `pl.concat([t, pl.DataFrame({...})])`: the table with one more row at the end. */
  function Append(t: Table, r: Row): (u: Table)
    ensures u.schema == t.schema && |u.rows| == |t.rows| + 1
    ensures u.rows[..|t.rows|] == t.rows && u.rows[|t.rows|] == r
  {
    Table(t.schema, t.rows + [r])
  }

  /** The rows stored in a file; none when the file does not exist. */
  function Rows(files: Files, f: File): seq<Row>
  {
    match Get(files, f)
    case Some(t) => t.rows
    case None => []
  }

  /** A file after a whole-table overwrite extends the file before: it
      exists if it did, under the same schema, with the old rows as a prefix. */
  predicate Extends(before: Option<Table>, after: Option<Table>)
  {
    before.Some? ==>
      after.Some? && after.value.schema == before.value.schema && before.value.rows <= after.value.rows
  }

  /** Every file only grows. */
  predicate AppendOnly(before: Files, after: Files)
  {
    && Extends(before.ledger, after.ledger)
    && Extends(before.ignore, after.ignore)
    && Extends(before.transactions, after.transactions)
    && Extends(before.contracts, after.contracts)
  }

  lemma AppendOnlyTransitive(a: Files, b: Files, c: Files)
    requires AppendOnly(a, b) && AppendOnly(b, c)
    ensures AppendOnly(a, c)
  {
  }

  /** Appending a row extends the table. */
  lemma AppendExtends(t: Table, r: Row)
    ensures Extends(Some(t), Some(Append(t, r)))
  {
  }

  /** Overwriting one file with a table that extends it only appends. */
  lemma PutAppendOnly(files: Files, f: File, t: Table)
    requires Extends(Get(files, f), Some(t))
    ensures AppendOnly(files, Put(files, f, t))
  {
  }

  /** `get_parquet`: an existing table is returned and nothing changes; an
      absent one is created empty with the requested schema, stored, and
      returned. Either way the file exists afterwards, holds the returned
      table, and every file holds the rows it held before. */
  lemma GetParquetSemantics(files: Files, f: File, schema: Schema)
    ensures Get(Created(files, f, schema), f) == Some(Loaded(files, f, schema))
    ensures Get(files, f).Some? ==> Created(files, f, schema) == files && Loaded(files, f, schema) == Get(files, f).value
    ensures Get(files, f).None? ==> Loaded(files, f, schema) == Table(schema, [])
    ensures forall g :: g != f ==> Get(Created(files, f, schema), g) == Get(files, g)
    ensures forall g :: Rows(Created(files, f, schema), g) == Rows(files, g)
    ensures AppendOnly(files, Created(files, f, schema))
  {
  }

  /** The directory of parquet files the pipeline reads and rewrites. */
  class FileStore {
    var files: Files

    constructor (initial: Files)
      ensures files == initial
    {
      files := initial;
    }

    /** `get_parquet(file_path, schema)` */
    method GetParquet(f: File, schema: Schema) returns (t: Table)
      modifies this
      ensures t == Loaded(old(files), f, schema) && files == Created(old(files), f, schema)
    {
      if Get(files, f).Some? {
        t := Get(files, f).value;
      } else {
        t := Table(schema, []);
        files := Put(files, f, t);
      }
    }

    /** `df.write_parquet(path)`: the whole file is replaced. */
    method WriteParquet(f: File, t: Table)
      modifies this
      ensures files == Put(old(files), f, t)
    {
      files := Put(files, f, t);
    }
  }
}
