/** The persistent ERC-721 ingestion of `src/01_ingestion.py`: a block-ingest
    step that walks a block's transactions through a fixed decision chain
    over four append-only tables, and a driver over an inclusive block range.
    The spec functions say what each step does to the files; the methods
    follow the source statement by statement and are proved to agree. */
module Ingestion {
  import opened Abi
  import opened Chain
  import opened TableStore

  const LedgerSchema: Schema := [Column("Block Number", Int64)]
  const IgnoreSchema: Schema := [Column("Address", Utf8)]
  const TransactionsSchema: Schema :=
    [Column("Block Number", Int64), Column("Block Timestamp", Int64),
     Column("Transaction Hash", Utf8), Column("Transaction Data", Utf8)]
  const ContractsSchema: Schema := [Column("Address", Utf8), Column("ABI", Utf8)]

  /** `df['Block Number'].eq(b).any()` on the ledger. */
  predicate IsIngested(rows: seq<Row>, b: int)
  {
    BlockRow(b) in rows
  }

  /** `df['Address'].eq(a).any()` on the ignore list. */
  predicate IsIgnored(rows: seq<Row>, a: Address)
  {
    AddressRow(a) in rows
  }

  /** `df['Transaction Hash'].eq(h).any()` on the transactions table. */
  predicate HasHash(rows: seq<Row>, h: string)
  {
    exists r :: r in rows && r.TxRow? && r.hash == h
  }

  /** What the loop body of `ingest_erc721_from_block` makes of a transaction. */
  datatype Verdict = NoTarget | KnownIgnored | KnownHash | NoCode | NonCompliant | Erc721

  /** The fixed-order decision chain: null `to`, ignored address, recorded
      hash, empty code, non-compliant ABI, otherwise ERC-721. */
  function Decide(ignored: seq<Row>, recorded: seq<Row>, tx: Tx, o: Oracles): Verdict
  {
    if tx.to.None? then NoTarget
    else if IsIgnored(ignored, tx.to.value) then KnownIgnored
    else if HasHash(recorded, tx.hash) then KnownHash
    else if !o.hasCode(tx.to.value) then NoCode
    else if !IsErc721Compliant(FetchAbi(o, tx.to.value)) then NonCompliant
    else Erc721
  }

  /** One pass of the loop body over transaction `tx` of block `b` with
      timestamp `ts`. The ignore and transactions tables are loaded (and
      created if absent) for every transaction with a target; the contracts
      table only once the target is known to have code. */
  function StepTx(files: Files, b: nat, ts: nat, tx: Tx, o: Oracles): Files
  {
    var ignored := Loaded(files, IgnoreFile, IgnoreSchema);
    var transactions := Loaded(files, TransactionsFile, TransactionsSchema);
    var contracts := Loaded(files, ContractsFile, ContractsSchema);
    var loaded := Created(Created(files, IgnoreFile, IgnoreSchema), TransactionsFile, TransactionsSchema);
    match Decide(ignored.rows, transactions.rows, tx, o)
    case NoTarget => files
    case KnownIgnored => loaded
    case KnownHash => loaded
    case NoCode => Put(loaded, IgnoreFile, Append(ignored, AddressRow(tx.to.value)))
    case NonCompliant =>
      Put(Created(loaded, ContractsFile, ContractsSchema), IgnoreFile, Append(ignored, AddressRow(tx.to.value)))
    case Erc721 =>
      Put(Put(loaded, ContractsFile, Append(contracts, ContractRow(tx.to.value, AbiJson(o, tx.to.value)))),
          TransactionsFile, Append(transactions, TxRow(b, ts, tx.hash, o.txJson(tx))))
  }

  /** The loop over `block['transactions']`, first to last. */
  function StepTxs(files: Files, b: nat, ts: nat, txs: seq<Tx>, o: Oracles): Files
    decreases |txs|
  {
    if txs == [] then files
    else StepTx(StepTxs(files, b, ts, txs[..|txs| - 1], o), b, ts, txs[|txs| - 1], o)
  }

  /** `ingest_erc721_from_block(b)`: nothing when `b` is in the ledger;
      otherwise the transactions of the fetched block, if any, and then `b`
      is appended to the ledger as loaded at the start, even when the node
      returned no block. */
  function IngestBlockSpec(files: Files, b: nat, o: Oracles): Files
  {
    var ledger := Loaded(files, LedgerFile, LedgerSchema);
    var f0 := Created(files, LedgerFile, LedgerSchema);
    if IsIngested(ledger.rows, b) then f0
    else
      var f1 := match o.getBlock(b)
        case None => f0
        case Some(block) => StepTxs(f0, b, block.timestamp, block.transactions, o);
      Put(f1, LedgerFile, Append(ledger, BlockRow(b)))
  }

  /** The first `n` iterations of a loop over the blocks `start, start + 1, ...`
      whose body is `step`. */
  function Run(step: (Files, nat) -> Files, files: Files, start: nat, n: nat): Files
  {
    if n == 0 then files
    else step(Run(step, files, start, n - 1), start + n - 1)
  }

  /** The first `n` iterations of `for b in range(start, end + 1)`. */
  function IngestRun(files: Files, start: nat, n: nat, o: Oracles): Files
  {
    Run((f: Files, b: nat) => IngestBlockSpec(f, b, o), files, start, n)
  }

  /** The number of blocks `range(start, end + 1)` yields. */
  function RangeLength(start: nat, end: nat): nat
  {
    if end < start then 0 else end - start + 1
  }

  /** `ingest_erc721_from_blocks(start, end)` */
  function IngestRangeSpec(files: Files, start: nat, end: nat, o: Oracles): Files
  {
    IngestRun(files, start, RangeLength(start, end), o)
  }

  /** The body of the transaction loop of `ingest_erc721_from_block`. */
  method IngestTx(store: FileStore, blockNumber: nat, blockTimestamp: nat, tx: Tx, o: Oracles)
    modifies store
    ensures store.files == StepTx(old(store.files), blockNumber, blockTimestamp, tx, o)
  {
    if tx.to.Some? {
      var txHash := tx.hash;
      var contractAddress := tx.to.value;
      var ignored := store.GetParquet(IgnoreFile, IgnoreSchema);
      var transactions := store.GetParquet(TransactionsFile, TransactionsSchema);
      if IsIgnored(ignored.rows, contractAddress) {
        // a known non-contract or non-compliant address
      } else if HasHash(transactions.rows, txHash) {
        // this transaction is already recorded
      } else if !o.hasCode(contractAddress) {
        store.WriteParquet(IgnoreFile, Append(ignored, AddressRow(contractAddress)));
      } else {
        var contracts := store.GetParquet(ContractsFile, ContractsSchema);
        var abi := FetchAbi(o, contractAddress);
        if !IsErc721Compliant(abi) {
          store.WriteParquet(IgnoreFile, Append(ignored, AddressRow(contractAddress)));
        } else {
          store.WriteParquet(ContractsFile, Append(contracts, ContractRow(contractAddress, AbiJson(o, contractAddress))));
          var row := TxRow(blockNumber, blockTimestamp, txHash, o.txJson(tx));
          store.WriteParquet(TransactionsFile, Append(transactions, row));
        }
      }
    }
  }

  /** `ingest_erc721_from_block(block_number, ...)` */
  method IngestBlock(store: FileStore, blockNumber: nat, o: Oracles)
    modifies store
    ensures store.files == IngestBlockSpec(old(store.files), blockNumber, o)
  {
    var ledger := store.GetParquet(LedgerFile, LedgerSchema);
    if !IsIngested(ledger.rows, blockNumber) {
      var block := o.getBlock(blockNumber);
      if block.Some? {
        var blockTimestamp := block.value.timestamp;
        var txs := block.value.transactions;
        ghost var start := store.files;
        for i := 0 to |txs|
          invariant store.files == StepTxs(start, blockNumber, blockTimestamp, txs[..i], o)
        {
          IngestTx(store, blockNumber, blockTimestamp, txs[i], o);
          assert txs[..i + 1][..i] == txs[..i];
        }
        assert txs[..|txs|] == txs;
      }
      store.WriteParquet(LedgerFile, Append(ledger, BlockRow(blockNumber)));
    }
  }

  /** `ingest_erc721_from_blocks(start_block_number, end_block_number, ...)` */
  method IngestBlocks(store: FileStore, startBlock: nat, endBlock: nat, o: Oracles)
    modifies store
    ensures store.files == IngestRangeSpec(old(store.files), startBlock, endBlock, o)
  {
    ghost var initial := store.files;
    for n := 0 to RangeLength(startBlock, endBlock)
      invariant store.files == IngestRun(initial, startBlock, n, o)
    {
      IngestBlock(store, startBlock + n, o);
    }
  }
}
