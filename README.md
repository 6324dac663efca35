# ERC-721 ingestion pipeline, modelled in Dafny

This project models the core of an Ethereum NFT data pipeline. It has two parts.

- **Persistent ingestion** (`src/01_ingestion.py`). It walks a range of blocks. For each block not
  already recorded in a ledger file, it goes through the block's transactions. It skips a transaction
  whose `to` is null, whose target is already on an ignore list, or whose hash is already recorded.
  Otherwise it classifies the target. A target with no code, or whose explorer ABI fails the ERC-721
  test, goes to the ignore list. A target that passes gets a row in a contracts table, and the
  transaction gets a row in a transactions table. Finally the block number is appended to the ledger. The four tables are parquet files. Each is read in full and
  rewritten in full.
- **One-block activity report** (`erc721_activity.py`). It builds an in-memory frame of eleven
  columns. The frame has one row for each transaction of a block that calls a verified ERC-721
  contract, with the decoded function name and arguments.

Both scripts contain the same ERC-721 compliance test and the same explorer rule ("unverified source"
gives the empty ABI). The model defines each of them once, in module `Abi`.

Layout:

- `abi.dfy` (module `Abi`): ABI entries, the compliance test, the unverified-source rule, and their
  properties.
- `chain.dfy` (module `Chain`): blocks, transactions and the external collaborators. The node, the
  contract explorer and the JSON codecs are a datatype of total functions (`Oracles`). Asking twice
  therefore gives the same answer.
- `table_store.dfy` (module `TableStore`):
  - tables, rows and the directory of the four parquet files;
  - `get_parquet` as the class method `FileStore.GetParquet`;
  - whole-file writes as `FileStore.WriteParquet`.
- `ingestion.dfy` (module `Ingestion`):
  - the per-transaction decision chain, the block step and the range driver, as specification
    functions (`StepTx`, `StepTxs`, `IngestBlockSpec`, `IngestRun`, `IngestRangeSpec`);
  - the imperative methods that follow the source statement by statement (`IngestTx`, `IngestBlock`,
    `IngestBlocks`). Each method is proved to leave the store exactly as its specification function
    says.
- `ingestion_properties.dfy` (module `IngestionProperties`): what the ingestion guarantees about its
  tables. Lemmas are proved at transaction level, block level and range level.
- `activity.dfy` (module `Activity`): the report loop, specified by a fold over the block's
  transactions and characterised by an independent filter.

Where the code and its design description disagree, the model follows the code:

- A block the node does not return (`None`) is still appended to the ledger
  (`IngestionProperties.MissingBlockMarked`). Retrying that block later therefore does nothing.
- The contracts table is never consulted before classifying an address. A contract called by two
  unseen transactions gets two contract rows (`IngestionProperties.ContractRowsMayRepeat`).
- The ignore check (`src/01_ingestion.py:92`) runs before the contracts write, so an address already
  on the ignore list never gets a contract row (`IngestionProperties.DecideReading`). The other
  direction has no check: the contracts table is never read, so nothing stops an address with a
  contract row from being put on the ignore list later. That never happens only because the
  collaborators are deterministic (`IngestionProperties.ConsistentDisjoint`).
- There are no typed errors. The collaborators are total functions, so the model has no error paths.

## Model

| member | source | states |
|---|---|---|
| Abi.AnyNamedIff | src/01_ingestion.py:42 | the inner `any(...)` over entries of one type holds exactly when an entry with that type and name occurs |
| Abi.AllPresentIff | src/01_ingestion.py:42-44 | `all(any(...))` over the required names holds exactly when every required name is declared with the given type |
| Abi.CompliantIff | src/01_ingestion.py:37-47 | an ABI is compliant exactly when all eight function names occur as "function" entries and both event names occur as "event" entries |
| Abi.EmptyNotCompliant | src/01_ingestion.py:37-47 | the empty ABI is not compliant |
| Abi.UnverifiedNotCompliant | src/01_ingestion.py:27-35 | an unverified contract yields the empty ABI, whatever the JSON parser does, and is therefore never compliant |
| Abi.NoEventsNotCompliant | src/01_ingestion.py:44 | an ABI without any "event" entry is not compliant, even if it declares functions named "Transfer" and "Approval" |
| Abi.OtherKindsIrrelevant | src/01_ingestion.py:42-44 | inserting an entry of any other type (constructor, fallback, error, ...) anywhere does not change the verdict |
| Abi.CompliantMonotone | erc721_activity.py:21-31 | adding entries to a compliant ABI keeps it compliant |
| Abi.CompliantOrderIndependent | erc721_activity.py:21-31 | two ABIs with the same entries in another order get the same verdict |
| Abi.MinimalAbiCompliant | src/01_ingestion.py:38-39 | the ABI of exactly the eight required functions and two required events, ten entries, is compliant |
| Abi.GetAbi | src/01_ingestion.py:27-35 | the unverified marker yields the empty ABI; any other explorer result yields what the JSON parser makes of it |
| Chain.FetchAbi | erc721_activity.py:11-19 | the ABI fetched for an address whose explorer result is the unverified marker is empty |
| TableStore.Put | src/01_ingestion.py:101 | `write_parquet` leaves the written file holding exactly the new table and every other file as it was |
| TableStore.GetParquetSemantics | src/01_ingestion.py:19-25 | the file exists afterwards and holds the returned table; an existing file is returned unchanged and nothing is written; an absent file is created empty with the requested schema; no file changes its rows and the change only appends |
| TableStore.FileStore.GetParquet | src/01_ingestion.py:19-25 | returns the stored table or the empty one and leaves the directory as `Created` describes |
| TableStore.FileStore.WriteParquet | src/01_ingestion.py:101 | the written file is replaced by the new table and no other file changes |
| TableStore.Append | src/01_ingestion.py:100 | `pl.concat` of a one-row frame keeps the schema and the old rows as a prefix and adds the row last |
| Ingestion.IngestTx | src/01_ingestion.py:73-143 | the body of the transaction loop leaves the store exactly as `StepTx` of the old store |
| Ingestion.IngestBlock | src/01_ingestion.py:49-146 | the block ingest leaves the store exactly as `IngestBlockSpec` of the old store; the loop invariant is `StepTxs` over the transactions seen so far |
| Ingestion.IngestBlocks | src/01_ingestion.py:148-150 | the range driver leaves the store exactly as `IngestRangeSpec`, that is block after block from `start` to `end` inclusive |
| IngestionProperties.DecideReading | src/01_ingestion.py:73-118 | a transaction is recorded exactly when it has a target that is neither ignored nor already carries its hash and is an ERC-721 contract; its target is ignored exactly when it is unseen and not an ERC-721 contract; nothing happens exactly when `to` is null |
| IngestionProperties.StepTxAppendOnly | src/01_ingestion.py:81-143 | one transaction only appends: every existing file keeps its schema and its rows as a prefix, and the ledger is untouched |
| IngestionProperties.StepTxIgnoreRows | src/01_ingestion.py:92-117 | the ignore list gains the target, once, exactly when the chain rejects it (no code or not compliant), and is unchanged otherwise |
| IngestionProperties.StepTxRecordRows | src/01_ingestion.py:118-143 | the contracts table gains `(address, json(abi))` and the transactions table gains `(block number, block timestamp, hash, json(tx))` exactly when the chain accepts the transaction; otherwise both are unchanged |
| IngestionProperties.StepTxUnique | src/01_ingestion.py:92-143 | one transaction keeps the ledger, the ignore list and the transaction hashes free of duplicates |
| IngestionProperties.StepTxConsistent | src/01_ingestion.py:98-143 | one transaction keeps every ignored address a non-ERC-721 target and every contract row an ERC-721 contract with its ABI |
| IngestionProperties.StepTxsAppendOnly | src/01_ingestion.py:70-143 | the transaction loop only appends and does not touch the ledger |
| IngestionProperties.StepTxsUnique | src/01_ingestion.py:70-143 | the transaction loop keeps the tables free of duplicates |
| IngestionProperties.StepTxsConsistent | src/01_ingestion.py:70-143 | the transaction loop keeps the cache consistent with the collaborators |
| IngestionProperties.StepTxsRecordsAll | src/01_ingestion.py:70-143 | from a consistent cache, every call of the block to an ERC-721 contract has its hash recorded after the loop, by this loop or before it |
| IngestionProperties.StepTxsRows | src/01_ingestion.py:70-143 | every transaction row the loop adds records one of the block's transactions to an ERC-721 contract, with the block number and the block timestamp |
| IngestionProperties.ConsistentDisjoint | src/01_ingestion.py:98-128 | a consistent cache has no address both on the ignore list and in the contracts table |
| IngestionProperties.AlreadyIngested | src/01_ingestion.py:56-60 | a block already in the ledger leaves every file as it was |
| IngestionProperties.IngestBlockLedger | src/01_ingestion.py:56-146 | the ledger gains the block number exactly when it lacked it, and nothing else; afterwards the block is in the ledger |
| IngestionProperties.LedgerExactlyOnce | src/01_ingestion.py:56-146 | starting from a ledger without duplicates, the block occurs in it exactly once afterwards |
| IngestionProperties.MissingBlockMarked | src/01_ingestion.py:64-146 | when the node returns no block, the block is still appended to the ledger and no other file changes |
| IngestionProperties.IngestBlockAppendOnly | src/01_ingestion.py:49-146 | one block only appends to every file |
| IngestionProperties.IngestBlockUnique | src/01_ingestion.py:49-146 | one block keeps the ledger, the ignore list and the transaction hashes free of duplicates |
| IngestionProperties.IngestBlockConsistent | src/01_ingestion.py:49-146 | one block keeps the cache consistent with the collaborators |
| IngestionProperties.IngestBlockTxRows | src/01_ingestion.py:64-143 | new transaction rows come from transactions of the fetched block to ERC-721 contracts, with the requested number and the block's timestamp; a missing block adds none |
| IngestionProperties.IngestBlockRecordsAll | src/01_ingestion.py:49-146 | from a consistent cache, ingesting a block not yet in the ledger leaves every call of the fetched block to an ERC-721 contract with its hash recorded |
| IngestionProperties.IngestBlockIdempotent | src/01_ingestion.py:56-146 | ingesting the same block twice is the same as ingesting it once |
| IngestionProperties.ContractRowsMayRepeat | src/01_ingestion.py:102-128 | two unseen transactions of one block to the same ERC-721 contract append its contract row twice |
| IngestionProperties.RunAppendOnly | src/01_ingestion.py:148-150 | a loop over blocks whose body only appends only appends |
| IngestionProperties.RunPreserves | src/01_ingestion.py:148-150 | a loop over blocks whose body preserves an invariant preserves it |
| IngestionProperties.RunCovers | src/01_ingestion.py:148-150 | a loop whose body marks its block and keeps the ledger's rows leaves every visited block marked |
| IngestionProperties.RunLedger | src/01_ingestion.py:148-150 | a loop whose body appends its block to the ledger when absent, run over unmarked blocks, appends them all in ascending order |
| IngestionProperties.RunSplit | src/01_ingestion.py:148-150 | `m + n` iterations of a loop over blocks are `m` iterations followed by `n` more starting at block `start + m` |
| IngestionProperties.RunLeavesLater | src/01_ingestion.py:148-150 | a loop whose body marks only its own block leaves every block after the run unmarked if it was |
| IngestionProperties.IngestRunSplit | src/01_ingestion.py:148-150 | a range run of `m + n` blocks is a run of the first `m` followed by a run of the next `n` |
| IngestionProperties.IngestRunLeavesLater | src/01_ingestion.py:148-150 | a range run does not mark any block after the range |
| IngestionProperties.IngestRunConsistent | src/01_ingestion.py:148-150 | a range run keeps the cache consistent with the collaborators |
| IngestionProperties.IngestRunRecordsBlock | src/01_ingestion.py:148-150 | the iteration for a block not in the ledger at the start records every call of that block to an ERC-721 contract |
| IngestionProperties.RunRecordsCall | src/01_ingestion.py:148-150 | a call to an ERC-721 contract in a block of the run that was not in the ledger at the start is recorded once the run is over |
| IngestionProperties.IngestRunRecordsAll | src/01_ingestion.py:148-150 | from a consistent cache, a range run records every call to an ERC-721 contract in every block of the range that was not in the ledger and that the node returns |
| IngestionProperties.HasHashKept | src/01_ingestion.py:133-143 | a recorded transaction hash stays recorded while the files only grow |
| IngestionProperties.IngestRunAppendOnly | src/01_ingestion.py:148-150 | a range run only appends to every file |
| IngestionProperties.IngestRunInvariants | src/01_ingestion.py:148-150 | a range run keeps the tables free of duplicates and the cache consistent |
| IngestionProperties.IngestRunCovers | src/01_ingestion.py:148-150 | after a range run every block of the range is in the ledger |
| IngestionProperties.IngestRunLedger | src/01_ingestion.py:148-150 | over a range none of which was ingested, the ledger gains exactly the range, in ascending order |
| IngestionProperties.IngestRangeFacts | src/01_ingestion.py:148-150 | `ingest_erc721_from_blocks(s, e)` from a duplicate-free, consistent cache only appends, marks every block `s..e`, keeps the tables free of duplicates and the ignore list disjoint from the contracts table |
| IngestionProperties.IngestRangeLedger | src/01_ingestion.py:148-150 | over fresh blocks the ledger gains `s, s+1, ..., e` in that order; when `e < s` nothing changes |
| IngestionProperties.IngestRangeRecordsAll | src/01_ingestion.py:148-150 | `ingest_erc721_from_blocks(s, e)` from a consistent cache records every call to an ERC-721 contract made in a block of `s..e` that the node returns and the ledger did not hold |
| IngestionProperties.IngestRangeSplit | src/01_ingestion.py:148-150 | ingesting `s..e` equals ingesting `s..m` and then `m + 1..e`, so a range interrupted after block `m` is resumed by starting at `m + 1` |
| IngestionProperties.EmptyStoreInvariants | src/01_ingestion.py:19-25 | the empty directory satisfies every invariant, so the invariants hold of any store the pipeline builds from scratch |
| Activity.SliceIndex | erc721_activity.py:81 | a Python slice bound lies in `0..len`; a bound in `0..len` is kept, one in `-len..-1` counts from the end, one above `len` becomes `len` and one below `-len` becomes 0 |
| Activity.FunctionNameShape | erc721_activity.py:81 | `[10:-1]` keeps the characters between the tenth and the last, and gives the empty string for a string of at most eleven characters |
| Activity.FunctionNameOfPrinted | erc721_activity.py:81 | slicing the printed `<Function sig>` gives back `sig` |
| Activity.GetErc721Transactions | erc721_activity.py:33-107 | the frame always has the eleven-column schema; it is empty when the node returns no block, and otherwise holds the loop's rows for the block's transactions |
| Activity.ActivityRowsByTransaction | erc721_activity.py:64-103 | the frame has exactly one row per qualifying transaction (target not null, has code, compliant ABI), in block order, each built from that transaction |
| Activity.QualifyingMembers | erc721_activity.py:67-78 | a transaction is reported exactly when it occurs in the block and qualifies; there are never more rows than transactions |
| Activity.QualifyingAppend | erc721_activity.py:64-103 | the reported transactions of a concatenation are those of each part, in order |
| Activity.ActivityRowFields | erc721_activity.py:84-96 | every row carries the block's number, hash and timestamp and the hash, target, sender, value, gas limit and gas price of one qualifying transaction of the block |
| Activity.NoQualifyingNoRows | erc721_activity.py:58-103 | a block without any call to an ERC-721 contract gives an empty frame |

## Left out

- HTTP and JSON-RPC calls, the explorer request and `json.loads`/`json.dumps` are not modelled. They
  are the deterministic, total functions of `Chain.Oracles`. Network failures, malformed JSON and the
  exceptions they raise are therefore not modelled either.
- `web3.eth.get_code(a) == '0x'` is the oracle `hasCode`. The comparison is between the `HexBytes`
  the library returns and a `str`, and in Python it may never hold. The model covers that case as the
  oracle that is always true: every property above is proved for every `hasCode`.
- ABI entries are reduced to their "type" and "name" keys for the compliance test. In the source,
  an entry without "type", or a "function" or "event" entry without "name", raises `KeyError` when
  the scan reaches it (`any` stops at the first match, so later entries may never be read). That is
  not modelled. The stored ABI text and the decoder take the explorer's full result
  (`Chain.Oracles.abiJson`, `Chain.Oracles.decodeInput`).
- Parquet encoding, column dtypes, the Int64/UInt64 widths and the overflow of a `value` or `gas` above
  2^64 in the report frame are not modelled. Numbers are unbounded naturals.
- The directory is modelled as the four files the ingestion uses (`TableStore.File`), each present or
  absent. Their paths are in the comment on that datatype. Other files and the file system's own failures
  (unwritable path, schema mismatch on read) are not modelled.
- Writes are atomic in the model. A crash between the contracts write and the transactions write of
  one accepted transaction, or between a write and the ledger update, is not modelled. The order of
  the writes is kept in `Ingestion.IngestTx` and `Ingestion.IngestBlock`.
- Chain.FetchAbi: its contract states only the unverified case. For any other explorer result the
  ABI is whatever the parser oracle returns.
- `print(block_df)`, reading the API keys from the environment, the module-level invocations on block
  17497810 and the `HexJsonEncoder` class are not modelled. `HexJsonEncoder` is part of the `txJson`
  oracle.
- `decode_function_input` (`erc721_activity.py:80`) raises `ValueError` when no function of the ABI
  matches the input's selector, for example an ERC-721 call with empty input. That exception aborts
  the whole `get_erc721_transactions` call. The model's `decodeInput` is total, so
  `Activity.GetErc721Transactions` emits a row for such a transaction instead. The dropped exception
  path is not modelled.
- `web3.eth.contract(address=...)` in the report builds an object that is never used. It is not
  modelled.
- `src/02_processing.py` is not part of this model.
