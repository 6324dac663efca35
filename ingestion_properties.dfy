/** What the ingestion promises about its four tables: they only grow, the
    ledger, the ignore list and the transaction hashes stay free of
    duplicates, an address classified once is never classified the other
    way, an ingested block is left alone, and a range run marks every block
    of the range in ascending order. */
module IngestionProperties {
  import opened Abi
  import opened Chain
  import opened TableStore
  import opened Ingestion

  /** The transaction calls an address that is neither ignored nor carries an already recorded hash. */
  predicate Unseen(files: Files, tx: Tx)
  {
    && tx.to.Some?
    && !IsIgnored(Rows(files, IgnoreFile), tx.to.value)
    && !HasHash(Rows(files, TransactionsFile), tx.hash)
  }

  /** The step records the transaction: unseen, and its target is an ERC-721 contract. */
  predicate Records(files: Files, tx: Tx, o: Oracles)
  {
    Unseen(files, tx) && IsErc721Contract(o, tx.to.value)
  }

  /** The step ignores the target: unseen, and it has no code or fails the ERC-721 test. */
  predicate Ignores(files: Files, tx: Tx, o: Oracles)
  {
    Unseen(files, tx) && !IsErc721Contract(o, tx.to.value)
  }

  ghost predicate Distinct(rows: seq<Row>)
  {
    forall i, j | 0 <= i < j < |rows| :: rows[i] != rows[j]
  }

  lemma DistinctAppend(rows: seq<Row>, x: Row)
    requires Distinct(rows) && x !in rows
    ensures Distinct(rows + [x])
  {
  }

  ghost predicate DistinctHashes(rows: seq<Row>)
  {
    forall i, j | 0 <= i < j < |rows| && rows[i].TxRow? && rows[j].TxRow? :: rows[i].hash != rows[j].hash
  }

  /** No block twice in the ledger, no address twice in the ignore list, no hash twice among the transactions. */
  ghost predicate Unique(files: Files)
  {
    && Distinct(Rows(files, LedgerFile))
    && Distinct(Rows(files, IgnoreFile))
    && DistinctHashes(Rows(files, TransactionsFile))
  }

  /** The cached classification agrees with the oracles: ignored addresses are
      not ERC-721 contracts, contract rows are, and carry that contract's ABI. */
  ghost predicate Consistent(files: Files, o: Oracles)
  {
    && (forall r | r in Rows(files, IgnoreFile) && r.AddressRow? :: !IsErc721Contract(o, r.address))
    && (forall r | r in Rows(files, ContractsFile) && r.ContractRow? ::
          IsErc721Contract(o, r.address) && r.abi == AbiJson(o, r.address))
  }

  /** No address is both on the ignore list and in the contracts table. */
  ghost predicate Disjoint(files: Files)
  {
    var ignored, contracts := Rows(files, IgnoreFile), Rows(files, ContractsFile);
    forall i, j | 0 <= i < |ignored| && 0 <= j < |contracts| && ignored[i].AddressRow? && contracts[j].ContractRow? ::
      ignored[i].address != contracts[j].address
  }

  /** The ledger file is untouched: present afterwards exactly when present before, with the same table. */
  predicate LedgerKept(before: Files, after: Files)
  {
    after.ledger == before.ledger
  }

  /** Every transaction row past `before` was made from a transaction of `txs`
      to an ERC-721 contract, with block number `b` and timestamp `ts`. */
  ghost predicate RowsFromBlock(before: seq<Row>, after: seq<Row>, b: nat, ts: nat, txs: seq<Tx>, o: Oracles)
  {
    && before <= after
    && forall k | |before| <= k < |after| :: RowFromBlock(after[k], b, ts, txs, o)
  }

  /** The row records one of `txs`, a call to an ERC-721 contract, with block number `b` and timestamp `ts`. */
  ghost predicate RowFromBlock(row: Row, b: nat, ts: nat, txs: seq<Tx>, o: Oracles)
  {
    exists t :: t in txs && t.to.Some? && IsErc721Contract(o, t.to.value) && row == TxRow(b, ts, t.hash, o.txJson(t))
  }

  /** The decision chain, read declaratively: a transaction is recorded exactly
      when it is unseen and calls an ERC-721 contract, and its target is
      ignored exactly when it is unseen and calls anything else. */
  lemma DecideReading(files: Files, tx: Tx, o: Oracles)
    ensures Decide(Rows(files, IgnoreFile), Rows(files, TransactionsFile), tx, o) == Erc721 <==> Records(files, tx, o)
    ensures Decide(Rows(files, IgnoreFile), Rows(files, TransactionsFile), tx, o) in {NoCode, NonCompliant} <==> Ignores(files, tx, o)
    ensures Decide(Rows(files, IgnoreFile), Rows(files, TransactionsFile), tx, o) == NoTarget <==> tx.to.None?
  {
  }

  /** One transaction only appends: every file keeps its schema and its rows
      as a prefix, and the ledger file is not touched. */
  lemma StepTxAppendOnly(files: Files, b: nat, ts: nat, tx: Tx, o: Oracles)
    ensures AppendOnly(files, StepTx(files, b, ts, tx, o))
    ensures LedgerKept(files, StepTx(files, b, ts, tx, o))
  {
    var ignored := Loaded(files, IgnoreFile, IgnoreSchema);
    var transactions := Loaded(files, TransactionsFile, TransactionsSchema);
    var contracts := Loaded(files, ContractsFile, ContractsSchema);
    var f1 := Created(files, IgnoreFile, IgnoreSchema);
    var loaded := Created(f1, TransactionsFile, TransactionsSchema);
    GetParquetSemantics(files, IgnoreFile, IgnoreSchema);
    GetParquetSemantics(f1, TransactionsFile, TransactionsSchema);
    AppendOnlyTransitive(files, f1, loaded);
    var after := StepTx(files, b, ts, tx, o);
    match Decide(ignored.rows, transactions.rows, tx, o)
    case NoTarget =>
    case KnownIgnored =>
    case KnownHash =>
    case NoCode =>
      AppendExtends(ignored, AddressRow(tx.to.value));
      PutAppendOnly(loaded, IgnoreFile, Append(ignored, AddressRow(tx.to.value)));
      AppendOnlyTransitive(files, loaded, after);
    case NonCompliant =>
      var f3 := Created(loaded, ContractsFile, ContractsSchema);
      GetParquetSemantics(loaded, ContractsFile, ContractsSchema);
      AppendOnlyTransitive(files, loaded, f3);
      AppendExtends(ignored, AddressRow(tx.to.value));
      PutAppendOnly(f3, IgnoreFile, Append(ignored, AddressRow(tx.to.value)));
      AppendOnlyTransitive(files, f3, after);
    case Erc721 =>
      var contract := Append(contracts, ContractRow(tx.to.value, AbiJson(o, tx.to.value)));
      var f3 := Put(loaded, ContractsFile, contract);
      AppendExtends(contracts, ContractRow(tx.to.value, AbiJson(o, tx.to.value)));
      PutAppendOnly(loaded, ContractsFile, contract);
      AppendOnlyTransitive(files, loaded, f3);
      AppendExtends(transactions, TxRow(b, ts, tx.hash, o.txJson(tx)));
      PutAppendOnly(f3, TransactionsFile, Append(transactions, TxRow(b, ts, tx.hash, o.txJson(tx))));
      AppendOnlyTransitive(files, f3, after);
  }

  /** The ignore list gains the target, once, exactly when the chain rejects it. */
  lemma StepTxIgnoreRows(files: Files, b: nat, ts: nat, tx: Tx, o: Oracles)
    ensures Rows(StepTx(files, b, ts, tx, o), IgnoreFile) ==
              Rows(files, IgnoreFile) + (if Ignores(files, tx, o) then [AddressRow(tx.to.value)] else [])
  {
  }

  /** A contract row with the target's ABI and a transaction row with the
      block number, block timestamp and hash are appended exactly when the
      chain accepts the transaction; otherwise both tables are unchanged. */
  lemma StepTxRecordRows(files: Files, b: nat, ts: nat, tx: Tx, o: Oracles)
    ensures Rows(StepTx(files, b, ts, tx, o), ContractsFile) ==
              Rows(files, ContractsFile) +
              (if Records(files, tx, o) then [ContractRow(tx.to.value, AbiJson(o, tx.to.value))] else [])
    ensures Rows(StepTx(files, b, ts, tx, o), TransactionsFile) ==
              Rows(files, TransactionsFile) + (if Records(files, tx, o) then [TxRow(b, ts, tx.hash, o.txJson(tx))] else [])
  {
  }

  /** One transaction keeps the tables free of duplicates. */
  lemma StepTxUnique(files: Files, b: nat, ts: nat, tx: Tx, o: Oracles)
    requires Unique(files)
    ensures Unique(StepTx(files, b, ts, tx, o))
  {
    StepTxAppendOnly(files, b, ts, tx, o);
    StepTxIgnoreRows(files, b, ts, tx, o);
    StepTxRecordRows(files, b, ts, tx, o);
    var after := StepTx(files, b, ts, tx, o);
    assert Rows(after, LedgerFile) == Rows(files, LedgerFile);
    if Ignores(files, tx, o) {
      DistinctAppend(Rows(files, IgnoreFile), AddressRow(tx.to.value));
    }
    var txs := Rows(after, TransactionsFile);
    forall i, j | 0 <= i < j < |txs| && txs[i].TxRow? && txs[j].TxRow? ensures txs[i].hash != txs[j].hash {
      if j == |Rows(files, TransactionsFile)| {
        assert txs[i] in Rows(files, TransactionsFile);
      }
    }
  }

  /** One transaction keeps the cache consistent with the oracles. */
  lemma StepTxConsistent(files: Files, b: nat, ts: nat, tx: Tx, o: Oracles)
    requires Consistent(files, o)
    ensures Consistent(StepTx(files, b, ts, tx, o), o)
  {
    StepTxIgnoreRows(files, b, ts, tx, o);
    StepTxRecordRows(files, b, ts, tx, o);
  }

  /** The transaction loop of one block only appends and leaves the ledger alone. */
  lemma {:induction false} StepTxsAppendOnly(files: Files, b: nat, ts: nat, txs: seq<Tx>, o: Oracles)
    ensures AppendOnly(files, StepTxs(files, b, ts, txs, o))
    ensures LedgerKept(files, StepTxs(files, b, ts, txs, o))
    decreases |txs|
  {
    if txs != [] {
      var mid := StepTxs(files, b, ts, txs[..|txs| - 1], o);
      StepTxsAppendOnly(files, b, ts, txs[..|txs| - 1], o);
      StepTxAppendOnly(mid, b, ts, txs[|txs| - 1], o);
      AppendOnlyTransitive(files, mid, StepTxs(files, b, ts, txs, o));
    }
  }

  /** The transaction loop of one block keeps the tables free of duplicates. */
  lemma {:induction false} StepTxsUnique(files: Files, b: nat, ts: nat, txs: seq<Tx>, o: Oracles)
    requires Unique(files)
    ensures Unique(StepTxs(files, b, ts, txs, o))
    decreases |txs|
  {
    if txs != [] {
      StepTxsUnique(files, b, ts, txs[..|txs| - 1], o);
      StepTxUnique(StepTxs(files, b, ts, txs[..|txs| - 1], o), b, ts, txs[|txs| - 1], o);
    }
  }

  /** The transaction loop of one block keeps the cache consistent with the oracles. */
  lemma {:induction false} StepTxsConsistent(files: Files, b: nat, ts: nat, txs: seq<Tx>, o: Oracles)
    requires Consistent(files, o)
    ensures Consistent(StepTxs(files, b, ts, txs, o), o)
    decreases |txs|
  {
    if txs != [] {
      StepTxsConsistent(files, b, ts, txs[..|txs| - 1], o);
      StepTxConsistent(StepTxs(files, b, ts, txs[..|txs| - 1], o), b, ts, txs[|txs| - 1], o);
    }
  }

  /** Every transaction row the loop adds comes from one of the block's
      transactions to an ERC-721 contract and carries `b` and `ts`. */
  lemma {:induction false} StepTxsRows(files: Files, b: nat, ts: nat, txs: seq<Tx>, o: Oracles)
    ensures RowsFromBlock(Rows(files, TransactionsFile), Rows(StepTxs(files, b, ts, txs, o), TransactionsFile), b, ts, txs, o)
    decreases |txs|
  {
    if txs != [] {
      var front, last := txs[..|txs| - 1], txs[|txs| - 1];
      var mid := StepTxs(files, b, ts, front, o);
      StepTxsRows(files, b, ts, front, o);
      StepTxRecordRows(mid, b, ts, last, o);
      var r0, r1, r2 := Rows(files, TransactionsFile), Rows(mid, TransactionsFile), Rows(StepTx(mid, b, ts, last, o), TransactionsFile);
      assert txs == front + [last];
      assert StepTxs(files, b, ts, txs, o) == StepTx(mid, b, ts, last, o);
      assert r0 <= r1 <= r2;
      forall k | |r0| <= k < |r2| ensures RowFromBlock(r2[k], b, ts, txs, o) {
        if k < |r1| {
          assert RowFromBlock(r1[k], b, ts, front, o);
          var t :| t in front && t.to.Some? && IsErc721Contract(o, t.to.value) && r1[k] == TxRow(b, ts, t.hash, o.txJson(t));
          assert t in txs && r2[k] == r1[k];
        } else {
          assert r2[k] == TxRow(b, ts, last.hash, o.txJson(last));
          assert last in txs;
        }
      }
    }
  }

  /** Every call of `txs` to an ERC-721 contract has its hash among the
      recorded transactions once the loop is over: the loop recorded it, or
      it was recorded before. Nothing the chain accepts is lost, because a
      consistent cache never ignores an ERC-721 contract. */
  lemma {:induction false} StepTxsRecordsAll(files: Files, b: nat, ts: nat, txs: seq<Tx>, o: Oracles)
    requires Consistent(files, o)
    ensures forall t | t in txs && t.to.Some? && IsErc721Contract(o, t.to.value) ::
              HasHash(Rows(StepTxs(files, b, ts, txs, o), TransactionsFile), t.hash)
    decreases |txs|
  {
    if txs != [] {
      var front, last := txs[..|txs| - 1], txs[|txs| - 1];
      var mid := StepTxs(files, b, ts, front, o);
      StepTxsRecordsAll(files, b, ts, front, o);
      StepTxsConsistent(files, b, ts, front, o);
      StepTxRecordRows(mid, b, ts, last, o);
      var r1, r2 := Rows(mid, TransactionsFile), Rows(StepTx(mid, b, ts, last, o), TransactionsFile);
      assert txs == front + [last];
      assert StepTxs(files, b, ts, txs, o) == StepTx(mid, b, ts, last, o);
      forall t | t in txs && t.to.Some? && IsErc721Contract(o, t.to.value) ensures HasHash(r2, t.hash) {
        if t in front {
          var r :| r in r1 && r.TxRow? && r.hash == t.hash;
          assert r in r2;
        } else if Records(mid, last, o) {
          assert r2[|r1|] == TxRow(b, ts, last.hash, o.txJson(last));
        } else {
          assert !IsIgnored(Rows(mid, IgnoreFile), last.to.value);
          var r :| r in r1 && r.TxRow? && r.hash == last.hash;
          assert r in r2;
        }
      }
    }
  }

  /** The cache agrees with the oracles, so no address is both ignored and a recorded contract. */
  lemma ConsistentDisjoint(files: Files, o: Oracles)
    requires Consistent(files, o)
    ensures Disjoint(files)
  {
  }

  /** A block already in the ledger leaves all four tables, and every other file, as they were. */
  lemma AlreadyIngested(files: Files, b: nat, o: Oracles)
    requires IsIngested(Rows(files, LedgerFile), b)
    ensures IngestBlockSpec(files, b, o) == files
  {
  }

  /** The ledger gains `b` exactly when it lacks it, and gains nothing else;
      a missing block is still marked. */
  lemma IngestBlockLedger(files: Files, b: nat, o: Oracles)
    ensures Rows(IngestBlockSpec(files, b, o), LedgerFile) ==
              Rows(files, LedgerFile) + (if IsIngested(Rows(files, LedgerFile), b) then [] else [BlockRow(b)])
    ensures IsIngested(Rows(IngestBlockSpec(files, b, o), LedgerFile), b)
  {
  }

  lemma {:induction false} DistinctCount(rows: seq<Row>, x: Row)
    requires Distinct(rows) && x in rows
    ensures multiset(rows)[x] == 1
  {
    var k := |rows| - 1;
    var front := rows[..k];
    assert rows == front + [rows[k]];
    assert Distinct(front);
    if rows[k] == x {
      assert x !in front;
    } else {
      DistinctCount(front, x);
    }
  }

  /** Starting from a ledger without duplicates, `b` is in it exactly once afterwards. */
  lemma LedgerExactlyOnce(files: Files, b: nat, o: Oracles)
    requires Distinct(Rows(files, LedgerFile))
    ensures multiset(Rows(IngestBlockSpec(files, b, o), LedgerFile))[BlockRow(b)] == 1
  {
    IngestBlockLedger(files, b, o);
    if IsIngested(Rows(files, LedgerFile), b) {
      DistinctCount(Rows(files, LedgerFile), BlockRow(b));
    } else {
      assert BlockRow(b) !in multiset(Rows(files, LedgerFile));
    }
  }

  /** When the node has no block `b`, only the ledger changes: `b` is marked ingested anyway. */
  lemma MissingBlockMarked(files: Files, b: nat, o: Oracles)
    requires o.getBlock(b).None? && !IsIngested(Rows(files, LedgerFile), b)
    ensures Rows(IngestBlockSpec(files, b, o), LedgerFile) == Rows(files, LedgerFile) + [BlockRow(b)]
    ensures forall f :: f != LedgerFile ==> Get(IngestBlockSpec(files, b, o), f) == Get(files, f)
  {
  }

  /** The transactions of the fetched block, if any, run against the files
      as they are once the ledger is loaded. */
  function BlockTxs(files: Files, b: nat, o: Oracles): Files
  {
    var f0 := Created(files, LedgerFile, LedgerSchema);
    match o.getBlock(b)
    case None => f0
    case Some(block) => StepTxs(f0, b, block.timestamp, block.transactions, o)
  }

  /** A block that is not yet ingested: its transactions, then the ledger row. */
  lemma IngestBlockUnfold(files: Files, b: nat, o: Oracles)
    requires !IsIngested(Rows(files, LedgerFile), b)
    ensures IngestBlockSpec(files, b, o) ==
              Put(BlockTxs(files, b, o), LedgerFile, Append(Loaded(files, LedgerFile, LedgerSchema), BlockRow(b)))
  {
  }

  /** One block only appends to every file. */
  lemma IngestBlockAppendOnly(files: Files, b: nat, o: Oracles)
    ensures AppendOnly(files, IngestBlockSpec(files, b, o))
  {
    var f0 := Created(files, LedgerFile, LedgerSchema);
    GetParquetSemantics(files, LedgerFile, LedgerSchema);
    if !IsIngested(Rows(files, LedgerFile), b) {
      var f1 := BlockTxs(files, b, o);
      match o.getBlock(b)
      case None =>
      case Some(block) => StepTxsAppendOnly(f0, b, block.timestamp, block.transactions, o);
      AppendOnlyTransitive(files, f0, f1);
      IngestBlockUnfold(files, b, o);
      AppendOnlyTransitive(files, f1, IngestBlockSpec(files, b, o));
    }
  }

  /** One block keeps the ledger, the ignore list and the transaction hashes free of duplicates. */
  lemma IngestBlockUnique(files: Files, b: nat, o: Oracles)
    requires Unique(files)
    ensures Unique(IngestBlockSpec(files, b, o))
  {
    var f0 := Created(files, LedgerFile, LedgerSchema);
    GetParquetSemantics(files, LedgerFile, LedgerSchema);
    IngestBlockLedger(files, b, o);
    if !IsIngested(Rows(files, LedgerFile), b) {
      var f1 := BlockTxs(files, b, o);
      assert Unique(f0);
      match o.getBlock(b)
      case None =>
      case Some(block) => StepTxsUnique(f0, b, block.timestamp, block.transactions, o);
      assert Unique(f1);
      IngestBlockUnfold(files, b, o);
      DistinctAppend(Rows(files, LedgerFile), BlockRow(b));
    }
  }

  /** One block keeps the cache consistent with the oracles. */
  lemma IngestBlockConsistent(files: Files, b: nat, o: Oracles)
    requires Consistent(files, o)
    ensures Consistent(IngestBlockSpec(files, b, o), o)
  {
    var f0 := Created(files, LedgerFile, LedgerSchema);
    GetParquetSemantics(files, LedgerFile, LedgerSchema);
    if !IsIngested(Rows(files, LedgerFile), b) {
      assert Consistent(f0, o);
      match o.getBlock(b)
      case None =>
      case Some(block) => StepTxsConsistent(f0, b, block.timestamp, block.transactions, o);
      IngestBlockUnfold(files, b, o);
    }
  }

  /** Every transaction row one block adds comes from a transaction of the
      fetched block to an ERC-721 contract, with the requested block number
      and the block's timestamp; a missing block adds none. */
  lemma IngestBlockTxRows(files: Files, b: nat, o: Oracles)
    ensures var after := IngestBlockSpec(files, b, o);
            match o.getBlock(b)
            case None => Rows(after, TransactionsFile) == Rows(files, TransactionsFile)
            case Some(block) =>
              RowsFromBlock(Rows(files, TransactionsFile), Rows(after, TransactionsFile), b, block.timestamp, block.transactions, o)
  {
    var f0 := Created(files, LedgerFile, LedgerSchema);
    GetParquetSemantics(files, LedgerFile, LedgerSchema);
    if !IsIngested(Rows(files, LedgerFile), b) {
      IngestBlockUnfold(files, b, o);
      match o.getBlock(b)
      case None =>
      case Some(block) =>
        StepTxsRows(f0, b, block.timestamp, block.transactions, o);
    }
  }

  /** Ingesting a block that is not yet in the ledger leaves every call of
      the fetched block to an ERC-721 contract with its hash recorded. */
  lemma IngestBlockRecordsAll(files: Files, b: nat, o: Oracles)
    requires Consistent(files, o) && !IsIngested(Rows(files, LedgerFile), b) && o.getBlock(b).Some?
    ensures forall t | t in o.getBlock(b).value.transactions && t.to.Some? && IsErc721Contract(o, t.to.value) ::
              HasHash(Rows(IngestBlockSpec(files, b, o), TransactionsFile), t.hash)
  {
    var f0 := Created(files, LedgerFile, LedgerSchema);
    GetParquetSemantics(files, LedgerFile, LedgerSchema);
    assert Consistent(f0, o);
    var block := o.getBlock(b).value;
    StepTxsRecordsAll(f0, b, block.timestamp, block.transactions, o);
    IngestBlockUnfold(files, b, o);
  }

  /** Ingesting the same block a second time changes nothing. */
  lemma IngestBlockIdempotent(files: Files, b: nat, o: Oracles)
    ensures IngestBlockSpec(IngestBlockSpec(files, b, o), b, o) == IngestBlockSpec(files, b, o)
  {
  }

  /** Contracts are never looked up before classifying: two unseen calls to
      the same ERC-721 contract in one block append its row twice. */
  lemma ContractRowsMayRepeat(files: Files, b: nat, ts: nat, t1: Tx, t2: Tx, o: Oracles)
    requires Records(files, t1, o)
    requires t2.to == t1.to && t2.hash != t1.hash && !HasHash(Rows(files, TransactionsFile), t2.hash)
    ensures var row := ContractRow(t1.to.value, AbiJson(o, t1.to.value));
            Rows(StepTxs(files, b, ts, [t1, t2], o), ContractsFile) == Rows(files, ContractsFile) + [row, row]
  {
    assert [t1, t2][..1] == [t1];
    assert [t1][..0] == [];
    var mid := StepTx(files, b, ts, t1, o);
    assert StepTxs(files, b, ts, [t1], o) == mid;
    assert StepTxs(files, b, ts, [t1, t2], o) == StepTx(mid, b, ts, t2, o);
    StepTxIgnoreRows(files, b, ts, t1, o);
    StepTxRecordRows(files, b, ts, t1, o);
    StepTxRecordRows(mid, b, ts, t2, o);
    var recorded := Rows(mid, TransactionsFile);
    assert recorded == Rows(files, TransactionsFile) + [TxRow(b, ts, t1.hash, o.txJson(t1))];
    assert !HasHash(recorded, t2.hash) by {
      forall r | r in recorded && r.TxRow? ensures r.hash != t2.hash {
        if r !in Rows(files, TransactionsFile) {
          assert r == TxRow(b, ts, t1.hash, o.txJson(t1));
        }
      }
    }
    assert Records(mid, t2, o);
  }

  /** A loop whose body only appends only appends. */
  lemma {:induction false} RunAppendOnly(step: (Files, nat) -> Files, files: Files, start: nat, n: nat)
    requires forall f: Files, b: nat :: AppendOnly(f, step(f, b))
    ensures AppendOnly(files, Run(step, files, start, n))
  {
    if n > 0 {
      var before := Run(step, files, start, n - 1);
      RunAppendOnly(step, files, start, n - 1);
      AppendOnlyTransitive(files, before, step(before, start + n - 1));
    }
  }

  /** A loop whose body preserves `inv` preserves it. */
  lemma {:induction false} RunPreserves(step: (Files, nat) -> Files, inv: Files -> bool, files: Files, start: nat, n: nat)
    requires inv(files)
    requires forall f: Files, b: nat :: inv(f) ==> inv(step(f, b))
    ensures inv(Run(step, files, start, n))
  {
    if n > 0 {
      RunPreserves(step, inv, files, start, n - 1);
    }
  }

  /** A loop whose body marks its block in the ledger, keeping what is
      there, leaves every block it visited marked. */
  lemma {:induction false} RunCovers(step: (Files, nat) -> Files, files: Files, start: nat, n: nat)
    requires forall f: Files, b: nat :: Rows(f, LedgerFile) <= Rows(step(f, b), LedgerFile)
    requires forall f: Files, b: nat :: IsIngested(Rows(step(f, b), LedgerFile), b)
    ensures forall k :: start <= k < start + n ==> IsIngested(Rows(Run(step, files, start, n), LedgerFile), k)
  {
    if n > 0 {
      var before := Run(step, files, start, n - 1);
      var after := Run(step, files, start, n);
      RunCovers(step, files, start, n - 1);
      assert Rows(before, LedgerFile) <= Rows(after, LedgerFile);
      forall k | start <= k < start + n ensures IsIngested(Rows(after, LedgerFile), k) {
        if k < start + n - 1 {
          assert IsIngested(Rows(before, LedgerFile), k);
        }
      }
    }
  }

  /** A loop whose body appends its block to the ledger unless it is there
      already, run over blocks none of which is there, appends them all in
      ascending order. */
  lemma {:induction false} RunLedger(step: (Files, nat) -> Files, files: Files, start: nat, n: nat)
    requires forall f: Files, b: nat :: Rows(step(f, b), LedgerFile) ==
               Rows(f, LedgerFile) + (if IsIngested(Rows(f, LedgerFile), b) then [] else [BlockRow(b)])
    requires forall k :: start <= k < start + n ==> !IsIngested(Rows(files, LedgerFile), k)
    ensures Rows(Run(step, files, start, n), LedgerFile) == Rows(files, LedgerFile) + seq(n, i => BlockRow(start + i))
  {
    if n > 0 {
      var before := Run(step, files, start, n - 1);
      RunLedger(step, files, start, n - 1);
      var newRows := seq(n - 1, i => BlockRow(start + i));
      assert !IsIngested(Rows(before, LedgerFile), start + n - 1) by {
        assert !IsIngested(Rows(files, LedgerFile), start + n - 1);
        forall i | 0 <= i < n - 1 ensures newRows[i] != BlockRow(start + n - 1) {
        }
      }
      assert seq(n, i => BlockRow(start + i)) == newRows + [BlockRow(start + n - 1)];
    }
  }

  /** Running `m + n` iterations is running `m` and then `n` more from where they stopped. */
  lemma {:induction false} RunSplit(step: (Files, nat) -> Files, files: Files, start: nat, m: nat, n: nat)
    ensures Run(step, files, start, m + n) == Run(step, Run(step, files, start, m), start + m, n)
  {
    if n > 0 {
      RunSplit(step, files, start, m, n - 1);
    }
  }

  /** A loop whose body marks only its own block leaves every later block as it found it. */
  lemma {:induction false} RunLeavesLater(step: (Files, nat) -> Files, files: Files, start: nat, n: nat, k: nat)
    requires forall f: Files, b: nat :: Rows(step(f, b), LedgerFile) ==
               Rows(f, LedgerFile) + (if IsIngested(Rows(f, LedgerFile), b) then [] else [BlockRow(b)])
    requires start + n <= k && !IsIngested(Rows(files, LedgerFile), k)
    ensures !IsIngested(Rows(Run(step, files, start, n), LedgerFile), k)
  {
    if n > 0 {
      RunLeavesLater(step, files, start, n - 1, k);
    }
  }

  /** A recorded hash stays recorded while the files only grow. */
  lemma HasHashKept(before: Files, after: Files, h: string)
    requires AppendOnly(before, after) && HasHash(Rows(before, TransactionsFile), h)
    ensures HasHash(Rows(after, TransactionsFile), h)
  {
    var r :| r in Rows(before, TransactionsFile) && r.TxRow? && r.hash == h;
    assert Rows(before, TransactionsFile) <= Rows(after, TransactionsFile);
    assert r in Rows(after, TransactionsFile);
  }

  /** A range run only appends to every file. */
  lemma IngestRunAppendOnly(files: Files, start: nat, n: nat, o: Oracles)
    ensures AppendOnly(files, IngestRun(files, start, n, o))
  {
    var step := (f: Files, b: nat) => IngestBlockSpec(f, b, o);
    forall f: Files, b: nat ensures AppendOnly(f, step(f, b)) {
      IngestBlockAppendOnly(f, b, o);
    }
    RunAppendOnly(step, files, start, n);
  }

  /** A range run keeps the tables free of duplicates and the cache consistent with the oracles. */
  lemma IngestRunInvariants(files: Files, start: nat, n: nat, o: Oracles)
    requires Unique(files) && Consistent(files, o)
    ensures Unique(IngestRun(files, start, n, o)) && Consistent(IngestRun(files, start, n, o), o)
  {
    var step := (f: Files, b: nat) => IngestBlockSpec(f, b, o);
    var inv := (f: Files) => Unique(f) && Consistent(f, o);
    forall f: Files, b: nat | inv(f) ensures inv(step(f, b)) {
      IngestBlockUnique(f, b, o);
      IngestBlockConsistent(f, b, o);
    }
    RunPreserves(step, inv, files, start, n);
  }

  /** After a range run every block of the range is in the ledger, whether it was before or not. */
  lemma IngestRunCovers(files: Files, start: nat, n: nat, o: Oracles)
    ensures forall k :: start <= k < start + n ==> IsIngested(Rows(IngestRun(files, start, n, o), LedgerFile), k)
  {
    var step := (f: Files, b: nat) => IngestBlockSpec(f, b, o);
    forall f: Files, b: nat ensures Rows(f, LedgerFile) <= Rows(step(f, b), LedgerFile) && IsIngested(Rows(step(f, b), LedgerFile), b) {
      IngestBlockLedger(f, b, o);
    }
    RunCovers(step, files, start, n);
  }

  /** When none of the range was ingested before, the ledger gains exactly
      the range, in ascending order. */
  lemma IngestRunLedger(files: Files, start: nat, n: nat, o: Oracles)
    requires forall k :: start <= k < start + n ==> !IsIngested(Rows(files, LedgerFile), k)
    ensures Rows(IngestRun(files, start, n, o), LedgerFile) ==
              Rows(files, LedgerFile) + seq(n, i => BlockRow(start + i))
  {
    var step := (f: Files, b: nat) => IngestBlockSpec(f, b, o);
    forall f: Files, b: nat ensures Rows(step(f, b), LedgerFile) ==
               Rows(f, LedgerFile) + (if IsIngested(Rows(f, LedgerFile), b) then [] else [BlockRow(b)]) {
      IngestBlockLedger(f, b, o);
    }
    RunLedger(step, files, start, n);
  }

  /** A range run is its first `m` iterations followed by the next `n`. */
  lemma IngestRunSplit(files: Files, start: nat, m: nat, n: nat, o: Oracles)
    ensures IngestRun(files, start, m + n, o) == IngestRun(IngestRun(files, start, m, o), start + m, n, o)
  {
    RunSplit((f: Files, b: nat) => IngestBlockSpec(f, b, o), files, start, m, n);
  }

  /** A range run leaves the ledger entry of every later block as it found it. */
  lemma IngestRunLeavesLater(files: Files, start: nat, n: nat, k: nat, o: Oracles)
    requires start + n <= k && !IsIngested(Rows(files, LedgerFile), k)
    ensures !IsIngested(Rows(IngestRun(files, start, n, o), LedgerFile), k)
  {
    var step := (f: Files, b: nat) => IngestBlockSpec(f, b, o);
    forall f: Files, b: nat ensures Rows(step(f, b), LedgerFile) ==
               Rows(f, LedgerFile) + (if IsIngested(Rows(f, LedgerFile), b) then [] else [BlockRow(b)]) {
      IngestBlockLedger(f, b, o);
    }
    RunLeavesLater(step, files, start, n, k);
  }

  /** A range run keeps the cache consistent with the oracles. */
  lemma IngestRunConsistent(files: Files, start: nat, n: nat, o: Oracles)
    requires Consistent(files, o)
    ensures Consistent(IngestRun(files, start, n, o), o)
  {
    var step := (f: Files, b: nat) => IngestBlockSpec(f, b, o);
    forall f: Files, b: nat | Consistent(f, o) ensures Consistent(step(f, b), o) {
      IngestBlockConsistent(f, b, o);
    }
    RunPreserves(step, (f: Files) => Consistent(f, o), files, start, n);
  }

  /** The iteration for block `start + m`, not in the ledger when the run
      started, records every call of that block to an ERC-721 contract. */
  lemma IngestRunRecordsBlock(files: Files, start: nat, m: nat, t: Tx, o: Oracles)
    requires Consistent(files, o)
    requires !IsIngested(Rows(files, LedgerFile), start + m) && o.getBlock(start + m).Some?
    requires t in o.getBlock(start + m).value.transactions && t.to.Some? && IsErc721Contract(o, t.to.value)
    ensures HasHash(Rows(IngestRun(files, start, m + 1, o), TransactionsFile), t.hash)
  {
    var before := IngestRun(files, start, m, o);
    IngestRunLeavesLater(files, start, m, start + m, o);
    IngestRunConsistent(files, start, m, o);
    IngestBlockRecordsAll(before, start + m, o);
    assert IngestRun(files, start, m + 1, o) == IngestBlockSpec(before, start + m, o);
  }

  /** A call to an ERC-721 contract made in block `k` of a range run, where
      `k` was not in the ledger when the run started, is recorded once the
      run is over. */
  lemma RunRecordsCall(files: Files, start: nat, n: nat, k: nat, t: Tx, o: Oracles)
    requires Consistent(files, o)
    requires start <= k < start + n && !IsIngested(Rows(files, LedgerFile), k) && o.getBlock(k).Some?
    requires t in o.getBlock(k).value.transactions && t.to.Some? && IsErc721Contract(o, t.to.value)
    ensures HasHash(Rows(IngestRun(files, start, n, o), TransactionsFile), t.hash)
  {
    var m := k - start;
    var after := IngestRun(files, start, m + 1, o);
    IngestRunRecordsBlock(files, start, m, t, o);
    IngestRunSplit(files, start, m + 1, n - (m + 1), o);
    IngestRunAppendOnly(after, k + 1, n - (m + 1), o);
    HasHashKept(after, IngestRun(files, start, n, o), t.hash);
  }

  /** A range run from a cache that agrees with the oracles records every
      call to an ERC-721 contract made in a block of the range that the node
      returns and that was not in the ledger when the run started. */
  lemma IngestRunRecordsAll(files: Files, start: nat, n: nat, o: Oracles)
    requires Consistent(files, o)
    ensures forall k: nat, t | start <= k < start + n && !IsIngested(Rows(files, LedgerFile), k) && o.getBlock(k).Some? &&
                               t in o.getBlock(k).value.transactions && t.to.Some? && IsErc721Contract(o, t.to.value) ::
              HasHash(Rows(IngestRun(files, start, n, o), TransactionsFile), t.hash)
  {
    forall k: nat, t | start <= k < start + n && !IsIngested(Rows(files, LedgerFile), k) && o.getBlock(k).Some? &&
                       t in o.getBlock(k).value.transactions && t.to.Some? && IsErc721Contract(o, t.to.value)
      ensures HasHash(Rows(IngestRun(files, start, n, o), TransactionsFile), t.hash)
    {
      RunRecordsCall(files, start, n, k, t, o);
    }
  }

  /** `ingest_erc721_from_blocks(s, e)` starting from a cache that agrees with
      the oracles and has no duplicates: afterwards every block of `s..e` is
      in the ledger, there are still no duplicates, and no address is both
      ignored and a recorded contract. */
  lemma IngestRangeFacts(files: Files, s: nat, e: nat, o: Oracles)
    requires Unique(files) && Consistent(files, o)
    ensures AppendOnly(files, IngestRangeSpec(files, s, e, o))
    ensures forall k :: s <= k <= e ==> IsIngested(Rows(IngestRangeSpec(files, s, e, o), LedgerFile), k)
    ensures Unique(IngestRangeSpec(files, s, e, o))
    ensures Disjoint(IngestRangeSpec(files, s, e, o))
  {
    IngestRunAppendOnly(files, s, RangeLength(s, e), o);
    IngestRunInvariants(files, s, RangeLength(s, e), o);
    IngestRunCovers(files, s, RangeLength(s, e), o);
    ConsistentDisjoint(IngestRangeSpec(files, s, e, o), o);
  }

  /** `for b in range(s, e + 1)` over blocks none of which was ingested: the
      ledger gains exactly `s, s + 1, ..., e`, in that order, and nothing
      when `e < s`. */
  lemma IngestRangeLedger(files: Files, s: nat, e: nat, o: Oracles)
    requires forall k :: s <= k <= e ==> !IsIngested(Rows(files, LedgerFile), k)
    ensures Rows(IngestRangeSpec(files, s, e, o), LedgerFile) ==
              Rows(files, LedgerFile) + seq(RangeLength(s, e), i => BlockRow(s + i))
    ensures e < s ==> IngestRangeSpec(files, s, e, o) == files
  {
    IngestRunLedger(files, s, RangeLength(s, e), o);
  }

  /** `ingest_erc721_from_blocks(s, e)` from a cache that agrees with the
      oracles: every call to an ERC-721 contract in a block of `s..e` the
      node returns and the ledger did not hold has its hash recorded. */
  lemma IngestRangeRecordsAll(files: Files, s: nat, e: nat, o: Oracles)
    requires Consistent(files, o)
    ensures forall k: nat, t | s <= k <= e && !IsIngested(Rows(files, LedgerFile), k) && o.getBlock(k).Some? &&
                               t in o.getBlock(k).value.transactions && t.to.Some? && IsErc721Contract(o, t.to.value) ::
              HasHash(Rows(IngestRangeSpec(files, s, e, o), TransactionsFile), t.hash)
  {
    IngestRunRecordsAll(files, s, RangeLength(s, e), o);
  }

  /** Ingesting `s..e` in one call is the same as ingesting `s..m` and then
      `m + 1..e`: a range interrupted after block `m` is resumed by starting
      again at `m + 1`. */
  lemma IngestRangeSplit(files: Files, s: nat, m: nat, e: nat, o: Oracles)
    requires s <= m + 1 && m <= e
    ensures IngestRangeSpec(files, s, e, o) == IngestRangeSpec(IngestRangeSpec(files, s, m, o), m + 1, e, o)
  {
    IngestRunSplit(files, s, RangeLength(s, m), RangeLength(m + 1, e), o);
  }

  /** The empty store satisfies every invariant, so they hold of every store the pipeline builds from scratch. */
  lemma EmptyStoreInvariants(o: Oracles)
    ensures Unique(NoFiles) && Consistent(NoFiles, o) && Disjoint(NoFiles)
  {
  }
}
