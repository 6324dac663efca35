/** The one-block activity report of `erc721_activity.py`: for each
    transaction of the block that calls a verified ERC-721 contract, a row
    with the block's coordinates, the transaction's fields and the decoded
    function call. Nothing is persisted. */
module Activity {
  import opened Abi
  import opened Chain
  import opened TableStore

  /** One row of the report, one field per column of `ActivitySchema`. */
  datatype ActivityRow = ActivityRow(
    blockNumber: nat,
    blockHash: string,
    blockTimestamp: nat,
    txHash: string,
    contractAddress: Address,
    sender: Address,
    value: nat,
    functionName: string,
    functionArguments: string,
    gasLimit: nat,
    gasPrice: nat)

  /** A data frame: its column schema and its rows. */
  datatype Frame = Frame(schema: Schema, rows: seq<ActivityRow>)

  const ActivitySchema: Schema :=
    [Column("Block Number", UInt64), Column("Block Hash", Utf8), Column("Block Timestamp", UInt64),
     Column("Transaction Hash", Utf8), Column("Contract Address", Utf8), Column("Sender", Utf8),
     Column("Value", UInt64), Column("Function Name", Utf8), Column("Function Arguments", Utf8),
     Column("Gas Limit", UInt64), Column("Gas Price", UInt64)]

  /** A Python slice index: negative counts from the end, then clamped to `0..n`. */
  function SliceIndex(i: int, n: nat): (k: nat)
    ensures k <= n
    ensures 0 <= i <= n ==> k == i
    ensures -(n as int) <= i < 0 ==> k == (n as int) + i
    ensures i > n ==> k == n
    ensures i < -(n as int) ==> k == 0
  {
    var j := if i < 0 then n + i else i;
    if j < 0 then 0 else if j > n then n else j
  }

  /** `s[start:stop]` with Python's semantics: empty when the clamped bounds cross. */
  function Slice(s: string, start: int, stop: int): string
  {
    var lo, hi := SliceIndex(start, |s|), SliceIndex(stop, |s|);
    if lo < hi then s[lo..hi] else ""
  }

  /** `str(decoded[0])[10:-1]`: strips the ten characters of `<Function `
      and the closing `>` from the printed function object. */
  function FunctionName(printed: string): string
  {
    Slice(printed, 10, -1)
  }

  /** The slice keeps the characters between the tenth and the last, and is
      empty for a string of at most eleven characters. */
  lemma FunctionNameShape(printed: string)
    ensures |printed| > 11 ==> FunctionName(printed) == printed[10..|printed| - 1]
    ensures |printed| <= 11 ==> FunctionName(printed) == ""
  {
  }

  /** Printing a web3 function object as `<Function sig>` and slicing gives back `sig`. */
  lemma FunctionNameOfPrinted(sig: string)
    ensures FunctionName("<Function " + sig + ">") == sig
  {
  }

  /** The transaction calls a contract that has code and passes the ERC-721 test. */
  predicate Qualifies(tx: Tx, o: Oracles)
  {
    tx.to.Some? && IsErc721Contract(o, tx.to.value)
  }

  /** The row `transaction_dict` builds for a transaction to a contract. */
  function RowFor(block: Block, tx: Tx, o: Oracles): ActivityRow
    requires tx.to.Some?
  {
    var decoded := o.decodeInput(o.explorerResult(tx.to.value), tx.input);
    ActivityRow(block.number, block.hash, block.timestamp, tx.hash, tx.to.value, tx.from,
                tx.value, FunctionName(decoded.func), decoded.arguments, tx.gas, tx.gasPrice)
  }

  /** The rows after the loop has seen `txs`, first to last. */
  function ActivityRows(block: Block, txs: seq<Tx>, o: Oracles): seq<ActivityRow>
    decreases |txs|
  {
    if txs == [] then []
    else
      var last := txs[|txs| - 1];
      ActivityRows(block, txs[..|txs| - 1], o) + (if Qualifies(last, o) then [RowFor(block, last, o)] else [])
  }

  /** `get_erc721_transactions(block_number, ...)`: the empty frame with the
      eleven columns when the node has no such block, otherwise one row per
      qualifying transaction, in block order. */
  method GetErc721Transactions(blockNumber: nat, o: Oracles) returns (df: Frame)
    ensures df.schema == ActivitySchema
    ensures o.getBlock(blockNumber).None? ==> df.rows == []
    ensures o.getBlock(blockNumber).Some? ==>
              var block := o.getBlock(blockNumber).value;
              df.rows == ActivityRows(block, block.transactions, o)
  {
    df := Frame(ActivitySchema, []);
    var block := o.getBlock(blockNumber);
    if block.Some? {
      var txs := block.value.transactions;
      for i := 0 to |txs|
        invariant df.schema == ActivitySchema
        invariant df.rows == ActivityRows(block.value, txs[..i], o)
      {
        var tx := txs[i];
        assert txs[..i + 1][..i] == txs[..i];
        if tx.to.Some? {
          var contractAddress := tx.to.value;
          if o.hasCode(contractAddress) {
            var abi := FetchAbi(o, contractAddress);
            if IsErc721Compliant(abi) {
              var decoded := o.decodeInput(o.explorerResult(contractAddress), tx.input);
              var row := ActivityRow(block.value.number, block.value.hash, block.value.timestamp, tx.hash,
                                     contractAddress, tx.from, tx.value, FunctionName(decoded.func),
                                     decoded.arguments, tx.gas, tx.gasPrice);
              df := Frame(df.schema, df.rows + [row]);
            }
          }
        }
      }
      assert txs[..|txs|] == txs;
    }
  }

  /** The qualifying transactions of `txs`, in order: the independent
      reading of which transactions the report keeps. */
  function Qualifying(txs: seq<Tx>, o: Oracles): seq<Tx>
  {
    if txs == [] then []
    else (if Qualifies(txs[0], o) then [txs[0]] else []) + Qualifying(txs[1..], o)
  }

  /** Keeping the qualifying transactions commutes with concatenation, so it keeps their order. */
  lemma {:induction false} QualifyingAppend(a: seq<Tx>, b: seq<Tx>, o: Oracles)
    ensures Qualifying(a + b, o) == Qualifying(a, o) + Qualifying(b, o)
  {
    if a == [] {
      assert a + b == b;
    } else {
      assert (a + b)[0] == a[0] && (a + b)[1..] == a[1..] + b;
      QualifyingAppend(a[1..], b, o);
    }
  }

  /** A transaction is kept exactly when it occurs in the block and qualifies. */
  lemma {:induction false} QualifyingMembers(txs: seq<Tx>, o: Oracles)
    ensures forall t :: t in Qualifying(txs, o) <==> t in txs && Qualifies(t, o)
    ensures |Qualifying(txs, o)| <= |txs|
  {
    if txs != [] {
      QualifyingMembers(txs[1..], o);
      assert txs == [txs[0]] + txs[1..];
    }
  }

  /** The report holds exactly one row per qualifying transaction, in block
      order, each built from that transaction. */
  lemma {:induction false} ActivityRowsByTransaction(block: Block, txs: seq<Tx>, o: Oracles)
    ensures |ActivityRows(block, txs, o)| == |Qualifying(txs, o)|
    ensures forall k :: 0 <= k < |Qualifying(txs, o)| ==>
              Qualifying(txs, o)[k].to.Some? && ActivityRows(block, txs, o)[k] == RowFor(block, Qualifying(txs, o)[k], o)
    decreases |txs|
  {
    if txs != [] {
      var front, last := txs[..|txs| - 1], txs[|txs| - 1];
      ActivityRowsByTransaction(block, front, o);
      assert txs == front + [last];
      QualifyingAppend(front, [last], o);
      assert Qualifying([last], o) == (if Qualifies(last, o) then [last] else []) + Qualifying([], o);
      QualifyingMembers(front, o);
    }
  }

  /** Every row carries the block's number, hash and timestamp and the hash,
      target, sender, value, gas limit and gas price of a qualifying
      transaction of the block; there are never more rows than transactions. */
  lemma ActivityRowFields(block: Block, o: Oracles)
    ensures var rows := ActivityRows(block, block.transactions, o);
            && |rows| <= |block.transactions|
            && forall r | r in rows ::
                 && r.blockNumber == block.number && r.blockHash == block.hash && r.blockTimestamp == block.timestamp
                 && exists t :: t in block.transactions && Qualifies(t, o) && r.txHash == t.hash
                                 && r.contractAddress == t.to.value && r.sender == t.from && r.value == t.value
                                 && r.gasLimit == t.gas && r.gasPrice == t.gasPrice
  {
    var txs := block.transactions;
    var rows := ActivityRows(block, txs, o);
    ActivityRowsByTransaction(block, txs, o);
    QualifyingMembers(txs, o);
    forall r | r in rows
      ensures exists t :: t in txs && Qualifies(t, o) && r.txHash == t.hash
                          && r.contractAddress == t.to.value && r.sender == t.from && r.value == t.value
                          && r.gasLimit == t.gas && r.gasPrice == t.gasPrice
    {
      var k :| 0 <= k < |rows| && rows[k] == r;
      var t := Qualifying(txs, o)[k];
      assert t in Qualifying(txs, o);
    }
  }

  /** No qualifying transaction, nothing kept. */
  lemma {:induction false} QualifyingNone(txs: seq<Tx>, o: Oracles)
    requires forall t | t in txs :: !Qualifies(t, o)
    ensures Qualifying(txs, o) == []
  {
    if txs != [] {
      assert txs[0] in txs;
      QualifyingNone(txs[1..], o);
    }
  }

  /** A block without a single call to an ERC-721 contract gives an empty report. */
  lemma NoQualifyingNoRows(block: Block, o: Oracles)
    requires forall t | t in block.transactions :: !Qualifies(t, o)
    ensures ActivityRows(block, block.transactions, o) == []
  {
    ActivityRowsByTransaction(block, block.transactions, o);
    QualifyingNone(block.transactions, o);
  }
}
