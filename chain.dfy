/** What the pipeline reads from the outside world: blocks and transactions
    as the JSON-RPC node returns them, and the deterministic oracles that
    stand for the node, the contract explorer and the JSON codecs. */
module Chain {
  import opened Abi

  datatype Option<T> = None | Some(value: T)

  type Address = string

  /** A full transaction body (`get_block(..., full_transactions=True)`);
      hashes are already rendered as hex strings. */
  datatype Tx = Tx(
    hash: string,
    to: Option<Address>,
    from: Address,
    value: nat,
    input: string,
    gas: nat,
    gasPrice: nat)

  datatype Block = Block(number: nat, hash: string, timestamp: nat, transactions: seq<Tx>)

  /** The two strings `decode_function_input` yields once printed:
      the decoded function object and its argument dictionary. */
  datatype Decoded = Decoded(func: string, arguments: string)

  /** The external collaborators, as total functions: asking twice gives the
      same answer.
      - getBlock: `web3.eth.get_block(n, full_transactions=True)`, None when the node has no such block
      - hasCode: `web3.eth.get_code(a)` is not the empty code
      - explorerResult: the "result" field of the explorer's getabi reply
      - parseAbi: `json.loads` of that field, seen as its (type, name) entries
      - abiJson: `json.dumps(json.loads(result))`, the full ABI as stored text
      - txJson: `json.dumps(dict(tx), cls=HexJsonEncoder)`
      - decodeInput: `contract(abi=json.loads(result)).decode_function_input(data=input)`, printed */
  datatype Oracles = Oracles(
    getBlock: nat -> Option<Block>,
    hasCode: Address -> bool,
    explorerResult: Address -> string,
    parseAbi: string -> Abi,
    abiJson: string -> string,
    txJson: Tx -> string,
    decodeInput: (string, string) -> Decoded)

  /** `get_abi(address, key)`: the ABI the explorer reports, or [] when unverified. */
  function FetchAbi(o: Oracles, a: Address): (abi: Abi)
    ensures o.explorerResult(a) == UnverifiedSource ==> abi == []
  {
    GetAbi(o.explorerResult(a), o.parseAbi)
  }

  /** `json.dumps(get_abi(address, key))`: the text stored for the full ABI
      the explorer reports, `[]` when unverified. */
  function AbiJson(o: Oracles, a: Address): string
  {
    var result := o.explorerResult(a);
    if result == UnverifiedSource then "[]" else o.abiJson(result)
  }

  /** The address is a contract whose ABI passes the ERC-721 test. */
  predicate IsErc721Contract(o: Oracles, a: Address)
  {
    o.hasCode(a) && IsErc721Compliant(FetchAbi(o, a))
  }
}
