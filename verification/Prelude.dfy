/** Values every module shares: consensus constants, transactions, receipts, accounts and
    blocks, and the consensus parameters that stand for code the model does not look into
    (hashing, signatures, the contract sandbox). */
module Prelude {

  datatype Option<+T> = None | Some(value: T)

  // minichain/network_config.py and minichain/node_config.py
  const TWO_256: int := 0x1_0000000000000000000000000000000000000000000000000000000000000000
  const MAX_TARGET: int := TWO_256 - 1
  const MIN_TARGET: int := 1
  const MINING_REWARD: int := 50
  const MAX_FUTURE_BLOCK_TIME_MS: int := 15000
  const GAS_PER_BYTE: int := 10
  const MAX_CALL_DEPTH: nat := 10
  const MAX_STATE_SNAPSHOTS: nat := 10

  type Positive = n: int | 1 <= n witness 1

  type Address = string

  // A hash is the number its hexadecimal text denotes.
  type Hash = int

  // Contract storage: key -> canonical JSON text of the value.
  type Storage = map<string, string>

  datatype Account = Account(balance: int, nonce: int, code: Option<string>, storage: Storage)

  // The record `get_account` makes for an unknown address.
  const BLANK: Account := Account(0, 0, None, map[])

  type Accounts = map<Address, Account>

  // None and "" are both falsy in the source.
  predicate Truthy(s: Option<string>) {
    s.Some? && s.value != ""
  }

  datatype Tx = Tx(
    sender: Address, receiver: Option<Address>, amount: int, gasLimit: int, feePerGas: int,
    nonce: int, data: Option<string>, chainId: string, timestamp: int, signature: Option<string>)

  datatype Receipt = Receipt(
    txHash: Hash, status: int, gasUsed: int, errorMessage: string, logs: seq<string>, contractAddress: string)

  datatype Header = Header(
    index: nat, previousHash: Hash, merkleRoot: Option<Hash>, stateRoot: Hash, receiptRoot: Option<Hash>,
    timestamp: int, target: int, nonce: int, miner: Option<string>)

  // The Merkle root is a function of the frozen transactions, so it is not a field.
  datatype Block = Block(
    index: nat, previousHash: Hash, target: int, txs: seq<Tx>, timestamp: int, stateRoot: Hash,
    receiptRoot: Option<Hash>, receipts: seq<Receipt>, miner: Option<string>, nonce: int, hash: Hash)

  datatype Status = VALID | INVALID | FAILED | MALFORMED

  // ---- contract bodies: a deterministic oracle -------------------------------------------

  datatype Message = Message(sender: Address, value: int, data: string)

  // What the running contract has been told so far, oldest first.
  datatype Reply =
    | CallDone
    | CallFailed(error: string)
    | TransferQueued
    | TransferRefused

  // What the contract does next; `cost` counts the opcodes traced since its last action.
  datatype Action =
    | CallContract(cost: Positive, address: Address, payload: string, amount: int)
    | TransferOut(cost: Positive, to: Address, amount: int)
    | Finish(cost: Positive, storage: Storage, serializable: bool)
    | Raise(cost: Positive, error: string)

  datatype Transfer = Transfer(to: Address, amount: int)

  /** Everything that is fixed for a network: genesis values, retarget constants, and the
      functions that the model leaves abstract. */
  datatype Params = Params(
    chainId: string,
    alloc: Accounts,
    genesisTimestamp: int,
    genesisTarget: int,
    targetBlockTime: Positive,
    alpha: real,
    headerHash: Header -> Hash,
    pairHash: (Hash, Hash) -> Hash,
    txId: Tx -> Hash,
    receiptHash: Receipt -> Hash,
    trieRoot: Accounts -> Hash,
    signed: Tx -> bool,
    contractAddress: (Address, int) -> Address,
    parsesAsHex: string -> bool,
    astAllowed: string -> bool,
    storageBytes: Storage -> nat,
    behaviour: (string, Storage, Message, int, seq<Reply>) -> Action)

  /** No two different inputs collide, leaves of a Merkle tree are never inner nodes, and key
      addresses (64 hex digits) are never contract addresses (40 hex digits). */
  ghost predicate Ideal(P: Params) {
    && (forall a, b :: P.headerHash(a) == P.headerHash(b) ==> a == b)
    && (forall a, b, c, d :: P.pairHash(a, b) == P.pairHash(c, d) ==> a == c && b == d)
    && (forall s, t :: P.txId(s) == P.txId(t) ==> s == t)
    && (forall t, a, b :: P.txId(t) != P.pairHash(a, b))
    && KeysAreNotContracts(P)
  }

  ghost predicate KeysAreNotContracts(P: Params) {
    forall t, s, n :: P.signed(t) ==> t.sender != P.contractAddress(s, n)
  }

  // What `_create_genesis_block` insists on before a node starts.
  ghost predicate ValidGenesis(P: Params) {
    && 1 <= P.genesisTarget <= MAX_TARGET
    && forall k | k in P.alloc :: P.alloc[k] == BLANK.(balance := P.alloc[k].balance) && 0 <= P.alloc[k].balance
  }

  // len(s.encode('utf-8'))
  function Utf8Size(s: string): nat {
    if s == "" then 0 else
    (var c := s[0] as int;
     if c < 0x80 then 1 else if c < 0x800 then 2 else if c < 0x10000 then 3 else 4) + Utf8Size(s[1..])
  }

  // ---- sequences -------------------------------------------------------------------------

  ghost predicate Distinct<T>(s: seq<T>) {
    forall i, j | 0 <= i < j < |s| :: s[i] != s[j]
  }

  // `part` is `whole` with some elements left out; `at` says where they stand.
  ghost predicate Thinned<T>(part: seq<T>, whole: seq<T>, at: seq<nat>) {
    && |at| == |part|
    && (forall i | 0 <= i < |at| :: at[i] < |whole| && whole[at[i]] == part[i])
    && forall i, j | 0 <= i < j < |at| :: at[i] < at[j]
  }

  // ---- arithmetic ------------------------------------------------------------------------

  // Python's floor division.
  function FloorDiv(a: int, b: int): int
    requires b != 0
  {
    if b > 0 then a / b else (-a) / (-b)
  }

  /** Floor division: the quotient's product with the divisor stays at or below the dividend, and
      one more would pass it, whichever the divisor's sign. */
  lemma FloorDivExactly(a: int, b: int)
    requires b != 0
    ensures var q := FloorDiv(a, b);
            if 0 < b then b * q <= a < b * q + b else b * q + b < a <= b * q
  {
    if 0 < b {
      assert b * (a / b) + a % b == a;
    } else {
      assert (-b) * ((-a) / (-b)) + (-a) % (-b) == -a;
    }
  }

  lemma Products(a: int, x: int, y: int)
    requires 0 <= a && x <= y
    ensures a * x <= a * y
  {
  }
}
