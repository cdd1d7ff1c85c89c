/** Block application, replay and fork choice (`minichain/chain.py`) as functions on values. */
module Chain {
  import opened Prelude
  import opened AccountMaps
  import opened Transition
  import opened Merkle

  function HeaderOf(P: Params, b: Block): Header {
    Header(b.index, b.previousHash, MerkleRoot(P, b.txs), b.stateRoot, b.receiptRoot, b.timestamp, b.target, b.nonce,
           b.miner)
  }

  /** `validate_block_link_and_hash`; a message that mentions a hash makes the block INVALID, any
      other makes it FAILED. */
  function CheckLink(P: Params, prev: Block, b: Block, now: int): Status {
    if b.previousHash != prev.hash then INVALID
    else if b.index != prev.index + 1 then FAILED
    else if b.hash != P.headerHash(HeaderOf(P, b)) then INVALID
    else if b.target <= 0 || b.target > MAX_TARGET then FAILED
    else if b.hash >= b.target then INVALID
    else if b.timestamp <= prev.timestamp then FAILED
    else if b.timestamp > now + MAX_FUTURE_BLOCK_TIME_MS then FAILED
    else VALID
  }

  datatype TxsResult = TxsResult(status: Status, receipts: seq<Receipt>, accounts: Accounts)

  /** Transactions in order, up to the first that is not valid. */
  function ApplyTxs(P: Params, m: Accounts, txs: seq<Tx>): (r: TxsResult)
    ensures r.status == VALID ==> |r.receipts| == |txs|
  {
    if txs == [] then TxsResult(VALID, [], m) else
    var r := ApplyTxs(P, m, txs[..|txs| - 1]);
    if r.status != VALID then r else
    var s := ApplyTx(P, r.accounts, txs[|txs| - 1]);
    if s.status != VALID then TxsResult(s.status, r.receipts, s.accounts)
    else TxsResult(VALID, r.receipts + [s.receipt.value], s.accounts)
  }

  // The fees a block's transactions paid.
  function Fees(receipts: seq<Receipt>, txs: seq<Tx>): int
    requires |receipts| == |txs|
  {
    if txs == [] then 0 else
    var n := |txs| - 1;
    Fees(receipts[..n], txs[..n]) + receipts[n].gasUsed * txs[n].feePerGas
  }

  function Reward(m: Accounts, miner: Option<string>, fees: int): Accounts {
    if Truthy(miner) then Add(m, miner.value, MINING_REWARD + fees) else m
  }

  // int() of a float truncates toward zero.
  function Truncate(r: real): int {
    if r >= 0.0 then r.Floor else -(-r).Floor
  }

  function Clamp(target: int): int {
    if target > MAX_TARGET then MAX_TARGET else if target < MIN_TARGET then MIN_TARGET else target
  }

  /** `_next_target` */
  function NextTarget(P: Params, target: int, avg: real): int {
    Clamp(target * Truncate(avg) / P.targetBlockTime)
  }

  function NextAverage(P: Params, prev: Block, b: Block, avg: real): real {
    P.alpha * (b.timestamp - prev.timestamp) as real + (1.0 - P.alpha) * avg
  }

  datatype Step = Step(status: Status, accounts: Accounts, target: int, avg: real)

  predicate Attests(P: Params, b: Block, receipts: seq<Receipt>, m: Accounts) {
    b.receiptRoot == ReceiptRoot(P, receipts) && b.receipts == receipts && b.stateRoot == StateRoot(P, m)
  }

  /** `_apply_block` */
  function ApplyBlock(P: Params, prev: Block, b: Block, m: Accounts, target: int, avg: real, now: int): Step {
    var link := CheckLink(P, prev, b, now);
    if link != VALID then Step(link, m, target, avg)
    else if b.target != target then Step(INVALID, m, target, avg)
    else
      var r := ApplyTxs(P, m, b.txs);
      if r.status != VALID then Step(r.status, r.accounts, target, avg) else
      var m' := Reward(r.accounts, b.miner, Fees(r.receipts, b.txs));
      if !Attests(P, b, r.receipts, m') then Step(INVALID, m', target, avg) else
      var avg' := NextAverage(P, prev, b, avg);
      Step(VALID, m', NextTarget(P, target, avg'), avg')
  }

  /** Blocks first, ..., n - 1 of a chain, applied in order up to the first that is not valid. */
  function ReplayFrom(P: Params, chain: seq<Block>, first: nat, n: nat, start: Step, now: int): Step
    requires 1 <= first && n <= |chain|
    decreases n
  {
    if n <= first then start else
    var r := ReplayFrom(P, chain, first, n - 1, start, now);
    if r.status != VALID then r
    else ApplyBlock(P, chain[n - 2], chain[n - 1], r.accounts, r.target, r.avg, now)
  }

  // Where every replay begins: the genesis allocation and the first block's target.
  function Origin(P: Params, first: Block): Step {
    Step(VALID, P.alloc, first.target, P.targetBlockTime as real)
  }

  /** The reference: the first n blocks replayed from the genesis state. */
  function Replay(P: Params, chain: seq<Block>, n: nat, now: int): Step
    requires 1 <= n <= |chain|
  {
    ReplayFrom(P, chain, 1, n, Origin(P, chain[0]), now)
  }

  /** Target and average after n blocks, without looking at the state. */
  function FastForward(P: Params, chain: seq<Block>, n: nat): (int, real)
    requires 1 <= n <= |chain|
  {
    if n == 1 then (chain[0].target, P.targetBlockTime as real) else
    var (target, avg) := FastForward(P, chain, n - 1);
    var avg' := NextAverage(P, chain[n - 2], chain[n - 1], avg);
    (NextTarget(P, target, avg'), avg')
  }

  function GenesisBlock(P: Params): Block {
    var b := Block(0, 0, P.genesisTarget, [], P.genesisTimestamp, StateRoot(P, P.alloc), None, [], None, 0, 0);
    b.(hash := P.headerHash(HeaderOf(P, b)))
  }

  // ---- the node --------------------------------------------------------------------------

  datatype Snapshot = Snapshot(hash: Hash, accounts: Accounts)

  datatype Node = Node(chain: seq<Block>, accounts: Accounts, target: int, avg: real, snapshots: seq<Snapshot>)

  // append to a deque of bounded length
  function Push(snapshots: seq<Snapshot>, s: Snapshot): seq<Snapshot> {
    var all := snapshots + [s];
    if |all| > MAX_STATE_SNAPSHOTS then all[1..] else all
  }

  function Find(snapshots: seq<Snapshot>, hash: Hash): Option<Accounts> {
    if snapshots == [] then None
    else if snapshots[0].hash == hash then Some(snapshots[0].accounts)
    else Find(snapshots[1..], hash)
  }

  function Start(P: Params): Node {
    Node([GenesisBlock(P)], P.alloc, P.genesisTarget, P.targetBlockTime as real,
         [Snapshot(GenesisBlock(P).hash, P.alloc)])
  }

  /** `add_block` */
  function AddBlock(P: Params, nd: Node, b: Block, now: int): (Status, Node)
    requires nd.chain != []
  {
    var r := ApplyBlock(P, nd.chain[|nd.chain| - 1], b, nd.accounts, nd.target, nd.avg, now);
    if r.status != VALID then (r.status, nd)
    else (VALID, Node(nd.chain + [b], r.accounts, r.target, r.avg, Push(nd.snapshots, Snapshot(b.hash, r.accounts))))
  }

  function BlockWork(b: Block): int {
    FloorDiv(TWO_256, if b.target == 0 then 1 else b.target)
  }

  /** `get_total_work` */
  function TotalWork(chain: seq<Block>): int {
    if chain == [] then 0 else TotalWork(chain[..|chain| - 1]) + BlockWork(chain[|chain| - 1])
  }

  predicate MeetsTarget(b: Block) {
    0 < b.target <= MAX_TARGET && b.hash < b.target
  }

  // Where a proposed chain leaves ours, if it connects.
  function ForkIndex(chain: seq<Block>, proposal: seq<Block>): (r: Option<nat>)
    requires chain != []
    ensures r.Some? ==> r.value <= |chain| && proposal != []
  {
    if proposal == [] then None else
    var fork := proposal[0].index;
    if fork == 0 then if proposal[0].hash != chain[0].hash then None else Some(0)
    else if fork > |chain| then None
    else if proposal[0].previousHash != chain[fork - 1].hash then None
    else Some(fork)
  }

  // Only a connected, proven and strictly heavier proposal is looked into.
  predicate Worthwhile(chain: seq<Block>, proposal: seq<Block>)
    requires chain != []
  {
    var fork := ForkIndex(chain, proposal);
    && fork.Some?
    && (forall i | 0 <= i < |proposal| :: MeetsTarget(proposal[i]))
    && TotalWork(chain) < TotalWork(chain[..fork.value] + proposal)
  }

  function TxsOf(chain: seq<Block>): seq<Tx> {
    if |chain| <= 1 then [] else TxsOf(chain[..|chain| - 1]) + chain[|chain| - 1].txs
  }

  // A dict comprehension keyed by transaction id: first position, last value.
  function KeyedById(P: Params, txs: seq<Tx>): seq<Tx> {
    if txs == [] then [] else
    var front, t := KeyedById(P, txs[..|txs| - 1]), txs[|txs| - 1];
    if exists i | 0 <= i < |front| :: P.txId(front[i]) == P.txId(t)
    then seq(|front|, i requires 0 <= i < |front| => if P.txId(front[i]) == P.txId(t) then t else front[i])
    else front + [t]
  }

  function Ids(P: Params, txs: seq<Tx>): set<Hash> {
    set i | 0 <= i < |txs| :: P.txId(txs[i])
  }

  function Without(P: Params, txs: seq<Tx>, ids: set<Hash>): seq<Tx> {
    if txs == [] then [] else
    var front, t := Without(P, txs[..|txs| - 1], ids), txs[|txs| - 1];
    if P.txId(t) in ids then front else front + [t]
  }

  function Orphans(P: Params, chain: seq<Block>, proposed: seq<Block>): seq<Tx> {
    Without(P, KeyedById(P, TxsOf(chain)), Ids(P, TxsOf(proposed)))
  }

  // The state at the fork point, from a snapshot if there is one, and the blocks after it.
  function Rebuild(P: Params, nd: Node, fork: nat, proposed: seq<Block>, now: int): Step
    requires fork <= |nd.chain| && fork < |proposed|
  {
    var found := if fork == 0 then None else Find(nd.snapshots, nd.chain[fork - 1].hash);
    if found.None? then Replay(P, proposed, |proposed|, now) else
    var (target, avg) := FastForward(P, proposed, fork);
    ReplayFrom(P, proposed, fork, |proposed|, Step(VALID, found.value, target, avg), now)
  }

  datatype Resolution = Resolution(ok: bool, orphans: seq<Tx>, node: Node)

  function Adopt(P: Params, nd: Node, proposed: seq<Block>, r: Step): Resolution
    requires proposed != []
  {
    if r.status != VALID then Resolution(false, [], nd) else
    var tip := Snapshot(proposed[|proposed| - 1].hash, r.accounts);
    Resolution(true, Orphans(P, nd.chain, proposed),
               Node(proposed, r.accounts, r.target, r.avg, Push(nd.snapshots, tip)))
  }

  /** `resolve_conflicts` */
  function Resolve(P: Params, nd: Node, proposal: seq<Block>, now: int): Resolution
    requires nd.chain != []
  {
    if !Worthwhile(nd.chain, proposal) then Resolution(false, [], nd) else
    var fork := ForkIndex(nd.chain, proposal).value;
    var proposed := nd.chain[..fork] + proposal;
    Adopt(P, nd, proposed, Rebuild(P, nd, fork, proposed, now))
  }

  /** `resolve_conflicts` as if there were no snapshots. */
  function ResolveByReplay(P: Params, nd: Node, proposal: seq<Block>, now: int): Resolution
    requires nd.chain != []
  {
    if !Worthwhile(nd.chain, proposal) then Resolution(false, [], nd) else
    var proposed := nd.chain[..ForkIndex(nd.chain, proposal).value] + proposal;
    Adopt(P, nd, proposed, Replay(P, proposed, |proposed|, now))
  }

  /** The network handler's check of a loose transaction against the live state. */
  function Probe(P: Params, nd: Node, tx: Tx): (Status, Node) {
    var (status, m) := VerifyLogic(P, nd.accounts, tx);
    (status, nd.(accounts := m))
  }
}
