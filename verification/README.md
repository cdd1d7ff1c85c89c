# MiniChain: a verified model of the consensus core

MiniChain is a small proof-of-work blockchain node written in Python. This project models the part
of it that all nodes must agree on, and proves what that part promises over every transaction,
every call tree, every proposed chain and every run of a node.

The model has two layers that meet in method contracts.

* **The objects.** Code that changes things in place is modelled as classes with mutable fields:
  account records behind stacked copy-on-read journals (`Journal.Store`), the state and contract
  machine (`Ledgers.Ledger`), the chain object (`Blockchains.Blockchain`), the pool
  (`Mempools.Mempool`), one peer's seen set (`Gossip.Peer`), a transaction with its cached id
  (`Wire.Transaction`), and the loops of the miner, the Merkle tree, the exchange contract and the
  synchronisation handler. Aliasing is real here: a record fetched twice is one object, two
  journals are stacked while a transaction runs inside `add_block`, and contract frames re-enter
  the same ledger.
* **The reference functions.** Each method is proved equal to a function on values (`Calls`,
  `Transition`, `Chain`, and the functions beside each class). The laws are proved about these
  functions, and so hold of the objects.

Files, in dependency order: `Prelude` (values and network parameters), `Merkle`, `Accounts`,
`Calls`, `CallLaws`, `Transcripts` and `Solvency` (contract calls), `Transition` (one transaction), `Chain` (blocks, replay,
fork choice), `Replays`, `Uniqueness`, `NodeRuns` (the replay invariant over runs), `ChainLaws`
(supply, balances, nonces, orphans), `Wire` (dictionaries, parsing, transaction ids), `WorkLaws` (work, targets, held blocks), `Journal`, `Ledger`,
`Blockchain` (the objects), `Mempool`, `Producer`, `Sync`, `Settlement` (what becomes of pooled transactions) and `Conversations`, `CarelessExample` (a debt on the chain), `Gossip`, `Exchange`.

## What stands for what

* `Prelude.Params` holds a network's constants and the functions that are not looked into: header
  hash, pair hash, transaction id, receipt hash, trie root, signature check, contract address
  derivation and the behaviour of contract code. `Ideal` says that the hashes do not collide, that
  a transaction id is never an inner Merkle node, and that key addresses (64 hexadecimal digits) are
  never contract addresses (40). Hashes are unbounded numbers here, so that such functions exist. Only lemmas that need these facts assume them. The trie root is any
  function of the records that are not blank.
* A hash is the number its hexadecimal text denotes; contract storage maps keys to JSON text.
* A contract body is a deterministic oracle: code, storage, message, gas left and the replies so far
  decide the next action (call, transfer, return, raise) and how many opcodes, at least one, it took.
* `Same` is equality of account maps up to blank records. `get_account` files a blank record even
  for a transaction that is then rejected, and the state root skips blank records, so "the same
  state" can mean no more than this. `AccountMaps.SameRoot`, `CallLaws.SameCall`, `Transition.SameTx`
  and `Replays.SameReplay` prove that nothing else can tell the difference.
* A run (`NodeRuns.Op`) is any interleaving of `add_block`, `resolve_conflicts` and the handler's
  check of a loose transaction, accepted or rejected, each with the clock it reads; the clock does
  not go backwards (`InTime`).

## Where the code is not what its comments say

The model follows the code.

* The docstring of `resolve_conflicts` says that state is rebuilt from genesis; the code may start
  from a cached snapshot. `NodeRuns.ShortcutRefinesReplay` proves that both give one result.
* The comment on the pool's list promises descending fees. A sender's later nonce may pay more than
  its earlier one and must stand behind it (`Mempools.FeeOrderLostExample`). The pool is sorted
  exactly as long as every accepted fee fits its sender's other nonces
  (`Mempools.FeeOrderOverRuns`).
* A comment in `ContractMachine.execute` says that an inner call uses the remaining gas; it gets the
  caller's whole limit again.
* The undo of a failed call gives back the failed frame's own amount only. A body that catches the
  failure of a sub-call can therefore end normally over a negative balance
  (`CarelessExample.DebtExample`). Balances stay non-negative exactly as long as every value move
  is covered when it is made (`Solvency.CallCoveredExactly`, `ChainLaws.ExactBalances`), and that can
  be seen from the deployed code: it is enough that no deployed body ends normally after a failed
  sub-call (`ChainLaws.BalancesTheorem`).
* Timestamps of transactions are normalised on every parse: below 10^12 they are taken for seconds
  and multiplied by 1000. A time of at least 10^9 seconds, September 2001, is stable after the first
  parse; an earlier one, zero aside, changes at the second (`Wire.SecondsSurvive`). A block that
  holds such a transaction is valid but cannot be sent (`Conversations.UnsendableExample`).
* A log message says that a failed reorganisation fetches earlier blocks to find the fork point. Each
  such request is for 50 blocks, and its answer, put on the node's own blocks below it, is weighed
  against the whole held chain. With blocks of equal work, a held chain that is as long as any such
  answer reaches keeps the node on its fork, although the peer's full chain is heavier
  (`Conversations.NeverHealedExample`).
  `Conversations.ConversationEnds` states exactly when synchronisation leads to the peer's chain:
  some answer on the way back must come in (`Entry`), and the blocks from there on must be sendable.
* A sell of a negative amount is accepted by the exchange contract and breaks its reserves
  (`Exchange.SellBalances`, `Exchange.NegativeSellExample`).
* `resolve_conflicts` compares the genesis block by its `hash` field alone
  (`NodeRuns.ForgedGenesisExample`). Proposals that came through `Block.from_dict`, as all do in the
  network handler, cannot change it (`NodeRuns.GenesisKept`).

## Main results

* Runs of a node: `NodeRuns.ReplayInvariant`, `NodeRuns.ShortcutRefinesReplay`,
  `NodeRuns.ReorgAcceptsGenuine`, `NodeRuns.AgreementTheorem` on `Uniqueness.SameTipSameChain`.
* The ledger on every reachable node: `ChainLaws.SupplyTheorem`, `ChainLaws.ExactBalances`,
  `ChainLaws.BalancesTheorem`, `ChainLaws.NoncesTheorem`, `ChainLaws.ReorgSplits`.
* Call trees: `Transcripts.CallTranscript`, `Transcripts.SubCallTranscript`, `Calls.CallConserves`,
  `Calls.CallGas`, `Solvency.CallCoveredExactly`; transactions: `Transition.ContractTxEffect`.
* The mutable objects refine the functions: `Ledgers.Ledger.ExecuteInternalCall`,
  `Ledgers.Ledger.ApplyValidatedTx`, `Blockchains.Blockchain.AddBlock`,
  `Blockchains.Blockchain.ResolveConflicts`, `Producer.MineAndProcessBlock`,
  `Sync.HandleChainResponse`.
* Work and difficulty: `WorkLaws.ReorgVerdict`, `WorkLaws.HeavierByTargets`, `WorkLaws.NeverHeldAgain`, `WorkLaws.HeldBlocksAreSound`,
  `WorkLaws.ControlTheorem`, `WorkLaws.AverageClosedForm`.
* Producer and validator: `Producer.ProducerAgrees`, `Producer.RoundTheorem`.
* Network: `Settlement.ReorgRestores`, `Conversations.ConversationEnds`, `Conversations.NeverHealedExample`, `Gossip.FloodEnds`, `Gossip.FloodRests`,
  `Gossip.FloodReaches`, `Gossip.SeenExactly`.
* Pool, trees, exchange, wire: `Mempools.PoolInvariant`, `Mempools.FeeOrderOverRuns`,
  `Mempools.FeesCompound`, `Merkle.TopIsTree`, `Merkle.RootsExactly`, `Merkle.DistinctTxRoots`,
  `Exchange.ExchangeInvariant`, `Wire.BlockRoundTrip`, `Wire.IntactOrLost`.

## Model

| member | source | states |
|---|---|---|
| NodeRuns.ReplayInvariant | minichain/chain.py:171-354 | After any run of accepted and rejected calls, replaying the held chain from the genesis state is valid and ends in the held accounts (up to blank records), target and average; every cached snapshot is the state of some valid chain with that tip; the snapshot queue is bounded and its newest entry belongs to the tip. |
| NodeRuns.InvStart | minichain/chain.py:111-137 | A new node on a validated genesis satisfies that invariant; its one block has the stated fields and the hash of their header. |
| NodeRuns.InvAddBlock | minichain/chain.py:220-247 | One `add_block`, accepted or not, keeps that invariant. |
| NodeRuns.InvResolve | minichain/chain.py:249-354 | One `resolve_conflicts`, accepted or not, keeps that invariant. |
| NodeRuns.InvProbe | main.py:237-238 | Checking a loose transaction on the live state keeps that invariant although it may file a blank record. |
| NodeRuns.ProbeVerdict | minichain/state.py:106-127 | That check's three verdicts, by signature, chain, cover and nonce; the accounts stay the same up to a blank record. |
| NodeRuns.ShortcutRefinesReplay | minichain/chain.py:303-339 | For every node satisfying the invariant and every proposal, restoring a snapshot and fast-forwarding gives the verdict, chain, orphans, target and average of a full replay, and its accounts up to blank records. |
| NodeRuns.SnapshotIsReplay | minichain/chain.py:308-317 | A snapshot found by hash for a block of the held chain is the state of the replay at that block, whichever chain it was cached on. |
| NodeRuns.RebuildIsReplay | minichain/chain.py:300-339 | Rebuilding the proposed chain from the fork point ends as replaying all of it from genesis does. |
| NodeRuns.SnapshotsAreNewest | minichain/chain.py:54-56 | The queue of snapshots is the newest ten of all the states the chain has stood at, oldest first, each with its tip hash. |
| NodeRuns.FindSound | minichain/chain.py:308-313 | The lookup returns the oldest accounts cached under the hash, and nothing only if nothing was. |
| NodeRuns.ReorgAcceptsGenuine | minichain/chain.py:257-354 | A reorganisation succeeds if and only if the proposal connects, meets its targets, is strictly heavier, and completes a chain that replays validly from genesis; then that chain is held. |
| WorkLaws.ReorgVerdict | minichain/chain.py:257-354 | The same in the blocks' own fields: the link or the genesis hash, each hash below its target, the whole quotients 2^256 / target of the offered blocks adding up to more than those of the blocks they replace, and a valid replay. |
| WorkLaws.HeavierByTargets | minichain/chain.py:153-158 | Fork choice goes by these sums, however many blocks either side has. |
| WorkLaws.LongerButLighter | minichain/chain.py:289-294 | Any number of blocks of one target is refused when fewer held ones weigh as much. |
| NodeRuns.AgreementTheorem | minichain/chain.py:171-354 | Two nodes with one tip hash, whatever their runs, hold the same blocks above genesis and the same accounts up to blank records; when their proposals came through the block parser, as they do in the handler, they hold the same whole chain, target and average. |
| NodeRuns.GenesisKept | main.py:287-317 | Proposals that came through the block parser never replace the genesis block. |
| NodeRuns.ForgedGenesisExample | minichain/chain.py:264-267 | Without the parser they can: a copy of the genesis block with a smaller target above its hash is adopted. |
| NodeRuns.FirstBlockKept | minichain/chain.py:264-276 | For any caller, an accepted reorganisation keeps the first block if and only if a proposal from index 0 begins with that very block. |
| Uniqueness.SameTipSameChain | minichain/chain.py:15-28 | Equal tip hashes force two valid chains to be equal block for block above genesis, bodies and receipts included, with equal final accounts. |
| Replays.SameReplay | minichain/chain.py:330-339 | Replays that start from states equal up to blank records give one verdict, target and average and end equal up to blank records. |
| Replays.ReplayLater | minichain/chain.py:39-41 | A chain that replayed validly does so with the same result at every later clock. |
| Replays.FastForwardIsReplay | minichain/chain.py:319-323 | The state-free fast-forward computes the target and average of the valid replay. |
| Replays.ReplaySplit | minichain/chain.py:325-339 | A replay can be cut at any block: going on from the middle is replaying the whole. |
| WorkLaws.ChangeAddsWork | minichain/chain.py:289-294 | Every operation leaves the chain as it is or makes its total work strictly greater. |
| WorkLaws.NeverHeldAgain | minichain/chain.py:289-294 | Over a run, a chain that was left is never held again. |
| WorkLaws.BlockVerdict | minichain/chain.py:171-215 | A block is valid if and only if it is sound, has the expected target, all its transactions are valid, and its receipts and both roots are the recomputed ones; and which verdict it gets otherwise. |
| WorkLaws.BlockEffect | minichain/chain.py:199-218 | After a valid block the miner, and nobody else, has 50 and the fees on top of the transactions; the average takes in the block's gap with weight alpha, and the target follows from the new average. |
| Replays.TxsExactly | minichain/chain.py:191-197 | A block's transactions run in order, each on what those before it left; the first that is not valid gives the verdict. |
| WorkLaws.HeldBlocksAreSound | minichain/chain.py:15-41 | On every reachable node block i has index i and follows block i - 1 soundly: hash link, honest hash below an in-bounds target, later timestamp within the future bound. |
| WorkLaws.TargetsInBounds | minichain/chain.py:160-169 | Each block above genesis carries the target the difficulty control computed for it, between 1 and 2^256 - 1, and so does the next block. |
| WorkLaws.ControlTheorem | minichain/chain.py:160-169 | On every reachable node the target is in bounds, and for a weight in [0, 1] the average is at least 1 and between any bounds on the gaps of the held chain and the intended block time. |
| WorkLaws.AverageBetween | minichain/chain.py:217-218 | The moving average of any chain stays between the extremes of its gaps and the intended block time. |
| WorkLaws.AverageClosedForm | minichain/chain.py:319-323 | The average of any chain is the intended block time plus alpha times the deviation of each gap, faded by 1 - alpha for each later block. |
| WorkLaws.TargetDirection | minichain/chain.py:164-169 | Slow blocks never lower the target and fast blocks never raise it. |
| WorkLaws.TargetProportional | minichain/chain.py:167-169 | When the average is n times the intended block time, the next target is n times the target, up to the maximum. |
| WorkLaws.TargetExactly | minichain/chain.py:164-169 | The next target in whole numbers, truncation and both bounds included. |
| WorkLaws.SteadyTheorem | minichain/chain.py:160-169 | If every gap of a reachable node's chain is the intended one, its target is the one of its first block, which is the genesis target for parsed proposals, and its average is the intended time. |
| ChainLaws.SupplyTheorem | minichain/state.py:188-266 | On every reachable node the balances add up to the genesis allocation plus 50 for each block with a miner minus the fees of the blocks without one. |
| ChainLaws.ExactBalances | minichain/state.py:268-312 | On every reachable node: no balance of the held chain is negative at any moment - before and after each transaction, value move, sub-call and block - if and only if every value move of its calls is covered when it is made. |
| ChainLaws.BalancesTheorem | minichain/state.py:275-308 | If every deployment on the held chain carries code that does not end normally after a failed sub-call, no reachable node holds a negative balance, whatever the amounts of sub-calls. |
| ChainLaws.SafeBalances | minichain/state.py:188-312 | The same when each transaction either finds only such code deployed or makes covered moves only. |
| ChainLaws.NoncesTheorem | minichain/state.py:123-125 | On every reachable node each sender's transactions carry nonces 0, 1, 2, ... in order, no transaction occurs twice, and a key's nonce is the number of its transactions. |
| ChainLaws.NoReplay | minichain/state.py:123-125 | On a valid chain no (sender, nonce) pair occurs twice, and later ones carry higher nonces. |
| ChainLaws.ReorgSplits | minichain/chain.py:341-343 | A successful reorganisation of a reachable node splits its old transactions exactly into those on the new chain and the returned orphans, which keep their old order. |
| ChainLaws.OrphansSplit | minichain/chain.py:341-343 | The same for any valid old chain and any new chain. |
| ChainLaws.TxsSupply | minichain/chain.py:191-199 | The transactions of a block lower the balance sum by exactly the fees counted from their receipts. |
| Transition.TxSupply | minichain/state.py:188-266 | Whichever branch a valid transaction takes, the balance sum drops by exactly gas used times fee. |
| Transition.TxReceipt | minichain/state.py:106-127 | A valid transaction is signed, names the current nonce and is covered; its receipt has its id and 0 <= gas used <= limit. |
| Transition.DeployEffect | minichain/state.py:207-230 | When a deployment fails, with which message, and that it pays its whole gas limit; otherwise the contract, its code, the gas of 10 for each byte, and the whole effect on every account. |
| Transition.ContractTxEffect | minichain/state.py:232-257 | A contract transaction runs its call from the prepaid state; the receipt reports the call's own gas and error; a failure charges just that gas, a success gives the rest back; on every account. |
| Transition.TxNonces | minichain/state.py:193-205 | A valid transaction advances its sender's nonce by one and no other, but for the contract it creates. |
| Transition.RejectedTxIsSame | minichain/state.py:161-175 | A transaction that is turned away changes nothing up to blank records. |
| Transition.SameTx | minichain/state.py:96-104 | On states equal up to blank records a transaction has one verdict and receipt, and leaves states equal up to blank records. |
| Transition.TxNonNegative | minichain/state.py:188-266 | A valid transaction drives no balance below zero when all deployed code is careful or every value move of its call is covered. |
| Transition.TxCodes | minichain/state.py:318-326 | A valid transaction changes no account's code, but for the contract that it deploys with its own data. |
| Transition.TopCallGas | minichain/state.py:246-253 | The gas a contract transaction reports is between 0 and its limit, so the refund is never negative. |
| AccountMaps.RootsExactly | minichain/state.py:81-92 | Over a trie without collisions two states have one root if and only if at every address their records are equal or both have no coins, nonce, code or storage. |
| AccountMaps.SameRoot | minichain/state.py:81-92 | States equal up to blank records have one state root, whatever the trie. |
| AccountMaps.SameTotal | minichain/state.py:96-104 | States equal up to blank records have one balance sum. |
| Calls.CallConserves | minichain/state.py:268-312 | For every oracle, depth, re-entrancy and failure: a nested call keeps the balance sum, a top-level call adds exactly its amount on success and nothing on failure. |
| Calls.CallGas | minichain/contract.py:139-262 | Every way a call can end reports gas between 0 and the limit, and a success has paid 10 for each byte of the storage it leaves besides the opcodes it ran. |
| Transcripts.CallTranscript | minichain/contract.py:139-262 | Every call that gets as far as its body follows a transcript: the body is asked with its own code and storage, a message that names caller, amount and payload, the gas left and all replies so far; each action gets its answer; and the call ends with the error, gas, storage and transfers that the last answer and the checks after it dictate. |
| Transcripts.SubCallTranscript | minichain/contract.py:222-234 | The body of a sub-call is asked in the name of the calling contract, with the sub-call's amount and payload and the caller's whole gas limit, and its end is what the caller is told. |
| Transcripts.EndsAtOnce | minichain/contract.py:190-262 | A body that ends with its first action: outcome, gas, error and storage from that action. |
| Transcripts.CallRefusals | minichain/state.py:269-277 | The calls that do not reach a body: which error, which gas, and that nothing has changed. |
| CallLaws.CallIdentities | minichain/state.py:268-312 | Running contracts changes no nonce and no code of any account. |
| CallLaws.SameCall | minichain/state.py:268-312 | Calls cannot tell blank records from absent ones. |
| CallLaws.LeafCall | minichain/state.py:268-312 | The whole effect, on every account, of calling code that calls nobody: nothing on failure; amount, transfers and storage on success. |
| CallLaws.CallStores | minichain/contract.py:73-84 | After a successful call the contract's storage is what its body returned, and every transfer made passed the checks of `transfer_out`. |
| Solvency.CallCoveredExactly | minichain/state.py:275-308 | For every oracle, amount and nesting: no account map on the way of a call is negative if and only if every value move, in or back, is covered when it is made. |
| Solvency.UndoCovered | minichain/state.py:291-303 | The undo of a failed frame leaves no balance negative if and only if both sides hold what it takes from them, or caller and contract are one. |
| Solvency.CallSolvent | minichain/state.py:275-308 | Where all deployed code is careful, a successful call of any amount and nesting leaves everyone solvent but contracts with an open frame around it. |
| Solvency.CallNonNegative | minichain/state.py:275-308 | Where all deployed code is careful, a successful top-level call leaves no negative balance. |
| CarelessExample.IgnoredFailureExample | minichain/state.py:291-295 | A call whose body ignores a failed sub-call succeeds on non-negative balances and leaves one of -5. |
| CarelessExample.DebtExample | minichain/state.py:188-312 | Four valid transactions, three deployments and a call, are mined and accepted on a fresh node, which then holds a balance of -5. |
| Journal.Store.Over | minichain/state.py:18-20 | A new journal shows the plain map its backing shows. |
| Journal.Store.Get | minichain/state.py:22-29 | Reading caches a private copy; the map shown by this store and by all below stays the same, and cached records stay the objects they were. |
| Journal.Store.Put | minichain/state.py:31-32 | Assignment updates the shown map at one key. |
| Journal.Store.Items | minichain/state.py:46-49 | The items of a stack of journals are those of the one plain map it stands for. |
| Journal.Store.AddBalance | minichain/state.py:22-29 | Changing a cached record changes the shown map at one key and nothing in the stores below. |
| Journal.Store.Commit | minichain/state.py:64-67 | Commit makes the backing show what the journal showed and empties the cache. |
| Journal.Store.Rollback | minichain/state.py:69-71 | Rollback shows the untouched backing again. |
| Ledgers.GasMeter.Trace | minichain/contract.py:9-20 | The meter counts opcodes down and stops the body when it reaches zero. |
| Ledgers.Ledger.ExecuteInternalCall | minichain/state.py:268-312 | On mutable, aliased records behind journals a call gives the outcome and accounts of the reference function, and leaves the stores below unchanged. |
| Ledgers.Ledger.RunBody | minichain/contract.py:203-262 | The message loop with its metered body and recursive sub-calls does what the reference loop says, and ends. |
| Ledgers.Ledger.ApplyValidatedTx | minichain/state.py:188-266 | Running on a fresh journal and then committing, or rolling back and charging, gives the receipt and accounts of the reference function; the original store is in place again. |
| Ledgers.Ledger.ValidateAndApply | minichain/state.py:161-175 | Verdict, receipt and accounts are those of the reference transition, and there is a receipt exactly when the verdict is VALID. |
| Ledgers.Ledger.CreateContractAccount | minichain/state.py:318-326 | A contract's record replaces what was filed at its address and keeps the balance found there. |
| Ledgers.Ledger.Copy | minichain/state.py:129-138 | A copied state shows the same accounts through a fresh journal and owns none of the original's records. |
| Ledgers.Ledger.Restore | minichain/state.py:146-150 | A restored state shows the snapshot in records that nothing else refers to. |
| Blockchains.Blockchain.ApplyBlock | minichain/chain.py:171-218 | Status, accounts, target and average are those of the reference step. |
| Blockchains.Blockchain.AddBlock | minichain/chain.py:220-247 | The node afterwards is the reference node; on rejection no field and no account record of the old state has changed. |
| Blockchains.Blockchain.CheckTransaction | main.py:237-238 | The handler's check gives the reference verdict, and changes nothing but a blank sender record. |
| Blockchains.Blockchain.ResolveConflicts | minichain/chain.py:249-354 | Answer, orphans and node are those of the reference fork choice; on rejection no field has changed. |
| Blockchains.Blockchain.Screen | minichain/chain.py:257-294 | The checks before any state is rebuilt pass exactly for connected, proven and strictly heavier proposals. |
| Blockchains.Blockchain.GetTotalWork | minichain/chain.py:147-158 | The loop computes the sum of 2^256 // target over the blocks. |
| Blockchains.Blockchain.FindSnapshot | minichain/chain.py:308-313 | The scan finds the oldest snapshot with the hash, if any. |
| Blockchains.Blockchain.FastForwardTo | minichain/chain.py:305-323 | The loop computes the fast-forwarded target and average. |
| Blockchains.Blockchain.OrphanedTransactions | minichain/chain.py:341-343 | The dictionary and set comprehensions compute the orphans in old order. |
| Producer.ProducerAgrees | main.py:130-178 | For every node satisfying the invariant, every pool and a non-empty miner key, a mined block is accepted if and only if its timestamp is within the future bound; that timestamp is the clock, or one past the tip's. |
| Producer.RoundTheorem | main.py:121-186 | A mining round on a reachable node ends refused only when its timestamp is beyond the future bound, and a produced block is the new tip. |
| Producer.SelectionIsValid | main.py:130-154 | The transactions kept are valid for the validator, with the same receipts and the same state up to blank records. |
| Producer.KeepsExactlyTheValid | main.py:137-148 | A pending transaction is kept if and only if it is valid on the state so far; the early nonce test loses nothing. |
| Producer.SelectionPartition | main.py:137-151 | Every pending transaction is either kept or reported stale. |
| Producer.MinedLinks | minichain/pow.py:48-71 | Mining changes only nonce and hash, and the result passes the link check if and only if its timestamp is within the future bound. |
| Producer.SearchFindsFirst | minichain/pow.py:48-82 | The search returns exactly the first nonce in its range that meets the target, unless a timeout or a cancellation comes before; uninterrupted it fails only if no nonce in range does. |
| Producer.MineBlock | minichain/pow.py:20-82 | The loop over nonces returns what the reference search finds, and ends; the caller's block gets its target first, and nonce and hash only on success. |
| Producer.MineAndProcessBlock | main.py:121-186 | Node, pool and answer after a round on the objects are those of the reference round. |
| Settlement.RoundSettles | main.py:150-186 | The pool after a round: a produced block clears every pending slot, an unmined one the stale slots only, and after a refused one the pool holds just what it held before. |
| Sync.HandleChainResponse | main.py:281-330 | Node, pool and next request after a response on the objects are those of the reference handler; a response with a block that does not parse changes nothing and asks for nothing. |
| Settlement.ReorgRestores | main.py:317-321 | After an accepted reorganisation each transaction of the old chain that is not on the new one is in the pool, if its slot was free and there was room; entries that share no slot with one stay; nothing else comes in. |
| Settlement.RefusedKeepsPool | main.py:281-290 | A response that is empty, does not parse or is refused as a reorganisation leaves node and pool as they were. |
| Settlement.ContinuationSettles | main.py:299-304 | Catching up adopts blocks of the response on top of the held chain and clears exactly the slots of their transactions. |
| Settlement.NextRequest | main.py:305-330 | What is asked for next, in every case. |
| Conversations.LinearIsAligned | main.py:296 | With an honest peer a response counts as linear if and only if the node holds the peer's chain up to there. |
| Conversations.PeerBlockAccepted | main.py:299-304 | The next block of an honest peer is valid for a node on the peer's chain. |
| Conversations.ParseServed | main.py:272-292 | The dictionaries of held blocks parse to just these blocks if all their timestamps survive the trip, and the response fails otherwise. |
| Conversations.OneExchange | main.py:267-330 | One request and response with an honest peer: a response with a block that cannot be sent is dropped; otherwise nothing is accepted and earlier blocks, or none, are asked for, or work grows, the node is on the peer's chain, and it asks for what comes next unless it holds all of it. |
| Conversations.ForkAccepted | main.py:315-317 | The blocks of an honest peer are accepted as a reorganisation if and only if they connect, meet their targets and make a strictly heavier chain: they never fail later. |
| Conversations.ConversationEnds | main.py:267-330 | Every conversation with an honest peer ends. The node stays as it was if and only if no answer on the way back can come in (each of at most 50 blocks after the first, intact, connected, heavier); otherwise it gains work on the peer's chain, and holds all of it at the end if and only if every block from the entry on can be sent. |
| Conversations.NeverHealedExample | main.py:326-330 | With equal work in every block, a node with 50 blocks or more that is off the peer's longer chain never gets onto it: each answer of 50 blocks is no heavier than what it holds. |
| Conversations.ReachableTalking | main.py:267-330 | Any two reachable nodes whose proposals were parsed can have such a conversation once both their clocks have passed. |
| Conversations.UnsendableExample | main.py:287-292 | A valid transaction dated by a time below 10^9 seconds is mined, its own node accepts the block, and no peer can receive it: the response is dropped and the conversation stops. |
| Mempools.Mempool.AddTransaction | minichain/mempool.py:15-72 | Answer and list after an add are those of the reference insert. |
| Mempools.Mempool.Scan | minichain/mempool.py:21-34 | The scan computes the slot's index and the window between the sender's lower and higher nonces. |
| Mempools.Mempool.RemoveTransactions | minichain/mempool.py:79-82 | The list afterwards is the old one without the given slots. |
| Mempools.PoolInvariant | minichain/mempool.py:15-82 | After any adds, replacements and removals each sender's entries stand in strictly increasing nonce order, so slots are unique, and the size limit holds. |
| Mempools.AddContents | minichain/mempool.py:36-72 | When an offer is let in, if and only if; then the pool gains it and loses at most the holder of its slot, and otherwise nothing changes. |
| Mempools.AddPlace | minichain/mempool.py:52-72 | Where an accepted offer stands in a pool of any fee order: behind a cheaper entry only if an own lower nonce is there or further back, and before a cheaper entry or an own higher nonce; the others keep their order. |
| Mempools.OfferAllTakes | main.py:320-321 | Of several offers to a pool with room for all, each signed one with a slot of its own that is free gets in. |
| Mempools.RemoveExactly | minichain/mempool.py:79-82 | Removal keeps exactly the entries whose sender and nonce no named transaction has. |
| Mempools.RemoveThins | minichain/mempool.py:79-82 | It keeps them in order. |
| Mempools.SliceHasLowerNonces | minichain/mempool.py:74-77 | The block slice holds every pooled lower nonce of each sender in it, earlier in the slice. |
| Mempools.AddKeepsFeeOrder | minichain/mempool.py:36-72 | An accepted transaction keeps a fee-descending pool fee-descending if and only if its fee fits: no more than its sender's lower nonces pay and no less than the higher ones. |
| Mempools.AddStandsByFee | minichain/mempool.py:62-72 | Ties go by arrival: a fitting newcomer stands behind all that pay as much, but before its sender's next nonce. |
| Mempools.FeeOrderLostExample | minichain/mempool.py:29-34 | Nonce 0 for a fee of 1 and then nonce 1 for 5 leave the pool out of fee order. |
| Mempools.FeeOrderOverRuns | minichain/mempool.py:10-82 | Over any run of offers and removals the pool is fee-descending throughout if and only if every accepted offer fits. |
| Mempools.FeesCompound | minichain/mempool.py:45-50 | k replacements of a slot force 10^k * last fee > 11^k * first fee, whatever else is offered. |
| Gossip.Peer.MarkSeen | minichain/p2p.py:184-192 | The bounded ordered set after a mark is the reference set. |
| Gossip.Peer.Receive | minichain/p2p.py:300-345 | Duplicates are dropped; content that is valid or that the handler does not judge is marked; only valid content is relayed, to all but its sender. |
| Gossip.SeenExactly | minichain/p2p.py:184-192 | An id counts as seen if and only if it was marked and fewer than the maximum of different ids have been marked since. |
| Gossip.SeenIsNewest | minichain/p2p.py:184-192 | The seen set is the newest maximum of all ids ever marked, in order of their last mark. |
| Gossip.ArrivalExactly | minichain/p2p.py:300-345 | What the arrival of a copy does in the flood, copy by copy and mark by mark. |
| Gossip.FloodEnds | minichain/p2p.py:300-345 | While no node evicts the id from its seen set, under every schedule, every verdict and every other message marked in between, no node relays it twice, and arrivals and copies sent never exceed the sum of degrees. |
| Gossip.FloodRests | minichain/p2p.py:300-345 | Every run of a flood goes on, with the verdicts its nodes give, to a run at rest. |
| Gossip.FloodCovers | minichain/p2p.py:552-561 | At rest every stream partner of a relaying node has handled the id. |
| Gossip.FloodReaches | minichain/p2p.py:300-345 | If nobody rejects the id, a flood at rest has been relayed by every node that a path leads to. |
| Merkle.CalculateMerkleTree | minichain/block.py:12-24 | The padding, hashing level loop ends and equals the recursive tree. |
| Merkle.TopIsTree | minichain/block.py:16-24 | Hashing level by level computes the top-down binary tree of least height, where a half with nothing beside it is paired with itself. |
| Merkle.BlockRoots | minichain/block.py:26-34 | Both roots of a block: none for an empty list, otherwise that tree over the ids or the receipt hashes in order. |
| Merkle.EqualLengthRoots | minichain/block.py:12-24 | With an injective pair hash, leaf lists of one length and one root are equal. |
| Merkle.RepeatedLastLeaf | minichain/block.py:17-18 | Length matters: an odd list of at least three leaves and the same with its last leaf repeated share a root. |
| Merkle.RootsExactly | minichain/block.py:12-24 | Two nonempty lists of leaves share a root if and only if their trees have one height and, filled up to it as the loop does, they are one list. |
| Merkle.DistinctTxRoots | minichain/block.py:26-29 | Transaction lists without repeats are determined by their root, whatever their lengths. |
| Exchange.Execute | examples/dex.py:16-90 | The branches over the storage dictionary do what the reference transition says, raised exceptions included. |
| Exchange.TradeExactly | examples/dex.py:16-90 | When each command is accepted, and what it does, key by key. |
| Exchange.ExchangeInvariant | examples/dex.py:16-87 | Over any calls with non-negative sells, native * token <= k < native * token + last divisor, tokens add up to 2000 and coins to those taken in, and nobody owes tokens or coins. |
| Exchange.TradeConserves | examples/dex.py:16-87 | Every call conserves tokens and coins, negative sells included. |
| Exchange.SellBalances | examples/dex.py:55-87 | An accepted sell keeps reserves and product in shape if and only if its amount is not negative. |
| Exchange.NegativeSellExample | examples/dex.py:63-82 | Right after an init with 5 coins an accepted negative sell drives both reserves below zero. |
| Exchange.BuyThenSell | examples/dex.py:31-87 | Buying with v and selling the tokens received credits at most v. |
| Wire.BlockRoundTrip | minichain/block.py:109-172 | A block comes back field for field from its dictionary if and only if its hash is its header's, its target is in range, its receipt root matches, its timestamp is not zero (or the clock reads zero) and its transactions' timestamps are in milliseconds or zero. |
| Wire.IntactOrLost | minichain/block.py:158-172 | A well-made block comes back from its dictionary intact or not at all, never altered. |
| Wire.ParseExactly | minichain/block.py:121-172 | What the parser accepts and what block it makes of it, field by field, with defaults, normalised timestamps, an honest hash and agreeing roots. |
| Wire.ParsedGenesis | minichain/block.py:121-172 | What the parser accepts under the genesis hash is the genesis block, field for field. |
| Wire.TxRoundTrip | minichain/transaction.py:40-54 | A transaction comes back if and only if its timestamp survives a second normalisation. |
| Wire.HexRoundTrip | minichain/block.py:85-136 | Parsing a printed target gives it back. |
| Wire.Transaction.TxId | minichain/transaction.py:60-64 | The cached id is always the id of the current fields. |
| Wire.Transaction.Assign | minichain/transaction.py:11-16 | A sealed transaction refuses every assignment; otherwise one field changes and a stale id is dropped. |
| Wire.Transaction.Sign | minichain/transaction.py:66-70 | Signing succeeds exactly for the sender's key on an unsealed transaction, sets the signature and seals. |

## Left out

- ChainLaws.BalancesTheorem: is one-directional, because careless code need not meet a failing sub-call; the condition that is exact, `ChainCovered`, is about the moves made (`ChainLaws.ExactBalances`).
- Conversations.ConversationEnds: is about a peer whose chain stays the same while the two talk.
- Gossip.FloodEnds: is about one id while no node evicts it, and about streams that neither open nor close.
- Small facts that read one definition back, such as the verdict on a transaction (`Transition.TxVerdict`), the effect of a failed one (`Transition.FailedTxOnlyCharges`) of a transfer (`Transition.TransferEffect`) or of a call beyond the depth limit (`CallLaws.TooDeepChangesNothing`), are lemmas without a row.
- Journal.Store: deletion, which raises, and the list-of-pairs form of `update` are not modelled; storage dictionaries are values, so two accounts cannot share one.
- Ledgers.Ledger: `State` and `ContractMachine`, which refer to each other, are one class.
- Ledgers.Ledger.ExecuteInternalCall: the sender's record must exist, as it does at both call sites; the source would raise a KeyError.
- Contract sandbox: syntax checks, `exec`, tracing, process limits, the five-second timeout, crashes of the worker process, and a body that catches its own out-of-gas exception are not modelled; storage that is not a dictionary is not either.
- Hash functions, signatures, the trie and canonical JSON are abstract functions of `Prelude.Params`.
- Floating point: the average and its weight are reals, the replacement factor is exactly 11/10, and transaction timestamps are integers.
- Genesis configuration: parsing and the exits on a bad configuration are left out; `ValidGenesis` states what is left after them.
- Threads and locks: each locked method is one step, and reads the clock once.
- Persistence and `load`: a loaded node has no target, average or snapshots to match its chain, so runs that cross a `load` are not covered.
- The `--fund` option changes balances outside consensus and is not modelled.
- Networking: streams, dialing, address exchange, bans, misbehaviour counters, the RPC server and the command line are left out, as are the handler's hello, loose block and address branches.
- Wire formats: negative indices, missing hashes, and number texts with underscores or blanks are not modelled; addresses are compared as written.
- `examples/counter.py`, `examples/stablecoin.py` and `examples/user_profile.py` would only add easy members.
