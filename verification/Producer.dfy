/** Block production (`minichain/pow.py`, `mine_and_process_block` in `main.py`) and why the
    validator accepts what the producer builds. */
module Producer {
  import opened Prelude
  import opened AccountMaps
  import opened Transition
  import opened Merkle
  import opened Chain
  import opened Replays
  import opened Uniqueness
  import opened NodeRuns
  import opened WorkLaws
  import opened Mempools
  import opened Blockchains
  import opened Ledgers

  // ---- proof of work ---------------------------------------------------------------------

  // What may end a search early: a timeout before an attempt, a cancellation after one.
  datatype Patience = Patience(expired: int -> bool, cancelled: (int, Hash) -> bool)

  /** The first nonce from n on that meets the target, within `left` attempts. */
  function Search(P: Params, header: Header, target: int, n: int, left: nat, patience: Patience): Option<int>
    decreases left
  {
    if left == 0 || patience.expired(n) then None else
    var hash := P.headerHash(header.(nonce := n));
    if hash < target then Some(n)
    else if patience.cancelled(n, hash) then None
    else Search(P, header, target, n + 1, left - 1, patience)
  }

  datatype MineOutcome = Mined(block: Block) | Exceeded | BadTarget

  // The block's new target goes into the header before the search.
  function Mine(P: Params, block: Block, target: int, startNonce: int, maxNonce: nat, patience: Patience): MineOutcome {
    if target <= 0 then BadTarget else
    var b := block.(target := target);
    match Search(P, HeaderOf(P, b), target, startNonce, maxNonce, patience)
    case None => Exceeded
    case Some(n) => Mined(b.(nonce := n, hash := P.headerHash(HeaderOf(P, b).(nonce := n))))
  }

  // A block under construction, whose fields the miner sets.
  class Candidate {
    var block: Block

    constructor (block: Block)
      ensures this.block == block
    {
      this.block := block;
    }
  }

  /** `mine_block`: the target is set first, nonce and hash only on success. */
  method MineBlock(P: Params, candidate: Candidate, target: int, startNonce: int, maxNonce: nat, patience: Patience)
    returns (outcome: MineOutcome)
    modifies candidate
    ensures outcome == Mine(P, old(candidate.block), target, startNonce, maxNonce, patience)
    ensures candidate.block == match outcome
                               case Mined(b) => b
                               case Exceeded => old(candidate.block).(target := target)
                               case BadTarget => old(candidate.block)
  {
    if target <= 0 {
      return BadTarget;
    }
    candidate.block := candidate.block.(target := target);
    ghost var b := candidate.block;
    var localNonce := startNonce;
    var header := HeaderOf(P, candidate.block);
    ghost var found := Search(P, header, target, startNonce, maxNonce, patience);
    while true
      invariant 0 <= localNonce - startNonce <= maxNonce && candidate.block == b
      invariant header.(nonce := 0) == HeaderOf(P, b).(nonce := 0)
      invariant Search(P, header, target, localNonce, maxNonce - (localNonce - startNonce), patience) == found
      decreases maxNonce - (localNonce - startNonce)
    {
      if localNonce - startNonce >= maxNonce {
        return Exceeded;
      }
      if patience.expired(localNonce) {
        return Exceeded;
      }
      ghost var before := header;
      header := header.(nonce := localNonce);
      SearchIgnoresNonce(P, before, header, target, localNonce, maxNonce - (localNonce - startNonce), patience);
      var hash := P.headerHash(header);
      if hash < target {
        SearchIgnoresNonce(P, HeaderOf(P, b), header, target, startNonce, maxNonce, patience);
        assert header == HeaderOf(P, b).(nonce := localNonce);
        candidate.block := candidate.block.(nonce := localNonce, hash := hash);
        return Mined(candidate.block);
      }
      if patience.cancelled(localNonce, hash) {
        return Exceeded;
      }
      localNonce := localNonce + 1;
    }
  }

  lemma {:induction false} SearchIgnoresNonce(P: Params, h: Header, h': Header, target: int, n: int, left: nat,
                                              patience: Patience)
    requires h.(nonce := 0) == h'.(nonce := 0)
    ensures Search(P, h, target, n, left, patience) == Search(P, h', target, n, left, patience)
    decreases left
  {
    assert h.(nonce := n) == h.(nonce := 0).(nonce := n) == h'.(nonce := n);
    if left > 0 {
      SearchIgnoresNonce(P, h, h', target, n + 1, left - 1, patience);
    }
  }

  ghost predicate Uninterrupted(patience: Patience) {
    (forall n :: !patience.expired(n)) && forall n, hash :: !patience.cancelled(n, hash)
  }

  ghost predicate Hits(P: Params, header: Header, target: int, n: int) {
    P.headerHash(header.(nonce := n)) < target
  }

  // The nonce that the search from n on is bound to return: the first that meets the target, when
  // nothing ended the search before.
  ghost predicate First(P: Params, header: Header, target: int, n: int, left: nat, patience: Patience, k: int) {
    && n <= k < n + left && Hits(P, header, target, k)
    && (forall j | n <= j <= k :: !patience.expired(j))
    && (forall j | n <= j < k :: !Hits(P, header, target, j))
    && (forall j | n <= j < k :: !patience.cancelled(j, P.headerHash(header.(nonce := j))))
  }

  /** The search returns exactly the first nonce that meets the target, and nothing if there is none
      in its range or a timeout before, or a cancellation after, an attempt ends it; when nothing
      interrupts it, it fails only if no nonce in its range meets the target. */
  lemma {:induction false} SearchFindsFirst(P: Params, header: Header, target: int, n: int, left: nat,
                                            patience: Patience)
    ensures forall k :: Search(P, header, target, n, left, patience) == Some(k) <==>
                        First(P, header, target, n, left, patience, k)
    ensures Search(P, header, target, n, left, patience) == None && Uninterrupted(patience) ==>
            forall j | n <= j < n + left :: !Hits(P, header, target, j)
    decreases left
  {
    hide First;
    forall k ensures Search(P, header, target, n, left, patience) == Some(k) <==>
                     First(P, header, target, n, left, patience, k)
    {
      FirstUnrolled(P, header, target, n, left, patience, k);
      if left > 0 { SearchFindsFirst(P, header, target, n + 1, left - 1, patience); }
    }
    if left > 0 { SearchFindsFirst(P, header, target, n + 1, left - 1, patience); }
  }

  lemma FirstUnrolled(P: Params, header: Header, target: int, n: int, left: nat, patience: Patience, k: int)
    ensures First(P, header, target, n, left, patience, k) <==>
            && 0 < left && !patience.expired(n)
            && if Hits(P, header, target, n) then k == n
               else !patience.cancelled(n, P.headerHash(header.(nonce := n)))
                    && First(P, header, target, n + 1, left - 1, patience, k)
  {
    hide Hits;
    if 0 < left && !Hits(P, header, target, n) && First(P, header, target, n + 1, left - 1, patience, k)
       && !patience.expired(n) && !patience.cancelled(n, P.headerHash(header.(nonce := n))) {
      forall j | n <= j <= k ensures !patience.expired(j) { }
      forall j | n <= j < k ensures !Hits(P, header, target, j) { }
      forall j | n <= j < k ensures !patience.cancelled(j, P.headerHash(header.(nonce := j))) { }
    }
  }

  lemma MinedTxs(P: Params, draft: Block, target: int, startNonce: int, maxNonce: nat, patience: Patience)
    ensures var r := Mine(P, draft, target, startNonce, maxNonce, patience);
            r.Mined? ==> r.block.txs == draft.txs && r.block.miner == draft.miner
  {
    hide Search;
  }

  // ---- choosing transactions -------------------------------------------------------------

  datatype Selection = Selection(mineable: seq<Tx>, stale: seq<Tx>, receipts: seq<Receipt>, accounts: Accounts)

  function SelectOne(P: Params, s: Selection, tx: Tx): Selection {
    var m := Touch(s.accounts, tx.sender);
    if tx.nonce < m[tx.sender].nonce then s.(stale := s.stale + [tx], accounts := m) else
    var r := ApplyTx(P, m, tx);
    if r.receipt.Some?
    then Selection(s.mineable + [tx], s.stale, s.receipts + [r.receipt.value], r.accounts)
    else s.(stale := s.stale + [tx], accounts := r.accounts)
  }

  // Pending transactions tried in order on a scratch state.
  function Select(P: Params, m: Accounts, pending: seq<Tx>): (s: Selection)
    ensures |s.mineable| == |s.receipts|
  {
    if pending == [] then Selection([], [], [], m)
    else SelectOne(P, Select(P, m, pending[..|pending| - 1]), pending[|pending| - 1])
  }

  /** What the producer keeps is what a validator finds valid: the same receipts and the same
      state, up to the blank records that dropped transactions left behind. */
  lemma {:induction false} SelectionIsValid(P: Params, m: Accounts, pending: seq<Tx>)
    ensures var (s, r) := (Select(P, m, pending), ApplyTxs(P, m, Select(P, m, pending).mineable));
            r.status == VALID && r.receipts == s.receipts && Same(r.accounts, s.accounts)
  {
    hide ApplyTx, Touch;
    if pending != [] {
      var front, tx := pending[..|pending| - 1], pending[|pending| - 1];
      SelectionIsValid(P, m, front);
      SelectOneIsValid(P, m, Select(P, m, front), tx);
    }
  }

  lemma SelectOneIsValid(P: Params, m: Accounts, s: Selection, tx: Tx)
    requires var r := ApplyTxs(P, m, s.mineable);
             r.status == VALID && r.receipts == s.receipts && Same(r.accounts, s.accounts)
    ensures var (s', r) := (SelectOne(P, s, tx), ApplyTxs(P, m, SelectOne(P, s, tx).mineable));
            r.status == VALID && r.receipts == s'.receipts && Same(r.accounts, s'.accounts)
  {
    hide ApplyTx, Touch;
    var r := ApplyTxs(P, m, s.mineable);
    var touched := Touch(s.accounts, tx.sender);
    SameTouch(r.accounts, s.accounts, tx.sender);
    TouchHas(s.accounts, tx.sender);
    ReceiptMeansValid(P, touched, tx);
    if tx.nonce >= touched[tx.sender].nonce {
      var t := ApplyTx(P, touched, tx);
      if t.receipt.Some? {
        SameTx(P, r.accounts, touched, tx);
        assert (s.mineable + [tx])[..|s.mineable|] == s.mineable;
      } else {
        RejectedTxIsSame(P, touched, tx);
        SameTrans(r.accounts, touched, t.accounts);
      }
    }
  }

  lemma TouchHas(m: Accounts, k: Address)
    ensures k in Touch(m, k)
  {
  }

  lemma ReceiptMeansValid(P: Params, m: Accounts, tx: Tx)
    ensures ApplyTx(P, m, tx).receipt.Some? <==> ApplyTx(P, m, tx).status == VALID
  {
  }

  /** The producer drops no transaction that could go in: one is kept exactly when it is valid on
      the state so far, so the early test for a stale nonce loses nothing. */
  lemma KeepsExactlyTheValid(P: Params, s: Selection, tx: Tx)
    ensures var s' := SelectOne(P, s, tx);
            if ApplyTx(P, s.accounts, tx).status == VALID
            then s'.mineable == s.mineable + [tx] && s'.stale == s.stale
            else s'.mineable == s.mineable && s'.stale == s.stale + [tx]
  {
    var m := Touch(s.accounts, tx.sender);
    assert Touch(m, tx.sender) == m;
    ReceiptMeansValid(P, m, tx);
    assert ApplyTx(P, m, tx).status == ApplyTx(P, s.accounts, tx).status;
    hide ApplyValidated;
  }

  /** Nothing gets lost on the way: every pending transaction is either kept or reported stale. */
  lemma {:induction false} SelectionPartition(P: Params, m: Accounts, pending: seq<Tx>)
    ensures var s := Select(P, m, pending);
            multiset(s.mineable) + multiset(s.stale) == multiset(pending)
  {
    hide ApplyTx, SelectOne;
    if pending != [] {
      var front, tx := pending[..|pending| - 1], pending[|pending| - 1];
      assert pending == front + [tx];
      SelectionPartition(P, m, front);
      KeepsExactlyTheValid(P, Select(P, m, front), tx);
    }
  }

  /** Transactions that are valid in order are all kept. */
  lemma {:induction false} SelectsAllValid(P: Params, m: Accounts, pending: seq<Tx>)
    requires ApplyTxs(P, m, pending).status == VALID
    ensures Select(P, m, pending).mineable == pending
  {
    hide ApplyTx, SelectOne;
    if pending != [] {
      var front, tx := pending[..|pending| - 1], pending[|pending| - 1];
      SelectsAllValid(P, m, front);
      SelectionIsValid(P, m, front);
      SameTx(P, ApplyTxs(P, m, front).accounts, Select(P, m, front).accounts, tx);
      KeepsExactlyTheValid(P, Select(P, m, front), tx);
      assert pending == front + [tx];
    }
  }

  // ---- the block -------------------------------------------------------------------------

  function Later(a: int, b: int): int {
    if a < b then b else a
  }

  // The block as it goes to the miner.
  function Draft(P: Params, nd: Node, s: Selection, miner: string, clock: int): Block
    requires nd.chain != [] && |s.mineable| == |s.receipts|
  {
    var tip := Tip(nd.chain);
    var m := Add(s.accounts, miner, MINING_REWARD + Fees(s.receipts, s.mineable));
    Block(tip.index + 1, tip.hash, nd.target, s.mineable, Later(clock, tip.timestamp + 1), StateRoot(P, m),
          ReceiptRoot(P, s.receipts), s.receipts, Some(miner), 0, 0)
  }

  lemma DraftApplies(P: Params, nd: Node, s: Selection, miner: string, clock: int, b: Block, now: int)
    requires nd.chain != [] && |s.mineable| == |s.receipts| && miner != ""
    requires var r := ApplyTxs(P, nd.accounts, s.mineable);
             r.status == VALID && r.receipts == s.receipts && Same(r.accounts, s.accounts)
    requires b == Draft(P, nd, s, miner, clock).(nonce := b.nonce, hash := b.hash)
    requires CheckLink(P, Tip(nd.chain), b, now) == VALID
    ensures ApplyBlock(P, Tip(nd.chain), b, nd.accounts, nd.target, nd.avg, now).status == VALID
  {
    hide CheckLink, ApplyTxs, StateRoot, ReceiptRoot, Fees, NextTarget, NextAverage;
    var r := ApplyTxs(P, nd.accounts, s.mineable);
    var fees := Fees(s.receipts, s.mineable);
    SameAdd(r.accounts, s.accounts, miner, MINING_REWARD + fees);
    SameRoot(P, Add(r.accounts, miner, MINING_REWARD + fees), Add(s.accounts, miner, MINING_REWARD + fees));
  }

  lemma MinedLinks(P: Params, nd: Node, draft: Block, b: Block, now: int, startNonce: int, maxNonce: nat,
                   patience: Patience)
    requires nd.chain != [] && 1 <= nd.target <= MAX_TARGET
    requires draft.previousHash == Tip(nd.chain).hash && draft.index == Tip(nd.chain).index + 1
    requires draft.target == nd.target && Tip(nd.chain).timestamp < draft.timestamp
    requires Mine(P, draft, draft.target, startNonce, maxNonce, patience) == Mined(b)
    ensures b == draft.(nonce := b.nonce, hash := b.hash)
    ensures CheckLink(P, Tip(nd.chain), b, now) == VALID <==> b.timestamp <= now + 15000
  {
    hide Search, MerkleRoot;
    SearchFindsFirst(P, HeaderOf(P, draft), draft.target, startNonce, maxNonce, patience);
    assert HeaderOf(P, b) == HeaderOf(P, draft).(nonce := b.nonce);
  }

  /** Producer and validator agree: whatever is pooled, a block mined on a reachable node for a
      non-empty miner key is accepted exactly when its timestamp is within the future bound. */
  lemma ProducerAgrees(P: Params, nd: Node, pending: seq<Tx>, miner: string, clock: int, now: int,
                       startNonce: int, maxNonce: nat, patience: Patience)
    requires Ideal(P) && Inv(P, nd, now) && miner != ""
    requires Mine(P, Draft(P, nd, Select(P, nd.accounts, pending), miner, clock), nd.target, startNonce, maxNonce,
                  patience).Mined?
    ensures var b := Mine(P, Draft(P, nd, Select(P, nd.accounts, pending), miner, clock), nd.target, startNonce,
                          maxNonce, patience).block;
            && (AddBlock(P, nd, b, now).0 == VALID <==> b.timestamp <= now + 15000)
            && b.txs == Select(P, nd.accounts, pending).mineable && b.miner == Some(miner) && b.target == nd.target
            && b.timestamp == if clock <= Tip(nd.chain).timestamp then Tip(nd.chain).timestamp + 1 else clock
  {
    hide Replay, Select, Mine, CheckLink, ApplyTxs, ApplyTx;
    var s := Select(P, nd.accounts, pending);
    SelectionIsValid(P, nd.accounts, pending);
    var draft := Draft(P, nd, s, miner, clock);
    var b := Mine(P, draft, nd.target, startNonce, maxNonce, patience).block;
    TargetsInBounds(P, nd.chain, |nd.chain|, now);
    MinedLinks(P, nd, draft, b, now, startNonce, maxNonce, patience);
    if b.timestamp <= now + MAX_FUTURE_BLOCK_TIME_MS {
      DraftApplies(P, nd, s, miner, clock, b, now);
    } else {
      BadLinkRejects(P, nd, b, now);
    }
  }

  lemma BadLinkRejects(P: Params, nd: Node, b: Block, now: int)
    requires nd.chain != [] && CheckLink(P, Tip(nd.chain), b, now) != VALID
    ensures AddBlock(P, nd, b, now).0 != VALID
  {
    hide CheckLink, ApplyTxs, Reward, Attests, NextTarget, NextAverage;
  }

  // ---- the whole round -------------------------------------------------------------------

  datatype Production = Produced(block: Block) | Refused | Unmined

  /** `mine_and_process_block`: choose, build, mine, add, and settle the pool. */
  function Produce(P: Params, nd: Node, list: seq<Tx>, maxSize: nat, perBlock: nat, miner: string, clock: int, now: int,
                   startNonce: int, maxNonce: nat, patience: Patience): (Production, Node, seq<Tx>)
    requires nd.chain != []
  {
    var pending := list[..Min(perBlock, |list|)];
    var s := Select(P, nd.accounts, pending);
    var rest := if s.stale != [] then RemoveFrom(list, s.stale) else list;
    match Mine(P, Draft(P, nd, s, miner, clock), nd.target, startNonce, maxNonce, patience)
    case Mined(b) =>
      var (status, nd') := AddBlock(P, nd, b, now);
      if status == VALID then (Produced(b), nd', RemoveFrom(rest, s.mineable))
      else (Refused, nd', OfferAll(P, rest, maxSize, pending))
    case _ => (Unmined, nd, rest)
  }

  /** When all that is pooled is valid in order, a produced block holds just that, pays the miner,
      and leaves what the transactions leave. */
  lemma ProducedBlock(P: Params, nd: Node, list: seq<Tx>, maxSize: nat, perBlock: nat, miner: string, clock: int,
                      now: int, startNonce: int, maxNonce: nat, patience: Patience)
    requires nd.chain != [] && |list| <= perBlock && ApplyTxs(P, nd.accounts, list).status == VALID
    requires Produce(P, nd, list, maxSize, perBlock, miner, clock, now, startNonce, maxNonce, patience).0.Produced?
    ensures var (production, nd', _) :=
              Produce(P, nd, list, maxSize, perBlock, miner, clock, now, startNonce, maxNonce, patience);
            var (b, r) := (production.block, ApplyTxs(P, nd.accounts, list));
            && nd' == AddBlock(P, nd, b, now).1 && nd'.chain == nd.chain + [b]
            && b.txs == list && b.miner == Some(miner)
            && nd'.accounts == Reward(r.accounts, Some(miner), Fees(r.receipts, list))
  {
    hide Mine, ApplyTxs, Fees, Select, RemoveFrom, OfferAll, CheckLink, Attests, Reward, NextTarget, NextAverage;
    assert list[..Min(perBlock, |list|)] == list;
    SelectsAllValid(P, nd.accounts, list);
    MinedTxs(P, Draft(P, nd, Select(P, nd.accounts, list), miner, clock), nd.target, startNonce, maxNonce, patience);
  }

  method ChooseTransactions(P: Params, pending: seq<Tx>, temp: Ledger) returns (mineable: seq<Tx>, stale: seq<Tx>,
                                                                                receipts: seq<Receipt>)
    requires temp.Valid() && temp.P == P
    modifies temp`accounts, temp.accounts.Writes()
    ensures temp.Valid() && temp.accounts == old(temp.accounts) && temp.accounts.Renewed()
    ensures Selection(mineable, stale, receipts, temp.accounts.view) == Select(P, old(temp.accounts.view), pending)
  {
    hide Journal.Store.Valid, ApplyTx;
    mineable, stale, receipts := [], [], [];
    ghost var start := temp.accounts.view;
    var i := 0;
    while i < |pending|
      invariant 0 <= i <= |pending|
      invariant temp.Valid() && temp.accounts == old(temp.accounts) && temp.accounts.Renewed()
      invariant Selection(mineable, stale, receipts, temp.accounts.view) == Select(P, start, pending[..i])
    {
      assert pending[..i + 1][..i] == pending[..i];
      var tx := pending[i];
      var senderAcc := temp.GetAccount(tx.sender);
      temp.accounts.Shows(tx.sender);
      if tx.nonce < senderAcc.nonce {
        stale := stale + [tx];
      } else {
        var status, receipt := temp.ValidateAndApply(tx);
        if receipt.Some? {
          mineable := mineable + [tx];
          receipts := receipts + [receipt.value];
        } else {
          stale := stale + [tx];
        }
      }
      i := i + 1;
    }
    assert pending[..i] == pending;
  }

  // The scratch run: which transactions go in, and the state root with the reward paid.
  method BuildBlock(bc: Blockchain, pending: seq<Tx>, miner: string, clock: int) returns (draft: Block, stale: seq<Tx>)
    requires bc.Valid()
    ensures var s := Select(bc.P, bc.Held().accounts, pending);
            draft == Draft(bc.P, bc.Held(), s, miner, clock) && stale == s.stale
  {
    hide Journal.Store.Valid, Select, StateRoot, Fees, Add, Top, ReceiptHashes;
    var temp := bc.state.Copy();
    var mineable, receipts;
    mineable, stale, receipts := ChooseTransactions(bc.P, pending, temp);
    var totalFees := Fees(receipts, mineable);
    temp.CreditMiningReward(miner, MINING_REWARD + totalFees);
    var last := bc.chain[|bc.chain| - 1];
    var stateRoot := temp.Root();
    var receiptRoot := CalculateMerkleTree(bc.P.pairHash, ReceiptHashes(bc.P, receipts));
    draft := Block(last.index + 1, last.hash, bc.currentTarget, mineable, Later(clock, last.timestamp + 1), stateRoot,
                   receiptRoot, receipts, Some(miner), 0, 0);
  }

  method MineAndProcessBlock(bc: Blockchain, pool: Mempool, miner: string, clock: int, now: int,
                             startNonce: int, maxNonce: nat, patience: Patience)
    returns (production: Production)
    requires bc.Valid() && pool.P == bc.P && pool !in bc.state.accounts.Repr
    modifies bc, bc.state.accounts, pool
    ensures bc.Valid()
    ensures (production, bc.Held(), pool.list) ==
      Produce(bc.P, old(bc.Held()), old(pool.list), pool.maxSize, pool.perBlock, miner, clock, now, startNonce,
              maxNonce, patience)
  {
    hide Journal.Store.Valid, Select, Mine, AddBlock, AddTo, RemoveFrom;
    var pending := pool.GetTransactionsForBlock();
    var draft, stale := BuildBlock(bc, pending, miner, clock);
    if stale != [] {
      pool.RemoveTransactions(stale);
    }
    var candidate := new Candidate(draft);
    var outcome := MineBlock(bc.P, candidate, draft.target, startNonce, maxNonce, patience);
    if !outcome.Mined? {
      return Unmined;
    }
    var status := bc.AddBlock(outcome.block, now);
    if status == VALID {
      pool.RemoveTransactions(draft.txs);
      return Produced(outcome.block);
    }
    OfferBack(pool, pending);
    return Refused;
  }

  method OfferBack(pool: Mempool, txs: seq<Tx>)
    modifies pool
    ensures pool.list == OfferAll(pool.P, old(pool.list), pool.maxSize, txs)
  {
    hide AddTo;
    var i := 0;
    while i < |txs|
      invariant 0 <= i <= |txs| && pool.list == OfferAll(pool.P, old(pool.list), pool.maxSize, txs[..i])
    {
      assert txs[..i + 1][..i] == txs[..i];
      var added := pool.AddTransaction(txs[i]);
      i := i + 1;
    }
    assert txs[..i] == txs;
  }

  /** A round on a reachable node never loses to its own validator: it ends refused only when the
      clock has let the timestamp run past the future bound. */
  lemma RoundTheorem(P: Params, ops: seq<Op>, begin: int, list: seq<Tx>, maxSize: nat, perBlock: nat, miner: string,
                     clock: int, now: int, startNonce: int, maxNonce: nat, patience: Patience)
    requires Ideal(P) && ValidGenesis(P) && InTime(ops, begin) && ClockAfter(ops, begin) <= now && miner != ""
    ensures var nd := Run(P, ops);
            var (production, nd', _) := Produce(P, nd, list, maxSize, perBlock, miner, clock, now, startNonce,
                                                maxNonce, patience);
            && (production.Refused? ==> now + 15000 < clock || now + 15000 < Tip(nd.chain).timestamp + 1)
            && (production.Produced? ==> nd'.chain == nd.chain + [production.block])
            && (!production.Produced? ==> nd' == nd)
  {
    hide Replay, Run, Select, RemoveFrom, OfferAll, ApplyBlock, Search;
    ReplayInvariant(P, ops, begin);
    var nd := Run(P, ops);
    InvLater(P, nd, ClockAfter(ops, begin), now);
    var pending := list[..Min(perBlock, |list|)];
    if Mine(P, Draft(P, nd, Select(P, nd.accounts, pending), miner, clock), nd.target, startNonce, maxNonce,
            patience).Mined? {
      ProducerAgrees(P, nd, pending, miner, clock, now, startNonce, maxNonce, patience);
    }
  }
}
