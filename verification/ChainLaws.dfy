/** Ledger laws along whole chains: supply, nonces, balances, work, targets and orphans. */
module ChainLaws {
  import opened Prelude
  import opened AccountMaps
  import opened CallLaws
  import opened Solvency
  import opened Transition
  import opened Merkle
  import opened Chain
  import opened Replays
  import opened Uniqueness
  import opened NodeRuns

  // ---- supply ----------------------------------------------------------------------------

  lemma {:induction false} TxsSupply(P: Params, m: Accounts, txs: seq<Tx>)
    requires ApplyTxs(P, m, txs).status == VALID
    ensures var r := ApplyTxs(P, m, txs);
            Total(r.accounts) == Total(m) - Fees(r.receipts, txs)
  {
    hide ApplyTx, Total;
    if txs != [] {
      TxsSupply(P, m, txs[..|txs| - 1]);
      TxSupply(P, ApplyTxs(P, m, txs[..|txs| - 1]).accounts, txs[|txs| - 1]);
      var r, front := ApplyTxs(P, m, txs).receipts, ApplyTxs(P, m, txs[..|txs| - 1]).receipts;
      assert r[..|txs| - 1] == front;
    }
  }

  // Coins made and coins lost by the blocks above genesis: a block with a miner mints its
  // reward, and a block without one leaves its fees to nobody.
  function Minted(chain: seq<Block>): int {
    if |chain| <= 1 then 0 else
    Minted(chain[..|chain| - 1]) + if Truthy(chain[|chain| - 1].miner) then 50 else 0
  }

  function BlockFees(b: Block): int {
    if |b.receipts| == |b.txs| then Fees(b.receipts, b.txs) else 0
  }

  function Burned(chain: seq<Block>): int {
    if |chain| <= 1 then 0 else
    Burned(chain[..|chain| - 1]) + if Truthy(chain[|chain| - 1].miner) then 0 else BlockFees(chain[|chain| - 1])
  }

  lemma {:induction false} GenuineSupply(P: Params, chain: seq<Block>, now: int)
    requires Genuine(P, chain, now)
    ensures Total(FinalAccounts(P, chain, now)) == Total(P.alloc) + Minted(chain) - Burned(chain)
    decreases |chain|
  {
    hide Replay, ApplyTxs, Total;
    if 1 < |chain| {
      LastStep(P, chain, now);
      var front, b := chain[..|chain| - 1], Tip(chain);
      GenuineSupply(P, front, now);
      TxsSupply(P, FinalAccounts(P, front, now), b.txs);
      var r := ApplyTxs(P, FinalAccounts(P, front, now), b.txs);
      if Truthy(b.miner) {
        TotalAdd(r.accounts, b.miner.value, MINING_REWARD + Fees(r.receipts, b.txs));
      }
    } else {
      SingleBlockAccounts(P, chain, now);
    }
  }

  lemma SingleBlockAccounts(P: Params, chain: seq<Block>, now: int)
    requires |chain| == 1
    ensures FinalAccounts(P, chain, now) == P.alloc
  {
  }

  /** Supply on every reachable node: genesis allocation, plus 50 for each block with a miner,
      minus the fees of the blocks without one. */
  lemma SupplyTheorem(P: Params, ops: seq<Op>, begin: int)
    requires Ideal(P) && ValidGenesis(P) && InTime(ops, begin)
    ensures var nd := Run(P, ops);
            Total(nd.accounts) == Total(P.alloc) + Minted(nd.chain) - Burned(nd.chain)
  {
    hide Replay, Total, Run;
    ReplayInvariant(P, ops, begin);
    var nd, now := Run(P, ops), ClockAfter(ops, begin);
    GenuineSupply(P, nd.chain, now);
    SameTotal(FinalAccounts(P, nd.chain, now), nd.accounts);
  }

  // ---- balances --------------------------------------------------------------------------

  /** Every transaction is safe on the state it finds. */
  ghost predicate SafeTxs(P: Params, m: Accounts, txs: seq<Tx>) {
    txs == [] || (SafeTxs(P, m, txs[..|txs| - 1]) && Safe(P, ApplyTxs(P, m, txs[..|txs| - 1]).accounts, txs[|txs| - 1]))
  }

  lemma {:induction false} TxsNonNegative(P: Params, m: Accounts, txs: seq<Tx>)
    requires SafeTxs(P, m, txs) && NonNegative(m) && ApplyTxs(P, m, txs).status == VALID
    ensures NonNegative(ApplyTxs(P, m, txs).accounts) && 0 <= Fees(ApplyTxs(P, m, txs).receipts, txs)
  {
    hide ApplyTx, NonNegative, Safe;
    if txs != [] {
      var front, t := txs[..|txs| - 1], txs[|txs| - 1];
      var r := ApplyTxs(P, m, front);
      TxsNonNegative(P, m, front);
      TxNonNegative(P, r.accounts, t);
      TxReceipt(P, r.accounts, t);
      ValidAmounts(P, r.accounts, t);
      var receipt := ApplyTx(P, r.accounts, t).receipt.value;
      FeeBound(receipt.gasUsed, t.gasLimit, t.feePerGas);
      assert ApplyTxs(P, m, txs).receipts[..|txs| - 1] == r.receipts;
    }
  }

  lemma ValidAmounts(P: Params, m: Accounts, tx: Tx)
    requires ApplyTx(P, m, tx).status == VALID
    ensures AmountsWellFormed(tx) && ApplyTx(P, m, tx).receipt.Some?
  {
  }

  /** Every transaction of the chain is safe where it stands. */
  ghost predicate SafeChain(P: Params, chain: seq<Block>, now: int) {
    forall n | 1 <= n < |chain| :: SafeTxs(P, FinalAccounts(P, chain[..n], now), chain[n].txs)
  }

  lemma {:induction false} GenuineNonNegative(P: Params, chain: seq<Block>, now: int)
    requires Genuine(P, chain, now) && SafeChain(P, chain, now) && ValidGenesis(P)
    ensures NonNegative(FinalAccounts(P, chain, now))
    decreases |chain|
  {
    hide Replay, ApplyTxs, SafeTxs;
    if 1 < |chain| {
      LastStep(P, chain, now);
      var front, b := chain[..|chain| - 1], Tip(chain);
      forall n | 1 <= n < |front| ensures SafeTxs(P, FinalAccounts(P, front[..n], now), front[n].txs) {
        assert front[..n] == chain[..n];
      }
      GenuineNonNegative(P, front, now);
      TxsNonNegative(P, FinalAccounts(P, front, now), b.txs);
      var r := ApplyTxs(P, FinalAccounts(P, front, now), b.txs);
      RewardNonNegative(r.accounts, b.miner, Fees(r.receipts, b.txs));
    } else {
      SingleBlockAccounts(P, chain, now);
    }
  }

  // ---- exactly when -----------------------------------------------------------------------

  ghost predicate TxsCovered(P: Params, m: Accounts, txs: seq<Tx>) {
    txs == [] || (
      var front, t := txs[..|txs| - 1], txs[|txs| - 1];
      TxsCovered(P, m, front) && TxCovered(P, ApplyTxs(P, m, front).accounts, t))
  }

  ghost predicate TxsNeverNegative(P: Params, m: Accounts, txs: seq<Tx>) {
    txs == [] || (
      var front, t := txs[..|txs| - 1], txs[|txs| - 1];
      TxsNeverNegative(P, m, front) && TxNeverNegative(P, ApplyTxs(P, m, front).accounts, t))
  }

  lemma {:induction false} TxsCoveredExactly(P: Params, m: Accounts, txs: seq<Tx>)
    requires NonNegative(m) && ApplyTxs(P, m, txs).status == VALID
    ensures TxsCovered(P, m, txs) <==> TxsNeverNegative(P, m, txs)
    ensures TxsCovered(P, m, txs) ==> SafeTxs(P, m, txs) && NonNegative(ApplyTxs(P, m, txs).accounts)
  {
    hide ApplyTx, NonNegative, TxCovered, TxNeverNegative, CarefulIn;
    if txs != [] {
      var front, t := txs[..|txs| - 1], txs[|txs| - 1];
      TxsCoveredExactly(P, m, front);
      if TxsCovered(P, m, front) { TxCoveredExactly(P, ApplyTxs(P, m, front).accounts, t); }
    }
  }

  /** Every value move of every call on the chain is covered when it is made. */
  ghost predicate ChainCovered(P: Params, chain: seq<Block>, now: int) {
    |chain| <= 1 || (
      var n := |chain| - 1;
      ChainCovered(P, chain[..n], now) && TxsCovered(P, FinalAccounts(P, chain[..n], now), chain[n].txs))
  }

  /** At no moment of the chain's life - before and after each transaction, value move, sub-call
      and block - is a balance negative. */
  ghost predicate ChainNeverNegative(P: Params, chain: seq<Block>, now: int) {
    && (chain != [] ==> NonNegative(FinalAccounts(P, chain, now)))
    && (|chain| <= 1 || (
          var n := |chain| - 1;
          && ChainNeverNegative(P, chain[..n], now)
          && TxsNeverNegative(P, FinalAccounts(P, chain[..n], now), chain[n].txs)))
  }

  lemma {:induction false} ChainCoveredExactly(P: Params, chain: seq<Block>, now: int)
    requires Genuine(P, chain, now) && ValidGenesis(P)
    ensures ChainCovered(P, chain, now) <==> ChainNeverNegative(P, chain, now)
    decreases |chain|
  {
    hide Replay, ApplyTxs, TxsCovered, TxsNeverNegative, SafeTxs, NonNegative;
    if 1 < |chain| {
      LastStep(P, chain, now);
      var front, b := chain[..|chain| - 1], Tip(chain);
      var m := FinalAccounts(P, front, now);
      ChainCoveredExactly(P, front, now);
      if ChainCovered(P, front, now) {
        TxsCoveredExactly(P, m, b.txs);
        if TxsCovered(P, m, b.txs) {
          TxsNonNegative(P, m, b.txs);
          var r := ApplyTxs(P, m, b.txs);
          RewardNonNegative(r.accounts, b.miner, Fees(r.receipts, b.txs));
        }
      }
    } else {
      SingleBlockAccounts(P, chain, now);
      AllocNonNegative(P);
    }
  }

  lemma RewardNonNegative(m: Accounts, miner: Option<string>, fees: int)
    requires NonNegative(m) && 0 <= fees
    ensures NonNegative(Reward(m, miner, fees))
  {
    if Truthy(miner) {
      assert 0 <= Lookup(m, miner.value).balance;
      NonNegativeAdd(m, miner.value, MINING_REWARD + fees);
    }
  }

  lemma AllocNonNegative(P: Params)
    requires ValidGenesis(P)
    ensures NonNegative(P.alloc)
  {
  }

  /** Exactly when balances stay non-negative: on every reachable node, the held chain never has a
      negative balance at any moment if and only if every value move of its calls is covered. */
  lemma ExactBalances(P: Params, ops: seq<Op>, begin: int)
    requires Ideal(P) && ValidGenesis(P) && InTime(ops, begin)
    ensures var chain, now := Run(P, ops).chain, ClockAfter(ops, begin);
            ChainCovered(P, chain, now) <==> ChainNeverNegative(P, chain, now)
  {
    hide Replay, Run, ChainCovered, ChainNeverNegative;
    ReplayInvariant(P, ops, begin);
    ChainCoveredExactly(P, Run(P, ops).chain, ClockAfter(ops, begin));
  }

  // ---- careful deployments ---------------------------------------------------------------

  lemma {:induction false} CarefulTxsAreSafe(P: Params, m: Accounts, txs: seq<Tx>)
    requires CarefulIn(P, m) && ApplyTxs(P, m, txs).status == VALID && forall t | t in txs :: CarefulTx(P, t)
    ensures SafeTxs(P, m, txs) && CarefulIn(P, ApplyTxs(P, m, txs).accounts)
  {
    hide ApplyTx, CarefulIn, CarefulTx;
    if txs != [] {
      var front, t := txs[..|txs| - 1], txs[|txs| - 1];
      CarefulTxsAreSafe(P, m, front);
      TxKeepsCareful(P, ApplyTxs(P, m, front).accounts, t);
    }
  }

  lemma {:induction false} CarefulChainIsSafe(P: Params, chain: seq<Block>, now: int)
    requires Genuine(P, chain, now) && ValidGenesis(P) && forall t | t in TxsOf(chain) :: CarefulTx(P, t)
    ensures SafeChain(P, chain, now) && CarefulIn(P, FinalAccounts(P, chain, now))
    decreases |chain|
  {
    hide Replay, ApplyTxs, CarefulTx, SafeTxs, CarefulCode;
    if 1 < |chain| {
      LastStep(P, chain, now);
      var front, b := chain[..|chain| - 1], Tip(chain);
      CarefulChainIsSafe(P, front, now);
      CarefulTxsAreSafe(P, FinalAccounts(P, front, now), b.txs);
      var r := ApplyTxs(P, FinalAccounts(P, front, now), b.txs);
      SameCodeCareful(P, r.accounts, Reward(r.accounts, b.miner, Fees(r.receipts, b.txs)));
      forall n | 1 <= n < |chain| ensures SafeTxs(P, FinalAccounts(P, chain[..n], now), chain[n].txs) {
        assert n < |front| ==> front[..n] == chain[..n] && front[n] == chain[n];
        assert n == |front| ==> chain[..n] == front && chain[n] == b;
      }
    } else {
      SingleBlockAccounts(P, chain, now);
    }
  }

  /** No reachable node holds a negative balance when every transaction on its chain is safe. */
  lemma SafeBalances(P: Params, ops: seq<Op>, begin: int)
    requires Ideal(P) && ValidGenesis(P) && InTime(ops, begin)
    requires SafeChain(P, Run(P, ops).chain, ClockAfter(ops, begin))
    ensures NonNegative(Run(P, ops).accounts)
  {
    hide Replay, Run, SafeChain;
    ReplayInvariant(P, ops, begin);
    var nd, now := Run(P, ops), ClockAfter(ops, begin);
    GenuineNonNegative(P, nd.chain, now);
    forall k ensures 0 <= Lookup(nd.accounts, k).balance {
      assert Lookup(FinalAccounts(P, nd.chain, now), k) == Lookup(nd.accounts, k);
    }
  }

  /** No reachable node holds a negative balance when every deployment on its chain carries
      careful code. */
  lemma BalancesTheorem(P: Params, ops: seq<Op>, begin: int)
    requires Ideal(P) && ValidGenesis(P) && InTime(ops, begin)
    requires forall t | t in TxsOf(Run(P, ops).chain) :: CarefulTx(P, t)
    ensures NonNegative(Run(P, ops).accounts)
  {
    hide Replay, Run, SafeChain, CarefulTx;
    ReplayInvariant(P, ops, begin);
    CarefulChainIsSafe(P, Run(P, ops).chain, ClockAfter(ops, begin));
    SafeBalances(P, ops, begin);
  }

  // ---- nonces along a chain --------------------------------------------------------------

  lemma {:induction false} CountConcat(s: seq<Tx>, t: seq<Tx>, k: Address)
    ensures CountFrom(s + t, k) == CountFrom(s, k) + CountFrom(t, k)
    decreases |t|
  {
    if t == [] {
      assert s + t == s;
    } else {
      assert (s + t)[..|s + t| - 1] == s + t[..|t| - 1];
      CountConcat(s, t[..|t| - 1], k);
    }
  }

  // The nonces of genesis accounts start at zero.
  function Zero(): Address -> int {
    k => 0
  }

  lemma NonceOrderConcat(s: seq<Tx>, t: seq<Tx>, base: Address -> int)
    requires InNonceOrder(Zero(), s) && InNonceOrder(base, t)
    requires forall i | 0 <= i < |t| :: base(t[i].sender) == CountFrom(s, t[i].sender)
    ensures InNonceOrder(Zero(), s + t)
  {
    var all := s + t;
    forall i | 0 <= i < |all| ensures all[i].nonce == Zero()(all[i].sender) + CountFrom(all[..i], all[i].sender) {
      if i < |s| {
        assert all[..i] == s[..i];
      } else {
        assert all[..i] == s + t[..i - |s|];
        CountConcat(s, t[..i - |s|], all[i].sender);
        assert t[i - |s|] == all[i];
      }
    }
  }

  /** Along a genuine chain every sender's transactions carry nonces 0, 1, 2, ... in order, and
      a key's nonce is the number of transactions it has sent. */
  lemma {:induction false} GenuineNonces(P: Params, chain: seq<Block>, now: int)
    requires Genuine(P, chain, now) && ValidGenesis(P) && KeysAreNotContracts(P)
    ensures InNonceOrder(Zero(), TxsOf(chain))
    ensures forall k | IsKey(P, k) :: Lookup(FinalAccounts(P, chain, now), k).nonce == CountFrom(TxsOf(chain), k)
    decreases |chain|
  {
    hide Replay, ApplyTxs, InNonceOrder, CountFrom;
    if 1 < |chain| {
      LastStep(P, chain, now);
      var front, b := chain[..|chain| - 1], Tip(chain);
      var m := FinalAccounts(P, front, now);
      GenuineNonces(P, front, now);
      TxsInOrder(P, m, b.txs);
      NonceOrderConcat(TxsOf(front), b.txs, NonceIn(m));
      var r := ApplyTxs(P, m, b.txs);
      forall k | IsKey(P, k)
        ensures Lookup(FinalAccounts(P, chain, now), k).nonce == CountFrom(TxsOf(chain), k)
      {
        TxsAdvance(P, m, b.txs, k);
        CountConcat(TxsOf(front), b.txs, k);
      }
    } else {
      SingleBlockAccounts(P, chain, now);
      NoTxsInOrder();
    }
  }

  lemma NoTxsInOrder()
    ensures InNonceOrder(Zero(), []) && forall k :: CountFrom([], k) == 0
  {
  }

  /** No (sender, nonce) pair, and so no transaction, occurs twice on a genuine chain. */
  lemma NoReplay(P: Params, chain: seq<Block>, now: int)
    requires Genuine(P, chain, now) && ValidGenesis(P) && KeysAreNotContracts(P)
    ensures var txs := TxsOf(chain);
            forall i, j | 0 <= i < j < |txs| :: txs[i].sender != txs[j].sender || txs[i].nonce < txs[j].nonce
    ensures Distinct(TxsOf(chain))
  {
    GenuineNonces(P, chain, now);
    var txs := TxsOf(chain);
    forall i, j | 0 <= i < j < |txs| && txs[i].sender == txs[j].sender ensures txs[i].nonce < txs[j].nonce {
      NonceOrderDistinct(Zero(), txs, i, j);
    }
  }

  // ---- orphans ---------------------------------------------------------------------------

  lemma {:induction false} KeyedByIdDistinct(P: Params, txs: seq<Tx>)
    requires Ideal(P) && Distinct(txs)
    ensures KeyedById(P, txs) == txs
  {
    if txs != [] {
      var front := txs[..|txs| - 1];
      KeyedByIdDistinct(P, front);
      assert forall i | 0 <= i < |front| :: front[i] == txs[i];
    }
  }

  lemma {:induction false} WithoutThins(P: Params, txs: seq<Tx>, ids: set<Hash>) returns (at: seq<nat>)
    ensures Thinned(Without(P, txs, ids), txs, at)
    ensures forall t :: t in Without(P, txs, ids) <==> t in txs && P.txId(t) !in ids
  {
    if txs == [] {
      at := [];
    } else {
      var front, t := txs[..|txs| - 1], txs[|txs| - 1];
      at := WithoutThins(P, front, ids);
      assert txs == front + [t];
      if P.txId(t) !in ids {
        at := at + [|front|];
      }
    }
  }

  /** A reorganisation splits the old chain's transactions exactly: each is either on the new
      chain or among the returned orphans, and the orphans keep their old order. */
  lemma OrphansSplit(P: Params, chain: seq<Block>, proposed: seq<Block>, now: int) returns (at: seq<nat>)
    requires Ideal(P) && ValidGenesis(P) && Genuine(P, chain, now)
    ensures forall t :: t in Orphans(P, chain, proposed) <==> t in TxsOf(chain) && t !in TxsOf(proposed)
    ensures Thinned(Orphans(P, chain, proposed), TxsOf(chain), at)
  {
    NoReplay(P, chain, now);
    KeyedByIdDistinct(P, TxsOf(chain));
    var ids := Ids(P, TxsOf(proposed));
    at := WithoutThins(P, TxsOf(chain), ids);
    forall t ensures P.txId(t) in ids <==> t in TxsOf(proposed) {
      if t in TxsOf(proposed) {
        var i :| 0 <= i < |TxsOf(proposed)| && TxsOf(proposed)[i] == t;
      }
    }
  }

  /** The same on a reorganisation of any reachable node: the transactions it held are split into
      those on the chain it now holds and the orphans it hands back. */
  lemma ReorgSplits(P: Params, ops: seq<Op>, begin: int, proposal: seq<Block>, now: int) returns (at: seq<nat>)
    requires Ideal(P) && ValidGenesis(P) && InTime(ops, begin)
    requires Resolve(P, Run(P, ops), proposal, now).ok
    ensures var nd, r := Run(P, ops), Resolve(P, Run(P, ops), proposal, now);
            && (forall t :: t in r.orphans <==> t in TxsOf(nd.chain) && t !in TxsOf(r.node.chain))
            && Thinned(r.orphans, TxsOf(nd.chain), at)
  {
    hide Replay, Run, Rebuild, Orphans;
    ReplayInvariant(P, ops, begin);
    var nd := Run(P, ops);
    at := OrphansSplit(P, nd.chain, Resolve(P, nd, proposal, now).node.chain, ClockAfter(ops, begin));
  }

  /** On every reachable node a key's nonce is the number of its transactions on the held chain,
      where they carry nonces 0, 1, 2, ... in order. */
  lemma NoncesTheorem(P: Params, ops: seq<Op>, begin: int)
    requires Ideal(P) && ValidGenesis(P) && InTime(ops, begin)
    ensures var nd := Run(P, ops);
            && InNonceOrder(Zero(), TxsOf(nd.chain)) && Distinct(TxsOf(nd.chain))
            && forall k | IsKey(P, k) :: Lookup(nd.accounts, k).nonce == CountFrom(TxsOf(nd.chain), k)
  {
    hide Replay, Run, InNonceOrder, CountFrom;
    ReplayInvariant(P, ops, begin);
    var nd, now := Run(P, ops), ClockAfter(ops, begin);
    GenuineNonces(P, nd.chain, now);
    NoReplay(P, nd.chain, now);
    forall k | IsKey(P, k) ensures Lookup(nd.accounts, k).nonce == CountFrom(TxsOf(nd.chain), k) {
      assert Lookup(FinalAccounts(P, nd.chain, now), k) == Lookup(nd.accounts, k);
    }
  }
}
