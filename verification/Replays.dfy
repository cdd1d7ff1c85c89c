/** How replays compose: prefixes, splits, later clocks, blank records, and what a valid block
    forces on nonces. */
module Replays {
  import opened Prelude
  import opened AccountMaps
  import opened CallLaws
  import opened Transition
  import opened Merkle
  import opened Chain

  // ---- equality up to blank records ------------------------------------------------------

  lemma {:induction false} SameTxs(P: Params, a: Accounts, b: Accounts, txs: seq<Tx>)
    requires Same(a, b)
    ensures var r, s := ApplyTxs(P, a, txs), ApplyTxs(P, b, txs);
            r.status == s.status && r.receipts == s.receipts && Same(r.accounts, s.accounts)
  {
    hide ApplyTx;
    if txs != [] {
      var front := txs[..|txs| - 1];
      SameTxs(P, a, b, front);
      SameTx(P, ApplyTxs(P, a, front).accounts, ApplyTxs(P, b, front).accounts, txs[|txs| - 1]);
    }
  }

  ghost predicate SameStep(r: Step, s: Step) {
    r.status == s.status && r.target == s.target && r.avg == s.avg && Same(r.accounts, s.accounts)
  }

  lemma SameBlock(P: Params, prev: Block, b: Block, m: Accounts, m': Accounts, target: int, avg: real, now: int)
    requires Same(m, m')
    ensures SameStep(ApplyBlock(P, prev, b, m, target, avg, now), ApplyBlock(P, prev, b, m', target, avg, now))
  {
    hide ApplyTxs, CheckLink, NextTarget, NextAverage, StateRoot, ReceiptRoot, Fees;
    SameTxs(P, m, m', b.txs);
    var r, s := ApplyTxs(P, m, b.txs), ApplyTxs(P, m', b.txs);
    if r.status == VALID {
      var fees := Fees(r.receipts, b.txs);
      if Truthy(b.miner) { SameAdd(r.accounts, s.accounts, b.miner.value, MINING_REWARD + fees); }
      SameRoot(P, Reward(r.accounts, b.miner, fees), Reward(s.accounts, b.miner, fees));
    }
  }

  /** Replays that start alike up to blank records end alike up to blank records. */
  lemma {:induction false} SameReplay(P: Params, chain: seq<Block>, first: nat, n: nat, r: Step, s: Step, now: int)
    requires 1 <= first && n <= |chain| && SameStep(r, s)
    ensures SameStep(ReplayFrom(P, chain, first, n, r, now), ReplayFrom(P, chain, first, n, s, now))
    decreases n
  {
    hide ApplyBlock;
    if first < n {
      SameReplay(P, chain, first, n - 1, r, s, now);
      var r', s' := ReplayFrom(P, chain, first, n - 1, r, now), ReplayFrom(P, chain, first, n - 1, s, now);
      if r'.status == VALID {
        SameBlock(P, chain[n - 2], chain[n - 1], r'.accounts, s'.accounts, r'.target, r'.avg, now);
      }
    }
  }

  // ---- composition -----------------------------------------------------------------------

  lemma {:induction false} ReplaySplit(P: Params, chain: seq<Block>, first: nat, mid: nat, n: nat, start: Step,
                                       now: int)
    requires 1 <= first <= mid <= n <= |chain|
    requires ReplayFrom(P, chain, first, mid, start, now).status == VALID
    ensures ReplayFrom(P, chain, first, n, start, now)
         == ReplayFrom(P, chain, mid, n, ReplayFrom(P, chain, first, mid, start, now), now)
    decreases n
  {
    hide ApplyBlock;
    if mid < n {
      ReplaySplit(P, chain, first, mid, n - 1, start, now);
    }
  }

  /** The blocks from n on do not matter to the replay of the first n. */
  lemma {:induction false} ReplayPrefix(P: Params, c: seq<Block>, d: seq<Block>, first: nat, n: nat, start: Step,
                                        now: int)
    requires 1 <= first && n <= |c| && n <= |d| && c[..n] == d[..n]
    ensures ReplayFrom(P, c, first, n, start, now) == ReplayFrom(P, d, first, n, start, now)
    decreases n
  {
    hide ApplyBlock;
    if first < n {
      assert c[..n - 1] == c[..n][..n - 1] == d[..n][..n - 1] == d[..n - 1];
      assert c[n - 2] == c[..n][n - 2] == d[n - 2];
      assert c[n - 1] == c[..n][n - 1] == d[n - 1];
      ReplayPrefix(P, c, d, first, n - 1, start, now);
    }
  }

  /** A valid replay is valid at every earlier block. */
  lemma {:induction false} ValidPrefix(P: Params, chain: seq<Block>, k: nat, n: nat, now: int)
    requires 1 <= k <= n <= |chain| && Replay(P, chain, n, now).status == VALID
    ensures Replay(P, chain, k, now).status == VALID
    decreases n
  {
    hide ApplyBlock;
    if k < n {
      ValidPrefix(P, chain, k, n - 1, now);
    }
  }

  /** What was valid stays valid: the clock enters only as an upper bound. */
  lemma {:induction false} ReplayLater(P: Params, chain: seq<Block>, n: nat, now: int, later: int)
    requires 1 <= n <= |chain| && now <= later && Replay(P, chain, n, now).status == VALID
    ensures Replay(P, chain, n, later) == Replay(P, chain, n, now)
    decreases n
  {
    if 1 < n {
      ReplayLater(P, chain, n - 1, now, later);
    }
  }

  /** A replay that failed stays where it failed. */
  lemma {:induction false} ReplayStuck(P: Params, chain: seq<Block>, first: nat, k: nat, n: nat, start: Step, now: int)
    requires 1 <= first && k <= n <= |chain| && start.status == VALID
    requires ReplayFrom(P, chain, first, k, start, now).status != VALID
    ensures ReplayFrom(P, chain, first, n, start, now) == ReplayFrom(P, chain, first, k, start, now)
    decreases n
  {
    hide ApplyBlock;
    if k < n {
      ReplayStuck(P, chain, first, k, n - 1, start, now);
    }
  }

  lemma {:induction false} TxsStuck(P: Params, m: Accounts, txs: seq<Tx>, k: nat)
    requires k <= |txs| && ApplyTxs(P, m, txs[..k]).status != VALID
    ensures ApplyTxs(P, m, txs) == ApplyTxs(P, m, txs[..k])
    decreases |txs|
  {
    hide ApplyTx;
    if k == |txs| {
      assert txs[..k] == txs;
    } else {
      assert txs[..|txs| - 1][..k] == txs[..k];
      TxsStuck(P, m, txs[..|txs| - 1], k);
    }
  }

  /** What running transactions in order means: each one finds the accounts that those before it
      left; if all are valid, each gives its own receipt; otherwise the verdict is that of the first
      that is not valid. */
  lemma {:induction false} TxsExactly(P: Params, m: Accounts, txs: seq<Tx>)
    ensures var r := ApplyTxs(P, m, txs);
            if r.status == VALID then
              |r.receipts| == |txs| && forall i | 0 <= i < |txs| ::
                ApplyTx(P, ApplyTxs(P, m, txs[..i]).accounts, txs[i])
                == TxResult(VALID, Some(r.receipts[i]), ApplyTxs(P, m, txs[..i + 1]).accounts)
            else
              exists i :: 0 <= i < |txs| && ApplyTxs(P, m, txs[..i]).status == VALID
                && ApplyTx(P, ApplyTxs(P, m, txs[..i]).accounts, txs[i]).status == r.status
  {
    hide ApplyTx;
    if txs != [] {
      var n := |txs| - 1;
      var front := txs[..n];
      TxsExactly(P, m, front);
      ValidHasReceipt(P, ApplyTxs(P, m, front).accounts, txs[n]);
      assert forall i | 0 <= i <= n :: front[..i] == txs[..i];
      assert txs[..n + 1] == txs;
      if ApplyTxs(P, m, front).status != VALID {
        var i :| 0 <= i < n && ApplyTxs(P, m, front[..i]).status == VALID
              && ApplyTx(P, ApplyTxs(P, m, front[..i]).accounts, front[i]).status == ApplyTxs(P, m, front).status;
        assert txs[..i] == front[..i] && txs[i] == front[i];
      } else {
        forall i | 0 <= i < n && ApplyTxs(P, m, txs).status == VALID
          ensures ApplyTx(P, ApplyTxs(P, m, txs[..i]).accounts, txs[i])
               == TxResult(VALID, Some(ApplyTxs(P, m, txs).receipts[i]), ApplyTxs(P, m, txs[..i + 1]).accounts)
        {
          assert front[..i + 1] == txs[..i + 1] && front[i] == txs[i];
        }
      }
    }
  }

  lemma ValidHasReceipt(P: Params, m: Accounts, tx: Tx)
    ensures ApplyTx(P, m, tx).status == VALID <==> ApplyTx(P, m, tx).receipt.Some?
  {
  }

  /** The fast-forward computes the target and average of a valid replay. */
  lemma {:induction false} FastForwardIsReplay(P: Params, chain: seq<Block>, n: nat, now: int)
    requires 1 <= n <= |chain| && Replay(P, chain, n, now).status == VALID
    ensures var r := Replay(P, chain, n, now);
            FastForward(P, chain, n) == (r.target, r.avg)
    decreases n
  {
    if 1 < n {
      FastForwardIsReplay(P, chain, n - 1, now);
    }
  }

  /** One more block after a valid replay. */
  lemma ReplayExtend(P: Params, chain: seq<Block>, b: Block, now: int)
    requires chain != [] && Replay(P, chain, |chain|, now).status == VALID
    ensures var r := Replay(P, chain, |chain|, now);
            Replay(P, chain + [b], |chain| + 1, now) ==
              ApplyBlock(P, chain[|chain| - 1], b, r.accounts, r.target, r.avg, now)
  {
    hide ApplyBlock;
    var longer := chain + [b];
    assert longer[..|chain|] == chain[..|chain|];
    ReplayPrefix(P, longer, chain, 1, |chain|, Origin(P, chain[0]), now);
    assert longer[|longer| - 2] == chain[|chain| - 1] && longer[|longer| - 1] == b;
  }

  // ---- nonces ----------------------------------------------------------------------------

  ghost predicate IsKey(P: Params, k: Address) {
    forall s, n :: P.contractAddress(s, n) != k
  }

  function CountFrom(txs: seq<Tx>, k: Address): nat {
    if txs == [] then 0 else
    CountFrom(txs[..|txs| - 1], k) + if txs[|txs| - 1].sender == k then 1 else 0
  }

  /** Each sender's transactions carry its nonces in order, counting on from `base`. */
  ghost predicate InNonceOrder(base: Address -> int, txs: seq<Tx>) {
    forall i | 0 <= i < |txs| :: txs[i].nonce == base(txs[i].sender) + CountFrom(txs[..i], txs[i].sender)
  }

  function NonceIn(m: Accounts): Address -> int {
    k => Lookup(m, k).nonce
  }

  lemma InNonceOrderSnoc(base: Address -> int, txs: seq<Tx>)
    requires txs != [] && InNonceOrder(base, txs[..|txs| - 1])
    requires var t := txs[|txs| - 1]; t.nonce == base(t.sender) + CountFrom(txs[..|txs| - 1], t.sender)
    ensures InNonceOrder(base, txs)
  {
    var front := txs[..|txs| - 1];
    forall i | 0 <= i < |txs| ensures txs[i].nonce == base(txs[i].sender) + CountFrom(txs[..i], txs[i].sender) {
      if i < |front| {
        assert front[i] == txs[i] && front[..i] == txs[..i];
      }
    }
  }

  /** Valid transactions advance a key's nonce once for each one it sent. */
  lemma {:induction false} TxsAdvance(P: Params, m: Accounts, txs: seq<Tx>, k: Address)
    requires KeysAreNotContracts(P) && ApplyTxs(P, m, txs).status == VALID && IsKey(P, k)
    ensures Lookup(ApplyTxs(P, m, txs).accounts, k).nonce == Lookup(m, k).nonce + CountFrom(txs, k)
  {
    hide ApplyTx, Lookup;
    if txs != [] {
      var front, t := txs[..|txs| - 1], txs[|txs| - 1];
      TxsAdvance(P, m, front, k);
      assert k != P.contractAddress(t.sender, t.nonce);
      TxNonces(P, ApplyTxs(P, m, front).accounts, t, k);
    }
  }

  /** Valid transactions are signed by keys, and carry their senders' nonces in order. */
  lemma {:induction false} TxsInOrder(P: Params, m: Accounts, txs: seq<Tx>)
    requires KeysAreNotContracts(P) && ApplyTxs(P, m, txs).status == VALID
    ensures InNonceOrder(NonceIn(m), txs)
    ensures forall i | 0 <= i < |txs| :: IsKey(P, txs[i].sender)
  {
    hide ApplyTx, Lookup;
    if txs != [] {
      var front, t := txs[..|txs| - 1], txs[|txs| - 1];
      TxsInOrder(P, m, front);
      TxReceipt(P, ApplyTxs(P, m, front).accounts, t);
      assert IsKey(P, t.sender);
      TxsAdvance(P, m, front, t.sender);
      InNonceOrderSnoc(NonceIn(m), txs);
      forall i | 0 <= i < |txs| ensures IsKey(P, txs[i].sender) {
        if i < |front| { assert front[i] == txs[i]; }
      }
    }
  }

  lemma {:induction false} CountGrows(txs: seq<Tx>, i: nat, j: nat, k: Address)
    requires i <= j <= |txs|
    ensures CountFrom(txs[..i], k) <= CountFrom(txs[..j], k)
    decreases j
  {
    if i < j {
      CountGrows(txs, i, j - 1, k);
      assert txs[..j][..j - 1] == txs[..j - 1];
    }
  }

  /** In nonce order no sender uses a nonce twice. */
  lemma NonceOrderDistinct(base: Address -> int, txs: seq<Tx>, i: nat, j: nat)
    requires InNonceOrder(base, txs) && i < j < |txs| && txs[i].sender == txs[j].sender
    ensures txs[i].nonce < txs[j].nonce
  {
    var k := txs[i].sender;
    CountGrows(txs, i + 1, j, k);
    assert txs[..i + 1][..i] == txs[..i];
  }

  lemma ValidTxsDistinct(P: Params, m: Accounts, txs: seq<Tx>)
    requires KeysAreNotContracts(P) && ApplyTxs(P, m, txs).status == VALID
    ensures Distinct(txs)
  {
    TxsInOrder(P, m, txs);
    forall i, j | 0 <= i < j < |txs| ensures txs[i] != txs[j] {
      if txs[i] == txs[j] { NonceOrderDistinct(NonceIn(m), txs, i, j); }
    }
  }
}
