/** A block hash pins down everything below it: two valid chains with one tip hash are the same
    chain, block for block, and lead to the same accounts. */
module Uniqueness {
  import opened Prelude
  import opened AccountMaps
  import opened Merkle
  import opened Transition
  import opened Chain
  import opened Replays

  /** A chain on our genesis whose replay is valid by the clock. */
  ghost predicate Genuine(P: Params, chain: seq<Block>, now: int) {
    && chain != []
    && chain[0].hash == GenesisBlock(P).hash
    && Replay(P, chain, |chain|, now).status == VALID
  }

  function Tip(chain: seq<Block>): Block
    requires chain != []
  {
    chain[|chain| - 1]
  }

  function FinalAccounts(P: Params, chain: seq<Block>, now: int): Accounts
    requires chain != []
  {
    Replay(P, chain, |chain|, now).accounts
  }

  lemma GenuinePrefix(P: Params, chain: seq<Block>, n: nat, now: int)
    requires Genuine(P, chain, now) && 1 <= n <= |chain|
    ensures Genuine(P, chain[..n], now) && Replay(P, chain[..n], n, now) == Replay(P, chain, n, now)
  {
    ValidPrefix(P, chain, n, |chain|, now);
    assert chain[..n][..n] == chain[..n];
    ReplayPrefix(P, chain[..n], chain, 1, n, Origin(P, chain[0]), now);
  }

  lemma GenuineLater(P: Params, chain: seq<Block>, now: int, later: int)
    requires Genuine(P, chain, now) && now <= later
    ensures Genuine(P, chain, later) && FinalAccounts(P, chain, later) == FinalAccounts(P, chain, now)
  {
    ReplayLater(P, chain, |chain|, now, later);
  }

  // The last step of a genuine chain with more than the genesis block.
  lemma LastStep(P: Params, chain: seq<Block>, now: int)
    requires Genuine(P, chain, now) && 1 < |chain|
    ensures var (front, b) := (chain[..|chain| - 1], Tip(chain));
            && Genuine(P, front, now)
            && CheckLink(P, Tip(front), b, now) == VALID
            && var r := ApplyTxs(P, FinalAccounts(P, front, now), b.txs);
            && r.status == VALID && r.receipts == b.receipts
            && FinalAccounts(P, chain, now) == Reward(r.accounts, b.miner, Fees(r.receipts, b.txs))
  {
    GenuinePrefix(P, chain, |chain| - 1, now);
  }

  lemma SameHeaderSameBlock(P: Params, m: Accounts, b: Block, c: Block)
    requires Ideal(P) && HeaderOf(P, b) == HeaderOf(P, c) && b.hash == c.hash
    requires var r := ApplyTxs(P, m, b.txs); r.status == VALID && r.receipts == b.receipts
    requires var s := ApplyTxs(P, m, c.txs); s.status == VALID && s.receipts == c.receipts
    ensures b == c
  {
    ValidTxsDistinct(P, m, b.txs);
    ValidTxsDistinct(P, m, c.txs);
    DistinctTxRoots(P, b.txs, c.txs);
  }

  /** Equal tip hashes force equal chains - headers, transactions and receipts - above the
      genesis block, and equal final accounts. */
  lemma {:induction false} SameTipSameChain(P: Params, c: seq<Block>, d: seq<Block>, now: int)
    requires Ideal(P) && Genuine(P, c, now) && Genuine(P, d, now) && Tip(c).hash == Tip(d).hash
    ensures |c| == |d| && c[1..] == d[1..]
    ensures FinalAccounts(P, c, now) == FinalAccounts(P, d, now)
    decreases |c|
  {
    hide Replay, ApplyTxs;
    if 1 < |c| { LastStep(P, c, now); }
    if 1 < |d| { LastStep(P, d, now); }
    assert GenesisBlock(P).hash == P.headerHash(HeaderOf(P, GenesisBlock(P)));
    if 1 < |c| && 1 < |d| {
      var front, front' := c[..|c| - 1], d[..|d| - 1];
      assert HeaderOf(P, Tip(c)) == HeaderOf(P, Tip(d));
      SameTipSameChain(P, front, front', now);
      SameHeaderSameBlock(P, FinalAccounts(P, front, now), Tip(c), Tip(d));
      assert c[1..] == front[1..] + [Tip(c)] && d[1..] == front'[1..] + [Tip(d)];
    } else {
      OriginAccounts(P, c, d, now);
    }
  }

  lemma OriginAccounts(P: Params, c: seq<Block>, d: seq<Block>, now: int)
    requires |c| == 1 == |d|
    ensures FinalAccounts(P, c, now) == FinalAccounts(P, d, now) == P.alloc
  {
  }
}
