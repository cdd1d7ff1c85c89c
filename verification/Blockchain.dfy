/** The `Blockchain` object: its fields, the ledger object it swaps on success, and the loops of
    `add_block` and `resolve_conflicts`, proved against the functions of module Chain. */
module Blockchains {
  import opened Prelude
  import opened Transition
  import opened Merkle
  import opened Chain
  import opened Replays
  import opened Journal
  import opened Ledgers

  class Blockchain {
    const P: Params
    var chain: seq<Block>
    var state: Ledger
    var currentTarget: int
    var avgBlockTime: real
    var snapshots: seq<Snapshot>

    ghost predicate Valid()
      reads this, state, state.accounts, state.accounts.Repr
    {
      && state.Valid() && state.P == P
      && state.accounts.backing == null
      && this !in state.accounts.Repr
      && chain != []
    }

    ghost function Held(): Node
      reads this, state, state.accounts
    {
      Node(chain, state.accounts.view, currentTarget, avgBlockTime, snapshots)
    }

    // The ledger's objects are those it had, or new ones.
    twostate predicate StateRenewed()
      reads this, state, state.accounts
    {
      forall o | o in state.accounts.Repr :: o in old(state.accounts.Repr) || fresh(o)
    }

    /** `_create_genesis_block` on a validated configuration. */
    constructor (P: Params)
      ensures Valid() && this.P == P && Held() == Start(P)
      ensures fresh(state) && fresh(state.accounts.Repr)
    {
      var accounts := new Store.Dict(P.alloc);
      var ledger := new Ledger(P, accounts);
      this.P := P;
      state := ledger;
      chain := [GenesisBlock(P)];
      currentTarget := P.genesisTarget;
      avgBlockTime := P.targetBlockTime as real;
      snapshots := [Snapshot(GenesisBlock(P).hash, P.alloc)];
    }

    /** The transaction loop of `_apply_block`. */
    method ApplyTransactions(txs: seq<Tx>, ledger: Ledger) returns (status: Status, receipts: seq<Receipt>)
      requires ledger.Valid() && ledger.P == P
      modifies ledger`accounts, ledger.accounts.Writes()
      ensures ledger.Valid() && ledger.accounts == old(ledger.accounts) && ledger.accounts.Renewed()
      ensures TxsResult(status, receipts, ledger.accounts.view) == ApplyTxs(P, old(ledger.accounts.view), txs)
    {
      hide ApplyTx, Store.Valid;
      receipts := [];
      var i := 0;
      while i < |txs|
        invariant 0 <= i <= |txs|
        invariant ledger.Valid() && ledger.accounts == old(ledger.accounts) && ledger.accounts.Renewed()
        invariant TxsResult(VALID, receipts, ledger.accounts.view) == ApplyTxs(P, old(ledger.accounts.view), txs[..i])
      {
        var receipt;
        status, receipt := ledger.ValidateAndApply(txs[i]);
        assert txs[..i + 1][..i] == txs[..i];
        if status != VALID {
          TxsStuck(P, old(ledger.accounts.view), txs, i + 1);
          return;
        }
        receipts := receipts + [receipt.value];
        i := i + 1;
      }
      assert txs[..i] == txs;
      status := VALID;
    }

    /** `_apply_block`: validate a block against its predecessor and run it on a ledger. */
    method ApplyBlock(prev: Block, block: Block, ledger: Ledger, target: int, avg: real, now: int)
      returns (status: Status, newTarget: int, newAvg: real)
      requires ledger.Valid() && ledger.P == P
      modifies ledger`accounts, ledger.accounts.Writes()
      ensures ledger.Valid() && ledger.accounts == old(ledger.accounts) && ledger.accounts.Renewed()
      ensures Step(status, ledger.accounts.view, newTarget, newAvg)
           == Chain.ApplyBlock(P, prev, block, old(ledger.accounts.view), target, avg, now)
    {
      hide ApplyTxs, Store.Valid, CheckLink, Fees, NextTarget, NextAverage;
      status, newTarget, newAvg := CheckLink(P, prev, block, now), target, avg;
      if status != VALID {
        return;
      }
      if block.target != target {
        status := INVALID;
        return;
      }
      var receipts;
      status, receipts := ApplyTransactions(block.txs, ledger);
      if status != VALID {
        return;
      }
      var totalFees := Fees(receipts, block.txs);
      if Truthy(block.miner) {
        ledger.CreditMiningReward(block.miner.value, MINING_REWARD + totalFees);
      }
      var receiptRoot := CalculateMerkleTree(P.pairHash, ReceiptHashes(P, receipts));
      var stateRoot := ledger.Root();
      if block.receiptRoot != receiptRoot || block.receipts != receipts || block.stateRoot != stateRoot {
        status := INVALID;
        return;
      }
      newAvg := NextAverage(P, prev, block, avg);
      newTarget := NextTarget(P, target, newAvg);
    }

    /** `add_block`: run the block on a journalled copy; commit it and advance, or drop it and
        leave every account record as it was. */
    method AddBlock(block: Block, now: int) returns (status: Status)
      requires Valid()
      modifies this, state.accounts
      ensures Valid() && StateRenewed() && (status, Held()) == Chain.AddBlock(P, old(Held()), block, now)
      ensures state.accounts == old(state.accounts)
      ensures status != VALID ==> unchanged(this) && forall o | o in old(state.accounts.Repr) :: unchanged(o)
    {
      hide Store.Valid, Chain.ApplyBlock, Push;
      var temp := state.Copy();
      var newTarget, newAvg;
      status, newTarget, newAvg := ApplyBlock(chain[|chain| - 1], block, temp, currentTarget, avgBlockTime, now);
      if status == VALID {
        Advance(block, temp, newTarget, newAvg);
      }
    }

    // The accepted block's state is committed and becomes the node's.
    method Advance(block: Block, temp: Ledger, newTarget: int, newAvg: real)
      requires Valid() && temp.Valid() && temp.P == P && temp.accounts.backing == state.accounts
      requires this !in temp.accounts.Repr && temp !in state.accounts.Repr
      modifies this, temp, temp.accounts, state.accounts
      ensures Valid() && state == temp && state.accounts == old(state.accounts)
      ensures forall o | o in state.accounts.Repr :: o in old(temp.accounts.Repr)
      ensures var m := old(temp.accounts.view);
              Held() == Node(old(chain) + [block], m, newTarget, newAvg, Push(old(snapshots), Snapshot(block.hash, m)))
    {
      hide Store.Valid, Push;
      temp.accounts.Commit();
      temp.accounts := temp.accounts.backing;
      state := temp;
      currentTarget := newTarget;
      avgBlockTime := newAvg;
      chain := chain + [block];
      var snapshot := state.Snapshot();
      snapshots := Push(snapshots, Snapshot(block.hash, snapshot));
    }

    /** The handler's check of a loose transaction, on the live state. */
    method CheckTransaction(tx: Tx) returns (status: Status)
      requires Valid()
      modifies state.accounts
      ensures Valid() && StateRenewed() && (status, Held()) == Probe(P, old(Held()), tx)
    {
      hide Store.Valid;
      status := state.VerifyTransactionLogic(tx);
    }

    // ---- fork choice ---------------------------------------------------------------------

    /** `get_total_work` */
    method GetTotalWork(list: seq<Block>) returns (work: int)
      ensures work == TotalWork(list)
    {
      work := 0;
      var i := 0;
      while i < |list|
        invariant 0 <= i <= |list| && work == TotalWork(list[..i])
      {
        assert list[..i + 1][..i] == list[..i];
        work := work + BlockWork(list[i]);
        i := i + 1;
      }
      assert list[..i] == list;
    }

    // The fast proof-of-work check.
    method AllMeetTarget(list: seq<Block>) returns (ok: bool)
      ensures ok <==> forall i | 0 <= i < |list| :: MeetsTarget(list[i])
    {
      var i := 0;
      while i < |list|
        invariant 0 <= i <= |list| && forall j | 0 <= j < i :: MeetsTarget(list[j])
      {
        if list[i].target <= 0 || list[i].target > MAX_TARGET {
          return false;
        }
        if list[i].hash >= list[i].target {
          return false;
        }
        i := i + 1;
      }
      return true;
    }

    // The oldest snapshot with this hash.
    method FindSnapshot(hash: Hash) returns (found: Option<Accounts>)
      ensures found == Find(snapshots, hash)
    {
      var i := 0;
      while i < |snapshots|
        invariant 0 <= i <= |snapshots| && Find(snapshots[i..], hash) == Find(snapshots, hash)
      {
        assert snapshots[i..][0] == snapshots[i] && snapshots[i..][1..] == snapshots[i + 1..];
        if snapshots[i].hash == hash {
          return Some(snapshots[i].accounts);
        }
        i := i + 1;
      }
      return None;
    }

    // Target and average up to the fork point, without executing state.
    method FastForwardTo(proposed: seq<Block>, fork: nat) returns (target: int, avg: real)
      requires 1 <= fork <= |proposed|
      ensures (target, avg) == FastForward(P, proposed, fork)
    {
      hide NextTarget;
      target, avg := proposed[0].target, P.targetBlockTime as real;
      var i := 1;
      while i < fork
        invariant 1 <= i <= fork && (target, avg) == FastForward(P, proposed, i)
      {
        avg := NextAverage(P, proposed[i - 1], proposed[i], avg);
        target := NextTarget(P, target, avg);
        i := i + 1;
      }
    }

    /** The rebuild loop of `resolve_conflicts`. */
    method ReplayBlocks(proposed: seq<Block>, first: nat, ledger: Ledger, target: int, avg: real, now: int)
      returns (status: Status, newTarget: int, newAvg: real)
      requires ledger.Valid() && ledger.P == P && 1 <= first <= |proposed|
      modifies ledger`accounts, ledger.accounts.Writes()
      ensures ledger.Valid() && ledger.accounts == old(ledger.accounts) && ledger.accounts.Renewed()
      ensures Step(status, ledger.accounts.view, newTarget, newAvg)
           == ReplayFrom(P, proposed, first, |proposed|, Step(VALID, old(ledger.accounts.view), target, avg), now)
    {
      hide Store.Valid, Chain.ApplyBlock;
      status, newTarget, newAvg := VALID, target, avg;
      ghost var start := Step(VALID, ledger.accounts.view, target, avg);
      var i := first;
      while i < |proposed|
        invariant first <= i <= |proposed|
        invariant ledger.Valid() && ledger.accounts == old(ledger.accounts) && ledger.accounts.Renewed()
        invariant status == VALID
        invariant Step(VALID, ledger.accounts.view, newTarget, newAvg) == ReplayFrom(P, proposed, first, i, start, now)
      {
        status, newTarget, newAvg := ApplyBlock(proposed[i - 1], proposed[i], ledger, newTarget, newAvg, now);
        if status != VALID {
          ReplayStuck(P, proposed, first, i + 1, |proposed|, start, now);
          return;
        }
        i := i + 1;
      }
    }

    // A ledger restored at the fork point, and where to go on from.
    method RebuildLedger(fork: nat, proposed: seq<Block>, now: int)
      returns (status: Status, ledger: Ledger, target: int, avg: real)
      requires Valid() && fork <= |chain| && fork < |proposed|
      ensures fresh(ledger) && fresh(ledger.accounts) && fresh(ledger.accounts.Repr)
      ensures ledger.Valid() && ledger.P == P && ledger.accounts.backing == null
      ensures Step(status, ledger.accounts.view, target, avg) == Rebuild(P, Held(), fork, proposed, now)
    {
      hide Store.Valid, ReplayFrom, FastForward;
      var found: Option<Accounts> := None;
      if fork > 0 {
        found := FindSnapshot(chain[fork - 1].hash);
      }
      var accounts := new Store.Dict(if found.Some? then found.value else P.alloc);
      ledger := new Ledger(P, accounts);
      if found.Some? {
        target, avg := FastForwardTo(proposed, fork);
        status, target, avg := ReplayBlocks(proposed, fork, ledger, target, avg, now);
      } else {
        status, target, avg := ReplayBlocks(proposed, 1, ledger, proposed[0].target, P.targetBlockTime as real, now);
      }
    }

    // The checks that come before any state is rebuilt: the proposal connects, meets its targets
    // and is strictly heavier.
    method Screen(proposal: seq<Block>) returns (ok: bool)
      requires chain != []
      ensures ok <==> Worthwhile(chain, proposal)
    {
      hide TotalWork, MeetsTarget;
      if proposal == [] {
        return false;
      }
      var fork := proposal[0].index;
      if fork == 0 {
        if proposal[0].hash != chain[0].hash {
          return false;
        }
      } else {
        if fork > |chain| {
          return false;
        }
        if proposal[0].previousHash != chain[fork - 1].hash {
          return false;
        }
      }
      var proven := AllMeetTarget(proposal);
      if !proven {
        return false;
      }
      var currentWork := GetTotalWork(chain);
      var newWork := GetTotalWork(chain[..fork] + proposal);
      return newWork > currentWork;
    }

    /** `resolve_conflicts` */
    method ResolveConflicts(proposal: seq<Block>, now: int) returns (ok: bool, orphans: seq<Tx>)
      requires Valid()
      modifies this
      ensures Valid() && StateRenewed() && Resolution(ok, orphans, Held()) == Resolve(P, old(Held()), proposal, now)
      ensures !ok ==> unchanged(this)
    {
      hide Store.Valid, Rebuild, TotalWork, MeetsTarget, Orphans, Push;
      ok, orphans := false, [];
      var promising := Screen(proposal);
      if !promising {
        return;
      }
      var fork := proposal[0].index;
      var proposed := chain[..fork] + proposal;
      var status, ledger, target, avg := RebuildLedger(fork, proposed, now);
      if status != VALID {
        return;
      }
      orphans := OrphanedTransactions(chain, proposed);
      chain := proposed;
      state := ledger;
      currentTarget := target;
      avgBlockTime := avg;
      var snapshot := state.Snapshot();
      snapshots := Push(snapshots, Snapshot(proposed[|proposed| - 1].hash, snapshot));
      ok := true;
    }

    /** The two comprehensions over the blocks above genesis, and the filter between them. */
    method OrphanedTransactions(original: seq<Block>, proposed: seq<Block>) returns (orphans: seq<Tx>)
      ensures orphans == Orphans(P, original, proposed)
    {
      var byId, keys := KeyTransactions(original);
      var newIds := Ids(P, TxsOf(proposed));
      orphans := [];
      ghost var ordered := KeyedById(P, TxsOf(original));
      var i := 0;
      while i < |keys|
        invariant 0 <= i <= |keys| && orphans == Without(P, ordered[..i], newIds)
      {
        assert ordered[..i + 1][..i] == ordered[..i];
        assert P.txId(ordered[i]) == keys[i];
        if keys[i] !in newIds {
          orphans := orphans + [byId[keys[i]]];
        }
        i := i + 1;
      }
      assert ordered[..i] == ordered;
    }

    // A dictionary keyed by transaction id, with its keys in insertion order.
    method KeyTransactions(original: seq<Block>) returns (byId: map<Hash, Tx>, keys: seq<Hash>)
      ensures Keyed(byId, keys, KeyedById(P, TxsOf(original)))
    {
      var txs := TxsOf(original);
      byId, keys := map[], [];
      var i := 0;
      while i < |txs|
        invariant 0 <= i <= |txs| && Keyed(byId, keys, KeyedById(P, txs[..i]))
      {
        var id := P.txId(txs[i]);
        ghost var front := KeyedById(P, txs[..i]);
        assert txs[..i + 1][..i] == txs[..i];
        if id !in byId {
          keys := keys + [id];
        } else {
          ghost var j :| 0 <= j < |keys| && keys[j] == id;
          assert P.txId(front[j]) == id;
        }
        byId := byId[id := txs[i]];
        i := i + 1;
      }
      assert txs[..i] == txs;
    }

    ghost predicate Keyed(byId: map<Hash, Tx>, keys: seq<Hash>, txs: seq<Tx>) {
      && |keys| == |txs|
      && (forall i | 0 <= i < |keys| :: keys[i] in byId && byId[keys[i]] == txs[i] && P.txId(txs[i]) == keys[i])
      && (forall i, j | 0 <= i < j < |keys| :: keys[i] != keys[j])
      && (forall id | id in byId :: id in keys)
    }
  }
}
