/** What becomes of pooled transactions: after a chain response - reorganisation, refusal or
    catch-up - and after a mining round. */
module Settlement {
  import opened Prelude
  import opened AccountMaps
  import opened Transition
  import opened Chain
  import opened Replays
  import opened Uniqueness
  import opened NodeRuns
  import opened ChainLaws
  import opened Mempools
  import opened Producer
  import opened Sync
  import Wire

  // ---- reorganisation --------------------------------------------------------------------

  lemma {:induction false} TxsSigned(P: Params, m: Accounts, txs: seq<Tx>)
    requires ApplyTxs(P, m, txs).status == VALID
    ensures forall t | t in txs :: P.signed(t)
  {
    hide ApplyTx;
    if txs != [] {
      var front, t := txs[..|txs| - 1], txs[|txs| - 1];
      assert txs == front + [t];
      TxsSigned(P, m, front);
      TxReceipt(P, ApplyTxs(P, m, front).accounts, t);
    }
  }

  lemma {:induction false} HeldAreSigned(P: Params, chain: seq<Block>, now: int)
    requires Genuine(P, chain, now)
    ensures forall t | t in TxsOf(chain) :: P.signed(t)
    decreases |chain|
  {
    hide Replay, ApplyTxs;
    if 1 < |chain| {
      LastStep(P, chain, now);
      var front := chain[..|chain| - 1];
      HeldAreSigned(P, front, now);
      TxsSigned(P, FinalAccounts(P, front, now), Tip(chain).txs);
    }
  }

  // Orphans are signed, and no two share sender and nonce.
  lemma OrphansApart(P: Params, chain: seq<Block>, proposed: seq<Block>, now: int)
    requires Ideal(P) && ValidGenesis(P) && Genuine(P, chain, now)
    ensures var orphans := Orphans(P, chain, proposed);
            && (forall t :: t in orphans <==> t in TxsOf(chain) && t !in TxsOf(proposed))
            && (forall t | t in orphans :: P.signed(t))
            && forall i, j | 0 <= i < |orphans| && 0 <= j < |orphans| && i != j :: Apart(orphans[i], orphans[j])
  {
    hide Replay, Orphans, TxsOf;
    var at := OrphansSplit(P, chain, proposed, now);
    HeldAreSigned(P, chain, now);
    GenuineNonces(P, chain, now);
    ThinnedApart(Orphans(P, chain, proposed), TxsOf(chain), at);
  }

  lemma ThinnedApart(part: seq<Tx>, whole: seq<Tx>, at: seq<nat>)
    requires Thinned(part, whole, at) && InNonceOrder(Zero(), whole)
    ensures forall i, j | 0 <= i < |part| && 0 <= j < |part| && i != j :: Apart(part[i], part[j])
  {
    forall i, j | 0 <= i < |part| && 0 <= j < |part| && i != j ensures Apart(part[i], part[j]) {
      var (a, b) := if i < j then (at[i], at[j]) else (at[j], at[i]);
      if whole[a].sender == whole[b].sender { NonceOrderDistinct(Zero(), whole, a, b); }
    }
  }

  // The response is not a continuation of the held chain.
  predicate Forks(nd: Node, blocks: seq<Block>)
    requires nd.chain != [] && blocks != []
  {
    blocks[0].index != Tip(nd.chain).index + 1 || blocks[0].previousHash != Tip(nd.chain).hash
  }

  /** After an accepted reorganisation nothing is lost: each transaction of the old chain that is
      not on the new one is in the pool, if no entry had its sender and nonce and there was room;
      every entry stays whose sender and nonce no such transaction has; and nothing else comes in. */
  lemma ReorgRestores(P: Params, nd: Node, list: seq<Tx>, maxSize: nat, payload: seq<Wire.WireBlock>, limit: nat,
                      now: int, t: Tx)
    requires Ideal(P) && ValidGenesis(P) && Inv(P, nd, now)
    requires payload != [] && ParseAll(P, payload, now).Some?
    requires var blocks := ParseAll(P, payload, now).value; Forks(nd, blocks) && Resolve(P, nd, blocks, now).ok
    ensures var r := Resolve(P, nd, ParseAll(P, payload, now).value, now);
            var h := Handle(P, nd, list, maxSize, payload, limit, now);
            var returning := t in TxsOf(nd.chain) && t !in TxsOf(r.node.chain);
            && h.node == r.node
            && (returning && |list| + |r.orphans| <= maxSize && (forall e | e in list :: Apart(e, t)) ==> t in h.list)
            && (t in list && (forall s | s in TxsOf(nd.chain) && s !in TxsOf(r.node.chain) :: Apart(s, t)) ==>
                  t in h.list)
            && (t in h.list ==> t in list || returning)
  {
    hide Replay, Rebuild, Orphans, OfferAll, ParseAll, Worthwhile, ForkIndex, Apart, TxsOf;
    var blocks := ParseAll(P, payload, now).value;
    var r := Resolve(P, nd, blocks, now);
    OrphansApart(P, nd.chain, r.node.chain, now);
    OfferAllOnly(P, list, maxSize, r.orphans);
    if t in r.orphans && |list| + |r.orphans| <= maxSize && forall e | e in list :: Apart(e, t) {
      var i :| 0 <= i < |r.orphans| && r.orphans[i] == t;
      OfferAllTakes(P, list, maxSize, r.orphans, i);
    }
    if t in list && forall s | s in r.orphans :: Apart(s, t) {
      OfferAllKeeps(P, list, maxSize, r.orphans, t);
    }
  }

  /** A response that is empty, does not parse, or is refused as a reorganisation leaves pool and
      node as they were. */
  lemma RefusedKeepsPool(P: Params, nd: Node, list: seq<Tx>, maxSize: nat, payload: seq<Wire.WireBlock>, limit: nat,
                         now: int)
    requires nd.chain != []
    requires payload == [] || ParseAll(P, payload, now) == None || (
               var blocks := ParseAll(P, payload, now).value;
               Forks(nd, blocks) && !Resolve(P, nd, blocks, now).ok)
    ensures var h := Handle(P, nd, list, maxSize, payload, limit, now);
            h.node == nd && h.list == list
  {
    hide Worthwhile, Rebuild, Orphans, ParseAll;
  }

  // ---- catch-up --------------------------------------------------------------------------

  // No transaction of these blocks has t's sender and nonce.
  ghost predicate ApartFrom(blocks: seq<Block>, t: Tx) {
    forall i, s | 0 <= i < |blocks| && s in blocks[i].txs :: s.sender != t.sender || s.nonce != t.nonce
  }

  /** Catching up adopts blocks on top of the held chain, and stops at the first new block that is
      refused, whose index it reports. */
  lemma {:induction false} CatchUpAdopts(P: Params, nd: Node, list: seq<Tx>, blocks: seq<Block>, now: int)
    requires nd.chain != []
    ensures var c := CatchUp(P, nd, list, blocks, now);
            var n := |nd.chain|;
            && n <= |c.node.chain| && c.node.chain[..n] == nd.chain
            && (forall b | b in c.node.chain[n..] :: b in blocks)
            && (c.stuck.Some? ==>
                  exists b :: b in blocks && b.index == c.stuck.value && Tip(c.node.chain).index < b.index
                           && AddBlock(P, c.node, b, now).0 != VALID)
            && (c.stuck == None ==>
                  forall b | b in blocks :: b in c.node.chain[n..] || b.index <= Tip(c.node.chain).index)
    decreases |blocks|
  {
    hide ApplyBlock, RemoveFrom;
    var n := |nd.chain|;
    if blocks == [] {
    } else if blocks[0].index <= Tip(nd.chain).index {
      CatchUpAdopts(P, nd, list, blocks[1..], now);
      TipGrows(P, nd, list, blocks[1..], now);
    } else {
      var (status, nd') := AddBlock(P, nd, blocks[0], now);
      if status == VALID {
        var list' := RemoveFrom(list, blocks[0].txs);
        CatchUpAdopts(P, nd', list', blocks[1..], now);
        ChainFromHere(nd.chain, blocks[0], CatchUp(P, nd', list', blocks[1..], now).node.chain);
      } else {
        assert blocks[0] in blocks;
      }
    }
  }

  lemma ChainFromHere(chain: seq<Block>, b: Block, longer: seq<Block>)
    requires |chain| < |longer| && longer[..|chain| + 1] == chain + [b]
    ensures longer[..|chain|] == chain && longer[|chain|..] == [b] + longer[|chain| + 1..]
  {
    var n := |chain|;
    assert longer[..n] == longer[..n + 1][..n];
    assert longer[n] == longer[..n + 1][n];
  }

  /** It drops from the pool exactly the entries whose sender and nonce an adopted transaction has. */
  lemma {:induction false} CatchUpSettles(P: Params, nd: Node, list: seq<Tx>, blocks: seq<Block>, now: int, t: Tx)
    requires nd.chain != []
    ensures var c := CatchUp(P, nd, list, blocks, now);
            && |nd.chain| <= |c.node.chain|
            && (t in c.list <==> t in list && ApartFrom(c.node.chain[|nd.chain|..], t))
    decreases |blocks|
  {
    hide CatchUp, AddBlock, RemoveFrom, ApartFrom;
    CatchUpAdopts(P, nd, list, blocks, now);
    CatchUpStep(P, nd, list, blocks, now);
    if blocks != [] && blocks[0].index <= Tip(nd.chain).index {
      CatchUpSettles(P, nd, list, blocks[1..], now, t);
    } else if blocks != [] && AddBlock(P, nd, blocks[0], now).0 == VALID {
      var nd', list' := AddBlock(P, nd, blocks[0], now).1, RemoveFrom(list, blocks[0].txs);
      var c := CatchUp(P, nd', list', blocks[1..], now);
      CatchUpSettles(P, nd', list', blocks[1..], now, t);
      CatchUpAdopts(P, nd', list', blocks[1..], now);
      ChainFromHere(nd.chain, blocks[0], c.node.chain);
      RemoveExactly(list, blocks[0].txs);
      ApartFromCons(blocks[0], c.node.chain[|nd.chain| + 1..], t);
    } else {
      NoneApart(t);
    }
  }

  // One block of a catch-up.
  lemma CatchUpStep(P: Params, nd: Node, list: seq<Tx>, blocks: seq<Block>, now: int)
    requires nd.chain != []
    ensures var c := CatchUp(P, nd, list, blocks, now);
            if blocks == [] then c == Caught(nd, list, None)
            else if blocks[0].index <= Tip(nd.chain).index then c == CatchUp(P, nd, list, blocks[1..], now)
            else
              var (status, nd') := AddBlock(P, nd, blocks[0], now);
              if status == VALID then
                nd'.chain == nd.chain + [blocks[0]] &&
                c == CatchUp(P, nd', RemoveFrom(list, blocks[0].txs), blocks[1..], now)
              else c == Caught(nd, list, Some(blocks[0].index))
    ensures nd.chain[|nd.chain|..] == []
  {
    hide ApplyBlock, RemoveFrom;
  }

  lemma NoneApart(t: Tx)
    ensures ApartFrom([], t)
  {
  }

  lemma ApartFromCons(b: Block, rest: seq<Block>, t: Tx)
    ensures ApartFrom([b] + rest, t) <==>
            ApartFrom(rest, t) && forall s | s in b.txs :: s.sender != t.sender || s.nonce != t.nonce
  {
    var all := [b] + rest;
    assert all[0] == b && forall i | 0 <= i < |rest| :: all[i + 1] == rest[i];
    if ApartFrom(all, t) {
      forall i, s | 0 <= i < |rest| && s in rest[i].txs ensures s.sender != t.sender || s.nonce != t.nonce {
        assert s in all[i + 1].txs;
      }
    }
  }

  // Adopted blocks have growing indices.
  lemma {:induction false} TipGrows(P: Params, nd: Node, list: seq<Tx>, blocks: seq<Block>, now: int)
    requires nd.chain != []
    ensures Tip(nd.chain).index <= Tip(CatchUp(P, nd, list, blocks, now).node.chain).index
    decreases |blocks|
  {
    hide ApplyBlock, RemoveFrom;
    if blocks != [] {
      if blocks[0].index <= Tip(nd.chain).index {
        TipGrows(P, nd, list, blocks[1..], now);
      } else {
        var (status, nd') := AddBlock(P, nd, blocks[0], now);
        if status == VALID { TipGrows(P, nd', RemoveFrom(list, blocks[0].txs), blocks[1..], now); }
      }
    }
  }

  /** The same for a response that continues the held chain. */
  lemma ContinuationSettles(P: Params, nd: Node, list: seq<Tx>, maxSize: nat, payload: seq<Wire.WireBlock>, limit: nat,
                            now: int, t: Tx)
    requires nd.chain != [] && payload != [] && ParseAll(P, payload, now).Some?
    requires !Forks(nd, ParseAll(P, payload, now).value)
    ensures var h := Handle(P, nd, list, maxSize, payload, limit, now);
            var n := |nd.chain|;
            && n <= |h.node.chain| && h.node.chain[..n] == nd.chain
            && (forall b | b in h.node.chain[n..] :: b in ParseAll(P, payload, now).value)
            && (t in h.list <==> t in list && ApartFrom(h.node.chain[n..], t))
  {
    hide CatchUp, ParseAll, ApartFrom;
    CatchUpAdopts(P, nd, list, ParseAll(P, payload, now).value, now);
    CatchUpSettles(P, nd, list, ParseAll(P, payload, now).value, now, t);
  }

  /** What is asked for next. After a block that was refused, the 50 blocks before it; after a
      response that was taken in and as long as asked for, as many blocks from the new tip on; after
      a refused reorganisation, the 50 blocks before the response, if there are any; otherwise
      nothing. */
  lemma NextRequest(P: Params, nd: Node, list: seq<Tx>, maxSize: nat, payload: seq<Wire.WireBlock>, limit: nat,
                    now: int)
    requires nd.chain != []
    ensures var h := Handle(P, nd, list, maxSize, payload, limit, now);
            if payload == [] || ParseAll(P, payload, now) == None then h.next == None else
            var blocks := ParseAll(P, payload, now).value;
            var stuck := if Forks(nd, blocks) then None else CatchUp(P, nd, list, blocks, now).stuck;
            if stuck.Some? then h.next == Some(Request(if stuck.value < 50 then 0 else stuck.value - 50, 50))
            else if Forks(nd, blocks) && !Resolve(P, nd, blocks, now).ok then
              h.next == if blocks[0].index == 0 then None
                        else Some(Request(if blocks[0].index < 50 then 0 else blocks[0].index - 50, 50))
            else h.next == if |blocks| == limit then Some(Request(Tip(h.node.chain).index + 1, limit)) else None
  {
    hide CatchUp, Resolve, ParseAll;
  }

  // ---- mining rounds ---------------------------------------------------------------------

  lemma {:induction false} StaleArePending(P: Params, m: Accounts, pending: seq<Tx>)
    ensures forall t :: t in pending <==> t in Select(P, m, pending).mineable || t in Select(P, m, pending).stale
  {
    hide Select;
    SelectionPartition(P, m, pending);
    var s := Select(P, m, pending);
    forall t ensures t in pending <==> t in s.mineable || t in s.stale {
      assert t in multiset(pending) <==> t in multiset(s.mineable) + multiset(s.stale);
    }
  }

  /** The pool after a mining round. A block that was produced takes with it every entry with the
      sender and nonce of a pending transaction, mined or stale. When none was mined, only the stale
      ones' entries go. When the block was refused, the pool holds just what it held before. */
  lemma RoundSettles(P: Params, nd: Node, list: seq<Tx>, maxSize: nat, perBlock: nat, miner: string, clock: int,
                     now: int, startNonce: int, maxNonce: nat, patience: Patience, t: Tx)
    requires nd.chain != [] && NonceOrdered(list) && |list| <= maxSize && forall e | e in list :: P.signed(e)
    ensures var pending := list[..if perBlock < |list| then perBlock else |list|];
            var (production, _, list') :=
              Produce(P, nd, list, maxSize, perBlock, miner, clock, now, startNonce, maxNonce, patience);
            match production
            case Produced(_) => t in list' <==> t in list && forall s | s in pending :: Apart(s, t)
            case Unmined =>
              t in list' <==> t in list && forall s | s in Select(P, nd.accounts, pending).stale :: Apart(s, t)
            case Refused => t in list' <==> t in list
  {
    hide Select, Mine, RemoveFrom, OfferAll, AddBlock, NonceOrdered, Draft, Apart;
    var pending := list[..Min(perBlock, |list|)];
    var s := Select(P, nd.accounts, pending);
    var rest := if s.stale != [] then RemoveFrom(list, s.stale) else list;
    StaleArePending(P, nd.accounts, pending);
    Cleared(list, s.stale, t);
    ClearedTwice(list, s.stale, s.mineable, pending, t);
    BackAgain(P, list, maxSize, s.stale, pending, t);
  }

  lemma Cleared(list: seq<Tx>, stale: seq<Tx>, t: Tx)
    ensures t in (if stale != [] then RemoveFrom(list, stale) else list) <==>
            t in list && forall s | s in stale :: Apart(s, t)
  {
    hide RemoveFrom;
    RemoveExactly(list, stale);
  }

  lemma ClearedTwice(list: seq<Tx>, stale: seq<Tx>, mineable: seq<Tx>, pending: seq<Tx>, t: Tx)
    requires forall s :: s in pending <==> s in mineable || s in stale
    ensures var rest := if stale != [] then RemoveFrom(list, stale) else list;
            t in RemoveFrom(rest, mineable) <==> t in list && forall s | s in pending :: Apart(s, t)
  {
    hide RemoveFrom;
    Cleared(list, stale, t);
    RemoveExactly(if stale != [] then RemoveFrom(list, stale) else list, mineable);
  }

  lemma BackAgain(P: Params, list: seq<Tx>, maxSize: nat, stale: seq<Tx>, pending: seq<Tx>, t: Tx)
    requires NonceOrdered(list) && |list| <= maxSize && forall e | e in list :: P.signed(e)
    requires Within(pending, list) && Within(stale, pending)
    ensures var rest := if stale != [] then RemoveFrom(list, stale) else list;
            t in OfferAll(P, rest, maxSize, pending) <==> t in list
  {
    hide RemoveFrom, NonceOrdered, OfferAll, Apart;
    var rest := if stale != [] then RemoveFrom(list, stale) else list;
    RemoveKeepsNonceOrder(list, stale);
    forall e | e in rest ensures e in list { Cleared(list, stale, e); }
    OfferAllOwn(P, rest, list, maxSize, pending);
    if t in list && t !in rest { RemovedIsPending(list, pending, stale, t); }
  }

  // In nonce order, an entry cleared by one of the pool's own is that one.
  lemma RemovedIsPending(list: seq<Tx>, pending: seq<Tx>, stale: seq<Tx>, t: Tx)
    requires NonceOrdered(list) && t in list && t !in RemoveFrom(list, stale)
    requires Within(pending, list) && forall s | s in stale :: s in pending
    ensures t in pending
  {
    hide RemoveFrom, NonceOrdered;
    RemoveExactly(list, stale);
    var s :| s in stale && !Apart(s, t);
    OneOfSlot(list, s, t);
  }
}
