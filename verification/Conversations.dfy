/** Conversations with one honest peer: which blocks survive the trip, what one exchange leads to,
    and how every conversation ends. */
module Conversations {
  import opened Prelude
  import opened AccountMaps
  import opened Transition
  import opened Merkle
  import opened Chain
  import opened Replays
  import opened Uniqueness
  import opened NodeRuns
  import opened WorkLaws
  import opened Mempools
  import opened Blockchains
  import opened Producer
  import Wire
  import opened Sync

  // ---- an honest peer --------------------------------------------------------------------

  lemma {:induction false} IndexIsPosition(P: Params, chain: seq<Block>, i: nat, now: int)
    requires Genuine(P, chain, now) && chain[0].index == 0 && i < |chain|
    ensures chain[i].index == i
    decreases |chain|
  {
    hide Replay;
    if 1 < |chain| {
      LastStep(P, chain, now);
      IndexIsPosition(P, chain[..|chain| - 1], if i < |chain| - 1 then i else i - 1, now);
    }
  }

  // Links of a genuine chain.
  lemma {:induction false} LinksToPrevious(P: Params, chain: seq<Block>, i: nat, now: int)
    requires Genuine(P, chain, now) && 1 <= i < |chain|
    ensures chain[i].previousHash == chain[i - 1].hash
  {
    hide Replay;
    GenuinePrefix(P, chain, i + 1, now);
    LastStep(P, chain[..i + 1], now);
  }

  /** The peer's next block is valid for a node that holds the peer's chain up to there. */
  lemma PeerBlockAccepted(P: Params, nd: Node, peer: seq<Block>, now: int)
    requires Inv(P, nd, now) && Genuine(P, peer, now)
    requires |nd.chain| < |peer| && nd.chain == peer[..|nd.chain|]
    ensures AddBlock(P, nd, peer[|nd.chain|], now).0 == VALID
    ensures AddBlock(P, nd, peer[|nd.chain|], now).1.chain == peer[..|nd.chain| + 1]
  {
    hide Replay, ApplyBlock;
    var n := |nd.chain|;
    var held := Replay(P, nd.chain, n, now);
    GenuinePrefix(P, peer, n + 1, now);
    assert peer[..n + 1] == nd.chain + [peer[n]];
    ReplayExtend(P, nd.chain, peer[n], now);
    SameBlock(P, Tip(nd.chain), peer[n], held.accounts, nd.accounts, nd.target, nd.avg, now);
  }

  lemma {:induction false} CatchUpSucceeds(P: Params, nd: Node, list: seq<Tx>, peer: seq<Block>, blocks: seq<Block>,
                                           now: int)
    requires Inv(P, nd, now) && Genuine(P, peer, now) && peer[0].index == 0
    requires |nd.chain| + |blocks| <= |peer| && nd.chain == peer[..|nd.chain|]
    requires blocks == peer[|nd.chain|..|nd.chain| + |blocks|]
    ensures var c := CatchUp(P, nd, list, blocks, now);
            c.stuck.None? && Inv(P, c.node, now) && c.node.chain == peer[..|nd.chain| + |blocks|]
    decreases |blocks|
  {
    hide Inv, Replay, AddBlock, RemoveFrom;
    InvGenuine(P, nd, now);
    if blocks != [] {
      var n := |nd.chain|;
      assert blocks[0] == peer[n];
      IndexIsPosition(P, peer, n, now);
      IndexIsPosition(P, peer, n - 1, now);
      PeerBlockAccepted(P, nd, peer, now);
      InvAddBlock(P, nd, peer[n], now);
      var nd' := AddBlock(P, nd, peer[n], now).1;
      assert blocks[1..] == peer[n + 1..n + 1 + |blocks[1..]|];
      CatchUpSucceeds(P, nd', RemoveFrom(list, blocks[0].txs), peer, blocks[1..], now);
    }
  }

  // ---- blocks on the wire ----------------------------------------------------------------

  /** A block whose timestamps survive the trip: set, and in milliseconds. */
  predicate Intact(b: Block) {
    b.timestamp != 0 && forall i | 0 <= i < |b.txs| :: Wire.Stable(b.txs[i].timestamp)
  }

  predicate AllIntact(blocks: seq<Block>) {
    forall i | 0 <= i < |blocks| :: Intact(blocks[i])
  }

  // Held blocks are well made.
  lemma {:induction false} GenuineWellMade(P: Params, chain: seq<Block>, i: nat, now: int)
    requires Genuine(P, chain, now) && ValidFirst(P, chain) && i < |chain|
    ensures Wire.WellMade(P, chain[i])
    decreases |chain|
  {
    hide Replay, HeaderOf, ReceiptRoot;
    if i == 0 {
      GenesisWellMade(P);
    } else {
      GenuinePrefix(P, chain, i + 1, now);
      LastAttested(P, chain[..i + 1], now);
    }
  }

  ghost predicate ValidFirst(P: Params, chain: seq<Block>) {
    chain != [] && chain[0] == GenesisBlock(P) && 1 <= P.genesisTarget <= MAX_TARGET
  }

  lemma GenesisWellMade(P: Params)
    requires 1 <= P.genesisTarget <= MAX_TARGET
    ensures Wire.WellMade(P, GenesisBlock(P))
  {
    assert ReceiptRoot(P, []) == None;
  }

  lemma LastAttested(P: Params, chain: seq<Block>, now: int)
    requires Genuine(P, chain, now) && 1 < |chain|
    ensures Wire.WellMade(P, Tip(chain))
  {
    hide ApplyTxs, Reward, HeaderOf, ReceiptRoot, StateRoot, Fees, NextTarget, NextAverage;
    GenuinePrefix(P, chain, |chain| - 1, now);
    var r := Replay(P, chain, |chain| - 1, now);
    assert ApplyBlock(P, chain[|chain| - 2], Tip(chain), r.accounts, r.target, r.avg, now).status == VALID;
  }

  /** A response of well-made blocks is parsed to just these blocks if all of them are intact, and
      fails otherwise. */
  lemma {:induction false} ParseServed(P: Params, blocks: seq<Block>, now: int)
    requires Ideal(P) && 0 < now && forall i | 0 <= i < |blocks| :: Wire.WellMade(P, blocks[i])
    ensures ParseAll(P, ToDicts(P, blocks), now) == if AllIntact(blocks) then Some(blocks) else None
    decreases |blocks|
  {
    hide Wire.BlockFromDict, Wire.BlockToDict, Wire.WellMade, Intact, Ideal;
    if blocks != [] {
      var front, b := blocks[..|blocks| - 1], blocks[|blocks| - 1];
      assert blocks == front + [b];
      ParseServed(P, front, now);
      var dicts := ToDicts(P, blocks);
      assert dicts[..|dicts| - 1] == ToDicts(P, front);
      ParseOne(P, b, now);
    }
  }

  lemma ParseOne(P: Params, b: Block, now: int)
    requires Ideal(P) && 0 < now && Wire.WellMade(P, b)
    ensures var r := Wire.BlockFromDict(P, Wire.BlockToDict(P, b), now);
            if Intact(b) then r == Wire.Ok(b) else !r.Ok?
  {
    hide Wire.BlockFromDict, Wire.BlockToDict;
    Wire.IntactOrLost(P, b, now);
  }

  lemma SliceWellMade(P: Params, peer: seq<Block>, rq: Request, now: int)
    requires Genuine(P, peer, now) && ValidFirst(P, peer)
    ensures forall i | 0 <= i < |Slice(peer, rq)| :: Wire.WellMade(P, Slice(peer, rq)[i])
  {
    hide Replay, Wire.WellMade;
    forall i | 0 <= i < |Slice(peer, rq)| ensures Wire.WellMade(P, Slice(peer, rq)[i]) {
      GenuineWellMade(P, peer, rq.first + i, now);
    }
  }

  lemma EmptyDicts(P: Params, blocks: seq<Block>)
    ensures ToDicts(P, blocks) == [] <==> blocks == []
  {
  }

  // ---- a conversation --------------------------------------------------------------------

  // An honest peer on our genesis block, and a node in a reachable state.
  ghost predicate Talking(P: Params, nd: Node, peer: seq<Block>, now: int) {
    && nd.chain != [] && peer != []
    && Ideal(P) && Inv(P, nd, now) && Genuine(P, peer, now)
    && nd.chain[0] == peer[0] == GenesisBlock(P)
  }

  // The node holds a prefix of the peer's chain and asks for what comes next.
  predicate Aligned(nd: Node, peer: seq<Block>, rq: Request) {
    |nd.chain| <= |peer| && nd.chain == peer[..|nd.chain|] && rq.first == |nd.chain|
  }

  lemma GenesisIndex(P: Params)
    ensures GenesisBlock(P).index == 0
  {
  }

  /** A response counts as linear exactly when the node is on the peer's chain already. */
  lemma LinearIsAligned(P: Params, nd: Node, peer: seq<Block>, rq: Request, now: int)
    requires Talking(P, nd, peer, now) && Slice(peer, rq) != []
    ensures IsLinear(nd, Slice(peer, rq)) <==> Aligned(nd, peer, rq)
  {
    hide Replay, GenesisBlock;
    GenesisIndex(P);
    var n := |nd.chain|;
    IndexIsPosition(P, nd.chain, n - 1, now);
    IndexIsPosition(P, peer, rq.first, now);
    assert Slice(peer, rq)[0] == peer[rq.first];
    if rq.first == n {
      LinksToPrevious(P, peer, n, now);
      if IsLinear(nd, Slice(peer, rq)) {
        GenuinePrefix(P, peer, n, now);
        SameTipSameChain(P, nd.chain, peer[..n], now);
        assert nd.chain == [nd.chain[0]] + nd.chain[1..];
        assert peer[..n] == [peer[0]] + peer[..n][1..];
      }
    }
  }

  // An accepted reorganisation puts the node on the peer's chain.
  lemma AcceptedIsPeerPrefix(P: Params, nd: Node, peer: seq<Block>, rq: Request, now: int)
    requires Talking(P, nd, peer, now) && Slice(peer, rq) != []
    requires Resolve(P, nd, Slice(peer, rq), now).ok
    ensures var nd' := Resolve(P, nd, Slice(peer, rq), now).node;
            var end := rq.first + |Slice(peer, rq)|;
            end <= |peer| && nd'.chain == peer[..end] && Talking(P, nd', peer, now)
  {
    hide Replay, GenesisBlock, Rebuild, Orphans;
    GenesisIndex(P);
    var blocks := Slice(peer, rq);
    var nd' := Resolve(P, nd, blocks, now).node;
    InvResolve(P, nd, blocks, now);
    IndexIsPosition(P, peer, rq.first, now);
    assert blocks[0] == peer[rq.first];
    var end := rq.first + |blocks|;
    assert nd'.chain == nd.chain[..rq.first] + blocks;
    assert Tip(nd'.chain) == blocks[|blocks| - 1] == peer[end - 1] == Tip(peer[..end]);
    GenuinePrefix(P, peer, end, now);
    SameTipSameChain(P, nd'.chain, peer[..end], now);
    assert nd'.chain[0] == peer[0];
    assert nd'.chain == [nd'.chain[0]] + nd'.chain[1..];
    assert peer[..end] == [peer[0]] + peer[..end][1..];
  }

  lemma TalkingFirst(P: Params, nd: Node, peer: seq<Block>, now: int)
    requires Talking(P, nd, peer, now)
    ensures ValidFirst(P, peer)
  {
    hide Replay;
  }

  // What one request can lead to when its blocks arrive intact.
  lemma IntactExchange(P: Params, nd: Node, list: seq<Tx>, maxSize: nat, peer: seq<Block>, rq: Request, now: int)
    requires Talking(P, nd, peer, now) && Slice(peer, rq) != []
    ensures var h := HandleBlocks(P, nd, list, maxSize, Slice(peer, rq), rq.limit, now);
            Talking(P, h.node, peer, now) && Progress(nd, peer, rq, h)
  {
    hide Inv, Replay, Resolve, CatchUp, GenesisBlock, TotalWork;
    var blocks := Slice(peer, rq);
    LinearIsAligned(P, nd, peer, rq, now);
    if IsLinear(nd, blocks) {
      LinearExchange(P, nd, list, peer, rq, now);
    } else {
      ReorgExchange(P, nd, peer, rq, now);
    }
  }

  /** How an exchange gets on: nothing was accepted and earlier blocks, or none, are asked for; or
      work has grown and the node is on the peer's chain, asking for what comes next unless it has
      all of it. */
  ghost predicate Progress(nd: Node, peer: seq<Block>, rq: Request, h: Handled) {
    if h.node.chain == nd.chain then
      && h.node == nd
      && (h.next.Some? ==> !Aligned(nd, peer, rq) && 0 < rq.first &&
                           h.next.value == Request(if rq.first < 50 then 0 else rq.first - 50, 50))
      && (Aligned(nd, peer, rq) && 0 < rq.limit ==> nd.chain == peer)
    else
      && TotalWork(nd.chain) < TotalWork(h.node.chain)
      && |h.node.chain| <= |peer| && h.node.chain == peer[..|h.node.chain|]
      && |h.node.chain| == rq.first + |Slice(peer, rq)|
      && (Aligned(nd, peer, rq) ==> |nd.chain| < |h.node.chain|)
      && (h.next.Some? ==> Aligned(h.node, peer, h.next.value) && h.next.value.limit == rq.limit)
      && (h.next.None? ==> h.node.chain == peer)
  }

  /** One request to an honest peer and its response: if every block of the answer survives the
      trip the exchange makes progress; otherwise the response is dropped and nothing is asked. */
  lemma OneExchange(P: Params, nd: Node, list: seq<Tx>, maxSize: nat, peer: seq<Block>, rq: Request, now: int)
    requires Talking(P, nd, peer, now) && 0 < now
    ensures var h := Handle(P, nd, list, maxSize, Serve(P, peer, rq), rq.limit, now);
            && Talking(P, h.node, peer, now)
            && if AllIntact(Slice(peer, rq)) then Progress(nd, peer, rq, h) else h == Handled(nd, list, None)
  {
    hide Inv, Replay, HandleBlocks, GenesisBlock, TotalWork, Intact, ParseAll, ToDicts;
    var blocks := Slice(peer, rq);
    TalkingFirst(P, nd, peer, now);
    SliceWellMade(P, peer, rq, now);
    ParseServed(P, blocks, now);
    EmptyDicts(P, blocks);
    if blocks != [] && AllIntact(blocks) {
      IntactExchange(P, nd, list, maxSize, peer, rq, now);
    }
  }

  lemma LinearExchange(P: Params, nd: Node, list: seq<Tx>, peer: seq<Block>, rq: Request, now: int)
    requires Talking(P, nd, peer, now) && Aligned(nd, peer, rq) && Slice(peer, rq) != []
    ensures var blocks := Slice(peer, rq);
            var c := CatchUp(P, nd, list, blocks, now);
            && c.stuck.None?
            && |nd.chain| < |c.node.chain| && c.node.chain == peer[..rq.first + |blocks|]
            && TotalWork(nd.chain) < TotalWork(c.node.chain)
            && Tip(c.node.chain).index + 1 == |c.node.chain|
            && Talking(P, c.node, peer, now)
  {
    hide Inv, Replay, CatchUp, GenesisBlock;
    GenesisIndex(P);
    InvGenuine(P, nd, now);
    var blocks := Slice(peer, rq);
    CatchUpSucceeds(P, nd, list, peer, blocks, now);
    var c := CatchUp(P, nd, list, blocks, now);
    InvGenuine(P, c.node, now);
    IndexIsPosition(P, c.node.chain, |c.node.chain| - 1, now);
    WorkGrows(P, c.node.chain, |nd.chain|, now);
    assert c.node.chain[..|nd.chain|] == nd.chain;
  }

  lemma ReorgExchange(P: Params, nd: Node, peer: seq<Block>, rq: Request, now: int)
    requires Talking(P, nd, peer, now) && Slice(peer, rq) != []
    ensures var blocks := Slice(peer, rq);
            var r := Resolve(P, nd, blocks, now);
            && blocks[0].index == rq.first
            && (!r.ok ==> r.node == nd)
            && (r.ok ==>
                  && r.node.chain == peer[..rq.first + |blocks|]
                  && TotalWork(nd.chain) < TotalWork(r.node.chain)
                  && Tip(r.node.chain).index + 1 == |r.node.chain|
                  && Talking(P, r.node, peer, now))
  {
    hide Inv, Replay, GenesisBlock, Rebuild, Orphans, TotalWork;
    GenesisIndex(P);
    var blocks := Slice(peer, rq);
    assert blocks[0] == peer[rq.first];
    IndexIsPosition(P, peer, rq.first, now);
    if Resolve(P, nd, blocks, now).ok {
      AcceptedIsPeerPrefix(P, nd, peer, rq, now);
      var nd' := Resolve(P, nd, blocks, now).node;
      InvGenuine(P, nd', now);
      IndexIsPosition(P, nd'.chain, |nd'.chain| - 1, now);
    }
  }

  lemma InvGenuine(P: Params, nd: Node, now: int)
    requires Inv(P, nd, now)
    ensures Genuine(P, nd.chain, now) && 1 <= nd.chain[0].target <= MAX_TARGET
  {
  }

  lemma GenuineTargets(P: Params, chain: seq<Block>, now: int)
    requires Genuine(P, chain, now) && 1 <= chain[0].target <= MAX_TARGET
    ensures forall i | 0 <= i < |chain| :: 1 <= chain[i].target <= MAX_TARGET
  {
    hide Replay;
    TargetsInBounds(P, chain, |chain|, now);
  }

  lemma {:induction false} WorkGrows(P: Params, chain: seq<Block>, n: nat, now: int)
    requires Genuine(P, chain, now) && 1 <= n < |chain| && 1 <= chain[0].target <= MAX_TARGET
    ensures TotalWork(chain[..n]) < TotalWork(chain)
    decreases |chain|
  {
    hide Replay, BlockWork, FastForward, Genuine;
    GenuineTargets(P, chain, now);
    var front := chain[..|chain| - 1];
    BlockWorkPositive(Tip(chain));
    if n < |front| {
      GenuinePrefix(P, chain, |front|, now);
      assert front[..n] == chain[..n];
      WorkGrows(P, front, n, now);
    }
  }

  // The measure of a conversation: first back to a common block, then forward along the peer.
  function Stage(nd: Node, peer: seq<Block>, rq: Request): nat {
    if Aligned(nd, peer, rq) then 0 else 1
  }

  function Distance(nd: Node, peer: seq<Block>, rq: Request): nat {
    if Aligned(nd, peer, rq) then |peer| - |nd.chain| else rq.first
  }

  // The clock moves forward, and has left its origin behind.
  ghost predicate Forward(clock: nat -> int) {
    0 < clock(0) && forall i: nat, j: nat :: i <= j ==> clock(i) <= clock(j)
  }

  lemma TalkingLater(P: Params, nd: Node, peer: seq<Block>, now: int, later: int)
    requires Talking(P, nd, peer, now) && now <= later
    ensures Talking(P, nd, peer, later)
  {
    hide Replay;
    InvLater(P, nd, now, later);
    GenuineLater(P, peer, now, later);
  }

  lemma SyncInvariant(P: Params, nd: Node, list: seq<Tx>, maxSize: nat, peer: seq<Block>, rq: Request,
                      clock: nat -> int, k: nat)
    requires Talking(P, nd, peer, clock(k)) && Forward(clock)
    ensures var h := Handle(P, nd, list, maxSize, Serve(P, peer, rq), rq.limit, clock(k));
            Talking(P, h.node, peer, clock(k + 1)) &&
            // the next request is aligned for the first time, or closer
            (h.next.Some? ==>
               Stage(h.node, peer, h.next.value) < Stage(nd, peer, rq) ||
               (Stage(h.node, peer, h.next.value) == Stage(nd, peer, rq) &&
                Distance(h.node, peer, h.next.value) < Distance(nd, peer, rq)))
  {
    hide Inv, Genuine, Handle, Serve, Slice, TotalWork, GenesisBlock, AllIntact;
    assert clock(0) <= clock(k) <= clock(k + 1);
    OneExchange(P, nd, list, maxSize, peer, rq, clock(k));
    TalkingLater(P, Handle(P, nd, list, maxSize, Serve(P, peer, rq), rq.limit, clock(k)).node, peer, clock(k),
                 clock(k + 1));
  }

  lemma HoldsBlocks(P: Params, nd: Node, peer: seq<Block>, now: int)
    requires Talking(P, nd, peer, now)
    ensures nd.chain != []
  {
  }

  /** A whole conversation: requests and responses until nothing more is asked. That this function
      is defined is the claim that every conversation with an honest peer ends. */
  ghost function Converse(P: Params, nd: Node, list: seq<Tx>, maxSize: nat, peer: seq<Block>, rq: Request,
                          clock: nat -> int, k: nat): Handled
    requires Talking(P, nd, peer, clock(k)) && Forward(clock)
    decreases Stage(nd, peer, rq), Distance(nd, peer, rq)
  {
    hide *;
    HoldsBlocks(P, nd, peer, clock(k));
    var h := Handle(P, nd, list, maxSize, Serve(P, peer, rq), rq.limit, clock(k));
    SyncInvariant(P, nd, list, maxSize, peer, rq, clock, k);
    if h.next.None? then h else Converse(P, h.node, h.list, maxSize, peer, h.next.value, clock, k + 1)
  }

  // The node holds all of the peer's chain, or a block it lacks cannot be sent.
  ghost predicate Finished(nd: Node, peer: seq<Block>) {
    && |nd.chain| <= |peer| && nd.chain == peer[..|nd.chain|]
    && (nd.chain == peer || exists j :: |nd.chain| <= j < |peer| && !Intact(peer[j]))
  }

  lemma {:induction false} HowItEnds(P: Params, nd: Node, list: seq<Tx>, maxSize: nat, peer: seq<Block>, rq: Request,
                                     clock: nat -> int, k: nat)
    requires Talking(P, nd, peer, clock(k)) && Forward(clock) && 0 < rq.limit
    ensures var end := Converse(P, nd, list, maxSize, peer, rq, clock, k).node;
            end == nd || (TotalWork(nd.chain) < TotalWork(end.chain) && Finished(end, peer))
    ensures Aligned(nd, peer, rq) ==>
            var end := Converse(P, nd, list, maxSize, peer, rq, clock, k).node;
            Finished(end, peer) && rq.first <= |end.chain| && forall i | rq.first <= i < |end.chain| :: Intact(peer[i])
    decreases Stage(nd, peer, rq), Distance(nd, peer, rq)
  {
    hide Inv, Genuine, Handle, Serve, TotalWork, GenesisBlock, Intact;
    var h := Handle(P, nd, list, maxSize, Serve(P, peer, rq), rq.limit, clock(k));
    assert clock(0) <= clock(k);
    OneExchange(P, nd, list, maxSize, peer, rq, clock(k));
    SyncInvariant(P, nd, list, maxSize, peer, rq, clock, k);
    SliceIntact(peer, rq);
    if h.next.Some? {
      HowItEnds(P, h.node, h.list, maxSize, peer, h.next.value, clock, k + 1);
    }
  }

  lemma SliceIntact(peer: seq<Block>, rq: Request)
    ensures AllIntact(Slice(peer, rq)) ==> (
              forall i | rq.first <= i < rq.first + |Slice(peer, rq)| :: i < |peer| && Intact(peer[i]))
    ensures !AllIntact(Slice(peer, rq)) ==> exists i :: rq.first <= i < |peer| && !Intact(peer[i])
  {
    hide Intact;
    var blocks := Slice(peer, rq);
    if AllIntact(blocks) {
      forall i | rq.first <= i < rq.first + |blocks| ensures i < |peer| && Intact(peer[i]) {
        assert blocks[i - rq.first] == peer[i];
      }
    } else {
      var i :| 0 <= i < |blocks| && !Intact(blocks[i]);
      assert blocks[i] == peer[rq.first + i];
    }
  }

  // ---- which end -------------------------------------------------------------------------

  /** A fork's blocks are accepted exactly when they pass the checks made before any state is
      rebuilt: a peer's blocks that connect always complete the peer's chain. */
  lemma ForkAccepted(P: Params, nd: Node, peer: seq<Block>, rq: Request, now: int)
    requires Talking(P, nd, peer, now) && Slice(peer, rq) != []
    ensures Resolve(P, nd, Slice(peer, rq), now).ok <==> Worthwhile(nd.chain, Slice(peer, rq))
  {
    hide Replay, GenesisBlock, Rebuild, Orphans, TotalWork, MeetsTarget;
    GenesisIndex(P);
    var blocks := Slice(peer, rq);
    ReorgAcceptsGenuine(P, nd, blocks, now);
    if Worthwhile(nd.chain, blocks) {
      assert blocks[0] == peer[rq.first];
      IndexIsPosition(P, peer, rq.first, now);
      var end := rq.first + |blocks|;
      CommonBefore(P, nd, peer, rq.first, now);
      assert nd.chain[..rq.first] + blocks == peer[..end];
      GenuinePrefix(P, peer, end, now);
    }
  }

  // Chains that are linked at a block agree on everything below it.
  lemma CommonBefore(P: Params, nd: Node, peer: seq<Block>, n: nat, now: int)
    requires Talking(P, nd, peer, now) && n < |peer| && n <= |nd.chain|
    requires 0 < n ==> peer[n].previousHash == nd.chain[n - 1].hash
    ensures nd.chain[..n] == peer[..n]
  {
    hide Replay, GenesisBlock;
    if 0 < n {
      LinksToPrevious(P, peer, n, now);
      GenuinePrefix(P, peer, n, now);
      GenuinePrefix(P, nd.chain, n, now);
      SameTipSameChain(P, nd.chain[..n], peer[..n], now);
      assert nd.chain[..n] == [nd.chain[0]] + nd.chain[..n][1..];
      assert peer[..n] == [peer[0]] + peer[..n][1..];
    }
  }

  /** Where the peer's blocks first come in, if anywhere: each request on the way back is for at
      most 50 blocks, and its answer must be intact, connect, and make a heavier chain by itself. */
  function Entry(nd: Node, peer: seq<Block>, rq: Request): Option<nat>
    requires nd.chain != []
    decreases rq.first
  {
    var blocks := Slice(peer, rq);
    if blocks == [] || !AllIntact(blocks) then None
    else if Aligned(nd, peer, rq) || Worthwhile(nd.chain, blocks) then Some(rq.first)
    else if rq.first == 0 then None
    else Entry(nd, peer, Backward(rq.first))
  }

  // One exchange, in terms of the guard that decides it.
  lemma GuardedExchange(P: Params, nd: Node, list: seq<Tx>, maxSize: nat, peer: seq<Block>, rq: Request, now: int)
    requires Talking(P, nd, peer, now) && 0 < now
    ensures var h := Handle(P, nd, list, maxSize, Serve(P, peer, rq), rq.limit, now);
            var blocks := Slice(peer, rq);
            && (blocks == [] || !AllIntact(blocks) ==> h == Handled(nd, list, None))
            && (blocks != [] && AllIntact(blocks) ==>
                  if Aligned(nd, peer, rq) || Worthwhile(nd.chain, blocks) then h.node.chain != nd.chain
                  else h == Handled(nd, list, if rq.first == 0 then None else Some(Backward(rq.first))))
  {
    hide Inv, Replay, GenesisBlock, TotalWork, Intact, ParseAll, ToDicts, Resolve, CatchUp, Worthwhile;
    var blocks := Slice(peer, rq);
    TalkingFirst(P, nd, peer, now);
    SliceWellMade(P, peer, rq, now);
    ParseServed(P, blocks, now);
    EmptyDicts(P, blocks);
    if blocks != [] && AllIntact(blocks) {
      LinearIsAligned(P, nd, peer, rq, now);
      if Aligned(nd, peer, rq) {
        LinearExchange(P, nd, list, peer, rq, now);
      } else {
        ReorgExchange(P, nd, peer, rq, now);
        ForkAccepted(P, nd, peer, rq, now);
      }
    }
  }

  /** How every conversation ends, exactly: where no answer on the way back can come in the node
      stays as it was; otherwise it gains work, and ends with the peer's whole chain if and only
      if every block from there on can be sent. */
  lemma {:induction false} ConversationOutcome(P: Params, nd: Node, list: seq<Tx>, maxSize: nat, peer: seq<Block>,
                                               rq: Request, clock: nat -> int, k: nat)
    requires Talking(P, nd, peer, clock(k)) && Forward(clock) && 0 < rq.limit
    ensures var end := Converse(P, nd, list, maxSize, peer, rq, clock, k).node;
            match Entry(nd, peer, rq)
            case None => end == nd
            case Some(first) =>
              && TotalWork(nd.chain) < TotalWork(end.chain)
              && |end.chain| <= |peer| && end.chain == peer[..|end.chain|]
              && (end.chain == peer <==> forall i | first <= i < |peer| :: Intact(peer[i]))
    decreases rq.first
  {
    hide Inv, Genuine, Handle, Serve, TotalWork, GenesisBlock, Intact, Worthwhile, Slice;
    var h := Handle(P, nd, list, maxSize, Serve(P, peer, rq), rq.limit, clock(k));
    assert clock(0) <= clock(k) <= clock(k + 1);
    OneExchange(P, nd, list, maxSize, peer, rq, clock(k));
    GuardedExchange(P, nd, list, maxSize, peer, rq, clock(k));
    SyncInvariant(P, nd, list, maxSize, peer, rq, clock, k);
    SliceIntact(peer, rq);
    if Slice(peer, rq) != [] && AllIntact(Slice(peer, rq)) {
      if Aligned(nd, peer, rq) || Worthwhile(nd.chain, Slice(peer, rq)) {
        if h.next.Some? { HowItEnds(P, h.node, h.list, maxSize, peer, h.next.value, clock, k + 1); }
      } else if 0 < rq.first {
        ConversationOutcome(P, nd, list, maxSize, peer, Backward(rq.first), clock, k + 1);
      }
    }
  }

  /** Every conversation with an honest peer ends, with the node as it was or on the peer's chain
      with more work. Which end it is, the guards of the way back decide (`Entry`): without an
      entry the node stays as it was, and with one it ends with the peer's whole chain exactly when
      every block from there on can be sent. A node that is on the peer's chain, asking for what
      comes next, ends with all of it exactly when every block it lacks can be sent. */
  lemma ConversationEnds(P: Params, nd: Node, list: seq<Tx>, maxSize: nat, peer: seq<Block>, rq: Request,
                         clock: nat -> int, k: nat)
    requires Talking(P, nd, peer, clock(k)) && Forward(clock) && 0 < rq.limit
    ensures var end := Converse(P, nd, list, maxSize, peer, rq, clock, k).node;
            && (end == nd || (TotalWork(nd.chain) < TotalWork(end.chain)
                  && |end.chain| <= |peer| && end.chain == peer[..|end.chain|]))
            && (end == nd <==> Entry(nd, peer, rq) == None)
            && ((forall i | 0 <= i < |peer| :: Intact(peer[i])) ==> end == nd || end.chain == peer)
            && (nd.chain != peer ==>
                  (end.chain == peer <==>
                     var entry := Entry(nd, peer, rq);
                     entry.Some? && forall i | entry.value <= i < |peer| :: Intact(peer[i])))
            && (Aligned(nd, peer, rq) ==>
                  (end.chain == peer <==> forall i | rq.first <= i < |peer| :: Intact(peer[i])))
  {
    hide Talking, Intact, TotalWork, Converse, Entry;
    HowItEnds(P, nd, list, maxSize, peer, rq, clock, k);
    ConversationOutcome(P, nd, list, maxSize, peer, rq, clock, k);
  }

  // ---- a fork that is never healed -------------------------------------------------------

  ghost predicate EachWorth(chain: seq<Block>, w: int) {
    forall i | 0 <= i < |chain| :: BlockWork(chain[i]) == w
  }

  lemma {:induction false} EqualWork(chain: seq<Block>, w: int)
    requires EachWorth(chain, w)
    ensures TotalWork(chain) == |chain| * w
  {
    if chain != [] {
      EqualWork(chain[..|chain| - 1], w);
    }
  }

  ghost predicate Positioned(chain: seq<Block>) {
    forall i | 0 <= i < |chain| :: chain[i].index == i
  }

  // A proposal that makes no longer chain makes no heavier one.
  lemma TooLight(nd: Node, peer: seq<Block>, rq: Request, w: int)
    requires nd.chain != [] && 0 < w && EachWorth(nd.chain, w) && EachWorth(peer, w) && Positioned(peer)
    requires Slice(peer, rq) != [] && rq.first + |Slice(peer, rq)| <= |nd.chain|
    ensures !Worthwhile(nd.chain, Slice(peer, rq))
  {
    hide TotalWork, MeetsTarget;
    var blocks := Slice(peer, rq);
    assert blocks[0] == peer[rq.first];
    var proposed := nd.chain[..rq.first] + blocks;
    EqualWork(nd.chain, w);
    EqualWork(proposed, w);
    Products(w, |proposed|, |nd.chain|);
  }

  // Requests of the way back fetch no more blocks than they take off.
  lemma {:induction false} NoEntry(nd: Node, peer: seq<Block>, rq: Request, w: int)
    requires nd.chain != [] && 0 < w && EachWorth(nd.chain, w) && EachWorth(peer, w) && Positioned(peer)
    requires rq.limit == BACKWARD && rq.first + BACKWARD <= |nd.chain|
    ensures Entry(nd, peer, rq) == None
    decreases rq.first
  {
    hide Worthwhile, AllIntact, EachWorth, Positioned;
    if Slice(peer, rq) != [] {
      TooLight(nd, peer, rq, w);
      if 0 < rq.first { NoEntry(nd, peer, Backward(rq.first), w); }
    }
  }

  /** A fork that is never healed: with equal work in every block, a node of 50 blocks or more off
      the peer's chain, by one block or many, finds each answer on the way back no heavier than
      what it holds, and stays as it was although the peer's chain has more work. */
  lemma NeverHealedExample(P: Params, nd: Node, list: seq<Tx>, maxSize: nat, peer: seq<Block>, limit: nat, w: int,
                           clock: nat -> int, k: nat)
    requires Talking(P, nd, peer, clock(k)) && Forward(clock) && 0 < limit
    requires 0 < w && EachWorth(nd.chain, w) && EachWorth(peer, w)
    requires 50 <= |nd.chain| < |peer| && nd.chain != peer[..|nd.chain|]
    ensures TotalWork(nd.chain) < TotalWork(peer)
    ensures Converse(P, nd, list, maxSize, peer, Request(|nd.chain|, limit), clock, k).node == nd
  {
    hide Talking, Converse, Entry, TotalWork, EachWorth;
    EqualWork(nd.chain, w);
    EqualWork(peer, w);
    Products(w, |nd.chain| + 1, |peer|);
    NoEntryAtTip(P, nd, peer, limit, w, clock(k));
    ConversationOutcome(P, nd, list, maxSize, peer, Request(|nd.chain|, limit), clock, k);
  }

  lemma NoEntryAtTip(P: Params, nd: Node, peer: seq<Block>, limit: nat, w: int, now: int)
    requires Talking(P, nd, peer, now) && 0 < limit
    requires 0 < w && EachWorth(nd.chain, w) && EachWorth(peer, w)
    requires 50 <= |nd.chain| < |peer| && nd.chain != peer[..|nd.chain|]
    ensures Entry(nd, peer, Request(|nd.chain|, limit)) == None
  {
    hide Talking, TotalWork, Intact, MeetsTarget, EachWorth;
    var n, rq := |nd.chain|, Request(|nd.chain|, limit);
    PeerPositioned(P, nd, peer, now);
    assert Slice(peer, rq)[0] == peer[n];
    if peer[n].previousHash == nd.chain[n - 1].hash { CommonBefore(P, nd, peer, n, now); }
    NoEntry(nd, peer, Backward(n), w);
  }

  lemma PeerPositioned(P: Params, nd: Node, peer: seq<Block>, now: int)
    requires Talking(P, nd, peer, now)
    ensures Positioned(peer)
  {
    hide Replay, GenesisBlock;
    GenesisIndex(P);
    forall i | 0 <= i < |peer| ensures peer[i].index == i { IndexIsPosition(P, peer, i, now); }
  }

  /** Any two reachable nodes whose proposals came through the parser can have such a
      conversation, once both their clocks have passed. */
  lemma ReachableTalking(P: Params, ops: seq<Op>, begin: int, peerOps: seq<Op>, peerBegin: int, now: int)
    requires Ideal(P) && ValidGenesis(P) && AllParsed(P, ops) && AllParsed(P, peerOps)
    requires InTime(ops, begin) && InTime(peerOps, peerBegin)
    requires ClockAfter(ops, begin) <= now && ClockAfter(peerOps, peerBegin) <= now
    ensures Talking(P, Run(P, ops), Run(P, peerOps).chain, now)
  {
    hide Replay, Run, GenesisBlock, AllParsed;
    ReplayInvariant(P, ops, begin);
    ReplayInvariant(P, peerOps, peerBegin);
    InvLater(P, Run(P, ops), ClockAfter(ops, begin), now);
    InvLater(P, Run(P, peerOps), ClockAfter(peerOps, peerBegin), now);
    GenesisKept(P, ops);
    GenesisKept(P, peerOps);
  }

  // ---- a block that cannot be sent -------------------------------------------------------

  /** An honest block that no peer can receive: a transaction dated by a time below 10^9 seconds
      is signed and held with the normalised timestamp, and is valid; the producer mines it and
      its own node accepts the block. Every receiver normalises the timestamp once more and drops
      the response, so a peer's conversation leaves it where it was. */
  lemma UnsendableExample(P: Params, tx: Tx, ts: int, maxSize: nat, perBlock: nat, miner: string, clock: int, now: int,
                          startNonce: int, maxNonce: nat, patience: Patience, list: seq<Tx>, limit: nat)
    requires Ideal(P) && ValidGenesis(P) && 0 < now && 1 <= perBlock && 1 <= limit && miner != ""
    requires tx.timestamp == Wire.NormalizeTs(ts) && ts != 0 && ts < 1_000_000_000
    requires ApplyTx(P, P.alloc, tx).status == VALID
    requires Produce(P, Start(P), [tx], maxSize, perBlock, miner, clock, now, startNonce, maxNonce,
                     patience).0.Produced?
    ensures var peer := Produce(P, Start(P), [tx], maxSize, perBlock, miner, clock, now, startNonce, maxNonce,
                                patience).1.chain;
            && Genuine(P, peer, now) && |peer| == 2 && peer[1].txs == [tx]
            && Handle(P, Start(P), list, maxSize, Serve(P, peer, Request(1, limit)), limit, now) ==
               Handled(Start(P), list, None)
  {
    hide Replay, Produce, ApplyBlock, ApplyTxs, Handle, Wire.NormalizeTs;
    var nd := Start(P);
    SingleTx(P, P.alloc, tx);
    ProducedBlock(P, nd, [tx], maxSize, perBlock, miner, clock, now, startNonce, maxNonce, patience);
    var (production, nd', _) :=
      Produce(P, nd, [tx], maxSize, perBlock, miner, clock, now, startNonce, maxNonce, patience);
    var b := production.block;
    InvStart(P, now);
    InvAddBlock(P, nd, b, now);
    assert nd'.chain == [GenesisBlock(P), b];
    assert !Intact(b) by { assert b.txs[0].timestamp == Wire.NormalizeTs(ts); Wire.SecondsSurvive(ts); }
    assert Slice(nd'.chain, Request(1, limit)) == [b];
    OneExchange(P, nd, list, maxSize, nd'.chain, Request(1, limit), now);
  }

  lemma SingleTx(P: Params, m: Accounts, tx: Tx)
    requires ApplyTx(P, m, tx).status == VALID
    ensures ApplyTxs(P, m, [tx]).status == VALID
  {
    hide ApplyTx;
    assert [tx][..0] == [];
  }
}
