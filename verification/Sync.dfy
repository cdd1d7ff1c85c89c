/** Chunked synchronisation: the `chain_request` and `chain_response` branches of the network
    handler in `main.py`, as functions and on the node's objects. */
module Sync {
  import opened Prelude
  import opened Chain
  import opened Uniqueness
  import opened Mempools
  import opened Blockchains
  import opened Producer
  import Wire

  datatype Request = Request(first: nat, limit: nat)

  const BACKWARD: nat := 50

  // How far a failed sync steps back.
  function Backward(index: nat): Request {
    Request(if index < BACKWARD then 0 else index - BACKWARD, BACKWARD)
  }

  // The blocks that a request is for.
  function Slice(peer: seq<Block>, rq: Request): seq<Block> {
    if rq.first >= |peer| then []
    else peer[rq.first..Min(rq.first + rq.limit, |peer|)]
  }

  function ToDicts(P: Params, blocks: seq<Block>): seq<Wire.WireBlock> {
    if blocks == [] then [] else
    ToDicts(P, blocks[..|blocks| - 1]) + [Wire.BlockToDict(P, blocks[|blocks| - 1])]
  }

  /** `chain_request`: the dictionaries a peer answers with. */
  function Serve(P: Params, peer: seq<Block>, rq: Request): seq<Wire.WireBlock> {
    ToDicts(P, Slice(peer, rq))
  }

  // Every block of a response goes through the parser; one failure discards the response.
  function ParseAll(P: Params, payload: seq<Wire.WireBlock>, now: int): (r: Option<seq<Block>>)
    ensures r.Some? ==> |r.value| == |payload|
  {
    if payload == [] then Some([]) else
    match ParseAll(P, payload[..|payload| - 1], now)
    case None => None
    case Some(blocks) =>
      match Wire.BlockFromDict(P, payload[|payload| - 1], now)
      case Ok(b) => Some(blocks + [b])
      case _ => None
  }

  // Node, pool and what goes out next.
  datatype Handled = Handled(node: Node, list: seq<Tx>, next: Option<Request>)

  // The linear catch-up loop; `stuck` is the index of the block that was refused.
  datatype Caught = Caught(node: Node, list: seq<Tx>, stuck: Option<nat>)

  function CatchUp(P: Params, nd: Node, list: seq<Tx>, blocks: seq<Block>, now: int): (c: Caught)
    requires nd.chain != []
    ensures c.node.chain != []
    decreases |blocks|
  {
    if blocks == [] then Caught(nd, list, None)
    else if blocks[0].index <= Tip(nd.chain).index then CatchUp(P, nd, list, blocks[1..], now)
    else
      var (status, nd') := AddBlock(P, nd, blocks[0], now);
      if status == VALID then CatchUp(P, nd', RemoveFrom(list, blocks[0].txs), blocks[1..], now)
      else Caught(nd, list, Some(blocks[0].index))
  }

  predicate IsLinear(nd: Node, blocks: seq<Block>)
    requires nd.chain != []
  {
    blocks != [] && blocks[0].index == Tip(nd.chain).index + 1 && blocks[0].previousHash == Tip(nd.chain).hash
  }

  // `chain_response`, once the blocks are parsed.
  function HandleBlocks(P: Params, nd: Node, list: seq<Tx>, maxSize: nat, blocks: seq<Block>, limit: nat,
                        now: int): (h: Handled)
    requires nd.chain != [] && blocks != []
    ensures h.node.chain != []
  {
    if IsLinear(nd, blocks) then
      var c := CatchUp(P, nd, list, blocks, now);
      Handled(c.node, c.list,
        if c.stuck.Some? then Some(Backward(c.stuck.value))
        else if |blocks| == limit then Some(Request(Tip(c.node.chain).index + 1, limit)) else None)
    else
      var r := Resolve(P, nd, blocks, now);
      if r.ok then
        Handled(r.node, OfferAll(P, list, maxSize, r.orphans),
          if |blocks| == limit then Some(Request(Tip(r.node.chain).index + 1, limit)) else None)
      else Handled(nd, list, if blocks[0].index > 0 then Some(Backward(blocks[0].index)) else None)
  }

  /** `chain_response` */
  function Handle(P: Params, nd: Node, list: seq<Tx>, maxSize: nat, payload: seq<Wire.WireBlock>, limit: nat,
                  now: int): (h: Handled)
    requires nd.chain != []
    ensures h.node.chain != []
  {
    if payload == [] then Handled(nd, list, None) else
    match ParseAll(P, payload, now)
    case None => Handled(nd, list, None)
    case Some(blocks) => HandleBlocks(P, nd, list, maxSize, blocks, limit, now)
  }

  /** The `chain_response` branch on the node's objects. */
  method HandleChainResponse(bc: Blockchain, pool: Mempool, payload: seq<Wire.WireBlock>, limit: nat, now: int)
    returns (next: Option<Request>)
    requires bc.Valid() && pool.P == bc.P && pool !in bc.state.accounts.Repr
    modifies bc, bc.state.accounts, pool
    ensures bc.Valid()
    ensures Handled(bc.Held(), pool.list, next) ==
            Handle(bc.P, old(bc.Held()), old(pool.list), pool.maxSize, payload, limit, now)
  {
    hide Journal.Store.Valid, HandleBlocks, ParseAll;
    if payload == [] {
      return None;
    }
    var parsed := ParsePayload(bc.P, payload, now);
    if parsed.None? {
      return None;
    }
    next := HandleParsed(bc, pool, parsed.value, limit, now);
  }

  method ParsePayload(P: Params, payload: seq<Wire.WireBlock>, now: int) returns (parsed: Option<seq<Block>>)
    ensures parsed == ParseAll(P, payload, now)
  {
    hide Wire.BlockFromDict;
    var blocks := [];
    var i := 0;
    while i < |payload|
      invariant 0 <= i <= |payload| && ParseAll(P, payload[..i], now) == Some(blocks)
    {
      assert payload[..i + 1][..i] == payload[..i];
      var result := Wire.BlockFromDict(P, payload[i], now);
      if !result.Ok? {
        ParseStuck(P, payload, i + 1, now);
        return None;
      }
      blocks := blocks + [result.block];
      i := i + 1;
    }
    assert payload[..i] == payload;
    return Some(blocks);
  }

  // One bad block spoils every longer payload.
  lemma {:induction false} ParseStuck(P: Params, payload: seq<Wire.WireBlock>, k: nat, now: int)
    requires k <= |payload| && ParseAll(P, payload[..k], now).None?
    ensures ParseAll(P, payload, now).None?
    decreases |payload|
  {
    hide Wire.BlockFromDict;
    if k == |payload| {
      assert payload[..k] == payload;
    } else {
      assert payload[..|payload| - 1][..k] == payload[..k];
      ParseStuck(P, payload[..|payload| - 1], k, now);
    }
  }

  method HandleParsed(bc: Blockchain, pool: Mempool, blocks: seq<Block>, limit: nat, now: int)
    returns (next: Option<Request>)
    requires bc.Valid() && pool.P == bc.P && pool !in bc.state.accounts.Repr && blocks != []
    modifies bc, bc.state.accounts, pool
    ensures bc.Valid()
    ensures Handled(bc.Held(), pool.list, next) ==
            HandleBlocks(bc.P, old(bc.Held()), old(pool.list), pool.maxSize, blocks, limit, now)
  {
    hide Journal.Store.Valid, AddBlock, Resolve, RemoveFrom, OfferAll, CatchUp;
    var last := bc.chain[|bc.chain| - 1];
    if blocks[0].index == last.index + 1 && blocks[0].previousHash == last.hash {
      var stuck := CatchUpWith(bc, pool, blocks, now);
      if stuck.Some? {
        return Some(Backward(stuck.value));
      }
      if |blocks| == limit {
        return Some(Request(bc.chain[|bc.chain| - 1].index + 1, limit));
      }
      return None;
    }
    var success, orphans := bc.ResolveConflicts(blocks, now);
    if success {
      OfferBack(pool, orphans);
      if |blocks| == limit {
        return Some(Request(bc.chain[|bc.chain| - 1].index + 1, limit));
      }
      return None;
    }
    if blocks[0].index > 0 {
      return Some(Backward(blocks[0].index));
    }
    return None;
  }

  method CatchUpWith(bc: Blockchain, pool: Mempool, blocks: seq<Block>, now: int) returns (stuck: Option<nat>)
    requires bc.Valid() && pool !in bc.state.accounts.Repr
    modifies bc, bc.state.accounts, pool
    ensures bc.Valid()
    ensures Caught(bc.Held(), pool.list, stuck) == CatchUp(bc.P, old(bc.Held()), old(pool.list), blocks, now)
  {
    hide Journal.Store.Valid, AddBlock, RemoveFrom;
    var i := 0;
    while i < |blocks|
      invariant 0 <= i <= |blocks| && bc.Valid() && pool !in bc.state.accounts.Repr
      invariant bc.state.accounts == old(bc.state.accounts)
      invariant CatchUp(bc.P, bc.Held(), pool.list, blocks[i..], now) ==
                CatchUp(bc.P, old(bc.Held()), old(pool.list), blocks, now)
    {
      assert blocks[i..][0] == blocks[i] && blocks[i..][1..] == blocks[i + 1..];
      if blocks[i].index > bc.chain[|bc.chain| - 1].index {
        var status := bc.AddBlock(blocks[i], now);
        if status == VALID {
          pool.RemoveTransactions(blocks[i].txs);
        } else {
          return Some(blocks[i].index);
        }
      }
      i := i + 1;
    }
    return None;
  }
}
