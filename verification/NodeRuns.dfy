/** What every node state that any run can reach satisfies, and why the snapshot shortcut of the
    reorganisation agrees with a full replay. */
module NodeRuns {
  import opened Prelude
  import opened AccountMaps
  import opened CallLaws
  import opened Transition
  import opened Chain
  import opened Replays
  import opened Uniqueness
  import Wire

  // A snapshot was taken when some genuine chain with that tip was held.
  ghost predicate Vouched(P: Params, s: Snapshot, clock: int) {
    exists c :: Genuine(P, c, clock) && Tip(c).hash == s.hash && Same(FinalAccounts(P, c, clock), s.accounts)
  }

  /** The replay invariant: replaying the held chain from the genesis state is valid and ends in
      the held state (up to blank records), target and average; every snapshot is the state of a
      genuine chain with its hash, and the newest belongs to the tip. */
  ghost predicate Inv(P: Params, nd: Node, clock: int) {
    && Genuine(P, nd.chain, clock)
    && nd.chain[0].index == 0 && 1 <= nd.chain[0].target <= MAX_TARGET
    && SameStep(Replay(P, nd.chain, |nd.chain|, clock), Step(VALID, nd.accounts, nd.target, nd.avg))
    && (forall i | 0 <= i < |nd.snapshots| :: Vouched(P, nd.snapshots[i], clock))
    && 1 <= |nd.snapshots| <= MAX_STATE_SNAPSHOTS
    && nd.snapshots[|nd.snapshots| - 1].hash == Tip(nd.chain).hash
  }

  /** A new node satisfies the invariant; its one block is the genesis block, hashed over a header
      without links, roots of bodies, nonce or miner. */
  lemma InvStart(P: Params, clock: int)
    requires ValidGenesis(P)
    ensures Inv(P, Start(P), clock)
    ensures var (nd, root) := (Start(P), StateRoot(P, P.alloc));
            var hash := P.headerHash(Header(0, 0, None, root, None, P.genesisTimestamp, P.genesisTarget, 0, None));
            && nd.chain == [Block(0, 0, P.genesisTarget, [], P.genesisTimestamp, root, None, [], None, 0, hash)]
            && nd.accounts == P.alloc && nd.target == P.genesisTarget && nd.avg == P.targetBlockTime as real
  {
    var nd := Start(P);
    assert Genuine(P, nd.chain, clock) && Tip(nd.chain).hash == nd.snapshots[0].hash;
    assert Same(FinalAccounts(P, nd.chain, clock), nd.snapshots[0].accounts);
  }

  lemma InvLater(P: Params, nd: Node, clock: int, later: int)
    requires Inv(P, nd, clock) && clock <= later
    ensures Inv(P, nd, later)
  {
    hide Replay;
    ReplayLater(P, nd.chain, |nd.chain|, clock, later);
    forall i | 0 <= i < |nd.snapshots| ensures Vouched(P, nd.snapshots[i], later) {
      var s := nd.snapshots[i];
      assert Vouched(P, s, clock);
      var c :| Genuine(P, c, clock) && Tip(c).hash == s.hash && Same(FinalAccounts(P, c, clock), s.accounts);
      GenuineLater(P, c, clock, later);
    }
  }

  // A longer or new chain, with the matching state pushed as its snapshot, keeps the invariant.
  lemma InvAdvance(P: Params, nd: Node, chain: seq<Block>, r: Step, now: int)
    requires Inv(P, nd, now) && Genuine(P, chain, now)
    requires chain[0].index == 0 && 1 <= chain[0].target <= MAX_TARGET
    requires SameStep(Replay(P, chain, |chain|, now), r) && r.status == VALID
    ensures Inv(P, Node(chain, r.accounts, r.target, r.avg, Push(nd.snapshots, Snapshot(Tip(chain).hash, r.accounts))),
                now)
  {
    hide Replay;
    var s := Snapshot(Tip(chain).hash, r.accounts);
    assert Vouched(P, s, now);
    var pushed := Push(nd.snapshots, s);
    forall i | 0 <= i < |pushed| ensures Vouched(P, pushed[i], now) {
      assert pushed[i] == s || exists j :: 0 <= j < |nd.snapshots| && pushed[i] == nd.snapshots[j];
    }
  }

  // ---- add_block -------------------------------------------------------------------------

  lemma InvAddBlock(P: Params, nd: Node, b: Block, now: int)
    requires Inv(P, nd, now)
    ensures Inv(P, AddBlock(P, nd, b, now).1, now)
  {
    hide Replay, ApplyBlock;
    var (status, nd') := AddBlock(P, nd, b, now);
    if status == VALID {
      var held := Replay(P, nd.chain, |nd.chain|, now);
      ReplayExtend(P, nd.chain, b, now);
      SameBlock(P, Tip(nd.chain), b, held.accounts, nd.accounts, nd.target, nd.avg, now);
      var r := ApplyBlock(P, Tip(nd.chain), b, nd.accounts, nd.target, nd.avg, now);
      InvAdvance(P, nd, nd.chain + [b], r, now);
    }
  }

  // ---- resolve_conflicts -----------------------------------------------------------------

  /** What is found was cached under that hash, before anything else under it; nothing is found
      only if nothing was. */
  lemma {:induction false} FindSound(snapshots: seq<Snapshot>, hash: Hash)
    ensures var found := Find(snapshots, hash);
            && (found.Some? ==> exists i :: 0 <= i < |snapshots| && snapshots[i] == Snapshot(hash, found.value)
                                         && forall j | 0 <= j < i :: snapshots[j].hash != hash)
            && (found.None? ==> forall i | 0 <= i < |snapshots| :: snapshots[i].hash != hash)
  {
    if snapshots != [] && snapshots[0].hash != hash {
      FindSound(snapshots[1..], hash);
      var found := Find(snapshots[1..], hash);
      if found.Some? {
        var i :| 0 <= i < |snapshots[1..]| && snapshots[1..][i] == Snapshot(hash, found.value)
              && forall j | 0 <= j < i :: snapshots[1..][j].hash != hash;
        assert snapshots[i + 1] == Snapshot(hash, found.value);
        forall j | 0 <= j < i + 1 ensures snapshots[j].hash != hash {
          if 0 < j { assert snapshots[1..][j - 1] == snapshots[j]; }
        }
      }
    }
  }

  /** A cached snapshot for a block of the held chain is the state of the replay there, whichever
      chain it was taken on. */
  lemma SnapshotIsReplay(P: Params, nd: Node, n: nat, now: int)
    requires Ideal(P) && Inv(P, nd, now) && 1 <= n <= |nd.chain|
    ensures var found := Find(nd.snapshots, nd.chain[n - 1].hash);
            found.Some? ==> Same(Replay(P, nd.chain, n, now).accounts, found.value)
  {
    hide Replay;
    var hash := nd.chain[n - 1].hash;
    FindSound(nd.snapshots, hash);
    var found := Find(nd.snapshots, hash);
    if found.Some? {
      var i :| 0 <= i < |nd.snapshots| && nd.snapshots[i] == Snapshot(hash, found.value);
      assert Vouched(P, nd.snapshots[i], now);
      var c :| Genuine(P, c, now) && Tip(c).hash == hash && Same(FinalAccounts(P, c, now), found.value);
      GenuinePrefix(P, nd.chain, n, now);
      SameTipSameChain(P, c, nd.chain[..n], now);
    }
  }

  /** Rebuilding from a snapshot and fast-forwarding is replaying from genesis. */
  lemma RebuildIsReplay(P: Params, nd: Node, fork: nat, proposal: seq<Block>, now: int)
    requires Ideal(P) && Inv(P, nd, now) && fork <= |nd.chain| && proposal != []
    ensures var proposed := nd.chain[..fork] + proposal;
            SameStep(Replay(P, proposed, |proposed|, now), Rebuild(P, nd, fork, proposed, now))
  {
    hide ReplayFrom;
    var proposed := nd.chain[..fork] + proposal;
    if fork > 0 && Find(nd.snapshots, nd.chain[fork - 1].hash).Some? {
      var snapshot := Find(nd.snapshots, nd.chain[fork - 1].hash).value;
      ValidPrefix(P, nd.chain, fork, |nd.chain|, now);
      SnapshotIsReplay(P, nd, fork, now);
      assert proposed[..fork] == nd.chain[..fork];
      ReplayPrefix(P, proposed, nd.chain, 1, fork, Origin(P, nd.chain[0]), now);
      FastForwardIsReplay(P, proposed, fork, now);
      var at := Replay(P, proposed, fork, now);
      ReplaySplit(P, proposed, 1, fork, |proposed|, Origin(P, proposed[0]), now);
      SameReplay(P, proposed, fork, |proposed|, at, Step(VALID, snapshot, at.target, at.avg), now);
    }
  }

  /** The snapshot shortcut refines full replay: same verdict, chain, orphans, target and
      average, and the same state up to blank records, for every proposal. */
  lemma ShortcutRefinesReplay(P: Params, nd: Node, proposal: seq<Block>, now: int)
    requires Ideal(P) && Inv(P, nd, now)
    ensures var r, s := Resolve(P, nd, proposal, now), ResolveByReplay(P, nd, proposal, now);
            && r.ok == s.ok && r.orphans == s.orphans && r.node.chain == s.node.chain
            && r.node.target == s.node.target && r.node.avg == s.node.avg
            && Same(r.node.accounts, s.node.accounts)
  {
    hide Replay, Rebuild, Orphans;
    if Worthwhile(nd.chain, proposal) {
      var fork := ForkIndex(nd.chain, proposal).value;
      var proposed := nd.chain[..fork] + proposal;
      RebuildIsReplay(P, nd, fork, proposal, now);
      SameSym(Replay(P, proposed, |proposed|, now).accounts, Rebuild(P, nd, fork, proposed, now).accounts);
    }
  }

  lemma InvResolve(P: Params, nd: Node, proposal: seq<Block>, now: int)
    requires Ideal(P) && Inv(P, nd, now)
    ensures Inv(P, Resolve(P, nd, proposal, now).node, now)
  {
    hide Replay, Rebuild, Orphans;
    if Resolve(P, nd, proposal, now).ok {
      var fork := ForkIndex(nd.chain, proposal).value;
      var proposed := nd.chain[..fork] + proposal;
      RebuildIsReplay(P, nd, fork, proposal, now);
      if fork == 0 { assert MeetsTarget(proposal[0]); }
      InvAdvance(P, nd, proposed, Rebuild(P, nd, fork, proposed, now), now);
    }
  }

  /** The handler's check of a loose transaction looks at signature, chain, cover and nonce, and
      leaves the held accounts as they are up to a blank record. */
  lemma ProbeVerdict(P: Params, nd: Node, tx: Tx)
    ensures var (status, nd') := Probe(P, nd, tx);
            var acc := Lookup(nd.accounts, tx.sender);
            && status == (if !P.signed(tx) || tx.chainId != P.chainId then INVALID
                          else if acc.balance < tx.amount + tx.gasLimit * tx.feePerGas then FAILED
                          else if acc.nonce != tx.nonce then FAILED else VALID)
            && nd' == nd.(accounts := nd'.accounts) && Same(nd.accounts, nd'.accounts)
  {
    SameTouch(nd.accounts, nd.accounts, tx.sender);
  }

  lemma InvProbe(P: Params, nd: Node, tx: Tx, now: int)
    requires Inv(P, nd, now)
    ensures Inv(P, Probe(P, nd, tx).1, now)
  {
    hide Replay;
    var held := FinalAccounts(P, nd.chain, now);
    var m := VerifyLogic(P, nd.accounts, tx).1;
    SameTouch(nd.accounts, nd.accounts, tx.sender);
    SameTrans(held, nd.accounts, m);
  }

  // ---- runs ------------------------------------------------------------------------------

  // One locked call on the node, with the clock it reads.
  datatype Op =
    | Append(block: Block, now: int)
    | Reorganise(proposal: seq<Block>, now: int)
    | Check(tx: Tx, now: int)

  function Do(P: Params, nd: Node, op: Op): (r: Node)
    requires nd.chain != []
    ensures r.chain != []
  {
    match op
    case Append(b, now) => AddBlock(P, nd, b, now).1
    case Reorganise(proposal, now) => Resolve(P, nd, proposal, now).node
    case Check(tx, _) => Probe(P, nd, tx).1
  }

  function Run(P: Params, ops: seq<Op>): (r: Node)
    ensures r.chain != []
  {
    if ops == [] then Start(P) else Do(P, Run(P, ops[..|ops| - 1]), ops[|ops| - 1])
  }

  function ClockAfter(ops: seq<Op>, begin: int): int {
    if ops == [] then begin else ops[|ops| - 1].now
  }

  // The clock never goes backwards.
  ghost predicate InTime(ops: seq<Op>, begin: int) {
    forall i | 0 <= i < |ops| :: ClockAfter(ops[..i], begin) <= ops[i].now
  }

  lemma InTimePrefix(ops: seq<Op>, begin: int, n: nat)
    requires InTime(ops, begin) && n <= |ops|
    ensures InTime(ops[..n], begin)
  {
    forall i | 0 <= i < n ensures ClockAfter(ops[..n][..i], begin) <= ops[..n][i].now {
      assert ops[..n][..i] == ops[..i];
    }
  }

  lemma InvDo(P: Params, nd: Node, op: Op)
    requires Ideal(P) && Inv(P, nd, op.now)
    ensures Inv(P, Do(P, nd, op), op.now)
  {
    hide Inv, AddBlock, Resolve, Probe;
    match op
    case Append(b, now) => InvAddBlock(P, nd, b, now);
    case Reorganise(proposal, now) => InvResolve(P, nd, proposal, now);
    case Check(tx, now) => InvProbe(P, nd, tx, now);
  }

  /** The replay invariant holds after any run of accepted and rejected calls. */
  lemma {:induction false} ReplayInvariant(P: Params, ops: seq<Op>, begin: int)
    requires Ideal(P) && ValidGenesis(P) && InTime(ops, begin)
    ensures Inv(P, Run(P, ops), ClockAfter(ops, begin))
    decreases |ops|
  {
    hide Inv, Do;
    if ops == [] {
      InvStart(P, begin);
    } else {
      var n := |ops| - 1;
      InTimePrefix(ops, begin, n);
      ReplayInvariant(P, ops[..n], begin);
      assert ops[..n] == ops[..|ops| - 1];
      InvLater(P, Run(P, ops[..n]), ClockAfter(ops[..n], begin), ops[n].now);
      InvDo(P, Run(P, ops[..n]), ops[n]);
    }
  }

  /** A reorganisation goes through exactly when the proposal connects, is proven and heavier, and
      the chain it completes replays validly from the genesis state; then that chain is held. */
  lemma ReorgAcceptsGenuine(P: Params, nd: Node, proposal: seq<Block>, now: int)
    requires Ideal(P) && Inv(P, nd, now)
    ensures var r := Resolve(P, nd, proposal, now);
            && (r.ok <==> Worthwhile(nd.chain, proposal)
                          && Genuine(P, nd.chain[..ForkIndex(nd.chain, proposal).value] + proposal, now))
            && (r.ok ==> r.node.chain == nd.chain[..ForkIndex(nd.chain, proposal).value] + proposal)
  {
    hide Replay, Rebuild, Orphans;
    if Worthwhile(nd.chain, proposal) {
      RebuildIsReplay(P, nd, ForkIndex(nd.chain, proposal).value, proposal, now);
    }
  }

  // ---- proposals from the wire -----------------------------------------------------------

  ghost predicate FromWire(P: Params, b: Block) {
    exists w, now :: Wire.BlockFromDict(P, w, now) == Wire.Ok(b)
  }

  /** Every proposal went through the block parser, as it does in the network handler. */
  ghost predicate AllParsed(P: Params, ops: seq<Op>) {
    forall i | 0 <= i < |ops| && ops[i].Reorganise? :: ProposalParsed(P, ops[i].proposal)
  }

  ghost predicate ProposalParsed(P: Params, proposal: seq<Block>) {
    forall j | 0 <= j < |proposal| :: FromWire(P, proposal[j])
  }

  lemma ResolveKeepsGenesis(P: Params, nd: Node, proposal: seq<Block>, now: int)
    requires Ideal(P) && nd.chain != [] && nd.chain[0] == GenesisBlock(P) && ProposalParsed(P, proposal)
    ensures Resolve(P, nd, proposal, now).node.chain[0] == GenesisBlock(P)
  {
    hide Rebuild, Orphans, TotalWork, MeetsTarget, GenesisBlock;
    if Worthwhile(nd.chain, proposal) && ForkIndex(nd.chain, proposal).value == 0 {
      assert FromWire(P, proposal[0]);
      var w, t :| Wire.BlockFromDict(P, w, t) == Wire.Ok(proposal[0]);
      Wire.ParsedGenesis(P, w, t);
    }
  }

  /** Parsed proposals never replace the genesis block. */
  lemma {:induction false} GenesisKept(P: Params, ops: seq<Op>)
    requires Ideal(P) && AllParsed(P, ops)
    ensures Run(P, ops).chain[0] == GenesisBlock(P)
    decreases |ops|
  {
    hide Resolve, ApplyBlock, GenesisBlock, ProposalParsed;
    if ops != [] {
      var n := |ops| - 1;
      GenesisKept(P, ops[..n]);
      match ops[n]
      case Reorganise(proposal, now) => ResolveKeepsGenesis(P, Run(P, ops[..n]), proposal, now);
      case _ =>
    }
  }

  /** Whether an accepted reorganisation keeps the first block, for any caller: exactly when a
      proposal from index 0 begins with that very block. */
  lemma FirstBlockKept(P: Params, nd: Node, proposal: seq<Block>, now: int)
    requires nd.chain != [] && Resolve(P, nd, proposal, now).ok
    ensures Resolve(P, nd, proposal, now).node.chain[0] == nd.chain[0]
       <==> (proposal[0].index == 0 ==> proposal[0] == nd.chain[0])
  {
    hide Rebuild, Orphans, TotalWork, MeetsTarget;
  }

  /** Without the parser the genesis block can change: a reorganisation compares it by its hash
      field alone, so a copy with a smaller target, still above that hash, replaces it. */
  lemma ForgedGenesisExample(P: Params, target: int, now: int)
    requires ValidGenesis(P) && 0 < target && GenesisBlock(P).hash < target
    requires TWO_256 / P.genesisTarget < TWO_256 / target
    ensures var forged := GenesisBlock(P).(target := target);
            var r := Resolve(P, Start(P), [forged], now);
            r.ok && r.node.chain == [forged] && r.node.chain[0] != GenesisBlock(P)
  {
    var forged := GenesisBlock(P).(target := target);
    var g := GenesisBlock(P);
    assert P.genesisTarget != target;
    SmallerTarget(P.genesisTarget, target);
    SingleWork(g);
    SingleWork(forged);
    assert [g][..0] + [forged] == [forged];
    assert MeetsTarget(forged);
    assert Rebuild(P, Start(P), 0, [forged], now) == Replay(P, [forged], 1, now);
  }

  lemma SingleWork(b: Block)
    ensures TotalWork([b]) == BlockWork(b)
  {
    assert [b][..0] == [];
  }

  lemma SmallerTarget(a: int, b: int)
    requires 0 < a <= MAX_TARGET && 0 < b && TWO_256 / a < TWO_256 / b
    ensures b <= MAX_TARGET
  {
  }

  // ---- agreement -------------------------------------------------------------------------

  /** Agreement: two nodes of one network that hold the same tip hash, however their runs got
      there, hold the same blocks above genesis and the same accounts up to blank records. When
      their proposals came through the parser they hold the same chain from the first block on,
      and the same target and average block time. */
  lemma AgreementTheorem(P: Params, ops: seq<Op>, begin: int, ops': seq<Op>, begin': int)
    requires Ideal(P) && ValidGenesis(P) && InTime(ops, begin) && InTime(ops', begin')
    requires Tip(Run(P, ops).chain).hash == Tip(Run(P, ops').chain).hash
    ensures var (nd, nd') := (Run(P, ops), Run(P, ops'));
            && nd.chain[1..] == nd'.chain[1..] && Same(nd.accounts, nd'.accounts)
            && (AllParsed(P, ops) && AllParsed(P, ops') ==>
                  nd.chain == nd'.chain && nd.target == nd'.target && nd.avg == nd'.avg)
  {
    hide Replay, Run, AllParsed;
    var (nd, nd') := (Run(P, ops), Run(P, ops'));
    var now, now' := ClockAfter(ops, begin), ClockAfter(ops', begin');
    var later := if now < now' then now' else now;
    ReplayInvariant(P, ops, begin);
    ReplayInvariant(P, ops', begin');
    InvLater(P, nd, now, later);
    InvLater(P, nd', now', later);
    SameTipSameChain(P, nd.chain, nd'.chain, later);
    SameSym(FinalAccounts(P, nd.chain, later), nd.accounts);
    SameTrans(nd.accounts, FinalAccounts(P, nd.chain, later), nd'.accounts);
    assert nd.chain == [nd.chain[0]] + nd.chain[1..] && nd'.chain == [nd'.chain[0]] + nd'.chain[1..];
    if AllParsed(P, ops) && AllParsed(P, ops') {
      GenesisKept(P, ops);
      GenesisKept(P, ops');
    }
  }

  // ---- the snapshot queue ----------------------------------------------------------------

  // The states a node has held since each time its chain changed, with the tips they belong to.
  function Milestones(P: Params, ops: seq<Op>): seq<Snapshot> {
    if ops == [] then Start(P).snapshots else
    var earlier, op := Milestones(P, ops[..|ops| - 1]), ops[|ops| - 1];
    var nd := Run(P, ops[..|ops| - 1]);
    if Changes(P, nd, op) then earlier + [Snapshot(Tip(Do(P, nd, op).chain).hash, Do(P, nd, op).accounts)] else earlier
  }

  // Whether a call is accepted and moves the chain.
  predicate Changes(P: Params, nd: Node, op: Op)
    requires nd.chain != []
  {
    match op
    case Append(b, now) => AddBlock(P, nd, b, now).0 == VALID
    case Reorganise(proposal, now) => Resolve(P, nd, proposal, now).ok
    case Check(_, _) => false
  }

  function Newest(all: seq<Snapshot>): seq<Snapshot> {
    if |all| <= MAX_STATE_SNAPSHOTS then all else all[|all| - MAX_STATE_SNAPSHOTS..]
  }

  lemma PushNewest(all: seq<Snapshot>, s: Snapshot)
    ensures Push(Newest(all), s) == Newest(all + [s])
  {
  }

  lemma DoSnapshots(P: Params, nd: Node, op: Op)
    requires nd.chain != []
    ensures var nd' := Do(P, nd, op);
            nd'.snapshots ==
              if Changes(P, nd, op) then Push(nd.snapshots, Snapshot(Tip(nd'.chain).hash, nd'.accounts))
              else nd.snapshots
  {
    hide ApplyBlock, Rebuild, Worthwhile, Orphans;
  }

  /** The queue holds the newest ten of all the states the chain has stood at, oldest first. */
  lemma {:induction false} SnapshotsAreNewest(P: Params, ops: seq<Op>)
    ensures var all := Milestones(P, ops);
            Run(P, ops).snapshots == if |all| <= 10 then all else all[|all| - 10..]
    decreases |ops|
  {
    hide Do, Changes, Push;
    if ops == [] {
      StartSnapshots(P);
    } else {
      var n := |ops| - 1;
      var nd, nd' := Run(P, ops[..n]), Run(P, ops);
      SnapshotsAreNewest(P, ops[..n]);
      DoSnapshots(P, nd, ops[n]);
      PushNewest(Milestones(P, ops[..n]), Snapshot(Tip(nd'.chain).hash, nd'.accounts));
    }
  }

  lemma StartSnapshots(P: Params)
    ensures Newest(Start(P).snapshots) == Start(P).snapshots
  {
  }
}
