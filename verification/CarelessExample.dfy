/** Why deployed code must be careful: a block, mined and accepted on a fresh node, whose four
    transactions deploy three contracts and call one, and leave a balance below zero. */
module CarelessExample {
  import opened Prelude
  import opened AccountMaps
  import opened Calls
  import opened Solvency
  import opened Transition
  import opened Chain
  import opened Replays
  import opened Uniqueness
  import opened NodeRuns
  import opened Producer
  import opened Mempools

  // A body that ignores the failure of its sub-call, one that passes on what it gets and then
  // fails, and one that just ends.
  function Careless(code: string, storage: Storage, msg: Message, gas: int, replies: seq<Reply>): Action {
    if replies != [] then (if code == "pass on" then Raise(1, "failed") else Finish(1, storage, true))
    else if code == "ignore" then CallContract(1, "b", "take", 5)
    else if code == "pass on" then CallContract(1, "c", "take", 5)
    else Finish(1, storage, true)
  }

  const GAS := 100

  /** A network on which the user has 5 coins, and deploys to the addresses c, b and a in turn. */
  ghost predicate CarelessNetwork(P: Params) {
    && P.behaviour == Careless
    && (forall code :: P.astAllowed(code))
    && P.storageBytes(map[]) == 2
    && (forall t: Tx :: t.sender == "user" ==> P.signed(t))
    && P.contractAddress("user", 0) == "c" && P.contractAddress("user", 1) == "b" && P.contractAddress("user", 2) == "a"
    && P.alloc == map["user" := User(5, 0)]
  }

  function User(balance: int, nonce: int): Account {
    Account(balance, nonce, None, map[])
  }

  function Holding(code: string, balance: int): Account {
    Account(balance, 0, Some(code), map[])
  }

  // ---- the call --------------------------------------------------------------------------

  const THREE: Accounts :=
    map["user" := User(0, 4), "a" := Holding("ignore", 5), "b" := Holding("pass on", 0), "c" := Holding("end", 0)]
  const AT_B: Accounts := MoveIn(THREE, "a", "b", 5, false)
  const AT_C: Accounts := MoveIn(AT_B, "b", "c", 5, false)
  const UNDONE: Accounts := MoveBack(AT_C, "a", "b", 5, false)

  lemma InnerCall(P: Params)
    requires CarelessNetwork(P)
    ensures InternalCall(P, AT_B, "b", "c", 5, "take", GAS, 2, false) == (Done(21, map[], []), AT_C)
  {
    var fr := FrameFor(AT_C, "c", "b", "take", 5, GAS, 2);
    assert Loop(P, fr, AT_C, GAS, [], []) == (Done(21, map[], []), AT_C);
    assert Touch(AT_C, "c") == AT_C;
    assert SumOf([]) == 0;
    assert Apply(AT_C, "c", map[], []) == AT_C;
  }

  lemma MiddleCall(P: Params)
    requires CarelessNetwork(P)
    ensures InternalCall(P, THREE, "a", "b", 5, "take", GAS, 1, false) == (Fail("failed", 2), UNDONE)
  {
    InnerCall(P);
    MiddleLoop(P);
    assert Touch(AT_B, "b") == AT_B;
  }

  lemma MiddleLoop(P: Params)
    requires CarelessNetwork(P)
    requires InternalCall(P, AT_B, "b", "c", 5, "take", GAS, 2, false) == (Done(21, map[], []), AT_C)
    ensures Loop(P, FrameFor(AT_B, "b", "a", "take", 5, GAS, 1), AT_B, GAS, [], []) == (Fail("failed", 2), AT_C)
  {
    hide InternalCall;
    var fr := FrameFor(AT_B, "b", "a", "take", 5, GAS, 1);
    assert Loop(P, fr, AT_B, GAS, [], []) == Loop(P, fr, AT_C, GAS - 1, [CallDone], []);
  }

  lemma OuterLoop(P: Params)
    requires CarelessNetwork(P)
    requires InternalCall(P, THREE, "a", "b", 5, "take", GAS, 1, false) == (Fail("failed", 2), UNDONE)
    ensures Loop(P, FrameFor(THREE, "a", "user", "go", 0, GAS, 0), THREE, GAS, [], []) == (Done(22, map[], []), UNDONE)
  {
    hide InternalCall;
    var fr := FrameFor(THREE, "a", "user", "go", 0, GAS, 0);
    assert Loop(P, fr, THREE, GAS, [], []) == Loop(P, fr, UNDONE, GAS - 1, [CallFailed("failed")], []);
  }

  lemma OuterCall(P: Params)
    requires CarelessNetwork(P)
    requires Loop(P, FrameFor(THREE, "a", "user", "go", 0, GAS, 0), THREE, GAS, [], []) == (Done(22, map[], []), UNDONE)
    ensures InternalCall(P, THREE, "user", "a", 0, "go", GAS, 0, true) == (Done(22, map[], []), UNDONE)
  {
    hide Loop;
    assert MoveIn(THREE, "user", "a", 0, true) == THREE && Touch(THREE, "a") == THREE;
    assert SumOf([]) == 0;
    assert Apply(UNDONE, "a", map[], []) == UNDONE;
  }

  /** A call whose body ignores a failed sub-call succeeds and leaves a balance below zero, because
      the undo gives back the failed frame's own value even when that frame had already passed it
      on. */
  lemma IgnoredFailureExample(P: Params)
    requires CarelessNetwork(P)
    ensures InternalCall(P, THREE, "user", "a", 0, "go", GAS, 0, true) == (Done(22, map[], []), UNDONE)
    ensures NonNegative(THREE) && Lookup(UNDONE, "b").balance == -5
  {
    hide InternalCall, Loop;
    MiddleCall(P);
    OuterLoop(P);
    OuterCall(P);
  }

  // ---- the transactions ------------------------------------------------------------------

  function Deployment(P: Params, nonce: int, code: string, amount: int): Tx {
    Tx("user", None, amount, GAS, 0, nonce, Some(code), P.chainId, 1_700_000_000_000, None)
  }

  function TheCall(P: Params): Tx {
    Tx("user", Some("a"), 0, GAS, 0, 3, Some("go"), P.chainId, 1_700_000_000_000, None)
  }

  function Four(P: Params): seq<Tx> {
    [Deployment(P, 0, "end", 0), Deployment(P, 1, "pass on", 0), Deployment(P, 2, "ignore", 5), TheCall(P)]
  }

  lemma CodeSizes(P: Params)
    ensures CodeGas(Deployment(P, 0, "end", 0)) == 30
    ensures CodeGas(Deployment(P, 1, "pass on", 0)) == 70
    ensures CodeGas(Deployment(P, 2, "ignore", 5)) == 60
  {
    Sizes("end");
    Sizes("pass on");
    Sizes("ignore");
  }

  // One byte for each character of plain text.
  lemma {:induction false} Sizes(s: string)
    requires forall i | 0 <= i < |s| :: s[i] as int < 0x80
    ensures Utf8Size(s) == |s|
  {
    if s != "" { Sizes(s[1..]); }
  }

  const M0: Accounts := map["user" := User(5, 0)]
  const M1: Accounts := map["user" := User(5, 1), "c" := Holding("end", 0)]
  const M2: Accounts := map["user" := User(5, 2), "b" := Holding("pass on", 0), "c" := Holding("end", 0)]
  const M3: Accounts :=
    map["user" := User(0, 3), "a" := Holding("ignore", 5), "b" := Holding("pass on", 0), "c" := Holding("end", 0)]

  // A deployment by the user, given what it costs and where it goes.
  lemma Deploys(P: Params, m: Accounts, tx: Tx, address: Address, after: Accounts)
    requires P.signed(tx) && tx.chainId == P.chainId && !Truthy(tx.receiver)
    requires tx.sender == "user" && tx.feePerGas == 0 && 0 <= tx.amount && tx.gasLimit == GAS && CodeGas(tx) <= GAS
    requires "user" in m && m["user"] == User(m["user"].balance, tx.nonce) && tx.amount <= m["user"].balance
    requires address == P.contractAddress("user", tx.nonce) && address !in m && address != "user"
    requires after == m["user" := User(m["user"].balance - tx.amount, tx.nonce + 1)]
                       [address := Account(tx.amount, 0, tx.data, map[])]
    ensures ApplyTx(P, m, tx).status == VALID && ApplyTx(P, m, tx).accounts == after
  {
    hide CodeGas;
    assert tx.gasLimit * tx.feePerGas == 0;
    var paid := Charge(m, tx, TotalCost(tx));
    var created := CreateContract(paid, address, tx.data, tx.amount);
    assert (tx.gasLimit - CodeGas(tx)) * tx.feePerGas == 0;
    assert Refund(created, tx, CodeGas(tx)) == created;
  }

  lemma FirstThree(P: Params)
    requires CarelessNetwork(P)
    ensures var txs := Four(P);
            && ApplyTx(P, M0, txs[0]).status == VALID && ApplyTx(P, M0, txs[0]).accounts == M1
            && ApplyTx(P, M1, txs[1]).status == VALID && ApplyTx(P, M1, txs[1]).accounts == M2
            && ApplyTx(P, M2, txs[2]).status == VALID && ApplyTx(P, M2, txs[2]).accounts == M3
  {
    hide CodeGas, ApplyTx;
    CodeSizes(P);
    Deploys(P, M0, Four(P)[0], "c", M1);
    Deploys(P, M1, Four(P)[1], "b", M2);
    Deploys(P, M2, Four(P)[2], "a", M3);
  }

  lemma TheFourth(P: Params)
    requires CarelessNetwork(P)
    ensures var r := ApplyTx(P, M3, TheCall(P));
            r.status == VALID && r.receipt.value.status == 1 && r.accounts == UNDONE
  {
    hide InternalCall;
    IgnoredFailureExample(P);
    var tx := TheCall(P);
    assert Touch(M3, "user") == M3;
    assert Charge(M3, tx, TotalCost(tx)) == THREE;
    assert Refund(UNDONE, tx, 22) == UNDONE;
  }

  lemma AllFour(P: Params)
    requires CarelessNetwork(P)
    ensures ApplyTxs(P, P.alloc, Four(P)).status == VALID && ApplyTxs(P, P.alloc, Four(P)).accounts == UNDONE
  {
    hide ApplyTx;
    var txs := Four(P);
    FirstThree(P);
    TheFourth(P);
    assert txs[..4] == txs && txs[..4][..3] == txs[..3] && txs[..3][..2] == txs[..2] && txs[..2][..1] == txs[..1];
    assert txs[..1][..0] == [];
    assert ApplyTxs(P, M0, txs[..0]).accounts == M0;
    assert ApplyTxs(P, M0, txs[..1]).accounts == M1;
    assert ApplyTxs(P, M0, txs[..2]).accounts == M2;
    assert ApplyTxs(P, M0, txs[..3]).accounts == M3;
  }

  // ---- the block -------------------------------------------------------------------------

  /** A debt on the chain: a fresh node with these four transactions pooled mines them, accepts its
      own block, and then holds a balance of -5. */
  lemma DebtExample(P: Params, maxSize: nat, perBlock: nat, miner: string, clock: int, now: int,
                    startNonce: int, maxNonce: nat, patience: Patience)
    requires Ideal(P) && ValidGenesis(P) && CarelessNetwork(P) && 4 <= perBlock && miner != "" && miner != "b"
    requires Produce(P, Start(P), Four(P), maxSize, perBlock, miner, clock, now, startNonce, maxNonce,
                     patience).0.Produced?
    ensures var nd := Produce(P, Start(P), Four(P), maxSize, perBlock, miner, clock, now, startNonce, maxNonce,
                              patience).1;
            && Inv(P, nd, now) && TxsOf(nd.chain) == Four(P)
            && Lookup(nd.accounts, "b").balance == -5
  {
    hide *;
    var nd, txs := Start(P), Four(P);
    StartHolds(P);
    AllFour(P);
    HowMany(P);
    ProducedBlock(P, nd, txs, maxSize, perBlock, miner, clock, now, startNonce, maxNonce, patience);
    var b := Produce(P, nd, txs, maxSize, perBlock, miner, clock, now, startNonce, maxNonce, patience).0.block;
    InvStart(P, now);
    InvAddBlock(P, nd, b, now);
    SecondBlockTxs(GenesisBlock(P), b);
    OnlyMinerPaid(UNDONE, miner, Fees(ApplyTxs(P, P.alloc, txs).receipts, txs), "b");
    Debt();
  }

  lemma StartHolds(P: Params)
    ensures Start(P).chain == [GenesisBlock(P)] && Start(P).accounts == P.alloc
  {
  }

  lemma Debt()
    ensures Lookup(UNDONE, "b").balance == -5
  {
  }

  lemma HowMany(P: Params)
    ensures |Four(P)| == 4
  {
  }

  lemma SecondBlockTxs(g: Block, b: Block)
    ensures [g] + [b] == [g, b] && TxsOf([g, b]) == b.txs
  {
    assert [g, b][..1] == [g];
  }

  lemma OnlyMinerPaid(m: Accounts, miner: string, fees: int, k: Address)
    requires miner != k
    ensures Lookup(Reward(m, Some(miner), fees), k) == Lookup(m, k)
  {
  }
}
