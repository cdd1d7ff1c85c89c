/** More laws of call trees: they never touch nonces or code, they cannot tell blank records
    from absent ones, and what a call to code without sub-calls does to every account. */
module CallLaws {
  import opened Prelude
  import opened AccountMaps
  import opened Calls

  // ---- nonces and code -------------------------------------------------------------------

  ghost predicate SameIdentities(a: Accounts, b: Accounts) {
    forall k :: Lookup(a, k).nonce == Lookup(b, k).nonce && Lookup(a, k).code == Lookup(b, k).code
  }

  lemma IdentityTrans(a: Accounts, b: Accounts, c: Accounts)
    requires SameIdentities(a, b) && SameIdentities(b, c)
    ensures SameIdentities(a, c)
  {
    forall k ensures Lookup(a, k).nonce == Lookup(c, k).nonce && Lookup(a, k).code == Lookup(c, k).code {
      assert Lookup(a, k).nonce == Lookup(b, k).nonce && Lookup(b, k).nonce == Lookup(c, k).nonce;
    }
  }

  lemma {:induction false} PayIdentities(m: Accounts, transfers: seq<Transfer>)
    ensures SameIdentities(m, Pay(m, transfers))
  {
    if transfers != [] {
      PayIdentities(m, transfers[..|transfers| - 1]);
    }
  }

  lemma MoveIdentities(m: Accounts, sender: Address, receiver: Address, amount: int, top: bool)
    ensures SameIdentities(m, MoveIn(m, sender, receiver, amount, top))
    ensures SameIdentities(m, MoveBack(m, sender, receiver, amount, top))
  {
  }

  lemma ApplyIdentities(m: Accounts, receiver: Address, storage: Storage, transfers: seq<Transfer>)
    ensures SameIdentities(m, Apply(m, receiver, storage, transfers))
  {
    var m' := Add(SetStorage(m, receiver, storage), receiver, -SumOf(transfers));
    PayIdentities(m', transfers);
    IdentityTrans(m, m', Apply(m, receiver, storage, transfers));
  }

  lemma {:induction false} LoopIdentities(P: Params, fr: Frame, m: Accounts, gas: int, replies: seq<Reply>,
                                          transfers: seq<Transfer>)
    requires fr.depth <= MAX_CALL_DEPTH
    ensures SameIdentities(m, Loop(P, fr, m, gas, replies, transfers).1)
    decreases Rank(fr.depth), 0, gas
  {
    hide InternalCall, Settle, TransferAllowed;
    var action := P.behaviour(fr.code, fr.storage, fr.msg, gas, replies);
    var left := gas - action.cost;
    if left > 0 {
      match action
      case Finish(_, storage, serializable) =>
      case Raise(_, error) =>
      case TransferOut(_, to, amount) =>
        if TransferAllowed(P, to, amount) {
          LoopIdentities(P, fr, m, left, replies + [TransferQueued], transfers + [Transfer(to, amount)]);
        } else {
          LoopIdentities(P, fr, m, left, replies + [TransferRefused], transfers);
        }
      case CallContract(_, address, payload, amount) =>
        var (r, m') := InternalCall(P, m, fr.address, address, amount, payload, fr.gasLimit, fr.depth + 1, false);
        CallIdentities(P, m, fr.address, address, amount, payload, fr.gasLimit, fr.depth + 1, false);
        LoopIdentities(P, fr, m', left, replies + [ReplyTo(r)], transfers);
        IdentityTrans(m, m', Loop(P, fr, m, gas, replies, transfers).1);
    }
  }

  /** Running contracts never changes a nonce or a code, of any account. */
  lemma {:induction false} CallIdentities(P: Params, m: Accounts, sender: Address, receiver: Address, amount: int,
                                          payload: string, gasLimit: int, depth: nat, top: bool)
    ensures SameIdentities(m, InternalCall(P, m, sender, receiver, amount, payload, gasLimit, depth, top).1)
    decreases Rank(depth), 2, 0
  {
    if HasCode(m, receiver) && (top || amount <= Lookup(m, sender).balance) {
      var m0 := MoveIn(m, sender, receiver, amount, top);
      var (r, m1) := Execute(P, m0, receiver, sender, payload, amount, gasLimit, depth);
      MoveIdentities(m, sender, receiver, amount, top);
      assert SameIdentities(m0, m1) by {
        var m0' := Touch(m0, receiver);
        if depth <= MAX_CALL_DEPTH && HasCode(m0', receiver) {
          LoopIdentities(P, FrameFor(m0', receiver, sender, payload, amount, gasLimit, depth), m0', gasLimit, [], []);
          IdentityTrans(m0, m0', m1);
        }
      }
      IdentityTrans(m, m0, m1);
      MoveIdentities(m1, sender, receiver, amount, top);
      if r.Done? {
        ApplyIdentities(m1, receiver, r.storage, r.transfers);
      }
      IdentityTrans(m, m1, InternalCall(P, m, sender, receiver, amount, payload, gasLimit, depth, top).1);
    }
  }

  // ---- equality up to blank records ------------------------------------------------------

  lemma {:induction false} SamePay(a: Accounts, b: Accounts, transfers: seq<Transfer>)
    requires Same(a, b)
    ensures Same(Pay(a, transfers), Pay(b, transfers))
  {
    if transfers != [] {
      var t, front := transfers[|transfers| - 1], transfers[..|transfers| - 1];
      SamePay(a, b, front);
      SameAdd(Pay(a, front), Pay(b, front), t.to, t.amount);
    }
  }

  lemma SameMoves(a: Accounts, b: Accounts, sender: Address, receiver: Address, amount: int, top: bool)
    requires Same(a, b)
    ensures Same(MoveIn(a, sender, receiver, amount, top), MoveIn(b, sender, receiver, amount, top))
    ensures Same(MoveBack(a, sender, receiver, amount, top), MoveBack(b, sender, receiver, amount, top))
  {
    SameAdd(a, b, sender, -amount);
    SameAdd(a, b, receiver, amount);
    SameAdd(Add(a, sender, -amount), Add(b, sender, -amount), receiver, amount);
    SameAdd(a, b, receiver, -amount);
    SameAdd(Add(a, receiver, -amount), Add(b, receiver, -amount), sender, amount);
  }

  lemma SameApply(a: Accounts, b: Accounts, receiver: Address, storage: Storage, transfers: seq<Transfer>)
    requires Same(a, b)
    ensures Same(Apply(a, receiver, storage, transfers), Apply(b, receiver, storage, transfers))
  {
    assert Lookup(a, receiver) == Lookup(b, receiver);
    SamePut(a, b, receiver, Lookup(a, receiver).(storage := storage));
    var a', b' := SetStorage(a, receiver, storage), SetStorage(b, receiver, storage);
    SameAdd(a', b', receiver, -SumOf(transfers));
    SamePay(Add(a', receiver, -SumOf(transfers)), Add(b', receiver, -SumOf(transfers)), transfers);
  }

  lemma {:induction false} SameLoop(P: Params, fr: Frame, a: Accounts, b: Accounts, gas: int, replies: seq<Reply>,
                                    transfers: seq<Transfer>)
    requires fr.depth <= MAX_CALL_DEPTH && Same(a, b)
    ensures var (r, a') := Loop(P, fr, a, gas, replies, transfers);
            var (s, b') := Loop(P, fr, b, gas, replies, transfers);
            r == s && Same(a', b')
    decreases Rank(fr.depth), 0, gas
  {
    hide InternalCall, Same, Settle, TransferAllowed;
    var action := P.behaviour(fr.code, fr.storage, fr.msg, gas, replies);
    var left := gas - action.cost;
    if left > 0 {
      match action
      case Finish(_, storage, serializable) =>
      case Raise(_, error) =>
      case TransferOut(_, to, amount) =>
        if TransferAllowed(P, to, amount) {
          SameLoop(P, fr, a, b, left, replies + [TransferQueued], transfers + [Transfer(to, amount)]);
        } else {
          SameLoop(P, fr, a, b, left, replies + [TransferRefused], transfers);
        }
      case CallContract(_, address, payload, amount) =>
        var (r, a') := InternalCall(P, a, fr.address, address, amount, payload, fr.gasLimit, fr.depth + 1, false);
        var (s, b') := InternalCall(P, b, fr.address, address, amount, payload, fr.gasLimit, fr.depth + 1, false);
        SameCall(P, a, b, fr.address, address, amount, payload, fr.gasLimit, fr.depth + 1, false);
        SameLoop(P, fr, a', b', left, replies + [ReplyTo(r)], transfers);
    }
  }

  lemma {:induction false} SameExecute(P: Params, a: Accounts, b: Accounts, address: Address, sender: Address,
                                       payload: string, amount: int, gasLimit: int, depth: nat)
    requires Same(a, b)
    ensures var (r, a') := Execute(P, a, address, sender, payload, amount, gasLimit, depth);
            var (s, b') := Execute(P, b, address, sender, payload, amount, gasLimit, depth);
            r == s && Same(a', b')
    decreases Rank(depth), 1, 0
  {
    if depth <= MAX_CALL_DEPTH {
      SameTouch(a, b, address);
      var a', b' := Touch(a, address), Touch(b, address);
      assert Lookup(a', address) == Lookup(b', address);
      if HasCode(a', address) {
        SameLoop(P, FrameFor(a', address, sender, payload, amount, gasLimit, depth), a', b', gasLimit, [], []);
      }
    }
  }

  /** Calls on account maps equal up to blank records end alike, in maps equal up to blanks. */
  lemma {:induction false} SameCall(P: Params, a: Accounts, b: Accounts, sender: Address, receiver: Address,
                                    amount: int, payload: string, gasLimit: int, depth: nat, top: bool)
    requires Same(a, b)
    ensures var (r, a') := InternalCall(P, a, sender, receiver, amount, payload, gasLimit, depth, top);
            var (s, b') := InternalCall(P, b, sender, receiver, amount, payload, gasLimit, depth, top);
            r == s && Same(a', b')
    decreases Rank(depth), 2, 0
  {
    assert Lookup(a, receiver) == Lookup(b, receiver) && Lookup(a, sender) == Lookup(b, sender);
    if HasCode(a, receiver) && (top || amount <= Lookup(a, sender).balance) {
      var a0, b0 := MoveIn(a, sender, receiver, amount, top), MoveIn(b, sender, receiver, amount, top);
      SameMoves(a, b, sender, receiver, amount, top);
      SameExecute(P, a0, b0, receiver, sender, payload, amount, gasLimit, depth);
      var (r, a1) := Execute(P, a0, receiver, sender, payload, amount, gasLimit, depth);
      var (s, b1) := Execute(P, b0, receiver, sender, payload, amount, gasLimit, depth);
      assert Lookup(a1, receiver) == Lookup(b1, receiver);
      SameMoves(a1, b1, sender, receiver, amount, top);
      if r.Done? {
        SameApply(a1, b1, receiver, r.storage, r.transfers);
      }
    }
  }

  // ---- transfers -------------------------------------------------------------------------

  ghost predicate AllAllowed(P: Params, transfers: seq<Transfer>) {
    forall i | 0 <= i < |transfers| :: TransferAllowed(P, transfers[i].to, transfers[i].amount)
  }

  /** A body's transfers went through the checks one by one. */
  lemma {:induction false} LoopTransfers(P: Params, fr: Frame, m: Accounts, gas: int, replies: seq<Reply>,
                                         transfers: seq<Transfer>)
    requires fr.depth <= MAX_CALL_DEPTH && AllAllowed(P, transfers)
    ensures var r := Loop(P, fr, m, gas, replies, transfers).0;
            r.Done? ==> AllAllowed(P, r.transfers)
    decreases gas
  {
    hide InternalCall;
    var action := P.behaviour(fr.code, fr.storage, fr.msg, gas, replies);
    var left := gas - action.cost;
    if left > 0 {
      match action
      case Finish(_, storage, serializable) =>
      case Raise(_, error) =>
      case TransferOut(_, to, amount) =>
        if TransferAllowed(P, to, amount) {
          LoopTransfers(P, fr, m, left, replies + [TransferQueued], transfers + [Transfer(to, amount)]);
        } else {
          LoopTransfers(P, fr, m, left, replies + [TransferRefused], transfers);
        }
      case CallContract(_, address, payload, amount) =>
        var (r, m') := InternalCall(P, m, fr.address, address, amount, payload, fr.gasLimit, fr.depth + 1, false);
        LoopTransfers(P, fr, m', left, replies + [ReplyTo(r)], transfers);
    }
  }

  // ---- ends of a call --------------------------------------------------------------------

  lemma {:induction false} PayKeepsStorage(m: Accounts, transfers: seq<Transfer>, k: Address)
    ensures Lookup(Pay(m, transfers), k).storage == Lookup(m, k).storage
  {
    if transfers != [] {
      PayKeepsStorage(m, transfers[..|transfers| - 1], k);
    }
  }

  /** A successful call leaves in the contract's storage exactly what its body returned, and only
      made transfers that passed the checks. */
  lemma CallStores(P: Params, m: Accounts, sender: Address, receiver: Address, amount: int, payload: string,
                   gasLimit: int, depth: nat, top: bool)
    requires InternalCall(P, m, sender, receiver, amount, payload, gasLimit, depth, top).0.Done?
    ensures var (r, m') := InternalCall(P, m, sender, receiver, amount, payload, gasLimit, depth, top);
            Lookup(m', receiver).storage == r.storage && AllAllowed(P, r.transfers)
  {
    hide Loop;
    var m0 := Touch(MoveIn(m, sender, receiver, amount, top), receiver);
    LoopTransfers(P, FrameFor(m0, receiver, sender, payload, amount, gasLimit, depth), m0, gasLimit, [], []);
    var (r, m1) := Execute(P, MoveIn(m, sender, receiver, amount, top), receiver, sender, payload, amount, gasLimit,
                           depth);
    PayKeepsStorage(Add(SetStorage(m1, receiver, r.storage), receiver, -SumOf(r.transfers)), r.transfers, receiver);
  }

  // The coins k gets from a batch of transfers.
  function PaidTo(transfers: seq<Transfer>, k: Address): int {
    if transfers == [] then 0 else
    var t := transfers[|transfers| - 1];
    PaidTo(transfers[..|transfers| - 1], k) + if t.to == k then t.amount else 0
  }

  lemma {:induction false} PayLookup(m: Accounts, transfers: seq<Transfer>, k: Address)
    ensures Lookup(Pay(m, transfers), k) == Lookup(m, k).(balance := Lookup(m, k).balance + PaidTo(transfers, k))
  {
    if transfers != [] {
      PayLookup(m, transfers[..|transfers| - 1], k);
    }
  }

  // Code that calls no other contract.
  ghost predicate Leaf(P: Params, code: string) {
    forall storage, msg, gas, replies :: !P.behaviour(code, storage, msg, gas, replies).CallContract?
  }

  lemma {:induction false} LeafLoop(P: Params, fr: Frame, m: Accounts, gas: int, replies: seq<Reply>,
                                    transfers: seq<Transfer>)
    requires fr.depth <= MAX_CALL_DEPTH && Leaf(P, fr.code)
    ensures Loop(P, fr, m, gas, replies, transfers).1 == m
    decreases gas
  {
    hide InternalCall;
    var action := P.behaviour(fr.code, fr.storage, fr.msg, gas, replies);
    var left := gas - action.cost;
    if left > 0 && action.TransferOut? {
      if TransferAllowed(P, action.to, action.amount) {
        LeafLoop(P, fr, m, left, replies + [TransferQueued], transfers + [Transfer(action.to, action.amount)]);
      } else {
        LeafLoop(P, fr, m, left, replies + [TransferRefused], transfers);
      }
    }
  }

  // What a call to a leaf leaves of k's record: the amount moves in, the transfers move out, and
  // the contract's storage is the one its body returned.
  function AfterLeaf(before: Account, k: Address, sender: Address, receiver: Address, amount: int, top: bool,
                     r: Outcome): Account
    requires r.Done?
  {
    Account(
      before.balance - (if k == sender && !top then amount else 0) + (if k == receiver then amount - SumOf(r.transfers)
                                                                      else 0)
        + PaidTo(r.transfers, k),
      before.nonce, before.code, if k == receiver then r.storage else before.storage)
  }

  /** The whole effect of a call to code that calls no other contract: a failure leaves no trace,
      a success moves the amount and the transfers and stores the body's storage. */
  lemma LeafCall(P: Params, m: Accounts, sender: Address, receiver: Address, amount: int, payload: string,
                 gasLimit: int, depth: nat, top: bool, k: Address)
    requires HasCode(m, receiver) && Leaf(P, Lookup(m, receiver).code.value)
    ensures var (r, m') := InternalCall(P, m, sender, receiver, amount, payload, gasLimit, depth, top);
            Lookup(m', k) == if r.Fail? then Lookup(m, k)
              else AfterLeaf(Lookup(m, k), k, sender, receiver, amount, top, r)
  {
    hide Loop, SumOf, Pay, PaidTo;
    var m0 := MoveIn(m, sender, receiver, amount, top);
    assert Touch(m0, receiver) == m0;
    if depth <= MAX_CALL_DEPTH {
      LeafLoop(P, FrameFor(m0, receiver, sender, payload, amount, gasLimit, depth), m0, gasLimit, [], []);
    }
    var r := Execute(P, m0, receiver, sender, payload, amount, gasLimit, depth).0;
    assert Execute(P, m0, receiver, sender, payload, amount, gasLimit, depth).1 == m0;
    MoveThereAndBack(m, sender, receiver, amount, top, k);
    if r.Done? {
      PayLookup(Add(SetStorage(m0, receiver, r.storage), receiver, -SumOf(r.transfers)), r.transfers, k);
    }
  }

  /** A call nested too deeply fails, and its value moves are undone without a trace. */
  lemma TooDeepChangesNothing(P: Params, m: Accounts, sender: Address, receiver: Address, amount: int, payload: string,
                              gasLimit: int, depth: nat, top: bool)
    requires MAX_CALL_DEPTH < depth
    ensures var (r, m') := InternalCall(P, m, sender, receiver, amount, payload, gasLimit, depth, top);
            r.Fail? && r.gasUsed == gasLimit && Same(m, m')
  {
    var m0 := MoveIn(m, sender, receiver, amount, top);
    var m1 := MoveBack(m0, sender, receiver, amount, top);
    forall k ensures Lookup(m, k) == Lookup(m1, k) {
      MoveThereAndBack(m, sender, receiver, amount, top, k);
    }
    assert Execute(P, m0, receiver, sender, payload, amount, gasLimit, depth) == (Fail(TOO_DEEP, gasLimit), m0);
  }

  lemma MoveThereAndBack(m: Accounts, sender: Address, receiver: Address, amount: int, top: bool, k: Address)
    ensures Lookup(MoveBack(MoveIn(m, sender, receiver, amount, top), sender, receiver, amount, top), k) == Lookup(m, k)
  {
  }
}
