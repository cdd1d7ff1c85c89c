/** When contract calls keep balances non-negative: exactly, in terms of the value moves of a
    call tree, and in terms of the code of the contracts that are deployed. */
module Solvency {
  import opened Prelude
  import opened AccountMaps
  import opened Calls
  import opened CallLaws

  // ---- deployed code ---------------------------------------------------------------------

  /** Code that never ends normally after one of its sub-calls failed. */
  ghost predicate CarefulCode(P: Params, code: string) {
    forall storage, msg, gas, replies ::
      P.behaviour(code, storage, msg, gas, replies).Finish? ==> !SawFailure(replies)
  }

  /** All code that is deployed is careful. */
  ghost predicate CarefulIn(P: Params, m: Accounts) {
    forall k | HasCode(m, k) :: CarefulCode(P, Lookup(m, k).code.value)
  }

  // Calls never change code.
  lemma CarefulKept(P: Params, a: Accounts, b: Accounts)
    requires CarefulIn(P, a) && SameIdentities(a, b)
    ensures CarefulIn(P, b)
  {
    hide CarefulCode;
    forall k | HasCode(b, k) ensures CarefulCode(P, Lookup(b, k).code.value) {
      assert Lookup(a, k).code == Lookup(b, k).code;
      assert HasCode(a, k);
    }
  }

  // While contracts run, only those with an open frame may be short of coins: a sub-call with a
  // negative amount takes from its receiver, which must make up for it before its frame ends.
  ghost predicate Solvent(m: Accounts, running: set<Address>) {
    forall k | k !in running :: 0 <= Lookup(m, k).balance
  }

  ghost predicate SawFailure(replies: seq<Reply>) {
    exists i | 0 <= i < |replies| :: replies[i].CallFailed?
  }

  lemma {:induction false} PayAdds(P: Params, m: Accounts, transfers: seq<Transfer>, k: Address)
    requires AllAllowed(P, transfers)
    ensures Lookup(m, k).balance <= Lookup(Pay(m, transfers), k).balance
  {
    if transfers != [] {
      PayAdds(P, m, transfers[..|transfers| - 1], k);
    }
  }

  // A settled contract is solvent itself, and has only given to others.
  lemma ApplySolvent(P: Params, m: Accounts, receiver: Address, storage: Storage, transfers: seq<Transfer>,
                     running: set<Address>)
    requires Solvent(m, running + {receiver}) && AllAllowed(P, transfers) &&
             SumOf(transfers) <= Lookup(m, receiver).balance
    ensures Solvent(Apply(m, receiver, storage, transfers), running)
  {
    var m' := Add(SetStorage(m, receiver, storage), receiver, -SumOf(transfers));
    forall k | k !in running ensures 0 <= Lookup(Pay(m', transfers), k).balance {
      PayAdds(P, m', transfers, k);
      assert k != receiver ==> 0 <= Lookup(m, k).balance;
    }
  }

  // Once a sub-call has failed, a careful body fails.
  lemma {:induction false} Doomed(P: Params, fr: Frame, m: Accounts, gas: int, replies: seq<Reply>,
                                  transfers: seq<Transfer>)
    requires fr.depth <= MAX_CALL_DEPTH && CarefulCode(P, fr.code) && SawFailure(replies)
    ensures Loop(P, fr, m, gas, replies, transfers).0.Fail?
    decreases gas
  {
    var action := P.behaviour(fr.code, fr.storage, fr.msg, gas, replies);
    var left := gas - action.cost;
    var i :| 0 <= i < |replies| && replies[i].CallFailed?;
    if left > 0 {
      match action
      case Finish(_, storage, serializable) =>
      case Raise(_, error) =>
      case TransferOut(_, to, amount) =>
        if TransferAllowed(P, to, amount) {
          assert (replies + [TransferQueued])[i].CallFailed?;
          Doomed(P, fr, m, left, replies + [TransferQueued], transfers + [Transfer(to, amount)]);
        } else {
          assert (replies + [TransferRefused])[i].CallFailed?;
          Doomed(P, fr, m, left, replies + [TransferRefused], transfers);
        }
      case CallContract(_, address, payload, amount) =>
        var (r, m') := InternalCall(P, m, fr.address, address, amount, payload, fr.gasLimit, fr.depth + 1, false);
        assert (replies + [ReplyTo(r)])[i].CallFailed?;
        Doomed(P, fr, m', left, replies + [ReplyTo(r)], transfers);
    }
  }

  lemma {:induction false} LoopSolvent(P: Params, fr: Frame, m: Accounts, gas: int, replies: seq<Reply>,
                                       transfers: seq<Transfer>, running: set<Address>)
    requires fr.depth <= MAX_CALL_DEPTH && CarefulCode(P, fr.code) && CarefulIn(P, m)
    requires Solvent(m, running) && fr.address in running
    ensures var (r, m') := Loop(P, fr, m, gas, replies, transfers);
            r.Done? ==> Solvent(m', running)
    decreases Rank(fr.depth), 0, gas
  {
    hide InternalCall, Solvent, CarefulCode, CarefulIn, SameIdentities, Settle, TransferAllowed;
    var action := P.behaviour(fr.code, fr.storage, fr.msg, gas, replies);
    var left := gas - action.cost;
    if left > 0 {
      match action
      case Finish(_, storage, serializable) =>
      case Raise(_, error) =>
      case TransferOut(_, to, amount) =>
        if TransferAllowed(P, to, amount) {
          LoopSolvent(P, fr, m, left, replies + [TransferQueued], transfers + [Transfer(to, amount)], running);
        } else {
          LoopSolvent(P, fr, m, left, replies + [TransferRefused], transfers, running);
        }
      case CallContract(_, address, payload, amount) =>
        var (r, m') := InternalCall(P, m, fr.address, address, amount, payload, fr.gasLimit, fr.depth + 1, false);
        if r.Done? {
          CallSolvent(P, m, fr.address, address, amount, payload, fr.gasLimit, fr.depth + 1, false, running);
          CallIdentities(P, m, fr.address, address, amount, payload, fr.gasLimit, fr.depth + 1, false);
          CarefulKept(P, m, m');
          LoopSolvent(P, fr, m', left, replies + [ReplyTo(r)], transfers, running);
        } else {
          assert (replies + [ReplyTo(r)])[|replies|].CallFailed?;
          Doomed(P, fr, m', left, replies + [ReplyTo(r)], transfers);
        }
    }
  }

  lemma ExecuteSolvent(P: Params, m: Accounts, address: Address, sender: Address, payload: string, amount: int,
                       gasLimit: int, depth: nat, running: set<Address>)
    requires CarefulIn(P, m) && Solvent(m, running) && address in running
    ensures var (r, m') := Execute(P, m, address, sender, payload, amount, gasLimit, depth);
            r.Done? ==> Solvent(m', running) && AllAllowed(P, r.transfers)
    decreases Rank(depth), 1, 0
  {
    hide Loop, CarefulCode;
    var m0 := Touch(m, address);
    if depth <= MAX_CALL_DEPTH && HasCode(m0, address) {
      assert Solvent(m0, running);
      CarefulKept(P, m, m0);
      var fr := FrameFor(m0, address, sender, payload, amount, gasLimit, depth);
      LoopSolvent(P, fr, m0, gasLimit, [], [], running);
      LoopTransfers(P, fr, m0, gasLimit, [], []);
    }
  }

  /** Where all deployed code is careful, a successful call of any amount and nesting leaves
      everyone solvent but the contracts whose frames are still open around it. */
  lemma {:induction false} CallSolvent(P: Params, m: Accounts, sender: Address, receiver: Address, amount: int,
                                       payload: string, gasLimit: int, depth: nat, top: bool, running: set<Address>)
    requires CarefulIn(P, m) && Solvent(m, running) && (top || sender in running)
    ensures var (r, m') := InternalCall(P, m, sender, receiver, amount, payload, gasLimit, depth, top);
            r.Done? ==> Solvent(m', running)
    decreases Rank(depth), 2, 0
  {
    hide Execute, CarefulIn, SumOf, Apply;
    if HasCode(m, receiver) && (top || amount <= Lookup(m, sender).balance) {
      var m0 := MoveIn(m, sender, receiver, amount, top);
      var running' := running + {receiver};
      forall k | k !in running' ensures 0 <= Lookup(m0, k).balance {
        assert 0 <= Lookup(m, k).balance;
      }
      MoveIdentities(m, sender, receiver, amount, top);
      CarefulKept(P, m, m0);
      ExecuteSolvent(P, m0, receiver, sender, payload, amount, gasLimit, depth, running');
      var (r, m1) := Execute(P, m0, receiver, sender, payload, amount, gasLimit, depth);
      if r.Done? && SumOf(r.transfers) <= Lookup(m1, receiver).balance {
        ApplySolvent(P, m1, receiver, r.storage, r.transfers, running);
      }
    }
  }

  /** Where all deployed code is careful, a successful top-level call leaves no balance below zero. */
  lemma CallNonNegative(P: Params, m: Accounts, sender: Address, receiver: Address, amount: int, payload: string,
                        gasLimit: int, depth: nat)
    requires CarefulIn(P, m) && NonNegative(m)
    ensures var (r, m') := InternalCall(P, m, sender, receiver, amount, payload, gasLimit, depth, true);
            r.Done? ==> NonNegative(m')
  {
    hide InternalCall, CarefulIn;
    CallSolvent(P, m, sender, receiver, amount, payload, gasLimit, depth, true, {});
  }

  // ---- value moves -----------------------------------------------------------------------

  // The amount can be moved: a negative one must be there in the receiver, unless it stays.
  predicate CoveredIn(m: Accounts, sender: Address, receiver: Address, amount: int, top: bool) {
    (!top && sender == receiver) || 0 <= Lookup(m, receiver).balance + amount
  }

  // The amount can be moved back.
  predicate CoveredBack(m: Accounts, sender: Address, receiver: Address, amount: int, top: bool) {
    (!top && sender == receiver) || (amount <= Lookup(m, receiver).balance &&
                                     (top || 0 <= Lookup(m, sender).balance + amount))
  }

  lemma MovesCovered(m: Accounts, sender: Address, receiver: Address, amount: int, top: bool)
    requires NonNegative(m) && (top || amount <= Lookup(m, sender).balance)
    ensures NonNegative(MoveIn(m, sender, receiver, amount, top)) <==> CoveredIn(m, sender, receiver, amount, top)
  {
    var m' := MoveIn(m, sender, receiver, amount, top);
    assert top || sender != receiver ==> Lookup(m', receiver).balance == Lookup(m, receiver).balance + amount;
    if CoveredIn(m, sender, receiver, amount, top) {
      forall k ensures 0 <= Lookup(m', k).balance { assert 0 <= Lookup(m, k).balance; }
    }
  }

  /** Exactly when the undo of a failed frame leaves no balance below zero. */
  lemma UndoCovered(m: Accounts, sender: Address, receiver: Address, amount: int, top: bool)
    requires NonNegative(m)
    ensures NonNegative(MoveBack(m, sender, receiver, amount, top)) <==> CoveredBack(m, sender, receiver, amount, top)
  {
    var m' := MoveBack(m, sender, receiver, amount, top);
    assert top || sender != receiver ==> Lookup(m', receiver).balance == Lookup(m, receiver).balance - amount;
    assert !top && sender != receiver ==> Lookup(m', sender).balance == Lookup(m, sender).balance + amount;
    if CoveredBack(m, sender, receiver, amount, top) {
      forall k ensures 0 <= Lookup(m', k).balance { assert 0 <= Lookup(m, k).balance; }
    }
  }

  predicate Entered(m: Accounts, sender: Address, receiver: Address, amount: int, top: bool) {
    HasCode(m, receiver) && (top || amount <= Lookup(m, sender).balance)
  }

  // Whether a frame that ended with r is undone.
  predicate Undone(m: Accounts, receiver: Address, r: Outcome) {
    r.Fail? || SumOf(r.transfers) > Lookup(m, receiver).balance
  }

  /** Every value move of the tree below a message loop is covered when it is made. */
  ghost predicate LoopCovered(P: Params, fr: Frame, m: Accounts, gas: int, replies: seq<Reply>)
    requires fr.depth <= MAX_CALL_DEPTH
    decreases Rank(fr.depth), 0, gas
  {
    var action := P.behaviour(fr.code, fr.storage, fr.msg, gas, replies);
    var left := gas - action.cost;
    if left <= 0 then true else
    match action
    case Finish(_, _, _) => true
    case Raise(_, _) => true
    case TransferOut(_, to, amount) =>
      LoopCovered(P, fr, m, left, replies + [if TransferAllowed(P, to, amount) then TransferQueued
                                             else TransferRefused])
    case CallContract(_, address, payload, amount) =>
      var (r, m') := InternalCall(P, m, fr.address, address, amount, payload, fr.gasLimit, fr.depth + 1, false);
      && CallCovered(P, m, fr.address, address, amount, payload, fr.gasLimit, fr.depth + 1, false)
      && LoopCovered(P, fr, m', left, replies + [ReplyTo(r)])
  }

  ghost predicate BodyCovered(P: Params, m: Accounts, address: Address, sender: Address, payload: string, amount: int,
                              gasLimit: int, depth: nat)
    decreases Rank(depth), 1, 0
  {
    var m' := Touch(m, address);
    depth <= MAX_CALL_DEPTH && HasCode(m', address) && P.astAllowed(Lookup(m', address).code.value) ==>
      LoopCovered(P, FrameFor(m', address, sender, payload, amount, gasLimit, depth), m', gasLimit, [])
  }

  /** Every value move of a call tree, in or back, is covered when it is made. */
  ghost predicate CallCovered(P: Params, m: Accounts, sender: Address, receiver: Address, amount: int, payload: string,
                              gasLimit: int, depth: nat, top: bool)
    decreases Rank(depth), 2, 0
  {
    Entered(m, sender, receiver, amount, top) ==>
      var m0 := MoveIn(m, sender, receiver, amount, top);
      var (r, m1) := Execute(P, m0, receiver, sender, payload, amount, gasLimit, depth);
      && CoveredIn(m, sender, receiver, amount, top)
      && BodyCovered(P, m0, receiver, sender, payload, amount, gasLimit, depth)
      && (Undone(m1, receiver, r) ==> CoveredBack(m1, sender, receiver, amount, top))
  }

  /** No account map on the way of a message loop holds a negative balance. */
  ghost predicate LoopNeverNegative(P: Params, fr: Frame, m: Accounts, gas: int, replies: seq<Reply>)
    requires fr.depth <= MAX_CALL_DEPTH
    decreases Rank(fr.depth), 0, gas
  {
    NonNegative(m) &&
    var action := P.behaviour(fr.code, fr.storage, fr.msg, gas, replies);
    var left := gas - action.cost;
    if left <= 0 then true else
    match action
    case Finish(_, _, _) => true
    case Raise(_, _) => true
    case TransferOut(_, to, amount) =>
      LoopNeverNegative(P, fr, m, left, replies + [if TransferAllowed(P, to, amount) then TransferQueued
                                                   else TransferRefused])
    case CallContract(_, address, payload, amount) =>
      var (r, m') := InternalCall(P, m, fr.address, address, amount, payload, fr.gasLimit, fr.depth + 1, false);
      && CallNeverNegative(P, m, fr.address, address, amount, payload, fr.gasLimit, fr.depth + 1, false)
      && LoopNeverNegative(P, fr, m', left, replies + [ReplyTo(r)])
  }

  ghost predicate BodyNeverNegative(P: Params, m: Accounts, address: Address, sender: Address, payload: string,
                                    amount: int,
                                    gasLimit: int, depth: nat)
    decreases Rank(depth), 1, 0
  {
    var m' := Touch(m, address);
    NonNegative(m) &&
    (depth <= MAX_CALL_DEPTH && HasCode(m', address) && P.astAllowed(Lookup(m', address).code.value) ==>
      LoopNeverNegative(P, FrameFor(m', address, sender, payload, amount, gasLimit, depth), m', gasLimit, []))
  }

  /** No account map on the way of a call - before and after each value move and each sub-call -
      holds a negative balance. */
  ghost predicate CallNeverNegative(P: Params, m: Accounts, sender: Address, receiver: Address, amount: int,
                                    payload: string,
                                    gasLimit: int, depth: nat, top: bool)
    decreases Rank(depth), 2, 0
  {
    && NonNegative(m)
    && (Entered(m, sender, receiver, amount, top) ==>
          BodyNeverNegative(P, MoveIn(m, sender, receiver, amount, top), receiver, sender, payload, amount, gasLimit,
                            depth))
    && NonNegative(InternalCall(P, m, sender, receiver, amount, payload, gasLimit, depth, top).1)
  }

  lemma {:induction false} LoopCoveredExactly(P: Params, fr: Frame, m: Accounts, gas: int, replies: seq<Reply>,
                                              transfers: seq<Transfer>)
    requires fr.depth <= MAX_CALL_DEPTH && NonNegative(m)
    ensures LoopCovered(P, fr, m, gas, replies) <==> LoopNeverNegative(P, fr, m, gas, replies)
    ensures LoopCovered(P, fr, m, gas, replies) ==> NonNegative(Loop(P, fr, m, gas, replies, transfers).1)
    decreases Rank(fr.depth), 0, gas
  {
    hide InternalCall, NonNegative, CallCovered, CallNeverNegative, TransferAllowed, Settle;
    var action := P.behaviour(fr.code, fr.storage, fr.msg, gas, replies);
    var left := gas - action.cost;
    if left > 0 {
      match action
      case Finish(_, storage, serializable) =>
      case Raise(_, error) =>
      case TransferOut(_, to, amount) =>
        if TransferAllowed(P, to, amount) {
          LoopCoveredExactly(P, fr, m, left, replies + [TransferQueued], transfers + [Transfer(to, amount)]);
        } else {
          LoopCoveredExactly(P, fr, m, left, replies + [TransferRefused], transfers);
        }
      case CallContract(_, address, payload, amount) =>
        var (r, m') := InternalCall(P, m, fr.address, address, amount, payload, fr.gasLimit, fr.depth + 1, false);
        CallCoveredExactly(P, m, fr.address, address, amount, payload, fr.gasLimit, fr.depth + 1, false);
        if CallCovered(P, m, fr.address, address, amount, payload, fr.gasLimit, fr.depth + 1, false) {
          NeverNegativeEnd(P, m, fr.address, address, amount, payload, fr.gasLimit, fr.depth + 1, false);
          LoopCoveredExactly(P, fr, m', left, replies + [ReplyTo(r)], transfers);
        }
    }
  }

  lemma NeverNegativeEnd(P: Params, m: Accounts, sender: Address, receiver: Address, amount: int, payload: string,
                         gasLimit: int, depth: nat, top: bool)
    requires CallNeverNegative(P, m, sender, receiver, amount, payload, gasLimit, depth, top)
    ensures NonNegative(InternalCall(P, m, sender, receiver, amount, payload, gasLimit, depth, top).1)
  {
  }

  lemma {:induction false} BodyCoveredExactly(P: Params, m: Accounts, address: Address, sender: Address,
                                              payload: string,
                                              amount: int, gasLimit: int, depth: nat)
    requires NonNegative(m)
    ensures var covered := BodyCovered(P, m, address, sender, payload, amount, gasLimit, depth);
            && (covered <==> BodyNeverNegative(P, m, address, sender, payload, amount, gasLimit, depth))
            && (covered ==> NonNegative(Execute(P, m, address, sender, payload, amount, gasLimit, depth).1))
    ensures var r := Execute(P, m, address, sender, payload, amount, gasLimit, depth).0;
            r.Done? ==> AllAllowed(P, r.transfers)
    decreases Rank(depth), 1, 0
  {
    hide Loop, LoopCovered, LoopNeverNegative;
    var m' := Touch(m, address);
    forall k ensures 0 <= Lookup(m', k).balance { assert 0 <= Lookup(m, k).balance; }
    if depth <= MAX_CALL_DEPTH && HasCode(m', address) {
      var fr := FrameFor(m', address, sender, payload, amount, gasLimit, depth);
      LoopCoveredExactly(P, fr, m', gasLimit, [], []);
      LoopTransfers(P, fr, m', gasLimit, [], []);
    }
  }

  /** Exactly when balances stay non-negative: no map on the way of a call is ever negative if and
      only if every value move, in or back, is covered when it is made - whatever the oracle, the
      amounts and the nesting. */
  lemma {:induction false} CallCoveredExactly(P: Params, m: Accounts, sender: Address, receiver: Address, amount: int,
                                              payload: string, gasLimit: int, depth: nat, top: bool)
    requires NonNegative(m)
    ensures CallCovered(P, m, sender, receiver, amount, payload, gasLimit, depth, top)
       <==> CallNeverNegative(P, m, sender, receiver, amount, payload, gasLimit, depth, top)
    decreases Rank(depth), 2, 0
  {
    hide Execute, BodyCovered, BodyNeverNegative, MoveIn, MoveBack, CoveredIn, CoveredBack, NonNegative, Apply;
    if Entered(m, sender, receiver, amount, top) {
      var m0 := MoveIn(m, sender, receiver, amount, top);
      MovesCovered(m, sender, receiver, amount, top);
      if CoveredIn(m, sender, receiver, amount, top) {
        BodyCoveredExactly(P, m0, receiver, sender, payload, amount, gasLimit, depth);
        var (r, m1) := Execute(P, m0, receiver, sender, payload, amount, gasLimit, depth);
        if BodyCovered(P, m0, receiver, sender, payload, amount, gasLimit, depth) {
          UndoCovered(m1, sender, receiver, amount, top);
          if !Undone(m1, receiver, r) {
            SettledNonNegative(P, m1, receiver, r.storage, r.transfers);
          }
        }
      } else {
        BodyStartsNonNegative(P, m0, receiver, sender, payload, amount, gasLimit, depth);
      }
    }
  }

  lemma BodyStartsNonNegative(P: Params, m: Accounts, address: Address, sender: Address, payload: string, amount: int,
                              gasLimit: int, depth: nat)
    ensures BodyNeverNegative(P, m, address, sender, payload, amount, gasLimit, depth) ==> NonNegative(m)
  {
  }

  lemma SettledNonNegative(P: Params, m: Accounts, receiver: Address, storage: Storage, transfers: seq<Transfer>)
    requires NonNegative(m) && AllAllowed(P, transfers) && SumOf(transfers) <= Lookup(m, receiver).balance
    ensures NonNegative(Apply(m, receiver, storage, transfers))
  {
    hide Apply, SumOf, AllAllowed;
    ApplySolvent(P, m, receiver, storage, transfers, {});
  }
}
