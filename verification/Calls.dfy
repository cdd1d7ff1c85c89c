/** Contract calls on account values: what `execute_internal_call` and `ContractMachine.execute`
    do, as one mutually recursive function, and the laws every call tree obeys. */
module Calls {
  import opened Prelude
  import opened AccountMaps

  // A result dictionary; `storage` and `transfers` are read only after a success.
  datatype Outcome =
    | Done(gasUsed: int, storage: Storage, transfers: seq<Transfer>)
    | Fail(error: string, gasUsed: int)

  // What stays fixed while one contract body runs.
  datatype Frame = Frame(address: Address, code: string, storage: Storage, msg: Message, gasLimit: int, depth: nat)

  const OUT_OF_GAS := "Out of gas!"
  const STORAGE_OUT_OF_GAS := "Out of gas (Storage size exceeded limit)"
  const NOT_SERIALIZABLE := "Storage not JSON serializable"
  const TOO_DEEP := "Max call depth exceeded"
  const NO_CODE := "No code"
  const BAD_AST := "AST Validation Failed"
  const NO_CONTRACT := "Contract not found"
  const POOR_CALLER := "Insufficient balance"
  const POOR_CONTRACT := "Insufficient contract balance for transfers"

  // The checks of `transfer_out`.
  predicate TransferAllowed(P: Params, to: Address, amount: int) {
    0 < amount && (|to| == 40 || |to| == 64) && P.parsesAsHex(to)
  }

  function ReplyTo(r: Outcome): Reply {
    if r.Done? then CallDone else CallFailed(r.error)
  }

  function SumOf(transfers: seq<Transfer>): int {
    if transfers == [] then 0 else SumOf(transfers[..|transfers| - 1]) + transfers[|transfers| - 1].amount
  }

  function Pay(m: Accounts, transfers: seq<Transfer>): Accounts {
    if transfers == [] then m else
    var t := transfers[|transfers| - 1];
    Add(Pay(m, transfers[..|transfers| - 1]), t.to, t.amount)
  }

  // The checks made on a body that ended normally.
  function Settle(P: Params, fr: Frame, left: int, storage: Storage, serializable: bool,
                  transfers: seq<Transfer>): Outcome {
    var used := fr.gasLimit - left;
    var total := used + P.storageBytes(storage) * GAS_PER_BYTE;
    if !serializable then Fail(NOT_SERIALIZABLE, used)
    else if total > fr.gasLimit then Fail(STORAGE_OUT_OF_GAS, fr.gasLimit)
    else Done(total, storage, transfers)
  }

  function Rank(depth: nat): nat {
    if depth <= MAX_CALL_DEPTH then MAX_CALL_DEPTH + 1 - depth else 0
  }

  /** The message loop: the body acts until it returns, fails, or its meter reaches zero. */
  function Loop(P: Params, fr: Frame, m: Accounts, gas: int, replies: seq<Reply>, transfers: seq<Transfer>): (Outcome,
                                                                                                              Accounts)
    requires fr.depth <= MAX_CALL_DEPTH
    decreases Rank(fr.depth), 0, gas
  {
    var action := P.behaviour(fr.code, fr.storage, fr.msg, gas, replies);
    var left := gas - action.cost;
    if left <= 0 then (Fail(OUT_OF_GAS, fr.gasLimit), m) else
    match action
    case Finish(_, storage, serializable) => (Settle(P, fr, left, storage, serializable, transfers), m)
    case Raise(_, error) => (Fail(error, fr.gasLimit - left), m)
    case TransferOut(_, to, amount) =>
      if TransferAllowed(P, to, amount)
      then Loop(P, fr, m, left, replies + [TransferQueued], transfers + [Transfer(to, amount)])
      else Loop(P, fr, m, left, replies + [TransferRefused], transfers)
    case CallContract(_, address, payload, amount) =>
      var (r, m') := InternalCall(P, m, fr.address, address, amount, payload, fr.gasLimit, fr.depth + 1, false);
      Loop(P, fr, m', left, replies + [ReplyTo(r)], transfers)
  }

  function FrameFor(m: Accounts, address: Address, sender: Address, payload: string, amount: int, gasLimit: int,
                    depth: nat): Frame
    requires HasCode(m, address)
  {
    Frame(address, Lookup(m, address).code.value, Lookup(m, address).storage, Message(sender, amount, payload),
          gasLimit, depth)
  }

  /** `ContractMachine.execute` */
  function Execute(P: Params, m: Accounts, address: Address, sender: Address, payload: string, amount: int,
                   gasLimit: int, depth: nat): (Outcome, Accounts)
    decreases Rank(depth), 1, 0
  {
    if depth > MAX_CALL_DEPTH then (Fail(TOO_DEEP, gasLimit), m) else
    var m' := Touch(m, address);
    if !HasCode(m', address) then (Fail(NO_CODE, 0), m')
    else if !P.astAllowed(Lookup(m', address).code.value) then (Fail(BAD_AST, 0), m')
    else Loop(P, FrameFor(m', address, sender, payload, amount, gasLimit, depth), m', gasLimit, [], [])
  }

  // The value leaves the caller (a nested call only) and reaches the contract.
  function MoveIn(m: Accounts, sender: Address, receiver: Address, amount: int, top: bool): Accounts {
    Add(if top then m else Add(m, sender, -amount), receiver, amount)
  }

  // A failed frame gives back its own value, and nothing else.
  function MoveBack(m: Accounts, sender: Address, receiver: Address, amount: int, top: bool): Accounts {
    var m' := Add(m, receiver, -amount);
    if top then m' else Add(m', sender, amount)
  }

  // What a successful body leaves behind.
  function Apply(m: Accounts, receiver: Address, storage: Storage, transfers: seq<Transfer>): Accounts {
    Pay(Add(SetStorage(m, receiver, storage), receiver, -SumOf(transfers)), transfers)
  }

  // A failed body, or one that promised more than the contract holds, is undone; a successful
  // one takes effect.
  function Conclude(m: Accounts, sender: Address, receiver: Address, amount: int, top: bool, r: Outcome): (Outcome,
                                                                                                           Accounts) {
    if r.Fail? then (r, MoveBack(m, sender, receiver, amount, top))
    else if SumOf(r.transfers) > Lookup(m, receiver).balance then
      (Fail(POOR_CONTRACT, r.gasUsed), MoveBack(m, sender, receiver, amount, top))
    else (r, Apply(m, receiver, r.storage, r.transfers))
  }

  /** `State.execute_internal_call` */
  function InternalCall(P: Params, m: Accounts, sender: Address, receiver: Address, amount: int, payload: string,
                        gasLimit: int, depth: nat, top: bool): (Outcome, Accounts)
    decreases Rank(depth), 2, 0
  {
    if !HasCode(m, receiver) then (Fail(NO_CONTRACT, gasLimit), m)
    else if !top && Lookup(m, sender).balance < amount then (Fail(POOR_CALLER, gasLimit), m)
    else
      var (r, m') := Execute(P, MoveIn(m, sender, receiver, amount, top), receiver, sender, payload, amount, gasLimit,
                             depth);
      Conclude(m', sender, receiver, amount, top, r)
  }

  // ---- gas -------------------------------------------------------------------------------

  ghost predicate GasBounded(r: Outcome, gasLimit: int) {
    0 <= r.gasUsed <= gasLimit
  }

  ghost predicate StoragePaid(P: Params, r: Outcome) {
    r.Done? ==> P.storageBytes(r.storage) * GAS_PER_BYTE < r.gasUsed
  }

  lemma {:induction false} LoopGas(P: Params, fr: Frame, m: Accounts, gas: int, replies: seq<Reply>,
                                   transfers: seq<Transfer>)
    requires fr.depth <= MAX_CALL_DEPTH && gas <= fr.gasLimit && 0 <= fr.gasLimit
    ensures GasBounded(Loop(P, fr, m, gas, replies, transfers).0, fr.gasLimit)
    ensures StoragePaid(P, Loop(P, fr, m, gas, replies, transfers).0)
    decreases gas
  {
    var action := P.behaviour(fr.code, fr.storage, fr.msg, gas, replies);
    var left := gas - action.cost;
    if left > 0 {
      match action
      case Finish(_, storage, serializable) =>
      case Raise(_, error) =>
      case TransferOut(_, to, amount) =>
        if TransferAllowed(P, to, amount) {
          LoopGas(P, fr, m, left, replies + [TransferQueued], transfers + [Transfer(to, amount)]);
        } else {
          LoopGas(P, fr, m, left, replies + [TransferRefused], transfers);
        }
      case CallContract(_, address, payload, amount) =>
        var (r, m') := InternalCall(P, m, fr.address, address, amount, payload, fr.gasLimit, fr.depth + 1, false);
        LoopGas(P, fr, m', left, replies + [ReplyTo(r)], transfers);
    }
  }

  /** Every way a call can end reports gas between zero and its limit, and a success has paid for
      the storage it leaves on top of the opcodes it ran. */
  lemma CallGas(P: Params, m: Accounts, sender: Address, receiver: Address, amount: int, payload: string,
                gasLimit: int, depth: nat, top: bool)
    requires 0 <= gasLimit
    ensures var r := InternalCall(P, m, sender, receiver, amount, payload, gasLimit, depth, top).0;
            GasBounded(r, gasLimit) && StoragePaid(P, r)
  {
    var m0 := Touch(MoveIn(m, sender, receiver, amount, top), receiver);
    if depth <= MAX_CALL_DEPTH && HasCode(m0, receiver) {
      LoopGas(P, FrameFor(m0, receiver, sender, payload, amount, gasLimit, depth), m0, gasLimit, [], []);
    }
  }

  // ---- conservation ----------------------------------------------------------------------

  lemma {:induction false} PayTotal(m: Accounts, transfers: seq<Transfer>)
    ensures Total(Pay(m, transfers)) == Total(m) + SumOf(transfers)
  {
    if transfers != [] {
      var t, front := transfers[|transfers| - 1], transfers[..|transfers| - 1];
      PayTotal(m, front);
      TotalAdd(Pay(m, front), t.to, t.amount);
    }
  }

  lemma ApplyTotal(m: Accounts, receiver: Address, storage: Storage, transfers: seq<Transfer>)
    ensures Total(Apply(m, receiver, storage, transfers)) == Total(m)
  {
    var m1 := SetStorage(m, receiver, storage);
    var m2 := Add(m1, receiver, -SumOf(transfers));
    TotalPut(m, receiver, Lookup(m, receiver).(storage := storage));
    TotalAdd(m1, receiver, -SumOf(transfers));
    PayTotal(m2, transfers);
  }

  lemma MoveTotals(m: Accounts, sender: Address, receiver: Address, amount: int, top: bool)
    ensures Total(MoveIn(m, sender, receiver, amount, top)) == Total(m) + (if top then amount else 0)
    ensures Total(MoveBack(m, sender, receiver, amount, top)) == Total(m) - (if top then amount else 0)
  {
    hide Total;
    TotalAdd(m, sender, -amount);
    TotalAdd(if top then m else Add(m, sender, -amount), receiver, amount);
    TotalAdd(m, receiver, -amount);
    TotalAdd(Add(m, receiver, -amount), sender, amount);
  }

  lemma {:induction false} LoopConserves(P: Params, fr: Frame, m: Accounts, gas: int, replies: seq<Reply>,
                                         transfers: seq<Transfer>)
    requires fr.depth <= MAX_CALL_DEPTH
    ensures Total(Loop(P, fr, m, gas, replies, transfers).1) == Total(m)
    decreases Rank(fr.depth), 0, gas
  {
    hide InternalCall, Total, Settle, TransferAllowed;
    var action := P.behaviour(fr.code, fr.storage, fr.msg, gas, replies);
    var left := gas - action.cost;
    if left > 0 {
      match action
      case Finish(_, storage, serializable) =>
      case Raise(_, error) =>
      case TransferOut(_, to, amount) =>
        if TransferAllowed(P, to, amount) {
          LoopConserves(P, fr, m, left, replies + [TransferQueued], transfers + [Transfer(to, amount)]);
        } else {
          LoopConserves(P, fr, m, left, replies + [TransferRefused], transfers);
        }
      case CallContract(_, address, payload, amount) =>
        var (r, m') := InternalCall(P, m, fr.address, address, amount, payload, fr.gasLimit, fr.depth + 1, false);
        CallConserves(P, m, fr.address, address, amount, payload, fr.gasLimit, fr.depth + 1, false);
        LoopConserves(P, fr, m', left, replies + [ReplyTo(r)], transfers);
    }
  }

  lemma {:induction false} ExecuteConserves(P: Params, m: Accounts, address: Address, sender: Address, payload: string,
                                            amount: int, gasLimit: int, depth: nat)
    ensures Total(Execute(P, m, address, sender, payload, amount, gasLimit, depth).1) == Total(m)
    decreases Rank(depth), 1, 0
  {
    hide Loop, Total;
    if depth <= MAX_CALL_DEPTH {
      var m' := Touch(m, address);
      TotalTouch(m, address);
      if HasCode(m', address) {
        LoopConserves(P, FrameFor(m', address, sender, payload, amount, gasLimit, depth), m', gasLimit, [], []);
      }
    }
  }

  /** Value conservation over every call tree: a nested call moves coins but neither makes nor
      loses any; a top-level call brings in exactly its amount, and nothing when it fails. */
  lemma {:induction false} CallConserves(P: Params, m: Accounts, sender: Address, receiver: Address, amount: int,
                                         payload: string, gasLimit: int, depth: nat, top: bool)
    ensures var (r, m') := InternalCall(P, m, sender, receiver, amount, payload, gasLimit, depth, top);
            Total(m') == Total(m) + (if top && r.Done? then amount else 0)
    decreases Rank(depth), 2, 0
  {
    hide Execute, Total, SumOf, Apply, MoveIn, MoveBack;
    if HasCode(m, receiver) && (top || amount <= Lookup(m, sender).balance) {
      var m0 := MoveIn(m, sender, receiver, amount, top);
      var (r, m1) := Execute(P, m0, receiver, sender, payload, amount, gasLimit, depth);
      MoveTotals(m, sender, receiver, amount, top);
      ExecuteConserves(P, m0, receiver, sender, payload, amount, gasLimit, depth);
      MoveTotals(m1, sender, receiver, amount, top);
      if r.Done? {
        ApplyTotal(m1, receiver, r.storage, r.transfers);
      }
    }
  }
}
