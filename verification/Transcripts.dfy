/** What a contract body is asked and told: every call that gets as far as its body follows a
    transcript of questions to the body and answers to it, and ends as the last answer says. */
module Transcripts {
  import opened Prelude
  import opened AccountMaps
  import opened Calls
  import opened CallLaws

  // One contract body at work.
  datatype Body = Body(self: Address, code: string, storage: Storage, msg: Message, gasLimit: int, depth: nat)

  // What the body did with the gas it had left, on which accounts, and what it was told.
  datatype Step = Step(gas: int, m: Accounts, action: Action, reply: Reply)

  function Heard(steps: seq<Step>): seq<Reply> {
    if steps == [] then [] else Heard(steps[..|steps| - 1]) + [steps[|steps| - 1].reply]
  }

  // The transfers that were queued, in order.
  function Queued(steps: seq<Step>): seq<Transfer> {
    if steps == [] then [] else
    var front, s := Queued(steps[..|steps| - 1]), steps[|steps| - 1];
    if s.action.TransferOut? && s.reply == TransferQueued then front + [Transfer(s.action.to, s.action.amount)]
    else front
  }

  /** The answer to one action, and the accounts after it. A transfer is queued if it is positive
      and goes to 40 or 64 hexadecimal digits. A sub-call is made by the contract itself, one level
      deeper, with the whole gas limit of its caller. */
  ghost predicate Answers(P: Params, body: Body, s: Step, next: Accounts) {
    match s.action
    case TransferOut(_, to, amount) =>
      && next == s.m
      && s.reply == if 0 < amount && (|to| == 40 || |to| == 64) && P.parsesAsHex(to) then TransferQueued
                    else TransferRefused
    case CallContract(_, address, payload, amount) =>
      var (r, m') := InternalCall(P, s.m, body.self, address, amount, payload, body.gasLimit, body.depth + 1, false);
      next == m' && s.reply == (match r case Done(_, _, _) => CallDone case Fail(error, _) => CallFailed(error))
    case _ => false
  }

  /** From `start` with the whole gas limit the body takes these steps, each the oracle's answer to
      its code, storage and message, the gas left and all replies so far; then `gas` is left and
      the accounts are m. */
  ghost predicate Transcript(P: Params, body: Body, start: Accounts, steps: seq<Step>, gas: int, m: Accounts) {
    if steps == [] then gas == body.gasLimit && m == start else
    var front, s := steps[..|steps| - 1], steps[|steps| - 1];
    && Transcript(P, body, start, front, s.gas, s.m)
    && s.action == P.behaviour(body.code, body.storage, body.msg, s.gas, Heard(front))
    && gas == s.gas - s.action.cost && 0 < gas
    && Answers(P, body, s, m)
  }

  /** How a body ends after its last step. */
  ghost predicate Ends(P: Params, body: Body, steps: seq<Step>, gas: int, r: Outcome) {
    var action := P.behaviour(body.code, body.storage, body.msg, gas, Heard(steps));
    var left := gas - action.cost;
    if left <= 0 then r == Fail("Out of gas!", body.gasLimit) else
    match action
    case Raise(_, error) => r == Fail(error, body.gasLimit - left)
    case Finish(_, storage, serializable) =>
      var used := body.gasLimit - left;
      var total := used + 10 * P.storageBytes(storage);
      r == if !serializable then Fail("Storage not JSON serializable", used)
           else if body.gasLimit < total then Fail("Out of gas (Storage size exceeded limit)", body.gasLimit)
           else Done(total, storage, Queued(steps))
    case _ => false
  }

  function BodyOf(fr: Frame): Body {
    Body(fr.address, fr.code, fr.storage, fr.msg, fr.gasLimit, fr.depth)
  }

  lemma {:induction false} LoopTranscript(P: Params, fr: Frame, start: Accounts, m: Accounts, gas: int,
                                          sofar: seq<Step>) returns (steps: seq<Step>, left: int, end: Accounts)
    requires fr.depth <= MAX_CALL_DEPTH && Transcript(P, BodyOf(fr), start, sofar, gas, m)
    ensures Transcript(P, BodyOf(fr), start, steps, left, end)
    ensures var (r, m') := Loop(P, fr, m, gas, Heard(sofar), Queued(sofar));
            Ends(P, BodyOf(fr), steps, left, r) && m' == end
    decreases gas
  {
    hide InternalCall;
    var action := P.behaviour(fr.code, fr.storage, fr.msg, gas, Heard(sofar));
    var next := gas - action.cost;
    if next <= 0 || action.Finish? || action.Raise? {
      steps, left, end := sofar, gas, m;
    } else {
      var s, m';
      match action {
        case TransferOut(_, to, amount) =>
          s := Step(gas, m, action, if TransferAllowed(P, to, amount) then TransferQueued else TransferRefused);
          m' := m;
        case CallContract(_, address, payload, amount) =>
          var (r, after) := InternalCall(P, m, fr.address, address, amount, payload, fr.gasLimit, fr.depth + 1, false);
          s := Step(gas, m, action, ReplyTo(r));
          m' := after;
      }
      assert (sofar + [s])[..|sofar|] == sofar;
      steps, left, end := LoopTranscript(P, fr, start, m', next, sofar + [s]);
    }
  }

  // How a call ends whose body ended with `inner` on accounts m.
  function Concluded(m: Accounts, sender: Address, receiver: Address, amount: int, top: bool, inner: Outcome)
    : (Outcome, Accounts)
  {
    if inner.Fail? then (inner, MoveBack(m, sender, receiver, amount, top))
    else if Lookup(m, receiver).balance < SumOf(inner.transfers) then
      (Fail("Insufficient contract balance for transfers", inner.gasUsed), MoveBack(m, sender, receiver, amount, top))
    else (inner, Apply(m, receiver, inner.storage, inner.transfers))
  }

  /** Every call that gets as far as its body follows a transcript: the body is asked with its own
      code and storage and with a message that names the caller, the amount and the payload, and
      the call ends as the body does. */
  lemma CallTranscript(P: Params, m: Accounts, sender: Address, receiver: Address, amount: int, payload: string,
                       gasLimit: int, depth: nat, top: bool)
    returns (steps: seq<Step>, left: int, end: Accounts, inner: Outcome)
    requires HasCode(m, receiver) && (top || amount <= Lookup(m, sender).balance)
    requires depth <= 10 && P.astAllowed(Lookup(m, receiver).code.value)
    ensures var contract := Lookup(m, receiver);
            var body :=
              Body(receiver, contract.code.value, contract.storage, Message(sender, amount, payload), gasLimit, depth);
            && Transcript(P, body, MoveIn(m, sender, receiver, amount, top), steps, left, end)
            && Ends(P, body, steps, left, inner)
            && InternalCall(P, m, sender, receiver, amount, payload, gasLimit, depth, top)
            == Concluded(end, sender, receiver, amount, top, inner)
  {
    hide Loop, Ends;
    var m0 := MoveIn(m, sender, receiver, amount, top);
    assert Touch(m0, receiver) == m0;
    assert Lookup(m0, receiver).code == Lookup(m, receiver).code;
    assert Lookup(m0, receiver).storage == Lookup(m, receiver).storage;
    var fr := FrameFor(m0, receiver, sender, payload, amount, gasLimit, depth);
    steps, left, end := LoopTranscript(P, fr, m0, m0, gasLimit, []);
    inner := Loop(P, fr, m0, gasLimit, [], []).0;
  }

  /** The calls that do not get as far as a body: who is told what, and what is left. */
  lemma CallRefusals(P: Params, m: Accounts, sender: Address, receiver: Address, amount: int, payload: string,
                     gasLimit: int, depth: nat, top: bool)
    ensures var (r, m') := InternalCall(P, m, sender, receiver, amount, payload, gasLimit, depth, top);
            var contract := Lookup(m, receiver);
            if contract.code == None || contract.code == Some("") then
              r == Fail("Contract not found", gasLimit) && m' == m
            else if !top && Lookup(m, sender).balance < amount then
              r == Fail("Insufficient balance", gasLimit) && m' == m
            else if 10 < depth then
              r == Fail("Max call depth exceeded", gasLimit) && Same(m, m')
            else
              !P.astAllowed(contract.code.value) ==> r == Fail("AST Validation Failed", 0) && Same(m, m')
  {
    hide Loop;
    var m0 := MoveIn(m, sender, receiver, amount, top);
    var m1 := MoveBack(m0, sender, receiver, amount, top);
    assert Touch(m0, receiver) == m0;
    assert Lookup(m0, receiver).code == Lookup(m, receiver).code;
    forall k ensures Lookup(m, k) == Lookup(m1, k) {
      MoveThereAndBack(m, sender, receiver, amount, top, k);
    }
  }

  /** The three ways in which a call moves coins, account by account: in, back after a failure, and
      on after a success, when the contract's storage is replaced too. */
  lemma MovesEffect(m: Accounts, sender: Address, receiver: Address, amount: int, top: bool, storage: Storage,
                    transfers: seq<Transfer>, k: Address)
    ensures var paid := if k == sender && !top then amount else 0;
            var got := if k == receiver then amount else 0;
            var (acc, sum) := (Lookup(m, k), if k == receiver then SumOf(transfers) else 0);
            && Lookup(MoveIn(m, sender, receiver, amount, top), k) == acc.(balance := acc.balance - paid + got)
            && Lookup(MoveBack(m, sender, receiver, amount, top), k) == acc.(balance := acc.balance + paid - got)
            && Lookup(Apply(m, receiver, storage, transfers), k) ==
               acc.(balance := acc.balance - sum + PaidTo(transfers, k),
                    storage := if k == receiver then storage else acc.storage)
  {
    hide SumOf, Pay, PaidTo;
    PayLookup(Add(SetStorage(m, receiver, storage), receiver, -SumOf(transfers)), transfers, k);
  }

  // ---- single questions ------------------------------------------------------------------

  lemma {:induction false} FirstStep(P: Params, body: Body, start: Accounts, steps: seq<Step>, gas: int, m: Accounts)
    requires Transcript(P, body, start, steps, gas, m) && steps != []
    ensures steps[0].action == P.behaviour(body.code, body.storage, body.msg, body.gasLimit, [])
    ensures steps[0].m == start && steps[0].gas == body.gasLimit
    ensures steps[0].action.CallContract? || steps[0].action.TransferOut?
    decreases |steps|
  {
    var front := steps[..|steps| - 1];
    if front == [] {
      assert Heard(front) == [];
    } else {
      FirstStep(P, body, start, front, steps[|steps| - 1].gas, steps[|steps| - 1].m);
    }
  }

  /** A body that ends at once: the action it takes when asked with the caller's message and the
      whole gas limit dictates error, storage and gas. */
  lemma EndsAtOnce(P: Params, m: Accounts, sender: Address, receiver: Address, amount: int, payload: string,
                   gasLimit: int, depth: nat, top: bool)
    requires HasCode(m, receiver) && (top || amount <= Lookup(m, sender).balance)
    requires depth <= 10 && P.astAllowed(Lookup(m, receiver).code.value)
    ensures var contract := Lookup(m, receiver);
            var action :=
              P.behaviour(contract.code.value, contract.storage, Message(sender, amount, payload), gasLimit, []);
            var (r, m') := InternalCall(P, m, sender, receiver, amount, payload, gasLimit, depth, top);
            && (gasLimit <= action.cost ==> r == Fail("Out of gas!", gasLimit))
            && (action.cost < gasLimit && action.Raise? ==> r == Fail(action.error, action.cost))
            && (action.cost < gasLimit && action.Finish? && !action.serializable ==>
                  r == Fail("Storage not JSON serializable", action.cost))
            && (action.cost < gasLimit && action.Finish? && action.serializable ==>
                  var total := action.cost + 10 * P.storageBytes(action.storage);
                  var held := contract.balance + if sender == receiver && !top then 0 else amount;
                  if gasLimit < total then r == Fail("Out of gas (Storage size exceeded limit)", gasLimit)
                  else if held < 0 then r == Fail("Insufficient contract balance for transfers", total)
                  else r == Done(total, action.storage, []) && Lookup(m', receiver).storage == action.storage)
  {
    hide InternalCall, MoveIn, MoveBack, Apply;
    var steps, left, end, inner := CallTranscript(P, m, sender, receiver, amount, payload, gasLimit, depth, top);
    var contract := Lookup(m, receiver);
    var body :=
      Body(receiver, contract.code.value, contract.storage, Message(sender, amount, payload), gasLimit, depth);
    if steps != [] {
      FirstStep(P, body, MoveIn(m, sender, receiver, amount, top), steps, left, end);
      FirstStepLeavesGas(P, body, MoveIn(m, sender, receiver, amount, top), steps, left, end);
    } else {
      assert Heard([]) == [] && Queued([]) == [] && SumOf([]) == 0;
      MovesEffect(m, sender, receiver, amount, top, contract.storage, [], receiver);
      if inner.Done? { MovesEffect(end, sender, receiver, amount, top, inner.storage, [], receiver); }
    }
  }

  lemma {:induction false} FirstStepLeavesGas(P: Params, body: Body, start: Accounts, steps: seq<Step>, gas: int,
                                              m: Accounts)
    requires Transcript(P, body, start, steps, gas, m) && steps != []
    ensures steps[0].action.cost < steps[0].gas
    decreases |steps|
  {
    var front := steps[..|steps| - 1];
    if front != [] {
      FirstStepLeavesGas(P, body, start, front, steps[|steps| - 1].gas, steps[|steps| - 1].m);
    }
  }

  /** One level down: the body of a sub-call is asked with a message from the calling contract,
      with the sub-call's amount and payload, and with the caller's whole gas limit; what it ends
      with is what the caller is told. */
  lemma SubCallTranscript(P: Params, body: Body, s: Step, next: Accounts)
    returns (steps: seq<Step>, left: int, end: Accounts, inner: Outcome)
    requires Answers(P, body, s, next) && s.action.CallContract? && body.depth < 10
    requires HasCode(s.m, s.action.address) && s.action.amount <= Lookup(s.m, body.self).balance
    requires P.astAllowed(Lookup(s.m, s.action.address).code.value)
    ensures var (address, amount) := (s.action.address, s.action.amount);
            var callee := Lookup(s.m, address);
            var sub := Body(address, callee.code.value, callee.storage, Message(body.self, amount, s.action.payload),
                            body.gasLimit, body.depth + 1);
            && Transcript(P, sub, MoveIn(s.m, body.self, address, amount, false), steps, left, end)
            && Ends(P, sub, steps, left, inner)
            && var (r, m') := Concluded(end, body.self, address, amount, false, inner);
            next == m' && s.reply == (match r case Done(_, _, _) => CallDone case Fail(error, _) => CallFailed(error))
  {
    hide InternalCall, Transcript, Ends, MoveIn, Concluded;
    steps, left, end, inner := CallTranscript(P, s.m, body.self, s.action.address, s.action.amount, s.action.payload,
                                              body.gasLimit, body.depth + 1, false);
  }
}
