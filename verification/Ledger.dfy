/** `State` and `ContractMachine` on the heap: mutable records behind stacked journals, changed
    in place, and proved to do what the account-map functions say. */
module Ledgers {
  import opened Prelude
  import opened AccountMaps
  import opened Calls
  import opened Journal
  import opened Transition

  /** One unit of gas per traced opcode; reaching zero is an out-of-gas error. */
  class GasMeter {
    var gas: int
    const initialGas: int

    constructor (limit: int)
      ensures gas == limit && initialGas == limit
    {
      gas := limit;
      initialGas := limit;
    }

    method Trace(opcodes: Positive) returns (ok: bool)
      modifies this
      ensures ok == (0 < old(gas) - opcodes)
      ensures ok ==> gas == old(gas) - opcodes
    {
      var i := 0;
      while i < opcodes
        invariant 0 <= i <= opcodes && gas == old(gas) - i && (0 < i ==> 0 < gas)
      {
        gas := gas - 1;
        if gas <= 0 {
          return false;
        }
        i := i + 1;
      }
      return true;
    }
  }

  class Ledger {
    const P: Params
    var accounts: Store

    ghost predicate Valid()
      reads this, accounts, accounts.Repr
    {
      accounts.Valid() && this !in accounts.Repr
    }

    constructor (P: Params, accounts: Store)
      requires accounts.Valid()
      ensures Valid() && this.P == P && this.accounts == accounts
    {
      this.P, this.accounts := P, accounts;
    }

    /** `get_account` */
    method GetAccount(address: Address) returns (r: Record)
      requires Valid()
      modifies accounts, accounts.Journals()
      ensures Valid() && accounts.view == Touch(old(accounts.view), address)
      ensures address in accounts.cache && accounts.cache[address] == r && accounts.Grew()
    {
      hide Store.Valid;
      if !accounts.Contains(address) {
        var blank := new Record(address, BLANK);
        accounts.Put(address, blank);
      }
      r := accounts.Get(address);
    }

    method MoveValueIn(sender: Address, receiver: Address, amount: int, top: bool, senderAcc: Record,
                       receiverAcc: Record)
      requires Valid()
      requires sender in accounts.cache && accounts.cache[sender] == senderAcc
      requires receiver in accounts.cache && accounts.cache[receiver] == receiverAcc
      modifies senderAcc, receiverAcc, accounts`view
      ensures Valid() && accounts.view == MoveIn(old(accounts.view), sender, receiver, amount, top)
      ensures accounts.Grew()
    {
      hide Store.Valid;
      if !top {
        accounts.AddBalance(sender, senderAcc, -amount);
      }
      accounts.AddBalance(receiver, receiverAcc, amount);
    }

    method MoveValueBack(sender: Address, receiver: Address, amount: int, top: bool, senderAcc: Record,
                         receiverAcc: Record)
      requires Valid()
      requires sender in accounts.cache && accounts.cache[sender] == senderAcc
      requires receiver in accounts.cache && accounts.cache[receiver] == receiverAcc
      modifies senderAcc, receiverAcc, accounts`view
      ensures Valid() && accounts.view == MoveBack(old(accounts.view), sender, receiver, amount, top)
      ensures accounts.Grew()
    {
      hide Store.Valid;
      accounts.AddBalance(receiver, receiverAcc, -amount);
      if !top {
        accounts.AddBalance(sender, senderAcc, amount);
      }
    }

    method Credit(address: Address, amount: int)
      requires Valid()
      modifies accounts.Writes()
      ensures Valid() && accounts.view == Add(old(accounts.view), address, amount)
      ensures accounts.Grew()
    {
      hide Store.Valid;
      var acc := GetAccount(address);
      accounts.Shows(address);
      accounts.AddBalance(address, acc, amount);
    }

    method PayOut(transfers: seq<Transfer>)
      requires Valid()
      modifies accounts.Writes()
      ensures Valid() && accounts.view == Pay(old(accounts.view), transfers)
      ensures accounts.Grew()
    {
      hide Store.Valid;
      var i := 0;
      while i < |transfers|
        invariant 0 <= i <= |transfers| && Valid()
        invariant accounts.view == Pay(old(accounts.view), transfers[..i])
        invariant accounts.Grew()
      {
        Credit(transfers[i].to, transfers[i].amount);
        assert transfers[..i + 1][..i] == transfers[..i];
        i := i + 1;
      }
      assert transfers[..i] == transfers;
    }

    method ApplyResult(receiver: Address, receiverAcc: Record, storage: Storage, transfers: seq<Transfer>,
                       totalOut: int)
      requires Valid() && receiver in accounts.cache && accounts.cache[receiver] == receiverAcc
      requires totalOut == SumOf(transfers)
      modifies accounts.Writes()
      ensures Valid() && accounts.view == Apply(old(accounts.view), receiver, storage, transfers)
      ensures accounts.Grew()
    {
      hide Store.Valid;
      accounts.Shows(receiver);
      accounts.SetStorage(receiver, receiverAcc, storage);
      accounts.AddBalance(receiver, receiverAcc, -totalOut);
      PayOut(transfers);
    }

    method TransferSum(transfers: seq<Transfer>) returns (total: int)
      ensures total == SumOf(transfers)
    {
      total := 0;
      var i := 0;
      while i < |transfers|
        invariant 0 <= i <= |transfers| && total == SumOf(transfers[..i])
      {
        assert transfers[..i + 1][..i] == transfers[..i];
        total := total + transfers[i].amount;
        i := i + 1;
      }
      assert transfers[..i] == transfers;
    }

    /** `execute_internal_call` */
    method ExecuteInternalCall(sender: Address, receiver: Address, amount: int, payload: string, gasLimit: int,
                               depth: nat, top: bool)
      returns (result: Outcome)
      requires Valid() && sender in accounts.view
      modifies accounts.Writes()
      ensures Valid() && accounts.Grew()
      ensures (result, accounts.view) == InternalCall(P, old(accounts.view), sender, receiver, amount, payload,
                                                      gasLimit, depth, top)
      decreases Rank(depth), 4
    {
      hide Store.Valid, Execute, Loop, MoveIn, Conclude;
      if !accounts.Contains(receiver) {
        return Fail(NO_CONTRACT, gasLimit);
      }
      var receiverAcc := accounts.Get(receiver);
      accounts.Shows(receiver);
      if !Truthy(receiverAcc.code) {
        return Fail(NO_CONTRACT, gasLimit);
      }
      var senderAcc := accounts.Get(sender);
      accounts.Shows(sender);
      assert accounts.Grew();
      if !top && senderAcc.balance < amount {
        return Fail(POOR_CALLER, gasLimit);
      }
      result := CallWithValue(sender, receiver, amount, payload, gasLimit, depth, top, senderAcc, receiverAcc);
    }

    // The part of `execute_internal_call` after its checks.
    method CallWithValue(sender: Address, receiver: Address, amount: int, payload: string, gasLimit: int, depth: nat,
                         top: bool,
                         senderAcc: Record, receiverAcc: Record)
      returns (result: Outcome)
      requires Valid()
      requires sender in accounts.cache && accounts.cache[sender] == senderAcc
      requires receiver in accounts.cache && accounts.cache[receiver] == receiverAcc
      modifies accounts.Writes()
      ensures Valid() && accounts.Grew()
      ensures var (r, m) := Execute(P, MoveIn(old(accounts.view), sender, receiver, amount, top), receiver, sender,
                                    payload, amount, gasLimit, depth);
              (result, accounts.view) == Conclude(m, sender, receiver, amount, top, r)
      decreases Rank(depth), 3
    {
      hide Store.Valid, Execute, Loop, MoveIn, Conclude;
      accounts.Shows(sender);
      accounts.Shows(receiver);
      MoveValueIn(sender, receiver, amount, top, senderAcc, receiverAcc);
      result := RunContract(receiver, sender, payload, amount, gasLimit, depth);
      result := ConcludeCall(sender, receiver, amount, top, senderAcc, receiverAcc, result);
    }

    method ConcludeCall(sender: Address, receiver: Address, amount: int, top: bool, senderAcc: Record,
                        receiverAcc: Record, r: Outcome)
      returns (result: Outcome)
      requires Valid()
      requires sender in accounts.cache && accounts.cache[sender] == senderAcc
      requires receiver in accounts.cache && accounts.cache[receiver] == receiverAcc
      modifies accounts.Writes()
      ensures Valid() && accounts.Grew()
      ensures (result, accounts.view) == Conclude(old(accounts.view), sender, receiver, amount, top, r)
    {
      hide Store.Valid, MoveBack, Apply, SumOf;
      accounts.Shows(sender);
      accounts.Shows(receiver);
      if r.Fail? {
        MoveValueBack(sender, receiver, amount, top, senderAcc, receiverAcc);
        return r;
      }
      var totalOut := TransferSum(r.transfers);
      accounts.Shows(receiver);
      if totalOut > receiverAcc.balance {
        MoveValueBack(sender, receiver, amount, top, senderAcc, receiverAcc);
        return Fail(POOR_CONTRACT, r.gasUsed);
      }
      ApplyResult(receiver, receiverAcc, r.storage, r.transfers, totalOut);
      return r;
    }

    /** `ContractMachine.execute`, up to the start of the body. */
    method RunContract(address: Address, sender: Address, payload: string, amount: int, gasLimit: int, depth: nat)
      returns (result: Outcome)
      requires Valid()
      modifies accounts.Writes()
      ensures Valid() && accounts.Grew()
      ensures (result, accounts.view) == Execute(P, old(accounts.view), address, sender, payload, amount, gasLimit,
                                                 depth)
      decreases Rank(depth), 2
    {
      hide Store.Valid, Loop;
      if depth > MAX_CALL_DEPTH {
        return Fail(TOO_DEEP, gasLimit);
      }
      var account := GetAccount(address);
      accounts.Shows(address);
      if !Truthy(account.code) {
        return Fail(NO_CODE, 0);
      }
      if !P.astAllowed(account.code.value) {
        return Fail(BAD_AST, 0);
      }
      var frame := Frame(address, account.code.value, account.storage, Message(sender, amount, payload), gasLimit,
                         depth);
      result := RunBody(frame);
    }

    ghost predicate Acts(fr: Frame, gas: int, replies: seq<Reply>, action: Action) {
      action == P.behaviour(fr.code, fr.storage, fr.msg, gas, replies)
    }

    lemma UnrollTransfer(fr: Frame, m: Accounts, gas: int, replies: seq<Reply>, transfers: seq<Transfer>,
                         action: Action)
      requires fr.depth <= MAX_CALL_DEPTH && Acts(fr, gas, replies, action) && action.cost < gas && action.TransferOut?
      ensures Loop(P, fr, m, gas, replies, transfers) ==
        if TransferAllowed(P, action.to, action.amount)
        then Loop(P, fr, m, gas - action.cost, replies + [TransferQueued],
                  transfers + [Transfer(action.to, action.amount)])
        else Loop(P, fr, m, gas - action.cost, replies + [TransferRefused], transfers)
    {
    }

    lemma UnrollCall(fr: Frame, m: Accounts, gas: int, replies: seq<Reply>, transfers: seq<Transfer>, action: Action)
      requires fr.depth <= MAX_CALL_DEPTH && Acts(fr, gas, replies, action) && action.cost < gas && action.CallContract?
      ensures var (r, m') := InternalCall(P, m, fr.address, action.address, action.amount, action.payload, fr.gasLimit,
                                          fr.depth + 1, false);
              Loop(P, fr, m, gas, replies, transfers) ==
                Loop(P, fr, m', gas - action.cost, replies + [ReplyTo(r)], transfers)
    {
    }

    lemma UnrollEnd(fr: Frame, m: Accounts, gas: int, replies: seq<Reply>, transfers: seq<Transfer>, action: Action)
      requires fr.depth <= MAX_CALL_DEPTH && Acts(fr, gas, replies, action)
      requires gas <= action.cost || action.Finish? || action.Raise?
      ensures Loop(P, fr, m, gas, replies, transfers) ==
        (if gas <= action.cost then Fail(OUT_OF_GAS, fr.gasLimit)
         else if action.Finish? then Settle(P, fr, gas - action.cost, action.storage, action.serializable, transfers)
         else Fail(action.error, fr.gasLimit - (gas - action.cost)), m)
    {
    }

    /** The message loop of `ContractMachine.execute` and the metered body at its other end. */
    method RunBody(frame: Frame) returns (result: Outcome)
      requires Valid() && frame.depth <= MAX_CALL_DEPTH && frame.address in accounts.cache
      modifies accounts.Writes()
      ensures Valid() && accounts.Grew()
      ensures (result, accounts.view) == Loop(P, frame, old(accounts.view), frame.gasLimit, [], [])
      decreases Rank(frame.depth), 1
    {
      hide Store.Valid, InternalCall, TransferAllowed, Settle, Loop;
      var meter := new GasMeter(frame.gasLimit);
      var replies: seq<Reply>, transfers: seq<Transfer> := [], [];
      ghost var ending := Loop(P, frame, accounts.view, frame.gasLimit, [], []);
      while true
        invariant Valid() && accounts.Grew() && frame.address in accounts.cache
        invariant fresh(meter) && meter !in accounts.Repr && meter.initialGas == frame.gasLimit
        invariant Loop(P, frame, accounts.view, meter.gas, replies, transfers) == ending
        decreases meter.gas
      {
        var action := P.behaviour(frame.code, frame.storage, frame.msg, meter.gas, replies);
        ghost var gas := meter.gas;
        var ok := meter.Trace(action.cost);
        if !ok {
          UnrollEnd(frame, accounts.view, gas, replies, transfers, action);
          return Fail(OUT_OF_GAS, frame.gasLimit);
        }
        match action
        case Finish(_, storage, serializable) =>
          UnrollEnd(frame, accounts.view, gas, replies, transfers, action);
          return Settle(P, frame, meter.gas, storage, serializable, transfers);
        case Raise(_, error) =>
          UnrollEnd(frame, accounts.view, gas, replies, transfers, action);
          return Fail(error, meter.initialGas - meter.gas);
        case TransferOut(_, to, amount) =>
          UnrollTransfer(frame, accounts.view, gas, replies, transfers, action);
          if TransferAllowed(P, to, amount) {
            transfers := transfers + [Transfer(to, amount)];
            replies := replies + [TransferQueued];
          } else {
            replies := replies + [TransferRefused];
          }
        case CallContract(_, address, payload, amount) =>
          var reply := AnswerCall(frame, action, gas, replies, transfers);
          replies := replies + [reply];
      }
    }

    // The reply to a sub-call; the caller's loop goes on from there.
    method AnswerCall(frame: Frame, action: Action, ghost gas: int, ghost replies: seq<Reply>,
                      ghost transfers: seq<Transfer>)
      returns (reply: Reply)
      requires Valid() && frame.depth <= MAX_CALL_DEPTH && frame.address in accounts.cache
      requires Acts(frame, gas, replies, action) && action.cost < gas && action.CallContract?
      modifies accounts.Writes()
      ensures Valid() && accounts.Grew()
      ensures Loop(P, frame, accounts.view, gas - action.cost, replies + [reply], transfers)
           == Loop(P, frame, old(accounts.view), gas, replies, transfers)
      decreases Rank(frame.depth), 0
    {
      hide Store.Valid, InternalCall, Loop;
      UnrollCall(frame, accounts.view, gas, replies, transfers, action);
      accounts.Shows(frame.address);
      var sub := ExecuteInternalCall(frame.address, action.address, action.amount, action.payload, frame.gasLimit,
                                     frame.depth + 1, false);
      reply := ReplyTo(sub);
    }

    // ---- transactions --------------------------------------------------------------------

    /** `verify_transaction_logic` */
    method VerifyTransactionLogic(tx: Tx) returns (status: Status)
      requires Valid()
      modifies accounts, accounts.Journals()
      ensures Valid() && accounts.Grew()
      ensures (status, accounts.view) == VerifyLogic(P, old(accounts.view), tx)
    {
      hide Store.Valid;
      if !P.signed(tx) || tx.chainId != P.chainId {
        return INVALID;
      }
      var senderAcc := GetAccount(tx.sender);
      accounts.Shows(tx.sender);
      if senderAcc.balance < TotalCost(tx) || senderAcc.nonce != tx.nonce {
        return FAILED;
      }
      return VALID;
    }

    // The sender's record pays and its nonce advances.
    method ChargeSender(tx: Tx, paid: int)
      requires Valid() && tx.sender in accounts.view
      modifies accounts.Writes()
      ensures Valid() && accounts.Grew() && tx.sender in accounts.cache
      ensures accounts.view == Charge(old(accounts.view), tx, paid)
    {
      hide Store.Valid;
      var senderAcc := accounts.Get(tx.sender);
      accounts.Shows(tx.sender);
      accounts.AddBalance(tx.sender, senderAcc, -paid);
      accounts.BumpNonce(tx.sender, senderAcc);
    }

    method RefundGas(tx: Tx, gasUsed: int)
      requires Valid() && tx.sender in accounts.view
      modifies accounts.Writes()
      ensures Valid() && accounts.Grew()
      ensures accounts.view == Refund(old(accounts.view), tx, gasUsed)
    {
      hide Store.Valid;
      if tx.gasLimit - gasUsed > 0 {
        var senderAcc := accounts.Get(tx.sender);
        accounts.Shows(tx.sender);
        accounts.AddBalance(tx.sender, senderAcc, (tx.gasLimit - gasUsed) * tx.feePerGas);
      }
    }

    /** `create_contract`: a new record replaces whatever was filed at the address. */
    method CreateContractAccount(address: Address, code: Option<string>, initialBalance: int)
      requires Valid()
      modifies accounts.Writes()
      ensures Valid() && accounts.Renewed() && accounts.BelowRenewed()
      ensures accounts.view == CreateContract(old(accounts.view), address, code, initialBalance)
    {
      hide Store.Valid;
      var existingBalance := 0;
      if accounts.Contains(address) {
        var existing := accounts.Get(address);
        accounts.Shows(address);
        existingBalance := existing.balance;
      }
      var r := new Record(address, Account(existingBalance + initialBalance, 0, code, map[]));
      accounts.Put(address, r);
    }

    // What a transaction does inside its journal: `ok` tells whether it is to be committed.
    method AttemptDeploy(tx: Tx) returns (receipt: Receipt, ok: bool)
      requires Valid() && tx.sender in accounts.view
      modifies accounts.Writes()
      ensures Valid() && accounts.Renewed() && accounts.BelowRenewed()
      ensures var (r, m) := Deploy(P, old(accounts.view), tx);
              r == receipt && (if ok then m == accounts.view
                               else m == Charge(old(accounts.view), tx, r.gasUsed * tx.feePerGas))
    {
      hide Store.Valid, HasCode, CodeGas, Refund;
      ChargeSender(tx, TotalCost(tx));
      ghost var paid := accounts.view;
      var address := P.contractAddress(tx.sender, tx.nonce);
      if CodeGas(tx) > tx.gasLimit {
        return Receipt(P.txId(tx), 0, tx.gasLimit, CODE_OUT_OF_GAS, [], ""), false;
      }
      var taken := AccountHasCode(address);
      if taken {
        return Receipt(P.txId(tx), 0, tx.gasLimit, COLLISION, [], ""), false;
      }
      CreateContractAccount(address, tx.data, tx.amount);
      RefundGas(tx, CodeGas(tx));
      return Receipt(P.txId(tx), 1, CodeGas(tx), "", [], address), true;
    }

    method AccountHasCode(address: Address) returns (has: bool)
      requires Valid()
      modifies accounts.Writes()
      ensures Valid() && accounts.Grew() && accounts.view == old(accounts.view)
      ensures has == HasCode(accounts.view, address)
    {
      hide Store.Valid;
      if accounts.Contains(address) {
        var existing := accounts.Get(address);
        accounts.Shows(address);
        return Truthy(existing.code);
      }
      return false;
    }

    method AttemptCall(tx: Tx) returns (receipt: Receipt, ok: bool)
      requires Valid() && tx.sender in accounts.view && Truthy(tx.receiver) && Truthy(tx.data)
      modifies accounts.Writes()
      ensures Valid() && accounts.Renewed() && accounts.BelowRenewed()
      ensures var (r, m) := CallTx(P, old(accounts.view), tx);
              r == receipt && (if ok then m == accounts.view
                               else m == Charge(old(accounts.view), tx, r.gasUsed * tx.feePerGas))
    {
      hide Store.Valid, InternalCall, Refund;
      ChargeSender(tx, TotalCost(tx));
      var r := ExecuteInternalCall(tx.sender, tx.receiver.value, tx.amount, tx.data.value, tx.gasLimit, 0, true);
      if r.Fail? {
        return Receipt(P.txId(tx), 0, r.gasUsed, r.error, [], ""), false;
      }
      accounts.Shows(tx.sender);
      RefundGas(tx, r.gasUsed);
      return Receipt(P.txId(tx), 1, r.gasUsed, "", [], ""), true;
    }

    method AttemptTransfer(tx: Tx) returns (receipt: Receipt)
      requires Valid() && tx.sender in accounts.view && Truthy(tx.receiver) && !Truthy(tx.data)
      modifies accounts.Writes()
      ensures Valid() && accounts.Renewed() && accounts.BelowRenewed()
      ensures (receipt, accounts.view) == ApplyValidated(P, old(accounts.view), tx)
    {
      hide Store.Valid, Charge, Add;
      ChargeSender(tx, TotalCost(tx));
      Credit(tx.receiver.value, tx.amount);
      return Receipt(P.txId(tx), 1, tx.gasLimit, "", [], "");
    }

    method Attempt(tx: Tx) returns (receipt: Receipt, ok: bool)
      requires Valid() && tx.sender in accounts.view
      modifies accounts.Writes()
      ensures Valid() && accounts.Renewed() && accounts.BelowRenewed()
      ensures var (r, m) := ApplyValidated(P, old(accounts.view), tx);
              r == receipt && (if ok then m == accounts.view
                               else m == Charge(old(accounts.view), tx, r.gasUsed * tx.feePerGas))
    {
      hide Store.Valid, Charge, Deploy, CallTx;
      ok := true;
      if !Truthy(tx.receiver) {
        receipt, ok := AttemptDeploy(tx);
      } else if Truthy(tx.data) {
        receipt, ok := AttemptCall(tx);
      } else {
        receipt := AttemptTransfer(tx);
      }
    }

    /** `_apply_validated_tx`: run on a fresh journal, then commit it, or drop it and charge for
        the gas. */
    method ApplyValidatedTx(tx: Tx) returns (receipt: Receipt)
      requires Valid() && tx.sender in accounts.view
      modifies `accounts, accounts.Writes()
      ensures Valid() && accounts == old(accounts) && accounts.Renewed()
      ensures (receipt, accounts.view) == ApplyValidated(P, old(accounts.view), tx)
    {
      hide Store.Valid, Charge, ApplyValidated;
      var original := accounts;
      var journal := new Store.Over(original);
      accounts := journal;
      var ok;
      receipt, ok := Attempt(tx);
      if ok {
        journal.Commit();
        accounts := original;
      } else {
        journal.Rollback();
        accounts := original;
        ChargeSender(tx, receipt.gasUsed * tx.feePerGas);
      }
    }

    /** `validate_and_apply_with_status` */
    method ValidateAndApply(tx: Tx) returns (status: Status, receipt: Option<Receipt>)
      requires Valid()
      modifies `accounts, accounts.Writes()
      ensures Valid() && accounts == old(accounts) && accounts.Renewed()
      ensures TxResult(status, receipt, accounts.view) == ApplyTx(P, old(accounts.view), tx)
      ensures status == VALID <==> receipt.Some?
    {
      hide Store.Valid, ApplyValidated;
      if !AmountsWellFormed(tx) {
        return MALFORMED, None;
      }
      status := VerifyTransactionLogic(tx);
      if status != VALID {
        return status, None;
      }
      var r := ApplyValidatedTx(tx);
      return VALID, Some(r);
    }

    /** `credit_mining_reward` */
    method CreditMiningReward(miner: Address, reward: int)
      requires Valid()
      modifies accounts.Writes()
      ensures Valid() && accounts.Grew()
      ensures accounts.view == Add(old(accounts.view), miner, reward)
    {
      Credit(miner, reward);
    }

    /** `copy`: an independent state that journals its changes over this one. */
    method Copy() returns (s: Ledger)
      requires Valid()
      ensures s.Valid() && fresh(s) && s.P == P && fresh(s.accounts) && s.accounts.backing == accounts
      ensures s.accounts.view == accounts.view && s.accounts.records == {} && s.accounts.cache == map[]
      ensures s.accounts.Journals() == {s.accounts} + accounts.Journals()
      ensures fresh(s.accounts.Repr - accounts.Repr)
    {
      var journal := new Store.Over(accounts);
      s := new Ledger(P, journal);
    }

    /** `snapshot` */
    method Snapshot() returns (m: Accounts)
      requires Valid()
      ensures m == accounts.view
    {
      m := accounts.Items();
    }

    /** `restore` */
    method Restore(m: Accounts)
      modifies `accounts
      ensures Valid() && fresh(accounts) && fresh(accounts.Repr) && accounts.backing == null && accounts.view == m
    {
      accounts := new Store.Dict(m);
    }

    /** `state_root` */
    method Root() returns (root: Hash)
      requires Valid()
      ensures root == StateRoot(P, accounts.view)
    {
      var items := accounts.Items();
      root := StateRoot(P, items);
    }
  }
}
