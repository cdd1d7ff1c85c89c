/** The ledger transition on account values: one transaction (`minichain/state.py`), and the
    laws of gas, supply, nonces and rejection. */
module Transition {
  import opened Prelude
  import opened AccountMaps
  import opened Calls
  import opened CallLaws
  import opened Solvency

  const CODE_OUT_OF_GAS := "Out of gas (Code size exceeded limit)"
  const COLLISION := "Contract collision"

  predicate AmountsWellFormed(tx: Tx) {
    0 <= tx.amount && 0 <= tx.gasLimit && 0 <= tx.feePerGas
  }

  function TotalCost(tx: Tx): int {
    tx.amount + tx.gasLimit * tx.feePerGas
  }

  /** `verify_transaction_logic`; looking the sender up may create a blank record. */
  function VerifyLogic(P: Params, m: Accounts, tx: Tx): (Status, Accounts) {
    if !P.signed(tx) || tx.chainId != P.chainId then (INVALID, m) else
    var m' := Touch(m, tx.sender);
    if m'[tx.sender].balance < TotalCost(tx) || m'[tx.sender].nonce != tx.nonce then (FAILED, m')
    else (VALID, m')
  }

  // The sender pays `paid` and its nonce advances.
  function Charge(m: Accounts, tx: Tx, paid: int): Accounts {
    var acc := Lookup(m, tx.sender);
    m[tx.sender := acc.(balance := acc.balance - paid, nonce := acc.nonce + 1)]
  }

  // `rollback_and_refund`: the journal is dropped, only the gas is paid.
  function Rejected(P: Params, m: Accounts, tx: Tx, error: string, gasUsed: int): (Receipt, Accounts) {
    (Receipt(P.txId(tx), 0, gasUsed, error, [], ""), Charge(m, tx, gasUsed * tx.feePerGas))
  }

  // Unused gas goes back to the sender.
  function Refund(m: Accounts, tx: Tx, gasUsed: int): Accounts {
    if tx.gasLimit - gasUsed > 0 then Add(m, tx.sender, (tx.gasLimit - gasUsed) * tx.feePerGas) else m
  }

  function CodeGas(tx: Tx): int {
    (if Truthy(tx.data) then Utf8Size(tx.data.value) else 0) * GAS_PER_BYTE
  }

  function CreateContract(m: Accounts, address: Address, code: Option<string>, amount: int): Accounts {
    m[address := Account(Lookup(m, address).balance + amount, 0, code, map[])]
  }

  function Deploy(P: Params, m: Accounts, tx: Tx): (Receipt, Accounts) {
    var paid := Charge(m, tx, TotalCost(tx));
    var address := P.contractAddress(tx.sender, tx.nonce);
    if CodeGas(tx) > tx.gasLimit then Rejected(P, m, tx, CODE_OUT_OF_GAS, tx.gasLimit)
    else if HasCode(paid, address) then Rejected(P, m, tx, COLLISION, tx.gasLimit)
    else (Receipt(P.txId(tx), 1, CodeGas(tx), "", [], address),
          Refund(CreateContract(paid, address, tx.data, tx.amount), tx, CodeGas(tx)))
  }

  // The top-level call runs after the sender has paid for everything in advance.
  function TopCall(P: Params, m: Accounts, tx: Tx): (Outcome, Accounts)
    requires Truthy(tx.receiver) && Truthy(tx.data)
  {
    InternalCall(P, Charge(m, tx, TotalCost(tx)), tx.sender, tx.receiver.value, tx.amount, tx.data.value, tx.gasLimit,
                 0, true)
  }

  function FinishCall(P: Params, m: Accounts, tx: Tx, r: Outcome, after: Accounts): (Receipt, Accounts) {
    if r.Fail? then Rejected(P, m, tx, r.error, r.gasUsed)
    else (Receipt(P.txId(tx), 1, r.gasUsed, "", [], ""), Refund(after, tx, r.gasUsed))
  }

  function CallTx(P: Params, m: Accounts, tx: Tx): (Receipt, Accounts)
    requires Truthy(tx.receiver) && Truthy(tx.data)
  {
    var (r, after) := TopCall(P, m, tx);
    FinishCall(P, m, tx, r, after)
  }

  /** `_apply_validated_tx`: deployment, contract call or plain transfer. */
  function ApplyValidated(P: Params, m: Accounts, tx: Tx): (Receipt, Accounts) {
    if !Truthy(tx.receiver) then Deploy(P, m, tx)
    else if Truthy(tx.data) then CallTx(P, m, tx)
    else (Receipt(P.txId(tx), 1, tx.gasLimit, "", [], ""),
          Add(Charge(m, tx, TotalCost(tx)), tx.receiver.value, tx.amount))
  }

  datatype TxResult = TxResult(status: Status, receipt: Option<Receipt>, accounts: Accounts)

  /** `validate_and_apply_with_status` */
  function ApplyTx(P: Params, m: Accounts, tx: Tx): TxResult {
    if !AmountsWellFormed(tx) then TxResult(MALFORMED, None, m) else
    var (status, m') := VerifyLogic(P, m, tx);
    if status != VALID then TxResult(status, None, m') else
    var (receipt, m'') := ApplyValidated(P, m', tx);
    TxResult(VALID, Some(receipt), m'')
  }

  // ---- laws of one transaction -----------------------------------------------------------

  lemma TopCallGas(P: Params, m: Accounts, tx: Tx)
    requires Truthy(tx.receiver) && Truthy(tx.data) && 0 <= tx.gasLimit
    ensures GasBounded(TopCall(P, m, tx).0, tx.gasLimit)
  {
    CallGas(P, Charge(m, tx, TotalCost(tx)), tx.sender, tx.receiver.value, tx.amount, tx.data.value, tx.gasLimit, 0,
            true);
  }

  /** The verdict on a transaction, in terms of the state before it. */
  lemma TxVerdict(P: Params, m: Accounts, tx: Tx)
    ensures var (status, acc) := (ApplyTx(P, m, tx).status, Lookup(m, tx.sender));
            var wellFormed := 0 <= tx.amount && 0 <= tx.gasLimit && 0 <= tx.feePerGas;
            var genuine := P.signed(tx) && tx.chainId == P.chainId;
            var covered := tx.amount + tx.gasLimit * tx.feePerGas <= acc.balance && tx.nonce == acc.nonce;
            && (status == MALFORMED <==> !wellFormed)
            && (status == INVALID <==> wellFormed && !genuine)
            && (status == FAILED <==> wellFormed && genuine && !covered)
            && (status == VALID <==> wellFormed && genuine && covered)
            && (status != VALID <==> ApplyTx(P, m, tx).receipt == None)
  {
    hide ApplyValidated;
  }

  /** A valid transaction names its sender's current nonce and is covered by its balance; its
      receipt carries its id and gas between zero and its limit. */
  lemma TxReceipt(P: Params, m: Accounts, tx: Tx)
    requires ApplyTx(P, m, tx).status == VALID
    ensures P.signed(tx) && tx.nonce == Lookup(m, tx.sender).nonce && TotalCost(tx) <= Lookup(m, tx.sender).balance
    ensures var receipt := ApplyTx(P, m, tx).receipt.value;
            receipt.txHash == P.txId(tx) && receipt.logs == [] && 0 <= receipt.gasUsed <= tx.gasLimit
  {
    if Truthy(tx.receiver) && Truthy(tx.data) {
      TopCallGas(P, Touch(m, tx.sender), tx);
    }
  }

  lemma ChargeTotal(m: Accounts, tx: Tx, paid: int)
    ensures Total(Charge(m, tx, paid)) == Total(m) - paid
  {
    var acc := Lookup(m, tx.sender);
    TotalPut(m, tx.sender, acc.(balance := acc.balance - paid, nonce := acc.nonce + 1));
  }

  lemma RefundTotal(m: Accounts, tx: Tx, gasUsed: int)
    requires gasUsed <= tx.gasLimit
    ensures Total(Refund(m, tx, gasUsed)) == Total(m) + (tx.gasLimit - gasUsed) * tx.feePerGas
  {
    TotalAdd(m, tx.sender, (tx.gasLimit - gasUsed) * tx.feePerGas);
  }

  lemma GasSplit(limit: int, used: int, fee: int)
    ensures limit * fee - (limit - used) * fee == used * fee
  {
  }

  lemma RejectedTotal(P: Params, m: Accounts, tx: Tx, error: string, gasUsed: int)
    ensures Total(Rejected(P, m, tx, error, gasUsed).1) == Total(m) - gasUsed * tx.feePerGas
  {
    ChargeTotal(m, tx, gasUsed * tx.feePerGas);
  }

  lemma DeployTotal(P: Params, m: Accounts, tx: Tx)
    ensures var (r, m') := Deploy(P, m, tx);
            Total(m') == Total(m) - r.gasUsed * tx.feePerGas
  {
    hide Total, Utf8Size, CodeGas, Charge, Refund;
    var paid := Charge(m, tx, TotalCost(tx));
    var address := P.contractAddress(tx.sender, tx.nonce);
    if CodeGas(tx) > tx.gasLimit {
      RejectedTotal(P, m, tx, CODE_OUT_OF_GAS, tx.gasLimit);
    } else if HasCode(paid, address) {
      RejectedTotal(P, m, tx, COLLISION, tx.gasLimit);
    } else {
      var created := CreateContract(paid, address, tx.data, tx.amount);
      ChargeTotal(m, tx, TotalCost(tx));
      TotalPut(paid, address, created[address]);
      RefundTotal(created, tx, CodeGas(tx));
      GasSplit(tx.gasLimit, CodeGas(tx), tx.feePerGas);
    }
  }

  lemma FinishCallTotal(P: Params, m: Accounts, tx: Tx, r: Outcome, after: Accounts)
    requires GasBounded(r, tx.gasLimit) && (r.Done? ==> Total(after) == Total(m) - tx.gasLimit * tx.feePerGas)
    ensures var (receipt, m') := FinishCall(P, m, tx, r, after);
            Total(m') == Total(m) - receipt.gasUsed * tx.feePerGas
  {
    RejectedTotal(P, m, tx, if r.Fail? then r.error else "", r.gasUsed);
    RefundTotal(after, tx, r.gasUsed);
    GasSplit(tx.gasLimit, r.gasUsed, tx.feePerGas);
  }

  lemma TopCallTotal(P: Params, m: Accounts, tx: Tx)
    requires Truthy(tx.receiver) && Truthy(tx.data)
    ensures var (r, after) := TopCall(P, m, tx);
            r.Done? ==> Total(after) == Total(m) - tx.gasLimit * tx.feePerGas
  {
    var paid := Charge(m, tx, TotalCost(tx));
    ChargeTotal(m, tx, TotalCost(tx));
    CallConserves(P, paid, tx.sender, tx.receiver.value, tx.amount, tx.data.value, tx.gasLimit, 0, true);
  }

  /** Supply: whichever way a valid transaction goes - deployment, call, transfer or rolled-back
      failure - the coins in existence drop by exactly the gas it paid for. */
  lemma TxSupply(P: Params, m: Accounts, tx: Tx)
    requires ApplyTx(P, m, tx).status == VALID
    ensures var r := ApplyTx(P, m, tx);
            Total(r.accounts) == Total(m) - r.receipt.value.gasUsed * tx.feePerGas
  {
    hide Total, Deploy, TopCall, FinishCall;
    var m' := Touch(m, tx.sender);
    TotalTouch(m, tx.sender);
    if !Truthy(tx.receiver) {
      DeployTotal(P, m', tx);
    } else if Truthy(tx.data) {
      var (r, after) := TopCall(P, m', tx);
      TopCallGas(P, m', tx);
      TopCallTotal(P, m', tx);
      FinishCallTotal(P, m', tx, r, after);
    } else {
      ChargeTotal(m', tx, TotalCost(tx));
      TotalAdd(Charge(m', tx, TotalCost(tx)), tx.receiver.value, tx.amount);
    }
  }

  /** A rolled-back transaction changes its sender's balance, by the gas it used, and nonce, by
      one, and nothing else at all. */
  lemma FailedTxOnlyCharges(P: Params, m: Accounts, tx: Tx, k: Address)
    requires ApplyTx(P, m, tx).status == VALID && ApplyTx(P, m, tx).receipt.value.status != 1
    ensures ApplyTx(P, m, tx).receipt.value.status == 0
    ensures var (before, r) := (Lookup(m, k), ApplyTx(P, m, tx));
            Lookup(r.accounts, k) ==
              if k != tx.sender then before else
              before.(balance := before.balance - r.receipt.value.gasUsed * tx.feePerGas, nonce := before.nonce + 1)
  {
    hide InternalCall, Utf8Size, CodeGas;
  }

  /** A plain transfer: the sender pays the amount and the whole gas limit, the receiver gets the
      amount - also when the two are one - and no other account changes. */
  lemma TransferEffect(P: Params, m: Accounts, tx: Tx, k: Address)
    requires ApplyTx(P, m, tx).status == VALID && (tx.data == None || tx.data == Some(""))
    requires tx.receiver != None && tx.receiver != Some("")
    ensures var (before, r) := (Lookup(m, k), ApplyTx(P, m, tx));
            && r.receipt == Some(Receipt(P.txId(tx), 1, tx.gasLimit, "", [], ""))
            && Lookup(r.accounts, k) == Account(
                 before.balance - (if k == tx.sender then tx.amount + tx.gasLimit * tx.feePerGas else 0)
                                + (if k == tx.receiver.value then tx.amount else 0),
                 before.nonce + (if k == tx.sender then 1 else 0), before.code, before.storage)
  {
  }

  /** A deployment fails when its code costs more gas than allowed, at 10 for each byte, or the
      address already holds code; then it pays its whole gas limit. Otherwise the contract starts
      with that code, nonce zero, empty storage and the amount on top of what the address held, the
      sender pays amount and code gas, and no other account changes. */
  lemma DeployEffect(P: Params, m: Accounts, tx: Tx, k: Address)
    requires ApplyTx(P, m, tx).status == VALID && (tx.receiver == None || tx.receiver == Some(""))
    requires KeysAreNotContracts(P)
    ensures var address := P.contractAddress(tx.sender, tx.nonce);
            var (before, r, held) := (Lookup(m, k), ApplyTx(P, m, tx), Lookup(m, address).code);
            var gas := if tx.data == None then 0 else 10 * Utf8Size(tx.data.value);
            if gas > tx.gasLimit || (held != None && held != Some("")) then
              var error := if gas > tx.gasLimit then "Out of gas (Code size exceeded limit)" else "Contract collision";
              && r.receipt == Some(Receipt(P.txId(tx), 0, tx.gasLimit, error, [], ""))
              && Lookup(r.accounts, k) == Charged(before, k == tx.sender, tx.gasLimit * tx.feePerGas)
            else
              && r.receipt == Some(Receipt(P.txId(tx), 1, gas, "", [], address))
              && Lookup(r.accounts, k) ==
                   if k == address then Account(before.balance + tx.amount, 0, tx.data, map[])
                   else Charged(before, k == tx.sender, tx.amount + gas * tx.feePerGas)
  {
    hide Utf8Size, CodeGas, Deploy, Lookup, Charged;
    DeployParts(P, Touch(m, tx.sender), tx, k);
    CodeCost(tx);
    TouchedLookup(m, tx.sender, k);
    TouchedLookup(m, tx.sender, P.contractAddress(tx.sender, tx.nonce));
  }

  lemma TouchedLookup(m: Accounts, sender: Address, k: Address)
    ensures Lookup(Touch(m, sender), k) == Lookup(m, k)
  {
  }

  lemma CodeCost(tx: Tx)
    ensures CodeGas(tx) == if tx.data == None then 0 else 10 * Utf8Size(tx.data.value)
  {
    NoBytes();
  }

  lemma DeployParts(P: Params, m: Accounts, tx: Tx, k: Address)
    requires KeysAreNotContracts(P) && P.signed(tx)
    ensures var address := P.contractAddress(tx.sender, tx.nonce);
            var (before, held) := (Lookup(m, k), Lookup(m, address).code);
            var (receipt, after) := Deploy(P, m, tx);
            if CodeGas(tx) > tx.gasLimit || (held != None && held != Some("")) then
              var error :=
                if CodeGas(tx) > tx.gasLimit then "Out of gas (Code size exceeded limit)" else "Contract collision";
              && receipt == Receipt(P.txId(tx), 0, tx.gasLimit, error, [], "")
              && Lookup(after, k) == Charged(before, k == tx.sender, tx.gasLimit * tx.feePerGas)
            else
              && receipt == Receipt(P.txId(tx), 1, CodeGas(tx), "", [], address)
              && Lookup(after, k) ==
                   if k == address then Account(before.balance + tx.amount, 0, tx.data, map[])
                   else Charged(before, k == tx.sender, tx.amount + CodeGas(tx) * tx.feePerGas)
  {
    hide CodeGas;
    GasSplit(tx.gasLimit, CodeGas(tx), tx.feePerGas);
  }

  lemma NoBytes()
    ensures Utf8Size("") == 0
  {
  }

  /** The encoded size of a text is the sum over its characters of 1 to 4 bytes. */
  lemma {:induction false} Utf8Adds(s: string, c: char)
    ensures Utf8Size(s + [c]) == Utf8Size(s) +
            (if (c as int) < 128 then 1 else if (c as int) < 2048 then 2 else if (c as int) < 65536 then 3 else 4)
  {
    if s == "" {
      assert s + [c] == [c] && [c][1..] == "";
    } else {
      assert (s + [c])[1..] == s[1..] + [c];
      Utf8Adds(s[1..], c);
    }
  }

  // The record of an account that may be the one that pays for a transaction.
  function Charged(acc: Account, isSender: bool, paid: int): Account {
    if isSender then acc.(balance := acc.balance - paid, nonce := acc.nonce + 1) else acc
  }

  /** A contract call: with amount and gas limit paid in advance it runs, and its receipt reports
      the gas the call itself reports, and its error if it failed. A failure charges that gas and
      nothing else; after a success the sender gets back the gas that is left. */
  lemma ContractTxEffect(P: Params, m: Accounts, tx: Tx, k: Address)
    requires ApplyTx(P, m, tx).status == VALID
    requires tx.receiver != None && tx.receiver != Some("") && tx.data != None && tx.data != Some("")
    ensures var (acc, r) := (Lookup(m, tx.sender), ApplyTx(P, m, tx));
            var cost := tx.amount + tx.gasLimit * tx.feePerGas;
            var prepaid := m[tx.sender := acc.(balance := acc.balance - cost, nonce := acc.nonce + 1)];
            var (call, after) := InternalCall(P, prepaid, tx.sender, tx.receiver.value, tx.amount, tx.data.value,
                                              tx.gasLimit, 0, true);
            match call
            case Fail(error, gas) =>
              && r.receipt == Some(Receipt(P.txId(tx), 0, gas, error, [], ""))
              && Lookup(r.accounts, k) == Charged(Lookup(m, k), k == tx.sender, gas * tx.feePerGas)
            case Done(gas, _, _) =>
              && r.receipt == Some(Receipt(P.txId(tx), 1, gas, "", [], ""))
              && Lookup(r.accounts, k) == Lookup(after, k).(balance :=
                   Lookup(after, k).balance + if k == tx.sender then (tx.gasLimit - gas) * tx.feePerGas else 0)
  {
    hide InternalCall;
    var m' := Touch(m, tx.sender);
    var acc := Lookup(m, tx.sender);
    assert Charge(m', tx, TotalCost(tx)) ==
      m[tx.sender := acc.(balance := acc.balance - TotalCost(tx), nonce := acc.nonce + 1)];
    TopCallGas(P, m', tx);
  }

  lemma TopCallIdentities(P: Params, m: Accounts, tx: Tx)
    requires Truthy(tx.receiver) && Truthy(tx.data)
    ensures SameIdentities(Charge(m, tx, TotalCost(tx)), TopCall(P, m, tx).1)
  {
    CallIdentities(P, Charge(m, tx, TotalCost(tx)), tx.sender, tx.receiver.value, tx.amount, tx.data.value,
                   tx.gasLimit, 0, true);
  }

  lemma FinishCallNonces(P: Params, m: Accounts, tx: Tx, r: Outcome, after: Accounts, k: Address)
    requires SameIdentities(Charge(m, tx, TotalCost(tx)), after)
    ensures Lookup(FinishCall(P, m, tx, r, after).1, k).nonce == Lookup(m, k).nonce + if k == tx.sender then 1 else 0
  {
    assert Lookup(Charge(m, tx, TotalCost(tx)), k).nonce == Lookup(after, k).nonce;
  }

  lemma DeployNonces(P: Params, m: Accounts, tx: Tx, k: Address)
    requires k != P.contractAddress(tx.sender, tx.nonce)
    ensures Lookup(Deploy(P, m, tx).1, k).nonce == Lookup(m, k).nonce + if k == tx.sender then 1 else 0
  {
    hide CodeGas, HasCode;
  }

  /** Nonces move one way: a valid transaction advances its sender's by one and leaves those of
      all other accounts alone, except that a deployment sets its contract's to zero. */
  lemma TxNonces(P: Params, m: Accounts, tx: Tx, k: Address)
    requires ApplyTx(P, m, tx).status == VALID
    requires KeysAreNotContracts(P) && k != P.contractAddress(tx.sender, tx.nonce)
    ensures Lookup(ApplyTx(P, m, tx).accounts, k).nonce == Lookup(m, k).nonce + if k == tx.sender then 1 else 0
  {
    hide Deploy, TopCall, FinishCall;
    var m' := Touch(m, tx.sender);
    if !Truthy(tx.receiver) {
      DeployNonces(P, m', tx, k);
    } else if Truthy(tx.data) {
      var (r, after) := TopCall(P, m', tx);
      TopCallIdentities(P, m', tx);
      FinishCallNonces(P, m', tx, r, after, k);
    }
  }

  /** A transaction that is turned away leaves at most a blank record behind. */
  lemma RejectedTxIsSame(P: Params, m: Accounts, tx: Tx)
    requires ApplyTx(P, m, tx).status != VALID
    ensures Same(m, ApplyTx(P, m, tx).accounts)
  {
    SameTouch(m, m, tx.sender);
  }

  lemma ChargeNonNegative(m: Accounts, tx: Tx, paid: int)
    requires NonNegative(m) && paid <= Lookup(m, tx.sender).balance
    ensures NonNegative(Charge(m, tx, paid))
  {
    var m' := Charge(m, tx, paid);
    forall k ensures 0 <= Lookup(m', k).balance { assert 0 <= Lookup(m, k).balance; }
  }

  lemma FeeBound(used: int, limit: int, fee: int)
    requires 0 <= used <= limit && 0 <= fee
    ensures 0 <= used * fee <= limit * fee
  {
  }

  lemma RefundNonNegative(m: Accounts, tx: Tx, gasUsed: int)
    requires NonNegative(m) && 0 <= tx.feePerGas
    ensures NonNegative(Refund(m, tx, gasUsed))
  {
    if gasUsed < tx.gasLimit {
      FeeBound(tx.gasLimit - gasUsed, tx.gasLimit - gasUsed, tx.feePerGas);
      assert 0 <= Lookup(m, tx.sender).balance;
      NonNegativeAdd(m, tx.sender, (tx.gasLimit - gasUsed) * tx.feePerGas);
    }
  }

  /** What keeps a transaction from driving a balance below zero: all deployed code is careful, or
      every value move of its call tree is covered. */
  ghost predicate Safe(P: Params, m: Accounts, tx: Tx) {
    CarefulIn(P, m) || TxCovered(P, m, tx)
  }

  ghost predicate TxCovered(P: Params, m: Accounts, tx: Tx) {
    Truthy(tx.receiver) && Truthy(tx.data) ==>
      CallCovered(P, Charge(m, tx, TotalCost(tx)), tx.sender, tx.receiver.value, tx.amount, tx.data.value, tx.gasLimit,
                  0, true)
  }

  // No account map on the way of a transaction, from the one it finds on, is negative.
  ghost predicate TxNeverNegative(P: Params, m: Accounts, tx: Tx) {
    && NonNegative(m)
    && (Truthy(tx.receiver) && Truthy(tx.data) ==>
          CallNeverNegative(P, Charge(m, tx, TotalCost(tx)), tx.sender, tx.receiver.value, tx.amount, tx.data.value,
                            tx.gasLimit, 0, true))
  }

  lemma TopCallNonNegative(P: Params, m: Accounts, tx: Tx)
    requires Truthy(tx.receiver) && Truthy(tx.data) && Safe(P, m, tx)
    requires NonNegative(Charge(m, tx, TotalCost(tx)))
    ensures var (r, after) := TopCall(P, m, tx);
            r.Done? ==> NonNegative(after)
  {
    hide InternalCall, CallCovered, CallNeverNegative, NonNegative, CarefulIn;
    var paid := Charge(m, tx, TotalCost(tx));
    if CarefulIn(P, m) {
      SameCodeCareful(P, m, paid);
      CallNonNegative(P, paid, tx.sender, tx.receiver.value, tx.amount, tx.data.value, tx.gasLimit, 0);
    } else {
      CallCoveredExactly(P, paid, tx.sender, tx.receiver.value, tx.amount, tx.data.value, tx.gasLimit, 0, true);
      NeverNegativeEnd(P, paid, tx.sender, tx.receiver.value, tx.amount, tx.data.value, tx.gasLimit, 0, true);
    }
  }

  lemma DeployNonNegative(P: Params, m: Accounts, tx: Tx)
    requires AmountsWellFormed(tx) && NonNegative(Charge(m, tx, TotalCost(tx)))
    ensures Deploy(P, m, tx).0.status == 1 ==> NonNegative(Deploy(P, m, tx).1)
  {
    var paid := Charge(m, tx, TotalCost(tx));
    var created := CreateContract(paid, P.contractAddress(tx.sender, tx.nonce), tx.data, tx.amount);
    forall k ensures 0 <= Lookup(created, k).balance { assert 0 <= Lookup(paid, k).balance; }
    RefundNonNegative(created, tx, CodeGas(tx));
  }

  /** A safe transaction drives no balance below zero. */
  lemma TxNonNegative(P: Params, m: Accounts, tx: Tx)
    requires Safe(P, m, tx) && NonNegative(m) && ApplyTx(P, m, tx).status == VALID
    ensures NonNegative(ApplyTx(P, m, tx).accounts)
  {
    var m' := Touch(m, tx.sender);
    assert NonNegative(m') by {
      forall k ensures 0 <= Lookup(m', k).balance { assert 0 <= Lookup(m, k).balance; }
    }
    TxReceipt(P, m, tx);
    var receipt := ApplyValidated(P, m', tx).0;
    FeeBound(receipt.gasUsed, tx.gasLimit, tx.feePerGas);
    ChargeNonNegative(m', tx, receipt.gasUsed * tx.feePerGas);
    ChargeNonNegative(m', tx, TotalCost(tx));
    if !Truthy(tx.receiver) {
      DeployNonNegative(P, m', tx);
    } else if Truthy(tx.data) {
      var (r, after) := TopCall(P, m', tx);
      TouchedIsSafe(P, m, tx);
      TopCallNonNegative(P, m', tx);
      if r.Done? { RefundNonNegative(after, tx, r.gasUsed); }
    } else {
      var paid := Charge(m', tx, TotalCost(tx));
      assert 0 <= Lookup(paid, tx.receiver.value).balance;
      NonNegativeAdd(paid, tx.receiver.value, tx.amount);
    }
  }

  lemma TouchedIsSafe(P: Params, m: Accounts, tx: Tx)
    requires Safe(P, m, tx)
    ensures Safe(P, Touch(m, tx.sender), tx)
  {
    hide CarefulCode, CallCovered;
    var m' := Touch(m, tx.sender);
    if CarefulIn(P, m) { SameCodeCareful(P, m, m'); }
    assert Charge(m', tx, TotalCost(tx)) == Charge(m, tx, TotalCost(tx));
  }

  // ---- deployed code ---------------------------------------------------------------------

  /** A transaction that deploys nothing, or careful code. */
  ghost predicate CarefulTx(P: Params, tx: Tx) {
    !Truthy(tx.receiver) && Truthy(tx.data) ==> CarefulCode(P, tx.data.value)
  }

  lemma SameCodeCareful(P: Params, a: Accounts, b: Accounts)
    requires CarefulIn(P, a) && forall k :: Lookup(b, k).code == Lookup(a, k).code
    ensures CarefulIn(P, b)
  {
    hide CarefulCode;
    forall k | HasCode(b, k) ensures CarefulCode(P, Lookup(b, k).code.value) {
      assert HasCode(a, k);
    }
  }

  lemma FinishCallCodes(P: Params, m: Accounts, tx: Tx, r: Outcome, after: Accounts, k: Address)
    requires SameIdentities(Charge(m, tx, TotalCost(tx)), after)
    ensures Lookup(FinishCall(P, m, tx, r, after).1, k).code == Lookup(m, k).code
  {
    assert Lookup(Charge(m, tx, TotalCost(tx)), k).code == Lookup(after, k).code;
  }

  /** Code appears only where it is deployed: a valid transaction leaves every account's code
      alone, but for the contract that it deploys with its own data. */
  lemma TxCodes(P: Params, m: Accounts, tx: Tx, k: Address)
    requires ApplyTx(P, m, tx).status == VALID
    ensures var before, after := Lookup(m, k).code, Lookup(ApplyTx(P, m, tx).accounts, k).code;
            after == before || (!Truthy(tx.receiver) && k == P.contractAddress(tx.sender, tx.nonce) && after == tx.data)
  {
    hide InternalCall, Utf8Size, CodeGas;
    var m' := Touch(m, tx.sender);
    if Truthy(tx.receiver) && Truthy(tx.data) {
      var (r, after) := TopCall(P, m', tx);
      TopCallIdentities(P, m', tx);
      FinishCallCodes(P, m', tx, r, after, k);
    }
  }

  lemma TxKeepsCareful(P: Params, m: Accounts, tx: Tx)
    requires CarefulIn(P, m) && CarefulTx(P, tx) && ApplyTx(P, m, tx).status == VALID
    ensures CarefulIn(P, ApplyTx(P, m, tx).accounts)
  {
    hide CarefulCode, ApplyTx;
    var after := ApplyTx(P, m, tx).accounts;
    forall k | HasCode(after, k) ensures CarefulCode(P, Lookup(after, k).code.value) {
      TxCodes(P, m, tx, k);
      if Lookup(after, k).code == Lookup(m, k).code { assert HasCode(m, k); }
    }
  }

  /** On non-negative balances a valid transaction stays non-negative throughout exactly when every
      value move of its call tree is covered. */
  lemma TxCoveredExactly(P: Params, m: Accounts, tx: Tx)
    requires NonNegative(m) && ApplyTx(P, m, tx).status == VALID
    ensures TxCovered(P, m, tx) <==> TxNeverNegative(P, m, tx)
    ensures TxCovered(P, m, tx) ==> NonNegative(ApplyTx(P, m, tx).accounts)
  {
    hide NonNegative, ApplyTx, CallCovered, CallNeverNegative;
    TxReceipt(P, m, tx);
    ChargeNonNegative(m, tx, TotalCost(tx));
    if Truthy(tx.receiver) && Truthy(tx.data) {
      CallCoveredExactly(P, Charge(m, tx, TotalCost(tx)), tx.sender, tx.receiver.value, tx.amount, tx.data.value,
                         tx.gasLimit, 0, true);
    }
    if TxCovered(P, m, tx) { TxNonNegative(P, m, tx); }
  }

  // ---- equality up to blank records ------------------------------------------------------

  lemma SameCharge(a: Accounts, b: Accounts, tx: Tx, paid: int)
    requires Same(a, b)
    ensures Same(Charge(a, tx, paid), Charge(b, tx, paid))
  {
    assert Lookup(a, tx.sender) == Lookup(b, tx.sender);
    SamePut(a, b, tx.sender, Charge(a, tx, paid)[tx.sender]);
  }

  lemma SameRefund(a: Accounts, b: Accounts, tx: Tx, gasUsed: int)
    requires Same(a, b)
    ensures Same(Refund(a, tx, gasUsed), Refund(b, tx, gasUsed))
  {
    SameAdd(a, b, tx.sender, (tx.gasLimit - gasUsed) * tx.feePerGas);
  }

  lemma SameDeploy(P: Params, a: Accounts, b: Accounts, tx: Tx)
    requires Same(a, b)
    ensures Deploy(P, a, tx).0 == Deploy(P, b, tx).0 && Same(Deploy(P, a, tx).1, Deploy(P, b, tx).1)
  {
    hide Utf8Size, CodeGas;
    var a1, b1 := Charge(a, tx, TotalCost(tx)), Charge(b, tx, TotalCost(tx));
    SameCharge(a, b, tx, TotalCost(tx));
    SameCharge(a, b, tx, tx.gasLimit * tx.feePerGas);
    var address := P.contractAddress(tx.sender, tx.nonce);
    assert Lookup(a1, address) == Lookup(b1, address);
    var a2, b2 := CreateContract(a1, address, tx.data, tx.amount), CreateContract(b1, address, tx.data, tx.amount);
    SamePut(a1, b1, address, a2[address]);
    SameRefund(a2, b2, tx, CodeGas(tx));
  }

  lemma SameTopCall(P: Params, a: Accounts, b: Accounts, tx: Tx)
    requires Same(a, b) && Truthy(tx.receiver) && Truthy(tx.data)
    ensures TopCall(P, a, tx).0 == TopCall(P, b, tx).0 && Same(TopCall(P, a, tx).1, TopCall(P, b, tx).1)
  {
    SameCharge(a, b, tx, TotalCost(tx));
    SameCall(P, Charge(a, tx, TotalCost(tx)), Charge(b, tx, TotalCost(tx)), tx.sender, tx.receiver.value, tx.amount,
             tx.data.value, tx.gasLimit, 0, true);
  }

  lemma SameValidated(P: Params, a: Accounts, b: Accounts, tx: Tx)
    requires Same(a, b)
    ensures var (r, a') := ApplyValidated(P, a, tx);
            var (s, b') := ApplyValidated(P, b, tx);
            r == s && Same(a', b')
  {
    hide Deploy, TopCall;
    if !Truthy(tx.receiver) {
      SameDeploy(P, a, b, tx);
    } else if Truthy(tx.data) {
      SameTopCall(P, a, b, tx);
      var (r, a') := TopCall(P, a, tx);
      SameCharge(a, b, tx, r.gasUsed * tx.feePerGas);
      SameRefund(a', TopCall(P, b, tx).1, tx, r.gasUsed);
    } else {
      SameCharge(a, b, tx, TotalCost(tx));
      SameAdd(Charge(a, tx, TotalCost(tx)), Charge(b, tx, TotalCost(tx)), tx.receiver.value, tx.amount);
    }
  }

  /** Blank records do not matter: on maps equal up to blanks a transaction has one verdict and
      one receipt, and leaves maps equal up to blanks. */
  lemma SameTx(P: Params, a: Accounts, b: Accounts, tx: Tx)
    requires Same(a, b)
    ensures var r, s := ApplyTx(P, a, tx), ApplyTx(P, b, tx);
            r.status == s.status && r.receipt == s.receipt && Same(r.accounts, s.accounts)
  {
    hide ApplyValidated;
    SameTouch(a, b, tx.sender);
    var a', b' := Touch(a, tx.sender), Touch(b, tx.sender);
    assert Lookup(a', tx.sender) == Lookup(b', tx.sender);
    SameValidated(P, a', b', tx);
  }
}
