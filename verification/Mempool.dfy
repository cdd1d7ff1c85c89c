/** The pool of pending transactions (`minichain/mempool.py`): one ordered list, a windowed insert
    and replace-by-fee. */
module Mempools {
  import opened Prelude

  // ---- the list operations as functions --------------------------------------------------

  predicate SameSlot(a: Tx, b: Tx) {
    a.sender == b.sender && a.nonce == b.nonce
  }

  // Just after the last entry of tx's sender with a lower nonce.
  function LowerBound(list: seq<Tx>, tx: Tx): (r: nat)
    ensures r <= |list|
    ensures 0 < r ==> list[r - 1].sender == tx.sender && list[r - 1].nonce < tx.nonce
    ensures forall i | r <= i < |list| && list[i].sender == tx.sender :: tx.nonce <= list[i].nonce
  {
    if list == [] then 0 else
    var i := |list| - 1;
    if list[i].sender == tx.sender && list[i].nonce < tx.nonce then i + 1 else LowerBound(list[..i], tx)
  }

  // The first entry of tx's sender with a higher nonce, or the end.
  function UpperBound(list: seq<Tx>, tx: Tx): (r: nat)
    ensures r <= |list|
    ensures r < |list| ==> list[r].sender == tx.sender && tx.nonce < list[r].nonce
    ensures forall i | 0 <= i < r && list[i].sender == tx.sender :: list[i].nonce <= tx.nonce
  {
    if list == [] then 0 else
    var i := |list| - 1;
    var r := UpperBound(list[..i], tx);
    if r < i || (list[i].sender == tx.sender && list[i].nonce > tx.nonce) then r else i + 1
  }

  function SlotIndex(list: seq<Tx>, tx: Tx): (r: Option<nat>)
    ensures r.Some? ==> r.value < |list| && SameSlot(list[r.value], tx)
  {
    if list == [] then None else
    var i := |list| - 1;
    if SameSlot(list[i], tx) then Some(i) else SlotIndex(list[..i], tx)
  }

  // The first entry of the window that pays less, or the window's end.
  function FirstCheaper(list: seq<Tx>, lo: nat, hi: nat, fee: int): (r: nat)
    requires lo <= hi <= |list|
    ensures lo <= r <= hi
    ensures forall j | lo <= j < r :: fee <= list[j].feePerGas
    ensures r < hi ==> list[r].feePerGas < fee
    decreases hi - lo
  {
    if lo == hi || list[lo].feePerGas < fee then lo else FirstCheaper(list, lo + 1, hi, fee)
  }

  function Min(a: nat, b: nat): (r: nat)
    ensures r <= a && r <= b && (r == a || r == b)
  {
    if a < b then a else b
  }

  function Max(a: nat, b: nat): (r: nat)
    ensures a <= r && b <= r && (r == a || r == b)
  {
    if a < b then b else a
  }

  function InsertWithin(list: seq<Tx>, lo: nat, hi: nat, tx: Tx): seq<Tx>
    requires hi <= |list|
  {
    var at := FirstCheaper(list, Min(lo, hi), hi, tx.feePerGas);
    list[..at] + [tx] + list[at..]
  }

  // A newer, different transaction may take a slot if it pays over a tenth more.
  predicate MayReplace(P: Params, held: Tx, tx: Tx) {
    P.txId(held) != P.txId(tx) && held.timestamp < tx.timestamp && 11 * held.feePerGas < 10 * tx.feePerGas
  }

  // A bound after the entry at i has been taken out.
  function Shift(bound: nat, i: nat): nat {
    if bound > i then bound - 1 else bound
  }

  /** `add_transaction` */
  function AddTo(P: Params, list: seq<Tx>, maxSize: nat, tx: Tx): (bool, seq<Tx>) {
    if !P.signed(tx) then (false, list) else
    var lo, hi := LowerBound(list, tx), UpperBound(list, tx);
    match SlotIndex(list, tx)
    case Some(i) =>
      if !MayReplace(P, list[i], tx) then (false, list)
      else (true, InsertWithin(list[..i] + list[i + 1..], Shift(lo, i), Shift(hi, i), tx))
    case None =>
      if |list| >= maxSize then (false, list) else (true, InsertWithin(list, lo, hi, tx))
  }

  // Whether the slot of t is one of those to be cleared.
  predicate Named(txs: seq<Tx>, t: Tx) {
    exists i | 0 <= i < |txs| :: SameSlot(txs[i], t)
  }

  // `remove_transactions`
  function RemoveFrom(list: seq<Tx>, txs: seq<Tx>): seq<Tx> {
    if list == [] then [] else
    var front, t := RemoveFrom(list[..|list| - 1], txs), list[|list| - 1];
    if Named(txs, t) then front else front + [t]
  }

  // ---- the object ------------------------------------------------------------------------

  class Mempool {
    const P: Params
    const maxSize: nat
    const perBlock: nat
    var list: seq<Tx>

    constructor (P: Params, maxSize: nat, perBlock: nat)
      ensures list == [] && this.P == P && this.maxSize == maxSize && this.perBlock == perBlock
    {
      this.P, this.maxSize, this.perBlock, list := P, maxSize, perBlock, [];
    }

    // The scan of `add_transaction`.
    method Scan(tx: Tx) returns (existing: Option<nat>, iMin: nat, iMax: nat)
      ensures existing == SlotIndex(list, tx) && iMin == LowerBound(list, tx) && iMax == UpperBound(list, tx)
    {
      existing, iMin, iMax := None, 0, |list|;
      var i := 0;
      while i < |list|
        invariant 0 <= i <= |list|
        invariant existing == SlotIndex(list[..i], tx) && iMin == LowerBound(list[..i], tx)
        invariant var u := UpperBound(list[..i], tx); if u < i then iMax == u else iMax == |list|
      {
        assert list[..i + 1][..i] == list[..i];
        if list[i].sender == tx.sender {
          if list[i].nonce == tx.nonce {
            existing := Some(i);
          } else if list[i].nonce < tx.nonce {
            iMin := Max(iMin, i + 1);
          } else {
            iMax := Min(iMax, i);
          }
        }
        i := i + 1;
      }
      assert list[..i] == list;
    }

    method InsertSorted(iMin: nat, iMax: nat, tx: Tx)
      requires iMax <= |list|
      modifies this
      ensures list == InsertWithin(old(list), iMin, iMax, tx)
    {
      var lo := Min(iMin, iMax);
      var at := iMax;
      var j := lo;
      while j < iMax
        invariant lo <= j <= iMax && at == iMax
        invariant FirstCheaper(list, j, iMax, tx.feePerGas) == FirstCheaper(list, lo, iMax, tx.feePerGas)
      {
        if list[j].feePerGas < tx.feePerGas {
          at := j;
          break;
        }
        j := j + 1;
      }
      list := list[..at] + [tx] + list[at..];
    }

    method AddTransaction(tx: Tx) returns (added: bool)
      modifies this
      ensures (added, list) == AddTo(P, old(list), maxSize, tx)
    {
      hide InsertWithin, LowerBound, UpperBound, SlotIndex;
      if !P.signed(tx) {
        return false;
      }
      var existing, iMin, iMax := Scan(tx);
      if existing.Some? {
        var i := existing.value;
        if P.txId(list[i]) == P.txId(tx) {
          return false;
        }
        if tx.timestamp <= list[i].timestamp {
          return false;
        }
        if 10 * tx.feePerGas <= 11 * list[i].feePerGas {
          return false;
        }
        list := list[..i] + list[i + 1..];
        if iMax > i {
          iMax := iMax - 1;
        }
        if iMin > i {
          iMin := iMin - 1;
        }
      } else if |list| >= maxSize {
        return false;
      }
      InsertSorted(iMin, iMax, tx);
      return true;
    }

    method GetTransactionsForBlock() returns (slice: seq<Tx>)
      ensures slice == list[..Min(perBlock, |list|)]
    {
      slice := list[..if perBlock < |list| then perBlock else |list|];
    }

    method RemoveTransactions(txs: seq<Tx>)
      modifies this
      ensures list == RemoveFrom(old(list), txs)
    {
      var kept := [];
      var i := 0;
      while i < |list|
        invariant 0 <= i <= |list| && kept == RemoveFrom(list[..i], txs) && list == old(list)
      {
        assert list[..i + 1][..i] == list[..i];
        if !Named(txs, list[i]) {
          kept := kept + [list[i]];
        }
        i := i + 1;
      }
      assert list[..i] == list;
      list := kept;
    }
  }

  // ---- invariants ------------------------------------------------------------------------

  /** Each sender's entries stand in strictly increasing nonce order; so no slot occurs twice. */
  ghost predicate NonceOrdered(list: seq<Tx>) {
    forall i, j | 0 <= i < j < |list| && list[i].sender == list[j].sender :: list[i].nonce < list[j].nonce
  }

  // Every entry of tx's sender before `lo` is lower and from `hi` on is higher, and none of the
  // others is in between.
  ghost predicate Window(list: seq<Tx>, tx: Tx, lo: nat, hi: nat) {
    && lo <= hi <= |list|
    && (forall i | 0 <= i < lo && list[i].sender == tx.sender :: list[i].nonce < tx.nonce)
    && (forall i | hi <= i < |list| && list[i].sender == tx.sender :: list[i].nonce > tx.nonce)
    && (forall i | lo <= i < hi && list[i].sender == tx.sender :: list[i].nonce == tx.nonce)
  }

  lemma BoundsWindow(list: seq<Tx>, tx: Tx)
    requires NonceOrdered(list)
    ensures Window(list, tx, LowerBound(list, tx), UpperBound(list, tx))
  {
    hide LowerBound, UpperBound;
    var lo, hi := LowerBound(list, tx), UpperBound(list, tx);
    if hi < |list| {
      assert forall i | hi < i < |list| && list[i].sender == tx.sender :: list[hi].nonce < list[i].nonce;
    }
    if 0 < lo {
      assert forall i | 0 <= i < lo - 1 && list[i].sender == tx.sender :: list[i].nonce < list[lo - 1].nonce;
    }
  }

  lemma {:induction false} NoOtherSlot(list: seq<Tx>, tx: Tx)
    requires SlotIndex(list, tx).None?
    ensures forall i | 0 <= i < |list| :: !SameSlot(list[i], tx)
  {
    if list != [] {
      NoOtherSlot(list[..|list| - 1], tx);
      assert forall i | 0 <= i < |list| - 1 :: list[..|list| - 1][i] == list[i];
    }
  }

  // Inserting inside a window that holds no entry of the sender keeps the order.
  lemma InsertOrdered(list: seq<Tx>, tx: Tx, lo: nat, hi: nat)
    requires NonceOrdered(list) && Window(list, tx, lo, hi)
    requires forall i | lo <= i < hi :: list[i].sender != tx.sender
    ensures NonceOrdered(InsertWithin(list, lo, hi, tx))
    ensures |InsertWithin(list, lo, hi, tx)| == |list| + 1
  {
    var at := FirstCheaper(list, Min(lo, hi), hi, tx.feePerGas);
    var r := InsertWithin(list, lo, hi, tx);
    forall i, j | 0 <= i < j < |r| && r[i].sender == r[j].sender ensures r[i].nonce < r[j].nonce {
      var a := if i < at then i else i - 1;
      var b := if j < at then j else j - 1;
      if i != at { assert r[i] == list[a]; }
      if j != at { assert r[j] == list[b]; }
    }
  }

  // Taking the slot out leaves a window with no entry of the sender.
  lemma WithoutSlot(list: seq<Tx>, tx: Tx, i: nat, lo: nat, hi: nat)
    requires NonceOrdered(list) && Window(list, tx, lo, hi) && i < |list| && SameSlot(list[i], tx)
    ensures var rest := list[..i] + list[i + 1..];
            && NonceOrdered(rest) && Window(rest, tx, Shift(lo, i), Shift(hi, i))
            && forall j | Shift(lo, i) <= j < Shift(hi, i) :: rest[j].sender != tx.sender
  {
    var rest := list[..i] + list[i + 1..];
    assert lo <= i < hi;
    forall j | 0 <= j < |rest| ensures rest[j] == list[if j < i then j else j + 1] {
    }
  }

  lemma AddKeepsNonceOrder(P: Params, list: seq<Tx>, maxSize: nat, tx: Tx)
    requires NonceOrdered(list) && |list| <= maxSize
    ensures NonceOrdered(AddTo(P, list, maxSize, tx).1) && |AddTo(P, list, maxSize, tx).1| <= maxSize
  {
    hide InsertWithin, LowerBound, UpperBound;
    var lo, hi := LowerBound(list, tx), UpperBound(list, tx);
    BoundsWindow(list, tx);
    match SlotIndex(list, tx)
    case Some(i) =>
      WithoutSlot(list, tx, i, lo, hi);
      InsertOrdered(list[..i] + list[i + 1..], tx, Shift(lo, i), Shift(hi, i));
    case None =>
      NoOtherSlot(list, tx);
      InsertOrdered(list, tx, lo, hi);
  }

  /** What an offer does to the pool's contents. It is let in exactly when it is signed and either
      no entry has its sender and nonce and the pool is not full, or one has, and the offer is a
      different transaction, newer, and pays over a tenth more. Then the pool gains it and loses at
      most that entry, and otherwise nothing changes. */
  lemma AddContents(P: Params, list: seq<Tx>, maxSize: nat, tx: Tx)
    ensures var (added, list') := AddTo(P, list, maxSize, tx);
            var slot := SlotIndex(list, tx);
            && (slot.Some? <==> exists i :: 0 <= i < |list| && list[i].sender == tx.sender && list[i].nonce == tx.nonce)
            && (slot.Some? ==> list[slot.value].sender == tx.sender && list[slot.value].nonce == tx.nonce)
            && var free := slot == None && |list| < maxSize;
            var better := slot.Some? && (
              var held := list[slot.value];
              P.txId(held) != P.txId(tx) && held.timestamp < tx.timestamp && 11 * held.feePerGas < 10 * tx.feePerGas);
            && (added <==> P.signed(tx) && (free || better))
            && (!added ==> list' == list)
            && var replaced := if slot.Some? then multiset{list[slot.value]} else multiset{};
            (added ==> multiset(list') + replaced == multiset(list) + multiset{tx})
  {
    hide LowerBound, UpperBound, SlotIndex, FirstCheaper;
    var lo, hi := LowerBound(list, tx), UpperBound(list, tx);
    match SlotIndex(list, tx)
    case Some(i) =>
      var rest := list[..i] + list[i + 1..];
      assert list == list[..i] + [list[i]] + list[i + 1..];
      if Shift(hi, i) <= |rest| { InsertContents(rest, Shift(lo, i), Shift(hi, i), tx); }
    case None =>
      NoOtherSlot(list, tx);
      InsertContents(list, lo, hi, tx);
  }

  lemma InsertContents(list: seq<Tx>, lo: nat, hi: nat, tx: Tx)
    requires hi <= |list|
    ensures multiset(InsertWithin(list, lo, hi, tx)) == multiset(list) + multiset{tx}
  {
    var at := FirstCheaper(list, Min(lo, hi), hi, tx.feePerGas);
    assert list == list[..at] + list[at..];
  }

  /** Removal keeps exactly the entries whose slot is not named, in order. */
  lemma {:induction false} RemoveThins(list: seq<Tx>, txs: seq<Tx>) returns (at: seq<nat>)
    ensures Thinned(RemoveFrom(list, txs), list, at)
    ensures forall t :: t in RemoveFrom(list, txs) <==> t in list && !Named(txs, t)
  {
    hide Named;
    if list == [] {
      at := [];
    } else {
      var front, t := list[..|list| - 1], list[|list| - 1];
      at := RemoveThins(front, txs);
      assert list == front + [t];
      if !Named(txs, t) {
        at := at + [|front|];
      }
    }
  }

  /** What stays after a removal: the entries whose sender and nonce no named transaction has. */
  lemma RemoveExactly(list: seq<Tx>, txs: seq<Tx>)
    ensures forall t :: t in RemoveFrom(list, txs) <==>
            t in list && forall s | s in txs :: s.sender != t.sender || s.nonce != t.nonce
  {
    hide RemoveFrom, Named;
    var at := RemoveThins(list, txs);
    NamedExactly(txs);
  }

  lemma NamedExactly(txs: seq<Tx>)
    ensures forall t :: Named(txs, t) <==> exists s :: s in txs && s.sender == t.sender && s.nonce == t.nonce
  {
    forall t ensures Named(txs, t) <==> exists s :: s in txs && s.sender == t.sender && s.nonce == t.nonce {
      if Named(txs, t) {
        var i :| 0 <= i < |txs| && SameSlot(txs[i], t);
        assert txs[i] in txs;
      }
    }
  }

  lemma RemoveKeepsNonceOrder(list: seq<Tx>, txs: seq<Tx>)
    requires NonceOrdered(list)
    ensures NonceOrdered(RemoveFrom(list, txs)) && |RemoveFrom(list, txs)| <= |list|
  {
    var at := RemoveThins(list, txs);
    var r := RemoveFrom(list, txs);
    forall i, j | 0 <= i < j < |r| && r[i].sender == r[j].sender ensures r[i].nonce < r[j].nonce {
      assert list[at[i]] == r[i] && list[at[j]] == r[j];
    }
    IncreasingFits(at, |list|);
  }

  lemma {:induction false} IncreasingFits(at: seq<nat>, n: nat)
    requires forall i | 0 <= i < |at| :: at[i] < n
    requires forall i, j | 0 <= i < j < |at| :: at[i] < at[j]
    ensures |at| <= n
  {
    if at != [] {
      IncreasingFits(at[..|at| - 1], at[|at| - 1]);
    }
  }

  // ---- runs ------------------------------------------------------------------------------

  datatype PoolOp = Offer(tx: Tx) | Drop(txs: seq<Tx>)

  function PoolStep(P: Params, list: seq<Tx>, maxSize: nat, op: PoolOp): seq<Tx> {
    match op
    case Offer(tx) => AddTo(P, list, maxSize, tx).1
    case Drop(txs) => RemoveFrom(list, txs)
  }

  function PoolRun(P: Params, maxSize: nat, ops: seq<PoolOp>): seq<Tx> {
    if ops == [] then [] else PoolStep(P, PoolRun(P, maxSize, ops[..|ops| - 1]), maxSize, ops[|ops| - 1])
  }

  /** After any sequence of adds, replacements and removals each sender's entries stand in
      increasing nonce order, no slot occurs twice, and the pool is within its size. */
  lemma {:induction false} PoolInvariant(P: Params, maxSize: nat, ops: seq<PoolOp>)
    ensures NonceOrdered(PoolRun(P, maxSize, ops)) && |PoolRun(P, maxSize, ops)| <= maxSize
    ensures forall t | t in PoolRun(P, maxSize, ops) :: P.signed(t)
    decreases |ops|
  {
    hide NonceOrdered, AddTo, RemoveFrom, SlotIndex, Named;
    if ops == [] {
      assert NonceOrdered([]) by { EmptyOrdered(); }
    } else {
      var list, op := PoolRun(P, maxSize, ops[..|ops| - 1]), ops[|ops| - 1];
      PoolInvariant(P, maxSize, ops[..|ops| - 1]);
      match op
      case Offer(tx) =>
        AddKeepsNonceOrder(P, list, maxSize, tx);
        OfferOnly(P, list, maxSize, tx);
      case Drop(txs) =>
        RemoveKeepsNonceOrder(list, txs);
        var at := RemoveThins(list, txs);
    }
  }

  // What is in the pool after an offer was there or is the offer.
  lemma OfferOnly(P: Params, list: seq<Tx>, maxSize: nat, tx: Tx)
    ensures forall e | e in AddTo(P, list, maxSize, tx).1 :: e in list || (e == tx && P.signed(tx))
  {
    hide AddTo, SlotIndex;
    AddContents(P, list, maxSize, tx);
    var list' := AddTo(P, list, maxSize, tx).1;
    forall e | e in list' ensures e in list || (e == tx && P.signed(tx)) {
      assert e in multiset(list');
      assert e in multiset(list) + multiset{tx};
    }
  }

  lemma EmptyOrdered()
    ensures NonceOrdered([])
  {
  }

  /** The block slice leaves no gap: with an entry it holds every pooled lower nonce of the same
      sender, earlier in the slice. */
  lemma SliceHasLowerNonces(list: seq<Tx>, k: nat, i: nat, j: nat)
    requires NonceOrdered(list) && k <= |list| && i < k && j < |list|
    requires list[j].sender == list[i].sender && list[j].nonce < list[i].nonce
    ensures j < i && list[..k][j] == list[j]
  {
  }

  // ---- fee order -------------------------------------------------------------------------

  ghost predicate FeeSorted(list: seq<Tx>) {
    forall i, j | 0 <= i < j < |list| :: list[i].feePerGas >= list[j].feePerGas
  }

  /** The newcomer's fee agrees with its nonce: it pays no more than its sender's lower nonces and
      no less than the higher ones. */
  ghost predicate Fits(list: seq<Tx>, tx: Tx) {
    forall i | 0 <= i < |list| && list[i].sender == tx.sender ::
      && (list[i].nonce < tx.nonce ==> tx.feePerGas <= list[i].feePerGas)
      && (tx.nonce < list[i].nonce ==> list[i].feePerGas <= tx.feePerGas)
  }

  ghost predicate FitsBefore(list: seq<Tx>, tx: Tx, at: nat) {
    at <= |list| && forall i | 0 <= i < at :: tx.feePerGas <= list[i].feePerGas
  }

  ghost predicate FitsAfter(list: seq<Tx>, tx: Tx, at: nat) {
    at <= |list| && forall i | at <= i < |list| :: list[i].feePerGas <= tx.feePerGas
  }

  // Putting tx into a sorted list at a given place.
  lemma InsertAtSorted(list: seq<Tx>, tx: Tx, at: nat)
    requires FeeSorted(list) && at <= |list|
    ensures FeeSorted(list[..at] + [tx] + list[at..]) <==> FitsBefore(list, tx, at) && FitsAfter(list, tx, at)
  {
    var r := list[..at] + [tx] + list[at..];
    assert r[at] == tx;
    assert forall i | 0 <= i < at :: r[i] == list[i];
    assert forall i | at <= i < |list| :: r[i + 1] == list[i];
    if FeeSorted(r) {
      assert forall i | 0 <= i < at :: r[i].feePerGas >= r[at].feePerGas;
      assert forall j | at < j < |r| :: r[at].feePerGas >= r[j].feePerGas;
      forall i | at <= i < |list| ensures list[i].feePerGas <= tx.feePerGas { assert r[i + 1] == list[i]; }
    }
  }

  lemma PaysAsMuch(list: seq<Tx>, tx: Tx, at: nat)
    requires FeeSorted(list) && at <= |list| && (at == 0 || tx.feePerGas <= list[at - 1].feePerGas)
    ensures FitsBefore(list, tx, at)
  {
  }

  lemma PaysNoMore(list: seq<Tx>, tx: Tx, at: nat)
    requires FeeSorted(list) && at <= |list| && (at == |list| || list[at].feePerGas <= tx.feePerGas)
    ensures FitsAfter(list, tx, at)
  {
  }

  // A window whose edges are the sender's own entries, with none of them inside.
  ghost predicate OwnWindow(list: seq<Tx>, tx: Tx, lo: nat, hi: nat) {
    && lo <= hi <= |list|
    && (0 < lo ==> list[lo - 1].sender == tx.sender && list[lo - 1].nonce < tx.nonce)
    && (hi < |list| ==> list[hi].sender == tx.sender && tx.nonce < list[hi].nonce)
  }

  // The windowed insert keeps a sorted list sorted exactly when the window's edges allow it.
  lemma InsertFeeSorted(list: seq<Tx>, tx: Tx, lo: nat, hi: nat)
    requires FeeSorted(list) && OwnWindow(list, tx, lo, hi) && Window(list, tx, lo, hi)
    ensures FeeSorted(InsertWithin(list, lo, hi, tx)) <==> Fits(list, tx)
  {
    hide FeeSorted, FitsBefore, FitsAfter, FirstCheaper;
    var at := FirstCheaper(list, lo, hi, tx.feePerGas);
    FirstCheaperPlace(list, lo, hi, tx.feePerGas);
    InsertAtSorted(list, tx, at);
    if Fits(list, tx) {
      assert at == lo > 0 ==> tx.feePerGas <= list[lo - 1].feePerGas;
      PaysAsMuch(list, tx, at);
      PaysNoMore(list, tx, at);
    } else {
      Misfit(list, tx, lo, hi, at);
    }
  }

  lemma FirstCheaperPlace(list: seq<Tx>, lo: nat, hi: nat, fee: int)
    requires lo <= hi <= |list|
    ensures var at := FirstCheaper(list, lo, hi, fee);
            && lo <= at <= hi && (lo < at ==> fee <= list[at - 1].feePerGas) && (at < hi ==> list[at].feePerGas < fee)
            && forall i | lo <= i < at :: fee <= list[i].feePerGas
  {
  }

  lemma Misfit(list: seq<Tx>, tx: Tx, lo: nat, hi: nat, at: nat)
    requires Window(list, tx, lo, hi) && lo <= at <= hi && !Fits(list, tx)
    ensures !(FitsBefore(list, tx, at) && FitsAfter(list, tx, at))
  {
  }

  // The list and window that an accepted offer is inserted in.
  function Rest(list: seq<Tx>, tx: Tx): seq<Tx> {
    match SlotIndex(list, tx) case Some(i) => list[..i] + list[i + 1..] case None => list
  }

  function Low(list: seq<Tx>, tx: Tx): nat {
    match SlotIndex(list, tx) case Some(i) => Shift(LowerBound(list, tx), i) case None => LowerBound(list, tx)
  }

  function High(list: seq<Tx>, tx: Tx): nat {
    match SlotIndex(list, tx) case Some(i) => Shift(UpperBound(list, tx), i) case None => UpperBound(list, tx)
  }

  lemma AcceptedInsert(P: Params, list: seq<Tx>, maxSize: nat, tx: Tx)
    requires NonceOrdered(list) && AddTo(P, list, maxSize, tx).0
    ensures Window(Rest(list, tx), tx, Low(list, tx), High(list, tx)) &&
            OwnWindow(Rest(list, tx), tx, Low(list, tx), High(list, tx))
    ensures AddTo(P, list, maxSize, tx).1 == InsertWithin(Rest(list, tx), Low(list, tx), High(list, tx), tx)
    ensures NonceOrdered(Rest(list, tx))
  {
    hide InsertWithin, LowerBound, UpperBound, NonceOrdered;
    var lo, hi := LowerBound(list, tx), UpperBound(list, tx);
    BoundsWindow(list, tx);
    match SlotIndex(list, tx)
    case Some(i) => WithoutSlot(list, tx, i, lo, hi);
    case None =>
  }

  // Taking the slot out changes neither order nor fit.
  lemma RestSorted(list: seq<Tx>, tx: Tx)
    requires FeeSorted(list)
    ensures FeeSorted(Rest(list, tx)) && (Fits(Rest(list, tx), tx) <==> Fits(list, tx))
  {
    hide FeeSorted, Fits;
    match SlotIndex(list, tx)
    case None =>
    case Some(i) =>
      WithoutSorted(list, i);
      WithoutFits(list, tx, i);
  }

  lemma WithoutSorted(list: seq<Tx>, i: nat)
    requires FeeSorted(list) && i < |list|
    ensures FeeSorted(list[..i] + list[i + 1..])
  {
    var rest := list[..i] + list[i + 1..];
    forall a, b | 0 <= a < b < |rest| ensures rest[a].feePerGas >= rest[b].feePerGas {
      assert rest[a] == list[if a < i then a else a + 1] && rest[b] == list[if b < i then b else b + 1];
    }
  }

  lemma WithoutFits(list: seq<Tx>, tx: Tx, i: nat)
    requires i < |list| && SameSlot(list[i], tx)
    ensures Fits(list[..i] + list[i + 1..], tx) <==> Fits(list, tx)
  {
    var rest := list[..i] + list[i + 1..];
    if Fits(rest, tx) {
      forall j | 0 <= j < |list| && list[j].sender == tx.sender
        ensures list[j].nonce < tx.nonce ==> tx.feePerGas <= list[j].feePerGas
        ensures tx.nonce < list[j].nonce ==> list[j].feePerGas <= tx.feePerGas
      {
        if j < i { assert rest[j] == list[j]; }
        if j > i { assert rest[j - 1] == list[j]; }
      }
    }
    if Fits(list, tx) {
      forall j | 0 <= j < |rest| && rest[j].sender == tx.sender
        ensures rest[j].nonce < tx.nonce ==> tx.feePerGas <= rest[j].feePerGas
        ensures tx.nonce < rest[j].nonce ==> rest[j].feePerGas <= tx.feePerGas
      {
        assert rest[j] == list[if j < i then j else j + 1];
      }
    }
  }

  /** An accepted offer keeps a fee-descending pool fee-descending exactly when its fee fits its
      sender's other nonces. */
  lemma AddKeepsFeeOrder(P: Params, list: seq<Tx>, maxSize: nat, tx: Tx)
    requires NonceOrdered(list) && FeeSorted(list) && AddTo(P, list, maxSize, tx).0
    ensures FeeSorted(AddTo(P, list, maxSize, tx).1) <==> Fits(list, tx)
  {
    hide FeeSorted, Fits, NonceOrdered, AddTo, InsertWithin, Rest, Low, High, Window, OwnWindow;
    AcceptedInsert(P, list, maxSize, tx);
    RestSorted(list, tx);
    InsertFeeSorted(Rest(list, tx), tx, Low(list, tx), High(list, tx));
  }

  /** Where an accepted offer stands, whatever the order of fees: the others keep their order; only
      an own lower nonce at or behind a cheaper entry puts it behind that entry; and what comes next
      is cheaper, or an own higher nonce. */
  lemma AddPlace(P: Params, list: seq<Tx>, maxSize: nat, tx: Tx) returns (at: nat)
    requires NonceOrdered(list) && AddTo(P, list, maxSize, tx).0
    ensures var r := AddTo(P, list, maxSize, tx).1;
            && at < |r| && r[at] == tx && Thinned(r[..at] + r[at + 1..], list, Skipping(list, tx))
            && (forall i | 0 <= i < at && r[i].feePerGas < tx.feePerGas ::
                  exists j :: i <= j < at && r[j].sender == tx.sender && r[j].nonce < tx.nonce)
            && (at + 1 < |r| ==>
                  r[at + 1].feePerGas < tx.feePerGas || (r[at + 1].sender == tx.sender && tx.nonce < r[at + 1].nonce))
  {
    hide NonceOrdered, AddTo, Rest, Low, High, Window, OwnWindow, InsertWithin, Thinned;
    AcceptedInsert(P, list, maxSize, tx);
    at := InsertPlace(Rest(list, tx), tx, Low(list, tx), High(list, tx));
    RestThins(list, tx);
  }

  lemma InsertPlace(list: seq<Tx>, tx: Tx, lo: nat, hi: nat) returns (at: nat)
    requires OwnWindow(list, tx, lo, hi)
    ensures var r := InsertWithin(list, lo, hi, tx);
            && at < |r| && r[at] == tx && r[..at] + r[at + 1..] == list
            && (forall i | 0 <= i < at && r[i].feePerGas < tx.feePerGas ::
                  exists j :: i <= j < at && r[j].sender == tx.sender && r[j].nonce < tx.nonce)
            && (at + 1 < |r| ==>
                  r[at + 1].feePerGas < tx.feePerGas || (r[at + 1].sender == tx.sender && tx.nonce < r[at + 1].nonce))
  {
    hide FirstCheaper;
    at := FirstCheaper(list, lo, hi, tx.feePerGas);
    FirstCheaperPlace(list, lo, hi, tx.feePerGas);
    assert InsertWithin(list, lo, hi, tx) == list[..at] + [tx] + list[at..];
    hide InsertWithin;
    var r := list[..at] + [tx] + list[at..];
    Inserted(list, tx, at);
    forall i | 0 <= i < at && r[i].feePerGas < tx.feePerGas
      ensures exists j :: i <= j < at && r[j].sender == tx.sender && r[j].nonce < tx.nonce
    {
      assert i < lo && r[lo - 1] == list[lo - 1];
    }
  }

  lemma Inserted(list: seq<Tx>, tx: Tx, at: nat)
    requires at <= |list|
    ensures var r := list[..at] + [tx] + list[at..];
            && |r| == |list| + 1 && r[at] == tx && r[..at] + r[at + 1..] == list
            && (forall i | 0 <= i < at :: r[i] == list[i]) && (at < |list| ==> r[at + 1] == list[at])
  {
    var r := list[..at] + [tx] + list[at..];
    assert r[..at] == list[..at] && r[at + 1..] == list[at..];
  }

  // The places of the entries that stay, when the offer's own slot is taken out.
  function Skipping(list: seq<Tx>, tx: Tx): seq<nat> {
    match SlotIndex(list, tx)
    case None => seq(|list|, k => k)
    case Some(i) => seq(|list| - 1, k => if k < i then k else k + 1)
  }

  lemma RestThins(list: seq<Tx>, tx: Tx)
    ensures Thinned(Rest(list, tx), list, Skipping(list, tx))
  {
  }

  /** Ties go by arrival: in a sorted pool a fitting newcomer stands behind all that pay as much,
      except that it goes before the first higher nonce of its own sender. */
  lemma AddStandsByFee(P: Params, list: seq<Tx>, maxSize: nat, tx: Tx) returns (at: nat)
    requires NonceOrdered(list) && FeeSorted(list) && AddTo(P, list, maxSize, tx).0 && Fits(list, tx)
    ensures var r := AddTo(P, list, maxSize, tx).1;
            && at < |r| && r[at] == tx
            && (forall i | 0 <= i < at :: r[i].feePerGas >= tx.feePerGas)
            && (at + 1 < |r| ==>
                  r[at + 1].feePerGas < tx.feePerGas || (r[at + 1].sender == tx.sender && tx.nonce < r[at + 1].nonce))
  {
    hide NonceOrdered, AddTo, Rest, Low, High, Window, Fits, FirstCheaper;
    AcceptedInsert(P, list, maxSize, tx);
    AddKeepsFeeOrder(P, list, maxSize, tx);
    var rest, lo, hi := Rest(list, tx), Low(list, tx), High(list, tx);
    at := FirstCheaper(rest, lo, hi, tx.feePerGas);
    FirstCheaperPlace(rest, lo, hi, tx.feePerGas);
  }

  lemma RemoveKeepsFeeOrder(list: seq<Tx>, txs: seq<Tx>)
    requires FeeSorted(list)
    ensures FeeSorted(RemoveFrom(list, txs))
  {
    var at := RemoveThins(list, txs);
    var r := RemoveFrom(list, txs);
    forall i, j | 0 <= i < j < |r| ensures r[i].feePerGas >= r[j].feePerGas {
      assert list[at[i]] == r[i] && list[at[j]] == r[j];
    }
  }

  lemma InsertContains(list: seq<Tx>, lo: nat, hi: nat, tx: Tx, k: nat) returns (at: nat, place: nat)
    requires hi <= |list| && k < |list|
    ensures var r := InsertWithin(list, lo, hi, tx);
            at < |r| && place < |r| && at != place && r[at] == tx && r[place] == list[k]
  {
    hide FirstCheaper;
    at := FirstCheaper(list, Min(lo, hi), hi, tx.feePerGas);
    place := if k < at then k else k + 1;
  }

  /** Every accepted offer of a run fits the pool that it finds. */
  ghost predicate AllFit(P: Params, maxSize: nat, ops: seq<PoolOp>) {
    ops == [] || (
      var front, op := ops[..|ops| - 1], ops[|ops| - 1];
      var list := PoolRun(P, maxSize, front);
      AllFit(P, maxSize, front) && (op.Offer? && AddTo(P, list, maxSize, op.tx).0 ==> Fits(list, op.tx)))
  }

  // The pool is fee-descending after every step of a run.
  ghost predicate AlwaysSorted(P: Params, maxSize: nat, ops: seq<PoolOp>) {
    FeeSorted(PoolRun(P, maxSize, ops)) && (ops == [] || AlwaysSorted(P, maxSize, ops[..|ops| - 1]))
  }

  /** The pool is fee-descending throughout a run exactly when every accepted offer fits: its fee
      agrees with its nonce among its sender's entries. */
  lemma {:induction false} FeeOrderOverRuns(P: Params, maxSize: nat, ops: seq<PoolOp>)
    ensures AlwaysSorted(P, maxSize, ops) <==> AllFit(P, maxSize, ops)
    decreases |ops|
  {
    hide AddTo, RemoveFrom, FeeSorted, Fits, NonceOrdered;
    if ops == [] {
      EmptySorted();
    } else {
      var front, op := ops[..|ops| - 1], ops[|ops| - 1];
      var list := PoolRun(P, maxSize, front);
      FeeOrderOverRuns(P, maxSize, front);
      PoolInvariant(P, maxSize, front);
      if AlwaysSorted(P, maxSize, front) {
        match op
        case Offer(tx) =>
          if AddTo(P, list, maxSize, tx).0 {
            AddKeepsFeeOrder(P, list, maxSize, tx);
          } else {
            RefusedUnchanged(P, list, maxSize, tx);
          }
        case Drop(txs) => RemoveKeepsFeeOrder(list, txs);
      }
    }
  }

  lemma EmptySorted()
    ensures FeeSorted([])
  {
  }

  /** Fee order is lost by the simplest misfit: nonce 0 for a fee of 1, then nonce 1 for 5. */
  lemma FeeOrderLostExample(P: Params, a: Tx, b: Tx, maxSize: nat)
    requires P.signed(a) && P.signed(b) && a.sender == b.sender && 2 <= maxSize
    requires a.nonce == 0 && a.feePerGas == 1 && b.nonce == 1 && b.feePerGas == 5
    ensures PoolRun(P, maxSize, [Offer(a), Offer(b)]) == [a, b] && !FeeSorted([a, b])
  {
    hide AddTo;
    var ops := [Offer(a), Offer(b)];
    assert ops[..1] == [Offer(a)] && [Offer(a)][..0] == [];
    OfferToEmpty(P, maxSize, a);
    OfferBehind(P, maxSize, a, b);
    assert PoolRun(P, maxSize, [Offer(a)]) == [a];
    assert PoolRun(P, maxSize, ops) == PoolStep(P, PoolRun(P, maxSize, ops[..1]), maxSize, ops[1]);
    assert [a, b][0].feePerGas < [a, b][1].feePerGas;
  }

  lemma OfferToEmpty(P: Params, maxSize: nat, a: Tx)
    requires P.signed(a) && 1 <= maxSize
    ensures AddTo(P, [], maxSize, a).1 == [a]
  {
  }

  lemma OfferBehind(P: Params, maxSize: nat, a: Tx, b: Tx)
    requires P.signed(b) && 2 <= maxSize && a.sender == b.sender && a.nonce < b.nonce
    ensures AddTo(P, [a], maxSize, b).1 == [a, b]
  {
    assert [a][..0] == [];
    assert LowerBound([a], b) == 1 && UpperBound([a], b) == 1 && SlotIndex([a], b) == None;
    hide LowerBound, UpperBound, SlotIndex;
    assert InsertWithin([a], 1, 1, b) == [a, b];
  }

  lemma RefusedUnchanged(P: Params, list: seq<Tx>, maxSize: nat, tx: Tx)
    requires !AddTo(P, list, maxSize, tx).0
    ensures AddTo(P, list, maxSize, tx).1 == list
  {
  }

  // ---- replace-by-fee --------------------------------------------------------------------

  lemma {:induction false} SlotOf(list: seq<Tx>, tx: Tx, i: nat)
    requires NonceOrdered(list) && i < |list| && SameSlot(list[i], tx)
    ensures SlotIndex(list, tx) == Some(i)
  {
    var n := |list| - 1;
    if i < n {
      assert list[i].nonce < list[n].nonce || list[i].sender != list[n].sender;
      SlotOf(list[..n], tx, i);
    }
  }

  function SlotFee(list: seq<Tx>, slot: Tx): int
    requires SlotIndex(list, slot).Some?
  {
    list[SlotIndex(list, slot).value].feePerGas
  }

  // Whether an offer is let in and takes the slot.
  predicate Takes(P: Params, list: seq<Tx>, maxSize: nat, slot: Tx, tx: Tx) {
    SameSlot(tx, slot) && AddTo(P, list, maxSize, tx).0
  }

  // An offer leaves an occupied slot occupied; only a better-paying replacement changes its fee.
  lemma OfferAndSlot(P: Params, list: seq<Tx>, maxSize: nat, slot: Tx, tx: Tx)
    requires NonceOrdered(list) && |list| <= maxSize && SlotIndex(list, slot).Some?
    ensures var r := AddTo(P, list, maxSize, tx).1;
            SlotIndex(r, slot).Some? &&
            if Takes(P, list, maxSize, slot, tx)
            then SlotFee(r, slot) == tx.feePerGas && 11 * SlotFee(list, slot) < 10 * tx.feePerGas
            else SlotFee(r, slot) == SlotFee(list, slot)
  {
    hide InsertWithin, LowerBound, UpperBound, NonceOrdered;
    var (ok, r) := AddTo(P, list, maxSize, tx);
    var k := SlotIndex(list, slot).value;
    if ok {
      AddKeepsNonceOrder(P, list, maxSize, tx);
      var lo, hi := LowerBound(list, tx), UpperBound(list, tx);
      if SameSlot(tx, slot) {
        SlotOf(list, tx, k);
        var rest := list[..k] + list[k + 1..];
        TakenAt(rest, Shift(lo, k), Shift(hi, k), tx, r, slot);
      } else {
        var rest := match SlotIndex(list, tx) case Some(i) => list[..i] + list[i + 1..] case None => list;
        var k' := if SlotIndex(list, tx).Some? && SlotIndex(list, tx).value < k then k - 1 else k;
        assert rest[k'] == list[k];
        if SlotIndex(list, tx).Some? {
          var i := SlotIndex(list, tx).value;
          var at, place := InsertContains(rest, Shift(lo, i), Shift(hi, i), tx, k');
          SlotOf(r, slot, place);
        } else {
          var at, place := InsertContains(rest, lo, hi, tx, k');
          SlotOf(r, slot, place);
        }
      }
    }
  }

  lemma TakenAt(rest: seq<Tx>, lo: nat, hi: nat, tx: Tx, r: seq<Tx>, slot: Tx)
    requires hi <= |rest| && r == InsertWithin(rest, lo, hi, tx) && NonceOrdered(r) && SameSlot(tx, slot)
    ensures SlotIndex(r, slot).Some? && SlotFee(r, slot) == tx.feePerGas
  {
    hide FirstCheaper, NonceOrdered;
    SlotOf(r, slot, FirstCheaper(rest, Min(lo, hi), hi, tx.feePerGas));
  }

  function OfferAll(P: Params, list: seq<Tx>, maxSize: nat, txs: seq<Tx>): seq<Tx> {
    if txs == [] then list else
    AddTo(P, OfferAll(P, list, maxSize, txs[..|txs| - 1]), maxSize, txs[|txs| - 1]).1
  }

  ghost predicate Apart(s: Tx, t: Tx) {
    s.sender != t.sender || s.nonce != t.nonce
  }

  // An offer removes nothing but the entry whose sender and nonce it has.
  lemma OfferKeeps(P: Params, list: seq<Tx>, maxSize: nat, tx: Tx, t: Tx)
    requires t in list && Apart(tx, t)
    ensures t in AddTo(P, list, maxSize, tx).1
  {
    hide AddTo, SlotIndex;
    AddContents(P, list, maxSize, tx);
    var (added, list') := AddTo(P, list, maxSize, tx);
    if added {
      assert t in multiset(list) + multiset{tx};
      assert t in multiset(list');
    }
  }

  lemma FreeSlot(list: seq<Tx>, tx: Tx)
    requires forall e | e in list :: Apart(e, tx)
    ensures SlotIndex(list, tx) == None
  {
    hide SlotIndex;
    forall i | 0 <= i < |list| ensures Apart(list[i], tx) {
    }
  }

  lemma OfferTaken(P: Params, list: seq<Tx>, maxSize: nat, tx: Tx)
    requires P.signed(tx) && |list| < maxSize && forall e | e in list :: Apart(e, tx)
    ensures tx in AddTo(P, list, maxSize, tx).1
  {
    hide AddTo, SlotIndex;
    AddContents(P, list, maxSize, tx);
    var (added, list') := AddTo(P, list, maxSize, tx);
    FreeSlot(list, tx);
    assert tx in multiset(list) + multiset{tx};
    assert tx in multiset(list');
  }

  lemma OfferSize(P: Params, list: seq<Tx>, maxSize: nat, tx: Tx)
    ensures |AddTo(P, list, maxSize, tx).1| <= |list| + 1
  {
    hide AddTo, SlotIndex;
    AddContents(P, list, maxSize, tx);
    var (added, list') := AddTo(P, list, maxSize, tx);
    if added {
      var replaced := if SlotIndex(list, tx).Some? then multiset{list[SlotIndex(list, tx).value]} else multiset{};
      assert |multiset(list') + replaced| == |multiset(list) + multiset{tx}|;
      assert |multiset(list')| == |list'| && |multiset(list)| == |list|;
    }
  }

  lemma {:induction false} OfferAllKeeps(P: Params, list: seq<Tx>, maxSize: nat, txs: seq<Tx>, t: Tx)
    requires t in list && forall s | s in txs :: Apart(s, t)
    ensures t in OfferAll(P, list, maxSize, txs)
  {
    hide AddTo;
    if txs != [] {
      var front := txs[..|txs| - 1];
      OfferAllKeeps(P, list, maxSize, front, t);
      OfferKeeps(P, OfferAll(P, list, maxSize, front), maxSize, txs[|txs| - 1], t);
    }
  }

  lemma {:induction false} OfferAllOnly(P: Params, list: seq<Tx>, maxSize: nat, txs: seq<Tx>)
    ensures forall e | e in OfferAll(P, list, maxSize, txs) :: e in list || e in txs
    ensures |OfferAll(P, list, maxSize, txs)| <= |list| + |txs|
  {
    hide AddTo;
    if txs != [] {
      var front := txs[..|txs| - 1];
      OfferAllOnly(P, list, maxSize, front);
      OfferOnly(P, OfferAll(P, list, maxSize, front), maxSize, txs[|txs| - 1]);
      OfferSize(P, OfferAll(P, list, maxSize, front), maxSize, txs[|txs| - 1]);
    }
  }

  /** Of several offers to a pool with room for all, each signed one whose sender and nonce neither
      the pool nor another offer has is in the pool afterwards. */
  lemma {:induction false} OfferAllTakes(P: Params, list: seq<Tx>, maxSize: nat, txs: seq<Tx>, i: nat)
    requires i < |txs| && P.signed(txs[i]) && |list| + |txs| <= maxSize
    requires forall e | e in list :: Apart(e, txs[i])
    requires forall j | 0 <= j < |txs| && j != i :: Apart(txs[j], txs[i])
    ensures txs[i] in OfferAll(P, list, maxSize, txs)
    decreases |txs|
  {
    hide AddTo, Apart;
    var n := |txs| - 1;
    var front, pool := txs[..n], OfferAll(P, list, maxSize, txs[..n]);
    OfferAllOnly(P, list, maxSize, front);
    if i == n {
      forall e | e in pool ensures Apart(e, txs[i]) {
        if e in front { var j :| 0 <= j < |front| && front[j] == e; assert txs[j] == e; }
      }
      OfferTaken(P, pool, maxSize, txs[i]);
    } else {
      OfferAllTakes(P, list, maxSize, front, i);
      ApartSym(txs[n], txs[i]);
      OfferKeeps(P, pool, maxSize, txs[n], txs[i]);
    }
  }

  lemma ApartSym(s: Tx, t: Tx)
    ensures Apart(s, t) <==> Apart(t, s)
  {
  }

  // ---- offering back ---------------------------------------------------------------------

  ghost predicate Within(part: seq<Tx>, whole: seq<Tx>) {
    forall t | t in part :: t in whole
  }

  lemma {:induction false} FewerElements(part: seq<Tx>, whole: seq<Tx>, left: Tx)
    requires NonceOrdered(part) && Within(part, whole) && left in whole && left !in part
    ensures |part| < |whole|
    decreases |part|
  {
    if part != [] {
      var n := |part| - 1;
      assert part[n] in part;
      var k :| 0 <= k < |whole| && whole[k] == part[n];
      var rest := whole[..k] + whole[k + 1..];
      assert whole == whole[..k] + [whole[k]] + whole[k + 1..];
      forall t | t in part[..n] ensures t in rest {
        var i :| 0 <= i < n && part[i] == t;
        assert part[i] != part[n];
        assert t in part;
      }
      assert left in rest;
      FewerElements(part[..n], rest, left);
    }
  }

  /** Offering a pool's own entries back never drops one and lets each in that is missing. */
  lemma OfferOwn(P: Params, pool: seq<Tx>, list: seq<Tx>, maxSize: nat, tx: Tx)
    requires NonceOrdered(list) && |list| <= maxSize && tx in list && P.signed(tx)
    requires NonceOrdered(pool) && Within(pool, list)
    ensures var pool' := AddTo(P, pool, maxSize, tx).1;
            NonceOrdered(pool') && Within(pool', list) && Within(pool, pool') && tx in pool'
  {
    hide AddTo, SlotIndex, NonceOrdered;
    var pool' := AddTo(P, pool, maxSize, tx).1;
    AddContents(P, pool, maxSize, tx);
    OfferOnly(P, pool, maxSize, tx);
    forall e | e in pool && !Apart(tx, e) ensures e == tx { OneOfSlot(list, e, tx); }
    if tx in pool {
      assert pool' == pool by {
        var i :| 0 <= i < |pool| && pool[i] == tx;
        assert SlotIndex(pool, tx).Some?;
        assert pool[SlotIndex(pool, tx).value] in pool;
      }
    } else {
      FewerElements(pool, list, tx);
      OfferTaken(P, pool, maxSize, tx);
      forall e | e in pool ensures e in pool' { OfferKeeps(P, pool, maxSize, tx, e); }
      AddKeepsNonceOrder(P, pool, maxSize, tx);
    }
  }

  lemma OneOfSlot(list: seq<Tx>, s: Tx, t: Tx)
    requires NonceOrdered(list) && s in list && t in list && !Apart(s, t)
    ensures s == t
  {
    var i :| 0 <= i < |list| && list[i] == s;
    var j :| 0 <= j < |list| && list[j] == t;
    assert i == j;
  }

  lemma {:induction false} OfferAllOwn(P: Params, pool: seq<Tx>, list: seq<Tx>, maxSize: nat, txs: seq<Tx>)
    requires NonceOrdered(list) && |list| <= maxSize && Within(txs, list) && forall t | t in txs :: P.signed(t)
    requires NonceOrdered(pool) && Within(pool, list)
    ensures var pool' := OfferAll(P, pool, maxSize, txs);
            NonceOrdered(pool') && Within(pool', list) && Within(pool, pool') && Within(txs, pool')
  {
    hide AddTo, NonceOrdered;
    if txs != [] {
      var front, tx := txs[..|txs| - 1], txs[|txs| - 1];
      assert txs == front + [tx];
      OfferAllOwn(P, pool, list, maxSize, front);
      OfferOwn(P, OfferAll(P, pool, maxSize, front), list, maxSize, tx);
    }
  }

  // How often the slot is taken over.
  function Replacements(P: Params, list: seq<Tx>, maxSize: nat, slot: Tx, txs: seq<Tx>): nat {
    if txs == [] then 0 else
    var front, t := txs[..|txs| - 1], txs[|txs| - 1];
    Replacements(P, list, maxSize, slot, front) +
      if Takes(P, OfferAll(P, list, maxSize, front), maxSize, slot, t) then 1 else 0
  }

  function Power(base: int, k: nat): int {
    if k == 0 then 1 else base * Power(base, k - 1)
  }

  lemma {:induction false} PowerPositive(base: int, k: nat)
    requires 0 < base
    ensures 0 < Power(base, k)
  {
    if k > 0 { PowerPositive(base, k - 1); }
  }

  lemma GrowOnce(p: int, q: int, first: int, before: int, after: int)
    requires 0 < p && q * first <= p * before && 11 * before < 10 * after
    ensures 11 * q * first < 10 * p * after
  {
    assert p * (11 * before) < p * (10 * after);
  }

  /** Replace-by-fee compounds: k takeovers of a slot force its fee above (11/10)^k times the
      first, whatever else is offered in between. */
  lemma {:induction false} FeesCompound(P: Params, list: seq<Tx>, maxSize: nat, slot: Tx, txs: seq<Tx>)
    requires NonceOrdered(list) && |list| <= maxSize && SlotIndex(list, slot).Some?
    ensures var (r, k) := (OfferAll(P, list, maxSize, txs), Replacements(P, list, maxSize, slot, txs));
            && NonceOrdered(r) && |r| <= maxSize && SlotIndex(r, slot).Some?
            && Power(11, k) * SlotFee(list, slot) <= Power(10, k) * SlotFee(r, slot)
            && (0 < k ==> Power(11, k) * SlotFee(list, slot) < Power(10, k) * SlotFee(r, slot))
  {
    hide AddTo, NonceOrdered, SlotIndex;
    if txs != [] {
      var front, t := txs[..|txs| - 1], txs[|txs| - 1];
      FeesCompound(P, list, maxSize, slot, front);
      var before, k := OfferAll(P, list, maxSize, front), Replacements(P, list, maxSize, slot, front);
      AddKeepsNonceOrder(P, before, maxSize, t);
      OfferAndSlot(P, before, maxSize, slot, t);
      if Takes(P, before, maxSize, slot, t) {
        PowerPositive(10, k);
        GrowOnce(Power(10, k), Power(11, k), SlotFee(list, slot), SlotFee(before, slot), t.feePerGas);
      }
    }
  }
}
