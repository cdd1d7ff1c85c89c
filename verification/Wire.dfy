/** Blocks and transactions as dictionaries (`minichain/block.py`, `minichain/transaction.py`):
    what comes back from `from_dict(to_dict(b))`, and the cached, sealed transaction id. */
module Wire {
  import opened Prelude
  import opened Merkle
  import opened Chain

  // ---- hexadecimal text ------------------------------------------------------------------

  const DIGITS := "0123456789abcdef"

  function DigitValue(c: char): Option<int> {
    if '0' <= c <= '9' then Some(c as int - '0' as int)
    else if 'a' <= c <= 'f' then Some(c as int - 'a' as int + 10)
    else if 'A' <= c <= 'F' then Some(c as int - 'A' as int + 10)
    else None
  }

  function HexDigits(n: nat): (s: string)
    ensures s != ""
  {
    if n < 16 then [DIGITS[n]] else HexDigits(n / 16) + [DIGITS[n % 16]]
  }

  // hex(n)
  function Hex(n: int): string {
    if n < 0 then "-0x" + HexDigits(-n) else "0x" + HexDigits(n)
  }

  function ParseDigits(s: string): Option<int> {
    if s == "" then None else
    var low := DigitValue(s[|s| - 1]);
    if low.None? then None
    else if |s| == 1 then Some(low.value)
    else var high := ParseDigits(s[..|s| - 1]);
         if high.None? then None else Some(high.value * 16 + low.value)
  }

  function ParsePrefixed(s: string): Option<int> {
    if |s| >= 2 && s[0] == '0' && (s[1] == 'x' || s[1] == 'X') then ParseDigits(s[2..]) else ParseDigits(s)
  }

  // int(s, 16)
  function ParseHex(s: string): Option<int> {
    if s != "" && s[0] == '-' then match ParsePrefixed(s[1..]) case Some(n) => Some(-n) case None => None
    else ParsePrefixed(if s != "" && s[0] == '+' then s[1..] else s)
  }

  lemma DigitRoundTrip(n: int)
    requires 0 <= n < 16
    ensures DigitValue(DIGITS[n]) == Some(n)
  {
  }

  lemma {:induction false} DigitsRoundTrip(n: nat)
    ensures ParseDigits(HexDigits(n)) == Some(n)
  {
    var s := HexDigits(n);
    if n < 16 {
      DigitRoundTrip(n);
    } else {
      DigitsRoundTrip(n / 16);
      DigitRoundTrip(n % 16);
      assert s[..|s| - 1] == HexDigits(n / 16) && s[|s| - 1] == DIGITS[n % 16];
    }
  }

  lemma PrefixedRoundTrip(n: nat)
    ensures ParsePrefixed("0x" + HexDigits(n)) == Some(n)
  {
    hide ParseDigits, HexDigits;
    var s := "0x" + HexDigits(n);
    DigitsRoundTrip(n);
    assert s[2..] == HexDigits(n);
  }

  /** Parsing what was printed gives the number back, whatever its sign and size. */
  lemma HexRoundTrip(n: int)
    ensures ParseHex(Hex(n)) == Some(n)
  {
    hide ParsePrefixed, HexDigits;
    PrefixedRoundTrip(if n < 0 then -n else n);
    if n < 0 {
      assert Hex(n)[1..] == "0x" + HexDigits(-n);
    }
  }

  /** The text is ordinary hexadecimal: the digits 0 to f in either case stand for 0 to 15, and each
      further digit counts sixteen times less. */
  lemma HexIsPositional(s: string, d: nat)
    requires d < 16
    ensures var (lower, upper) := ("0123456789abcdef"[d], "0123456789ABCDEF"[d]);
            && ParseDigits([lower]) == ParseDigits([upper]) == Some(d)
            && (s != "" && ParseDigits(s).Some? ==>
                  ParseDigits(s + [lower]) == ParseDigits(s + [upper]) == Some(16 * ParseDigits(s).value + d))
  {
    hide DigitValue, ParseDigits;
    DigitValues(d);
    DigitAppend(s, "0123456789abcdef"[d], d);
    DigitAppend(s, "0123456789ABCDEF"[d], d);
  }

  lemma DigitAppend(s: string, c: char, d: nat)
    requires DigitValue(c) == Some(d)
    ensures ParseDigits([c]) == Some(d)
    ensures s != "" && ParseDigits(s).Some? ==> ParseDigits(s + [c]) == Some(16 * ParseDigits(s).value + d)
  {
    hide DigitValue;
    assert (s + [c])[..|s|] == s;
  }

  lemma DigitValues(d: nat)
    requires d < 16
    ensures DigitValue("0123456789abcdef"[d]) == Some(d) && DigitValue("0123456789ABCDEF"[d]) == Some(d)
  {
  }

  /** What is printed is lower-case, without leading zeros. */
  lemma {:induction false} HexIsPlain(n: nat)
    ensures var s := HexDigits(n);
            && (forall i | 0 <= i < |s| :: s[i] in "0123456789abcdef")
            && (s[0] == '0' ==> n == 0) && |Hex(n)| == |s| + 2 && Hex(n)[..2] == "0x" && Hex(n)[2..] == s
  {
    if n >= 16 {
      HexIsPlain(n / 16);
    }
  }

  // ---- transactions ----------------------------------------------------------------------

  const MILLISECONDS: int := 1_000_000_000_000

  // Seconds become milliseconds; what looks like milliseconds stays.
  function NormalizeTs(ts: int): int {
    if ts < MILLISECONDS then ts * 1000 else ts
  }

  // What a second normalisation leaves alone.
  predicate Stable(ts: int) {
    MILLISECONDS <= ts || ts == 0
  }

  /** The normalisation leaves a timestamp alone exactly when it already is in milliseconds, or
      zero. */
  lemma NormalizedStays(ts: int)
    ensures NormalizeTs(ts) == ts <==> Stable(ts)
  {
  }

  /** A time given to the first parse survives the later ones exactly when it is zero or at least
      10^9, in seconds or milliseconds. */
  lemma SecondsSurvive(ts: int)
    ensures Stable(NormalizeTs(ts)) <==> ts == 0 || 1_000_000_000 <= ts
  {
  }

  // A key of a dictionary that may be absent.
  datatype WireTx = WireTx(
    sender: Address, receiver: Option<Option<Address>>, amount: int, gasLimit: Option<int>, feePerGas: Option<int>,
    nonce: int, data: Option<Option<string>>, chainId: Option<string>, timestamp: Option<int>,
    signature: Option<Option<string>>)

  const DEFAULT_CHAIN := "minichain-default"

  function Flat<T>(o: Option<Option<T>>): Option<T> {
    if o.Some? then o.value else None
  }

  function Or<T>(o: Option<T>, default: T): T {
    if o.Some? then o.value else default
  }

  // `Transaction.to_dict`
  function TxToDict(tx: Tx): WireTx {
    WireTx(tx.sender, Some(tx.receiver), tx.amount, Some(tx.gasLimit), Some(tx.feePerGas), tx.nonce, Some(tx.data),
           Some(tx.chainId), Some(tx.timestamp), Some(tx.signature))
  }

  // `Transaction.from_dict`; the timestamp goes through the constructor once more.
  function TxFromDict(w: WireTx, now: int): Tx {
    Tx(w.sender, Flat(w.receiver), w.amount, Or(w.gasLimit, 0), Or(w.feePerGas, 0), w.nonce, Flat(w.data),
       Or(w.chainId, DEFAULT_CHAIN),
       if w.timestamp.Some? then NormalizeTs(w.timestamp.value) else now, Flat(w.signature))
  }

  // ---- blocks ----------------------------------------------------------------------------

  datatype WireTarget = Text(s: string) | Number(n: int)

  datatype WireBlock = WireBlock(
    index: nat, previousHash: Hash, merkleRoot: Option<Option<Hash>>, stateRoot: Hash,
    receiptRoot: Option<Option<Hash>>,
    timestamp: Option<int>, target: Option<WireTarget>, nonce: Option<int>, miner: Option<string>,
    txs: seq<WireTx>, receipts: seq<Receipt>, hash: Hash)

  /** `Block.to_dict`: the header with its target in hexadecimal, the body, and the hash. */
  function BlockToDict(P: Params, b: Block): WireBlock {
    WireBlock(b.index, b.previousHash, Some(MerkleRoot(P, b.txs)), b.stateRoot, Some(b.receiptRoot), Some(b.timestamp),
              Some(Text(Hex(b.target))), Some(b.nonce), b.miner,
              seq(|b.txs|, i requires 0 <= i < |b.txs| => TxToDict(b.txs[i])), b.receipts, b.hash)
  }

  datatype Parsed = Ok(block: Block) | BadTarget | BadHash | BadMerkleRoot | BadReceiptRoot

  function ParseTarget(t: Option<WireTarget>): Option<int> {
    match t
    case None => None
    case Some(Text(s)) => ParseHex(s)
    case Some(Number(n)) => Some(n)
  }

  // `Block.__init__`, then the nonce and hash that `from_dict` sets.
  function Construct(P: Params, w: WireBlock, target: int, now: int): Block {
    var txs := seq(|w.txs|, i requires 0 <= i < |w.txs| => TxFromDict(w.txs[i], now));
    var ts := Or(w.timestamp, 0);
    var receiptRoot := Flat(w.receiptRoot);
    Block(w.index, w.previousHash, target, txs, if ts == 0 then now else ts, w.stateRoot,
          if receiptRoot.None? && w.receipts != [] then ReceiptRoot(P, w.receipts) else receiptRoot,
          w.receipts, w.miner, Or(w.nonce, 0), w.hash)
  }

  /** `Block.from_dict` */
  function BlockFromDict(P: Params, w: WireBlock, now: int): Parsed {
    var target := ParseTarget(w.target);
    if target.None? || target.value <= 0 || target.value > MAX_TARGET then BadTarget else
    var b := Construct(P, w, target.value, now);
    if b.hash != P.headerHash(HeaderOf(P, b)) then BadHash
    else if w.merkleRoot.Some? && w.merkleRoot.value != MerkleRoot(P, b.txs) then BadMerkleRoot
    else if w.receiptRoot.Some? && w.receiptRoot.value != ReceiptRoot(P, b.receipts) then BadReceiptRoot
    else Ok(b)
  }

  /** What a block needs to survive the trip. */
  ghost predicate Sendable(P: Params, b: Block, now: int) {
    && b.hash == P.headerHash(HeaderOf(P, b))
    && 0 < b.target <= MAX_TARGET
    && b.receiptRoot == ReceiptRoot(P, b.receipts)
    && (b.timestamp != 0 || now == 0)
    && forall i | 0 <= i < |b.txs| :: Stable(b.txs[i].timestamp)
  }

  /** Every field travels under its own name. */
  lemma DictFields(P: Params, b: Block, tx: Tx)
    ensures var t := TxToDict(tx);
            && t.sender == tx.sender && t.receiver == Some(tx.receiver) && t.amount == tx.amount
            && t.gasLimit == Some(tx.gasLimit) && t.feePerGas == Some(tx.feePerGas) && t.nonce == tx.nonce
            && t.data == Some(tx.data) && t.chainId == Some(tx.chainId) && t.timestamp == Some(tx.timestamp)
            && t.signature == Some(tx.signature)
    ensures var d := BlockToDict(P, b);
            && d.index == b.index && d.previousHash == b.previousHash && d.merkleRoot == Some(MerkleRoot(P, b.txs))
            && d.stateRoot == b.stateRoot && d.receiptRoot == Some(b.receiptRoot) && d.timestamp == Some(b.timestamp)
            && d.target == Some(Text(Hex(b.target))) && d.nonce == Some(b.nonce) && d.miner == b.miner
            && |d.txs| == |b.txs| && (forall i | 0 <= i < |b.txs| :: d.txs[i] == TxToDict(b.txs[i]))
            && d.receipts == b.receipts && d.hash == b.hash
  {
  }

  /** What the parser makes of a dictionary, and when. The target must be there and between 1 and
      2^256 - 1; the hash must be that of the header; roots that are given must be the recomputed
      ones. Missing keys get their defaults. */
  lemma ParseExactly(P: Params, w: WireBlock, now: int)
    ensures var target := match w.target
                          case None => None case Some(Text(s)) => ParseHex(s) case Some(Number(n)) => Some(n);
            var r := BlockFromDict(P, w, now);
            && (r == BadTarget <==> target == None || target.value < 1 || TWO_256 <= target.value)
            && (r.Ok? ==>
                  FromDict(P, w, now, r.block) && RootsAgree(P, w, r.block))
            && (forall b :: r != BadTarget && FromDict(P, w, now, b) && RootsAgree(P, w, b) ==> r == Ok(b))
  {
    hide MerkleRoot, ReceiptRoot, ParseHex, Construct, FromDict, HeaderOf;
    var target := ParseTarget(w.target);
    forall b ensures FromDict(P, w, now, b) <==>
                     target.Some? && b == Construct(P, w, target.value, now) && b.hash == P.headerHash(HeaderOf(P, b))
    {
      Described(P, w, now, b);
    }
  }

  lemma TxDescribedExactly(w: WireTx, now: int, tx: Tx)
    ensures TxDescribed(w, now, tx) <==> tx == TxFromDict(w, now)
  {
  }

  lemma Described(P: Params, w: WireBlock, now: int, b: Block)
    ensures FromDict(P, w, now, b) <==>
            ParseTarget(w.target).Some? && b == Construct(P, w, ParseTarget(w.target).value, now)
            && b.hash == P.headerHash(HeaderOf(P, b))
  {
    hide MerkleRoot, ReceiptRoot, ParseHex, TxFromDict, TxDescribed;
    forall i | 0 <= i < |b.txs| && i < |w.txs|
      ensures TxDescribed(w.txs[i], now, b.txs[i]) <==> b.txs[i] == TxFromDict(w.txs[i], now)
    {
      TxDescribedExactly(w.txs[i], now, b.txs[i]);
    }
    if ParseTarget(w.target).Some? {
      var c := Construct(P, w, ParseTarget(w.target).value, now);
      assert |b.txs| == |w.txs| ==> (b.txs == c.txs <==> forall i | 0 <= i < |b.txs| :: b.txs[i] == c.txs[i]);
    }
  }

  // Roots that are given are the recomputed ones.
  ghost predicate RootsAgree(P: Params, w: WireBlock, b: Block) {
    && (w.merkleRoot == None || w.merkleRoot == Some(MerkleRoot(P, b.txs)))
    && (w.receiptRoot == None || w.receiptRoot == Some(ReceiptRoot(P, b.receipts)))
  }

  // The block that a dictionary describes, with an honest hash.
  ghost predicate FromDict(P: Params, w: WireBlock, now: int, b: Block) {
    && b.index == w.index && b.previousHash == w.previousHash && b.stateRoot == w.stateRoot && b.miner == w.miner
    && b.receipts == w.receipts && b.hash == w.hash
    && b.nonce == (match w.nonce case None => 0 case Some(n) => n)
    && b.timestamp == (if w.timestamp == None || w.timestamp == Some(0) then now else w.timestamp.value)
    && Some(b.target) == (match w.target
                          case None => None case Some(Text(s)) => ParseHex(s) case Some(Number(n)) => Some(n))
    && b.receiptRoot == (
         match w.receiptRoot
         case Some(Some(root)) => Some(root)
         case _ => if w.receipts == [] then None else ReceiptRoot(P, w.receipts))
    && |b.txs| == |w.txs| && (forall i | 0 <= i < |b.txs| :: TxDescribed(w.txs[i], now, b.txs[i]))
    && b.hash == P.headerHash(Header(b.index, b.previousHash, MerkleRoot(P, b.txs), b.stateRoot, b.receiptRoot,
                                     b.timestamp, b.target, b.nonce, b.miner))
  }

  // The transaction that a dictionary describes.
  predicate TxDescribed(w: WireTx, now: int, tx: Tx) {
    && tx.sender == w.sender && tx.amount == w.amount && tx.nonce == w.nonce
    && tx.receiver == (match w.receiver case None => None case Some(r) => r)
    && tx.gasLimit == (match w.gasLimit case None => 0 case Some(g) => g)
    && tx.feePerGas == (match w.feePerGas case None => 0 case Some(f) => f)
    && tx.data == (match w.data case None => None case Some(d) => d)
    && tx.chainId == (match w.chainId case None => "minichain-default" case Some(c) => c)
    && tx.signature == (match w.signature case None => None case Some(s) => s)
    && tx.timestamp == (match w.timestamp
                        case None => now
                        case Some(ts) => if ts < 1_000_000_000_000 then 1000 * ts else ts)
  }

  lemma TxRoundTrip(tx: Tx, now: int)
    ensures TxFromDict(TxToDict(tx), now) == tx <==> Stable(tx.timestamp)
  {
    NormalizedStays(tx.timestamp);
  }

  lemma ConstructBack(P: Params, b: Block, now: int)
    requires b.receiptRoot == ReceiptRoot(P, b.receipts)
    ensures Construct(P, BlockToDict(P, b), b.target, now) == b <==>
      (b.timestamp != 0 || now == 0) && forall i | 0 <= i < |b.txs| :: Stable(b.txs[i].timestamp)
  {
    hide TxFromDict, TxToDict, HeaderOf, MerkleRoot, ReceiptRoot, Hex;
    var w := BlockToDict(P, b);
    var c := Construct(P, w, b.target, now);
    forall i | 0 <= i < |b.txs| ensures c.txs[i] == b.txs[i] <==> Stable(b.txs[i].timestamp) {
      TxRoundTrip(b.txs[i], now);
      assert w.txs[i] == TxToDict(b.txs[i]);
    }
    assert c.txs == b.txs <==> forall i | 0 <= i < |b.txs| :: c.txs[i] == b.txs[i];
  }

  /** A block comes back field for field exactly when its hash is its header's, its target is in
      range, its receipt root matches its receipts, its timestamp is set and its transactions'
      timestamps are in milliseconds. */
  lemma BlockRoundTrip(P: Params, b: Block, now: int)
    ensures BlockFromDict(P, BlockToDict(P, b), now) == Ok(b) <==> Sendable(P, b, now)
  {
    hide Construct, HeaderOf, MerkleRoot, ReceiptRoot, Hex, ParseHex;
    HexRoundTrip(b.target);
    ReceiptsKept(P, b, now);
    if b.receiptRoot == ReceiptRoot(P, b.receipts) {
      ConstructBack(P, b, now);
    }
  }

  lemma ReceiptsKept(P: Params, b: Block, now: int)
    ensures Construct(P, BlockToDict(P, b), b.target, now).receipts == b.receipts
  {
  }

  /** A block as a chain holds it: only its timestamps may keep it from surviving the trip. */
  ghost predicate WellMade(P: Params, b: Block) {
    && b.hash == P.headerHash(HeaderOf(P, b)) && 0 < b.target <= MAX_TARGET
    && b.receiptRoot == ReceiptRoot(P, b.receipts)
  }

  /** On the wire a well-made block arrives intact or not at all: what comes back under its hash
      cannot differ from it. */
  lemma IntactOrLost(P: Params, b: Block, now: int)
    requires Ideal(P) && WellMade(P, b)
    ensures BlockFromDict(P, BlockToDict(P, b), now) == Ok(b) <==> Sendable(P, b, now)
    ensures BlockFromDict(P, BlockToDict(P, b), now).Ok? <==> Sendable(P, b, now)
  {
    hide BlockToDict, BlockFromDict, Construct;
    BlockRoundTrip(P, b, now);
    if BlockFromDict(P, BlockToDict(P, b), now).Ok? {
      var c := BlockFromDict(P, BlockToDict(P, b), now).block;
      ParsedIsHonest(P, BlockToDict(P, b), now);
      ParsedKeeps(P, b, now);
      assert HeaderOf(P, c) == HeaderOf(P, b);
      SameLengthTxs(P, c.txs, b.txs);
      assert c == b;
    }
  }

  lemma ParsedKeeps(P: Params, b: Block, now: int)
    requires BlockFromDict(P, BlockToDict(P, b), now).Ok?
    ensures var c := BlockFromDict(P, BlockToDict(P, b), now).block;
            c.hash == b.hash && c.receipts == b.receipts && |c.txs| == |b.txs|
  {
    hide HeaderOf, MerkleRoot, ReceiptRoot, Hex, ParseHex, TxToDict, TxFromDict;
  }

  lemma SameLengthTxs(P: Params, s: seq<Tx>, t: seq<Tx>)
    requires Ideal(P) && |s| == |t| && MerkleRoot(P, s) == MerkleRoot(P, t)
    ensures s == t
  {
    EqualLengthRoots(P.pairHash, TxIds(P, s), TxIds(P, t));
    forall i | 0 <= i < |s| ensures s[i] == t[i] {
      assert TxIds(P, s)[i] == TxIds(P, t)[i];
    }
  }

  /** What came over the wire is honest: its hash is its header's, its target is in range, and it
      has no receipts without a receipt root. */
  lemma ParsedIsHonest(P: Params, w: WireBlock, now: int)
    requires BlockFromDict(P, w, now).Ok?
    ensures var b := BlockFromDict(P, w, now).block;
            && b.hash == P.headerHash(HeaderOf(P, b)) && 0 < b.target <= MAX_TARGET
            && (b.receiptRoot.None? ==> b.receipts == [])
  {
    hide HeaderOf, MerkleRoot, ParseTarget;
  }

  /** The parser pins the genesis block: what it accepts under the genesis hash is the genesis
      block, field for field. */
  lemma ParsedGenesis(P: Params, w: WireBlock, now: int)
    requires Ideal(P) && BlockFromDict(P, w, now).Ok?
    requires BlockFromDict(P, w, now).block.hash == GenesisBlock(P).hash
    ensures BlockFromDict(P, w, now).block == GenesisBlock(P)
  {
    hide BlockFromDict;
    var b := BlockFromDict(P, w, now).block;
    ParsedIsHonest(P, w, now);
    assert HeaderOf(P, b) == HeaderOf(P, GenesisBlock(P));
  }

  // ---- the transaction object ------------------------------------------------------------

  // One assignment to a field of a transaction.
  datatype Assignment =
    | SetSender(sender: Address) | SetReceiver(receiver: Option<Address>) | SetAmount(amount: int)
    | SetGasLimit(gasLimit: int) | SetFee(feePerGas: int) | SetNonce(nonce: int) | SetData(data: Option<string>)
    | SetTimestamp(timestamp: int) | SetChain(chainId: string) | SetSignature(signature: Option<string>)

  function Assigned(tx: Tx, a: Assignment): Tx {
    match a
    case SetSender(x) => tx.(sender := x)
    case SetReceiver(x) => tx.(receiver := x)
    case SetAmount(x) => tx.(amount := x)
    case SetGasLimit(x) => tx.(gasLimit := x)
    case SetFee(x) => tx.(feePerGas := x)
    case SetNonce(x) => tx.(nonce := x)
    case SetData(x) => tx.(data := x)
    case SetTimestamp(x) => tx.(timestamp := x)
    case SetChain(x) => tx.(chainId := x)
    case SetSignature(x) => tx.(signature := x)
  }

  /** A transaction with its memoised id; signing seals it for good. */
  class Transaction {
    const P: Params
    var tx: Tx
    var cachedTxId: Option<Hash>
    var sealed: bool

    // A cached id is the id of the current fields.
    ghost predicate Valid()
      reads this
    {
      cachedTxId.Some? ==> cachedTxId.value == P.txId(tx)
    }

    constructor (P: Params, tx: Tx)
      ensures Valid() && this.P == P && this.tx == tx.(timestamp := NormalizeTs(tx.timestamp)) && !sealed
    {
      this.P, this.tx, cachedTxId, sealed := P, tx.(timestamp := NormalizeTs(tx.timestamp)), None, false;
    }

    /** `__setattr__` on a transaction field: refused once sealed; otherwise the cache is dropped. */
    method Assign(a: Assignment) returns (ok: bool)
      requires Valid()
      modifies this
      ensures Valid() && ok == !old(sealed) && sealed == old(sealed)
      ensures !ok ==> tx == old(tx)
      ensures ok ==> match a
                     case SetSender(x) => tx == old(tx).(sender := x)
                     case SetReceiver(x) => tx == old(tx).(receiver := x)
                     case SetAmount(x) => tx == old(tx).(amount := x)
                     case SetGasLimit(x) => tx == old(tx).(gasLimit := x)
                     case SetFee(x) => tx == old(tx).(feePerGas := x)
                     case SetNonce(x) => tx == old(tx).(nonce := x)
                     case SetData(x) => tx == old(tx).(data := x)
                     case SetTimestamp(x) => tx == old(tx).(timestamp := x)
                     case SetChain(x) => tx == old(tx).(chainId := x)
                     case SetSignature(x) => tx == old(tx).(signature := x)
    {
      if sealed {
        return false;
      }
      tx := Assigned(tx, a);
      cachedTxId := None;
      return true;
    }

    /** `tx_id` */
    method TxId() returns (id: Hash)
      requires Valid()
      modifies `cachedTxId
      ensures Valid() && id == P.txId(tx) && cachedTxId == Some(id)
    {
      if cachedTxId.None? {
        cachedTxId := Some(P.txId(tx));
      }
      id := cachedTxId.value;
    }

    /** `sign` with a key whose address and signature are given. */
    method Sign(keyAddress: Address, signature: string) returns (ok: bool)
      requires Valid()
      modifies this
      ensures Valid() && ok == (keyAddress == old(tx.sender) && !old(sealed))
      ensures if ok then tx == old(tx).(signature := Some(signature)) && sealed
              else tx == old(tx) && sealed == old(sealed)
    {
      if keyAddress != tx.sender {
        return false;
      }
      ok := Assign(SetSignature(Some(signature)));
      if ok {
        sealed := true;
      }
    }
  }
}
