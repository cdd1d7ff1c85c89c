/** The constant-product exchange contract (`examples/dex.py`): its storage dictionary and the
    arithmetic of its reserves. */
module Exchange {
  import opened Prelude

  type Entries = map<string, int>

  // A sell whose amount does not parse as an integer carries None.
  datatype Command = Init | Buy | Sell(tokens: Option<int>) | Unknown

  datatype Call = Call(sender: Address, value: int, command: Command)

  const K := "k"
  const NATIVE := "native_reserve"
  const TOKEN := "token_reserve"
  const CREDIT := "_native_credit"
  const MINTED := 1000

  // Account addresses are 40 or 64 characters long, so no two kinds of key coincide.
  predicate IsHolder(key: string) {
    |key| == 40 || |key| == 64
  }

  predicate IsCredit(key: string) {
    |key| == 54 || |key| == 78
  }

  function Get(s: Entries, key: string): int {
    if key in s then s[key] else 0
  }

  predicate Ready(s: Entries) {
    K in s && NATIVE in s && TOKEN in s
  }

  /** One call; None stands for a raised exception, which discards the storage. */
  method Execute(storage: Entries, msg: Call) returns (result: Option<Entries>)
    requires K in storage ==> Ready(storage)
    ensures result == Trade(storage, msg)
  {
    var s := storage;
    match msg.command
    case Init =>
      if K in s {
        return None;
      }
      if msg.value <= 0 {
        return None;
      }
      s := s[NATIVE := msg.value];
      s := s[TOKEN := MINTED];
      s := s[K := s[NATIVE] * s[TOKEN]];
      s := s[msg.sender := MINTED];
      return Some(s);
    case Buy =>
      if K !in s {
        return None;
      }
      if msg.value <= 0 {
        return None;
      }
      var newNative := s[NATIVE] + msg.value;
      if newNative == 0 {
        return None;
      }
      var newToken := FloorDiv(s[K], newNative);
      var tokensOut := s[TOKEN] - newToken;
      if tokensOut <= 0 {
        return None;
      }
      s := s[NATIVE := newNative];
      s := s[TOKEN := newToken];
      s := s[msg.sender := Get(s, msg.sender) + tokensOut];
      return Some(s);
    case Sell(tokens) =>
      if K !in s {
        return None;
      }
      if tokens.None? {
        return None;
      }
      var toSell := tokens.value;
      if Get(s, msg.sender) < toSell || msg.sender !in s {
        return None;
      }
      s := s[msg.sender := s[msg.sender] - toSell];
      var newToken := s[TOKEN] + toSell;
      if newToken == 0 {
        return None;
      }
      var newNative := FloorDiv(s[K], newToken);
      var coinsOut := s[NATIVE] - newNative;
      if coinsOut <= 0 {
        return None;
      }
      s := s[NATIVE := newNative];
      s := s[TOKEN := newToken];
      s := s[msg.sender + CREDIT := Get(s, msg.sender + CREDIT) + coinsOut];
      return Some(s);
    case Unknown =>
      return None;
  }

  function Trade(s: Entries, msg: Call): Option<Entries>
    requires K in s ==> Ready(s)
  {
    match msg.command
    case Init =>
      if K in s || msg.value <= 0 then None
      else Some(s[NATIVE := msg.value][TOKEN := MINTED][K := msg.value * MINTED][msg.sender := MINTED])
    case Buy =>
      if K !in s || msg.value <= 0 || s[NATIVE] + msg.value == 0 then None else
      var native := s[NATIVE] + msg.value;
      var token := FloorDiv(s[K], native);
      if s[TOKEN] <= token then None else
      var s' := s[NATIVE := native][TOKEN := token];
      Some(s'[msg.sender := Get(s', msg.sender) + (s[TOKEN] - token)])
    case Sell(tokens) =>
      if K !in s || tokens.None? || Get(s, msg.sender) < tokens.value || msg.sender !in s then None else
      var paid := s[msg.sender := s[msg.sender] - tokens.value];
      var token := paid[TOKEN] + tokens.value;
      if token == 0 then None else
      var native := FloorDiv(paid[K], token);
      if paid[NATIVE] <= native then None else
      var s' := paid[NATIVE := native][TOKEN := token];
      Some(s'[msg.sender + CREDIT := Get(s', msg.sender + CREDIT) + (paid[NATIVE] - native)])
    case Unknown => None
  }

  /** What a call does, key by key. Init: once, with coins; 1000 tokens are minted for the reserve
      and 1000 for the caller. Buy: the coins go in, and the caller gets what the token reserve
      exceeds the quotient by, which must be something. Sell: the caller, who must have the tokens,
      is credited what the coin reserve exceeds the quotient by, which must be something. */
  lemma TradeExactly(s: Entries, msg: Call, x: string)
    requires (K in s ==> Ready(s)) && (|msg.sender| == 40 || |msg.sender| == 64)
    ensures var r := Trade(s, msg);
            match msg.command
            case Init =>
              && (r.Some? <==> "k" !in s && 0 < msg.value)
              && (r.Some? ==>
                    Get(r.value, x) ==
                    if x == msg.sender || x == "token_reserve" then 1000
                    else if x == "native_reserve" then msg.value
                    else if x == "k" then 1000 * msg.value else Get(s, x))
            case Buy =>
              && (r.Some? <==> "k" in s && 0 < msg.value && s["native_reserve"] + msg.value != 0 &&
                               FloorDiv(s["k"], s["native_reserve"] + msg.value) < s["token_reserve"])
              && (r.Some? ==>
                    var native := s["native_reserve"] + msg.value;
                    var token := FloorDiv(s["k"], native);
                    Get(r.value, x) ==
                      if x == msg.sender then Get(s, x) + (s["token_reserve"] - token)
                      else if x == "native_reserve" then native
                      else if x == "token_reserve" then token else Get(s, x))
            case Sell(tokens) =>
              && (r.Some? <==> "k" in s && tokens.Some? && msg.sender in s && tokens.value <= s[msg.sender] &&
                               s["token_reserve"] + tokens.value != 0 &&
                               FloorDiv(s["k"], s["token_reserve"] + tokens.value) < s["native_reserve"])
              && (r.Some? ==>
                    var token := s["token_reserve"] + tokens.value;
                    var native := FloorDiv(s["k"], token);
                    Get(r.value, x) ==
                      if x == msg.sender then Get(s, x) - tokens.value
                      else if x == msg.sender + "_native_credit" then Get(s, x) + (s["native_reserve"] - native)
                      else if x == "native_reserve" then native
                      else if x == "token_reserve" then token else Get(s, x))
            case Unknown => r == None
  {
    hide FloorDiv;
    KeysDiffer(msg.sender);
  }

  // ---- runs ------------------------------------------------------------------------------

  // The pool, the coins taken in by init and buys, and the divisor of the last division.
  datatype Pool = Pool(entries: Entries, takenIn: int, divisor: int)

  function Do(p: Pool, msg: Call): Pool
    requires K in p.entries ==> Ready(p.entries)
  {
    match Trade(p.entries, msg)
    case None => p
    case Some(s) => match msg.command
      case Init => Pool(s, msg.value, 1)
      case Buy => Pool(s, p.takenIn + msg.value, s[NATIVE])
      case _ => Pool(s, p.takenIn, s[TOKEN])
  }

  lemma KeysDiffer(sender: Address)
    requires IsHolder(sender)
    ensures sender != K && sender != NATIVE && sender != TOKEN
    ensures IsCredit(sender + CREDIT) && !IsHolder(sender + CREDIT) && !IsCredit(sender)
    ensures !IsHolder(K) && !IsHolder(NATIVE) && !IsHolder(TOKEN) && !IsCredit(K) && !IsCredit(NATIVE) &&
            !IsCredit(TOKEN)
  {
    assert |NATIVE| == 14 && |TOKEN| == 13 && |CREDIT| == 14;
  }

  // ---- sums over part of the dictionary --------------------------------------------------

  ghost function PickKey(s: Entries): (k: string)
    requires s != map[]
    ensures k in s
  {
    var k :| k in s;
    k
  }

  ghost function SumWhere(s: Entries, want: string -> bool): int
    decreases |s|
  {
    if s == map[] then 0 else
    var k := PickKey(s);
    (if want(k) then s[k] else 0) + SumWhere(s - {k}, want)
  }

  lemma {:induction false} SumWithout(s: Entries, want: string -> bool, k: string)
    requires k in s
    ensures SumWhere(s, want) == (if want(k) then s[k] else 0) + SumWhere(s - {k}, want)
    decreases |s|
  {
    var j := PickKey(s);
    if j != k {
      SumWithout(s - {j}, want, k);
      SumWithout(s - {k}, want, j);
      assert s - {j} - {k} == s - {k} - {j};
    }
  }

  lemma SumPut(s: Entries, want: string -> bool, k: string, v: int)
    ensures SumWhere(s[k := v], want) == SumWhere(s, want) + if want(k) then v - Get(s, k) else 0
  {
    SumWithout(s[k := v], want, k);
    if k in s {
      SumWithout(s, want, k);
      assert s[k := v] - {k} == s - {k};
    } else {
      assert s[k := v] - {k} == s;
    }
  }

  ghost function Holdings(s: Entries): int {
    SumWhere(s, IsHolder)
  }

  ghost function Credits(s: Entries): int {
    SumWhere(s, IsCredit)
  }

  // ---- conservation ----------------------------------------------------------------------

  /** Nothing is made or lost: minted tokens are in reserve or held, and coins taken in are in
      reserve or credited. */
  ghost predicate Conserved(p: Pool) {
    if K !in p.entries then p.entries == map[] && p.takenIn == 0 else (
      && Ready(p.entries)
      && p.entries[TOKEN] + Holdings(p.entries) == 2 * MINTED
      && p.entries[NATIVE] + Credits(p.entries) == p.takenIn)
  }

  lemma InitConserves(p: Pool, msg: Call)
    requires Conserved(p) && IsHolder(msg.sender) && msg.command == Init
    ensures Conserved(Do(p, msg))
  {
    if Trade(p.entries, msg).Some? {
      KeysDiffer(msg.sender);
      var s1 := map[NATIVE := msg.value];
      var s2 := s1[TOKEN := MINTED];
      var s3 := s2[K := msg.value * MINTED];
      assert Trade(p.entries, msg).value == s3[msg.sender := MINTED];
      FourPuts(map[], NATIVE, msg.value, TOKEN, MINTED, K, msg.value * MINTED, msg.sender, MINTED);
    }
  }

  // Three entries of neither kind and one more.
  lemma FourPuts(s: Entries, a: string, x: int, b: string, y: int, c: string, z: int, d: string, v: int)
    requires !IsHolder(a) && !IsHolder(b) && !IsHolder(c) && !IsCredit(a) && !IsCredit(b) && !IsCredit(c)
    ensures var s' := s[a := x][b := y][c := z];
            Holdings(s'[d := v]) == Holdings(s) + (if IsHolder(d) then v - Get(s', d) else 0) &&
            Credits(s'[d := v]) == Credits(s) + if IsCredit(d) then v - Get(s', d) else 0
  {
    var s1 := s[a := x];
    var s2 := s1[b := y];
    var s3 := s2[c := z];
    SumPut(s, IsHolder, a, x);  SumPut(s1, IsHolder, b, y);  SumPut(s2, IsHolder, c, z);  SumPut(s3, IsHolder, d, v);
    SumPut(s, IsCredit, a, x);  SumPut(s1, IsCredit, b, y);  SumPut(s2, IsCredit, c, z);  SumPut(s3, IsCredit, d, v);
  }

  lemma BuyConserves(p: Pool, msg: Call)
    requires Conserved(p) && IsHolder(msg.sender) && msg.command == Buy
    ensures Conserved(Do(p, msg))
  {
    if Trade(p.entries, msg).Some? {
      KeysDiffer(msg.sender);
      var s := p.entries;
      var native := s[NATIVE] + msg.value;
      var token := FloorDiv(s[K], native);
      var s' := s[NATIVE := native][TOKEN := token];
      var v := Get(s', msg.sender) + (s[TOKEN] - token);
      assert s'[K := s[K]] == s';
      FourPuts(s, NATIVE, native, TOKEN, token, K, s[K], msg.sender, v);
    }
  }

  lemma SellConserves(p: Pool, msg: Call)
    requires Conserved(p) && IsHolder(msg.sender) && msg.command.Sell?
    ensures Conserved(Do(p, msg))
  {
    if Trade(p.entries, msg).Some? {
      KeysDiffer(msg.sender);
      var s, t := p.entries, msg.command.tokens.value;
      var paid := s[msg.sender := s[msg.sender] - t];
      SumPut(s, IsHolder, msg.sender, s[msg.sender] - t);
      SumPut(s, IsCredit, msg.sender, s[msg.sender] - t);
      var token := s[TOKEN] + t;
      var native := FloorDiv(s[K], token);
      var s' := paid[NATIVE := native][TOKEN := token];
      var v := Get(s', msg.sender + CREDIT) + (s[NATIVE] - native);
      assert s'[K := s[K]] == s';
      FourPuts(paid, NATIVE, native, TOKEN, token, K, s[K], msg.sender + CREDIT, v);
    }
  }

  /** Every call conserves, whatever its amounts, signs included. */
  lemma TradeConserves(p: Pool, msg: Call)
    requires Conserved(p) && IsHolder(msg.sender)
    ensures Conserved(Do(p, msg))
  {
    match msg.command
    case Init => InitConserves(p, msg);
    case Buy => BuyConserves(p, msg);
    case Sell(_) => SellConserves(p, msg);
    case Unknown =>
  }

  // ---- the product -----------------------------------------------------------------------

  /** The reserves are non-negative and their product is k, up to the remainder of the last
      division alone. */
  ghost predicate Balanced(p: Pool) {
    K in p.entries ==>
      && Ready(p.entries)
      && 0 < p.entries[K] && 0 <= p.entries[NATIVE] && 0 <= p.entries[TOKEN] && 0 < p.divisor
      && p.entries[NATIVE] * p.entries[TOKEN] <= p.entries[K] < p.entries[NATIVE] * p.entries[TOKEN] + p.divisor
  }

  lemma DivBounds(k: int, d: int)
    requires 0 < d && 0 <= k
    ensures 0 <= k / d && d * (k / d) <= k < d * (k / d) + d
  {
  }

  lemma NegativeDiv(k: int, d: int)
    requires 0 < k && d < 0
    ensures FloorDiv(k, d) < 0
  {
  }

  // A larger divisor of a number that n * t does not exceed.
  lemma SmallerDivisor(k: int, n: int, t: int, d: int)
    requires 0 < d <= t && 0 <= n && n * t <= k
    ensures n <= k / d
  {
    Products(n, d, t);
    Products(n, 0, d);
    DivBounds(k, d);
    Multiples(d, n, k / d);
  }

  lemma Multiples(d: int, x: int, y: int)
    requires 0 < d && d * x < d * y + d
    ensures x <= y
  {
    if y < x { Products(d, y + 1, x); }
  }

  lemma InitBalances(p: Pool, msg: Call)
    requires Balanced(p) && IsHolder(msg.sender) && msg.command == Init && (K in p.entries ==> Ready(p.entries))
    ensures Balanced(Do(p, msg))
  {
    KeysDiffer(msg.sender);
  }

  lemma BuyBalances(p: Pool, msg: Call)
    requires Balanced(p) && IsHolder(msg.sender) && msg.command == Buy && (K in p.entries ==> Ready(p.entries))
    ensures Balanced(Do(p, msg))
  {
    KeysDiffer(msg.sender);
    if Trade(p.entries, msg).Some? {
      DivBounds(p.entries[K], p.entries[NATIVE] + msg.value);
    }
  }

  /** An accepted sell keeps the reserves non-negative and the product at k exactly when its
      amount is not negative. */
  lemma SellBalances(p: Pool, msg: Call)
    requires Balanced(p) && K in p.entries && IsHolder(msg.sender) && msg.command.Sell? && Trade(p.entries, msg).Some?
    ensures Balanced(Do(p, msg)) <==> 0 <= msg.command.tokens.value
  {
    KeysDiffer(msg.sender);
    var s, t := p.entries, msg.command.tokens.value;
    var token := s[TOKEN] + t;
    if 0 < token {
      DivBounds(s[K], token);
      if t < 0 { SmallerDivisor(s[K], s[NATIVE], s[TOKEN], token); }
    } else {
      NegativeDiv(s[K], token);
    }
  }

  // Start, then any calls by account addresses whose sells are not negative.
  ghost predicate Fair(msg: Call) {
    IsHolder(msg.sender) && (msg.command.Sell? && msg.command.tokens.Some? ==> 0 <= msg.command.tokens.value)
  }

  ghost predicate FromHolders(calls: seq<Call>) {
    forall i | 0 <= i < |calls| :: IsHolder(calls[i].sender)
  }

  ghost function Run(calls: seq<Call>): (p: Pool)
    requires FromHolders(calls)
    ensures Conserved(p)
  {
    if calls == [] then Pool(map[], 0, 1) else
    var p := Run(calls[..|calls| - 1]);
    TradeConserves(p, calls[|calls| - 1]);
    Do(p, calls[|calls| - 1])
  }

  /** Nobody owes tokens or coins. */
  ghost predicate NoDebt(s: Entries) {
    forall x | IsHolder(x) || IsCredit(x) :: 0 <= Get(s, x)
  }

  lemma TradeKeepsNoDebt(p: Pool, msg: Call)
    requires NoDebt(p.entries) && Fair(msg) && (K in p.entries ==> Ready(p.entries))
    ensures NoDebt(Do(p, msg).entries)
  {
    hide Trade;
    KeysDiffer(msg.sender);
    var after := Do(p, msg).entries;
    forall x | IsHolder(x) || IsCredit(x) ensures 0 <= Get(after, x) {
      TradeExactly(p.entries, msg, x);
      assert 0 <= Get(p.entries, x);
    }
  }

  /** Over any run of fair calls no drift builds up: the product stays within one division's
      remainder of k, tokens add up to 2000, coins add up to those taken in, and nobody owes any. */
  lemma {:induction false} ExchangeInvariant(calls: seq<Call>)
    requires FromHolders(calls) && forall i | 0 <= i < |calls| :: Fair(calls[i])
    ensures Conserved(Run(calls)) && Balanced(Run(calls)) && NoDebt(Run(calls).entries)
  {
    hide Trade, Conserved, Do;
    if calls != [] {
      var front, msg := calls[..|calls| - 1], calls[|calls| - 1];
      ExchangeInvariant(front);
      ReadyIfConserved(Run(front));
      StepBalances(Run(front), msg);
      TradeKeepsNoDebt(Run(front), msg);
    }
  }

  /** A negative sell that is accepted: right after an init with 5 coins it drives both reserves
      below zero. */
  lemma NegativeSellExample(sender: Address) returns (p: Pool, msg: Call)
    requires IsHolder(sender)
    ensures p == Run([Call(sender, 5, Init)]) && Balanced(p) && msg == Call(sender, 0, Sell(Some(-2000)))
    ensures Trade(p.entries, msg).Some? && Do(p, msg).entries[NATIVE] < 0 && Do(p, msg).entries[TOKEN] < 0
  {
    KeysDiffer(sender);
    p := Pool(map[NATIVE := 5, TOKEN := 1000, K := 5000, sender := 1000], 5, 1);
    msg := Call(sender, 0, Sell(Some(-2000)));
    var init := Call(sender, 5, Init);
    assert [init][..0] == [];
    assert Run([init]) == Do(Run([]), init) == Do(Pool(map[], 0, 1), init);
    assert p.entries == Trade(map[], init).value;
    assert FloorDiv(5000, -1000) == -5;
  }

  lemma ReadyIfConserved(p: Pool)
    requires Conserved(p)
    ensures K in p.entries ==> Ready(p.entries)
  {
  }

  lemma StepBalances(p: Pool, msg: Call)
    requires Balanced(p) && Fair(msg) && (K in p.entries ==> Ready(p.entries))
    ensures Balanced(Do(p, msg))
  {
    hide Balanced;
    match msg.command
    case Init => InitBalances(p, msg);
    case Buy => BuyBalances(p, msg);
    case Sell(_) => if Trade(p.entries, msg).Some? { SellBalances(p, msg); }
    case Unknown =>
  }

  /** Buying with v and selling the tokens received credits at most v. */
  lemma BuyThenSell(p: Pool, buy: Call, sell: Call)
    requires Balanced(p) && K in p.entries && IsHolder(buy.sender) && buy.command == Buy
    requires Trade(p.entries, buy).Some?
    requires sell == Call(buy.sender, sell.value, Sell(Some(p.entries[TOKEN] - Do(p, buy).entries[TOKEN])))
    ensures var p1 := Do(p, buy);
            var p2 := Do(p1, sell);
            Get(p2.entries, buy.sender + CREDIT) - Get(p1.entries, buy.sender + CREDIT) <= buy.value
  {
    KeysDiffer(buy.sender);
    BuyBalances(p, buy);
    var s := p.entries;
    var native := s[NATIVE] + buy.value;
    DivBounds(s[K], native);
    if 0 < s[TOKEN] { SmallerDivisor(s[K], s[NATIVE], s[TOKEN], s[TOKEN]); }
  }
}
