/** Account maps as values: reading with the blank default, balance totals, and equality up to
    blank records. */
module AccountMaps {
  import opened Prelude

  function Lookup(m: Accounts, k: Address): Account {
    if k in m then m[k] else BLANK
  }

  // `get_account`: an unknown address gets a blank record.
  function Touch(m: Accounts, k: Address): Accounts {
    if k in m then m else m[k := BLANK]
  }

  // `acc['balance'] += d` on the record of k.
  function Add(m: Accounts, k: Address, d: int): Accounts {
    m[k := Lookup(m, k).(balance := Lookup(m, k).balance + d)]
  }

  function SetStorage(m: Accounts, k: Address, storage: Storage): Accounts {
    m[k := Lookup(m, k).(storage := storage)]
  }

  function HasCode(m: Accounts, k: Address): bool {
    Truthy(Lookup(m, k).code)
  }

  // ---- the trie's view -------------------------------------------------------------------

  predicate IsDefault(a: Account) {
    a.balance == 0 && a.nonce == 0 && !Truthy(a.code) && a.storage == map[]
  }

  function StateRoot(P: Params, m: Accounts): Hash {
    P.trieRoot(map k | k in m && !IsDefault(m[k]) :: m[k])
  }

  // ---- equality up to blank records ------------------------------------------------------

  ghost predicate Same(a: Accounts, b: Accounts) {
    forall k :: Lookup(a, k) == Lookup(b, k)
  }

  lemma SameAdd(a: Accounts, b: Accounts, k: Address, d: int)
    requires Same(a, b)
    ensures Same(Add(a, k, d), Add(b, k, d))
  {
    forall j ensures Lookup(Add(a, k, d), j) == Lookup(Add(b, k, d), j) {
      assert Lookup(a, j) == Lookup(b, j) && Lookup(a, k) == Lookup(b, k);
    }
  }

  lemma SamePut(a: Accounts, b: Accounts, k: Address, acc: Account)
    requires Same(a, b)
    ensures Same(a[k := acc], b[k := acc])
  {
    var a', b' := a[k := acc], b[k := acc];
    forall j ensures Lookup(a', j) == Lookup(b', j) {
      assert Lookup(a, j) == Lookup(b, j);
    }
  }

  lemma SameTouch(a: Accounts, b: Accounts, k: Address)
    requires Same(a, b)
    ensures Same(Touch(a, k), b) && Same(a, Touch(b, k)) && Same(Touch(a, k), Touch(b, k))
  {
    forall j ensures Lookup(Touch(a, k), j) == Lookup(a, j) && Lookup(Touch(b, k), j) == Lookup(b, j)
    {
    }
    forall j ensures Lookup(Touch(a, k), j) == Lookup(b, j) && Lookup(a, j) == Lookup(Touch(b, k), j)
                  && Lookup(Touch(a, k), j) == Lookup(Touch(b, k), j)
    {
      assert Lookup(a, j) == Lookup(b, j);
    }
  }

  lemma SameTrans(a: Accounts, b: Accounts, c: Accounts)
    requires Same(a, b) && Same(b, c)
    ensures Same(a, c)
  {
    forall j ensures Lookup(a, j) == Lookup(c, j) {
      assert Lookup(a, j) == Lookup(b, j) && Lookup(b, j) == Lookup(c, j);
    }
  }

  lemma SameSym(a: Accounts, b: Accounts)
    requires Same(a, b)
    ensures Same(b, a)
  {
    forall j ensures Lookup(b, j) == Lookup(a, j) {
      assert Lookup(a, j) == Lookup(b, j);
    }
  }

  /** The state root cannot tell blank records from absent ones. */
  lemma SameRoot(P: Params, a: Accounts, b: Accounts)
    requires Same(a, b)
    ensures StateRoot(P, a) == StateRoot(P, b)
  {
    var a' := map k | k in a && !IsDefault(a[k]) :: a[k];
    var b' := map k | k in b && !IsDefault(b[k]) :: b[k];
    forall k ensures (k in a' <==> k in b') && (k in a' ==> a'[k] == b'[k]) {
      assert Lookup(a, k) == Lookup(b, k);
    }
    assert a' == b';
  }

  // What the trie leaves out: no coins, no transactions, no code and nothing stored.
  predicate Nothing(a: Account) {
    a.balance == 0 && a.nonce == 0 && (a.code == None || a.code == Some("")) && |a.storage| == 0
  }

  /** The state root tells states apart: over a trie without collisions two states have one root
      exactly when at every address their records are equal or both amount to nothing. */
  lemma RootsExactly(P: Params, a: Accounts, b: Accounts)
    requires forall s, t :: P.trieRoot(s) == P.trieRoot(t) ==> s == t
    ensures StateRoot(P, a) == StateRoot(P, b) <==>
            forall k :: Lookup(a, k) == Lookup(b, k) || (Nothing(Lookup(a, k)) && Nothing(Lookup(b, k)))
  {
    var a' := map k | k in a && !IsDefault(a[k]) :: a[k];
    var b' := map k | k in b && !IsDefault(b[k]) :: b[k];
    forall acc: Account ensures IsDefault(acc) <==> Nothing(acc) { EmptyStorage(acc.storage); }
    if StateRoot(P, a) == StateRoot(P, b) {
      forall k ensures Lookup(a, k) == Lookup(b, k) || (Nothing(Lookup(a, k)) && Nothing(Lookup(b, k))) {
        assert k in a' <==> k in b';
        if k in a' { assert a'[k] == b'[k]; }
      }
    }
    if forall k :: Lookup(a, k) == Lookup(b, k) || (Nothing(Lookup(a, k)) && Nothing(Lookup(b, k))) {
      forall k ensures (k in a' <==> k in b') && (k in a' ==> a'[k] == b'[k]) {
        assert Lookup(a, k) == Lookup(b, k) || (Nothing(Lookup(a, k)) && Nothing(Lookup(b, k)));
      }
      assert a' == b';
    }
  }

  lemma EmptyStorage(s: Storage)
    ensures |s| == 0 <==> s == map[]
  {
  }

  // ---- totals ----------------------------------------------------------------------------

  ghost function Pick(m: Accounts): (k: Address)
    requires m != map[]
    ensures k in m
  {
    var k :| k in m;
    k
  }

  /** The sum of all balances. */
  ghost function Total(m: Accounts): int
    decreases |m|
  {
    if m == map[] then 0 else
    var k := Pick(m);
    m[k].balance + Total(m - {k})
  }

  lemma {:induction false} TotalWithout(m: Accounts, k: Address)
    requires k in m
    ensures Total(m) == m[k].balance + Total(m - {k})
    decreases |m|
  {
    var j := Pick(m);
    if j != k {
      TotalWithout(m - {j}, k);
      TotalWithout(m - {k}, j);
      assert m - {j} - {k} == m - {k} - {j};
    }
  }

  lemma TotalPut(m: Accounts, k: Address, acc: Account)
    ensures Total(m[k := acc]) == Total(m) - Lookup(m, k).balance + acc.balance
  {
    TotalWithout(m[k := acc], k);
    if k in m {
      TotalWithout(m, k);
      assert m[k := acc] - {k} == m - {k};
    } else {
      assert m[k := acc] - {k} == m;
    }
  }

  lemma TotalAdd(m: Accounts, k: Address, d: int)
    ensures Total(Add(m, k, d)) == Total(m) + d
  {
    TotalPut(m, k, Lookup(m, k).(balance := Lookup(m, k).balance + d));
  }

  lemma TotalTouch(m: Accounts, k: Address)
    ensures Total(Touch(m, k)) == Total(m)
  {
    TotalPut(m, k, BLANK);
  }

  // Dropping k from both maps keeps them the same, and lowers both totals by the same amount.
  lemma SameDrop(a: Accounts, b: Accounts, k: Address)
    requires Same(a, b)
    ensures Same(a - {k}, b - {k})
    ensures Total(a) - Total(a - {k}) == Total(b) - Total(b - {k})
  {
    var a', b' := a - {k}, b - {k};
    forall j ensures Lookup(a', j) == Lookup(b', j) {
      assert Lookup(a, j) == Lookup(b, j);
    }
    DropTotal(a, k);
    DropTotal(b, k);
    assert Lookup(a, k) == Lookup(b, k);
  }

  lemma DropTotal(m: Accounts, k: Address)
    ensures Total(m) - Total(m - {k}) == Lookup(m, k).balance
  {
    if k in m { TotalWithout(m, k); } else { assert m - {k} == m; }
  }

  /** Blank records carry no coins: maps equal up to blanks have one total. */
  lemma {:induction false} SameTotal(a: Accounts, b: Accounts)
    requires Same(a, b)
    ensures Total(a) == Total(b)
    decreases |a| + |b|
  {
    if a != map[] {
      SameDrop(a, b, Pick(a));
      SameTotal(a - {Pick(a)}, b - {Pick(a)});
    } else if b != map[] {
      SameDrop(a, b, Pick(b));
      SameTotal(a - {Pick(b)}, b - {Pick(b)});
    }
  }

  ghost predicate NonNegative(m: Accounts) {
    forall k :: 0 <= Lookup(m, k).balance
  }

  lemma NonNegativeAdd(m: Accounts, k: Address, d: int)
    requires NonNegative(m) && 0 <= Lookup(m, k).balance + d
    ensures NonNegative(Add(m, k, d))
  {
    forall j ensures 0 <= Lookup(Add(m, k, d), j).balance {
      assert 0 <= Lookup(m, j).balance;
    }
  }
}
