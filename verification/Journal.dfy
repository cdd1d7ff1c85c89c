/** The account dictionaries of `minichain/state.py` on the heap. A `Store` is a plain
    dictionary of mutable account records, or a copy-on-read journal stacked on another store. */
module Journal {
  import opened Prelude
  import AccountMaps

  class Record {
    ghost const key: Address  // the address it is filed under
    var balance: int
    var nonce: int
    var code: Option<string>
    var storage: Storage

    constructor (key: Address, a: Account)
      ensures Data() == a && this.key == key
    {
      this.key := key;
      balance, nonce, code, storage := a.balance, a.nonce, a.code, a.storage;
    }

    function Data(): Account
      reads this
    {
      Account(balance, nonce, code, storage)
    }
  }

  class Store {
    var cache: map<Address, Record>
    const backing: Store?
    ghost const height: nat
    ghost var Repr: set<object>
    ghost var records: set<Record>  // the records filed here, now or before
    ghost var base: Accounts  // what the store below shows
    ghost var view: Accounts  // the one plain map this stack of stores stands for

    ghost predicate Valid()
      reads this, Repr
      decreases height, 1
      ensures Valid() ==> this in Repr && records <= Repr
    {
      Inside()
    }

    // The parts of `Valid`, which treat the store below as one thing.
    ghost predicate Inside()
      reads this, Repr
      decreases height, 0
    {
      && this in Repr && records <= Repr
      && (forall k | k in cache :: cache[k] in records && cache[k].key == k && k in view && view[k] == cache[k].Data())
      && (forall k | k in base :: k in view)
      && (forall k | k in view && k !in cache :: k in base && view[k] == base[k])
      && (backing == null ==> base == map[])
      && (backing != null ==>
            && backing in Repr && backing.Repr <= Repr && this !in backing.Repr
            && backing.height < height
            && backing.Valid()
            && records !! backing.Repr
            && backing.view == base)
    }

    lemma Open()
      requires Valid()
      ensures Inside()
    {
    }

    lemma Close()
      requires Inside()
      ensures Valid()
    {
    }

    /** A cached record shows what the store shows. */
    lemma Shows(k: Address)
      requires Valid() && k in cache
      ensures k in view && view[k] == cache[k].Data() && cache[k] in records
    {
    }

    // The journals whose caches a read may fill; never a plain dictionary.
    ghost function Journals(): (r: set<Store>)
      decreases height
      ensures forall s | s in r :: s.height <= height && s.backing != null
    {
      if backing == null then {}
      else if backing.height < height then {this} + backing.Journals()
      else {this}
    }

    // What reads and record updates through this store may change.
    ghost function Writes(): set<object>
      reads this
    {
      {this} + records + Journals()
    }

    // Reads and record updates: cached records stay, added ones are new copies, and what the
    // stores below show stays the same.
    twostate predicate Grew()
      reads this, backing
    {
      && Renewed() && BelowRenewed()
      && (forall k | k in old(cache) :: k in cache && cache[k] == old(cache[k]))
    }

    twostate predicate BelowRenewed()
      reads this, backing
    {
      backing != null ==>
        backing.base == old(backing.base) && forall r | r in backing.records :: r in old(backing.records) || fresh(r)
    }

    // No object of another store has come in.
    twostate predicate Renewed()
      reads this
    {
      && (forall o | o in Repr :: o in old(Repr) || fresh(o))
      && (forall r | r in records :: r in old(records) || fresh(r))
      && base == old(base)
    }

    // A plain dictionary with a record for each account (`copy.deepcopy`).
    constructor Dict(accounts: Accounts)
      ensures Valid() && fresh(Repr) && backing == null && view == accounts
    {
      backing, cache, height, base, view := null, map[], 0, map[], map[];
      Repr, records := {this}, {};
      new;
      var todo := accounts.Keys;
      while todo != {}
        invariant todo <= accounts.Keys && Valid() && fresh(Repr)
        invariant view == map k | k in accounts && k !in todo :: accounts[k]
        decreases |todo|
      {
        var k :| k in todo;
        var r := new Record(k, accounts[k]);
        Put(k, r);
        todo := todo - {k};
      }
    }

    constructor Over(store: Store)
      requires store.Valid()
      ensures Valid() && fresh(Repr - store.Repr) && backing == store && cache == map[] && records == {}
      ensures base == store.view && view == store.view && Journals() == {this} + store.Journals()
    {
      backing, cache, height, base, view := store, map[], store.height + 1, store.view, store.view;
      Repr, records := {this} + store.Repr, {};
    }

    predicate Contains(k: Address)
      requires Valid()
      reads this, Repr
      decreases height
      ensures Contains(k) <==> k in view
      ensures k in cache ==> Contains(k)
    {
      Open(); k in cache || (backing != null && backing.Contains(k))
    }

    /** `items`, `copy`: the records below, overridden by the records here. */
    method Items() returns (accounts: Accounts)
      requires Valid()
      ensures accounts == view
      decreases height
    {
      hide Valid;
      Open();
      accounts := map k | k in cache :: cache[k].Data();
      if backing != null {
        var below := backing.Items();
        accounts := below + accounts;
      }
    }

    /** `__setitem__` with a new record. */
    method Put(k: Address, r: Record)
      requires Valid() && r !in Repr && r.key == k
      modifies this
      ensures Valid() && Repr == old(Repr) + {r} && records == old(records) + {r} && cache == old(cache)[k := r] &&
              base == old(base)
      ensures view == old(view)[k := r.Data()]
    {
      hide Valid;
      Open();
      cache := cache[k := r];
      view := view[k := r.Data()];
      Repr, records := Repr + {r}, records + {r};
      Close();
    }

    // The read of the store below on a miss: it may fill that store's cache.
    method Pull(k: Address) returns (data: Account)
      requires Valid() && k in view && k !in cache
      modifies Journals()
      ensures Valid() && unchanged(`cache) && unchanged(`view) && Grew()
      ensures k in view && data == view[k] && backing != null
      decreases height, 0
    {
      hide Valid;
      Open();
      assert this !in backing.Journals();
      var below := backing.Get(k);
      backing.Shows(k);
      data := below.Data();
      Repr := Repr + backing.Repr;
      Close();
    }

    /** `__getitem__`: a missing record is copied from the store below. What anyone can observe
        stays the same; only journal caches change. */
    method Get(k: Address) returns (r: Record)
      requires Valid() && k in view
      modifies Journals()
      ensures Valid() && view == old(view) && k in cache && cache[k] == r && Grew()
      decreases height, 1
    {
      hide Valid, Inside;
      if k in cache {
        r := cache[k];
      } else {
        var data := Pull(k);
        r := new Record(k, data);
        Put(k, r);
      }
    }

    /** `acc['balance'] += d` on a record this store holds. */
    method AddBalance(k: Address, r: Record, d: int)
      requires Valid() && k in cache && cache[k] == r
      modifies r, `view
      ensures Valid() && view == AccountMaps.Add(old(view), k, d)
    {
      hide Valid;
      Open();
      ghost var before := r.Data();
      r.balance := r.balance + d;
      view := view[k := before.(balance := before.balance + d)];
      Close();
    }

    /** `acc['nonce'] += 1` */
    method BumpNonce(k: Address, r: Record)
      requires Valid() && k in cache && cache[k] == r
      modifies r, `view
      ensures Valid()
      ensures var acc := AccountMaps.Lookup(old(view), k); view == old(view)[k := acc.(nonce := acc.nonce + 1)]
    {
      hide Valid;
      Open();
      r.nonce := r.nonce + 1;
      view := view[k := r.Data()];
      Close();
    }

    /** `acc['storage'] = storage` */
    method SetStorage(k: Address, r: Record, storage: Storage)
      requires Valid() && k in cache && cache[k] == r
      modifies r, `view
      ensures Valid() && view == AccountMaps.SetStorage(old(view), k, storage)
    {
      hide Valid;
      Open();
      r.storage := storage;
      view := view[k := r.Data()];
      Close();
    }

    // dict.update with the records and the view of a journal over this store
    method Update(other: map<Address, Record>, ghost otherRecords: set<Record>, ghost shown: Accounts)
      requires Valid() && otherRecords !! Repr
      requires forall k | k in other :: other[k] in otherRecords && other[k].key == k
      requires forall k | k in view || k in other :: k in shown
      requires forall k | k in shown :: if k in other then shown[k] == other[k].Data()
               else k in view && shown[k] == view[k]
      modifies this
      ensures Valid() && cache == old(cache) + other && view == shown && base == old(base)
      ensures Repr == old(Repr) + otherRecords && records == old(records) + otherRecords
    {
      hide Valid;
      Open();
      cache := cache + other;
      view := shown;
      Repr, records := Repr + otherRecords, records + otherRecords;
      Close();
    }

    // cache.clear()
    method Clear()
      requires backing != null && backing.Valid() && backing.height < height && this !in backing.Repr
      modifies this
      ensures Valid() && cache == map[] && records == {} && Repr == old(Repr) + {this} + backing.Repr
      ensures view == base == backing.view
    {
      hide Valid;
      cache, records, base, view := map[], {}, backing.view, backing.view;
      Repr := Repr + {this} + backing.Repr;
      Close();
    }

    // What a journal's records and view offer to the store below.
    lemma ReadyToCommit()
      requires Valid() && backing != null
      ensures backing.Valid() && backing.height < height && this !in backing.Repr && backing.Repr <= Repr
      ensures records !! backing.Repr && records <= Repr && this in Repr
      ensures forall k | k in cache :: cache[k] in records && cache[k].key == k
      ensures forall k | k in backing.view || k in cache :: k in view
      ensures forall k | k in view ::
        if k in cache then view[k] == cache[k].Data() else k in backing.view && view[k] == backing.view[k]
    {
    }

    /** `commit`: the records move down, and the store below now shows what this one showed. */
    method Commit()
      requires Valid() && backing != null
      modifies this, backing
      ensures Valid() && cache == map[] && view == old(view)
      ensures backing.Valid() && backing.view == view && backing.base == old(backing.base)
      ensures backing.cache == old(backing.cache) + old(cache)
      ensures Repr == old(Repr) && backing.Repr <= Repr && backing.records == old(backing.records) + old(records)
    {
      hide Valid, Inside;
      ReadyToCommit();
      backing.Update(cache, records, view);
      Clear();
    }

    /** `rollback`: the store below shows through again. */
    method Rollback()
      requires Valid() && backing != null
      modifies this
      ensures Valid() && Repr == old(Repr) && backing.Repr <= Repr && cache == map[]
      ensures backing.Valid() && view == backing.view && base == old(base) && view == base
    {
      Clear();
    }
  }
}
