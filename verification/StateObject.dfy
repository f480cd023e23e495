/**
 The state object through which one EVM execution reads and writes the tables
 (src/state.cpp, include/evm_runtime/state.hpp), with its caches.

 Reads fill the caches and may be answered from them; the caches agree with the tables
 throughout the phase of reads that precedes all writes.
 */
module StateObject {
  import opened Words
  import opened Store
  import Spec = Store
  import opened StoreInvariant

  method AvailablePrimaryKey(keys: set<nat>) returns (k: nat)
    ensures k == NextKey(keys)
  {
    k := 0;
    var rest := keys;
    while rest != {}
      invariant rest <= keys
      invariant forall i :: i in keys && i !in rest ==> i < k
      invariant k > 0 ==> k - 1 in keys
      decreases rest
    {
      var x :| x in rest;
      if x >= k {
        k := x + 1;
      }
      rest := rest - {x};
    }
    NextKeyUnique(keys, k);
  }

  lemma NextKeyUnique(keys: set<nat>, k: nat)
    requires (forall i :: i in keys ==> i < k) && (k > 0 ==> k - 1 in keys)
    ensures k == NextKey(keys)
  {
    var n := NextKey(keys);
    assert n > 0 ==> n - 1 < k;
  }

  class State {
    const readOnly: bool
    const allowFrozen: bool
    var accounts: map<nat, AccountRow>
    var codes: map<nat, CodeRow>
    var storage: map<nat, seq<Slot>>
    var gcRows: seq<nat>
    var storedNext: Option<nat>
    var cachedNext: Option<nat>
    var addr2id: map<Address, nat>
    var addr2code: map<Hash, Code>

    function Tables(): Store
      reads this
    {
      Store(accounts, codes, storage, gcRows, storedNext, cachedNext)
    }

    ghost predicate CachesAgree()
      reads this
    {
      && (forall a :: a in addr2id ==> addr2id[a] in accounts && accounts[addr2id[a]].address == a)
      && (forall h :: h in addr2code ==> Spec.ReadCode(Tables(), h) == addr2code[h])
    }

    /** A new object over the stored tables, with nothing cached. */
    constructor (tables: Store, readOnly: bool, allowFrozen: bool)
      requires tables.cachedNext.None?
      ensures Tables() == tables && this.readOnly == readOnly && this.allowFrozen == allowFrozen && CachesAgree()
    {
      this.readOnly, this.allowFrozen := readOnly, allowFrozen;
      accounts, codes, storage, gcRows := tables.accounts, tables.codes, tables.storage, tables.gc;
      storedNext, cachedNext := tables.storedNext, None;
      addr2id, addr2code := map[], map[];
    }

    /** The destructor. */
    method Destroy()
      modifies this
      ensures Tables() == NewObject(old(Tables()))
    {
      if cachedNext.None? {
        return;
      }
      storedNext := cachedNext;
      cachedNext := None;
    }

    // ----- Index lookups -----

    method ByAddress(a: Address) returns (r: Option<nat>)
      requires AddressesOk(accounts)
      ensures r == FindAccount(accounts, a)
    {
      if id :| id in accounts && accounts[id].address == a {
        return Some(id);
      }
      return None;
    }

    method ByHash(ghost codeOf: Hash -> Code, h: Hash) returns (r: Option<nat>)
      requires CodesOk(codeOf, accounts, codes)
      ensures r == FindCode(codes, h)
    {
      if c :| c in codes && codes[c].hash == h {
        return Some(c);
      }
      return None;
    }

    // ----- Reads -----

    method ReadAccount(ghost codeOf: Hash -> Code, a: Address) returns (r: Outcome<Option<(nat, nat, Option<Hash>)>>)
      requires Inv(codeOf, Tables()) && CachesAgree()
      modifies this
      ensures Tables() == old(Tables()) && CachesAgree()
      ensures r == Spec.ReadAccount(Tables(), allowFrozen, a)
    {
      var found := ByAddress(a);
      if found.None? {
        return Commit(None);
      }
      var row := accounts[found.value];
      if !allowFrozen && row.frozen {
        return Abort;
      }
      addr2id := addr2id[a := found.value];
      var hash := None;
      if row.codeId.Some? && row.codeId.value in codes {
        var code := codes[row.codeId.value];
        hash := Some(code.hash);
        assert FindCode(codes, code.hash) == Some(row.codeId.value);
        addr2code := addr2code[code.hash := code.code];
      }
      return Commit(Some((row.nonce, row.balance, hash)));
    }

    method ReadCode(ghost codeOf: Hash -> Code, h: Hash) returns (r: Code)
      requires Inv(codeOf, Tables()) && CachesAgree()
      modifies this
      ensures Tables() == old(Tables()) && CachesAgree()
      ensures r == Spec.ReadCode(Tables(), h)
    {
      if h in addr2code {
        return addr2code[h];
      }
      var found := ByHash(codeOf, h);
      if found.None? || codes[found.value].code == [] {
        return [];
      }
      addr2code := addr2code[h := codes[found.value].code];
      return addr2code[h];
    }

    method ReadStorage(ghost codeOf: Hash -> Code, a: Address, key: EvmWord) returns (r: EvmWord)
      requires Inv(codeOf, Tables()) && CachesAgree()
      modifies this
      ensures Tables() == old(Tables()) && CachesAgree()
      ensures r == Spec.ReadStorage(Tables(), a, key)
    {
      if a !in addr2id {
        var found := ByAddress(a);
        if found.None? {
          return 0;
        }
        addr2id := addr2id[a := found.value];
      }
      assert FindAccount(accounts, a) == Some(addr2id[a]);
      var rows := Scope(storage, addr2id[a]);
      var i := IndexOf(rows, key);
      return if i < |rows| then rows[i].value else 0;
    }

    // ----- Writes -----

    method GetNextAccountId() returns (id: nat)
      modifies this`cachedNext
      ensures id == NextId(old(Tables()))
      ensures Tables() == old(Tables()).(cachedNext := Some(id + 1))
    {
      if cachedNext.None? {
        if storedNext.Some? {
          cachedNext := storedNext;
        } else {
          var k := AvailablePrimaryKey(accounts.Keys);
          cachedNext := Some(k);
        }
      }
      id := cachedNext.value;
      cachedNext := Some(id + 1);
    }

    method Emplace(row: AccountRow) returns (id: nat)
      modifies this`accounts, this`cachedNext
      ensures id == NextId(old(Tables()))
      ensures Tables() == AddAccount(old(Tables()), row)
    {
      id := GetNextAccountId();
      accounts := accounts[id := row];
    }

    method Remove(id: nat) returns (ok: bool)
      requires id in accounts
      modifies this
      ensures ok <==> RemoveAccount(old(Tables()), id).Commit?
      ensures ok ==> RemoveAccount(old(Tables()), id) == Commit(Tables())
    {
      gcRows := gcRows + [id];
      var codeId := accounts[id].codeId;
      if codeId.Some? {
        var c := codeId.value;
        if c !in codes {
          return false;
        }
        if (codes[c].refCount - 1) % U32 != 0 {
          codes := codes[c := codes[c].(refCount := (codes[c].refCount - 1) % U32)];
        } else {
          codes := codes - {c};
        }
      }
      accounts := accounts - {id};
      return true;
    }

    /** The administrator's removal of an account by id: no code row it names is missing. */
    method RmAccount(ghost codeOf: Hash -> Code, id: nat) returns (ok: bool)
      requires Inv(codeOf, Tables())
      modifies this
      ensures ok <==> id in old(accounts)
      ensures ok ==> Spec.RmAccount(old(Tables()), id) == Commit(Tables()) && Inv(codeOf, Tables())
    {
      if id !in accounts {
        return false;
      }
      RemoveAccountOk(codeOf, Tables(), id);
      ok := Remove(id);
    }

    method FreezeAccnt(ghost codeOf: Hash -> Code, id: nat, frozen: bool) returns (ok: bool)
      requires Inv(codeOf, Tables())
      modifies this`accounts
      ensures ok <==> id in old(accounts)
      ensures ok ==> FreezeAccount(old(Tables()), id, frozen) == Commit(Tables()) && Inv(codeOf, Tables())
    {
      if id !in accounts {
        return false;
      }
      ChangeRowOk(codeOf, Tables(), id, accounts[id].(frozen := frozen));
      accounts := accounts[id := accounts[id].(frozen := frozen)];
      return true;
    }

    /** Aborts only for a read-only object: no code row a removed account names is missing. */
    method UpdateAccount(ghost codeOf: Hash -> Code, a: Address, initial: Option<Account>, current: Option<Account>)
      returns (ok: bool)
      requires Inv(codeOf, Tables())
      modifies this
      ensures ok <==> !readOnly
      ensures ok ==> Spec.UpdateAccount(old(Tables()), a, initial, current) == Commit(Tables()) && Inv(codeOf, Tables())
    {
      if readOnly {
        return false;
      }
      UpdateAccountOk(codeOf, Tables(), a, initial, current);
      if current == initial {
        return true;
      }
      var found := ByAddress(a);
      if current.Some? {
        var row := AccountRow(a, current.value.nonce, current.value.balance, None, false);
        if found.None? {
          var _ := Emplace(row);
        } else if initial.Some? && initial.value.incarnation != current.value.incarnation {
          ok := Remove(found.value);
          if ok {
            var _ := Emplace(row);
          }
          return;
        } else {
          accounts := accounts[found.value := accounts[found.value].(nonce := row.nonce, balance := row.balance)];
        }
      } else if found.Some? {
        ok := Remove(found.value);
        return;
      }
      return true;
    }

    /** One more reference to a code, on its existing row or a new one. */
    method TakeCodeRow(ghost codeOf: Hash -> Code, h: Hash, code: Code) returns (c: nat)
      requires CodesOk(codeOf, accounts, codes)
      modifies this`codes
      ensures (c, codes) == TakeCode(old(codes), h, code)
    {
      var shared := ByHash(codeOf, h);
      if shared.None? {
        c := AvailablePrimaryKey(codes.Keys);
        codes := codes[c := CodeRow(1, h, code)];
      } else {
        c := shared.value;
        codes := codes[c := codes[c].(refCount := (codes[c].refCount + 1) % U32)];
      }
    }

    /** Exact counts survive only if the account had no code; see `TakeCodeIff`. */
    method UpdateAccountCode(ghost codeOf: Hash -> Code, a: Address, h: Hash, code: Code) returns (ok: bool)
      requires CodesOk(codeOf, accounts, codes) && AddressesOk(accounts)
      modifies this
      ensures ok <==> !readOnly
      ensures ok ==> Tables() == UpdateCode(old(Tables()), a, h, code)
    {
      if readOnly {
        return false;
      }
      var c := TakeCodeRow(codeOf, h, code);
      var found := ByAddress(a);
      if found.Some? {
        accounts := accounts[found.value := accounts[found.value].(codeId := Some(c))];
      } else {
        var _ := Emplace(AccountRow(a, 0, 0, Some(c), false));
      }
      return true;
    }

    method SetRows(id: nat, rows: seq<Slot>)
      modifies this`storage
      ensures Tables() == SetScope(old(Tables()), id, rows)
    {
      if rows != Scope(storage, id) {
        storage := storage[id := rows];
      }
    }

    method UpdateStorage(ghost codeOf: Hash -> Code, a: Address, key: EvmWord, value: EvmWord) returns (ok: bool)
      requires Inv(codeOf, Tables())
      modifies this
      ensures ok <==> !readOnly
      ensures ok ==> Tables() == Spec.UpdateStorage(old(Tables()), a, key, value) && Inv(codeOf, Tables())
    {
      if readOnly {
        return false;
      }
      UpdateStorageOk(codeOf, Tables(), a, key, value);
      var found := ByAddress(a);
      if value == 0 {
        if found.None? || IndexOf(Scope(storage, found.value), key) == |Scope(storage, found.value)| {
          return true;
        }
        SetRows(found.value, RemoveSlot(Scope(storage, found.value), key));
      } else {
        var id;
        if found.None? {
          id := Emplace(AccountRow(a, 0, 0, None, false));
        } else {
          id := found.value;
        }
        SetRows(id, PutSlot(Scope(storage, id), key, value));
      }
      return true;
    }

    /** Erase rows of one scope from the front while the allowance lasts. */
    method EraseRows(id: nat, allowance: nat) returns (left: nat)
      modifies this`storage
      ensures var rows := Scope(old(storage), id);
              var n := if allowance < |rows| then allowance else |rows|;
              left == allowance - n && Tables() == SetScope(old(Tables()), id, rows[n..])
    {
      left := allowance;
      ghost var rows := Scope(storage, id);
      while left > 0 && Scope(storage, id) != []
        invariant 0 <= left <= allowance && allowance - left <= |rows|
        invariant Scope(storage, id) == rows[allowance - left..]
        invariant Tables() == SetScope(old(Tables()), id, Scope(storage, id))
        decreases left
      {
        assert rows[allowance - left..][1..] == rows[allowance - left + 1..];
        storage := storage[id := Scope(storage, id)[1..]];
        left := left - 1;
      }
    }

    /** `gc`: scope by scope, as long as the allowance lasts; true if nothing is left to collect. */
    method Gc(allowance: nat) returns (done: bool)
      requires forall i, j :: 0 <= i < j < |gcRows| ==> gcRows[i] != gcRows[j]
      modifies this
      ensures Tables() == Collect(old(Tables()), allowance)
      ensures done <==> Garbage(old(storage), old(gcRows)) <= allowance
    {
      hide Garbage;
      CollectExact(Tables(), allowance);
      var max := allowance;
      while max > 0 && gcRows != []
        invariant Collect(Tables(), max) == Collect(old(Tables()), allowance)
        decreases |gcRows|
      {
        max := EraseRows(gcRows[0], max);
        if max == 0 {
          break;
        }
        gcRows := gcRows[1..];
        max := max - 1;
      }
      return gcRows == [];
    }
  }
}
