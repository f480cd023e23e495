/**
 What every reachable state of the tables satisfies: ids are never reused, addresses, code
 hashes and storage keys are unique, and code reference counts are exact.
 */
module StoreInvariant {
  import opened Words
  import opened Store

  // ----- Codes -----

  ghost function Users(accounts: map<nat, AccountRow>, c: nat): set<nat> {
    set id | id in accounts && accounts[id].codeId == Some(c)
  }

  /** The reference count of a code row is the number of accounts naming it, and not zero. */
  ghost predicate Counted(accounts: map<nat, AccountRow>, codes: map<nat, CodeRow>, c: nat)
    requires c in codes
  {
    1 <= codes[c].refCount == |Users(accounts, c)| < U32
  }

  /** Code ids resolve, rows are counted exactly, and no two rows have the same hash. */
  ghost predicate CodesOk(codeOf: Hash -> Code, accounts: map<nat, AccountRow>, codes: map<nat, CodeRow>) {
    && (forall id :: id in accounts && accounts[id].codeId.Some? ==> accounts[id].codeId.value in codes)
    && (forall c :: c in codes ==> Counted(accounts, codes, c))
    && (forall c :: c in codes ==> codes[c].code == codeOf(codes[c].hash))
    && (forall c, c' :: c in codes && c' in codes && codes[c].hash == codes[c'].hash ==> c == c')
  }

  /** Rows that name no code do not matter to the counts, nor does anything but the code id. */
  lemma SameUsers(codeOf: Hash -> Code, accounts: map<nat, AccountRow>, codes: map<nat, CodeRow>, id: nat, row: AccountRow)
    requires CodesOk(codeOf, accounts, codes)
    requires row.codeId == if id in accounts then accounts[id].codeId else None
    ensures CodesOk(codeOf, accounts[id := row], codes)
  {
    forall c | c in codes
      ensures Counted(accounts[id := row], codes, c)
    {
      assert Users(accounts[id := row], c) == Users(accounts, c);
      assert Counted(accounts, codes, c);
    }
  }

  lemma OneUserLess(accounts: map<nat, AccountRow>, id: nat, c: nat)
    requires id in accounts
    ensures accounts[id].codeId == Some(c) ==> id in Users(accounts, c) && Users(accounts - {id}, c) == Users(accounts, c) - {id}
    ensures accounts[id].codeId != Some(c) ==> Users(accounts - {id}, c) == Users(accounts, c)
  {
  }

  lemma CodelessGone(codeOf: Hash -> Code, accounts: map<nat, AccountRow>, codes: map<nat, CodeRow>, id: nat)
    requires CodesOk(codeOf, accounts, codes) && id in accounts && accounts[id].codeId.None?
    ensures CodesOk(codeOf, accounts - {id}, codes)
  {
    forall d | d in codes
      ensures Counted(accounts - {id}, codes, d)
    {
      OneUserLess(accounts, id, d);
      assert Counted(accounts, codes, d);
    }
  }

  lemma SharerGone(codeOf: Hash -> Code, accounts: map<nat, AccountRow>, codes: map<nat, CodeRow>, id: nat, c: nat)
    requires CodesOk(codeOf, accounts, codes) && id in accounts && accounts[id].codeId == Some(c)
    requires codes[c].refCount > 1
    ensures CodesOk(codeOf, accounts - {id}, codes[c := codes[c].(refCount := codes[c].refCount - 1)])
  {
    var codes' := codes[c := codes[c].(refCount := codes[c].refCount - 1)];
    forall d | d in codes'
      ensures Counted(accounts - {id}, codes', d)
    {
      OneUserLess(accounts, id, d);
      assert Counted(accounts, codes, d);
    }
  }

  lemma LastUserGone(codeOf: Hash -> Code, accounts: map<nat, AccountRow>, codes: map<nat, CodeRow>, id: nat, c: nat)
    requires CodesOk(codeOf, accounts, codes) && id in accounts && accounts[id].codeId == Some(c)
    requires codes[c].refCount == 1
    ensures CodesOk(codeOf, accounts - {id}, codes - {c})
  {
    assert Counted(accounts, codes, c);
    OneUserLess(accounts, id, c);
    assert |Users(accounts - {id}, c)| == 0;
    forall i | i in accounts - {id} && accounts[i].codeId.Some?
      ensures accounts[i].codeId.value in codes - {c}
    {
      assert i !in Users(accounts - {id}, c);
    }
    forall d | d in codes - {c}
      ensures Counted(accounts - {id}, codes - {c}, d)
    {
      OneUserLess(accounts, id, d);
      assert Counted(accounts, codes, d);
    }
  }

  lemma DropCodeOk(codeOf: Hash -> Code, accounts: map<nat, AccountRow>, codes: map<nat, CodeRow>, id: nat)
    requires CodesOk(codeOf, accounts, codes) && id in accounts
    ensures DropCode(codes, accounts[id].codeId).Commit?
    ensures CodesOk(codeOf, accounts - {id}, DropCode(codes, accounts[id].codeId).value)
  {
    if accounts[id].codeId.None? {
      CodelessGone(codeOf, accounts, codes, id);
    } else {
      var c := accounts[id].codeId.value;
      var n := codes[c].refCount;
      assert 1 <= n < U32 by {
        assert Counted(accounts, codes, c);
      }
      if n == 1 {
        LastUserGone(codeOf, accounts, codes, id, c);
        assert DropCode(codes, Some(c)) == Commit(codes - {c});
      } else {
        SharerGone(codeOf, accounts, codes, id, c);
        assert DropCode(codes, Some(c)) == Commit(codes[c := codes[c].(refCount := n - 1)]);
      }
    }
  }

  lemma OneMoreUser(accounts: map<nat, AccountRow>, id: nat, row: AccountRow, c: nat)
    requires id in accounts ==> accounts[id].codeId.None?
    ensures row.codeId == Some(c) ==> id !in Users(accounts, c) && Users(accounts[id := row], c) == Users(accounts, c) + {id}
    ensures row.codeId != Some(c) ==> Users(accounts[id := row], c) == Users(accounts, c)
  {
  }

  lemma NewCodeOk(codeOf: Hash -> Code, accounts: map<nat, AccountRow>, codes: map<nat, CodeRow>, id: nat, row: AccountRow, h: Hash, c: nat)
    requires CodesOk(codeOf, accounts, codes)
    requires id in accounts ==> accounts[id].codeId.None?
    requires c !in codes && row.codeId == Some(c) && forall d :: d in codes ==> codes[d].hash != h
    ensures CodesOk(codeOf, accounts[id := row], codes[c := CodeRow(1, h, codeOf(h))])
  {
    var codes' := codes[c := CodeRow(1, h, codeOf(h))];
    assert Users(accounts, c) == {};
    forall d | d in codes'
      ensures Counted(accounts[id := row], codes', d)
    {
      OneMoreUser(accounts, id, row, d);
      assert d != c ==> Counted(accounts, codes, d);
    }
  }

  lemma SharedCodeOk(codeOf: Hash -> Code, accounts: map<nat, AccountRow>, codes: map<nat, CodeRow>, id: nat, row: AccountRow, c: nat)
    requires CodesOk(codeOf, accounts, codes)
    requires id in accounts ==> accounts[id].codeId.None?
    requires c in codes && row.codeId == Some(c) && |Users(accounts, c)| + 1 < U32
    ensures CodesOk(codeOf, accounts[id := row], codes[c := codes[c].(refCount := (codes[c].refCount + 1) % U32)])
  {
    var codes' := codes[c := codes[c].(refCount := (codes[c].refCount + 1) % U32)];
    forall d | d in codes'
      ensures Counted(accounts[id := row], codes', d)
    {
      OneMoreUser(accounts, id, row, d);
      assert Counted(accounts, codes, d);
    }
  }

  /** A code given to an account that had none, or to a new account. */
  lemma TakeCodeOk(codeOf: Hash -> Code, accounts: map<nat, AccountRow>, codes: map<nat, CodeRow>, id: nat, row: AccountRow, h: Hash)
    requires CodesOk(codeOf, accounts, codes)
    requires id in accounts ==> accounts[id].codeId.None?
    requires row.codeId == Some(TakeCode(codes, h, codeOf(h)).0)
    requires FindCode(codes, h).Some? ==> |Users(accounts, FindCode(codes, h).value)| + 1 < U32
    ensures CodesOk(codeOf, accounts[id := row], TakeCode(codes, h, codeOf(h)).1)
  {
    var c := TakeCode(codes, h, codeOf(h)).0;
    if FindCode(codes, h).None? {
      NewCodeOk(codeOf, accounts, codes, id, row, h, c);
    } else {
      SharedCodeOk(codeOf, accounts, codes, id, row, c);
    }
  }

  /**
   Giving code to an existing account keeps the counts exact if and only if the account had
   no code: the old row's count is never given back.
   */
  lemma TakeCodeIff(codeOf: Hash -> Code, accounts: map<nat, AccountRow>, codes: map<nat, CodeRow>, id: nat, h: Hash)
    requires CodesOk(codeOf, accounts, codes) && id in accounts
    requires FindCode(codes, h).Some? ==> |Users(accounts, FindCode(codes, h).value)| + 1 < U32
    ensures var (c, codes') := TakeCode(codes, h, codeOf(h));
            CodesOk(codeOf, accounts[id := accounts[id].(codeId := Some(c))], codes') <==> accounts[id].codeId.None?
  {
    var (c, codes') := TakeCode(codes, h, codeOf(h));
    var accounts' := accounts[id := accounts[id].(codeId := Some(c))];
    if accounts[id].codeId.None? {
      TakeCodeOk(codeOf, accounts, codes, id, accounts'[id], h);
    } else {
      CountLost(codeOf, accounts, codes, id, accounts[id].codeId.value, h);
    }
  }

  /** The row of the code an account had before is no longer counted exactly. */
  lemma CountLost(codeOf: Hash -> Code, accounts: map<nat, AccountRow>, codes: map<nat, CodeRow>, id: nat, before: nat, h: Hash)
    requires CodesOk(codeOf, accounts, codes) && id in accounts && accounts[id].codeId == Some(before)
    requires FindCode(codes, h).Some? ==> |Users(accounts, FindCode(codes, h).value)| + 1 < U32
    ensures var (c, codes') := TakeCode(codes, h, codeOf(h));
            before in codes' && !Counted(accounts[id := accounts[id].(codeId := Some(c))], codes', before)
  {
    var (c, codes') := TakeCode(codes, h, codeOf(h));
    var accounts' := accounts[id := accounts[id].(codeId := Some(c))];
    assert id in Users(accounts, before) && Counted(accounts, codes, before);
    if before == c {
      assert Users(accounts', c) == Users(accounts, c);
    } else {
      assert Users(accounts', before) == Users(accounts, before) - {id};
    }
  }

  // ----- Ids, addresses, storage rows -----

  /**
   Id freshness: the next id exceeds every id in use or awaiting collection; these are
   disjoint and without repetition; and every storage row belongs to one of them.
   */
  ghost predicate IdsOk(s: Store) {
    && (forall id :: id in s.accounts ==> id < NextId(s))
    && (forall i :: 0 <= i < |s.gc| ==> s.gc[i] < NextId(s) && s.gc[i] !in s.accounts)
    && (forall i, j :: 0 <= i < j < |s.gc| ==> s.gc[i] != s.gc[j])
    && (forall id :: id in s.storage && s.storage[id] != [] ==> id in s.accounts || id in s.gc)
    && (s.storedNext.None? && s.cachedNext.None? ==> s.accounts == map[] && s.gc == [])
  }

  ghost predicate AddressesOk(accounts: map<nat, AccountRow>) {
    forall id, id' :: id in accounts && id' in accounts && accounts[id].address == accounts[id'].address ==> id == id'
  }

  /** Keys are unique within a scope and zeros are not stored. */
  ghost predicate RowsOk(rows: seq<Slot>) {
    && (forall i, j :: 0 <= i < j < |rows| ==> rows[i].key != rows[j].key)
    && (forall i :: 0 <= i < |rows| ==> rows[i].value != 0)
  }

  ghost predicate StorageOk(storage: map<nat, seq<Slot>>) {
    forall id :: id in storage ==> RowsOk(storage[id])
  }

  ghost predicate Inv(codeOf: Hash -> Code, s: Store) {
    && CodesOk(codeOf, s.accounts, s.codes)
    && IdsOk(s)
    && AddressesOk(s.accounts)
    && StorageOk(s.storage)
  }

  /** The id of a new account has never been used: no storage waits for it. */
  lemma NextIdIsFresh(s: Store)
    requires IdsOk(s)
    ensures NextId(s) !in s.accounts && NextId(s) !in s.gc && Scope(s.storage, NextId(s)) == []
  {
  }

  lemma AddAccountOk(s: Store, row: AccountRow)
    requires IdsOk(s) && AddressesOk(s.accounts) && FindAccount(s.accounts, row.address).None?
    ensures IdsOk(AddAccount(s, row)) && AddressesOk(AddAccount(s, row).accounts)
  {
    NextIdIsFresh(s);
  }

  lemma RemoveAccountOk(codeOf: Hash -> Code, s: Store, id: nat)
    requires Inv(codeOf, s) && id in s.accounts
    ensures RemoveAccount(s, id).Commit? && Inv(codeOf, RemoveAccount(s, id).value)
    ensures FindAccount(RemoveAccount(s, id).value.accounts, s.accounts[id].address).None?
  {
    DropCodeOk(codeOf, s.accounts, s.codes, id);
    var s' := RemoveAccount(s, id).value;
    assert forall i :: 0 <= i < |s'.gc| ==> s'.gc[i] == if i < |s.gc| then s.gc[i] else id;
    assert forall x :: x in s.gc ==> x in s'.gc;
    assert id in s'.gc by {
      assert s'.gc[|s.gc|] == id;
    }
  }

  lemma ChangeRowOk(codeOf: Hash -> Code, s: Store, id: nat, row: AccountRow)
    requires Inv(codeOf, s) && id in s.accounts
    requires row.address == s.accounts[id].address && row.codeId == s.accounts[id].codeId
    ensures Inv(codeOf, s.(accounts := s.accounts[id := row]))
  {
    SameUsers(codeOf, s.accounts, s.codes, id, row);
    var s' := s.(accounts := s.accounts[id := row]);
    assert s'.accounts.Keys == s.accounts.Keys;
  }

  lemma SetScopeOk(codeOf: Hash -> Code, s: Store, id: nat, rows: seq<Slot>)
    requires Inv(codeOf, s) && RowsOk(rows) && (id in s.accounts || id in s.gc)
    ensures Inv(codeOf, SetScope(s, id, rows))
  {
  }

  lemma PutSlotOk(rows: seq<Slot>, key: EvmWord, value: EvmWord)
    requires RowsOk(rows) && value != 0
    ensures RowsOk(PutSlot(rows, key, value))
  {
  }

  lemma RemoveSlotOk(rows: seq<Slot>, key: EvmWord)
    requires RowsOk(rows)
    ensures RowsOk(RemoveSlot(rows, key))
  {
    var i, rows' := IndexOf(rows, key), RemoveSlot(rows, key);
    if i < |rows| {
      assert forall j :: 0 <= j < |rows'| ==> rows'[j] == if j < i then rows[j] else rows[j + 1];
    }
  }

  lemma AddCodelessOk(codeOf: Hash -> Code, s: Store, row: AccountRow)
    requires Inv(codeOf, s) && FindAccount(s.accounts, row.address).None? && row.codeId.None?
    ensures Inv(codeOf, AddAccount(s, row))
  {
    NextIdIsFresh(s);
    AddAccountOk(s, row);
    SameUsers(codeOf, s.accounts, s.codes, NextId(s), row);
  }

  lemma UpdateAccountOk(codeOf: Hash -> Code, s: Store, a: Address, initial: Option<Account>, current: Option<Account>)
    requires Inv(codeOf, s)
    ensures UpdateAccount(s, a, initial, current).Commit?
    ensures Inv(codeOf, UpdateAccount(s, a, initial, current).value)
  {
    var found := FindAccount(s.accounts, a);
    if current != initial {
      if current.None? {
        if found.Some? {
          RemoveAccountOk(codeOf, s, found.value);
        }
      } else {
        var row := AccountRow(a, current.value.nonce, current.value.balance, None, false);
        if found.None? {
          AddCodelessOk(codeOf, s, row);
        } else if initial.Some? && initial.value.incarnation != current.value.incarnation {
          RemoveAccountOk(codeOf, s, found.value);
          AddCodelessOk(codeOf, RemoveAccount(s, found.value).value, row);
        } else {
          ChangeRowOk(codeOf, s, found.value,
                      s.accounts[found.value].(nonce := current.value.nonce, balance := current.value.balance));
        }
      }
    }
  }

  /** The account at an address, if any, has no code, and a code row can take one more user. */
  ghost predicate MayTakeCode(s: Store, a: Address, h: Hash) {
    var found, shared := FindAccount(s.accounts, a), FindCode(s.codes, h);
    && (found.Some? ==> s.accounts[found.value].codeId.None?)
    && (shared.Some? ==> |Users(s.accounts, shared.value)| + 1 < U32)
  }

  lemma UpdateCodeOk(codeOf: Hash -> Code, s: Store, a: Address, h: Hash)
    requires Inv(codeOf, s) && MayTakeCode(s, a, h)
    ensures Inv(codeOf, UpdateCode(s, a, h, codeOf(h)))
  {
    var c := TakeCode(s.codes, h, codeOf(h)).0;
    var found := FindAccount(s.accounts, a);
    var s' := UpdateCode(s, a, h, codeOf(h));
    if found.Some? {
      TakeCodeOk(codeOf, s.accounts, s.codes, found.value, s'.accounts[found.value], h);
      assert s'.accounts.Keys == s.accounts.Keys;
      assert IdsOk(s');
    } else {
      NextIdIsFresh(s);
      var s1 := s.(codes := s'.codes);
      assert IdsOk(s1);
      AddAccountOk(s1, AccountRow(a, 0, 0, Some(c), false));
      TakeCodeOk(codeOf, s.accounts, s.codes, NextId(s), s'.accounts[NextId(s)], h);
    }
  }

  lemma UpdateStorageOk(codeOf: Hash -> Code, s: Store, a: Address, key: EvmWord, value: EvmWord)
    requires Inv(codeOf, s)
    ensures Inv(codeOf, UpdateStorage(s, a, key, value))
  {
    var found := FindAccount(s.accounts, a);
    if found.Some? {
      var rows := Scope(s.storage, found.value);
      if value == 0 {
        RemoveSlotOk(rows, key);
        SetScopeOk(codeOf, s, found.value, RemoveSlot(rows, key));
      } else {
        PutSlotOk(rows, key, value);
        SetScopeOk(codeOf, s, found.value, PutSlot(rows, key, value));
      }
    } else if value != 0 {
      var row := AccountRow(a, 0, 0, None, false);
      NextIdIsFresh(s);
      AddCodelessOk(codeOf, s, row);
      PutSlotOk([], key, value);
      SetScopeOk(codeOf, AddAccount(s, row), NextId(s), PutSlot([], key, value));
    }
  }

  lemma NewObjectOk(codeOf: Hash -> Code, s: Store)
    requires Inv(codeOf, s)
    ensures Inv(codeOf, NewObject(s)) && NextId(NewObject(s)) == NextId(s)
  {
  }

  // ----- Collection -----

  /** Entries and storage rows that wait for collection. */
  function Garbage(storage: map<nat, seq<Slot>>, gc: seq<nat>): nat {
    if gc == [] then 0 else |Scope(storage, gc[0])| + 1 + Garbage(storage, gc[1..])
  }

  lemma {:induction false} GarbageElsewhere(storage: map<nat, seq<Slot>>, gc: seq<nat>, id: nat, rows: seq<Slot>)
    requires id !in gc
    ensures Garbage(storage[id := rows], gc) == Garbage(storage, gc)
  {
    if gc != [] {
      GarbageElsewhere(storage, gc[1..], id, rows);
    }
  }

  /**
   Collection removes exactly as many rows as allowed, or all the garbage, and reports that
   nothing is left exactly when the allowance covers the garbage.
   */
  lemma {:induction false} CollectExact(s: Store, max: nat)
    requires forall i, j :: 0 <= i < j < |s.gc| ==> s.gc[i] != s.gc[j]
    ensures var s' := Collect(s, max);
            var before := Garbage(s.storage, s.gc);
            && Garbage(s'.storage, s'.gc) == (if max < before then before - max else 0)
            && (s'.gc == [] <==> before <= max)
    decreases |s.gc|
  {
    if max > 0 && s.gc != [] {
      var id, rows := s.gc[0], Scope(s.storage, s.gc[0]);
      assert id !in s.gc[1..];
      if max <= |rows| {
        GarbageElsewhere(s.storage, s.gc[1..], id, rows[max..]);
      } else {
        GarbageElsewhere(s.storage, s.gc[1..], id, []);
        CollectExact(PastFirst(s), max - |rows| - 1);
      }
    }
  }

  /** Entries go from the front. */
  lemma {:induction false} CollectEntries(s: Store, max: nat)
    ensures |Collect(s, max).gc| <= |s.gc|
    ensures Collect(s, max).gc == s.gc[|s.gc| - |Collect(s, max).gc|..]
    decreases |s.gc|
  {
    if max == 0 || s.gc == [] || max <= |Scope(s.storage, s.gc[0])| {
      assert s.gc == s.gc[0..];
    } else {
      CollectEntries(PastFirst(s), max - |Scope(s.storage, s.gc[0])| - 1);
    }
  }

  /** An entry goes only once its scope is empty. */
  lemma {:induction false} CollectEmpties(s: Store, max: nat, i: nat)
    requires forall j, k :: 0 <= j < k < |s.gc| ==> s.gc[j] != s.gc[k]
    requires i < |s.gc| - |Collect(s, max).gc|
    ensures Scope(Collect(s, max).storage, s.gc[i]) == []
    decreases |s.gc|
  {
    var id := s.gc[0];
    var s1, max1 := PastFirst(s), max - |Scope(s.storage, id)| - 1;
    assert Collect(s, max) == Collect(s1, max1);
    if i == 0 {
      CollectElsewhere(s1, max1, id);
    } else {
      assert s.gc[i] == s1.gc[i - 1];
      CollectEmpties(s1, max1, i - 1);
    }
  }

  /** One round of collection that gets past the first entry. */
  function PastFirst(s: Store): Store
    requires s.gc != []
  {
    SetScope(s, s.gc[0], []).(gc := s.gc[1..])
  }

  /** Scopes that are not listed for collection do not change. */
  lemma {:induction false} CollectElsewhere(s: Store, max: nat, id: nat)
    requires id !in s.gc
    ensures Scope(Collect(s, max).storage, id) == Scope(s.storage, id)
    decreases |s.gc|
  {
    if max > 0 && s.gc != [] {
      assert id != s.gc[0] && id !in s.gc[1..];
      if max > |Scope(s.storage, s.gc[0])| {
        CollectElsewhere(PastFirst(s), max - |Scope(s.storage, s.gc[0])| - 1, id);
      }
    }
  }

  /** Scopes only lose rows from the front. */
  lemma {:induction false} CollectScopes(s: Store, max: nat, id: nat)
    ensures IsSuffix(Scope(Collect(s, max).storage, id), Scope(s.storage, id))
    decreases |s.gc|
  {
    if max > 0 && s.gc != [] {
      var rows := Scope(s.storage, s.gc[0]);
      if max <= |rows| {
        assert IsSuffix(rows[max..], rows);
      } else {
        CollectScopes(PastFirst(s), max - |rows| - 1, id);
        assert id == s.gc[0] ==> Scope(PastFirst(s).storage, id) == [];
      }
    }
  }

  lemma {:induction false} CollectKeepsTables(s: Store, max: nat)
    ensures var s' := Collect(s, max);
            && s'.accounts == s.accounts && s'.codes == s.codes
            && s'.storedNext == s.storedNext && s'.cachedNext == s.cachedNext
    decreases |s.gc|
  {
    if max > 0 && s.gc != [] && max > |Scope(s.storage, s.gc[0])| {
      CollectKeepsTables(PastFirst(s), max - |Scope(s.storage, s.gc[0])| - 1);
    }
  }

  ghost predicate IsSuffix(t: seq<Slot>, s: seq<Slot>) {
    |t| <= |s| && t == s[|s| - |t|..]
  }

  lemma SuffixRowsOk(t: seq<Slot>, s: seq<Slot>)
    requires IsSuffix(t, s) && RowsOk(s)
    ensures RowsOk(t)
  {
    assert forall i :: 0 <= i < |t| ==> t[i] == s[|s| - |t| + i];
  }

  ghost function PositionOf(gc: seq<nat>, id: nat): (i: nat)
    requires id in gc
    ensures i < |gc| && gc[i] == id
  {
    var i :| 0 <= i < |gc| && gc[i] == id;
    i
  }

  /** Rows left after collection still belong to an account or to an entry that is left. */
  lemma CollectedRowOk(s: Store, max: nat, id: nat)
    requires IdsOk(s) && StorageOk(s.storage)
    requires id in Collect(s, max).storage
    ensures var s' := Collect(s, max);
            && RowsOk(s'.storage[id])
            && (s'.storage[id] != [] ==> id in s.accounts || id in s'.gc)
  {
    var s' := Collect(s, max);
    CollectScopes(s, max, id);
    CollectEntries(s, max);
    SuffixRowsOk(s'.storage[id], Scope(s.storage, id));
    if s'.storage[id] != [] && id in s.gc {
      var k, i := |s.gc| - |s'.gc|, PositionOf(s.gc, id);
      if i < k {
        CollectEmpties(s, max, i);
      }
      assert s'.gc[i - k] == id;
    }
  }

  lemma CollectOk(codeOf: Hash -> Code, s: Store, max: nat)
    requires Inv(codeOf, s)
    ensures Inv(codeOf, Collect(s, max))
  {
    var s' := Collect(s, max);
    CollectEntries(s, max);
    CollectKeepsTables(s, max);
    forall id | id in s'.storage
      ensures RowsOk(s'.storage[id])
      ensures s'.storage[id] != [] ==> id in s.accounts || id in s'.gc
    {
      CollectedRowOk(s, max, id);
    }
    var k := |s.gc| - |s'.gc|;
    assert forall i :: 0 <= i < |s'.gc| ==> s'.gc[i] == s.gc[k + i];
  }
}
