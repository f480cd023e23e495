/**
 The tables refine a plain map from addresses to accounts.

 `World` is what the EVM is promised: an address has a nonce, a balance, maybe code, and a
 storage in which every key not mentioned is zero; and it may be frozen.  Ids, scopes, shared code rows and pending
 collection are invisible in it.
 */
module StoreRefinement {
  import opened Words
  import opened Store
  import opened StoreInvariant

  datatype CodeRef = CodeRef(hash: Hash, code: Code)

  datatype Acct = Acct(nonce: nat, balance: nat, code: Option<CodeRef>, storage: map<EvmWord, EvmWord>, frozen: bool)

  type World = map<Address, Acct>

  // ----- The plain map and its operations -----

  function SpecUpdateAccount(w: World, a: Address, initial: Option<Account>, current: Option<Account>): World {
    if current == initial then w
    else if current.None? then w - {a}
    else if a in w && !(initial.Some? && initial.value.incarnation != current.value.incarnation) then
      w[a := w[a].(nonce := current.value.nonce, balance := current.value.balance)]
    else w[a := Acct(current.value.nonce, current.value.balance, None, map[], false)]
  }

  /** The account at an address, or an empty one. */
  function Existing(w: World, a: Address): Acct {
    if a in w then w[a] else Acct(0, 0, None, map[], false)
  }

  function SpecUpdateCode(w: World, a: Address, h: Hash, code: Code): World {
    w[a := Existing(w, a).(code := Some(CodeRef(h, code)))]
  }

  function SpecUpdateStorage(w: World, a: Address, key: EvmWord, value: EvmWord): World {
    var acct := Existing(w, a);
    if value != 0 then w[a := acct.(storage := acct.storage[key := value])]
    else if a in w then w[a := acct.(storage := acct.storage - {key})]
    else w
  }

  function SpecFreeze(w: World, a: Address, frozen: bool): World {
    if a in w then w[a := w[a].(frozen := frozen)] else w
  }

  function SpecRead(w: World, a: Address, key: EvmWord): EvmWord {
    if a in w && key in w[a].storage then w[a].storage[key] else 0
  }

  // ----- What the tables show -----

  function SlotsMap(rows: seq<Slot>): map<EvmWord, EvmWord> {
    if rows == [] then map[] else SlotsMap(rows[..|rows| - 1])[rows[|rows| - 1].key := rows[|rows| - 1].value]
  }

  function CodeShown(codes: map<nat, CodeRow>, codeId: Option<nat>): Option<CodeRef> {
    if codeId.Some? && codeId.value in codes then Some(CodeRef(codes[codeId.value].hash, codes[codeId.value].code)) else None
  }

  function View(s: Store, id: nat): Acct
    requires id in s.accounts
  {
    var row := s.accounts[id];
    Acct(row.nonce, row.balance, CodeShown(s.codes, row.codeId), SlotsMap(Scope(s.storage, id)), row.frozen)
  }

  /** The tables show w: the same addresses, each with the same account. */
  ghost predicate Shows(s: Store, w: World) {
    && (forall id :: id in s.accounts ==> s.accounts[id].address in w && w[s.accounts[id].address] == View(s, id))
    && (forall a :: a in w ==> FindAccount(s.accounts, a).Some?)
  }

  // ----- Storage rows as a map -----

  lemma {:induction false} SlotsMapIs(rows: seq<Slot>, key: EvmWord)
    requires RowsOk(rows)
    ensures var i := IndexOf(rows, key);
            && (key in SlotsMap(rows) <==> i < |rows|)
            && (i < |rows| ==> SlotsMap(rows)[key] == rows[i].value != 0)
  {
    var n := |rows|;
    if n > 0 {
      var front := rows[..n - 1];
      SlotsMapIs(front, key);
      var i, j := IndexOf(rows, key), IndexOf(front, key);
      assert j < |front| ==> rows[j].key == key;
      assert i < |front| ==> front[i] == rows[i];
    }
  }

  lemma PutSlotMap(rows: seq<Slot>, key: EvmWord, value: EvmWord)
    requires RowsOk(rows) && value != 0
    ensures SlotsMap(PutSlot(rows, key, value)) == SlotsMap(rows)[key := value]
  {
    var rows' := PutSlot(rows, key, value);
    PutSlotOk(rows, key, value);
    forall k
      ensures k in SlotsMap(rows') <==> k in SlotsMap(rows)[key := value]
      ensures k in SlotsMap(rows') ==> SlotsMap(rows')[k] == SlotsMap(rows)[key := value][k]
    {
      PutSlotAt(rows, key, value, k);
    }
  }

  lemma PutSlotAt(rows: seq<Slot>, key: EvmWord, value: EvmWord, k: EvmWord)
    requires RowsOk(rows) && RowsOk(PutSlot(rows, key, value)) && value != 0
    ensures var before, after := SlotsMap(rows), SlotsMap(PutSlot(rows, key, value));
            && (k in after <==> k == key || k in before)
            && (k in after ==> after[k] == if k == key then value else before[k])
  {
    var rows' := PutSlot(rows, key, value);
    SlotsMapIs(rows, k);
    SlotsMapIs(rows', k);
    var p, i, j := IndexOf(rows, key), IndexOf(rows, k), IndexOf(rows', k);
    assert rows'[p] == Slot(key, value);
    assert forall q :: 0 <= q < |rows| && q != p ==> rows'[q] == rows[q];
    if k == key {
      assert j == p;
    } else if i < |rows| {
      assert rows'[i] == rows[i];
    }
  }

  lemma RemoveSlotMap(rows: seq<Slot>, key: EvmWord)
    requires RowsOk(rows)
    ensures SlotsMap(RemoveSlot(rows, key)) == SlotsMap(rows) - {key}
  {
    RemoveSlotOk(rows, key);
    var rows' := RemoveSlot(rows, key);
    forall k
      ensures k in SlotsMap(rows') <==> k in SlotsMap(rows) && k != key
      ensures k in SlotsMap(rows') ==> SlotsMap(rows')[k] == SlotsMap(rows)[k]
    {
      RemoveSlotAt(rows, key, k);
    }
  }

  lemma RemoveSlotAt(rows: seq<Slot>, key: EvmWord, k: EvmWord)
    requires RowsOk(rows) && RowsOk(RemoveSlot(rows, key))
    ensures var before, after := SlotsMap(rows), SlotsMap(RemoveSlot(rows, key));
            && (k in after <==> k in before && k != key)
            && (k in after ==> after[k] == before[k])
  {
    hide SlotsMap, RowsOk;
    SlotsMapIs(rows, k);
    SlotsMapIs(RemoveSlot(rows, key), k);
    if IndexOf(rows, key) < |rows| {
      IndexAfterRemoval(rows, RemoveSlot(rows, key), IndexOf(rows, key), k);
    }
  }

  /** Looking up a key in the rows without row p. */
  lemma IndexAfterRemoval(rows: seq<Slot>, rows': seq<Slot>, p: nat, k: EvmWord)
    requires RowsOk(rows) && p < |rows| && rows' == rows[..p] + rows[p + 1..]
    ensures var i, j := IndexOf(rows, k), IndexOf(rows', k);
            && (j < |rows'| <==> i < |rows| && i != p)
            && (j < |rows'| ==> rows'[j] == rows[i])
  {
    var i, j := IndexOf(rows, k), IndexOf(rows', k);
    if j < |rows'| {
      var q := if j < p then j else j + 1;
      assert rows'[j] == rows[q];
      OnlyIndex(rows, k, q);
    }
    if i < |rows| && i != p {
      var q := if i < p then i else i - 1;
      assert rows'[q] == rows[i];
    }
  }

  /** Keys are unique, so a row with the key is the row found. */
  lemma OnlyIndex(rows: seq<Slot>, k: EvmWord, q: nat)
    requires RowsOk(rows) && q < |rows| && rows[q].key == k
    ensures IndexOf(rows, k) == q
  {
    assert rows[IndexOf(rows, k)].key == rows[q].key;
  }

  // ----- Refinement, operation by operation -----

  lemma FoundIsShown(codeOf: Hash -> Code, s: Store, w: World, a: Address)
    requires Inv(codeOf, s) && Shows(s, w)
    ensures FindAccount(s.accounts, a).Some? <==> a in w
    ensures a in w ==> w[a] == View(s, FindAccount(s.accounts, a).value)
  {
  }

  /** The only account row that matters to an address is the one that has it. */
  lemma ShowsAgain(s: Store, w: World, s': Store, w': World, a: Address)
    requires Shows(s, w)
    requires AddressesOk(s.accounts) && AddressesOk(s'.accounts)
    requires forall id :: id in s'.accounts && s'.accounts[id].address == a ==> a in w' && w'[a] == View(s', id)
    requires a in w' ==> FindAccount(s'.accounts, a).Some?
    requires forall id :: id in s'.accounts && s'.accounts[id].address != a ==>
               id in s.accounts && s'.accounts[id] == s.accounts[id] && View(s', id) == View(s, id)
    requires forall id :: id in s.accounts && s.accounts[id].address != a ==>
               id in s'.accounts && s'.accounts[id] == s.accounts[id]
    requires forall x :: x != a ==> (x in w <==> x in w') && (x in w ==> w'[x] == w[x])
    ensures Shows(s', w')
  {
    forall x | x in w'
      ensures FindAccount(s'.accounts, x).Some?
    {
      if x != a {
        assert x in w;
        var id := FindAccount(s.accounts, x).value;
        assert id in s'.accounts && s'.accounts[id].address == x;
      }
    }
  }

  lemma AddAccountShows(codeOf: Hash -> Code, s: Store, w: World, row: AccountRow)
    requires Inv(codeOf, s) && Shows(s, w) && row.address !in w
    ensures Shows(AddAccount(s, row), w[row.address := Acct(row.nonce, row.balance, CodeShown(s.codes, row.codeId), map[], row.frozen)])
  {
    FoundIsShown(codeOf, s, w, row.address);
    NextIdIsFresh(s);
    AddAccountOk(s, row);
    var s' := AddAccount(s, row);
    assert s'.accounts[NextId(s)] == row;
    ShowsAgain(s, w, s', w[row.address := Acct(row.nonce, row.balance, CodeShown(s.codes, row.codeId), map[], row.frozen)], row.address);
  }

  /** Dropping a reference takes no code away from anybody else. */
  lemma OthersKeepCode(codeOf: Hash -> Code, accounts: map<nat, AccountRow>, codes: map<nat, CodeRow>, id: nat, i: nat)
    requires CodesOk(codeOf, accounts, codes) && id in accounts && i in accounts && i != id
    requires DropCode(codes, accounts[id].codeId).Commit?
    ensures CodeShown(DropCode(codes, accounts[id].codeId).value, accounts[i].codeId) == CodeShown(codes, accounts[i].codeId)
  {
    DropCodeOk(codeOf, accounts, codes, id);
    assert (accounts - {id})[i] == accounts[i];
  }

  lemma RemoveAccountShows(codeOf: Hash -> Code, s: Store, w: World, id: nat)
    requires Inv(codeOf, s) && Shows(s, w) && id in s.accounts
    ensures RemoveAccount(s, id).Commit?
    ensures Shows(RemoveAccount(s, id).value, w - {s.accounts[id].address})
  {
    RemoveAccountOk(codeOf, s, id);
    var s', a := RemoveAccount(s, id).value, s.accounts[id].address;
    forall i | i in s'.accounts
      ensures View(s', i) == View(s, i)
    {
      OthersKeepCode(codeOf, s.accounts, s.codes, id, i);
    }
    ShowsAgain(s, w, s', w - {a}, a);
  }

  lemma ChangeRowShows(s: Store, w: World, id: nat, row: AccountRow)
    requires AddressesOk(s.accounts) && Shows(s, w) && id in s.accounts
    requires row.address == s.accounts[id].address && row.codeId == s.accounts[id].codeId
    ensures Shows(s.(accounts := s.accounts[id := row]), w[row.address := w[row.address].(nonce := row.nonce, balance := row.balance, frozen := row.frozen)])
  {
    var s' := s.(accounts := s.accounts[id := row]);
    assert forall i :: i in s'.accounts && i != id ==> s'.accounts[i] == s.accounts[i] && s'.accounts[i].address != row.address;
    assert s'.accounts[id] == row && s.accounts[id].address in w;
    ShowsAgain(s, w, s', w[row.address := w[row.address].(nonce := row.nonce, balance := row.balance, frozen := row.frozen)], row.address);
  }

  lemma AddAgainShows(codeOf: Hash -> Code, s: Store, w: World, row: AccountRow)
    requires Inv(codeOf, s) && Shows(s, w - {row.address}) && row.codeId.None?
    ensures Shows(AddAccount(s, row), w[row.address := Acct(row.nonce, row.balance, None, map[], row.frozen)])
  {
    var w1, acct := w - {row.address}, Acct(row.nonce, row.balance, None, map[], row.frozen);
    assert w1[row.address := acct] == w[row.address := acct];
    AddAccountShows(codeOf, s, w1, row);
  }

  lemma RecreateShows(codeOf: Hash -> Code, s: Store, s1: Store, w: World, id: nat, row: AccountRow)
    requires Inv(codeOf, s) && Shows(s, w) && id in s.accounts
    requires row.address == s.accounts[id].address && row.codeId.None?
    requires RemoveAccount(s, id) == Commit(s1)
    ensures Shows(AddAccount(s1, row), w[row.address := Acct(row.nonce, row.balance, None, map[], row.frozen)])
  {
    assert Inv(codeOf, s1) by {
      RemoveAccountOk(codeOf, s, id);
    }
    assert Shows(s1, w - {row.address}) by {
      RemoveAccountShows(codeOf, s, w, id);
    }
    AddAgainShows(codeOf, s1, w, row);
  }

  /** `update_account` does to the map what the EVM asked for, and never aborts. */
  lemma UpdateAccountRefines(codeOf: Hash -> Code, s: Store, w: World, a: Address, initial: Option<Account>, current: Option<Account>)
    requires Inv(codeOf, s) && Shows(s, w)
    ensures UpdateAccount(s, a, initial, current).Commit?
    ensures Shows(UpdateAccount(s, a, initial, current).value, SpecUpdateAccount(w, a, initial, current))
  {
    if current != initial {
      if current.Some? {
        PutAccountRefines(codeOf, s, w, a, initial, current);
      } else {
        FoundIsShown(codeOf, s, w, a);
        if a in w {
          RemoveAccountShows(codeOf, s, w, FindAccount(s.accounts, a).value);
        } else {
          assert w - {a} == w;
        }
      }
    }
  }

  lemma PutAccountRefines(codeOf: Hash -> Code, s: Store, w: World, a: Address, initial: Option<Account>, current: Option<Account>)
    requires Inv(codeOf, s) && Shows(s, w) && current.Some? && current != initial
    ensures UpdateAccount(s, a, initial, current).Commit?
    ensures Shows(UpdateAccount(s, a, initial, current).value, SpecUpdateAccount(w, a, initial, current))
  {
    hide Shows, Inv;
    FoundIsShown(codeOf, s, w, a);
    var found := FindAccount(s.accounts, a);
    var row := AccountRow(a, current.value.nonce, current.value.balance, None, false);
    if found.None? {
      AddAccountShows(codeOf, s, w, row);
    } else if initial.Some? && initial.value.incarnation != current.value.incarnation {
      RemoveAccountShows(codeOf, s, w, found.value);
      RecreateShows(codeOf, s, RemoveAccount(s, found.value).value, w, found.value, row);
    } else {
      ChangeFoundShows(codeOf, s, w, found.value, row.nonce, row.balance);
    }
  }

  lemma ChangeFoundShows(codeOf: Hash -> Code, s: Store, w: World, id: nat, nonce: nat, balance: nat)
    requires Inv(codeOf, s) && Shows(s, w) && id in s.accounts
    ensures var a, row := s.accounts[id].address, s.accounts[id].(nonce := nonce, balance := balance);
            a in w && Shows(s.(accounts := s.accounts[id := row]), w[a := w[a].(nonce := nonce, balance := balance)])
  {
    ChangeRowShows(s, w, id, s.accounts[id].(nonce := nonce, balance := balance));
  }

  /** Taking a reference changes nobody else's code. */
  lemma OthersSeeSameCode(codeOf: Hash -> Code, accounts: map<nat, AccountRow>, codes: map<nat, CodeRow>, h: Hash, i: nat)
    requires CodesOk(codeOf, accounts, codes) && i in accounts
    ensures var (c, codes') := TakeCode(codes, h, codeOf(h));
            && CodeShown(codes', accounts[i].codeId) == CodeShown(codes, accounts[i].codeId)
            && CodeShown(codes', Some(c)) == Some(CodeRef(h, codeOf(h)))
  {
  }

  lemma UpdateCodeRefines(codeOf: Hash -> Code, s: Store, w: World, a: Address, h: Hash)
    requires Inv(codeOf, s) && Shows(s, w) && MayTakeCode(s, a, h)
    ensures Shows(UpdateCode(s, a, h, codeOf(h)), SpecUpdateCode(w, a, h, codeOf(h)))
  {
    var s' := UpdateCode(s, a, h, codeOf(h));
    var (c, codes') := TakeCode(s.codes, h, codeOf(h));
    FoundIsShown(codeOf, s, w, a);
    NextIdIsFresh(s);
    assert AddressesOk(s'.accounts) by {
      UpdateCodeOk(codeOf, s, a, h);
    }
    assert CodeShown(codes', Some(c)) == Some(CodeRef(h, codeOf(h)));
    forall i | i in s.accounts
      ensures CodeShown(codes', s.accounts[i].codeId) == CodeShown(s.codes, s.accounts[i].codeId)
    {
      OthersSeeSameCode(codeOf, s.accounts, s.codes, h, i);
    }
    var id := if a in w then FindAccount(s.accounts, a).value else NextId(s);
    GiveCodeShows(s, w, s', a, id, c, CodeRef(h, codeOf(h)));
  }

  lemma GiveCodeShows(s: Store, w: World, s': Store, a: Address, id: nat, c: nat, code: CodeRef)
    requires Shows(s, w) && AddressesOk(s.accounts) && AddressesOk(s'.accounts)
    requires if a in w then id in s.accounts && s.accounts[id].address == a
             else id !in s.accounts && Scope(s.storage, id) == []
    requires s'.accounts == s.accounts[id := (if a in w then s.accounts[id] else AccountRow(a, 0, 0, None, false)).(codeId := Some(c))]
    requires s'.storage == s.storage && CodeShown(s'.codes, Some(c)) == Some(code)
    requires forall i :: i in s.accounts ==> CodeShown(s'.codes, s.accounts[i].codeId) == CodeShown(s.codes, s.accounts[i].codeId)
    ensures Shows(s', SpecUpdateCode(w, a, code.hash, code.code))
  {
    assert s'.accounts[id].address == a;
    ShowsAgain(s, w, s', SpecUpdateCode(w, a, code.hash, code.code), a);
  }

  lemma SetScopeShows(s: Store, w: World, id: nat, rows: seq<Slot>)
    requires AddressesOk(s.accounts) && Shows(s, w) && id in s.accounts
    ensures var a := s.accounts[id].address;
            Shows(SetScope(s, id, rows), w[a := w[a].(storage := SlotsMap(rows))])
  {
    var a := s.accounts[id].address;
    ShowsAgain(s, w, SetScope(s, id, rows), w[a := w[a].(storage := SlotsMap(rows))], a);
  }

  lemma ScopeOk(codeOf: Hash -> Code, s: Store, id: nat)
    requires Inv(codeOf, s)
    ensures RowsOk(Scope(s.storage, id))
  {
  }

  lemma WriteShows(codeOf: Hash -> Code, s: Store, w: World, id: nat, key: EvmWord, value: EvmWord)
    requires Inv(codeOf, s) && Shows(s, w) && id in s.accounts && value != 0
    ensures var a := s.accounts[id].address;
            Shows(SetScope(s, id, PutSlot(Scope(s.storage, id), key, value)),
                  w[a := w[a].(storage := w[a].storage[key := value])])
  {
    ScopeOk(codeOf, s, id);
    PutSlotMap(Scope(s.storage, id), key, value);
    SetScopeShows(s, w, id, PutSlot(Scope(s.storage, id), key, value));
  }

  lemma UpdateStorageRefines(codeOf: Hash -> Code, s: Store, w: World, a: Address, key: EvmWord, value: EvmWord)
    requires Inv(codeOf, s) && Shows(s, w)
    ensures Shows(UpdateStorage(s, a, key, value), SpecUpdateStorage(w, a, key, value))
  {
    FoundIsShown(codeOf, s, w, a);
    if a in w {
      var id := FindAccount(s.accounts, a).value;
      if value == 0 {
        var rows := Scope(s.storage, id);
        ScopeOk(codeOf, s, id);
        RemoveSlotMap(rows, key);
        SetScopeShows(s, w, id, RemoveSlot(rows, key));
      } else {
        WriteShows(codeOf, s, w, id, key, value);
      }
    } else if value != 0 {
      var row := AccountRow(a, 0, 0, None, false);
      WriteNewShows(codeOf, s, AddAccount(s, row), w, row, key, value);
    }
  }

  lemma WriteNewShows(codeOf: Hash -> Code, s: Store, s1: Store, w: World, row: AccountRow, key: EvmWord, value: EvmWord)
    requires Inv(codeOf, s) && Shows(s, w) && row.address !in w && row == AccountRow(row.address, 0, 0, None, false) && value != 0
    requires s1 == AddAccount(s, row)
    ensures Shows(SetScope(s1, NextId(s), PutSlot(Scope(s1.storage, NextId(s)), key, value)),
                  w[row.address := Acct(0, 0, None, map[key := value], false)])
  {
    hide Shows, Inv;
    var w1 := w[row.address := Acct(0, 0, None, map[], false)];
    assert Inv(codeOf, s1) by {
      FoundIsShown(codeOf, s, w, row.address);
      AddCodelessOk(codeOf, s, row);
    }
    assert Shows(s1, w1) by {
      AddAccountShows(codeOf, s, w, row);
    }
    WriteShows(codeOf, s1, w1, NextId(s), key, value);
    Overwrite(w, row.address, Acct(0, 0, None, map[], false), Acct(0, 0, None, map[key := value], false));
  }

  lemma Overwrite(w: World, a: Address, x: Acct, y: Acct)
    ensures w[a := x][a := y] == w[a := y]
  {
  }

  /** Freezing and unfreezing change the flag of one address and nothing else. */
  lemma FreezeRefines(codeOf: Hash -> Code, s: Store, w: World, id: nat, frozen: bool)
    requires Inv(codeOf, s) && Shows(s, w) && id in s.accounts
    ensures Inv(codeOf, FreezeAccount(s, id, frozen).value)
    ensures Shows(FreezeAccount(s, id, frozen).value, SpecFreeze(w, s.accounts[id].address, frozen))
  {
    var row := s.accounts[id].(frozen := frozen);
    ChangeRowOk(codeOf, s, id, row);
    ChangeRowShows(s, w, id, row);
  }

  /** Collection cannot be seen. */
  lemma CollectRefines(codeOf: Hash -> Code, s: Store, w: World, max: nat)
    requires Inv(codeOf, s) && Shows(s, w)
    ensures Shows(Collect(s, max), w)
  {
    var s' := Collect(s, max);
    CollectKeepsTables(s, max);
    forall id | id in s.accounts
      ensures View(s', id) == View(s, id)
    {
      CollectElsewhere(s, max, id);
    }
  }

  // ----- Reads -----

  /** What the EVM reads, from a state object that has not read anything yet, is the map. */
  lemma ReadsAgree(codeOf: Hash -> Code, s: Store, w: World, allowFrozen: bool, a: Address, key: EvmWord)
    requires Inv(codeOf, s) && Shows(s, w)
    ensures ReadStorage(s, a, key) == SpecRead(w, a, key)
    ensures ReadAccount(s, allowFrozen, a).Abort? <==> a in w && w[a].frozen && !allowFrozen
    ensures a !in w ==> ReadAccount(s, allowFrozen, a) == Commit(None)
    ensures a in w ==>
              var code := w[a].code;
              var account := (w[a].nonce, w[a].balance, if code.Some? then Some(code.value.hash) else None);
              && ReadAccount(s, allowFrozen, a) in {Abort, Commit(Some(account))}
              && (code.Some? ==> ReadCode(s, code.value.hash) == code.value.code == codeOf(code.value.hash))
  {
    FoundIsShown(codeOf, s, w, a);
    if a in w {
      var id := FindAccount(s.accounts, a).value;
      ScopeOk(codeOf, s, id);
      SlotsMapIs(Scope(s.storage, id), key);
    }
  }

  // ----- Runs -----

  /** Everything that changes the tables; code comes with its hash, which determines it. */
  datatype Step =
    | Update(address: Address, initial: Option<Account>, current: Option<Account>)
    | GiveCode(address: Address, hash: Hash)
    | Write(address: Address, key: EvmWord, value: EvmWord)
    | CollectSome(max: nat)
    | RemoveById(id: nat)
    | Freeze(id: nat, frozen: bool)
    | NextObject

  ghost function Attempt(codeOf: Hash -> Code, s: Store, step: Step): Outcome<Store> {
    match step
    case Update(a, initial, current) => UpdateAccount(s, a, initial, current)
    case GiveCode(a, h) => Commit(UpdateCode(s, a, h, codeOf(h)))
    case Write(a, key, value) => Commit(UpdateStorage(s, a, key, value))
    case CollectSome(max) => Commit(Collect(s, max))
    case RemoveById(id) => RmAccount(s, id)
    case Freeze(id, frozen) => FreezeAccount(s, id, frozen)
    case NextObject => Commit(NewObject(s))
  }

  ghost function Do(codeOf: Hash -> Code, s: Store, step: Step): Store {
    var r := Attempt(codeOf, s, step);
    if r.Commit? then r.value else s
  }

  /** The same step on the map; an id stands for the address it is stored with. */
  function SpecDo(codeOf: Hash -> Code, s: Store, w: World, step: Step): World {
    match step
    case Update(a, initial, current) => SpecUpdateAccount(w, a, initial, current)
    case GiveCode(a, h) => SpecUpdateCode(w, a, h, codeOf(h))
    case Write(a, key, value) => SpecUpdateStorage(w, a, key, value)
    case CollectSome(_) => w
    case RemoveById(id) => if id in s.accounts then w - {s.accounts[id].address} else w
    case Freeze(id, frozen) => if id in s.accounts then SpecFreeze(w, s.accounts[id].address, frozen) else w
    case NextObject => w
  }

  ghost function After(codeOf: Hash -> Code, s: Store, run: seq<Step>): Store {
    if run == [] then s else Do(codeOf, After(codeOf, s, run[..|run| - 1]), run[|run| - 1])
  }

  ghost function SpecAfter(codeOf: Hash -> Code, s: Store, w: World, run: seq<Step>): World {
    if run == [] then w
    else
      var front := run[..|run| - 1];
      SpecDo(codeOf, After(codeOf, s, front), SpecAfter(codeOf, s, w, front), run[|run| - 1])
  }

  /** The EVM gives code only to accounts without code. */
  ghost predicate Admissible(codeOf: Hash -> Code, s: Store, run: seq<Step>) {
    forall i :: 0 <= i < |run| && run[i].GiveCode? ==>
      MayTakeCode(After(codeOf, s, run[..i]), run[i].address, run[i].hash)
  }

  lemma NewObjectShows(s: Store, w: World)
    requires Shows(s, w)
    ensures Shows(NewObject(s), w)
  {
  }

  lemma DoRefines(codeOf: Hash -> Code, s: Store, w: World, step: Step)
    requires Inv(codeOf, s) && Shows(s, w)
    requires step.GiveCode? ==> MayTakeCode(s, step.address, step.hash)
    ensures Inv(codeOf, Do(codeOf, s, step))
    ensures Shows(Do(codeOf, s, step), SpecDo(codeOf, s, w, step))
  {
    hide Shows, Inv;
    match step {
      case Update(a, initial, current) =>
        UpdateAccountOk(codeOf, s, a, initial, current);
        UpdateAccountRefines(codeOf, s, w, a, initial, current);
      case GiveCode(a, h) =>
        UpdateCodeOk(codeOf, s, a, h);
        UpdateCodeRefines(codeOf, s, w, a, h);
      case Write(a, key, value) =>
        UpdateStorageOk(codeOf, s, a, key, value);
        UpdateStorageRefines(codeOf, s, w, a, key, value);
      case CollectSome(max) =>
        CollectOk(codeOf, s, max);
        CollectRefines(codeOf, s, w, max);
      case RemoveById(id) =>
        if id in s.accounts {
          RemoveAccountOk(codeOf, s, id);
          RemoveAccountShows(codeOf, s, w, id);
        }
      case Freeze(id, frozen) =>
        if id in s.accounts {
          FreezeRefines(codeOf, s, w, id, frozen);
        }
      case NextObject =>
        NewObjectOk(codeOf, s);
        NewObjectShows(s, w);
    }
  }

  /**
   The refinement: after any run from the empty tables every invariant holds, and the tables
   show exactly the map that the same steps make of the empty map.
   */
  lemma {:induction false} RunRefines(codeOf: Hash -> Code, run: seq<Step>)
    requires Admissible(codeOf, EMPTY, run)
    ensures Inv(codeOf, After(codeOf, EMPTY, run))
    ensures Shows(After(codeOf, EMPTY, run), SpecAfter(codeOf, EMPTY, map[], run))
  {
    if run != [] {
      var front := run[..|run| - 1];
      forall i | 0 <= i < |front| && front[i].GiveCode?
        ensures MayTakeCode(After(codeOf, EMPTY, front[..i]), front[i].address, front[i].hash)
      {
        assert front[..i] == run[..i];
      }
      RunRefines(codeOf, front);
      DoRefines(codeOf, After(codeOf, EMPTY, front), SpecAfter(codeOf, EMPTY, map[], front), run[|run| - 1]);
    }
  }

  /**
   An account removed and created again at the same address reads zero in every slot, while
   all of its old rows still wait for collection under its old id.
   */
  lemma RecreatedReadsZero(codeOf: Hash -> Code, s: Store, w: World, a: Address, was: Account, now: Account, key: EvmWord)
    requires Inv(codeOf, s) && Shows(s, w) && a in w
    ensures var id := FindAccount(s.accounts, a).value;
            var gone := Do(codeOf, s, Update(a, Some(was), None));
            var back := Do(codeOf, gone, Update(a, None, Some(now)));
            && ReadAccount(back, false, a) == Commit(Some((now.nonce, now.balance, None))) && ReadStorage(back, a, key) == 0
            && id in back.gc && Scope(back.storage, id) == Scope(s.storage, id)
  {
    hide Shows, Inv;
    var first, second := Update(a, Some(was), None), Update(a, None, Some(now));
    var gone := Do(codeOf, s, first);
    assert Inv(codeOf, gone) && Shows(gone, w - {a}) by {
      DoRefines(codeOf, s, w, first);
    }
    GoneWaits(codeOf, s, w, a, was);
    BackIsNew(codeOf, gone, w - {a}, a, now, key);
  }

  lemma GoneWaits(codeOf: Hash -> Code, s: Store, w: World, a: Address, was: Account)
    requires Inv(codeOf, s) && Shows(s, w) && a in w
    ensures var gone := Do(codeOf, s, Update(a, Some(was), None));
            FindAccount(s.accounts, a).Some? && gone.gc == s.gc + [FindAccount(s.accounts, a).value] && gone.storage == s.storage
  {
    hide Shows, Inv;
    FoundIsShown(codeOf, s, w, a);
    RemoveAccountOk(codeOf, s, FindAccount(s.accounts, a).value);
  }

  lemma BackIsNew(codeOf: Hash -> Code, gone: Store, w: World, a: Address, now: Account, key: EvmWord)
    requires Inv(codeOf, gone) && Shows(gone, w) && a !in w
    ensures var back := Do(codeOf, gone, Update(a, None, Some(now)));
            && ReadAccount(back, false, a) == Commit(Some((now.nonce, now.balance, None))) && ReadStorage(back, a, key) == 0
            && back.gc == gone.gc && back.storage == gone.storage
  {
    var second := Update(a, None, Some(now));
    FoundIsShown(codeOf, gone, w, a);
    DoRefines(codeOf, gone, w, second);
    ReadsAgree(codeOf, Do(codeOf, gone, second), SpecDo(codeOf, gone, w, second), false, a, key);
  }
}
