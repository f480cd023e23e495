/**
 The tables of the world state and the operations on them (src/state.cpp,
 src/admin_actions.cpp, include/evm_runtime/tables.hpp).

 Accounts are looked up by address but stored under a numeric id; the id is also the scope of
 the account's storage rows.  Code rows are shared between accounts and counted.  A removed
 account leaves its storage behind, listed for collection under its old id.

 Table rows that are only ever created under the next free primary key and visited in key
 order, storage rows and collection entries, are kept as sequences in that order.
 */
module Store {
  import opened Words
  import opened Bytes

  type Address = nat
  type EvmWord = nat
  type Hash = nat
  type Code = seq<Byte>

  datatype AccountRow = AccountRow(address: Address, nonce: nat, balance: nat, codeId: Option<nat>, frozen: bool)

  datatype CodeRow = CodeRow(refCount: nat, hash: Hash, code: Code)

  datatype Slot = Slot(key: EvmWord, value: EvmWord)

  /** The tables, the stored next account id, and the copy of it in the state object at work. */
  datatype Store = Store(
    accounts: map<nat, AccountRow>,
    codes: map<nat, CodeRow>,
    storage: map<nat, seq<Slot>>,
    gc: seq<nat>,
    storedNext: Option<nat>,
    cachedNext: Option<nat>)

  const EMPTY := Store(map[], map[], map[], [], None, None)

  /** An account as the EVM sees it when it asks for an update. */
  datatype Account = Account(nonce: nat, balance: nat, codeHash: Option<Hash>, incarnation: nat)

  // ----- Lookups -----

  ghost function FindAccount(accounts: map<nat, AccountRow>, a: Address): (r: Option<nat>)
    ensures r.Some? ==> r.value in accounts && accounts[r.value].address == a
    ensures r.None? ==> forall id :: id in accounts ==> accounts[id].address != a
  {
    if exists id :: id in accounts && accounts[id].address == a then
      var id :| id in accounts && accounts[id].address == a;
      Some(id)
    else None
  }

  ghost function FindCode(codes: map<nat, CodeRow>, h: Hash): (r: Option<nat>)
    ensures r.Some? ==> r.value in codes && codes[r.value].hash == h
    ensures r.None? ==> forall c :: c in codes ==> codes[c].hash != h
  {
    if exists c :: c in codes && codes[c].hash == h then
      var c :| c in codes && codes[c].hash == h;
      Some(c)
    else None
  }

  function Scope(storage: map<nat, seq<Slot>>, id: nat): seq<Slot> {
    if id in storage then storage[id] else []
  }

  /** Position of the row with the given key, or the number of rows. */
  function IndexOf(rows: seq<Slot>, key: EvmWord): (i: nat)
    ensures i <= |rows|
    ensures i < |rows| ==> rows[i].key == key
    ensures forall j :: 0 <= j < i ==> rows[j].key != key
  {
    if rows == [] || rows[0].key == key then 0 else 1 + IndexOf(rows[1..], key)
  }

  /** `available_primary_key`: one past the largest key in use. */
  ghost function NextKey(keys: set<nat>): (k: nat)
    ensures forall i :: i in keys ==> i < k
    ensures k > 0 ==> k - 1 in keys
  {
    if keys == {} then 0
    else
      var x :| x in keys;
      assert forall i :: i in keys ==> i == x || i in keys - {x};
      var rest := NextKey(keys - {x});
      if x < rest then rest else x + 1
  }

  // ----- Account ids -----

  ghost function NextId(s: Store): nat {
    if s.cachedNext.Some? then s.cachedNext.value
    else if s.storedNext.Some? then s.storedNext.value
    else NextKey(s.accounts.Keys)
  }

  /** A new account row under the next id; `get_next_account_id` remembers that it is taken. */
  ghost function AddAccount(s: Store, row: AccountRow): Store {
    s.(accounts := s.accounts[NextId(s) := row], cachedNext := Some(NextId(s) + 1))
  }

  /** The destructor of a state object writes its copy back; the next object starts without one. */
  function NewObject(s: Store): Store {
    if s.cachedNext.None? then s else s.(storedNext := s.cachedNext, cachedNext := None)
  }

  // ----- Updates -----

  /** Give up one reference to a code row, removing the row with the last one. */
  function DropCode(codes: map<nat, CodeRow>, codeId: Option<nat>): Outcome<map<nat, CodeRow>> {
    if codeId.None? then Commit(codes)
    else if codeId.value !in codes then Abort
    else
      var c, row := codeId.value, codes[codeId.value];
      if (row.refCount - 1) % U32 != 0
      then Commit(codes[c := row.(refCount := (row.refCount - 1) % U32)])
      else Commit(codes - {c})
  }

  function RemoveAccount(s: Store, id: nat): Outcome<Store>
    requires id in s.accounts
  {
    var codes :- DropCode(s.codes, s.accounts[id].codeId);
    Commit(s.(gc := s.gc + [id], codes := codes, accounts := s.accounts - {id}))
  }

  ghost function UpdateAccount(s: Store, a: Address, initial: Option<Account>, current: Option<Account>): Outcome<Store> {
    var found := FindAccount(s.accounts, a);
    if current == initial then Commit(s)
    else if current.None? then
      if found.None? then Commit(s) else RemoveAccount(s, found.value)
    else
      var blank := AccountRow(a, current.value.nonce, current.value.balance, None, false);
      if found.None? then Commit(AddAccount(s, blank))
      else if initial.Some? && initial.value.incarnation != current.value.incarnation then
        var removed :- RemoveAccount(s, found.value);
        Commit(AddAccount(removed, blank))
      else
        var row := s.accounts[found.value].(nonce := current.value.nonce, balance := current.value.balance);
        Commit(s.(accounts := s.accounts[found.value := row]))
  }

  /** One more reference to the code with the given hash, and the id of its row. */
  ghost function TakeCode(codes: map<nat, CodeRow>, h: Hash, code: Code): (nat, map<nat, CodeRow>) {
    var found := FindCode(codes, h);
    if found.None? then
      var c := NextKey(codes.Keys);
      (c, codes[c := CodeRow(1, h, code)])
    else
      var row := codes[found.value];
      (found.value, codes[found.value := row.(refCount := (row.refCount + 1) % U32)])
  }

  ghost function UpdateCode(s: Store, a: Address, h: Hash, code: Code): Store {
    var (c, codes) := TakeCode(s.codes, h, code);
    var found := FindAccount(s.accounts, a);
    var s1 := s.(codes := codes);
    if found.Some? then s1.(accounts := s.accounts[found.value := s.accounts[found.value].(codeId := Some(c))])
    else AddAccount(s1, AccountRow(a, 0, 0, Some(c), false))
  }

  /** The rows of one scope replaced; nothing is written if they are the same. */
  function SetScope(s: Store, id: nat, rows: seq<Slot>): (s': Store)
    ensures forall x :: Scope(s'.storage, x) == if x == id then rows else Scope(s.storage, x)
  {
    if rows == Scope(s.storage, id) then s else s.(storage := s.storage[id := rows])
  }

  function PutSlot(rows: seq<Slot>, key: EvmWord, value: EvmWord): seq<Slot> {
    var i := IndexOf(rows, key);
    if i < |rows| then rows[i := Slot(key, value)] else rows + [Slot(key, value)]
  }

  function RemoveSlot(rows: seq<Slot>, key: EvmWord): seq<Slot> {
    var i := IndexOf(rows, key);
    if i < |rows| then rows[..i] + rows[i + 1..] else rows
  }

  ghost function UpdateStorage(s: Store, a: Address, key: EvmWord, value: EvmWord): Store {
    var found := FindAccount(s.accounts, a);
    if value == 0 then
      if found.None? then s else SetScope(s, found.value, RemoveSlot(Scope(s.storage, found.value), key))
    else
      var id := if found.Some? then found.value else NextId(s);
      var s1 := if found.Some? then s else AddAccount(s, AccountRow(a, 0, 0, None, false));
      SetScope(s1, id, PutSlot(Scope(s1.storage, id), key, value))
  }

  /** Remove at most max rows: the storage rows of each entry, then the entry itself. */
  function Collect(s: Store, max: nat): Store
    decreases |s.gc|
  {
    if max == 0 || s.gc == [] then s
    else
      var rows := Scope(s.storage, s.gc[0]);
      if max <= |rows| then SetScope(s, s.gc[0], rows[max..])
      else Collect(SetScope(s, s.gc[0], []).(gc := s.gc[1..]), max - |rows| - 1)
  }

  /** The administrative removal of an account by id. */
  function RmAccount(s: Store, id: nat): Outcome<Store> {
    if id !in s.accounts then Abort else RemoveAccount(s, id)
  }

  /** `freezeaccnt`. */
  function FreezeAccount(s: Store, id: nat, frozen: bool): Outcome<Store> {
    if id !in s.accounts then Abort else Commit(s.(accounts := s.accounts[id := s.accounts[id].(frozen := frozen)]))
  }

  // ----- Reads -----

  /** Unless the state object allows it, touching a frozen account aborts. */
  ghost function ReadAccount(s: Store, allowFrozen: bool, a: Address): Outcome<Option<(nat, nat, Option<Hash>)>> {
    var found := FindAccount(s.accounts, a);
    if found.None? then Commit(None)
    else
      var row := s.accounts[found.value];
      var hash := if row.codeId.Some? && row.codeId.value in s.codes then Some(s.codes[row.codeId.value].hash) else None;
      if row.frozen && !allowFrozen then Abort else Commit(Some((row.nonce, row.balance, hash)))
  }

  ghost function ReadCode(s: Store, h: Hash): Code {
    var found := FindCode(s.codes, h);
    if found.None? then [] else s.codes[found.value].code
  }

  ghost function ReadStorage(s: Store, a: Address, key: EvmWord): EvmWord {
    var found := FindAccount(s.accounts, a);
    if found.None? then 0
    else
      var rows := Scope(s.storage, found.value);
      var i := IndexOf(rows, key);
      if i < |rows| then rows[i].value else 0
  }
}
