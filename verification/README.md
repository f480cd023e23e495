# Verified model of the EVM contract

The contract hosts an EVM on an Antelope chain. The EVM itself comes from elsewhere; what the
contract owns is the bookkeeping around it, and that is what this project models and proves:

- **The bridge ledger.** Tokens held by the contract are owed to open balances (whole token
  units plus dust), to EVM accounts (their total is `inevm`), or to receivers of queued token
  transfers. `Ledger` gives every action as a function that either yields a new ledger or
  aborts. `LedgerRuns.RunSolvent` and `NoncesInOrder` are about every run of such steps,
  `LedgerHistory` about every history of chain transactions, each with the inline actions it
  leads to and undone as a whole if one of them fails: `BalancesMatch`, `PaymentsCovered`,
  `EgressCovered`, `SpendingIsOwn`. `LedgerFees` has the fee theorems, `LedgerCommit` the exact
  condition under which a transaction commits, and `LedgerEffects` the exact effect of each
  step on its own arguments.
- **The contract on machine words.** `Contract.EvmContract` keeps its rows as objects with an
  asset word and a dust word (`Dust.BalanceWithDust`), runs the egress and message loops in
  place and undoes failed transactions; `Contract.RunHistory` carries the ledger theorems over
  to it.
- **The world state.** Accounts are found by address but stored under ids; code rows are
  shared and counted; deleted storage waits for collection. `StateObject` holds the methods,
  `Store` what they compute, and `StoreRefinement.RunRefines` shows that after every run the
  tables stand for a plain map from addresses to accounts.
- **Block-activated configuration.** EVM version and gas parameters are promoted lazily, gas
  prices wait in a queue with a cached front block. `ValuePromoter.FoundIsBlockValue` and
  `Config.PriceOfBlock` show that what a transaction sees is a plain function of its EVM block;
  `ConfigEffects` says field by field what administrative actions set and when they are accepted.
- **Both together.** In `System` the environment of every ledger step comes from the
  configuration at that time: `ContractSound`, `PriceOfStep`, `MinerHonoured`, `TenthKept`.
- **Supporting pieces.** Dust arithmetic on machine words (`Dust`), big-endian words
  (`Bytes`), and the bridge message decoder (`BridgeMessage`).

Each class method is proved against a function of the old state, and the lemmas are about that
function. A failed check is an `Abort`; the chain then undoes the whole transaction, from its
first action to the last inline action (`LedgerHistory.DoTransaction`, on the objects
`Contract.EvmContract.Transact`).

## Assumptions

- Chain time does not run backwards, and chain timestamps are 32-bit half-second counts.
- The token contract rejects non-positive quantities, transfers to the sender itself, and
  transfers beyond the balance.
- Validation of transactions and the EVM keep `LedgerInvariant.EvmAssumption`: a transaction is
  accepted only if its sender can pay for all its gas at the highest fee, computed without
  loss, and its fees are in order; execution creates no money, uses no more gas than the
  limit, has one object per reserved address, and reserved addresses are not written to the
  tables. Where gas fees have to reach the contract's reserved address, this is stated as
  `LedgerFees.FeeCredited`.
- The token's symbol is not empty, and the token contract, not the bridge, keeps the contract's
  own token balance.
- A product of two 256-bit words is a 256-bit word, as in the contract's integer library. The
  model truncates there and proves that nothing is lost in a committed transaction.
- A code hash determines its code (the parameter `codeOf`), fewer than 2^32 accounts share one
  code, and the EVM gives code only to accounts without code
  (`StoreInvariant.MayTakeCode`; `TakeCodeIff` shows that the last condition is needed).
- The deployment is fresh: no tables from before the next account id was stored.
- The highest EVM version is 3, and contracts have at most 24576 bytes of code; both constants
  come from libraries that are not part of this model.

## Model

| member | source | states |
|---|---|---|
| `Words.PowerOfTen` | src/utils.cpp:64-69 | the multiplication loop yields 10^v modulo 2^64 and rejects negative exponents; the word is exact for every precision the contract accepts |
| `Dust.ValidByValue` | include/evm_runtime/tables.hpp:115-121 | amount and dust below the unit are determined by the value; a balance is zero exactly when it is worth nothing |
| `Dust.PlusExact` | include/evm_runtime/tables.hpp:129-160 | for every unit, adding commits exactly when the whole part of the sum is at most 2^62-1, and then the value is the exact sum with dust below the unit |
| `Dust.MinusExact` | include/evm_runtime/tables.hpp:162-182 | subtracting commits exactly when the value suffices, and then the value is the exact difference |
| `Dust.PlusThenMinus` | include/evm_runtime/tables.hpp:129-182 | taking out what was put in restores the row |
| `Dust.Bit63DetectsBorrow` | include/evm_runtime/tables.hpp:172-179 | bit 63 of the wrapped dust difference is set exactly when the true difference is negative, and adding the unit repairs it |
| `Dust.BalanceWithDust.AddAsset` | src/actions.cpp:639-649 | adding or subtracting any 64-bit quantity to a whole part succeeds exactly when the true sum is in the range of assets, although the word may wrap around |
| `Dust.BalanceWithDust.AddAssign` | include/evm_runtime/tables.hpp:129-160 | the in-place addition on an asset word and a dust word is `Plus`, for every 256-bit amount; it aborts for an empty symbol and for precisions above 18 |
| `Dust.BalanceWithDust.SubAssign` | include/evm_runtime/tables.hpp:162-182 | the in-place subtraction, with its borrow test, is `Minus`; neither word overflows on the way |
| `BlockMapping.BlockCoversSeconds` | tests/external/eosevm/block_mapping.hpp:31-52 | block b covers exactly the seconds from the timestamp of block b-1 up to its own; block 0 is everything before genesis |
| `BlockMapping.BlockMonotonic` | tests/external/eosevm/block_mapping.hpp:31-41 | later times never map to earlier blocks |
| `BlockMapping.ActivationIsLater` | src/config_wrapper.cpp:107-110 | the activation block is the block after the one 180 seconds later, from genesis on 181 blocks after the current one |
| `ValuePromoter.StoredPromoter.GetValueAndMaybePromote` | include/evm_runtime/value_promoter.hpp:26-35 | returns the value in force, moves an active pending value into the cache, and reports whether anything changed |
| `ValuePromoter.StoredPromoter.ApplyUpdate` | include/evm_runtime/value_promoter.hpp:36-44 | promotes, applies the visitor to the value in force and makes the result pending |
| `ValuePromoter.RunRepresents` | include/evm_runtime/value_promoter.hpp:6-49 | after any run in time order the cached and pending values stand for the block-indexed function of the changes made, from the current block on |
| `ValuePromoter.FoundIsBlockValue` | include/evm_runtime/value_promoter.hpp:18-49 | every operation of every run finds the value of its block, a function of all changes of the run, where a block starts with the value of the block before it changed by the last update made there |
| `ValuePromoter.OneValuePerBlock` | include/evm_runtime/value_promoter.hpp:18-49 | two operations in one EVM block find the same value |
| `ValuePromoter.PromotionIsUnobservable` | include/evm_runtime/value_promoter.hpp:19-35 | runs that differ only in which reads promote find the same values |
| `PriceQueue.ScanRows` | src/config_wrapper.cpp:174-180 | processing removes from the front exactly the rows whose block has come, and keeps keys strictly increasing with the cached front block 0 for an empty queue and its least key otherwise |
| `PriceQueue.ScanPrice` | src/config_wrapper.cpp:174-180 | processing puts the last due price in force and changes no later block's price |
| `PriceQueue.ShortcutIsSound` | src/config_wrapper.cpp:169-181 | processing with the front-block shortcut is the same as always scanning the table |
| `PriceQueue.EnqueueRepresents` | src/config_wrapper.cpp:104-132 | with an activation block not before the last key, enqueueing passes its internal check, replaces or appends one row, and the table stands for the longer history |
| `Config.InitSafe` | src/actions.cpp:55-84 | initialisation commits exactly once, for a known chain id, with all fee parameters given and in range, and leaves version 0, nothing pending, an empty queue and the given values |
| `Config.DoSafe` | src/config_wrapper.cpp:183-331 | every action keeps: supported versions with a pending one above the cached one, a miner cut of at most 90% and 0 once version 1 is promoted, a storage gas of at least 2900, and a token symbol that never changes; the version seen never decreases |
| `Config.RunSafe` | src/config_wrapper.cpp:183-331 | so does every run; in particular the unit of the token is fixed once set |
| `Config.VersionNeverDecreases` | src/config_wrapper.cpp:202-230 | over any run, several changes per block included, the active version never decreases and never exceeds the maximum |
| `Config.MinerCutEnds` | src/config_wrapper.cpp:208-219 | once version 1 or later has been promoted, by whatever action, the miner cut is 0 in every later state |
| `Config.PromotingActions` | src/actions.cpp:886-917 | at version 1 or later a transaction, `setgasprices` and a committed `setversion` promote the version in force and end the miner cut |
| `Config.GasParamCheckNeverFails` | src/actions.cpp:461-465 | over any run gas parameters wait only where version 1 is in force, so the check of a transaction that promotes them never fails |
| `Config.SeenIsBlockValue` | src/config_wrapper.cpp:202-230 | version and gas parameters of every action are the block-indexed functions of all changes made in the run |
| `Config.EnqueueNeverAborts` | src/config_wrapper.cpp:112-122 | in every run below version 3 the queue is ordered and the internal error of enqueueing is unreachable |
| `Config.PriceOfBlock` | src/config_wrapper.cpp:152-181 | at versions 1 and 2 a transaction is charged the last price of the whole run whose activation block is at most its own block |
| `Config.OnePricePerBlock` | src/actions.cpp:544-545 | all transactions of one EVM block at versions 1 and 2 are charged the same price |
| `Config.HistoryAt` | src/config_wrapper.cpp:232-243 | a price set at version 1 or later stands in the history with the activation block of its time |
| `Config.GracePeriod` | src/config_wrapper.cpp:104-132 | in every block up to that of 180 seconds later the run prices gas as if that price had not been set |
| `Config.CheckGasOverflowExact` | src/config_wrapper.cpp:387-396 | the overflow check on 64-bit words passes exactly when the true sum is below 2^63 |
| `Config.GasCoversRam` | src/config_wrapper.cpp:267-293 | in every accepted update the gas per byte is the quotient of the RAM price by the gas price, plus one: a byte's gas is worth more than its RAM, by at most one gas |
| `Config.RamPriceParamsFit` | src/config_wrapper.cpp:285-301 | parameters derived from an accepted gas per byte fit 63 bits, and so does the cost of creating a contract of any allowed size |
| `ConfigEffects.GasParamsSet` | src/config_wrapper.cpp:310-331 | after `setgasparam` each of the five parameters that later blocks see, until the next change, is the value given for it, or what it was if none was given |
| `ConfigEffects.GasParamsFromRam` | src/config_wrapper.cpp:285-301 | after `updtgasparam` they are 347g, 347g, 606g, g and 2900 + 346g, where g is the quotient of the RAM price by the gas price, plus one |
| `ConfigEffects.GasParamsUnchanged` | src/config_wrapper.cpp:333-350 | until the first change they are those at the start |
| `ConfigEffects.CutIsLastSet` | src/config_wrapper.cpp:208-253 | the miner cut in force is the one last set, until version 1 is promoted |
| `ConfigEffects.FeeIsLastSet` | src/config_wrapper.cpp:255-262 | the bridge fee in force is the one last set |
| `ConfigEffects.FeesAccepted` | src/config_wrapper.cpp:232-265 | in any run fee parameters are accepted exactly if a miner cut comes at version 0 and is at most 90%, and a bridge fee is in the token's symbol and not negative; a gas price is never refused |
| `ConfigEffects.VersionAccepted` | src/config_wrapper.cpp:221-230 | in any run a version is accepted exactly if it is supported, higher than the one in force, and for version 3 no price is waiting |
| `ConfigEffects.GasParamsAccepted` | src/config_wrapper.cpp:310-331 | gas parameters are accepted exactly from version 1 on, with at least 2900 for a storage slot |
| `ConfigEffects.RamPriceAccepted` | src/config_wrapper.cpp:267-308 | in any run a RAM price is accepted exactly at versions 1 and 2, in the token's symbol, for a positive gas price, if it is not negative and its parameters stay below 2^63 in whole numbers |
| `ConfigEffects.PriceAmongThoseSet` | src/config_wrapper.cpp:152-181 | at any version below 3 the price charged next is that of its block among those set so far |
| `ConfigWrapper.Wrapper.constructor` | src/config_wrapper.cpp:7-30 | the object starts as a clean copy of the singleton, with defaults for a missing singleton and for missing fields, and nothing marked as changed |
| `ConfigWrapper.Wrapper.Flush` | src/config_wrapper.cpp:36-43 | no change is lost: after flushing, singleton and table are the state the action left |
| `ConfigWrapper.Wrapper.Enqueue` | src/config_wrapper.cpp:104-138 | meets `PriceQueue.Enqueue` at the activation block of the current time |
| `ConfigWrapper.Wrapper.ProcessQueue` | src/config_wrapper.cpp:164-181 | the erasing loop meets `PriceQueue.Process` and marks what it changed |
| `ConfigWrapper.Wrapper.GetEvmVersionAndMaybePromote` | src/config_wrapper.cpp:208-219 | returns the version in force and meets `Config.PromoteVersion` |
| `ConfigWrapper.Wrapper.BeginTransaction` | src/actions.cpp:459-465 | what a transaction does to the configuration, price queue and both promotions in order, is `Config.Transact` |
| `ConfigWrapper.Wrapper.SetEvmVersion` | src/config_wrapper.cpp:221-230 | meets `Config.SetVersion`, aborts included |
| `ConfigWrapper.Wrapper.SetFeeParameters` | src/config_wrapper.cpp:232-265 | meets `Config.SetFees`, aborts included |
| `ConfigWrapper.Wrapper.UpdateConsensusParameters2` | src/config_wrapper.cpp:310-331 | meets `Config.UpdateGasParams`, aborts included; which field gets which value is `ConfigEffects.GasParamsSet` |
| `ConfigWrapper.Wrapper.UpdateConsensusParameters` | src/config_wrapper.cpp:267-308 | meets `Config.UpdateByRamPrice`: symbol, price and overflow checks, gas per byte, parameters and price |
| `Bytes.WordRoundTrip` | src/utils.cpp:28-32 | a 256-bit word stored big-endian is read back unchanged |
| `Bytes.BytesRoundTrip` | src/utils.cpp:56-62 | up to 32 bytes are the tail of the word they denote |
| `Bytes.MakeKeyInjective` | src/utils.cpp:9-26 | index keys of byte strings of one length agree only if the strings do |
| `BridgeMessage.DecodeMessageV0` | include/evm_runtime/bridge.hpp:27-63 | the cursor-driven decoder meets `DecodeV0`, including every abort |
| `BridgeMessage.DecodeMessage` | include/evm_runtime/bridge.hpp:65-73 | meets `Decode`: messages of another kind are none, short input aborts |
| `BridgeMessage.RoundTrip` | include/evm_runtime/bridge.hpp:27-73 | decoding the encoding of the Contract ABI Specification returns the same triple if and only if the account has 1 to 32 bytes and the data at most 2^32-32 bytes (or are zeros below 2^32-1 bytes: the 32-bit rounding wraps) |
| `BridgeMessage.DecodeSound` | include/evm_runtime/bridge.hpp:27-73 | whatever is accepted is laid out like an encoding of what is returned, up to padding and trailing bytes |
| `StoreInvariant.DropCodeOk` | src/state.cpp:131-142 | giving up a reference finds the code row and keeps all counts exact, erasing the row with the last user |
| `StoreInvariant.TakeCodeOk` | src/state.cpp:186-206 | a code given to an account without code keeps counts exact and hashes unique |
| `StoreInvariant.TakeCodeIff` | src/state.cpp:186-217 | giving code to an existing account keeps the counts exact if and only if the account had none |
| `StoreInvariant.NextIdIsFresh` | src/state.cpp:334-347 | the id of a new account is not in use, not awaiting collection, and has no storage rows |
| `StoreInvariant.RemoveAccountOk` | src/state.cpp:123-144 | removal never misses a code row and keeps ids, counts, addresses and storage rows in order |
| `StoreInvariant.UpdateAccountOk` | src/state.cpp:96-166 | create, change, new incarnation and delete keep every invariant and never abort |
| `StoreInvariant.UpdateCodeOk` | src/state.cpp:186-226 | giving code keeps every invariant |
| `StoreInvariant.UpdateStorageOk` | src/state.cpp:228-279 | writing and clearing slots keep every invariant, with keys unique and zeros not stored |
| `StoreInvariant.NewObjectOk` | src/state.cpp:334-353 | handing the next id from one state object to the next loses none |
| `StoreInvariant.CollectExact` | src/state.cpp:168-184 | collection removes exactly min(max, garbage) rows and ends with nothing left exactly when max covers all garbage |
| `StoreInvariant.CollectEntries` | src/state.cpp:168-184 | entries are removed from the front only |
| `StoreInvariant.CollectEmpties` | src/state.cpp:168-184 | an entry is removed only once its scope is empty |
| `StoreInvariant.CollectElsewhere` | src/state.cpp:168-184 | scopes not listed for collection, hence all live accounts' storage, are untouched |
| `StoreInvariant.CollectOk` | src/state.cpp:168-184 | collection keeps every invariant |
| `StoreRefinement.UpdateAccountRefines` | src/state.cpp:96-166 | the update does to the map what was asked for: create, change, empty on a new incarnation, or remove |
| `StoreRefinement.UpdateCodeRefines` | src/state.cpp:186-226 | the account gets the code, an absent one is created, nobody else's code changes |
| `StoreRefinement.UpdateStorageRefines` | src/state.cpp:228-279 | one slot of one account changes; a nonzero write creates an absent account |
| `StoreRefinement.RemoveAccountShows` | src/admin_actions.cpp:40-65 | removal by id takes exactly that address out of the map |
| `StoreRefinement.FreezeRefines` | src/admin_actions.cpp:109-123 | freezing changes the flag of exactly one address and keeps every invariant |
| `StoreRefinement.CollectRefines` | src/state.cpp:168-184 | collection cannot be seen in the map |
| `StoreRefinement.ReadsAgree` | src/state.cpp:10-88 | reads of accounts, storage and code through the tables are reads of the map; reading an account aborts exactly if it is frozen and the reader may not see that |
| `StoreRefinement.RunRefines` | src/state.cpp:96-279 | after any run from empty tables all invariants hold and the tables show the map made by the same steps |
| `StoreRefinement.RecreatedReadsZero` | src/state.cpp:107-144 | an account deleted and created again reads zero in every slot while all its old rows still await collection |
| `StateObject.AvailablePrimaryKey` | src/state.cpp:193-193 | the loop finds one past the largest key |
| `StateObject.State.ReadAccount` | src/state.cpp:10-40 | fills the caches, which stay in agreement, and returns what the tables say, aborting for a frozen account unless those are allowed |
| `StateObject.State.ReadCode` | src/state.cpp:42-60 | the cached or indexed code is what the tables say |
| `StateObject.State.ReadStorage` | src/state.cpp:62-88 | the slot found through the cached or looked-up id is what the tables say |
| `StateObject.State.GetNextAccountId` | src/state.cpp:334-347 | returns the next id and remembers that it is taken |
| `StateObject.State.Destroy` | src/state.cpp:349-353 | writes the remembered id back |
| `StateObject.State.UpdateAccount` | src/state.cpp:96-166 | meets `Store.UpdateAccount`, keeps the invariants, aborts only when read-only |
| `StateObject.State.UpdateAccountCode` | src/state.cpp:186-226 | meets `Store.UpdateCode` |
| `StateObject.State.UpdateStorage` | src/state.cpp:228-279 | meets `Store.UpdateStorage` and keeps the invariants |
| `StateObject.State.RmAccount` | src/admin_actions.cpp:40-65 | aborts exactly for an unknown id, otherwise meets `Store.RmAccount` |
| `StateObject.State.FreezeAccnt` | src/admin_actions.cpp:109-123 | aborts exactly for an unknown id, otherwise meets `Store.FreezeAccount` and keeps the invariants |
| `StateObject.State.EraseRows` | src/state.cpp:172-177 | the inner loop erases rows from the front while the allowance lasts |
| `StateObject.State.Gc` | src/state.cpp:168-184 | the nested loops meet `Store.Collect` and return true exactly when the allowance covers the garbage |
| `LedgerEgress.PaidAmountExact` | src/actions.cpp:309-315 | a balance in whole units below 2^62 of them is paid exactly: the 64-bit cast and the sign change nothing |
| `LedgerEgress.EgressCorrect` | src/actions.cpp:274-323 | each row gains what its reserved address held (the contract's, less the cut), at most one account without a row is paid, the running total is exact, and nothing is lost |
| `LedgerSettlement.SettleCorrect` | src/actions.cpp:253-331 | egress, `inevm` and the miner's part together: exact effect on every row, conservation in total |
| `LedgerSettlement.TotalFits` | src/actions.cpp:399-439 | all rows together are worth less than 2^256, so sums over rows cannot wrap |
| `LedgerSettlement.DeliverAllCorrect` | src/actions.cpp:399-440 | after any list of messages each receiver has gained the sum of its own and the accumulator is their exact sum |
| `LedgerSettlement.ProcessMessagesCorrect` | src/actions.cpp:397-450 | the loop aborts or moves exactly the sum of the values from the contract's row to the receivers; every receiver exists, is registered with an open row, can handle the message atomically if that is forced, and has its minimum fee covered |
| `LedgerInvariant.IngressMoves` | src/actions.cpp:216-234 | what is lent to a reserved sender moves from its row to `inevm` |
| `LedgerInvariant.ExecuteTxCorrect` | src/actions.cpp:183-335 | a committed execution was validated and settles exactly, under any rules; which rules hold for whom is `LedgerEffects.PushAdmitted` and `InlineAdmitted` |
| `LedgerInvariant.ProcessTxCorrect` | src/actions.cpp:452-538 | exact effect of a transaction on every row; surplus unchanged; the slack of `inevm` over EVM balances grows by exactly what the EVM burned |
| `LedgerInvariant.DispatchKeeps` | src/actions.cpp:767-776 | the contract's own transactions, executed or queued, keep the invariant and the surplus |
| `LedgerInvariant.OpenKeeps` | src/actions.cpp:585-598 | opening keeps the invariant, with a nonce for every row |
| `LedgerInvariant.CloseKeeps` | src/actions.cpp:600-617 | closing commits exactly for an open, empty balance that is not the contract's own; its nonce lookup never fails |
| `LedgerInvariant.DepositToAccountKeeps` | src/actions.cpp:639-649 | a deposit adds as much to what is owed as to what is held; the row it reaches is `LedgerEffects.DepositExact` |
| `LedgerInvariant.WithdrawKeeps` | src/actions.cpp:720-734 | a withdrawal turns an open balance into a queued transfer of the same worth |
| `LedgerInvariant.PayKeeps` | src/actions.cpp:732-733 | delivering a queued transfer lowers held and owed alike |
| `LedgerInvariant.AddEvmBalanceShifts` | src/admin_actions.cpp:67-90 | shifts the surplus by exactly the amount given and keeps `inevm` in step with EVM balances |
| `LedgerInvariant.AddOpenBalanceShifts` | src/admin_actions.cpp:92-107 | shifts the surplus by exactly the amount given |
| `LedgerRuns.BuiltStepKeeps` | src/actions.cpp:651-834 | bridging in, calls, and calls of the administrator from either kind of sender keep the invariant and the surplus, and add to the slack what was burned; what they carry is `LedgerEffects.DepositBuilds` and `CallBuilds` |
| `LedgerRuns.DoKeeps` | src/actions.cpp:183-834 | every step keeps the invariant, leaves the surplus alone or shifts it as a repair action says, and adds to the slack what was burned |
| `LedgerRuns.RunSolvent` | src/actions.cpp:183-834 | over every interleaving: surplus is the initial one plus the shifts of repair actions, and `inevm` exceeds EVM balances by exactly what was burned |
| `LedgerRuns.NoncesAfter` | src/actions.cpp:619-628 | a committed step increments the nonce of exactly the account it builds a transaction for, and the transaction carries the nonce from before; no other step, closing and re-opening included, changes one |
| `LedgerRuns.HandedIsUsed` | src/actions.cpp:767-794 | the transaction that carries the nonce is the one executed, or before version 1 the one queued |
| `LedgerRuns.NoncesInOrder` | src/actions.cpp:585-628 | over any run the nonces in the transactions built for an account are 0, 1, 2, ... modulo 2^64, without repeat or gap |
| `LedgerRuns.NoncesFromInit` | src/actions.cpp:55-84 | from initialisation on, for every account, no two of its first 2^64 transactions carry the same nonce |
| `LedgerHistory.HistoryIsRun` | src/actions.cpp:732-774 | a history of transactions is a run of the steps that commit, and no inline action outlives its transaction |
| `LedgerHistory.BalancesMatch` | tests/basic_evm_tester.cpp:809-833 | after every transaction of every history: nothing is waiting, tokens held are the initial ones plus repairs, open balances and `inevm`, and `inevm` is the sum of EVM balances plus what was burned |
| `LedgerHistory.RowsCovered` | src/actions.cpp:720-734 | without repair actions no open balance is above the tokens held |
| `LedgerHistory.PaymentsCovered` | src/actions.cpp:720-734 | without repair actions every owner can withdraw any part of the whole tokens of an open balance, and gets exactly that, if only the receiver accepts it |
| `LedgerHistory.EgressCovered` | src/actions.cpp:301-318 | without repair actions a pushed transaction that commits goes through with the one payment it may queue: the contract is never short of tokens for it |
| `LedgerHistory.DepositsArrive` | src/actions.cpp:639-649 | after any history a deposit transaction succeeds exactly under its condition and reaches the row it names |
| `LedgerHistory.SpendingIsOwn` | src/actions.cpp:183-834 | between any two points of a history a row other than the contract's loses value only if a committed transaction holds a withdrawal by its owner, a call from it or in its name, or a repair of it |
| `LedgerFees.CostExact` | src/actions.cpp:221-223 | the truncated product is the true one for every validated transaction |
| `LedgerFees.PortionExact` | src/actions.cpp:253-269 | so is the miner's part; it aborts only for the largest 256-bit fee |
| `LedgerFees.InclusionPriceHonoured` | src/actions.cpp:501-503 | a committed transaction at versions 1 and 2 credits its miner with gas used times min(max priority fee, max fee - base fee), at least gas used times the price asked for |
| `LedgerFees.ContractKeepsTenth` | src/actions.cpp:262-300 | before version 1, if the EVM credits the fee to the contract's reserved address, the contract's row keeps at least a tenth of it after the miner's part, apart from bridge messages and what it lent itself; the miner's row gains that part exactly |
| `LedgerFees.CutTakenOnce` | src/actions.cpp:294-298 | with one object per address the cut is taken at most once: the loop's own check never fails |
| `LedgerFees.CutNeverAborts` | src/actions.cpp:291-300 | the loop with the cut ends where the loop without it ends, less the cut, and aborts no more often |
| `LedgerFees.MinerNeverPreventsSettlement` | src/actions.cpp:253-331 | a transaction that settles without a miner settles with one, unless the miner's row overflows |
| `LedgerCommit.EgressCommits` | src/actions.cpp:274-319 | the egress loop goes through exactly if every reserved object is without code and not at the empty name, every row has room and covers the miner's part, and at most one object leaves, in whole units, to an existing account that is listed if it has code |
| `LedgerCommit.SettleCommits` | src/actions.cpp:253-331 | settlement goes through exactly if the egress loop does, the fee is below 2^256-1, and the miner's part finds a fee in the contract's row and room in the miner's |
| `LedgerCommit.MessagesCommit` | src/actions.cpp:397-450 | messages go through exactly if each can be delivered, every receiver has room for all of its own, and the contract's row covers the sum |
| `LedgerCommit.ProcessTxCommits` | src/actions.cpp:183-538 | a transaction commits exactly if it is admitted, its price is right, a reserved sender covers the true cost, reserved objects can be settled and messages delivered, stated on the rows before |
| `LedgerCommit.ProcessTxRows` | src/actions.cpp:183-538 | the exact effect on every row, with the EVM balances replaced by what the EVM returned and nothing else touched |
| `LedgerCommit.OnePaymentExact` | src/actions.cpp:280-318 | at most one account without a row is paid, exactly what its reserved address held; it exists, is not the empty name, and is on the allow list if it has code; no object with code is settled |
| `LedgerEffects.DepositExact` | src/actions.cpp:639-649 | a deposit commits exactly if it is positive and the receiver has an open row with room, and raises that row's amount and the tokens held, nothing else |
| `LedgerEffects.WithdrawExact` | src/actions.cpp:720-734 | a withdrawal commits exactly within the owner's amount, lowers it and queues exactly that transfer |
| `LedgerEffects.DeliveryExact` | src/actions.cpp:314-315 | a queued transfer goes out exactly if it is accepted, positive, covered and for somebody else |
| `LedgerEffects.OpenExact` | src/actions.cpp:585-598 | opening adds an empty row and a nonce where there is none, and leaves an open account as it is |
| `LedgerEffects.CloseExact` | src/actions.cpp:600-617 | closing commits exactly for an empty row that is not the contract's, removes it, and keeps a nonce that was used |
| `LedgerEffects.AddOpenExact` | src/admin_actions.cpp:92-107 | exact commit condition and effect on the one row |
| `LedgerEffects.AddEvmExact` | src/admin_actions.cpp:67-90 | exact commit condition and effect on the one account and `inevm`; taking out never fails for want of `inevm` |
| `LedgerEffects.DepositBuilds` | src/actions.cpp:651-701 | bridging in is possible exactly if the deposit exceeds the bridge fee and fits the contract's row; the transaction carries the deposit less the bridge fee, from the contract, at the set gas price, with the given gas limit and the next nonce |
| `LedgerEffects.CallBuilds` | src/actions.cpp:744-834 | calls carry the given value, gas limit and sender at the set gas price, with the next nonce of a reserved sender |
| `LedgerEffects.BuiltRows` | src/actions.cpp:767-776 | from version 1 on they succeed or abort; the exact effect on every row, with all gas and the value paid by the sender and no part for a miner |
| `LedgerEffects.BridgedIn` | src/actions.cpp:651-701 | the contract's row keeps the bridge fee, pays for the gas, and gets what came back |
| `LedgerEffects.InlineAdmitted` | src/actions.cpp:562-570 | the contract's own transactions must succeed and have no other miner |
| `LedgerEffects.PushAdmitted` | src/actions.cpp:217-240 | a pushed transaction never has the contract's kind of signature and always a chain id; below version 1 it asks no minimum price and pays at least the set one |
| `LedgerEffects.PushCommits` | src/actions.cpp:540-577 | a pushed transaction commits exactly under these checks and if the money can move |
| `LedgerEffects.PushedRows` | src/actions.cpp:540-577 | its exact effect on every row, the miner's part included, which goes to a miner other than the contract and the empty name |
| `LedgerEffects.QueuedCommits` | src/actions.cpp:562-576 | a queued transaction of the contract's own commits exactly if it is valid, succeeds, and the money can move |
| `LedgerEffects.QueuedRows` | src/actions.cpp:562-576 | its exact effect on every row |
| `LedgerEffects.BuiltCommits` | src/actions.cpp:767-834 | bridging in and calls commit exactly if the transaction can be built and, from version 1 on, is valid, succeeds, and the money can move |
| `LedgerEffects.OnlyOwnerSpends` | src/actions.cpp:213-234 | if a row other than the contract's loses value in a step, the step is its owner's withdrawal, a call from it or in its name, a queued transaction of it, or a repair of it |
| `LedgerEffects.NobodyElseSpends` | src/actions.cpp:183-834 | over any run without such steps the row never loses value, queued transactions included |
| `Contract.EvmContract.constructor` | src/actions.cpp:55-84 | initialisation leaves the contract's own row, open and empty |
| `Contract.EvmContract.EgressLoop` | src/actions.cpp:274-319 | the loop over reserved objects, on rows of machine words in place, meets `Ledger.EgressAll`, aborts included |
| `Contract.EvmContract.SettleTransaction` | src/actions.cpp:253-331 | meets `Ledger.Settle` |
| `Contract.EvmContract.ExecuteTransaction` | src/actions.cpp:183-335 | meets `Ledger.ExecuteTx` |
| `Contract.EvmContract.ProcessFilteredMessages` | src/actions.cpp:397-450 | the message loop meets `Ledger.ProcessMessages` |
| `Contract.EvmContract.ProcessTransaction` | src/actions.cpp:452-538 | meets `Ledger.ProcessTx` |
| `Contract.EvmContract.Perform` | src/actions.cpp:183-834 | every action, on machine words and in place, commits exactly when the ledger function does, with the same ledger as its result |
| `Contract.EvmContract.Transact` | src/actions.cpp:183-834 | a transaction with its inline actions runs to its effect or, if any check fails or an inline action is left waiting, to no effect at all |
| `Contract.RunHistory` | src/actions.cpp:55-834 | the contract initialised and run through any history ends in the ledger of that history, with its books balanced |
| `System.RunsProject` | src/actions.cpp:452-834 | every joint run is a run of the configuration and a run of the ledger |
| `System.EnvSafe` | src/config_wrapper.cpp:183-265 | every step of every run has a supported version, the bridge fee last set, at version 0 the miner cut last set, at most 90%, and the token's unit is always the ledger's |
| `System.VersionsGrow` | src/config_wrapper.cpp:202-230 | no step runs at a lower version than an earlier one |
| `System.PriceOfStep` | src/actions.cpp:470-480 | at versions 1 and 2 the base fee of a transaction is the last price of the whole joint run that is active in its block |
| `System.PriceSoFar` | src/actions.cpp:470-505 | below version 3 the gas price of every transaction is that of its block among those set so far |
| `System.MinerHonoured` | src/actions.cpp:501-503 | over every joint run a pushed transaction at versions 1 and 2 credits its miner with gas used times min(max priority fee, max fee - price of the block), at least gas used times the price asked for |
| `System.TenthKept` | src/actions.cpp:262-300 | over every joint run a pushed transaction at version 0 pays at least the price last set, its miner gets the share last set, and at least a tenth of a credited fee stays in the contract's row |
| `System.ContractSound` | src/actions.cpp:55-917 | after any history of transactions that change configuration and ledger the configuration is in order, counts in the ledger's unit, nothing is waiting and the books balance |

## Left out

- EVM execution, transaction encoding, signature recovery, hashing and the write-back of EVM
  state: they come from libraries that are not part of this model; see Assumptions.
- EVM version 3: its gas prices come from a second queue that shares the cached front block
  with the first; `Config.ProcessPriceQueue` leaves that queue out, `setgasprices` is modelled
  for what it does to the version only, and the price theorems speak of runs below version 3.
- Completeness of the configuration change event: an update can promote a pending value
  silently, so it is not a property of the contract.
- `setkvstore` and `rmgcstore`: repair actions that write or orphan arbitrary storage scopes.
  `rmaccount` is a step of the store and not of the ledger, since it drops a balance without
  touching `inevm`.
- Agreement of the id cache after an account was deleted and created again through the same
  state object: entries are never invalidated, and the contract reads before it writes.
- Primary keys, account ids and collection entries are unbounded numbers; storage rows and
  collection entries are kept in key order without their keys, which nothing else reads.
- Token transfers signed by the contract account itself, memos that are neither an address nor
  an account name (they abort), and tokens other than the contract's own.
- How a bridge message's account string becomes a name: `Ledger.BridgeMsg` has the outcome.
- ConfigWrapper.Wrapper.UpdateConsensusParameters: computes the gas per byte over the reals,
  because the rounding of double precision numbers is not modelled; `Config.GasCoversRam` is
  therefore about the exact quotient.
- The time division of the block mapping is integer division.
- Authorisation, the freezing of the whole contract (single accounts can be frozen), events, error strings, statistics, the read-only `exec` action,
  serialization and the actions built for testing.
