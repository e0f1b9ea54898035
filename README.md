# Tags pallet registry, modelled in Dafny

The tags pallet is a FRAME pallet in which an account claims a named tag by
reserving a deposit, and gets the deposit back by destroying a tag it created.
Its state has three parts. `TagIndex` is a `u64` counter holding the next free
index; it starts at 0. `TagMap` maps an index to `(name, creator, deposit)`.
The third part is the reserved balances of the runtime's reservable currency.
The two dispatchables are `create_tag` and `destroy_tag`.

The project has five modules:

- `TagTypes` (`types.dfy`) holds the integer widths, the abstract `Account`
  type, the stored `Tag`, the pallet's `Error` enum, the dispatch result and
  the `Event` enum.
- `Balances` (`balances.dfy`) is the reservable currency, cut down to the
  contract the pallet uses. Its ledger keeps a free and a reserved balance per
  account. `Reserve` fails when the free balance is too small. `Unreserve`
  never fails: it releases at most what is reserved and returns the part it
  could not release, as Substrate's `unreserve` does.
- `Registry` (`registry.dfy`) is the pallet's storage as a value `State`.
  `Create` and `Destroy` map a state to the next state and the dispatch
  result. It defines the invariant `Valid` and proves the lemmas about both
  dispatchables. FRAME runs each dispatchable inside a storage transaction,
  so a failed call leaves no writes. `Create` and `Destroy` therefore return
  the state they started from on every error.
- `Pallet` (`pallet.dfy`) has the class `TagPallet`. Its fields are updated in
  place: `counter`, `tags`, `free`, `reserved` and `events`. `CreateTag` and
  `DestroyTag` take the steps of the Rust code in the same order. Each one is
  proved equal to the matching `Registry` function and keeps `Valid()`.
  `CreateTag` reserves before it checks the counter, just as the source does.
  When the checked add overflows, it restores the saved balances itself; this
  is the rollback FRAME performs.
- `Traces` (`traces.dfy`) covers sequences of dispatches run one after
  another. It proves that the invariant survives any run, that an index is
  never handed out twice, and that a destroyed index stays empty. It also
  proves the create-then-destroy round trip and the concrete scenarios.

The invariant `Registry.Valid` has three parts:

- every key of `TagMap` is below `TagIndex`;
- for each account, the deposits of its live tags sum to no more than its
  reserved balance (`Held(s, a) <= ReservedOf(s.ledger, a)`);
- the indices announced by `TagCreated` events are below the counter and
  strictly increasing, so no index is announced twice.

The second part is what makes `destroy_tag`'s `unreserve` release the whole
stored deposit, with nothing left unreleased (`DestroySuccess`). It rests on
an assumption: this pallet is the only user of the ledger's reserved funds.
In a real runtime other pallets share the same reserves and may unreserve or
slash them. `destroy_tag` ignores the shortfall that `unreserve` returns
(`pallets/tags/src/lib.rs:172`), so there it would still succeed after
releasing less. `Registry.Destroy` ignores the shortfall as well. Only
`DepositsReserved` and the full-release clauses of `DestroySuccess` depend
on the assumption.

Inputs from outside the core are parameters:

- the signed origin becomes an already-authenticated `who: Account`;
- `TagDepositAmount` becomes a `deposit` argument of each create call;
- `TagNameLimit` becomes the constant `nameLimit` of the pallet object.

Names are `seq<Byte>`. The `BoundedVec` type guarantees `|name| <= TagNameLimit`,
so `CreateTag` requires it.

`create_tag` does not unreserve when the counter overflows
(`pallets/tags/src/lib.rs:136-145`). FRAME's transactional dispatch discards
the reservation along with the call's other writes. `Registry.Create` models
this by returning the starting state, and `Pallet.TagPallet.CreateTag` by
restoring the saved balances. The unit test in
`pallets/tags/src/tests.rs` was written for an older version, in which indices
start at 1 and the owner is an `Option`. The model follows `lib.rs`: indices
start at 0 and the owner is a plain account.

## Model

| member | source | states |
|---|---|---|
| `Balances.Reserve` | pallets/tags/src/lib.rs:135-136 | reserving succeeds exactly when the free balance covers the amount; on success the amount moves from free to reserved for that account, other accounts are untouched, and every total is conserved |
| `Balances.Unreserve` | pallets/tags/src/lib.rs:171-172 | unreserve never fails: it releases the smaller of the requested amount and what is reserved. The shortfall is zero exactly when the whole amount was reserved; otherwise it is the amount minus what was reserved, and the reserve is emptied. It touches no other account and conserves every total |
| `Balances.ReserveThenUnreserve` | pallets/tags/src/lib.rs:136-172 | unreserving what was just reserved leaves nothing unreleased and gives every account back its free and reserved balances |
| `Registry.Genesis` | pallets/tags/src/lib.rs:67-83 | fresh storage: `TagIndex` at its `ValueQuery` default 0, an empty `TagMap`, no events, and the given balances |
| `Registry.Create` | pallets/tags/src/lib.rs:127-156 | `create_tag` as a state transition: any error leaves the state as it was; insufficient balance is reported exactly when the caller cannot pay the deposit, and `StorageOverflow` exactly when it can but the counter is at `u64::MAX`; on success the counter advances by one, the caller's tag sits at the old counter, no other index gains or loses a tag, and the deposit is added to the caller's reserve |
| `Registry.Destroy` | pallets/tags/src/lib.rs:161-180 | `destroy_tag` as a state transition: any error leaves the state as it was; `InvalidTag` is reported exactly when the index holds no tag, and `NotAllowed` exactly when the caller did not create it; on success that index is empty, no other index changes presence, and the counter is unchanged |
| `Registry.GenesisValid` | pallets/tags/src/lib.rs:67-83 | the initial storage (counter 0 by the `ValueQuery` default, empty map) satisfies the invariant for any balances |
| `Registry.CreateSuccess` | pallets/tags/src/lib.rs:135-152 | `create_tag` succeeds exactly when the caller can pay the deposit and the counter is below `u64::MAX`; it then inserts `(name, caller, deposit)` at the old counter, an index that held no tag, announces that index in `TagCreated`, advances the counter by exactly one, and moves the deposit from the caller's free to reserved balance, leaving other accounts alone |
| `Registry.CreateWithoutFunds` | pallets/tags/src/lib.rs:135-136 | a caller whose free balance is below the deposit gets the currency's insufficient-balance error and counter, map, balances and events are unchanged |
| `Registry.CreateOverflow` | pallets/tags/src/lib.rs:141-145 | with the counter at `u64::MAX` the call fails with `StorageOverflow` and, after the rollback, no index is consumed, no entry written and no reservation remains |
| `Registry.CreatePreservesValid` | pallets/tags/src/lib.rs:139-152 | after any `create_tag` every key is below the counter, every account's reserved balance covers its tags' deposits, and announced indices stay distinct |
| `Registry.DestroyAbsent` | pallets/tags/src/lib.rs:165 | `destroy_tag` on an index with no tag fails with `InvalidTag` and changes nothing |
| `Registry.DestroyByOther` | pallets/tags/src/lib.rs:167-169 | `destroy_tag` by an account other than the stored creator fails with `NotAllowed`; the entry and all balances are unchanged |
| `Registry.DestroySuccess` | pallets/tags/src/lib.rs:165-177 | `destroy_tag` succeeds exactly when the tag exists and the caller created it; it then releases exactly the stored deposit to the creator with nothing left unreleased, removes exactly that key, announces `TagDestroyed`, and keeps the counter, the other entries and the other accounts unchanged |
| `Registry.DestroyPreservesValid` | pallets/tags/src/lib.rs:171-174 | after any `destroy_tag` the invariant still holds: removing the tag and releasing its deposit keep reserved balances covering the remaining deposits |
| `Registry.DestroyTwice` | pallets/tags/src/lib.rs:165-174 | after a successful destroy, destroying the same index again fails with `InvalidTag` and changes nothing |
| `Registry.TotalsConserved` | pallets/tags/src/lib.rs:133-174 | neither dispatchable creates or destroys funds: every account's free plus reserved balance is the same afterwards |
| `Pallet.TagPallet.constructor` | pallets/tags/src/lib.rs:67-83 | genesis storage: counter 0, no tags, the given balances, no events; the invariant holds |
| `Pallet.TagPallet.Reserve` | pallets/tags/src/lib.rs:136 | the in-place reservation agrees with `Balances.Reserve`, changes nothing when it fails, and keeps the invariant |
| `Pallet.TagPallet.Unreserve` | pallets/tags/src/lib.rs:172 | the in-place release agrees with `Balances.Unreserve`, returning what could not be released |
| `Pallet.TagPallet.CreateTag` | pallets/tags/src/lib.rs:127-156 | the step-by-step dispatch (reserve, read counter, checked add, insert, event) ends in exactly the state and result of `Registry.Create`, keeps the invariant, and on any error leaves every field as it was |
| `Pallet.TagPallet.DestroyTag` | pallets/tags/src/lib.rs:161-180 | the step-by-step dispatch (lookup, creator check, unreserve, remove, event) ends in exactly the state and result of `Registry.Destroy`, keeps the invariant, releases the whole deposit, and on any error leaves every field as it was |
| `Pallet.TagPallet.TagInfo` | pallets/tags/src/lib.rs:72-83 | the `tag_info` getter returns the stored tag exactly when the index is present; a tag found has an index below the counter and a name within `TagNameLimit` |
| `Traces.StepPreservesValid` | pallets/tags/src/lib.rs:121-181 | either dispatchable, successful or not, keeps the invariant |
| `Traces.RunPreservesValid` | pallets/tags/src/lib.rs:121-181 | the invariant holds after any sequence of dispatches that starts from a state satisfying it |
| `Traces.RunAllocatesFreshIndices` | pallets/tags/src/lib.rs:139-145 | over any run the counter never decreases, the event log only grows, and every index a run announces as created was unallocated when the run began |
| `Traces.NeverReassigned` | pallets/tags/src/lib.rs:67-69 | an index allocated before a run, live or destroyed, is never handed out again by any later `create_tag` |
| `Traces.VacatedStaysVacant` | pallets/tags/src/lib.rs:174 | an allocated index that no longer holds a tag is never written again, whatever dispatches follow |
| `Traces.CreateThenDestroy` | pallets/tags/src/lib.rs:133-177 | creating a tag and destroying it by the same account succeeds, restores the tag map and every account's free and reserved balance, and leaves the counter advanced by one |
| `Traces.Scenario` | pallets/tags/src/lib.rs:127-180 | with deposit 10 and balance 100 the first tag is stored as `("ABC", caller, 10)` at index 0, leaving 90 free, and destroying it restores 100 and empties index 0; with balance 5 creation fails and nothing changes; index 99, never allocated, cannot be destroyed |

## Left out

- `ensure_signed` is not modelled. The caller arrives as an authenticated `Account`, and an unsigned origin's `BadOrigin` error is not represented.
- The currency's internals are not modelled: existential deposit, liveness checks, locks and balance overflow. Balances are unbounded naturals. The free balance is the only limit on `reserve`.
- Storage mechanics (the Blake2_128Concat hasher, SCALE encoding, `BoundedVec` encoding) are not modelled. The map is a Dafny `map`, and a name is a `seq<Byte>` whose length bound is a precondition.
- Events are modelled only as a log appended to on success, which failed dispatches roll back. Block numbers and event topics are not modelled.
- Weights and benchmarking are not modelled: `pallets/tags/src/weights.rs` and `pallets/tags/src/benchmarking.rs` do cost accounting only. The post-states that the benchmarks assert are covered by `Registry.CreateSuccess` and `Registry.DestroySuccess`.
- The unused `NoneValue` error is not modelled, and neither is the NFT integration that the module comment mentions but does not implement.
- `TagDepositAmount` and `TagNameLimit` are taken as parameters rather than read from runtime configuration.
- The ledger is assumed to be changed by this pallet alone. No other pallet reserves, unreserves or slashes the reserved funds. `Registry.DepositsReserved` and the no-shortfall clauses of `Registry.DestroySuccess` and `Pallet.TagPallet.DestroyTag` hold only under that assumption. In a shared runtime, `destroy_tag` may release less than the stored deposit and still succeed.
- Concurrency is not modelled. Dispatches run one after another, as the runtime serialises them.
