/** The tags pallet as the runtime sees it: storage items that the two
    dispatchables update in place, and the currency's balances that
    `reserve`/`unreserve` change. Each method is proved against the matching
    function of `Registry`, and keeps the registry invariant. */
module Pallet {
  import opened TagTypes
  import opened Balances
  import Registry

  class TagPallet {
    /** The configured `TagNameLimit`. */
    const nameLimit: U32
    /** Storage `TagIndex`: the next index to hand out. */
    var counter: U64
    /** Storage `TagMap`. */
    var tags: map<U64, Tag>
    /** The currency's free balances. */
    var free: map<Account, nat>
    /** The currency's reserved balances. */
    var reserved: map<Account, nat>
    /** Events deposited by successful dispatches, oldest first. */
    var events: seq<Event>

    ghost function State(): Registry.State
      reads this
    {
      Registry.State(counter, tags, Ledger(free, reserved), events)
    }

    ghost predicate Valid()
      reads this
    {
      Registry.Valid(State()) && Registry.NamesWithin(State(), nameLimit)
    }

    /** Genesis: no tags, `TagIndex` at its default 0, and the given balances. */
    constructor (nameLimit: U32, free: map<Account, nat>, reserved: map<Account, nat>)
      ensures Valid()
      ensures this.nameLimit == nameLimit
      ensures State() == Registry.Genesis(Ledger(free, reserved))
    {
      this.nameLimit := nameLimit;
      counter := 0;
      tags := map[];
      this.free := free;
      this.reserved := reserved;
      events := [];
      new;
      Registry.GenesisValid(Ledger(free, reserved), nameLimit);
    }

    /** `Currency::reserve`: fails, changing nothing, if `who` cannot spend `amount`.
        A step of `CreateTag`; it only adds to reserved funds, so it keeps `Valid()`. */
    method Reserve(who: Account, amount: nat) returns (ok: bool)
      modifies this`free, this`reserved
      ensures old(Valid()) ==> Valid()
      ensures ok <==> amount <= FreeOf(old(Ledger(free, reserved)), who)
      ensures ok ==> Balances.Reserve(old(Ledger(free, reserved)), who, amount) == Some(Ledger(free, reserved))
      ensures !ok ==> free == old(free) && reserved == old(reserved)
    {
      var before := FreeOf(Ledger(free, reserved), who);
      ok := amount <= before;
      if ok {
        free := free[who := before - amount];
        reserved := reserved[who := ReservedOf(Ledger(free, reserved), who) + amount];
        // the tags are untouched, so each account's held deposits are too
        forall a ensures Registry.Held(old(State()), a) == Registry.Held(State(), a) {
        }
      }
    }

    /** `Currency::unreserve`: never fails; returns what could not be released.
        A step of `DestroyTag` only: called on its own it may take reserved
        funds below the deposits of live tags and so break `Valid()`. */
    method Unreserve(who: Account, amount: nat) returns (missing: nat)
      modifies this`free, this`reserved
      ensures Balances.Unreserve(old(Ledger(free, reserved)), who, amount) == (Ledger(free, reserved), missing)
    {
      var held := ReservedOf(Ledger(free, reserved), who);
      var released := if amount <= held then amount else held;
      free := free[who := FreeOf(Ledger(free, reserved), who) + released];
      reserved := reserved[who := held - released];
      missing := amount - released;
    }

    /** `create_tag(origin, name)` signed by `who`, with `TagDepositAmount` equal
        to `deposit`. The name is a `BoundedVec`, so it fits `TagNameLimit`. */
    method CreateTag(who: Account, name: seq<Byte>, deposit: nat) returns (r: DispatchResult)
      requires Valid() && |name| <= nameLimit
      modifies this
      ensures Valid()
      ensures Registry.Create(old(State()), who, name, deposit) == Registry.Outcome(State(), r)
      ensures r.Err? ==> unchanged(this)
    {
      Registry.CreatePreservesValid(State(), who, name, deposit);
      // the dispatch runs in a storage transaction: what to restore on error
      var savedFree, savedReserved := free, reserved;

      var ok := Reserve(who, deposit);
      if !ok {
        return Err(InsufficientBalance);
      }

      var index := counter;
      if index == U64_MAX {
        // `checked_add(1)` fails with `StorageOverflow`; the rollback undoes the reservation
        free, reserved := savedFree, savedReserved;
        return Err(Pallet(StorageOverflow));
      }
      counter := index + 1;

      tags := tags[index := Tag(name, who, deposit)];
      events := events + [TagCreated(index, who, deposit)];
      r := Ok;
    }

    /** `destroy_tag(origin, tag_index)` signed by `who`. */
    method DestroyTag(who: Account, tagIndex: U64) returns (r: DispatchResult)
      requires Valid()
      modifies this
      ensures Valid()
      ensures Registry.Destroy(old(State()), who, tagIndex) == Registry.Outcome(State(), r)
      ensures r.Err? ==> unchanged(this)
    {
      Registry.DestroyPreservesValid(State(), who, tagIndex);
      Registry.DestroySuccess(State(), who, tagIndex);
      if tagIndex !in tags {
        return Err(Pallet(InvalidTag));
      }
      var tag := tags[tagIndex];
      if who != tag.creator {
        return Err(Pallet(NotAllowed));
      }

      // the creator always has the whole deposit reserved, so all of it is released
      var missing := Unreserve(who, tag.deposit);
      assert missing == 0;
      tags := tags - {tagIndex};
      events := events + [TagDestroyed(tagIndex, who)];
      r := Ok;
    }

    /** The `tag_info` storage getter: the tag at `index`, if any. A tag it
        finds has an allocated index and a name within `TagNameLimit`. */
    method TagInfo(index: U64) returns (r: Option<Tag>)
      requires Valid()
      ensures r.Some? <==> index in tags
      ensures r.Some? ==> r.value == tags[index]
      ensures r.Some? ==> index < counter && |r.value.name| <= nameLimit
    {
      if index in tags {
        r := Some(tags[index]);
      } else {
        r := None;
      }
    }
  }
}
