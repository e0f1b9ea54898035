/** The reservable currency the pallet calls into, reduced to the contract the
    pallet relies on: `reserve` moves funds from an account's free balance to
    its reserved balance and fails when the free balance is too small;
    `unreserve` moves reserved funds back and never fails, releasing at most
    what is reserved. */
module Balances {
  import opened TagTypes

  /** Free and reserved balance per account; an account absent from a map holds 0. */
  datatype Ledger = Ledger(free: map<Account, nat>, reserved: map<Account, nat>)

  function FreeOf(l: Ledger, a: Account): (r: nat) {
    if a in l.free then l.free[a] else 0
  }

  function ReservedOf(l: Ledger, a: Account): (r: nat) {
    if a in l.reserved then l.reserved[a] else 0
  }

  /** Everything the account owns, spendable or not. */
  function TotalOf(l: Ledger, a: Account): (r: nat) {
    FreeOf(l, a) + ReservedOf(l, a)
  }

  /** Two ledgers that no account can tell apart. */
  ghost predicate SameBalances(l: Ledger, l': Ledger) {
    forall a :: FreeOf(l, a) == FreeOf(l', a) && ReservedOf(l, a) == ReservedOf(l', a)
  }

  /** `Currency::reserve(who, amount)`: `None` is the insufficient-balance error. */
  function Reserve(l: Ledger, who: Account, amount: nat): (r: Option<Ledger>)
    ensures r.Some? <==> amount <= FreeOf(l, who)
    ensures r.Some? ==> FreeOf(r.value, who) + amount == FreeOf(l, who)
    ensures r.Some? ==> ReservedOf(r.value, who) == ReservedOf(l, who) + amount
    ensures r.Some? ==> forall a :: a != who ==>
      FreeOf(r.value, a) == FreeOf(l, a) && ReservedOf(r.value, a) == ReservedOf(l, a)
    ensures r.Some? ==> forall a :: TotalOf(r.value, a) == TotalOf(l, a)
  {
    if FreeOf(l, who) < amount then None
    else Some(Ledger(l.free[who := FreeOf(l, who) - amount],
                     l.reserved[who := ReservedOf(l, who) + amount]))
  }

  /** `Currency::unreserve(who, amount)`: releases as much of `amount` as is
      reserved and returns the new ledger with the part that could not be released. */
  function Unreserve(l: Ledger, who: Account, amount: nat): (r: (Ledger, nat))
    ensures r.1 == 0 <==> amount <= ReservedOf(l, who)
    ensures r.1 <= amount
    ensures ReservedOf(l, who) < amount ==> r.1 == amount - ReservedOf(l, who) && ReservedOf(r.0, who) == 0
    ensures FreeOf(r.0, who) == FreeOf(l, who) + (amount - r.1)
    ensures ReservedOf(r.0, who) + (amount - r.1) == ReservedOf(l, who)
    ensures forall a :: a != who ==>
      FreeOf(r.0, a) == FreeOf(l, a) && ReservedOf(r.0, a) == ReservedOf(l, a)
    ensures forall a :: TotalOf(r.0, a) == TotalOf(l, a)
  {
    var released := if amount <= ReservedOf(l, who) then amount else ReservedOf(l, who);
    (Ledger(l.free[who := FreeOf(l, who) + released],
            l.reserved[who := ReservedOf(l, who) - released]),
     amount - released)
  }

  /** Unreserving exactly what was just reserved gives every account its
      balances back, with nothing left unreleased. */
  lemma ReserveThenUnreserve(l: Ledger, who: Account, amount: nat)
    requires amount <= FreeOf(l, who)
    ensures Reserve(l, who, amount).Some?
    ensures Unreserve(Reserve(l, who, amount).value, who, amount).1 == 0
    ensures SameBalances(Unreserve(Reserve(l, who, amount).value, who, amount).0, l)
  {
  }
}
