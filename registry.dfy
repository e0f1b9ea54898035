/** The pallet's storage as a value, and its two dispatchables as functions
    from the state before the call to the state after it and the dispatch
    result. A failed dispatch returns the state it started from: FRAME runs
    every dispatchable in a storage transaction and discards its writes when it
    returns an error. */
module Registry {
  import opened TagTypes
  import opened Balances

  /** `TagIndex` (the next free index), `TagMap`, the currency's balances and
      the event log. */
  datatype State = State(counter: U64, tags: map<U64, Tag>, ledger: Ledger, events: seq<Event>)

  datatype Outcome = Outcome(state: State, result: DispatchResult)

  /** Fresh storage: `TagIndex` reads 0 (`ValueQuery` default) and no tag exists. */
  function Genesis(ledger: Ledger): (r: State)
    ensures r.counter == 0 && r.tags == map[] && r.ledger == ledger && r.events == []
  {
    State(0, map[], ledger, [])
  }

  /** `create_tag`: reserve the deposit, read the counter, store the counter
      plus one (a checked add), insert the tag at the old counter. */
  function Create(s: State, who: Account, name: seq<Byte>, deposit: nat): (r: Outcome)
    // a failed dispatch leaves no trace
    ensures r.result.Err? ==> r.state == s
    ensures r.result == Err(InsufficientBalance) <==> FreeOf(s.ledger, who) < deposit
    ensures r.result == Err(Pallet(StorageOverflow)) <==> deposit <= FreeOf(s.ledger, who) && s.counter == U64_MAX
    ensures r.result.Ok? ==>
      && r.state.counter == s.counter + 1
      && s.counter in r.state.tags && r.state.tags[s.counter] == Tag(name, who, deposit)
      && (forall k :: k != s.counter ==> (k in r.state.tags <==> k in s.tags))
      && ReservedOf(r.state.ledger, who) == ReservedOf(s.ledger, who) + deposit
  {
    match Reserve(s.ledger, who, deposit)
    case None => Outcome(s, Err(InsufficientBalance))
    case Some(ledger) =>
      var index := s.counter;
      if index == U64_MAX then
        // the checked add fails; the rollback also undoes the reservation
        Outcome(s, Err(Pallet(StorageOverflow)))
      else
        Outcome(State(index + 1, s.tags[index := Tag(name, who, deposit)], ledger,
                      s.events + [TagCreated(index, who, deposit)]),
                Ok)
  }

  /** `destroy_tag`: look the tag up, check that the caller created it,
      unreserve its stored deposit, remove it. */
  function Destroy(s: State, who: Account, index: U64): (r: Outcome)
    // a failed dispatch leaves no trace
    ensures r.result.Err? ==> r.state == s
    ensures r.result == Err(Pallet(InvalidTag)) <==> index !in s.tags
    ensures r.result == Err(Pallet(NotAllowed)) <==> index in s.tags && s.tags[index].creator != who
    ensures r.result.Ok? ==>
      && index !in r.state.tags
      && (forall k :: k != index ==> (k in r.state.tags <==> k in s.tags))
      && r.state.counter == s.counter
  {
    if index !in s.tags then Outcome(s, Err(Pallet(InvalidTag)))
    else
      var tag := s.tags[index];
      if who != tag.creator then Outcome(s, Err(Pallet(NotAllowed)))
      else
        var (ledger, _) := Unreserve(s.ledger, who, tag.deposit);
        Outcome(State(s.counter, s.tags - {index}, ledger,
                      s.events + [TagDestroyed(index, who)]),
                Ok)
  }

  // ---------------------------------------------------------------------
  // Deposit accounting

  /** What a tag holds in reservation on behalf of account `a`. */
  function Share(t: Tag, a: Account): (r: nat) {
    if t.creator == a then t.deposit else 0
  }

  /** The deposits of `a`'s live tags with an index below `n`. */
  function HeldBelow(tags: map<U64, Tag>, a: Account, n: nat): (r: nat)
    requires n <= U64_MAX + 1
  {
    if n == 0 then 0
    else
      var k: U64 := n - 1;
      HeldBelow(tags, a, k) + (if k in tags then Share(tags[k], a) else 0)
  }

  /** The deposits of all of `a`'s live tags. */
  function Held(s: State, a: Account): (r: nat) {
    HeldBelow(s.tags, a, s.counter)
  }

  /** Two tag maps that agree on every index below `n` hold the same deposits there. */
  lemma {:induction false} HeldBelowAgree(t1: map<U64, Tag>, t2: map<U64, Tag>, a: Account, n: nat)
    requires n <= U64_MAX + 1
    requires forall k: U64 :: k < n ==> (k in t1 <==> k in t2)
    requires forall k: U64 :: k < n && k in t1 ==> t1[k] == t2[k]
    ensures HeldBelow(t1, a, n) == HeldBelow(t2, a, n)
  {
    if n > 0 {
      HeldBelowAgree(t1, t2, a, n - 1);
    }
  }

  /** Removing a live tag below `n` takes exactly its share out of the sum. */
  lemma {:induction false} HeldBelowRemove(tags: map<U64, Tag>, k: U64, a: Account, n: nat)
    requires n <= U64_MAX + 1
    requires k in tags && k < n
    ensures HeldBelow(tags, a, n) == HeldBelow(tags - {k}, a, n) + Share(tags[k], a)
  {
    if k == n - 1 {
      HeldBelowAgree(tags, tags - {k}, a, n - 1);
    } else {
      HeldBelowRemove(tags, k, a, n - 1);
    }
  }

  // ---------------------------------------------------------------------
  // The invariant

  /** Every stored tag has been allocated: its index is below the counter. */
  ghost predicate KeysBelowCounter(s: State) {
    forall k :: k in s.tags ==> k < s.counter
  }

  /** Every account has at least its live tags' deposits in reservation. */
  ghost predicate DepositsReserved(s: State) {
    forall a :: Held(s, a) <= ReservedOf(s.ledger, a)
  }

  /** Every index announced by `TagCreated` was allocated, and no index was
      announced twice: the announced indices strictly increase. */
  ghost predicate IndicesAnnouncedOnce(s: State) {
    && (forall j :: 0 <= j < |s.events| && s.events[j].TagCreated? ==> s.events[j].index < s.counter)
    && (forall j, k :: 0 <= j < k < |s.events| && s.events[j].TagCreated? && s.events[k].TagCreated? ==>
          s.events[j].index < s.events[k].index)
  }

  ghost predicate Valid(s: State) {
    KeysBelowCounter(s) && DepositsReserved(s) && IndicesAnnouncedOnce(s)
  }

  /** Every stored name fits the configured `TagNameLimit`. */
  ghost predicate NamesWithin(s: State, limit: nat) {
    forall k :: k in s.tags ==> |s.tags[k].name| <= limit
  }

  lemma GenesisValid(ledger: Ledger, limit: nat)
    ensures Valid(Genesis(ledger)) && NamesWithin(Genesis(ledger), limit)
  {
  }

  // ---------------------------------------------------------------------
  // create_tag

  /** A successful `create_tag` writes the caller's tag at the old counter, an
      index that held no tag, announces that index, advances the counter by one
      and moves the deposit from the caller's free to reserved balance. */
  lemma CreateSuccess(s: State, who: Account, name: seq<Byte>, deposit: nat)
    requires Valid(s)
    ensures var o := Create(s, who, name, deposit);
      o.result.Ok? <==> deposit <= FreeOf(s.ledger, who) && s.counter < U64_MAX
    ensures var o := Create(s, who, name, deposit);
      o.result.Ok? ==>
        && s.counter !in s.tags
        && o.state.tags == s.tags[s.counter := Tag(name, who, deposit)]
        && o.state.counter == s.counter + 1
        && o.state.events == s.events + [TagCreated(s.counter, who, deposit)]
        && FreeOf(o.state.ledger, who) + deposit == FreeOf(s.ledger, who)
        && ReservedOf(o.state.ledger, who) == ReservedOf(s.ledger, who) + deposit
        && (forall a :: a != who ==>
              FreeOf(o.state.ledger, a) == FreeOf(s.ledger, a) && ReservedOf(o.state.ledger, a) == ReservedOf(s.ledger, a))
  {
  }

  /** A caller whose free balance is below the deposit gets the currency's
      error and nothing changes. */
  lemma CreateWithoutFunds(s: State, who: Account, name: seq<Byte>, deposit: nat)
    requires FreeOf(s.ledger, who) < deposit
    ensures Create(s, who, name, deposit) == Outcome(s, Err(InsufficientBalance))
  {
  }

  /** With the counter at the top of the u64 range the checked add fails, and
      after the rollback no index is consumed, no tag is written and nothing
      stays reserved. */
  lemma CreateOverflow(s: State, who: Account, name: seq<Byte>, deposit: nat)
    requires s.counter == U64_MAX && deposit <= FreeOf(s.ledger, who)
    ensures Create(s, who, name, deposit) == Outcome(s, Err(Pallet(StorageOverflow)))
  {
  }

  lemma {:induction false} CreatePreservesValid(s: State, who: Account, name: seq<Byte>, deposit: nat)
    requires Valid(s)
    ensures Valid(Create(s, who, name, deposit).state)
  {
    var o := Create(s, who, name, deposit);
    if o.result.Ok? {
      var s' := o.state;
      var c := s.counter;
      var t := Tag(name, who, deposit);
      forall a ensures Held(s', a) <= ReservedOf(s'.ledger, a) {
        HeldBelowAgree(s'.tags, s.tags, a, c);
        assert Held(s', a) == Held(s, a) + Share(t, a);
        assert Held(s, a) <= ReservedOf(s.ledger, a);
      }
      assert IndicesAnnouncedOnce(s') by {
        forall j | 0 <= j < |s.events| && s.events[j].TagCreated?
          ensures s.events[j].index < c
        {
        }
      }
    }
  }

  // ---------------------------------------------------------------------
  // destroy_tag

  /** `destroy_tag` on an index that holds no tag fails with `InvalidTag` and
      changes nothing. */
  lemma DestroyAbsent(s: State, who: Account, index: U64)
    requires index !in s.tags
    ensures Destroy(s, who, index) == Outcome(s, Err(Pallet(InvalidTag)))
  {
  }

  /** Only the creator may destroy a tag: anyone else gets `NotAllowed`, and
      the tag and all balances stay as they were. */
  lemma DestroyByOther(s: State, who: Account, index: U64)
    requires index in s.tags && s.tags[index].creator != who
    ensures Destroy(s, who, index) == Outcome(s, Err(Pallet(NotAllowed)))
  {
  }

  /** A successful `destroy_tag` removes exactly that index, releases exactly
      the stored deposit to the creator (nothing is left unreleased), and
      leaves the counter, the other tags and the other accounts alone. */
  lemma {:induction false} DestroySuccess(s: State, who: Account, index: U64)
    requires Valid(s)
    ensures var o := Destroy(s, who, index);
      o.result.Ok? <==> index in s.tags && s.tags[index].creator == who
    ensures var o := Destroy(s, who, index);
      o.result.Ok? ==>
        && Unreserve(s.ledger, who, s.tags[index].deposit).1 == 0
        && o.state.tags == s.tags - {index}
        && o.state.counter == s.counter
        && o.state.events == s.events + [TagDestroyed(index, who)]
        && FreeOf(o.state.ledger, who) == FreeOf(s.ledger, who) + s.tags[index].deposit
        && ReservedOf(o.state.ledger, who) + s.tags[index].deposit == ReservedOf(s.ledger, who)
        && (forall a :: a != who ==>
              FreeOf(o.state.ledger, a) == FreeOf(s.ledger, a) && ReservedOf(o.state.ledger, a) == ReservedOf(s.ledger, a))
  {
    if index in s.tags && s.tags[index].creator == who {
      HeldBelowRemove(s.tags, index, who, s.counter);
      assert Held(s, who) <= ReservedOf(s.ledger, who);
    }
  }

  lemma {:induction false} DestroyPreservesValid(s: State, who: Account, index: U64)
    requires Valid(s)
    ensures Valid(Destroy(s, who, index).state)
  {
    var o := Destroy(s, who, index);
    if o.result.Ok? {
      var s' := o.state;
      var t := s.tags[index];
      DestroySuccess(s, who, index);
      forall a ensures Held(s', a) <= ReservedOf(s'.ledger, a) {
        HeldBelowRemove(s.tags, index, a, s.counter);
        assert Held(s, a) <= ReservedOf(s.ledger, a);
      }
    }
  }

  /** Destroying the same index a second time fails with `InvalidTag` and
      changes nothing. */
  lemma DestroyTwice(s: State, who: Account, index: U64)
    requires Destroy(s, who, index).result.Ok?
    ensures var s' := Destroy(s, who, index).state;
      Destroy(s', who, index) == Outcome(s', Err(Pallet(InvalidTag)))
  {
  }

  /** Neither dispatch creates or destroys funds: every account's total
      balance is the same afterwards. */
  lemma {:induction false} TotalsConserved(s: State, who: Account, name: seq<Byte>, deposit: nat, index: U64)
    ensures forall a :: TotalOf(Create(s, who, name, deposit).state.ledger, a) == TotalOf(s.ledger, a)
    ensures forall a :: TotalOf(Destroy(s, who, index).state.ledger, a) == TotalOf(s.ledger, a)
  {
  }
}
