/** Sequences of dispatches, executed one after the other as the runtime
    serialises them, and what holds across a whole run: the invariant, index
    allocation that never revisits an index, and the create/destroy round trip. */
module Traces {
  import opened TagTypes
  import opened Balances
  import opened Registry

  /** One signed extrinsic of the pallet. */
  datatype Call =
    | CreateTag(who: Account, name: seq<Byte>, deposit: nat)
    | DestroyTag(who: Account, index: U64)

  function Step(s: State, c: Call): (r: State) {
    match c
    case CreateTag(who, name, deposit) => Create(s, who, name, deposit).state
    case DestroyTag(who, index) => Destroy(s, who, index).state
  }

  function Run(s: State, calls: seq<Call>): (r: State)
    decreases |calls|
  {
    if calls == [] then s else Run(Step(s, calls[0]), calls[1..])
  }

  lemma StepPreservesValid(s: State, c: Call)
    requires Valid(s)
    ensures Valid(Step(s, c))
  {
    match c
    case CreateTag(who, name, deposit) => CreatePreservesValid(s, who, name, deposit);
    case DestroyTag(who, index) => DestroyPreservesValid(s, who, index);
  }

  /** The invariant holds after any run that starts from a state satisfying it. */
  lemma {:induction false} RunPreservesValid(s: State, calls: seq<Call>)
    requires Valid(s)
    ensures Valid(Run(s, calls))
    decreases |calls|
  {
    if calls != [] {
      StepPreservesValid(s, calls[0]);
      RunPreservesValid(Step(s, calls[0]), calls[1..]);
    }
  }

  /** A run never moves the counter back and only appends to the event log;
      every `TagCreated` it appends announces an index that was not yet
      allocated when the run began. */
  lemma {:induction false} RunAllocatesFreshIndices(s: State, calls: seq<Call>)
    ensures s.counter <= Run(s, calls).counter
    ensures s.events <= Run(s, calls).events
    ensures forall k :: |s.events| <= k < |Run(s, calls).events| && Run(s, calls).events[k].TagCreated? ==>
      s.counter <= Run(s, calls).events[k].index < Run(s, calls).counter
    decreases |calls|
  {
    if calls != [] {
      var s1 := Step(s, calls[0]);
      RunAllocatesFreshIndices(s1, calls[1..]);
      var h := Run(s, calls).events;
      assert Run(s, calls) == Run(s1, calls[1..]);
      forall k | |s.events| <= k < |h| && h[k].TagCreated?
        ensures s.counter <= h[k].index < Run(s, calls).counter
      {
        if k < |s1.events| {
          assert h[k] == s1.events[k];
        }
      }
    }
  }

  /** Indices are never reused: an index that was allocated before the run
      (live or already destroyed) is never handed out again by it. */
  lemma NeverReassigned(s: State, calls: seq<Call>, i: U64)
    requires i < s.counter
    ensures forall k :: |s.events| <= k < |Run(s, calls).events| && Run(s, calls).events[k].TagCreated? ==>
      Run(s, calls).events[k].index != i
  {
    RunAllocatesFreshIndices(s, calls);
  }

  /** A destroyed index stays vacant for ever: no later dispatch writes it. */
  lemma {:induction false} VacatedStaysVacant(s: State, calls: seq<Call>, i: U64)
    requires Valid(s) && i < s.counter && i !in s.tags
    ensures i !in Run(s, calls).tags
    decreases |calls|
  {
    if calls != [] {
      StepPreservesValid(s, calls[0]);
      VacatedStaysVacant(Step(s, calls[0]), calls[1..], i);
    }
  }

  /** Creating a tag and destroying it again by the same account restores every
      account's balances and the tag map; only the counter has moved on. */
  lemma CreateThenDestroy(s: State, who: Account, name: seq<Byte>, deposit: nat)
    requires Valid(s)
    requires Create(s, who, name, deposit).result.Ok?
    ensures var s1 := Create(s, who, name, deposit).state;
      && Destroy(s1, who, s.counter).result.Ok?
      && Destroy(s1, who, s.counter).state.tags == s.tags
      && Destroy(s1, who, s.counter).state.counter == s.counter + 1
      && SameBalances(Destroy(s1, who, s.counter).state.ledger, s.ledger)
  {
  }

  /** Deposit 10, balance 100: the first tag gets index 0 and takes 10 into
      reservation; destroying it gives the 10 back and leaves index 0 vacant.
      With a balance of 5 the same call fails and nothing changes, and index 99,
      never allocated, cannot be destroyed. */
  lemma Scenario(who: Account)
    ensures var s0 := Genesis(Ledger(map[who := 100], map[]));
      var c := Create(s0, who, [65, 66, 67], 10);
      && c.result == Ok
      && c.state.tags == map[0 := Tag([65, 66, 67], who, 10)]
      && c.state.counter == 1
      && FreeOf(c.state.ledger, who) == 90 && ReservedOf(c.state.ledger, who) == 10
      && Destroy(c.state, who, 0).result == Ok
      && FreeOf(Destroy(c.state, who, 0).state.ledger, who) == 100
      && 0 !in Destroy(c.state, who, 0).state.tags
    ensures var s0 := Genesis(Ledger(map[who := 5], map[]));
      Create(s0, who, [65, 66, 67], 10) == Outcome(s0, Err(InsufficientBalance))
    ensures var s0 := Genesis(Ledger(map[who := 100], map[]));
      Destroy(s0, who, 99).result == Err(Pallet(InvalidTag))
  {
  }
}
