/** Shared vocabulary of the tags pallet: integer widths, accounts, the stored
    tag record, and the errors and events a dispatch can produce. */
module TagTypes {

  const U32_MAX: int := 0xFFFF_FFFF
  const U64_MAX: int := 0xFFFF_FFFF_FFFF_FFFF

  type Byte = x: int | 0 <= x < 0x100
  type U32 = x: int | 0 <= x <= U32_MAX
  /** Tag indices and the index counter are unsigned 64-bit integers. */
  type U64 = x: int | 0 <= x <= U64_MAX

  /** Account identities are generic in the runtime: only equality is observed. */
  type Account(==, !new)

  /** The value stored in `TagMap`: the name, the account that created the tag,
      and the deposit reserved for it when it was created. */
  datatype Tag = Tag(name: seq<Byte>, creator: Account, deposit: nat)

  /** The pallet's own error enum (the unused `NoneValue` is not modelled). */
  datatype Error = StorageOverflow | InvalidTag | NotAllowed

  /** Why a dispatch failed: the currency could not reserve the deposit, or the
      pallet itself returned one of its errors. */
  datatype DispatchError = InsufficientBalance | Pallet(error: Error)

  datatype DispatchResult = Ok | Err(error: DispatchError)

  /** Events deposited by a successful dispatch. */
  datatype Event =
    | TagCreated(index: U64, who: Account, deposit: nat)
    | TagDestroyed(index: U64, who: Account)

  datatype Option<T> = None | Some(value: T)
}
