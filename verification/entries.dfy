/**
 The address book's data: one entry per (address, name) pair, in the order
 `Object.entries` yields them from the address-book map, and an optional value
 for the component's `undefined`-able state.
 */
module Entries {

  /** A value that may be absent (TypeScript's `T | undefined`). */
  datatype Option<+T> = None | Some(value: T)

  /** One address-book entry, `[address, name]` as `Object.entries` yields it. */
  datatype Entry = Entry(address: string, name: string)

  /** No two entries share an address: they are the keys of one map. */
  predicate UniqueAddresses(es: seq<Entry>) {
    forall i, j :: 0 <= i < j < |es| ==> es[i].address != es[j].address
  }
}
