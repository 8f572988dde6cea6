/** What several components share: optional results, and keys hashed to a place in a table. */
module Options {
  datatype Option<+T> = None | Some(value: T)
}

module Hashing {
  /** Any function at all serves as a hash. */
  type Hash = string -> nat

  /** The bucket where the search for a key begins. */
  function Home(h: Hash, key: string, capacity: nat): (i: nat)
    requires capacity > 0
    ensures i < capacity
  {
    h(key) % capacity
  }
}
