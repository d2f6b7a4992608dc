/** Ring arithmetic and the sliding window of a history, shared by the server's and the client's logs. */
module Ring {
  /** a % capacity for the indices both rings compute, which never reach twice the capacity. */
  function Slot(a: nat, capacity: nat): (i: nat)
    requires a < 2 * capacity
    ensures i < capacity
  {
    if a < capacity then a else a - capacity
  }

  lemma SlotIsRemainder(a: nat, capacity: nat)
    requires a < 2 * capacity
    ensures Slot(a, capacity) == a % capacity
  {}

  /** The last n elements, or all of them. */
  function LastN<T>(s: seq<T>, n: nat): seq<T> {
    if |s| <= n then s else s[|s| - n..]
  }

  /** Sliding the window one element at a time keeps it the window of the whole history. */
  lemma LastNSlides<T>(s: seq<T>, x: T, n: nat)
    ensures LastN(LastN(s, n) + [x], n) == LastN(s + [x], n)
  {}
}
