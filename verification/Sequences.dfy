/** Sequence facts and operations several modules share. */
module Sequences {
  lemma Regroup<T>(a: seq<T>, b: seq<T>, c: seq<T>)
    ensures (a + b) + c == a + (b + c)
  {}

  /** fwrite of one record at an index: overwrite it, or extend the file by it. */
  function Written<T>(records: seq<T>, i: nat, rec: T): seq<T>
    requires i <= |records|
  {
    if i < |records| then records[i := rec] else records + [rec]
  }
}
