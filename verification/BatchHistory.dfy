/** What a server sees of a client that re-sends until it hears back: batches of the client's records, each starting where the
    previous one started or ended. */
module BatchHistory {
  /** Records from..end of everything the client ever recorded. */
  datatype Batch = Batch(from: nat, end: nat)

  /** Every batch is sent from the last confirmed position; confirmed is where the next one will start. */
  ghost predicate Chain(bs: seq<Batch>, confirmed: nat) {
    if bs == [] then confirmed == 0
    else
      var last := bs[|bs| - 1];
      && last.from <= last.end && (confirmed == last.from || confirmed == last.end)
      && Reached(bs[..|bs| - 1]) <= last.end
      && Chain(bs[..|bs| - 1], last.from)
  }

  /** How far the server has seen the client's records. */
  ghost function Reached(bs: seq<Batch>): nat {
    if bs == [] then 0 else bs[|bs| - 1].end
  }

  ghost function Range(from: nat, end: nat): (r: seq<nat>)
    requires from <= end
    ensures |r| == end - from
    ensures forall k | 0 <= k < |r| :: r[k] == from + k
  {
    seq(end - from, k requires 0 <= k => from + k)
  }

  /** The source positions of the records the server has, in arrival order. */
  ghost function Flatten(bs: seq<Batch>): seq<nat> {
    if bs == [] then []
    else
      var last := bs[|bs| - 1];
      Flatten(bs[..|bs| - 1]) + if last.from <= last.end then Range(last.from, last.end) else []
  }

  /** The first arrival of every position: what remains when re-sends are dropped. */
  ghost function FirstArrivals(src: seq<nat>): seq<nat> {
    if src == [] then []
    else
      var rest, x := src[..|src| - 1], src[|src| - 1];
      FirstArrivals(rest) + if x in rest then [] else [x]
  }

  lemma ReachedCoversConfirmed(bs: seq<Batch>, confirmed: nat)
    requires Chain(bs, confirmed)
    ensures confirmed <= Reached(bs)
  {}

  lemma {:induction false} FlattenCovers(bs: seq<Batch>, confirmed: nat, x: nat)
    requires Chain(bs, confirmed)
    ensures x in Flatten(bs) <==> x < Reached(bs)
    decreases |bs|
  {
    if bs != [] {
      var last, init := bs[|bs| - 1], bs[..|bs| - 1];
      FlattenCovers(init, last.from, x);
      ReachedCoversConfirmed(init, last.from);
      var range := Range(last.from, last.end);
      assert x in range <==> last.from <= x < last.end by {
        if last.from <= x < last.end {
          assert range[x - last.from] == x;
        }
      }
    }
  }

  ghost predicate KnowsExactly(src: seq<nat>, known: nat) {
    forall x: nat :: x in src <==> x < known
  }

  lemma KnownAfterRange(src: seq<nat>, known: nat, from: nat, last: nat)
    requires KnowsExactly(src, known) && from <= last
    ensures last in src + Range(from, last) <==> last < known
  {}

  /** Appending a range of positions of which the first ones are known adds exactly the unknown ones. */
  lemma {:induction false} ArrivalsOfRange(src: seq<nat>, known: nat, from: nat, end: nat)
    requires from <= end && from <= known && KnowsExactly(src, known)
    ensures FirstArrivals(src + Range(from, end)) == FirstArrivals(src) + if known <= end then Range(known, end) else []
    decreases end
  {
    if end == from {
      assert src + Range(from, end) == src;
    } else {
      var last := end - 1;
      var rest := src + Range(from, last);
      ArrivalsOfRange(src, known, from, last);
      KnownAfterRange(src, known, from, last);
      ArrivalsAppended(rest, last);
      assert src + Range(from, end) == rest + [last];
      TailExtends(FirstArrivals(src), FirstArrivals(rest), FirstArrivals(src + Range(from, end)), known, last);
    }
  }

  lemma TailExtends(before: seq<nat>, sofar: seq<nat>, now: seq<nat>, known: nat, last: nat)
    requires sofar == before + if known <= last then Range(known, last) else []
    requires now == sofar + if last < known then [] else [last]
    ensures now == before + if known <= last + 1 then Range(known, last + 1) else []
  {}

  lemma ArrivalsAppended(src: seq<nat>, x: nat)
    ensures FirstArrivals(src + [x]) == FirstArrivals(src) + if x in src then [] else [x]
  {}

  /** Dropping the re-sends leaves the client's records in order, from the first on, without a gap. */
  lemma {:induction false} ArrivalsInOrder(bs: seq<Batch>, confirmed: nat)
    requires Chain(bs, confirmed)
    ensures FirstArrivals(Flatten(bs)) == Range(0, Reached(bs))
    decreases |bs|
  {
    if bs == [] {
      assert Range(0, 0) == [];
    } else {
      var last, init := bs[|bs| - 1], bs[..|bs| - 1];
      ArrivalsInOrder(init, last.from);
      ReachedCoversConfirmed(init, last.from);
      assert KnowsExactly(Flatten(init), Reached(init)) by {
        forall x: nat ensures x in Flatten(init) <==> x < Reached(init) {
          FlattenCovers(init, last.from, x);
        }
      }
      ArrivalsOfRange(Flatten(init), Reached(init), last.from, last.end);
      assert Range(0, Reached(init)) + Range(Reached(init), last.end) == Range(0, last.end);
    }
  }

  lemma ChainExtends(bs: seq<Batch>, confirmed: nat, end: nat, heard: bool)
    requires Chain(bs, confirmed) && confirmed <= end && Reached(bs) <= end
    ensures Chain(bs + [Batch(confirmed, end)], if heard then end else confirmed)
    ensures Flatten(bs + [Batch(confirmed, end)]) == Flatten(bs) + Range(confirmed, end)
    ensures Reached(bs + [Batch(confirmed, end)]) == end
  {}
}
