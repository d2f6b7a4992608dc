/** At-least-once replication as a state machine: what a client has taken, what has arrived, and what it knows to have arrived. */
module Replication {
  import opened Wrappers
  import opened BatchHistory
  import opened ClientLog
  import opened Ring
  import opened Sequences
  import opened UploadHandler
  import DS = DataStore
  import UB = UploadBody

  const UPLOAD_BATCH_SIZE := 50

  /** The flash takes every record. */
  const ACCEPT_ALL: nat -> bool := k => true

  /** What becomes of one HTTP exchange; not delivered includes a reply with status 500. */
  datatype Outcome = NotDelivered | ReplyLost | Replied

  /** One thing that can happen to the pair. An exchange has the mode in which the client prints the body, whether the server's
      parser takes a body with readings in it, the name and address in the request, whether the client has a connection, what
      becomes of the exchange, the server's clock, and whether its data store can create a file. */
  datatype Event =
    | Reading(r: ClientRecord, writes: bool)
    | Exchange(mode: UB.Mode, parses: bool, name: string, ip: string, connected: bool, outcome: Outcome,
               clock: nat -> u32, now: u32, opens: bool)

  /** The request gets to the server. */
  predicate Arrives(e: Event) {
    e.Exchange? && e.connected && e.outcome != NotDelivered
  }

  /** The client gets a reply. */
  predicate Heard(e: Event) {
    e.Exchange? && e.connected && e.outcome == Replied
  }

  /** The request gets to the server, and the server finds the batch in its body. */
  predicate Carries(e: Event) {
    Arrives(e) && e.parses && UB.Prints(e.mode)
  }

  /** What the server finds in the body printed for a batch: the batch; or, where no reading is printed, an empty list, and
      nothing if there is a comma in it, since that does not parse. */
  function Found(mode: UB.Mode, parses: bool, batch: seq<ClientRecord>): Option<seq<ClientRecord>> {
    if !parses then None
    else if UB.Prints(mode) then Some(batch)
    else if |batch| <= 1 then Some([]) else None
  }

  // ----- copies

  /** All of a batch is stored exactly when the data store accepts all of it. */
  lemma {:induction false} DeliveredAll(decode: Decoder, batch: seq<ClientRecord>, clock: nat -> u32, accepts: nat -> bool)
    ensures |Delivered(decode, batch, clock, accepts)| <= |batch|
    ensures |Delivered(decode, batch, clock, accepts)| == |batch| <==> forall k: nat | k < |batch| :: accepts(k)
    decreases |batch|
  {
    if batch != [] {
      var k := |batch| - 1;
      DeliveredAll(decode, batch[..k], clock, accepts);
      if forall j: nat | j < k :: accepts(j) {
        assert accepts(k) ==> forall j: nat | j < |batch| :: accepts(j);
      }
    }
  }

  /** s is what the server stores for r, at some time. */
  ghost predicate IsCopy(decode: Decoder, r: ClientRecord, s: DS.Record) {
    exists now: u32 :: s == Stored(decode, r, now)
  }

  /** The server's records are copies of the client's records at these positions. */
  ghost predicate Copies(decode: Decoder, h: seq<DS.Record>, src: seq<nat>, all: seq<ClientRecord>) {
    |h| == |src| && forall p | 0 <= p < |h| :: src[p] < |all| && IsCopy(decode, all[src[p]], h[p])
  }

  lemma {:induction false} DeliveredCopies(decode: Decoder, batch: seq<ClientRecord>, clock: nat -> u32, accepts: nat -> bool, p: nat)
    requires p < |batch| && forall k: nat | k < |batch| :: accepts(k)
    ensures |Delivered(decode, batch, clock, accepts)| == |batch|
    ensures IsCopy(decode, batch[p], Delivered(decode, batch, clock, accepts)[p])
    decreases |batch|
  {
    DeliveredAll(decode, batch, clock, accepts);
    var k := |batch| - 1;
    DeliveredAll(decode, batch[..k], clock, accepts);
    if p < k {
      DeliveredCopies(decode, batch[..k], clock, accepts, p);
    } else {
      assert Delivered(decode, batch, clock, accepts)[p] == Stored(decode, batch[k], clock(k));
    }
  }

  lemma CopiesExtended(decode: Decoder, h: seq<DS.Record>, src: seq<nat>, all: seq<ClientRecord>, from: nat, end: nat, clock: nat -> u32)
    requires Copies(decode, h, src, all) && from <= end <= |all|
    ensures Copies(decode, h + Delivered(decode, all[from..end], clock, ACCEPT_ALL), src + Range(from, end), all)
  {
    var batch := all[from..end];
    var d := Delivered(decode, batch, clock, ACCEPT_ALL);
    DeliveredAll(decode, batch, clock, ACCEPT_ALL);
    forall p | 0 <= p < |h| + |d|
      ensures (src + Range(from, end))[p] < |all| && IsCopy(decode, all[(src + Range(from, end))[p]], (h + d)[p])
    {
      if p >= |h| {
        DeliveredCopies(decode, batch, clock, ACCEPT_ALL, p - |h|);
      }
    }
  }

  // ----- the pair

  /** Every record the client has taken, the batches the server has stored, how many records the client takes to have arrived,
      and what the server has. */
  datatype Pair = Pair(all: seq<ClientRecord>, batches: seq<Batch>, confirmed: nat, server: seq<DS.Record>) {
    /** Where a batch from the confirmed position ends. */
    function End(): nat {
      if |all| <= confirmed + UPLOAD_BATCH_SIZE then |all| else confirmed + UPLOAD_BATCH_SIZE
    }
  }

  const NEW_PAIR := Pair([], [], 0, [])

  function Taken(p: Pair, r: ClientRecord): Pair {
    p.(all := p.all + [r.(synced := false)])
  }

  /** A batch from the confirmed position gets into the server's history or not, and the reply comes back or not. */
  ghost function Exchanged(decode: Decoder, p: Pair, carried: bool, heard: bool, clock: nat -> u32): (q: Pair)
    requires p.confirmed <= |p.all|
    ensures q.confirmed <= |q.all|
  {
    Pair(p.all,
         if carried then p.batches + [Batch(p.confirmed, p.End())] else p.batches,
         if heard then p.End() else p.confirmed,
         if carried then p.server + Delivered(decode, p.all[p.confirmed..p.End()], clock, ACCEPT_ALL) else p.server)
  }

  ghost function Next(decode: Decoder, p: Pair, e: Event): (q: Pair)
    requires p.confirmed <= |p.all|
    ensures q.confirmed <= |q.all|
  {
    match e
    case Reading(r, writes) => if writes then Taken(p, r) else p
    case Exchange(_, _, _, _, _, _, clock, _, _) => Exchanged(decode, p, Carries(e), Heard(e), clock)
  }

  /** What a reading changes. */
  lemma ReadingMeans(decode: Decoder, p: Pair, r: ClientRecord, writes: bool)
    requires p.confirmed <= |p.all|
    ensures var q := Next(decode, p, Reading(r, writes));
      && q.all == p.all + (if writes then [r.(synced := false)] else [])
      && q.confirmed == p.confirmed && q.server == p.server && q.batches == p.batches
  {}

  /** What becomes of an exchange, from its own fields: only a reply moves the confirmed position, by the batch of at most 50
      records; and a request that is not delivered leaves the server as it is. */
  lemma ExchangeMeans(decode: Decoder, p: Pair, e: Event)
    requires p.confirmed <= |p.all| && e.Exchange?
    ensures var q, end := Next(decode, p, e), if |p.all| < p.confirmed + 50 then |p.all| else p.confirmed + 50;
      && q.all == p.all
      && q.confirmed == (if e.connected && e.outcome == Replied then end else p.confirmed)
      && (!e.connected || e.outcome == NotDelivered ==> q.server == p.server && q.batches == p.batches)
  {}

  /** A request that is delivered, with a body that parses and has readings in it, adds each record of the batch to the
      server's history, in order. */
  lemma CarriedMeans(decode: Decoder, p: Pair, e: Event)
    requires p.confirmed <= |p.all| && e.Exchange?
    requires e.connected && e.outcome != NotDelivered && e.parses && (e.mode.basic || e.mode.ens160)
    ensures var q, end := Next(decode, p, e), if |p.all| < p.confirmed + 50 then |p.all| else p.confirmed + 50;
      && q.batches == p.batches + [Batch(p.confirmed, end)]
      && GrownBy(decode, p.server, q.server, p.all[p.confirmed..end], e.clock, ACCEPT_ALL)
  {
    AppendedIsGrown(decode, p.server, p.all[p.confirmed..p.End()], e.clock, ACCEPT_ALL);
  }

  /** The state after these events, one after the other. */
  ghost function Replay(decode: Decoder, p: Pair, events: seq<Event>): (q: Pair)
    requires p.confirmed <= |p.all|
    ensures q.confirmed <= |q.all|
  {
    if events == [] then p else Next(decode, Replay(decode, p, events[..|events| - 1]), events[|events| - 1])
  }

  lemma ReplayNext(decode: Decoder, p: Pair, events: seq<Event>, k: nat)
    requires p.confirmed <= |p.all| && k < |events|
    ensures Replay(decode, p, events[..k + 1]) == Next(decode, Replay(decode, p, events[..k]), events[k])
  {
    assert events[..k + 1][..k] == events[..k];
  }

  // ----- the replication invariant

  /** What the server has is a chain of batches of what the client took, up to at most one batch beyond what is confirmed. */
  ghost predicate InStep(decode: Decoder, p: Pair) {
    && p.confirmed <= |p.all| && Chain(p.batches, p.confirmed)
    && p.confirmed <= Reached(p.batches) <= p.End()
    && Copies(decode, p.server, Flatten(p.batches), p.all)
  }

  /** Every record the client takes to have arrived has arrived. */
  ghost predicate AllArrived(p: Pair) {
    forall x: nat | x < p.confirmed :: x in Flatten(p.batches)
  }

  /** In step, the server's history without its re-sends is the client's records in order, from the first on and without a
      gap, and it covers what is confirmed. */
  lemma InStepMeans(decode: Decoder, p: Pair)
    requires InStep(decode, p)
    ensures Copies(decode, p.server, Flatten(p.batches), p.all)
    ensures FirstArrivals(Flatten(p.batches)) == Range(0, Reached(p.batches))
    ensures AllArrived(p)
  {
    ArrivalsInOrder(p.batches, p.confirmed);
    forall x: nat | x < p.confirmed ensures x in Flatten(p.batches) {
      FlattenCovers(p.batches, p.confirmed, x);
    }
  }

  lemma TakeKeepsStep(decode: Decoder, p: Pair, r: ClientRecord)
    requires InStep(decode, p)
    ensures InStep(decode, Taken(p, r))
  {}

  /** A batch that gets into the server's history keeps it in step, whether or not the client hears about it. */
  lemma CarriedKeepsStep(decode: Decoder, p: Pair, heard: bool, clock: nat -> u32)
    requires InStep(decode, p)
    ensures InStep(decode, Exchanged(decode, p, true, heard, clock))
  {
    CopiesExtended(decode, p.server, Flatten(p.batches), p.all, p.confirmed, p.End(), clock);
    ChainExtends(p.batches, p.confirmed, p.End(), heard);
  }

  /** The event does not make the client take records to have arrived that have not: it brings no reply, or the server found
      the batch in the body, or had all of it already. */
  ghost predicate Safe(p: Pair, e: Event) {
    Heard(e) && !Carries(e) ==> Reached(p.batches) == p.End()
  }

  lemma SafeKeepsStep(decode: Decoder, p: Pair, e: Event)
    requires InStep(decode, p) && Safe(p, e)
    ensures InStep(decode, Next(decode, p, e))
  {
    if e.Reading? {
      if e.writes {
        TakeKeepsStep(decode, p, e.r);
      }
    } else if Carries(e) {
      CarriedKeepsStep(decode, p, Heard(e), e.clock);
    }
  }

  /** Nothing in the run is unsafe. */
  ghost predicate NothingLost(decode: Decoder, p: Pair, events: seq<Event>)
    requires p.confirmed <= |p.all|
  {
    forall k: nat | k < |events| :: SafeAt(decode, p, events, k)
  }

  ghost predicate SafeAt(decode: Decoder, p: Pair, events: seq<Event>, k: nat)
    requires p.confirmed <= |p.all| && k < |events|
  {
    Safe(Replay(decode, p, events[..k]), events[k])
  }

  lemma {:induction false} ReplayInStep(decode: Decoder, p: Pair, events: seq<Event>)
    requires InStep(decode, p) && NothingLost(decode, p, events)
    ensures InStep(decode, Replay(decode, p, events))
  {
    if events != [] {
      var k := |events| - 1;
      LostEarlier(decode, p, events);
      ReplayInStep(decode, p, events[..k]);
      SafeKeepsStep(decode, Replay(decode, p, events[..k]), events[k]);
    }
  }

  lemma LostEarlier(decode: Decoder, p: Pair, events: seq<Event>)
    requires p.confirmed <= |p.all| && events != []
    ensures var k := |events| - 1;
      NothingLost(decode, p, events) <==> NothingLost(decode, p, events[..k]) && SafeAt(decode, p, events, k)
  {
    var k := |events| - 1;
    forall j: nat | j < k ensures SafeAt(decode, p, events[..k], j) == SafeAt(decode, p, events, j) {
      assert events[..k][..j] == events[..j];
    }
    assert NothingLost(decode, p, events) ==> SafeAt(decode, p, events, k);
  }

  /** A record taken to have arrived that has not never will: later batches start behind it. */
  lemma LostForGood(decode: Decoder, p: Pair, e: Event)
    requires p.confirmed <= |p.all| && !AllArrived(p)
    ensures !AllArrived(Next(decode, p, e))
  {
    var x: nat :| x < p.confirmed && x !in Flatten(p.batches);
    var q := Next(decode, p, e);
    if q.batches != p.batches {
      assert q.batches[..|p.batches|] == p.batches;
    }
    assert x !in Flatten(q.batches);
  }

  lemma UnsafeLoses(decode: Decoder, p: Pair, e: Event)
    requires InStep(decode, p) && !Safe(p, e)
    ensures !AllArrived(Next(decode, p, e))
  {
    var x := Reached(p.batches);
    FlattenCovers(p.batches, p.confirmed, x);
    assert x < Next(decode, p, e).confirmed;
  }

  /** The exact condition over whole runs: everything the client takes to have arrived has arrived if and only if no event of
      the run was unsafe. */
  lemma {:induction false} ArrivedUnlessLost(decode: Decoder, p: Pair, events: seq<Event>)
    requires InStep(decode, p)
    ensures AllArrived(Replay(decode, p, events)) <==> NothingLost(decode, p, events)
  {
    if events == [] {
      InStepMeans(decode, p);
    } else {
      var k := |events| - 1;
      var q := Replay(decode, p, events[..k]);
      LostEarlier(decode, p, events);
      ArrivedUnlessLost(decode, p, events[..k]);
      if !NothingLost(decode, p, events[..k]) {
        LostForGood(decode, q, events[k]);
      } else {
        ReplayInStep(decode, p, events[..k]);
        if Safe(q, events[k]) {
          SafeKeepsStep(decode, q, events[k]);
          InStepMeans(decode, Next(decode, q, events[k]));
        } else {
          UnsafeLoses(decode, q, events[k]);
        }
      }
    }
  }

  /** Where every body that is answered carries its batch, nothing is lost. */
  lemma CarriedIsSafe(decode: Decoder, p: Pair, events: seq<Event>)
    requires p.confirmed <= |p.all| && forall e :: e in events && Heard(e) ==> Carries(e)
    ensures NothingLost(decode, p, events)
  {}

  /** Where readings are not printed, one reading and one answered upload lose it: the client takes it to have arrived, and
      the server has nothing. */
  lemma LostWithoutReadings(decode: Decoder, r: ClientRecord, e: Event)
    requires Heard(e) && !UB.Prints(e.mode)
    ensures Replay(decode, NEW_PAIR, [Reading(r, true), e]) == Pair([r.(synced := false)], [], 1, [])
    ensures !NothingLost(decode, NEW_PAIR, [Reading(r, true), e])
    ensures !AllArrived(Replay(decode, NEW_PAIR, [Reading(r, true), e]))
  {
    var events := [Reading(r, true), e];
    ReplayNext(decode, NEW_PAIR, events, 0);
    ReplayNext(decode, NEW_PAIR, events, 1);
    assert events[..0] == [] && events[..2] == events;
    assert !SafeAt(decode, NEW_PAIR, events, 1);
    assert 0 !in Flatten(Replay(decode, NEW_PAIR, events).batches);
  }

  // ----- the client's ring

  /** The record at a position of the client's history as it stands in the ring: flagged once it is confirmed. */
  function Shown(p: Pair, x: nat): ClientRecord
    requires x < |p.all|
  {
    if x < p.confirmed then p.all[x].(synced := true) else p.all[x]
  }

  /** The ring shows exactly the client's last records. */
  ghost predicate RingShows(records: seq<ClientRecord>, writeIdx: u32, max: u32, p: Pair) {
    && writeIdx < max && |records| <= max && |records| <= |p.all| && (|records| < max ==> |records| == |p.all|)
    && forall s: nat | s < |records| :: SlotShows(records, writeIdx, max, p, s)
  }

  ghost predicate SlotShows(records: seq<ClientRecord>, writeIdx: u32, max: u32, p: Pair, s: nat)
    requires writeIdx < max && |records| <= max && s < |records|
  {
    var age := Age(writeIdx, max, s);
    age <= |p.all| && records[s] == Shown(p, |p.all| - age)
  }

  ghost predicate TakenUnsynced(p: Pair) {
    forall x: nat | x < |p.all| :: !p.all[x].synced
  }

  lemma ShowsAfterTake(records: seq<ClientRecord>, writeIdx: u32, max: u32, p: Pair, r: ClientRecord)
    requires p.confirmed <= |p.all| && writeIdx <= |records| && (|records| < max ==> writeIdx == |records|)
    requires RingShows(records, writeIdx, max, p)
    ensures RingShows(Written(records, writeIdx, r.(synced := false)), Slot(writeIdx + 1, max), max, Taken(p, r))
  {
    var now, q, next := Written(records, writeIdx, r.(synced := false)), Taken(p, r), Slot(writeIdx + 1, max);
    forall s: nat | s < |now| ensures SlotShows(now, next, max, q, s) {
      AgeGrows(writeIdx, max, s);
      if s != writeIdx {
        assert SlotShows(records, writeIdx, max, p, s);
        ShownStays(p, r, |p.all| - Age(writeIdx, max, s));
      }
    }
  }

  lemma AgeGrows(writeIdx: u32, max: u32, s: nat)
    requires writeIdx < max && s < max
    ensures Age(Slot(writeIdx + 1, max), max, s) == if s == writeIdx then 1 else Age(writeIdx, max, s) + 1
  {}

  lemma ShownStays(p: Pair, r: ClientRecord, x: nat)
    requires p.confirmed <= |p.all| && x < |p.all|
    ensures Shown(Taken(p, r), x) == Shown(p, x)
  {}

  lemma ShowsAfterMark(was: seq<ClientRecord>, now: seq<ClientRecord>, writeIdx: u32, max: u32, marked: nat, p: Pair, q: Pair)
    requires p.confirmed <= |p.all| && q.all == p.all && q.confirmed == p.confirmed + marked <= |p.all|
    requires RingShows(was, writeIdx, max, p)
    requires |p.all| - p.confirmed <= max && Marked(was, now, writeIdx, max, |p.all| - p.confirmed, marked)
    ensures RingShows(now, writeIdx, max, q)
  {
    forall s: nat | s < |now| ensures SlotShows(now, writeIdx, max, q, s) {
      assert SlotShows(was, writeIdx, max, p, s);
    }
  }

  /** The marked record is one the client took, and its position is among those the server has. */
  ghost predicate HasArrived(r: ClientRecord, all: seq<ClientRecord>, src: seq<nat>) {
    exists k :: 0 <= k < |src| && src[k] < |all| && r == all[src[k]].(synced := true)
  }

  /** Every flag in the ring is backed by a copy at the server. */
  ghost predicate FlagsArrived(records: seq<ClientRecord>, p: Pair) {
    forall s: nat | s < |records| && records[s].synced :: HasArrived(records[s], p.all, Flatten(p.batches))
  }

  lemma ArrivedFlags(records: seq<ClientRecord>, writeIdx: u32, max: u32, p: Pair)
    requires RingShows(records, writeIdx, max, p) && TakenUnsynced(p) && AllArrived(p)
    ensures FlagsArrived(records, p)
  {
    var src := Flatten(p.batches);
    forall s: nat | s < |records| && records[s].synced ensures HasArrived(records[s], p.all, src) {
      assert SlotShows(records, writeIdx, max, p, s);
      var x := |p.all| - Age(writeIdx, max, s);
      assert records[s] == Shown(p, x) && x < p.confirmed;
      assert x in src;
      var k :| 0 <= k < |src| && src[k] == x;
    }
  }

  // ----- without any bound on the unsynced window

  /** The server has a copy of the flagged record. */
  ghost predicate HasCopy(decode: Decoder, r: ClientRecord, h: seq<DS.Record>) {
    exists k :: 0 <= k < |h| && IsCopy(decode, r.(synced := false), h[k])
  }

  /** Every flag in the ring stands on a record the server has a copy of. */
  ghost predicate Backed(decode: Decoder, records: seq<ClientRecord>, h: seq<DS.Record>) {
    forall s: nat | s < |records| && records[s].synced :: HasCopy(decode, records[s], h)
  }

  lemma BackedAfterTake(decode: Decoder, records: seq<ClientRecord>, slot: nat, r: ClientRecord, h: seq<DS.Record>)
    requires slot <= |records| && Backed(decode, records, h)
    ensures Backed(decode, Written(records, slot, r.(synced := false)), h)
  {
    var now := Written(records, slot, r.(synced := false));
    forall s: nat | s < |now| && now[s].synced ensures HasCopy(decode, now[s], h) {
      assert HasCopy(decode, records[s], h);
    }
  }

  lemma CopyStays(decode: Decoder, r: ClientRecord, h: seq<DS.Record>, more: seq<DS.Record>)
    requires HasCopy(decode, r, h)
    ensures HasCopy(decode, r, h + more)
  {
    var k :| 0 <= k < |h| && IsCopy(decode, r.(synced := false), h[k]);
    assert (h + more)[k] == h[k];
  }

  /** A batch that arrives backs all the flags set on its records. */
  lemma BackedAfterExchange(decode: Decoder, was: seq<ClientRecord>, now: seq<ClientRecord>, batch: seq<ClientRecord>,
                            h: seq<DS.Record>, clock: nat -> u32)
    requires Backed(decode, was, h) && FlaggedIn(was, now, batch)
    ensures Backed(decode, now, h + Delivered(decode, batch, clock, ACCEPT_ALL))
  {
    var d := Delivered(decode, batch, clock, ACCEPT_ALL);
    forall s: nat | s < |now| && now[s].synced ensures HasCopy(decode, now[s], h + d) {
      if now[s] == was[s] {
        CopyStays(decode, now[s], h, d);
      } else {
        var p :| 0 <= p < |batch| && batch[p] == was[s];
        DeliveredCopies(decode, batch, clock, ACCEPT_ALL, p);
        assert (h + d)[|h| + p] == d[p] && now[s].(synced := false) == was[s];
      }
    }
  }
}
