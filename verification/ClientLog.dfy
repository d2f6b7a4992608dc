/** The client's on-flash ring of readings with its sliding window of unsynced ones. */
module ClientLog {
  import opened Ring
  import opened Sequences

  type u8 = v: int | 0 <= v < 0x100
  type u16 = v: int | 0 <= v < 0x1_0000
  type u32 = v: int | 0 <= v < 0x1_0000_0000

  datatype ClientRecord = ClientRecord(timestamp: int, uptime: u32, temperature: real, humidity: real,
                                       eco2: u16, tvoc: u16, aqi: u8, synced: bool)

  /** The slot the unsynced window starts in, in the source's unsigned arithmetic. */
  function StartOf(writeIdx: u32, max: u32, unsynced: u32): (s: u32)
    requires 0 < max < 0x8000_0000 && writeIdx < max
    ensures s < max
  {
    (writeIdx + max - unsynced) % 0x1_0000_0000 % max
  }

  /** The i-th slot from start. */
  function SlotAt(start: u32, i: nat, max: u32): (s: u32)
    requires start < max
    ensures s < max
  {
    (start + i) % 0x1_0000_0000 % max
  }

  /** Both are plain ring arithmetic while the window is no longer than the ring. */
  lemma StartInRing(writeIdx: u32, max: u32, unsynced: u32)
    requires 0 < max < 0x8000_0000 && writeIdx < max && unsynced <= max
    ensures StartOf(writeIdx, max, unsynced) == Slot(writeIdx + max - unsynced, max)
  {
    SlotIsRemainder(writeIdx + max - unsynced, max);
  }

  lemma SlotInRing(start: u32, i: nat, max: u32)
    requires start < max < 0x8000_0000 && i < max
    ensures SlotAt(start, i, max) == Slot(start + i, max)
  {
    SlotIsRemainder(start + i, max);
  }

  /** Slot back: the slot of the record appended that many records ago. */
  function Back(writeIdx: u32, max: u32, back: nat): u32
    requires writeIdx < max && 1 <= back <= max
  {
    Slot(writeIdx + max - back, max)
  }

  /** The slot that many records back holds that record of the window. */
  ghost predicate Holds(records: seq<ClientRecord>, writeIdx: u32, max: u32, window: seq<ClientRecord>, back: nat)
    requires writeIdx < max && 1 <= back <= max && back <= |window|
  {
    var s := Back(writeIdx, max, back);
    s < |records| && records[s] == window[|window| - back]
  }

  /** The ring holds as much of the window as it has room for, ending at the cursor. */
  ghost predicate RingHolds(records: seq<ClientRecord>, writeIdx: u32, max: u32, window: seq<ClientRecord>)
    requires writeIdx < max
  {
    forall back | 1 <= back <= |window| && back <= max :: Holds(records, writeIdx, max, window, back)
  }

  lemma RingHoldsAppended(records: seq<ClientRecord>, writeIdx: u32, max: u32, window: seq<ClientRecord>, rec: ClientRecord)
    requires writeIdx < max && writeIdx <= |records| && RingHolds(records, writeIdx, max, window)
    ensures RingHolds(Written(records, writeIdx, rec), Slot(writeIdx + 1, max), max, window + [rec])
  {
    var records' := Written(records, writeIdx, rec);
    var w' := Slot(writeIdx + 1, max);
    forall back | 1 <= back <= |window| + 1 && back <= max ensures Holds(records', w', max, window + [rec], back) {
      if back > 1 {
        assert Holds(records, writeIdx, max, window, back - 1);
      }
    }
  }

  ghost predicate Distinct(window: seq<ClientRecord>) {
    forall j, k | 0 <= j < k < |window| :: window[j] != window[k]
  }

  /** Once the window is longer than the ring, every slot holds one of its later records. */
  lemma SlotIsLate(records: seq<ClientRecord>, writeIdx: u32, max: u32, window: seq<ClientRecord>, s: nat) returns (k: nat)
    requires writeIdx < max && s < max < |window| && RingHolds(records, writeIdx, max, window)
    ensures 1 <= k < |window| && s < |records| && records[s] == window[k]
  {
    var back := if s < writeIdx then writeIdx - s else writeIdx + max - s;
    assert Holds(records, writeIdx, max, window, back);
    k := |window| - back;
  }

  function FirstN(s: seq<ClientRecord>, n: int): (front: seq<ClientRecord>)
    ensures front <= s && |front| == if n < 0 then 0 else if n < |s| then n else |s|
  {
    if n <= 0 then [] else if |s| <= n then s else s[..n]
  }

  class Log {
    var open: bool
    const maxRecords: u32
    var writeIdx: u32
    var totalWritten: u32
    var unsyncedCount: u32
    var records: seq<ClientRecord>
    /** The records appended and not yet marked, oldest first. */
    ghost var pending: seq<ClientRecord>
    /** No record has been marked while the window was longer than the ring. */
    ghost var intact: bool

    ghost predicate Valid()
      reads this
    {
      && 0 < maxRecords < 0x8000_0000 && writeIdx < maxRecords
      && writeIdx <= |records| <= maxRecords && (|records| < maxRecords ==> writeIdx == |records|)
      && unsyncedCount == |pending|
      && (intact ==>
            && (|records| < maxRecords ==> |pending| <= |records|)
            && (forall k | 0 <= k < |pending| :: !pending[k].synced)
            && RingHolds(records, writeIdx, maxRecords, pending))
    }

    /** The window fits the ring, which is when its claims hold. */
    ghost predicate InCapacity()
      reads this
    {
      intact && |pending| <= maxRecords
    }

    /** A new data file, as data_storage_init creates it. */
    constructor (maxRecords: u32)
      requires 0 < maxRecords < 0x8000_0000
      ensures Valid() && InCapacity() && open && pending == [] && records == [] && this.maxRecords == maxRecords
    {
      this.maxRecords := maxRecords;
      open := true;
      writeIdx, totalWritten, unsyncedCount := 0, 0, 0;
      records, pending, intact := [], [], true;
    }

    /** apps/client/main/data_storage.c: data_storage_append. writes says whether the flash accepts the record. */
    method Append(record: ClientRecord, writes: bool) returns (err: int)
      requires Valid() && |pending| < 0xFFFF_FFFF
      modifies this
      ensures Valid() && open == old(open) && intact == old(intact)
      ensures err == if old(open) && writes then 0 else -1
      ensures err == 0 ==> pending == old(pending) + [record.(synced := false)] && totalWritten == (old(totalWritten) + 1) % 0x1_0000_0000
      ensures err == 0 ==> writeIdx == Slot(old(writeIdx) + 1, maxRecords) && records == Written(old(records), old(writeIdx), record.(synced := false))
      ensures err != 0 ==> pending == old(pending) && records == old(records) && writeIdx == old(writeIdx) && totalWritten == old(totalWritten)
    {
      if !open {
        return -1;
      }
      var rec := record.(synced := false);
      if !writes {
        return -1;
      }
      if intact {
        RingHoldsAppended(records, writeIdx, maxRecords, pending, rec);
      }
      records := Written(records, writeIdx, rec);
      writeIdx := Slot(writeIdx + 1, maxRecords);
      totalWritten := (totalWritten + 1) % 0x1_0000_0000;
      unsyncedCount := unsyncedCount + 1;
      pending := pending + [rec];
      return 0;
    }

    /** apps/client/main/data_storage.c: data_storage_read_unsynced. In capacity it returns the front of the window; and for
        distinct records it does so only in capacity. */
    method ReadUnsynced(max: int) returns (out: seq<ClientRecord>)
      requires Valid()
      ensures !open ==> out == []
      ensures open && InCapacity() ==> out == FirstN(pending, max)
      ensures forall k | 0 <= k < |out| :: !out[k].synced && Seen(records, StartOf(writeIdx, maxRecords, unsyncedCount), maxRecords, k, out)
      ensures open && intact && max >= 1 && pending != [] && Distinct(pending) ==>
                (out == FirstN(pending, max) <==> InCapacity())
    {
      out := [];
      if !open || unsyncedCount == 0 {
        return;
      }
      out := ReadWindow(records, writeIdx, maxRecords, unsyncedCount, pending, intact, max);
    }

    /** apps/client/main/data_storage.c: data_storage_mark_synced. It only ever sets flags and shortens the window by as many;
        in capacity it marks exactly the front of the window and takes it off. */
    method MarkSynced(count: int) returns (marked: nat)
      requires Valid()
      modifies this
      ensures Valid() && open == old(open) && writeIdx == old(writeIdx) && totalWritten == old(totalWritten)
      ensures !open || count <= 0 ==> marked == 0 && records == old(records) && intact == old(intact)
      ensures marked <= |old(pending)| && pending == old(pending)[marked..]
      ensures FlaggedFrom(old(records), records, StartOf(writeIdx, maxRecords, old(unsyncedCount)), maxRecords, count)
      ensures old(open) && old(InCapacity()) && count > 0 ==>
        && InCapacity()
        && marked == |FirstN(old(pending), count)|
        && Marked(old(records), records, writeIdx, maxRecords, |old(pending)|, marked)
    {
      if !open || count <= 0 {
        return 0;
      }
      ghost var held := InCapacity();
      ghost var was := records;
      records, marked := MarkWindow(records, writeIdx, maxRecords, unsyncedCount, pending, held, count);
      if marked > 0 {
        if held {
          WindowShortened(was, records, writeIdx, maxRecords, pending, marked);
        }
        unsyncedCount := unsyncedCount - marked;
        pending := pending[marked..];
        intact := held;
      }
    }
  }

  /** The window as the log's invariant has it. */
  ghost predicate Unsynced(records: seq<ClientRecord>, writeIdx: u32, max: u32, window: seq<ClientRecord>)
    requires writeIdx < max
  {
    RingHolds(records, writeIdx, max, window) && forall k | 0 <= k < |window| :: !window[k].synced
  }

  /** In capacity the i-th slot of the scan holds the i-th record of the window. */
  lemma WindowNext(records: seq<ClientRecord>, writeIdx: u32, max: u32, window: seq<ClientRecord>, i: nat)
    requires writeIdx < max < 0x8000_0000 && i < |window| <= max && Unsynced(records, writeIdx, max, window)
    ensures var s := SlotAt(StartOf(writeIdx, max, |window|), i, max);
      s < |records| && !records[s].synced && window[..i] + [records[s]] == window[..i + 1]
  {
    StartInRing(writeIdx, max, |window|);
    SlotInRing(StartOf(writeIdx, max, |window|), i, max);
    assert Holds(records, writeIdx, max, window, |window| - i);
  }

  /** The loop of data_storage_read_unsynced. */
  method ReadWindow(records: seq<ClientRecord>, writeIdx: u32, maxRecords: u32, unsynced: u32,
                    ghost window: seq<ClientRecord>, ghost intact: bool, max: int)
    returns (out: seq<ClientRecord>)
    requires writeIdx < maxRecords < 0x8000_0000 && unsynced == |window| > 0
    requires intact ==> Unsynced(records, writeIdx, maxRecords, window)
    ensures forall k | 0 <= k < |out| :: !out[k].synced && Seen(records, StartOf(writeIdx, maxRecords, unsynced), maxRecords, k, out)
    ensures intact && |window| <= maxRecords ==> out == FirstN(window, max)
    ensures intact && max >= 1 && Distinct(window) ==> (out == FirstN(window, max) <==> |window| <= maxRecords)
  {
    var start := StartOf(writeIdx, maxRecords, unsynced);
    out := [];
    var i := 0;
    ghost var late := intact && |window| > maxRecords;
    ghost var k := 0;
    if late {
      k := SlotIsLate(records, writeIdx, maxRecords, window, start);
    }
    while i < unsynced && |out| < max
      invariant 0 <= i <= unsynced && (out == [] || |out| <= max)
      invariant SeenUpTo(records, start, maxRecords, i, out)
      invariant intact && !late ==> out == window[..i]
      invariant late ==> if i == 0 then out == [] else out != [] && out[0] == window[k]
    {
      var idx := SlotAt(start, i, maxRecords);
      if intact && !late {
        WindowNext(records, writeIdx, maxRecords, window, i);
      }
      if i == 0 {
        SlotInRing(start, 0, maxRecords);
      }
      SeenNext(records, start, maxRecords, i, out);
      if idx < |records| && !records[idx].synced {
        out := out + [records[idx]];
      }
      i := i + 1;
    }
  }

  /** The scan has looked at i slots. */
  ghost predicate SeenUpTo(records: seq<ClientRecord>, start: u32, max: u32, i: nat, out: seq<ClientRecord>)
    requires start < max
  {
    && |out| <= i && (forall k | 0 <= k < |out| :: !out[k].synced)
    && forall k: nat | k < i :: Seen(records, start, max, k, out)
  }

  lemma SeenNext(records: seq<ClientRecord>, start: u32, max: u32, i: nat, out: seq<ClientRecord>)
    requires start < max && SeenUpTo(records, start, max, i, out)
    ensures var s := SlotAt(start, i, max);
      SeenUpTo(records, start, max, i + 1, if s < |records| && !records[s].synced then out + [records[s]] else out)
  {
    var s := SlotAt(start, i, max);
    var next := if s < |records| && !records[s].synced then out + [records[s]] else out;
    forall k: nat | k < i + 1 ensures Seen(records, start, max, k, next) {
      if k < i {
        assert Seen(records, start, max, k, out);
      }
    }
  }

  /** The k-th slot of the scan has been looked at: if it held an unsynced record, that is among those read. */
  ghost predicate Seen(records: seq<ClientRecord>, start: u32, max: u32, k: nat, out: seq<ClientRecord>)
    requires start < max
  {
    var s := SlotAt(start, k, max);
    s < |records| && !records[s].synced ==> records[s] in out
  }

  /** The slot is one of the first count of a scan from start. */
  ghost predicate Visited(start: u32, max: u32, count: int, s: nat)
    requires start < max
  {
    exists k: nat :: k < count && SlotAt(start, k, max) == s
  }

  /** Nothing but flags of visited, unsynced slots has been set. */
  ghost predicate FlaggedFrom(was: seq<ClientRecord>, now: seq<ClientRecord>, start: u32, max: u32, count: int)
    requires start < max
  {
    |was| == |now| && forall s: nat | s < |now| ::
      now[s] == was[s] || (now[s] == was[s].(synced := true) && !was[s].synced && Visited(start, max, count, s))
  }

  lemma FlaggedNext(was: seq<ClientRecord>, now: seq<ClientRecord>, start: u32, max: u32, count: int, i: nat)
    requires start < max && i < count && FlaggedFrom(was, now, start, max, count)
    ensures var s := SlotAt(start, i, max);
      s < |now| && !now[s].synced ==> FlaggedFrom(was, now[s := now[s].(synced := true)], start, max, count)
  {
    assert Visited(start, max, count, SlotAt(start, i, max));
  }

  /** Nothing but flags has been set, and only on unsynced records of the batch. */
  ghost predicate FlaggedIn(was: seq<ClientRecord>, now: seq<ClientRecord>, batch: seq<ClientRecord>) {
    |was| == |now| && forall s: nat | s < |now| ::
      now[s] == was[s] || (now[s] == was[s].(synced := true) && !was[s].synced && was[s] in batch)
  }

  /** Marking as many slots as records were read flags only records that were read, however long the window: the scan that
      read them has looked at no fewer slots. */
  lemma OnlyReadIsFlagged(was: seq<ClientRecord>, now: seq<ClientRecord>, start: u32, max: u32, batch: seq<ClientRecord>)
    requires start < max && FlaggedFrom(was, now, start, max, |batch|)
    requires forall k | 0 <= k < |batch| :: Seen(was, start, max, k, batch)
    ensures FlaggedIn(was, now, batch)
  {
    forall s: nat | s < |now| && now[s] != was[s] ensures was[s] in batch {
      var k: nat :| k < |batch| && SlotAt(start, k, max) == s;
      assert Seen(was, start, max, k, batch);
    }
  }

  /** The loop of data_storage_mark_synced. */
  method MarkWindow(records0: seq<ClientRecord>, writeIdx: u32, maxRecords: u32, unsynced: u32,
                    ghost window: seq<ClientRecord>, ghost held: bool, count: int)
    returns (records: seq<ClientRecord>, marked: nat)
    requires writeIdx < maxRecords < 0x8000_0000 && unsynced == |window| && count > 0
    requires held ==> |window| <= maxRecords && |records0| <= maxRecords && Unsynced(records0, writeIdx, maxRecords, window)
    ensures FlaggedFrom(records0, records, StartOf(writeIdx, maxRecords, unsynced), maxRecords, count)
    ensures marked <= unsynced && (marked == 0 ==> records == records0)
    ensures held ==> marked == |FirstN(window, count)|
    ensures held ==> Marked(records0, records, writeIdx, maxRecords, |window|, marked)
  {
    records, marked := records0, 0;
    var start := StartOf(writeIdx, maxRecords, unsynced);
    if unsynced <= maxRecords {
      StartInRing(writeIdx, maxRecords, unsynced);
    }
    var limit: int := if unsynced < 0x8000_0000 then unsynced else unsynced - 0x1_0000_0000;
    var i := 0;
    while i < count && i < limit
      invariant 0 <= i && (i == 0 || i <= limit) && i <= count
      invariant marked <= i && FlaggedFrom(records0, records, start, maxRecords, count) && (marked == 0 ==> records == records0)
      invariant held ==> marked == i && Marked(records0, records, writeIdx, maxRecords, |window|, i)
    {
      var idx := SlotAt(start, i, maxRecords);
      if i < maxRecords {
        SlotInRing(start, i, maxRecords);
      }
      FlaggedNext(records0, records, start, maxRecords, count, i);
      if held {
        MarkNext(records0, records, writeIdx, maxRecords, window, i);
      }
      if idx < |records| && !records[idx].synced {
        records := records[idx := records[idx].(synced := true)];
        marked := marked + 1;
      }
      i := i + 1;
    }
  }

  /** How many records ago this slot was last written, counted from the cursor. */
  function Age(writeIdx: u32, max: u32, s: nat): (back: nat)
    requires writeIdx < max && s < max
    ensures 1 <= back <= max && Back(writeIdx, max, back) == s
  {
    if s < writeIdx then writeIdx - s else writeIdx + max - s
  }

  /** Exactly the slots of the first i records of a window of this length have been marked, and no other slot has changed. */
  ghost predicate Marked(was: seq<ClientRecord>, now: seq<ClientRecord>, writeIdx: u32, max: u32, length: nat, i: nat)
    requires writeIdx < max && i <= length <= max
  {
    && |was| == |now| <= max
    && forall s: nat | s < |now| ::
         now[s] == if length - i < Age(writeIdx, max, s) <= length then was[s].(synced := true) else was[s]
  }

  lemma MarkNext(was: seq<ClientRecord>, now: seq<ClientRecord>, writeIdx: u32, max: u32, window: seq<ClientRecord>, i: nat)
    requires writeIdx < max && i < |window| <= max
    requires Unsynced(was, writeIdx, max, window) && Marked(was, now, writeIdx, max, |window|, i)
    ensures var s := Back(writeIdx, max, |window| - i);
      s < |now| && !now[s].synced && Marked(was, now[s := now[s].(synced := true)], writeIdx, max, |window|, i + 1)
  {
    var s := Back(writeIdx, max, |window| - i);
    assert Holds(was, writeIdx, max, window, |window| - i);
    assert Age(writeIdx, max, s) == |window| - i;
  }

  lemma WindowShortened(was: seq<ClientRecord>, now: seq<ClientRecord>, writeIdx: u32, max: u32, window: seq<ClientRecord>, i: nat)
    requires writeIdx < max && i <= |window| <= max
    requires RingHolds(was, writeIdx, max, window) && Marked(was, now, writeIdx, max, |window|, i)
    ensures RingHolds(now, writeIdx, max, window[i..])
  {
    forall back | 1 <= back <= |window| - i ensures Holds(now, writeIdx, max, window[i..], back) {
      assert Holds(was, writeIdx, max, window, back);
      assert Age(writeIdx, max, Back(writeIdx, max, back)) == back;
    }
  }
}
