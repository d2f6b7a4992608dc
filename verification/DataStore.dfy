/** The server's per-client ring files, and the queries on them. */
module DataStore {
  import opened Arith
  import opened Ring
  import opened Sequences
  import opened Wrappers

  type u8 = v: int | 0 <= v < 0x100
  type u16 = v: int | 0 <= v < 0x1_0000
  type u32 = v: int | 0 <= v < 0x1_0000_0000
  type i16 = v: int | -0x8000 <= v < 0x8000

  const MAGIC: u32 := 0x44415441
  const VERSION: u8 := 1

  datatype Record = Record(timestamp: u32, temp: i16, hum: u16, eco2: u16, tvoc: u16, aqi: u8)

  datatype Header = Header(magic: u32, version: u8, clientId: string, maxRecords: u32, writeIdx: u32, count: u32)

  /** A file on flash: its header, if it is long enough to have one, and the records behind it. */
  datatype File = File(header: Option<Header>, records: seq<Record>) {
    /** The header the store recognises. */
    predicate Recognised() {
      header.Some? && header.value.magic == MAGIC
    }

    /** What every successful operation keeps: the ring's cursor and count agree with the records behind it. */
    ghost predicate Valid() {
      Recognised() ==>
        var h := header.value;
        h.maxRecords < 0x8000_0000 && RingValid(records, h.maxRecords, h.writeIdx, h.count)
    }

    /** The records of the ring from the oldest to the newest. */
    ghost function Window(): seq<Record>
      requires Valid()
    {
      if !Recognised() then []
      else RingWindow(records, header.value.maxRecords, header.value.writeIdx, header.value.count)
    }
  }

  ghost predicate RingValid(records: seq<Record>, max: nat, w: nat, count: nat) {
    0 < max && w < max && count <= max && count <= |records| && (count < max ==> w == count)
  }

  /** The logical content of a ring with cursor w. */
  ghost function RingWindow(records: seq<Record>, max: nat, w: nat, count: nat): seq<Record>
    requires RingValid(records, max, w, count)
  {
    if count < max then records[..count] else records[w..max] + records[..w]
  }

  /** Writing at the cursor and advancing it slides the window by one record. */
  lemma RingSlides(records: seq<Record>, max: nat, w: nat, count: nat, rec: Record)
    requires RingValid(records, max, w, count)
    ensures var records', w', count' := Written(records, w, rec), Slot(w + 1, max), if count < max then count + 1 else count;
      && RingValid(records', max, w', count')
      && RingWindow(records', max, w', count') == LastN(RingWindow(records, max, w, count) + [rec], max)
  {}

  /** One more record in a window of at most max: the oldest one goes when there is no room. */
  lemma AppendedWindow(w: seq<Record>, rec: Record, max: nat)
    requires |w| <= max && max > 0
    ensures LastN(w + [rec], max) == (if |w| < max then w else w[1..]) + [rec]
  {}

  /** What strncpy keeps of an id in the header's field. */
  function IdField(id: string): string {
    if |id| < 32 then id else id[..31]
  }

  /** The rename goes ahead: there is a recognised file to copy and the copy can be created. */
  predicate Renames(files: map<string, File>, oldId: string, newId: string, opens: bool) {
    oldId != "" && newId != "" && oldId != newId && oldId in files && files[oldId].Recognised() && opens
  }

  /** The files after data_store_rename_client: the old file under the new name, in place of whatever had that name. */
  function RenamedFiles(files: map<string, File>, oldId: string, newId: string, opens: bool): map<string, File> {
    if Renames(files, oldId, newId, opens) then
      (files - {oldId})[newId := files[oldId].(header := Some(files[oldId].header.value.(clientId := IdField(newId))))]
    else files
  }

  /** Everything appended for a client so far. */
  ghost function HistoryOf(history: map<string, seq<Record>>, id: string): seq<Record> {
    if id in history then history[id] else []
  }

  ghost function RenamedHistory(files: map<string, File>, history: map<string, seq<Record>>, oldId: string, newId: string, opens: bool)
    : map<string, seq<Record>>
  {
    if Renames(files, oldId, newId, opens) then (history - {oldId})[newId := HistoryOf(history, oldId)] else history
  }

  class Store {
    const maxPerClient: u32
    var files: map<string, File>
    /** Everything ever appended under an id since its file was created. */
    ghost var history: map<string, seq<Record>>

    ghost predicate Valid()
      reads this
    {
      && 0 < maxPerClient < 0x8000_0000
      && files.Keys == history.Keys
      && forall id | id in files :: Refines(files[id], history[id])
    }

    /** The file holds the last records of the history, as many as its ring has room for. */
    ghost predicate Refines(f: File, h: seq<Record>)
    {
      f.Valid() && (if f.Recognised() then f.Window() == LastN(h, f.header.value.maxRecords) else h == [])
    }

    ghost function WindowOf(id: string): seq<Record>
      requires Valid()
      reads this
    {
      if id in files then files[id].Window() else []
    }

    constructor (maxPerClient: u32)
      requires 0 < maxPerClient < 0x8000_0000
      ensures Valid() && this.maxPerClient == maxPerClient && files == map[]
    {
      this.maxPerClient := maxPerClient;
      files := map[];
      history := map[];
    }

    /** The header a new or unrecognised file gets. */
    function FreshHeader(id: string): Header {
      Header(MAGIC, VERSION, IdField(id), maxPerClient, 0, 0)
    }

    /** Store a client's new file image together with the history it refines. */
    method Put(id: string, f: File, ghost h: seq<Record>)
      requires Valid() && Refines(f, h)
      modifies this
      ensures Valid() && files == old(files)[id := f] && history == old(history)[id := h]
    {
      files := files[id := f];
      history := history[id := h];
    }

    /** apps/server/main/data_store.c: data_store_append. opens says whether the file can be opened or created. */
    method Append(id: string, rec: Record, opens: bool) returns (err: int)
      requires Valid()
      modifies this
      ensures Valid()
      ensures !opens ==> err == -1 && files == old(files) && history == old(history)
      ensures opens ==>
        && err == 0
        && history == old(history)[id := HistoryOf(old(history), id) + [rec]]
        && id in files && files == old(files)[id := files[id]] && files[id].Recognised()
        && WindowOf(id) == LastN(old(WindowOf(id)) + [rec], files[id].header.value.maxRecords)
      ensures opens && id in old(files) && old(files)[id].Recognised() ==>
        var w, max := old(WindowOf(id)), old(files)[id].header.value.maxRecords;
        && files[id].header.value.maxRecords == max
        && WindowOf(id) == (if |w| < max then w else w[1..]) + [rec]
      ensures opens && (id !in old(files) || old(files)[id].header.None? || old(files)[id].header.value.magic != 0x4441_5441) ==>
        files[id].header.value.maxRecords == maxPerClient && WindowOf(id) == [rec]
    {
      if !opens {
        return -1;
      }
      var f := if id in files then files[id] else File(None, []);
      var header := if f.Recognised() then f.header.value else FreshHeader(id);
      ghost var w := WindowOf(id);
      AppendTo(id, f.records, header, rec, w, HistoryOf(history, id));
      AppendedWindow(w, rec, header.maxRecords);
      return 0;
    }

    /** The part behind the header check: write the record at the cursor, then the header that moved on. */
    method AppendTo(id: string, records: seq<Record>, header: Header, rec: Record, ghost w: seq<Record>, ghost h: seq<Record>)
      requires Valid() && header.magic == MAGIC && header.maxRecords < 0x8000_0000
      requires RingValid(records, header.maxRecords, header.writeIdx, header.count)
      requires w == RingWindow(records, header.maxRecords, header.writeIdx, header.count) == LastN(h, header.maxRecords)
      modifies this
      ensures Valid() && id in files && files == old(files)[id := files[id]] && history == old(history)[id := h + [rec]]
      ensures files[id].Recognised() && files[id].header.value.maxRecords == header.maxRecords
      ensures WindowOf(id) == LastN(w + [rec], header.maxRecords)
    {
      var records' := Written(records, header.writeIdx, rec);
      var next := header.(writeIdx := Slot(header.writeIdx + 1, header.maxRecords));
      if header.count < header.maxRecords {
        next := next.(count := header.count + 1);
      }
      RingSlides(records, header.maxRecords, header.writeIdx, header.count, rec);
      LastNSlides(h, rec, header.maxRecords);
      Put(id, File(Some(next), records'), h + [rec]);
    }

    /** apps/server/main/data_store.c: data_store_get_count. */
    method GetCount(id: string) returns (n: u32)
      requires Valid()
      ensures n == |WindowOf(id)|
    {
      if id !in files {
        return 0;
      }
      var f := files[id];
      if !f.Recognised() {
        return 0;
      }
      return f.header.value.count;
    }

    /** apps/server/main/data_store.c: data_store_read_range. The window from offset on, at most limit and capacity records.
        The result is the filled part of the caller's buffer. */
    method ReadRange(id: string, offset: u32, limit: u32, capacity: u32) returns (out: seq<Record>)
      requires Valid()
      ensures out == Slice(WindowOf(id), offset, Min(limit, capacity))
      ensures if offset < |WindowOf(id)|
        then out <= WindowOf(id)[offset..] && |out| == Min(Min(limit, capacity), |WindowOf(id)| - offset)
        else out == []
    {
      var lim := if limit > capacity then capacity else limit;
      if id !in files {
        return [];
      }
      var f := files[id];
      if !f.Recognised() {
        return [];
      }
      var h := f.header.value;
      if offset >= h.count {
        return [];
      }
      var available := h.count - offset;
      if lim > available {
        lim := available;
      }
      out := CopyRange(f, offset, lim);
    }

    /** One probe of the binary search: read a single record and compare it. */
    method Probe(id: string, ghost window: seq<Record>, i: u32, since: u32) returns (found: bool, below: bool)
      requires Valid() && window == WindowOf(id) && i < |window|
      ensures found && below == (window[i].timestamp < since)
    {
      var rec := ReadRange(id, i, 1, 1);
      found := |rec| == 1;
      below := found && rec[0].timestamp < since;
    }

    /** The binary search of data_store_read_since: it reads one record at a time. */
    method FindCut(id: string, ghost window: seq<Record>, since: u32, count: u32) returns (lo: u32)
      requires Valid() && window == WindowOf(id) && count == |window| < 0x8000_0000
      ensures IsCut(window, since, lo)
    {
      var low: int, hi: int := 0, count;
      while low < hi
        invariant 0 <= low <= hi <= count
        invariant low > 0 ==> window[low - 1].timestamp < since
        invariant hi < count ==> window[hi].timestamp >= since
      {
        var mid := (low + hi) / 2;
        var found, below := Probe(id, window, mid, since);
        if !found {
          break;
        }
        if below {
          low := mid + 1;
        } else {
          hi := mid;
        }
      }
      lo := low;
    }

    /** apps/server/main/data_store.c: data_store_read_since. On records in time order the answer is exactly the first records
        at or after since; on any records it starts where the binary search finds the timestamps crossing since. */
    method ReadSince(id: string, since: u32, capacity: u32) returns (out: seq<Record>, ghost cut: nat)
      requires Valid()
      ensures IsCut(WindowOf(id), since, cut)
      ensures out <= WindowOf(id)[cut..] && |out| == Min(capacity, |WindowOf(id)| - cut)
      ensures SortedByTime(WindowOf(id)) ==> forall k | 0 <= k < |WindowOf(id)| :: WindowOf(id)[k].timestamp < since <==> k < cut
      ensures FromCut(WindowOf(id), since, capacity, out)
      ensures SortedByTime(WindowOf(id)) ==> out == Slice(Since(WindowOf(id), since), 0, capacity)
    {
      ghost var w := WindowOf(id);
      out, cut := ReadFromCut(id, w, since, capacity);
      AnswerFromCut(w, since, cut, capacity, out);
      CutSeparates(w, since, cut);
    }

    method ReadFromCut(id: string, ghost w: seq<Record>, since: u32, capacity: u32) returns (out: seq<Record>, ghost cut: nat)
      requires Valid() && w == WindowOf(id)
      ensures IsCut(w, since, cut) && out == Slice(w, cut, capacity)
    {
      var count := GetCount(id);
      if count == 0 || capacity == 0 {
        cut := SomeCut(w, since);
        return [], cut;
      }
      var lo := FindCut(id, w, since, count);
      cut := lo;
      if lo >= count {
        return [], cut;
      }
      var available := count - lo;
      if available > capacity {
        available := capacity;
      }
      out := ReadRange(id, lo, available, capacity);
    }

    /** apps/server/main/data_store.c: data_store_delete_client. */
    method DeleteClient(id: string) returns (err: int)
      requires Valid()
      modifies this
      ensures Valid()
      ensures err == if id in old(files) then 0 else -1
      ensures files == old(files) - {id} && history == old(history) - {id}
    {
      if id !in files {
        return -1;
      }
      files := files - {id};
      history := history - {id};
      return 0;
    }

    /** apps/server/main/data_store.c: data_store_rename_client. opens says whether the new file can be created. */
    method RenameClient(oldId: string, newId: string, opens: bool) returns (err: int)
      requires Valid()
      modifies this
      ensures Valid()
      ensures err == if oldId != "" && newId != "" && (oldId == newId || oldId !in old(files) || (old(files)[oldId].Recognised() && opens))
                     then 0 else -1
      ensures files == RenamedFiles(old(files), oldId, newId, opens)
      ensures history == RenamedHistory(old(files), old(history), oldId, newId, opens)
      ensures oldId != "" && newId != "" && oldId != newId && oldId in old(files) && old(files)[oldId].Recognised() && opens ==>
        && oldId !in files && newId in files && WindowOf(newId) == old(WindowOf(oldId))
        && files[newId].header.value.maxRecords == old(files)[oldId].header.value.maxRecords
        && HistoryOf(history, newId) == HistoryOf(old(history), oldId)
        && files - {oldId, newId} == old(files) - {oldId, newId}
      ensures oldId == "" || newId == "" || oldId == newId || oldId !in old(files) || !old(files)[oldId].Recognised() || !opens ==>
        files == old(files) && history == old(history)
    {
      if oldId == "" || newId == "" {
        return -1;
      }
      if oldId == newId {
        return 0;
      }
      if oldId !in files {
        return 0;
      }
      var f := files[oldId];
      if !f.Recognised() {
        return -1;
      }
      if !opens {
        return -1;
      }
      var header := f.header.value.(clientId := IdField(newId));
      var copied := CopyRecords(f.records);
      assert File(Some(header), copied).Valid() && File(Some(header), copied).Window() == f.Window();
      files := (files - {oldId})[newId := File(Some(header), copied)];
      history := (history - {oldId})[newId := history[oldId]];
      return 0;
    }
  }

  /** The loop of data_store_read_range: the wanted slots of the ring, oldest first. */
  method CopyRange(f: File, offset: u32, limit: u32) returns (out: seq<Record>)
    requires f.Valid() && f.Recognised() && offset + limit <= f.header.value.count
    ensures out == f.Window()[offset..offset + limit]
  {
    var h := f.header.value;
    var start := if h.count < h.maxRecords then offset else Slot(h.writeIdx + offset, h.maxRecords);
    out := [];
    var i := 0;
    while i < limit
      invariant 0 <= i <= limit && out == f.Window()[offset..offset + i]
    {
      var idx := Slot(start + i, h.maxRecords);
      SlotOfWindow(f.records, h.maxRecords, h.writeIdx, h.count, offset, i);
      if idx < |f.records| {
        out := out + [f.records[idx]];
      }
      i := i + 1;
    }
  }

  /** At most n records from offset on. */
  function Slice(w: seq<Record>, offset: nat, n: nat): (out: seq<Record>)
    ensures if offset < |w| then out <= w[offset..] && |out| == Min(n, |w| - offset) else out == []
  {
    if offset >= |w| then []
    else if n < |w| - offset then w[offset..offset + n]
    else w[offset..]
  }

  /** Where the window's records stand in the ring. */
  lemma SlotOfWindow(records: seq<Record>, max: nat, w: nat, count: nat, offset: nat, i: nat)
    requires RingValid(records, max, w, count) && offset + i < count
    ensures var start := if count < max then offset else Slot(w + offset, max);
      var idx := Slot(start + i, max);
      idx < |records| && records[idx] == RingWindow(records, max, w, count)[offset + i]
  {}

  /** The copy loop of data_store_rename_client. */
  method CopyRecords(from: seq<Record>) returns (to: seq<Record>)
    ensures to == from
  {
    to := [];
    var i := 0;
    while i < |from|
      invariant 0 <= i <= |from| && to == from[..i]
    {
      to := to + [from[i]];
      i := i + 1;
    }
  }

  /** An index where the timestamps cross since: everything a binary search can promise about unsorted records. */
  ghost predicate IsCut(w: seq<Record>, since: u32, cut: nat) {
    cut <= |w| && (cut > 0 ==> w[cut - 1].timestamp < since) && (cut < |w| ==> w[cut].timestamp >= since)
  }

  lemma {:induction false} SomeCut(w: seq<Record>, since: u32) returns (cut: nat)
    ensures IsCut(w, since, cut)
    decreases |w|
  {
    if w == [] || w[0].timestamp >= since {
      cut := 0;
    } else {
      var c := SomeCut(w[1..], since);
      cut := c + 1;
    }
  }

  ghost predicate FromCut(w: seq<Record>, since: u32, capacity: nat, out: seq<Record>) {
    exists cut :: IsCut(w, since, cut) && out == Slice(w, cut, capacity)
  }

  lemma AnswerFromCut(w: seq<Record>, since: u32, cut: nat, capacity: nat, out: seq<Record>)
    requires IsCut(w, since, cut) && out == Slice(w, cut, capacity)
    ensures FromCut(w, since, capacity, out)
    ensures SortedByTime(w) ==> out == Slice(Since(w, since), 0, capacity)
  {
    if SortedByTime(w) {
      CutIsFilter(w, since, cut);
    }
  }

  /** In time order a cut has all earlier records before it and all later ones behind it. */
  lemma CutSeparates(w: seq<Record>, since: u32, cut: nat)
    requires IsCut(w, since, cut)
    ensures SortedByTime(w) ==> forall k | 0 <= k < |w| :: w[k].timestamp < since <==> k < cut
  {}

  ghost predicate SortedByTime(w: seq<Record>) {
    forall i, j | 0 <= i < j < |w| :: w[i].timestamp <= w[j].timestamp
  }

  /** The records at or after since, in order. */
  ghost function Since(w: seq<Record>, since: u32): seq<Record> {
    if w == [] then []
    else if w[0].timestamp >= since then [w[0]] + Since(w[1..], since)
    else Since(w[1..], since)
  }

  /** On records in time order the cut separates exactly the records to return. */
  lemma {:induction false} CutIsFilter(w: seq<Record>, since: u32, cut: nat)
    requires SortedByTime(w) && IsCut(w, since, cut)
    ensures w[cut..] == Since(w, since)
  {
    if w != [] {
      if cut > 0 {
        assert IsCut(w[1..], since, cut - 1);
        CutIsFilter(w[1..], since, cut - 1);
        assert w[0].timestamp <= w[cut - 1].timestamp;
        assert w[cut..] == w[1..][cut - 1..];
      } else {
        if |w| > 1 { assert w[0].timestamp <= w[1].timestamp; }
        CutIsFilter(w[1..], since, 0);
        assert w[cut..] == [w[0]] + w[1..];
      }
    }
  }

  /** The ring round trip: what a new client's records are when they are read back. All of them come back, in order, or the
      last ones if they are more than a ring has room for. */
  method ReadBack(store: Store, id: string, recs: seq<Record>, limit: u32, capacity: u32) returns (out: seq<Record>)
    requires store.Valid() && id !in store.files
    modifies store
    ensures store.Valid()
    ensures |out| == Min(Min(limit, capacity), Min(|recs|, store.maxPerClient))
    ensures out <= recs[Max(0, |recs| - store.maxPerClient)..]
  {
    for i := 0 to |recs|
      invariant store.Valid() && (if i == 0 then id !in store.files else HoldsLast(store, id, recs[..i]))
    {
      AppendLast(store, id, recs, i);
    }
    assert recs[..|recs|] == recs;
    out := store.ReadRange(id, 0, limit, capacity);
  }

  method AppendLast(store: Store, id: string, recs: seq<Record>, i: nat)
    requires store.Valid() && i < |recs| && (if i == 0 then id !in store.files else HoldsLast(store, id, recs[..i]))
    modifies store
    ensures store.Valid() && HoldsLast(store, id, recs[..i + 1])
  {
    assert recs[..i + 1] == recs[..i] + [recs[i]];
    LastNSlides(recs[..i], recs[i], store.maxPerClient);
    var err := store.Append(id, recs[i], true);
  }

  ghost predicate HoldsLast(store: Store, id: string, recs: seq<Record>)
    requires store.Valid()
    reads store
  {
    && id in store.files && store.files[id].Recognised() && store.files[id].header.value.maxRecords == store.maxPerClient
    && store.WindowOf(id) == LastN(recs, store.maxPerClient)
  }
}
