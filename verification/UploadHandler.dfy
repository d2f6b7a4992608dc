/** The server's upload handler: store the readings, then register the client. */
module UploadHandler {
  import opened Wrappers
  import opened ClientLog
  import DS = DataStore
  import CR = ClientRegistry

  const EPOCH_2020: u32 := 1577836800

  /** (uint32_t) of a client's timestamp. */
  function U32(v: int): u32 {
    v % 0x1_0000_0000
  }

  /** A client clock that has never been set gets the server's time. */
  function Stamp(timestamp: int, now: u32): u32 {
    if U32(timestamp) > EPOCH_2020 then U32(timestamp) else now
  }

  /** How the readings of a body become stored records, apart from the timestamp; any function. */
  type Decoder = ClientRecord -> DS.Record

  /** The record the handler stores for a reading. */
  function Stored(decode: Decoder, r: ClientRecord, now: u32): DS.Record {
    decode(r).(timestamp := Stamp(r.timestamp, now))
  }

  /** The stored form of the readings the data store accepted, in order; clock and accepts are asked once for each. */
  function Delivered(decode: Decoder, readings: seq<ClientRecord>, clock: nat -> u32, accepts: nat -> bool): seq<DS.Record> {
    if readings == [] then []
    else
      var k := |readings| - 1;
      Delivered(decode, readings[..k], clock, accepts) + if accepts(k) then [Stored(decode, readings[k], clock(k))] else []
  }

  /** Both kinds of reply have status 200: a refusal in plain text, and an acceptance with the number of records stored. The
      500 for a failed allocation or a broken transfer leaves everything as it was; to the client it is an exchange that was
      not delivered. */
  datatype Reply = Refused | Accepted(stored: nat, resolvedId: string, basicMode: bool)

  /** The loop over the readings in upload_post_handler. */
  method AppendAll(store: DS.Store, decode: Decoder, id: string, readings: seq<ClientRecord>, clock: nat -> u32, accepts: nat -> bool)
    returns (count: nat)
    requires store.Valid()
    modifies store
    ensures store.Valid()
    ensures count == |Delivered(decode, readings, clock, accepts)|
    ensures Grown(old(store.files), store.files, old(store.history), store.history, id, Delivered(decode, readings, clock, accepts))
  {
    count := 0;
    var k := 0;
    assert readings[..0] == [];
    while k < |readings|
      invariant 0 <= k <= |readings| && store.Valid()
      invariant count == |Delivered(decode, readings[..k], clock, accepts)|
      invariant Grown(old(store.files), store.files, old(store.history), store.history, id, Delivered(decode, readings[..k], clock, accepts))
    {
      DeliveredNext(decode, readings, k, clock, accepts);
      ghost var files, history := store.files, store.history;
      var err := store.Append(id, Stored(decode, readings[k], clock(k)), accepts(k));
      if accepts(k) {
        GrownStep(old(store.files), files, store.files, old(store.history), history, store.history, id,
                  Delivered(decode, readings[..k], clock, accepts), Stored(decode, readings[k], clock(k)));
      }
      k := k + 1;
      if err != 0 {
        continue;
      }
      count := count + 1;
    }
    assert readings[..k] == readings;
  }

  lemma DeliveredNext(decode: Decoder, readings: seq<ClientRecord>, k: nat, clock: nat -> u32, accepts: nat -> bool)
    requires k < |readings|
    ensures Delivered(decode, readings[..k + 1], clock, accepts) ==
            if accepts(k) then Delivered(decode, readings[..k], clock, accepts) + [Stored(decode, readings[k], clock(k))]
            else Delivered(decode, readings[..k], clock, accepts)
  {
    assert readings[..k + 1][..k] == readings[..k];
  }

  /** Only this client's file has changed, and its history has grown by these records. */
  ghost predicate Grown(files: map<string, DS.File>, files': map<string, DS.File>,
                        history: map<string, seq<DS.Record>>, history': map<string, seq<DS.Record>>, id: string, added: seq<DS.Record>)
  {
    if added == [] then files' == files && history' == history
    else id in files' && files' == files[id := files'[id]] && history' == history[id := DS.HistoryOf(history, id) + added]
  }

  lemma GrownStep(f: map<string, DS.File>, f1: map<string, DS.File>, f2: map<string, DS.File>,
                  h: map<string, seq<DS.Record>>, h1: map<string, seq<DS.Record>>, h2: map<string, seq<DS.Record>>,
                  id: string, added: seq<DS.Record>, rec: DS.Record)
    requires Grown(f, f1, h, h1, id, added)
    requires id in f2 && f2 == f1[id := f2[id]] && h2 == h1[id := DS.HistoryOf(h1, id) + [rec]]
    ensures Grown(f, f2, h, h2, id, added + [rec])
  {
    if added != [] {
      assert (DS.HistoryOf(h, id) + added) + [rec] == DS.HistoryOf(h, id) + (added + [rec]);
    } else {
      assert added + [rec] == [rec];
    }
  }

  /** Renaming another client's file to this id after the batch was stored replaces the batch by that client's data. */
  lemma BatchFate(f: map<string, DS.File>, f1: map<string, DS.File>, h: map<string, seq<DS.Record>>, h1: map<string, seq<DS.Record>>,
                  id: string, batch: seq<DS.Record>, oldId: string, opens: bool)
    requires Grown(f, f1, h, h1, id, batch) && oldId != id
    ensures DS.Renames(f1, oldId, id, opens) == DS.Renames(f, oldId, id, opens)
    ensures DS.HistoryOf(h1, id) == DS.HistoryOf(h, id) + batch
    ensures DS.HistoryOf(DS.RenamedHistory(f1, h1, oldId, id, opens), id) ==
            if DS.Renames(f, oldId, id, opens) then DS.HistoryOf(h, oldId) else DS.HistoryOf(h, id) + batch
  {}

  /** How many of the first n readings the data store accepts. */
  function AcceptedOf(accepts: nat -> bool, n: nat): nat {
    if n == 0 then 0 else AcceptedOf(accepts, n - 1) + if accepts(n - 1) then 1 else 0
  }

  /** The record at that position is this reading's: stamped after the start of 2020 it keeps its own time, and stamped earlier,
      by a clock that was never set, it has the server's. */
  ghost predicate KeptAt(decode: Decoder, h: seq<DS.Record>, p: nat, r: ClientRecord, now: u32) {
    && p < |h| && h[p].(timestamp := 0) == decode(r).(timestamp := 0)
    && (1577836800 < r.timestamp < 0x1_0000_0000 ==> h[p].timestamp == r.timestamp)
    && (0 <= r.timestamp <= 1577836800 ==> h[p].timestamp == now)
  }

  lemma {:induction false} AcceptedIsKept(decode: Decoder, readings: seq<ClientRecord>, clock: nat -> u32, accepts: nat -> bool, k: nat)
    requires k < |readings| && accepts(k)
    ensures KeptAt(decode, Delivered(decode, readings, clock, accepts), AcceptedOf(accepts, k), readings[k], clock(k))
  {
    var n := |readings| - 1;
    DeliveredCount(decode, readings[..n], clock, accepts);
    if k < n {
      AcceptedIsKept(decode, readings[..n], clock, accepts, k);
    }
  }

  lemma {:induction false} DeliveredCount(decode: Decoder, readings: seq<ClientRecord>, clock: nat -> u32, accepts: nat -> bool)
    ensures |Delivered(decode, readings, clock, accepts)| == AcceptedOf(accepts, |readings|)
  {
    if readings != [] {
      DeliveredCount(decode, readings[..|readings| - 1], clock, accepts);
    }
  }

  /** Nobody's data is moved by an update of this client: it is known, or gives no address, or one nobody has. */
  ghost predicate TakesNothing(rows: seq<CR.Row>, id: string, ip: string) {
    !CR.Unknown(rows, id) || ip == "" || CR.NobodyAt(rows, ip)
  }

  /** The history h' is h and then the accepted readings in their order. */
  ghost predicate GrownBy(decode: Decoder, h: seq<DS.Record>, h': seq<DS.Record>, readings: seq<ClientRecord>, clock: nat -> u32,
                          accepts: nat -> bool)
  {
    && |h'| == |h| + AcceptedOf(accepts, |readings|) && h <= h'
    && forall k: nat | k < |readings| && accepts(k) :: KeptAt(decode, h', |h| + AcceptedOf(accepts, k), readings[k], clock(k))
  }

  lemma AppendedIsGrown(decode: Decoder, h: seq<DS.Record>, readings: seq<ClientRecord>, clock: nat -> u32, accepts: nat -> bool)
    ensures GrownBy(decode, h, h + Delivered(decode, readings, clock, accepts), readings, clock, accepts)
  {
    DeliveredCount(decode, readings, clock, accepts);
    forall k: nat | k < |readings| && accepts(k)
      ensures KeptAt(decode, h + Delivered(decode, readings, clock, accepts), |h| + AcceptedOf(accepts, k), readings[k], clock(k))
    {
      AcceptedIsKept(decode, readings, clock, accepts, k);
    }
  }

  /** A client's basic mode; an unknown client is in basic mode. */
  ghost predicate BasicModeOf(rows: seq<CR.Row>, id: string) {
    CR.Find(rows, id) < 0 || rows[CR.Find(rows, id)].basic
  }

  /** What becomes of the histories: the batch is added to this client's, unless another client's file is moved over it; all
      but the moved client's stay as they were. */
  ghost predicate Fate(files: map<string, DS.File>, h: map<string, seq<DS.Record>>, h': map<string, seq<DS.Record>>, rows: seq<CR.Row>,
                       id: string, ip: string, opens: bool, batch: seq<DS.Record>)
  {
    var e := CR.Evicted(rows, id, ip);
    && DS.HistoryOf(h', id) == (if e >= 0 && DS.Renames(files, rows[e].client.id, id, opens) then DS.HistoryOf(h, rows[e].client.id)
                                else DS.HistoryOf(h, id) + batch)
    && forall other: string | other != id && (e >= 0 ==> other != rows[e].client.id) :: DS.HistoryOf(h', other) == DS.HistoryOf(h, other)
  }

  lemma FateOfUpload(f: map<string, DS.File>, f1: map<string, DS.File>, h: map<string, seq<DS.Record>>, h1: map<string, seq<DS.Record>>,
                     h2: map<string, seq<DS.Record>>, rows: seq<CR.Row>, id: string, ip: string, opens: bool, batch: seq<DS.Record>)
    requires Grown(f, f1, h, h1, id, batch)
    requires var e := CR.Evicted(rows, id, ip); h2 == if e < 0 then h1 else DS.RenamedHistory(f1, h1, rows[e].client.id, id, opens)
    ensures Fate(f, h, h2, rows, id, ip, opens, batch)
  {
    var e := CR.Evicted(rows, id, ip);
    if e >= 0 {
      BatchFate(f, f1, h, h1, id, batch, rows[e].client.id, opens);
    }
  }

  /** apps/server/main/http_server.c: upload_post_handler. readings is the parsed body, or nothing for a body that does not
      parse or is empty or too long. */
  method HandleUpload(store: DS.Store, registry: CR.Registry, decode: Decoder, id: string, name: string, ip: string,
                      readings: Option<seq<ClientRecord>>, clock: nat -> u32, accepts: nat -> bool, now: u32, opens: bool)
    returns (reply: Reply)
    requires store.Valid() && registry.Valid()
    modifies store, registry`count, registry`mappingCount, registry.clients, registry.basicModes, registry.mappings
    ensures store.Valid() && registry.Valid()
    ensures id == "" || readings.None? ==>
      reply == Refused && store.files == old(store.files) && store.history == old(store.history)
      && registry.Rows() == old(registry.Rows()) && registry.Mappings() == old(registry.Mappings())
    ensures id != "" && readings.Some? ==>
      var batch := Delivered(decode, readings.value, clock, accepts);
      && registry.Rows() == CR.Updated(old(registry.Rows()), id, name, ip, false, now)
      && registry.Mappings() == MappingsAfter(old(registry.Rows()), old(registry.Mappings()), id, ip)
      && reply == Accepted(|batch|, CR.Resolved(registry.Mappings(), id), BasicModeOf(registry.Rows(), CR.Resolved(registry.Mappings(), id)))
      && Fate(old(store.files), old(store.history), store.history, old(registry.Rows()), id, ip, opens, batch)
    ensures id != "" && readings.Some? ==>
      && reply.Accepted? && reply.stored == AcceptedOf(accepts, |readings.value|)
      && (CR.Unknown(registry.Rows(), reply.resolvedId) ==> reply.basicMode)
      && (forall k: nat | CR.FirstWith(registry.Rows(), reply.resolvedId, k) :: reply.basicMode == registry.Rows()[k].basic)
    ensures id != "" && readings.Some? && TakesNothing(old(registry.Rows()), id, ip) ==>
      GrownBy(decode, DS.HistoryOf(old(store.history), id), DS.HistoryOf(store.history, id), readings.value, clock, accepts)
  {
    if id == "" {
      return Refused;
    }
    if readings.None? {
      return Refused;
    }
    ghost var rows := registry.Rows();
    var count := AppendAll(store, decode, id, readings.value, clock, accepts);
    ghost var files, history := store.files, store.history;
    reply := Register(store, registry, id, name, ip, now, opens, count);
    FateOfUpload(old(store.files), files, old(store.history), history, store.history, rows, id, ip, opens,
                 Delivered(decode, readings.value, clock, accepts));
    DeliveredCount(decode, readings.value, clock, accepts);
    AppendedIsGrown(decode, DS.HistoryOf(old(store.history), id), readings.value, clock, accepts);
    TakingNothing(rows, id, ip);
    ModeMeans(registry.Rows(), CR.Resolved(registry.Mappings(), id));
  }

  lemma ModeMeans(rows: seq<CR.Row>, id: string)
    ensures CR.Unknown(rows, id) ==> BasicModeOf(rows, id)
    ensures forall k: nat | CR.FirstWith(rows, id, k) :: BasicModeOf(rows, id) == rows[k].basic
  {
    forall k: nat | CR.FirstWith(rows, id, k) ensures BasicModeOf(rows, id) == rows[k].basic {
      CR.FoundFirst(rows, id, k);
    }
  }

  lemma TakingNothing(rows: seq<CR.Row>, id: string, ip: string)
    ensures TakesNothing(rows, id, ip) ==> CR.Evicted(rows, id, ip) < 0
  {
    if TakesNothing(rows, id, ip) {
      CR.NobodyEvicted(rows, id, ip);
    }
  }

  /** The mappings left when a client at that address is evicted. */
  ghost function MappingsAfter(rows: seq<CR.Row>, ms: seq<CR.IdMapping>, id: string, ip: string): seq<CR.IdMapping> {
    var e := CR.Evicted(rows, id, ip);
    if e < 0 then ms else CR.WithoutMapping(ms, rows[e].client.id)
  }

  /** The second half of the handler: register the client and answer under its current id. */
  method Register(store: DS.Store, registry: CR.Registry, id: string, name: string, ip: string, now: u32, opens: bool, count: nat)
    returns (reply: Reply)
    requires store.Valid() && registry.Valid()
    modifies store, registry`count, registry`mappingCount, registry.clients, registry.basicModes, registry.mappings
    ensures store.Valid() && registry.Valid()
    ensures registry.Rows() == CR.Updated(old(registry.Rows()), id, name, ip, false, now)
    ensures registry.Mappings() == MappingsAfter(old(registry.Rows()), old(registry.Mappings()), id, ip)
    ensures reply == Accepted(count, CR.Resolved(registry.Mappings(), id), BasicModeOf(registry.Rows(), CR.Resolved(registry.Mappings(), id)))
    ensures var e := CR.Evicted(old(registry.Rows()), id, ip);
      store.history == if e < 0 then old(store.history)
                       else DS.RenamedHistory(old(store.files), old(store.history), old(registry.Rows())[e].client.id, id, opens)
  {
    var err, moved := registry.Update(store, id, name, ip, false, now, opens);
    var resolved := registry.ResolveId(id);
    var basic := registry.GetBasicMode(resolved);
    return Accepted(count, resolved, basic);
  }
}
