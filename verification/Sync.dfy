/** The client and the server together: the upload with both its ends, and whole runs of it. */
module Sync {
  import opened Wrappers
  import opened BatchHistory
  import opened ClientLog
  import opened Replication
  import opened Sequences
  import opened UploadHandler
  import DS = DataStore
  import CR = ClientRegistry
  import UB = UploadBody

  // ----- one exchange

  /** The server accepts the request: it gets there, and its body parses. */
  predicate Admitted(e: Event, id: string, batch: seq<ClientRecord>) {
    Arrives(e) && Found(e.mode, e.parses, batch).Some? && id != ""
  }

  /** What the server's history of a client is after a request was handled. */
  ghost function HistoryAfter(files: map<string, DS.File>, history: map<string, seq<DS.Record>>, rows: seq<CR.Row>,
                              id: string, ip: string, opens: bool, accepted: bool, delivered: seq<DS.Record>): seq<DS.Record>
  {
    var e := CR.Evicted(rows, id, ip);
    if !accepted then DS.HistoryOf(history, id)
    else if e >= 0 && DS.Renames(files, rows[e].client.id, id, opens) then DS.HistoryOf(history, rows[e].client.id)
    else DS.HistoryOf(history, id) + delivered
  }

  /** What a request does to the registry, the files and the client's history. */
  ghost predicate Served(decode: Decoder, id: string, e: Event, batch: seq<ClientRecord>, accepts: nat -> bool,
                         rows: seq<CR.Row>, files: map<string, DS.File>, history: map<string, seq<DS.Record>>,
                         rows': seq<CR.Row>, files': map<string, DS.File>, history': map<string, seq<DS.Record>>)
    requires e.Exchange?
  {
    var accepted := Admitted(e, id, batch);
    && rows' == (if accepted then CR.Updated(rows, id, e.name, e.ip, false, e.now) else rows)
    && DS.HistoryOf(history', id) ==
         HistoryAfter(files, history, rows, id, e.ip, e.opens, accepted,
                      Delivered(decode, Found(e.mode, e.parses, batch).GetOr([]), e.clock, accepts))
    && (!accepted ==> files' == files && history' == history)
  }

  /** The server handles a request that got to it. */
  method ServeRequest(store: DS.Store, registry: CR.Registry, decode: Decoder, id: string, e: Event, batch: seq<ClientRecord>, accepts: nat -> bool)
    requires store.Valid() && registry.Valid() && Arrives(e)
    modifies store, registry`count, registry`mappingCount, registry.clients, registry.basicModes, registry.mappings
    ensures store.Valid() && registry.Valid()
    ensures Served(decode, id, e, batch, accepts, old(registry.Rows()), old(store.files), old(store.history),
                   registry.Rows(), store.files, store.history)
    ensures id != "" && Found(e.mode, e.parses, batch) == Some(batch) && TakesNothing(old(registry.Rows()), id, e.ip) ==>
      GrownBy(decode, DS.HistoryOf(old(store.history), id), DS.HistoryOf(store.history, id), batch, e.clock, accepts)
  {
    var reply := HandleUpload(store, registry, decode, id, e.name, e.ip, Found(e.mode, e.parses, batch), e.clock, accepts, e.now, e.opens);
  }

  /** The server's half of an exchange. */
  method Serve(store: DS.Store, registry: CR.Registry, decode: Decoder, id: string, e: Event, batch: seq<ClientRecord>, accepts: nat -> bool)
    requires store.Valid() && registry.Valid() && e.Exchange?
    modifies store, registry`count, registry`mappingCount, registry.clients, registry.basicModes, registry.mappings
    ensures store.Valid() && registry.Valid()
    ensures Served(decode, id, e, batch, accepts, old(registry.Rows()), old(store.files), old(store.history),
                   registry.Rows(), store.files, store.history)
    ensures !e.connected || e.outcome == NotDelivered ==>
      && store.files == old(store.files) && store.history == old(store.history)
      && registry.Rows() == old(registry.Rows()) && registry.Mappings() == old(registry.Mappings())
    ensures id != "" && e.connected && e.outcome != NotDelivered && e.parses && (e.mode.basic || e.mode.ens160)
            && TakesNothing(old(registry.Rows()), id, e.ip) ==>
      GrownBy(decode, DS.HistoryOf(old(store.history), id), DS.HistoryOf(store.history, id), batch, e.clock, accepts)
  {
    if Arrives(e) {
      ServeRequest(store, registry, decode, id, e, batch, accepts);
    }
  }

  /** The client reads its batch and sends it. */
  method Send(log: Log, store: DS.Store, registry: CR.Registry, decode: Decoder, id: string, e: Event, accepts: nat -> bool)
    returns (batch: seq<ClientRecord>)
    requires log.Valid() && store.Valid() && registry.Valid() && e.Exchange?
    modifies store, registry`count, registry`mappingCount, registry.clients, registry.basicModes, registry.mappings
    ensures store.Valid() && registry.Valid()
    ensures log.open && log.InCapacity() ==> batch == FirstN(log.pending, UPLOAD_BATCH_SIZE)
    ensures forall k | 0 <= k < |batch| ::
              Seen(log.records, StartOf(log.writeIdx, log.maxRecords, log.unsyncedCount), log.maxRecords, k, batch)
    ensures Served(decode, id, e, batch, accepts, old(registry.Rows()), old(store.files), old(store.history),
                   registry.Rows(), store.files, store.history)
    ensures !e.connected || e.outcome == NotDelivered ==>
      && store.files == old(store.files) && store.history == old(store.history)
      && registry.Rows() == old(registry.Rows()) && registry.Mappings() == old(registry.Mappings())
    ensures id != "" && e.connected && e.outcome != NotDelivered && e.parses && (e.mode.basic || e.mode.ens160)
            && TakesNothing(old(registry.Rows()), id, e.ip) ==>
      GrownBy(decode, DS.HistoryOf(old(store.history), id), DS.HistoryOf(store.history, id), batch, e.clock, accepts)
  {
    batch := log.ReadUnsynced(UPLOAD_BATCH_SIZE);
    Serve(store, registry, decode, id, e, batch, accepts);
  }

  /** apps/client/main/wifi_sync.c: wifi_sync_upload_unsynced, with the server on the other end. Refusals have status 200
      too, so every reply makes the client mark its batch, whatever the server did with it. Only records of the batch are
      flagged; in capacity the batch is the front of the unsynced window, and a reply takes exactly it off. */
  method UploadUnsynced(log: Log, store: DS.Store, registry: CR.Registry, decode: Decoder, id: string, e: Event, accepts: nat -> bool)
    returns (ok: bool, ghost batch: seq<ClientRecord>, ghost marked: nat)
    requires log.Valid() && store.Valid() && registry.Valid() && e.Exchange?
    modifies log, store, registry`count, registry`mappingCount, registry.clients, registry.basicModes, registry.mappings
    ensures log.Valid() && store.Valid() && registry.Valid() && log.open == old(log.open) && log.writeIdx == old(log.writeIdx)
    ensures ok == Heard(e) && (!ok ==> marked == 0 && log.records == old(log.records))
    ensures marked <= |old(log.pending)| && log.pending == old(log.pending)[marked..] && FlaggedIn(old(log.records), log.records, batch)
    ensures old(log.open) && old(log.InCapacity()) ==>
      && log.InCapacity() && batch == FirstN(old(log.pending), UPLOAD_BATCH_SIZE)
      && (ok ==> marked == |batch| && Marked(old(log.records), log.records, log.writeIdx, log.maxRecords, |old(log.pending)|, marked))
    ensures Served(decode, id, e, batch, accepts, old(registry.Rows()), old(store.files), old(store.history),
                   registry.Rows(), store.files, store.history)
    ensures ok <==> e.connected && e.outcome == Replied
    ensures !(e.connected && e.outcome == Replied) ==>
      marked == 0 && log.records == old(log.records) && log.pending == old(log.pending)
    ensures e.connected && e.outcome == Replied && old(log.open) && old(log.InCapacity()) ==>
      var n := |old(log.pending)|; marked == (if n < 50 then n else 50) && log.pending == old(log.pending)[marked..]
    ensures !e.connected || e.outcome == NotDelivered ==>
      && store.files == old(store.files) && store.history == old(store.history)
      && registry.Rows() == old(registry.Rows()) && registry.Mappings() == old(registry.Mappings())
    ensures id != "" && e.connected && e.outcome != NotDelivered && e.parses && (e.mode.basic || e.mode.ens160)
            && TakesNothing(old(registry.Rows()), id, e.ip) ==>
      GrownBy(decode, DS.HistoryOf(old(store.history), id), DS.HistoryOf(store.history, id), batch, e.clock, accepts)
  {
    if !e.connected {
      return false, if log.InCapacity() then FirstN(log.pending, UPLOAD_BATCH_SIZE) else [], 0;
    }
    var records := Send(log, store, registry, decode, id, e, accepts);
    batch := records;
    ok := e.outcome == Replied;
    marked := MarkBatch(log, ok, records);
  }

  /** The call of data_storage_mark_synced, skipped without a reply and for an empty batch. */
  method MarkBatch(log: Log, heard: bool, batch: seq<ClientRecord>) returns (marked: nat)
    requires log.Valid()
    requires forall k | 0 <= k < |batch| ::
               Seen(log.records, StartOf(log.writeIdx, log.maxRecords, log.unsyncedCount), log.maxRecords, k, batch)
    modifies log
    ensures log.Valid() && log.open == old(log.open) && log.writeIdx == old(log.writeIdx)
    ensures marked <= |old(log.pending)| && log.pending == old(log.pending)[marked..] && FlaggedIn(old(log.records), log.records, batch)
    ensures !heard ==> marked == 0 && log.records == old(log.records) && log.intact == old(log.intact)
    ensures heard && old(log.open) && old(log.InCapacity()) ==>
      && log.InCapacity() && marked == |FirstN(old(log.pending), |batch|)|
      && Marked(old(log.records), log.records, log.writeIdx, log.maxRecords, |old(log.pending)|, marked)
  {
    ghost var was, start := log.records, StartOf(log.writeIdx, log.maxRecords, log.unsyncedCount);
    marked := 0;
    if heard && |batch| > 0 {
      marked := log.MarkSynced(|batch|);
      OnlyReadIsFlagged(was, log.records, start, log.maxRecords, batch);
    }
  }

  // ----- joining

  /** Nobody else's data is about to be moved to this client's id. */
  ghost predicate UndisturbedBy(rows: seq<CR.Row>, files: map<string, DS.File>, id: string, e: Event)
    requires e.Exchange?
  {
    var i := CR.Evicted(rows, id, e.ip);
    i < 0 || !DS.Renames(files, rows[i].client.id, id, e.opens)
  }

  /** The registry has room for a client it does not know. */
  predicate HasRoom(rows: seq<CR.Row>, id: string) {
    |id| < CR.ID_LEN && |rows| < CR.MAX_CLIENTS
  }

  lemma StaysRegistered(rows: seq<CR.Row>, id: string, name: string, ip: string, now: DS.u32)
    ensures CR.Find(rows, id) >= 0 ==> CR.Evicted(rows, id, ip) < 0 && CR.Find(CR.Updated(rows, id, name, ip, false, now), id) >= 0
  {
    var i := CR.Find(rows, id);
    if i >= 0 {
      CR.FindIsFirst(rows[i := CR.Refreshed(rows[i], name, ip, false, now)], id, i);
    }
  }

  /** The first upload that is accepted registers a client the registry has room for. */
  lemma BecomesRegistered(rows: seq<CR.Row>, id: string, name: string, ip: string, now: DS.u32)
    requires HasRoom(rows, id)
    ensures CR.Find(CR.Updated(rows, id, name, ip, false, now), id) >= 0
  {
    var kept := CR.AfterEviction(rows, id, ip);
    var after := CR.Updated(rows, id, name, ip, false, now);
    var i := if CR.Find(kept, id) >= 0 then CR.Find(kept, id) else |kept|;
    assert CR.SameId(after[i].client.id, id);
  }

  ghost predicate NoneCarried(events: seq<Event>, n: nat) {
    forall j | 0 <= j < n && j < |events| :: !Carries(events[j])
  }

  /** The registry has room for the client, and no request moves another client's file over this one's, up to the first whose
      body carries readings: that one registers it. */
  ghost predicate Joins(rows: seq<CR.Row>, files: map<string, DS.File>, id: string, events: seq<Event>) {
    && HasRoom(rows, id)
    && forall k: nat | k < |events| && Arrives(events[k]) && NoneCarried(events, k) :: UndisturbedBy(rows, files, id, events[k])
  }

  /** The registry is full and stays so: it knows no client at an address the events come from. */
  ghost predicate StaysOut(rows: seq<CR.Row>, id: string, events: seq<Event>) {
    && |rows| >= CR.MAX_CLIENTS && CR.Find(rows, id) < 0
    && forall k: nat | k < |events| && Arrives(events[k]) :: CR.Evicted(rows, id, events[k].ip) < 0
  }

  /** No event will move another client's data to this one. */
  ghost predicate MayRun(rows: seq<CR.Row>, files: map<string, DS.File>, id: string, events: seq<Event>) {
    CR.Find(rows, id) >= 0 || Joins(rows, files, id, events) || StaysOut(rows, id, events)
  }

  /** After n events the server knows the client, or has not heard any readings from it yet and is as it was, or is still full. */
  ghost predicate Joined(rows0: seq<CR.Row>, files0: map<string, DS.File>, rows: seq<CR.Row>, files: map<string, DS.File>, id: string,
                         events: seq<Event>, n: nat)
  {
    || CR.Find(rows, id) >= 0
    || (rows == rows0 && files == files0 && NoneCarried(events, n) && Joins(rows0, files0, id, events))
    || (rows == rows0 && StaysOut(rows0, id, events))
  }

  lemma MayArrive(rows0: seq<CR.Row>, files0: map<string, DS.File>, rows: seq<CR.Row>, files: map<string, DS.File>, id: string,
                  events: seq<Event>, k: nat)
    requires k < |events| && Joined(rows0, files0, rows, files, id, events, k)
    ensures Arrives(events[k]) ==> UndisturbedBy(rows, files, id, events[k])
  {}

  /** The registry's and the files' step in an event. */
  ghost predicate Steps(rows: seq<CR.Row>, files: map<string, DS.File>, rows': seq<CR.Row>, files': map<string, DS.File>, id: string,
                        e: Event, accepted: bool)
  {
    && (Carries(e) ==> accepted) && (accepted ==> Arrives(e))
    && (if accepted then rows' == CR.Updated(rows, id, e.name, e.ip, false, e.now) else rows' == rows && files' == files)
  }

  lemma JoinedNext(rows0: seq<CR.Row>, files0: map<string, DS.File>, rows: seq<CR.Row>, files: map<string, DS.File>,
                   rows': seq<CR.Row>, files': map<string, DS.File>, id: string, events: seq<Event>, k: nat, accepted: bool)
    requires k < |events| && Joined(rows0, files0, rows, files, id, events, k)
    requires Steps(rows, files, rows', files', id, events[k], accepted)
    ensures Joined(rows0, files0, rows', files', id, events, k + 1)
  {
    if accepted {
      var e := events[k];
      StaysRegistered(rows, id, e.name, e.ip, e.now);
      if HasRoom(rows, id) {
        BecomesRegistered(rows, id, e.name, e.ip, e.now);
      }
    }
  }

  // ----- client and server

  /** One client and the server it uploads to. */
  class Link {
    const log: Log
    const store: DS.Store
    const registry: CR.Registry
    const id: string
    const decode: Decoder
    ghost var state: Pair

    /** Both ends are in order and the unsynced window fits its ring. */
    ghost predicate Ready()
      reads log, store, registry, registry.clients, registry.basicModes, registry.mappings
    {
      id != "" && log.Valid() && store.Valid() && registry.Valid() && log.open && log.InCapacity()
    }

    /** The state describes both ends, and the client's ring record for record and flag for flag. */
    ghost predicate Describes(p: Pair)
      reads log, store
    {
      && p.confirmed <= |p.all| && log.pending == p.all[p.confirmed..] && TakenUnsynced(p)
      && DS.HistoryOf(store.history, id) == p.server
      && RingShows(log.records, log.writeIdx, log.maxRecords, p)
    }

    ghost predicate Valid()
      reads this, log, store, registry, registry.clients, registry.basicModes, registry.mappings
    {
      Ready() && Describes(state)
    }

    /** A new client with a new data file, unknown to the server. */
    constructor (log: Log, store: DS.Store, registry: CR.Registry, id: string, decode: Decoder)
      requires id != "" && log.Valid() && store.Valid() && registry.Valid() && log.open && log.InCapacity()
      requires log.pending == [] && log.records == [] && id !in store.history
      ensures Valid() && state == NEW_PAIR
      ensures this.log == log && this.store == store && this.registry == registry && this.id == id && this.decode == decode
    {
      this.log, this.store, this.registry, this.id, this.decode := log, store, registry, id, decode;
      state := NEW_PAIR;
    }

    ghost predicate Undisturbed(e: Event)
      requires Ready() && e.Exchange?
      reads log, store, registry, registry.clients, registry.basicModes, registry.mappings
    {
      UndisturbedBy(registry.Rows(), store.files, id, e)
    }

    /** The client takes a reading; a failed flash write loses it before it counts as taken. */
    method Take(r: ClientRecord, writes: bool) returns (err: int)
      requires Valid() && |log.pending| < log.maxRecords
      modifies this, log
      ensures Valid() && err == (if writes then 0 else -1)
      ensures state == if writes then Taken(old(state), r) else old(state)
    {
      err := Record(r, writes);
      if err == 0 {
        state := Taken(state, r);
      }
    }

    method Record(r: ClientRecord, writes: bool) returns (err: int)
      requires Valid() && |log.pending| < log.maxRecords
      modifies log
      ensures Ready() && err == (if writes then 0 else -1)
      ensures Describes(if writes then Taken(state, r) else state)
    {
      ShowsAfterTake(log.records, log.writeIdx, log.maxRecords, state, r);
      err := log.Append(r, writes);
    }

    /** One exchange, undisturbed: the batch is appended to the server's history if the server finds it in the body, and comes
        off the client's window if a reply does. */
    method Transfer(e: Event) returns (ok: bool, ghost accepted: bool, ghost marked: nat)
      requires Ready() && e.Exchange? && (Arrives(e) ==> Undisturbed(e))
      modifies log, store, registry`count, registry`mappingCount, registry.clients, registry.basicModes, registry.mappings
      ensures Ready() && ok == Heard(e) && log.writeIdx == old(log.writeIdx)
      ensures marked == if ok then |FirstN(old(log.pending), UPLOAD_BATCH_SIZE)| else 0
      ensures log.pending == old(log.pending)[marked..]
      ensures |old(log.pending)| <= log.maxRecords && Marked(old(log.records), log.records, log.writeIdx, log.maxRecords, |old(log.pending)|, marked)
      ensures DS.HistoryOf(store.history, id) ==
        if Carries(e) then DS.HistoryOf(old(store.history), id) + Delivered(decode, FirstN(old(log.pending), UPLOAD_BATCH_SIZE), e.clock, ACCEPT_ALL)
        else DS.HistoryOf(old(store.history), id)
      ensures Steps(old(registry.Rows()), old(store.files), registry.Rows(), store.files, id, e, accepted)
    {
      ghost var batch;
      ok, batch, marked := UploadUnsynced(log, store, registry, decode, id, e, ACCEPT_ALL);
      accepted := Admitted(e, id, batch);
    }

    /** The client uploads: whatever becomes of the exchange, and whatever the mode, the state moves as the protocol says. */
    method Upload(e: Event) returns (ok: bool, ghost accepted: bool)
      requires Valid() && e.Exchange? && (Arrives(e) ==> Undisturbed(e))
      modifies this, log, store, registry`count, registry`mappingCount, registry.clients, registry.basicModes, registry.mappings
      ensures Valid() && ok == Heard(e) && state == Next(decode, old(state), e)
      ensures Steps(old(registry.Rows()), old(store.files), registry.Rows(), store.files, id, e, accepted)
    {
      ok, accepted := Exchange(e);
      state := Next(decode, state, e);
    }

    method Exchange(e: Event) returns (ok: bool, ghost accepted: bool)
      requires Valid() && e.Exchange? && (Arrives(e) ==> Undisturbed(e))
      modifies log, store, registry`count, registry`mappingCount, registry.clients, registry.basicModes, registry.mappings
      ensures Ready() && ok == Heard(e) && Describes(Next(decode, state, e))
      ensures Steps(old(registry.Rows()), old(store.files), registry.Rows(), store.files, id, e, accepted)
    {
      ghost var records, q := log.records, Next(decode, state, e);
      BatchIsFront(state);
      ghost var marked;
      ok, accepted, marked := Transfer(e);
      ShowsAfterMark(records, log.records, log.writeIdx, log.maxRecords, marked, state, q);
    }
  }

  /** The batch the client reads is the one from the confirmed position. */
  lemma BatchIsFront(p: Pair)
    requires p.confirmed <= |p.all|
    ensures var pending := p.all[p.confirmed..];
      var batch := FirstN(pending, UPLOAD_BATCH_SIZE);
      && batch == p.all[p.confirmed..p.End()] && p.confirmed + |batch| == p.End()
      && pending[|batch|..] == p.all[p.End()..] && pending[0..] == pending
  {}

  /** At-least-once, after any run from a state in step. The exact condition: everything the client takes to have arrived has
      arrived if and only if nothing was lost, that is, no reply came for a body in which the server did not find a batch that
      it did not have already. Then the server's history without its re-sends is the client's records in order, from the first
      on and without a gap, and every record whose flag is set in the client's ring has a copy there. */
  lemma AtLeastOnce(link: Link, start: Pair, events: seq<Event>)
    requires link.Valid() && InStep(link.decode, start) && link.state == Replay(link.decode, start, events)
    ensures AllArrived(link.state) <==> NothingLost(link.decode, start, events)
    ensures NothingLost(link.decode, start, events) ==>
      var h, p, src := DS.HistoryOf(link.store.history, link.id), link.state, Flatten(link.state.batches);
      && Copies(link.decode, h, src, p.all)
      && FirstArrivals(src) == Range(0, Reached(p.batches))
      && FlagsArrived(link.log.records, p)
  {
    ArrivedUnlessLost(link.decode, start, events);
    if NothingLost(link.decode, start, events) {
      ReplayInStep(link.decode, start, events);
      InStepMeans(link.decode, link.state);
      ArrivedFlags(link.log.records, link.log.writeIdx, link.log.maxRecords, link.state);
    }
  }

  // ----- whole runs

  ghost predicate CanJoin(link: Link, events: seq<Event>)
    requires link.Ready()
    reads link.log, link.store, link.registry, link.registry.clients, link.registry.basicModes, link.registry.mappings
  {
    MayRun(link.registry.Rows(), link.store.files, link.id, events)
  }

  /** Any client can join an empty registry. */
  lemma EmptyRegistryCanJoin(link: Link, events: seq<Event>)
    requires link.Ready() && link.registry.Rows() == [] && |link.id| < CR.ID_LEN
    ensures CanJoin(link, events)
  {}

  /** One event. It stops at a reading for which the unsynced window already fills the ring. */
  method Happen(link: Link, e: Event) returns (stopped: bool, ghost accepted: bool)
    requires link.Valid() && (Arrives(e) ==> link.Undisturbed(e))
    modifies link, link.log, link.store, link.registry`count, link.registry`mappingCount,
             link.registry.clients, link.registry.basicModes, link.registry.mappings
    ensures link.Valid()
    ensures stopped <==> e.Reading? && |old(link.state).all| - old(link.state).confirmed >= link.log.maxRecords
    ensures link.state == if stopped then old(link.state) else Next(link.decode, old(link.state), e)
    ensures Steps(old(link.registry.Rows()), old(link.store.files), link.registry.Rows(), link.store.files, link.id, e, accepted)
  {
    stopped, accepted := false, false;
    if e.Reading? {
      stopped := link.log.unsyncedCount >= link.log.maxRecords;
      if !stopped {
        var err := link.Take(e.r, e.writes);
      }
    } else {
      var ok;
      ok, accepted := link.Upload(e);
    }
  }

  /** The k-th event of a run, with what the run keeps. */
  method HappenAt(link: Link, events: seq<Event>, k: nat, ghost start: Pair, ghost rows: seq<CR.Row>, ghost files: map<string, DS.File>)
    returns (stopped: bool)
    requires link.Valid() && k < |events| && start.confirmed <= |start.all|
    requires link.state == Replay(link.decode, start, events[..k])
    requires Joined(rows, files, link.registry.Rows(), link.store.files, link.id, events, k)
    modifies link, link.log, link.store, link.registry`count, link.registry`mappingCount,
             link.registry.clients, link.registry.basicModes, link.registry.mappings
    ensures link.Valid()
    ensures stopped <==> events[k].Reading? && |old(link.state).all| - old(link.state).confirmed >= link.log.maxRecords
    ensures link.state == Replay(link.decode, start, events[..if stopped then k else k + 1])
    ensures Joined(rows, files, link.registry.Rows(), link.store.files, link.id, events, if stopped then k else k + 1)
    ensures CR.Find(old(link.registry.Rows()), link.id) >= 0 ==> CR.Find(link.registry.Rows(), link.id) >= 0
  {
    ghost var rows1, files1 := link.registry.Rows(), link.store.files;
    ReplayNext(link.decode, start, events, k);
    MayArrive(rows, files, rows1, files1, link.id, events, k);
    ghost var accepted;
    stopped, accepted := Happen(link, events[k]);
    JoinedNext(rows, files, rows1, files1, link.registry.Rows(), link.store.files, link.id, events, k, accepted);
    KnownStays(rows1, files1, link.registry.Rows(), link.store.files, link.id, events[k], accepted);
  }

  lemma KnownStays(rows: seq<CR.Row>, files: map<string, DS.File>, rows': seq<CR.Row>, files': map<string, DS.File>, id: string,
                   e: Event, accepted: bool)
    requires Steps(rows, files, rows', files', id, e, accepted)
    ensures CR.Find(rows, id) >= 0 ==> CR.Find(rows', id) >= 0
  {
    if accepted {
      StaysRegistered(rows, id, e.name, e.ip, e.now);
    }
  }

  /** Any run of readings and exchanges, from the first contact on and in any modes: the state is exactly what the events say,
      step by step. The run stops short only at a reading for which the unsynced window already fills the ring. */
  method Run(link: Link, events: seq<Event>) returns (done: nat)
    requires link.Valid() && CanJoin(link, events)
    modifies link, link.log, link.store, link.registry`count, link.registry`mappingCount,
             link.registry.clients, link.registry.basicModes, link.registry.mappings
    ensures link.Valid() && done <= |events|
    ensures link.state == Replay(link.decode, old(link.state), events[..done])
    ensures done < |events| ==> events[done].Reading? && |link.state.all| - link.state.confirmed >= link.log.maxRecords
    ensures CR.Find(old(link.registry.Rows()), link.id) >= 0 || (HasRoom(old(link.registry.Rows()), link.id) && !NoneCarried(events, done))
            ==> CR.Find(link.registry.Rows(), link.id) >= 0
  {
    ghost var rows, files, start := link.registry.Rows(), link.store.files, link.state;
    done := 0;
    while done < |events|
      invariant link.Valid() && done <= |events|
      invariant link.state == Replay(link.decode, start, events[..done])
      invariant Joined(rows, files, link.registry.Rows(), link.store.files, link.id, events, done)
      invariant CR.Find(rows, link.id) >= 0 ==> CR.Find(link.registry.Rows(), link.id) >= 0
    {
      var stopped := HappenAt(link, events, done, start, rows, files);
      if stopped {
        return;
      }
      done := done + 1;
    }
  }

  /** The condition of AtLeastOnce fails for a documented build and mode: with no readings in the body, a new client's first
      reading is flagged as synced after one answered upload, and the server has nothing. */
  method LoseReading(link: Link, r: ClientRecord, e: Event)
    requires link.Valid() && link.state == NEW_PAIR
    requires Heard(e) && !UB.Prints(e.mode) && CanJoin(link, [Reading(r, true), e])
    modifies link, link.log, link.store, link.registry`count, link.registry`mappingCount,
             link.registry.clients, link.registry.basicModes, link.registry.mappings
    ensures link.log.records == [r.(synced := true)] && DS.HistoryOf(link.store.history, link.id) == []
    ensures !AllArrived(link.state)
  {
    var events := [Reading(r, true), e];
    LostWithoutReadings(link.decode, r, e);
    assert Replay(link.decode, NEW_PAIR, events[..0]) == NEW_PAIR;
    var done := Run(link, events);
    FirstTwo(link.decode, r, e, done);
    ShownLost(link.log.records, link.log.writeIdx, link.log.maxRecords, r);
  }

  lemma ShownLost(records: seq<ClientRecord>, writeIdx: DS.u32, max: DS.u32, r: ClientRecord)
    requires RingShows(records, writeIdx, max, Pair([r.(synced := false)], [], 1, []))
    ensures records == [r.(synced := true)]
  {
    assert SlotShows(records, writeIdx, max, Pair([r.(synced := false)], [], 1, []), 0);
  }

  lemma FirstTwo(decode: Decoder, r: ClientRecord, e: Event, done: nat)
    requires Heard(e) && done <= 2
    requires done < 2 ==> var events := [Reading(r, true), e];
      var p := Replay(decode, NEW_PAIR, events[..done]); events[done].Reading? && |p.all| - p.confirmed > 0
    ensures done == 2 && [Reading(r, true), e][..done] == [Reading(r, true), e]
  {}

  // ----- runs without a bound on the unsynced window

  lemma BackedStays(decode: Decoder, records: seq<ClientRecord>, h: seq<DS.Record>, more: seq<DS.Record>)
    requires Backed(decode, records, h)
    ensures Backed(decode, records, h + more)
  {
    forall s: nat | s < |records| && records[s].synced ensures HasCopy(decode, records[s], h + more) {
      CopyStays(decode, records[s], h, more);
    }
  }

  /** An upload of a log in any state keeps its flags backed, unless a reply comes for a body that carries no readings. */
  method UploadBacked(log: Log, store: DS.Store, registry: CR.Registry, decode: Decoder, id: string, e: Event) returns (ghost accepted: bool)
    requires log.Valid() && store.Valid() && registry.Valid() && id != "" && e.Exchange?
    requires Backed(decode, log.records, DS.HistoryOf(store.history, id)) && (Heard(e) ==> Carries(e))
    requires Arrives(e) ==> UndisturbedBy(registry.Rows(), store.files, id, e)
    modifies log, store, registry`count, registry`mappingCount, registry.clients, registry.basicModes, registry.mappings
    ensures log.Valid() && store.Valid() && registry.Valid() && log.open == old(log.open)
    ensures Backed(decode, log.records, DS.HistoryOf(store.history, id))
    ensures Steps(old(registry.Rows()), old(store.files), registry.Rows(), store.files, id, e, accepted)
  {
    ghost var was, h := log.records, DS.HistoryOf(store.history, id);
    ghost var batch, marked;
    var ok;
    ok, batch, marked := UploadUnsynced(log, store, registry, decode, id, e, ACCEPT_ALL);
    accepted := Admitted(e, id, batch);
    ghost var delivered := Delivered(decode, Found(e.mode, e.parses, batch).GetOr([]), e.clock, ACCEPT_ALL);
    if ok {
      BackedAfterExchange(decode, was, log.records, batch, h, e.clock);
    } else {
      BackedStays(decode, was, h, delivered);
    }
  }

  /** One event for a log in any state. */
  method HappenBacked(log: Log, store: DS.Store, registry: CR.Registry, decode: Decoder, id: string, events: seq<Event>, k: nat,
                      ghost rows: seq<CR.Row>, ghost files: map<string, DS.File>)
    returns (stopped: bool)
    requires log.Valid() && store.Valid() && registry.Valid() && id != "" && k < |events|
    requires Backed(decode, log.records, DS.HistoryOf(store.history, id)) && (Heard(events[k]) ==> Carries(events[k]))
    requires Joined(rows, files, registry.Rows(), store.files, id, events, k)
    modifies log, store, registry`count, registry`mappingCount, registry.clients, registry.basicModes, registry.mappings
    ensures log.Valid() && store.Valid() && registry.Valid()
    ensures Backed(decode, log.records, DS.HistoryOf(store.history, id))
    ensures stopped ==> events[k].Reading? && |log.pending| == 0xFFFF_FFFF
    ensures Joined(rows, files, registry.Rows(), store.files, id, events, if stopped then k else k + 1)
  {
    stopped := false;
    ghost var rows1, files1, accepted := registry.Rows(), store.files, false;
    MayArrive(rows, files, rows1, files1, id, events, k);
    if events[k].Reading? {
      stopped := log.unsyncedCount == 0xFFFF_FFFF;
      if !stopped {
        BackedAfterTake(decode, log.records, log.writeIdx, events[k].r, DS.HistoryOf(store.history, id));
        var err := log.Append(events[k].r, events[k].writes);
      }
    } else {
      accepted := UploadBacked(log, store, registry, decode, id, events[k]);
    }
    JoinedNext(rows, files, rows1, files1, registry.Rows(), store.files, id, events, k, accepted);
  }

  /** At-least-once for the flags alone, in any run and however far the unsynced window outgrows the ring: as long as every
      body that is answered carries its batch, each flag in the client's ring stands on a record the server has a copy of. The
      run stops short only when the 32-bit counter of unsynced records is at its end. */
  method RunBacked(log: Log, store: DS.Store, registry: CR.Registry, decode: Decoder, id: string, events: seq<Event>) returns (done: nat)
    requires log.Valid() && store.Valid() && registry.Valid() && id != ""
    requires Backed(decode, log.records, DS.HistoryOf(store.history, id))
    requires forall e :: e in events && Heard(e) ==> Carries(e)
    requires MayRun(registry.Rows(), store.files, id, events)
    modifies log, store, registry`count, registry`mappingCount, registry.clients, registry.basicModes, registry.mappings
    ensures log.Valid() && store.Valid() && registry.Valid()
    ensures Backed(decode, log.records, DS.HistoryOf(store.history, id))
    ensures done <= |events| && (done < |events| ==> events[done].Reading? && |log.pending| == 0xFFFF_FFFF)
  {
    ghost var rows, files := registry.Rows(), store.files;
    done := 0;
    while done < |events|
      invariant log.Valid() && store.Valid() && registry.Valid() && done <= |events|
      invariant Backed(decode, log.records, DS.HistoryOf(store.history, id))
      invariant Joined(rows, files, registry.Rows(), store.files, id, events, done)
    {
      var stopped := HappenBacked(log, store, registry, decode, id, events, done, rows, files);
      if stopped {
        return;
      }
      done := done + 1;
    }
  }
}
