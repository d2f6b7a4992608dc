/** The server's client registry: parallel arrays with compaction, refining an insertion-ordered map keyed by id. */
module ClientRegistry {
  import opened DataStore
  import opened Wrappers

  const MAX_CLIENTS := 16
  const ID_LEN := 32
  const NAME_LEN := 32
  const IP_LEN := 16

  datatype Client = Client(id: string, name: string, lastSeen: u32, online: bool, ip: string)

  datatype IdMapping = IdMapping(oldId: string, newId: string)

  const CLEARED_CLIENT := Client("", "", 0, false, "")
  const CLEARED_MAPPING := IdMapping("", "")

  /** A client with its basic-mode flag. */
  datatype Row = Row(client: Client, basic: bool)

  /** At most n characters of a string, as strncpy and strncmp take them. */
  function Cut(s: string, n: nat): (c: string)
    ensures c <= s && (|c| == n || (c == s && |s| < n))
  {
    if |s| <= n then s else s[..n]
  }

  /** strncmp(a, b, ID_LEN) == 0. */
  predicate SameId(a: string, b: string) {
    Cut(a, ID_LEN) == Cut(b, ID_LEN)
  }

  // ----- the abstract registry: rows in insertion order

  function Without<T>(s: seq<T>, i: nat): seq<T>
    requires i < |s|
  {
    s[..i] + s[i + 1..]
  }

  /** The first row of a client, or -1. */
  function Find(rows: seq<Row>, id: string): (i: int)
    ensures -1 <= i < |rows|
    ensures i >= 0 ==> SameId(rows[i].client.id, id) && forall k | 0 <= k < i :: !SameId(rows[k].client.id, id)
    ensures i < 0 ==> forall k | 0 <= k < |rows| :: !SameId(rows[k].client.id, id)
  {
    if rows == [] then -1
    else if SameId(rows[0].client.id, id) then 0
    else
      var k := Find(rows[1..], id);
      if k < 0 then -1 else k + 1
  }

  /** The first row bound to an address, or -1. */
  function FindIp(rows: seq<Row>, ip: string): (i: int)
    ensures -1 <= i < |rows|
    ensures i >= 0 ==> Cut(rows[i].client.ip, IP_LEN) == Cut(ip, IP_LEN)
                       && forall k | 0 <= k < i :: Cut(rows[k].client.ip, IP_LEN) != Cut(ip, IP_LEN)
    ensures i < 0 ==> forall k | 0 <= k < |rows| :: Cut(rows[k].client.ip, IP_LEN) != Cut(ip, IP_LEN)
  {
    if rows == [] then -1
    else if Cut(rows[0].client.ip, IP_LEN) == Cut(ip, IP_LEN) then 0
    else
      var k := FindIp(rows[1..], ip);
      if k < 0 then -1 else k + 1
  }

  function FindMapping(ms: seq<IdMapping>, id: string): (i: int)
    ensures -1 <= i < |ms|
    ensures i >= 0 ==> SameId(ms[i].oldId, id) && forall k | 0 <= k < i :: !SameId(ms[k].oldId, id)
    ensures i < 0 ==> forall k | 0 <= k < |ms| :: !SameId(ms[k].oldId, id)
  {
    if ms == [] then -1
    else if SameId(ms[0].oldId, id) then 0
    else
      var k := FindMapping(ms[1..], id);
      if k < 0 then -1 else k + 1
  }

  function Resolved(ms: seq<IdMapping>, id: string): string {
    var i := FindMapping(ms, id);
    if i < 0 then id else ms[i].newId
  }

  /** The row that registering this client evicts: a row of another client at the same address, when the client is new. */
  function Evicted(rows: seq<Row>, id: string, ip: string): (i: int)
    ensures -1 <= i < |rows|
  {
    if Find(rows, id) < 0 && ip != "" then FindIp(rows, ip) else -1
  }

  function WithoutMapping(ms: seq<IdMapping>, id: string): seq<IdMapping> {
    var i := FindMapping(ms, id);
    if id == "" || i < 0 then ms else Without(ms, i)
  }

  /** What an upload or a save writes into a client's row. */
  function Refreshed(row: Row, name: string, ip: string, overwrite: bool, now: u32): Row {
    var c := row.client;
    row.(client := Client(c.id, if name != "" && (overwrite || c.name == "") then Cut(name, NAME_LEN - 1) else c.name,
                          now, true, if ip != "" then Cut(ip, IP_LEN - 1) else c.ip))
  }

  function AfterEviction(rows: seq<Row>, id: string, ip: string): seq<Row> {
    var e := Evicted(rows, id, ip);
    if e < 0 then rows else Without(rows, e)
  }

  /** The rows after client_registry_update. */
  function Updated(rows: seq<Row>, id: string, name: string, ip: string, overwrite: bool, now: u32): seq<Row> {
    Enrolled(AfterEviction(rows, id, ip), id, name, ip, overwrite, now)
  }

  /** ... from the rows left by the eviction on. */
  function Enrolled(kept: seq<Row>, id: string, name: string, ip: string, overwrite: bool, now: u32): seq<Row> {
    var i := Find(kept, id);
    if i >= 0 then kept[i := Refreshed(kept[i], name, ip, overwrite, now)]
    else if |kept| >= MAX_CLIENTS then kept
    else kept + [Refreshed(Row(CLEARED_CLIENT.(id := Cut(id, ID_LEN - 1)), true), name, ip, overwrite, now)]
  }

  // ----- the concrete registry

  ghost function Zip(cs: seq<Client>, bs: seq<bool>): (rows: seq<Row>)
    requires |cs| == |bs|
    ensures |rows| == |cs|
    ensures forall i | 0 <= i < |cs| :: rows[i] == Row(cs[i], bs[i])
  {
    seq(|cs|, i requires 0 <= i < |cs| => Row(cs[i], bs[i]))
  }

  lemma ZipWithout(cs: seq<Client>, bs: seq<bool>, i: nat)
    requires |cs| == |bs| && i < |cs|
    ensures Zip(Without(cs, i), Without(bs, i)) == Without(Zip(cs, bs), i)
  {}

  /** The compaction of the registry's tables: move everything behind slot i one slot forward and clear the slot that
      becomes free. The source moves the two client tables in one loop. */
  method CloseGap<T>(a: array<T>, i: nat, n: nat, cleared: T)
    requires i < n <= a.Length
    modifies a
    ensures a[..n - 1] == Without(old(a[..n]), i)
    ensures forall k | 0 <= k < n - 1 :: a[k] == old(a[if k < i then k else k + 1])
    ensures a[n - 1] == cleared
    ensures forall k | n <= k < a.Length :: a[k] == old(a[k])
  {
    ghost var s := a[..];
    var j := i;
    while j < n - 1
      invariant i <= j <= n - 1
      invariant forall k | 0 <= k < i :: a[k] == s[k]
      invariant forall k | i <= k < j :: a[k] == s[k + 1]
      invariant forall k | j <= k < a.Length :: a[k] == s[k]
    {
      a[j] := a[j + 1];
      j := j + 1;
    }
    a[n - 1] := cleared;
  }

  class Registry {
    const clients: array<Client>
    const basicModes: array<bool>
    var count: nat
    const mappings: array<IdMapping>
    var mappingCount: nat

    /** The arrays have their sizes, stored strings fit their fields, and the slots past the end are cleared. */
    ghost predicate Valid()
      reads this, clients, basicModes, mappings
    {
      && clients.Length == basicModes.Length == mappings.Length == MAX_CLIENTS
      && count <= MAX_CLIENTS && mappingCount <= MAX_CLIENTS
      && (forall i | 0 <= i < count :: Fits(clients[i]))
      && (forall i | count <= i < MAX_CLIENTS :: clients[i] == CLEARED_CLIENT && basicModes[i])
      && (forall i | 0 <= i < mappingCount :: |mappings[i].oldId| < ID_LEN && |mappings[i].newId| < ID_LEN)
      && (forall i | mappingCount <= i < MAX_CLIENTS :: mappings[i] == CLEARED_MAPPING)
    }

    ghost function Rows(): seq<Row>
      requires Valid()
      reads this, clients, basicModes, mappings
    {
      Zip(clients[..count], basicModes[..count])
    }

    ghost function Mappings(): seq<IdMapping>
      requires Valid()
      reads this, clients, basicModes, mappings
    {
      mappings[..mappingCount]
    }

    /** client_registry_init. */
    constructor ()
      ensures Valid() && Rows() == [] && Mappings() == []
      ensures fresh(clients) && fresh(basicModes) && fresh(mappings)
    {
      clients := new Client[MAX_CLIENTS](_ => CLEARED_CLIENT);
      basicModes := new bool[MAX_CLIENTS](_ => true);
      mappings := new IdMapping[MAX_CLIENTS](_ => CLEARED_MAPPING);
      count, mappingCount := 0, 0;
    }

    /** apps/server/main/client_registry.c: client_registry_get, as an index. */
    method Get(id: string) returns (i: int)
      requires Valid()
      ensures i == Find(Rows(), id)
    {
      i := 0;
      while i < count
        invariant 0 <= i <= count
        invariant forall k | 0 <= k < i :: !SameId(clients[k].id, id)
      {
        if SameId(clients[i].id, id) {
          FindIsFirst(Rows(), id, i);
          return;
        }
        i := i + 1;
      }
      FindIsFirst(Rows(), id, -1);
      return -1;
    }

    /** client_registry_resolve_id. */
    method ResolveId(id: string) returns (r: string)
      requires Valid()
      ensures r == Resolved(Mappings(), id)
    {
      var i := 0;
      while i < mappingCount
        invariant 0 <= i <= mappingCount
        invariant forall k | 0 <= k < i :: !SameId(mappings[k].oldId, id)
      {
        if SameId(mappings[i].oldId, id) {
          return mappings[i].newId;
        }
        i := i + 1;
      }
      return id;
    }

    /** client_registry_get_basic_mode. */
    method GetBasicMode(id: string) returns (basic: bool)
      requires Valid()
      ensures basic == var i := Find(Rows(), id); if i < 0 then true else Rows()[i].basic
    {
      var i := Get(id);
      return if i < 0 then true else basicModes[i];
    }

    /** client_registry_set_basic_mode. */
    method SetBasicMode(id: string, value: bool) returns (err: int)
      requires Valid()
      modifies basicModes
      ensures Valid() && Mappings() == old(Mappings())
      ensures var i := Find(old(Rows()), id);
        if i < 0 then err == -1 && Rows() == old(Rows())
        else err == 0 && Rows() == old(Rows())[i := old(Rows())[i].(basic := value)]
    {
      var i := Get(id);
      if i < 0 {
        return -1;
      }
      if basicModes[i] != value {
        basicModes[i] := value;
      }
      return 0;
    }

    /** The compaction both client_registry_update and client_registry_delete do: close the gap in both arrays and clear the
        slot that becomes free. */
    method RemoveAt(i: nat)
      requires Valid() && i < count
      modifies this`count, clients, basicModes
      ensures Valid() && Mappings() == old(Mappings()) && count == old(count) - 1
      ensures Rows() == Without(old(Rows()), i)
    {
      ghost var cs, bs := clients[..count], basicModes[..count];
      CloseGap(clients, i, count, CLEARED_CLIENT);
      CloseGap(basicModes, i, count, true);
      count := count - 1;
      ZipWithout(cs, bs, i);
    }

    /** client_registry_clear_id_mapping. */
    method ClearIdMapping(oldId: string)
      requires Valid()
      modifies this`mappingCount, mappings
      ensures Valid() && Rows() == old(Rows())
      ensures Mappings() == WithoutMapping(old(Mappings()), oldId)
    {
      if oldId == "" {
        return;
      }
      ghost var ms := mappings[..mappingCount];
      var i := 0;
      while i < mappingCount
        invariant 0 <= i <= mappingCount == |ms| && mappings[..mappingCount] == ms && Valid()
        invariant forall k | 0 <= k < i :: !SameId(ms[k].oldId, oldId)
      {
        if SameId(mappings[i].oldId, oldId) {
          RemoveMappingAt(i);
          MappingIsFirst(ms, oldId, i);
          return;
        }
        i := i + 1;
      }
      MappingIsFirst(ms, oldId, -1);
    }

    method RemoveMappingAt(i: nat)
      requires Valid() && i < mappingCount
      modifies this`mappingCount, mappings
      ensures Valid() && Rows() == old(Rows())
      ensures Mappings() == Without(old(Mappings()), i)
    {
      CloseGap(mappings, i, mappingCount, CLEARED_MAPPING);
      mappingCount := mappingCount - 1;
    }

    /** apps/server/main/client_registry.c: client_registry_delete, without the save to flash. */
    method Delete(id: string) returns (err: int)
      requires Valid()
      modifies this`count, clients, basicModes
      ensures Valid() && Mappings() == old(Mappings())
      ensures var i := if id == "" then -1 else Find(old(Rows()), id);
        if i < 0 then err == -1 && Rows() == old(Rows()) else err == 0 && Rows() == Without(old(Rows()), i)
    {
      if id == "" {
        return -1;
      }
      var i := Get(id);
      if i < 0 {
        return -1;
      }
      RemoveAt(i);
      return 0;
    }

    /** client_registry_rename_id. */
    method RenameId(oldId: string, newId: string) returns (err: int)
      requires Valid()
      modifies this`mappingCount, clients, mappings
      ensures Valid()
      ensures (err, Rows(), Mappings()) == Renamed(old(Rows()), old(Mappings()), oldId, newId)
    {
      if oldId == "" || newId == "" {
        return -1;
      }
      if SameId(oldId, newId) {
        return 0;
      }
      var c := Get(oldId);
      if c < 0 {
        return -1;
      }
      var taken := Get(newId);
      if taken >= 0 {
        return -1;
      }
      var full := AddMapping(oldId, newId);
      if full {
        return -1;
      }
      PutClient(c, clients[c].(id := Cut(newId, ID_LEN - 1)));
      return 0;
    }

    /** Assignment to a used slot of the client table. */
    method PutClient(i: nat, c: Client)
      requires Valid() && i < count && Fits(c)
      modifies clients
      ensures Valid() && Mappings() == old(Mappings())
      ensures Rows() == old(Rows())[i := old(Rows())[i].(client := c)]
    {
      clients[i] := c;
    }

    /** The search of client_registry_rename_id for a mapping to update, and the new mapping otherwise. */
    method AddMapping(oldId: string, newId: string) returns (full: bool)
      requires Valid()
      modifies this`mappingCount, mappings
      ensures Valid() && Rows() == old(Rows())
      ensures full == (FindMapping(old(Mappings()), oldId) < 0 && |old(Mappings())| >= MAX_CLIENTS)
      ensures Mappings() == if full then old(Mappings()) else WithMapping(old(Mappings()), oldId, newId)
    {
      ghost var ms := mappings[..mappingCount];
      var i := 0;
      while i < mappingCount
        invariant 0 <= i <= mappingCount == |ms| && mappings[..mappingCount] == ms
        invariant forall k | 0 <= k < i :: !SameId(ms[k].oldId, oldId)
      {
        if SameId(mappings[i].oldId, oldId) {
          MappingIsFirst(ms, oldId, i);
          mappings[i] := mappings[i].(newId := Cut(newId, ID_LEN - 1));
          assert mappings[..mappingCount] == ms[i := ms[i].(newId := Cut(newId, ID_LEN - 1))];
          return false;
        }
        i := i + 1;
      }
      MappingIsFirst(ms, oldId, -1);
      if mappingCount >= MAX_CLIENTS {
        return true;
      }
      mappings[mappingCount] := IdMapping(Cut(oldId, ID_LEN - 1), Cut(newId, ID_LEN - 1));
      mappingCount := mappingCount + 1;
      assert mappings[..mappingCount] == ms + [IdMapping(Cut(oldId, ID_LEN - 1), Cut(newId, ID_LEN - 1))];
      return false;
    }

    /** The deduplication in client_registry_update: a new client takes over the data and the slot of the client last seen at
        its address. */
    method Evict(store: Store, id: string, ip: string, opens: bool) returns (moved: Option<string>)
      requires Valid() && store.Valid()
      modifies this`count, this`mappingCount, clients, basicModes, mappings, store
      ensures Valid() && store.Valid()
      ensures Rows() == AfterEviction(old(Rows()), id, ip)
      ensures var e := Evicted(old(Rows()), id, ip);
        && moved == (if e < 0 then None else Some(old(Rows())[e].client.id))
        && Mappings() == (if e < 0 then old(Mappings()) else WithoutMapping(old(Mappings()), moved.value))
        && store.files == (if e < 0 then old(store.files) else RenamedFiles(old(store.files), moved.value, id, opens))
        && store.history == (if e < 0 then old(store.history)
                             else RenamedHistory(old(store.files), old(store.history), moved.value, id, opens))
    {
      var c := Get(id);
      if c >= 0 || ip == "" {
        return None;
      }
      var i := 0;
      while i < count && (Cut(clients[i].ip, IP_LEN) != Cut(ip, IP_LEN) || SameId(clients[i].id, id))
        invariant 0 <= i <= count
        invariant forall k | 0 <= k < i :: Cut(clients[k].ip, IP_LEN) != Cut(ip, IP_LEN)
      {
        assert !SameId(Rows()[i].client.id, id);
        i := i + 1;
      }
      if i == count {
        FindIpIsFirst(Rows(), ip, -1);
        return None;
      }
      FindIpIsFirst(Rows(), ip, i);
      moved := Migrate(store, i, id, opens);
    }

    /** What happens to the client found there: its data moves to the new id, its mapping and its slot go. */
    method Migrate(store: Store, i: nat, id: string, opens: bool) returns (moved: Option<string>)
      requires Valid() && store.Valid() && i < count
      modifies this`count, this`mappingCount, clients, basicModes, mappings, store
      ensures Valid() && store.Valid()
      ensures Rows() == Without(old(Rows()), i) && moved == Some(old(Rows())[i].client.id)
      ensures Mappings() == WithoutMapping(old(Mappings()), moved.value)
      ensures store.files == RenamedFiles(old(store.files), moved.value, id, opens)
      ensures store.history == RenamedHistory(old(store.files), old(store.history), moved.value, id, opens)
    {
      var was := clients[i].id;
      moved := Some(was);
      var err := store.RenameClient(was, id, opens);
      ClearIdMapping(was);
      RemoveAt(i);
    }

    /** A fresh slot for a client. */
    method AddClient(id: string)
      requires Valid() && count < MAX_CLIENTS
      modifies this`count, clients, basicModes
      ensures Valid() && Mappings() == old(Mappings()) && count == old(count) + 1
      ensures Rows() == old(Rows()) + [Row(CLEARED_CLIENT.(id := Cut(id, ID_LEN - 1)), true)]
    {
      clients[count] := clients[count].(id := Cut(id, ID_LEN - 1));
      basicModes[count] := true;
      count := count + 1;
    }

    /** Name, address and presence of a client that is registered by now. */
    method Refresh(i: nat, name: string, ip: string, overwrite: bool, now: u32)
      requires Valid() && i < count
      modifies clients
      ensures Valid() && Mappings() == old(Mappings())
      ensures Rows() == old(Rows())[i := Refreshed(old(Rows())[i], name, ip, overwrite, now)]
    {
      var c := clients[i];
      if name != "" && (overwrite || c.name == "") {
        c := c.(name := Cut(name, NAME_LEN - 1));
      }
      if ip != "" {
        c := c.(ip := Cut(ip, IP_LEN - 1));
      }
      c := c.(lastSeen := now, online := true);
      PutClient(i, c);
    }

    /** apps/server/main/client_registry.c: client_registry_update. opens says whether the data store can create the new file
        of a migrated client. moved is the id whose data was moved to the new id. */
    method Update(store: Store, id: string, name: string, ip: string, overwrite: bool, now: u32, opens: bool)
      returns (err: int, moved: Option<string>)
      requires Valid() && store.Valid()
      modifies this`count, this`mappingCount, clients, basicModes, mappings, store
      ensures Valid() && store.Valid()
      ensures Rows() == Updated(old(Rows()), id, name, ip, overwrite, now)
      ensures var kept := AfterEviction(old(Rows()), id, ip);
        err == if Find(kept, id) < 0 && |kept| >= MAX_CLIENTS then -1 else 0
      ensures var e := Evicted(old(Rows()), id, ip);
        && moved == (if e < 0 then None else Some(old(Rows())[e].client.id))
        && Mappings() == (if e < 0 then old(Mappings()) else WithoutMapping(old(Mappings()), moved.value))
        && store.files == (if e < 0 then old(store.files) else RenamedFiles(old(store.files), moved.value, id, opens))
        && store.history == (if e < 0 then old(store.history)
                             else RenamedHistory(old(store.files), old(store.history), moved.value, id, opens))
    {
      moved := Evict(store, id, ip, opens);
      err := Enrol(id, name, ip, overwrite, now);
    }

    /** The rest of client_registry_update: find the client or give it a fresh slot, then refresh it. */
    method Enrol(id: string, name: string, ip: string, overwrite: bool, now: u32) returns (err: int)
      requires Valid()
      modifies this`count, clients, basicModes
      ensures Valid() && Mappings() == old(Mappings())
      ensures Rows() == Enrolled(old(Rows()), id, name, ip, overwrite, now)
      ensures err == if Find(old(Rows()), id) < 0 && |old(Rows())| >= MAX_CLIENTS then -1 else 0
    {
      var i := Get(id);
      if i < 0 {
        if count >= MAX_CLIENTS {
          return -1;
        }
        AddClient(id);
        i := count - 1;
      }
      Refresh(i, name, ip, overwrite, now);
      return 0;
    }
  }

  function WithMapping(ms: seq<IdMapping>, oldId: string, newId: string): seq<IdMapping> {
    var i := FindMapping(ms, oldId);
    if i >= 0 then ms[i := ms[i].(newId := Cut(newId, ID_LEN - 1))]
    else ms + [IdMapping(Cut(oldId, ID_LEN - 1), Cut(newId, ID_LEN - 1))]
  }

  /** The result, rows and mappings after client_registry_rename_id. */
  function Renamed(rows: seq<Row>, ms: seq<IdMapping>, oldId: string, newId: string): (int, seq<Row>, seq<IdMapping>) {
    var c := Find(rows, oldId);
    if oldId == "" || newId == "" then (-1, rows, ms)
    else if SameId(oldId, newId) then (0, rows, ms)
    else if c < 0 || Find(rows, newId) >= 0 then (-1, rows, ms)
    else if FindMapping(ms, oldId) < 0 && |ms| >= MAX_CLIENTS then (-1, rows, ms)
    else (0, rows[c := rows[c].(client := rows[c].client.(id := Cut(newId, ID_LEN - 1)))], WithMapping(ms, oldId, newId))
  }

  lemma MappingIsFirst(ms: seq<IdMapping>, id: string, i: int)
    requires -1 <= i < |ms|
    requires i >= 0 ==> SameId(ms[i].oldId, id) && forall k | 0 <= k < i :: !SameId(ms[k].oldId, id)
    requires i < 0 ==> forall k | 0 <= k < |ms| :: !SameId(ms[k].oldId, id)
    ensures FindMapping(ms, id) == i
  {}

  predicate Fits(c: Client) {
    |c.id| < ID_LEN && |c.name| < NAME_LEN && |c.ip| < IP_LEN
  }

  lemma FindIpIsFirst(rows: seq<Row>, ip: string, i: int)
    requires -1 <= i < |rows|
    requires i >= 0 ==> Cut(rows[i].client.ip, IP_LEN) == Cut(ip, IP_LEN) && forall k | 0 <= k < i :: Cut(rows[k].client.ip, IP_LEN) != Cut(ip, IP_LEN)
    requires i < 0 ==> forall k | 0 <= k < |rows| :: Cut(rows[k].client.ip, IP_LEN) != Cut(ip, IP_LEN)
    ensures FindIp(rows, ip) == i
  {}

  lemma FindIsFirst(rows: seq<Row>, id: string, i: int)
    requires -1 <= i < |rows|
    requires i >= 0 ==> SameId(rows[i].client.id, id) && forall k | 0 <= k < i :: !SameId(rows[k].client.id, id)
    requires i < 0 ==> forall k | 0 <= k < |rows| :: !SameId(rows[k].client.id, id)
    ensures Find(rows, id) == i
  {}

  // ----- the rows as an insertion-ordered map

  /** Stored ids fit their field and no two rows have the same one. */
  ghost predicate Keyed(rows: seq<Row>) {
    && (forall k | 0 <= k < |rows| :: |rows[k].client.id| < ID_LEN)
    && (forall j, k | 0 <= j < k < |rows| :: rows[j].client.id != rows[k].client.id)
  }

  ghost predicate KeyedMappings(ms: seq<IdMapping>) {
    && (forall k | 0 <= k < |ms| :: |ms[k].oldId| < ID_LEN)
    && (forall j, k | 0 <= j < k < |ms| :: ms[j].oldId != ms[k].oldId)
  }

  ghost function Lookup(rows: seq<Row>, id: string): Option<Row> {
    var i := Find(rows, id);
    if i < 0 then None else Some(rows[i])
  }

  /** Where a keyed row is found. */
  lemma FindKeyed(rows: seq<Row>, i: nat)
    requires Keyed(rows) && i < |rows|
    ensures Find(rows, rows[i].client.id) == i
  {}

  lemma LookupWithout(rows: seq<Row>, i: nat, other: string)
    requires Keyed(rows) && i < |rows|
    ensures Keyed(Without(rows, i))
    ensures Lookup(Without(rows, i), other) == if Cut(other, ID_LEN) == rows[i].client.id then None else Lookup(rows, other)
  {
    var kept := Without(rows, i);
    assert forall k | 0 <= k < |kept| :: kept[k] == rows[if k < i then k else k + 1];
    var j := Find(rows, other);
    if j >= 0 && j != i {
      FindIsFirst(kept, other, if j < i then j else j - 1);
    } else {
      if j == i {
        assert forall k | 0 <= k < |rows| && k != i :: rows[k].client.id != rows[i].client.id;
      }
      FindIsFirst(kept, other, -1);
    }
  }

  /** Removing a client leaves every other client's row, name and basic-mode flag included, as it was. */
  lemma DeleteIsMapRemoval(rows: seq<Row>, id: string, other: string)
    requires Keyed(rows) && Find(rows, id) >= 0
    ensures Keyed(Without(rows, Find(rows, id)))
    ensures Lookup(Without(rows, Find(rows, id)), other) == if SameId(other, id) then None else Lookup(rows, other)
  {
    LookupWithout(rows, Find(rows, id), other);
  }

  lemma LookupReplaced(rows: seq<Row>, i: nat, row: Row, other: string)
    requires Keyed(rows) && i < |rows| && row.client.id == rows[i].client.id
    ensures Keyed(rows[i := row])
    ensures Lookup(rows[i := row], other) == if Cut(other, ID_LEN) == row.client.id then Some(row) else Lookup(rows, other)
  {
    FindIsFirst(rows[i := row], other, Find(rows, other));
    if Cut(other, ID_LEN) == row.client.id {
      FindKeyed(rows, i);
      FindIsFirst(rows, other, i);
    }
  }

  lemma LookupAppended(rows: seq<Row>, row: Row, other: string)
    requires Keyed(rows) && |row.client.id| < ID_LEN && Find(rows, row.client.id) < 0
    ensures Keyed(rows + [row])
    ensures Lookup(rows + [row], other) == if Cut(other, ID_LEN) == row.client.id then Some(row) else Lookup(rows, other)
  {
    var j := Find(rows, other);
    if j >= 0 {
      FindIsFirst(rows + [row], other, j);
    } else {
      FindIsFirst(rows + [row], other, if Cut(other, ID_LEN) == row.client.id then |rows| else -1);
    }
  }

  /** Registering a client with an id that fits its field is a map update: the evicted client goes, the client itself is
      refreshed or added last, and every other row is untouched. */
  lemma UpdateIsMapUpdate(rows: seq<Row>, id: string, name: string, ip: string, overwrite: bool, now: u32, other: string)
    requires Keyed(rows) && |rows| <= MAX_CLIENTS && |id| < ID_LEN
    ensures var rows' := Updated(rows, id, name, ip, overwrite, now);
      var e := Evicted(rows, id, ip);
      var full := Find(rows, id) < 0 && e < 0 && |rows| == MAX_CLIENTS;
      && Keyed(rows') && |rows'| <= MAX_CLIENTS
      && Lookup(rows', other) ==
           if SameId(other, id) then
             (if full then None
              else Some(Refreshed(Lookup(rows, id).GetOr(Row(CLEARED_CLIENT.(id := id), true)), name, ip, overwrite, now)))
           else if e >= 0 && Cut(other, ID_LEN) == rows[e].client.id then None
           else Lookup(rows, other)
  {
    var e := Evicted(rows, id, ip);
    var kept := AfterEviction(rows, id, ip);
    if e >= 0 {
      LookupWithout(rows, e, other);
      LookupWithout(rows, e, id);
    }
    var i := Find(kept, id);
    if i >= 0 {
      LookupReplaced(kept, i, Refreshed(kept[i], name, ip, overwrite, now), other);
    } else if |kept| < MAX_CLIENTS {
      LookupAppended(kept, Refreshed(Row(CLEARED_CLIENT.(id := Cut(id, ID_LEN - 1)), true), name, ip, overwrite, now), other);
    }
  }

  /** An id that does not fit keeps the ids distinct exactly when it is refused or its stored part is still free. */
  lemma LongIdCondition(rows: seq<Row>, id: string, name: string, ip: string, overwrite: bool, now: u32)
    requires Keyed(rows) && |id| >= ID_LEN
    ensures var kept := AfterEviction(rows, id, ip);
      Keyed(Updated(rows, id, name, ip, overwrite, now)) <==> |kept| >= MAX_CLIENTS || Find(kept, id[..ID_LEN - 1]) < 0
  {
    var kept := AfterEviction(rows, id, ip);
    var e := Evicted(rows, id, ip);
    if e >= 0 {
      LookupWithout(rows, e, id);
    }
    assert Find(kept, id) < 0;
    if |kept| < MAX_CLIENTS {
      var row := Refreshed(Row(CLEARED_CLIENT.(id := id[..ID_LEN - 1]), true), name, ip, overwrite, now);
      if Find(kept, id[..ID_LEN - 1]) < 0 {
        LookupAppended(kept, row, id);
      } else {
        var j := Find(kept, id[..ID_LEN - 1]);
        assert (kept + [row])[j].client.id == (kept + [row])[|kept|].client.id;
      }
    }
  }

  /** A successful rename keeps the row, its place and its flag under the new id, and uploads under the old id are routed to it. */
  lemma RenameRoutes(rows: seq<Row>, ms: seq<IdMapping>, oldId: string, newId: string, other: string)
    requires Keyed(rows) && KeyedMappings(ms) && |newId| < ID_LEN && |oldId| < ID_LEN && oldId != newId
    requires Renamed(rows, ms, oldId, newId).0 == 0
    ensures var (err, rows', ms') := Renamed(rows, ms, oldId, newId);
      && Keyed(rows') && KeyedMappings(ms') && |rows'| == |rows|
      && Resolved(ms', oldId) == newId
      && Find(rows', newId) == Find(rows, oldId)
      && Lookup(rows', newId) == Some(rows[Find(rows, oldId)].(client := rows[Find(rows, oldId)].client.(id := newId)))
      && Lookup(rows', oldId) == None
      && (!SameId(other, oldId) && !SameId(other, newId) ==> Lookup(rows', other) == Lookup(rows, other))
      && (!SameId(other, oldId) ==> Resolved(ms', other) == Resolved(ms, other))
  {
    var (err, rows', ms') := Renamed(rows, ms, oldId, newId);
    var c := Find(rows, oldId);
    FindIsFirst(rows', newId, c);
    FindIsFirst(rows', oldId, -1);
    if !SameId(other, oldId) && !SameId(other, newId) {
      FindIsFirst(rows', other, Find(rows, other));
    }
    MappingAdded(ms, oldId, newId, other);
  }

  lemma AddedKeyed(ms: seq<IdMapping>, oldId: string, newId: string)
    requires KeyedMappings(ms) && |oldId| < ID_LEN
    ensures KeyedMappings(WithMapping(ms, oldId, newId))
  {}

  lemma MappingAdded(ms: seq<IdMapping>, oldId: string, newId: string, other: string)
    requires KeyedMappings(ms) && |oldId| < ID_LEN && |newId| < ID_LEN
    ensures var ms' := WithMapping(ms, oldId, newId);
      && KeyedMappings(ms') && Resolved(ms', oldId) == newId
      && (!SameId(other, oldId) ==> Resolved(ms', other) == Resolved(ms, other))
  {
    var ms' := WithMapping(ms, oldId, newId);
    var i := FindMapping(ms, oldId);
    AddedKeyed(ms, oldId, newId);
    MappingIsFirst(ms', oldId, if i >= 0 then i else |ms|);
    if !SameId(other, oldId) {
      MappingIsFirst(ms', other, FindMapping(ms, other));
    }
  }

  lemma StillKeyed(ms: seq<IdMapping>, i: nat)
    requires KeyedMappings(ms) && i < |ms|
    ensures KeyedMappings(Without(ms, i))
    ensures forall k | 0 <= k < |ms| && k != i :: ms[k].oldId != ms[i].oldId
  {}

  lemma MappingRemoved(ms: seq<IdMapping>, i: nat, other: string)
    requires KeyedMappings(ms) && i < |ms|
    ensures KeyedMappings(Without(ms, i))
    ensures Resolved(Without(ms, i), other) == if Cut(other, ID_LEN) == ms[i].oldId then other else Resolved(ms, other)
  {
    var ms' := Without(ms, i);
    StillKeyed(ms, i);
    var j := FindMapping(ms, other);
    MappingIsFirst(ms', other, if j < 0 || j == i then -1 else if j < i then j else j - 1);
  }

  /** Clearing a mapping makes exactly its old id resolve to itself again. */
  lemma MappingCleared(ms: seq<IdMapping>, oldId: string, other: string)
    requires KeyedMappings(ms) && oldId != "" && |oldId| < ID_LEN
    ensures var ms' := WithoutMapping(ms, oldId);
      KeyedMappings(ms') && Resolved(ms', other) == if SameId(other, oldId) then other else Resolved(ms, other)
  {
    var i := FindMapping(ms, oldId);
    if i >= 0 {
      MappingRemoved(ms, i, other);
    } else if SameId(other, oldId) {
      MappingIsFirst(ms, other, -1);
    }
  }

  // ----- when an update evicts, and what it writes, in terms of the rows alone

  ghost predicate Unknown(rows: seq<Row>, id: string) {
    forall k | 0 <= k < |rows| :: !SameId(rows[k].client.id, id)
  }

  ghost predicate NobodyAt(rows: seq<Row>, ip: string) {
    forall k | 0 <= k < |rows| :: Cut(rows[k].client.ip, IP_LEN) != Cut(ip, IP_LEN)
  }

  /** The first row with this address. */
  ghost predicate FirstAt(rows: seq<Row>, ip: string, i: nat) {
    i < |rows| && Cut(rows[i].client.ip, IP_LEN) == Cut(ip, IP_LEN) && NobodyAt(rows[..i], ip)
  }

  /** The first row with this id. */
  ghost predicate FirstWith(rows: seq<Row>, id: string, i: nat) {
    i < |rows| && SameId(rows[i].client.id, id) && Unknown(rows[..i], id)
  }

  lemma FoundFirst(rows: seq<Row>, id: string, i: nat)
    requires FirstWith(rows, id, i)
    ensures Find(rows, id) == i
  {
    assert forall k | 0 <= k < i :: rows[..i][k] == rows[k];
    FindIsFirst(rows, id, i);
  }

  /** Where an id leads: to the new id of the first mapping for it, followed once, or to itself. */
  lemma ResolvedMeans(ms: seq<IdMapping>, id: string, i: nat)
    ensures (forall k | 0 <= k < |ms| :: !SameId(ms[k].oldId, id)) ==> Resolved(ms, id) == id
    ensures i < |ms| && SameId(ms[i].oldId, id) && (forall k | 0 <= k < i :: !SameId(ms[k].oldId, id)) ==> Resolved(ms, id) == ms[i].newId
  {}

  /** A new client at a known address takes the place of the first client there, however full the registry: that row goes, and
      the new one comes last, in basic mode. */
  lemma NewAtKnownAddress(rows: seq<Row>, id: string, name: string, ip: string, overwrite: bool, now: u32, i: nat)
    requires Unknown(rows, id) && ip != "" && FirstAt(rows, ip, i) && |rows| <= 16
    ensures Evicted(rows, id, ip) == i
    ensures Updated(rows, id, name, ip, overwrite, now) ==
            rows[..i] + rows[i + 1..] + [Row(Client(Cut(id, 31), Cut(name, 31), now, true, Cut(ip, 15)), true)]
  {
    assert forall k | 0 <= k < i :: rows[..i][k] == rows[k];
    FindIpIsFirst(rows, ip, i);
    FindIsFirst(rows, id, -1);
    FindIsFirst(Without(rows, i), id, -1);
  }

  /** Otherwise nobody is evicted: not by a known client, without an address, or from an address that is new. */
  lemma NobodyEvicted(rows: seq<Row>, id: string, ip: string)
    requires !Unknown(rows, id) || ip == "" || NobodyAt(rows, ip)
    ensures Evicted(rows, id, ip) < 0
  {}

  /** A new client from a new address, or without one, is added last, if there is room. */
  lemma NewAtNewAddress(rows: seq<Row>, id: string, name: string, ip: string, overwrite: bool, now: u32)
    requires Unknown(rows, id) && (ip == "" || NobodyAt(rows, ip))
    ensures Updated(rows, id, name, ip, overwrite, now) ==
            if |rows| >= 16 then rows
            else rows + [Row(Client(Cut(id, 31), Cut(name, 31), now, true, Cut(ip, 15)), true)]
  {
    FindIsFirst(rows, id, -1);
    NobodyEvicted(rows, id, ip);
  }

  /** A known client keeps its place, id and flag; it is seen now, at the address it gives if any. Its name changes only if one
      is given and either it had none or the caller overwrites. */
  lemma KnownIsRefreshed(rows: seq<Row>, id: string, name: string, ip: string, overwrite: bool, now: u32, i: nat)
    requires FirstWith(rows, id, i)
    ensures var rows', was := Updated(rows, id, name, ip, overwrite, now), rows[i];
      && |rows'| == |rows| && (forall k | 0 <= k < |rows| && k != i :: rows'[k] == rows[k])
      && rows'[i].basic == was.basic && rows'[i].client.id == was.client.id
      && rows'[i].client.online && rows'[i].client.lastSeen == now
      && rows'[i].client.ip == (if ip == "" then was.client.ip else Cut(ip, 15))
      && (name == "" || (was.client.name != "" && !overwrite) ==> rows'[i].client.name == was.client.name)
      && (name != "" && (was.client.name == "" || overwrite) ==> rows'[i].client.name == Cut(name, 31))
  {
    FoundFirst(rows, id, i);
    NobodyEvicted(rows, id, ip);
  }

  /** A rename is refused, and then changes nothing, exactly for an empty id, an unknown old or a known new one, or no room for
      the mapping. */
  lemma RenameRefused(rows: seq<Row>, ms: seq<IdMapping>, oldId: string, newId: string)
    ensures var (err, rows', ms') := Renamed(rows, ms, oldId, newId);
      && (err != 0 <==>
            || oldId == "" || newId == ""
            || (!SameId(oldId, newId) &&
                 (Unknown(rows, oldId) || !Unknown(rows, newId) || (|ms| >= 16 && forall k | 0 <= k < |ms| :: !SameId(ms[k].oldId, oldId)))))
      && (err != 0 || SameId(oldId, newId) ==> rows' == rows && ms' == ms)
  {}

  /** The eviction on the objects: a new client at a known address has the first client's data from then on, and that client is
      gone from the registry and from the files. */
  method TakeOver(r: Registry, store: Store, id: string, name: string, ip: string, overwrite: bool, now: u32, ghost i: nat)
    returns (err: int, moved: Option<string>)
    requires r.Valid() && store.Valid() && Keyed(r.Rows()) && id != "" && |id| < ID_LEN
    requires Unknown(r.Rows(), id) && ip != "" && FirstAt(r.Rows(), ip, i)
    requires var was := r.Rows()[i].client.id; was != "" && was in store.files && store.files[was].Recognised()
    modifies r`count, r`mappingCount, r.clients, r.basicModes, r.mappings, store
    ensures r.Valid() && store.Valid() && err == 0
    ensures var was := old(r.Rows())[i].client.id;
      && moved == Some(was) && Find(r.Rows(), was) < 0 && was !in store.files
      && r.Rows() == old(r.Rows())[..i] + old(r.Rows())[i + 1..] + [Row(Client(id, Cut(name, 31), now, true, Cut(ip, 15)), true)]
      && id in store.files && store.WindowOf(id) == old(store.WindowOf(r.Rows()[i].client.id))
  {
    ghost var rows, window := r.Rows(), store.WindowOf(r.Rows()[i].client.id);
    NewAtKnownAddress(rows, id, name, ip, overwrite, now, i);
    GoneFor(rows, id, name, ip, overwrite, now, i);
    err, moved := r.Update(store, id, name, ip, overwrite, now, true);
  }

  lemma GoneFor(rows: seq<Row>, id: string, name: string, ip: string, overwrite: bool, now: u32, i: nat)
    requires Keyed(rows) && |rows| <= 16 && |id| < ID_LEN && Unknown(rows, id) && ip != "" && FirstAt(rows, ip, i)
    ensures Find(Updated(rows, id, name, ip, overwrite, now), rows[i].client.id) < 0
    ensures Find(AfterEviction(rows, id, ip), id) < 0
  {
    NewAtKnownAddress(rows, id, name, ip, overwrite, now, i);
    UpdateIsMapUpdate(rows, id, name, ip, overwrite, now, rows[i].client.id);
    FindIsFirst(Without(rows, i), id, -1);
  }

  // ----- whole runs

  /** One call of the registry, with the arguments that matter for its tables. */
  datatype Call =
    | Save(id: string, name: string, ip: string, overwrite: bool, now: u32)
    | Rename(oldId: string, newId: string)
    | SetMode(id: string, value: bool)
    | Remove(id: string)
    | Clear(id: string)

  predicate IdsFit(c: Call) {
    match c
    case Rename(oldId, newId) => |oldId| < ID_LEN && |newId| < ID_LEN
    case Save(id, _, _, _, _) => |id| < ID_LEN
    case SetMode(id, _) => |id| < ID_LEN
    case Remove(id) => |id| < ID_LEN
    case Clear(id) => |id| < ID_LEN
  }

  /** The tables after a call, as the contracts of the registry's methods give them. */
  function Tables(rows: seq<Row>, ms: seq<IdMapping>, c: Call): (seq<Row>, seq<IdMapping>) {
    match c
    case Save(id, name, ip, overwrite, now) =>
      var e := Evicted(rows, id, ip);
      (Updated(rows, id, name, ip, overwrite, now), if e < 0 then ms else WithoutMapping(ms, rows[e].client.id))
    case Rename(oldId, newId) => (Renamed(rows, ms, oldId, newId).1, Renamed(rows, ms, oldId, newId).2)
    case SetMode(id, value) =>
      var i := Find(rows, id);
      (if i < 0 then rows else rows[i := rows[i].(basic := value)], ms)
    case Remove(id) =>
      var i := if id == "" then -1 else Find(rows, id);
      (if i < 0 then rows else Without(rows, i), ms)
    case Clear(id) => (rows, WithoutMapping(ms, id))
  }

  ghost predicate InOrder(rows: seq<Row>, ms: seq<IdMapping>) {
    Keyed(rows) && KeyedMappings(ms) && |rows| <= MAX_CLIENTS && |ms| <= MAX_CLIENTS
  }

  lemma SaveKeepsOrder(rows: seq<Row>, ms: seq<IdMapping>, id: string, name: string, ip: string, overwrite: bool, now: u32)
    requires InOrder(rows, ms) && |id| < ID_LEN
    ensures var e := Evicted(rows, id, ip);
      InOrder(Updated(rows, id, name, ip, overwrite, now), if e < 0 then ms else WithoutMapping(ms, rows[e].client.id))
  {
    UpdateIsMapUpdate(rows, id, name, ip, overwrite, now, id);
    var e := Evicted(rows, id, ip);
    if e >= 0 && rows[e].client.id != "" {
      MappingCleared(ms, rows[e].client.id, id);
    }
  }

  lemma CallKeepsOrder(rows: seq<Row>, ms: seq<IdMapping>, c: Call)
    requires InOrder(rows, ms) && IdsFit(c)
    ensures var (rows', ms') := Tables(rows, ms, c); InOrder(rows', ms')
  {
    match c {
      case Save(id, name, ip, overwrite, now) =>
        SaveKeepsOrder(rows, ms, id, name, ip, overwrite, now);
      case Rename(oldId, newId) =>
        if Renamed(rows, ms, oldId, newId).0 == 0 && oldId != newId {
          RenameRoutes(rows, ms, oldId, newId, oldId);
        }
      case SetMode(id, value) =>
        var i := Find(rows, id);
        if i >= 0 {
          LookupReplaced(rows, i, rows[i].(basic := value), id);
        }
      case Remove(id) =>
        if id != "" && Find(rows, id) >= 0 {
          DeleteIsMapRemoval(rows, id, id);
        }
      case Clear(id) =>
        if id != "" {
          MappingCleared(ms, id, id);
        }
    }
  }

  /** The tables after these calls. */
  function After(rows: seq<Row>, ms: seq<IdMapping>, calls: seq<Call>): (seq<Row>, seq<IdMapping>) {
    if calls == [] then (rows, ms)
    else
      var (rows', ms') := After(rows, ms, calls[..|calls| - 1]);
      Tables(rows', ms', calls[|calls| - 1])
  }

  /** Over any run of calls whose ids fit their fields, client ids and mapping keys stay distinct and both tables stay within
      their size. */
  lemma {:induction false} RunKeepsOrder(rows: seq<Row>, ms: seq<IdMapping>, calls: seq<Call>)
    requires InOrder(rows, ms) && forall c :: c in calls ==> IdsFit(c)
    ensures InOrder(After(rows, ms, calls).0, After(rows, ms, calls).1)
  {
    if calls != [] {
      var before := calls[..|calls| - 1];
      RunKeepsOrder(rows, ms, before);
      CallKeepsOrder(After(rows, ms, before).0, After(rows, ms, before).1, calls[|calls| - 1]);
    }
  }

  /** One call on a registry. opens says whether the data store can create the new file of a migrated client. */
  method Perform(r: Registry, store: Store, c: Call, opens: bool)
    requires r.Valid() && store.Valid()
    modifies r`count, r`mappingCount, r.clients, r.basicModes, r.mappings, store
    ensures r.Valid() && store.Valid()
    ensures (r.Rows(), r.Mappings()) == Tables(old(r.Rows()), old(r.Mappings()), c)
  {
    match c {
      case Save(id, name, ip, overwrite, now) =>
        var err, moved := r.Update(store, id, name, ip, overwrite, now, opens);
      case Rename(oldId, newId) =>
        var err := r.RenameId(oldId, newId);
      case SetMode(id, value) =>
        var err := r.SetBasicMode(id, value);
      case Remove(id) =>
        var err := r.Delete(id);
      case Clear(id) =>
        r.ClearIdMapping(id);
    }
  }

  /** Any run of calls on a registry: its tables are what the calls say, and in order. */
  method PerformAll(r: Registry, store: Store, calls: seq<Call>, opens: bool)
    requires r.Valid() && store.Valid() && InOrder(r.Rows(), r.Mappings()) && forall c :: c in calls ==> IdsFit(c)
    modifies r`count, r`mappingCount, r.clients, r.basicModes, r.mappings, store
    ensures r.Valid() && store.Valid()
    ensures (r.Rows(), r.Mappings()) == After(old(r.Rows()), old(r.Mappings()), calls)
    ensures InOrder(r.Rows(), r.Mappings())
  {
    ghost var rows, ms := r.Rows(), r.Mappings();
    for k := 0 to |calls|
      invariant r.Valid() && store.Valid()
      invariant (r.Rows(), r.Mappings()) == After(rows, ms, calls[..k])
    {
      assert calls[..k + 1][..k] == calls[..k];
      Perform(r, store, calls[k], opens);
    }
    assert calls[..|calls|] == calls;
    RunKeepsOrder(rows, ms, calls);
  }
}
