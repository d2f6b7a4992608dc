/** Which network the station uses after a disconnect, and the delay it asks the retry task for. */
module WifiNetworks {
  const FAILOVER_THRESHOLD := 2
  const UINT32 := 0x1_0000_0000

  datatype Network = Network(ssid: string, configured: bool, lastRssi: int, failures: nat)

  /** One access point as the radio reported it. */
  datatype AccessPoint = AccessPoint(ssid: string, rssi: int)

  /** A scan fails as a whole, or yields a list; a list the driver could not hand over counts as empty. */
  datatype Scan = ScanFailed | Scanned(found: seq<AccessPoint>)

  /** r is the best signal among the access points with that name, or 0 when there is none. */
  ghost predicate IsStrongest(found: seq<AccessPoint>, ssid: string, r: int) {
    && (forall a :: a in found && a.ssid == ssid ==> a.rssi <= r)
    && (if exists a :: a in found && a.ssid == ssid then AccessPoint(ssid, r) in found else r == 0)
  }

  method FindRssi(found: seq<AccessPoint>, ssid: string) returns (r: int)
    ensures IsStrongest(found, ssid, r)
  {
    var best, seen := 0, false;
    for i := 0 to |found|
      invariant seen <==> exists k :: 0 <= k < i && found[k].ssid == ssid
      invariant seen ==> AccessPoint(ssid, best) in found[..i]
      invariant seen ==> forall k :: 0 <= k < i && found[k].ssid == ssid ==> found[k].rssi <= best
      invariant !seen ==> best == 0
    {
      if found[i].ssid == ssid {
        if !seen || found[i].rssi > best {
          best, seen := found[i].rssi, true;
        }
      }
    }
    return if seen then best else 0;
  }

  /** A network the last scan saw: a signal of 0 means it did not. */
  predicate Visible(n: Network) {
    n.configured && n.lastRssi != 0
  }

  /** The strongest visible network, the first one on a tie. */
  predicate IsBest(nets: seq<Network>, b: int) {
    && 0 <= b < |nets| && Visible(nets[b])
    && (forall i :: 0 <= i < |nets| && Visible(nets[i]) ==> nets[i].lastRssi <= nets[b].lastRssi)
    && (forall i :: 0 <= i < b && Visible(nets[i]) ==> nets[i].lastRssi < nets[b].lastRssi)
  }

  predicate AnyVisible(nets: seq<Network>) {
    exists i :: 0 <= i < |nets| && Visible(nets[i])
  }

  /** What a scan leaves of one table entry. */
  ghost predicate Rescanned(before: Network, after: Network, found: seq<AccessPoint>) {
    && after == before.(lastRssi := after.lastRssi)
    && (if before.configured then IsStrongest(found, before.ssid, after.lastRssi) else after.lastRssi == before.lastRssi)
  }

  /** A reason that says the password is wrong; retrying soon or elsewhere would not help. */
  predicate IsAuthFailure(reason: int) {
    reason == 2 || reason == 4 || reason == 204
  }

  /** The failure count after a disconnect: a wrong password starts it over. */
  function Tally(failures: nat, reason: int): nat {
    if IsAuthFailure(reason) then 0 else (failures + 1) % UINT32
  }

  function Counted(nets: seq<Network>, i: nat, failures: nat): seq<Network>
    requires i < |nets|
  {
    nets[i := nets[i].(failures := failures)]
  }

  class Station {
    const networks: array<Network>
    var count: nat
    var active: nat
    var retryDelay: nat
    var connected: bool

    ghost predicate Valid()
      reads this
    {
      count <= networks.Length && active < networks.Length
    }

    constructor (nets: array<Network>)
      requires nets.Length > 0
      ensures Valid() && networks == nets && count == nets.Length && active == 0
    {
      networks, count, active, retryDelay, connected := nets, nets.Length, 0, 60, false;
    }

    /** The scan loop: refreshes every configured entry's signal and finds the best. */
    method Rescan(found: seq<AccessPoint>) returns (best: int)
      requires Valid()
      modifies networks
      ensures forall i :: 0 <= i < count ==> Rescanned(old(networks[i]), networks[i], found)
      ensures forall i :: count <= i < networks.Length ==> networks[i] == old(networks[i])
      ensures if best == -1 then !AnyVisible(networks[..count]) else IsBest(networks[..count], best)
    {
      best := -1;
      var bestRssi := -127;
      for i := 0 to count
        invariant forall k :: 0 <= k < i ==> Rescanned(old(networks[k]), networks[k], found)
        invariant forall k :: i <= k < networks.Length ==> networks[k] == old(networks[k])
        invariant best == -1 || IsBest(networks[..i], best)
        invariant best == -1 ==> forall k :: 0 <= k < i ==> !Visible(networks[k])
        invariant best != -1 ==> 0 <= best < i && bestRssi == networks[best].lastRssi
      {
        if networks[i].configured {
          var rssi := FindRssi(found, networks[i].ssid);
          networks[i] := networks[i].(lastRssi := rssi);
          if rssi != 0 {
            if best == -1 || rssi > bestRssi {
              bestRssi := rssi;
              best := i;
            }
          }
        }
      }
    }

    /** scan_and_select_best: true exactly when a different network was chosen. */
    method ScanAndSelectBest(scan: Scan) returns (switched: bool)
      requires Valid()
      modifies this`active, networks
      ensures Valid()
      ensures switched <==> active != old(active)
      ensures count == 0 || scan.ScanFailed? ==> !switched && networks[..] == old(networks[..])
      ensures scan.Scanned? && count > 0 ==>
                if AnyVisible(networks[..count]) then IsBest(networks[..count], active) else !switched
      ensures switched ==> networks[active].failures == 0 && networks[active].configured && networks[active].lastRssi != 0
                           && AccessPoint(networks[active].ssid, networks[active].lastRssi) in scan.found
      ensures scan.Scanned? && count > 0 ==>
                forall i :: 0 <= i < networks.Length && !(switched && i == active) ==>
                  if i < count then Rescanned(old(networks[i]), networks[i], scan.found) else networks[i] == old(networks[i])
      ensures switched ==> Rescanned(old(networks[..])[active].(failures := 0), networks[active], scan.found)
    {
      if count == 0 || scan.ScanFailed? {
        return false;
      }
      var best := Rescan(scan.found);
      if best == -1 || best == active {
        return false;
      }
      active := best;
      networks[active] := networks[active].(failures := 0);
      assert IsBest(networks[..count], active);
      return true;
    }

    /** The handler's bookkeeping for one disconnect, up to the hand-off: what it asks the retry task for. */
    method OnDisconnect(reason: int, scan: Scan) returns (delay: nat, switched: bool)
      requires Valid()
      requires forall i :: 0 <= i < networks.Length ==> networks[i].failures < UINT32
      modifies this, networks
      ensures Valid() && !connected && count == old(count)
      ensures delay == if switched then 5 else if reason in {2, 4, 204} then 3600 else 60
      ensures switched <==> active != old(active)
      ensures var f := if old(active) >= count then old(networks[active].failures)
                       else if reason in {2, 4, 204} then 0
                       else (old(networks[active].failures) + 1) % 0x1_0000_0000;
              if count > 1 && f >= 2
              then
                && (scan.Scanned? && AnyVisible(networks[..count]) ==> IsBest(networks[..count], active))
                && (scan.Scanned? && !AnyVisible(networks[..count]) ==> !switched)
                && (scan.ScanFailed? ==> !switched && networks[..] == Counted(old(networks[..]), old(active), 0))
                && (scan.Scanned? ==> forall i :: 0 <= i < networks.Length ==>
                     var before := if i == active then old(networks[i]).(failures := 0) else Counted(old(networks[..]), old(active), 0)[i];
                     if i < count then Rescanned(before, networks[i], scan.found) else networks[i] == before)
              else !switched && networks[..] == Counted(old(networks[..]), old(active), f)
      ensures count > 1 ==> networks[active].failures < 2
    {
      connected := false;
      retryDelay := if IsAuthFailure(reason) then 3600 else 60;
      if count > 0 && active < count {
        var n := networks[active];
        networks[active] := n.(failures := Tally(n.failures, reason));
      }
      switched := false;
      if count > 1 && networks[active].failures >= FAILOVER_THRESHOLD {
        networks[active] := networks[active].(failures := 0);
        switched := ScanAndSelectBest(scan);
      }
      delay := if switched then 5 else retryDelay;
    }
  }

  /** Two disconnects in a row, neither for a wrong password, make a station with a choice look for a better network, and no
      fewer do: the first one only counts. A wrong password in between starts the count over. */
  method DisconnectTwice(s: Station, first: int, second: int, scan1: Scan, scan2: Scan)
    returns (switched1: bool, switched2: bool, delay2: nat)
    requires s.Valid() && s.count > 1 && s.active < s.count && s.networks[s.active].failures == 0
    requires forall i :: 0 <= i < s.networks.Length ==> s.networks[i].failures < UINT32
    requires first !in {2, 4, 204}
    modifies s, s.networks
    ensures s.Valid() && !switched1
    ensures second !in {2, 4, 204} && scan2.Scanned? && AnyVisible(s.networks[..s.count]) ==>
              IsBest(s.networks[..s.count], s.active) && (switched2 <==> s.active != old(s.active))
    ensures second in {2, 4, 204} ==> !switched2 && delay2 == 3600 && s.networks[..] == old(s.networks[..])
    ensures second !in {2, 4, 204} ==> delay2 == if switched2 then 5 else 60
  {
    ghost var before := s.networks[..];
    var delay1;
    delay1, switched1 := s.OnDisconnect(first, scan1);
    assert s.networks[..] == before[s.active := before[s.active].(failures := 1)];
    delay2, switched2 := s.OnDisconnect(second, scan2);
    if second in {2, 4, 204} {
      assert before[s.active].(failures := 0) == before[s.active];
    }
  }
}
