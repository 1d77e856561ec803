/**
 The transactions of internal/store/discoveries.go over the tables, statement by
 statement, and the scan recorder of the orchestrator on top of them. Each ends in the
 state the `Discoveries` module gives for it.
 */
module DiscoveryStore {
  import opened MacAddr
  import opened Options
  import opened Prefix
  import opened Discoveries
  import opened DiscoveryLaws
  import Subnets

  datatype Upserted = Upserted(id: Id, status: ReviewStatus, reconcile: Reconcile)

  datatype Imports = Success(address: Id, device: Id) | NotFound | NoSubnet

  class Store {
    var subnets: Subnets.Table
    var addresses: map<Id, Address>
    var devices: map<Id, Device>
    var macs: map<Mac, MacRow>
    var discoveries: map<Id, Discovery>
    var next: Id

    constructor ()
      ensures State() == Tables(map[], map[], map[], map[], map[], 0)
    {
      subnets, addresses, devices, macs, discoveries, next := map[], map[], map[], map[], map[], 0;
    }

    ghost function State(): Tables
      reads this
    {
      Tables(subnets, addresses, devices, macs, discoveries, next)
    }

    method Token() returns (id: Id)
      modifies this`next
      ensures id == old(next) && next == old(next) + 1
    {
      id := next;
      next := next + 1;
    }

    /** `reconcileDiscovery`. */
    method ReconcileDiscovery(ip: Addr, mac: Option<Mac>) returns (verdict: Reconcile)
      requires Valid(State())
      ensures verdict == Reconciled(State(), ip, mac)
    {
      if !exists a :: a in addresses && addresses[a].ip == ip {
        if mac.Some? && mac.value in macs {
          var device := macs[mac.value].device;
          if exists a :: a in addresses && addresses[a].device == Some(device) && addresses[a].ip != ip {
            return Conflict;
          }
        }
        return New;
      }
      var a :| a in addresses && addresses[a].ip == ip;
      var row := addresses[a];
      var macCount := |set m | m in macs && Some(macs[m].device) == row.device|;
      var macMatch := mac.Some? && mac.value in macs && Some(macs[mac.value].device) == row.device;
      assert macCount > 0 <==> MacsOf(macs, row.device) != {} by {
        assert MacsOf(macs, row.device) == set m | m in macs && Some(macs[m].device) == row.device;
      }
      if mac.Some? && macCount > 0 && !macMatch {
        return Conflict;
      }
      if row.state == Deprecated {
        return Conflict;
      }
      return Match;
    }

    /** `UpsertDiscovery`. */
    method UpsertDiscovery(s: Sighting, now: nat) returns (out: Upserted)
      requires Valid(State())
      modifies this
      ensures State() == Observed(old(State()), s, now)
      ensures out.id == RowFor(old(State()), s.ip) && out.id in discoveries
      ensures out.status == discoveries[out.id].status && out.reconcile == discoveries[out.id].reconcile
    {
      var verdict := ReconcileDiscovery(s.ip, s.mac);
      var id := InsertOrMerge(s, verdict);
      if verdict != New {
        addresses := map a | a in addresses :: if addresses[a].ip == s.ip then addresses[a].(lastSeen := Some(now)) else addresses[a];
      }
      out := Upserted(id, discoveries[id].status, verdict);
    }

    /** The upsert statement, keyed by IP. */
    method InsertOrMerge(s: Sighting, verdict: Reconcile) returns (id: Id)
      requires UniqueDiscovered(discoveries) && DrawnBefore(discoveries.Keys, next)
      modifies this`discoveries, this`next
      ensures next == old(next) + 1 && id == RowFor(old(State()), s.ip)
      ensures discoveries == old(discoveries)[id := if id in old(discoveries) then Merged(old(discoveries)[id], s, verdict) else First(s, verdict)]
    {
      id := Token();
      if exists d :: d in discoveries && discoveries[d].ip == s.ip {
        id :| id in discoveries && discoveries[id].ip == s.ip;
        discoveries := discoveries[id := Merged(discoveries[id], s, verdict)];
      } else {
        discoveries := discoveries[id := First(s, verdict)];
      }
    }

    method BackfillSubnetVLAN(ip: Addr, vlan: Vlan)
      modifies this`subnets
      ensures subnets == WithVlan(old(subnets), ip, vlan)
    {
      if vlan <= 0 {
        return;
      }
      subnets := map s | s in subnets :: Tagged(subnets[s], ip, vlan);
    }

    /** `resolveImportDevice`. */
    method ResolveImportDevice(row: Discovery) returns (device: Option<Id>)
      ensures device == ReusedDevice(State(), row)
    {
      if row.device.Some? {
        if row.device.value in devices {
          return row.device;
        }
      }
      if row.mac.Some? && row.mac.value in macs {
        return Some(macs[row.mac.value].device);
      }
      return None;
    }

    method AttachDiscoveryMAC(device: Id, mac: Mac, reported: string)
      modifies this`macs
      ensures macs == WithMac(old(macs), device, Some(mac), reported)
    {
      var vendor, isPrivate := reported, IsPrivate(mac);
      if vendor == "" {
        vendor := KnownVendor(mac);
      }
      if mac in macs {
        var row := macs[mac];
        if row.vendor == "" && vendor != "" {
          macs := macs[mac := row.(vendor := vendor)];
        }
      } else {
        macs := macs[mac := MacRow(device, vendor, isPrivate)];
      }
    }

    /** `importDiscoveryDevice`: the device is reused or created, stamped with the findings, and given the MAC. */
    method ImportDiscoveryDevice(row: Discovery, name: string, generated: string) returns (device: Id)
      requires MacRefs(macs, devices.Keys) && DrawnBefore(devices.Keys, next)
      modifies this`devices, this`macs, this`next
      ensures device == DeviceFor(old(State()), row) && next == old(next) + 1
      ensures device in devices
      ensures devices == old(devices)[device := if device in old(devices) then Rescanned(old(devices)[device], row, name) else NewDevice(row, name, generated)]
      ensures macs == WithMac(old(macs), device, row.mac, row.vendor)
    {
      var existing := ResolveImportDevice(row);
      var source := row.agent;
      if source == "" {
        source := "scan";
      }
      device := Token();
      if existing.None? {
        var deviceName := name;
        if deviceName == "" {
          deviceName := row.hostname;
        }
        if deviceName == "" {
          deviceName := generated;
        }
        devices := devices[device := Device(deviceName, row.facts, source)];
      } else {
        device := existing.value;
        var was := devices[device];
        devices := devices[device := Device(if name != "" then name else was.name, Refreshed(was.facts, row.facts), source)];
      }
      if row.mac.Some? {
        AttachDiscoveryMAC(device, row.mac.value, row.vendor);
      }
    }

    /** The subnet query: the longest prefix that contains the address. */
    method FindContainingSubnet(ip: Addr) returns (home: Option<string>)
      requires Subnets.Valid(subnets)
      ensures home == HomeOf(subnets, ip)
    {
      home := None;
      var bits: int := -1;
      var rest := subnets.Keys;
      while rest != {}
        invariant rest <= subnets.Keys
        invariant bits >= 0 <==> home.Some?
        invariant home.Some? ==> home.value in subnets && Contains(subnets[home.value].cidr, ip) && bits == subnets[home.value].cidr.bits
        invariant forall s :: s in subnets && s !in rest && Contains(subnets[s].cidr, ip) ==> subnets[s].cidr.bits <= bits
        decreases rest
      {
        var s :| s in rest;
        rest := rest - {s};
        if Contains(subnets[s].cidr, ip) && subnets[s].cidr.bits > bits {
          home, bits := Some(s), subnets[s].cidr.bits;
        }
      }
      var spec := HomeOf(subnets, ip);
      if home.Some? && spec.Some? {
        Subnets.ContainingSubnetUnique(subnets, ip, home.value, spec.value);
      }
    }

    /** The address statement: one row per IP. */
    method UpsertAddress(row: Discovery, home: string, device: Id, now: nat) returns (address: Id)
      requires UniqueIps(addresses) && DrawnBefore(addresses.Keys, next)
      modifies this`addresses, this`next
      ensures next == old(next) + 1
      ensures address == match AddressAt(old(addresses), row.ip) case Some(a) => a case None => old(next)
      ensures addresses == Assign(old(addresses), address, row, home, device, now)
    {
      address := Token();
      if exists a :: a in addresses && addresses[a].ip == row.ip {
        address :| address in addresses && addresses[address].ip == row.ip;
        var was := addresses[address];
        addresses := addresses[address := was.(subnet := Some(home), device := Some(device),
          hostname := if row.hostname != "" then row.hostname else was.hostname, lastSeen := Some(now))];
      } else {
        addresses := addresses[address := Address(row.ip, Some(home), Some(device), Assigned, row.hostname, Some(now))];
      }
    }

    /** `ImportDiscovery`. */
    method ImportDiscovery(id: Id, name: string, generated: string, now: nat) returns (r: Imports)
      requires Valid(State())
      modifies this
      ensures match Import(old(State()), id, name, generated, now)
        case NoSuchDiscovery => r == NotFound && State() == old(State())
        case NoContainingSubnet => r == NoSubnet && State() == old(State())
        case Done(t) => State() == t && r.Success? && t.discoveries[id].address == Some(r.address) && t.discoveries[id].device == Some(r.device)
    {
      if id !in discoveries {
        return NotFound;
      }
      var row := discoveries[id];
      var home := FindContainingSubnet(row.ip);
      if home.None? {
        return NoSubnet;
      }
      var device, address := WriteImport(id, home.value, name, generated, now);
      return Success(address, device);
    }

    /** The statements of an import whose subnet was found. */
    method WriteImport(id: Id, home: string, name: string, generated: string, now: nat) returns (device: Id, address: Id)
      requires Sound(State()) && id in discoveries
      modifies this
      ensures device == DeviceFor(old(State()), old(discoveries)[id]) && address == AddressFor(old(State()), old(discoveries)[id].ip)
      ensures State() == Promoted(old(State()), id, home, device, address, name, generated, now)
    {
      var row := discoveries[id];
      BackfillSubnetVLAN(row.ip, row.vlan);
      device := ImportDiscoveryDevice(row, name, generated);
      address := UpsertAddress(row, home, device, now);
      discoveries := discoveries[id := row.(status := Imported, address := Some(address), device := Some(device))];
    }

    /** `SyncImportedDiscovery`. */
    method SyncImportedDiscovery(id: Id) returns (device: Option<Id>)
      requires Valid(State())
      modifies this
      ensures State() == Synced(old(State()), id)
      ensures device == if Syncable(old(State()), id) then old(discoveries)[id].device else None
    {
      if id !in discoveries {
        return None;
      }
      var row := discoveries[id];
      if row.status != Imported || row.device.None? || row.device.value !in devices {
        return None;
      }
      device := row.device;
      var was := devices[device.value];
      devices := devices[device.value := was.(facts := Refreshed(was.facts, row.facts), source := if row.agent == "" then "scan" else row.agent)];
      if row.mac.Some? {
        AttachDiscoveryMAC(device.value, row.mac.value, row.vendor);
      }
      if row.hostname != "" && row.address.Some? {
        if row.address.value in addresses && addresses[row.address.value].hostname == "" {
          addresses := addresses[row.address.value := addresses[row.address.value].(hostname := row.hostname)];
        }
      }
      BackfillSubnetVLAN(row.ip, row.vlan);
    }

    /** `DismissDiscovery`. */
    method DismissDiscovery(id: Id) returns (found: bool)
      modifies this`discoveries
      ensures State() == AfterDismissal(old(State()), id)
      ensures found <==> id in old(discoveries) && old(discoveries)[id].status != Imported
      ensures discoveries == if found then old(discoveries)[id := old(discoveries)[id].(status := Dismissed)] else old(discoveries)
    {
      if id !in discoveries || discoveries[id].status == Imported {
        return false;
      }
      discoveries := discoveries[id := discoveries[id].(status := Dismissed)];
      return true;
    }

    /** `maybeAutoImport`. */
    method MaybeAutoImport(trusted: bool, result: Upserted, generated: string, now: nat) returns (imported: bool)
      requires Valid(State())
      modifies this
      ensures imported <==>
        trusted && result.status == Pending && result.reconcile != Conflict && Import(old(State()), result.id, "", generated, now).Done?
      ensures if imported then Import(old(State()), result.id, "", generated, now) == Done(State()) else State() == old(State())
    {
      if !trusted || result.status != Pending || result.reconcile == Conflict {
        return false;
      }
      var r := ImportDiscovery(result.id, "", generated, now);
      return r.Success?;
    }

    /** `recordDiscoveries`; the hardware auto-link that follows an import or a sync writes to the device groups only. */
    method RecordDiscoveries(trusted: bool, scan: seq<Option<Sighting>>, host: Addr -> string, now: nat) returns (recorded: nat, imported: nat, synced: nat)
      requires Valid(State())
      modifies this
      ensures State() == RecordedAll(old(State()), trusted, scan, host, now) && Valid(State())
      ensures Tally(recorded, imported, synced) == Tallied(old(State()), trusted, scan, host, now)
    {
      recorded, imported, synced := 0, 0, 0;
      for i := 0 to |scan|
        invariant Valid(State()) && State() == RecordedAll(old(State()), trusted, scan[..i], host, now)
        invariant Tally(recorded, imported, synced) == Tallied(old(State()), trusted, scan[..i], host, now)
      {
        OneMoreObservation(old(State()), trusted, scan, i, host, now);
        if scan[i].None? {
          continue;
        }
        var i', s' := RecordOne(trusted, scan[i].value, host(scan[i].value.ip), now);
        recorded, imported, synced := recorded + 1, imported + i', synced + s';
      }
      assert scan[..|scan|] == scan;
    }

    /** One observation; at most one of import and sync happens to it. */
    method RecordOne(trusted: bool, s: Sighting, generated: string, now: nat) returns (imported: nat, synced: nat)
      requires Valid(State())
      modifies this
      ensures Valid(State()) && State() == Recorded(old(State()), trusted, s, generated, now)
      ensures imported == (if BecomesImported(old(State()), trusted, s, generated, now) then 1 else 0)
      ensures synced == (if StaysImported(old(State()), s, now) then 1 else 0)
    {
      RecordedKeepsValid(State(), trusted, s, generated, now);
      ObservedKeepsValid(State(), s, now);
      BecomesImportedIff(State(), trusted, s, generated, now);
      imported, synced := 0, 0;
      var result := UpsertDiscovery(s, now);
      var done := MaybeAutoImport(trusted, result, generated, now);
      if done {
        imported := 1;
      } else if result.status == Imported && result.reconcile != Conflict {
        var _ := SyncImportedDiscovery(result.id);
        synced := 1;
      }
    }

    /** `DeleteAddress`. */
    method DeleteAddress(id: Id) returns (found: bool)
      modifies this
      ensures found <==> id in old(addresses)
      ensures State() == AddressDeleted(old(State()), id)
    {
      if id !in addresses {
        return false;
      }
      var device := addresses[id].device;
      addresses := addresses - {id};
      discoveries := map d | d in discoveries :: discoveries[d].(address := Without(discoveries[d].address, {id}));
      if device.Some? && !exists a :: a in addresses && addresses[a].device == device {
        assert AddressesOf(State(), device.value) == {};
        DeleteDeviceRow(device.value);
      }
      return true;
    }

    /** `DELETE FROM devices` with what the foreign keys do on it. */
    method DeleteDeviceRow(id: Id)
      modifies this
      ensures State() == DropDevices(old(State()), {id})
    {
      devices := devices - {id};
      macs := map m | m in macs && macs[m].device !in {id} :: macs[m];
      addresses := map a | a in addresses :: addresses[a].(device := Without(addresses[a].device, {id}));
      discoveries := map d | d in discoveries :: discoveries[d].(device := Without(discoveries[d].device, {id}));
    }

    /** `DeleteDevice`; an unknown id rolls the transaction back. */
    method DeleteDevice(id: Id) returns (found: bool)
      requires Valid(State())
      modifies this
      ensures found <==> id in old(devices)
      ensures State() == DeviceDeleted(old(State()), id)
    {
      if id !in devices {
        return false;
      }
      var gone := set a | a in addresses && addresses[a].device == Some(id);
      assert gone == AddressesOf(State(), id);
      addresses := addresses - gone;
      discoveries := map d | d in discoveries :: discoveries[d].(address := Without(discoveries[d].address, gone));
      DeleteDeviceRow(id);
      return true;
    }

    /** `CreateAddress`. */
    method CreateAddress(subnet: string, cidr: Prefix, input: Address) returns (ok: bool)
      modifies this`addresses, this`next
      ensures ok <==>
        && In(input.ip, cidr) && subnet in subnets && (input.device.None? || input.device.value in devices)
        && forall a :: a in old(addresses) ==> old(addresses)[a].ip != input.ip
      ensures addresses == if ok then old(addresses)[old(next) := Address(input.ip, Some(subnet), input.device, input.state, input.hostname, None)] else old(addresses)
      ensures State() == AddressCreated(old(State()), subnet, cidr, input)
    {
      ContainsIsMembership(cidr, input.ip);
      if !Contains(cidr, input.ip) || subnet !in subnets {
        return false;
      }
      if (input.device.Some? && input.device.value !in devices) || exists a :: a in addresses && addresses[a].ip == input.ip {
        return false;
      }
      var id := Token();
      addresses := addresses[id := input.(subnet := Some(subnet), lastSeen := None)];
      return true;
    }

    /** `UpdateAddress`. */
    method UpdateAddress(id: Id, cidr: Prefix, input: Address) returns (ok: bool)
      modifies this`addresses
      ensures ok <==>
        && In(input.ip, cidr) && id in old(addresses) && (input.device.None? || input.device.value in devices)
        && forall a :: a in old(addresses) && a != id ==> old(addresses)[a].ip != input.ip
      ensures ok ==> var was := old(addresses)[id];
        addresses == old(addresses)[id := Address(input.ip, was.subnet, input.device, input.state, input.hostname, was.lastSeen)]
      ensures !ok ==> addresses == old(addresses)
      ensures State() == AddressEdited(old(State()), id, cidr, input)
    {
      ContainsIsMembership(cidr, input.ip);
      if !Contains(cidr, input.ip) || id !in addresses {
        return false;
      }
      if (input.device.Some? && input.device.value !in devices) || exists a :: a in addresses && a != id && addresses[a].ip == input.ip {
        return false;
      }
      addresses := addresses[id := addresses[id].(ip := input.ip, device := input.device, state := input.state, hostname := input.hostname)];
      return true;
    }
  }

  // ----- the counts a scan is audited with -----

  /** The observation finds its host pending and leaves it imported. */
  ghost predicate BecomesImported(t: Tables, trusted: bool, s: Sighting, generated: string, now: nat) {
    var id, after := RowFor(t, s.ip), Recorded(t, trusted, s, generated, now);
    Observed(t, s, now).discoveries[id].status == Pending && id in after.discoveries && after.discoveries[id].status == Imported
  }

  /** The observation finds its host imported, and agrees with what is managed. */
  ghost predicate StaysImported(t: Tables, s: Sighting, now: nat) {
    var row := Observed(t, s, now).discoveries[RowFor(t, s.ip)];
    row.status == Imported && Reconciled(t, s.ip, s.mac) != Conflict
  }

  lemma BecomesImportedIff(t: Tables, trusted: bool, s: Sighting, generated: string, now: nat)
    ensures var u, id := Observed(t, s, now), RowFor(t, s.ip);
      BecomesImported(t, trusted, s, generated, now) <==>
        trusted && u.discoveries[id].status == Pending && u.discoveries[id].reconcile != Conflict && Import(u, id, "", generated, now).Done?
  {
  }

  datatype Tally = Tally(recorded: nat, imported: nat, synced: nat)

  ghost function Counting(tally: Tally, t: Tables, trusted: bool, s: Sighting, generated: string, now: nat): Tally {
    Tally(
      tally.recorded + 1,
      tally.imported + (if BecomesImported(t, trusted, s, generated, now) then 1 else 0),
      tally.synced + (if StaysImported(t, s, now) then 1 else 0))
  }

  ghost function Tallied(t: Tables, trusted: bool, scan: seq<Option<Sighting>>, host: Addr -> string, now: nat): Tally {
    if scan == [] then Tally(0, 0, 0)
    else
      var earlier, last := scan[..|scan| - 1], scan[|scan| - 1];
      var tally := Tallied(t, trusted, earlier, host, now);
      if last.None? then tally
      else Counting(tally, RecordedAll(t, trusted, earlier, host, now), trusted, last.value, host(last.value.ip), now)
  }

  ghost function Usable(scan: seq<Option<Sighting>>): set<nat> {
    set i: nat | i < |scan| && scan[i].Some?
  }

  lemma UsableSnoc(scan: seq<Option<Sighting>>)
    requires scan != []
    ensures var n := |scan| - 1;
      Usable(scan) == Usable(scan[..n]) + (if scan[n].Some? then {n} else {})
  {
    assert forall i :: 0 <= i < |scan| - 1 ==> scan[..|scan| - 1][i] == scan[i];
  }

  lemma CountingAddsUp(tally: Tally, t: Tables, trusted: bool, s: Sighting, generated: string, now: nat)
    requires tally.imported + tally.synced <= tally.recorded && (!trusted ==> tally.imported == 0)
    ensures var more := Counting(tally, t, trusted, s, generated, now);
      && more.recorded == tally.recorded + 1
      && more.imported + more.synced <= more.recorded && (!trusted ==> more.imported == 0)
  {
    BecomesImportedIff(t, trusted, s, generated, now);
  }

  /** Every usable observation is recorded, at most one of import and sync happens to it, and an untrusted agent's imports nothing. */
  lemma {:induction false} TallyAddsUp(t: Tables, trusted: bool, scan: seq<Option<Sighting>>, host: Addr -> string, now: nat)
    ensures var tally := Tallied(t, trusted, scan, host, now);
      && tally.recorded == |Usable(scan)|
      && tally.imported + tally.synced <= tally.recorded && (!trusted ==> tally.imported == 0)
  {
    if scan == [] {
      assert Usable(scan) == {};
    } else {
      var n := |scan| - 1;
      TallyAddsUp(t, trusted, scan[..n], host, now);
      UsableSnoc(scan);
      if scan[n].Some? {
        var s := scan[n].value;
        CountingAddsUp(Tallied(t, trusted, scan[..n], host, now), RecordedAll(t, trusted, scan[..n], host, now), trusted, s, host(s.ip), now);
      }
    }
  }

  lemma OneMoreObservation(t: Tables, trusted: bool, scan: seq<Option<Sighting>>, i: nat, host: Addr -> string, now: nat)
    requires i < |scan|
    ensures var was, tally := RecordedAll(t, trusted, scan[..i], host, now), Tallied(t, trusted, scan[..i], host, now);
      if scan[i].None? then
        RecordedAll(t, trusted, scan[..i + 1], host, now) == was && Tallied(t, trusted, scan[..i + 1], host, now) == tally
      else
        var s := scan[i].value;
        && RecordedAll(t, trusted, scan[..i + 1], host, now) == Recorded(was, trusted, s, host(s.ip), now)
        && Tallied(t, trusted, scan[..i + 1], host, now) == Counting(tally, was, trusted, s, host(s.ip), now)
  {
    assert scan[..i + 1][..i] == scan[..i];
  }
}
