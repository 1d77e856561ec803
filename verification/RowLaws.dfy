/**
 What the transactions of the review queue write, column by column
 (internal/store/discoveries.go).
 */
module RowLaws {
  import opened MacAddr
  import opened Options
  import opened Prefix
  import opened Discoveries
  import opened DiscoveryLaws
  import Subnets

  // ----- what a write may leave, per table -----

  /** Each fact that was seen is taken over, and each that was not stays as it was. */
  ghost predicate Stamped(before: Facts, seen: Facts, after: Facts) {
    && after.osFamily == (if seen.osFamily == "" then before.osFamily else seen.osFamily)
    && after.osDetail == (if seen.osDetail == "" then before.osDetail else seen.osDetail)
    && after.hwSerial == (if seen.hwSerial == "" then before.hwSerial else seen.hwSerial)
    && after.hwObjectID == (if seen.hwObjectID == "" then before.hwObjectID else seen.hwObjectID)
    && after.services == (if seen.services == [] then before.services else seen.services)
  }

  /** The subnet of the address gets the VLAN if it has none; nothing else changes. */
  ghost predicate VlanFilled(before: Subnets.Table, after: Subnets.Table, ip: Addr, vlan: Vlan) {
    && after.Keys == before.Keys
    && forall s :: s in before ==>
      after[s] == if vlan > 0 && before[s].vlan.None? && In(ip, before[s].cidr) then before[s].(vlan := Some(vlan)) else before[s]
  }

  function FirstNonEmpty(x: string, y: string): string {
    if x == "" then y else x
  }

  /** The MAC is recorded: a new one on the device, a known one where it was, its vendor filled in if it had none. */
  ghost predicate MacRecorded(before: map<Mac, MacRow>, after: map<Mac, MacRow>, device: Id, mac: Option<Mac>, reported: string) {
    match mac
    case None => after == before
    case Some(m) =>
      var vendor := FirstNonEmpty(reported, KnownVendor(m));
      && after.Keys == before.Keys + {m}
      && (forall x :: x in before && x != m ==> after[x] == before[x])
      && (m in before ==> after[m] == before[m].(vendor := FirstNonEmpty(before[m].vendor, vendor)))
      && (m !in before ==> after[m].device == device && after[m].vendor == vendor && (after[m].isPrivate <==> m / 0x100_0000_0000 % 4 == 2))
  }

  /** The address row is written at one id and no other row changes. */
  ghost predicate AddressWritten(before: map<Id, Address>, after: map<Id, Address>, a: Id, ip: Addr, home: string, device: Id, hostname: string, now: nat) {
    && after.Keys == before.Keys + {a}
    && (forall x :: x in before && x != a ==> after[x] == before[x] && before[x].ip != ip)
    && after[a].ip == ip && after[a].subnet == Some(home) && after[a].device == Some(device) && after[a].lastSeen == Some(now)
    && after[a].state == (if a in before then before[a].state else Assigned)
    && after[a].hostname == (if hostname != "" || a !in before then hostname else before[a].hostname)
  }

  /** The local bit set and the group bit clear, in the first of the six octets. */
  lemma PrivateBits(mac: Mac, first: nat, rest: nat)
    requires mac == first * 0x100_0000_0000 + rest && rest < 0x100_0000_0000
    ensures IsPrivate(mac) <==> first % 4 == 2
  {
    assert FirstOctet(mac) == first;
    assert first == 4 * (first / 4) + first % 4;
  }

  /** A vendor is looked up by the first three octets, and never for a private address. */
  lemma VendorByOui(mac: Mac, oui: nat, rest: nat)
    requires mac == oui * 0x100_0000 + rest && rest < 0x100_0000
    ensures KnownVendor(mac) == if oui / 0x1_0000 % 4 == 2 then "" else OuiVendor(oui)
  {
    assert mac == oui / 0x1_0000 * 0x100_0000_0000 + (oui % 0x1_0000 * 0x100_0000 + rest);
    PrivateBits(mac, oui / 0x1_0000, oui % 0x1_0000 * 0x100_0000 + rest);
    assert mac / 0x100_0000 == oui;
  }

  lemma VlanIsFilled(subnets: Subnets.Table, ip: Addr, vlan: Vlan)
    ensures VlanFilled(subnets, WithVlan(subnets, ip, vlan), ip, vlan)
  {
    forall s | s in subnets
      ensures Contains(subnets[s].cidr, ip) <==> In(ip, subnets[s].cidr)
    {
      ContainsIsMembership(subnets[s].cidr, ip);
    }
  }

  lemma MacIsRecorded(macs: map<Mac, MacRow>, device: Id, mac: Option<Mac>, reported: string)
    ensures MacRecorded(macs, WithMac(macs, device, mac, reported), device, mac, reported)
  {
    if mac.Some? {
      PrivateBits(mac.value, mac.value / 0x100_0000_0000, mac.value % 0x100_0000_0000);
    }
  }

  // ----- reconciliation -----

  /** The verdict on an observation, told by the rows alone. */
  lemma ReconciledIs(t: Tables, ip: Addr, mac: Option<Mac>)
    requires UniqueIps(t.addresses)
    ensures Reconciled(t, ip, mac) == New <==>
      && (forall a :: a in t.addresses ==> t.addresses[a].ip != ip)
      && !exists m, a :: mac == Some(m) && m in t.macs && a in t.addresses && t.addresses[a].device == Some(t.macs[m].device)
    ensures Reconciled(t, ip, mac) == Match <==>
      exists a :: a in t.addresses && t.addresses[a].ip == ip && t.addresses[a].state != Deprecated && Agrees(t, t.addresses[a], mac)
  {
    match AddressAt(t.addresses, ip)
    case None =>
      if mac.Some? && mac.value in t.macs {
        if a :| a in t.addresses && t.addresses[a].device == Some(t.macs[mac.value].device) {
          assert t.addresses[a].ip != ip;
        }
      }
    case Some(a) => AgreesIs(t, t.addresses[a], mac);
  }

  /** Nothing was seen of a MAC, or it is one of the device's, or the device has none. */
  ghost predicate Agrees(t: Tables, row: Address, mac: Option<Mac>) {
    match mac
    case None => true
    case Some(m) =>
      || (m in t.macs && row.device == Some(t.macs[m].device))
      || forall x :: x in t.macs ==> row.device != Some(t.macs[x].device)
  }

  lemma AgreesIs(t: Tables, row: Address, mac: Option<Mac>)
    ensures Agrees(t, row, mac) <==> !ContradictsMacs(t.macs, row.device, mac)
  {
    var own := MacsOf(t.macs, row.device);
    assert own != {} <==> exists x :: x in t.macs && row.device == Some(t.macs[x].device) by {
      if own != {} {
        var x :| x in own;
      }
      if x :| x in t.macs && row.device == Some(t.macs[x].device) {
        assert x in own;
      }
    }
  }

  // ----- recording -----

  /** The discovery row an observation leaves, column by column. */
  lemma ObservationWrites(t: Tables, s: Sighting, now: nat)
    requires Valid(t)
    ensures var u := Observed(t, s, now);
      exists d :: d in u.discoveries && u.discoveries.Keys == t.discoveries.Keys + {d} && u.discoveries[d].ip == s.ip
        && (forall x :: x in t.discoveries && x != d ==> u.discoveries[x] == t.discoveries[x] && t.discoveries[x].ip != s.ip)
        && u.discoveries[d].reconcile == Reconciled(t, s.ip, s.mac) && u.discoveries[d].agent == s.agent
        && (d !in t.discoveries ==> SeenFirst(s, u.discoveries[d]))
        && (d in t.discoveries ==> SeenAgain(t.discoveries[d], s, u.discoveries[d]))
    ensures var u := Observed(t, s, now);
      && u.subnets == t.subnets && u.devices == t.devices && u.macs == t.macs && u.addresses.Keys == t.addresses.Keys
      && forall a :: a in t.addresses ==>
        u.addresses[a] == if t.addresses[a].ip == s.ip then t.addresses[a].(lastSeen := Some(now)) else t.addresses[a]
  {
    var u, d := Observed(t, s, now), RowFor(t, s.ip);
    assert d in u.discoveries;
    if d in t.discoveries {
      assert SeenAgain(t.discoveries[d], s, u.discoveries[d]);
    }
  }

  ghost predicate SeenFirst(s: Sighting, row: Discovery) {
    && row.mac == s.mac && row.vendor == s.vendor && row.hostname == s.hostname && row.facts == s.facts && row.vlan == s.vlan
    && row.status == Pending && row.address.None? && row.device.None?
  }

  /** What a later observation does not tell stays known. */
  ghost predicate SeenAgain(was: Discovery, s: Sighting, row: Discovery) {
    && row.mac == (if s.mac.None? then was.mac else s.mac)
    && row.vendor == (if s.vendor == "" then was.vendor else s.vendor)
    && row.hostname == (if s.hostname == "" then was.hostname else s.hostname)
    && Stamped(was.facts, s.facts, row.facts)
    && row.vlan == (if s.vlan == 0 then was.vlan else s.vlan)
    && row.address == was.address && row.device == was.device
  }

  // ----- importing -----

  /** The device of the earlier import if it still exists, else the owner of the MAC, else a new one. */
  ghost predicate Chosen(t: Tables, row: Discovery, device: Id) {
    if row.device.Some? && row.device.value in t.devices then row.device == Some(device)
    else if row.mac.Some? && row.mac.value in t.macs then t.macs[row.mac.value].device == device
    else device !in t.devices
  }

  /** A reused device keeps its name unless the operator gives one; a new one is named by operator, host or address. */
  ghost predicate DeviceWritten(before: map<Id, Device>, after: map<Id, Device>, device: Id, row: Discovery, name: string, generated: string) {
    && after.Keys == before.Keys + {device}
    && (forall x :: x in before && x != device ==> after[x] == before[x])
    && after[device].source == FirstNonEmpty(row.agent, "scan")
    && (device in before ==> after[device].name == FirstNonEmpty(name, before[device].name) && Stamped(before[device].facts, row.facts, after[device].facts))
    && (device !in before ==> after[device].name == FirstNonEmpty(name, FirstNonEmpty(row.hostname, generated)) && after[device].facts == row.facts)
  }

  lemma PromotionWrites(t: Tables, id: Id, home: string, device: Id, a: Id, name: string, generated: string, now: nat)
    requires UniqueIps(t.addresses) && id in t.discoveries
    requires var found := AddressAt(t.addresses, t.discoveries[id].ip); found == Some(a) || (found.None? && a !in t.addresses)
    ensures var u, row := Promoted(t, id, home, device, a, name, generated, now), t.discoveries[id];
      && VlanFilled(t.subnets, u.subnets, row.ip, row.vlan)
      && DeviceWritten(t.devices, u.devices, device, row, name, generated)
      && MacRecorded(t.macs, u.macs, device, row.mac, row.vendor)
      && AddressWritten(t.addresses, u.addresses, a, row.ip, home, device, row.hostname, now)
  {
    var row := t.discoveries[id];
    VlanIsFilled(t.subnets, row.ip, row.vlan);
    MacIsRecorded(t.macs, device, row.mac, row.vendor);
  }

  /** Everything an import writes. */
  lemma ImportWrites(t: Tables, id: Id, name: string, generated: string, now: nat)
    requires Valid(t) && Import(t, id, name, generated, now).Done?
    ensures var u, row := Import(t, id, name, generated, now).tables, t.discoveries[id];
      exists home, device, a :: home in t.subnets && In(row.ip, t.subnets[home].cidr) && Chosen(t, row, device)
        && VlanFilled(t.subnets, u.subnets, row.ip, row.vlan)
        && DeviceWritten(t.devices, u.devices, device, row, name, generated)
        && MacRecorded(t.macs, u.macs, device, row.mac, row.vendor)
        && AddressWritten(t.addresses, u.addresses, a, row.ip, home, device, row.hostname, now)
        && u.discoveries == t.discoveries[id := row.(status := Imported, address := Some(a), device := Some(device))]
  {
    var row := t.discoveries[id];
    var home, device, a := HomeOf(t.subnets, row.ip).value, DeviceFor(t, row), AddressFor(t, row.ip);
    ContainsIsMembership(t.subnets[home].cidr, row.ip);
    PromotionWrites(t, id, home, device, a, name, generated, now);
    assert Chosen(t, row, device);
  }

  // ----- syncing -----

  /** Everything a sync writes; a discovery that is not imported, or whose device is gone, changes nothing. */
  lemma SyncWrites(t: Tables, id: Id)
    ensures id in t.discoveries && t.discoveries[id].status == Imported && RefersInto(t.discoveries[id].device, t.devices.Keys) && t.discoveries[id].device.Some? ==>
      var u, row := Synced(t, id), t.discoveries[id];
      && VlanFilled(t.subnets, u.subnets, row.ip, row.vlan)
      && DeviceWritten(t.devices, u.devices, row.device.value, row, "", "")
      && MacRecorded(t.macs, u.macs, row.device.value, row.mac, row.vendor)
      && HostnameFilled(t.addresses, u.addresses, row.address, row.hostname)
      && u.discoveries == t.discoveries
    ensures !(id in t.discoveries && t.discoveries[id].status == Imported && RefersInto(t.discoveries[id].device, t.devices.Keys) && t.discoveries[id].device.Some?) ==>
      Synced(t, id) == t
  {
    if Syncable(t, id) {
      var row := t.discoveries[id];
      VlanIsFilled(t.subnets, row.ip, row.vlan);
      MacIsRecorded(t.macs, row.device.value, row.mac, row.vendor);
    }
  }

  /** The address the import recorded gets the host's name if it has none. */
  ghost predicate HostnameFilled(before: map<Id, Address>, after: map<Id, Address>, address: Option<Id>, hostname: string) {
    && after.Keys == before.Keys
    && forall a :: a in before ==>
      after[a] == if address == Some(a) && before[a].hostname == "" then before[a].(hostname := hostname) else before[a]
  }

  /** A scan of an imported host reaches its device: what it saw is on the device, and its MAC is recorded. */
  lemma ScanReachesDevice(t: Tables, trusted: bool, d: Id, device: Id, s: Sighting, generated: string, now: nat)
    requires Valid(t) && d in t.discoveries && t.discoveries[d].ip == s.ip && t.discoveries[d].status == Imported
    requires t.discoveries[d].address.Some? && t.discoveries[d].device == Some(device) && Reconciled(t, s.ip, s.mac) != Conflict
    ensures var u := Recorded(t, trusted, s, generated, now);
      && device in u.devices && u.devices[device].source == FirstNonEmpty(s.agent, "scan")
      && (s.facts.osFamily != "" ==> u.devices[device].facts.osFamily == s.facts.osFamily)
      && (s.facts.osDetail != "" ==> u.devices[device].facts.osDetail == s.facts.osDetail)
      && (s.facts.hwSerial != "" ==> u.devices[device].facts.hwSerial == s.facts.hwSerial)
      && (s.facts.hwObjectID != "" ==> u.devices[device].facts.hwObjectID == s.facts.hwObjectID)
      && (s.facts.services != [] ==> u.devices[device].facts.services == s.facts.services)
      && (s.mac.Some? ==> s.mac.value in u.macs)
  {
    var seen := Observed(t, s, now);
    DiscoveryAtUnique(t.discoveries, d);
    SyncWrites(seen, d);
  }

  /** A trusted agent's unconflicted observation of a pending host with a subnet manages it at once. */
  lemma TrustedScanManages(t: Tables, d: Id, s: Sighting, generated: string, now: nat)
    requires Valid(t) && d in t.discoveries && t.discoveries[d].ip == s.ip && t.discoveries[d].status == Pending
    requires Reconciled(t, s.ip, s.mac) != Conflict && exists h :: h in t.subnets && Contains(t.subnets[h].cidr, s.ip)
    ensures var u := Recorded(t, true, s, generated, now);
      exists a :: a in u.addresses && u.addresses[a].ip == s.ip && u.addresses[a].lastSeen == Some(now)
        && u.addresses[a].device.Some? && u.addresses[a].device.value in u.devices
        && u.discoveries[d].address == Some(a) && u.discoveries[d].device == u.addresses[a].device
  {
    var seen := Observed(t, s, now);
    ObservedKeepsValid(t, s, now);
    ObservationReviews(t, s, now, d);
    assert HomeOf(seen.subnets, s.ip).Some?;
    ImportWrites(seen, d, "", generated, now);
  }

  // ----- deletions -----

  /** Deleting a device takes with it exactly its addresses and its MACs. */
  lemma DeletingADevice(t: Tables, id: Id)
    requires Valid(t) && id in t.devices
    ensures var u := DeviceDeleted(t, id);
      && u.subnets == t.subnets && u.devices == t.devices - {id}
      && (forall a :: a in u.addresses <==> a in t.addresses && t.addresses[a].device != Some(id))
      && (forall a :: a in u.addresses ==> u.addresses[a] == t.addresses[a])
      && (forall m :: m in u.macs <==> m in t.macs && t.macs[m].device != id)
      && (forall m :: m in u.macs ==> u.macs[m] == t.macs[m])
      && ReferencesCleared(t, u)
  {
    var own := AddressesOf(t, id);
    assert forall a :: a in own <==> a in t.addresses && t.addresses[a].device == Some(id);
  }

  /** The discoveries are all still there; a reference is cleared exactly when its row is gone, and nothing else changes. */
  ghost predicate ReferencesCleared(t: Tables, u: Tables) {
    && u.discoveries.Keys == t.discoveries.Keys
    && forall d :: d in t.discoveries ==> var was, left := t.discoveries[d], u.discoveries[d];
      && left == was.(address := left.address, device := left.device)
      && left.address == (if was.address.Some? && was.address.value !in u.addresses then None else was.address)
      && left.device == (if was.device.Some? && was.device.value !in u.devices then None else was.device)
  }

  lemma DeletingAnAddressClears(t: Tables, id: Id)
    requires Valid(t) && id in t.addresses
    ensures ReferencesCleared(t, AddressDeleted(t, id)) && AddressDeleted(t, id).subnets == t.subnets
  {
  }

  /** A subnet write changes no table but the subnets, except that addresses of a deleted subnet stay without one. */
  lemma SubnetWriteClears(t: Tables, w: Subnets.Write)
    requires Valid(t) && Subnets.Admissible(t.subnets, w)
    ensures var u := SubnetWritten(t, w);
      && u.subnets == Subnets.AfterWrite(t.subnets, w)
      && u.devices == t.devices && u.macs == t.macs && u.discoveries == t.discoveries && u.addresses.Keys == t.addresses.Keys
      && forall a :: a in t.addresses ==> var was, left := t.addresses[a], u.addresses[a];
        && left == was.(subnet := left.subnet)
        && left.subnet == (if was.subnet.Some? && was.subnet.value !in u.subnets then None else was.subnet)
  {
  }
}
