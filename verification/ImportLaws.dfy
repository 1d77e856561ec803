/**
 What importing a discovery promises: what a scan on its own may change, when a later
 observation agrees with an import, and what importing again does.
 */
module ImportLaws {
  import opened MacAddr
  import opened Options
  import opened Prefix
  import opened Discoveries
  import opened DiscoveryLaws
  import Subnets

  // ----- the VLAN backfill -----

  /** With subnets disjoint the backfill writes to the containing subnet only, and never over a VLAN. */
  lemma BackfillWritesOneRow(subnets: Subnets.Table, ip: Addr, vlan: Vlan, s: string)
    requires Subnets.Valid(subnets) && s in subnets
    ensures WithVlan(subnets, ip, vlan)[s] != subnets[s] <==>
      vlan > 0 && subnets[s].vlan.None? && HomeOf(subnets, ip) == Some(s)
    ensures WithVlan(subnets, ip, vlan)[s] == subnets[s] || WithVlan(subnets, ip, vlan)[s] == subnets[s].(vlan := Some(vlan))
  {
    if Contains(subnets[s].cidr, ip) {
      HomeUnique(subnets, ip, s);
    }
  }

  // ----- a scan without auto-import -----

  /**
   No subnet, address or device is created, deleted or renamed; empty columns may be filled,
   and the time an address answered refreshed. A MAC may be attached, and none changes its device.
  */
  ghost predicate OnlyRefreshed(t: Tables, u: Tables) {
    && u.subnets.Keys == t.subnets.Keys && u.addresses.Keys == t.addresses.Keys && u.devices.Keys == t.devices.Keys
    && (forall s :: s in t.subnets ==> u.subnets[s] == t.subnets[s] || (t.subnets[s].vlan.None? && u.subnets[s] == t.subnets[s].(vlan := u.subnets[s].vlan)))
    && (forall a :: a in t.addresses ==> AddressRefreshed(t.addresses[a], u.addresses[a]))
    && (forall d :: d in t.devices ==> u.devices[d].name == t.devices[d].name)
    && (forall m :: m in t.macs ==> m in u.macs && u.macs[m].device == t.macs[m].device)
  }

  predicate AddressRefreshed(was: Address, left: Address) {
    && left == was.(hostname := left.hostname, lastSeen := left.lastSeen)
    && (was.hostname != "" ==> left.hostname == was.hostname)
  }

  lemma OnlyRefreshedTransitive(t: Tables, u: Tables, v: Tables)
    requires OnlyRefreshed(t, u) && OnlyRefreshed(u, v)
    ensures OnlyRefreshed(t, v)
  {
    forall a | a in t.addresses
      ensures AddressRefreshed(t.addresses[a], v.addresses[a])
    {
      assert AddressRefreshed(t.addresses[a], u.addresses[a]) && AddressRefreshed(u.addresses[a], v.addresses[a]);
    }
  }

  lemma SyncOnlyRefreshes(t: Tables, id: Id)
    ensures OnlyRefreshed(t, Synced(t, id))
  {
    if Syncable(t, id) {
      var u, row := Synced(t, id), t.discoveries[id];
      assert u.subnets.Keys == t.subnets.Keys && u.addresses.Keys == t.addresses.Keys && u.devices.Keys == t.devices.Keys;
      WithMacOwners(t.macs, row.device.value, row.mac, row.vendor);
    }
  }

  lemma UntrustedScanOnlyRefreshes(t: Tables, s: Sighting, generated: string, now: nat)
    ensures OnlyRefreshed(t, Recorded(t, false, s, generated, now))
  {
    var u, id := Observed(t, s, now), RowFor(t, s.ip);
    assert u.addresses.Keys == t.addresses.Keys;
    assert OnlyRefreshed(t, u);
    SyncOnlyRefreshes(u, id);
    OnlyRefreshedTransitive(t, u, Synced(u, id));
  }

  /** The scans of an agent without auto-import create, delete or rename no subnet, address or device. */
  lemma {:induction false} UntrustedScansOnlyRefresh(states: seq<Tables>, steps: seq<Step>)
    requires Run(states, steps)
    requires forall i :: 0 <= i < |steps| ==> steps[i].Scan? && !steps[i].trusted
    ensures OnlyRefreshed(states[0], states[|steps|])
    decreases |steps|
  {
    if steps != [] {
      var n := |steps| - 1;
      assert forall i :: 0 <= i < n + 1 ==> states[..n + 1][i] == states[i];
      assert forall i :: 0 <= i < n ==> steps[..n][i] == steps[i];
      UntrustedScansOnlyRefresh(states[..n + 1], steps[..n]);
      var t, step := states[n], steps[n];
      UntrustedScanOnlyRefreshes(t, step.sighting, step.generated, step.now);
      OnlyRefreshedTransitive(states[0], t, states[n + 1]);
    }
  }

  /** A conflicting observation, from any agent, changes nothing managed except the last-seen time at its address. */
  lemma ConflictChangesNothingManaged(t: Tables, trusted: bool, s: Sighting, generated: string, now: nat)
    requires Reconciled(t, s.ip, s.mac) == Conflict
    ensures var u := Recorded(t, trusted, s, generated, now);
      && u.subnets == t.subnets && u.devices == t.devices && u.macs == t.macs && u.addresses.Keys == t.addresses.Keys
      && forall a :: a in t.addresses ==>
        u.addresses[a] == if t.addresses[a].ip == s.ip then t.addresses[a].(lastSeen := Some(now)) else t.addresses[a]
  {
  }

  // ----- after an import -----

  /** The row an import leaves at the address. */
  lemma ImportedRow(t: Tables, id: Id, name: string, generated: string, now: nat)
    requires Valid(t) && Import(t, id, name, generated, now).Done?
    ensures var u, row := Import(t, id, name, generated, now).tables, t.discoveries[id];
      var a, device := AddressFor(t, row.ip), DeviceFor(t, row);
      && AddressAt(u.addresses, row.ip) == Some(a) && u.addresses[a].device == Some(device)
      && u.addresses[a].state == (if a in t.addresses then t.addresses[a].state else Assigned)
      && u.discoveries[id] == row.(status := Imported, address := Some(a), device := Some(device))
      && device in u.devices
  {
    var u, row := Import(t, id, name, generated, now).tables, t.discoveries[id];
    AssignKeepsUnique(t.addresses, row, AddressFor(t, row.ip), HomeOf(t.subnets, row.ip).value, DeviceFor(t, row), now);
  }

  /** What the device's MACs are once the observed one is attached. */
  lemma MacsAfterAttach(macs: map<Mac, MacRow>, device: Id, mac: Option<Mac>, vendor: string)
    ensures MacsOf(WithMac(macs, device, mac, vendor), Some(device)) ==
      MacsOf(macs, Some(device)) + if mac.Some? && mac.value !in macs then {mac.value} else {}
  {
  }

  /** Observing an imported host again agrees with the import, exactly when this holds before it. */
  ghost predicate Consistent(t: Tables, row: Discovery) {
    && (forall a :: a in t.addresses && t.addresses[a].ip == row.ip ==> t.addresses[a].state != Deprecated)
    && (row.mac.None? || row.mac.value !in t.macs || t.macs[row.mac.value].device == DeviceFor(t, row)
        || MacsOf(t.macs, Some(DeviceFor(t, row))) == {})
  }

  lemma ReobservationMatchesIff(t: Tables, id: Id, name: string, generated: string, now: nat)
    requires Valid(t) && Import(t, id, name, generated, now).Done?
    ensures var u, row := Import(t, id, name, generated, now).tables, t.discoveries[id];
      Reconciled(u, row.ip, row.mac) == if Consistent(t, row) then Match else Conflict
  {
    var row := t.discoveries[id];
    ImportedRow(t, id, name, generated, now);
    MacsAfterAttach(t.macs, DeviceFor(t, row), row.mac, row.vendor);
  }

  /** A host at a deprecated address, imported all the same: the next observation of it is a conflict. */
  lemma ImportMayConflict(generated: string, now: nat) returns (t: Tables, id: Id)
    ensures Valid(t) && id in t.discoveries && Import(t, id, "", generated, now).Done?
    ensures !Consistent(t, t.discoveries[id])
    ensures Reconciled(Import(t, id, "", generated, now).tables, t.discoveries[id].ip, t.discoveries[id].mac) == Conflict
  {
    var host := Address(7, Some("lan"), None, Deprecated, "", None);
    var seen := Discovery(7, None, "", "", Facts("", "", "", "", []), 0, "", Pending, Conflict, None, None);
    id := 1;
    t := Tables(map["lan" := Subnets.Subnet(Prefix(0, 0), "", "", None, "")], map[0 := host], map[], map[], map[1 := seen], 2);
    LoneHost(t, "lan", 0, 1);
    ReobservationMatchesIff(t, id, "", generated, now);
  }

  /** One subnet of all addresses, one address row without a device, and one discovery of it that was never imported. */
  lemma LoneHost(t: Tables, s: string, a: Id, d: Id)
    requires t.subnets.Keys == {s} && t.addresses.Keys == {a} && t.discoveries.Keys == {d} && t.devices == map[] && t.macs == map[]
    requires t.subnets[s].cidr == Prefix(0, 0) && t.addresses[a].subnet == Some(s) && t.addresses[a].device.None?
    requires t.discoveries[d].address.None? && t.discoveries[d].device.None? && a < t.next && d < t.next
    ensures Valid(t) && HomeOf(t.subnets, t.discoveries[d].ip) == Some(s)
  {
    WholeRange(t.discoveries[d].ip);
  }

  lemma WholeRange(a: Addr)
    ensures IsMasked(Prefix(0, 0)) && Contains(Prefix(0, 0), a)
  {
    Pow2At32();
    ShrUnique(a, 32, 0);
    ShrUnique(0, 32, 0);
  }

  /** A host seen for the first time, without a conflict, and imported: seeing it again is a match. */
  lemma FirstImportMatches(t: Tables, s: Sighting, name: string, generated: string, now: nat, later: nat)
    requires Valid(t) && DiscoveryAt(t.discoveries, s.ip).None? && Reconciled(t, s.ip, s.mac) != Conflict
    requires Import(Observed(t, s, now), t.next, name, generated, later).Done?
    ensures Reconciled(Import(Observed(t, s, now), t.next, name, generated, later).tables, s.ip, s.mac) == Match
  {
    var u := Observed(t, s, now);
    ObservedKeepsValid(t, s, now);
    ReobservationMatchesIff(u, t.next, name, generated, later);
    assert u.addresses.Keys == t.addresses.Keys && u.macs == t.macs;
  }

  /** An imported host is only ever refreshed, even by an agent trusted to import; at most its MAC is attached to its device. */
  lemma ImportedHostIsOnlyRefreshed(t: Tables, trusted: bool, d: Id, s: Sighting, generated: string, now: nat)
    requires Valid(t) && d in t.discoveries && t.discoveries[d].ip == s.ip
    requires t.discoveries[d].status == Imported && t.discoveries[d].address.Some?
    ensures var u := Recorded(t, trusted, s, generated, now);
      && OnlyRefreshed(t, u) && u.discoveries.Keys == t.discoveries.Keys
      && (forall m :: m in u.macs && m !in t.macs ==> u.discoveries[d].mac == Some(m) && t.discoveries[d].device == Some(u.macs[m].device))
      && u.discoveries[d].status == Imported
      && u.discoveries[d].address == t.discoveries[d].address && u.discoveries[d].device == t.discoveries[d].device
  {
    DiscoveryAtUnique(t.discoveries, d);
    assert Recorded(t, trusted, s, generated, now) == Recorded(t, false, s, generated, now);
    UntrustedScanOnlyRefreshes(t, s, generated, now);
    var u := Observed(t, s, now);
    if Syncable(u, d) {
      WithMacOwners(u.macs, u.discoveries[d].device.value, u.discoveries[d].mac, u.discoveries[d].vendor);
    }
  }

  // ----- importing again -----

  lemma HomeAfterBackfill(subnets: Subnets.Table, ip: Addr, vlan: Vlan)
    requires Subnets.Valid(subnets)
    ensures HomeOf(WithVlan(subnets, ip, vlan), ip) == HomeOf(subnets, ip)
    ensures WithVlan(WithVlan(subnets, ip, vlan), ip, vlan) == WithVlan(subnets, ip, vlan)
  {
    VlanKeepsValid(subnets, ip, vlan);
    var after := WithVlan(subnets, ip, vlan);
    var home := HomeOf(subnets, ip);
    if home.Some? {
      assert Contains(after[home.value].cidr, ip);
      HomeUnique(after, ip, home.value);
    }
  }

  /** An import creates at most one address and one device, and leaves the other rows alone. */
  lemma ImportTouchesOneOfEach(t: Tables, id: Id, name: string, generated: string, now: nat)
    requires Valid(t) && Import(t, id, name, generated, now).Done?
    ensures var u, row := Import(t, id, name, generated, now).tables, t.discoveries[id];
      var a, device := AddressFor(t, row.ip), DeviceFor(t, row);
      && u.addresses.Keys == t.addresses.Keys + {a} && u.devices.Keys == t.devices.Keys + {device}
      && u.macs.Keys == t.macs.Keys + (if row.mac.Some? then {row.mac.value} else {})
      && (forall x :: x in t.addresses && x != a ==> u.addresses[x] == t.addresses[x])
      && (forall d :: d in t.devices && d != device ==> u.devices[d] == t.devices[d])
      && (forall m :: m in t.macs ==> u.macs[m].device == t.macs[m].device)
      && (name == "" && device in t.devices ==> u.devices[device].name == t.devices[device].name)
  {
  }

  /** Importing again reuses the device and the address; with no other name it changes only the last-seen time. */
  lemma ImportIsIdempotent(t: Tables, id: Id, name: string, generated: string, now: nat, name': string, generated': string, now': nat)
    requires Valid(t) && Import(t, id, name, generated, now).Done? && (name' == "" || name' == name)
    ensures var u := Import(t, id, name, generated, now).tables;
      Import(u, id, name', generated', now') ==
        Done(u.(addresses := Seen(u.addresses, t.discoveries[id].ip, now'), next := u.next + 2))
  {
    var u, row := Import(t, id, name, generated, now).tables, t.discoveries[id];
    var a, device, home := AddressFor(t, row.ip), DeviceFor(t, row), HomeOf(t.subnets, row.ip).value;
    ImportedRow(t, id, name, generated, now);
    HomeAfterBackfill(t.subnets, row.ip, row.vlan);
    assert DeviceFor(u, u.discoveries[id]) == device && AddressFor(u, row.ip) == a;
    PromotedAgain(t, id, home, device, a, name, generated, now, name', generated', now');
  }

  lemma PromotedAgain(t: Tables, id: Id, home: string, device: Id, a: Id, name: string, generated: string, now: nat, name': string, generated': string, now': nat)
    requires Subnets.Valid(t.subnets) && UniqueIps(t.addresses) && id in t.discoveries && (name' == "" || name' == name)
    requires var found := AddressAt(t.addresses, t.discoveries[id].ip); found == Some(a) || (found.None? && a !in t.addresses)
    ensures var u := Promoted(t, id, home, device, a, name, generated, now);
      Promoted(u, id, home, device, a, name', generated', now') ==
        u.(addresses := Seen(u.addresses, t.discoveries[id].ip, now'), next := u.next + 2)
  {
    var u, row := Promoted(t, id, home, device, a, name, generated, now), t.discoveries[id];
    assert WithVlan(u.subnets, row.ip, row.vlan) == u.subnets by {
      HomeAfterBackfill(t.subnets, row.ip, row.vlan);
    }
    StampedAgain(if device in t.devices then Rescanned(t.devices[device], row, name) else NewDevice(row, name, generated), row, u.discoveries[id], name, name');
    AttachAgain(t.macs, device, row.mac, row.vendor);
    AssignAgain(t.addresses, row, u.discoveries[id], a, home, device, now, now');
  }

  /** A device that carries a discovery's findings is not changed by them. */
  lemma StampedAgain(device: Device, row: Discovery, row': Discovery, name: string, name': string)
    requires row'.facts == row.facts && row'.agent == row.agent && (name' == "" || name' == name)
    requires device.source == SourceOf(row) && (name != "" ==> device.name == name) && Refreshed(device.facts, row.facts) == device.facts
    ensures Rescanned(device, row', name') == device
  {
  }

  lemma AttachAgain(macs: map<Mac, MacRow>, device: Id, mac: Option<Mac>, vendor: string)
    ensures WithMac(WithMac(macs, device, mac, vendor), device, mac, vendor) == WithMac(macs, device, mac, vendor)
  {
  }

  lemma AssignAgain(addresses: map<Id, Address>, row: Discovery, row': Discovery, a: Id, home: string, device: Id, now: nat, now': nat)
    requires UniqueIps(addresses) && row'.hostname == row.hostname && row'.ip == row.ip
    requires AddressAt(addresses, row.ip) == Some(a) || (AddressAt(addresses, row.ip).None? && a !in addresses)
    ensures var u := Assign(addresses, a, row, home, device, now);
      Assign(u, a, row', home, device, now') == Seen(u, row.ip, now')
  {
    AssignKeepsUnique(addresses, row, a, home, device, now);
    var u := Assign(addresses, a, row, home, device, now);
    assert forall x :: x in u && x != a ==> u[x].ip != row.ip;
  }

  /** Renaming on re-import is the one other thing it may do. */
  lemma ReimportCreatesNothing(t: Tables, id: Id, name: string, generated: string, now: nat, name': string, generated': string, now': nat)
    requires Valid(t) && Import(t, id, name, generated, now).Done?
    ensures var u := Import(t, id, name, generated, now).tables;
      && Import(u, id, name', generated', now').Done?
      && var v := Import(u, id, name', generated', now').tables;
      && v.subnets == u.subnets && v.addresses == Seen(u.addresses, t.discoveries[id].ip, now') && v.macs == u.macs && v.discoveries == u.discoveries
      && v.devices.Keys == u.devices.Keys
      && forall d :: d in u.devices ==> v.devices[d] == u.devices[d] || (u.discoveries[id].device == Some(d) && v.devices[d] == u.devices[d].(name := name'))
  {
    var u := Import(t, id, name, generated, now).tables;
    ImportIsIdempotent(t, id, name, generated, now, "", generated', now');
    ImportedRow(t, id, name, generated, now);
    var device := DeviceFor(u, u.discoveries[id]);
    assert Rescanned(u.devices[device], u.discoveries[id], "") == u.devices[device];
  }

  // ----- deletions -----

  /** Deleting an address takes with it the device that had no other address, and that device's MACs, and nothing else. */
  lemma DeletingAnAddress(t: Tables, id: Id)
    requires Valid(t) && id in t.addresses
    ensures var u := AddressDeleted(t, id);
      && u.addresses.Keys == t.addresses.Keys - {id}
      && (forall d :: d in u.devices <==> d in t.devices && AddressesOf(t, d) != {id})
      && (forall m :: m in u.macs <==> m in t.macs && t.macs[m].device in u.devices)
      && (forall a :: a in u.addresses ==> u.addresses[a] == t.addresses[a])
  {
    var u, device := DropAddresses(t, {id}), t.addresses[id].device;
    forall d | d in t.devices
      ensures AddressesOf(t, d) == {id} <==> device == Some(d) && AddressesOf(u, d) == {}
    {
      if device == Some(d) && AddressesOf(u, d) == {} {
        assert forall a :: a in AddressesOf(t, d) && a != id ==> a in AddressesOf(u, d);
      }
      if AddressesOf(t, d) == {id} {
        assert id in AddressesOf(t, d);
        assert forall a :: a in AddressesOf(u, d) ==> a in AddressesOf(t, d) && a != id;
      }
    }
    forall a | a in AddressDeleted(t, id).addresses
      ensures AddressDeleted(t, id).addresses[a] == t.addresses[a]
    {
      if device.Some? && AddressesOf(u, device.value) == {} {
        assert a !in AddressesOf(u, device.value);
      }
    }
  }

  /** Deleting the address of an imported host makes the next scan of its IP reopen it, unless the MAC answers elsewhere. */
  lemma DeletedThenReopened(t: Tables, d: Id, a: Id, s: Sighting, now: nat)
    requires Valid(t) && d in t.discoveries && t.discoveries[d].status == Imported
    requires a in t.addresses && t.discoveries[d].address == Some(a) && t.addresses[a].ip == t.discoveries[d].ip == s.ip
    ensures var u := AddressDeleted(t, a);
      && d in u.discoveries && d in Observed(u, s, now).discoveries
      && (Observed(u, s, now).discoveries[d].status == Pending <==> !(s.mac.Some? && BoundElsewhere(u, s.ip, s.mac.value)))
  {
    AddressDeletedKeepsValid(t, a);
    LetGo(t, d, a);
    GoneThenReopened(AddressDeleted(t, a), d, s, now);
  }

  lemma GoneThenReopened(u: Tables, d: Id, s: Sighting, now: nat)
    requires Valid(u) && d in u.discoveries && u.discoveries[d].status == Imported && u.discoveries[d].address.None?
    requires u.discoveries[d].ip == s.ip && AddressAt(u.addresses, s.ip).None?
    ensures d in Observed(u, s, now).discoveries
    ensures Observed(u, s, now).discoveries[d].status == Pending <==> !(s.mac.Some? && BoundElsewhere(u, s.ip, s.mac.value))
  {
    ObservationReviews(u, s, now, d);
  }

  /** The discovery of a deleted address keeps its status and loses the reference; nobody manages the IP any more. */
  lemma LetGo(t: Tables, d: Id, a: Id)
    requires Valid(t) && d in t.discoveries && a in t.addresses
    requires t.discoveries[d].address == Some(a) && t.addresses[a].ip == t.discoveries[d].ip
    ensures var u := AddressDeleted(t, a);
      && d in u.discoveries && u.discoveries[d].address.None?
      && u.discoveries[d].status == t.discoveries[d].status && u.discoveries[d].ip == t.discoveries[d].ip
      && AddressAt(u.addresses, t.discoveries[d].ip).None?
  {
    DeletingAnAddress(t, a);
  }
}
