/**
 What the review queue guarantees, one step at a time and over whole runs.
 */
module DiscoveryLaws {
  import opened MacAddr
  import opened Options
  import opened Prefix
  import opened Discoveries
  import Subnets

  // ----- every step keeps the constraints -----

  lemma DiscoveryAtUnique(discoveries: map<Id, Discovery>, d: Id)
    requires UniqueDiscovered(discoveries) && d in discoveries
    ensures DiscoveryAt(discoveries, discoveries[d].ip) == Some(d)
  {
  }

  lemma HomeUnique(subnets: Subnets.Table, ip: Addr, s: string)
    requires Subnets.Valid(subnets) && s in subnets && Contains(subnets[s].cidr, ip)
    ensures HomeOf(subnets, ip) == Some(s)
  {
    Subnets.ContainingSubnetUnique(subnets, ip, s, HomeOf(subnets, ip).value);
  }

  lemma ObservedKeepsValid(t: Tables, s: Sighting, now: nat)
    requires Valid(t)
    ensures Valid(Observed(t, s, now))
  {
    var id := RowFor(t, s.ip);
    SeenKeepsRows(t.addresses, s.ip, now, t.subnets.Keys, t.devices.Keys);
    RecordKeepsRows(t.discoveries, id, Observed(t, s, now).discoveries[id], t.addresses.Keys, t.devices.Keys);
  }

  lemma SeenKeepsRows(addresses: map<Id, Address>, ip: Addr, now: nat, subnets: set<string>, devices: set<Id>)
    requires UniqueIps(addresses) && AddressRefs(addresses, subnets, devices)
    ensures var after := Seen(addresses, ip, now);
      after.Keys == addresses.Keys && UniqueIps(after) && AddressRefs(after, subnets, devices)
  {
  }

  lemma RecordKeepsRows(discoveries: map<Id, Discovery>, id: Id, row: Discovery, addresses: set<Id>, devices: set<Id>)
    requires UniqueDiscovered(discoveries) && DiscoveryRefs(discoveries, addresses, devices)
    requires DiscoveryAt(discoveries, row.ip) == Some(id) || (DiscoveryAt(discoveries, row.ip).None? && id !in discoveries)
    requires RefersInto(row.address, addresses) && RefersInto(row.device, devices)
    ensures UniqueDiscovered(discoveries[id := row]) && DiscoveryRefs(discoveries[id := row], addresses, devices)
  {
  }

  lemma VlanKeepsValid(subnets: Subnets.Table, ip: Addr, vlan: Vlan)
    requires Subnets.Valid(subnets)
    ensures Subnets.Valid(WithVlan(subnets, ip, vlan)) && WithVlan(subnets, ip, vlan).Keys == subnets.Keys
  {
  }

  lemma AssignKeepsUnique(addresses: map<Id, Address>, row: Discovery, id: Id, home: string, device: Id, now: nat)
    requires UniqueIps(addresses)
    requires AddressAt(addresses, row.ip) == Some(id) || (AddressAt(addresses, row.ip).None? && id !in addresses)
    ensures var after := Assign(addresses, id, row, home, device, now);
      && UniqueIps(after) && after.Keys == addresses.Keys + {id} && AddressAt(after, row.ip) == Some(id)
  {
    var after := Assign(addresses, id, row, home, device, now);
    assert forall a :: a in after && a != id ==> after[a] == addresses[a];
  }

  lemma ImportKeepsValid(t: Tables, id: Id, name: string, generated: string, now: nat)
    requires Valid(t) && Import(t, id, name, generated, now).Done?
    ensures Valid(Import(t, id, name, generated, now).tables)
  {
    var row := t.discoveries[id];
    VlanKeepsValid(t.subnets, row.ip, row.vlan);
    PromotedKeepsSound(t, id, HomeOf(t.subnets, row.ip).value, DeviceFor(t, row), AddressFor(t, row.ip), name, generated, now);
  }

  lemma PromotedKeepsSound(t: Tables, id: Id, home: string, device: Id, address: Id, name: string, generated: string, now: nat)
    requires Sound(t) && id in t.discoveries && home in t.subnets && (device in t.devices || device == t.next)
    requires var found := AddressAt(t.addresses, t.discoveries[id].ip); found == Some(address) || (found.None? && address == t.next + 1)
    ensures Sound(Promoted(t, id, home, device, address, name, generated, now))
  {
    var u, row := Promoted(t, id, home, device, address, name, generated, now), t.discoveries[id];
    AssignKeepsUnique(t.addresses, row, address, home, device, now);
    AssignKeepsRefs(t.addresses, row, address, home, device, now, t.subnets.Keys, t.devices.Keys);
    AttachKeepsRefs(t.macs, device, row.mac, row.vendor, t.devices.Keys);
    MarkKeepsUnique(t.discoveries, id, u.discoveries[id]);
    MarkKeepsRefs(t.discoveries, id, u.discoveries[id], t.addresses.Keys, t.devices.Keys, address, device);
    assert u.subnets.Keys == t.subnets.Keys;
    assert u.devices.Keys == t.devices.Keys + {device};
    SoundAfter(t, u, address, device);
  }

  /** The constraints of the tables together, once each table keeps its own. */
  lemma SoundAfter(t: Tables, u: Tables, address: Id, device: Id)
    requires DrawnBefore(t.addresses.Keys + t.devices.Keys + t.discoveries.Keys, t.next)
    requires u.next == t.next + 2 && device <= t.next && address <= t.next + 1
    requires u.addresses.Keys == t.addresses.Keys + {address} && u.devices.Keys == t.devices.Keys + {device}
    requires u.discoveries.Keys == t.discoveries.Keys && u.subnets.Keys == t.subnets.Keys
    requires UniqueIps(u.addresses) && UniqueDiscovered(u.discoveries)
    requires AddressRefs(u.addresses, t.subnets.Keys, t.devices.Keys + {device}) && MacRefs(u.macs, t.devices.Keys + {device})
    requires DiscoveryRefs(u.discoveries, t.addresses.Keys + {address}, t.devices.Keys + {device})
    ensures Sound(u)
  {
  }

  lemma AssignKeepsRefs(addresses: map<Id, Address>, row: Discovery, id: Id, home: string, device: Id, now: nat, subnets: set<string>, devices: set<Id>)
    requires AddressRefs(addresses, subnets, devices) && home in subnets
    ensures AddressRefs(Assign(addresses, id, row, home, device, now), subnets, devices + {device})
  {
  }

  lemma AttachKeepsRefs(macs: map<Mac, MacRow>, device: Id, mac: Option<Mac>, vendor: string, devices: set<Id>)
    requires MacRefs(macs, devices)
    ensures MacRefs(WithMac(macs, device, mac, vendor), devices + {device})
  {
    WithMacOwners(macs, device, mac, vendor);
  }

  lemma MarkKeepsRefs(discoveries: map<Id, Discovery>, id: Id, row: Discovery, addresses: set<Id>, devices: set<Id>, address: Id, device: Id)
    requires DiscoveryRefs(discoveries, addresses, devices) && row.address == Some(address) && row.device == Some(device)
    ensures DiscoveryRefs(discoveries[id := row], addresses + {address}, devices + {device})
  {
  }

  lemma MarkKeepsUnique(discoveries: map<Id, Discovery>, id: Id, row: Discovery)
    requires UniqueDiscovered(discoveries) && id in discoveries && row.ip == discoveries[id].ip
    ensures UniqueDiscovered(discoveries[id := row])
  {
  }

  /** A MAC that is recorded keeps its device; only an unknown one is attached. */
  lemma WithMacOwners(macs: map<Mac, MacRow>, device: Id, mac: Option<Mac>, vendor: string)
    ensures var after := WithMac(macs, device, mac, vendor);
      && (forall m :: m in macs ==> m in after && after[m].device == macs[m].device)
      && (forall m :: m in after && m !in macs ==> mac == Some(m) && after[m].device == device)
  {
  }

  lemma SyncKeepsValid(t: Tables, id: Id)
    requires Valid(t)
    ensures Valid(Synced(t, id))
  {
    if Syncable(t, id) {
      var u, row := Synced(t, id), t.discoveries[id];
      VlanKeepsValid(t.subnets, row.ip, row.vlan);
      assert u.addresses.Keys == t.addresses.Keys && u.devices.Keys == t.devices.Keys;
      assert UniqueIps(u.addresses);
      assert MacRefs(u.macs, u.devices.Keys);
      assert AddressRefs(u.addresses, u.subnets.Keys, u.devices.Keys);
    }
  }

  lemma RecordedKeepsValid(t: Tables, trusted: bool, s: Sighting, generated: string, now: nat)
    requires Valid(t)
    ensures Valid(Recorded(t, trusted, s, generated, now))
  {
    ObservedKeepsValid(t, s, now);
    FollowUpKeepsValid(Observed(t, s, now), RowFor(t, s.ip), generated, now);
  }

  lemma FollowUpKeepsValid(u: Tables, id: Id, generated: string, now: nat)
    requires Valid(u)
    ensures Import(u, id, "", generated, now).Done? ==> Valid(Import(u, id, "", generated, now).tables)
    ensures Valid(Synced(u, id))
  {
    if Import(u, id, "", generated, now).Done? {
      ImportKeepsValid(u, id, "", generated, now);
    }
    SyncKeepsValid(u, id);
  }

  lemma DropDevicesKeepsValid(t: Tables, gone: set<Id>)
    requires Valid(t)
    ensures Valid(DropDevices(t, gone))
  {
    DropDevicesKeepsSound(t, gone);
  }

  lemma DropDevicesKeepsSound(t: Tables, gone: set<Id>)
    requires Sound(t)
    ensures Sound(DropDevices(t, gone))
  {
    var u := DropDevices(t, gone);
    assert u.addresses.Keys == t.addresses.Keys && u.discoveries.Keys == t.discoveries.Keys;
  }

  lemma DropAddressesKeepsValid(t: Tables, gone: set<Id>)
    requires Valid(t)
    ensures Valid(DropAddresses(t, gone))
  {
    var u := DropAddresses(t, gone);
    assert u.discoveries.Keys == t.discoveries.Keys;
  }

  lemma AddressDeletedKeepsValid(t: Tables, id: Id)
    requires Valid(t)
    ensures Valid(AddressDeleted(t, id))
  {
    DropAddressesKeepsValid(t, {id});
    if id in t.addresses && t.addresses[id].device.Some? {
      DropDevicesKeepsValid(DropAddresses(t, {id}), {t.addresses[id].device.value});
    }
  }

  lemma DeviceDeletedKeepsValid(t: Tables, id: Id)
    requires Valid(t)
    ensures Valid(DeviceDeleted(t, id))
  {
    DropAddressesKeepsValid(t, AddressesOf(t, id));
    DropDevicesKeepsValid(DropAddresses(t, AddressesOf(t, id)), {id});
  }

  lemma DismissalKeepsValid(t: Tables, id: Id)
    requires Valid(t)
    ensures Valid(AfterDismissal(t, id))
  {
  }

  lemma SubnetWriteKeepsValid(t: Tables, w: Subnets.Write)
    requires Valid(t) && Subnets.Admissible(t.subnets, w)
    ensures Valid(SubnetWritten(t, w))
  {
    Subnets.WriteKeepsValid(t.subnets, w);
    var u := SubnetWritten(t, w);
    assert u.addresses.Keys == t.addresses.Keys;
  }

  lemma EditKeepsValid(t: Tables, id: Id, cidr: Prefix, input: Address)
    requires Valid(t)
    ensures Valid(AddressEdited(t, id, cidr, input))
  {
    assert AddressEdited(t, id, cidr, input).addresses.Keys == t.addresses.Keys;
  }

  lemma CreationKeepsValid(t: Tables, subnet: string, cidr: Prefix, input: Address)
    requires Valid(t)
    ensures Valid(AddressCreated(t, subnet, cidr, input))
  {
  }

  // ----- runs -----

  datatype Step =
    | Scan(trusted: bool, sighting: Sighting, generated: string, now: nat)
    | Promote(id: Id, name: string, generated: string, now: nat)
    | Dismiss(id: Id)
    | RemoveAddress(id: Id)
    | RemoveDevice(id: Id)
    | AddAddress(subnet: string, cidr: Prefix, input: Address)
    | EditAddress(id: Id, cidr: Prefix, input: Address)
    | WriteSubnets(w: Subnets.Write)

  ghost predicate Enabled(t: Tables, step: Step) {
    step.WriteSubnets? ==> Subnets.Admissible(t.subnets, step.w)
  }

  ghost function After(t: Tables, step: Step): Tables
    requires Enabled(t, step)
  {
    match step
    case Scan(trusted, s, generated, now) => Recorded(t, trusted, s, generated, now)
    case Promote(id, name, generated, now) => (match Import(t, id, name, generated, now) case Done(u) => u case _ => t)
    case Dismiss(id) => AfterDismissal(t, id)
    case RemoveAddress(id) => AddressDeleted(t, id)
    case RemoveDevice(id) => DeviceDeleted(t, id)
    case AddAddress(subnet, cidr, input) => AddressCreated(t, subnet, cidr, input)
    case EditAddress(id, cidr, input) => AddressEdited(t, id, cidr, input)
    case WriteSubnets(w) => SubnetWritten(t, w)
  }

  ghost predicate Run(states: seq<Tables>, steps: seq<Step>) {
    && |states| == |steps| + 1
    && forall i :: 0 <= i < |steps| ==> Enabled(states[i], steps[i]) && states[i + 1] == After(states[i], steps[i])
  }

  lemma PromotionKeepsValid(t: Tables, id: Id, name: string, generated: string, now: nat)
    requires Valid(t)
    ensures Valid(After(t, Promote(id, name, generated, now)))
  {
    if Import(t, id, name, generated, now).Done? {
      ImportKeepsValid(t, id, name, generated, now);
    }
  }

  lemma StepKeepsValid(t: Tables, step: Step)
    requires Valid(t) && Enabled(t, step)
    ensures Valid(After(t, step))
  {
    match step
    case Scan(trusted, s, generated, now) => RecordedKeepsValid(t, trusted, s, generated, now);
    case Promote(id, name, generated, now) => PromotionKeepsValid(t, id, name, generated, now);
    case Dismiss(id) => DismissalKeepsValid(t, id);
    case RemoveAddress(id) => AddressDeletedKeepsValid(t, id);
    case RemoveDevice(id) => DeviceDeletedKeepsValid(t, id);
    case AddAddress(subnet, cidr, input) => CreationKeepsValid(t, subnet, cidr, input);
    case EditAddress(id, cidr, input) => EditKeepsValid(t, id, cidr, input);
    case WriteSubnets(w) => SubnetWriteKeepsValid(t, w);
  }

  /** Every run keeps the uniqueness and foreign-key constraints, and the subnets disjoint. */
  lemma {:induction false} RunKeepsValid(states: seq<Tables>, steps: seq<Step>)
    requires Run(states, steps) && Valid(states[0])
    ensures forall i :: 0 <= i < |states| ==> Valid(states[i])
    decreases |steps|
  {
    if steps != [] {
      var n := |steps| - 1;
      RunKeepsValid(states[..n + 1], steps[..n]);
      assert forall i :: 0 <= i < n + 1 ==> states[..n + 1][i] == states[i];
      StepKeepsValid(states[n], steps[n]);
    }
  }

  // ----- what a scan may not do -----

  lemma ImportLeavesOthers(t: Tables, id: Id, name: string, generated: string, now: nat)
    requires Import(t, id, name, generated, now).Done?
    ensures var u := Import(t, id, name, generated, now).tables;
      && u.discoveries.Keys == t.discoveries.Keys
      && forall d :: d in t.discoveries && d != id ==> u.discoveries[d] == t.discoveries[d]
  {
  }

  /** An import is reopened when its address row is gone, nobody manages the IP, and the MAC is not bound elsewhere. */
  ghost predicate Reopens(t: Tables, row: Discovery, s: Sighting) {
    && row.status == Imported && row.address.None?
    && AddressAt(t.addresses, s.ip).None? && !(s.mac.Some? && BoundElsewhere(t, s.ip, s.mac.value))
  }

  lemma ObservationReviews(t: Tables, s: Sighting, now: nat, d: Id)
    requires Valid(t) && d in t.discoveries
    ensures d in Observed(t, s, now).discoveries && (d == RowFor(t, s.ip) <==> t.discoveries[d].ip == s.ip)
    ensures var was, left := t.discoveries[d], Observed(t, s, now).discoveries[d];
      && left.ip == was.ip
      && (was.ip != s.ip ==> left == was)
      && (was.ip == s.ip ==> left.reconcile == Reconciled(t, s.ip, s.mac) && left.status == if Reopens(t, was, s) then Pending else was.status)
  {
    DiscoveryAtUnique(t.discoveries, d);
  }

  /** The status one observation of a scan leaves behind, in every case. */
  ghost function StatusAfter(t: Tables, trusted: bool, s: Sighting, row: Discovery): ReviewStatus {
    if row.ip != s.ip || !(row.status == Pending || Reopens(t, row, s)) then row.status
    else if trusted && Reconciled(t, s.ip, s.mac) != Conflict && HomeOf(t.subnets, s.ip).Some? then Imported
    else Pending
  }

  lemma ScanReviews(t: Tables, trusted: bool, s: Sighting, generated: string, now: nat, d: Id)
    requires Valid(t) && d in t.discoveries
    ensures d in Recorded(t, trusted, s, generated, now).discoveries
    ensures Recorded(t, trusted, s, generated, now).discoveries[d].status == StatusAfter(t, trusted, s, t.discoveries[d])
  {
    var u, id := Observed(t, s, now), RowFor(t, s.ip);
    ObservationReviews(t, s, now, d);
    if Import(u, id, "", generated, now).Done? {
      ImportLeavesOthers(u, id, "", generated, now);
    }
  }

  lemma StepLeavesDismissed(t: Tables, step: Step, d: Id)
    requires Valid(t) && Enabled(t, step) && d in t.discoveries && t.discoveries[d].status == Dismissed
    requires !(step.Promote? && step.id == d)
    ensures d in After(t, step).discoveries && After(t, step).discoveries[d].status == Dismissed
  {
    if step.Scan? {
      ScanReviews(t, step.trusted, step.sighting, step.generated, step.now, d);
    } else {
      OperatorLeavesStatus(t, step, d);
    }
  }

  /** What an operator does to other rows leaves a discovery's status alone. */
  lemma OperatorLeavesStatus(t: Tables, step: Step, d: Id)
    requires Enabled(t, step) && d in t.discoveries && !step.Scan? && !(step.Promote? && step.id == d) && !(step.Dismiss? && step.id == d && t.discoveries[d].status == Pending)
    ensures d in After(t, step).discoveries && After(t, step).discoveries[d].status == t.discoveries[d].status
  {
  }

  /** Only an operator's import takes a dismissed discovery out of dismissed, whatever else the run does. */
  lemma {:induction false} DismissedStays(states: seq<Tables>, steps: seq<Step>, d: Id)
    requires Run(states, steps) && Valid(states[0])
    requires d in states[0].discoveries && states[0].discoveries[d].status == Dismissed
    requires forall i :: 0 <= i < |steps| ==> !(steps[i].Promote? && steps[i].id == d)
    ensures d in states[|steps|].discoveries && states[|steps|].discoveries[d].status == Dismissed
    decreases |steps|
  {
    if steps != [] {
      var n := |steps| - 1;
      assert forall i :: 0 <= i < n + 1 ==> states[..n + 1][i] == states[i];
      assert forall i :: 0 <= i < n ==> steps[..n][i] == steps[i];
      DismissedStays(states[..n + 1], steps[..n], d);
      RunKeepsValid(states[..n + 1], steps[..n]);
      StepLeavesDismissed(states[n], steps[n], d);
    }
  }

  /** The recorded address row is gone for good, or the discovery is still imported at it. */
  ghost predicate HeldBy(t: Tables, d: Id, a: Id) {
    && d in t.discoveries && a < t.next
    && (a in t.addresses ==> t.discoveries[d].status == Imported && t.discoveries[d].address == Some(a))
  }

  lemma StepKeepsHeld(t: Tables, step: Step, d: Id, a: Id)
    requires Valid(t) && Enabled(t, step) && HeldBy(t, d, a) && !(step.Promote? && step.id == d)
    ensures HeldBy(After(t, step), d, a)
  {
    if step.Scan? {
      ScanKeepsHeld(t, step.trusted, step.sighting, step.generated, step.now, d, a);
    } else if step.Promote? {
      if Import(t, step.id, step.name, step.generated, step.now).Done? {
        ImportKeepsHeld(t, step.id, step.name, step.generated, step.now, d, a);
      }
    } else {
      OtherKeepsHeld(t, step, d, a);
    }
  }

  lemma ImportKeepsHeld(t: Tables, id: Id, name: string, generated: string, now: nat, d: Id, a: Id)
    requires HeldBy(t, d, a) && id != d && Import(t, id, name, generated, now).Done?
    ensures HeldBy(Import(t, id, name, generated, now).tables, d, a)
  {
    ImportLeavesOthers(t, id, name, generated, now);
  }

  lemma OtherKeepsHeld(t: Tables, step: Step, d: Id, a: Id)
    requires Enabled(t, step) && HeldBy(t, d, a) && !step.Promote? && !step.Scan?
    ensures HeldBy(After(t, step), d, a)
  {
  }

  lemma ScanKeepsHeld(t: Tables, trusted: bool, s: Sighting, generated: string, now: nat, d: Id, a: Id)
    requires Valid(t) && HeldBy(t, d, a)
    ensures HeldBy(Recorded(t, trusted, s, generated, now), d, a)
  {
    var u, id := Observed(t, s, now), RowFor(t, s.ip);
    DiscoveryAtUnique(t.discoveries, d);
    assert HeldBy(u, d, a);
    if Import(u, id, "", generated, now).Done? {
      ImportLeavesOthers(u, id, "", generated, now);
    }
  }

  /** A discovery imported at address row `a` goes back to pending only once `a` has been deleted. */
  lemma {:induction false} ReopenedOnlyAfterDeletion(states: seq<Tables>, steps: seq<Step>, d: Id, a: Id)
    requires Run(states, steps) && Valid(states[0])
    requires d in states[0].discoveries && states[0].discoveries[d].status == Imported && states[0].discoveries[d].address == Some(a)
    requires forall i :: 0 <= i < |steps| ==> !(steps[i].Promote? && steps[i].id == d)
    ensures HeldBy(states[|steps|], d, a)
    ensures states[|steps|].discoveries[d].status == Pending ==> a !in states[|steps|].addresses
    decreases |steps|
  {
    if steps != [] {
      var n := |steps| - 1;
      assert forall i :: 0 <= i < n + 1 ==> states[..n + 1][i] == states[i];
      assert forall i :: 0 <= i < n ==> steps[..n][i] == steps[i];
      ReopenedOnlyAfterDeletion(states[..n + 1], steps[..n], d, a);
      RunKeepsValid(states[..n + 1], steps[..n]);
      StepKeepsHeld(states[n], steps[n], d, a);
    }
  }
}
