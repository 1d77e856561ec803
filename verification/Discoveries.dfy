/**
 The review queue of scan discoveries beside the tables it promotes them into
 (internal/store/discoveries.go). This module gives the tables, their integrity
 constraints, and what each transaction does to them. Ids are random tokens in the
 program; here token number `next` is the next one drawn.
 */
module Discoveries {
  import opened MacAddr
  import opened Options
  import opened Prefix
  import Merge
  import Subnets

  type Id = nat

  type Vlan = v: int | 0 <= v <= 4094

  datatype AddressState = Available | Reserved | Assigned | Deprecated | InConflict

  datatype ReviewStatus = Pending | Imported | Dismissed

  datatype Reconcile = New | Match | Conflict

  /** The discovered columns a device and a discovery have in common. */
  datatype Facts = Facts(osFamily: string, osDetail: string, hwSerial: string, hwObjectID: string, services: seq<Merge.Service>)

  datatype Address = Address(ip: Addr, subnet: Option<string>, device: Option<Id>, state: AddressState, hostname: string, lastSeen: Option<nat>)

  datatype Device = Device(name: string, facts: Facts, source: string)

  datatype MacRow = MacRow(device: Id, vendor: string, isPrivate: bool)

  datatype Discovery = Discovery(
    ip: Addr, mac: Option<Mac>, vendor: string, hostname: string, facts: Facts, vlan: Vlan, agent: string,
    status: ReviewStatus, reconcile: Reconcile, address: Option<Id>, device: Option<Id>)

  /** One observation as the orchestrator hands it over. */
  datatype Sighting = Sighting(ip: Addr, mac: Option<Mac>, vendor: string, hostname: string, facts: Facts, vlan: Vlan, agent: string)

  datatype Tables = Tables(
    subnets: Subnets.Table, addresses: map<Id, Address>, devices: map<Id, Device>, macs: map<Mac, MacRow>,
    discoveries: map<Id, Discovery>, next: Id)

  // ----- constraints -----

  ghost predicate UniqueIps(addresses: map<Id, Address>) {
    forall a, b :: a in addresses && b in addresses && addresses[a].ip == addresses[b].ip ==> a == b
  }

  ghost predicate UniqueDiscovered(discoveries: map<Id, Discovery>) {
    forall d, e :: d in discoveries && e in discoveries && discoveries[d].ip == discoveries[e].ip ==> d == e
  }

  predicate RefersInto<K(==)>(column: Option<K>, keys: set<K>) {
    column.Some? ==> column.value in keys
  }

  ghost predicate AddressRefs(addresses: map<Id, Address>, subnets: set<string>, devices: set<Id>) {
    forall a :: a in addresses ==> RefersInto(addresses[a].subnet, subnets) && RefersInto(addresses[a].device, devices)
  }

  ghost predicate MacRefs(macs: map<Mac, MacRow>, devices: set<Id>) {
    forall m :: m in macs ==> macs[m].device in devices
  }

  ghost predicate DiscoveryRefs(discoveries: map<Id, Discovery>, addresses: set<Id>, devices: set<Id>) {
    forall d :: d in discoveries ==> RefersInto(discoveries[d].address, addresses) && RefersInto(discoveries[d].device, devices)
  }

  ghost predicate DrawnBefore(ids: set<Id>, next: Id) {
    forall id :: id in ids ==> id < next
  }

  ghost predicate Valid(t: Tables) {
    Subnets.Valid(t.subnets) && Sound(t)
  }

  /** Uniqueness, foreign keys and fresh ids. */
  ghost predicate Sound(t: Tables) {
    && UniqueIps(t.addresses) && UniqueDiscovered(t.discoveries)
    && AddressRefs(t.addresses, t.subnets.Keys, t.devices.Keys)
    && MacRefs(t.macs, t.devices.Keys)
    && DiscoveryRefs(t.discoveries, t.addresses.Keys, t.devices.Keys)
    && DrawnBefore(t.addresses.Keys + t.devices.Keys + t.discoveries.Keys, t.next)
  }

  // ----- lookups -----

  ghost function AddressAt(addresses: map<Id, Address>, ip: Addr): (r: Option<Id>)
    ensures r.Some? ==> r.value in addresses && addresses[r.value].ip == ip
    ensures r.None? ==> forall a :: a in addresses ==> addresses[a].ip != ip
  {
    if a: Id :| a in addresses && addresses[a].ip == ip then Some(a) else None
  }

  ghost function DiscoveryAt(discoveries: map<Id, Discovery>, ip: Addr): (r: Option<Id>)
    ensures r.Some? ==> r.value in discoveries && discoveries[r.value].ip == ip
    ensures r.None? ==> forall d :: d in discoveries ==> discoveries[d].ip != ip
  {
    if d: Id :| d in discoveries && discoveries[d].ip == ip then Some(d) else None
  }

  ghost function HomeOf(subnets: Subnets.Table, ip: Addr): (r: Option<string>)
    ensures r.Some? ==> r.value in subnets && Contains(subnets[r.value].cidr, ip)
    ensures r.None? ==> forall s :: s in subnets ==> !Contains(subnets[s].cidr, ip)
  {
    if s: string :| s in subnets && Contains(subnets[s].cidr, ip) then Some(s) else None
  }

  function MacsOf(macs: map<Mac, MacRow>, device: Option<Id>): set<Mac> {
    set m | m in macs && Some(macs[m].device) == device
  }

  // ----- reconciliation -----

  /** Another address of the device that has this MAC. */
  ghost predicate BoundElsewhere(t: Tables, ip: Addr, mac: Mac) {
    mac in t.macs && exists a :: a in t.addresses && t.addresses[a].device == Some(t.macs[mac].device) && t.addresses[a].ip != ip
  }

  /** The managed device at the address is known by MACs, and this is not one of them. */
  predicate ContradictsMacs(macs: map<Mac, MacRow>, device: Option<Id>, mac: Option<Mac>) {
    mac.Some? && MacsOf(macs, device) != {} && mac.value !in MacsOf(macs, device)
  }

  ghost function Reconciled(t: Tables, ip: Addr, mac: Option<Mac>): Reconcile {
    match AddressAt(t.addresses, ip)
    case None =>
      if mac.Some? && BoundElsewhere(t, ip, mac.value) then Conflict else New
    case Some(a) =>
      if ContradictsMacs(t.macs, t.addresses[a].device, mac) || t.addresses[a].state == Deprecated then Conflict else Match
  }

  // ----- recording an observation -----

  function Keep(preferred: string, other: string): string {
    if preferred != "" then preferred else other
  }

  /** A later scan never wipes a fact with an empty one. */
  function Refreshed(known: Facts, seen: Facts): Facts {
    Facts(Keep(seen.osFamily, known.osFamily), Keep(seen.osDetail, known.osDetail), Keep(seen.hwSerial, known.hwSerial),
          Keep(seen.hwObjectID, known.hwObjectID), if seen.services != [] then seen.services else known.services)
  }

  /** The review status an observation leaves behind. */
  function Reviewed(row: Discovery, verdict: Reconcile): ReviewStatus {
    if row.status == Imported && row.address.None? && verdict == New then Pending else row.status
  }

  function Merged(row: Discovery, s: Sighting, verdict: Reconcile): Discovery {
    Discovery(row.ip, if s.mac.Some? then s.mac else row.mac, Keep(s.vendor, row.vendor), Keep(s.hostname, row.hostname),
              Refreshed(row.facts, s.facts), if s.vlan != 0 then s.vlan else row.vlan, s.agent,
              Reviewed(row, verdict), verdict, row.address, row.device)
  }

  function First(s: Sighting, verdict: Reconcile): Discovery {
    Discovery(s.ip, s.mac, s.vendor, s.hostname, s.facts, s.vlan, s.agent, Pending, verdict, None, None)
  }

  function Seen(addresses: map<Id, Address>, ip: Addr, now: nat): map<Id, Address> {
    map a | a in addresses :: if addresses[a].ip == ip then addresses[a].(lastSeen := Some(now)) else addresses[a]
  }

  ghost function RowFor(t: Tables, ip: Addr): Id {
    match DiscoveryAt(t.discoveries, ip)
    case Some(d) => d
    case None => t.next
  }

  /** `UpsertDiscovery`. */
  ghost function Observed(t: Tables, s: Sighting, now: nat): Tables {
    var verdict := Reconciled(t, s.ip, s.mac);
    var id := RowFor(t, s.ip);
    t.(discoveries := t.discoveries[id := if id in t.discoveries then Merged(t.discoveries[id], s, verdict) else First(s, verdict)],
       addresses := if verdict != New then Seen(t.addresses, s.ip, now) else t.addresses,
       next := t.next + 1)
  }

  // ----- importing -----

  /** An operator's VLAN is never overwritten. */
  function Tagged(subnet: Subnets.Subnet, ip: Addr, vlan: Vlan): Subnets.Subnet {
    if subnet.vlan.None? && Contains(subnet.cidr, ip) then subnet.(vlan := Some(vlan)) else subnet
  }

  /** `backfillSubnetVLAN`. */
  function WithVlan(subnets: Subnets.Table, ip: Addr, vlan: Vlan): Subnets.Table {
    if vlan == 0 then subnets else map s | s in subnets :: Tagged(subnets[s], ip, vlan)
  }

  /** `resolveImportDevice`. */
  function ReusedDevice(t: Tables, row: Discovery): Option<Id> {
    if row.device.Some? && row.device.value in t.devices then row.device
    else if row.mac.Some? && row.mac.value in t.macs then Some(t.macs[row.mac.value].device)
    else None
  }

  function DeviceFor(t: Tables, row: Discovery): Id {
    match ReusedDevice(t, row)
    case Some(d) => d
    case None => t.next
  }

  function SourceOf(row: Discovery): string {
    Keep(row.agent, "scan")
  }

  function Rescanned(device: Device, row: Discovery, name: string): Device {
    Device(Keep(name, device.name), Refreshed(device.facts, row.facts), SourceOf(row))
  }

  /** The generated name of a host without one; the rendering of the address is left abstract. */
  function NewDevice(row: Discovery, name: string, generated: string): Device {
    Device(Keep(name, Keep(row.hostname, generated)), row.facts, SourceOf(row))
  }

  /** `attachDiscoveryMAC`: a MAC that is already recorded stays on its device. */
  function WithMac(macs: map<Mac, MacRow>, device: Id, mac: Option<Mac>, reported: string): map<Mac, MacRow> {
    if mac.None? then macs else macs[mac.value := Attached(macs, device, mac.value, VendorOf(mac.value, reported))]
  }

  function Attached(macs: map<Mac, MacRow>, device: Id, mac: Mac, vendor: string): MacRow {
    if mac in macs then macs[mac].(vendor := Keep(macs[mac].vendor, vendor)) else MacRow(device, vendor, IsPrivate(mac))
  }

  ghost function AddressFor(t: Tables, ip: Addr): Id {
    match AddressAt(t.addresses, ip)
    case Some(a) => a
    case None => t.next + 1
  }

  function Assign(addresses: map<Id, Address>, id: Id, row: Discovery, home: string, device: Id, now: nat): map<Id, Address> {
    if id in addresses then
      addresses[id := addresses[id].(subnet := Some(home), device := Some(device), hostname := Keep(row.hostname, addresses[id].hostname), lastSeen := Some(now))]
    else addresses[id := Address(row.ip, Some(home), Some(device), Assigned, row.hostname, Some(now))]
  }

  datatype ImportResult = Done(tables: Tables) | NoSuchDiscovery | NoContainingSubnet

  /** The tables once discovery `id` is promoted to that device and that address row. */
  function Promoted(t: Tables, id: Id, home: string, device: Id, address: Id, name: string, generated: string, now: nat): Tables
    requires id in t.discoveries
  {
    var row := t.discoveries[id];
    Tables(
      WithVlan(t.subnets, row.ip, row.vlan),
      Assign(t.addresses, address, row, home, device, now),
      t.devices[device := if device in t.devices then Rescanned(t.devices[device], row, name) else NewDevice(row, name, generated)],
      WithMac(t.macs, device, row.mac, row.vendor),
      t.discoveries[id := row.(status := Imported, address := Some(address), device := Some(device))],
      t.next + 2)
  }

  /** `ImportDiscovery`; `name` is the operator's label with blanks trimmed. */
  ghost function Import(t: Tables, id: Id, name: string, generated: string, now: nat): ImportResult {
    if id !in t.discoveries then NoSuchDiscovery
    else
      var row := t.discoveries[id];
      match HomeOf(t.subnets, row.ip)
      case None => NoContainingSubnet
      case Some(home) => Done(Promoted(t, id, home, DeviceFor(t, row), AddressFor(t, row.ip), name, generated, now))
  }

  // ----- keeping an imported device current -----

  predicate Syncable(t: Tables, id: Id) {
    id in t.discoveries && t.discoveries[id].status == Imported && t.discoveries[id].device.Some? && t.discoveries[id].device.value in t.devices
  }

  function Named(addresses: map<Id, Address>, id: Option<Id>, hostname: string): map<Id, Address> {
    if id.Some? && id.value in addresses && addresses[id.value].hostname == ""
    then addresses[id.value := addresses[id.value].(hostname := hostname)] else addresses
  }

  /** `SyncImportedDiscovery`. */
  function Synced(t: Tables, id: Id): Tables {
    if !Syncable(t, id) then t
    else
      var row := t.discoveries[id];
      var device := row.device.value;
      Tables(
        WithVlan(t.subnets, row.ip, row.vlan),
        Named(t.addresses, row.address, row.hostname),
        t.devices[device := Rescanned(t.devices[device], row, "")],
        WithMac(t.macs, device, row.mac, row.vendor),
        t.discoveries, t.next)
  }

  /** What one observation of a scan does: it is recorded, then imported if the agent is trusted, or synced. */
  ghost function Recorded(t: Tables, trusted: bool, s: Sighting, generated: string, now: nat): Tables {
    var u := Observed(t, s, now);
    var id := RowFor(t, s.ip);
    var row := u.discoveries[id];
    if row.reconcile == Conflict then u
    else if trusted && row.status == Pending then
      match Import(u, id, "", generated, now)
      case Done(v) => v
      case _ => u
    else Synced(u, id)
  }

  /** A whole scan; an observation without a usable address is skipped. `host` generates the name of a nameless host. */
  ghost function RecordedAll(t: Tables, trusted: bool, scan: seq<Option<Sighting>>, host: Addr -> string, now: nat): Tables {
    if scan == [] then t
    else
      var before, last := RecordedAll(t, trusted, scan[..|scan| - 1], host, now), scan[|scan| - 1];
      if last.None? then before else Recorded(before, trusted, last.value, host(last.value.ip), now)
  }

  // ----- the operator's steps -----

  /** `DismissDiscovery`. */
  function AfterDismissal(t: Tables, id: Id): Tables {
    if id in t.discoveries && t.discoveries[id].status != Imported
    then t.(discoveries := t.discoveries[id := t.discoveries[id].(status := Dismissed)]) else t
  }

  function Without<K(==)>(column: Option<K>, gone: set<K>): Option<K> {
    if column.Some? && column.value in gone then None else column
  }

  /** Deleting device rows: NULL in the columns that refer to them, and their MACs go with them. */
  function DropDevices(t: Tables, gone: set<Id>): Tables {
    t.(devices := t.devices - gone,
       macs := map m | m in t.macs && t.macs[m].device !in gone :: t.macs[m],
       addresses := map a | a in t.addresses :: t.addresses[a].(device := Without(t.addresses[a].device, gone)),
       discoveries := map d | d in t.discoveries :: t.discoveries[d].(device := Without(t.discoveries[d].device, gone)))
  }

  function DropAddresses(t: Tables, gone: set<Id>): Tables {
    t.(addresses := t.addresses - gone,
       discoveries := map d | d in t.discoveries :: t.discoveries[d].(address := Without(t.discoveries[d].address, gone)))
  }

  function AddressesOf(t: Tables, device: Id): set<Id> {
    set a | a in t.addresses && t.addresses[a].device == Some(device)
  }

  /** `DeleteAddress`: a device left without an address goes too. */
  function AddressDeleted(t: Tables, id: Id): Tables {
    if id !in t.addresses then t
    else
      var u, device := DropAddresses(t, {id}), t.addresses[id].device;
      if device.Some? && AddressesOf(u, device.value) == {} then DropDevices(u, {device.value}) else u
  }

  /** `DeleteDevice`: its addresses go with it. */
  function DeviceDeleted(t: Tables, id: Id): Tables {
    if id !in t.devices then t else DropDevices(DropAddresses(t, AddressesOf(t, id)), {id})
  }

  /** `CreateAddress`, refused when the address lies outside the subnet or the row breaks a constraint. */
  predicate CreationAllowed(t: Tables, subnet: string, cidr: Prefix, input: Address) {
    && Contains(cidr, input.ip) && subnet in t.subnets
    && RefersInto(input.device, t.devices.Keys)
    && forall a :: a in t.addresses ==> t.addresses[a].ip != input.ip
  }

  function AddressCreated(t: Tables, subnet: string, cidr: Prefix, input: Address): Tables {
    if CreationAllowed(t, subnet, cidr, input)
    then t.(addresses := t.addresses[t.next := input.(subnet := Some(subnet), lastSeen := None)], next := t.next + 1)
    else t
  }

  /** `UpdateAddress`, refused when the address leaves its subnet or the row breaks a constraint. */
  predicate EditAllowed(t: Tables, id: Id, cidr: Prefix, input: Address) {
    && Contains(cidr, input.ip) && id in t.addresses
    && RefersInto(input.device, t.devices.Keys)
    && forall a :: a in t.addresses && a != id ==> t.addresses[a].ip != input.ip
  }

  function AddressEdited(t: Tables, id: Id, cidr: Prefix, input: Address): Tables {
    if EditAllowed(t, id, cidr, input)
    then t.(addresses := t.addresses[id := t.addresses[id].(ip := input.ip, device := input.device, state := input.state, hostname := input.hostname)])
    else t
  }

  /** A write to the subnet table; addresses of a deleted subnet keep their row. */
  ghost function SubnetWritten(t: Tables, w: Subnets.Write): Tables
    requires Subnets.Admissible(t.subnets, w)
  {
    var subnets := Subnets.AfterWrite(t.subnets, w);
    t.(subnets := subnets,
       addresses := map a | a in t.addresses :: t.addresses[a].(subnet := Without(t.addresses[a].subnet, t.subnets.Keys - subnets.Keys)))
  }
}
