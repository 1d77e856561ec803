/**
 The import-all flow over the store: list the targets, prompt for a missing subnet, save
 it, and once none is missing import everything (internal/app/discoveries.go).
 */
module ImportLoop {
  import opened Options
  import opened Prefix
  import opened Scope
  import opened Discoveries
  import opened DiscoveryLaws
  import opened ImportAll
  import DiscoveryStore
  import Sorted
  import Subnets

  // ----- listing -----

  /** Pending and free of conflict. */
  predicate Importable(t: Tables, id: Id) {
    id in t.discoveries && t.discoveries[id].status == Pending && t.discoveries[id].reconcile != Conflict
  }

  predicate HasHome(subnets: Subnets.Table, ip: Addr) {
    exists s :: s in subnets && Contains(subnets[s].cidr, ip)
  }

  /** The listed row of a discovery; `scans` holds the targets of the jobs that observed it. */
  function Row(t: Tables, scans: map<Id, seq<Written>>, id: Id): Target
    requires id in t.discoveries
  {
    var d := t.discoveries[id];
    Target(id, d.ip, d.vlan, HasHome(t.subnets, d.ip), if id in scans then scans[id] else [])
  }

  ghost predicate Listing(t: Tables, scans: map<Id, seq<Written>>, targets: seq<Target>) {
    && (forall i :: 0 <= i < |targets| ==> Importable(t, targets[i].id) && targets[i] == Row(t, scans, targets[i].id))
    && (forall id :: Importable(t, id) ==> exists i :: 0 <= i < |targets| && targets[i].id == id)
    && (forall i, j :: 0 <= i < j < |targets| ==> targets[i].ip < targets[j].ip)
  }

  /** The subnets have the address among their own. */
  ghost predicate Managed(t: Tables, ip: Addr) {
    exists s :: s in t.subnets && In(ip, t.subnets[s].cidr)
  }

  lemma HasHomeIs(t: Tables, ip: Addr)
    ensures HasHome(t.subnets, ip) <==> Managed(t, ip)
  {
    forall s | s in t.subnets {
      ContainsIsMembership(t.subnets[s].cidr, ip);
    }
  }

  /** What a listing says: the discoveries to be reviewed that do not contradict what is managed, each with its facts. */
  lemma ListingTells(t: Tables, scans: map<Id, seq<Written>>, targets: seq<Target>)
    requires Listing(t, scans, targets)
    ensures forall x :: x in targets ==>
      && x.id in t.discoveries
      && var d := t.discoveries[x.id];
      && d.status == Pending && (d.reconcile == New || d.reconcile == Match)
      && x.ip == d.ip && x.vlan == d.vlan && (x.hasSubnet <==> Managed(t, x.ip))
      && x.scanned == if x.id in scans then scans[x.id] else []
    ensures forall id :: id in t.discoveries && t.discoveries[id].status == Pending && t.discoveries[id].reconcile != Conflict ==>
      exists x :: x in targets && x.id == id
  {
    forall x | x in targets
      ensures Importable(t, x.id) && x == Row(t, scans, x.id) && (x.hasSubnet <==> Managed(t, x.ip))
    {
      var i :| 0 <= i < |targets| && targets[i] == x;
      HasHomeIs(t, x.ip);
    }
    forall id | id in t.discoveries && t.discoveries[id].status == Pending && t.discoveries[id].reconcile != Conflict
      ensures exists x :: x in targets && x.id == id
    {
      assert Importable(t, id);
      var i :| 0 <= i < |targets| && targets[i].id == id;
      assert targets[i] in targets;
    }
  }

  /** The homeless IPs are the importable ones no subnet contains. */
  ghost function HomelessIps(t: Tables): set<Addr> {
    set id | id in t.discoveries && Importable(t, id) && !HasHome(t.subnets, t.discoveries[id].ip) :: t.discoveries[id].ip
  }

  lemma HomelessAre(t: Tables)
    ensures HomelessIps(t) != {} <==>
      exists d :: d in t.discoveries && t.discoveries[d].status == Pending && t.discoveries[d].reconcile != Conflict && !Managed(t, t.discoveries[d].ip)
  {
    forall ip: Addr {
      HasHomeIs(t, ip);
    }
    if d :| d in t.discoveries && Importable(t, d) && !HasHome(t.subnets, t.discoveries[d].ip) {
      assert t.discoveries[d].ip in HomelessIps(t);
    }
  }

  // ----- a save in the modal -----

  datatype Saved = Saved | NotCovering | Overlapping

  /** The tables after an accepted save. */
  function WithSubnet(t: Tables, input: Subnets.Subnet, id: string): Tables {
    t.(subnets := t.subnets[id := input])
  }

  ghost predicate SaveAccepted(t: Tables, rep: Addr, input: Subnets.Subnet) {
    In(rep, input.cidr) && !Subnets.Taken(t.subnets, "", input.cidr)
  }

  /** `discoverySubnetCreate`, up to the import: the subnet must cover the host it was prompted for, if the form names one. */
  method SaveSubnet(store: Subnets.SubnetStore, rep: Option<Addr>, input: Subnets.Subnet, id: string) returns (r: Saved)
    requires Subnets.Valid(store.subnets) && IsMasked(input.cidr) && id !in store.subnets
    modifies store
    ensures Subnets.Valid(store.subnets)
    ensures r == if rep.Some? && !In(rep.value, input.cidr) then NotCovering
      else if Subnets.Taken(old(store.subnets), "", input.cidr) then Overlapping else Saved.Saved
    ensures store.subnets == if r == Saved.Saved then old(store.subnets)[id := input] else old(store.subnets)
  {
    if rep.Some? {
      ContainsIsMembership(input.cidr, rep.value);
      if !Contains(input.cidr, rep.value) {
        return NotCovering;
      }
    }
    var outcome := store.CreateSubnet(input, id);
    return if outcome == Subnets.Written then Saved.Saved else Overlapping;
  }

  /** An accepted save for a homeless host leaves strictly fewer homeless. */
  lemma SaveShrinksHomeless(t: Tables, rep: Addr, input: Subnets.Subnet, id: string)
    requires SaveAccepted(t, rep, input) && id !in t.subnets && rep in HomelessIps(t)
    ensures HomelessIps(WithSubnet(t, input, id)) < HomelessIps(t)
    ensures forall d :: Importable(WithSubnet(t, input, id), d) <==> Importable(t, d)
  {
    var u := WithSubnet(t, input, id);
    ContainsIsMembership(input.cidr, rep);
    assert u.subnets[id] == input;
    assert HasHome(u.subnets, rep);
    forall ip | HasHome(t.subnets, ip)
      ensures HasHome(u.subnets, ip)
    {
      var s :| s in t.subnets && Contains(t.subnets[s].cidr, ip);
      assert u.subnets[s] == t.subnets[s];
    }
  }

  datatype Save = Save(rep: Addr, input: Subnets.Subnet, id: string)

  /** Accepted saves made one after another, each for a host that is still homeless, with no other writer in between. */
  ghost predicate Saves(t: Tables, saves: seq<Save>, u: Tables)
    decreases |saves|
  {
    if saves == [] then t == u
    else
      var s := saves[0];
      && SaveAccepted(t, s.rep, s.input) && s.id !in t.subnets && s.rep in HomelessIps(t)
      && Saves(WithSubnet(t, s.input, s.id), saves[1..], u)
  }

  /** The prompt loop ends: there are no more accepted saves than homeless hosts at its start. */
  lemma {:induction false} LoopTerminates(t: Tables, saves: seq<Save>, u: Tables)
    requires Saves(t, saves, u)
    ensures |saves| + |HomelessIps(u)| <= |HomelessIps(t)|
    decreases |saves|
  {
    if saves != [] {
      var s := saves[0];
      var v := WithSubnet(t, s.input, s.id);
      SaveShrinksHomeless(t, s.rep, s.input, s.id);
      LoopTerminates(v, saves[1..], u);
      ProperSubsetIsSmaller(HomelessIps(v), HomelessIps(t));
    }
  }

  lemma ProperSubsetIsSmaller(a: set<Addr>, b: set<Addr>)
    requires a < b
    ensures |a| < |b|
  {
    assert b == a + (b - a);
  }

  /** It is never stuck: the network of the homeless host alone is always accepted. */
  lemma SomeSaveIsAccepted(t: Tables, rep: Addr, input: Subnets.Subnet)
    requires Valid(t) && rep in HomelessIps(t) && input.cidr == Prefix(rep, 32)
    ensures IsMasked(input.cidr) && SaveAccepted(t, rep, input)
  {
    assert Base(input.cidr) == rep && Size(input.cidr) == 1;
    forall s | s in t.subnets
      ensures Disjoint(t.subnets[s].cidr, input.cidr)
    {
      ContainsIsMembership(t.subnets[s].cidr, rep);
    }
  }

  /** The prefilled suggestion is accepted exactly when it meets no managed subnet. */
  lemma SuggestionAcceptedIff(t: Tables, target: Target, input: Subnets.Subnet)
    requires input.cidr == Suggested(target.ip, target.scanned)
    ensures IsMasked(input.cidr)
    ensures SaveAccepted(t, target.ip, input) <==> forall s :: s in t.subnets ==> !Overlaps(t.subnets[s].cidr, input.cidr)
  {
    SuggestionCovers(target.ip, target.scanned);
    forall s | s in t.subnets
      ensures Overlaps(t.subnets[s].cidr, input.cidr) <==> !Disjoint(t.subnets[s].cidr, input.cidr)
    {
      OverlapsIsIntersection(t.subnets[s].cidr, input.cidr);
    }
  }

  /** A host scanned on its own beside a managed /25: the /24 suggested for it is refused. */
  lemma SuggestionMayBeRefused() returns (t: Tables, target: Target, input: Subnets.Subnet)
    ensures Valid(t) && target.ip in HomelessIps(t) && target.scanned == [Host(target.ip)]
    ensures input.cidr == Suggested(target.ip, target.scanned) && !SaveAccepted(t, target.ip, input)
  {
    var lan := Prefix(0, 25);
    var host: Addr := 200;
    var d := Discovery(host, None, "", "", Facts("", "", "", "", []), 0, "", Pending, New, None, None);
    t := Tables(map["lan" := Subnets.Subnet(lan, "", "", None, "")], map[], map[], map[], map[0 := d], 1);
    target := Target(0, host, 0, false, [Host(host)]);
    Shr25();
    Nonempty(lan);
    assert IsMasked(lan);
    assert !Contains(lan, host);
    assert Importable(t, 0) && !HasHome(t.subnets, host);
    assert Best(host, target.scanned) == None by {
      assert Best(host, target.scanned[..0]) == None;
    }
    assert Suggested(host, target.scanned) == Masked(Prefix(host, 24));
    input := Subnets.Subnet(Masked(Prefix(host, 24)), "", "", None, "");
    MaskedDenotesTheSame(Prefix(host, 24));
    assert In(0, lan) && In(0, Prefix(host, 24));
    assert In(0, input.cidr);
    assert !Disjoint(t.subnets["lan"].cidr, input.cidr);
  }

  lemma Shr25()
    ensures Shr(0, 7) == 0 && Shr(200, 7) == 1 && Shr(200, 8) == 0 && Shr(0, 8) == 0 && Pow2(7) == 128 && Pow2(8) == 256
  {
    ShrUnique(0, 7, 0);
    ShrUnique(200, 7, 1);
    ShrUnique(200, 8, 0);
    ShrUnique(0, 8, 0);
    assert Pow2(4) == 16 && Pow2(3) == 8;
    Pow2Add(4, 4);
    Pow2Add(4, 3);
  }

  // ----- the flow -----

  /** A group the prompt shows has a homeless host to represent it; none is shown exactly when every host has a home. */
  lemma PromptsForHomeless(t: Tables, scans: map<Id, seq<Written>>, targets: seq<Target>, groups: seq<Missing>)
    requires Listing(t, scans, targets) && Lists(groups, targets)
    ensures forall i :: 0 <= i < |groups| ==> groups[i].rep in HomelessIps(t) && In(groups[i].rep, groups[i].cidr)
    ensures groups == [] <==> HomelessIps(t) == {}
  {
    forall i | 0 <= i < |groups|
      ensures groups[i].rep in HomelessIps(t) && In(groups[i].rep, groups[i].cidr)
    {
      RepresentativeIsInside(targets, groups[i].cidr);
      var k :| 0 <= k < |targets| && InGroup(targets[k], groups[i].cidr) && targets[k].ip == groups[i].rep;
      var id := targets[k].id;
      assert Importable(t, id) && t.discoveries[id].ip == groups[i].rep;
    }
    GroupsAddUp(groups, targets);
    if groups == [] {
      forall id | Importable(t, id)
        ensures HasHome(t.subnets, t.discoveries[id].ip)
      {
        var k :| 0 <= k < |targets| && targets[k].id == id;
        assert targets[k].hasSubnet;
      }
    }
  }

  /** `ListPendingImportTargets`, in ascending order of address. */
  method ListPendingImportTargets(store: DiscoveryStore.Store, scans: map<Id, seq<Written>>) returns (targets: seq<Target>)
    requires Valid(store.State())
    ensures Listing(store.State(), scans, targets)
  {
    ghost var t := store.State();
    targets := [];
    var rest := store.discoveries.Keys;
    while rest != {}
      invariant rest <= t.discoveries.Keys && store.State() == t
      invariant forall x :: x in targets ==> x.id !in rest && Importable(t, x.id) && x == Row(t, scans, x.id)
      invariant forall id :: Importable(t, id) && id !in rest ==> Row(t, scans, id) in targets
      invariant Sorted.By(targets, IpOf) && Sorted.Distinct(targets)
      decreases rest
    {
      var id :| id in rest;
      var d := store.discoveries[id];
      if d.status == Pending && d.reconcile != Conflict {
        var home := exists s :: s in store.subnets && Contains(store.subnets[s].cidr, d.ip);
        var row := Target(id, d.ip, d.vlan, home, if id in scans then scans[id] else []);
        assert row == Row(t, scans, id);
        targets := Sorted.Place(targets, row, IpOf);
      }
      rest := rest - {id};
    }
    SortedRowsList(t, scans, targets);
  }

  function IpOf(t: Target): int {
    t.ip
  }

  lemma SortedRowsList(t: Tables, scans: map<Id, seq<Written>>, targets: seq<Target>)
    requires Valid(t) && Sorted.By(targets, IpOf) && Sorted.Distinct(targets)
    requires forall x :: x in targets ==> Importable(t, x.id) && x == Row(t, scans, x.id)
    requires forall id :: Importable(t, id) ==> Row(t, scans, id) in targets
    ensures Listing(t, scans, targets)
  {
    forall i, j | 0 <= i < j < |targets|
      ensures targets[i].ip < targets[j].ip
    {
      assert targets[i] in targets && targets[j] in targets;
      assert IpOf(targets[i]) <= IpOf(targets[j]);
    }
  }

  lemma HomesAfterImport(t: Tables, id: Id, name: string, generated: string, now: nat)
    requires Valid(t) && id in t.discoveries
    ensures Import(t, id, name, generated, now).Done? <==> HasHome(t.subnets, t.discoveries[id].ip)
    ensures Import(t, id, name, generated, now).Done? ==>
      forall ip :: HasHome(Import(t, id, name, generated, now).tables.subnets, ip) <==> HasHome(t.subnets, ip)
  {
    if Import(t, id, name, generated, now).Done? {
      var u, row := Import(t, id, name, generated, now).tables, t.discoveries[id];
      VlanKeepsValid(t.subnets, row.ip, row.vlan);
      forall s | s in t.subnets
        ensures u.subnets[s].cidr == t.subnets[s].cidr
      {
      }
      forall ip
        ensures HasHome(u.subnets, ip) <==> HasHome(t.subnets, ip)
      {
        SameHomes(t.subnets, u.subnets, ip);
      }
    }
  }

  lemma SameHomes(a: Subnets.Table, b: Subnets.Table, ip: Addr)
    requires a.Keys == b.Keys && forall s :: s in a ==> a[s].cidr == b[s].cidr
    ensures HasHome(a, ip) <==> HasHome(b, ip)
  {
    if HasHome(a, ip) {
      var s :| s in a && Contains(a[s].cidr, ip);
      assert Contains(b[s].cidr, ip);
    }
    if HasHome(b, ip) {
      var s :| s in b && Contains(b[s].cidr, ip);
      assert Contains(a[s].cidr, ip);
    }
  }

  ghost predicate Distinct(targets: seq<Target>) {
    forall i, j :: 0 <= i < j < |targets| ==> targets[i].id != targets[j].id
  }

  /** Each target is a discovery, and whether it has a home is what the listing says. */
  ghost predicate Listed(t: Tables, targets: seq<Target>) {
    forall i :: 0 <= i < |targets| ==>
      targets[i].id in t.discoveries && targets[i].hasSubnet == HasHome(t.subnets, t.discoveries[targets[i].id].ip)
  }

  /** `importTargets`: every listed discovery with a home is imported, and the others are left as they were. */
  method ImportTargets(store: DiscoveryStore.Store, targets: seq<Target>, host: Addr -> string, now: nat) returns (count: nat)
    requires Valid(store.State())
    requires Distinct(targets) && Listed(store.State(), targets)
    modifies store
    ensures Valid(store.State()) && store.discoveries.Keys == old(store.discoveries.Keys)
    ensures forall i :: 0 <= i < |targets| && targets[i].hasSubnet ==> store.discoveries[targets[i].id].status == Imported
    ensures forall d :: d in store.discoveries && (forall i :: 0 <= i < |targets| && targets[i].id == d ==> !targets[i].hasSubnet) ==>
      store.discoveries[d] == old(store.discoveries)[d]
    ensures count == |targets| - HomelessCount(targets)
  {
    count := 0;
    ghost var t0 := store.State();
    for n := 0 to |targets|
      invariant Valid(store.State()) && ImportedExactly(t0, store.State(), Housed(targets[..n]))
      invariant count == n - HomelessCount(targets[..n])
    {
      assert targets[..n + 1][..n] == targets[..n];
      var t := targets[n];
      if !t.hasSubnet {
        continue;
      }
      ghost var before := store.State();
      StillHoused(t0, before, targets, n);
      ImportOne(store, t.id, host(t.ip), now);
      ImportedBoth(t0, before, store.State(), Housed(targets[..n]), t.id);
      count := count + 1;
    }
    assert targets[..|targets|] == targets;
    ImportedAsListed(t0, store.State(), targets);
  }

  lemma ImportedAsListed(t0: Tables, t: Tables, targets: seq<Target>)
    requires ImportedExactly(t0, t, Housed(targets))
    requires forall i :: 0 <= i < |targets| ==> targets[i].id in t0.discoveries
    ensures forall i :: 0 <= i < |targets| && targets[i].hasSubnet ==> t.discoveries[targets[i].id].status == Imported
    ensures forall d :: d in t.discoveries && (forall i :: 0 <= i < |targets| && targets[i].id == d ==> !targets[i].hasSubnet) ==>
      t.discoveries[d] == t0.discoveries[d]
  {
    HousedAre(targets);
  }

  lemma StillHoused(t0: Tables, t: Tables, targets: seq<Target>, n: nat)
    requires n < |targets| && Distinct(targets) && Listed(t0, targets) && ImportedExactly(t0, t, Housed(targets[..n]))
    ensures var id := targets[n].id;
      && id in t.discoveries && t.discoveries[id] == t0.discoveries[id]
      && (targets[n].hasSubnet <==> HasHome(t.subnets, t.discoveries[id].ip))
  {
    HousedAre(targets[..n]);
  }

  /** The listed discoveries with a home. */
  ghost function Housed(targets: seq<Target>): set<Id> {
    if targets == [] then {}
    else
      var last := targets[|targets| - 1];
      Housed(targets[..|targets| - 1]) + if last.hasSubnet then {last.id} else {}
  }

  lemma {:induction false} HousedAre(targets: seq<Target>)
    ensures forall d :: d in Housed(targets) <==> exists i :: 0 <= i < |targets| && targets[i].hasSubnet && targets[i].id == d
  {
    if targets != [] {
      HousedAre(targets[..|targets| - 1]);
    }
  }

  /** Those discoveries are imported and the others are as they were; the same addresses have a home. */
  ghost predicate ImportedExactly(t0: Tables, t: Tables, done: set<Id>) {
    && t.discoveries.Keys == t0.discoveries.Keys
    && (forall ip :: HasHome(t.subnets, ip) <==> HasHome(t0.subnets, ip))
    && forall d :: d in t0.discoveries ==> if d in done then t.discoveries[d].status == Imported else t.discoveries[d] == t0.discoveries[d]
  }

  lemma ImportedBoth(t0: Tables, t: Tables, u: Tables, done: set<Id>, id: Id)
    requires ImportedExactly(t0, t, done) && ImportedExactly(t, u, {id})
    ensures ImportedExactly(t0, u, done + {id})
  {
  }

  method ImportOne(store: DiscoveryStore.Store, id: Id, generated: string, now: nat)
    requires Valid(store.State()) && id in store.discoveries && HasHome(store.subnets, store.discoveries[id].ip)
    modifies store
    ensures Valid(store.State()) && ImportedExactly(old(store.State()), store.State(), {id})
  {
    ghost var before := store.State();
    HomesAfterImport(before, id, "", generated, now);
    ImportLeavesOthers(before, id, "", generated, now);
    ImportKeepsValid(before, id, "", generated, now);
    var r := store.ImportDiscovery(id, "", generated, now);
  }

  /**
   `discoveriesImportAll`, and the end of the prompt loop: with a subnet missing it stops at
   the prompt and imports nothing; with none missing every importable discovery is imported.
  */
  method ImportEverything(store: DiscoveryStore.Store, scans: map<Id, seq<Written>>, host: Addr -> string, now: nat) returns (prompt: Option<Missing>, count: nat)
    requires Valid(store.State())
    modifies store
    ensures Valid(store.State())
    ensures prompt.Some? <==> HomelessIps(old(store.State())) != {}
    ensures prompt.Some? <==>
      exists d ::
        var was := old(store.discoveries);
        d in was && was[d].status == Pending && was[d].reconcile != Conflict && !Managed(old(store.State()), was[d].ip)
    ensures prompt.None? ==>
      forall d :: d in old(store.discoveries) ==>
        var was := old(store.discoveries)[d];
        && d in store.discoveries
        && if was.status == Pending && was.reconcile != Conflict then store.discoveries[d].status == Imported else store.discoveries[d] == was
    ensures prompt.Some? ==> store.State() == old(store.State()) && prompt.value.rep in HomelessIps(store.State()) && In(prompt.value.rep, prompt.value.cidr)
    ensures prompt.None? ==> forall d :: Importable(old(store.State()), d) ==> d in store.discoveries && store.discoveries[d].status == Imported
    ensures prompt.None? ==> forall d :: d in store.discoveries && !Importable(old(store.State()), d) ==> d in old(store.discoveries) && store.discoveries[d] == old(store.discoveries)[d]
  {
    var targets := ListPendingImportTargets(store, scans);
    var groups := MissingSubnetGroups(targets);
    HomelessAre(store.State());
    PromptsForHomeless(store.State(), scans, targets, groups);
    GroupsAddUp(groups, targets);
    if |groups| > 0 {
      return Some(groups[0]), 0;
    }
    forall i, j | 0 <= i < j < |targets|
      ensures targets[i].id != targets[j].id
    {
      assert targets[i].ip < targets[j].ip;
    }
    prompt := None;
    ghost var before := store.State();
    count := ImportTargets(store, targets, host, now);
    assert forall d :: d in before.discoveries ==> (Importable(before, d) <==> before.discoveries[d].status == Pending && before.discoveries[d].reconcile != Conflict);
  }
}
