/**
 A combined scan from end to end (internal/scanner/agent/combined.go): nmap's findings,
 the enrichment of the hosts it found, and one merge of everything.
 */
module Combined {
  import opened Merge
  import opened MergeLaws
  import opened Notices
  import opened Enrich

  /** `unionHosts`: the distinct non-blank hosts of both lists, in first-seen order. */
  method UnionHosts(a: seq<string>, b: seq<string>) returns (out: seq<string>)
    ensures out == Extend([], a + b)
    ensures forall h :: h in out <==> h != "" && (h in a || h in b)
    ensures forall i, j :: 0 <= i < j < |out| ==> out[i] != out[j]
  {
    out := [];
    var seen: set<string> := {};
    var lists := [a, b];
    ghost var done: seq<string> := [];
    for k := 0 to 2
      invariant done == if k == 0 then [] else if k == 1 then a else a + b
      invariant out == Extend([], done) && forall h :: h in seen <==> h in out
    {
      for i := 0 to |lists[k]|
        invariant out == Extend(Extend([], done), lists[k][..i]) && forall h :: h in seen <==> h in out
      {
        var h := lists[k][i];
        assert lists[k][..i + 1][..i] == lists[k][..i];
        if h == "" || h in seen {
          continue;
        }
        seen := seen + {h};
        out := out + [h];
      }
      assert lists[k][..|lists[k]|] == lists[k];
      ExtendAppend([], done, lists[k]);
      done := done + lists[k];
    }
    ExtendContent([], a + b);
  }

  /** The hosts a combined scan enriches, given what nmap found and the hosts listed by name. */
  function Hosts(nmap: seq<Observation>, listed: seq<string>): seq<string> {
    Extend([], Ips(nmap) + listed)
  }

  /** Every address nmap found comes first, then the listed hosts it did not find; blanks are left out and no host is asked twice. */
  lemma HostsAre(nmap: seq<Observation>, listed: seq<string>) returns (n: nat)
    ensures var hosts := Hosts(nmap, listed);
      && n <= |hosts|
      && (forall h :: h in hosts[..n] <==> h != "" && exists o :: o in nmap && o.ip == h)
      && (forall h :: h in hosts[n..] <==> h != "" && h in listed && forall o :: o in nmap ==> o.ip != h)
      && forall i, j :: 0 <= i < j < |hosts| ==> hosts[i] != hosts[j]
  {
    var found, hosts := Extend([], Ips(nmap)), Hosts(nmap, listed);
    ExtendContent([], Ips(nmap));
    ExtendAppend([], Ips(nmap), listed);
    ExtendContent(found, listed);
    n := |found|;
    assert hosts[..n] == found;
    forall h
      ensures h in Ips(nmap) <==> exists o :: o in nmap && o.ip == h
    {
      if h in Ips(nmap) {
        var i :| 0 <= i < |nmap| && Ips(nmap)[i] == h;
        assert nmap[i] in nmap;
      }
      if o :| o in nmap && o.ip == h {
        var i :| 0 <= i < |nmap| && nmap[i] == o;
        assert Ips(nmap)[i] == h;
      }
    }
    forall h | h in hosts[n..]
      ensures h !in found
    {
      var i :| n <= i < |hosts| && hosts[i] == h;
    }
  }

  /** Whatever the interleaving, a combined scan reports the observations and lists the notices of the sequential run. */
  lemma CombinedScanIsDeterministic(nmap: seq<Observation>, b: Backends, listed: seq<string>, targets: seq<string>, steps: seq<Enrich.Step>, s: State, notices: seq<Notice>, expected: seq<Notice>)
    requires var p := PlanOf(b, Hosts(nmap, listed), targets); Runs(p, Initial(p), steps, s) && s.dispatcher.Finished?
    requires Renders(s.collected, notices)
    requires Renders(ApplyAll(Empty, Sequential(PlanOf(b, Hosts(nmap, listed), targets)).notes), expected)
    ensures Merged(nmap + Output(s)) == Merged(nmap + Sequential(PlanOf(b, Hosts(nmap, listed), targets)).obs)
    ensures notices == expected
  {
    PlanIsLiteral(b, Hosts(nmap, listed), targets);
    ScheduleIndependent(PlanOf(b, Hosts(nmap, listed), targets), steps, s);
    RenderingUnique(s.collected, notices, expected);
  }

  // ----- the inner merges -----

  /** The neighbor source merges its own findings before it reports them; the others report them raw. */
  ghost function Premerging(raw: Backends): Backends {
    (t: ScanType, hosts: seq<string>) =>
      match raw(t, hosts)
      case Failed(message) => Failed(message)
      case Answered(obs, errs) => Answered(if t == LLDPCDP then Merged(obs) else obs, errs)
  }

  ghost function SnmpParts(inventory: seq<Observation>, arp: seq<Observation>, neighbors: seq<Observation>): seq<Source> {
    if inventory == [] then [Raw(inventory)] else [Raw(inventory)] + [Raw(arp)] + [Merge([Raw(neighbors)])]
  }

  ghost function HostParts(raw: Backends, host: string): seq<Source> {
    SnmpParts(Pass(raw, [host], SNMPInventory, INVENTORY).obs, Pass(raw, [host], ARPTable, ARP).obs, Pass(raw, [host], LLDPCDP, NEIGHBORS).obs)
    + [Raw(Pass(raw, [host], NameLookup, NAMES).obs)] + [Raw(Pass(raw, [host], DNSLookup, DNS).obs)]
  }

  ghost function AllParts(raw: Backends, hosts: seq<string>): seq<Source> {
    if hosts == [] then [] else HostParts(raw, hosts[0]) + AllParts(raw, hosts[1..])
  }

  lemma {:induction false} PartsAppend(x: seq<Source>, y: seq<Source>)
    ensures Results(x + y) == Results(x) + Results(y)
    ensures FlatAll(x + y) == FlatAll(x) + FlatAll(y)
  {
    if x == [] {
      assert x + y == y;
    } else {
      assert (x + y)[1..] == x[1..] + y;
      PartsAppend(x[1..], y);
    }
  }

  lemma OnePart(s: Source)
    ensures Results([s]) == Result(s) && FlatAll([s]) == Flat(s)
  {
    assert [s][1..] == [];
  }

  lemma PartSnoc(x: seq<Source>, s: Source)
    ensures Results(x + [s]) == Results(x) + Result(s)
    ensures FlatAll(x + [s]) == FlatAll(x) + Flat(s)
  {
    PartsAppend(x, [s]);
    OnePart(s);
  }

  lemma OneMerge(raw: seq<Observation>)
    ensures Result(Merge([Raw(raw)])) == Merged(raw) && Flat(Merge([Raw(raw)])) == raw
  {
    OnePart(Raw(raw));
  }

  lemma SnmpPartsAre(i: seq<Observation>, a: seq<Observation>, n: seq<Observation>)
    ensures Results(SnmpParts(i, a, n)) == if i == [] then i else i + a + Merged(n)
    ensures FlatAll(SnmpParts(i, a, n)) == if i == [] then i else i + a + n
  {
    OnePart(Raw(i));
    if i != [] {
      PartSnoc([Raw(i)], Raw(a));
      OneMerge(n);
      PartSnoc([Raw(i)] + [Raw(a)], Merge([Raw(n)]));
    }
  }

  lemma MergedNothing()
    ensures Merged([]) == []
  {
  }

  lemma PremergedPass(raw: Backends, host: string, t: ScanType, pass: string)
    ensures Pass(Premerging(raw), [host], t, pass).obs ==
      if t == LLDPCDP then Merged(Pass(raw, [host], t, pass).obs) else Pass(raw, [host], t, pass).obs
  {
    MergedNothing();
  }

  lemma HostPartsAreItsWork(raw: Backends, host: string)
    ensures Results(HostParts(raw, host)) == HostWork(Premerging(raw), host).obs
    ensures FlatAll(HostParts(raw, host)) == HostWork(raw, host).obs
  {
    PremergedPass(raw, host, SNMPInventory, INVENTORY);
    PremergedPass(raw, host, ARPTable, ARP);
    PremergedPass(raw, host, LLDPCDP, NEIGHBORS);
    PremergedPass(raw, host, NameLookup, NAMES);
    PremergedPass(raw, host, DNSLookup, DNS);
    var i, a, n := Pass(raw, [host], SNMPInventory, INVENTORY).obs, Pass(raw, [host], ARPTable, ARP).obs, Pass(raw, [host], LLDPCDP, NEIGHBORS).obs;
    var l, d := Pass(raw, [host], NameLookup, NAMES).obs, Pass(raw, [host], DNSLookup, DNS).obs;
    SnmpPartsAre(i, a, n);
    PartSnoc(SnmpParts(i, a, n), Raw(l));
    PartSnoc(SnmpParts(i, a, n) + [Raw(l)], Raw(d));
  }

  lemma {:induction false} PartsAreTheWork(raw: Backends, hosts: seq<string>)
    ensures Results(AllParts(raw, hosts)) == SequentialObs(HostPlans(Premerging(raw), hosts))
    ensures FlatAll(AllParts(raw, hosts)) == SequentialObs(HostPlans(raw, hosts))
  {
    if hosts != [] {
      PartsAreTheWork(raw, hosts[1..]);
      HostPartsAreItsWork(raw, hosts[0]);
      PartsAppend(HostParts(raw, hosts[0]), AllParts(raw, hosts[1..]));
      FirstHostFirst(Premerging(raw), hosts);
      FirstHostFirst(raw, hosts);
    }
  }

  lemma FirstHostFirst(b: Backends, hosts: seq<string>)
    requires hosts != []
    ensures SequentialObs(HostPlans(b, hosts)) == HostWork(b, hosts[0]).obs + SequentialObs(HostPlans(b, hosts[1..]))
  {
    assert HostPlans(b, hosts)[1..] == HostPlans(b, hosts[1..]);
  }

  /**
   The merges inside nmap's result and inside the neighbor source change nothing: the
   report of every run of a combined scan is one merge of all raw findings, in order.
  */
  lemma CombinedScanIsOneMerge(nmap: seq<Observation>, raw: Backends, listed: seq<string>, targets: seq<string>, steps: seq<Enrich.Step>, s: State)
    requires var p := PlanOf(Premerging(raw), Hosts(Merged(nmap), listed), targets); Runs(p, Initial(p), steps, s) && s.dispatcher.Finished?
    ensures Merged(Merged(nmap) + Output(s)) == Merged(nmap + Sequential(PlanOf(raw, Hosts(Merged(nmap), listed), targets)).obs)
  {
    var hosts := Hosts(Merged(nmap), listed);
    PlanIsLiteral(Premerging(raw), hosts, targets);
    ScheduleIndependent(PlanOf(Premerging(raw), hosts, targets), steps, s);
    SequentialParts(raw, hosts, targets);
    OneMergeOfParts(nmap, AllParts(raw, hosts), Pass(raw, targets, DHCPLeases, DHCP).obs);
  }

  lemma SequentialParts(raw: Backends, hosts: seq<string>, targets: seq<string>)
    ensures var parts, leases := AllParts(raw, hosts), Pass(raw, targets, DHCPLeases, DHCP).obs;
      && Sequential(PlanOf(Premerging(raw), hosts, targets)).obs == Results(parts) + leases
      && Sequential(PlanOf(raw, hosts, targets)).obs == FlatAll(parts) + leases
  {
    PartsAreTheWork(raw, hosts);
    assert Pass(Premerging(raw), targets, DHCPLeases, DHCP).obs == Pass(raw, targets, DHCPLeases, DHCP).obs;
  }

  lemma OneMergeOfParts(nmap: seq<Observation>, parts: seq<Source>, leases: seq<Observation>)
    ensures Merged(Merged(nmap) + (Results(parts) + leases)) == Merged(nmap + (FlatAll(parts) + leases))
  {
    var first := [Merge([Raw(nmap)])];
    OneMerge(nmap);
    OnePart(first[0]);
    PartsAppend(first, parts);
    PartSnoc(first + parts, Raw(leases));
    NestedMergeIsFlatMerge(Merge(first + parts + [Raw(leases)]));
    Reassociated(Merged(nmap), Results(parts), leases);
    Reassociated(nmap, FlatAll(parts), leases);
  }
}
