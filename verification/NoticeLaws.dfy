/**
 What the notices of a combined scan say of the backends' answers
 (internal/scanner/agent/combined.go): per pass, how many hosts did not answer, and which
 conditions struck a pass as a whole.
 */
module NoticeLaws {
  import opened Merge
  import opened Text
  import opened Notices
  import opened Enrich

  // ----- the collector and the notes it took -----

  /** How often a host of the pass was noted. */
  function Times(notes: seq<Note>, pass: string): nat {
    if notes == [] then 0
    else Times(notes[..|notes| - 1], pass) + if notes[|notes| - 1] == NoteTarget(pass) then 1 else 0
  }

  lemma {:induction false} TimesAppend(x: seq<Note>, y: seq<Note>, pass: string)
    ensures Times(x + y, pass) == Times(x, pass) + Times(y, pass)
  {
    if y == [] {
      assert x + y == x;
    } else {
      assert (x + y)[..|x + y| - 1] == x + y[..|y| - 1];
      TimesAppend(x, y[..|y| - 1], pass);
    }
  }

  lemma LastNote(notes: seq<Note>)
    requires notes != []
    ensures ApplyAll(Empty, notes) == Apply(ApplyAll(Empty, notes[..|notes| - 1]), notes[|notes| - 1])
  {
    var before, last := notes[..|notes| - 1], notes[|notes| - 1];
    assert notes == before + [last];
    ApplyAllAppend(Empty, before, [last]);
    assert [last][1..] == [];
  }

  /** The count of a pass is the number of its notes, and a pass without any is not listed. */
  lemma {:induction false} CountsAreTimes(notes: seq<Note>, pass: string)
    ensures var c := ApplyAll(Empty, notes).perTarget;
      if Times(notes, pass) == 0 then pass !in c else pass in c && c[pass] == Times(notes, pass)
  {
    if notes != [] {
      CountsAreTimes(notes[..|notes| - 1], pass);
      LastNote(notes);
    }
  }

  /** The whole-pass conditions kept are exactly those noted, each under the label and message it was noted with. */
  lemma {:induction false} MessagesAreNoted(notes: seq<Note>)
    requires LiteralNotes(notes)
    ensures var kept := ApplyAll(Empty, notes).wholePass;
      forall k :: k in kept ==> Nul !in kept[k] && k == WholeKey(kept[k], AfterNul(k)) && NoteWhole(kept[k], AfterNul(k)) in notes
    ensures var kept := ApplyAll(Empty, notes).wholePass;
      forall pass, message :: NoteWhole(pass, message) in notes ==> WholeKey(pass, message) in kept && kept[WholeKey(pass, message)] == pass
  {
    if notes != [] {
      var before, last := notes[..|notes| - 1], notes[|notes| - 1];
      assert notes == before + [last] && last in notes;
      MessagesAreNoted(before);
      LastNote(notes);
      if last.NoteWhole? {
        MessageKept(ApplyAll(Empty, before).wholePass, before, last);
      }
    }
  }

  lemma MessageKept(kept: map<string, string>, before: seq<Note>, last: Note)
    requires last.NoteWhole? && Nul !in last.pass && LiteralNotes(before)
    requires forall pass, message :: NoteWhole(pass, message) in before ==> WholeKey(pass, message) in kept && kept[WholeKey(pass, message)] == pass
    ensures AfterNul(WholeKey(last.pass, last.message)) == last.message
    ensures var after := kept[WholeKey(last.pass, last.message) := last.pass];
      forall pass, message :: NoteWhole(pass, message) in before ==> WholeKey(pass, message) in after && after[WholeKey(pass, message)] == pass
  {
    AfterNulOfKey(last.pass, last.message);
    forall pass, message | NoteWhole(pass, message) in before && WholeKey(pass, message) == WholeKey(last.pass, last.message)
      ensures pass == last.pass
    {
      assert Literal(NoteWhole(pass, message));
      WholeKeyInjective(pass, message, last.pass, last.message);
    }
  }

  /** What a rendering lists. */
  lemma ListedAsCollected(c: Collected, out: seq<Notice>)
    requires Renders(c, out)
    ensures forall p, n :: HostsSkipped(p, n) in out <==> p in c.perTarget && c.perTarget[p] == n
    ensures forall p, m :: WholePassSkipped(p, m) in out <==> exists k :: k in c.wholePass && c.wholePass[k] == p && AfterNul(k) == m
  {
    var keys, labels :| RendersAs(c, out, keys, labels);
    forall p, n
      ensures HostsSkipped(p, n) in out <==> p in c.perTarget && c.perTarget[p] == n
    {
      CountListed(c, out, keys, labels, p, n);
    }
    forall p, m
      ensures WholePassSkipped(p, m) in out <==> exists k :: k in c.wholePass && c.wholePass[k] == p && AfterNul(k) == m
    {
      MessageListed(c, out, keys, labels, p, m);
    }
  }

  lemma CountListed(c: Collected, out: seq<Notice>, keys: seq<string>, labels: seq<string>, p: string, n: nat)
    requires RendersAs(c, out, keys, labels)
    ensures HostsSkipped(p, n) in out <==> p in c.perTarget && c.perTarget[p] == n
  {
    if HostsSkipped(p, n) in out {
      var i :| 0 <= i < |out| && out[i] == HostsSkipped(p, n);
      assert i >= |keys| && out[|keys| + (i - |keys|)] == HostsSkipped(labels[i - |keys|], c.perTarget[labels[i - |keys|]]);
    }
    if p in c.perTarget {
      assert p in Elements(labels);
      var i :| 0 <= i < |labels| && labels[i] == p;
      assert out[|keys| + i] in out;
    }
  }

  lemma MessageListed(c: Collected, out: seq<Notice>, keys: seq<string>, labels: seq<string>, p: string, m: string)
    requires RendersAs(c, out, keys, labels)
    ensures WholePassSkipped(p, m) in out <==> exists k :: k in c.wholePass && c.wholePass[k] == p && AfterNul(k) == m
  {
    forall i | |keys| <= i < |out|
      ensures out[i].HostsSkipped?
    {
      assert out[|keys| + (i - |keys|)] == HostsSkipped(labels[i - |keys|], c.perTarget[labels[i - |keys|]]);
    }
    if WholePassSkipped(p, m) in out {
      var i :| 0 <= i < |out| && out[i] == WholePassSkipped(p, m);
      assert keys[i] in c.wholePass;
    }
    if k :| k in c.wholePass && c.wholePass[k] == p && AfterNul(k) == m {
      assert k in Elements(keys);
      var i :| 0 <= i < |keys| && keys[i] == k;
      assert out[i] in out;
    }
  }

  /** A rendering of what the notes leave lists exactly the counts and the conditions noted. */
  lemma NoticesTellTheNotes(notes: seq<Note>, out: seq<Notice>)
    requires LiteralNotes(notes) && Renders(ApplyAll(Empty, notes), out)
    ensures forall p, n :: HostsSkipped(p, n) in out <==> n > 0 && n == Times(notes, p)
    ensures forall p, m :: WholePassSkipped(p, m) in out <==> NoteWhole(p, m) in notes
  {
    var c := ApplyAll(Empty, notes);
    ListedAsCollected(c, out);
    MessagesAreNoted(notes);
    forall p
      ensures if Times(notes, p) == 0 then p !in c.perTarget else p in c.perTarget && c.perTarget[p] == Times(notes, p)
    {
      CountsAreTimes(notes, p);
    }
    forall p, m | NoteWhole(p, m) in notes
      ensures AfterNul(WholeKey(p, m)) == m
    {
      assert Literal(NoteWhole(p, m));
      AfterNulOfKey(p, m);
    }
  }

  // ----- the answers behind the notes -----

  /** The hosts a backend reported as not answering. */
  function Unanswered(r: Reply): nat {
    if r.Failed? then 0 else Named(r.errs)
  }

  function Named(errs: seq<ScanError>): nat {
    if errs == [] then 0
    else Named(errs[..|errs| - 1]) + if Blank(errs[|errs| - 1].target) then 0 else 1
  }

  /** The condition struck the pass as a whole. */
  predicate Struck(r: Reply, message: string) {
    match r
    case Failed(m) => m == message
    case Answered(_, errs) => exists i :: 0 <= i < |errs| && Blank(errs[i].target) && errs[i].message == message
  }

  function Found(r: Reply): seq<Observation> {
    if r.Failed? then [] else r.obs
  }

  lemma {:induction false} NotesOfTimes(pass: string, errs: seq<ScanError>, p: string)
    ensures Times(NotesOf(pass, errs), p) == if p == pass then Named(errs) else 0
  {
    if errs != [] {
      var n := |errs| - 1;
      NotesOfTimes(pass, errs[..n], p);
      assert NotesOf(pass, errs)[..n] == NotesOf(pass, errs[..n]);
    }
  }

  /** One pass: its notes carry its label, one per host that did not answer, and its conditions. */
  lemma PassNotes(b: Backends, targets: seq<string>, t: ScanType, pass: string, p: string, m: string)
    requires targets != []
    ensures Pass(b, targets, t, pass).obs == Found(b(t, targets))
    ensures Times(Pass(b, targets, t, pass).notes, p) == if p == pass then Unanswered(b(t, targets)) else 0
    ensures NoteWhole(p, m) in Pass(b, targets, t, pass).notes <==> p == pass && Struck(b(t, targets), m)
  {
    var r := b(t, targets);
    match r
    case Failed(message) => assert Times([NoteWhole(pass, message)], p) == Times([NoteWhole(pass, message)][..0], p);
    case Answered(obs, errs) =>
      NotesOfTimes(pass, errs, p);
      var notes := NotesOf(pass, errs);
      if p == pass && Struck(r, m) {
        var i :| 0 <= i < |errs| && Blank(errs[i].target) && errs[i].message == m;
        assert notes[i] in notes;
      }
      if NoteWhole(p, m) in notes {
        var i :| 0 <= i < |notes| && notes[i] == NoteWhole(p, m);
        assert notes[i] == NoteOf(pass, errs[i]);
      }
  }

  // ----- one host -----

  /** The label a scan type's notices carry. */
  function LabelOf(t: ScanType): (r: string)
    ensures Nul !in r
  {
    match t
    case SNMPInventory => "SNMP inventory"
    case ARPTable => "ARP harvest"
    case LLDPCDP => "LLDP/CDP neighbors"
    case NameLookup => "name lookup"
    case DNSLookup => "DNS lookup"
    case DHCPLeases => "DHCP leases"
  }

  lemma LabelsDiffer(t: ScanType, u: ScanType)
    ensures LabelOf(t) == LabelOf(u) <==> t == u
    ensures LabelOf(t) != PER_HOST
  {
    assert |LabelOf(SNMPInventory)| == 14 && |LabelOf(LLDPCDP)| == 18 && |LabelOf(DNSLookup)| == 10;
    assert |LabelOf(ARPTable)| == |LabelOf(NameLookup)| == |LabelOf(DHCPLeases)| == 11 && |PER_HOST| == 19;
    assert LabelOf(ARPTable)[0] == 'A' && LabelOf(NameLookup)[0] == 'n' && LabelOf(DHCPLeases)[0] == 'D';
  }

  /** The passes a host gets: ARP and neighbors only after an inventory that found something, leases never. */
  predicate Asked(b: Backends, host: string, t: ScanType) {
    match t
    case DHCPLeases => false
    case ARPTable => Found(b(SNMPInventory, [host])) != []
    case LLDPCDP => Found(b(SNMPInventory, [host])) != []
    case _ => true
  }

  function Share(b: Backends, host: string, t: ScanType): nat {
    if Asked(b, host, t) then Unanswered(b(t, [host])) else 0
  }

  predicate HostStruck(b: Backends, host: string, t: ScanType, m: string) {
    Asked(b, host, t) && Struck(b(t, [host]), m)
  }

  /** What a host contributes: the findings of its passes in order, ARP and neighbors between inventory and names. */
  lemma HostFindings(b: Backends, host: string)
    ensures HostWork(b, host).obs ==
      Found(b(SNMPInventory, [host]))
      + (if Asked(b, host, ARPTable) then Found(b(ARPTable, [host])) + Found(b(LLDPCDP, [host])) else [])
      + Found(b(NameLookup, [host])) + Found(b(DNSLookup, [host]))
  {
    PassNotes(b, [host], SNMPInventory, INVENTORY, "", "");
    PassNotes(b, [host], ARPTable, ARP, "", "");
    PassNotes(b, [host], LLDPCDP, NEIGHBORS, "", "");
    PassNotes(b, [host], NameLookup, NAMES, "", "");
    PassNotes(b, [host], DNSLookup, DNS, "", "");
  }

  lemma ThenTimes(x: Work, y: Work, p: string, m: string)
    ensures Times(Then(x, y).notes, p) == Times(x.notes, p) + Times(y.notes, p)
    ensures NoteWhole(p, m) in Then(x, y).notes <==> NoteWhole(p, m) in x.notes || NoteWhole(p, m) in y.notes
  {
    TimesAppend(x.notes, y.notes, p);
  }

  /** The notes of one host's pass under the label of `t`. */
  lemma PassUnder(b: Backends, host: string, u: ScanType, t: ScanType, m: string)
    ensures var w := Pass(b, [host], u, LabelOf(u));
      && Times(w.notes, LabelOf(t)) == (if t == u then Unanswered(b(t, [host])) else 0)
      && (NoteWhole(LabelOf(t), m) in w.notes <==> t == u && Struck(b(t, [host]), m))
  {
    LabelsDiffer(t, u);
    PassNotes(b, [host], u, LabelOf(u), LabelOf(t), m);
  }

  /** The SNMP part of a host's work: the inventory, then ARP and neighbors if it found something. */
  lemma SnmpNotes(b: Backends, host: string, snmp: Work, t: ScanType, m: string)
    requires var inv, arp, nbr := Pass(b, [host], SNMPInventory, INVENTORY), Pass(b, [host], ARPTable, ARP), Pass(b, [host], LLDPCDP, NEIGHBORS);
      snmp == if inv.obs == [] then inv else Then(Then(inv, arp), nbr)
    ensures Times(snmp.notes, LabelOf(t)) == if t == NameLookup || t == DNSLookup then 0 else Share(b, host, t)
    ensures NoteWhole(LabelOf(t), m) in snmp.notes <==> t != NameLookup && t != DNSLookup && HostStruck(b, host, t, m)
  {
    var p := LabelOf(t);
    var inv, arp, nbr := Pass(b, [host], SNMPInventory, INVENTORY), Pass(b, [host], ARPTable, ARP), Pass(b, [host], LLDPCDP, NEIGHBORS);
    PassUnder(b, host, SNMPInventory, t, m);
    PassUnder(b, host, ARPTable, t, m);
    PassUnder(b, host, LLDPCDP, t, m);
    PassNotes(b, [host], SNMPInventory, INVENTORY, p, m);
    ThenTimes(inv, arp, p, m);
    ThenTimes(Then(inv, arp), nbr, p, m);
  }

  lemma HostNotes(b: Backends, host: string, t: ScanType, m: string)
    ensures Times(HostWork(b, host).notes, LabelOf(t)) == Share(b, host, t)
    ensures NoteWhole(LabelOf(t), m) in HostWork(b, host).notes <==> HostStruck(b, host, t, m)
  {
    var p := LabelOf(t);
    var inv, arp, nbr := Pass(b, [host], SNMPInventory, INVENTORY), Pass(b, [host], ARPTable, ARP), Pass(b, [host], LLDPCDP, NEIGHBORS);
    var names, dns := Pass(b, [host], NameLookup, NAMES), Pass(b, [host], DNSLookup, DNS);
    var snmp := if inv.obs == [] then inv else Then(Then(inv, arp), nbr);
    SnmpNotes(b, host, snmp, t, m);
    PassUnder(b, host, NameLookup, t, m);
    PassUnder(b, host, DNSLookup, t, m);
    ThenTimes(snmp, names, p, m);
    ThenTimes(Then(snmp, names), dns, p, m);
  }

  // ----- a whole scan -----

  /** The hosts that did not answer the pass, over the hosts it was made for. */
  function Total(b: Backends, hosts: seq<string>, t: ScanType): nat {
    if hosts == [] then 0 else Share(b, hosts[0], t) + Total(b, hosts[1..], t)
  }

  lemma {:induction false} ScanNotes(b: Backends, hosts: seq<string>, t: ScanType, m: string)
    ensures Times(SequentialNotes(HostPlans(b, hosts)), LabelOf(t)) == Total(b, hosts, t)
    ensures NoteWhole(LabelOf(t), m) in SequentialNotes(HostPlans(b, hosts)) <==> exists i :: 0 <= i < |hosts| && HostStruck(b, hosts[i], t, m)
  {
    if hosts != [] {
      var rest := hosts[1..];
      FirstHostNotes(b, hosts);
      ScanNotes(b, rest, t, m);
      HostNotes(b, hosts[0], t, m);
      TimesAppend(HostWork(b, hosts[0]).notes, SequentialNotes(HostPlans(b, rest)), LabelOf(t));
      SomeHost(b, hosts, t, m);
    }
  }

  lemma FirstHostNotes(b: Backends, hosts: seq<string>)
    requires hosts != []
    ensures SequentialNotes(HostPlans(b, hosts)) == HostWork(b, hosts[0]).notes + SequentialNotes(HostPlans(b, hosts[1..]))
  {
    assert HostPlans(b, hosts)[1..] == HostPlans(b, hosts[1..]);
  }

  lemma SomeHost(b: Backends, hosts: seq<string>, t: ScanType, m: string)
    requires hosts != []
    ensures (exists i :: 0 <= i < |hosts| && HostStruck(b, hosts[i], t, m)) <==>
      HostStruck(b, hosts[0], t, m) || exists i :: 0 <= i < |hosts[1..]| && HostStruck(b, hosts[1..][i], t, m)
  {
    if i :| 0 <= i < |hosts| && HostStruck(b, hosts[i], t, m) {
      if i > 0 {
        assert HostStruck(b, hosts[1..][i - 1], t, m);
      }
    }
    if i :| 0 <= i < |hosts[1..]| && HostStruck(b, hosts[1..][i], t, m) {
      assert HostStruck(b, hosts[i + 1], t, m);
    }
  }

  /** The notes of the sequential run: those of the hosts, and those of the lease pass over the targets. */
  lemma SequentialTells(b: Backends, hosts: seq<string>, targets: seq<string>, t: ScanType, m: string)
    requires targets != []
    ensures var notes := Sequential(PlanOf(b, hosts, targets)).notes;
      && Times(notes, LabelOf(t)) == (if t == DHCPLeases then Unanswered(b(t, targets)) else Total(b, hosts, t))
      && (NoteWhole(LabelOf(t), m) in notes <==>
          if t == DHCPLeases then Struck(b(t, targets), m) else exists i :: 0 <= i < |hosts| && HostStruck(b, hosts[i], t, m))
  {
    var p := PlanOf(b, hosts, targets);
    var own, leases := SequentialNotes(p.hosts), p.dhcp.notes;
    ScanNotes(b, hosts, t, m);
    LabelsDiffer(t, DHCPLeases);
    PassNotes(b, targets, DHCPLeases, DHCP, LabelOf(t), m);
    TimesAppend(p.lead + own, leases, LabelOf(t));
    TimesAppend(p.lead, own, LabelOf(t));
    if hosts == [] {
      assert Times(p.lead, LabelOf(t)) == Times(p.lead[..0], LabelOf(t));
    } else {
      assert p.lead == [];
    }
    if t == DHCPLeases {
      NoLeasesPerHost(b, hosts);
    }
  }

  lemma {:induction false} NoLeasesPerHost(b: Backends, hosts: seq<string>)
    ensures Total(b, hosts, DHCPLeases) == 0
  {
    if hosts != [] {
      NoLeasesPerHost(b, hosts[1..]);
    }
  }

  /**
   The notices of any finished run: the count listed for a pass is the number of hosts that did
   not answer it, a pass is not listed when all did, and a condition is listed exactly when a
   backend gave it for a pass it was asked for.
  */
  lemma NoticesTellTheAnswers(b: Backends, hosts: seq<string>, targets: seq<string>, steps: seq<Step>, s: State, notices: seq<Notice>, t: ScanType, n: nat, m: string)
    requires targets != [] && Runs(PlanOf(b, hosts, targets), Initial(PlanOf(b, hosts, targets)), steps, s) && s.dispatcher.Finished?
    requires Renders(s.collected, notices)
    ensures HostsSkipped(LabelOf(t), n) in notices <==>
      n > 0 && n == if t == DHCPLeases then Unanswered(b(t, targets)) else Total(b, hosts, t)
    ensures WholePassSkipped(LabelOf(t), m) in notices <==>
      if t == DHCPLeases then Struck(b(t, targets), m) else exists i :: 0 <= i < |hosts| && HostStruck(b, hosts[i], t, m)
  {
    var p := PlanOf(b, hosts, targets);
    PlanIsLiteral(b, hosts, targets);
    ScheduleIndependent(p, steps, s);
    SequentialTells(b, hosts, targets, t, m);
    SequentialIsLiteral(p);
    NoticesTellTheNotes(Sequential(p).notes, notices);
  }

  lemma NoHostNoteIsGeneral(b: Backends, host: string, m: string)
    ensures NoteWhole(PER_HOST, m) !in HostWork(b, host).notes
  {
    GeneralIsNoPass(b, host, SNMPInventory, m);
    GeneralIsNoPass(b, host, ARPTable, m);
    GeneralIsNoPass(b, host, LLDPCDP, m);
    GeneralIsNoPass(b, host, NameLookup, m);
    GeneralIsNoPass(b, host, DNSLookup, m);
  }

  lemma GeneralIsNoPass(b: Backends, host: string, t: ScanType, m: string)
    ensures NoteWhole(PER_HOST, m) !in Pass(b, [host], t, LabelOf(t)).notes
  {
    LabelsDiffer(t, t);
    PassNotes(b, [host], t, LabelOf(t), PER_HOST, m);
  }

  lemma {:induction false} NoHostsNoteIsGeneral(b: Backends, hosts: seq<string>, m: string)
    ensures NoteWhole(PER_HOST, m) !in SequentialNotes(HostPlans(b, hosts))
  {
    if hosts != [] {
      FirstHostNotes(b, hosts);
      NoHostNoteIsGeneral(b, hosts[0], m);
      NoHostsNoteIsGeneral(b, hosts[1..], m);
    }
  }

  /** A finished run tells that there was no live host to query exactly when there was none. */
  lemma NoHostsIsTold(b: Backends, hosts: seq<string>, targets: seq<string>, steps: seq<Step>, s: State, notices: seq<Notice>, m: string)
    requires targets != [] && Runs(PlanOf(b, hosts, targets), Initial(PlanOf(b, hosts, targets)), steps, s) && s.dispatcher.Finished?
    requires Renders(s.collected, notices)
    ensures WholePassSkipped(PER_HOST, m) in notices <==> hosts == [] && m == NO_HOSTS
  {
    var p := PlanOf(b, hosts, targets);
    PlanIsLiteral(b, hosts, targets);
    ScheduleIndependent(p, steps, s);
    SequentialIsLiteral(p);
    NoticesTellTheNotes(Sequential(p).notes, notices);
    NoHostsNoteIsGeneral(b, hosts, m);
    LabelsDiffer(DHCPLeases, DHCPLeases);
    PassNotes(b, targets, DHCPLeases, DHCP, PER_HOST, m);
  }

  lemma SequentialIsLiteral(p: Plan)
    requires LiteralPlan(p)
    ensures LiteralNotes(Sequential(p).notes)
  {
    AllLiteral(p.hosts);
  }

  lemma {:induction false} AllLiteral(works: seq<Work>)
    requires forall i :: 0 <= i < |works| ==> LiteralNotes(works[i].notes)
    ensures LiteralNotes(SequentialNotes(works))
  {
    if works != [] {
      AllLiteral(works[1..]);
    }
  }
}
