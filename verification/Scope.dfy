/**
 The scan scope: the checks an agent makes before it accepts a job
 (internal/scanner/protocol.go) and the filters its sources put on what they report
 (internal/scanner/agent). The checks are bit tests on prefixes; what they decide is
 stated on sets of addresses.
 */
module Scope {
  import opened Options
  import opened Prefix

  /** A CIDR, a host or something else, as the parsers classify a string. */
  datatype Written = Cidr(p: Prefix) | Host(a: Addr) | Cidr6(bits: PrefixLen6) | Host6 | Garbage(blank: bool)

  type PrefixLen6 = b: int | 0 <= b <= 128

  datatype ScanJob = ScanJob(id: string, agentID: string, knownType: bool, knownMode: bool, timeoutSeconds: int, allowed: seq<Written>, targets: seq<Written>)

  datatype Reason =
    | AgentAllowsNothing | NoAllowedCIDR | BadAgentAllowlist | BadJobAllowlist | OutsideAgent
    | NoID | NoAgentID | UnknownType | UnknownMode | NoTimeout | NoTarget | BadTarget

  // ----- meaning -----

  /** The addresses a target or an allowlist entry stands for. */
  ghost predicate Denotes(w: Written, a: Addr) {
    match w
    case Cidr(p) => In(a, p)
    case Host(h) => a == h
    case _ => false
  }

  ghost predicate AllAllowed(entries: seq<Written>) {
    forall i :: 0 <= i < |entries| ==> entries[i].Cidr?
  }

  ghost predicate Covers(entry: Written, w: Written) {
    forall a: Addr :: Denotes(w, a) ==> Denotes(entry, a)
  }

  /** One entry covers every address of `w`. */
  ghost predicate InsideOne(w: Written, entries: seq<Written>) {
    exists i :: 0 <= i < |entries| && Covers(entries[i], w)
  }

  ghost predicate InSome(a: Addr, entries: seq<Written>) {
    exists i :: 0 <= i < |entries| && Denotes(entries[i], a)
  }

  ghost predicate GoodTarget(w: Written, allowed: seq<Written>) {
    (w.Cidr? || w.Host?) && InsideOne(w, allowed)
  }

  /** The first reason to reject, in the order of the checks. */
  ghost function Rejection(job: ScanJob, agent: seq<Written>): Option<Reason> {
    if agent == [] then Some(AgentAllowsNothing)
    else if job.allowed == [] then Some(NoAllowedCIDR)
    else if !AllAllowed(agent) then Some(BadAgentAllowlist)
    else if !AllAllowed(job.allowed) then Some(BadJobAllowlist)
    else if exists i :: 0 <= i < |job.allowed| && !InsideOne(job.allowed[i], agent) then Some(OutsideAgent)
    else if job.id == "" then Some(NoID)
    else if job.agentID == "" then Some(NoAgentID)
    else if !job.knownType then Some(UnknownType)
    else if !job.knownMode then Some(UnknownMode)
    else if job.timeoutSeconds <= 0 then Some(NoTimeout)
    else if job.targets == [] then Some(NoTarget)
    else if exists i :: 0 <= i < |job.targets| && !GoodTarget(job.targets[i], job.allowed) then Some(BadTarget)
    else None
  }

  /** No one entry has all the addresses of `w`. */
  ghost predicate SticksOut(w: Written, entries: seq<Written>) {
    forall e :: e in entries ==> exists a: Addr :: Denotes(w, a) && !Denotes(e, a)
  }

  /** What each reason finds fault with. */
  ghost predicate Fault(job: ScanJob, agent: seq<Written>, r: Reason) {
    match r
    case AgentAllowsNothing => |agent| == 0
    case NoAllowedCIDR => |job.allowed| == 0
    case BadAgentAllowlist => exists w :: w in agent && !w.Cidr?
    case BadJobAllowlist => exists w :: w in job.allowed && !w.Cidr?
    case OutsideAgent => exists w :: w in job.allowed && SticksOut(w, agent)
    case NoID => |job.id| == 0
    case NoAgentID => |job.agentID| == 0
    case UnknownType => !job.knownType
    case UnknownMode => !job.knownMode
    case NoTimeout => job.timeoutSeconds < 1
    case NoTarget => |job.targets| == 0
    case BadTarget => exists w :: w in job.targets && (w.Cidr6? || w.Host6? || w.Garbage? || SticksOut(w, job.allowed))
  }

  lemma InsideOneIs(w: Written, entries: seq<Written>)
    ensures InsideOne(w, entries) <==> !SticksOut(w, entries)
  {
    if InsideOne(w, entries) {
      var i :| 0 <= i < |entries| && Covers(entries[i], w);
      assert entries[i] in entries;
    }
    if e :| e in entries && forall a: Addr :: Denotes(w, a) ==> Denotes(e, a) {
      var i :| 0 <= i < |entries| && entries[i] == e;
      assert Covers(entries[i], w);
    }
  }

  lemma AllAllowedIs(entries: seq<Written>)
    ensures AllAllowed(entries) <==> forall w :: w in entries ==> w.Cidr?
  {
    if !AllAllowed(entries) {
      var i :| 0 <= i < |entries| && !entries[i].Cidr?;
      assert entries[i] in entries;
    }
  }

  lemma OutsideAgentIs(allowed: seq<Written>, agent: seq<Written>)
    ensures (exists i :: 0 <= i < |allowed| && !InsideOne(allowed[i], agent)) <==> exists w :: w in allowed && SticksOut(w, agent)
  {
    forall w: Written
      ensures InsideOne(w, agent) <==> !SticksOut(w, agent)
    {
      InsideOneIs(w, agent);
    }
    if i :| 0 <= i < |allowed| && !InsideOne(allowed[i], agent) {
      assert allowed[i] in allowed;
    }
  }

  lemma BadTargetIs(targets: seq<Written>, allowed: seq<Written>)
    ensures (exists i :: 0 <= i < |targets| && !GoodTarget(targets[i], allowed)) <==>
      exists w :: w in targets && (w.Cidr6? || w.Host6? || w.Garbage? || SticksOut(w, allowed))
  {
    forall w: Written
      ensures GoodTarget(w, allowed) <==> !(w.Cidr6? || w.Host6? || w.Garbage? || SticksOut(w, allowed))
    {
      InsideOneIs(w, allowed);
    }
    if i :| 0 <= i < |targets| && !GoodTarget(targets[i], allowed) {
      assert targets[i] in targets;
    }
  }

  /** The place of a reason's check among the checks. */
  function CheckedAs(r: Reason): nat {
    match r
    case AgentAllowsNothing => 1
    case NoAllowedCIDR => 2
    case BadAgentAllowlist => 3
    case BadJobAllowlist => 4
    case OutsideAgent => 5
    case NoID => 6
    case NoAgentID => 7
    case UnknownType => 8
    case UnknownMode => 9
    case NoTimeout => 10
    case NoTarget => 11
    case BadTarget => 12
  }

  /** A job is accepted exactly when there is nothing to find fault with, and the reason given is its first fault. */
  lemma AcceptedIff(job: ScanJob, agent: seq<Written>)
    ensures Rejection(job, agent).None? <==> forall r: Reason :: !Fault(job, agent, r)
    ensures Rejection(job, agent).Some? ==>
      var first := Rejection(job, agent).value;
      Fault(job, agent, first) && forall r: Reason :: Fault(job, agent, r) ==> CheckedAs(first) <= CheckedAs(r)
  {
    AllAllowedIs(agent);
    AllAllowedIs(job.allowed);
    OutsideAgentIs(job.allowed, agent);
    BadTargetIs(job.targets, job.allowed);
    if Rejection(job, agent).Some? {
      var first := Rejection(job, agent).value;
      assert Fault(job, agent, first);
      forall r: Reason | CheckedAs(r) < CheckedAs(first)
        ensures !Fault(job, agent, r)
      {
      }
    } else {
      forall r: Reason
        ensures !Fault(job, agent, r)
      {
      }
    }
  }

  // ----- the checks -----

  /** `prefixWithin`. */
  predicate PrefixWithin(target: Prefix, allowed: Prefix) {
    Contains(allowed, target.addr) && allowed.bits <= target.bits
  }

  /** The parsed list is that of the entries, masked. */
  ghost predicate Parsed(entries: seq<Written>, prefixes: seq<Prefix>) {
    && |prefixes| == |entries|
    && forall i :: 0 <= i < |entries| ==> entries[i].Cidr? && prefixes[i] == Masked(entries[i].p)
  }

  method ParseAllowedPrefixes(entries: seq<Written>) returns (r: Option<seq<Prefix>>)
    ensures r.Some? <==> AllAllowed(entries)
    ensures r.Some? ==> Parsed(entries, r.value)
  {
    var prefixes: seq<Prefix> := [];
    for i := 0 to |entries|
      invariant Parsed(entries[..i], prefixes)
    {
      if !entries[i].Cidr? {
        return None;
      }
      prefixes := prefixes + [Masked(entries[i].p)];
    }
    assert entries[..|entries|] == entries;
    return Some(prefixes);
  }

  /** The tests against parsed prefixes decide the relation between the written entries. */
  lemma WithinDecides(target: Prefix, entry: Written, allowed: Prefix)
    requires entry.Cidr? && allowed == Masked(entry.p)
    ensures PrefixWithin(Masked(target), allowed) <==> Covers(entry, Cidr(target))
  {
    MaskedDenotesTheSame(entry.p);
    MaskedDenotesTheSame(target);
    WithinIsSubset(Masked(target), allowed);
    assert forall a: Addr :: In(a, Masked(target)) <==> Denotes(Cidr(target), a);
    assert forall a: Addr :: In(a, allowed) <==> Denotes(entry, a);
    if Covers(entry, Cidr(target)) {
      assert Subset(Masked(target), allowed);
    }
  }

  lemma ContainsDecides(a: Addr, entry: Written, allowed: Prefix)
    requires entry.Cidr? && allowed == Masked(entry.p)
    ensures Contains(allowed, a) <==> Denotes(entry, a)
  {
    MaskedDenotesTheSame(entry.p);
    ContainsIsMembership(allowed, a);
  }

  /** `withinAny`. */
  method WithinAny(target: Prefix, entries: seq<Written>, allowed: seq<Prefix>) returns (ok: bool)
    requires Parsed(entries, allowed)
    ensures ok <==> InsideOne(Cidr(target), entries)
  {
    for i := 0 to |allowed|
      invariant forall k :: 0 <= k < i ==> !PrefixWithin(Masked(target), allowed[k])
    {
      if PrefixWithin(Masked(target), allowed[i]) {
        WithinDecides(target, entries[i], allowed[i]);
        return true;
      }
    }
    forall k | 0 <= k < |entries|
      ensures !Covers(entries[k], Cidr(target))
    {
      WithinDecides(target, entries[k], allowed[k]);
    }
    return false;
  }

  lemma HostInside(a: Addr, entries: seq<Written>)
    ensures InsideOne(Host(a), entries) <==> InSome(a, entries)
  {
    assert Denotes(Host(a), a);
    forall i | 0 <= i < |entries|
      ensures Covers(entries[i], Host(a)) <==> Denotes(entries[i], a)
    {
    }
  }

  /** `validateTarget`. */
  method ValidateTarget(w: Written, entries: seq<Written>, allowed: seq<Prefix>) returns (ok: bool)
    requires Parsed(entries, allowed)
    ensures ok <==> GoodTarget(w, entries)
  {
    if w.Cidr? {
      ok := WithinAny(w.p, entries, allowed);
      return ok;
    }
    if !w.Host? {
      return false;
    }
    assert w == Host(w.a);
    HostInside(w.a, entries);
    for i := 0 to |allowed|
      invariant forall k :: 0 <= k < i ==> !Denotes(entries[k], w.a)
    {
      ContainsDecides(w.a, entries[i], allowed[i]);
      if Contains(allowed[i], w.a) {
        return true;
      }
    }
    return false;
  }

  /** `ValidateJobTargets`, with the job's prefixes as parsed. */
  method ValidateTargets(job: ScanJob, allowed: seq<Prefix>) returns (r: Option<Reason>)
    requires Parsed(job.allowed, allowed)
    ensures r == if job.targets == [] then Some(NoTarget)
      else if exists i :: 0 <= i < |job.targets| && !GoodTarget(job.targets[i], job.allowed) then Some(BadTarget) else None
  {
    if |job.targets| == 0 {
      return Some(NoTarget);
    }
    for i := 0 to |job.targets|
      invariant forall k :: 0 <= k < i ==> GoodTarget(job.targets[k], job.allowed)
    {
      var ok := ValidateTarget(job.targets[i], job.allowed, allowed);
      if !ok {
        assert !GoodTarget(job.targets[i], job.allowed);
        return Some(BadTarget);
      }
    }
    return None;
  }

  /** `ValidateAgentScope`. */
  method ValidateAgentScope(job: ScanJob, agent: seq<Written>) returns (r: Option<Reason>)
    ensures r == Rejection(job, agent)
  {
    if |agent| == 0 {
      return Some(AgentAllowsNothing);
    }
    if |job.allowed| == 0 {
      return Some(NoAllowedCIDR);
    }
    var agentPrefixes := ParseAllowedPrefixes(agent);
    if agentPrefixes.None? {
      return Some(BadAgentAllowlist);
    }
    var jobPrefixes := ParseAllowedPrefixes(job.allowed);
    if jobPrefixes.None? {
      return Some(BadJobAllowlist);
    }
    for i := 0 to |job.allowed|
      invariant forall k :: 0 <= k < i ==> InsideOne(job.allowed[k], agent)
    {
      var ok := WithinAny(job.allowed[i].p, agent, agentPrefixes.value);
      if !ok {
        return Some(OutsideAgent);
      }
    }
    if job.id == "" {
      return Some(NoID);
    }
    if job.agentID == "" {
      return Some(NoAgentID);
    }
    if !job.knownType {
      return Some(UnknownType);
    }
    if !job.knownMode {
      return Some(UnknownMode);
    }
    if job.timeoutSeconds <= 0 {
      return Some(NoTimeout);
    }
    r := ValidateTargets(job, jobPrefixes.value);
  }

  /** An accepted job names no address outside the agent's allowlist; each target lies within one of its entries. */
  lemma AcceptedTargetsInside(job: ScanJob, agent: seq<Written>, i: nat)
    requires Rejection(job, agent).None? && i < |job.targets|
    ensures InsideOne(job.targets[i], agent)
  {
    assert GoodTarget(job.targets[i], job.allowed);
    var j :| 0 <= j < |job.allowed| && Covers(job.allowed[j], job.targets[i]);
    assert InsideOne(job.allowed[j], agent);
    var k :| 0 <= k < |agent| && Covers(agent[k], job.allowed[j]);
    assert Covers(agent[k], job.targets[i]);
  }

  // ----- the sources -----

  /** What the sources work from; a device that does not answer is `None`. */
  datatype Source =
    | ArpTable(neighbors: seq<Option<seq<Written>>>)
    | Inventory(owned: seq<Option<seq<Written>>>)
    | NeighborTable(neighbors: seq<Option<seq<Written>>>)
    | NameOrDns(named: set<Addr>)
    | Leases(leases: seq<Written>)

  /** `withinScope`, on parsed prefixes. */
  predicate WithinScope(a: Addr, scope: seq<Prefix>) {
    exists i :: 0 <= i < |scope| && Contains(scope[i], a)
  }

  /** The scope prefixes hold the same IPv4 addresses as the entries. */
  ghost predicate Stands(scope: seq<Prefix>, entries: seq<Written>) {
    forall a: Addr :: WithinScope(a, scope) <==> InSome(a, entries)
  }

  lemma ScopeSnoc(scope: seq<Prefix>, p: Prefix, a: Addr)
    ensures WithinScope(a, scope + [p]) <==> WithinScope(a, scope) || Contains(p, a)
  {
    var all := scope + [p];
    assert all[|scope|] == p;
    assert forall i :: 0 <= i < |scope| ==> all[i] == scope[i];
  }

  lemma EntriesSnoc(entries: seq<Written>, w: Written, a: Addr)
    ensures InSome(a, entries + [w]) <==> InSome(a, entries) || Denotes(w, a)
  {
    var all := entries + [w];
    assert all[|entries|] == w;
    assert forall i :: 0 <= i < |entries| ==> all[i] == entries[i];
  }

  lemma StandsSnoc(scope: seq<Prefix>, entries: seq<Written>, w: Written, p: Prefix)
    requires Stands(scope, entries) && forall a: Addr :: Contains(p, a) <==> Denotes(w, a)
    ensures Stands(scope + [p], entries + [w])
  {
    var scope', entries' := scope + [p], entries + [w];
    forall a: Addr
      ensures WithinScope(a, scope') <==> InSome(a, entries')
    {
      ScopeSnoc(scope, p, a);
      EntriesSnoc(entries, w, a);
    }
    assert Stands(scope', entries');
  }

  lemma StandsSkip(scope: seq<Prefix>, entries: seq<Written>, w: Written)
    requires Stands(scope, entries) && (w.Cidr6? || w.Host6?)
    ensures Stands(scope, entries + [w])
  {
    forall a: Addr
      ensures InSome(a, entries + [w]) <==> InSome(a, entries)
    {
      EntriesSnoc(entries, w, a);
    }
  }

  lemma MaskedStands(p: Prefix)
    ensures forall a: Addr :: Contains(Masked(p), a) <==> Denotes(Cidr(p), a)
  {
    forall a: Addr
      ensures Contains(Masked(p), a) <==> Denotes(Cidr(p), a)
    {
      ContainsDecides(a, Cidr(p), Masked(p));
    }
  }

  lemma HostStands(h: Addr)
    ensures forall a: Addr :: Contains(Prefix(h, 32), a) <==> Denotes(Host(h), a)
  {
  }

  /** `parseScopePrefixes`: an IPv6 prefix is kept but holds no IPv4 address. */
  method ParseScopePrefixes(entries: seq<Written>) returns (r: Option<seq<Prefix>>)
    ensures r.Some? <==> forall i :: 0 <= i < |entries| ==> entries[i].Cidr? || entries[i].Cidr6?
    ensures r.Some? ==> Stands(r.value, entries)
  {
    var scope: seq<Prefix> := [];
    for i := 0 to |entries|
      invariant forall k :: 0 <= k < i ==> entries[k].Cidr? || entries[k].Cidr6?
      invariant Stands(scope, entries[..i])
    {
      var w := entries[i];
      assert entries[..i + 1] == entries[..i] + [w];
      if w.Cidr? {
        MaskedStands(w.p);
        StandsSnoc(scope, entries[..i], w, Masked(w.p));
        scope := scope + [Masked(w.p)];
      } else if w.Cidr6? {
        StandsSkip(scope, entries[..i], w);
      } else {
        return None;
      }
    }
    assert entries[..|entries|] == entries;
    return Some(scope);
  }

  /** `scopeFromTargets`: a host stands for its /32. */
  method ScopeFromTargets(targets: seq<Written>) returns (r: Option<seq<Prefix>>)
    ensures r.Some? <==> forall i :: 0 <= i < |targets| ==> !targets[i].Garbage?
    ensures r.Some? ==> Stands(r.value, targets)
  {
    var scope: seq<Prefix> := [];
    for i := 0 to |targets|
      invariant forall k :: 0 <= k < i ==> !targets[k].Garbage?
      invariant Stands(scope, targets[..i])
    {
      var w := targets[i];
      assert targets[..i + 1] == targets[..i] + [w];
      if w.Garbage? {
        return None;
      }
      if w.Cidr? {
        MaskedStands(w.p);
        StandsSnoc(scope, targets[..i], w, Masked(w.p));
        scope := scope + [Masked(w.p)];
      } else if w.Host? {
        HostStands(w.a);
        StandsSnoc(scope, targets[..i], w, Prefix(w.a, 32));
        scope := scope + [Prefix(w.a, 32)];
      } else {
        StandsSkip(scope, targets[..i], w);
      }
    }
    assert targets[..|targets|] == targets;
    return Some(scope);
  }

  /** The addresses in scope among the parsed ones, each once, in first-seen order. */
  method Report(emitted: seq<Addr>, found: seq<Written>, scope: seq<Prefix>) returns (out: seq<Addr>, any: bool)
    requires forall i, j :: 0 <= i < j < |emitted| ==> emitted[i] != emitted[j]
    ensures forall i, j :: 0 <= i < j < |out| ==> out[i] != out[j]
    ensures emitted <= out
    ensures forall a :: a in out <==> a in emitted || (Host(a) in found && WithinScope(a, scope))
    ensures any <==> exists a :: Host(a) in found && WithinScope(a, scope)
  {
    out, any := emitted, false;
    for i := 0 to |found|
      invariant forall i, j :: 0 <= i < j < |out| ==> out[i] != out[j]
      invariant emitted <= out
      invariant forall a :: a in out <==> a in emitted || (Host(a) in found[..i] && WithinScope(a, scope))
      invariant any <==> exists a :: Host(a) in found[..i] && WithinScope(a, scope)
    {
      assert found[..i + 1] == found[..i] + [found[i]];
      if !found[i].Host? || !WithinScope(found[i].a, scope) {
        continue;
      }
      any := true;
      assert Host(found[i].a) in found[..i + 1];
      if found[i].a !in out {
        out := out + [found[i].a];
      }
    }
    assert found[..|found|] == found;
  }

  ghost predicate Answered(replies: seq<Option<seq<Written>>>, i: nat, a: Addr) {
    i < |replies| && replies[i].Some? && Host(a) in replies[i].value
  }

  /** What target `i` contributes: in-scope addresses of its answer, or itself when it owns none of them. */
  ghost predicate Contributes(job: ScanJob, source: Source, i: nat, a: Addr)
    requires i < |job.targets| && !source.Leases?
  {
    InSome(a, job.allowed) &&
    match source
    case NameOrDns(named) => job.targets[i] == Host(a) && a in named
    case ArpTable(neighbors) => Answered(neighbors, i, a)
    case NeighborTable(neighbors) => Answered(neighbors, i, a)
    case Inventory(owned) =>
      || Answered(owned, i, a)
      || (job.targets[i] == Host(a) && i < |owned| && owned[i].Some? && !exists b :: Answered(owned, i, b) && InSome(b, job.allowed))
  }

  ghost predicate Reported(job: ScanJob, source: Source, a: Addr) {
    match source
    case Leases(leases) => Host(a) in leases && InSome(a, job.targets)
    case _ => exists i :: 0 <= i < |job.targets| && Contributes(job, source, i, a)
  }

  /** The devices asked, one per target, that answered. */
  ghost predicate Asked(job: ScanJob, replies: seq<Option<seq<Written>>>, i: nat) {
    i < |job.targets| && i < |replies| && replies[i].Some?
  }

  /**
   Source by source what is reported: the targets that have a name; the leased addresses
   among the targets; and whatever in scope the asked devices told, an inventory that told
   of nothing in scope standing for the device that was asked.
  */
  lemma ReportedAre(job: ScanJob, replies: seq<Option<seq<Written>>>, named: set<Addr>, leases: seq<Written>, a: Addr)
    ensures Reported(job, NameOrDns(named), a) <==> Host(a) in job.targets && a in named && InSome(a, job.allowed)
    ensures Reported(job, Leases(leases), a) <==> Host(a) in leases && exists t :: t in job.targets && Denotes(t, a)
    ensures Reported(job, ArpTable(replies), a) <==> InSome(a, job.allowed) && exists i: nat :: Asked(job, replies, i) && Host(a) in replies[i].value
    ensures Reported(job, NeighborTable(replies), a) <==> Reported(job, ArpTable(replies), a)
    ensures Reported(job, Inventory(replies), a) <==>
      || Reported(job, ArpTable(replies), a)
      || (InSome(a, job.allowed) && exists i: nat ::
           Asked(job, replies, i) && job.targets[i] == Host(a) && forall b :: Host(b) in replies[i].value ==> !InSome(b, job.allowed))
  {
    NamedAre(job, named, a);
    LeasedAre(job, leases, a);
    ToldAre(job, replies, a);
    InventoriedAre(job, replies, a);
  }

  lemma NamedAre(job: ScanJob, named: set<Addr>, a: Addr)
    ensures Reported(job, NameOrDns(named), a) <==> Host(a) in job.targets && a in named && InSome(a, job.allowed)
  {
    if Host(a) in job.targets && a in named && InSome(a, job.allowed) {
      var i :| 0 <= i < |job.targets| && job.targets[i] == Host(a);
      assert Contributes(job, NameOrDns(named), i, a);
    }
  }

  lemma LeasedAre(job: ScanJob, leases: seq<Written>, a: Addr)
    ensures Reported(job, Leases(leases), a) <==> Host(a) in leases && exists t :: t in job.targets && Denotes(t, a)
  {
    if t :| t in job.targets && Denotes(t, a) {
      var i :| 0 <= i < |job.targets| && job.targets[i] == t;
    }
    if i :| 0 <= i < |job.targets| && Denotes(job.targets[i], a) {
      assert job.targets[i] in job.targets;
    }
  }

  lemma ToldAre(job: ScanJob, replies: seq<Option<seq<Written>>>, a: Addr)
    ensures Reported(job, ArpTable(replies), a) <==> InSome(a, job.allowed) && exists i: nat :: Asked(job, replies, i) && Host(a) in replies[i].value
    ensures Reported(job, NeighborTable(replies), a) <==> Reported(job, ArpTable(replies), a)
  {
    if i: nat :| Asked(job, replies, i) && Host(a) in replies[i].value && InSome(a, job.allowed) {
      assert Contributes(job, ArpTable(replies), i, a);
      assert Contributes(job, NeighborTable(replies), i, a);
    }
    if i :| 0 <= i < |job.targets| && (Contributes(job, ArpTable(replies), i, a) || Contributes(job, NeighborTable(replies), i, a)) {
      assert Asked(job, replies, i) && Host(a) in replies[i].value;
    }
  }

  lemma InventoriedAre(job: ScanJob, replies: seq<Option<seq<Written>>>, a: Addr)
    ensures Reported(job, Inventory(replies), a) <==>
      || Reported(job, ArpTable(replies), a)
      || (InSome(a, job.allowed) && exists i: nat ::
           Asked(job, replies, i) && job.targets[i] == Host(a) && forall b :: Host(b) in replies[i].value ==> !InSome(b, job.allowed))
  {
    if i :| 0 <= i < |job.targets| && Contributes(job, Inventory(replies), i, a) {
      assert Asked(job, replies, i);
      assert Answered(replies, i, a) ==> Contributes(job, ArpTable(replies), i, a);
      assert forall b: Addr :: Host(b) in replies[i].value ==> Answered(replies, i, b);
    }
    if i :| 0 <= i < |job.targets| && Contributes(job, ArpTable(replies), i, a) {
      assert Contributes(job, Inventory(replies), i, a);
    }
    if i: nat :| InSome(a, job.allowed) && Asked(job, replies, i) && job.targets[i] == Host(a) && forall b :: Host(b) in replies[i].value ==> !InSome(b, job.allowed) {
      assert Contributes(job, Inventory(replies), i, a);
    }
  }

  /** The source can read the job's scope at all. */
  predicate Readable(job: ScanJob, source: Source) {
    if source.Leases? then forall i :: 0 <= i < |job.targets| ==> !job.targets[i].Garbage?
    else forall i :: 0 <= i < |job.allowed| ==> job.allowed[i].Cidr? || job.allowed[i].Cidr6?
  }

  /** A name or DNS lookup reports per target, a repeated target again. */
  ghost function LookedUp(targets: seq<Written>, allowed: seq<Written>, named: set<Addr>): seq<Addr> {
    if targets == [] then []
    else
      var last := targets[|targets| - 1];
      LookedUp(targets[..|targets| - 1], allowed, named)
      + if last.Host? && last.a in named && InSome(last.a, allowed) then [last.a] else []
  }

  /** The name and DNS sources: one unicast query per target host in scope. */
  method LookUp(job: ScanJob, named: set<Addr>, scope: seq<Prefix>) returns (out: seq<Addr>)
    requires Stands(scope, job.allowed)
    ensures out == LookedUp(job.targets, job.allowed, named)
    ensures forall a :: a in out <==> exists i :: 0 <= i < |job.targets| && Contributes(job, NameOrDns(named), i, a)
  {
    out := [];
    for i := 0 to |job.targets|
      invariant out == LookedUp(job.targets[..i], job.allowed, named)
      invariant forall a :: a in out <==> exists k :: 0 <= k < i && Contributes(job, NameOrDns(named), k, a)
    {
      assert job.targets[..i + 1][..i] == job.targets[..i];
      var target := job.targets[i];
      if !target.Host? || !WithinScope(target.a, scope) || target.a !in named {
        continue;
      }
      assert Contributes(job, NameOrDns(named), i, target.a);
      out := out + [target.a];
    }
    assert job.targets[..|job.targets|] == job.targets;
  }

  /** One queried device's share of a scan. */
  method Ask(job: ScanJob, source: Source, i: nat, scope: seq<Prefix>, emitted: seq<Addr>) returns (out: seq<Addr>)
    requires i < |job.targets| && !source.Leases? && !source.NameOrDns? && Stands(scope, job.allowed)
    requires forall i, j :: 0 <= i < j < |emitted| ==> emitted[i] != emitted[j]
    ensures forall i, j :: 0 <= i < j < |out| ==> out[i] != out[j]
    ensures forall a :: a in out <==> a in emitted || Contributes(job, source, i, a)
  {
    out := emitted;
    var any;
    match source
    case Inventory(owned) =>
      if i < |owned| && owned[i].Some? {
        out, any := Report(out, owned[i].value, scope);
        assert any <==> exists b :: Answered(owned, i, b) && InSome(b, job.allowed);
        if !any {
          out, any := Report(out, [job.targets[i]], scope);
        }
      }
    case ArpTable(neighbors) =>
      if i < |neighbors| && neighbors[i].Some? {
        out, any := Report(out, neighbors[i].value, scope);
      }
    case NeighborTable(neighbors) =>
      if i < |neighbors| && neighbors[i].Some? {
        out, any := Report(out, neighbors[i].value, scope);
      }
  }

  /** The addresses the sources report for a job in an active mode. */
  method Discover(job: ScanJob, source: Source) returns (out: seq<Addr>)
    ensures forall a :: a in out <==> Readable(job, source) && Reported(job, source, a)
    ensures !source.NameOrDns? ==> forall i, j :: 0 <= i < j < |out| ==> out[i] != out[j]
    ensures source.NameOrDns? && Readable(job, source) ==> out == LookedUp(job.targets, job.allowed, source.named)
  {
    out := [];
    if source.Leases? {
      var scope := ScopeFromTargets(job.targets);
      if scope.Some? {
        var any;
        out, any := Report([], source.leases, scope.value);
      }
      return;
    }
    var scope := ParseScopePrefixes(job.allowed);
    if scope.None? {
      return;
    }
    if source.NameOrDns? {
      out := LookUp(job, source.named, scope.value);
      return;
    }
    for i := 0 to |job.targets|
      invariant forall i, j :: 0 <= i < j < |out| ==> out[i] != out[j]
      invariant forall a :: a in out <==> exists k :: 0 <= k < i && Contributes(job, source, k, a)
    {
      out := Ask(job, source, i, scope.value, out);
    }
  }

  /** The pass of a combined scan: the same job, asked of other targets. */
  function SubJob(job: ScanJob, targets: seq<Written>): ScanJob {
    job.(knownType := true, knownMode := true, targets := targets)
  }

  lemma AllowedInside(job: ScanJob, agent: seq<Written>, a: Addr)
    requires Rejection(job, agent).None? && (InSome(a, job.allowed) || InSome(a, job.targets))
    ensures InSome(a, agent)
  {
    if InSome(a, job.allowed) {
      var i :| 0 <= i < |job.allowed| && Denotes(job.allowed[i], a);
      assert InsideOne(job.allowed[i], agent);
      var k :| 0 <= k < |agent| && Covers(agent[k], job.allowed[i]);
    } else {
      var i :| 0 <= i < |job.targets| && Denotes(job.targets[i], a);
      AcceptedTargetsInside(job, agent, i);
      var k :| 0 <= k < |agent| && Covers(agent[k], job.targets[i]);
    }
  }

  /**
   Whatever devices and lease files answer, an accepted job never reports an address
   outside the agent's allowlist: as such, or as a pass of a combined scan, which asks
   about hosts found on the way but reads leases for the job's own targets.
  */
  method DiscoverForAgent(job: ScanJob, agent: seq<Written>, found: seq<Written>, source: Source) returns (accepted: bool, out: seq<Addr>, passOut: seq<Addr>)
    ensures accepted <==> Rejection(job, agent).None?
    ensures forall a :: a in out || a in passOut ==> accepted && InSome(a, agent)
  {
    var r := ValidateAgentScope(job, agent);
    accepted, out, passOut := r.None?, [], [];
    if !accepted {
      return;
    }
    out := Discover(job, source);
    passOut := Discover(SubJob(job, if source.Leases? then job.targets else found), source);
    forall a | a in out || a in passOut
      ensures InSome(a, agent)
    {
      assert InSome(a, job.allowed) || InSome(a, job.targets);
      AllowedInside(job, agent, a);
    }
  }
}
