/**
 Importing every pending discovery at once (internal/app/discoveries.go): the subnet
 suggested for a host without one, the groups the operator is asked to define, and the
 prompt loop that ends in the import of all of them.
 */
module ImportAll {
  import opened Options
  import opened Prefix
  import opened Scope
  import opened Discoveries
  import Sorted

  datatype Target = Target(id: Id, ip: Addr, vlan: Vlan, hasSubnet: bool, scanned: seq<Written>)

  datatype Missing = Missing(cidr: Prefix, rep: Addr, vlan: Vlan, count: nat)

  // ----- the suggestion -----

  /** A scanned network of more than one host that holds the address. */
  predicate Eligible(w: Written, a: Addr) {
    w.Cidr? && w.p.bits < 32 && Contains(Masked(w.p), a)
  }

  function Best(a: Addr, scanned: seq<Written>): Option<Prefix> {
    if scanned == [] then None
    else
      var before, last := Best(a, scanned[..|scanned| - 1]), scanned[|scanned| - 1];
      if Eligible(last, a) && (before.None? || last.p.bits > before.value.bits) then Some(Masked(last.p)) else before
  }

  function Suggested(a: Addr, scanned: seq<Written>): Prefix {
    match Best(a, scanned)
    case Some(p) => p
    case None => Masked(Prefix(a, 24))
  }

  /** `containingTargetCIDR`. */
  method ContainingTargetCIDR(a: Addr, targets: seq<Written>) returns (best: Option<Prefix>)
    ensures best == Best(a, targets)
  {
    best := None;
    for i := 0 to |targets|
      invariant best == Best(a, targets[..i])
    {
      assert targets[..i + 1][..i] == targets[..i];
      if !targets[i].Cidr? || targets[i].p.bits >= 32 {
        continue;
      }
      var prefix := Masked(targets[i].p);
      if !Contains(prefix, a) {
        continue;
      }
      if best.None? || prefix.bits > best.value.bits {
        best := Some(prefix);
      }
    }
    assert targets[..|targets|] == targets;
  }

  /** `suggestSubnetCIDR`. */
  method SuggestSubnetCIDR(a: Addr, scanned: seq<Written>) returns (cidr: Prefix)
    ensures cidr == Suggested(a, scanned)
  {
    var best := ContainingTargetCIDR(a, scanned);
    if best.Some? {
      return best.value;
    }
    return Masked(Prefix(a, 24));
  }

  /** A network was scanned, not a single host, and it has the address. */
  ghost predicate Scanned(w: Written, a: Addr) {
    w.Cidr? && w.p.bits != 32 && In(a, w.p)
  }

  lemma EligibleIs(w: Written, a: Addr)
    ensures Eligible(w, a) <==> Scanned(w, a)
  {
    if w.Cidr? {
      MaskedDenotesTheSame(w.p);
      ContainsIsMembership(Masked(w.p), a);
    }
  }

  /** The suggestion: the smallest scanned network of the host, or the /24 around it when it was scanned in none. */
  lemma SuggestionIs(a: Addr, scanned: seq<Written>)
    ensures var s := Suggested(a, scanned);
      && In(a, s) && IsMasked(s)
      && ((forall w :: w in scanned ==> !Scanned(w, a)) ==> s.bits == 24)
      && ((exists w :: w in scanned && Scanned(w, a)) ==>
        && (exists w :: w in scanned && Scanned(w, a) && s.bits == w.p.bits)
        && forall w :: w in scanned && Scanned(w, a) ==> s.bits >= w.p.bits && Subset(s, w.p))
  {
    SuggestionCovers(a, scanned);
    BestIsMostSpecific(a, scanned);
    forall w: Written {
      EligibleIs(w, a);
    }
    var s := Suggested(a, scanned);
    if w :| w in scanned && Scanned(w, a) {
      var k: nat :| k < |scanned| && Eligible(scanned[k], a) && s == Masked(scanned[k].p);
      assert scanned[k] in scanned && Scanned(scanned[k], a) && s.bits == scanned[k].p.bits;
      forall w | w in scanned && Scanned(w, a)
        ensures s.bits >= w.p.bits && Subset(s, w.p)
      {
        var i :| 0 <= i < |scanned| && scanned[i] == w;
        LongestSoFar(a, scanned, i);
      }
    }
  }

  /** The network found is one of those scanned, and lies within every scanned network that holds the address. */
  lemma {:induction false} BestIsMostSpecific(a: Addr, scanned: seq<Written>)
    ensures Best(a, scanned).None? <==> forall i :: 0 <= i < |scanned| ==> !Eligible(scanned[i], a)
    ensures Best(a, scanned).Some? ==> var best := Best(a, scanned).value;
      && best.bits < 32 && IsMasked(best) && In(a, best)
      && (exists i :: 0 <= i < |scanned| && Eligible(scanned[i], a) && best == Masked(scanned[i].p))
      && (forall i :: 0 <= i < |scanned| && Eligible(scanned[i], a) ==> Subset(best, scanned[i].p))
  {
    if scanned != [] {
      var n := |scanned| - 1;
      BestIsMostSpecific(a, scanned[..n]);
      assert forall i :: 0 <= i < n ==> scanned[..n][i] == scanned[i];
      if Best(a, scanned).Some? {
        var best := Best(a, scanned).value;
        var k: nat :| k < |scanned| && Eligible(scanned[k], a) && best == Masked(scanned[k].p);
        MaskedDenotesTheSame(scanned[k].p);
        ContainsIsMembership(best, a);
        forall i | 0 <= i < |scanned| && Eligible(scanned[i], a)
          ensures Subset(best, scanned[i].p)
        {
          assert scanned[i].p.bits <= best.bits by {
            LongestSoFar(a, scanned, i);
          }
          InBoth(a, best, scanned[i].p);
        }
      }
    }
  }

  lemma {:induction false} LongestSoFar(a: Addr, scanned: seq<Written>, i: nat)
    requires i < |scanned| && Eligible(scanned[i], a)
    ensures Best(a, scanned).Some? && scanned[i].p.bits <= Best(a, scanned).value.bits
  {
    var n := |scanned| - 1;
    if i < n {
      LongestSoFar(a, scanned[..n], i);
    }
  }

  /** Of two prefixes that hold one address the longer lies within the shorter. */
  lemma InBoth(a: Addr, best: Prefix, p: Prefix)
    requires In(a, best) && Contains(Masked(p), a) && p.bits <= best.bits
    ensures Subset(best, p)
  {
    MaskedDenotesTheSame(p);
    ContainsIsMembership(Masked(p), a);
    assert In(a, p);
    NestedOrDisjoint(best, p);
  }

  lemma SuggestionCovers(a: Addr, scanned: seq<Written>)
    ensures In(a, Suggested(a, scanned)) && IsMasked(Suggested(a, scanned))
  {
    BestIsMostSpecific(a, scanned);
    MaskedDenotesTheSame(Prefix(a, 24));
    Nonempty(Prefix(a, 24));
  }

  // ----- the groups -----

  predicate Homeless(t: Target) {
    !t.hasSubnet
  }

  predicate InGroup(t: Target, cidr: Prefix) {
    Homeless(t) && Suggested(t.ip, t.scanned) == cidr
  }

  function CountFor(targets: seq<Target>, cidr: Prefix): nat {
    if targets == [] then 0
    else CountFor(targets[..|targets| - 1], cidr) + if InGroup(targets[|targets| - 1], cidr) then 1 else 0
  }

  /** The group as the targets so far make it: the first of them represents it, the first known VLAN is its VLAN. */
  function GroupFor(targets: seq<Target>, cidr: Prefix): Option<Missing> {
    if targets == [] then None
    else
      var before, last := GroupFor(targets[..|targets| - 1], cidr), targets[|targets| - 1];
      if !InGroup(last, cidr) then before
      else if before.None? then Some(Missing(cidr, last.ip, last.vlan, 1))
      else Some(before.value.(vlan := if before.value.vlan == 0 then last.vlan else before.value.vlan, count := before.value.count + 1))
  }

  function NetworkOf(g: Missing): int {
    g.cidr.addr
  }

  ghost predicate ByNetwork(groups: seq<Missing>) {
    forall i, j :: 0 <= i < j < |groups| ==> groups[i].cidr.addr <= groups[j].cidr.addr
  }

  /** Each group that has a target is listed once, and no other. */
  ghost predicate Lists(groups: seq<Missing>, targets: seq<Target>) {
    && (forall i :: 0 <= i < |groups| ==> GroupFor(targets, groups[i].cidr) == Some(groups[i]))
    && (forall i, j :: 0 <= i < j < |groups| ==> groups[i].cidr != groups[j].cidr)
    && (forall c: Prefix :: GroupFor(targets, c).Some? ==> exists i :: 0 <= i < |groups| && groups[i].cidr == c)
  }

  /** `missingSubnetGroups`. */
  method MissingSubnetGroups(targets: seq<Target>) returns (out: seq<Missing>)
    ensures ByNetwork(out) && Lists(out, targets)
  {
    var groups: map<Prefix, Missing> := map[];
    for i := 0 to |targets|
      invariant forall c: Prefix :: c in groups <==> GroupFor(targets[..i], c).Some?
      invariant forall c: Prefix :: c in groups ==> GroupFor(targets[..i], c) == Some(groups[c])
    {
      assert targets[..i + 1][..i] == targets[..i];
      var t := targets[i];
      if t.hasSubnet {
        continue;
      }
      var cidr := SuggestSubnetCIDR(t.ip, t.scanned);
      var g;
      if cidr in groups {
        g := groups[cidr].(count := groups[cidr].count + 1);
      } else {
        g := Missing(cidr, t.ip, t.vlan, 1);
      }
      if g.vlan == 0 && t.vlan != 0 {
        g := g.(vlan := t.vlan);
      }
      groups := groups[cidr := g];
    }
    assert targets[..|targets|] == targets;
    out := [];
    var rest := groups.Keys;
    while rest != {}
      invariant rest <= groups.Keys && Sorted.By(out, NetworkOf) && Sorted.Distinct(out)
      invariant forall g :: g in out ==> g.cidr in groups && g.cidr !in rest && groups[g.cidr] == g
      invariant forall c :: c in groups && c !in rest ==> groups[c] in out
      decreases rest
    {
      var c :| c in rest;
      assert groups[c].cidr == c by {
        GroupCidr(targets, c);
      }
      rest := rest - {c};
      out := Sorted.Place(out, groups[c], NetworkOf);
    }
    forall i, j | 0 <= i < j < |out|
      ensures out[i].cidr != out[j].cidr && out[i].cidr.addr <= out[j].cidr.addr
    {
      assert out[i] in out && out[j] in out;
      assert NetworkOf(out[i]) <= NetworkOf(out[j]);
    }
    forall c: Prefix | GroupFor(targets, c).Some?
      ensures exists i :: 0 <= i < |out| && out[i].cidr == c
    {
      GroupCidr(targets, c);
      assert groups[c] in out;
    }
  }

  lemma {:induction false} GroupCidr(targets: seq<Target>, cidr: Prefix)
    ensures GroupFor(targets, cidr).Some? ==> GroupFor(targets, cidr).value.cidr == cidr
    ensures GroupFor(targets, cidr).Some? <==> exists i :: 0 <= i < |targets| && InGroup(targets[i], cidr)
  {
    if targets != [] {
      var n := |targets| - 1;
      GroupCidr(targets[..n], cidr);
      assert forall i :: 0 <= i < n ==> targets[..n][i] == targets[i];
    }
  }

  ghost function Members(targets: seq<Target>, cidr: Prefix): set<nat> {
    set i: nat | i < |targets| && !targets[i].hasSubnet && Suggested(targets[i].ip, targets[i].scanned) == cidr
  }

  lemma MembersSnoc(targets: seq<Target>, cidr: Prefix)
    requires targets != []
    ensures var n := |targets| - 1;
      Members(targets, cidr) == Members(targets[..n], cidr) + (if InGroup(targets[n], cidr) then {n} else {})
  {
    assert forall i :: 0 <= i < |targets| - 1 ==> targets[..|targets| - 1][i] == targets[i];
  }

  /** The first of the members represents the group. */
  ghost predicate Represents(targets: seq<Target>, members: set<nat>, rep: Addr) {
    exists i: nat :: i < |targets| && i in members && targets[i].ip == rep && forall k :: k in members ==> i <= k
  }

  /** The group's VLAN is the first one known among the members, or unknown. */
  ghost predicate FirstVlan(targets: seq<Target>, members: set<nat>, vlan: Vlan) {
    if vlan == 0 then forall k: nat :: k < |targets| && k in members ==> targets[k].vlan == 0
    else
      exists i: nat ::
        i < |targets| && i in members && targets[i].vlan == vlan && forall k: nat :: k < i && k in members ==> targets[k].vlan == 0
  }

  lemma SameMembers(targets: seq<Target>, n: nat, members: set<nat>, rep: Addr, vlan: Vlan)
    requires n <= |targets| && forall k :: k in members ==> k < n
    ensures Represents(targets[..n], members, rep) <==> Represents(targets, members, rep)
    ensures FirstVlan(targets[..n], members, vlan) <==> FirstVlan(targets, members, vlan)
  {
    assert forall i :: 0 <= i < n ==> targets[..n][i] == targets[i];
  }

  lemma OneMoreMember(targets: seq<Target>, members: set<nat>, n: nat, rep: Addr, vlan: Vlan)
    requires n < |targets| && forall k :: k in members ==> k < n
    ensures Represents(targets, members, rep) ==> Represents(targets, members + {n}, rep)
    ensures FirstVlan(targets, members, vlan) ==> FirstVlan(targets, members + {n}, if vlan == 0 then targets[n].vlan else vlan)
  {
    if FirstVlan(targets, members, vlan) && vlan != 0 {
      var i: nat :| i < |targets| && i in members && targets[i].vlan == vlan && forall k: nat :: k < i && k in members ==> targets[k].vlan == 0;
      assert i in members + {n};
    }
    if FirstVlan(targets, members, vlan) && vlan == 0 && targets[n].vlan != 0 {
      assert n in members + {n};
    }
  }

  lemma OnlyMember(targets: seq<Target>, n: nat)
    requires n < |targets|
    ensures Represents(targets, {n}, targets[n].ip) && FirstVlan(targets, {n}, targets[n].vlan)
  {
    assert n in {n};
  }

  /** A group stands for its members, the homeless targets its network is suggested for: it counts them, the first represents it, and it has the first VLAN known. */
  lemma {:induction false} GroupIsItsTargets(targets: seq<Target>, cidr: Prefix)
    ensures var members := Members(targets, cidr);
      if members == {} then GroupFor(targets, cidr).None?
      else
        && GroupFor(targets, cidr).Some?
        && var g := GroupFor(targets, cidr).value;
        && g.cidr == cidr && g.count == |members|
        && Represents(targets, members, g.rep) && FirstVlan(targets, members, g.vlan)
  {
    if targets != [] {
      var n := |targets| - 1;
      var before := Members(targets[..n], cidr);
      GroupIsItsTargets(targets[..n], cidr);
      MembersSnoc(targets, cidr);
      if before == {} {
        OnlyMember(targets, n);
      } else {
        var g := GroupFor(targets[..n], cidr).value;
        SameMembers(targets, n, before, g.rep, g.vlan);
        OneMoreMember(targets, before, n, g.rep, g.vlan);
      }
    }
  }

  lemma {:induction false} CountIsMembers(targets: seq<Target>, cidr: Prefix)
    ensures CountFor(targets, cidr) == |Members(targets, cidr)|
  {
    if targets == [] {
      assert Members(targets, cidr) == {};
    } else {
      CountIsMembers(targets[..|targets| - 1], cidr);
      MembersSnoc(targets, cidr);
    }
  }

  /** The representative of a group is homeless and inside the suggested network. */
  lemma RepresentativeIsInside(targets: seq<Target>, cidr: Prefix)
    requires GroupFor(targets, cidr).Some?
    ensures In(GroupFor(targets, cidr).value.rep, cidr)
    ensures exists i :: 0 <= i < |targets| && InGroup(targets[i], cidr) && targets[i].ip == GroupFor(targets, cidr).value.rep
  {
    GroupIsItsTargets(targets, cidr);
    var i: nat :| i < |targets| && i in Members(targets, cidr) && targets[i].ip == GroupFor(targets, cidr).value.rep;
    SuggestionCovers(targets[i].ip, targets[i].scanned);
    assert InGroup(targets[i], cidr);
  }

  function HomelessCount(targets: seq<Target>): nat {
    if targets == [] then 0
    else HomelessCount(targets[..|targets| - 1]) + if Homeless(targets[|targets| - 1]) then 1 else 0
  }

  function CountIn(targets: seq<Target>, cidrs: set<Prefix>): nat {
    if targets == [] then 0
    else
      var last := targets[|targets| - 1];
      CountIn(targets[..|targets| - 1], cidrs) + if Homeless(last) && Suggested(last.ip, last.scanned) in cidrs then 1 else 0
  }

  function CountSum(groups: seq<Missing>): nat {
    if groups == [] then 0 else CountSum(groups[..|groups| - 1]) + groups[|groups| - 1].count
  }

  lemma {:induction false} CountOneMore(targets: seq<Target>, cidrs: set<Prefix>, c: Prefix)
    requires c !in cidrs
    ensures CountIn(targets, cidrs + {c}) == CountIn(targets, cidrs) + CountFor(targets, c)
  {
    if targets != [] {
      CountOneMore(targets[..|targets| - 1], cidrs, c);
    }
  }

  ghost function Cidrs(groups: seq<Missing>): set<Prefix> {
    set g | g in groups :: g.cidr
  }

  lemma CidrsOneMore(groups: seq<Missing>)
    requires groups != []
    requires forall i, j :: 0 <= i < j < |groups| ==> groups[i].cidr != groups[j].cidr
    ensures var before, last := groups[..|groups| - 1], groups[|groups| - 1];
      Cidrs(groups) == Cidrs(before) + {last.cidr} && last.cidr !in Cidrs(before)
  {
    var before, last := groups[..|groups| - 1], groups[|groups| - 1];
    assert groups == before + [last];
    assert last in groups;
  }

  lemma {:induction false} SumIsCountIn(groups: seq<Missing>, targets: seq<Target>)
    requires forall i :: 0 <= i < |groups| ==> GroupFor(targets, groups[i].cidr) == Some(groups[i])
    requires forall i, j :: 0 <= i < j < |groups| ==> groups[i].cidr != groups[j].cidr
    ensures CountSum(groups) == CountIn(targets, Cidrs(groups))
  {
    if groups == [] {
      CountInNone(targets);
      assert Cidrs(groups) == {};
    } else {
      var before, last := groups[..|groups| - 1], groups[|groups| - 1];
      SumIsCountIn(before, targets);
      CidrsOneMore(groups);
      CountOneMore(targets, Cidrs(before), last.cidr);
      GroupIsItsTargets(targets, last.cidr);
      CountIsMembers(targets, last.cidr);
    }
  }

  ghost function WithoutHome(targets: seq<Target>): set<nat> {
    set i: nat | i < |targets| && !targets[i].hasSubnet
  }

  lemma {:induction false} HomelessAreCounted(targets: seq<Target>)
    ensures HomelessCount(targets) == |WithoutHome(targets)|
  {
    if targets == [] {
      assert WithoutHome(targets) == {};
    } else {
      var n := |targets| - 1;
      HomelessAreCounted(targets[..n]);
      assert forall i :: 0 <= i < n ==> targets[..n][i] == targets[i];
      assert WithoutHome(targets) == WithoutHome(targets[..n]) + (if targets[n].hasSubnet then {} else {n});
    }
  }

  lemma {:induction false} CountInNone(targets: seq<Target>)
    ensures CountIn(targets, {}) == 0
  {
    if targets != [] {
      CountInNone(targets[..|targets| - 1]);
    }
  }

  lemma {:induction false} CountInAll(targets: seq<Target>, cidrs: set<Prefix>)
    requires forall i :: 0 <= i < |targets| && Homeless(targets[i]) ==> Suggested(targets[i].ip, targets[i].scanned) in cidrs
    ensures CountIn(targets, cidrs) == HomelessCount(targets)
  {
    if targets != [] {
      CountInAll(targets[..|targets| - 1], cidrs);
    }
  }

  /** The groups share out the homeless targets: their counts add up to them. */
  lemma GroupsAddUp(groups: seq<Missing>, targets: seq<Target>)
    requires Lists(groups, targets)
    ensures CountSum(groups) == HomelessCount(targets) == |WithoutHome(targets)|
    ensures groups == [] <==> forall i :: 0 <= i < |targets| ==> targets[i].hasSubnet
  {
    var cidrs := Cidrs(groups);
    HomelessAreCounted(targets);
    SumIsCountIn(groups, targets);
    forall i | 0 <= i < |targets| && Homeless(targets[i])
      ensures Suggested(targets[i].ip, targets[i].scanned) in cidrs && groups != []
    {
      var c := Suggested(targets[i].ip, targets[i].scanned);
      assert InGroup(targets[i], c);
      GroupCidr(targets, c);
      var k :| 0 <= k < |groups| && groups[k].cidr == c;
      assert groups[k] in groups;
    }
    CountInAll(targets, cidrs);
    if groups != [] {
      GroupCidr(targets, groups[0].cidr);
    }
  }
}
