/**
 Which nmap targets are probed from the pinned scan interface
 (internal/scanner/agent/nmap.go). The source network is the interface's own, as the
 system reports it: its address carries host bits.
 */
module Egress {
  import opened Options
  import opened Prefix
  import opened Scope

  datatype PinMode = Unset | Auto | Off | Always | Unknown

  datatype EgressOptions = EgressOptions(interfaceName: string, sourceIP: string, mode: PinMode, sourceNet: Option<Prefix>)

  datatype EgressSet = EgressSet(targets: seq<Written>, egress: EgressOptions, pinned: bool)

  datatype EgressPlan = EgressPlan(sets: seq<EgressSet>, notices: seq<Written>)

  datatype Adjacency = Local | Routed | Straddle

  predicate PinConfigured(e: EgressOptions) {
    e.interfaceName != "" || e.sourceIP != ""
  }

  /** `effectivePinMode`. */
  function EffectivePinMode(e: EgressOptions): PinMode {
    if e.mode == Unset then Auto else e.mode
  }

  /** `withoutPin`: nmap gets neither flag. */
  function WithoutPin(e: EgressOptions): (r: EgressOptions)
    ensures !PinConfigured(r) && r.sourceNet == e.sourceNet
  {
    e.(interfaceName := "", sourceIP := "")
  }

  // ----- meaning -----

  ghost predicate Apart(v: Written, w: Written) {
    forall a: Addr :: !(Denotes(v, a) && Denotes(w, a))
  }

  /** The whole target lies in the source network. */
  ghost predicate IsLocal(src: Option<Prefix>, w: Written) {
    src.Some? && (w.Cidr? || w.Host?) && Covers(Cidr(src.value), w)
  }

  /** The target encloses the source network and more. */
  ghost predicate Straddles(src: Option<Prefix>, w: Written) {
    src.Some? && Covers(w, Cidr(src.value)) && !Covers(Cidr(src.value), w)
  }

  // ----- the tests -----

  /** `classifyNets`; the target's own address is masked by the parser. */
  function ClassifyNets(src: Prefix, target: Prefix): Adjacency {
    if Contains(src, target.addr) && src.bits <= target.bits then Local
    else if Contains(target, src.addr) && target.bits < src.bits then Straddle
    else Routed
  }

  /** `classifyAdjacency`. */
  function ClassifyAdjacency(w: Written, src: Option<Prefix>): Adjacency {
    if src.None? then Routed
    else match w
      case Host(a) => if Contains(src.value, a) then Local else Routed
      case Cidr(p) => ClassifyNets(src.value, Masked(p))
      case _ => Routed
  }

  /** The three verdicts are exactly inside, strictly around, and apart; there is no fourth case. */
  lemma ClassificationIsExact(w: Written, src: Option<Prefix>)
    ensures ClassifyAdjacency(w, src) == Local <==> IsLocal(src, w)
    ensures ClassifyAdjacency(w, src) == Straddle <==> Straddles(src, w)
    ensures ClassifyAdjacency(w, src) == Routed && src.Some? ==> Apart(w, Cidr(src.value))
    ensures src.Some? && (w.Cidr? || w.Host?) && Apart(w, Cidr(src.value)) ==> ClassifyAdjacency(w, src) == Routed
  {
    if src.Some? {
      Nonempty(src.value);
      assert Denotes(Cidr(src.value), src.value.addr);
      match w
      case Host(a) =>
        ContainsIsMembership(src.value, a);
        assert Denotes(w, a);
        if Covers(w, Cidr(src.value)) {
          assert src.value.addr == a;
        }
      case Cidr(p) => NetsAreExact(src.value, p);
      case _ =>
    }
  }

  lemma NetsAreExact(src: Prefix, p: Prefix)
    ensures ClassifyNets(src, Masked(p)) == Local <==> Covers(Cidr(src), Cidr(p))
    ensures ClassifyNets(src, Masked(p)) == Straddle <==> Covers(Cidr(p), Cidr(src)) && !Covers(Cidr(src), Cidr(p))
    ensures ClassifyNets(src, Masked(p)) == Routed <==> Apart(Cidr(p), Cidr(src))
  {
    var t := Masked(p);
    MaskedDenotesTheSame(p);
    assert forall a: Addr :: In(a, t) <==> Denotes(Cidr(p), a);
    assert forall a: Addr :: In(a, src) <==> Denotes(Cidr(src), a);
    WithinIsSubset(t, src);
    WithinIsSubset(src, t);
    assert Subset(t, src) <==> Covers(Cidr(src), Cidr(p));
    assert Subset(src, t) <==> Covers(Cidr(p), Cidr(src));
    Nonempty(t);
    Nonempty(src);
    if src.bits <= t.bits {
      NestedOrDisjoint(t, src);
    } else {
      NestedOrDisjoint(src, t);
    }
    assert Disjoint(t, src) <==> Apart(Cidr(p), Cidr(src));
    assert Denotes(Cidr(p), t.addr) && Denotes(Cidr(src), src.addr);
  }

  // ----- the plan -----

  /** The targets classified so, in order. */
  function Having(targets: seq<Written>, src: Option<Prefix>, adjacency: set<Adjacency>): seq<Written> {
    if targets == [] then []
    else
      var last := targets[|targets| - 1];
      Having(targets[..|targets| - 1], src, adjacency) + if ClassifyAdjacency(last, src) in adjacency then [last] else []
  }

  /** `planEgress`. */
  method PlanEgress(egress: EgressOptions, targets: seq<Written>) returns (plan: EgressPlan)
    ensures (egress.interfaceName == "" && egress.sourceIP == "") || egress.mode == Off ==>
      plan == EgressPlan([EgressSet(targets, egress.(interfaceName := "", sourceIP := ""), false)], [])
    ensures (egress.interfaceName != "" || egress.sourceIP != "") && egress.mode == Always ==>
      plan == EgressPlan([EgressSet(targets, egress, true)], [])
    ensures (egress.interfaceName != "" || egress.sourceIP != "") && egress.mode != Off && egress.mode != Always ==>
      plan == AutoPlan(egress, targets) && Routes(plan, egress, targets)
  {
    AutoPlanRoutes(egress, targets);
    var mode := EffectivePinMode(egress);
    if !PinConfigured(egress) || mode == Off {
      return EgressPlan([EgressSet(targets, WithoutPin(egress), false)], []);
    }
    if mode == Always {
      return EgressPlan([EgressSet(targets, egress, true)], []);
    }
    var pinned: seq<Written>, unpinned: seq<Written>, notices: seq<Written> := [], [], [];
    for i := 0 to |targets|
      invariant pinned == Having(targets[..i], egress.sourceNet, {Local})
      invariant unpinned == Having(targets[..i], egress.sourceNet, {Routed, Straddle})
      invariant notices == Having(targets[..i], egress.sourceNet, {Straddle})
    {
      assert targets[..i + 1][..i] == targets[..i];
      match ClassifyAdjacency(targets[i], egress.sourceNet)
      case Local => pinned := pinned + [targets[i]];
      case Straddle =>
        unpinned := unpinned + [targets[i]];
        notices := notices + [targets[i]];
      case Routed => unpinned := unpinned + [targets[i]];
    }
    assert targets[..|targets|] == targets;
    var sets: seq<EgressSet> := [];
    if |pinned| > 0 {
      sets := sets + [EgressSet(pinned, egress, true)];
    }
    if |unpinned| > 0 {
      sets := sets + [EgressSet(unpinned, WithoutPin(egress), false)];
    }
    return EgressPlan(sets, notices);
  }

  /** The targets of the sets that are pinned, or of those that are not, in order. */
  function TargetsOf(sets: seq<EgressSet>, pinned: bool): seq<Written> {
    if sets == [] then []
    else (if sets[0].pinned == pinned then sets[0].targets else []) + TargetsOf(sets[1..], pinned)
  }

  datatype Share = Inside | Outside | Around

  ghost predicate Wanted(share: Share, src: Option<Prefix>, w: Written) {
    match share
    case Inside => IsLocal(src, w)
    case Outside => !IsLocal(src, w)
    case Around => Straddles(src, w)
  }

  /** `kept` holds, in order, exactly the occurrences of `targets` of that share. */
  ghost predicate Selects(kept: seq<Written>, targets: seq<Written>, share: Share, src: Option<Prefix>) {
    exists places: seq<nat> :: SelectedAt(places, kept, targets, share, src)
  }

  ghost predicate SelectedAt(places: seq<nat>, kept: seq<Written>, targets: seq<Written>, share: Share, src: Option<Prefix>) {
    && |kept| == |places|
    && (forall i, j :: 0 <= i < j < |places| ==> places[i] < places[j])
    && (forall i :: 0 <= i < |places| ==> places[i] < |targets| && kept[i] == targets[places[i]])
    && (forall k :: 0 <= k < |targets| ==> (k in places <==> Wanted(share, src, targets[k])))
  }

  /** The pinned sets go out by the configured interface, the others by the default route; each holds what belongs there. */
  ghost predicate GoesOut(plan: EgressPlan, egress: EgressOptions) {
    && (forall s :: s in plan.sets ==> s.targets != [])
    && (forall s :: s in plan.sets && s.pinned ==> s.egress == egress && forall w :: w in s.targets ==> IsLocal(egress.sourceNet, w))
    && (forall s :: s in plan.sets && !s.pinned ==>
          s.egress.interfaceName == "" && s.egress.sourceIP == "" && forall w :: w in s.targets ==> !IsLocal(egress.sourceNet, w))
  }

  /**
   What a plan in auto mode owes: the sets go out as they should, the pinned ones hold
   exactly the occurrences inside the source network, the others hold exactly the rest, and
   the notices are exactly the straddling ones.
  */
  ghost predicate Routes(plan: EgressPlan, egress: EgressOptions, targets: seq<Written>) {
    && GoesOut(plan, egress)
    && Selects(TargetsOf(plan.sets, true), targets, Inside, egress.sourceNet)
    && Selects(TargetsOf(plan.sets, false), targets, Outside, egress.sourceNet)
    && Selects(plan.notices, targets, Around, egress.sourceNet)
  }

  function AutoPlan(egress: EgressOptions, targets: seq<Written>): EgressPlan {
    var pinned := Having(targets, egress.sourceNet, {Local});
    var unpinned := Having(targets, egress.sourceNet, {Routed, Straddle});
    EgressPlan(
      (if pinned != [] then [EgressSet(pinned, egress, true)] else [])
      + (if unpinned != [] then [EgressSet(unpinned, WithoutPin(egress), false)] else []),
      Having(targets, egress.sourceNet, {Straddle}))
  }

  // ----- conservation -----

  /** Where the targets that land in the set come from. */
  function Places(targets: seq<Written>, src: Option<Prefix>, adjacency: set<Adjacency>): (places: seq<nat>)
    ensures |places| == |Having(targets, src, adjacency)|
  {
    if targets == [] then []
    else
      var n := |targets| - 1;
      Places(targets[..n], src, adjacency) + if ClassifyAdjacency(targets[n], src) in adjacency then [n] else []
  }

  /** The kept targets are those at `places`, which are in order and are all of the class. */
  ghost predicate InOrder(places: seq<nat>, kept: seq<Written>, targets: seq<Written>, src: Option<Prefix>, adjacency: set<Adjacency>) {
    && |kept| == |places|
    && (forall i, j :: 0 <= i < j < |places| ==> places[i] < places[j])
    && (forall i :: 0 <= i < |places| ==> places[i] < |targets| && kept[i] == targets[places[i]])
    && (forall k :: 0 <= k < |targets| ==> (k in places <==> ClassifyAdjacency(targets[k], src) in adjacency))
  }

  lemma InOrderSnoc(places: seq<nat>, kept: seq<Written>, targets: seq<Written>, w: Written, src: Option<Prefix>, adjacency: set<Adjacency>)
    requires InOrder(places, kept, targets, src, adjacency)
    ensures if ClassifyAdjacency(w, src) in adjacency then InOrder(places + [|targets|], kept + [w], targets + [w], src, adjacency)
            else InOrder(places, kept, targets + [w], src, adjacency)
  {
    var n := |targets|;
    assert n !in places;
    assert forall k :: 0 <= k < n ==> (targets + [w])[k] == targets[k];
    assert forall k :: k in places + [n] <==> k in places || k == n;
  }

  /** The set holds, in order, exactly the occurrences of that class. */
  lemma {:induction false} PlacesInOrder(targets: seq<Written>, src: Option<Prefix>, adjacency: set<Adjacency>)
    ensures InOrder(Places(targets, src, adjacency), Having(targets, src, adjacency), targets, src, adjacency)
  {
    if targets != [] {
      var before, last := targets[..|targets| - 1], targets[|targets| - 1];
      PlacesInOrder(before, src, adjacency);
      LastPlace(targets, src, adjacency);
      InOrderSnoc(Places(before, src, adjacency), Having(before, src, adjacency), before, last, src, adjacency);
    }
  }

  lemma LastPlace(targets: seq<Written>, src: Option<Prefix>, adjacency: set<Adjacency>)
    requires targets != []
    ensures var before, last := targets[..|targets| - 1], targets[|targets| - 1];
      var kept := ClassifyAdjacency(last, src) in adjacency;
      && targets == before + [last]
      && Places(targets, src, adjacency) == (if kept then Places(before, src, adjacency) + [|before|] else Places(before, src, adjacency))
      && Having(targets, src, adjacency) == (if kept then Having(before, src, adjacency) + [last] else Having(before, src, adjacency))
  {
  }

  /**
   Auto mode: every occurrence of a target lands in exactly one set, in its original order;
   it is pinned exactly when all its addresses are in the source network, and a notice is
   given exactly for the unpinned ones that enclose that network.
  */
  lemma AutoPlanConserves(egress: EgressOptions, targets: seq<Written>)
    ensures var src := egress.sourceNet;
      var pinned, unpinned := Places(targets, src, {Local}), Places(targets, src, {Routed, Straddle});
      && (forall k :: 0 <= k < |targets| ==> (k in pinned <==> IsLocal(src, targets[k])) && (k in unpinned <==> !IsLocal(src, targets[k])))
      && (forall k :: 0 <= k < |targets| ==> (k in Places(targets, src, {Straddle}) <==> Straddles(src, targets[k])))
      && |pinned| + |unpinned| == |targets|
    ensures egress.sourceNet.None? ==> Having(targets, egress.sourceNet, {Local}) == [] && Having(targets, egress.sourceNet, {Straddle}) == []
  {
    var src := egress.sourceNet;
    PlacesInOrder(targets, src, {Local});
    PlacesInOrder(targets, src, {Routed, Straddle});
    PlacesInOrder(targets, src, {Straddle});
    forall k | 0 <= k < |targets|
      ensures ClassifyAdjacency(targets[k], src) == Local <==> IsLocal(src, targets[k])
      ensures ClassifyAdjacency(targets[k], src) == Straddle <==> Straddles(src, targets[k])
    {
      ClassificationIsExact(targets[k], src);
    }
    SizesAddUp(targets, src);
    if src.None? {
      NothingLocal(targets, src);
    }
  }

  lemma {:induction false} SizesAddUp(targets: seq<Written>, src: Option<Prefix>)
    ensures |Having(targets, src, {Local})| + |Having(targets, src, {Routed, Straddle})| == |targets|
  {
    if targets != [] {
      SizesAddUp(targets[..|targets| - 1], src);
    }
  }

  lemma {:induction false} NothingLocal(targets: seq<Written>, src: Option<Prefix>)
    requires src.None?
    ensures Having(targets, src, {Local}) == [] && Having(targets, src, {Straddle}) == []
  {
    if targets != [] {
      NothingLocal(targets[..|targets| - 1], src);
    }
  }

  /** The adjacencies that make up a share. */
  function Adjacencies(share: Share): set<Adjacency> {
    match share
    case Inside => {Local}
    case Outside => {Routed, Straddle}
    case Around => {Straddle}
  }

  lemma HavingSelects(targets: seq<Written>, share: Share, src: Option<Prefix>)
    ensures var kept := Having(targets, src, Adjacencies(share));
      Selects(kept, targets, share, src) && forall w :: w in kept ==> Wanted(share, src, w)
  {
    forall w
      ensures ClassifyAdjacency(w, src) in Adjacencies(share) <==> Wanted(share, src, w)
    {
      ClassificationIsExact(w, src);
    }
    PlacesInOrder(targets, src, Adjacencies(share));
    var places, kept := Places(targets, src, Adjacencies(share)), Having(targets, src, Adjacencies(share));
    assert SelectedAt(places, kept, targets, share, src);
    forall w | w in kept
      ensures Wanted(share, src, w)
    {
      var i :| 0 <= i < |kept| && kept[i] == w;
      assert places[i] in places;
    }
  }

  lemma AutoPlanRoutes(egress: EgressOptions, targets: seq<Written>)
    ensures Routes(AutoPlan(egress, targets), egress, targets)
  {
    PinnedAreInside(egress, targets);
    UnpinnedAreOutside(egress, targets);
    HavingSelects(targets, Around, egress.sourceNet);
    AutoPlanGoesOut(egress, targets);
  }

  lemma PinnedAreInside(egress: EgressOptions, targets: seq<Written>)
    ensures Selects(TargetsOf(AutoPlan(egress, targets).sets, true), targets, Inside, egress.sourceNet)
  {
    var src := egress.sourceNet;
    TwoSets(egress, Having(targets, src, {Local}), Having(targets, src, {Routed, Straddle}));
    HavingSelects(targets, Inside, src);
  }

  lemma UnpinnedAreOutside(egress: EgressOptions, targets: seq<Written>)
    ensures Selects(TargetsOf(AutoPlan(egress, targets).sets, false), targets, Outside, egress.sourceNet)
  {
    var src := egress.sourceNet;
    TwoSets(egress, Having(targets, src, {Local}), Having(targets, src, {Routed, Straddle}));
    HavingSelects(targets, Outside, src);
  }

  lemma AutoPlanGoesOut(egress: EgressOptions, targets: seq<Written>)
    ensures GoesOut(AutoPlan(egress, targets), egress)
  {
    var src := egress.sourceNet;
    var pinned, unpinned := Having(targets, src, {Local}), Having(targets, src, {Routed, Straddle});
    TwoSets(egress, pinned, unpinned);
    HavingSelects(targets, Inside, src);
    HavingSelects(targets, Outside, src);
    SetsGoOut(AutoPlan(egress, targets), egress, pinned, unpinned);
  }

  lemma SetsGoOut(plan: EgressPlan, egress: EgressOptions, pinned: seq<Written>, unpinned: seq<Written>)
    requires forall w :: w in pinned ==> IsLocal(egress.sourceNet, w)
    requires forall w :: w in unpinned ==> !IsLocal(egress.sourceNet, w)
    requires forall s :: s in plan.sets ==>
      s.targets != [] && (s == EgressSet(pinned, egress, true) || s == EgressSet(unpinned, WithoutPin(egress), false))
    ensures GoesOut(plan, egress)
  {
  }

  lemma TwoSets(egress: EgressOptions, pinned: seq<Written>, unpinned: seq<Written>)
    ensures var sets := (if pinned != [] then [EgressSet(pinned, egress, true)] else [])
        + (if unpinned != [] then [EgressSet(unpinned, WithoutPin(egress), false)] else []);
      && TargetsOf(sets, true) == pinned && TargetsOf(sets, false) == unpinned
      && forall s :: s in sets ==>
        s.targets != [] && (s == EgressSet(pinned, egress, true) || s == EgressSet(unpinned, WithoutPin(egress), false))
  {
    var p, u := EgressSet(pinned, egress, true), EgressSet(unpinned, WithoutPin(egress), false);
    OneSet(p);
    OneSet(u);
    assert [p] + [u] == [p, u] && [p, u][1..] == [u] && [] + [u] == [u] && [p] + [] == [p];
    assert pinned + [] == pinned && [] + unpinned == unpinned;
  }

  lemma OneSet(s: EgressSet)
    ensures TargetsOf([s], s.pinned) == s.targets && TargetsOf([s], !s.pinned) == []
  {
    assert [s][1..] == [];
    assert s.targets + [] == s.targets;
  }
}
