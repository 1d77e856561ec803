/**
 What a merge conserves, and that any nesting of merges equals one flat merge
 (internal/scanner/agent/combined.go, nmap.go and neighbors.go each merge).
 */
module MergeLaws {
  import opened Merge

  // ----- services -----

  lemma {:induction false} NewServicesAppend(b: seq<Service>, c: seq<Service>, seen: set<ServiceKey>)
    ensures NewServices(b + c, seen) == NewServices(b, seen) + NewServices(c, seen + Keys(b))
  {
    if b == [] {
      assert b + c == c;
      assert seen + Keys(b) == seen;
    } else {
      assert (b + c)[0] == b[0] && (b + c)[1..] == b[1..] + c;
      assert b == [b[0]] + b[1..];
      assert Keys(b) == {Key(b[0])} + Keys(b[1..]);
      var seen' := if Key(b[0]) in seen then seen else seen + {Key(b[0])};
      assert seen' + Keys(b[1..]) == seen + Keys(b);
      NewServicesAppend(b[1..], c, seen');
    }
  }

  lemma {:induction false} NewServicesTwice(c: seq<Service>, few: set<ServiceKey>, many: set<ServiceKey>)
    requires few <= many
    ensures NewServices(NewServices(c, few), many) == NewServices(c, many)
  {
    if c != [] {
      var k := Key(c[0]);
      if k in few {
        NewServicesTwice(c[1..], few, many);
      } else {
        var rest := NewServices(c[1..], few + {k});
        assert ([c[0]] + rest)[1..] == rest;
        if k in many {
          NewServicesTwice(c[1..], few + {k}, many);
        } else {
          NewServicesTwice(c[1..], few + {k}, many + {k});
        }
      }
    }
  }

  lemma KeysCons(s: Service, rest: seq<Service>)
    ensures Keys([s] + rest) == {Key(s)} + Keys(rest)
  {
  }

  lemma {:induction false} NewServicesKeys(b: seq<Service>, seen: set<ServiceKey>)
    ensures Keys(NewServices(b, seen)) == Keys(b) - seen
    ensures forall i, j :: 0 <= i < j < |NewServices(b, seen)| ==> Key(NewServices(b, seen)[i]) != Key(NewServices(b, seen)[j])
  {
    if b != [] {
      KeysCons(b[0], b[1..]);
      assert b == [b[0]] + b[1..];
      if Key(b[0]) in seen {
        NewServicesKeys(b[1..], seen);
      } else {
        NewServicesKeys(b[1..], seen + {Key(b[0])});
        var rest := NewServices(b[1..], seen + {Key(b[0])});
        KeysCons(b[0], rest);
        NewKeyFirst(b[0], rest);
      }
    }
  }

  lemma NewKeyFirst(s: Service, rest: seq<Service>)
    requires Key(s) !in Keys(rest)
    requires forall i, j :: 0 <= i < j < |rest| ==> Key(rest[i]) != Key(rest[j])
    ensures forall i, j :: 0 <= i < j < |[s] + rest| ==> Key(([s] + rest)[i]) != Key(([s] + rest)[j])
  {
    assert forall i :: 0 <= i < |rest| ==> Key(rest[i]) in Keys(rest);
  }

  lemma UnionKeys(a: seq<Service>, b: seq<Service>)
    ensures Keys(ServiceUnion(a, b)) == Keys(a) + Keys(b)
  {
    NewServicesKeys(b, Keys(a));
    var n := NewServices(b, Keys(a));
    assert Keys(a + n) == Keys(a) + Keys(n);
  }

  lemma ServiceUnionAssociative(a: seq<Service>, b: seq<Service>, c: seq<Service>)
    ensures ServiceUnion(ServiceUnion(a, b), c) == ServiceUnion(a, ServiceUnion(b, c))
  {
    var ka, kb := Keys(a), Keys(b);
    var cNew := NewServices(c, kb);
    calc {
      ServiceUnion(a, ServiceUnion(b, c));
      a + NewServices(b + cNew, ka);
      { NewServicesAppend(b, cNew, ka); }
      a + (NewServices(b, ka) + NewServices(cNew, ka + kb));
      { NewServicesTwice(c, kb, ka + kb); }
      a + (NewServices(b, ka) + NewServices(c, ka + kb));
      (a + NewServices(b, ka)) + NewServices(c, ka + kb);
      { UnionKeys(a, b); }
      ServiceUnion(ServiceUnion(a, b), c);
    }
  }

  // ----- whole records -----

  lemma JoinedAssociative(x: Observation, y: Observation, z: Observation)
    ensures Joined(Joined(x, y), z) == Joined(x, Joined(y, z))
  {
    ServiceUnionAssociative(x.services, y.services, z.services);
    assert (x.evidence + y.evidence) + z.evidence == x.evidence + (y.evidence + z.evidence);
  }

  lemma {:induction false} CombineAppend(g: seq<Observation>, h: seq<Observation>)
    requires g != [] && h != []
    ensures Combine(g + h) == Joined(Combine(g), Combine(h))
  {
    var n := |h| - 1;
    assert (g + h)[..|g + h| - 1] == g + h[..n];
    if n == 0 {
      assert g + h[..n] == g;
    } else {
      CombineAppend(g, h[..n]);
      JoinedAssociative(Combine(g), Combine(h[..n]), h[n]);
    }
  }

  lemma {:induction false} CombineIp(g: seq<Observation>)
    requires g != []
    ensures Combine(g).ip == g[0].ip
  {
    if |g| > 1 {
      CombineIp(g[..|g| - 1]);
    }
  }

  /** Replacing a run of observations by its combined record changes nothing. */
  lemma CombineOfCombined(g: seq<Observation>, h: seq<Observation>)
    requires h != []
    ensures Combine(g + [Combine(h)]) == Combine(g + h)
  {
    if g == [] {
      assert g + [Combine(h)] == [Combine(h)] && g + h == h;
    } else {
      CombineAppend(g, h);
      assert (g + [Combine(h)])[..|g|] == g;
    }
  }

  // ----- order and groups of a concatenation -----

  lemma {:induction false} ExtendAppend(seen: seq<string>, xs: seq<string>, ys: seq<string>)
    ensures Extend(seen, xs + ys) == Extend(Extend(seen, xs), ys)
  {
    if ys == [] {
      assert xs + ys == xs;
    } else {
      var n := |ys| - 1;
      assert (xs + ys)[..|xs + ys| - 1] == xs + ys[..n];
      ExtendAppend(seen, xs, ys[..n]);
    }
  }

  lemma {:induction false} ExtendContent(seen: seq<string>, xs: seq<string>)
    ensures forall x :: x in Extend(seen, xs) <==> x in seen || (x != "" && x in xs)
    ensures seen <= Extend(seen, xs)
    ensures (forall i, j :: 0 <= i < j < |seen| ==> seen[i] != seen[j]) ==>
      forall i, j :: 0 <= i < j < |Extend(seen, xs)| ==> Extend(seen, xs)[i] != Extend(seen, xs)[j]
  {
    if xs != [] {
      var n := |xs| - 1;
      ExtendContent(seen, xs[..n]);
      assert xs == xs[..n] + [xs[n]];
    }
  }

  lemma {:induction false} ExtendOfExtend(seen: seq<string>, xs: seq<string>)
    ensures Extend(seen, Extend([], xs)) == Extend(seen, xs)
  {
    if xs != [] {
      var n := |xs| - 1;
      var x, r := xs[n], Extend([], xs[..n]);
      ExtendOfExtend(seen, xs[..n]);
      ExtendContent(seen, xs[..n]);
      ExtendContent([], xs[..n]);
      if x != "" && x !in r {
        assert (r + [x])[..|r|] == r;
      }
    }
  }

  lemma IpsAppend(a: seq<Observation>, b: seq<Observation>)
    ensures Ips(a + b) == Ips(a) + Ips(b)
  {
  }

  lemma {:induction false} GroupAppend(a: seq<Observation>, b: seq<Observation>, ip: string)
    ensures Group(a + b, ip) == Group(a, ip) + Group(b, ip)
  {
    if b == [] {
      assert a + b == a;
    } else {
      var n := |b| - 1;
      assert (a + b)[..|a + b| - 1] == a + b[..n];
      GroupAppend(a, b[..n], ip);
    }
  }

  lemma MergedIps(obs: seq<Observation>)
    ensures Ips(Merged(obs)) == Order(obs)
  {
    forall i | 0 <= i < |Order(obs)|
      ensures Merged(obs)[i].ip == Order(obs)[i]
    {
      OrderHasGroups(obs, Order(obs)[i]);
      CombineIp(Group(obs, Order(obs)[i]));
    }
  }

  lemma {:induction false} GroupOfDistinct(obs: seq<Observation>, i: nat)
    requires i < |obs|
    requires forall j, k :: 0 <= j < k < |obs| ==> obs[j].ip != obs[k].ip
    ensures Group(obs, obs[i].ip) == [obs[i]]
  {
    var n := |obs| - 1;
    if i < n {
      GroupOfDistinct(obs[..n], i);
      assert obs[i].ip != obs[n].ip;
    } else {
      GroupOfAbsent(obs[..n], obs[n].ip);
    }
  }

  lemma {:induction false} GroupOfAbsent(obs: seq<Observation>, ip: string)
    requires forall j :: 0 <= j < |obs| ==> obs[j].ip != ip
    ensures Group(obs, ip) == []
  {
    if obs != [] {
      GroupOfAbsent(obs[..|obs| - 1], ip);
    }
  }

  lemma GroupOfMerged(obs: seq<Observation>, ip: string)
    requires ip != ""
    ensures Group(obs, ip) == [] ==> Group(Merged(obs), ip) == []
    ensures Group(obs, ip) != [] ==> Group(Merged(obs), ip) == [Combine(Group(obs, ip))]
  {
    var m := Merged(obs);
    MergedIps(obs);
    assert forall i :: 0 <= i < |m| ==> m[i].ip == Ips(m)[i];
    OrderHasGroups(obs, ip);
    if Group(obs, ip) == [] {
      GroupOfAbsent(m, ip);
    } else {
      ExtendContent([], Ips(obs));
      var i :| 0 <= i < |Order(obs)| && Order(obs)[i] == ip;
      GroupOfDistinct(m, i);
    }
  }

  // ----- nesting -----

  lemma MergedDetermined(x: seq<Observation>, y: seq<Observation>)
    requires Order(x) == Order(y)
    requires forall ip :: ip in Order(x) ==>
      (OrderHasGroups(x, ip); OrderHasGroups(y, ip); Combine(Group(x, ip)) == Combine(Group(y, ip)))
    ensures Merged(x) == Merged(y)
  {
    forall i | 0 <= i < |Order(x)|
      ensures Merged(x)[i] == Merged(y)[i]
    {
      assert Order(x)[i] in Order(x);
    }
  }

  /** Merging a middle segment first does not change the merge of the whole. */
  lemma MergedInContext(a: seq<Observation>, b: seq<Observation>, c: seq<Observation>)
    ensures Merged(a + Merged(b) + c) == Merged(a + b + c)
  {
    var m := Merged(b);
    var x, y := a + m + c, a + b + c;
    assert Order(x) == Order(y) by {
      IpsAppend(a + m, c);
      IpsAppend(a, m);
      IpsAppend(a + b, c);
      IpsAppend(a, b);
      MergedIps(b);
      ExtendAppend([], Ips(a) + Ips(m), Ips(c));
      ExtendAppend([], Ips(a), Ips(m));
      ExtendAppend([], Ips(a) + Ips(b), Ips(c));
      ExtendAppend([], Ips(a), Ips(b));
      ExtendOfExtend(Order(a), Ips(b));
    }
    forall ip | ip in Order(x)
      ensures (OrderHasGroups(x, ip); OrderHasGroups(y, ip); Combine(Group(x, ip)) == Combine(Group(y, ip)))
    {
      OrderHasGroups(x, ip);
      OrderHasGroups(y, ip);
      GroupInContext(a, b, c, ip);
    }
    MergedDetermined(x, y);
  }

  lemma GroupInContext(a: seq<Observation>, b: seq<Observation>, c: seq<Observation>, ip: string)
    requires ip != ""
    requires Group(a + Merged(b) + c, ip) != [] && Group(a + b + c, ip) != []
    ensures Combine(Group(a + Merged(b) + c, ip)) == Combine(Group(a + b + c, ip))
  {
    var m := Merged(b);
    var ga, gb, gc := Group(a, ip), Group(b, ip), Group(c, ip);
    GroupAppend(a + m, c, ip);
    GroupAppend(a, m, ip);
    GroupAppend(a + b, c, ip);
    GroupAppend(a, b, ip);
    GroupOfMerged(b, ip);
    if gb != [] {
      CombineOfCombined(ga, gb);
      if gc != [] {
        CombineAppend(ga + [Combine(gb)], gc);
        CombineAppend(ga + gb, gc);
      } else {
        assert ga + [Combine(gb)] + gc == ga + [Combine(gb)];
        assert ga + gb + gc == ga + gb;
      }
    }
  }

  /** A scan result assembled from raw lists with merges at any level. */
  datatype Source = Raw(obs: seq<Observation>) | Merge(parts: seq<Source>)

  ghost function Result(s: Source): seq<Observation>
    decreases s, 1
  {
    match s
    case Raw(obs) => obs
    case Merge(parts) => Merged(Results(parts))
  }

  ghost function Results(parts: seq<Source>): seq<Observation>
    decreases parts, 0
  {
    if parts == [] then [] else Result(parts[0]) + Results(parts[1..])
  }

  function Flat(s: Source): seq<Observation>
    decreases s, 1
  {
    match s
    case Raw(obs) => obs
    case Merge(parts) => FlatAll(parts)
  }

  function FlatAll(parts: seq<Source>): seq<Observation>
    decreases parts, 0
  {
    if parts == [] then [] else Flat(parts[0]) + FlatAll(parts[1..])
  }

  lemma {:induction false} ResultsInContext(before: seq<Observation>, parts: seq<Source>)
    ensures Merged(before + Results(parts)) == Merged(before + FlatAll(parts))
    decreases parts, 0
  {
    if parts != [] {
      var p, rest := parts[0], parts[1..];
      Reassociated(before, Result(p), Results(rest));
      ResultInContext(before, p, Results(rest));
      ResultsInContext(before + Flat(p), rest);
      Reassociated(before, Flat(p), FlatAll(rest));
    }
  }

  lemma Reassociated(x: seq<Observation>, y: seq<Observation>, z: seq<Observation>)
    ensures x + (y + z) == x + y + z
  {
  }

  lemma {:induction false} ResultInContext(before: seq<Observation>, s: Source, after: seq<Observation>)
    ensures Merged(before + Result(s) + after) == Merged(before + Flat(s) + after)
    decreases s, 1
  {
    if s.Merge? {
      var inner, flat := Results(s.parts), FlatAll(s.parts);
      ResultsInContext([], s.parts);
      assert [] + inner == inner && [] + flat == flat;
      MergedInContext(before, inner, after);
      MergedInContext(before, flat, after);
    }
  }

  /** However deep its inner merges are nested, a merged result is the one flat merge of its raw lists. */
  lemma NestedMergeIsFlatMerge(s: Source)
    requires s.Merge?
    ensures Result(s) == Merged(Flat(s))
  {
    ResultsInContext([], s.parts);
    assert [] + Results(s.parts) == Results(s.parts) && [] + FlatAll(s.parts) == FlatAll(s.parts);
  }

  // ----- conservation -----

  function EvidenceOf(g: seq<Observation>): seq<Evidence> {
    if g == [] then [] else g[0].evidence + EvidenceOf(g[1..])
  }

  function KeysOf(g: seq<Observation>): set<ServiceKey> {
    if g == [] then {} else Keys(g[0].services) + KeysOf(g[1..])
  }

  /** The first value that is set, in observation order. */
  function FirstSet<T(==)>(g: seq<Observation>, field: Observation -> T, unset: T): T {
    if g == [] then unset
    else if field(g[0]) != unset then field(g[0])
    else FirstSet(g[1..], field, unset)
  }

  ghost predicate FilledByJoin<T>(field: Observation -> T, unset: T) {
    forall x, y :: field(Joined(x, y)) == if field(x) == unset then field(y) else field(x)
  }

  lemma {:induction false} ScalarIsFirstSet<T>(g: seq<Observation>, field: Observation -> T, unset: T)
    requires g != [] && FilledByJoin(field, unset)
    ensures field(Combine(g)) == FirstSet(g, field, unset)
  {
    if |g| > 1 {
      assert [g[0]] + g[1..] == g;
      CombineAppend([g[0]], g[1..]);
      ScalarIsFirstSet(g[1..], field, unset);
    } else {
      assert FirstSet(g[1..], field, unset) == unset;
    }
  }

  lemma {:induction false} ListsAreConserved(g: seq<Observation>)
    requires g != []
    ensures Combine(g).evidence == EvidenceOf(g)
    ensures Keys(Combine(g).services) == KeysOf(g)
    ensures g[0].services <= Combine(g).services
    ensures forall i, j :: 0 <= i < j < |Combine(g).services| && |g[0].services| <= j ==>
      Key(Combine(g).services[i]) != Key(Combine(g).services[j])
  {
    if |g| == 1 {
      assert EvidenceOf(g[1..]) == [] && KeysOf(g[1..]) == {};
    } else {
      assert [g[0]] + g[1..] == g;
      CombineAppend([g[0]], g[1..]);
      ListsAreConserved(g[1..]);
      var a, b := g[0].services, Combine(g[1..]).services;
      UnionKeys(a, b);
      NewServicesKeys(b, Keys(a));
      var n := NewServices(b, Keys(a));
      forall i, j | 0 <= i < j < |a + n| && |a| <= j
        ensures Key((a + n)[i]) != Key((a + n)[j])
      {
        assert Key(n[j - |a|]) in Keys(n);
        if i < |a| {
          assert Key(a[i]) in Keys(a);
        }
      }
    }
  }

  function ServicesOf(g: seq<Observation>): seq<Service> {
    if g == [] then [] else g[0].services + ServicesOf(g[1..])
  }

  /** The first service listed under a key, as a list of at most one. */
  function Leading(services: seq<Service>, k: ServiceKey): seq<Service> {
    if services == [] then []
    else if services[0].protocol == k.0 && services[0].port == k.1 then [services[0]]
    else Leading(services[1..], k)
  }

  lemma {:induction false} LeadingAppend(a: seq<Service>, b: seq<Service>, k: ServiceKey)
    ensures Leading(a + b, k) == if Leading(a, k) != [] then Leading(a, k) else Leading(b, k)
    ensures Leading(a, k) != [] <==> k in Keys(a)
  {
    if a == [] {
      assert a + b == b;
    } else {
      assert (a + b)[1..] == a[1..] + b && a == [a[0]] + a[1..];
      assert Keys(a) == {Key(a[0])} + Keys(a[1..]);
      LeadingAppend(a[1..], b, k);
    }
  }

  lemma {:induction false} LeadingOfNew(b: seq<Service>, seen: set<ServiceKey>, k: ServiceKey)
    ensures Leading(NewServices(b, seen), k) == if k in seen then [] else Leading(b, k)
  {
    if b != [] {
      if Key(b[0]) in seen {
        LeadingOfNew(b[1..], seen, k);
      } else {
        LeadingOfNew(b[1..], seen + {Key(b[0])}, k);
        var rest := NewServices(b[1..], seen + {Key(b[0])});
        assert ([b[0]] + rest)[1..] == rest;
      }
    }
  }

  /** Under every key the merged record keeps the service reported first. */
  lemma {:induction false} LeadingServiceWins(g: seq<Observation>, k: ServiceKey)
    requires g != []
    ensures Leading(Combine(g).services, k) == Leading(ServicesOf(g), k)
  {
    if |g| == 1 {
      assert ServicesOf(g) == g[0].services + [];
      assert g[0].services + [] == g[0].services;
    } else {
      assert [g[0]] + g[1..] == g;
      CombineAppend([g[0]], g[1..]);
      LeadingServiceWins(g[1..], k);
      var a, b := g[0].services, Combine(g[1..]).services;
      LeadingAppend(a, NewServices(b, Keys(a)), k);
      LeadingAppend(a, ServicesOf(g[1..]), k);
      LeadingOfNew(b, Keys(a), k);
    }
  }

  /** The observations of an address are all of them, in their order. */
  lemma {:induction false} GroupIs(obs: seq<Observation>, ip: string) returns (places: seq<nat>)
    ensures |places| == |Group(obs, ip)| && (forall x, y :: 0 <= x < y < |places| ==> places[x] < places[y])
    ensures forall x :: 0 <= x < |places| ==> places[x] < |obs| && Group(obs, ip)[x] == obs[places[x]]
    ensures forall i :: 0 <= i < |obs| ==> (i in places <==> obs[i].ip == ip)
  {
    places := [];
    if obs != [] {
      var n := |obs| - 1;
      var before := GroupIs(obs[..n], ip);
      places := before + if obs[n].ip == ip then [n] else [];
      assert forall x :: 0 <= x < |before| ==> before[x] in before && places[x] == before[x];
    }
  }

  /** Each scalar of a record is the first value set among the group's observations. */
  ghost predicate ScalarsAreFirstSet(r: Observation, g: seq<Observation>) {
    && r.mac == FirstSet(g, (o: Observation) => o.mac, "")
    && r.vendor == FirstSet(g, (o: Observation) => o.vendor, "")
    && r.hostname == FirstSet(g, (o: Observation) => o.hostname, "")
    && r.osFamily == FirstSet(g, (o: Observation) => o.osFamily, "")
    && r.osDetail == FirstSet(g, (o: Observation) => o.osDetail, "")
    && r.vlan == FirstSet(g, (o: Observation) => o.vlan, 0)
    && r.hwSerial == FirstSet(g, (o: Observation) => o.hwSerial, "")
    && r.hwObjectID == FirstSet(g, (o: Observation) => o.hwObjectID, "")
    && r.observedAt == FirstSet(g, (o: Observation) => o.observedAt, 0)
  }

  /** `ip` occurs in `ips` first at position `i`. */
  ghost predicate FirstAt(ips: seq<string>, ip: string, i: nat) {
    i < |ips| && ips[i] == ip && forall k :: 0 <= k < i ==> ips[k] != ip
  }

  lemma {:induction false} OrderIsFirstSeen(ips: seq<string>, x: nat, y: nat, i: nat, j: nat)
    requires x < y < |Extend([], ips)|
    requires FirstAt(ips, Extend([], ips)[x], i) && FirstAt(ips, Extend([], ips)[y], j)
    ensures i < j
  {
    var n := |ips| - 1;
    var r := Extend([], ips[..n]);
    ExtendContent([], ips[..n]);
    ExtendContent([], ips);
    if y < |r| {
      assert r[x] in ips[..n] && r[y] in ips[..n];
      assert i < n && j < n;
      OrderIsFirstSeen(ips[..n], x, y, i, j);
    } else {
      assert r[x] in ips[..n];
    }
  }

  /** The merge as a whole: one record per distinct non-empty address, in first-seen order, losing nothing. */
  lemma MergeConservesContent(obs: seq<Observation>)
    ensures forall ip :: ip in Ips(Merged(obs)) <==> ip != "" && ip in Ips(obs)
    ensures forall x, y :: 0 <= x < y < |Merged(obs)| ==> Merged(obs)[x].ip != Merged(obs)[y].ip
    ensures forall x, y, i, j :: 0 <= x < y < |Merged(obs)| && FirstAt(Ips(obs), Merged(obs)[x].ip, i) && FirstAt(Ips(obs), Merged(obs)[y].ip, j) ==> i < j
    ensures forall r :: r in Merged(obs) ==>
      var g := Group(obs, r.ip);
      r.evidence == EvidenceOf(g) && Keys(r.services) == KeysOf(g) && ScalarsAreFirstSet(r, g)
  {
    MergedIps(obs);
    ExtendContent([], Ips(obs));
    var m, order := Merged(obs), Order(obs);
    assert forall k :: 0 <= k < |m| ==> m[k].ip == Ips(m)[k];
    forall x, y, i, j | 0 <= x < y < |m| && FirstAt(Ips(obs), m[x].ip, i) && FirstAt(Ips(obs), m[y].ip, j)
      ensures i < j
    {
      OrderIsFirstSeen(Ips(obs), x, y, i, j);
    }
    forall r | r in m
      ensures Group(obs, r.ip) != [] && r == Combine(Group(obs, r.ip))
    {
      var k :| 0 <= k < |m| && m[k] == r;
      OrderHasGroups(obs, order[k]);
    }
    forall r | r in m
      ensures r.evidence == EvidenceOf(Group(obs, r.ip)) && Keys(r.services) == KeysOf(Group(obs, r.ip))
    {
      ListsAreConserved(Group(obs, r.ip));
    }
    forall r | r in m
      ensures ScalarsAreFirstSet(r, Group(obs, r.ip))
    {
      CombineFillsScalars(Group(obs, r.ip));
    }
  }

  lemma CombineFillsScalars(g: seq<Observation>)
    requires g != []
    ensures ScalarsAreFirstSet(Combine(g), g)
  {
    ScalarIsFirstSet(g, (o: Observation) => o.mac, "");
    ScalarIsFirstSet(g, (o: Observation) => o.vendor, "");
    ScalarIsFirstSet(g, (o: Observation) => o.hostname, "");
    ScalarIsFirstSet(g, (o: Observation) => o.osFamily, "");
    ScalarIsFirstSet(g, (o: Observation) => o.osDetail, "");
    ScalarIsFirstSet(g, (o: Observation) => o.vlan, 0);
    ScalarIsFirstSet(g, (o: Observation) => o.hwSerial, "");
    ScalarIsFirstSet(g, (o: Observation) => o.hwObjectID, "");
    ScalarIsFirstSet(g, (o: Observation) => o.observedAt, 0);
  }
}
