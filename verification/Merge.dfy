/**
 The per-address merge of scan observations (internal/scanner/agent/combined.go).
 The methods follow the program's loops; `Merged` says what they compute. What it
 conserves, and why nesting merges changes nothing, is in `MergeLaws`.
 */
module Merge {

  datatype Service = Service(protocol: string, port: int, state: string, serviceName: string, product: string, version: string)

  datatype Evidence = Evidence(source: string, summary: string, raw: string)

  // An `observedAt` of 0 is the zero time.
  datatype Observation = Observation(
    ip: string, mac: string, vendor: string, hostname: string, osFamily: string, osDetail: string,
    vlan: int, hwSerial: string, hwObjectID: string,
    services: seq<Service>, evidence: seq<Evidence>, observedAt: int)

  /** What the program holds behind a `*scanner.Observation`. */
  class ObservationBox {
    var value: Observation

    constructor (value: Observation)
      ensures this.value == value
    {
      this.value := value;
    }
  }

  type ServiceKey = (string, int)

  function Key(s: Service): ServiceKey {
    (s.protocol, s.port)
  }

  function Keys(services: seq<Service>): set<ServiceKey> {
    set s | s in services :: Key(s)
  }

  // ----- specification -----

  /** The services of `b` under a key not seen before, each key once. */
  function NewServices(b: seq<Service>, seen: set<ServiceKey>): seq<Service> {
    if b == [] then []
    else if Key(b[0]) in seen then NewServices(b[1..], seen)
    else [b[0]] + NewServices(b[1..], seen + {Key(b[0])})
  }

  function ServiceUnion(a: seq<Service>, b: seq<Service>): seq<Service> {
    a + NewServices(b, Keys(a))
  }

  function Fill(a: string, b: string): string {
    if a == "" then b else a
  }

  function FillInt(a: int, b: int): int {
    if a == 0 then b else a
  }

  function Joined(base: Observation, add: Observation): Observation {
    Observation(
      base.ip, Fill(base.mac, add.mac), Fill(base.vendor, add.vendor), Fill(base.hostname, add.hostname),
      Fill(base.osFamily, add.osFamily), Fill(base.osDetail, add.osDetail), FillInt(base.vlan, add.vlan),
      Fill(base.hwSerial, add.hwSerial), Fill(base.hwObjectID, add.hwObjectID),
      ServiceUnion(base.services, add.services), base.evidence + add.evidence,
      FillInt(base.observedAt, add.observedAt))
  }

  /** One record out of all the observations of one address, the leading one as the base. */
  function Combine(group: seq<Observation>): Observation
    requires group != []
  {
    var n := |group| - 1;
    if n == 0 then group[0] else Joined(Combine(group[..n]), group[n])
  }

  function Group(obs: seq<Observation>, ip: string): seq<Observation> {
    if obs == [] then []
    else
      var n := |obs| - 1;
      Group(obs[..n], ip) + if obs[n].ip == ip then [obs[n]] else []
  }

  function Ips(obs: seq<Observation>): (ips: seq<string>)
    ensures |ips| == |obs|
  {
    seq(|obs|, i requires 0 <= i < |obs| => obs[i].ip)
  }

  /** `seen` followed by the distinct non-empty entries of `ips` it lacks, in first-seen order. */
  function Extend(seen: seq<string>, ips: seq<string>): seq<string> {
    if ips == [] then seen
    else
      var n := |ips| - 1;
      var r := Extend(seen, ips[..n]);
      if ips[n] == "" || ips[n] in r then r else r + [ips[n]]
  }

  function Order(obs: seq<Observation>): seq<string> {
    Extend([], Ips(obs))
  }

  lemma {:induction false} OrderHasGroups(obs: seq<Observation>, ip: string)
    ensures ip in Order(obs) <==> ip != "" && Group(obs, ip) != []
    ensures forall i :: 0 <= i < |Group(obs, ip)| ==> Group(obs, ip)[i].ip == ip
  {
    if obs != [] {
      var n := |obs| - 1;
      assert Ips(obs)[..n] == Ips(obs[..n]);
      OrderHasGroups(obs[..n], ip);
    }
  }

  ghost function Merged(obs: seq<Observation>): (r: seq<Observation>)
    ensures |r| == |Order(obs)|
  {
    var order := Order(obs);
    seq(|order|, i requires 0 <= i < |order| =>
      OrderHasGroups(obs, order[i]);
      Combine(Group(obs, order[i])))
  }

  // ----- the program's loops -----

  /** `mergeServices`. */
  method MergeServices(a: seq<Service>, b: seq<Service>) returns (r: seq<Service>)
    ensures r == ServiceUnion(a, b)
  {
    if |b| == 0 {
      return a;
    }
    r := a;
    var seen: set<ServiceKey> := {};
    for i := 0 to |a|
      invariant seen == Keys(a[..i])
    {
      seen := seen + {Key(a[i])};
      assert a[..i + 1] == a[..i] + [a[i]];
    }
    assert a[..|a|] == a;
    for i := 0 to |b|
      invariant r + NewServices(b[i..], seen) == ServiceUnion(a, b)
    {
      var k := Key(b[i]);
      assert b[i..][0] == b[i] && b[i..][1..] == b[i + 1..];
      if k !in seen {
        assert r + ([b[i]] + NewServices(b[i + 1..], seen + {k})) == (r + [b[i]]) + NewServices(b[i + 1..], seen + {k});
        r := r + [b[i]];
        seen := seen + {k};
      }
    }
  }

  /** `mergeInto`. */
  method MergeInto(base: ObservationBox, add: Observation)
    modifies base
    ensures base.value == Joined(old(base.value), add)
  {
    var b := base.value;
    var mac, vendor, hostname := b.mac, b.vendor, b.hostname;
    var osFamily, osDetail, vlan := b.osFamily, b.osDetail, b.vlan;
    var hwSerial, hwObjectID, observedAt := b.hwSerial, b.hwObjectID, b.observedAt;
    if mac == "" { mac := add.mac; }
    if vendor == "" { vendor := add.vendor; }
    if hostname == "" { hostname := add.hostname; }
    if osFamily == "" { osFamily := add.osFamily; }
    if osDetail == "" { osDetail := add.osDetail; }
    if vlan == 0 { vlan := add.vlan; }
    if hwSerial == "" { hwSerial := add.hwSerial; }
    if hwObjectID == "" { hwObjectID := add.hwObjectID; }
    var services := MergeServices(b.services, add.services);
    var evidence := b.evidence + add.evidence;
    if observedAt == 0 { observedAt := add.observedAt; }
    base.value := Observation(b.ip, mac, vendor, hostname, osFamily, osDetail, vlan, hwSerial, hwObjectID, services, evidence, observedAt);
  }

  lemma OrderSnoc(done: seq<Observation>, o: Observation)
    ensures Order(done + [o]) == if o.ip == "" || o.ip in Order(done) then Order(done) else Order(done) + [o.ip]
  {
    assert Ips(done + [o])[..|done|] == Ips(done);
  }

  lemma GroupSnoc(done: seq<Observation>, o: Observation, ip: string)
    ensures Group(done + [o], ip) == Group(done, ip) + if o.ip == ip then [o] else []
  {
    assert (done + [o])[..|done|] == done;
  }

  lemma CombineSnoc(g: seq<Observation>, o: Observation)
    ensures Combine(g + [o]) == if g == [] then o else Joined(Combine(g), o)
  {
    assert (g + [o])[..|g|] == g;
  }

  /** `content` holds the combined record of every address observed so far. */
  ghost predicate Records(content: map<string, Observation>, done: seq<Observation>) {
    && (forall ip :: ip in content <==> ip in Order(done))
    && (forall ip :: ip in content ==> Group(done, ip) != [] && content[ip] == Combine(Group(done, ip)))
  }

  /** What the loop does with one more observation. */
  function Recorded(content: map<string, Observation>, o: Observation): map<string, Observation> {
    if o.ip == "" then content
    else if o.ip in content then content[o.ip := Joined(content[o.ip], o)]
    else content[o.ip := o]
  }

  datatype Progress = Progress(order: seq<string>, content: map<string, Observation>)

  function Fold(obs: seq<Observation>): Progress {
    if obs == [] then Progress([], map[])
    else
      var n := |obs| - 1;
      var p := Fold(obs[..n]);
      Progress(if obs[n].ip == "" || obs[n].ip in p.content then p.order else p.order + [obs[n].ip], Recorded(p.content, obs[n]))
  }

  lemma RecordsSnoc(content: map<string, Observation>, done: seq<Observation>, o: Observation)
    requires Records(content, done)
    ensures Records(Recorded(content, o), done + [o])
  {
    OrderSnoc(done, o);
    var content' := Recorded(content, o);
    forall ip | ip in content'
      ensures Group(done + [o], ip) != [] && content'[ip] == Combine(Group(done + [o], ip))
    {
      GroupSnoc(done, o, ip);
      if ip == o.ip {
        OrderHasGroups(done, ip);
        CombineSnoc(Group(done, ip), o);
      } else {
        assert Group(done, ip) + [] == Group(done, ip);
      }
    }
  }

  lemma {:induction false} FoldRecords(obs: seq<Observation>)
    ensures Fold(obs).order == Order(obs) && Records(Fold(obs).content, obs)
  {
    if obs != [] {
      var n := |obs| - 1;
      FoldRecords(obs[..n]);
      assert obs == obs[..n] + [obs[n]];
      OrderSnoc(obs[..n], obs[n]);
      RecordsSnoc(Fold(obs[..n]).content, obs[..n], obs[n]);
    }
  }

  lemma FoldIsMerged(obs: seq<Observation>, out: seq<Observation>)
    requires var p := Fold(obs);
      |out| == |p.order| && forall k :: 0 <= k < |out| ==> p.order[k] in p.content && out[k] == p.content[p.order[k]]
    ensures out == Merged(obs)
  {
    FoldRecords(obs);
  }

  /** The boxes, one per address, hold the given contents. */
  ghost predicate Holds(byIP: map<string, ObservationBox>, content: map<string, Observation>)
    reads byIP.Values
  {
    && byIP.Keys == content.Keys
    && (forall ip :: ip in byIP ==> byIP[ip].value == content[ip])
    && (forall ip, ip' :: ip in byIP && ip' in byIP && byIP[ip] == byIP[ip'] ==> ip == ip')
  }

  /** The loop body of `mergeObservations`: clone the first observation of an address, fold in a later one. */
  method Record(byIP: map<string, ObservationBox>, o: Observation, ghost content: map<string, Observation>)
    returns (byIP': map<string, ObservationBox>)
    requires Holds(byIP, content) && o.ip != ""
    modifies byIP.Values
    ensures Holds(byIP', Recorded(content, o))
    ensures fresh(byIP'.Values - byIP.Values)
  {
    if o.ip in byIP {
      assert byIP[o.ip] in byIP.Values;
      MergeInto(byIP[o.ip], o);
      byIP' := byIP;
    } else {
      var cp := new ObservationBox(o);
      byIP' := byIP[o.ip := cp];
      assert forall ip :: ip in byIP ==> byIP[ip] in byIP.Values;
    }
  }

  /** `mergeObservations`. */
  method MergeObservations(obs: seq<Observation>) returns (out: seq<Observation>)
    ensures out == Merged(obs)
  {
    var order: seq<string> := [];
    var byIP: map<string, ObservationBox> := map[];
    ghost var content: map<string, Observation> := map[];
    for i := 0 to |obs|
      invariant Fold(obs[..i]) == Progress(order, content)
      invariant Holds(byIP, content) && fresh(byIP.Values)
      invariant forall k :: 0 <= k < |order| ==> order[k] in content
    {
      assert obs[..i + 1][..i] == obs[..i];
      if obs[i].ip == "" {
        continue;
      }
      if obs[i].ip !in byIP {
        order := order + [obs[i].ip];
      }
      byIP := Record(byIP, obs[i], content);
      content := Recorded(content, obs[i]);
    }
    assert obs[..|obs|] == obs;
    out := [];
    for i := 0 to |order|
      invariant |out| == i
      invariant forall k :: 0 <= k < i ==> order[k] in content && out[k] == content[order[k]]
    {
      out := out + [byIP[order[i]].value];
    }
    FoldIsMerged(obs, out);
  }
}
