/**
 Hardware link groups (internal/store/device_links.go). The device table is the map
 from device id to `hardware_group_id`, the empty string standing for NULL.
 */
module DeviceLinks {
  import opened Text

  type Groups = map<string, string>

  datatype LinkError = TooFewDevices | NotFound

  datatype LinkResult = Linked(groups: Groups) | Refused(error: LinkError)

  // ----- specification -----

  function Distinct(ids: seq<string>): set<string> {
    set id | id in ids && id != ""
  }

  function GroupsOf(groups: Groups, ids: set<string>): set<string> {
    set id | id in ids && id in groups && groups[id] != "" :: groups[id]
  }

  ghost predicate IsLeast(x: string, s: set<string>) {
    x in s && forall y :: y in s && y != x ==> Less(x, y)
  }

  /** The rewrite of one link call onto the surviving group id. */
  function Relinked(groups: Groups, ids: set<string>, target: string): Groups {
    map d | d in groups :: if d in ids || groups[d] in GroupsOf(groups, ids) then target else groups[d]
  }

  predicate Accepted(groups: Groups, ids: seq<string>) {
    |Distinct(ids)| >= 2 && Distinct(ids) <= groups.Keys
  }

  /** The group id a link call rewrites to: the least one present, else the fresh token. */
  ghost predicate Survivor(groups: Groups, ids: set<string>, token: string, target: string) {
    if GroupsOf(groups, ids) == {} then target == token else IsLeast(target, GroupsOf(groups, ids))
  }

  function Members(groups: Groups, group: string): set<string> {
    set d | d in groups && groups[d] == group
  }

  function Unlinked(groups: Groups, id: string): Groups
    requires id in groups
  {
    var group := groups[id];
    if group == "" then groups
    else
      var cleared := groups[id := ""];
      if |Members(cleared, group)| < 2 then map d | d in cleared :: if cleared[d] == group then "" else cleared[d]
      else cleared
  }

  /** A call is accepted when it names two different devices and no unknown one; blanks are ignored. */
  lemma AcceptedIff(groups: Groups, ids: seq<string>)
    ensures Accepted(groups, ids) <==>
      && (exists a, b :: a in ids && b in ids && a != "" && b != "" && a != b)
      && (forall id :: id in ids && id != "" ==> id in groups)
  {
    var named := Distinct(ids);
    if |named| >= 2 {
      var a :| a in named;
      assert |named - {a}| >= 1;
      var b :| b in named - {a};
      assert a in ids && b in ids && a != b;
    }
    if a, b :| a in ids && b in ids && a != "" && b != "" && a != b {
      TwoMembers(named, a, b);
    }
  }

  /** After a link call the named devices and the members of their groups have the surviving id, and the others keep theirs. */
  lemma LinkedRows(groups: Groups, ids: set<string>, token: string, target: string)
    requires Survivor(groups, ids, token, target)
    ensures var after := Relinked(groups, ids, target);
      && after.Keys == groups.Keys
      && (forall d :: d in groups ==>
        after[d] == if d in ids || (groups[d] != "" && exists e :: e in ids && e in groups && groups[e] == groups[d]) then target else groups[d])
    ensures (forall e :: e in ids && e in groups ==> groups[e] == "") ==> target == token
    ensures (exists e :: e in ids && e in groups && groups[e] != "") ==>
      && (exists e :: e in ids && e in groups && groups[e] == target != "")
      && forall e :: e in ids && e in groups && groups[e] != "" ==> groups[e] == target || Less(target, groups[e])
  {
    var present := GroupsOf(groups, ids);
    forall e | e in ids && e in groups && groups[e] != ""
      ensures groups[e] in present
    {
    }
    if present != {} {
      assert target in present;
    }
  }

  /** After an unlink the device has no group, a companion left alone has none either, and every other row is as it was. */
  lemma UnlinkedRows(groups: Groups, id: string)
    requires id in groups
    ensures var after := Unlinked(groups, id);
      && after.Keys == groups.Keys && after[id] == ""
      && forall d :: d in groups && d != id ==>
        after[d] == if groups[d] == groups[id] && (forall e :: e in groups && groups[e] == groups[id] ==> e == id || e == d) then "" else groups[d]
  {
    var group := groups[id];
    if group != "" {
      var left := Members(groups[id := ""], group);
      forall d | d in groups && d != id && groups[d] == group
        ensures |left| < 2 <==> forall e :: e in groups && groups[e] == group ==> e == id || e == d
      {
        assert d in left;
        if forall e :: e in groups && groups[e] == group ==> e == id || e == d {
          assert left == {d};
        } else {
          var e :| e in groups && groups[e] == group && e != id && e != d;
          TwoMembers(left, d, e);
        }
      }
    }
  }

  // ----- the table and its transactions -----

  class DeviceTable {
    var groups: Groups

    constructor (groups: Groups)
      ensures this.groups == groups
    {
      this.groups := groups;
    }

    /** `LinkDevices`; `token` is the fresh group id it may mint. */
    method LinkDevices(ids: seq<string>, token: string) returns (r: LinkResult)
      modifies this
      ensures r.Linked? <==> Accepted(old(groups), ids)
      ensures r.Refused? ==> groups == old(groups)
      ensures r.Refused? ==> r.error == if |Distinct(ids)| < 2 then TooFewDevices else NotFound
      ensures r.Linked? ==> r.groups == groups
      ensures r.Linked? ==> exists target ::
        Survivor(old(groups), Distinct(ids), token, target) && groups == Relinked(old(groups), Distinct(ids), target)
    {
      var unique := Dedupe(ids);
      if |unique| < 2 {
        return Refused(TooFewDevices);
      }
      var found, groupSet := Rows(unique);
      if found != |unique| {
        return Refused(NotFound);
      }
      var target := token;
      if groupSet != {} {
        target := Least(groupSet);
      }
      groups := map d | d in groups :: if d in unique || groups[d] in groupSet then target else groups[d];
      assert Survivor(old(groups), Distinct(ids), token, target);
      assert groups == Relinked(old(groups), Distinct(ids), target);
      return Linked(groups);
    }

    /** The row query: how many of the devices exist, and the groups they are in. */
    method Rows(unique: seq<string>) returns (found: nat, groupSet: set<string>)
      ensures found == |unique| <==> Elements(unique) <= groups.Keys
      ensures groupSet == GroupsOf(groups, Elements(unique))
    {
      found, groupSet := 0, {};
      for i := 0 to |unique|
        invariant groupSet == GroupsOf(groups, Elements(unique[..i]))
        invariant found <= i && (found == i <==> Elements(unique[..i]) <= groups.Keys)
      {
        assert Elements(unique[..i + 1]) == Elements(unique[..i]) + {unique[i]} by {
          assert unique[..i + 1] == unique[..i] + [unique[i]];
        }
        if unique[i] in groups {
          found := found + 1;
          if groups[unique[i]] != "" {
            groupSet := groupSet + {groups[unique[i]]};
          }
        }
      }
      assert unique[..|unique|] == unique;
    }

    /** `UnlinkDevice`. */
    method UnlinkDevice(id: string) returns (found: bool)
      modifies this
      ensures found <==> id in old(groups)
      ensures groups == if found then Unlinked(old(groups), id) else old(groups)
    {
      if id !in groups {
        return false;
      }
      var group := groups[id];
      if group == "" {
        return true;
      }
      groups := groups[id := ""];
      if |set d | d in groups && groups[d] == group| < 2 {
        groups := map d | d in groups :: if groups[d] == group then "" else groups[d];
      }
      return true;
    }

    /** `AutoLinkDeviceBySerial`; `ids` holds what the identity queries return and `token` is a fresh group id. */
    method AutoLinkDeviceBySerial(enabled: bool, device: string, ids: map<string, Identity>, dismissed: set<set<string>>, token: string)
      returns (matches: seq<string>)
      requires ids.Keys == groups.Keys && "" !in groups
      modifies this
      ensures Elements(matches) == if enabled then Candidates(old(groups), ids, dismissed, device) else {}
      ensures enabled && device in ids && ids[device].serial != "" && ids[device].subnets != [] ==>
        forall d :: d in matches <==>
          && d in ids && d != device && ids[d].serial == ids[device].serial && ids[d].subnets != []
          && (forall x :: x in ids[device].subnets ==> x !in ids[d].subnets)
          && {d, device} !in dismissed && !(old(groups)[d] != "" && old(groups)[d] == old(groups)[device])
      ensures !(enabled && device in ids && ids[device].serial != "" && ids[device].subnets != []) ==> matches == []
      ensures matches == [] ==> groups == old(groups)
      ensures matches != [] ==> exists target ::
        Survivor(old(groups), Elements(matches) + {device}, token, target) && groups == Relinked(old(groups), Elements(matches) + {device}, target)
    {
      matches := [];
      if !enabled || device !in ids || ids[device].serial == "" || |ids[device].subnets| == 0 {
        return;
      }
      matches := Matches(device, ids, dismissed);
      CandidatesAre(groups, ids, dismissed, device, matches);
      if |matches| == 0 {
        return;
      }
      NamesOf(device, matches);
      assert matches[0] in Elements(matches);
      TwoMembers(Elements(matches) + {device}, device, matches[0]);
      var r := LinkDevices([device] + matches, token);
    }

    /** The candidate query and its filter. */
    method Matches(device: string, ids: map<string, Identity>, dismissed: set<set<string>>) returns (matches: seq<string>)
      requires ids.Keys == groups.Keys
      ensures Elements(matches) == Candidates(groups, ids, dismissed, device)
    {
      matches := [];
      var rest := groups.Keys;
      while rest != {}
        invariant rest <= groups.Keys
        invariant Elements(matches) == Candidates(groups, ids, dismissed, device) - rest
        decreases rest
      {
        var d :| d in rest;
        rest := rest - {d};
        if Candidate(groups, ids, dismissed, device, d) {
          assert Elements(matches + [d]) == Elements(matches) + {d};
          matches := matches + [d];
        }
      }
    }
  }

  lemma NamesOf(device: string, matches: seq<string>)
    requires device != "" && "" !in Elements(matches)
    ensures Distinct([device] + matches) == Elements(matches) + {device}
  {
    assert forall id :: id in [device] + matches <==> id == device || id in Elements(matches);
  }

  /** The distinct non-empty ids of a call. */
  method Dedupe(ids: seq<string>) returns (unique: seq<string>)
    ensures Elements(unique) == Distinct(ids) && |unique| == |Distinct(ids)|
  {
    unique := [];
    var seen: set<string> := {};
    for i := 0 to |ids|
      invariant seen == Distinct(ids[..i]) == Elements(unique) && |unique| == |seen|
    {
      assert ids[..i + 1] == ids[..i] + [ids[i]];
      if ids[i] == "" || ids[i] in seen {
        continue;
      }
      seen := seen + {ids[i]};
      unique := unique + [ids[i]];
    }
    assert ids[..|ids|] == ids;
  }

  /** The first of the sorted ids. */
  method Least(s: set<string>) returns (least: string)
    requires s != {}
    ensures IsLeast(least, s)
  {
    least :| least in s;
    var rest := s - {least};
    while rest != {}
      invariant least in s && rest <= s
      invariant forall y :: y in s && y !in rest && y != least ==> Less(least, y)
      decreases rest
    {
      var y :| y in rest;
      rest := rest - {y};
      if Less(y, least) {
        forall z | z in s && z !in rest && z != y
          ensures Less(y, z)
        {
          if z != least {
            LessTransitive(y, least, z);
          }
        }
        least := y;
      } else {
        LessTotal(y, least);
      }
    }
  }

  // ----- one call -----

  predicate SameGroup(groups: Groups, a: string, b: string) {
    a in groups && b in groups && groups[a] != "" && groups[a] == groups[b]
  }

  ghost predicate Touched(groups: Groups, ids: set<string>, d: string) {
    d in ids || exists e :: e in ids && SameGroup(groups, d, e)
  }

  predicate FreshToken(groups: Groups, token: string) {
    token != "" && token !in groups.Values
  }

  /** A link call joins the classes it touches into one and leaves every other class as it was. */
  lemma LinkJoinsTouchedClasses(groups: Groups, ids: set<string>, token: string, target: string, a: string, b: string)
    requires ids != {} && ids <= groups.Keys && FreshToken(groups, token)
    requires Survivor(groups, ids, token, target)
    requires a in groups && b in groups
    ensures SameGroup(Relinked(groups, ids, target), a, b) <==>
      SameGroup(groups, a, b) || (Touched(groups, ids, a) && Touched(groups, ids, b))
    ensures !Touched(groups, ids, a) ==> Relinked(groups, ids, target)[a] == groups[a]
  {
    var present := GroupsOf(groups, ids);
    assert "" !in present;
    forall d | d in groups
      ensures Touched(groups, ids, d) <==> d in ids || groups[d] in present
    {
      if groups[d] in present {
        var e :| e in ids && e in groups && groups[e] != "" && groups[e] == groups[d];
        assert SameGroup(groups, d, e);
      }
    }
    assert target != "" && (target in present || forall d :: d in groups ==> groups[d] != target) by {
      assert forall d :: d in groups ==> groups[d] in groups.Values;
    }
  }

  /** Unlinking isolates exactly its device: every other pair stays as it was. */
  lemma UnlinkIsolates(groups: Groups, id: string, a: string, b: string)
    requires id in groups && a != b
    ensures SameGroup(Unlinked(groups, id), a, b) <==> SameGroup(groups, a, b) && a != id && b != id
  {
    var group := groups[id];
    if group != "" && SameGroup(groups, a, b) && groups[a] == group && a != id && b != id {
      var members := Members(groups[id := ""], group);
      assert {a, b} <= members;
      TwoMembers(members, a, b);
    }
  }

  lemma TwoMembers(s: set<string>, a: string, b: string)
    requires a in s && b in s && a != b
    ensures |s| >= 2
  {
    assert |s - {a} - {b}| == |s| - 2;
  }

  // ----- no group of one -----

  ghost predicate HasCompany(groups: Groups, d: string) {
    exists e :: e != d && SameGroup(groups, d, e)
  }

  ghost predicate NoSingletons(groups: Groups) {
    forall d :: d in groups && groups[d] != "" ==> HasCompany(groups, d)
  }

  lemma LinkKeepsNoSingletons(groups: Groups, ids: set<string>, token: string, target: string)
    requires |ids| >= 2 && ids <= groups.Keys && FreshToken(groups, token) && NoSingletons(groups)
    requires Survivor(groups, ids, token, target)
    ensures NoSingletons(Relinked(groups, ids, target))
  {
    var after := Relinked(groups, ids, target);
    forall d | d in after && after[d] != ""
      ensures HasCompany(after, d)
    {
      if Touched(groups, ids, d) {
        assert |ids - {d}| >= 1;
        var e :| e in ids - {d};
        LinkJoinsTouchedClasses(groups, ids, token, target, d, e);
        assert SameGroup(after, d, e);
      } else {
        LinkJoinsTouchedClasses(groups, ids, token, target, d, d);
        var e :| e != d && SameGroup(groups, d, e);
        LinkJoinsTouchedClasses(groups, ids, token, target, d, e);
        assert SameGroup(after, d, e);
      }
    }
  }

  lemma UnlinkKeepsNoSingletons(groups: Groups, id: string)
    requires id in groups && NoSingletons(groups)
    ensures NoSingletons(Unlinked(groups, id))
  {
    var after, group := Unlinked(groups, id), groups[id];
    forall d | d in after && after[d] != ""
      ensures HasCompany(after, d)
    {
      if groups[d] == group {
        var members := Members(groups[id := ""], group);
        assert |members| >= 2 && d in members;
        assert |members - {d}| >= 1;
        var e :| e in members - {d};
        UnlinkIsolates(groups, id, d, e);
        assert SameGroup(after, d, e);
      } else {
        var e :| e != d && SameGroup(groups, d, e);
        UnlinkIsolates(groups, id, d, e);
        assert SameGroup(after, d, e);
      }
    }
  }

  // ----- whole runs -----

  datatype Call = Link(ids: seq<string>, token: string, target: string) | Unlink(id: string)

  ghost predicate Possible(groups: Groups, c: Call) {
    c.Link? && Accepted(groups, c.ids) ==> FreshToken(groups, c.token) && Survivor(groups, Distinct(c.ids), c.token, c.target)
  }

  /** The table after one call; a refused call leaves it as it was. */
  function AfterCall(groups: Groups, c: Call): Groups {
    match c
    case Link(ids, _, target) => if Accepted(groups, ids) then Relinked(groups, Distinct(ids), target) else groups
    case Unlink(id) => if id in groups then Unlinked(groups, id) else groups
  }

  /** The table after a run of calls. */
  function AfterRun(groups: Groups, run: seq<Call>): (r: Groups)
    ensures r.Keys == groups.Keys
  {
    if run == [] then groups else AfterCall(AfterRun(groups, run[..|run| - 1]), run[|run| - 1])
  }

  ghost predicate PossibleRun(groups: Groups, run: seq<Call>) {
    forall i :: 0 <= i < |run| ==> Possible(AfterRun(groups, run[..i]), run[i])
  }

  lemma PossiblePrefix(groups: Groups, run: seq<Call>)
    requires run != [] && PossibleRun(groups, run)
    ensures PossibleRun(groups, run[..|run| - 1])
    ensures Possible(AfterRun(groups, run[..|run| - 1]), run[|run| - 1])
  {
    var before := run[..|run| - 1];
    forall i | 0 <= i < |before|
      ensures Possible(AfterRun(groups, before[..i]), before[i])
    {
      assert before[..i] == run[..i];
    }
  }

  /** Over every run of link and unlink calls each non-null group keeps at least two members. */
  lemma {:induction false} RunKeepsNoSingletons(groups: Groups, run: seq<Call>)
    requires NoSingletons(groups) && PossibleRun(groups, run)
    ensures NoSingletons(AfterRun(groups, run))
  {
    if run != [] {
      PossiblePrefix(groups, run);
      var n := |run| - 1;
      RunKeepsNoSingletons(groups, run[..n]);
      var before := AfterRun(groups, run[..n]);
      match run[n]
      case Link(ids, token, target) =>
        if Accepted(before, ids) {
          LinkKeepsNoSingletons(before, Distinct(ids), token, target);
        }
      case Unlink(id) =>
        if id in before {
          UnlinkKeepsNoSingletons(before, id);
        }
    }
  }

  /** Both devices were named by one successful link call of the run. */
  ghost predicate Edge(groups: Groups, run: seq<Call>, a: string, b: string) {
    exists i :: 0 <= i < |run| && Named(groups, run[i], a, b)
  }

  predicate Named(groups: Groups, c: Call, a: string, b: string) {
    c.Link? && Accepted(groups, c.ids) && a in Distinct(c.ids) && b in Distinct(c.ids)
  }

  ghost predicate Path(groups: Groups, run: seq<Call>, p: seq<string>, a: string, b: string) {
    && |p| > 0 && p[0] == a && p[|p| - 1] == b
    && forall k :: 0 <= k < |p| - 1 ==> Edge(groups, run, p[k], p[k + 1])
  }

  ghost predicate Connected(groups: Groups, run: seq<Call>, a: string, b: string) {
    exists p :: Path(groups, run, p, a, b)
  }

  lemma EdgeSnoc(groups: Groups, run: seq<Call>, a: string, b: string)
    requires run != []
    ensures Edge(groups, run, a, b) <==> Edge(groups, run[..|run| - 1], a, b) || Named(groups, run[|run| - 1], a, b)
  {
    var before := run[..|run| - 1];
    if Edge(groups, before, a, b) {
      var i :| 0 <= i < |before| && Named(groups, before[i], a, b);
      assert Named(groups, run[i], a, b);
    }
    if Edge(groups, run, a, b) {
      var i :| 0 <= i < |run| && Named(groups, run[i], a, b);
      if i < |before| {
        assert Named(groups, before[i], a, b);
      }
    }
  }

  lemma ConnectedGrows(groups: Groups, run: seq<Call>, a: string, b: string)
    requires run != [] && Connected(groups, run[..|run| - 1], a, b)
    ensures Connected(groups, run, a, b)
  {
    var p :| Path(groups, run[..|run| - 1], p, a, b);
    forall k | 0 <= k < |p| - 1
      ensures Edge(groups, run, p[k], p[k + 1])
    {
      EdgeSnoc(groups, run, p[k], p[k + 1]);
    }
    assert Path(groups, run, p, a, b);
  }

  lemma ConnectedThrough(groups: Groups, run: seq<Call>, a: string, b: string, c: string)
    requires Connected(groups, run, a, b) && Connected(groups, run, b, c)
    ensures Connected(groups, run, a, c)
  {
    var p :| Path(groups, run, p, a, b);
    var q :| Path(groups, run, q, b, c);
    var r := p + q[1..];
    forall k | 0 <= k < |r| - 1
      ensures Edge(groups, run, r[k], r[k + 1])
    {
      if k >= |p| - 1 {
        assert r[k] == q[k - (|p| - 1)] && r[k + 1] == q[k + 1 - (|p| - 1)];
      }
    }
    assert Path(groups, run, r, a, c);
  }

  lemma ConnectedByEdge(groups: Groups, run: seq<Call>, a: string, b: string)
    requires a == b || Edge(groups, run, a, b)
    ensures Connected(groups, run, a, b)
  {
    if a == b {
      assert Path(groups, run, [a], a, b);
    } else {
      assert Path(groups, run, [a, b], a, b);
    }
  }

  lemma ConnectedSymmetric(groups: Groups, run: seq<Call>, a: string, b: string)
    requires Connected(groups, run, a, b)
    ensures Connected(groups, run, b, a)
  {
    var p :| Path(groups, run, p, a, b);
    var r := seq(|p|, i requires 0 <= i < |p| => p[|p| - 1 - i]);
    forall k | 0 <= k < |r| - 1
      ensures Edge(groups, run, r[k], r[k + 1])
    {
      var j := |p| - 2 - k;
      assert Edge(groups, run, p[j], p[j + 1]);
      var i :| 0 <= i < |run| && Named(groups, run[i], p[j], p[j + 1]);
      assert Named(groups, run[i], p[j + 1], p[j]);
    }
    assert Path(groups, run, r, b, a);
  }

  ghost predicate OnlyLinks(run: seq<Call>) {
    forall i :: 0 <= i < |run| ==> run[i].Link?
  }

  /** Devices the run put together were connected by its calls. */
  lemma {:induction false} GroupedAreConnected(groups: Groups, run: seq<Call>, a: string, b: string)
    requires (forall d :: d in groups ==> groups[d] == "") && OnlyLinks(run) && PossibleRun(groups, run)
    requires SameGroup(AfterRun(groups, run), a, b)
    ensures Connected(groups, run, a, b)
    decreases |run|
  {
    PossiblePrefix(groups, run);
    var n := |run| - 1;
    var before, c := AfterRun(groups, run[..n]), run[n];
    if Accepted(before, c.ids) {
      LinkJoinsTouchedClasses(before, Distinct(c.ids), c.token, c.target, a, b);
    }
    if SameGroup(before, a, b) {
      GroupedAreConnected(groups, run[..n], a, b);
      ConnectedGrows(groups, run, a, b);
    } else {
      var a' := TouchedReachesCall(groups, run, a);
      var b' := TouchedReachesCall(groups, run, b);
      EdgeSnoc(groups, run, a', b');
      ConnectedByEdge(groups, run, a', b');
      ConnectedSymmetric(groups, run, b, b');
      ConnectedThrough(groups, run, a, a', b');
      ConnectedThrough(groups, run, a, b', b);
    }
  }

  lemma {:induction false} TouchedReachesCall(groups: Groups, run: seq<Call>, d: string) returns (e: string)
    requires (forall d :: d in groups ==> groups[d] == "") && OnlyLinks(run) && PossibleRun(groups, run)
    requires run != [] && Touched(AfterRun(groups, run[..|run| - 1]), Distinct(run[|run| - 1].ids), d)
    ensures e in Distinct(run[|run| - 1].ids) && Connected(groups, run, d, e)
    decreases |run|, 0
  {
    var n := |run| - 1;
    var before, ids := AfterRun(groups, run[..n]), Distinct(run[n].ids);
    if d in ids {
      e := d;
      ConnectedByEdge(groups, run, d, d);
    } else {
      PossiblePrefix(groups, run);
      e :| e in ids && SameGroup(before, d, e);
      GroupedAreConnected(groups, run[..n], d, e);
      ConnectedGrows(groups, run, d, e);
    }
  }

  /** One link call: the devices it names end up together, and those together before stay so. */
  lemma CallGroups(before: Groups, c: Call, a: string, b: string)
    requires c.Link? && Possible(before, c) && (SameGroup(before, a, b) || Named(before, c, a, b))
    ensures SameGroup(AfterCall(before, c), a, b)
  {
    if Accepted(before, c.ids) {
      LinkJoinsTouchedClasses(before, Distinct(c.ids), c.token, c.target, a, b);
    }
  }

  lemma {:induction false} AcceptedThroughout(groups: Groups, run: seq<Call>, ids: seq<string>)
    ensures Accepted(AfterRun(groups, run), ids) <==> Accepted(groups, ids)
  {
  }

  /** Each call's own devices end up together, and stay together through later link calls. */
  lemma {:induction false} EdgesAreGrouped(groups: Groups, run: seq<Call>, a: string, b: string)
    requires OnlyLinks(run) && PossibleRun(groups, run) && Edge(groups, run, a, b)
    ensures SameGroup(AfterRun(groups, run), a, b)
    decreases |run|
  {
    PossiblePrefix(groups, run);
    EdgeSnoc(groups, run, a, b);
    var before, c := run[..|run| - 1], run[|run| - 1];
    if Edge(groups, before, a, b) {
      EdgesAreGrouped(groups, before, a, b);
    } else {
      AcceptedThroughout(groups, before, c.ids);
    }
    CallGroups(AfterRun(groups, before), c, a, b);
  }

  lemma {:induction false} PathIsGrouped(groups: Groups, run: seq<Call>, p: seq<string>, a: string, b: string)
    requires OnlyLinks(run) && PossibleRun(groups, run) && Path(groups, run, p, a, b) && a != b
    ensures SameGroup(AfterRun(groups, run), a, b)
    decreases |p|
  {
    var q := p[..|p| - 1];
    var m := q[|q| - 1];
    assert Edge(groups, run, p[|p| - 2], p[|p| - 1]);
    EdgesAreGrouped(groups, run, m, b);
    if m != a {
      forall k | 0 <= k < |q| - 1
        ensures Edge(groups, run, q[k], q[k + 1])
      {
        assert Edge(groups, run, p[k], p[k + 1]);
      }
      PathIsGrouped(groups, run, q, a, m);
    }
  }

  /** After any run of link calls on an unlinked table, two devices share a group exactly when the successful calls connect them. */
  lemma GroupsAreConnectedComponents(groups: Groups, run: seq<Call>, a: string, b: string)
    requires (forall d :: d in groups ==> groups[d] == "") && OnlyLinks(run) && PossibleRun(groups, run)
    requires a != b
    ensures SameGroup(AfterRun(groups, run), a, b) <==> Connected(groups, run, a, b)
  {
    if SameGroup(AfterRun(groups, run), a, b) {
      GroupedAreConnected(groups, run, a, b);
    }
    if Connected(groups, run, a, b) {
      var p :| Path(groups, run, p, a, b);
      PathIsGrouped(groups, run, p, a, b);
    }
  }

  // ----- the opt-in link by chassis serial -----

  /** A device row joined with the subnets of its addresses. */
  datatype Identity = Identity(serial: string, subnets: seq<string>)

  /** `disjointSubnets`. */
  predicate DisjointSubnets(a: seq<string>, b: seq<string>) {
    a != [] && b != [] && forall x :: x in a ==> x !in b
  }

  /** What `AutoLinkDeviceBySerial` selects: same serial, not already together, not dismissed, subnets disjoint from the device's. */
  predicate Candidate(groups: Groups, ids: map<string, Identity>, dismissed: set<set<string>>, device: string, d: string) {
    && d in ids && device in ids && d in groups && d != device
    && ids[device].serial != "" && ids[d].serial == ids[device].serial
    && !SameGroup(groups, d, device) && {d, device} !in dismissed
    && DisjointSubnets(ids[device].subnets, ids[d].subnets)
  }

  lemma CandidatesAre(groups: Groups, ids: map<string, Identity>, dismissed: set<set<string>>, device: string, matches: seq<string>)
    requires groups.Keys == ids.Keys && device in ids && ids[device].serial != "" && ids[device].subnets != []
    requires Elements(matches) == Candidates(groups, ids, dismissed, device)
    ensures forall d :: d in matches <==>
      && d in ids && d != device && ids[d].serial == ids[device].serial && ids[d].subnets != []
      && (forall x :: x in ids[device].subnets ==> x !in ids[d].subnets)
      && {d, device} !in dismissed && !(groups[d] != "" && groups[d] == groups[device])
  {
    forall d
      ensures d in matches <==> Candidate(groups, ids, dismissed, device, d)
    {
      assert d in matches <==> d in Elements(matches);
    }
  }

  ghost function Candidates(groups: Groups, ids: map<string, Identity>, dismissed: set<set<string>>, device: string): set<string>
  {
    set d | d in groups && Candidate(groups, ids, dismissed, device, d)
  }

  /** No two devices of one group have an address in the same subnet. */
  ghost predicate OnePerSubnet(groups: Groups, ids: map<string, Identity>) {
    forall a, b :: a in ids && b in ids && a != b && SameGroup(groups, a, b) ==> DisjointSubnets(ids[a].subnets, ids[b].subnets)
  }

  /** No two devices of one group were declined as a link by the operator. */
  ghost predicate NoneDismissed(groups: Groups, dismissed: set<set<string>>) {
    forall a, b :: a != b && SameGroup(groups, a, b) ==> {a, b} !in dismissed
  }

  ghost predicate PairsHold(groups: Groups, ok: (string, string) -> bool) {
    forall a, b :: a != b && SameGroup(groups, a, b) ==> ok(a, b)
  }

  /** A property of linked pairs survives a link call exactly when it holds throughout the classes the call touches. */
  lemma LinkKeepsPairsIff(groups: Groups, named: set<string>, token: string, target: string, ok: (string, string) -> bool)
    requires named != {} && named <= groups.Keys && FreshToken(groups, token) && Survivor(groups, named, token, target)
    requires PairsHold(groups, ok)
    ensures PairsHold(Relinked(groups, named, target), ok) <==>
      forall a, b :: a in groups && b in groups && a != b && Touched(groups, named, a) && Touched(groups, named, b) ==> ok(a, b)
  {
    var after := Relinked(groups, named, target);
    forall a, b | a in groups && b in groups
      ensures SameGroup(after, a, b) <==> SameGroup(groups, a, b) || (Touched(groups, named, a) && Touched(groups, named, b))
    {
      LinkJoinsTouchedClasses(groups, named, token, target, a, b);
    }
  }

  /**
   Auto-linking tests each match against the linked device only, and `LinkDevices` takes in
   the whole group of each. Linked devices keep different subnets exactly when the devices
   of all the classes it touches do.
  */
  lemma AutoLinkKeepsOnePerSubnet(groups: Groups, ids: map<string, Identity>, dismissed: set<set<string>>, device: string, token: string, target: string)
    requires device in groups && groups.Keys == ids.Keys && OnePerSubnet(groups, ids) && FreshToken(groups, token)
    requires Survivor(groups, Candidates(groups, ids, dismissed, device) + {device}, token, target)
    ensures var named := Candidates(groups, ids, dismissed, device) + {device};
      OnePerSubnet(Relinked(groups, named, target), ids) <==>
      forall a, b :: a in ids && b in ids && a != b && Touched(groups, named, a) && Touched(groups, named, b) ==>
        DisjointSubnets(ids[a].subnets, ids[b].subnets)
  {
    var named := Candidates(groups, ids, dismissed, device) + {device};
    var apart := (a, b) => a in ids && b in ids ==> DisjointSubnets(ids[a].subnets, ids[b].subnets);
    assert PairsHold(groups, apart);
    LinkKeepsPairsIff(groups, named, token, target, apart);
    assert OnePerSubnet(Relinked(groups, named, target), ids) <==> PairsHold(Relinked(groups, named, target), apart);
  }

  /** The same for the links an operator declined, which are looked up for the linked device only. */
  lemma AutoLinkKeepsDismissalsIff(groups: Groups, ids: map<string, Identity>, dismissed: set<set<string>>, device: string, token: string, target: string)
    requires device in groups && groups.Keys == ids.Keys && NoneDismissed(groups, dismissed) && FreshToken(groups, token)
    requires Survivor(groups, Candidates(groups, ids, dismissed, device) + {device}, token, target)
    ensures var named := Candidates(groups, ids, dismissed, device) + {device};
      NoneDismissed(Relinked(groups, named, target), dismissed) <==>
      forall a, b :: a in groups && b in groups && a != b && Touched(groups, named, a) && Touched(groups, named, b) ==> {a, b} !in dismissed
  {
    var named := Candidates(groups, ids, dismissed, device) + {device};
    LinkKeepsPairsIff(groups, named, token, target, (a, b) => {a, b} !in dismissed);
  }

  /** Three records of one serial, two of them in the same subnet: the two end up linked. */
  lemma AutoLinkMayJoinOneSubnet() returns (groups: Groups, ids: map<string, Identity>, device: string, token: string, a: string, b: string)
    ensures device in ids && groups.Keys == ids.Keys && OnePerSubnet(groups, ids) && FreshToken(groups, token)
    ensures a != b && {a, b} <= Candidates(groups, ids, {}, device)
    ensures SameGroup(Relinked(groups, Candidates(groups, ids, {}, device) + {device}, token), a, b)
    ensures a in ids && b in ids && !DisjointSubnets(ids[a].subnets, ids[b].subnets)
  {
    groups := map["router" := "", "clone1" := "", "clone2" := ""];
    ids := map["router" := Identity("SN1", ["lan"]), "clone1" := Identity("SN1", ["dmz"]), "clone2" := Identity("SN1", ["dmz"])];
    device, token, a, b := "router", "group", "clone1", "clone2";
    assert Candidate(groups, ids, {}, device, a) && Candidate(groups, ids, {}, device, b);
    assert "dmz" in ids[a].subnets && "dmz" in ids[b].subnets;
  }

  /** A single match that brings its group along: a third device of the router's own subnet ends up linked to the router. */
  lemma AutoLinkMayJoinThroughGroup() returns (groups: Groups, ids: map<string, Identity>, device: string, target: string, a: string, c: string)
    ensures device in ids && groups.Keys == ids.Keys && OnePerSubnet(groups, ids) && NoSingletons(groups)
    ensures Candidates(groups, ids, {}, device) == {a} && IsLeast(target, GroupsOf(groups, {a, device}))
    ensures c in ids && c != device && SameGroup(Relinked(groups, {a, device}, target), device, c)
    ensures !DisjointSubnets(ids[device].subnets, ids[c].subnets)
  {
    device, a, c, target := "router", "a", "c", "g";
    groups, ids := ThroughGroup(device, a, c, target, "lan", "dmz", "SN1", "SN2");
  }

  lemma ThroughGroup(device: string, a: string, c: string, g: string, lan: string, dmz: string, serial: string, other: string)
    returns (groups: Groups, ids: map<string, Identity>)
    requires device != a && a != c && c != device && g != "" && lan != dmz && serial != other && serial != ""
    ensures groups.Keys == ids.Keys == {device, a, c} && OnePerSubnet(groups, ids) && NoSingletons(groups)
    ensures Candidates(groups, ids, {}, device) == {a} && IsLeast(g, GroupsOf(groups, {a, device}))
    ensures SameGroup(Relinked(groups, {a, device}, g), device, c)
    ensures !DisjointSubnets(ids[device].subnets, ids[c].subnets)
  {
    groups := map[device := "", a := g, c := g];
    ids := map[device := Identity(serial, [lan]), a := Identity(serial, [dmz]), c := Identity(other, [lan])];
    OneSubnetEach(lan, dmz);
    OneSubnetEach(dmz, lan);
    OneSubnetEach(lan, lan);
    OneGroup(groups, device, a, c, g);
    OneCandidate(groups, ids, device, a, c, g);
  }

  lemma OneSubnetEach(x: string, y: string)
    ensures DisjointSubnets([x], [y]) <==> x != y
  {
    assert x in [x] && y in [y];
  }

  /** The group of two beside a device without a group. */
  ghost predicate Beside(groups: Groups, device: string, a: string, c: string, g: string) {
    && groups.Keys == {device, a, c} && device != a && a != c && c != device && g != ""
    && groups[device] == "" && groups[a] == g && groups[c] == g
  }

  lemma OneGroup(groups: Groups, device: string, a: string, c: string, g: string)
    requires Beside(groups, device, a, c, g)
    ensures NoSingletons(groups) && IsLeast(g, GroupsOf(groups, {a, device}))
    ensures SameGroup(Relinked(groups, {a, device}, g), device, c)
  {
    assert SameGroup(groups, a, c) && SameGroup(groups, c, a);
    assert a in {a, device} && g in GroupsOf(groups, {a, device});
  }

  lemma OneCandidate(groups: Groups, ids: map<string, Identity>, device: string, a: string, c: string, g: string)
    requires Beside(groups, device, a, c, g) && ids.Keys == groups.Keys
    requires ids[a].serial == ids[device].serial != "" && ids[c].serial != ids[device].serial
    requires DisjointSubnets(ids[device].subnets, ids[a].subnets)
    requires DisjointSubnets(ids[a].subnets, ids[c].subnets) && DisjointSubnets(ids[c].subnets, ids[a].subnets)
    ensures Candidates(groups, ids, {}, device) == {a} && OnePerSubnet(groups, ids)
  {
    assert Candidate(groups, ids, {}, device, a);
    assert forall x, y :: x != y && SameGroup(groups, x, y) ==> (x == a && y == c) || (x == c && y == a);
  }

  /** A pair the operator declined, both matching a third record: all three end up linked. */
  lemma AutoLinkMayJoinDismissed() returns (groups: Groups, ids: map<string, Identity>, dismissed: set<set<string>>, device: string, token: string, a: string, b: string)
    ensures device in ids && groups.Keys == ids.Keys && NoneDismissed(groups, dismissed) && FreshToken(groups, token)
    ensures a != b && {a, b} in dismissed && Candidates(groups, ids, dismissed, device) == {a, b}
    ensures SameGroup(Relinked(groups, {a, b, device}, token), a, b)
  {
    groups := map["d" := "", "a" := "", "b" := ""];
    ids := map["d" := Identity("SN1", ["lan"]), "a" := Identity("SN1", ["dmz"]), "b" := Identity("SN1", ["lab"])];
    device, token, a, b := "d", "group", "a", "b";
    dismissed := {{a, b}};
    assert device !in {a, b} && {a, device} != {a, b} && {b, device} != {a, b};
    assert Candidate(groups, ids, dismissed, device, a) && Candidate(groups, ids, dismissed, device, b);
  }
}
