/**
 The subnet table and its writers: the forms (internal/store/ipam.go), the CSV import
 (internal/app/portability.go, internal/store/portability.go) and the overlap policy
 check (internal/app/policy.go). No sequence of them makes two subnets overlap.
 */
module Subnets {
  import opened Options
  import opened Prefix

  /** The columns a form or an import writes. */
  datatype Subnet = Subnet(cidr: Prefix, site: string, name: string, vlan: Option<nat>, description: string)

  type Table = map<string, Subnet>

  ghost predicate Valid(t: Table) {
    && (forall id :: id in t ==> IsMasked(t[id].cidr))
    && forall i, j :: i in t && j in t && i != j ==> Disjoint(t[i].cidr, t[j].cidr)
  }

  // ----- the forms -----

  datatype Outcome = Written | Overlap | NotFound

  /** Some other subnet shares an address with `cidr`. */
  ghost predicate Taken(t: Table, except: string, cidr: Prefix) {
    exists id :: id in t && (except == "" || id != except) && !Disjoint(t[id].cidr, cidr)
  }

  class SubnetStore {
    var subnets: Table

    constructor ()
      ensures subnets == map[]
    {
      subnets := map[];
    }

    /** `ensureNoSubnetOverlap`. */
    method EnsureNoSubnetOverlap(existingID: string, cidr: Prefix) returns (ok: bool)
      ensures ok <==> forall id :: id in subnets && (existingID == "" || id != existingID) ==> Disjoint(subnets[id].cidr, cidr)
    {
      var rest := subnets.Keys;
      while rest != {}
        invariant rest <= subnets.Keys
        invariant forall id :: id in subnets && id !in rest && (existingID == "" || id != existingID) ==> Disjoint(subnets[id].cidr, cidr)
        decreases rest
      {
        var id :| id in rest;
        OverlapsIsIntersection(subnets[id].cidr, cidr);
        if Overlaps(subnets[id].cidr, cidr) && (existingID == "" || id != existingID) {
          return false;
        }
        rest := rest - {id};
      }
      return true;
    }

    /** `CreateSubnet`; `id` is a fresh token. */
    method CreateSubnet(input: Subnet, id: string) returns (r: Outcome)
      requires Valid(subnets) && IsMasked(input.cidr) && id !in subnets
      modifies this
      ensures Valid(subnets) && subnets == Created(old(subnets), input, id)
      ensures r == if forall k :: k in old(subnets) ==> Disjoint(old(subnets)[k].cidr, input.cidr) then Written else Overlap
      ensures subnets == if r == Written then old(subnets)[id := input] else old(subnets)
    {
      var ok := EnsureNoSubnetOverlap("", input.cidr);
      if !ok {
        return Overlap;
      }
      CreateKeepsValid(subnets, input, id);
      subnets := subnets[id := input];
      return Written;
    }

    /** `UpdateSubnet`: the overlap check runs before the row is known to exist. */
    method UpdateSubnet(id: string, input: Subnet) returns (r: Outcome)
      requires Valid(subnets) && IsMasked(input.cidr) && id != ""
      modifies this
      ensures Valid(subnets) && subnets == Updated(old(subnets), id, input)
      ensures r == if exists k :: k in old(subnets) && k != id && !Disjoint(old(subnets)[k].cidr, input.cidr) then Overlap
        else if id in old(subnets) then Written else NotFound
      ensures subnets == if r == Written then old(subnets)[id := input] else old(subnets)
    {
      var ok := EnsureNoSubnetOverlap(id, input.cidr);
      if !ok {
        return Overlap;
      }
      if id !in subnets {
        return NotFound;
      }
      UpdateKeepsValid(subnets, id, input);
      subnets := subnets[id := input];
      return Written;
    }

    /** `DeleteSubnet`. */
    method DeleteSubnet(id: string) returns (r: Outcome)
      requires Valid(subnets)
      modifies this
      ensures Valid(subnets)
      ensures r == if id in old(subnets) then Written else NotFound
      ensures subnets == old(subnets) - {id}
    {
      if id !in subnets {
        return NotFound;
      }
      subnets := subnets - {id};
      return Written;
    }

    /** `ImportSubnets`: one upsert per row, keyed by CIDR; `ids` are the fresh tokens drawn for the rows. */
    method ImportSubnets(rows: seq<Subnet>, ids: seq<string>)
      requires |ids| == |rows|
      modifies this
      ensures subnets == Upserted(old(subnets), rows, ids)
    {
      for i := 0 to |rows|
        invariant Upserted(subnets, rows[i..], ids[i..]) == Upserted(old(subnets), rows, ids)
      {
        var row, id := rows[i], ids[i];
        assert rows[i..][1..] == rows[i + 1..] && ids[i..][1..] == ids[i + 1..];
        if exists k :: k in subnets && subnets[k].cidr == row.cidr {
          subnets := map k | k in subnets :: if subnets[k].cidr == row.cidr then row else subnets[k];
        } else {
          subnets := subnets[id := row];
        }
      }
    }

    /** The import as confirmed: a file with an error is not applied at all. */
    method ImportFile(rows: seq<CsvRow>, sites: map<string, string>, ids: seq<string>) returns (report: Report)
      requires Valid(subnets) && |ids| == |rows|
      requires forall i, j :: 0 <= i < j < |ids| ==> ids[i] != ids[j]
      requires forall i :: 0 <= i < |ids| ==> ids[i] !in subnets
      modifies this
      ensures Valid(subnets)
      ensures report == Reported(rows, old(subnets), sites)
      ensures subnets == Imported(old(subnets), rows, sites, ids)
    {
      var imports;
      report, imports := ValidateSubnets(rows, subnets, sites);
      ReportAddsUp(rows, subnets, sites);
      if report.errors == 0 {
        AcceptedAreDisjoint(rows, subnets, sites);
        UpsertKeepsValid(subnets, imports, ids);
        ImportSubnets(imports, ids);
      }
    }
  }

  // ----- effects of the writers -----

  ghost function Created(t: Table, input: Subnet, id: string): Table {
    if Taken(t, "", input.cidr) then t else t[id := input]
  }

  ghost function Updated(t: Table, id: string, input: Subnet): Table {
    if Taken(t, id, input.cidr) || id !in t then t else t[id := input]
  }

  function Upsert(t: Table, row: Subnet, id: string): Table {
    if exists k :: k in t && t[k].cidr == row.cidr then
      map k | k in t :: if t[k].cidr == row.cidr then row else t[k]
    else t[id := row]
  }

  function Upserted(t: Table, rows: seq<Subnet>, ids: seq<string>): Table
    requires |rows| <= |ids|
    decreases |rows|
  {
    if rows == [] then t else Upserted(Upsert(t, rows[0], ids[0]), rows[1..], ids[1..])
  }

  lemma CreateKeepsValid(t: Table, input: Subnet, id: string)
    requires Valid(t) && IsMasked(input.cidr) && id !in t && !Taken(t, "", input.cidr)
    ensures Valid(t[id := input])
  {
  }

  lemma UpdateKeepsValid(t: Table, id: string, input: Subnet)
    requires Valid(t) && IsMasked(input.cidr) && id in t && id != "" && !Taken(t, id, input.cidr)
    ensures Valid(t[id := input])
  {
  }

  // ----- the CSV file -----

  datatype VlanCell = NoVlan | Vlan(n: nat) | BadVlan

  /** A row with its cells parsed; `cidr` may still carry host bits. */
  datatype CsvRow = CsvRow(name: string, cidr: Option<Prefix>, vlan: VlanCell, site: string, description: string)

  datatype RowResult = Create | Update | NameMissing | InvalidCIDR | InvalidVLAN | UnknownSite | Duplicate | OverlapsRow | OverlapsExisting

  predicate IsError(r: RowResult) {
    !r.Create? && !r.Update?
  }

  datatype Report = Report(rows: seq<RowResult>, errors: nat, created: nat, updated: nat)

  function Cidr(row: CsvRow): Prefix
    requires row.cidr.Some?
  {
    Masked(row.cidr.value)
  }

  predicate Exists(t: Table, cidr: Prefix) {
    exists id :: id in t && t[id].cidr == cidr
  }

  /** The verdict on a row, given the rows accepted before it. */
  function Verdict(row: CsvRow, accepted: seq<Subnet>, t: Table, sites: map<string, string>): RowResult {
    if row.name == "" then NameMissing
    else if row.cidr.None? then InvalidCIDR
    else if row.vlan.BadVlan? then InvalidVLAN
    else if row.site != "" && row.site !in sites then UnknownSite
    else
      var cidr := Cidr(row);
      if exists i :: 0 <= i < |accepted| && accepted[i].cidr == cidr then Duplicate
      else if exists i :: 0 <= i < |accepted| && Overlaps(accepted[i].cidr, cidr) then OverlapsRow
      else if Exists(t, cidr) then Update
      else if exists id :: id in t && Overlaps(t[id].cidr, cidr) then OverlapsExisting
      else Create
  }

  function ImportOf(row: CsvRow, sites: map<string, string>): Subnet
    requires row.cidr.Some? && !row.vlan.BadVlan? && (row.site != "" ==> row.site in sites)
  {
    Subnet(Cidr(row), if row.site == "" then "" else sites[row.site], row.name,
           if row.vlan.Vlan? then Some(row.vlan.n) else None, row.description)
  }

  /** The preview so far, and the rows it would write. */
  datatype Progress = Progress(report: Report, imports: seq<Subnet>)

  function Judged(p: Progress, row: CsvRow, t: Table, sites: map<string, string>): Progress {
    var v, r := Verdict(row, p.imports, t, sites), p.report;
    if IsError(v) then Progress(r.(rows := r.rows + [v], errors := r.errors + 1), p.imports)
    else
      var counted := if v == Update then r.(rows := r.rows + [v], updated := r.updated + 1) else r.(rows := r.rows + [v], created := r.created + 1);
      Progress(counted, p.imports + [ImportOf(row, sites)])
  }

  function Validated(rows: seq<CsvRow>, t: Table, sites: map<string, string>): Progress {
    if rows == [] then Progress(Report([], 0, 0, 0), [])
    else Judged(Validated(rows[..|rows| - 1], t, sites), rows[|rows| - 1], t, sites)
  }

  function Accepted(rows: seq<CsvRow>, t: Table, sites: map<string, string>): seq<Subnet> {
    Validated(rows, t, sites).imports
  }

  function Reported(rows: seq<CsvRow>, t: Table, sites: map<string, string>): Report {
    Validated(rows, t, sites).report
  }

  ghost function Imported(t: Table, rows: seq<CsvRow>, sites: map<string, string>, ids: seq<string>): Table
    requires |ids| == |rows|
  {
    ReportAddsUp(rows, t, sites);
    if Reported(rows, t, sites).errors == 0 then Upserted(t, Accepted(rows, t, sites), ids) else t
  }

  /** The counters tell the verdicts apart, and exactly the rows without an error are to be written. */
  ghost predicate AddsUp(p: Progress) {
    var r := p.report;
    && r.created == multiset(r.rows)[Create] && r.updated == multiset(r.rows)[Update]
    && r.errors + r.created + r.updated == |r.rows| && |p.imports| == r.created + r.updated
    && (r.errors == 0 <==> forall i :: 0 <= i < |r.rows| ==> !IsError(r.rows[i]))
  }

  lemma JudgedAddsUp(p: Progress, row: CsvRow, t: Table, sites: map<string, string>)
    requires AddsUp(p)
    ensures AddsUp(Judged(p, row, t, sites))
    ensures Judged(p, row, t, sites).report.rows == p.report.rows + [Verdict(row, p.imports, t, sites)]
  {
    var rows, rows' := p.report.rows, Judged(p, row, t, sites).report.rows;
    assert rows'[|rows|] == Verdict(row, p.imports, t, sites);
    assert forall i :: 0 <= i < |rows| ==> rows'[i] == rows[i];
  }

  lemma {:induction false} ReportAddsUp(rows: seq<CsvRow>, t: Table, sites: map<string, string>)
    ensures AddsUp(Validated(rows, t, sites)) && |Reported(rows, t, sites).rows| == |rows|
  {
    if rows != [] {
      ReportAddsUp(rows[..|rows| - 1], t, sites);
      JudgedAddsUp(Validated(rows[..|rows| - 1], t, sites), rows[|rows| - 1], t, sites);
    }
  }

  /** Each row is judged against the rows accepted before it. */
  lemma {:induction false} RowIsJudged(rows: seq<CsvRow>, i: nat, t: Table, sites: map<string, string>)
    requires i < |rows|
    ensures |Reported(rows, t, sites).rows| == |rows|
    ensures Reported(rows, t, sites).rows[i] == Verdict(rows[i], Accepted(rows[..i], t, sites), t, sites)
  {
    var n := |rows| - 1;
    LastRowIsJudged(rows, t, sites);
    if i < n {
      RowIsJudged(rows[..n], i, t, sites);
      assert rows[..n][..i] == rows[..i];
    }
  }

  lemma LastRowIsJudged(rows: seq<CsvRow>, t: Table, sites: map<string, string>)
    requires rows != []
    ensures var n := |rows| - 1;
      && |Reported(rows[..n], t, sites).rows| == n
      && Reported(rows, t, sites).rows == Reported(rows[..n], t, sites).rows + [Verdict(rows[n], Accepted(rows[..n], t, sites), t, sites)]
  {
    var n := |rows| - 1;
    ReportAddsUp(rows[..n], t, sites);
    JudgedAddsUp(Validated(rows[..n], t, sites), rows[n], t, sites);
  }

  /** The row's network meets the network of a row accepted before it, or of a stored subnet. */
  ghost predicate MeetsAccepted(cidr: Prefix, accepted: seq<Subnet>) {
    exists i :: 0 <= i < |accepted| && !Disjoint(accepted[i].cidr, cidr)
  }

  ghost predicate MeetsStored(cidr: Prefix, t: Table) {
    exists id :: id in t && !Disjoint(t[id].cidr, cidr)
  }

  predicate CellsRight(row: CsvRow, sites: map<string, string>) {
    row.name != "" && row.cidr.Some? && !row.vlan.BadVlan? && (row.site == "" || row.site in sites)
  }

  /** The cells are looked at in order, and the first wrong one is reported. */
  lemma WrongCellIs(row: CsvRow, accepted: seq<Subnet>, t: Table, sites: map<string, string>)
    ensures var v := Verdict(row, accepted, t, sites);
      && (v == NameMissing <==> row.name == "")
      && (v == InvalidCIDR <==> row.name != "" && row.cidr.None?)
      && (v == InvalidVLAN <==> row.name != "" && row.cidr.Some? && row.vlan.BadVlan?)
      && (v == UnknownSite <==> row.name != "" && row.cidr.Some? && !row.vlan.BadVlan? && row.site != "" && row.site !in sites)
  {
  }

  /** With the cells right the verdict is one on networks: a row is new exactly when it shares no address with anything, and an update exactly when it is a stored network and meets no accepted row. */
  lemma NetworkVerdictIs(row: CsvRow, accepted: seq<Subnet>, t: Table, sites: map<string, string>)
    requires CellsRight(row, sites)
    ensures var v, cidr := Verdict(row, accepted, t, sites), Masked(row.cidr.value);
      && (v == Duplicate <==> exists i :: 0 <= i < |accepted| && accepted[i].cidr == cidr)
      && (v == OverlapsRow <==> v != Duplicate && MeetsAccepted(cidr, accepted))
      && (v == Update <==> !MeetsAccepted(cidr, accepted) && exists id :: id in t && t[id].cidr == cidr)
      && (v == OverlapsExisting <==> !MeetsAccepted(cidr, accepted) && MeetsStored(cidr, t) && !exists id :: id in t && t[id].cidr == cidr)
      && (v == Create <==> !MeetsAccepted(cidr, accepted) && !MeetsStored(cidr, t))
  {
    var cidr := Masked(row.cidr.value);
    Nonempty(cidr);
    forall i | 0 <= i < |accepted|
      ensures Overlaps(accepted[i].cidr, cidr) <==> !Disjoint(accepted[i].cidr, cidr)
    {
      OverlapsIsIntersection(accepted[i].cidr, cidr);
    }
    forall id | id in t
      ensures Overlaps(t[id].cidr, cidr) <==> !Disjoint(t[id].cidr, cidr)
    {
      OverlapsIsIntersection(t[id].cidr, cidr);
    }
  }

  /** The subnet a row asks for, column by column. */
  ghost predicate AsksFor(row: CsvRow, sites: map<string, string>, s: Subnet) {
    && CellsRight(row, sites) && s.name == row.name && s.description == row.description
    && IsMasked(s.cidr) && s.cidr.bits == row.cidr.value.bits && (forall a: Addr :: In(a, s.cidr) <==> In(a, row.cidr.value))
    && s.site == (if row.site == "" then "" else sites[row.site])
    && s.vlan == (match row.vlan case Vlan(n) => Some(n) case _ => None)
  }

  lemma AcceptedAsAsked(row: CsvRow, accepted: seq<Subnet>, t: Table, sites: map<string, string>)
    requires !IsError(Verdict(row, accepted, t, sites))
    ensures CellsRight(row, sites) && AsksFor(row, sites, ImportOf(row, sites))
  {
    WrongCellIs(row, accepted, t, sites);
    MaskedDenotesTheSame(row.cidr.value);
  }

  lemma LastIsClean(rows: seq<CsvRow>, t: Table, sites: map<string, string>)
    requires rows != [] && Reported(rows, t, sites).errors == 0
    ensures var n := |rows| - 1;
      && Reported(rows[..n], t, sites).errors == 0 && CellsRight(rows[n], sites)
      && AsksFor(rows[n], sites, ImportOf(rows[n], sites))
      && Accepted(rows, t, sites) == Accepted(rows[..n], t, sites) + [ImportOf(rows[n], sites)]
  {
    var n := |rows| - 1;
    assert !IsError(Verdict(rows[n], Accepted(rows[..n], t, sites), t, sites));
    AcceptedAsAsked(rows[n], Accepted(rows[..n], t, sites), t, sites);
  }

  /** A file without an error is written whole: row by row the subnets its rows ask for. */
  lemma {:induction false} CleanFileIsWhole(rows: seq<CsvRow>, t: Table, sites: map<string, string>)
    requires Reported(rows, t, sites).errors == 0
    ensures var imports := Accepted(rows, t, sites);
      |imports| == |rows| && forall i :: 0 <= i < |rows| ==> AsksFor(rows[i], sites, imports[i])
  {
    if rows != [] {
      var n := |rows| - 1;
      LastIsClean(rows, t, sites);
      CleanFileIsWhole(rows[..n], t, sites);
      assert forall i :: 0 <= i < n ==> rows[..n][i] == rows[i];
    }
  }

  /** `validateSubnets`. The file is checked against one snapshot of the table. */
  method ValidateSubnets(rows: seq<CsvRow>, t: Table, sites: map<string, string>) returns (res: Report, imports: seq<Subnet>)
    ensures res == Reported(rows, t, sites)
    ensures imports == Accepted(rows, t, sites)
  {
    imports := [];
    var results, errors, created, updated := [], 0, 0, 0;
    for n := 0 to |rows|
      invariant Progress(Report(results, errors, created, updated), imports) == Validated(rows[..n], t, sites)
    {
      assert rows[..n + 1][..n] == rows[..n];
      var row := rows[n];
      var verdict := JudgeRow(row, imports, t, sites);
      results := results + [verdict];
      if IsError(verdict) {
        errors := errors + 1;
        continue;
      }
      if verdict == Update {
        updated := updated + 1;
      } else {
        created := created + 1;
      }
      imports := imports + [ImportOf(row, sites)];
    }
    assert rows[..|rows|] == rows;
    res := Report(results, errors, created, updated);
  }

  /** The checks of one row, in the order in which the program makes them. */
  method JudgeRow(row: CsvRow, accepted: seq<Subnet>, t: Table, sites: map<string, string>) returns (r: RowResult)
    ensures r == Verdict(row, accepted, t, sites)
  {
    if row.name == "" {
      return NameMissing;
    }
    if row.cidr.None? {
      return InvalidCIDR;
    }
    if row.vlan.BadVlan? {
      return InvalidVLAN;
    }
    if row.site != "" && row.site !in sites {
      return UnknownSite;
    }
    var cidr := Cidr(row);
    if exists i :: 0 <= i < |accepted| && accepted[i].cidr == cidr {
      return Duplicate;
    }
    for i := 0 to |accepted|
      invariant forall k :: 0 <= k < i ==> !Overlaps(accepted[k].cidr, cidr)
    {
      if Overlaps(accepted[i].cidr, cidr) {
        return OverlapsRow;
      }
    }
    if Exists(t, cidr) {
      return Update;
    }
    var rest := t.Keys;
    while rest != {}
      invariant rest <= t.Keys
      invariant forall id :: id in t && id !in rest ==> !Overlaps(t[id].cidr, cidr)
      decreases rest
    {
      var id :| id in rest;
      if Overlaps(t[id].cidr, cidr) {
        return OverlapsExisting;
      }
      rest := rest - {id};
    }
    return Create;
  }

  /** Rows that can be upserted together: disjoint among themselves, and equal to or disjoint from each stored subnet. */
  ghost predicate Compatible(rows: seq<Subnet>, t: Table) {
    && (forall i :: 0 <= i < |rows| ==> IsMasked(rows[i].cidr))
    && (forall i, j :: 0 <= i < j < |rows| ==> Disjoint(rows[i].cidr, rows[j].cidr))
    && (forall i, id :: 0 <= i < |rows| && id in t ==> rows[i].cidr == t[id].cidr || Disjoint(rows[i].cidr, t[id].cidr))
  }

  /** What `validateSubnets` accepts, exact-CIDR updates included, overlaps nothing. */
  lemma {:induction false} AcceptedAreDisjoint(rows: seq<CsvRow>, t: Table, sites: map<string, string>)
    requires Valid(t)
    ensures Compatible(Accepted(rows, t, sites), t)
  {
    if rows != [] {
      var n := |rows| - 1;
      var before := Accepted(rows[..n], t, sites);
      AcceptedAreDisjoint(rows[..n], t, sites);
      if !IsError(Verdict(rows[n], before, t, sites)) {
        var cidr := Cidr(rows[n]);
        MaskedDenotesTheSame(rows[n].cidr.value);
        forall i | 0 <= i < |before|
          ensures Disjoint(before[i].cidr, cidr)
        {
          OverlapsIsIntersection(before[i].cidr, cidr);
        }
        forall id | id in t
          ensures cidr == t[id].cidr || Disjoint(cidr, t[id].cidr)
        {
          OverlapsIsIntersection(t[id].cidr, cidr);
        }
      }
    }
  }

  lemma UpsertStep(t: Table, row: Subnet, id: string)
    requires Valid(t) && Compatible([row], t) && id !in t
    ensures Valid(Upsert(t, row, id))
    ensures forall k :: k in Upsert(t, row, id) ==> Upsert(t, row, id)[k] == row || (k in t && Upsert(t, row, id)[k] == t[k])
    ensures Upsert(t, row, id).Keys <= t.Keys + {id}
    ensures exists k :: k in Upsert(t, row, id) && Upsert(t, row, id)[k] == row
  {
    assert [row][0] == row;
    var t' := Upsert(t, row, id);
    if exists k :: k in t && t[k].cidr == row.cidr {
      var k :| k in t && t[k].cidr == row.cidr;
      assert t'[k] == row;
      assert forall k :: k in t ==> t'[k].cidr == t[k].cidr;
    } else {
      assert t'[id] == row;
    }
  }

  /** After the first row the others can still be upserted. */
  lemma FirstRow(t: Table, rows: seq<Subnet>, ids: seq<string>)
    requires Valid(t) && Compatible(rows, t) && 0 < |rows| <= |ids|
    requires forall i, j :: 0 <= i < j < |ids| ==> ids[i] != ids[j]
    requires forall i :: 0 <= i < |ids| ==> ids[i] !in t
    ensures var v, rest := Upsert(t, rows[0], ids[0]), ids[1..];
      && Compatible([rows[0]], t) && Valid(v) && Compatible(rows[1..], v)
      && forall i :: 0 <= i < |rest| ==> rest[i] !in v
  {
    UpsertStep(t, rows[0], ids[0]);
  }

  lemma {:induction false} UpsertKeepsValid(t: Table, rows: seq<Subnet>, ids: seq<string>)
    requires Valid(t) && Compatible(rows, t) && |rows| <= |ids|
    requires forall i, j :: 0 <= i < j < |ids| ==> ids[i] != ids[j]
    requires forall i :: 0 <= i < |ids| ==> ids[i] !in t
    ensures Valid(Upserted(t, rows, ids))
    decreases |rows|
  {
    if rows != [] {
      FirstRow(t, rows, ids);
      UpsertKeepsValid(Upsert(t, rows[0], ids[0]), rows[1..], ids[1..]);
    }
  }

  /** A stored subnet takes over the row of its network, or stays when there is none. */
  ghost predicate StoredWritten(t: Table, rows: seq<Subnet>, u: Table, k: string)
    requires k in t && k in u
  {
    if exists i :: 0 <= i < |rows| && rows[i].cidr == t[k].cidr then u[k] in rows && u[k].cidr == t[k].cidr
    else u[k] == t[k]
  }

  /** A new subnet is a row whose network was not stored. */
  ghost predicate NewWritten(t: Table, rows: seq<Subnet>, u: Table, k: string)
    requires k in u
  {
    u[k] in rows && forall j :: j in t ==> t[j].cidr != u[k].cidr
  }

  ghost predicate Stored(u: Table, row: Subnet) {
    exists k :: k in u && u[k] == row
  }

  /** The table once the rows are written: every row is there, the stored subnets keep their ids, and nothing else changes. */
  ghost predicate RowsWritten(t: Table, rows: seq<Subnet>, u: Table) {
    && t.Keys <= u.Keys
    && (forall k :: k in t ==> StoredWritten(t, rows, u, k))
    && (forall k :: k in u && k !in t ==> NewWritten(t, rows, u, k))
    && (forall i :: 0 <= i < |rows| ==> Stored(u, rows[i]))
  }

  lemma OneRowWritten(t: Table, row: Subnet, id: string)
    requires Valid(t) && Compatible([row], t) && id !in t
    ensures RowsWritten(t, [row], Upsert(t, row, id))
  {
    var u := Upsert(t, row, id);
    assert row in [row] && [row][0] == row;
    if k :| k in t && t[k].cidr == row.cidr {
      assert u[k] == row;
    } else {
      assert u[id] == row;
    }
  }

  /** Distinct networks: no later row has the network of an earlier one. */
  lemma OtherNetwork(rows: seq<Subnet>, i: nat, j: nat)
    requires i < j < |rows| && Disjoint(rows[i].cidr, rows[j].cidr)
    ensures rows[i].cidr != rows[j].cidr
  {
    Nonempty(rows[i].cidr);
  }

  ghost predicate Apart(row: Subnet, rest: seq<Subnet>) {
    forall i :: 0 <= i < |rest| ==> rest[i].cidr != row.cidr
  }

  lemma StoredInTurn(t: Table, row: Subnet, rest: seq<Subnet>, v: Table, u: Table, k: string)
    requires k in t && k in v && k in u && Apart(row, rest)
    requires StoredWritten(t, [row], v, k) && StoredWritten(v, rest, u, k)
    ensures StoredWritten(t, [row] + rest, u, k)
  {
    var rows := [row] + rest;
    assert rows[0] == row && [row][0] == row && forall i :: 0 <= i < |rest| ==> rows[i + 1] == rest[i];
    assert v[k].cidr == t[k].cidr;
  }

  lemma NewInTurn(t: Table, row: Subnet, rest: seq<Subnet>, v: Table, u: Table, k: string)
    requires k in u && k !in t && t.Keys <= v.Keys && Apart(row, rest)
    requires if k in v then NewWritten(t, [row], v, k) && StoredWritten(v, rest, u, k) else NewWritten(v, rest, u, k)
    requires forall j :: j in t ==> v[j].cidr == t[j].cidr
    ensures NewWritten(t, [row] + rest, u, k)
  {
    if k !in v {
      forall j | j in t
        ensures t[j].cidr != u[k].cidr
      {
        assert v[j].cidr != u[k].cidr;
      }
    }
  }

  lemma WrittenInTurn(t: Table, row: Subnet, rest: seq<Subnet>, v: Table, u: Table)
    requires RowsWritten(t, [row], v) && RowsWritten(v, rest, u) && Apart(row, rest)
    ensures RowsWritten(t, [row] + rest, u)
  {
    forall j | j in t
      ensures v[j].cidr == t[j].cidr
    {
      assert StoredWritten(t, [row], v, j);
    }
    forall k | k in t
      ensures StoredWritten(t, [row] + rest, u, k)
    {
      StoredInTurn(t, row, rest, v, u, k);
    }
    forall k | k in u && k !in t
      ensures NewWritten(t, [row] + rest, u, k)
    {
      NewInTurn(t, row, rest, v, u, k);
    }
    FirstStays(row, rest, v, u);
  }

  lemma FirstStays(row: Subnet, rest: seq<Subnet>, v: Table, u: Table)
    requires Stored(v, [row][0]) && RowsWritten(v, rest, u) && Apart(row, rest)
    ensures forall i :: 0 <= i < |[row] + rest| ==> Stored(u, ([row] + rest)[i])
  {
    var k :| k in v && v[k] == row;
    assert StoredWritten(v, rest, u, k) && u[k] == row;
  }

  /** An applied file writes its rows and nothing else. */
  lemma {:induction false} UpsertsWriteRows(t: Table, rows: seq<Subnet>, ids: seq<string>)
    requires Valid(t) && Compatible(rows, t) && |rows| <= |ids|
    requires forall i, j :: 0 <= i < j < |ids| ==> ids[i] != ids[j]
    requires forall i :: 0 <= i < |ids| ==> ids[i] !in t
    ensures RowsWritten(t, rows, Upserted(t, rows, ids))
    decreases |rows|
  {
    if rows != [] {
      var v, rest := Upsert(t, rows[0], ids[0]), rows[1..];
      FirstRow(t, rows, ids);
      OneRowWritten(t, rows[0], ids[0]);
      UpsertsWriteRows(v, rest, ids[1..]);
      FirstIsApart(rows);
      WrittenInTurn(t, rows[0], rest, v, Upserted(v, rest, ids[1..]));
      assert [rows[0]] + rest == rows;
    }
  }

  lemma FirstIsApart(rows: seq<Subnet>)
    requires rows != [] && forall i, j :: 0 <= i < j < |rows| ==> Disjoint(rows[i].cidr, rows[j].cidr)
    ensures Apart(rows[0], rows[1..])
  {
    forall i | 0 <= i < |rows[1..]|
      ensures rows[1..][i].cidr != rows[0].cidr
    {
      OtherNetwork(rows, 0, i + 1);
    }
  }

  lemma ErrorsAre(p: Progress)
    requires AddsUp(p)
    ensures p.report.errors == 0 <==> forall v :: v in p.report.rows ==> v == Create || v == Update
  {
    var rows := p.report.rows;
    if p.report.errors == 0 {
      forall v | v in rows
        ensures v == Create || v == Update
      {
        var i :| 0 <= i < |rows| && rows[i] == v;
        assert !IsError(rows[i]);
      }
    } else {
      var i :| 0 <= i < |rows| && IsError(rows[i]);
      assert rows[i] in rows;
    }
  }

  /** The confirmed import of a file: nothing when a row has an error, else exactly the subnets its rows ask for. */
  lemma FileIsWritten(t: Table, rows: seq<CsvRow>, sites: map<string, string>, ids: seq<string>)
    requires Valid(t) && |ids| == |rows|
    requires forall i, j :: 0 <= i < j < |ids| ==> ids[i] != ids[j]
    requires forall i :: 0 <= i < |ids| ==> ids[i] !in t
    ensures (exists v :: v in Reported(rows, t, sites).rows && v != Create && v != Update) ==> Imported(t, rows, sites, ids) == t
    ensures (forall v :: v in Reported(rows, t, sites).rows ==> v == Create || v == Update) ==>
      exists imports: seq<Subnet> :: |imports| == |rows| && RowsWritten(t, imports, Imported(t, rows, sites, ids))
        && forall i :: 0 <= i < |rows| ==> AsksFor(rows[i], sites, imports[i])
  {
    ReportAddsUp(rows, t, sites);
    ErrorsAre(Validated(rows, t, sites));
    if Reported(rows, t, sites).errors == 0 {
      AcceptedAreDisjoint(rows, t, sites);
      UpsertsWriteRows(t, Accepted(rows, t, sites), ids);
      CleanFileIsWhole(rows, t, sites);
    }
  }

  // ----- runs -----

  datatype Write =
    | Creation(input: Subnet, id: string)
    | Change(id: string, input: Subnet)
    | Deletion(id: string)
    | File(rows: seq<CsvRow>, sites: map<string, string>, ids: seq<string>)

  ghost predicate Admissible(t: Table, w: Write) {
    match w
    case Creation(input, id) => IsMasked(input.cidr) && id !in t
    case Change(id, input) => IsMasked(input.cidr) && id != ""
    case Deletion(_) => true
    case File(rows, _, ids) =>
      && |ids| == |rows| && (forall i, j :: 0 <= i < j < |ids| ==> ids[i] != ids[j])
      && forall i :: 0 <= i < |ids| ==> ids[i] !in t
  }

  ghost function AfterWrite(t: Table, w: Write): Table
    requires Admissible(t, w)
  {
    match w
    case Creation(input, id) => Created(t, input, id)
    case Change(id, input) => Updated(t, id, input)
    case Deletion(id) => t - {id}
    case File(rows, sites, ids) => Imported(t, rows, sites, ids)
  }

  /** `t'` is the table after the writes, made one after the other. */
  ghost predicate Reaches(t: Table, writes: seq<Write>, t': Table)
    decreases |writes|
  {
    if writes == [] then t == t'
    else Admissible(t, writes[0]) && Reaches(AfterWrite(t, writes[0]), writes[1..], t')
  }

  lemma WriteKeepsValid(t: Table, w: Write)
    requires Valid(t) && Admissible(t, w)
    ensures Valid(AfterWrite(t, w))
  {
    match w
    case Creation(input, id) => if !Taken(t, "", input.cidr) { CreateKeepsValid(t, input, id); }
    case Change(id, input) => if id in t && !Taken(t, id, input.cidr) { UpdateKeepsValid(t, id, input); }
    case Deletion(id) =>
    case File(rows, sites, ids) =>
      ReportAddsUp(rows, t, sites);
      AcceptedAreDisjoint(rows, t, sites);
      UpsertKeepsValid(t, Accepted(rows, t, sites), ids);
  }

  /** From an empty table, every run of forms and imports leaves the subnets pairwise disjoint. */
  lemma {:induction false} SubnetsStayDisjoint(t: Table, writes: seq<Write>, t': Table)
    requires Valid(t) && Reaches(t, writes, t')
    ensures Valid(t')
    decreases |writes|
  {
    if writes != [] {
      WriteKeepsValid(t, writes[0]);
      SubnetsStayDisjoint(AfterWrite(t, writes[0]), writes[1..], t');
    }
  }

  // ----- readers that rely on it -----

  /** At most one subnet contains an address, so every way of picking one picks the same. */
  lemma ContainingSubnetUnique(t: Table, a: Addr, i: string, j: string)
    requires Valid(t) && i in t && j in t
    requires Contains(t[i].cidr, a) && Contains(t[j].cidr, a)
    ensures i == j
  {
    ContainsIsMembership(t[i].cidr, a);
    ContainsIsMembership(t[j].cidr, a);
  }

  /** `containingSubnet`: the longest prefix that contains the address, over the table listed in any order. */
  method ContainingSubnet(listed: seq<string>, t: Table, a: Addr) returns (best: Option<string>)
    requires forall id :: id in listed <==> id in t
    ensures best.None? <==> forall id :: id in t ==> !In(a, t[id].cidr)
    ensures best.Some? ==> best.value in t && In(a, t[best.value].cidr)
    ensures best.Some? ==> forall id :: id in t && In(a, t[id].cidr) ==> t[id].cidr.bits <= t[best.value].cidr.bits
    ensures Valid(t) ==> forall id :: id in t && In(a, t[id].cidr) ==> best == Some(id)
  {
    best := None;
    var bestBits: int := -1;
    for i := 0 to |listed|
      invariant bestBits >= 0 <==> best.Some?
      invariant best.Some? ==> best.value in t && Contains(t[best.value].cidr, a) && bestBits == t[best.value].cidr.bits
      invariant forall k :: 0 <= k < i && Contains(t[listed[k]].cidr, a) ==> t[listed[k]].cidr.bits <= bestBits
    {
      var id := listed[i];
      if Contains(t[id].cidr, a) && t[id].cidr.bits > bestBits {
        best, bestBits := Some(id), t[id].cidr.bits;
      }
    }
    forall id | id in t
      ensures Contains(t[id].cidr, a) <==> In(a, t[id].cidr)
    {
      ContainsIsMembership(t[id].cidr, a);
    }
    if best.Some? && Valid(t) {
      forall id | id in t && In(a, t[id].cidr)
        ensures best == Some(id)
      {
        ContainingSubnetUnique(t, a, id, best.value);
      }
    }
  }

  /** `cidrsOverlap`: one network's address lies in the other. */
  predicate CidrsOverlap(p: Prefix, q: Prefix) {
    Contains(p, q.addr) || Contains(q, p.addr)
  }

  lemma CidrsOverlapIsIntersection(p: Prefix, q: Prefix)
    requires IsMasked(p) && IsMasked(q)
    ensures CidrsOverlap(p, q) <==> !Disjoint(p, q)
  {
    Nonempty(p);
    Nonempty(q);
    ContainsIsMembership(p, q.addr);
    ContainsIsMembership(q, p.addr);
    if q.bits <= p.bits {
      NestedOrDisjoint(p, q);
    } else {
      NestedOrDisjoint(q, p);
    }
  }

  /** `evaluateOverlaps`: the findings are the index pairs it reports. */
  method EvaluateOverlaps(subnets: seq<Prefix>) returns (findings: seq<(nat, nat)>)
    requires forall i :: 0 <= i < |subnets| ==> IsMasked(subnets[i])
    ensures forall i, j :: (i, j) in findings <==> 0 <= i < j < |subnets| && !Disjoint(subnets[i], subnets[j])
    ensures forall k, l :: 0 <= k < l < |findings| ==> findings[k] != findings[l]
  {
    findings := [];
    for i := 0 to |subnets|
      invariant forall x, y :: (x, y) in findings <==> 0 <= x < i && x < y < |subnets| && !Disjoint(subnets[x], subnets[y])
      invariant forall k, l :: 0 <= k < l < |findings| ==> findings[k] != findings[l]
    {
      for j := i + 1 to |subnets|
        invariant forall x, y :: (x, y) in findings <==>
          0 <= x <= i && x < y < (if x < i then |subnets| else j) && !Disjoint(subnets[x], subnets[y])
        invariant forall k, l :: 0 <= k < l < |findings| ==> findings[k] != findings[l]
      {
        CidrsOverlapIsIntersection(subnets[i], subnets[j]);
        if CidrsOverlap(subnets[i], subnets[j]) {
          assert forall k :: 0 <= k < |findings| ==> findings[k] in findings && findings[k] != (i, j);
          findings := findings + [(i, j)];
        }
      }
    }
  }

  /** In a table the program wrote, the overlap check finds nothing. */
  method EvaluateStoredOverlaps(t: Table, listed: seq<string>) returns (findings: seq<(nat, nat)>)
    requires Valid(t) && forall i :: 0 <= i < |listed| ==> listed[i] in t
    requires forall i, j :: 0 <= i < j < |listed| ==> listed[i] != listed[j]
    ensures findings == []
  {
    findings := EvaluateOverlaps(seq(|listed|, i requires 0 <= i < |listed| => t[listed[i]].cidr));
    SomePair(findings);
  }

  lemma SomePair(pairs: seq<(nat, nat)>)
    ensures pairs == [] || exists i, j :: (i, j) in pairs
  {
    if pairs != [] {
      assert (pairs[0].0, pairs[0].1) in pairs;
    }
  }
}
