/**
 The time a scan may take (internal/scanner/budget.go) and the deadlines the agent and
 the app derive from it. Durations are 64-bit counts of nanoseconds and wrap around.
 */
module Budget {
  import opened Prefix
  import opened Scope

  const TWO63 := 0x8000_0000_0000_0000
  const TWO64 := 0x1_0000_0000_0000_0000

  const SECOND := 1_000_000_000
  const GRACE := 30 * SECOND
  const HOST_DISCOVERY := 120 * SECOND
  const MAX_BUDGET := 4 * 3600 * SECOND

  type Int64 = x: int | -TWO63 <= x < TWO63

  /** Per-host timeouts are stored as 32-bit integers. */
  type Seconds = s: int | -0x8000_0000 <= s < 0x8000_0000

  /** Two's complement. */
  function Wrap(x: int): Int64 {
    (x + TWO63) % TWO64 - TWO63
  }

  lemma WrapFits(x: int)
    requires -TWO63 <= x < TWO63
    ensures Wrap(x) == x
  {
  }

  // ----- host count -----

  /** The hosts one target counts for. */
  function HostsIn(w: Written): nat {
    match w
    case Cidr(p) => Size(p)
    case Cidr6(bits) => Pow2(128 - bits)
    case Garbage(true) => 0
    case _ => 1
  }

  function Total(targets: seq<Written>): nat {
    if targets == [] then 0 else Total(targets[..|targets| - 1]) + HostsIn(targets[|targets| - 1])
  }

  ghost predicate IPv4Only(targets: seq<Written>) {
    forall i :: 0 <= i < |targets| ==> !targets[i].Cidr6?
  }

  lemma SizeBound(p: Prefix)
    ensures 1 <= Size(p) <= ADDRESS_SPACE
  {
    BaseInRange(p);
  }

  lemma {:induction false} TotalBound(targets: seq<Written>)
    requires IPv4Only(targets)
    ensures Total(targets) <= |targets| * ADDRESS_SPACE
  {
    if targets != [] {
      var last := targets[|targets| - 1];
      TotalBound(targets[..|targets| - 1]);
      if last.Cidr? {
        SizeBound(last.p);
      }
    }
  }

  /** `EstimateTargetHosts`; on fewer than 2^31 IPv4 targets its sum does not wrap. */
  method EstimateTargetHosts(targets: seq<Written>) returns (hosts: Int64)
    ensures hosts >= 1
    ensures IPv4Only(targets) && |targets| < 0x8000_0000 ==> hosts == if Total(targets) < 1 then 1 else Total(targets)
  {
    var total: Int64 := 0;
    for i := 0 to |targets|
      invariant IPv4Only(targets) && |targets| < 0x8000_0000 ==> total == Total(targets[..i])
    {
      ghost var small := IPv4Only(targets) && |targets| < 0x8000_0000;
      var w := targets[i];
      assert targets[..i + 1][..i] == targets[..i];
      if small {
        TotalBound(targets[..i]);
        if w.Cidr? {
          SizeBound(w.p);
        }
        WrapFits(HostsIn(w));
        WrapFits(total + HostsIn(w));
      }
      match w
      case Garbage(true) => continue;
      case Cidr(p) => total := Wrap(total + Wrap(Pow2(HostBits(p))));
      case Cidr6(bits) => total := Wrap(total + Wrap(Pow2(128 - bits)));
      case _ => total := Wrap(total + 1);
    }
    assert targets[..|targets|] == targets;
    if total < 1 {
      return 1;
    }
    return total;
  }

  // ----- what the count bounds -----

  ghost function Covered(targets: seq<Written>): set<Addr> {
    set a: Addr | InSome(a, targets)
  }

  predicate Between(low: nat, x: int, high: nat) {
    low <= x < high
  }

  ghost function Interval(low: nat, high: nat): set<int> {
    set x: int | low <= x < high && Between(low, x, high)
  }

  lemma {:induction false} IntervalSize(low: nat, high: nat)
    requires low <= high
    ensures |Interval(low, high)| == high - low
  {
    if low < high {
      IntervalSize(low, high - 1);
      assert forall x :: Between(low, x, high) <==> Between(low, x, high - 1) || x == high - 1;
      assert Interval(low, high) == Interval(low, high - 1) + {high - 1};
    } else {
      assert Interval(low, high) == {};
    }
  }

  lemma SubsetSize<T>(a: set<T>, b: set<T>)
    requires a <= b
    ensures |a| <= |b|
  {
    assert b == a + (b - a);
  }

  ghost function Denoted(w: Written): set<Addr> {
    set a: Addr | Denotes(w, a)
  }

  /** An IPv4 prefix or address counts for exactly the addresses it denotes; anything else that is not blank counts for one. */
  lemma DenotedSize(w: Written)
    ensures |Denoted(w)| <= HostsIn(w)
    ensures w.Cidr? || w.Host? ==> |Denoted(w)| == HostsIn(w)
    ensures w.Garbage? ==> HostsIn(w) == if w.blank then 0 else 1
  {
    var denoted := Denoted(w);
    match w
    case Cidr(p) =>
      BaseInRange(p);
      IntervalSize(Base(p), Base(p) + Size(p));
      var all: set<int> := denoted;
      assert forall x :: x in all <==> Between(Base(p), x, Base(p) + Size(p));
      assert all == Interval(Base(p), Base(p) + Size(p));
    case Host(h) => assert denoted == {h};
    case _ => assert denoted == {};
  }

  lemma CoveredSnoc(targets: seq<Written>)
    requires targets != []
    ensures var n := |targets| - 1;
      Covered(targets) == Covered(targets[..n]) + Denoted(targets[n])
  {
    var before, last := targets[..|targets| - 1], targets[|targets| - 1];
    assert targets == before + [last];
    forall a: Addr
      ensures InSome(a, targets) <==> InSome(a, before) || Denotes(last, a)
    {
      EntriesSnoc(before, last, a);
    }
  }

  /** The count is an upper bound on the number of distinct addresses the targets denote. */
  lemma {:induction false} TotalCovers(targets: seq<Written>)
    ensures |Covered(targets)| <= Total(targets)
  {
    if targets == [] {
      assert Covered(targets) == {};
    } else {
      var n := |targets| - 1;
      TotalCovers(targets[..n]);
      DenotedSize(targets[n]);
      CoveredSnoc(targets);
    }
  }

  /** The targets are prefixes and addresses no two of which share an address. */
  ghost predicate Apart(targets: seq<Written>) {
    && (forall i :: 0 <= i < |targets| ==> targets[i].Cidr? || targets[i].Host?)
    && forall i, j :: 0 <= i < j < |targets| ==> Denoted(targets[i]) !! Denoted(targets[j])
  }

  lemma LastIsApart(targets: seq<Written>)
    requires Apart(targets) && targets != []
    ensures var n := |targets| - 1;
      Apart(targets[..n]) && Covered(targets[..n]) !! Denoted(targets[n])
  {
    var n := |targets| - 1;
    assert forall i :: 0 <= i < n ==> targets[..n][i] == targets[i];
    forall a | a in Covered(targets[..n])
      ensures a !in Denoted(targets[n])
    {
      var i :| 0 <= i < n && Denotes(targets[..n][i], a);
      assert a in Denoted(targets[i]);
    }
  }

  /** On prefixes and addresses that do not overlap the count is the number of addresses to scan. */
  lemma {:induction false} TotalIsExact(targets: seq<Written>)
    requires Apart(targets)
    ensures |Covered(targets)| == Total(targets)
  {
    if targets == [] {
      assert Covered(targets) == {};
    } else {
      var n := |targets| - 1;
      LastIsApart(targets);
      TotalIsExact(targets[..n]);
      assert targets[n].Cidr? || targets[n].Host?;
      DenotedSize(targets[n]);
      CoveredSnoc(targets);
    }
  }

  lemma NonemptyTarget(targets: seq<Written>)
    requires Apart(targets) && targets != []
    ensures Total(targets) >= 1
  {
    var last := targets[|targets| - 1];
    if last.Cidr? {
      SizeBound(last.p);
    }
  }

  // ----- the budget -----

  /** `ScanBudget` is the capped budget, computed without overflow for every target list. */
  method ScanBudget(perHostSeconds: Seconds, targets: seq<Written>) returns (budget: Int64, ghost hosts: Int64)
    ensures perHostSeconds <= 0 ==> budget == 0
    ensures perHostSeconds > 0 ==>
      var full := (perHostSeconds * hosts + 150) * 1_000_000_000;
      hosts >= 1 && budget == if full <= 14_400_000_000_000 then full else 14_400_000_000_000
    ensures perHostSeconds > 0 && IPv4Only(targets) && |targets| < 0x8000_0000 ==>
      hosts == (if Total(targets) < 1 then 1 else Total(targets)) && hosts >= |Covered(targets)|
    ensures perHostSeconds > 0 && |targets| < 0x8000_0000 && Apart(targets) && targets != [] ==> hosts == |Covered(targets)|
  {
    hosts := 0;
    if perHostSeconds <= 0 {
      return 0, hosts;
    }
    WrapFits(perHostSeconds * SECOND);
    var perHost: Int64 := Wrap(perHostSeconds * SECOND);
    var estimate := EstimateTargetHosts(targets);
    hosts := estimate;
    TotalCovers(targets);
    if Apart(targets) && targets != [] {
      TotalIsExact(targets);
      NonemptyTarget(targets);
    }
    assert perHost * estimate + 150 * SECOND == (perHostSeconds * estimate + 150) * SECOND;
    budget := Capped(perHost, estimate);
  }

  /** The multiplication, behind the guard that keeps it from overflowing. */
  method Capped(perHost: Int64, hosts: Int64) returns (budget: Int64)
    requires perHost > 0 && hosts >= 1
    ensures budget == if perHost * hosts + 150 * SECOND <= MAX_BUDGET then perHost * hosts + 150 * SECOND else MAX_BUDGET
  {
    var most := MAX_BUDGET / perHost;
    Quotient(MAX_BUDGET, perHost, hosts);
    if hosts > most {
      return MAX_BUDGET;
    }
    ghost var product := perHost * hosts;
    Positive(perHost, hosts);
    WrapFits(product);
    WrapFits(product + HOST_DISCOVERY);
    WrapFits(product + HOST_DISCOVERY + GRACE);
    budget := Wrap(Wrap(Wrap(perHost * hosts) + HOST_DISCOVERY) + GRACE);
    if budget > MAX_BUDGET {
      budget := MAX_BUDGET;
    }
  }

  lemma Positive(x: int, y: int)
    requires x > 0 && y > 0
    ensures x * y > 0
  {
  }

  /** The guard before the multiplication is exact. */
  lemma Quotient(cap: nat, x: nat, n: nat)
    requires x > 0
    ensures n > cap / x <==> x * n > cap
  {
    var q := cap / x;
    assert cap == x * q + cap % x && 0 <= cap % x < x;
    if n > q {
      MulStep(q, n, x);
    } else if n < q {
      MulStep(n, q, x);
    }
  }

  /** The agent's deadline; 0 is none (internal/scanner/agent/agent.go). The app's waits longer by its own grace. */
  method Deadlines(perHostSeconds: Seconds, targets: seq<Written>) returns (agent: Int64, app: Int64)
    ensures app > 0
    ensures perHostSeconds > 0 ==> agent > 0 && app == agent + 60_000_000_000
    ensures perHostSeconds <= 0 ==> agent == 0 && app == 1_860_000_000_000
  {
    ghost var hosts;
    agent, hosts := ScanBudget(perHostSeconds, targets);
    var timeout := agent;
    if timeout <= 0 {
      timeout := 30 * 60 * SECOND;
    }
    if perHostSeconds > 0 {
      Positive(perHostSeconds * SECOND, hosts);
    }
    app := Wrap(timeout + 60 * SECOND);
  }
}
