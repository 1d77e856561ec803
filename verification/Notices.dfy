/**
 The notices a combined scan collects, and one host's enrichment passes
 (internal/scanner/agent/combined.go).
 */
module Notices {
  import opened Merge
  import opened Text

  /** One call on the collector. */
  datatype Note = NoteTarget(pass: string) | NoteWhole(pass: string, message: string)

  /** The collector's two maps: non-responses counted per pass, whole-pass conditions by "label NUL message". */
  datatype Collected = Collected(perTarget: map<string, nat>, wholePass: map<string, string>)

  const Empty := Collected(map[], map[])

  const Nul: char := '\0'

  function WholeKey(pass: string, message: string): string {
    pass + [Nul] + message
  }

  function Apply(c: Collected, n: Note): Collected {
    match n
    case NoteTarget(pass) =>
      var count := if pass in c.perTarget then c.perTarget[pass] else 0;
      c.(perTarget := c.perTarget[pass := count + 1])
    case NoteWhole(pass, message) =>
      c.(wholePass := c.wholePass[WholeKey(pass, message) := pass])
  }

  function ApplyAll(c: Collected, notes: seq<Note>): Collected
    decreases |notes|
  {
    if notes == [] then c else ApplyAll(Apply(c, notes[0]), notes[1..])
  }

  lemma {:induction false} ApplyAllAppend(c: Collected, xs: seq<Note>, ys: seq<Note>)
    ensures ApplyAll(c, xs + ys) == ApplyAll(ApplyAll(c, xs), ys)
    decreases |xs|
  {
    if xs == [] {
      assert xs + ys == ys;
    } else {
      assert (xs + ys)[1..] == xs[1..] + ys;
      ApplyAllAppend(Apply(c, xs[0]), xs[1..], ys);
    }
  }

  // ----- order does not matter -----

  /** A pass label is one of the program's literals and holds no NUL. */
  predicate Literal(n: Note) {
    Nul !in n.pass
  }

  /** The NUL separates label and message, so equal keys come from the same pass. */
  lemma {:induction false} WholeKeyInjective(l: string, m: string, l': string, m': string)
    requires Nul !in l && Nul !in l' && WholeKey(l, m) == WholeKey(l', m')
    ensures l == l' && m == m'
  {
    if l == "" || l' == "" {
      assert WholeKey(l, m)[0] == WholeKey(l', m')[0];
      if l != "" || l' != "" {
        assert false;
      }
      assert m == WholeKey(l, m)[1..] == WholeKey(l', m')[1..] == m';
    } else {
      assert l[0] == WholeKey(l, m)[0] == WholeKey(l', m')[0] == l'[0];
      assert WholeKey(l, m)[1..] == WholeKey(l[1..], m) && WholeKey(l', m')[1..] == WholeKey(l'[1..], m');
      WholeKeyInjective(l[1..], m, l'[1..], m');
      assert l == [l[0]] + l[1..] && l' == [l'[0]] + l'[1..];
    }
  }

  lemma NotesCommute(c: Collected, a: Note, b: Note)
    requires Literal(a) && Literal(b)
    ensures Apply(Apply(c, a), b) == Apply(Apply(c, b), a)
  {
    if a.NoteWhole? && b.NoteWhole? && WholeKey(a.pass, a.message) == WholeKey(b.pass, b.message) {
      WholeKeyInjective(a.pass, a.message, b.pass, b.message);
    }
  }

  lemma {:induction false} NoteMovesToFront(c: Collected, xs: seq<Note>, n: Note, ys: seq<Note>)
    requires Literal(n) && forall x :: x in xs ==> Literal(x)
    ensures ApplyAll(c, xs + [n] + ys) == ApplyAll(Apply(c, n), xs + ys)
    decreases |xs|
  {
    if xs == [] {
      assert xs + [n] + ys == [n] + ys && xs + ys == ys;
      assert ([n] + ys)[1..] == ys;
    } else {
      assert (xs + [n] + ys)[1..] == xs[1..] + [n] + ys;
      assert (xs + ys)[1..] == xs[1..] + ys;
      NoteMovesToFront(Apply(c, xs[0]), xs[1..], n, ys);
      NotesCommute(c, xs[0], n);
    }
  }

  /** A note taken out of turn leaves the collector as if it had been taken in its place. */
  lemma NoteTakenOutOfTurn(c: Collected, xs: seq<Note>, n: Note, ys: seq<Note>)
    requires Literal(n) && (forall x :: x in xs ==> Literal(x)) && (forall y :: y in ys ==> Literal(y))
    ensures ApplyAll(c, xs + [n] + ys) == Apply(ApplyAll(c, xs + ys), n)
  {
    NoteMovesToFront(c, xs, n, ys);
    NoteMovesToFront(c, xs + ys, n, []);
    assert xs + ys + [n] + [] == (xs + ys) + [n] && xs + ys + [] == xs + ys;
    ApplyAllAppend(c, xs + ys, [n]);
  }

  // ----- passes -----

  datatype ScanType = SNMPInventory | ARPTable | LLDPCDP | NameLookup | DNSLookup | DHCPLeases

  datatype ScanError = ScanError(target: string, message: string)

  /** What a backend answers for one sub-job. */
  datatype Reply = Failed(message: string) | Answered(obs: seq<Observation>, errs: seq<ScanError>)

  /** The backends as functions of the sub-job's type and targets. */
  type Backends = (ScanType, seq<string>) -> Reply

  /** The observations a piece of work yields and the notes it makes, in program order. */
  datatype Work = Work(obs: seq<Observation>, notes: seq<Note>)

  function Then(a: Work, b: Work): Work {
    Work(a.obs + b.obs, a.notes + b.notes)
  }

  /** What `strings.TrimSpace` trims: Unicode white space. */
  predicate Space(c: char) {
    || c in {' ', '\t', '\n', '\r', '\U{000B}', '\U{000C}', '\U{0085}', '\U{00A0}'}
    || '\U{2000}' <= c <= '\U{200A}'
    || c in {'\U{1680}', '\U{2028}', '\U{2029}', '\U{202F}', '\U{205F}', '\U{3000}'}
  }

  predicate Blank(s: string) {
    forall i :: 0 <= i < |s| ==> Space(s[i])
  }

  function NoteOf(pass: string, e: ScanError): Note {
    if Blank(e.target) then NoteWhole(pass, e.message) else NoteTarget(pass)
  }

  function NotesOf(pass: string, errs: seq<ScanError>): (notes: seq<Note>)
    ensures |notes| == |errs|
  {
    seq(|errs|, i requires 0 <= i < |errs| => NoteOf(pass, errs[i]))
  }

  function Pass(b: Backends, targets: seq<string>, scanType: ScanType, pass: string): Work {
    if |targets| == 0 then Work([], [])
    else match b(scanType, targets)
      case Failed(message) => Work([], [NoteWhole(pass, message)])
      case Answered(obs, errs) => Work(obs, NotesOf(pass, errs))
  }

  const INVENTORY := "SNMP inventory"
  const ARP := "ARP harvest"
  const NEIGHBORS := "LLDP/CDP neighbors"
  const NAMES := "name lookup"
  const DNS := "DNS lookup"
  const DHCP := "DHCP leases"
  const PER_HOST := "Per-host enrichment"
  const NO_HOSTS := "no live hosts discovered to query (SNMP, names, DNS)"

  /** The passes against one host: ARP and neighbors only when the inventory answered. */
  function HostWork(b: Backends, host: string): Work {
    var inventory := Pass(b, [host], SNMPInventory, INVENTORY);
    var snmp :=
      if inventory.obs == [] then inventory
      else Then(Then(inventory, Pass(b, [host], ARPTable, ARP)), Pass(b, [host], LLDPCDP, NEIGHBORS));
    Then(Then(snmp, Pass(b, [host], NameLookup, NAMES)), Pass(b, [host], DNSLookup, DNS))
  }

  /** Every note a host's passes make carries one of the literal labels. */
  lemma HostNotesAreLiteral(b: Backends, host: string)
    ensures forall n :: n in HostWork(b, host).notes ==> Literal(n)
  {
    PassNotesAreLiteral(b, [host], SNMPInventory, INVENTORY);
    PassNotesAreLiteral(b, [host], ARPTable, ARP);
    PassNotesAreLiteral(b, [host], LLDPCDP, NEIGHBORS);
    PassNotesAreLiteral(b, [host], NameLookup, NAMES);
    PassNotesAreLiteral(b, [host], DNSLookup, DNS);
  }

  lemma PassNotesAreLiteral(b: Backends, targets: seq<string>, scanType: ScanType, pass: string)
    requires Nul !in pass
    ensures forall n :: n in Pass(b, targets, scanType, pass).notes ==> Literal(n)
  {
    if |targets| > 0 && b(scanType, targets).Answered? {
      var errs := b(scanType, targets).errs;
      assert forall i :: 0 <= i < |errs| ==> NotesOf(pass, errs)[i].pass == pass;
    }
  }

  // ----- the collector and the passes as the program runs them -----

  /** An ignored notice of the job result, its wording left out. */
  datatype Notice = WholePassSkipped(pass: string, message: string) | HostsSkipped(pass: string, count: nat)

  function AfterNul(key: string): string {
    if key == "" then "" else if key[0] == Nul then key[1..] else AfterNul(key[1..])
  }

  lemma {:induction false} AfterNulOfKey(pass: string, message: string)
    requires Nul !in pass
    ensures AfterNul(WholeKey(pass, message)) == message
  {
    var key := WholeKey(pass, message);
    if pass == "" {
      assert key[1..] == message;
    } else {
      assert key[1..] == WholeKey(pass[1..], message);
      AfterNulOfKey(pass[1..], message);
    }
  }

  ghost predicate RendersAs(c: Collected, out: seq<Notice>, keys: seq<string>, labels: seq<string>) {
    && Ascending(keys) && Elements(keys) == c.wholePass.Keys
    && Ascending(labels) && Elements(labels) == c.perTarget.Keys
    && |out| == |keys| + |labels|
    && (forall i :: 0 <= i < |keys| ==> keys[i] in c.wholePass && out[i] == WholePassSkipped(c.wholePass[keys[i]], AfterNul(keys[i])))
    && (forall i :: 0 <= i < |labels| ==> labels[i] in c.perTarget && out[|keys| + i] == HostsSkipped(labels[i], c.perTarget[labels[i]]))
  }

  /** `out` lists the collected conditions in key order, then the counts in label order. */
  ghost predicate Renders(c: Collected, out: seq<Notice>) {
    exists keys, labels :: RendersAs(c, out, keys, labels)
  }

  /** The rendering does not depend on the order in which the maps are iterated. */
  lemma RenderingUnique(c: Collected, out: seq<Notice>, out': seq<Notice>)
    requires Renders(c, out) && Renders(c, out')
    ensures out == out'
  {
    var keys, labels :| RendersAs(c, out, keys, labels);
    var keys', labels' :| RendersAs(c, out', keys', labels');
    AscendingUnique(keys, keys');
    AscendingUnique(labels, labels');
    forall i | 0 <= i < |out|
      ensures out[i] == out'[i]
    {
      if i >= |keys| {
        var k := i - |keys|;
        assert labels[k] in c.perTarget && labels'[k] in c.perTarget;
      }
    }
  }

  class NoticeCollector {
    var perTarget: map<string, nat>
    var wholePass: map<string, string>

    ghost function State(): Collected
      reads this
    {
      Collected(perTarget, wholePass)
    }

    constructor ()
      ensures State() == Empty
    {
      perTarget := map[];
      wholePass := map[];
    }

    /** `noteTarget`. */
    method NoteOneTarget(pass: string)
      modifies this
      ensures State() == Apply(old(State()), NoteTarget(pass))
    {
      var count := if pass in perTarget then perTarget[pass] else 0;
      perTarget := perTarget[pass := count + 1];
    }

    /** `noteWhole`. */
    method NoteWholePass(pass: string, message: string)
      modifies this
      ensures State() == Apply(old(State()), NoteWhole(pass, message))
    {
      wholePass := wholePass[pass + [Nul] + message := pass];
    }

    /** `notices`. */
    method Notices() returns (out: seq<Notice>)
      ensures Renders(State(), out)
    {
      var wholeKeys := KeysInSomeOrder(wholePass.Keys);
      var keys := Sort(wholeKeys);
      out := [];
      for i := 0 to |keys|
        invariant |out| == i
        invariant forall k :: 0 <= k < i ==> keys[k] in wholePass && out[k] == WholePassSkipped(wholePass[keys[k]], AfterNul(keys[k]))
      {
        assert keys[i] in Elements(keys);
        out := out + [WholePassSkipped(wholePass[keys[i]], AfterNul(keys[i]))];
      }
      var someLabels := KeysInSomeOrder(perTarget.Keys);
      var labels := Sort(someLabels);
      for i := 0 to |labels|
        invariant |out| == |keys| + i
        invariant forall k :: 0 <= k < |keys| ==> keys[k] in wholePass && out[k] == WholePassSkipped(wholePass[keys[k]], AfterNul(keys[k]))
        invariant forall k :: 0 <= k < i ==> labels[k] in perTarget && out[|keys| + k] == HostsSkipped(labels[k], perTarget[labels[k]])
      {
        assert labels[i] in Elements(labels);
        out := out + [HostsSkipped(labels[i], perTarget[labels[i]])];
      }
      assert RendersAs(State(), out, keys, labels);
    }
  }

  /** Ranging over a map: every key once, in no particular order. */
  method KeysInSomeOrder(keys: set<string>) returns (r: seq<string>)
    ensures Elements(r) == keys
    ensures forall i, j :: 0 <= i < j < |r| ==> r[i] != r[j]
  {
    r := [];
    var rest := keys;
    while rest != {}
      invariant rest <= keys && Elements(r) == keys - rest
      invariant forall i, j :: 0 <= i < j < |r| ==> r[i] != r[j]
      decreases rest
    {
      var k :| k in rest;
      assert forall i :: 0 <= i < |r| ==> r[i] in Elements(r);
      assert Elements(r + [k]) == Elements(r) + {k};
      r := r + [k];
      rest := rest - {k};
    }
  }

  /** `runPass`. */
  method RunPass(b: Backends, targets: seq<string>, scanType: ScanType, pass: string, nc: NoticeCollector)
    returns (obs: seq<Observation>)
    modifies nc
    ensures obs == Pass(b, targets, scanType, pass).obs
    ensures nc.State() == ApplyAll(old(nc.State()), Pass(b, targets, scanType, pass).notes)
  {
    if |targets| == 0 {
      return [];
    }
    match b(scanType, targets) {
      case Failed(message) =>
        nc.NoteWholePass(pass, message);
        return [];
      case Answered(found, errs) =>
        ghost var notes := NotesOf(pass, errs);
        for i := 0 to |errs|
          invariant nc.State() == ApplyAll(old(nc.State()), notes[..i])
        {
          assert notes[..i + 1] == notes[..i] + [NoteOf(pass, errs[i])];
          ApplyAllAppend(old(nc.State()), notes[..i], [NoteOf(pass, errs[i])]);
          if Blank(errs[i].target) {
            nc.NoteWholePass(pass, errs[i].message);
          } else {
            nc.NoteOneTarget(pass);
          }
        }
        assert notes[..|errs|] == notes;
        return found;
    }
  }

  /** `enrichHost`. */
  method EnrichHost(b: Backends, host: string, nc: NoticeCollector) returns (out: seq<Observation>)
    modifies nc
    ensures out == HostWork(b, host).obs
    ensures nc.State() == ApplyAll(old(nc.State()), HostWork(b, host).notes)
  {
    ghost var start := nc.State();
    var target := [host];
    var inventory := RunPass(b, target, SNMPInventory, INVENTORY, nc);
    ghost var done := Pass(b, target, SNMPInventory, INVENTORY);
    out := inventory;
    if |inventory| > 0 {
      var arp := RunPass(b, target, ARPTable, ARP, nc);
      done := Extended(start, done, Pass(b, target, ARPTable, ARP));
      out := out + arp;
      var neighbors := RunPass(b, target, LLDPCDP, NEIGHBORS, nc);
      done := Extended(start, done, Pass(b, target, LLDPCDP, NEIGHBORS));
      out := out + neighbors;
    }
    var names := RunPass(b, target, NameLookup, NAMES, nc);
    done := Extended(start, done, Pass(b, target, NameLookup, NAMES));
    out := out + names;
    var dns := RunPass(b, target, DNSLookup, DNS, nc);
    done := Extended(start, done, Pass(b, target, DNSLookup, DNS));
    out := out + dns;
  }

  lemma Extended(start: Collected, done: Work, next: Work) returns (r: Work)
    ensures r == Then(done, next)
    ensures ApplyAll(ApplyAll(start, done.notes), next.notes) == ApplyAll(start, r.notes)
  {
    ApplyAllAppend(start, done.notes, next.notes);
    return Then(done, next);
  }
}
