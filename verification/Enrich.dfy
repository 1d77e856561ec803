/**
 The concurrent enrichment of a combined scan (internal/scanner/agent/combined.go)
 as a step system: a dispatcher that takes a semaphore slot per host, one worker per
 host, and a DHCP goroutine, all reporting to one collector. Every interleaving is
 shown to end with the result of the sequential host-order run.
 */
module Enrich {
  import opened Merge
  import opened Notices

  const WORKERS: nat := 16

  /** What the goroutines will do, the backends being functions of their sub-jobs. */
  datatype Plan = Plan(hosts: seq<Work>, dhcp: Work, lead: seq<Note>)

  ghost predicate LiteralPlan(p: Plan) {
    && (forall i :: 0 <= i < |p.hosts| ==> LiteralNotes(p.hosts[i].notes))
    && LiteralNotes(p.dhcp.notes) && LiteralNotes(p.lead)
    && (p.lead != [] ==> p.hosts == [])
  }

  ghost predicate LiteralNotes(notes: seq<Note>) {
    forall n :: n in notes ==> Literal(n)
  }

  function HostPlans(b: Backends, hosts: seq<string>): (r: seq<Work>)
    ensures |r| == |hosts|
  {
    seq(|hosts|, i requires 0 <= i < |hosts| => HostWork(b, hosts[i]))
  }

  /** The work `enrich` starts; without hosts the dispatcher notes just that. */
  function PlanOf(b: Backends, hosts: seq<string>, targets: seq<string>): Plan {
    Plan(HostPlans(b, hosts), Pass(b, targets, DHCPLeases, DHCP), if hosts == [] then [NoteWhole(PER_HOST, NO_HOSTS)] else [])
  }

  lemma PlanIsLiteral(b: Backends, hosts: seq<string>, targets: seq<string>)
    ensures LiteralPlan(PlanOf(b, hosts, targets))
  {
    PassNotesAreLiteral(b, targets, DHCPLeases, DHCP);
    forall i | 0 <= i < |hosts|
      ensures LiteralNotes(PlanOf(b, hosts, targets).hosts[i].notes)
    {
      HostNotesAreLiteral(b, hosts[i]);
    }
  }

  /** A goroutine: running with some notes made, its result stored, its slot released, gone. */
  datatype Task = NotStarted | Running(made: nat) | Stored | Released | Done

  datatype Dispatcher = Leading(made: nat) | At(next: nat) | Spawning(next: nat) | Joined | Finished

  /**
   `slots` is the number of tokens in the semaphore channel and `waiting` the counter
   of the wait group.
   */
  datatype State = State(
    dispatcher: Dispatcher, slots: nat, waiting: nat,
    workers: seq<Task>, perHost: seq<seq<Observation>>,
    dhcp: Task, dhcpObs: seq<Observation>,
    collected: Collected)

  ghost function Initial(p: Plan): State {
    State(Leading(0), 0, 0, seq(|p.hosts|, i => NotStarted), seq(|p.hosts|, i => []), Running(0), [], Empty)
  }

  datatype Step =
    | LeadNote | EnterLoop | Acquire | Spawn | JoinWorkers | JoinDhcp
    | WorkerNote(i: nat) | WorkerStore(i: nat) | WorkerRelease(i: nat) | WorkerExit(i: nat)
    | DhcpNote | DhcpStore | DhcpExit

  ghost predicate Enabled(p: Plan, s: State, t: Step) {
    match t
    case LeadNote => s.dispatcher.Leading? && s.dispatcher.made < |p.lead|
    case EnterLoop => s.dispatcher == Leading(|p.lead|)
    case Acquire => s.dispatcher.At? && s.dispatcher.next < |p.hosts| && s.slots < WORKERS
    case Spawn => s.dispatcher.Spawning? && s.dispatcher.next < |s.workers|
    case JoinWorkers => s.dispatcher == At(|p.hosts|) && s.waiting == 0
    case JoinDhcp => s.dispatcher.Joined? && s.dhcp.Done?
    case WorkerNote(i) => i < |s.workers| && i < |p.hosts| && s.workers[i].Running? && s.workers[i].made < |p.hosts[i].notes|
    case WorkerStore(i) => i < |s.workers| && i < |p.hosts| && i < |s.perHost| && s.workers[i] == Running(|p.hosts[i].notes|)
    case WorkerRelease(i) => i < |s.workers| && s.workers[i].Stored? && s.slots > 0
    case WorkerExit(i) => i < |s.workers| && s.workers[i].Released? && s.waiting > 0
    case DhcpNote => s.dhcp.Running? && s.dhcp.made < |p.dhcp.notes|
    case DhcpStore => s.dhcp == Running(|p.dhcp.notes|)
    case DhcpExit => s.dhcp.Stored?
  }

  ghost function Noted(s: State, n: Note): State {
    s.(collected := Apply(s.collected, n))
  }

  ghost function After(p: Plan, s: State, t: Step): State
    requires Enabled(p, s, t)
  {
    match t
    case LeadNote => Noted(s, p.lead[s.dispatcher.made]).(dispatcher := Leading(s.dispatcher.made + 1))
    case EnterLoop => s.(dispatcher := At(0))
    case Acquire => s.(dispatcher := Spawning(s.dispatcher.next), slots := s.slots + 1)
    case Spawn =>
      var i := s.dispatcher.next;
      s.(dispatcher := At(i + 1), waiting := s.waiting + 1, workers := s.workers[i := Running(0)])
    case JoinWorkers => s.(dispatcher := Joined)
    case JoinDhcp => s.(dispatcher := Finished)
    case WorkerNote(i) =>
      Noted(s, p.hosts[i].notes[s.workers[i].made]).(workers := s.workers[i := Running(s.workers[i].made + 1)])
    case WorkerStore(i) => s.(workers := s.workers[i := Stored], perHost := s.perHost[i := p.hosts[i].obs])
    case WorkerRelease(i) => s.(workers := s.workers[i := Released], slots := s.slots - 1)
    case WorkerExit(i) => s.(workers := s.workers[i := Done], waiting := s.waiting - 1)
    case DhcpNote => Noted(s, p.dhcp.notes[s.dhcp.made]).(dhcp := Running(s.dhcp.made + 1))
    case DhcpStore => s.(dhcp := Stored, dhcpObs := p.dhcp.obs)
    case DhcpExit => s.(dhcp := Done)
  }

  /** `s'` is reached from `s` by the given steps. */
  ghost predicate Runs(p: Plan, s: State, steps: seq<Step>, s': State)
    decreases |steps|
  {
    if steps == [] then s == s'
    else Enabled(p, s, steps[0]) && Runs(p, After(p, s, steps[0]), steps[1..], s')
  }

  // ----- counting -----

  predicate InFlight(t: Task) {
    t.Running?
  }

  predicate Holds(t: Task) {
    t.Running? || t.Stored?
  }

  predicate Alive(t: Task) {
    t.Running? || t.Stored? || t.Released?
  }

  function Count(tasks: seq<Task>, f: Task -> bool): nat {
    if tasks == [] then 0 else (if f(tasks[0]) then 1 else 0) + Count(tasks[1..], f)
  }

  lemma {:induction false} CountUpdate(tasks: seq<Task>, f: Task -> bool, i: nat, t: Task)
    requires i < |tasks|
    ensures Count(tasks[i := t], f) == Count(tasks, f) - (if f(tasks[i]) then 1 else 0) + (if f(t) then 1 else 0)
  {
    if i == 0 {
      assert tasks[i := t][1..] == tasks[1..];
    } else {
      assert tasks[i := t][1..] == tasks[1..][i - 1 := t];
      CountUpdate(tasks[1..], f, i - 1, t);
    }
  }

  lemma {:induction false} CountPositive(tasks: seq<Task>, f: Task -> bool)
    ensures Count(tasks, f) > 0 <==> exists i :: 0 <= i < |tasks| && f(tasks[i])
  {
    if tasks != [] {
      CountPositive(tasks[1..], f);
      if Count(tasks[1..], f) > 0 {
        var i :| 0 <= i < |tasks[1..]| && f(tasks[1..][i]);
        assert f(tasks[i + 1]);
      }
      forall i | 0 <= i < |tasks| && f(tasks[i])
        ensures Count(tasks, f) > 0
      {
        if i > 0 {
          assert f(tasks[1..][i - 1]);
        }
      }
    }
  }

  lemma {:induction false} CountWeaker(tasks: seq<Task>, f: Task -> bool, g: Task -> bool)
    requires forall t :: f(t) ==> g(t)
    ensures Count(tasks, f) <= Count(tasks, g)
  {
    if tasks != [] {
      CountWeaker(tasks[1..], f, g);
    }
  }

  // ----- the notes made so far, regardless of order -----

  ghost function Made(t: Task, w: Work): seq<Note> {
    match t
    case NotStarted => []
    case Running(made) => if made <= |w.notes| then w.notes[..made] else w.notes
    case _ => w.notes
  }

  ghost function AllMade(tasks: seq<Task>, works: seq<Work>): seq<Note>
    requires |tasks| == |works|
  {
    if tasks == [] then [] else Made(tasks[0], works[0]) + AllMade(tasks[1..], works[1..])
  }

  lemma {:induction false} AllMadeUpdate(tasks: seq<Task>, works: seq<Work>, i: nat, t: Task)
    returns (before: seq<Note>, after: seq<Note>)
    requires |tasks| == |works| && i < |tasks|
    ensures AllMade(tasks, works) == before + Made(tasks[i], works[i]) + after
    ensures AllMade(tasks[i := t], works) == before + Made(t, works[i]) + after
  {
    if i == 0 {
      assert tasks[i := t][1..] == tasks[1..];
      before, after := [], AllMade(tasks[1..], works[1..]);
    } else {
      assert tasks[i := t][1..] == tasks[1..][i - 1 := t];
      var first := Made(tasks[0], works[0]);
      var inner, rest := AllMadeUpdate(tasks[1..], works[1..], i - 1, t);
      assert tasks[1..][i - 1] == tasks[i] && works[1..][i - 1] == works[i];
      before, after := first + inner, rest;
      InFront(first, inner, Made(tasks[i], works[i]), rest);
      InFront(first, inner, Made(t, works[i]), rest);
      assert tasks[i := t][0] == tasks[0];
    }
  }

  lemma InFront(first: seq<Note>, x: seq<Note>, y: seq<Note>, z: seq<Note>)
    ensures first + (x + y + z) == (first + x) + y + z
  {
  }

  lemma {:induction false} AllMadeLiteral(tasks: seq<Task>, works: seq<Work>)
    requires |tasks| == |works| && forall i :: 0 <= i < |works| ==> LiteralNotes(works[i].notes)
    ensures LiteralNotes(AllMade(tasks, works))
  {
    if tasks != [] {
      AllMadeLiteral(tasks[1..], works[1..]);
      assert LiteralNotes(works[0].notes);
    }
  }

  ghost function LeadMade(d: Dispatcher, lead: seq<Note>): seq<Note> {
    if d.Leading? && d.made <= |lead| then lead[..d.made] else lead
  }

  // ----- the invariant -----

  ghost predicate TaskMatches(t: Task, w: Work, obs: seq<Observation>) {
    && (t.Running? ==> t.made <= |w.notes|)
    && obs == if t.NotStarted? || t.Running? then [] else w.obs
  }

  ghost predicate Shape(p: Plan, s: State) {
    && |s.workers| == |s.perHost| == |p.hosts|
    && (forall i :: 0 <= i < |p.hosts| ==> TaskMatches(s.workers[i], p.hosts[i], s.perHost[i]))
    && TaskMatches(s.dhcp, p.dhcp, s.dhcpObs) && !s.dhcp.NotStarted? && !s.dhcp.Released?
  }

  /** Exactly the hosts before the dispatcher's position have been started. */
  ghost predicate Position(p: Plan, s: State) {
    match s.dispatcher
    case Leading(made) => made <= |p.lead| && forall i :: 0 <= i < |s.workers| ==> s.workers[i].NotStarted?
    case At(next) => next <= |p.hosts| == |s.workers| && forall i :: 0 <= i < |s.workers| ==> (s.workers[i].NotStarted? <==> next <= i)
    case Spawning(next) => next < |p.hosts| == |s.workers| && forall i :: 0 <= i < |s.workers| ==> (s.workers[i].NotStarted? <==> next <= i)
    case Joined => forall i :: 0 <= i < |s.workers| ==> s.workers[i].Done?
    case Finished => s.dhcp.Done? && forall i :: 0 <= i < |s.workers| ==> s.workers[i].Done?
  }

  ghost predicate Counters(s: State) {
    && s.slots == Count(s.workers, Holds) + (if s.dispatcher.Spawning? then 1 else 0)
    && s.slots <= WORKERS
    && s.waiting == Count(s.workers, Alive)
  }

  /** The notes made so far, listed in the order of the sequential run. */
  ghost function Notes(p: Plan, s: State): seq<Note>
    requires |s.workers| == |p.hosts|
  {
    LeadMade(s.dispatcher, p.lead) + AllMade(s.workers, p.hosts) + Made(s.dhcp, p.dhcp)
  }

  ghost predicate Logged(p: Plan, s: State)
    requires |s.workers| == |p.hosts|
  {
    s.collected == ApplyAll(Empty, Notes(p, s))
  }

  ghost predicate Inv(p: Plan, s: State) {
    LiteralPlan(p) && Shape(p, s) && Position(p, s) && Counters(s) && Logged(p, s)
  }

  lemma {:induction false} CountNone(tasks: seq<Task>, f: Task -> bool)
    requires forall i :: 0 <= i < |tasks| ==> !f(tasks[i])
    ensures Count(tasks, f) == 0
  {
    CountPositive(tasks, f);
  }

  lemma {:induction false} NoneMade(tasks: seq<Task>, works: seq<Work>)
    requires |tasks| == |works| && forall i :: 0 <= i < |tasks| ==> tasks[i].NotStarted?
    ensures AllMade(tasks, works) == []
  {
    if tasks != [] {
      NoneMade(tasks[1..], works[1..]);
    }
  }

  lemma InitialInv(p: Plan)
    requires LiteralPlan(p)
    ensures Inv(p, Initial(p))
  {
    var s := Initial(p);
    CountNone(s.workers, Holds);
    CountNone(s.workers, Alive);
    NoneMade(s.workers, p.hosts);
  }

  function One(b: bool): nat {
    if b then 1 else 0
  }

  /** Moving one worker from one phase to another keeps the invariant when the books are kept. */
  lemma TaskMoved(p: Plan, s: State, s': State, i: nat, t: Task)
    requires LiteralPlan(p) && Shape(p, s) && Counters(s) && Logged(p, s) && i < |s.workers|
    requires s'.workers == s.workers[i := t] && |s'.perHost| == |s.perHost|
    requires forall k :: 0 <= k < |s.perHost| && k != i ==> s'.perHost[k] == s.perHost[k]
    requires TaskMatches(t, p.hosts[i], s'.perHost[i])
    requires s'.dhcp == s.dhcp && s'.dhcpObs == s.dhcpObs
    requires s'.slots + One(Holds(s.workers[i])) + One(s.dispatcher.Spawning?) == s.slots + One(Holds(t)) + One(s'.dispatcher.Spawning?)
    requires s'.slots <= WORKERS
    requires s'.waiting + One(Alive(s.workers[i])) == s.waiting + One(Alive(t))
    requires LeadMade(s'.dispatcher, p.lead) == LeadMade(s.dispatcher, p.lead)
    requires Took(s.collected, s'.collected, Made(s.workers[i], p.hosts[i]), Made(t, p.hosts[i]))
    ensures Shape(p, s') && Counters(s') && Logged(p, s')
  {
    assert Counters(s') by {
      CountUpdate(s.workers, Holds, i, t);
      CountUpdate(s.workers, Alive, i, t);
    }
    TaskNotesMoved(p, s.workers, i, t, LeadMade(s.dispatcher, p.lead), Made(s.dhcp, p.dhcp), s.collected, s'.collected);
  }

  lemma TaskNotesMoved(p: Plan, tasks: seq<Task>, i: nat, t: Task, lead: seq<Note>, dhcp: seq<Note>, c: Collected, c': Collected)
    requires LiteralPlan(p) && |tasks| == |p.hosts| && i < |tasks|
    requires LiteralNotes(lead) && LiteralNotes(dhcp)
    requires Took(c, c', Made(tasks[i], p.hosts[i]), Made(t, p.hosts[i]))
    requires c == ApplyAll(Empty, lead + AllMade(tasks, p.hosts) + dhcp)
    ensures c' == ApplyAll(Empty, lead + AllMade(tasks[i := t], p.hosts) + dhcp)
  {
    var before, after := AllMadeUpdate(tasks, p.hosts, i, t);
    AllMadeLiteral(tasks[i := t], p.hosts);
    var made, made' := Made(tasks[i], p.hosts[i]), Made(t, p.hosts[i]);
    LiteralParts(before, made', after);
    Regroup(lead, before, made, after, dhcp);
    Regroup(lead, before, made', after, dhcp);
    NotesGrow(lead + before, made, made', after + dhcp, c, c');
  }

  lemma Regroup(a: seq<Note>, b: seq<Note>, x: seq<Note>, c: seq<Note>, d: seq<Note>)
    ensures a + (b + x + c) + d == (a + b) + x + (c + d)
  {
  }

  lemma LiteralParts(x: seq<Note>, y: seq<Note>, z: seq<Note>)
    requires LiteralNotes(x + y + z)
    ensures LiteralNotes(x) && LiteralNotes(y) && LiteralNotes(z)
  {
    forall n | n in x || n in y || n in z
      ensures n in x + y + z
    {
    }
  }

  /** The collector took the one note by which `made'` extends `made`, or none. */
  ghost predicate Took(c: Collected, c': Collected, made: seq<Note>, made': seq<Note>) {
    || (made' == made && c' == c)
    || (|made'| == |made| + 1 && made' == made + [made'[|made|]] && c' == Apply(c, made'[|made|]))
  }

  lemma NotesGrow(before: seq<Note>, made: seq<Note>, made': seq<Note>, after: seq<Note>, c: Collected, c': Collected)
    requires Took(c, c', made, made')
    requires LiteralNotes(before) && LiteralNotes(made') && LiteralNotes(after)
    requires c == ApplyAll(Empty, before + made + after)
    ensures c' == ApplyAll(Empty, before + made' + after)
  {
    if made' != made {
      var n := made'[|made|];
      NoteTakenOutOfTurn(Empty, before + made, n, after);
      assert before + made' + after == (before + made) + [n] + after;
    }
  }

  predicate OfWorker(t: Step) {
    t.WorkerNote? || t.WorkerStore? || t.WorkerRelease? || t.WorkerExit?
  }

  lemma WorkerStepKeepsPosition(p: Plan, s: State, t: Step)
    requires Shape(p, s) && Position(p, s) && Enabled(p, s, t) && OfWorker(t)
    ensures Position(p, After(p, s, t))
  {
    var i, s' := t.i, After(p, s, t);
    assert !s.workers[i].NotStarted? && !s.workers[i].Done? && !s'.workers[i].NotStarted?;
    assert forall k :: 0 <= k < |s.workers| && k != i ==> s'.workers[k] == s.workers[k];
  }

  lemma WorkerTook(p: Plan, s: State, t: Step)
    requires Shape(p, s) && Enabled(p, s, t) && OfWorker(t)
    ensures var s', i := After(p, s, t), t.i;
      Took(s.collected, s'.collected, Made(s.workers[i], p.hosts[i]), Made(s'.workers[i], p.hosts[i]))
  {
    var i, notes := t.i, p.hosts[t.i].notes;
    assert notes[..|notes|] == notes;
    if t.WorkerNote? {
      var k := s.workers[i].made;
      assert notes[..k + 1] == notes[..k] + [notes[k]];
    }
  }

  lemma WorkerStepPreservesInv(p: Plan, s: State, t: Step)
    requires Inv(p, s) && Enabled(p, s, t) && OfWorker(t)
    ensures Inv(p, After(p, s, t))
  {
    WorkerStepKeepsPosition(p, s, t);
    WorkerTook(p, s, t);
    var s' := After(p, s, t);
    TaskMoved(p, s, s', t.i, s'.workers[t.i]);
  }

  lemma LeadNotePreservesInv(p: Plan, s: State)
    requires Inv(p, s) && Enabled(p, s, LeadNote)
    ensures Inv(p, After(p, s, LeadNote))
  {
    var s' := After(p, s, LeadNote);
    // The lead note is made only when there are no hosts.
    assert s.workers == [] && AllMade(s.workers, p.hosts) == [];
    var made, made', dhcp := LeadMade(s.dispatcher, p.lead), LeadMade(s'.dispatcher, p.lead), Made(s.dhcp, p.dhcp);
    assert Notes(p, s) == [] + made + dhcp && Notes(p, s') == [] + made' + dhcp;
    NotesGrow([], made, made', dhcp, s.collected, s'.collected);
  }

  lemma DispatcherStepPreservesInv(p: Plan, s: State, t: Step)
    requires Inv(p, s) && Enabled(p, s, t)
    requires t.EnterLoop? || t.Acquire? || t.Spawn? || t.JoinWorkers? || t.JoinDhcp?
    ensures Inv(p, After(p, s, t))
  {
    match t
    case EnterLoop => assert p.lead[..|p.lead|] == p.lead;
    case Spawn => SpawnPreservesInv(p, s);
    case JoinWorkers => AllAreDone(s.workers);
    case _ =>
  }

  lemma AllAreDone(workers: seq<Task>)
    requires Count(workers, Alive) == 0
    ensures forall i :: 0 <= i < |workers| ==> !Alive(workers[i])
  {
    CountPositive(workers, Alive);
  }

  lemma SpawnPreservesInv(p: Plan, s: State)
    requires Inv(p, s) && Enabled(p, s, Spawn)
    ensures Inv(p, After(p, s, Spawn))
  {
    var i, s' := s.dispatcher.next, After(p, s, Spawn);
    assert p.hosts[i].notes[..0] == [];
    TaskMoved(p, s, s', i, Running(0));
    assert forall k :: 0 <= k < |s.workers| && k != i ==> s'.workers[k] == s.workers[k];
  }

  /** The DHCP goroutine comes last in the sequential order: its next note is appended. */
  lemma LastNoteLogged(before: seq<Note>, made: seq<Note>, n: Note, c: Collected)
    requires c == ApplyAll(Empty, before + made)
    ensures Apply(c, n) == ApplyAll(Empty, before + (made + [n]))
  {
    ApplyAllAppend(Empty, before + made, [n]);
    assert before + (made + [n]) == before + made + [n];
  }

  lemma DhcpNotePreservesInv(p: Plan, s: State)
    requires Inv(p, s) && Enabled(p, s, DhcpNote)
    ensures Inv(p, After(p, s, DhcpNote))
  {
    var notes, k := p.dhcp.notes, s.dhcp.made;
    assert notes[..k + 1] == notes[..k] + [notes[k]];
    LastNoteLogged(LeadMade(s.dispatcher, p.lead) + AllMade(s.workers, p.hosts), notes[..k], notes[k], s.collected);
  }

  lemma StepPreservesInv(p: Plan, s: State, t: Step)
    requires Inv(p, s) && Enabled(p, s, t)
    ensures Inv(p, After(p, s, t))
  {
    if OfWorker(t) {
      WorkerStepPreservesInv(p, s, t);
    } else if t.LeadNote? {
      LeadNotePreservesInv(p, s);
    } else if t.DhcpNote? {
      DhcpNotePreservesInv(p, s);
    } else if t.DhcpStore? || t.DhcpExit? {
      assert p.dhcp.notes[..|p.dhcp.notes|] == p.dhcp.notes;
    } else {
      DispatcherStepPreservesInv(p, s, t);
    }
  }

  lemma {:induction false} RunPreservesInv(p: Plan, s: State, steps: seq<Step>, s': State)
    requires Inv(p, s) && Runs(p, s, steps, s')
    ensures Inv(p, s')
    decreases |steps|
  {
    if steps != [] {
      StepPreservesInv(p, s, steps[0]);
      RunPreservesInv(p, After(p, s, steps[0]), steps[1..], s');
    }
  }

  // ----- the results -----

  function Concat(lists: seq<seq<Observation>>): seq<Observation> {
    if lists == [] then [] else lists[0] + Concat(lists[1..])
  }

  /** The per-host findings in host order, then DHCP. */
  function Output(s: State): seq<Observation> {
    Concat(s.perHost) + s.dhcpObs
  }

  function SequentialObs(works: seq<Work>): seq<Observation> {
    if works == [] then [] else works[0].obs + SequentialObs(works[1..])
  }

  function SequentialNotes(works: seq<Work>): seq<Note> {
    if works == [] then [] else works[0].notes + SequentialNotes(works[1..])
  }

  /** One host after the other in host order, then DHCP. */
  function Sequential(p: Plan): Work {
    Work(SequentialObs(p.hosts) + p.dhcp.obs, p.lead + SequentialNotes(p.hosts) + p.dhcp.notes)
  }

  lemma {:induction false} AllDone(tasks: seq<Task>, works: seq<Work>, lists: seq<seq<Observation>>)
    requires |tasks| == |works| == |lists|
    requires forall i :: 0 <= i < |tasks| ==> tasks[i].Done? && TaskMatches(tasks[i], works[i], lists[i])
    ensures AllMade(tasks, works) == SequentialNotes(works)
    ensures Concat(lists) == SequentialObs(works)
  {
    if tasks != [] {
      AllDone(tasks[1..], works[1..], lists[1..]);
    }
  }

  /** Every interleaving that finishes yields the observations and the notices of the sequential run. */
  lemma ScheduleIndependent(p: Plan, steps: seq<Step>, s: State)
    requires LiteralPlan(p) && Runs(p, Initial(p), steps, s) && s.dispatcher.Finished?
    ensures Output(s) == Sequential(p).obs
    ensures s.collected == ApplyAll(Empty, Sequential(p).notes)
  {
    InitialInv(p);
    RunPreservesInv(p, Initial(p), steps, s);
    AllDone(s.workers, p.hosts, s.perHost);
  }

  /** At no point of any run are more than 16 workers in flight. */
  lemma InFlightBound(p: Plan, steps: seq<Step>, s: State)
    requires LiteralPlan(p) && Runs(p, Initial(p), steps, s)
    ensures Count(s.workers, InFlight) <= 16
  {
    InitialInv(p);
    RunPreservesInv(p, Initial(p), steps, s);
    CountWeaker(s.workers, InFlight, Holds);
  }

  // ----- no run gets stuck, and every run ends -----

  ghost function WorkerStep(p: Plan, s: State, i: nat): Step
    requires Shape(p, s) && i < |s.workers|
  {
    match s.workers[i]
    case Running(made) => if made < |p.hosts[i].notes| then WorkerNote(i) else WorkerStore(i)
    case Stored => WorkerRelease(i)
    case _ => WorkerExit(i)
  }

  /** A reachable state that is not final has a next step. */
  lemma NeverStuck(p: Plan, s: State) returns (t: Step)
    requires Inv(p, s) && !s.dispatcher.Finished?
    ensures Enabled(p, s, t)
  {
    match s.dispatcher
    case Leading(made) => t := if made < |p.lead| then LeadNote else EnterLoop;
    case Spawning(_) => t := Spawn;
    case Joined =>
      t := if s.dhcp.Done? then JoinDhcp
      else if s.dhcp.Stored? then DhcpExit
      else if s.dhcp.made < |p.dhcp.notes| then DhcpNote
      else DhcpStore;
    case At(next) =>
      if next < |p.hosts| && s.slots < WORKERS {
        t := Acquire;
      } else if next == |p.hosts| && s.waiting == 0 {
        t := JoinWorkers;
      } else {
        var i := SomeoneAlive(p, s);
        t := WorkerStep(p, s, i);
      }
  }

  /** Behind a full semaphore or an open wait group there is a worker that has not gone yet. */
  lemma SomeoneAlive(p: Plan, s: State) returns (i: nat)
    requires Shape(p, s) && Counters(s) && s.dispatcher.At?
    requires s.slots == WORKERS || s.waiting > 0
    ensures i < |s.workers| && Alive(s.workers[i])
    ensures Holds(s.workers[i]) ==> s.slots > 0
    ensures s.waiting > 0
  {
    CountPositive(s.workers, Alive);
    CountPositive(s.workers, Holds);
    CountWeaker(s.workers, Holds, Alive);
    i :| 0 <= i < |s.workers| && Alive(s.workers[i]);
  }

  ghost function TaskLeft(t: Task, w: Work): nat {
    match t
    case NotStarted => |w.notes| + 4
    case Running(made) => if made <= |w.notes| then |w.notes| - made + 3 else 3
    case Stored => 2
    case Released => 1
    case Done => 0
  }

  ghost function TasksLeft(tasks: seq<Task>, works: seq<Work>): nat
    requires |tasks| == |works|
  {
    if tasks == [] then 0 else TaskLeft(tasks[0], works[0]) + TasksLeft(tasks[1..], works[1..])
  }

  lemma {:induction false} TasksLeftUpdate(tasks: seq<Task>, works: seq<Work>, i: nat, t: Task)
    requires |tasks| == |works| && i < |tasks|
    ensures TasksLeft(tasks[i := t], works) == TasksLeft(tasks, works) - TaskLeft(tasks[i], works[i]) + TaskLeft(t, works[i])
  {
    if i == 0 {
      assert tasks[i := t][1..] == tasks[1..];
    } else {
      assert tasks[i := t][1..] == tasks[1..][i - 1 := t];
      TasksLeftUpdate(tasks[1..], works[1..], i - 1, t);
    }
  }

  ghost function DispatcherLeft(p: Plan, d: Dispatcher): nat {
    var n := |p.hosts|;
    match d
    case Leading(made) => (if made <= |p.lead| then |p.lead| - made else 0) + 2 * n + 3
    case At(next) => if next <= n then 2 * (n - next) + 2 else 2
    case Spawning(next) => if next <= n then 2 * (n - next) + 1 else 1
    case Joined => 1
    case Finished => 0
  }

  ghost function Left(p: Plan, s: State): nat
    requires |s.workers| == |p.hosts|
  {
    TasksLeft(s.workers, p.hosts) + TaskLeft(s.dhcp, p.dhcp) + DispatcherLeft(p, s.dispatcher)
  }

  lemma StepDecreases(p: Plan, s: State, t: Step)
    requires Inv(p, s) && Enabled(p, s, t)
    ensures |After(p, s, t).workers| == |p.hosts| && Left(p, After(p, s, t)) < Left(p, s)
  {
    if OfWorker(t) {
      WorkerStepDecreases(p, s, t);
    } else if t.Spawn? {
      TasksLeftUpdate(s.workers, p.hosts, s.dispatcher.next, Running(0));
    }
  }

  lemma WorkerStepDecreases(p: Plan, s: State, t: Step)
    requires Shape(p, s) && Enabled(p, s, t) && OfWorker(t)
    ensures |After(p, s, t).workers| == |p.hosts| && Left(p, After(p, s, t)) < Left(p, s)
  {
    var i, s' := t.i, After(p, s, t);
    assert TaskLeft(s'.workers[i], p.hosts[i]) < TaskLeft(s.workers[i], p.hosts[i]);
    TasksLeftUpdate(s.workers, p.hosts, i, s'.workers[i]);
  }

  /** No run is longer than the work in the plan, whatever the schedule. */
  lemma {:induction false} RunsAreBounded(p: Plan, s: State, steps: seq<Step>, s': State)
    requires Inv(p, s) && Runs(p, s, steps, s')
    ensures |s'.workers| == |p.hosts| && |steps| + Left(p, s') <= Left(p, s)
    decreases |steps|
  {
    if steps != [] {
      StepDecreases(p, s, steps[0]);
      StepPreservesInv(p, s, steps[0]);
      RunsAreBounded(p, After(p, s, steps[0]), steps[1..], s');
    }
  }

  /** A run that cannot continue has finished: no schedule deadlocks. */
  lemma MaximalRunsFinish(p: Plan, steps: seq<Step>, s: State)
    requires LiteralPlan(p) && Runs(p, Initial(p), steps, s)
    requires forall t :: !Enabled(p, s, t)
    ensures s.dispatcher.Finished?
  {
    InitialInv(p);
    RunPreservesInv(p, Initial(p), steps, s);
    if !s.dispatcher.Finished? {
      var _ := NeverStuck(p, s);
    }
  }
}
