/**
 The scan scheduler: the window a schedule may fire in
 (internal/scanner/orchestrator/windows.go), the tick that fires the due ones
 (internal/scanner/orchestrator/orchestrator.go) and their rows (internal/store/scans.go).
 */
module Scheduler {
  import opened Options

  const DAY_MINUTES := 24 * 60

  type MinuteOfDay = m: int | 0 <= m < DAY_MINUTES

  type Weekday = d: int | 0 <= d < 7

  /** A moment as a clock on the wall of some zone shows it. */
  datatype Local = Local(minute: MinuteOfDay, weekday: Weekday)

  /** Time zone data: what each instant is called there. */
  type Zone = int -> Local

  datatype Schedule = Schedule(
    enabled: bool, intervalSeconds: int, startMin: Option<MinuteOfDay>, endMin: Option<MinuteOfDay>, days: seq<int>, zone: Zone,
    nextRun: int, lastRun: Option<int>)

  /** -1 is no bound; no day is any day. */
  datatype Window = Window(startMin: int, endMin: int, days: set<Weekday>, zone: Zone)

  // ----- the window -----

  /** `windowAllows`. */
  predicate WindowAllows(w: Window, now: int) {
    var local := w.zone(now);
    if w.days != {} && local.weekday !in w.days then false
    else if w.startMin < 0 || w.endMin < 0 then true
    else if w.startMin == w.endMin then true
    else if w.startMin < w.endMin then w.startMin <= local.minute < w.endMin
    else w.startMin <= local.minute || local.minute < w.endMin
  }

  /** Minutes from `start` on to `m`, around midnight if need be. */
  function MinutesAfter(start: MinuteOfDay, m: MinuteOfDay): int {
    (m - start) % DAY_MINUTES
  }

  /** The days the filter leaves; a list of unknown days only is no restriction. */
  ghost function DaysOf(s: Schedule): set<Weekday> {
    set d: Weekday | d in s.days
  }

  /** What a window means: the weekday is listed, and the time lies on the arc of the clock from start to end. */
  ghost predicate InWindow(s: Schedule, now: int) {
    && (DaysOf(s) == {} || s.zone(now).weekday in DaysOf(s))
    && (s.startMin.Some? && s.endMin.Some? && s.startMin != s.endMin ==>
      MinutesAfter(s.startMin.value, s.zone(now).minute) < MinutesAfter(s.startMin.value, s.endMin.value))
  }

  /** `windowFromSchedule`. */
  method WindowFromSchedule(s: Schedule) returns (w: Window)
    ensures forall now :: WindowAllows(w, now) <==> InWindow(s, now)
  {
    var startMin: int, endMin: int := -1, -1;
    if s.startMin.Some? {
      startMin := s.startMin.value;
    }
    if s.endMin.Some? {
      endMin := s.endMin.value;
    }
    var days: set<Weekday> := {};
    for i := 0 to |s.days|
      invariant forall d: Weekday :: d in days <==> d in s.days[..i]
    {
      assert s.days[..i + 1] == s.days[..i] + [s.days[i]];
      if 0 <= s.days[i] <= 6 {
        days := days + {s.days[i]};
      }
    }
    assert s.days[..|s.days|] == s.days;
    assert days == DaysOf(s);
    w := Window(startMin, endMin, days, s.zone);
    forall now
      ensures WindowAllows(w, now) <==> InWindow(s, now)
    {
      if startMin >= 0 && endMin >= 0 && startMin != endMin {
        ArcIsInterval(startMin, endMin, s.zone(now).minute);
      }
    }
  }

  /** The two comparisons are membership in the arc. */
  lemma ArcIsInterval(start: MinuteOfDay, end: MinuteOfDay, m: MinuteOfDay)
    requires start != end
    ensures MinutesAfter(start, m) < MinutesAfter(start, end) <==>
      if start < end then start <= m < end else start <= m || m < end
  {
    assert MinutesAfter(start, m) == if start <= m then m - start else m - start + DAY_MINUTES;
    assert MinutesAfter(start, end) == if start <= end then end - start else end - start + DAY_MINUTES;
  }

  /** In plain clock terms: a listed weekday, or none of the listed is one; and from the start minute up to but not including the end minute, around midnight when it ends before it starts. */
  lemma WindowIs(s: Schedule, now: int)
    ensures var at := s.zone(now);
      InWindow(s, now) <==>
        && (at.weekday in s.days || forall d :: d in s.days ==> d < 0 || d > 6)
        && (s.startMin.None? || s.endMin.None? || s.startMin == s.endMin
            || (s.startMin.value < s.endMin.value && s.startMin.value <= at.minute < s.endMin.value)
            || (s.startMin.value > s.endMin.value && (s.startMin.value <= at.minute || at.minute < s.endMin.value)))
  {
    if s.startMin.Some? && s.endMin.Some? && s.startMin != s.endMin {
      ArcIsInterval(s.startMin.value, s.endMin.value, s.zone(now).minute);
    }
    assert DaysOf(s) == {} <==> forall d :: d in s.days ==> d < 0 || d > 6 by {
      if d :| d in s.days && 0 <= d <= 6 {
        assert d in DaysOf(s);
      }
    }
  }

  // ----- one schedule over time -----

  /** The three readings of the clock in one tick, for one schedule. */
  datatype Moment = Moment(listed: int, now: int, marked: int)

  predicate Due(s: Schedule, at: int) {
    s.enabled && s.nextRun <= at
  }

  ghost predicate Fires(s: Schedule, m: Moment) {
    Due(s, m.listed) && InWindow(s, m.now)
  }

  function Marked(s: Schedule, at: int): Schedule {
    s.(lastRun := Some(at), nextRun := at + s.intervalSeconds)
  }

  ghost function Ticked(s: Schedule, m: Moment): Schedule {
    if Fires(s, m) then Marked(s, m.marked) else s
  }

  /** `UpdateScanSchedule`: everything but the run times. */
  function Edited(s: Schedule, input: Schedule): Schedule {
    input.(nextRun := s.nextRun, lastRun := s.lastRun)
  }

  // ----- the table -----

  class ScheduleTable {
    var schedules: map<string, Schedule>

    constructor ()
      ensures schedules == map[]
    {
      schedules := map[];
    }

    /** `CreateScanSchedule`. */
    method CreateScanSchedule(id: string, input: Schedule, now: int)
      requires id !in schedules
      modifies this
      ensures schedules == old(schedules)[id := input.(nextRun := now + input.intervalSeconds, lastRun := None)]
    {
      schedules := schedules[id := input.(nextRun := now + input.intervalSeconds, lastRun := None)];
    }

    /** `UpdateScanSchedule`. */
    method UpdateScanSchedule(id: string, input: Schedule) returns (found: bool)
      modifies this
      ensures found <==> id in old(schedules)
      ensures schedules == if found then old(schedules)[id := Edited(old(schedules)[id], input)] else old(schedules)
      ensures found ==>
        var was, s := old(schedules)[id], schedules[id];
        && s.enabled == input.enabled && s.intervalSeconds == input.intervalSeconds && s.startMin == input.startMin
        && s.endMin == input.endMin && s.days == input.days && s.zone == input.zone
        && s.nextRun == was.nextRun && s.lastRun == was.lastRun
    {
      if id !in schedules {
        return false;
      }
      var was := schedules[id];
      schedules := schedules[id := input.(nextRun := was.nextRun, lastRun := was.lastRun)];
      return true;
    }

    /** `ListDueScanSchedules`; the rows come in some order of their due times. */
    method ListDueScanSchedules(at: int) returns (due: seq<string>)
      ensures forall id :: id in due <==> id in schedules && Due(schedules[id], at)
      ensures forall id :: id in due <==> id in schedules && schedules[id].enabled && schedules[id].nextRun <= at
      ensures forall i, j :: 0 <= i < j < |due| ==> due[i] != due[j]
      ensures forall i, j :: 0 <= i < j < |due| ==> schedules[due[i]].nextRun <= schedules[due[j]].nextRun
    {
      due := [];
      var rest := set id | id in schedules && schedules[id].enabled && schedules[id].nextRun <= at;
      while rest != {}
        invariant forall id :: id in rest ==> id in schedules && Due(schedules[id], at)
        invariant forall id :: id in due || id in rest <==> id in schedules && Due(schedules[id], at)
        invariant forall id :: id in due ==> id !in rest
        invariant forall i, j :: 0 <= i < j < |due| ==> due[i] != due[j]
        invariant forall id, r :: id in due && r in rest ==> schedules[id].nextRun <= schedules[r].nextRun
        invariant forall i, j :: 0 <= i < j < |due| ==> schedules[due[i]].nextRun <= schedules[due[j]].nextRun
        decreases rest
      {
        var id := Earliest(rest);
        rest := rest - {id};
        assert forall i :: 0 <= i < |due| ==> due[i] in due;
        due := due + [id];
      }
    }

    method Earliest(ids: set<string>) returns (first: string)
      requires ids != {} && ids <= schedules.Keys
      ensures first in ids && forall id :: id in ids ==> schedules[first].nextRun <= schedules[id].nextRun
    {
      first :| first in ids;
      var rest := ids - {first};
      while rest != {}
        invariant first in ids && rest <= ids
        invariant forall id :: id in ids && id !in rest ==> schedules[first].nextRun <= schedules[id].nextRun
        decreases rest
      {
        var id :| id in rest;
        rest := rest - {id};
        if schedules[id].nextRun < schedules[first].nextRun {
          first := id;
        }
      }
    }

    /** `MarkScanScheduleRan`. */
    method MarkScanScheduleRan(id: string, at: int)
      modifies this
      ensures schedules == if id in old(schedules) then old(schedules)[id := Marked(old(schedules)[id], at)] else old(schedules)
      ensures id in schedules ==>
        var was, s := old(schedules)[id], schedules[id];
        s.lastRun == Some(at) && s.nextRun == at + was.intervalSeconds && s == was.(lastRun := s.lastRun, nextRun := s.nextRun)
    {
      if id in schedules {
        var s := schedules[id];
        schedules := schedules[id := s.(lastRun := Some(at), nextRun := at + s.intervalSeconds)];
      }
    }

    /** `RunDueSchedules`: what fires is enqueued and marked, whether or not its job can run; `marks` are the times of the marks. */
    method RunDueSchedules(listed: int, now: int, marks: map<string, int>) returns (fired: seq<string>)
      requires schedules.Keys <= marks.Keys
      modifies this
      ensures forall id :: id in fired <==> id in old(schedules) && Fires(old(schedules)[id], Moment(listed, now, marks[id]))
      ensures forall i, j :: 0 <= i < j < |fired| ==> fired[i] != fired[j]
      ensures schedules.Keys == old(schedules.Keys)
      ensures forall id :: id in schedules ==> schedules[id] == Ticked(old(schedules)[id], Moment(listed, now, marks[id]))
    {
      fired := [];
      var due := ListDueScanSchedules(listed);
      for i := 0 to |due|
        invariant schedules.Keys == old(schedules.Keys)
        invariant forall id :: id in fired <==> id in due[..i] && InWindow(old(schedules)[id], now)
        invariant forall i, j :: 0 <= i < j < |fired| ==> fired[i] != fired[j]
        invariant forall id :: id in schedules ==>
          schedules[id] == if id in fired then Marked(old(schedules)[id], marks[id]) else old(schedules)[id]
      {
        assert due[..i + 1] == due[..i] + [due[i]];
        assert due[i] !in due[..i];
        var w := WindowFromSchedule(schedules[due[i]]);
        if !WindowAllows(w, now) {
          continue;
        }
        assert forall k :: 0 <= k < |fired| ==> fired[k] in fired;
        fired := fired + [due[i]];
        MarkScanScheduleRan(due[i], marks[due[i]]);
      }
      assert due[..|due|] == due;
    }
  }

  // ----- runs -----

  datatype Step = Tick(m: Moment) | Edit(input: Schedule)

  /** The clock never runs back, within a tick and from one to the next. */
  ghost predicate Run(states: seq<Schedule>, steps: seq<Step>) {
    && |states| == |steps| + 1
    && (forall i :: 0 <= i < |steps| && steps[i].Tick? ==>
      steps[i].m.listed <= steps[i].m.now <= steps[i].m.marked && states[i + 1] == Ticked(states[i], steps[i].m))
    && (forall i :: 0 <= i < |steps| && steps[i].Edit? ==> states[i + 1] == Edited(states[i], steps[i].input))
    && (forall i, j :: 0 <= i < j < |steps| && steps[i].Tick? && steps[j].Tick? ==> steps[i].m.marked <= steps[j].m.listed)
  }

  ghost predicate FiresAt(states: seq<Schedule>, steps: seq<Step>, i: int)
    requires |states| == |steps| + 1
  {
    0 <= i < |steps| && steps[i].Tick? && Fires(states[i], steps[i].m)
  }

  /** After a fire the next one waits out the interval in force at its mark, whatever is edited in between. */
  lemma NextRunHolds(states: seq<Schedule>, steps: seq<Step>, i: nat, j: nat)
    requires Run(states, steps) && FiresAt(states, steps, i) && i < j <= |steps|
    requires forall k :: i < k < j ==> !FiresAt(states, steps, k)
    ensures states[j].nextRun == steps[i].m.marked + states[i].intervalSeconds
    ensures states[j].lastRun == Some(steps[i].m.marked)
    decreases j
  {
    var k := j - 1;
    if k > i {
      NextRunHolds(states, steps, i, k);
      assert !FiresAt(states, steps, k);
    }
    assert states[k + 1] == if steps[k].Tick? then Ticked(states[k], steps[k].m) else Edited(states[k], steps[k].input);
  }

  /** Two consecutive fires are at least the interval in force apart, and each fire is inside its window. */
  lemma FiresAreSpaced(states: seq<Schedule>, steps: seq<Step>, i: nat, j: nat)
    requires Run(states, steps) && i < j && FiresAt(states, steps, i) && FiresAt(states, steps, j)
    requires forall k :: i < k < j ==> !FiresAt(states, steps, k)
    ensures steps[j].m.listed >= steps[i].m.marked + states[i].intervalSeconds
    ensures steps[j].m.marked - steps[i].m.marked >= states[i].intervalSeconds
    ensures states[j].enabled && InWindow(states[j], steps[j].m.now)
  {
    NextRunHolds(states, steps, i, j);
  }

  ghost predicate FirstAllowed(states: seq<Schedule>, steps: seq<Step>, i: nat, j: nat)
    requires Run(states, steps) && i <= j < |steps|
  {
    && steps[j].Tick? && InWindow(states[i], steps[j].m.now)
    && forall k :: i <= k < j && steps[k].Tick? ==> !InWindow(states[i], steps[k].m.now)
  }

  /** A due schedule outside its window stays due, tick after tick, and fires at the first one the window allows. */
  lemma {:induction false} StaysDueUntilAllowed(states: seq<Schedule>, steps: seq<Step>, i: nat, j: nat)
    requires Run(states, steps) && i <= j < |steps|
    requires forall k :: i <= k <= j ==> steps[k].Tick?
    requires Due(states[i], steps[i].m.listed) && FirstAllowed(states, steps, i, j)
    ensures forall k :: i <= k <= j ==> states[k] == states[i] && Due(states[k], steps[k].m.listed)
    ensures FiresAt(states, steps, j) && forall k :: i <= k < j ==> !FiresAt(states, steps, k)
    decreases j - i
  {
    if i < j {
      assert states[i + 1] == states[i];
      StaysDueUntilAllowed(states, steps, i + 1, j);
    }
  }
}
