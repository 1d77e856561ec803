/**
 Login throttling (internal/app/lockout.go, internal/store/login_attempts.go and the login
 handler in internal/app/app.go). A request is checked first and its failure recorded
 later, so several requests may be between the two.
 */
module Lockout {
  import opened Options

  /** One row of `login_attempts`. */
  datatype Attempt = Attempt(user: string, ip: string, at: int)

  datatype Policy = Policy(maxAttempts: int, window: nat, cooldown: nat)

  /** Failures of one key since a time, and the latest of them. */
  datatype KeyStats = KeyStats(failures: nat, last: Option<int>)

  datatype Decision = Decision(locked: bool, retryAfter: int)

  // ----- the decision -----

  /** `lockoutForKey`. */
  function LockoutForKey(p: Policy, stats: KeyStats, now: int): Decision {
    if p.maxAttempts <= 0 || stats.failures < p.maxAttempts || stats.last.None? then Decision(false, 0)
    else
      var unlockAt := stats.last.value + p.cooldown;
      if now >= unlockAt then Decision(false, 0) else Decision(true, unlockAt - now)
  }

  /** `evaluateLockout`. */
  function EvaluateLockout(p: Policy, user: KeyStats, ip: KeyStats, now: int): Decision {
    var byUser, byIp := LockoutForKey(p, user, now), LockoutForKey(p, ip, now);
    if byIp.retryAfter > byUser.retryAfter then byIp else byUser
  }

  datatype Key = User(name: string) | Ip(address: string)

  /** A request under this username from this address counts for the key. */
  predicate Concerns(user: string, ip: string, key: Key) {
    match key
    case User(name) => user == name
    case Ip(address) => ip == address
  }

  predicate Has(a: Attempt, key: Key) {
    Concerns(a.user, a.ip, key)
  }

  function Stats(log: seq<Attempt>, key: Key, since: int): KeyStats {
    if log == [] then KeyStats(0, None)
    else Counted(Stats(log[..|log| - 1], key, since), log[|log| - 1], key, since)
  }

  function Counted(before: KeyStats, a: Attempt, key: Key, since: int): KeyStats {
    if !Has(a, key) || a.at <= since then before
    else KeyStats(before.failures + 1, Some(if before.last.Some? && before.last.value >= a.at then before.last.value else a.at))
  }

  lemma StatsSnoc(log: seq<Attempt>, a: Attempt, key: Key, since: int)
    ensures Stats(log + [a], key, since) == Counted(Stats(log, key, since), a, key, since)
  {
    assert (log + [a])[..|log|] == log;
  }

  function Decided(p: Policy, log: seq<Attempt>, user: string, ip: string, now: int): Decision {
    EvaluateLockout(p, Stats(log, User(user), now - p.window), Stats(log, Ip(ip), now - p.window), now)
  }

  /** The key has reached the limit in the window, and its latest failure there is within the cooldown. */
  ghost predicate KeyLocked(p: Policy, log: seq<Attempt>, key: Key, now: int) {
    && p.maxAttempts > 0 && Stats(log, key, now - p.window).failures >= p.maxAttempts
    && exists i :: 0 <= i < |log| && Has(log[i], key) && log[i].at > now - p.window && now < log[i].at + p.cooldown
  }

  lemma {:induction false} LastIsLatest(log: seq<Attempt>, key: Key, since: int)
    ensures var s := Stats(log, key, since);
      && (s.failures == 0 <==> s.last.None?)
      && (s.last.Some? ==> exists i :: 0 <= i < |log| && Has(log[i], key) && log[i].at > since && log[i].at == s.last.value)
      && (forall i :: 0 <= i < |log| && Has(log[i], key) && log[i].at > since ==> s.last.Some? && log[i].at <= s.last.value)
  {
    if log != [] {
      var n := |log| - 1;
      LastIsLatest(log[..n], key, since);
      assert forall i :: 0 <= i < n ==> log[..n][i] == log[i];
    }
  }

  ghost function Rows(log: seq<Attempt>, key: Key, since: int): set<nat> {
    set i: nat | i < |log| && Has(log[i], key) && log[i].at > since
  }

  lemma RowsSnoc(log: seq<Attempt>, key: Key, since: int)
    requires log != []
    ensures var n := |log| - 1;
      Rows(log, key, since) == Rows(log[..n], key, since) + (if Has(log[n], key) && log[n].at > since then {n} else {})
  {
    var n := |log| - 1;
    assert forall i :: 0 <= i < n ==> log[..n][i] == log[i];
  }

  /** The failures counted are the rows of the key in the window, each once. */
  lemma {:induction false} StatsCountRows(log: seq<Attempt>, key: Key, since: int)
    ensures Stats(log, key, since).failures == |Rows(log, key, since)|
  {
    if log == [] {
      assert Rows(log, key, since) == {};
    } else {
      RowsSnoc(log, key, since);
      StatsCountRows(log[..|log| - 1], key, since);
    }
  }

  lemma LockoutForKeyIff(p: Policy, log: seq<Attempt>, key: Key, now: int)
    ensures var d := LockoutForKey(p, Stats(log, key, now - p.window), now);
      && (d.locked <==> KeyLocked(p, log, key, now)) && (d.retryAfter > 0 <==> d.locked) && d.retryAfter >= 0
      && (d.locked ==> Unlocks(p, log, key, now, d.retryAfter))
  {
    LastIsLatest(log, key, now - p.window);
  }

  /** The lock ends one cooldown after the key's latest failure in the window. */
  ghost predicate Unlocks(p: Policy, log: seq<Attempt>, key: Key, now: int, retryAfter: int) {
    && (exists i :: 0 <= i < |log| && Has(log[i], key) && log[i].at > now - p.window && log[i].at + p.cooldown == now + retryAfter)
    && forall i :: 0 <= i < |log| && Has(log[i], key) && log[i].at > now - p.window ==> log[i].at + p.cooldown <= now + retryAfter
  }

  /** A login is blocked exactly when the username or the address is locked, until the later of the two locks ends. */
  lemma LockedIff(p: Policy, log: seq<Attempt>, user: string, ip: string, now: int)
    ensures var d, u, a := Decided(p, log, user, ip, now), User(user), Ip(ip);
      && (d.locked <==> KeyLocked(p, log, u, now) || KeyLocked(p, log, a, now))
      && (d.locked ==> exists key :: (key == u || key == a) && KeyLocked(p, log, key, now) && Unlocks(p, log, key, now, d.retryAfter))
      && (forall key, rest :: (key == u || key == a) && KeyLocked(p, log, key, now) && Unlocks(p, log, key, now, rest) ==> rest <= d.retryAfter)
      && (p.maxAttempts <= 0 ==> !d.locked)
  {
    LockoutForKeyIff(p, log, User(user), now);
    LockoutForKeyIff(p, log, Ip(ip), now);
    var byUser, byIp := LockoutForKey(p, Stats(log, User(user), now - p.window), now), LockoutForKey(p, Stats(log, Ip(ip), now - p.window), now);
    forall key, rest | (key == User(user) || key == Ip(ip)) && KeyLocked(p, log, key, now) && Unlocks(p, log, key, now, rest)
      ensures rest <= Decided(p, log, user, ip, now).retryAfter
    {
      UnlocksOnce(p, log, key, now, rest, if key == User(user) then byUser.retryAfter else byIp.retryAfter);
    }
  }

  lemma UnlocksOnce(p: Policy, log: seq<Attempt>, key: Key, now: int, rest: int, rest': int)
    requires Unlocks(p, log, key, now, rest) && Unlocks(p, log, key, now, rest')
    ensures rest == rest'
  {
  }

  lemma {:induction false} LongerWindowCountsMore(log: seq<Attempt>, key: Key, since: int, since': int)
    requires since' <= since
    ensures Stats(log, key, since').failures >= Stats(log, key, since).failures
  {
    if log != [] {
      LongerWindowCountsMore(log[..|log| - 1], key, since, since');
    }
  }

  // ----- the table -----

  function Cleared(log: seq<Attempt>, user: string): seq<Attempt> {
    if log == [] then []
    else Cleared(log[..|log| - 1], user) + if log[|log| - 1].user == user then [] else [log[|log| - 1]]
  }

  /** The rows of the username are gone, and every other row is there as often as before. */
  lemma {:induction false} ClearedIs(log: seq<Attempt>, user: string, a: Attempt)
    ensures multiset(Cleared(log, user))[a] == if a.user == user then 0 else multiset(log)[a]
  {
    if log != [] {
      var n := |log| - 1;
      ClearedIs(log[..n], user, a);
      assert log == log[..n] + [log[n]];
    }
  }

  class LoginAttempts {
    var log: seq<Attempt>

    constructor ()
      ensures log == []
    {
      log := [];
    }

    /** `RecordLoginFailure`. */
    method RecordLoginFailure(user: string, ip: string, at: int)
      modifies this
      ensures log == old(log) + [Attempt(user, ip, at)]
    {
      log := log + [Attempt(user, ip, at)];
    }

    /** `RecentLoginFailures`. */
    method RecentLoginFailures(user: string, ip: string, since: int) returns (byUser: KeyStats, byIp: KeyStats)
      ensures byUser == Stats(log, User(user), since) && byIp == Stats(log, Ip(ip), since)
    {
      var userFailures, userLast, ipFailures, ipLast := 0, None, 0, None;
      for i := 0 to |log|
        invariant KeyStats(userFailures, userLast) == Stats(log[..i], User(user), since)
        invariant KeyStats(ipFailures, ipLast) == Stats(log[..i], Ip(ip), since)
      {
        assert log[..i + 1][..i] == log[..i];
        var a := log[i];
        if a.at <= since {
          continue;
        }
        if a.user == user {
          userFailures := userFailures + 1;
          if userLast.None? || userLast.value < a.at {
            userLast := Some(a.at);
          }
        }
        if a.ip == ip {
          ipFailures := ipFailures + 1;
          if ipLast.None? || ipLast.value < a.at {
            ipLast := Some(a.at);
          }
        }
      }
      assert log[..|log|] == log;
      return KeyStats(userFailures, userLast), KeyStats(ipFailures, ipLast);
    }

    /** `ClearLoginFailures`. */
    method ClearLoginFailures(user: string)
      modifies this
      ensures log == Cleared(old(log), user)
      ensures forall a: Attempt :: multiset(log)[a] == if a.user == user then 0 else multiset(old(log))[a]
    {
      var kept := [];
      for i := 0 to |log|
        invariant kept == Cleared(log[..i], user) && log == old(log)
      {
        assert log[..i + 1][..i] == log[..i];
        if log[i].user != user {
          kept := kept + [log[i]];
        }
      }
      assert log[..|log|] == log;
      forall a: Attempt {
        ClearedIs(log, user, a);
      }
      log := kept;
    }

    /** The throttle check at the head of the login handler. */
    method Throttled(p: Policy, user: string, ip: string, now: int) returns (d: Decision)
      ensures d == Decided(p, log, user, ip, now)
      ensures d.locked <==> KeyLocked(p, log, User(user), now) || KeyLocked(p, log, Ip(ip), now)
    {
      var byUser, byIp := RecentLoginFailures(user, ip, now - p.window);
      LockedIff(p, log, user, ip, now);
      d := EvaluateLockout(p, byUser, byIp, now);
    }
  }

  // ----- runs -----

  datatype Event =
    | Check(user: string, ip: string, at: int)
    | Fail(user: string, ip: string, at: int)
    | Succeed(user: string, ip: string, at: int)

  datatype Request = Request(user: string, ip: string)

  /** The table, and the requests that are past the check. */
  datatype State = State(log: seq<Attempt>, pending: seq<Request>)

  function Pending(requests: seq<Request>, key: Key): nat {
    if requests == [] then 0
    else Pending(requests[1..], key) + if Concerns(requests[0].user, requests[0].ip, key) then 1 else 0
  }

  function Without(requests: seq<Request>, r: Request): seq<Request>
    requires r in requests
  {
    if requests[0] == r then requests[1..] else [requests[0]] + Without(requests[1..], r)
  }

  predicate Enabled(s: State, e: Event) {
    !e.Check? ==> Request(e.user, e.ip) in s.pending
  }

  function After(p: Policy, s: State, e: Event): State
    requires Enabled(s, e)
  {
    match e
    case Check(user, ip, at) => if Decided(p, s.log, user, ip, at).locked then s else s.(pending := [Request(user, ip)] + s.pending)
    case Fail(user, ip, at) => State(s.log + [Attempt(user, ip, at)], Without(s.pending, Request(user, ip)))
    case Succeed(user, ip, at) => State(Cleared(s.log, user), Without(s.pending, Request(user, ip)))
  }

  ghost predicate Steps(p: Policy, states: seq<State>, events: seq<Event>, i: nat)
    requires |states| == |events| + 1 && i < |events|
  {
    Enabled(states[i], events[i]) && states[i + 1] == After(p, states[i], events[i])
  }

  /** The states a run passes through, in time order, with at most `k` requests of the key past the check at once. */
  ghost predicate Run(p: Policy, states: seq<State>, events: seq<Event>, key: Key, k: nat) {
    && |states| == |events| + 1
    && (forall i :: 0 <= i < |events| ==> Steps(p, states, events, i))
    && (forall i, j :: 0 <= i < j < |events| ==> events[i].at <= events[j].at)
    && (forall i :: 0 <= i < |states| ==> Pending(states[i].pending, key) <= k)
  }

  predicate FailsFor(e: Event, key: Key) {
    e.Fail? && Concerns(e.user, e.ip, key)
  }

  function Failures(events: seq<Event>, key: Key): nat {
    if events == [] then 0
    else Failures(events[..|events| - 1], key) + if FailsFor(events[|events| - 1], key) then 1 else 0
  }

  /** A success deletes no failure of the key recorded since `start`. */
  ghost predicate Spares(log: seq<Attempt>, e: Event, key: Key, start: int) {
    e.Succeed? ==> forall i :: 0 <= i < |log| && log[i].user == e.user && Has(log[i], key) ==> log[i].at < start
  }

  /** No success deletes what the span recorded for the key, and the whole run is shorter than the cooldown. */
  ghost predicate QuietSpan(p: Policy, states: seq<State>, events: seq<Event>, key: Key) {
    && |states| == |events| + 1
    && (forall i :: 0 <= i < |events| ==> Spares(states[i].log, events[i], key, events[0].at))
    && (forall i, j :: 0 <= i <= j < |events| ==> events[j].at - events[i].at < p.cooldown)
  }

  /** For a username it is enough that the user does not succeed. */
  lemma NoSuccessIsQuiet(log: seq<Attempt>, e: Event, name: string, start: int)
    requires e.Succeed? ==> e.user != name
    ensures Spares(log, e, User(name), start)
  {
  }

  lemma {:induction false} WithoutPending(requests: seq<Request>, r: Request, key: Key)
    requires r in requests
    ensures Pending(Without(requests, r), key) == Pending(requests, key) - if Concerns(r.user, r.ip, key) then 1 else 0
  {
    if requests[0] != r {
      WithoutPending(requests[1..], r, key);
      var rest := Without(requests[1..], r);
      assert ([requests[0]] + rest)[1..] == rest;
    }
  }

  lemma {:induction false} ClearedKeepsOthers(log: seq<Attempt>, other: string, key: Key, start: int)
    requires forall i :: 0 <= i < |log| && log[i].user == other && Has(log[i], key) ==> log[i].at < start
    ensures Stats(Cleared(log, other), key, start - 1) == Stats(log, key, start - 1)
  {
    if log != [] {
      var n := |log| - 1;
      ClearedKeepsOthers(log[..n], other, key, start);
      var before := Cleared(log[..n], other);
      if log[n].user == other {
        assert Cleared(log, other) == before;
      } else {
        StatsSnoc(before, log[n], key, start - 1);
      }
    }
  }

  /** Once the limit is reached within the span, no check for the key passes. */
  lemma LimitLocks(p: Policy, log: seq<Attempt>, key: Key, start: int, now: int)
    requires 0 < p.maxAttempts && p.cooldown <= p.window && start <= now < start + p.cooldown
    requires Stats(log, key, start - 1).failures >= p.maxAttempts
    ensures KeyLocked(p, log, key, now)
  {
    LongerWindowCountsMore(log, key, start - 1, now - p.window);
    LastIsLatest(log, key, start - 1);
    var i :| 0 <= i < |log| && Has(log[i], key) && log[i].at > start - 1;
    assert Has(log[i], key) && log[i].at > now - p.window && now < log[i].at + p.cooldown;
  }

  /** What every state of a quiet span keeps; `f` counts the key's failures recorded in it. */
  ghost predicate SpanInv(p: Policy, s: State, key: Key, start: int, f: nat, k: nat) {
    && f <= Stats(s.log, key, start - 1).failures
    && (f >= p.maxAttempts ==> f + Pending(s.pending, key) <= p.maxAttempts + k - 1)
  }

  lemma CheckKeepsSpanInv(p: Policy, s: State, e: Event, key: Key, start: int, f: nat, k: nat)
    requires 0 < p.maxAttempts && p.cooldown <= p.window
    requires e.Check? && start <= e.at < start + p.cooldown && SpanInv(p, s, key, start, f, k)
    ensures SpanInv(p, After(p, s, e), key, start, f, k)
  {
    if Concerns(e.user, e.ip, key) && f >= p.maxAttempts {
      LimitLocks(p, s.log, key, start, e.at);
      LockedIff(p, s.log, e.user, e.ip, e.at);
      assert key == User(e.user) || key == Ip(e.ip);
    } else {
      assert ([Request(e.user, e.ip)] + s.pending)[1..] == s.pending;
    }
  }

  lemma EventKeepsSpanInv(p: Policy, s: State, e: Event, key: Key, start: int, f: nat, k: nat)
    requires 0 < p.maxAttempts && p.cooldown <= p.window
    requires Enabled(s, e) && start <= e.at < start + p.cooldown && Spares(s.log, e, key, start)
    requires SpanInv(p, s, key, start, f, k) && Pending(s.pending, key) <= k
    ensures SpanInv(p, After(p, s, e), key, start, if FailsFor(e, key) then f + 1 else f, k)
  {
    match e
    case Check(u, ip, at) => CheckKeepsSpanInv(p, s, e, key, start, f, k);
    case Fail(u, ip, at) =>
      WithoutPending(s.pending, Request(u, ip), key);
      StatsSnoc(s.log, Attempt(u, ip, at), key, start - 1);
    case Succeed(u, ip, at) =>
      WithoutPending(s.pending, Request(u, ip), key);
      ClearedKeepsOthers(s.log, u, key, start);
  }

  lemma PrefixRuns(p: Policy, states: seq<State>, events: seq<Event>, key: Key, k: nat)
    requires Run(p, states, events, key, k) && events != []
    ensures Run(p, states[..|events|], events[..|events| - 1], key, k)
  {
    var n := |events| - 1;
    var before, first := events[..n], states[..n + 1];
    forall i | 0 <= i < n
      ensures Steps(p, first, before, i)
    {
      assert Steps(p, states, events, i);
      assert before[i] == events[i] && first[i] == states[i] && first[i + 1] == states[i + 1];
    }
  }

  lemma PrefixIsQuiet(p: Policy, states: seq<State>, events: seq<Event>, key: Key)
    requires QuietSpan(p, states, events, key) && events != []
    ensures QuietSpan(p, states[..|events|], events[..|events| - 1], key)
  {
    var n := |events| - 1;
    var before, first := events[..n], states[..n + 1];
    forall i | 0 <= i < n
      ensures Spares(first[i].log, before[i], key, before[0].at)
    {
      assert before[i] == events[i] && first[i] == states[i];
    }
  }

  /**
   In a span shorter than the cooldown whose failures no success deletes, at most
   `maxAttempts + k - 1` failures are recorded for a key, username or address, when at most
   `k` of its requests are past the check at once; with one at a time, at most `maxAttempts`.
  */
  lemma {:induction false} FailuresBounded(p: Policy, states: seq<State>, events: seq<Event>, key: Key, k: nat)
    requires 0 < p.maxAttempts && p.cooldown <= p.window && k >= 1
    requires Run(p, states, events, key, k) && QuietSpan(p, states, events, key)
    ensures Failures(events, key) <= p.maxAttempts + k - 1
    ensures events != [] ==> SpanInv(p, states[|events|], key, events[0].at, Failures(events, key), k)
    decreases |events|
  {
    if events != [] {
      var n := |events| - 1;
      PrefixRuns(p, states, events, key, k);
      PrefixIsQuiet(p, states, events, key);
      FailuresBounded(p, states[..n + 1], events[..n], key, k);
      var f := Failures(events[..n], key);
      if n == 0 {
        assert f == 0;
      }
      assert SpanInv(p, states[n], key, events[0].at, f, k);
      assert Steps(p, states, events, n);
      EventKeepsSpanInv(p, states[n], events[n], key, events[0].at, f, k);
    }
  }

  // ----- the bound is exact -----

  function FailedTimes(r: Request, n: nat): seq<Attempt> {
    if n == 0 then [] else FailedTimes(r, n - 1) + [Attempt(r.user, r.ip, 0)]
  }

  function Waiting(r: Request, n: nat): seq<Request> {
    seq(n, _ => r)
  }

  /** A request that counts for the key, and for no other username or address. */
  function RequestOf(key: Key): Request {
    match key
    case User(name) => Request(name, "")
    case Ip(address) => Request("", address)
  }

  lemma {:induction false} StatsOfFailedTimes(r: Request, n: nat, key: Key, since: int)
    ensures Stats(FailedTimes(r, n), key, since).failures <= n
  {
    if n > 0 {
      StatsOfFailedTimes(r, n - 1, key, since);
      var before := FailedTimes(r, n - 1);
      assert FailedTimes(r, n)[..|before|] == before;
    }
  }

  lemma NotYetLocked(p: Policy, r: Request, n: nat)
    requires n < p.maxAttempts
    ensures !Decided(p, FailedTimes(r, n), r.user, r.ip, 0).locked
  {
    StatsOfFailedTimes(r, n, User(r.user), 0 - p.window);
    StatsOfFailedTimes(r, n, Ip(r.ip), 0 - p.window);
  }

  lemma {:induction false} PendingOfWaiting(key: Key, n: nat)
    ensures Pending(Waiting(RequestOf(key), n), key) == n
  {
    if n > 0 {
      PendingOfWaiting(key, n - 1);
      assert Waiting(RequestOf(key), n)[1..] == Waiting(RequestOf(key), n - 1);
    }
  }

  ghost predicate AtOnce(events: seq<Event>) {
    forall i :: 0 <= i < |events| ==> events[i].at == 0 && !events[i].Succeed?
  }

  /** The run so far has recorded `n` failures and `pending` requests are past the check. */
  ghost predicate Reached(p: Policy, states: seq<State>, events: seq<Event>, key: Key, k: nat, n: nat, pending: nat) {
    && Run(p, states, events, key, k) && AtOnce(events) && Failures(events, key) == n
    && states[|events|] == State(FailedTimes(RequestOf(key), n), Waiting(RequestOf(key), pending))
  }

  lemma Extend(p: Policy, states: seq<State>, events: seq<Event>, e: Event, key: Key, k: nat) returns (longer: seq<State>, all: seq<Event>)
    requires Run(p, states, events, key, k) && AtOnce(events) && Enabled(states[|events|], e) && e.at == 0 && !e.Succeed?
    requires Pending(After(p, states[|events|], e).pending, key) <= k
    ensures Run(p, longer, all, key, k) && AtOnce(all) && |all| == |events| + 1
    ensures longer[|all|] == After(p, states[|events|], e)
    ensures Failures(all, key) == Failures(events, key) + if FailsFor(e, key) then 1 else 0
  {
    longer, all := states + [After(p, states[|events|], e)], events + [e];
    assert all[..|events|] == events;
    forall i | 0 <= i < |all|
      ensures Steps(p, longer, all, i)
    {
      assert i < |events| ==> Steps(p, states, events, i);
    }
  }

  lemma CheckPasses(p: Policy, states: seq<State>, events: seq<Event>, key: Key, k: nat, n: nat, pending: nat) returns (longer: seq<State>, all: seq<Event>)
    requires Reached(p, states, events, key, k, n, pending) && n < p.maxAttempts && pending < k
    ensures Reached(p, longer, all, key, k, n, pending + 1)
  {
    var r := RequestOf(key);
    NotYetLocked(p, r, n);
    PendingOfWaiting(key, pending + 1);
    assert [r] + Waiting(r, pending) == Waiting(r, pending + 1);
    longer, all := Extend(p, states, events, Check(r.user, r.ip, 0), key, k);
  }

  lemma FailureRecorded(p: Policy, states: seq<State>, events: seq<Event>, key: Key, k: nat, n: nat, pending: nat) returns (longer: seq<State>, all: seq<Event>)
    requires Reached(p, states, events, key, k, n, pending) && 0 < pending <= k
    ensures Reached(p, longer, all, key, k, n + 1, pending - 1)
  {
    var r := RequestOf(key);
    PendingOfWaiting(key, pending - 1);
    assert Waiting(r, pending)[0] == r && Waiting(r, pending)[1..] == Waiting(r, pending - 1);
    longer, all := Extend(p, states, events, Fail(r.user, r.ip, 0), key, k);
  }

  lemma NothingYet(p: Policy, key: Key, k: nat)
    ensures Reached(p, [State([], [])], [], key, k, 0, 0)
  {
  }

  /** `n` failures one by one, from an empty table. */
  lemma {:induction false} OneByOne(p: Policy, key: Key, k: nat, n: nat) returns (states: seq<State>, events: seq<Event>)
    requires n <= p.maxAttempts && k > 0
    ensures Reached(p, states, events, key, k, n, 0)
  {
    states, events := [State([], [])], [];
    if n == 0 {
      NothingYet(p, key, k);
    } else {
      states, events := OneByOne(p, key, k, n - 1);
      states, events := CheckPasses(p, states, events, key, k, n - 1, 0);
      states, events := FailureRecorded(p, states, events, key, k, n - 1, 1);
    }
  }

  lemma {:induction false} ManyChecksPass(p: Policy, states: seq<State>, events: seq<Event>, key: Key, k: nat, n: nat, more: nat) returns (longer: seq<State>, all: seq<Event>)
    requires Reached(p, states, events, key, k, n, 0) && n < p.maxAttempts && more <= k
    ensures Reached(p, longer, all, key, k, n, more)
  {
    longer, all := states, events;
    if more > 0 {
      longer, all := ManyChecksPass(p, states, events, key, k, n, more - 1);
      longer, all := CheckPasses(p, longer, all, key, k, n, more - 1);
    }
  }

  lemma {:induction false} ManyFailures(p: Policy, states: seq<State>, events: seq<Event>, key: Key, k: nat, n: nat, pending: nat) returns (longer: seq<State>, all: seq<Event>)
    requires Reached(p, states, events, key, k, n, pending) && pending <= k
    ensures Reached(p, longer, all, key, k, n + pending, 0)
    decreases pending
  {
    longer, all := states, events;
    if pending > 0 {
      longer, all := FailureRecorded(p, states, events, key, k, n, pending);
      longer, all := ManyFailures(p, longer, all, key, k, n + 1, pending - 1);
    }
  }

  /**
   The bound is reached for every policy, every key and every number of simultaneous requests,
   so the limit itself holds exactly when requests are checked and recorded one at a time.
  */
  lemma BoundIsReached(p: Policy, key: Key, k: nat) returns (states: seq<State>, events: seq<Event>)
    requires 0 < p.maxAttempts && 0 < p.cooldown <= p.window && k >= 1
    ensures Run(p, states, events, key, k) && QuietSpan(p, states, events, key)
    ensures Failures(events, key) == p.maxAttempts + k - 1
  {
    states, events := OneByOne(p, key, k, p.maxAttempts - 1);
    states, events := ManyChecksPass(p, states, events, key, k, p.maxAttempts - 1, k);
    states, events := ManyFailures(p, states, events, key, k, p.maxAttempts - 1, k);
  }

  /** Limiting failures to `maxAttempts` in every quiet span, and having no two requests at once, are the same. */
  lemma LimitHoldsIff(p: Policy, key: Key, k: nat)
    requires 0 < p.maxAttempts && 0 < p.cooldown <= p.window && k >= 1
    ensures (forall states, events :: Run(p, states, events, key, k) && QuietSpan(p, states, events, key) ==> Failures(events, key) <= p.maxAttempts) <==> k == 1
  {
    if k == 1 {
      forall states, events | Run(p, states, events, key, k) && QuietSpan(p, states, events, key)
        ensures Failures(events, key) <= p.maxAttempts
      {
        FailuresBounded(p, states, events, key, k);
      }
    } else {
      var states, events := BoundIsReached(p, key, k);
    }
  }
}
