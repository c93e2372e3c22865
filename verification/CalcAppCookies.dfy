/**
 When cookies are due and what they say: no later than the maximum time and the maximum
 number of calculations since the last one allow, and no earlier than one of them asks for.
 */
module CalcAppCookies {
  import opened Wrappers
  import opened CalcAppModel
  import opened CalcAppRuns

  function Later(a: int, b: int): int { if a > b then a else b }

  /** rint() is nearest, and even if there are two such. */
  lemma RintNearest(x: real)
    ensures -0.5 <= Rint(x) as real - x <= 0.5
    ensures Rint(x) as real - x == 0.5 || Rint(x) as real - x == -0.5 ==> Rint(x) % 2 == 0
    ensures x >= 0.0 ==> Rint(x) >= 0
    ensures x == x.Floor as real ==> Rint(x) as real == x
  {
    var f := x.Floor;
    assert f as real <= x < f as real + 1.0;
  }

  /** Calculations since the last cookie, as they are known when the job is scheduled. */
  function Since(j: Job): real { j.completed - j.lastCookieCompleted }

  /** The time limit alone: the maximum time after the last cookie, or at once. */
  function TimeLimit(p: Params, j: Job, now: nat): int { Later(now, j.lastCookieAt + p.cookieMaxTime) }

  lemma ByTime(p: Params, j: Job, now: nat)
    ensures now + Rint(Max(0.0, p.cookieMaxTime as real - (now as real - j.lastCookieAt as real))) == TimeLimit(p, j, now)
  {
    var x := Max(0.0, p.cookieMaxTime as real - (now as real - j.lastCookieAt as real));
    var n := Later(0, p.cookieMaxTime - (now - j.lastCookieAt));
    assert x == n as real;
    RintNearest(x);
  }

  function Times(a: real, b: real): real { a * b }

  /** The work that a job gets in some time. */
  function Credited(t: int, rate: real): real { Times(t as real, rate) }

  lemma Distribute(a: real, b: real, rate: real)
    ensures Times(a + b, rate) == Times(a, rate) + Times(b, rate)
  {
  }

  lemma HalfShare(d: real, rate: real)
    requires -0.5 <= d <= 0.5 && rate > 0.0
    ensures -(rate / 2.0) <= Times(d, rate) <= rate / 2.0
  {
    Longer(-0.5, d, rate);
    Longer(d, 0.5, rate);
  }

  lemma Quotient(togo: real, rate: real)
    requires togo >= 0.0 && rate > 0.0
    ensures togo / rate >= 0.0 && Times(togo / rate, rate) == togo
  {
  }

  lemma ByCalculations(togo: real, rate: real)
    requires togo >= 0.0 && rate > 0.0
    ensures var t := Rint(togo / rate); t >= 0 && togo - rate / 2.0 <= Credited(t, rate) <= togo + rate / 2.0
  {
    Quotient(togo, rate);
    NearShare(togo / rate, rate, togo);
  }

  lemma NearShare(q: real, rate: real, togo: real)
    requires q >= 0.0 && rate > 0.0 && Times(q, rate) == togo
    ensures var t := Rint(q); t >= 0 && togo - rate / 2.0 <= Credited(t, rate) <= togo + rate / 2.0
  {
    hide Rint, Times;
    var t := Rint(q);
    RintNearest(q);
    var d := t as real - q;
    assert t as real == q + d;
    Distribute(q, d, rate);
    HalfShare(d, rate);
  }

  lemma CreditedGrows(a: int, b: int, rate: real)
    requires a <= b && rate > 0.0
    ensures Credited(a, rate) <= Credited(b, rate)
  {
    Longer(a as real, b as real, rate);
  }

  /** The work between two cookies stays within the limit, up to the rounding to whole
      microseconds, unless it is over the limit already. */
  predicate WithinWork(p: Params, j: Job, rate: real, now: nat, t: int) {
    Since(j) + Credited(t - now, rate) <= Max(p.cookieMaxCalculations, Since(j)) + rate / 2.0
  }

  predicate WorkReached(p: Params, j: Job, rate: real, now: nat, t: int) {
    Since(j) + Credited(t - now, rate) >= p.cookieMaxCalculations - rate / 2.0
  }

  /** A cookie is due as soon as one of its two limits is reached, and not before. */
  lemma CookieIsDue(p: Params, j: Job, rate: real, now: nat)
    requires rate > 0.0
    ensures var t := NextCookie(p, j, rate, now);
      && now <= t <= TimeLimit(p, j, now)
      && WithinWork(p, j, rate, now, t)
      && (t == TimeLimit(p, j, now) || WorkReached(p, j, rate, now, t))
  {
    var togo := Max(0.0, p.cookieMaxCalculations - Since(j));
    var a, b := Rint(togo / rate), TimeLimit(p, j, now) - now;
    ByTime(p, j, now);
    ByCalculations(togo, rate);
    assert NextCookie(p, j, rate, now) == now + Min(a, b);
    hide Rint, Credited, TimeLimit;
    if b < a { CreditedGrows(b, a, rate); }
  }

  // ---- The schedule is not from the future ------------------------------------------------------------------

  predicate StampedBy(s: Server, end: nat) {
    forall j :: j in s.jobs ==> j.scheduledAt <= end
  }

  lemma UpdateStamped(p: Params, s: Server, now: nat, end: nat)
    requires StampedBy(s, end)
    ensures StampedBy(UpdateCalculations(p, s, now), end)
  {
    var s' := UpdateCalculations(p, s, now);
    forall j | j in s'.jobs ensures j.scheduledAt <= end {
      var i :| 0 <= i < |s'.jobs| && s'.jobs[i] == j;
      assert s.jobs[i] in s.jobs;
    }
  }

  lemma ScheduleStamped(p: Params, s: Server, now: nat, end: nat)
    requires ValidParams(p) && now <= end
    ensures StampedBy(ScheduleJobs(p, s, now), end)
  {
    var s' := ScheduleJobs(p, s, now);
    forall j | j in s'.jobs ensures j.scheduledAt <= end {
      var i :| 0 <= i < |s'.jobs| && s'.jobs[i] == j;
    }
  }

  ghost predicate ReadBy(clock: Clock, end: nat) { forall i: nat :: clock(i) <= end }

  lemma RemoveStamped(p: Params, s: Server, i: nat, clock: Clock, k: nat, end: nat)
    requires ValidParams(p) && i < |s.jobs| && ReadBy(clock, end)
    ensures StampedBy(RemoveJob(p, s, i, clock, k), end)
  {
    var s1 := UpdateCalculations(p, s, clock(k));
    ScheduleStamped(p, Retire(s1, i), clock(k + 1), end);
  }

  lemma AdmitStamped(p: Params, s: Server, session: nat, jobId: nat, size: nat, completed: real, sendOk: bool, clock: Clock, end: nat)
    requires ValidParams(p) && StampedBy(s, end) && ReadBy(clock, end)
    ensures StampedBy(Admit(p, s, session, jobId, size, completed, sendOk, clock), end)
  {
    if |s.jobs| < p.maxJobs {
      var s1 := UpdateCalculations(p, s, clock(0));
      var job := NewJob(p, session, jobId, size, completed, clock(1), clock(2));
      ScheduleStamped(p, s1.(jobs := [job] + s1.jobs), clock(3), end);
      if !sendOk { RemoveStamped(p, AddJob(p, s, session, jobId, size, completed, clock, 0), 0, clock, 4, end); }
    }
  }

  lemma EditStamped(s: Server, i: nat, job: Job, end: nat)
    requires StampedBy(s, end) && i < |s.jobs| && job.scheduledAt <= end
    ensures StampedBy(s.(jobs := s.jobs[i := job]), end)
  {
    forall j | j in s.jobs[i := job] ensures j.scheduledAt <= end {
      var k :| 0 <= k < |s.jobs| && s.jobs[i := job][k] == j;
      assert s.jobs[k] in s.jobs;
    }
  }

  lemma TimerStamped(p: Params, s: Server, sendOk: bool, clock: Clock, end: nat)
    requires ValidParams(p) && StampedBy(s, end) && ReadBy(clock, end)
    ensures StampedBy(HandleTimer(p, s, sendOk, clock), end)
  {
    hide UpdateCalculations, ScheduleJobs, SendCookie, RemoveJob;
    var i := FirstDue(s.jobs, clock(0));
    if i < |s.jobs| {
      var job := s.jobs[i];
      assert job in s.jobs;
      if Due(job.completeAt, clock(0)) {
        CompleteStamped(p, s.(jobs := s.jobs[i := job.(completeAt := None)]), i, clock, 1, end);
      } else if Due(job.cookieAt, clock(0)) {
        var s1 := UpdateCalculations(p, s.(jobs := s.jobs[i := job.(cookieAt := None)]), clock(1));
        ScheduleStamped(p, SendCookie(p, s1, i, sendOk, clock, 2), clock(4), end);
      } else if Due(job.keepAliveAt, clock(0)) {
        var job' := job.(keepAliveAt := None, keepAliveTimeoutAt := Some(clock(1) + p.keepAliveTimeout));
        EditStamped(s, i, job', end);
        if !sendOk { RemoveStamped(p, s.(jobs := s.jobs[i := job']), i, clock, 2, end); }
      } else {
        RemoveStamped(p, s.(jobs := s.jobs[i := job.(keepAliveTimeoutAt := None)]), i, clock, 1, end);
      }
    }
  }

  lemma CompleteStamped(p: Params, s: Server, i: nat, clock: Clock, k: nat, end: nat)
    requires ValidParams(p) && i < |s.jobs| && ReadBy(clock, end)
    ensures StampedBy(CompleteJob(p, s, i, clock, k), end)
  {
    var s1 := ScheduleJobs(p, UpdateCalculations(p, s, clock(k)), clock(k + 1));
    RemoveStamped(p, s1.(jobs := s1.jobs[i := s1.jobs[i].(reported := Some(s1.jobs[i].completed))]), i, clock, k + 2, end);
  }

  lemma {:induction false} ShutdownEmpties(p: Params, s: Server, clock: Clock, k: nat)
    requires ValidParams(p)
    ensures RemoveRemaining(p, s, clock, k).jobs == []
    decreases |s.jobs|
  {
    if s.jobs != [] { ShutdownEmpties(p, RemoveJob(p, s, 0, clock, k), clock, k + 2); }
  }

  lemma EventStamped(s: System, e: Event)
    requires Timely(s, e) && StampedBy(s.server, s.now)
    ensures ReadBy(e.clock, e.end) && StampedBy(s.server, e.end)
  {
    assert e.clock(0) <= e.end;
  }

  lemma StepStamped(p: Params, s: System, e: Event)
    requires ValidParams(p) && Timely(s, e) && StampedBy(s.server, s.now)
    ensures StampedBy(Apply(p, s, e).server, e.end)
  {
    hide Admit, RemoveJob, HandleTimer, RemoveRemaining, Timely, ReadBy, UpdateCalculations, ScheduleJobs, SendCookies;
    var t := s.server;
    EventStamped(s, e);
    match e
    case Request(session, jobId, size, sendOk, clock, end) => AdmitStamped(p, t, session, jobId, size, 0.0, sendOk, clock, end);
    case CookieEcho(session, jobId, size, cookie, sendOk, clock, end) =>
      AdmitStamped(p, t, session, jobId, size, cookie as real, sendOk, clock, end);
    case KeepAlive(session, jobId, sendOk, clock, end) =>
      var i := FindJob(t.jobs, session, jobId);
      if i < |t.jobs| && !sendOk { RemoveStamped(p, t, i, clock, 0, end); }
    case KeepAliveAck(session, jobId, clock, end) =>
      var i := FindJob(t.jobs, session, jobId);
      if i < |t.jobs| {
        assert t.jobs[i] in t.jobs;
        EditStamped(t, i, HandleKeepAliveAck(p, t, session, jobId, clock).jobs[i], end);
      }
    case Timer(sendOk, clock, end) => TimerStamped(p, t, sendOk, clock, end);
    case Shutdown(clean, sent, clock, end) =>
      var s1 := if clean
        then SendCookies(p, ScheduleJobs(p, UpdateCalculations(p, t, clock(0)), clock(1)), 0, sent, clock, 2) else t;
      ShutdownEmpties(p, s1, clock, 2 + 2 * |t.jobs|);
  }

  lemma {:induction false} RunStamped(p: Params, s: System, es: seq<Event>)
    requires ValidParams(p) && StampedBy(s.server, s.now) && Possible(p, s, es)
    ensures StampedBy(Run(p, s, es).server, Run(p, s, es).now)
    decreases |es|
  {
    if es != [] {
      StepStamped(p, s, es[0]);
      RunStamped(p, Apply(p, s, es[0]), es[1..]);
    }
  }

  // ---- Main result ---------------------------------------------------------------------------------------------

  /** Cookies in time: in every run the next cookie of every running job is due no later than
      the maximum time after the last cookie (or the moment of scheduling, which has passed),
      and no later than its work allows at the current rate; and it is due no earlier than
      one of the two limits. */
  lemma CookiesInTime(p: Params, started: nat, es: seq<Event>, j: Job)
    requires ValidParams(p) && Possible(p, Start(started), es) && j in Run(p, Start(started), es).server.jobs
    ensures var end := Run(p, Start(started), es);
      var rate := Rate(p, |end.server.jobs|);
      && j.cookieAt.Some? && j.scheduledAt <= end.now
      && var t := j.cookieAt.value;
         && j.scheduledAt <= t <= Later(end.now, j.lastCookieAt + p.cookieMaxTime)
         && WithinWork(p, j, rate, j.scheduledAt, t)
         && (t == Later(j.scheduledAt, j.lastCookieAt + p.cookieMaxTime) || WorkReached(p, j, rate, j.scheduledAt, t))
  {
    StartInv(p, started);
    RunKeepsInv(p, Start(started), es);
    RunStamped(p, Start(started), es);
    var end := Run(p, Start(started), es);
    var rate := Rate(p, |end.server.jobs|);
    assert InTime(p, j, rate);
    CookieIsDue(p, j, rate, j.scheduledAt);
  }
}
