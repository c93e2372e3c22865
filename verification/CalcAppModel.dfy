/**
 The CalcApp server: a processor-sharing scheduler.  Its capacity is divided evenly
 over the running jobs; whenever their number changes, the work done so far is
 credited first and then all deadlines are computed anew.

 `double` is modelled by `real`; time stamps are microseconds, and a time stamp
 that never comes (~0ULL) is `None`.
 */
module CalcAppModel {
  import opened Wrappers

  datatype Params = Params(
    capacity: real,
    maxJobs: nat,
    keepAliveInterval: nat,
    keepAliveTimeout: nat,
    cookieMaxTime: nat,
    cookieMaxCalculations: real)

  /** A job.  The last four fields are history: the progress with which the job was
      admitted, the progress reported in the cookies sent for it, and the progress at the
      moment at which its completion was reported, and when it was scheduled last. */
  datatype Job = Job(
    session: nat,
    jobId: nat,
    size: nat,
    completed: real,
    lastUpdateAt: nat,
    lastCookieAt: nat,
    lastCookieCompleted: real,
    keepAliveAt: Option<nat>,
    keepAliveTimeoutAt: Option<nat>,
    completeAt: Option<nat>,
    cookieAt: Option<nat>,
    initial: real,
    cookies: seq<int>,
    reported: Option<real>,
    scheduledAt: nat)

  /** `jobs` is the job list, newest first; `retired` collects the removed jobs. */
  datatype Server = Server(jobs: seq<Job>, used: real, started: nat, retired: seq<Job>)

  /** The readings of the clock during one event, in the order in which they are taken. */
  type Clock = nat -> nat

  // ---- Rounding -------------------------------------------------------------------

  function Ceil(x: real): int { -((-x).Floor) }

  /** rint() in the default rounding mode: to nearest, ties to even. */
  function Rint(x: real): int {
    var f := x.Floor;
    var d := x - f as real;
    if d < 0.5 || (d == 0.5 && f % 2 == 0) then f else f + 1
  }

  function Max(x: real, y: real): real { if x > y then x else y }

  function Min(x: int, y: int): int { if x < y then x else y }

  // ---- Crediting and scheduling -------------------------------------------------------

  /** Calculations per microsecond that each of `n` jobs gets. */
  function Rate(p: Params, n: nat): real
    requires n > 0
  {
    p.capacity / (n as real * 1000000.0)
  }

  /** Calculations to be credited to a job at time `now`, up to its size. */
  function Gain(j: Job, rate: real, now: nat): real {
    var done := (now - j.lastUpdateAt) as real * rate;
    if j.completed + done < j.size as real then done else j.size as real - j.completed
  }

  function Credit(j: Job, rate: real, now: nat): Job {
    var done := (now - j.lastUpdateAt) as real * rate;
    var c := if j.completed + done < j.size as real then j.completed + done else j.size as real;
    j.(completed := c, lastUpdateAt := now)
  }

  function CreditAll(jobs: seq<Job>, rate: real, now: nat): (r: seq<Job>)
    ensures |r| == |jobs| && forall i :: 0 <= i < |r| ==> r[i] == Credit(jobs[i], rate, now)
  {
    if jobs == [] then [] else [Credit(jobs[0], rate, now)] + CreditAll(jobs[1..], rate, now)
  }

  function Gains(jobs: seq<Job>, rate: real, now: nat): real {
    if jobs == [] then 0.0 else Gain(jobs[0], rate, now) + Gains(jobs[1..], rate, now)
  }

  function UpdateCalculations(p: Params, s: Server, now: nat): (r: Server)
    ensures |r.jobs| == |s.jobs|
    ensures r.started == s.started
  {
    if s.jobs == [] then s
    else
      var rate := Rate(p, |s.jobs|);
      s.(jobs := CreditAll(s.jobs, rate, now), used := s.used + Gains(s.jobs, rate, now))
  }

  /** When the job is complete if it keeps its share. */
  function FinishTime(j: Job, rate: real): int
    requires rate > 0.0
  {
    j.lastUpdateAt + Ceil((j.size as real - j.completed) / rate)
  }

  function NextCookie(p: Params, j: Job, rate: real, now: nat): int
    requires rate > 0.0
  {
    var byCalculations := Rint(Max(0.0, p.cookieMaxCalculations - (j.completed - j.lastCookieCompleted)) / rate);
    var byTime := Rint(Max(0.0, p.cookieMaxTime as real - (now as real - j.lastCookieAt as real)));
    now + Min(byCalculations, byTime)
  }

  /** Converts a time to a time stamp; times before zero do not occur. */
  function Stamp(t: int): Option<nat> { Some(if t >= 0 then t else 0) }

  function ScheduleJob(p: Params, j: Job, rate: real, now: nat): Job
    requires rate > 0.0
  {
    j.(completeAt := Stamp(FinishTime(j, rate)), cookieAt := Stamp(NextCookie(p, j, rate, now)), scheduledAt := now)
  }

  function ScheduleAll(p: Params, jobs: seq<Job>, rate: real, now: nat): (r: seq<Job>)
    requires rate > 0.0
    ensures |r| == |jobs| && forall i :: 0 <= i < |r| ==> r[i] == ScheduleJob(p, jobs[i], rate, now)
  {
    if jobs == [] then [] else [ScheduleJob(p, jobs[0], rate, now)] + ScheduleAll(p, jobs[1..], rate, now)
  }

  predicate ValidParams(p: Params) { p.capacity > 0.0 }

  function ScheduleJobs(p: Params, s: Server, now: nat): (r: Server)
    requires ValidParams(p)
    ensures |r.jobs| == |s.jobs|
    ensures r.started == s.started
  {
    if s.jobs == [] then s
    else s.(jobs := ScheduleAll(p, s.jobs, Rate(p, |s.jobs|), now))
  }

  // ---- Admission and removal ------------------------------------------------------------

  function NewJob(p: Params, session: nat, jobId: nat, size: nat, completed: real, now: nat, stamped: nat): Job {
    Job(session, jobId, size, completed, stamped, stamped, 0.0,
        Some(now + p.keepAliveInterval), None, None, None, completed, [], None, stamped)
  }

  /** Readings 0 to 3 of the clock are used, from `k` on. */
  function AddJob(p: Params, s: Server, session: nat, jobId: nat, size: nat, completed: real, clock: Clock, k: nat): (r: Server)
    requires ValidParams(p)
    ensures r.started == s.started
  {
    if |s.jobs| < p.maxJobs then
      var s1 := UpdateCalculations(p, s, clock(k));
      var job := NewJob(p, session, jobId, size, completed, clock(k + 1), clock(k + 2));
      ScheduleJobs(p, s1.(jobs := [job] + s1.jobs), clock(k + 3))
    else s
  }

  /** Readings 0 and 1 of the clock are used, from `k` on. */
  function RemoveJob(p: Params, s: Server, i: nat, clock: Clock, k: nat): (r: Server)
    requires ValidParams(p) && i < |s.jobs|
    ensures |r.jobs| == |s.jobs| - 1
    ensures r.started == s.started
  {
    var s1 := UpdateCalculations(p, s, clock(k));
    var s2 := s1.(jobs := s1.jobs[..i] + s1.jobs[i + 1..], retired := s1.retired + [s1.jobs[i]]);
    ScheduleJobs(p, s2, clock(k + 1))
  }

  // ---- Cookies -----------------------------------------------------------------------------

  /** Readings 0 and 1 of the clock are used, from `k` on. */
  function SendCookie(p: Params, s: Server, i: nat, sendOk: bool, clock: Clock, k: nat): (r: Server)
    requires ValidParams(p) && i < |s.jobs|
    ensures |r.jobs| == if sendOk then |s.jobs| else |s.jobs| - 1
    ensures r.started == s.started
  {
    var job := s.jobs[i];
    if !sendOk then RemoveJob(p, s, i, clock, k)
    else s.(jobs := s.jobs[i := job.(cookies := job.cookies + [Rint(job.completed)],
                                     lastCookieAt := clock(k), lastCookieCompleted := job.completed)])
  }

  // ---- Events ----------------------------------------------------------------------------------

  function FindJob(jobs: seq<Job>, session: nat, jobId: nat): (i: nat)
    ensures i <= |jobs|
    ensures i < |jobs| ==> jobs[i].session == session && jobs[i].jobId == jobId
    ensures forall j :: 0 <= j < i ==> !(jobs[j].session == session && jobs[j].jobId == jobId)
  {
    if jobs == [] then 0
    else if jobs[0].session == session && jobs[0].jobId == jobId then 0
    else 1 + FindJob(jobs[1..], session, jobId)
  }

  predicate Due(t: Option<nat>, now: nat) { t.Some? && t.value <= now }

  predicate AnyDue(j: Job, now: nat) {
    Due(j.completeAt, now) || Due(j.cookieAt, now) || Due(j.keepAliveAt, now) || Due(j.keepAliveTimeoutAt, now)
  }

  function FirstDue(jobs: seq<Job>, now: nat): (i: nat)
    ensures i <= |jobs|
    ensures i < |jobs| ==> AnyDue(jobs[i], now)
    ensures forall j :: 0 <= j < i ==> !AnyDue(jobs[j], now)
  {
    if jobs == [] then 0 else if AnyDue(jobs[0], now) then 0 else 1 + FirstDue(jobs[1..], now)
  }

  /** A job is admitted, and removed again if the acceptance cannot be sent. */
  function Admit(p: Params, s: Server, session: nat, jobId: nat, size: nat, completed: real,
                 sendOk: bool, clock: Clock): (r: Server)
    requires ValidParams(p)
    ensures r.started == s.started
  {
    var s1 := AddJob(p, s, session, jobId, size, completed, clock, 0);
    if |s.jobs| < p.maxJobs && !sendOk then RemoveJob(p, s1, 0, clock, 4) else s1
  }

  /** The completion of a job is reported with the progress it has then. */
  function CompleteJob(p: Params, s: Server, i: nat, clock: Clock, k: nat): (r: Server)
    requires ValidParams(p) && i < |s.jobs|
    ensures r.started == s.started
  {
    var s1 := ScheduleJobs(p, UpdateCalculations(p, s, clock(k)), clock(k + 1));
    var s2 := s1.(jobs := s1.jobs[i := s1.jobs[i].(reported := Some(s1.jobs[i].completed))]);
    RemoveJob(p, s2, i, clock, k + 2)
  }

  function CookieTimer(p: Params, s: Server, i: nat, sendOk: bool, clock: Clock, k: nat): (r: Server)
    requires ValidParams(p) && i < |s.jobs|
    ensures r.started == s.started
  {
    var s1 := UpdateCalculations(p, s, clock(k));
    ScheduleJobs(p, SendCookie(p, s1, i, sendOk, clock, k + 1), clock(k + 3))
  }

  function HandleTimer(p: Params, s: Server, sendOk: bool, clock: Clock): (r: Server)
    requires ValidParams(p)
    ensures r.started == s.started
  {
    var i := FirstDue(s.jobs, clock(0));
    if i == |s.jobs| then s
    else
      var job := s.jobs[i];
      if Due(job.completeAt, clock(0)) then
        CompleteJob(p, s.(jobs := s.jobs[i := job.(completeAt := None)]), i, clock, 1)
      else if Due(job.cookieAt, clock(0)) then
        CookieTimer(p, s.(jobs := s.jobs[i := job.(cookieAt := None)]), i, sendOk, clock, 1)
      else if Due(job.keepAliveAt, clock(0)) then
        var s1 := s.(jobs := s.jobs[i := job.(keepAliveAt := None,
                                              keepAliveTimeoutAt := Some(clock(1) + p.keepAliveTimeout))]);
        if sendOk then s1 else RemoveJob(p, s1, i, clock, 2)
      else
        RemoveJob(p, s.(jobs := s.jobs[i := job.(keepAliveTimeoutAt := None)]), i, clock, 1)
  }

  function HandleKeepAlive(p: Params, s: Server, session: nat, jobId: nat, sendOk: bool, clock: Clock): (r: Server)
    requires ValidParams(p)
    ensures r.started == s.started
  {
    var i := FindJob(s.jobs, session, jobId);
    if i == |s.jobs| || sendOk then s else RemoveJob(p, s, i, clock, 0)
  }

  function HandleKeepAliveAck(p: Params, s: Server, session: nat, jobId: nat, clock: Clock): (r: Server)
    ensures r.started == s.started
  {
    var i := FindJob(s.jobs, session, jobId);
    if i == |s.jobs| then s
    else s.(jobs := s.jobs[i := s.jobs[i].(keepAliveTimeoutAt := None,
                                           keepAliveAt := Some(clock(0) + p.keepAliveInterval))])
  }

  /** Sends a cookie for each job from position `i` on, until the list ends; `sendOk(k)`
      tells whether the transmission at clock position `k` succeeds. */
  function SendCookies(p: Params, s: Server, i: nat, sendOk: nat -> bool, clock: Clock, k: nat): (r: Server)
    requires ValidParams(p)
    ensures r.started == s.started
    decreases |s.jobs| - i
  {
    if i >= |s.jobs| then s
    else
      var s1 := SendCookie(p, s, i, sendOk(k), clock, k);
      SendCookies(p, s1, if sendOk(k) then i + 1 else i, sendOk, clock, k + 2)
  }

  function RemoveRemaining(p: Params, s: Server, clock: Clock, k: nat): (r: Server)
    requires ValidParams(p)
    ensures r.started == s.started
    decreases |s.jobs|
  {
    if s.jobs == [] then s
    else RemoveRemaining(p, RemoveJob(p, s, 0, clock, k), clock, k + 2)
  }

  /** removeAllJobs(): a clean shutdown leaves the clients with up-to-date cookies. */
  function RemoveAllJobs(p: Params, s: Server, clean: bool, sendOk: nat -> bool, clock: Clock): (r: Server)
    requires ValidParams(p)
    ensures r.started == s.started
  {
    var s1 := if clean
      then SendCookies(p, ScheduleJobs(p, UpdateCalculations(p, s, clock(0)), clock(1)), 0, sendOk, clock, 2)
      else s;
    RemoveRemaining(p, s1, clock, 2 + 2 * |s.jobs|)
  }
}
