/**
 What holds in every run of a CalcApp server, and along chains of servers that hand
 a job over by cookies.
 */
module CalcAppRuns {
  import opened Wrappers
  import opened CalcAppModel

  /** `clock` gives the readings during the event; all lie between the previous event
      and `end`. */
  datatype Event =
    | Request(session: nat, jobId: nat, size: nat, sendOk: bool, clock: Clock, end: nat)
    | CookieEcho(session: nat, jobId: nat, size: nat, cookie: nat, sendOk: bool, clock: Clock, end: nat)
    | KeepAlive(session: nat, jobId: nat, sendOk: bool, clock: Clock, end: nat)
    | KeepAliveAck(session: nat, jobId: nat, clock: Clock, end: nat)
    | Timer(sendOk: bool, clock: Clock, end: nat)
    | Shutdown(clean: bool, sent: nat -> bool, clock: Clock, end: nat)

  datatype System = System(server: Server, now: nat)

  /** The clock does not run backwards. */
  ghost predicate Steady(clock: Clock) {
    forall i: nat, j: nat :: i <= j ==> clock(i) <= clock(j)
  }

  /** The event lies behind what has happened so far. */
  ghost predicate Timely(s: System, e: Event) {
    Steady(e.clock) && s.now <= e.clock(0) && forall i: nat :: e.clock(i) <= e.end
  }

  /** Cookies come from a server and hence do not claim more than the whole job. */
  ghost predicate Enabled(s: System, e: Event) {
    Timely(s, e) && (e.CookieEcho? ==> e.cookie <= e.size)
  }

  function Handle(p: Params, s: Server, e: Event): Server
    requires ValidParams(p)
  {
    match e
    case Request(session, jobId, size, sendOk, clock, _) => Admit(p, s, session, jobId, size, 0.0, sendOk, clock)
    case CookieEcho(session, jobId, size, cookie, sendOk, clock, _) =>
      Admit(p, s, session, jobId, size, cookie as real, sendOk, clock)
    case KeepAlive(session, jobId, sendOk, clock, _) => HandleKeepAlive(p, s, session, jobId, sendOk, clock)
    case KeepAliveAck(session, jobId, clock, _) => HandleKeepAliveAck(p, s, session, jobId, clock)
    case Timer(sendOk, clock, _) => HandleTimer(p, s, sendOk, clock)
    case Shutdown(clean, sent, clock, _) => RemoveAllJobs(p, s, clean, sent, clock)
  }

  function Apply(p: Params, s: System, e: Event): System
    requires ValidParams(p)
  {
    System(Handle(p, s.server, e), e.end)
  }

  ghost predicate Possible(p: Params, s: System, es: seq<Event>)
    requires ValidParams(p)
    decreases |es|
  {
    es == [] || (Enabled(s, es[0]) && Possible(p, Apply(p, s, es[0]), es[1..]))
  }

  function Run(p: Params, s: System, es: seq<Event>): System
    requires ValidParams(p)
    decreases |es|
  {
    if es == [] then s else Run(p, Apply(p, s, es[0]), es[1..])
  }

  function Start(now: nat): System { System(Server([], 0.0, now, []), now) }

  // ---- Invariants ----------------------------------------------------------------------

  /** Progress never exceeds the job, cookies claim at most half a calculation too
      much and never more than the job, and completion was reported with the whole job done. */
  predicate JobOk(j: Job) {
    && 0.0 <= j.initial <= j.completed <= j.size as real
    && (forall i :: 0 <= i < |j.cookies| ==>
          0 <= j.cookies[i] <= j.size && j.cookies[i] as real <= j.completed + 0.5)
    && (j.reported.Some? ==> j.reported.value == j.size as real == j.completed)
  }

  /** Work that the server has put into jobs since it admitted them. */
  function Work(jobs: seq<Job>): real {
    if jobs == [] then 0.0 else jobs[0].completed - jobs[0].initial + Work(jobs[1..])
  }

  /** Calculations that the capacity allows between two times. */
  function Available(p: Params, from: int, to: int): real {
    (to - from) as real * (p.capacity / 1000000.0)
  }

  /** Holds at every moment, also between the parts of an event. */
  predicate Base(p: Params, s: Server, now: nat) {
    && |s.jobs| <= p.maxJobs
    && s.started <= now
    && (forall j :: j in s.jobs ==> JobOk(j) && s.started <= j.lastUpdateAt <= now)
    && (forall j :: j in s.retired ==> JobOk(j))
    && s.used == Work(s.jobs) + Work(s.retired)
    && s.used <= Available(p, s.started, now)
    && (forall j :: j in s.jobs ==> s.used <= Available(p, s.started, j.lastUpdateAt))
  }

  /** Both deadlines of a job are those that fit its share. */
  predicate InTime(p: Params, j: Job, rate: real) {
    rate > 0.0 && j.completeAt == Stamp(FinishTime(j, rate)) && j.cookieAt == Stamp(NextCookie(p, j, rate, j.scheduledAt))
  }

  /** Every deadline is the one that fits the current number of jobs. */
  predicate Scheduled(p: Params, s: Server)
    requires ValidParams(p)
  {
    forall j :: j in s.jobs ==> InTime(p, j, Rate(p, |s.jobs|))
  }

  predicate Inv(p: Params, s: System)
    requires ValidParams(p)
  {
    Base(p, s.server, s.now) && Scheduled(p, s.server)
  }

  // ---- Crediting ---------------------------------------------------------------------------

  lemma GainBounds(j: Job, rate: real, now: nat)
    requires JobOk(j) && j.lastUpdateAt <= now && rate > 0.0
    ensures 0.0 <= Gain(j, rate, now) <= (now - j.lastUpdateAt) as real * rate
    ensures Credit(j, rate, now).completed == j.completed + Gain(j, rate, now)
    ensures JobOk(Credit(j, rate, now))
  {
    assert (now - j.lastUpdateAt) as real * rate >= 0.0;
  }

  /** What is credited to the jobs is what is counted as used. */
  lemma {:induction false} GainsAreWork(jobs: seq<Job>, rate: real, now: nat)
    requires rate > 0.0 && forall j :: j in jobs ==> JobOk(j) && j.lastUpdateAt <= now
    ensures Work(CreditAll(jobs, rate, now)) == Work(jobs) + Gains(jobs, rate, now)
  {
    if jobs != [] {
      assert jobs[0] in jobs;
      GainBounds(jobs[0], rate, now);
      GainsAreWork(jobs[1..], rate, now);
      assert CreditAll(jobs, rate, now)[1..] == CreditAll(jobs[1..], rate, now);
    }
  }

  /** If no job gets more than `share`, all together get no more than `|jobs|` shares. */
  lemma {:induction false} GainsBounded(jobs: seq<Job>, rate: real, now: nat, share: real)
    requires forall j :: j in jobs ==> Gain(j, rate, now) <= share
    ensures Gains(jobs, rate, now) <= |jobs| as real * share
  {
    if jobs != [] {
      assert jobs[0] in jobs;
      GainsBounded(jobs[1..], rate, now, share);
      OneMore(|jobs[1..]|, share);
    }
  }

  /** The shares are no larger than those since the earliest last update. */
  lemma ShareSince(j: Job, rate: real, now: nat, base: nat)
    requires JobOk(j) && base <= j.lastUpdateAt <= now && rate > 0.0
    ensures Gain(j, rate, now) <= (now - base) as real * rate
  {
    GainBounds(j, rate, now);
    Longer((now - j.lastUpdateAt) as real, (now - base) as real, rate);
  }

  lemma OneMore(n: nat, x: real)
    ensures (n + 1) as real * x == x + n as real * x
  {
  }

  lemma Longer(a: real, b: real, rate: real)
    requires a <= b && rate > 0.0
    ensures a * rate <= b * rate
  {
  }

  lemma {:induction false} EarliestUpdate(jobs: seq<Job>) returns (base: nat)
    requires jobs != []
    ensures forall j :: j in jobs ==> base <= j.lastUpdateAt
    ensures exists j :: j in jobs && j.lastUpdateAt == base
  {
    base := jobs[0].lastUpdateAt;
    if |jobs| > 1 {
      var rest := EarliestUpdate(jobs[1..]);
      if rest < base { base := rest; }
    } else {
      assert jobs[0] in jobs;
    }
  }

  /** The shares of `n` jobs at the given rate. */
  function Shares(n: nat, from: int, to: int, rate: real): real {
    n as real * ((to - from) as real * rate)
  }

  lemma WholeCapacity(p: Params, n: nat, from: int, to: int)
    requires n > 0
    ensures Shares(n, from, to, Rate(p, n)) == Available(p, from, to)
  {
    var m, time := n as real, (to - from) as real;
    assert Rate(p, n) == p.capacity / 1000000.0 / m;
    assert m * (p.capacity / 1000000.0 / m) == p.capacity / 1000000.0;
    assert m * (time * Rate(p, n)) == time * (m * Rate(p, n));
  }

  lemma RatePositive(p: Params, n: nat)
    requires ValidParams(p) && n > 0
    ensures Rate(p, n) > 0.0
  {
  }

  lemma AvailableAdds(p: Params, a: int, b: int, c: int)
    ensures Available(p, a, b) + Available(p, b, c) == Available(p, a, c)
  {
    var rate := p.capacity / 1000000.0;
    assert (b - a) as real * rate + (c - b) as real * rate == ((b - a) as real + (c - b) as real) * rate;
  }

  lemma AvailableGrows(p: Params, a: int, b: int, c: int)
    requires ValidParams(p) && b <= c
    ensures Available(p, a, b) <= Available(p, a, c)
  {
    Longer((b - a) as real, (c - a) as real, p.capacity / 1000000.0);
  }

  lemma GainsSince(jobs: seq<Job>, rate: real, now: nat, base: nat)
    requires rate > 0.0 && forall j :: j in jobs ==> JobOk(j) && base <= j.lastUpdateAt <= now
    ensures Gains(jobs, rate, now) <= Shares(|jobs|, base, now, rate)
  {
    hide Gain, Gains, JobOk;
    forall j | j in jobs ensures Gain(j, rate, now) <= (now - base) as real * rate { ShareSince(j, rate, now, base); }
    GainsBounded(jobs, rate, now, (now - base) as real * rate);
  }

  lemma GainsWithinCapacity(p: Params, jobs: seq<Job>, now: nat, base: nat)
    requires ValidParams(p) && jobs != []
    requires forall j :: j in jobs ==> JobOk(j) && base <= j.lastUpdateAt <= now
    ensures Gains(jobs, Rate(p, |jobs|), now) <= Available(p, base, now)
  {
    RatePositive(p, |jobs|);
    GainsSince(jobs, Rate(p, |jobs|), now, base);
    WholeCapacity(p, |jobs|, base, now);
  }

  lemma UpdateWithinCapacity(p: Params, s: Server, before: nat, now: nat)
    requires ValidParams(p) && Base(p, s, before) && before <= now
    ensures UpdateCalculations(p, s, now).used <= Available(p, s.started, now)
  {
    if s.jobs == [] {
      AvailableGrows(p, s.started, before, now);
    } else {
      var base := EarliestUpdate(s.jobs);
      GainsWithinCapacity(p, s.jobs, now, base);
      AvailableAdds(p, s.started, base, now);
    }
  }

  lemma UpdateKeepsBase(p: Params, s: Server, before: nat, now: nat)
    requires ValidParams(p) && Base(p, s, before) && before <= now
    ensures var s' := UpdateCalculations(p, s, now);
      Base(p, s', now) && forall j :: j in s'.jobs ==> j.lastUpdateAt == now
  {
    UpdateWithinCapacity(p, s, before, now);
    if s.jobs != [] {
      var s', rate := UpdateCalculations(p, s, now), Rate(p, |s.jobs|);
      RatePositive(p, |s.jobs|);
      GainsAreWork(s.jobs, rate, now);
      forall j | j in s'.jobs ensures JobOk(j) && j.lastUpdateAt == now {
        var i :| 0 <= i < |s'.jobs| && s'.jobs[i] == j;
        assert s.jobs[i] in s.jobs;
        GainBounds(s.jobs[i], rate, now);
      }
    }
  }

  // ---- Scheduling and editing ----------------------------------------------------------------

  /** The job differs at most in its timers and in when its cookies are due. */
  predicate SameProgress(a: Job, b: Job) {
    && a.size == b.size && a.completed == b.completed && a.initial == b.initial
    && a.lastUpdateAt == b.lastUpdateAt && a.cookies == b.cookies && a.reported == b.reported
  }

  lemma {:induction false} WorkBySame(a: seq<Job>, b: seq<Job>)
    requires |a| == |b| && forall i :: 0 <= i < |a| ==> a[i].completed == b[i].completed && a[i].initial == b[i].initial
    ensures Work(a) == Work(b)
  {
    if a != [] { WorkBySame(a[1..], b[1..]); }
  }

  lemma BaseBySame(p: Params, s: Server, t: Server, now: nat)
    requires Base(p, s, now) && t == s.(jobs := t.jobs) && |t.jobs| == |s.jobs|
    requires forall i :: 0 <= i < |s.jobs| ==> SameProgress(t.jobs[i], s.jobs[i])
    ensures Base(p, t, now)
  {
    WorkBySame(s.jobs, t.jobs);
    forall j | j in t.jobs
      ensures JobOk(j) && s.started <= j.lastUpdateAt <= now && s.used <= Available(p, s.started, j.lastUpdateAt)
    {
      var i :| 0 <= i < |t.jobs| && t.jobs[i] == j;
      assert s.jobs[i] in s.jobs;
    }
  }

  lemma BaseLater(p: Params, s: Server, now: nat, later: nat)
    requires ValidParams(p) && Base(p, s, now) && now <= later
    ensures Base(p, s, later)
  {
    AvailableGrows(p, s.started, now, later);
  }

  lemma ScheduleJobEffect(p: Params, j: Job, rate: real, t: nat)
    requires rate > 0.0
    ensures var j' := ScheduleJob(p, j, rate, t); SameProgress(j', j) && InTime(p, j', rate)
  {
  }

  lemma ScheduleIsScheduled(p: Params, s: Server, t: nat)
    requires ValidParams(p) && s.jobs != []
    ensures var s' := ScheduleJobs(p, s, t);
      Scheduled(p, s') && forall i :: 0 <= i < |s.jobs| ==> SameProgress(s'.jobs[i], s.jobs[i])
  {
    var rate, s' := Rate(p, |s.jobs|), ScheduleJobs(p, s, t);
    RatePositive(p, |s.jobs|);
    hide ScheduleJob, InTime, SameProgress, Rate;
    forall i | 0 <= i < |s.jobs| ensures SameProgress(s'.jobs[i], s.jobs[i]) && InTime(p, s'.jobs[i], rate) {
      ScheduleJobEffect(p, s.jobs[i], rate, t);
    }
  }

  lemma ScheduleKeepsBase(p: Params, s: Server, now: nat, t: nat)
    requires ValidParams(p) && Base(p, s, now)
    ensures Base(p, ScheduleJobs(p, s, t), now) && Scheduled(p, ScheduleJobs(p, s, t))
  {
    if s.jobs != [] {
      ScheduleIsScheduled(p, s, t);
      BaseBySame(p, s, ScheduleJobs(p, s, t), now);
    }
  }

  lemma {:induction false} WorkConcat(a: seq<Job>, b: seq<Job>)
    ensures Work(a + b) == Work(a) + Work(b)
  {
    if a == [] {
      assert a + b == b;
    } else {
      assert (a + b)[1..] == a[1..] + b;
      WorkConcat(a[1..], b);
    }
  }

  /** Removes a job from the list. */
  function Retire(s: Server, i: nat): Server
    requires i < |s.jobs|
  {
    s.(jobs := s.jobs[..i] + s.jobs[i + 1..], retired := s.retired + [s.jobs[i]])
  }

  lemma RetireKeepsBase(p: Params, s: Server, i: nat, now: nat)
    requires Base(p, s, now) && i < |s.jobs|
    ensures Base(p, Retire(s, i), now)
  {
    var a, b, job := s.jobs[..i], s.jobs[i + 1..], s.jobs[i];
    assert s.jobs == a + ([job] + b);
    WorkConcat(a, [job] + b);
    WorkConcat([job], b);
    WorkConcat(a, b);
    WorkConcat(s.retired, [job]);
    assert job in s.jobs;
  }

  lemma RemoveKeepsInv(p: Params, s: Server, i: nat, clock: Clock, k: nat, before: nat)
    requires ValidParams(p) && Base(p, s, before) && before <= clock(k) && i < |s.jobs|
    ensures var s' := RemoveJob(p, s, i, clock, k); Base(p, s', clock(k)) && Scheduled(p, s')
  {
    hide Base, Scheduled;
    var s1 := UpdateCalculations(p, s, clock(k));
    UpdateKeepsBase(p, s, before, clock(k));
    RetireKeepsBase(p, s1, i, clock(k));
    ScheduleKeepsBase(p, Retire(s1, i), clock(k), clock(k + 1));
  }

  /** A new job has made no progress here yet. */
  lemma AdmitKeepsBase(p: Params, s: Server, job: Job, at: nat, now: nat)
    requires ValidParams(p) && Base(p, s, at) && at <= job.lastUpdateAt <= now && |s.jobs| < p.maxJobs
    requires JobOk(job) && job.completed == job.initial
    ensures Base(p, s.(jobs := [job] + s.jobs), now)
  {
    BaseLater(p, s, at, now);
    AvailableGrows(p, s.started, at, job.lastUpdateAt);
    assert ([job] + s.jobs)[1..] == s.jobs;
  }

  lemma AddKeepsInv(p: Params, s: Server, session: nat, jobId: nat, size: nat, completed: real, clock: Clock, before: nat)
    requires ValidParams(p) && Base(p, s, before) && Steady(clock) && before <= clock(0)
    requires |s.jobs| < p.maxJobs && 0.0 <= completed <= size as real
    ensures var s' := AddJob(p, s, session, jobId, size, completed, clock, 0); Base(p, s', clock(3)) && Scheduled(p, s')
  {
    var t0, t1, t2, t3 := clock(0), clock(1), clock(2), clock(3);
    var s1 := UpdateCalculations(p, s, t0);
    UpdateKeepsBase(p, s, before, t0);
    var job := NewJob(p, session, jobId, size, completed, t1, t2);
    AdmitKeepsBase(p, s1, job, t0, t3);
    ScheduleKeepsBase(p, s1.(jobs := [job] + s1.jobs), t3, t3);
  }

  lemma AdmitKeepsInv(p: Params, s: Server, session: nat, jobId: nat, size: nat, completed: real, sendOk: bool,
                      clock: Clock, before: nat)
    requires ValidParams(p) && Base(p, s, before) && Scheduled(p, s) && Steady(clock) && before <= clock(0)
    requires 0.0 <= completed <= size as real
    ensures var s' := Admit(p, s, session, jobId, size, completed, sendOk, clock);
      (Base(p, s', before) || Base(p, s', clock(3)) || Base(p, s', clock(4))) && Scheduled(p, s')
  {
    hide Base, Scheduled;
    if |s.jobs| < p.maxJobs {
      AddKeepsInv(p, s, session, jobId, size, completed, clock, before);
      if !sendOk {
        RemoveKeepsInv(p, AddJob(p, s, session, jobId, size, completed, clock, 0), 0, clock, 4, clock(3));
      }
    }
  }

  // ---- Deadlines ---------------------------------------------------------------------------------

  lemma CeilLeast(x: real, n: int)
    ensures n as real >= x <==> n >= Ceil(x)
  {
    var f := (-x).Floor;
    assert f as real <= -x < f as real + 1.0;
  }

  lemma DivideOut(a: real, t: real, rate: real)
    requires rate > 0.0
    ensures t >= a / rate <==> t * rate >= a
  {
    var q := a / rate;
    assert q * rate == a;
    if t >= q { Longer(q, t, rate); } else { assert (q - t) * rate > 0.0; }
  }

  /** The deadline is the first time at which the credited work reaches the job size. */
  lemma DeadlineIsFirst(j: Job, rate: real, t: nat)
    requires JobOk(j) && rate > 0.0 && j.lastUpdateAt <= t
    ensures Credit(j, rate, t).completed == j.size as real <==> t >= FinishTime(j, rate)
    ensures FinishTime(j, rate) >= j.lastUpdateAt
  {
    var togo := j.size as real - j.completed;
    var elapsed := t - j.lastUpdateAt;
    CeilLeast(togo / rate, elapsed);
    CeilLeast(togo / rate, -1);
    DivideOut(togo, elapsed as real, rate);
    DivideOut(togo, -1.0, rate);
  }

  // ---- Events ---------------------------------------------------------------------------------------

  /** Replaces a job by one with the same progress. */
  lemma EditKeepsBase(p: Params, s: Server, i: nat, job: Job, now: nat)
    requires Base(p, s, now) && i < |s.jobs| && JobOk(job)
    requires job.completed == s.jobs[i].completed && job.initial == s.jobs[i].initial
    requires job.lastUpdateAt == s.jobs[i].lastUpdateAt
    ensures Base(p, s.(jobs := s.jobs[i := job]), now)
  {
    var jobs := s.jobs[i := job];
    assert s.jobs[i] in s.jobs;
    WorkBySame(s.jobs, jobs);
    forall j | j in jobs
      ensures JobOk(j) && s.started <= j.lastUpdateAt <= now && s.used <= Available(p, s.started, j.lastUpdateAt)
    {
      var k :| 0 <= k < |jobs| && jobs[k] == j;
      assert s.jobs[k] in s.jobs;
    }
  }

  /** The job differs at most in its keep-alive timers. */
  predicate SameSchedule(a: Job, b: Job) {
    && SameProgress(a, b) && a.completeAt == b.completeAt && a.cookieAt == b.cookieAt
    && a.lastCookieAt == b.lastCookieAt && a.lastCookieCompleted == b.lastCookieCompleted && a.scheduledAt == b.scheduledAt
  }

  lemma SameInTime(p: Params, a: Job, b: Job, rate: real)
    requires SameSchedule(a, b) && InTime(p, b, rate)
    ensures InTime(p, a, rate)
  {
  }

  lemma EditKeepsScheduled(p: Params, s: Server, i: nat, job: Job)
    requires ValidParams(p) && Scheduled(p, s) && i < |s.jobs| && SameSchedule(job, s.jobs[i])
    ensures Scheduled(p, s.(jobs := s.jobs[i := job]))
  {
    var jobs, rate := s.jobs[i := job], Rate(p, |s.jobs|);
    assert s.jobs[i] in s.jobs;
    SameInTime(p, job, s.jobs[i], rate);
    hide InTime, SameSchedule, Rate;
    forall j | j in jobs ensures InTime(p, j, rate) {
      var k :| 0 <= k < |jobs| && jobs[k] == j;
      assert s.jobs[k] in s.jobs;
    }
  }

  lemma RunningJobOk(p: Params, s: Server, i: nat, now: nat)
    requires Base(p, s, now) && i < |s.jobs|
    ensures JobOk(s.jobs[i]) && s.jobs[i].lastUpdateAt <= now
  {
    assert s.jobs[i] in s.jobs;
  }

  lemma DueMeansFinished(p: Params, s: Server, i: nat, now: nat)
    requires ValidParams(p) && Scheduled(p, s) && i < |s.jobs| && Due(s.jobs[i].completeAt, now)
    ensures FinishTime(s.jobs[i].(completeAt := None), Rate(p, |s.jobs|)) <= now
  {
    assert s.jobs[i] in s.jobs;
  }

  lemma RintBounds(x: real, n: nat)
    requires 0.0 <= x <= n as real
    ensures 0 <= Rint(x) <= n && Rint(x) as real <= x + 0.5
  {
    var f := x.Floor;
    assert f as real <= x < f as real + 1.0;
  }

  lemma CookieKeepsJob(j: Job, at: nat)
    requires JobOk(j)
    ensures JobOk(j.(cookies := j.cookies + [Rint(j.completed)], lastCookieAt := at, lastCookieCompleted := j.completed))
  {
    RintBounds(j.completed, j.size);
  }

  lemma SendCookieKeepsBase(p: Params, s: Server, i: nat, sendOk: bool, clock: Clock, k: nat, before: nat)
    requires ValidParams(p) && Base(p, s, before) && before <= clock(k) && i < |s.jobs|
    ensures Base(p, SendCookie(p, s, i, sendOk, clock, k), clock(k))
  {
    if !sendOk {
      RemoveKeepsInv(p, s, i, clock, k, before);
    } else {
      assert s.jobs[i] in s.jobs;
      CookieKeepsJob(s.jobs[i], clock(k));
      BaseLater(p, s, before, clock(k));
      EditKeepsBase(p, s, i, SendCookie(p, s, i, sendOk, clock, k).jobs[i], clock(k));
    }
  }

  /** The progress of a job that is due, once it is credited. */
  lemma FinishedWhenDue(p: Params, s: Server, i: nat, before: nat, t: nat)
    requires ValidParams(p) && Base(p, s, before) && before <= t && i < |s.jobs|
    requires FinishTime(s.jobs[i], Rate(p, |s.jobs|)) <= before
    ensures var j := UpdateCalculations(p, s, t).jobs[i]; j.completed == j.size as real
  {
    RunningJobOk(p, s, i, before);
    RatePositive(p, |s.jobs|);
    DeadlineIsFirst(s.jobs[i], Rate(p, |s.jobs|), t);
  }

  lemma SameJob(p: Params, s: Server, i: nat, t: nat)
    requires ValidParams(p) && i < |s.jobs|
    ensures SameProgress(ScheduleJobs(p, s, t).jobs[i], s.jobs[i])
  {
    ScheduleIsScheduled(p, s, t);
  }

  /** The state in which a completion is reported: the whole job is done. */
  lemma ReportReady(p: Params, s: Server, i: nat, clock: Clock, k: nat, before: nat)
    requires ValidParams(p) && Base(p, s, before) && before <= clock(k) && i < |s.jobs|
    requires FinishTime(s.jobs[i], Rate(p, |s.jobs|)) <= before
    ensures var s1 := ScheduleJobs(p, UpdateCalculations(p, s, clock(k)), clock(k + 1));
      Base(p, s1, clock(k)) && JobOk(s1.jobs[i]) && s1.jobs[i].completed == s1.jobs[i].size as real
  {
    FinishedWhenDue(p, s, i, before, clock(k));
    UpdateKeepsBase(p, s, before, clock(k));
    var s0 := UpdateCalculations(p, s, clock(k));
    hide Base, UpdateCalculations, FinishTime, Rate, JobOk;
    ScheduleKeepsBase(p, s0, clock(k), clock(k + 1));
    SameJob(p, s0, i, clock(k + 1));
    RunningJobOk(p, ScheduleJobs(p, s0, clock(k + 1)), i, clock(k));
  }

  /** A removed job keeps what was reported of it. */
  lemma RemoveRetires(p: Params, s: Server, i: nat, clock: Clock, k: nat)
    requires ValidParams(p) && i < |s.jobs|
    ensures var s' := RemoveJob(p, s, i, clock, k);
      && |s'.retired| == |s.retired| + 1
      && s'.retired[|s.retired|].reported == s.jobs[i].reported
      && s'.retired[|s.retired|].size == s.jobs[i].size
  {
  }

  /** Completion is reported only for a job whose credited work has reached its size, and
      that is the progress which the report carries. */
  lemma CompleteKeepsInv(p: Params, s: Server, i: nat, clock: Clock, k: nat, before: nat)
    requires ValidParams(p) && Base(p, s, before) && Steady(clock) && before <= clock(k) && i < |s.jobs|
    requires FinishTime(s.jobs[i], Rate(p, |s.jobs|)) <= before
    ensures var s' := CompleteJob(p, s, i, clock, k);
      && Base(p, s', clock(k + 2)) && Scheduled(p, s')
      && |s'.retired| == |s.retired| + 1
      && s'.retired[|s.retired|].reported == Some(s'.retired[|s.retired|].size as real)
  {
    ReportReady(p, s, i, clock, k, before);
    var s1 := ScheduleJobs(p, UpdateCalculations(p, s, clock(k)), clock(k + 1));
    assert s1.retired == s.retired;
    hide Base, Scheduled, UpdateCalculations, ScheduleJobs, FinishTime, Rate, RemoveJob;
    var done := s1.jobs[i].(reported := Some(s1.jobs[i].completed));
    var s2 := s1.(jobs := s1.jobs[i := done]);
    EditKeepsBase(p, s1, i, done, clock(k));
    RemoveRetires(p, s2, i, clock, k + 2);
    RemoveKeepsInv(p, s2, i, clock, k + 2, clock(k));
  }

  lemma CookieTimerKeepsInv(p: Params, s: Server, i: nat, sendOk: bool, clock: Clock, k: nat, before: nat)
    requires ValidParams(p) && Base(p, s, before) && Steady(clock) && before <= clock(k) && i < |s.jobs|
    ensures var s' := CookieTimer(p, s, i, sendOk, clock, k); Base(p, s', clock(k + 1)) && Scheduled(p, s')
  {
    hide Base, Scheduled;
    var s1 := UpdateCalculations(p, s, clock(k));
    UpdateKeepsBase(p, s, before, clock(k));
    SendCookieKeepsBase(p, s1, i, sendOk, clock, k + 1, clock(k));
    ScheduleKeepsBase(p, SendCookie(p, s1, i, sendOk, clock, k + 1), clock(k + 1), clock(k + 3));
  }

  /** Changing only keep-alive timers, then possibly removing the job. */
  lemma KeepAliveEdit(p: Params, s: Server, i: nat, job: Job, keep: bool, clock: Clock, k: nat, before: nat)
    requires ValidParams(p) && Base(p, s, before) && Scheduled(p, s) && before <= clock(k) && i < |s.jobs|
    requires SameSchedule(job, s.jobs[i])
    ensures var s' := s.(jobs := s.jobs[i := job]);
      var s'' := if keep then s' else RemoveJob(p, s', i, clock, k);
      Base(p, s'', clock(k)) && Scheduled(p, s'')
  {
    hide Base, Scheduled;
    RunningJobOk(p, s, i, before);
    EditKeepsBase(p, s, i, job, before);
    EditKeepsScheduled(p, s, i, job);
    var s' := s.(jobs := s.jobs[i := job]);
    if keep {
      BaseLater(p, s', before, clock(k));
    } else {
      RemoveKeepsInv(p, s', i, clock, k, before);
    }
  }

  lemma CompleteBranch(p: Params, s: Server, i: nat, clock: Clock, now: nat)
    requires ValidParams(p) && Base(p, s, now) && Scheduled(p, s) && Steady(clock) && now <= clock(1)
    requires i < |s.jobs| && Due(s.jobs[i].completeAt, now)
    ensures var s' := CompleteJob(p, s.(jobs := s.jobs[i := s.jobs[i].(completeAt := None)]), i, clock, 1);
      Base(p, s', clock(3)) && Scheduled(p, s')
  {
    hide Base, Scheduled, CompleteJob, FinishTime;
    var job := s.jobs[i].(completeAt := None);
    RunningJobOk(p, s, i, now);
    DueMeansFinished(p, s, i, now);
    EditKeepsBase(p, s, i, job, now);
    CompleteKeepsInv(p, s.(jobs := s.jobs[i := job]), i, clock, 1, now);
  }

  lemma CookieBranch(p: Params, s: Server, i: nat, sendOk: bool, clock: Clock, now: nat)
    requires ValidParams(p) && Base(p, s, now) && Steady(clock) && now <= clock(1) && i < |s.jobs|
    ensures var s' := CookieTimer(p, s.(jobs := s.jobs[i := s.jobs[i].(cookieAt := None)]), i, sendOk, clock, 1);
      Base(p, s', clock(3)) && Scheduled(p, s')
  {
    hide Base, Scheduled, CookieTimer;
    var job := s.jobs[i].(cookieAt := None);
    RunningJobOk(p, s, i, now);
    EditKeepsBase(p, s, i, job, now);
    var s1 := s.(jobs := s.jobs[i := job]);
    CookieTimerKeepsInv(p, s1, i, sendOk, clock, 1, now);
    BaseLater(p, CookieTimer(p, s1, i, sendOk, clock, 1), clock(2), clock(3));
  }

  lemma TimerKeepsInv(p: Params, s: Server, sendOk: bool, clock: Clock, before: nat)
    requires ValidParams(p) && Base(p, s, before) && Scheduled(p, s) && Steady(clock) && before <= clock(0)
    ensures var s' := HandleTimer(p, s, sendOk, clock); Base(p, s', clock(3)) && Scheduled(p, s')
  {
    hide Base, Scheduled, CompleteJob, CookieTimer, RemoveJob;
    var now, i := clock(0), FirstDue(s.jobs, clock(0));
    var s' := HandleTimer(p, s, sendOk, clock);
    BaseLater(p, s, before, now);
    if i == |s.jobs| {
      BaseLater(p, s, now, clock(3));
    } else {
      var job := s.jobs[i];
      if Due(job.completeAt, now) {
        CompleteBranch(p, s, i, clock, now);
      } else if Due(job.cookieAt, now) {
        CookieBranch(p, s, i, sendOk, clock, now);
      } else if Due(job.keepAliveAt, now) {
        var job' := job.(keepAliveAt := None, keepAliveTimeoutAt := Some(clock(1) + p.keepAliveTimeout));
        KeepAliveEdit(p, s, i, job', sendOk, clock, 2, now);
        BaseLater(p, s', clock(2), clock(3));
      } else {
        KeepAliveEdit(p, s, i, job.(keepAliveTimeoutAt := None), false, clock, 1, now);
        BaseLater(p, s', clock(1), clock(3));
      }
    }
  }

  lemma {:induction false} SendCookiesKeepsBase(p: Params, s: Server, i: nat, sendOk: nat -> bool, clock: Clock, k: nat, before: nat)
    requires ValidParams(p) && Base(p, s, before) && Steady(clock) && before <= clock(k) && i <= |s.jobs|
    ensures Base(p, SendCookies(p, s, i, sendOk, clock, k), clock(k + 2 * (|s.jobs| - i)))
    decreases |s.jobs| - i
  {
    hide Base, Scheduled;
    if i == |s.jobs| {
      BaseLater(p, s, before, clock(k));
    } else {
      SendCookieKeepsBase(p, s, i, sendOk(k), clock, k, before);
      var s1 := SendCookie(p, s, i, sendOk(k), clock, k);
      SendCookiesKeepsBase(p, s1, if sendOk(k) then i + 1 else i, sendOk, clock, k + 2, clock(k));
    }
  }

  lemma {:induction false} RemoveRemainingKeepsBase(p: Params, s: Server, clock: Clock, k: nat, before: nat, end: nat)
    requires ValidParams(p) && Base(p, s, before) && Steady(clock) && before <= clock(k)
    requires forall i: nat :: clock(i) <= end
    ensures var s' := RemoveRemaining(p, s, clock, k); Base(p, s', end) && s'.jobs == []
    decreases |s.jobs|
  {
    hide Base, Scheduled, RemoveJob;
    if s.jobs == [] {
      BaseLater(p, s, before, end);
    } else {
      RemoveKeepsInv(p, s, 0, clock, k, before);
      RemoveRemainingKeepsBase(p, RemoveJob(p, s, 0, clock, k), clock, k + 2, clock(k), end);
    }
  }

  lemma ShutdownKeepsInv(p: Params, s: Server, clean: bool, sendOk: nat -> bool, clock: Clock, before: nat, end: nat)
    requires ValidParams(p) && Base(p, s, before) && Steady(clock) && before <= clock(0)
    requires forall i: nat :: clock(i) <= end
    ensures var s' := RemoveAllJobs(p, s, clean, sendOk, clock); Base(p, s', end) && s'.jobs == []
  {
    hide Base, UpdateCalculations, ScheduleJobs, SendCookies, RemoveRemaining;
    var n := 2 + 2 * |s.jobs|;
    if clean {
      var s0 := UpdateCalculations(p, s, clock(0));
      var s1 := ScheduleJobs(p, s0, clock(1));
      UpdateKeepsBase(p, s, before, clock(0));
      ScheduleKeepsBase(p, s0, clock(0), clock(1));
      SendCookiesKeepsBase(p, s1, 0, sendOk, clock, 2, clock(0));
      RemoveRemainingKeepsBase(p, SendCookies(p, s1, 0, sendOk, clock, 2), clock, n, clock(n), end);
    } else {
      RemoveRemainingKeepsBase(p, s, clock, n, before, end);
    }
  }

  // ---- Whole runs ---------------------------------------------------------------------------------

  lemma AdmissionKeepsInv(p: Params, s: System, e: Event)
    requires ValidParams(p) && Inv(p, s) && Enabled(s, e) && (e.Request? || e.CookieEcho?)
    ensures Inv(p, Apply(p, s, e))
  {
    hide Base, Scheduled, Admit;
    var t' := Handle(p, s.server, e);
    var completed := if e.Request? then 0.0 else e.cookie as real;
    AdmitKeepsInv(p, s.server, e.session, e.jobId, e.size, completed, e.sendOk, e.clock, s.now);
    if Base(p, t', s.now) {
      assert s.now <= e.clock(0) <= e.end;
      BaseLater(p, t', s.now, e.end);
    } else if Base(p, t', e.clock(3)) {
      BaseLater(p, t', e.clock(3), e.end);
    } else {
      BaseLater(p, t', e.clock(4), e.end);
    }
  }

  lemma KeepAliveKeepsInv(p: Params, s: System, e: Event)
    requires ValidParams(p) && Inv(p, s) && Enabled(s, e) && (e.KeepAlive? || e.KeepAliveAck?)
    ensures Inv(p, Apply(p, s, e))
  {
    hide Base, Scheduled, RemoveJob;
    var t, t', i := s.server, Handle(p, s.server, e), FindJob(s.server.jobs, e.session, e.jobId);
    assert s.now <= e.clock(0) <= e.end;
    if i == |t.jobs| || (e.KeepAlive? && e.sendOk) {
      BaseLater(p, t', s.now, e.end);
    } else {
      if e.KeepAlive? {
        RemoveKeepsInv(p, t, i, e.clock, 0, s.now);
      } else {
        KeepAliveEdit(p, t, i, t'.jobs[i], true, e.clock, 0, s.now);
      }
      BaseLater(p, t', e.clock(0), e.end);
    }
  }

  lemma StepKeepsInv(p: Params, s: System, e: Event)
    requires ValidParams(p) && Inv(p, s) && Enabled(s, e)
    ensures Inv(p, Apply(p, s, e))
  {
    hide Base, HandleTimer, RemoveAllJobs;
    match e
    case Timer(sendOk, clock, _) =>
      TimerKeepsInv(p, s.server, sendOk, clock, s.now);
      BaseLater(p, Handle(p, s.server, e), clock(3), e.end);
    case Shutdown(clean, sent, clock, _) => ShutdownKeepsInv(p, s.server, clean, sent, clock, s.now, e.end);
    case Request(_, _, _, _, _, _) => AdmissionKeepsInv(p, s, e);
    case CookieEcho(_, _, _, _, _, _, _) => AdmissionKeepsInv(p, s, e);
    case _ => KeepAliveKeepsInv(p, s, e);
  }

  lemma {:induction false} RunKeepsInv(p: Params, s: System, es: seq<Event>)
    requires ValidParams(p) && Inv(p, s) && Possible(p, s, es)
    ensures Inv(p, Run(p, s, es))
    decreases |es|
  {
    if es != [] {
      StepKeepsInv(p, s, es[0]);
      RunKeepsInv(p, Apply(p, s, es[0]), es[1..]);
    }
  }

  lemma StartInv(p: Params, now: nat)
    requires ValidParams(p)
    ensures Inv(p, Start(now))
  {
  }

  // ---- Main results --------------------------------------------------------------------------------

  /** No early or late completion: in every run the deadline of every running job is the
      first time at which the work credited at the current rate reaches the job size, and
      completion was only ever reported at a moment when the progress was the job size. */
  lemma CompletionInTime(p: Params, started: nat, es: seq<Event>, j: Job, t: nat)
    requires ValidParams(p) && Possible(p, Start(started), es)
    ensures var s := Run(p, Start(started), es).server;
      && (j in s.jobs && j.lastUpdateAt <= t ==>
            && j.completeAt.Some?
            && (Credit(j, Rate(p, |s.jobs|), t).completed == j.size as real <==> j.completeAt.value <= t))
      && (j in s.jobs + s.retired && j.reported.Some? ==> j.reported.value == j.size as real)
  {
    StartInv(p, started);
    RunKeepsInv(p, Start(started), es);
    var s := Run(p, Start(started), es).server;
    if j in s.jobs && j.lastUpdateAt <= t {
      RatePositive(p, |s.jobs|);
      DeadlineIsFirst(j, Rate(p, |s.jobs|), t);
    }
  }

  /** No event changes when the server was started. */
  lemma {:induction false} StartKept(p: Params, s: System, es: seq<Event>)
    requires ValidParams(p) && Possible(p, s, es)
    ensures Run(p, s, es).server.started == s.server.started
    decreases |es|
  {
    if es != [] { StartKept(p, Apply(p, s, es[0]), es[1..]); }
  }

  /** Capacity bound and conservation: what is counted as used is exactly the progress
      made here on all jobs ever admitted, never exceeds what the capacity allows since
      the start, and the job limit is kept. */
  lemma CapacityConserved(p: Params, started: nat, es: seq<Event>)
    requires ValidParams(p) && Possible(p, Start(started), es)
    ensures var end := Run(p, Start(started), es);
      && end.server.used == Work(end.server.jobs) + Work(end.server.retired)
      && end.server.used <= Available(p, started, end.now)
      && |end.server.jobs| <= p.maxJobs
  {
    StartInv(p, started);
    RunKeepsInv(p, Start(started), es);
    StartKept(p, Start(started), es);
  }

  // ---- The CHECK of updateCalculations() ------------------------------------------------------------

  /** At a job: when it is complete, what is left of it must not be negative. */
  predicate CheckHolds(j: Job, rate: real, now: nat) {
    !(j.completed + (now - j.lastUpdateAt) as real * rate < j.size as real) ==> j.size as real - j.completed >= 0.0
  }

  /** For all jobs that UpdateCalculations() credits. */
  predicate UpdateCheck(p: Params, s: Server, now: nat) {
    forall j :: j in s.jobs ==> CheckHolds(j, Rate(p, |s.jobs|), now)
  }

  lemma BaseChecks(p: Params, s: Server, at: nat, now: nat)
    requires Base(p, s, at)
    ensures UpdateCheck(p, s, now)
  {
  }

  /** In every run the next crediting, whenever it comes, passes the CHECK. */
  lemma ChecksHold(p: Params, started: nat, es: seq<Event>, now: nat)
    requires ValidParams(p) && Possible(p, Start(started), es)
    ensures UpdateCheck(p, Run(p, Start(started), es).server, now)
  {
    StartInv(p, started);
    RunKeepsInv(p, Start(started), es);
    BaseChecks(p, Run(p, Start(started), es).server, Run(p, Start(started), es).now, now);
  }

  lemma AddedJob(p: Params, s: Server, session: nat, jobId: nat, size: nat, completed: real, clock: Clock)
    requires ValidParams(p) && |s.jobs| < p.maxJobs
    ensures var jobs := AddJob(p, s, session, jobId, size, completed, clock, 0).jobs;
      |jobs| == |s.jobs| + 1 && jobs[0].completed == completed && jobs[0].size == size && jobs[0].lastUpdateAt == clock(2)
  {
    var s1 := UpdateCalculations(p, s, clock(0));
    var job := NewJob(p, session, jobId, size, completed, clock(1), clock(2));
    SameJob(p, s1.(jobs := [job] + s1.jobs), 0, clock(3));
  }

  lemma OverclaimFails(j: Job, rate: real, now: nat)
    requires rate > 0.0 && j.completed > j.size as real && j.lastUpdateAt <= now
    ensures !CheckHolds(j, rate, now)
  {
    assert (now - j.lastUpdateAt) as real * rate >= 0.0;
  }

  /** A job that is resumed from a cookie: from then on the CHECK holds at every time if and
      only if the cookie does not claim more than the whole job; otherwise it fails at
      every time. */
  lemma CookieCheckIff(p: Params, s: Server, session: nat, jobId: nat, size: nat, cookie: nat, clock: Clock, before: nat, now: nat)
    requires ValidParams(p) && Base(p, s, before) && Steady(clock) && before <= clock(0)
    requires |s.jobs| < p.maxJobs && clock(2) <= now
    ensures UpdateCheck(p, AddJob(p, s, session, jobId, size, cookie as real, clock, 0), now) <==> cookie <= size
  {
    var s' := AddJob(p, s, session, jobId, size, cookie as real, clock, 0);
    AddedJob(p, s, session, jobId, size, cookie as real, clock);
    if cookie <= size {
      AddKeepsInv(p, s, session, jobId, size, cookie as real, clock, before);
      BaseChecks(p, s', clock(3), now);
    } else {
      RatePositive(p, |s'.jobs|);
      OverclaimFails(s'.jobs[0], Rate(p, |s'.jobs|), now);
      assert s'.jobs[0] in s'.jobs;
    }
  }

  /** A run in which the CHECK fails: a cookie claims two calculations of a job of one, and
      the clean shutdown after it begins with crediting. */
  lemma OverclaimingCookie(p: Params, started: nat, clock: Clock, end: nat, later: Clock, last: nat, sent: nat -> bool)
    requires ValidParams(p) && p.maxJobs >= 1
    requires Steady(clock) && started <= clock(0) && forall i: nat :: clock(i) <= end
    requires Steady(later) && end <= later(0) && forall i: nat :: later(i) <= last
    ensures var s, echo, shutdown := Start(started), CookieEcho(1, 1, 1, 2, true, clock, end), Shutdown(true, sent, later, last);
      && Timely(s, echo) && Timely(Apply(p, s, echo), shutdown)
      && !UpdateCheck(p, Apply(p, s, echo).server, later(0))
  {
    StartInv(p, started);
    CookieCheckIff(p, Start(started).server, 1, 1, 1, 2, clock, started, later(0));
  }

  // ---- Failover --------------------------------------------------------------------------------------

  /** One server's part in a job: a run of the server and the job in it. */
  datatype Leg = Leg(p: Params, started: nat, es: seq<Event>, job: Job)

  ghost predicate ValidLeg(leg: Leg) {
    && ValidParams(leg.p) && Possible(leg.p, Start(leg.started), leg.es)
    && var s := Run(leg.p, Start(leg.started), leg.es).server;
       leg.job in s.jobs + s.retired
  }

  /** The job was resumed from one of the cookies that the previous server sent. */
  predicate Resumes(previous: Job, next: Job) {
    next.size == previous.size && exists i :: 0 <= i < |previous.cookies| && next.initial == previous.cookies[i] as real
  }

  ghost predicate Chain(legs: seq<Leg>) {
    && legs != []
    && (forall i :: 0 <= i < |legs| ==> ValidLeg(legs[i]))
    && (forall i :: 0 <= i < |legs| - 1 ==> Resumes(legs[i].job, legs[i + 1].job))
  }

  function TotalWork(legs: seq<Leg>): real {
    if legs == [] then 0.0 else legs[0].job.completed - legs[0].job.initial + TotalWork(legs[1..])
  }

  lemma LegJobOk(leg: Leg)
    requires ValidLeg(leg)
    ensures JobOk(leg.job)
  {
    StartInv(leg.p, leg.started);
    RunKeepsInv(leg.p, Start(leg.started), leg.es);
  }

  lemma Handover(previous: Job, next: Job)
    requires JobOk(previous) && Resumes(previous, next)
    ensures next.initial <= previous.completed + 0.5 && next.size == previous.size
  {
  }

  lemma ChainTail(legs: seq<Leg>)
    requires Chain(legs) && |legs| > 1
    ensures Chain(legs[1..]) && Resumes(legs[0].job, legs[1].job) && ValidLeg(legs[0])
  {
    hide ValidLeg, Resumes;
    var rest := legs[1..];
    forall i | 0 <= i < |rest| - 1 ensures Resumes(rest[i].job, rest[i + 1].job) {
      assert Resumes(legs[i + 1].job, legs[i + 1 + 1].job);
    }
    assert Resumes(legs[0].job, legs[0 + 1].job);
  }

  /** Each handover loses at most half a calculation to the rounding of the cookie. */
  lemma {:induction false} ChainWork(legs: seq<Leg>)
    requires Chain(legs)
    ensures TotalWork(legs) >=
      legs[|legs| - 1].job.completed - legs[0].job.initial - (|legs| - 1) as real / 2.0
    ensures legs[|legs| - 1].job.size == legs[0].job.size
  {
    if |legs| == 1 {
      assert TotalWork(legs[1..]) == 0.0;
    } else {
      ChainTail(legs);
      hide ValidLeg, Resumes, JobOk, Chain;
      LegJobOk(legs[0]);
      Handover(legs[0].job, legs[1].job);
      ChainWork(legs[1..]);
    }
  }

  /** Failover accounting: when a chain of servers that resumed a job from `k` cookies
      reports its completion, they have performed at least size - k/2 calculations
      together, and none ever had a progress below zero or above the job size. */
  lemma FailoverAccounting(legs: seq<Leg>)
    requires Chain(legs) && legs[0].job.initial == 0.0 && legs[|legs| - 1].job.reported.Some?
    ensures TotalWork(legs) >= legs[0].job.size as real - (|legs| - 1) as real / 2.0
    ensures forall i :: 0 <= i < |legs| ==> 0.0 <= legs[i].job.completed <= legs[i].job.size as real
  {
    ChainWork(legs);
    forall i | 0 <= i < |legs| ensures JobOk(legs[i].job) { LegJobOk(legs[i]); }
  }
}
