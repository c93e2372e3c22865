/**
 The CalcApp server as an object: its loops over the job list update progress, time
 stamps and statistics in place.  Each method is proved to take the step of the
 same name of CalcAppModel.  A pointer to a job is its position in the list.
 */
module CalcAppServer {
  import opened Wrappers
  import opened CalcAppModel

  lemma {:induction false} GainsSplit(jobs: seq<Job>, i: nat, rate: real, now: nat)
    requires i < |jobs|
    ensures Gains(jobs[..i + 1], rate, now) == Gains(jobs[..i], rate, now) + Gain(jobs[i], rate, now)
  {
    if i == 0 {
      assert jobs[..1][1..] == [];
    } else {
      GainsSplit(jobs[1..], i - 1, rate, now);
      assert jobs[..i + 1][1..] == jobs[1..][..i] && jobs[..i][1..] == jobs[1..][..i - 1];
    }
  }

  /** The earlier of two time stamps, of which either may never come. */
  function Earlier(a: Option<nat>, b: Option<nat>): Option<nat> {
    if a.None? then b else if b.None? || a.value <= b.value then a else b
  }

  method CreditJob(job: Job, capacityPerJob: real, now: nat) returns (credited: Job, gain: real)
    ensures credited == Credit(job, capacityPerJob, now) && gain == Gain(job, capacityPerJob, now)
  {
    var done := (now - job.lastUpdateAt) as real * capacityPerJob;
    if job.completed + done < job.size as real {
      gain := done;
      credited := job.(completed := job.completed + done, lastUpdateAt := now);
    } else {
      gain := job.size as real - job.completed;
      credited := job.(completed := job.size as real, lastUpdateAt := now);
    }
  }

  method ScheduleOne(p: Params, job: Job, capacityPerJob: real, now: nat) returns (scheduled: Job)
    requires capacityPerJob > 0.0
    ensures scheduled == ScheduleJob(p, job, capacityPerJob, now)
  {
    var timeToGo := Ceil((job.size as real - job.completed) / capacityPerJob);
    var sinceLastCookie := job.completed - job.lastCookieCompleted;
    var byCalculations := Rint(Max(0.0, p.cookieMaxCalculations - sinceLastCookie) / capacityPerJob);
    var byTime := Rint(Max(0.0, p.cookieMaxTime as real - (now as real - job.lastCookieAt as real)));
    scheduled := job.(completeAt := Stamp(job.lastUpdateAt + timeToGo),
                      cookieAt := Stamp(now + Min(byCalculations, byTime)), scheduledAt := now);
  }

  lemma SendCookiesStep(p: Params, s: Server, i: nat, sendOk: nat -> bool, clock: Clock, k: nat)
    requires ValidParams(p) && i < |s.jobs|
    ensures SendCookies(p, s, i, sendOk, clock, k) ==
              SendCookies(p, SendCookie(p, s, i, sendOk(k), clock, k), if sendOk(k) then i + 1 else i, sendOk, clock, k + 2)
  {
  }

  lemma SendCookiesEnd(p: Params, s: Server, i: nat, sendOk: nat -> bool, clock: Clock, k: nat)
    requires ValidParams(p) && i >= |s.jobs|
    ensures SendCookies(p, s, i, sendOk, clock, k) == s
  {
  }

  class CalcAppServer {
    const p: Params
    const started: nat
    var jobs: seq<Job>
    var jobCount: nat
    var totalUsedCalculations: real
    var nextTimer: Option<nat>
    ghost var retired: seq<Job>

    ghost predicate Valid()
      reads this
    {
      ValidParams(p) && jobCount == |jobs|
    }

    ghost function View(): Server
      reads this
    {
      Server(jobs, totalUsedCalculations, started, retired)
    }

    constructor (p: Params, now: nat)
      requires ValidParams(p)
      ensures Valid() && View() == Server([], 0.0, now, []) && this.p == p
    {
      this.p, started := p, now;
      jobs, jobCount, totalUsedCalculations, nextTimer, retired := [], 0, 0.0, None, [];
    }

    method UpdateCalculations(now: nat)
      requires Valid()
      modifies `jobs, `totalUsedCalculations
      ensures Valid() && View() == CalcAppModel.UpdateCalculations(p, old(View()), now)
    {
      if jobCount > 0 {
        var capacityPerJob := Rate(p, jobCount);
        hide Credit, Gain, Rate;
        ghost var before := jobs;
        var i := 0;
        while i < |jobs|
          invariant 0 <= i <= |jobs| == |before|
          invariant forall k :: 0 <= k < i ==> jobs[k] == Credit(before[k], capacityPerJob, now)
          invariant forall k :: i <= k < |jobs| ==> jobs[k] == before[k]
          invariant totalUsedCalculations == old(totalUsedCalculations) + Gains(before[..i], capacityPerJob, now)
        {
          GainsSplit(before, i, capacityPerJob, now);
          var job, gain := CreditJob(jobs[i], capacityPerJob, now);
          totalUsedCalculations := totalUsedCalculations + gain;
          jobs := jobs[i := job];
          i := i + 1;
        }
        assert before[..i] == before;
        assert jobs == CreditAll(before, capacityPerJob, now);
      }
    }

    method ScheduleJobs(now: nat)
      requires Valid()
      modifies `jobs
      ensures Valid() && View() == CalcAppModel.ScheduleJobs(p, old(View()), now)
    {
      if jobCount > 0 {
        var capacityPerJob := Rate(p, jobCount);
        hide ScheduleJob, Rate;
        ghost var before := jobs;
        var i := 0;
        while i < |jobs|
          invariant 0 <= i <= |jobs| == |before|
          invariant forall k :: 0 <= k < i ==> jobs[k] == ScheduleJob(p, before[k], capacityPerJob, now)
          invariant forall k :: i <= k < |jobs| ==> jobs[k] == before[k]
        {
          var job := ScheduleOne(p, jobs[i], capacityPerJob, now);
          jobs := jobs[i := job];
          i := i + 1;
        }
        assert jobs == ScheduleAll(p, before, capacityPerJob, now);
      }
    }

    method AddJob(session: nat, jobId: nat, size: nat, completed: real, clock: Clock, k: nat) returns (added: bool)
      requires Valid()
      modifies this
      ensures Valid() && View() == CalcAppModel.AddJob(p, old(View()), session, jobId, size, completed, clock, k)
      ensures added <==> old(|jobs|) < p.maxJobs
    {
      added := jobCount < p.maxJobs;
      if added {
        UpdateCalculations(clock(k));
        jobs := [NewJob(p, session, jobId, size, completed, clock(k + 1), clock(k + 2))] + jobs;
        jobCount := jobCount + 1;
        ScheduleJobs(clock(k + 3));
      }
    }

    method FindJob(session: nat, jobId: nat) returns (i: nat)
      ensures i == CalcAppModel.FindJob(jobs, session, jobId)
    {
      i := 0;
      while i < |jobs| && !(jobs[i].session == session && jobs[i].jobId == jobId)
        invariant i <= |jobs|
        invariant CalcAppModel.FindJob(jobs, session, jobId) == i + CalcAppModel.FindJob(jobs[i..], session, jobId)
      {
        i := i + 1;
      }
    }

    method RemoveJob(i: nat, clock: Clock, k: nat)
      requires Valid() && i < |jobs|
      modifies this
      ensures Valid() && View() == CalcAppModel.RemoveJob(p, old(View()), i, clock, k)
    {
      UpdateCalculations(clock(k));
      retired := retired + [jobs[i]];
      jobs := jobs[..i] + jobs[i + 1..];
      jobCount := jobCount - 1;
      ScheduleJobs(clock(k + 1));
    }

    method SendCookie(i: nat, sendOk: bool, clock: Clock, k: nat) returns (cookie: int)
      requires Valid() && i < |jobs|
      modifies this
      ensures Valid() && View() == CalcAppModel.SendCookie(p, old(View()), i, sendOk, clock, k)
      ensures cookie == Rint(old(jobs)[i].completed)
    {
      var job := jobs[i];
      cookie := Rint(job.completed);
      if !sendOk {
        RemoveJob(i, clock, k);
      } else {
        jobs := jobs[i := job.(cookies := job.cookies + [cookie], lastCookieAt := clock(k),
                               lastCookieCompleted := job.completed)];
      }
    }

    method HandleJobCompleteTimer(i: nat, clock: Clock, k: nat)
      requires Valid() && i < |jobs|
      modifies this
      ensures Valid() && View() == CompleteJob(p, old(View()), i, clock, k)
    {
      UpdateCalculations(clock(k));
      ScheduleJobs(clock(k + 1));
      jobs := jobs[i := jobs[i].(reported := Some(jobs[i].completed))];
      RemoveJob(i, clock, k + 2);
    }

    method HandleCookieTransmissionTimer(i: nat, sendOk: bool, clock: Clock, k: nat)
      requires Valid() && i < |jobs|
      modifies this
      ensures Valid() && View() == CookieTimer(p, old(View()), i, sendOk, clock, k)
    {
      UpdateCalculations(clock(k));
      var _ := SendCookie(i, sendOk, clock, k + 1);
      ScheduleJobs(clock(k + 3));
    }

    /** A cookie for every job; a job whose cookie cannot be sent is removed on the way. */
    method SendCookies(sendOk: nat -> bool, clock: Clock, first: nat)
      requires Valid()
      modifies this
      ensures Valid() && View() == CalcAppModel.SendCookies(p, old(View()), 0, sendOk, clock, first)
    {
      var i: nat, k: nat := 0, first;
      ghost var s := View();
      ghost var goal := CalcAppModel.SendCookies(p, s, 0, sendOk, clock, first);
      hide CalcAppModel.SendCookie, CalcAppModel.SendCookies;
      while i < |jobs|
        invariant Valid() && s == View()
        invariant goal == CalcAppModel.SendCookies(p, s, i, sendOk, clock, k)
        decreases |jobs| - i
      {
        var ok := sendOk(k);
        SendCookiesStep(p, s, i, sendOk, clock, k);
        var _ := SendCookie(i, ok, clock, k);
        s := View();
        if ok { i := i + 1; }
        k := k + 2;
      }
      SendCookiesEnd(p, s, i, sendOk, clock, k);
    }

    method RemoveRemainingJobs(clock: Clock, first: nat)
      requires Valid()
      modifies this
      ensures Valid() && View() == RemoveRemaining(p, old(View()), clock, first) && jobs == []
    {
      var k := first;
      hide CalcAppModel.RemoveJob;
      while jobs != []
        invariant Valid() && RemoveRemaining(p, View(), clock, k) == RemoveRemaining(p, old(View()), clock, first)
        decreases |jobs|
      {
        RemoveJob(0, clock, k);
        k := k + 2;
      }
    }

    /** `clean` tells whether the server says goodbye with cookies. */
    method RemoveAllJobs(clean: bool, sendOk: nat -> bool, clock: Clock)
      requires Valid()
      modifies this
      ensures Valid() && View() == CalcAppModel.RemoveAllJobs(p, old(View()), clean, sendOk, clock)
      ensures jobs == []
    {
      var k := 2 + 2 * |jobs|;
      hide CalcAppModel.UpdateCalculations, CalcAppModel.ScheduleJobs, CalcAppModel.SendCookies, RemoveRemaining;
      if clean {
        UpdateCalculations(clock(0));
        ScheduleJobs(clock(1));
        SendCookies(sendOk, clock, 2);
      }
      RemoveRemainingJobs(clock, k);
    }

    method HandleTimer(sendOk: bool, clock: Clock)
      requires Valid()
      modifies this
      ensures Valid() && View() == CalcAppModel.HandleTimer(p, old(View()), sendOk, clock)
      ensures nextTimer == EarliestStamp(jobs)
    {
      hide CompleteJob, CookieTimer, CalcAppModel.RemoveJob, EarliestStamp;
      var now := clock(0);
      var i := 0;
      while i < |jobs| && !AnyDue(jobs[i], now)
        invariant i <= |jobs|
        invariant FirstDue(jobs, now) == i + FirstDue(jobs[i..], now)
      {
        i := i + 1;
      }
      if i < |jobs| {
        var job := jobs[i];
        if Due(job.completeAt, now) {
          jobs := jobs[i := job.(completeAt := None)];
          HandleJobCompleteTimer(i, clock, 1);
        } else if Due(job.cookieAt, now) {
          jobs := jobs[i := job.(cookieAt := None)];
          HandleCookieTransmissionTimer(i, sendOk, clock, 1);
        } else if Due(job.keepAliveAt, now) {
          jobs := jobs[i := job.(keepAliveAt := None, keepAliveTimeoutAt := Some(clock(1) + p.keepAliveTimeout))];
          if !sendOk { RemoveJob(i, clock, 2); }
        } else {
          jobs := jobs[i := job.(keepAliveTimeoutAt := None)];
          RemoveJob(i, clock, 1);
        }
      }
      ScheduleNextTimerEvent();
    }

    /** Arms the timer for the earliest time stamp of any job. */
    method ScheduleNextTimerEvent()
      modifies `nextTimer
      ensures nextTimer == EarliestStamp(jobs)
    {
      nextTimer := None;
      var i := 0;
      assert jobs[0..] == jobs;
      hide EarliestStamp, Earlier, JobStamp;
      NeverIsLast(EarliestStamp(jobs));
      while i < |jobs|
        invariant 0 <= i <= |jobs|
        invariant EarliestStamp(jobs) == Earlier(nextTimer, EarliestStamp(jobs[i..]))
      {
        EarliestStep(jobs, i, nextTimer);
        nextTimer := Earlier(nextTimer, jobs[i].completeAt);
        nextTimer := Earlier(nextTimer, jobs[i].keepAliveAt);
        nextTimer := Earlier(nextTimer, jobs[i].keepAliveTimeoutAt);
        nextTimer := Earlier(nextTimer, jobs[i].cookieAt);
        i := i + 1;
      }
      NoJobsLeft(nextTimer);
      assert jobs[i..] == [];
    }
  }

  lemma NeverIsLast(t: Option<nat>)
    ensures Earlier(None, t) == t
  {
  }

  lemma NoJobsLeft(t: Option<nat>)
    ensures Earlier(t, EarliestStamp([])) == t
  {
  }

  lemma EarlierFour(t: Option<nat>, a: Option<nat>, b: Option<nat>, c: Option<nat>, d: Option<nat>, e: Option<nat>)
    ensures Earlier(t, Earlier(Earlier(a, Earlier(b, Earlier(c, d))), e)) == Earlier(Earlier(Earlier(Earlier(Earlier(t, a), b), c), d), e)
  {
  }

  /** One job of the loop that arms the timer. */
  lemma EarliestStep(jobs: seq<Job>, i: nat, t: Option<nat>)
    requires i < |jobs|
    ensures var j := jobs[i];
      Earlier(t, EarliestStamp(jobs[i..])) ==
        Earlier(Earlier(Earlier(Earlier(Earlier(t, j.completeAt), j.keepAliveAt), j.keepAliveTimeoutAt), j.cookieAt), EarliestStamp(jobs[i + 1..]))
  {
    var j := jobs[i];
    assert jobs[i..][1..] == jobs[i + 1..] && jobs[i..][0] == j;
    hide Earlier;
    EarlierFour(t, j.completeAt, j.keepAliveAt, j.keepAliveTimeoutAt, j.cookieAt, EarliestStamp(jobs[i + 1..]));
  }

  function JobStamp(j: Job): Option<nat> {
    Earlier(j.completeAt, Earlier(j.keepAliveAt, Earlier(j.keepAliveTimeoutAt, j.cookieAt)))
  }

  function EarliestStamp(jobs: seq<Job>): Option<nat> {
    if jobs == [] then None else Earlier(JobStamp(jobs[0]), EarliestStamp(jobs[1..]))
  }

  /** The timer fires exactly when some job has something due. */
  lemma {:induction false} TimerMatchesJobs(jobs: seq<Job>, now: nat)
    ensures var t := EarliestStamp(jobs); t.Some? && t.value <= now <==> exists j :: j in jobs && AnyDue(j, now)
  {
    if jobs != [] {
      TimerMatchesJobs(jobs[1..], now);
      assert jobs == [jobs[0]] + jobs[1..];
      assert Due(JobStamp(jobs[0]), now) <==> AnyDue(jobs[0], now);
      if exists j :: j in jobs[1..] && AnyDue(j, now) {
        var j :| j in jobs[1..] && AnyDue(j, now);
        assert j in jobs;
      }
      assert jobs[0] in jobs;
    }
  }
}
