/**
 What the single events of a CalcApp server do: how the capacity is shared out, what a
 cookie says, who is admitted, and which job a timer serves and how.
 */
module CalcAppEffects {
  import opened Wrappers
  import opened CalcAppModel
  import opened CalcAppRuns
  import CalcAppCookies

  // ---- Sharing the capacity ---------------------------------------------------------------------------------

  /** The shares of all jobs make up the whole capacity. */
  lemma SharesAddUp(p: Params, n: nat)
    requires n > 0
    ensures n as real * Rate(p, n) == p.capacity / 1000000.0
  {
    var x, m := p.capacity / 1000000.0, n as real;
    assert Rate(p, n) == x / m;
  }

  /** The work that one job gets between two times. */
  function Piece(from: nat, now: nat, rate: real): real { (now - from) as real * rate }

  predicate Unfinished(jobs: seq<Job>, rate: real, from: nat, now: nat) {
    forall j :: j in jobs ==> j.lastUpdateAt == from && j.completed + Piece(from, now, rate) < j.size as real
  }

  lemma {:induction false} EqualGains(jobs: seq<Job>, rate: real, from: nat, now: nat)
    requires Unfinished(jobs, rate, from, now)
    ensures Gains(jobs, rate, now) == |jobs| as real * Piece(from, now, rate)
  {
    if jobs != [] {
      assert jobs[0] in jobs;
      assert Gain(jobs[0], rate, now) == Piece(from, now, rate);
      EqualGains(jobs[1..], rate, from, now);
      hide Gain, Piece;
      OneMore(|jobs|, Piece(from, now, rate));
    }
  }

  lemma WholePieces(p: Params, n: nat, from: nat, now: nat)
    requires n > 0
    ensures n as real * Piece(from, now, Rate(p, n)) == Available(p, from, now)
  {
    var t, rate := (now - from) as real, Rate(p, n);
    SharesAddUp(p, n);
    assert n as real * (t * rate) == t * (n as real * rate);
  }

  /** As long as no job comes to its end, the whole capacity is put to use. */
  lemma NothingIdle(p: Params, s: Server, from: nat, now: nat)
    requires ValidParams(p) && s.jobs != [] && from <= now && Unfinished(s.jobs, Rate(p, |s.jobs|), from, now)
    ensures UpdateCalculations(p, s, now).used == s.used + Available(p, from, now)
  {
    hide Rate, Piece, Available, Gains, Unfinished, CreditAll;
    EqualGains(s.jobs, Rate(p, |s.jobs|), from, now);
    WholePieces(p, |s.jobs|, from, now);
  }

  // ---- Who the jobs are -------------------------------------------------------------------------------------------

  predicate SameJobAs(a: Job, b: Job) {
    a.session == b.session && a.jobId == b.jobId && a.size == b.size && a.initial == b.initial && a.cookies == b.cookies
  }

  /** The same jobs in the same places. */
  predicate SameJobs(a: seq<Job>, b: seq<Job>) {
    |a| == |b| && forall i :: 0 <= i < |a| ==> SameJobAs(a[i], b[i])
  }

  lemma UpdateKeepsJobs(p: Params, s: Server, now: nat)
    ensures SameJobs(UpdateCalculations(p, s, now).jobs, s.jobs) && UpdateCalculations(p, s, now).retired == s.retired
  {
  }

  lemma ScheduleKeepsJobs(p: Params, s: Server, now: nat)
    requires ValidParams(p)
    ensures SameJobs(ScheduleJobs(p, s, now).jobs, s.jobs) && ScheduleJobs(p, s, now).retired == s.retired
  {
  }

  lemma SameJobsThrough(a: seq<Job>, b: seq<Job>, c: seq<Job>)
    requires SameJobs(a, b) && SameJobs(b, c)
    ensures SameJobs(a, c)
  {
    forall i | 0 <= i < |a| ensures SameJobAs(a[i], c[i]) { assert SameJobAs(a[i], b[i]) && SameJobAs(b[i], c[i]); }
  }

  /** A removal takes out the given job and no other. */
  lemma RemovalTakesOne(p: Params, s: Server, i: nat, clock: Clock, k: nat)
    requires ValidParams(p) && i < |s.jobs|
    ensures var s' := RemoveJob(p, s, i, clock, k);
      && SameJobs(s'.jobs, s.jobs[..i] + s.jobs[i + 1..])
      && |s'.retired| == |s.retired| + 1 && s'.retired[..|s.retired|] == s.retired
      && SameJobAs(s'.retired[|s.retired|], s.jobs[i])
  {
    var s1 := UpdateCalculations(p, s, clock(k));
    UpdateKeepsJobs(p, s, clock(k));
    hide UpdateCalculations, ScheduleJobs, SameJobAs;
    var s2 := s1.(jobs := s1.jobs[..i] + s1.jobs[i + 1..], retired := s1.retired + [s1.jobs[i]]);
    ScheduleKeepsJobs(p, s2, clock(k + 1));
    assert SameJobs(s2.jobs, s.jobs[..i] + s.jobs[i + 1..]);
    SameJobsThrough(ScheduleJobs(p, s2, clock(k + 1)).jobs, s2.jobs, s.jobs[..i] + s.jobs[i + 1..]);
  }

  /** A job is admitted if and only if there is room: it is put in front with what was asked
      for, its first keep-alive is due an interval later, and the others stay. */
  lemma AdmissionListsJob(p: Params, s: Server, session: nat, jobId: nat, size: nat, completed: real, clock: Clock)
    requires ValidParams(p)
    ensures var jobs := Admit(p, s, session, jobId, size, completed, true, clock).jobs;
      if |s.jobs| < p.maxJobs
      then
        && |jobs| == |s.jobs| + 1 && SameJobs(jobs[1..], s.jobs)
        && jobs[0].session == session && jobs[0].jobId == jobId && jobs[0].size == size
        && jobs[0].completed == completed && jobs[0].cookies == [] && jobs[0].lastUpdateAt == clock(2)
        && jobs[0].lastCookieAt == clock(2) && jobs[0].lastCookieCompleted == 0.0
        && jobs[0].keepAliveAt == Some(clock(1) + p.keepAliveInterval) && jobs[0].keepAliveTimeoutAt.None?
      else jobs == s.jobs
  {
    if |s.jobs| < p.maxJobs {
      var s1 := UpdateCalculations(p, s, clock(0));
      var job := NewJob(p, session, jobId, size, completed, clock(1), clock(2));
      var s2 := s1.(jobs := [job] + s1.jobs);
      UpdateKeepsJobs(p, s, clock(0));
      ScheduleKeepsJobs(p, s2, clock(3));
      var jobs := ScheduleJobs(p, s2, clock(3)).jobs;
      assert s2.jobs[1..] == s1.jobs;
      assert SameJobs(jobs[1..], s1.jobs) by {
        forall i | 0 <= i < |s1.jobs| ensures SameJobAs(jobs[1..][i], s1.jobs[i]) { assert SameJobAs(jobs[i + 1], s2.jobs[i + 1]); }
      }
      SameJobsThrough(jobs[1..], s1.jobs, s.jobs);
    }
  }

  /** If the acceptance cannot be sent, the job is gone again. */
  lemma FailedAdmission(p: Params, s: Server, session: nat, jobId: nat, size: nat, completed: real, clock: Clock)
    requires ValidParams(p) && |s.jobs| < p.maxJobs
    ensures var s' := Admit(p, s, session, jobId, size, completed, false, clock);
      SameJobs(s'.jobs, s.jobs) && |s'.retired| == |s.retired| + 1
  {
    AdmissionListsJob(p, s, session, jobId, size, completed, clock);
    var s1 := AddJob(p, s, session, jobId, size, completed, clock, 0);
    assert s1 == Admit(p, s, session, jobId, size, completed, true, clock);
    assert s1.retired == s.retired;
    RemovalTakesOne(p, s1, 0, clock, 4);
    assert s1.jobs[..0] + s1.jobs[1..] == s1.jobs[1..];
    SameJobsThrough(RemoveJob(p, s1, 0, clock, 4).jobs, s1.jobs[1..], s.jobs);
  }

  // ---- Cookies ------------------------------------------------------------------------------------------------------

  /** A cookie says, to the nearest calculation, how far the job is, and is remembered as the
      last one; if it cannot be sent, the job is removed. */
  lemma CookieSays(p: Params, s: Server, i: nat, sendOk: bool, clock: Clock, k: nat)
    requires ValidParams(p) && i < |s.jobs|
    ensures var s' := SendCookie(p, s, i, sendOk, clock, k);
      if sendOk
      then
        var j := s'.jobs[i];
        && s' == s.(jobs := s.jobs[i := j])
        && j == s.jobs[i].(cookies := j.cookies, lastCookieAt := clock(k), lastCookieCompleted := s.jobs[i].completed)
        && |j.cookies| == |s.jobs[i].cookies| + 1 && j.cookies[..|s.jobs[i].cookies|] == s.jobs[i].cookies
        && -0.5 <= j.cookies[|j.cookies| - 1] as real - s.jobs[i].completed <= 0.5
      else SameJobs(s'.jobs, s.jobs[..i] + s.jobs[i + 1..]) && |s'.retired| == |s.retired| + 1
  {
    if sendOk {
      CalcAppCookies.RintNearest(s.jobs[i].completed);
    } else {
      RemovalTakesOne(p, s, i, clock, k);
    }
  }

  // ---- The timer ------------------------------------------------------------------------------------------------------

  lemma ReportedJobs(p: Params, s: Server, i: nat, clock: Clock, k: nat)
    requires ValidParams(p) && i < |s.jobs|
    ensures var s1 := ScheduleJobs(p, UpdateCalculations(p, s, clock(k)), clock(k + 1));
      SameJobs(s1.jobs[i := s1.jobs[i].(reported := Some(s1.jobs[i].completed))], s.jobs) && s1.retired == s.retired
  {
    var u := UpdateCalculations(p, s, clock(k));
    UpdateKeepsJobs(p, s, clock(k));
    hide UpdateCalculations;
    ScheduleKeepsJobs(p, u, clock(k + 1));
    hide ScheduleJobs;
    SameJobsThrough(ScheduleJobs(p, u, clock(k + 1)).jobs, u.jobs, s.jobs);
  }

  lemma WithoutSame(a: seq<Job>, b: seq<Job>, i: nat)
    requires SameJobs(a, b) && i < |a|
    ensures SameJobs(a[..i] + a[i + 1..], b[..i] + b[i + 1..])
  {
    hide SameJobAs;
  }

  /** A completion is reported, and the job is gone. */
  lemma CompletionRetires(p: Params, s: Server, i: nat, clock: Clock, k: nat)
    requires ValidParams(p) && i < |s.jobs|
    ensures var s' := CompleteJob(p, s, i, clock, k);
      && SameJobs(s'.jobs, s.jobs[..i] + s.jobs[i + 1..])
      && |s'.retired| == |s.retired| + 1 && SameJobAs(s'.retired[|s.retired|], s.jobs[i])
      && s'.retired[|s.retired|].reported.Some?
  {
    var s1 := ScheduleJobs(p, UpdateCalculations(p, s, clock(k)), clock(k + 1));
    ReportedJobs(p, s, i, clock, k);
    var s2 := s1.(jobs := s1.jobs[i := s1.jobs[i].(reported := Some(s1.jobs[i].completed))]);
    hide UpdateCalculations, ScheduleJobs, RemoveJob;
    RemovalTakesOne(p, s2, i, clock, k + 2);
    RemoveRetires(p, s2, i, clock, k + 2);
    WithoutSame(s2.jobs, s.jobs, i);
    SameJobsThrough(RemoveJob(p, s2, i, clock, k + 2).jobs, s2.jobs[..i] + s2.jobs[i + 1..], s.jobs[..i] + s.jobs[i + 1..]);
  }

  /** A timer serves the first job that has something due.  If its completion is due, that is
      reported and the job is gone. */
  lemma TimerCompletes(p: Params, s: Server, sendOk: bool, clock: Clock, i: nat)
    requires ValidParams(p) && i == FirstDue(s.jobs, clock(0)) && i < |s.jobs| && Due(s.jobs[i].completeAt, clock(0))
    ensures var s' := HandleTimer(p, s, sendOk, clock);
      && SameJobs(s'.jobs, s.jobs[..i] + s.jobs[i + 1..])
      && |s'.retired| == |s.retired| + 1 && SameJobAs(s'.retired[|s.retired|], s.jobs[i])
      && s'.retired[|s.retired|].reported.Some?
  {
    var s0 := s.(jobs := s.jobs[i := s.jobs[i].(completeAt := None)]);
    hide CompleteJob, SameJobs;
    CompletionRetires(p, s0, i, clock, 1);
    assert s0.jobs[..i] + s0.jobs[i + 1..] == s.jobs[..i] + s.jobs[i + 1..];
  }

  /** If a cookie is due first, one more cookie of this job has gone out, with the progress
      credited up to then, and its next one is scheduled anew. */
  lemma TimerSendsCookie(p: Params, s: Server, clock: Clock, i: nat)
    requires ValidParams(p) && i == FirstDue(s.jobs, clock(0)) && i < |s.jobs|
    requires !Due(s.jobs[i].completeAt, clock(0)) && Due(s.jobs[i].cookieAt, clock(0))
    ensures var jobs := HandleTimer(p, s, true, clock).jobs;
      && |jobs| == |s.jobs|
      && |jobs[i].cookies| == |s.jobs[i].cookies| + 1 && jobs[i].session == s.jobs[i].session && jobs[i].jobId == s.jobs[i].jobId
      && -0.5 <= jobs[i].cookies[|jobs[i].cookies| - 1] as real - jobs[i].completed <= 0.5
      && jobs[i].lastUpdateAt == clock(1) && jobs[i].lastCookieAt == clock(2) && jobs[i].scheduledAt == clock(4)
  {
    var s0 := s.(jobs := s.jobs[i := s.jobs[i].(cookieAt := None)]);
    var s1 := UpdateCalculations(p, s0, clock(1));
    CookieSays(p, s1, i, true, clock, 2);
    var s2 := SendCookie(p, s1, i, true, clock, 2);
    SameJob(p, s2, i, clock(4));
  }

  /** If a keep-alive is due first, it goes out and the timeout for its answer starts; if it
      cannot be sent, the job is gone. */
  lemma TimerKeepsAlive(p: Params, s: Server, sendOk: bool, clock: Clock, i: nat)
    requires ValidParams(p) && i == FirstDue(s.jobs, clock(0)) && i < |s.jobs|
    requires !Due(s.jobs[i].completeAt, clock(0)) && !Due(s.jobs[i].cookieAt, clock(0)) && Due(s.jobs[i].keepAliveAt, clock(0))
    ensures var s' := HandleTimer(p, s, sendOk, clock);
      if sendOk
      then s' == s.(jobs := s.jobs[i := s.jobs[i].(keepAliveAt := None, keepAliveTimeoutAt := Some(clock(1) + p.keepAliveTimeout))])
      else SameJobs(s'.jobs, s.jobs[..i] + s.jobs[i + 1..]) && |s'.retired| == |s.retired| + 1
  {
    if !sendOk {
      var job := s.jobs[i].(keepAliveAt := None, keepAliveTimeoutAt := Some(clock(1) + p.keepAliveTimeout));
      EditedRemoval(p, s, i, job, clock, 2);
    }
  }

  lemma EditedRemoval(p: Params, s: Server, i: nat, job: Job, clock: Clock, k: nat)
    requires ValidParams(p) && i < |s.jobs|
    ensures var s' := RemoveJob(p, s.(jobs := s.jobs[i := job]), i, clock, k);
      SameJobs(s'.jobs, s.jobs[..i] + s.jobs[i + 1..]) && |s'.retired| == |s.retired| + 1
  {
    var s0 := s.(jobs := s.jobs[i := job]);
    RemovalTakesOne(p, s0, i, clock, k);
    assert s0.jobs[..i] + s0.jobs[i + 1..] == s.jobs[..i] + s.jobs[i + 1..];
  }

  /** If only the timeout of a keep-alive has passed, the job is gone. */
  lemma TimerGivesUp(p: Params, s: Server, sendOk: bool, clock: Clock, i: nat)
    requires ValidParams(p) && i == FirstDue(s.jobs, clock(0)) && i < |s.jobs|
    requires !Due(s.jobs[i].completeAt, clock(0)) && !Due(s.jobs[i].cookieAt, clock(0)) && !Due(s.jobs[i].keepAliveAt, clock(0))
    ensures var s' := HandleTimer(p, s, sendOk, clock);
      SameJobs(s'.jobs, s.jobs[..i] + s.jobs[i + 1..]) && |s'.retired| == |s.retired| + 1
  {
    EditedRemoval(p, s, i, s.jobs[i].(keepAliveTimeoutAt := None), clock, 1);
  }

  /** An answered keep-alive stops the timeout and starts the next interval, for the job it
      names; others are not touched. */
  lemma KeepAliveAnswered(p: Params, s: Server, clock: Clock, i: nat)
    requires i < |s.jobs| && forall j :: 0 <= j < i ==> !(s.jobs[j].session == s.jobs[i].session && s.jobs[j].jobId == s.jobs[i].jobId)
    ensures HandleKeepAliveAck(p, s, s.jobs[i].session, s.jobs[i].jobId, clock) ==
      s.(jobs := s.jobs[i := s.jobs[i].(keepAliveTimeoutAt := None, keepAliveAt := Some(clock(0) + p.keepAliveInterval))])
  {
    var k := FindJob(s.jobs, s.jobs[i].session, s.jobs[i].jobId);
    assert k == i;
  }

  /** A new request starts with nothing done, a resumed one with what its cookie says. */
  lemma WhereJobsStart(p: Params, s: System, e: Event)
    requires ValidParams(p) && (e.Request? || e.CookieEcho?) && e.sendOk && |s.server.jobs| < p.maxJobs
    ensures var jobs := Apply(p, s, e).server.jobs;
      && |jobs| == |s.server.jobs| + 1 && SameJobs(jobs[1..], s.server.jobs)
      && jobs[0].session == e.session && jobs[0].jobId == e.jobId && jobs[0].size == e.size
      && jobs[0].initial == jobs[0].completed == if e.Request? then 0.0 else e.cookie as real
  {
    AdmissionListsJob(p, s.server, e.session, e.jobId, e.size, if e.Request? then 0.0 else e.cookie as real, e.clock);
  }

  /** A keep-alive of the client is answered and changes nothing, unless the answer cannot be
      sent: then the job that it names is gone. */
  lemma KeepAliveOfClient(p: Params, s: Server, sendOk: bool, clock: Clock, i: nat)
    requires ValidParams(p) && i < |s.jobs|
    requires forall j :: 0 <= j < i ==> !(s.jobs[j].session == s.jobs[i].session && s.jobs[j].jobId == s.jobs[i].jobId)
    ensures var s' := HandleKeepAlive(p, s, s.jobs[i].session, s.jobs[i].jobId, sendOk, clock);
      if sendOk then s' == s
      else SameJobs(s'.jobs, s.jobs[..i] + s.jobs[i + 1..]) && |s'.retired| == |s.retired| + 1
  {
    assert FindJob(s.jobs, s.jobs[i].session, s.jobs[i].jobId) == i;
    if !sendOk { RemovalTakesOne(p, s, i, clock, 0); }
  }

  // ---- Shutdown ---------------------------------------------------------------------------------------------------------

  /** `b` is `a` after one more cookie with the progress of `a`. */
  predicate WithCookie(a: Job, b: Job) {
    && b.session == a.session && b.jobId == a.jobId && b.size == a.size && b.initial == a.initial
    && |b.cookies| == |a.cookies| + 1 && b.cookies[..|a.cookies|] == a.cookies
    && -0.5 <= b.cookies[|a.cookies|] as real - a.completed <= 0.5
  }

  lemma {:induction false} AllGetCookies(p: Params, s: Server, i: nat, sendOk: nat -> bool, clock: Clock, k: nat)
    requires ValidParams(p) && i <= |s.jobs| && forall n :: sendOk(n)
    ensures var s' := SendCookies(p, s, i, sendOk, clock, k);
      && s'.retired == s.retired && |s'.jobs| == |s.jobs| && s'.jobs[..i] == s.jobs[..i]
      && forall n :: i <= n < |s.jobs| ==> WithCookie(s.jobs[n], s'.jobs[n])
    decreases |s.jobs| - i
  {
    if i < |s.jobs| {
      var s1 := SendCookie(p, s, i, true, clock, k);
      CookieSays(p, s, i, true, clock, k);
      AllGetCookies(p, s1, i + 1, sendOk, clock, k + 2);
      var s' := SendCookies(p, s, i, sendOk, clock, k);
      assert s'.jobs[..i + 1] == s1.jobs[..i + 1];
      assert s'.jobs[i] == s'.jobs[..i + 1][i] && s1.jobs[i] == s1.jobs[..i + 1][i];
      assert s'.jobs[..i] == s'.jobs[..i + 1][..i] && s1.jobs[..i] == s1.jobs[..i + 1][..i] == s.jobs[..i];
    }
  }

  lemma {:induction false} AllRetire(p: Params, s: Server, clock: Clock, k: nat)
    requires ValidParams(p)
    ensures var s' := RemoveRemaining(p, s, clock, k);
      && s'.jobs == [] && |s'.retired| == |s.retired| + |s.jobs| && s'.retired[..|s.retired|] == s.retired
      && SameJobs(s'.retired[|s.retired|..], s.jobs)
    decreases |s.jobs|
  {
    if s.jobs != [] {
      var s1 := RemoveJob(p, s, 0, clock, k);
      RemovalTakesOne(p, s, 0, clock, k);
      assert s.jobs[..0] + s.jobs[1..] == s.jobs[1..];
      assert RemoveRemaining(p, s, clock, k) == RemoveRemaining(p, s1, clock, k + 2);
      hide RemoveJob, RemoveRemaining, SameJobs, SameJobAs;
      AllRetire(p, s1, clock, k + 2);
      var after := RemoveRemaining(p, s1, clock, k + 2).retired;
      RetiredLater(after, s1.retired, s.retired, s.jobs, s1.jobs);
    }
  }

  lemma RetiredLater(after: seq<Job>, middle: seq<Job>, before: seq<Job>, jobs: seq<Job>, rest: seq<Job>)
    requires jobs != [] && |middle| == |before| + 1 && |after| == |middle| + |rest| && SameJobs(rest, jobs[1..])
    requires middle[..|before|] == before && SameJobAs(middle[|before|], jobs[0])
    requires after[..|middle|] == middle && SameJobs(after[|middle|..], rest)
    ensures after[..|before|] == before && SameJobs(after[|before|..], jobs)
  {
    hide SameJobAs;
    assert after[..|before|] == after[..|middle|][..|before|];
    assert after[|before|] == after[..|middle|][|before|];
    forall i | 0 <= i < |jobs| ensures SameJobAs(after[|before|..][i], jobs[i]) {
      if i > 0 {
        assert SameJobAs(after[|middle|..][i - 1], rest[i - 1]) && SameJobAs(rest[i - 1], jobs[1..][i - 1]);
        SameJobTransitive(after[|before| + i], rest[i - 1], jobs[i]);
      }
    }
  }

  lemma SameJobTransitive(a: Job, b: Job, c: Job)
    requires SameJobAs(a, b) && SameJobAs(b, c)
    ensures SameJobAs(a, c)
  {
  }

  lemma CookieStays(a: Job, scheduled: Job, b: Job, retired: Job)
    requires SameJobAs(scheduled, a) && scheduled.completed == a.completed
    requires WithCookie(scheduled, b) && SameJobAs(retired, b)
    ensures WithCookie(a, retired)
  {
  }

  lemma ScheduledJob(p: Params, s: Server, i: nat, now: nat)
    requires ValidParams(p) && i < |s.jobs|
    ensures var s' := ScheduleJobs(p, s, now);
      SameJobAs(s'.jobs[i], s.jobs[i]) && s'.jobs[i].completed == s.jobs[i].completed && s'.retired == s.retired
  {
    SameJob(p, s, i, now);
    ScheduleKeepsJobs(p, s, now);
  }

  /** A clean shutdown leaves every client with a cookie that says, to the nearest
      calculation, how far its job is at that moment. */
  lemma ShutdownLeavesCookies(p: Params, s: Server, sendOk: nat -> bool, clock: Clock, i: nat)
    requires ValidParams(p) && i < |s.jobs| && forall n :: sendOk(n)
    ensures var s' := RemoveAllJobs(p, s, true, sendOk, clock);
      && s'.jobs == [] && |s'.retired| == |s.retired| + |s.jobs|
      && WithCookie(UpdateCalculations(p, s, clock(0)).jobs[i], s'.retired[|s.retired| + i])
  {
    var s0 := UpdateCalculations(p, s, clock(0));
    UpdateKeepsJobs(p, s, clock(0));
    hide UpdateCalculations, ScheduleJobs, SendCookies, RemoveRemaining, SameJobAs, WithCookie;
    ScheduledJob(p, s0, i, clock(1));
    var s1 := ScheduleJobs(p, s0, clock(1));
    AllGetCookies(p, s1, 0, sendOk, clock, 2);
    var s2 := SendCookies(p, s1, 0, sendOk, clock, 2);
    AllRetire(p, s2, clock, 2 + 2 * |s.jobs|);
    var retired := RemoveRemaining(p, s2, clock, 2 + 2 * |s.jobs|).retired;
    assert retired[|s.retired|..][i] == retired[|s.retired| + i];
    CookieStays(s0.jobs[i], s1.jobs[i], s2.jobs[i], retired[|s.retired| + i]);
  }
}
