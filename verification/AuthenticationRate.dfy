/**
 How often refreshes start, told by the steps of a run that start one and the clock readings they come with, not by the
 list of timestamps the interceptor keeps for itself.
 */
module AuthenticationRate {
  import opened Wire
  import opened AuthenticationInterceptor
  import opened AuthenticationOutcomes

  // ---------- the steps that start a refresh ----------

  /** The step from `st` to `st'` hands one more refresh to the dispatch queue. */
  predicate Starts(st: State, st': State) {
    RefreshJobs(st'.queue) > RefreshJobs(st.queue)
  }

  predicate ReadsClock(e: Event) {
    e.Adapt? || e.RetryLocked? || e.RunQueue?
  }

  /** The step keeps the recorded timestamps, or starts a refresh and adds the reading that comes with it. */
  predicate Records(st: State, st': State, t2: real) {
    if Starts(st, st') then st'.refreshTimestamps == st.refreshTimestamps + [t2]
    else st'.refreshTimestamps == st.refreshTimestamps
  }

  lemma StartRefreshRecords(w: Option<RefreshWindow>, st: State, c: Credential, t1: real, t2: real)
    ensures Records(st, StartRefresh(w, st, c, t1, t2), t2)
    ensures Excessive(w, st.refreshTimestamps, t1) ==> !Starts(st, StartRefresh(w, st, c, t1, t2))
    ensures !Excessive(w, st.refreshTimestamps, t1) ==> Starts(st, StartRefresh(w, st, c, t1, t2))
  {
    QueueAppend(st.queue, RefreshJob(c));
    QueueAppend(st.queue, FailureJob(st.adaptOperations, st.requestsToRetry, ExcessiveRefresh));
  }

  lemma AdaptRecords(w: Option<RefreshWindow>, st: State, id: Id, r: bool, t1: real, t2: real, onQueue: bool)
    ensures Records(st, AdaptSection(w, st, id, r, t1, t2, onQueue), t2)
  {
    hide StartRefresh;
    if st.credential.Some? {
      StartRefreshRecords(w, st.(adaptOperations := st.adaptOperations + [id]), st.credential.value, t1, t2);
    }
  }

  lemma RetryRecords(w: Option<RefreshWindow>, st: State, id: Id, c: Credential, t1: real, t2: real)
    ensures Records(st, RetrySection(w, st, id, c, t1, t2), t2)
  {
    hide StartRefresh;
    StartRefreshRecords(w, st.(requestsToRetry := st.requestsToRetry + [id]), c, t1, t2);
  }

  lemma TakenCounts(q: seq<Job>)
    requires q != []
    ensures RefreshJobs(Taken(q)) == RefreshJobs(q[1..])
    ensures !q[0].RefreshJob? ==> RefreshJobs(Taken(q)) == RefreshJobs(q)
  {
    var left := Taken(q);
    if |left| == |q| { assert left[1..] == q[1..]; }
  }

  lemma RunRecords(w: Option<RefreshWindow>, st: State, r: bool, t1: real, t2: real)
    requires st.queue != []
    ensures Records(st, RunJob(w, st, r, t1, t2), t2)
  {
    hide AdaptSection;
    TakenCounts(st.queue);
    var job := st.queue[0];
    if job.SuccessJob? && job.adapts != [] {
      AdaptRecords(w, st.(queue := Taken(st.queue)), job.adapts[0], r, t1, t2, true);
    }
  }

  lemma CallbackRecords(st: State, c: Credential, error: AuthError)
    ensures !Starts(st, SucceedAll(st, c)) && !Starts(st, FailAll(st, error))
  {
    QueueAppend(st.queue, SuccessJob(st.adaptOperations, st.requestsToRetry));
    QueueAppend(st.queue, FailureJob(st.adaptOperations, st.requestsToRetry, error));
  }

  lemma StepRecords(w: Option<RefreshWindow>, st: State, e: Event)
    requires Enabled(st, e)
    ensures Starts(st, Apply(w, st, e)) ==> ReadsClock(e)
    ensures Records(st, Apply(w, st, e), if ReadsClock(e) then e.t2 else 0.0)
  {
    hide AdaptSection, RetrySection, RunJob, RefreshJobs;
    match e
    case Adapt(id, r, t1, t2) => AdaptRecords(w, Submit(st, id), id, r, t1, t2, false);
    case RetryLocked(k, t1, t2) =>
      var st' := st.(inHand := st.inHand[..k] + st.inHand[k + 1..]);
      RetryRecords(w, st', st.inHand[k].id, st.inHand[k].credential, t1, t2);
    case RunQueue(r, t1, t2) => RunRecords(w, st, r, t1, t2);
    case RefreshSucceeded(c) => CallbackRecords(st.(calls := st.calls - 1), c, MissingCredential);
    case RefreshFails(code) => CallbackRecords(st.(calls := st.calls - 1), 0, RefreshFailed(code));
    case _ =>
  }

  // ---------- over whole runs ----------

  /** The step `n` of the run starts a refresh. */
  predicate StartedAt(w: Option<RefreshWindow>, events: seq<Event>, n: nat) {
    && n < |events|
    && var before, after := Exec(w, INITIAL, events[..n]), Exec(w, INITIAL, events[..n + 1]);
       before.Some? && after.Some? && Starts(before.value, after.value) && ReadsClock(events[n])
  }

  predicate Inside(t: real, from: real, to: Option<real>) {
    from <= t && (to.Some? ==> t <= to.value)
  }

  /** The steps that start a refresh with a clock reading in the interval, which may be open to the right. */
  ghost function StartsWithin(w: Option<RefreshWindow>, events: seq<Event>, from: real, to: Option<real>): set<nat> {
    set n: nat | n < |events| && StartedAt(w, events, n) && Inside(events[n].t2, from, to)
  }

  function CountInside(ts: seq<real>, from: real, to: Option<real>): nat {
    if ts == [] then 0
    else CountInside(ts[..|ts| - 1], from, to) + (if Inside(ts[|ts| - 1], from, to) then 1 else 0)
  }

  lemma StartedBefore(w: Option<RefreshWindow>, events: seq<Event>, n: nat)
    requires n < |events| - 1
    ensures StartedAt(w, events, n) <==> StartedAt(w, events[..|events| - 1], n)
  {
    var before := events[..|events| - 1];
    assert before[..n] == events[..n] && before[..n + 1] == events[..n + 1];
  }

  lemma StartsWithinStep(w: Option<RefreshWindow>, events: seq<Event>, from: real, to: Option<real>)
    requires events != []
    ensures var last, before := |events| - 1, StartsWithin(w, events[..|events| - 1], from, to);
            && last !in before
            && StartsWithin(w, events, from, to)
               == if StartedAt(w, events, last) && Inside(events[last].t2, from, to) then before + {last} else before
  {
    forall n: nat | n < |events| - 1
      ensures StartedAt(w, events, n) <==> StartedAt(w, events[..|events| - 1], n)
    {
      StartedBefore(w, events, n);
    }
  }

  /** The timestamps the interceptor keeps are the readings of the steps that start a refresh, each once. */
  lemma {:induction false} TimestampsAreStarts(w: Option<RefreshWindow>, events: seq<Event>, from: real,
                                               to: Option<real>)
    requires Exec(w, INITIAL, events).Some?
    ensures |StartsWithin(w, events, from, to)|
         == CountInside(Exec(w, INITIAL, events).value.refreshTimestamps, from, to)
  {
    if events == [] {
      assert StartsWithin(w, events, from, to) == {};
    } else {
      var n := |events| - 1;
      LastStep(w, events);
      var st, st' := Exec(w, INITIAL, events[..n]).value, Exec(w, INITIAL, events).value;
      TimestampsAreStarts(w, events[..n], from, to);
      StartsWithinStep(w, events, from, to);
      StepRecords(w, st, events[n]);
      assert StartedAt(w, events, n) <==> Starts(st, st');
      if Starts(st, st') { CountAppend(st.refreshTimestamps, events[n].t2, from, to); }
    }
  }

  lemma CountAppend(ts: seq<real>, t: real, from: real, to: Option<real>)
    ensures CountInside(ts + [t], from, to) == CountInside(ts, from, to) + (if Inside(t, from, to) then 1 else 0)
  {
    assert (ts + [t])[..|ts|] == ts;
  }

  lemma {:induction false} CountsAgree(ts: seq<real>, from: real, d: real)
    ensures CountInside(ts, from, Some(from + d)) == CountWindow(ts, from, d)
    ensures CountInside(ts, from, None) == CountFrom(ts, from)
  {
    if ts != [] { CountsAgree(ts[..|ts| - 1], from, d); }
  }

  /** Over every run, no closed interval as long as the window holds more steps that start a refresh than it allows. */
  lemma RefreshRateBounded(w: RefreshWindow, events: seq<Event>, from: real)
    requires Exec(Some(w), INITIAL, events).Some?
    ensures |StartsWithin(Some(w), events, from, Some(from + w.interval))|
            <= if w.maximumAttempts > 0 then w.maximumAttempts else 0
  {
    hide StartsWithin, CountInside, CountWindow;
    RateHolds(Some(w), events);
    TimestampsAreStarts(Some(w), events, from, Some(from + w.interval));
    CountsAgree(Exec(Some(w), INITIAL, events).value.refreshTimestamps, from, w.interval);
  }

  // ---------- when a refresh is refused ----------

  lemma StartRefreshQueue(w: Option<RefreshWindow>, st: State, c: Credential, t1: real, t2: real)
    ensures StartRefresh(w, st, c, t1, t2).queue == st.queue
      + [if Excessive(w, st.refreshTimestamps, t1)
         then FailureJob(st.adaptOperations, st.requestsToRetry, ExcessiveRefresh) else RefreshJob(c)]
  {
  }

  /** A step that asks for a refresh appends a refresh job, or a failing job with everything that waits. */
  lemma AskedRefresh(w: Option<RefreshWindow>, st: State, e: Event, c: Credential, adapts: seq<Id>, retries: seq<Id>)
    requires Enabled(st, e) && AsksRefresh(st, e, c, adapts, retries)
    ensures Apply(w, st, e).queue == Base(st, e)
      + [if Excessive(w, st.refreshTimestamps, e.t1) then FailureJob(adapts, retries, ExcessiveRefresh)
         else RefreshJob(c)]
  {
    hide StartRefresh, Excessive, Taken;
    match e
    case Adapt(id, r, t1, t2) => StartRefreshQueue(w, Submit(st, id).(adaptOperations := adapts), c, t1, t2);
    case RetryLocked(k, t1, t2) =>
      StartRefreshQueue(w, st.(inHand := st.inHand[..k] + st.inHand[k + 1..], requestsToRetry := retries), c, t1, t2);
    case RunQueue(r, t1, t2) =>
      TakenAdapt(st.queue);
      StartRefreshQueue(w, st.(queue := Taken(st.queue), adaptOperations := adapts), c, t1, t2);
  }

  lemma TakenAdapt(q: seq<Job>)
    requires q != [] && q[0].SuccessJob? && q[0].adapts != []
    ensures Taken(q) == [SuccessJob(q[0].adapts[1..], q[0].retries)] + q[1..]
  {
  }

  /** The window allows no further start at the clock reading `now`, going by the steps of the run. */
  ghost predicate Exhausted(w: Option<RefreshWindow>, events: seq<Event>, now: real) {
    w.Some? && |StartsWithin(w, events, now - w.value.interval, None)| >= w.value.maximumAttempts
  }

  lemma ExhaustedIffExcessive(w: Option<RefreshWindow>, events: seq<Event>, now: real)
    requires Exec(w, INITIAL, events).Some?
    ensures Exhausted(w, events, now) <==> Excessive(w, Exec(w, INITIAL, events).value.refreshTimestamps, now)
  {
    hide StartsWithin, CountInside, CountFrom, CountWindow;
    if w.Some? {
      TimestampsAreStarts(w, events, now - w.value.interval, None);
      CountsAgree(Exec(w, INITIAL, events).value.refreshTimestamps, now - w.value.interval, 0.0);
    }
  }

  /**
   Over every run, a step that asks for a refresh is refused exactly when as many steps as the window allows have
   started one at or after the beginning of the window; otherwise it starts one. Without a window it always does.
   */
  lemma RefusedIff(w: Option<RefreshWindow>, events: seq<Event>, e: Event, c: Credential, adapts: seq<Id>,
                   retries: seq<Id>)
    requires Exec(w, INITIAL, events).Some? && Enabled(Exec(w, INITIAL, events).value, e)
    requires AsksRefresh(Exec(w, INITIAL, events).value, e, c, adapts, retries)
    ensures Exec(w, INITIAL, events + [e]).Some?
    ensures Exec(w, INITIAL, events + [e]).value.queue == Base(Exec(w, INITIAL, events).value, e)
      + [if Exhausted(w, events, e.t1) then FailureJob(adapts, retries, ExcessiveRefresh) else RefreshJob(c)]
  {
    hide Exhausted, Excessive, Base, Apply;
    assert (events + [e])[..|events|] == events;
    AskedRefresh(w, Exec(w, INITIAL, events).value, e, c, adapts, retries);
    ExhaustedIffExcessive(w, events, e.t1);
  }

  /** The clock readings of a run do not go back. */
  lemma {:induction false} ReadingsInOrder(w: Option<RefreshWindow>, events: seq<Event>, i: nat, j: nat)
    requires Exec(w, INITIAL, events).Some? && i < j < |events| && ReadsClock(events[i]) && ReadsClock(events[j])
    ensures events[i].t1 <= events[i].t2 <= events[j].t1
    decreases |events|
  {
    var before := events[..|events| - 1];
    if j < |before| {
      ReadingsInOrder(w, before, i, j);
    } else {
      ClockNotBehind(w, before, i);
    }
  }

  lemma {:induction false} ClockNotBehind(w: Option<RefreshWindow>, events: seq<Event>, i: nat)
    requires Exec(w, INITIAL, events).Some? && i < |events| && ReadsClock(events[i])
    ensures events[i].t1 <= events[i].t2 <= Exec(w, INITIAL, events).value.clock
    decreases |events|
  {
    LastStep(w, events);
    var before := events[..|events| - 1];
    StepClock(w, Exec(w, INITIAL, before).value, events[|before|]);
    if i < |before| { ClockNotBehind(w, before, i); }
  }

  lemma StepClock(w: Option<RefreshWindow>, st: State, e: Event)
    requires Enabled(st, e)
    ensures Apply(w, st, e).clock == if ReadsClock(e) then e.t2 else st.clock
    ensures ReadsClock(e) ==> st.clock <= e.t1 <= e.t2
  {
  }
}
