/**
 Requests to be adapted and requests to be retried are never mixed up: over every run the completions handed to adapt
 are those told of adapting or still to be told, each as often as it was handed in, and likewise for retry.
 */
module AuthenticationKinds {
  import opened Wire
  import opened AuthenticationInterceptor
  import opened AuthenticationOutcomes

  /** What adapt tells its completion; the other outcomes are those of retry. */
  predicate OfAdapt(o: Outcome) {
    o.Adapted? || o.AdaptFailed?
  }

  function One(id: Id, counts: bool): multiset<Id> {
    if counts then multiset{id} else multiset{}
  }

  function FiredOf(fired: seq<Fired>, adapting: bool): multiset<Id> {
    if fired == [] then multiset{}
    else
      var f := fired[|fired| - 1];
      FiredOf(fired[..|fired| - 1], adapting) + One(f.id, OfAdapt(f.outcome) == adapting)
  }

  function DecidedOf(decided: seq<Decision>, adapting: bool): multiset<Id> {
    if decided == [] then multiset{}
    else
      var f := decided[0].told;
      One(f.id, OfAdapt(f.outcome) == adapting) + DecidedOf(decided[1..], adapting)
  }

  function JobOf(j: Job, adapting: bool): multiset<Id> {
    if j.RefreshJob? then multiset{} else if adapting then multiset(j.adapts) else multiset(j.retries)
  }

  function QueueOf(q: seq<Job>, adapting: bool): multiset<Id> {
    if q == [] then multiset{} else JobOf(q[0], adapting) + QueueOf(q[1..], adapting)
  }

  /** Those that wait for a refresh; a retry may also be between its checks and the lock. */
  function WaitingOf(st: State, adapting: bool): multiset<Id> {
    if adapting then multiset(st.adaptOperations) else multiset(st.requestsToRetry)
  }

  function HandOf(st: State, adapting: bool): multiset<Id> {
    if adapting then multiset{} else InHandIds(st.inHand)
  }

  /** Every place a request of this kind can be. */
  function PlacesOf(st: State, adapting: bool): multiset<Id> {
    FiredOf(st.fired, adapting) + DecidedOf(st.decided, adapting) + WaitingOf(st, adapting)
    + QueueOf(st.queue, adapting) + HandOf(st, adapting)
  }

  /** The completions handed to adapt, or to retry, in a run. */
  function HandedIn(events: seq<Event>, adapting: bool): multiset<Id> {
    if events == [] then multiset{}
    else HandedIn(events[..|events| - 1], adapting) + HandsIn(events[|events| - 1], adapting)
  }

  function HandsIn(e: Event, adapting: bool): multiset<Id> {
    match e
    case Adapt(id, _, _, _) => One(id, adapting)
    case RetryCheck(id, _) => One(id, !adapting)
    case _ => multiset{}
  }

  // ---------- the sections ----------

  lemma FiredAppend(fired: seq<Fired>, f: Fired, a: bool)
    ensures FiredOf(fired + [f], a) == FiredOf(fired, a) + One(f.id, OfAdapt(f.outcome) == a)
  {
    assert (fired + [f])[..|fired|] == fired;
  }

  lemma {:induction false} DecidedAdds(s: seq<Decision>, d: Decision, a: bool)
    ensures DecidedOf(s + [d], a) == DecidedOf(s, a) + One(d.told.id, OfAdapt(d.told.outcome) == a)
  {
    if s == [] {
      assert [] + [d] == [d];
    } else {
      assert (s + [d])[1..] == s[1..] + [d];
      DecidedAdds(s[1..], d, a);
    }
  }

  lemma {:induction false} DecidedLoses(s: seq<Decision>, k: nat, a: bool)
    requires k < |s|
    ensures DecidedOf(s, a)
         == DecidedOf(s[..k] + s[k + 1..], a) + One(s[k].told.id, OfAdapt(s[k].told.outcome) == a)
  {
    if k == 0 {
      assert s[..0] + s[1..] == s[1..];
    } else {
      assert s[1..][..k - 1] + s[1..][k..] == (s[..k] + s[k + 1..])[1..];
      DecidedLoses(s[1..], k - 1, a);
    }
  }

  lemma {:induction false} QueueAdds(q: seq<Job>, j: Job, a: bool)
    ensures QueueOf(q + [j], a) == QueueOf(q, a) + JobOf(j, a)
  {
    if q == [] {
      assert [] + [j] == [j];
    } else {
      assert (q + [j])[1..] == q[1..] + [j];
      QueueAdds(q[1..], j, a);
    }
  }

  lemma FireOf(st: State, id: Id, o: Outcome, a: bool)
    ensures PlacesOf(Fire(st, id, o), a) == PlacesOf(st, a) + One(id, OfAdapt(o) == a)
  {
    FiredAppend(st.fired, Fired(id, o), a);
  }

  lemma DecideOf(st: State, id: Id, o: Outcome, onQueue: bool, a: bool)
    ensures PlacesOf(Decide(st, id, o, onQueue), a) == PlacesOf(st, a) + One(id, OfAdapt(o) == a)
  {
    DecidedAdds(st.decided, Decision(Fired(id, o), onQueue), a);
  }

  lemma CallOf(st: State, k: nat, a: bool)
    requires k < |st.decided|
    ensures PlacesOf(CallNow(st, k), a) == PlacesOf(st, a)
  {
    DecidedLoses(st.decided, k, a);
    FiredAppend(st.fired, st.decided[k].told, a);
  }

  lemma FailAllOf(st: State, error: AuthError, a: bool)
    ensures PlacesOf(FailAll(st, error), a) == PlacesOf(st, a)
  {
    QueueAdds(st.queue, FailureJob(st.adaptOperations, st.requestsToRetry, error), a);
  }

  lemma SucceedAllOf(st: State, c: Credential, a: bool)
    ensures PlacesOf(SucceedAll(st, c), a) == PlacesOf(st, a)
  {
    QueueAdds(st.queue, SuccessJob(st.adaptOperations, st.requestsToRetry), a);
  }

  lemma StartRefreshOf(w: Option<RefreshWindow>, st: State, c: Credential, t1: real, t2: real, a: bool)
    ensures PlacesOf(StartRefresh(w, st, c, t1, t2), a) == PlacesOf(st, a)
  {
    FailAllOf(st, ExcessiveRefresh, a);
    QueueAdds(st.queue, RefreshJob(c), a);
  }

  lemma DeferOf(st: State, id: Id, a: bool)
    ensures PlacesOf(st.(adaptOperations := st.adaptOperations + [id]), a) == PlacesOf(st, a) + One(id, a)
    ensures PlacesOf(st.(requestsToRetry := st.requestsToRetry + [id]), a) == PlacesOf(st, a) + One(id, !a)
  {
  }

  lemma AdaptOf(w: Option<RefreshWindow>, st: State, id: Id, r: bool, t1: real, t2: real, onQueue: bool, a: bool)
    ensures PlacesOf(AdaptSection(w, st, id, r, t1, t2, onQueue), a) == PlacesOf(st, a) + One(id, a)
  {
    hide PlacesOf, StartRefresh, Decide;
    DeferOf(st, id, a);
    if st.isRefreshing {
    } else if st.credential.None? {
      DecideOf(st, id, AdaptFailed(MissingCredential), onQueue, a);
    } else if r {
      StartRefreshOf(w, st.(adaptOperations := st.adaptOperations + [id]), st.credential.value, t1, t2, a);
    } else {
      DecideOf(st, id, Adapted(st.credential.value), onQueue, a);
    }
  }

  lemma RetryOf(w: Option<RefreshWindow>, st: State, id: Id, c: Credential, t1: real, t2: real, a: bool)
    ensures PlacesOf(RetrySection(w, st, id, c, t1, t2), a) == PlacesOf(st, a) + One(id, !a)
  {
    hide PlacesOf, StartRefresh;
    DeferOf(st, id, a);
    if !st.isRefreshing { StartRefreshOf(w, st.(requestsToRetry := st.requestsToRetry + [id]), c, t1, t2, a); }
  }

  lemma HandAdds(st: State, p: Pending, a: bool)
    ensures PlacesOf(st.(inHand := st.inHand + [p]), a) == PlacesOf(st, a) + One(p.id, !a)
  {
    InHandAppend(st.inHand, p);
  }

  lemma HandLoses(st: State, k: nat, a: bool)
    requires k < |st.inHand|
    ensures PlacesOf(st, a)
         == PlacesOf(st.(inHand := st.inHand[..k] + st.inHand[k + 1..]), a) + One(st.inHand[k].id, !a)
  {
    InHandRemove(st.inHand, k);
  }

  lemma CheckOf(st: State, id: Id, verdict: Verdict, a: bool)
    ensures PlacesOf(CheckRetry(st, id, verdict), a) == PlacesOf(st, a) + One(id, !a)
  {
    hide PlacesOf, Decide;
    if verdict.NoResponse? || verdict.NotAuthError? { DecideOf(st, id, DoNotRetry, false, a); }
    else if st.credential.None? { DecideOf(st, id, DoNotRetryWithError(MissingCredential), false, a); }
    else if verdict.OtherCredential? { DecideOf(st, id, Retry, false, a); }
    else { HandAdds(st, Pending(id, st.credential.value), a); }
  }

  /** Taking the next request out of the job at the head of the queue. */
  lemma TakeOf(st: State, j: Job, id: Id, kind: bool, a: bool)
    requires st.queue != [] && JobOf(st.queue[0], a) == JobOf(j, a) + One(id, kind == a)
    ensures PlacesOf(st, a) == PlacesOf(st.(queue := [j] + st.queue[1..]), a) + One(id, kind == a)
  {
    assert ([j] + st.queue[1..])[1..] == st.queue[1..];
  }

  lemma DropOf(st: State, calls: nat, a: bool)
    requires st.queue != [] && JobOf(st.queue[0], a) == multiset{}
    ensures PlacesOf(st.(queue := st.queue[1..], calls := calls), a) == PlacesOf(st, a)
  {
  }

  lemma FirstAdapt(j: Job, a: bool)
    requires !j.RefreshJob? && j.adapts != []
    ensures JobOf(j, a) == JobOf(j.(adapts := j.adapts[1..]), a) + One(j.adapts[0], a)
  {
    HeadOf(j.adapts);
  }

  lemma FirstRetry(j: Job, a: bool)
    requires !j.RefreshJob? && j.retries != []
    ensures JobOf(j, a) == JobOf(j.(retries := j.retries[1..]), a) + One(j.retries[0], !a)
  {
    HeadOf(j.retries);
  }

  lemma RunAdaptOf(w: Option<RefreshWindow>, st: State, r: bool, t1: real, t2: real, a: bool)
    requires st.queue != [] && !st.queue[0].RefreshJob? && st.queue[0].adapts != []
    ensures PlacesOf(RunJob(w, st, r, t1, t2), a) == PlacesOf(st, a)
  {
    hide PlacesOf, AdaptSection, Fire;
    var job := st.queue[0];
    var left, id := job.(adapts := job.adapts[1..]), job.adapts[0];
    FirstAdapt(job, a);
    TakeOf(st, left, id, true, a);
    if job.SuccessJob? { AdaptOf(w, st.(queue := [left] + st.queue[1..]), id, r, t1, t2, true, a); }
    else { FireOf(st.(queue := [left] + st.queue[1..]), id, AdaptFailed(job.error), a); }
  }

  lemma RunRetryOf(w: Option<RefreshWindow>, st: State, r: bool, t1: real, t2: real, a: bool)
    requires st.queue != [] && !st.queue[0].RefreshJob? && st.queue[0].adapts == [] && st.queue[0].retries != []
    ensures PlacesOf(RunJob(w, st, r, t1, t2), a) == PlacesOf(st, a)
  {
    hide PlacesOf, Fire;
    var job := st.queue[0];
    var left, id := job.(retries := job.retries[1..]), job.retries[0];
    FirstRetry(job, a);
    TakeOf(st, left, id, false, a);
    var o := if job.SuccessJob? then Retry else DoNotRetryWithError(job.error);
    FireOf(st.(queue := [left] + st.queue[1..]), id, o, a);
  }

  lemma RunOf(w: Option<RefreshWindow>, st: State, r: bool, t1: real, t2: real, a: bool)
    requires st.queue != []
    ensures PlacesOf(RunJob(w, st, r, t1, t2), a) == PlacesOf(st, a)
  {
    hide PlacesOf;
    var job := st.queue[0];
    if job.RefreshJob? { DropOf(st, st.calls + 1, a); }
    else if job.adapts != [] { RunAdaptOf(w, st, r, t1, t2, a); }
    else if job.retries != [] { RunRetryOf(w, st, r, t1, t2, a); }
    else { DropOf(st, st.calls, a); }
  }

  /** Only these fields say where requests are. */
  lemma SameOf(st: State, st': State, a: bool)
    requires st'.fired == st.fired && st'.decided == st.decided && st'.queue == st.queue && st'.inHand == st.inHand
    requires st'.adaptOperations == st.adaptOperations && st'.requestsToRetry == st.requestsToRetry
    ensures PlacesOf(st', a) == PlacesOf(st, a)
  {
  }

  lemma StepOf(w: Option<RefreshWindow>, st: State, e: Event, a: bool)
    requires Enabled(st, e)
    ensures PlacesOf(Apply(w, st, e), a) == PlacesOf(st, a) + HandsIn(e, a)
  {
    hide PlacesOf, AdaptSection, RetrySection, RunJob, CheckRetry, CallNow, FailAll, SucceedAll;
    match e
    case Adapt(id, r, t1, t2) =>
      AdaptOf(w, Submit(st, id), id, r, t1, t2, false, a);
      SameOf(st, Submit(st, id), a);
      SameOf(AdaptSection(w, Submit(st, id), id, r, t1, t2, false), Apply(w, st, e), a);
    case RetryCheck(id, verdict) =>
      CheckOf(Submit(st, id), id, verdict, a);
      SameOf(st, Submit(st, id), a);
    case RetryLocked(k, t1, t2) =>
      var p, st' := st.inHand[k], st.(inHand := st.inHand[..k] + st.inHand[k + 1..]);
      HandLoses(st, k, a);
      RetryOf(w, st', p.id, p.credential, t1, t2, a);
      SameOf(RetrySection(w, st', p.id, p.credential, t1, t2), Apply(w, st, e), a);
    case CallDecided(k) => CallOf(st, k, a);
    case RunQueue(r, t1, t2) =>
      RunOf(w, st, r, t1, t2, a);
      SameOf(RunJob(w, st, r, t1, t2), Apply(w, st, e), a);
    case RefreshSucceeded(c) =>
      SucceedAllOf(st.(calls := st.calls - 1), c, a);
      SameOf(st, st.(calls := st.calls - 1), a);
    case RefreshFails(code) =>
      FailAllOf(st.(calls := st.calls - 1), RefreshFailed(code), a);
      SameOf(st, st.(calls := st.calls - 1), a);
    case SetCredential(c) => SameOf(st, st.(credential := c), a);
  }

  lemma NobodyYet(a: bool)
    ensures PlacesOf(INITIAL, a) == multiset{}
  {
  }

  /** Over every run and for both kinds, requests are told what is said to their kind, or still in some place. */
  lemma {:induction false} KindsKept(w: Option<RefreshWindow>, events: seq<Event>, adapting: bool)
    requires Exec(w, INITIAL, events).Some?
    ensures PlacesOf(Exec(w, INITIAL, events).value, adapting) == HandedIn(events, adapting)
  {
    hide PlacesOf, Apply, HandsIn;
    if events == [] {
      NobodyYet(adapting);
    } else {
      LastStep(w, events);
      var before := events[..|events| - 1];
      KindsKept(w, before, adapting);
      StepOf(w, Exec(w, INITIAL, before).value, events[|before|], adapting);
    }
  }

  /** With nothing queued, waiting, in hand or on its way, every request was told what is said to its kind. */
  lemma AllToldByKind(w: Option<RefreshWindow>, events: seq<Event>, adapting: bool)
    requires Exec(w, INITIAL, events).Some?
    requires var st := Exec(w, INITIAL, events).value;
             st.queue == [] && st.calls == 0 && st.inHand == [] && st.decided == []
    ensures FiredOf(Exec(w, INITIAL, events).value.fired, adapting) == HandedIn(events, adapting)
  {
    Safety(w, events);
    KindsKept(w, events, adapting);
  }
}
