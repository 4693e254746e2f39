/**
 Alamofire's AuthenticationInterceptor: requests that need a credential wait while one refresh is under way.

 The state holds what the lock protects, the serial dispatch queue, and what is out of the interceptor's hands: calls
 to the authenticator that have not come back, retries between their credential check and the lock, and completions
 whose outcome was decided under the lock and which are called after it was released. Every step is one locked section,
 one call of a completion or one item of a queued job; what the environment decides (clock readings, whether a
 credential needs a refresh, the authenticator's verdicts) is part of the event.
 */
module AuthenticationInterceptor {
  import opened Wire

  /** A completion handler a caller handed in. */
  type Id = nat

  type Credential = nat

  datatype AuthError = MissingCredential | ExcessiveRefresh | RefreshFailed(code: nat)

  datatype Outcome = Adapted(credential: Credential) | AdaptFailed(error: AuthError)
                   | Retry | DoNotRetry | DoNotRetryWithError(error: AuthError)

  datatype Job =
    | RefreshJob(credential: Credential)
    | SuccessJob(adapts: seq<Id>, retries: seq<Id>)
    | FailureJob(adapts: seq<Id>, retries: seq<Id>, error: AuthError)

  datatype RefreshWindow = RefreshWindow(interval: real, maximumAttempts: int)

  datatype Pending = Pending(id: Id, credential: Credential)

  datatype Fired = Fired(id: Id, outcome: Outcome)

  /** A completion to be called with this outcome, on the dispatch queue or on the caller's thread. */
  datatype Decision = Decision(told: Fired, onQueue: bool)

  datatype State = State(
    credential: Option<Credential>, isRefreshing: bool, refreshTimestamps: seq<real>,
    adaptOperations: seq<Id>, requestsToRetry: seq<Id>,
    queue: seq<Job>, calls: nat, inHand: seq<Pending>, decided: seq<Decision>, fired: seq<Fired>, submitted: seq<Id>,
    clock: real)

  const INITIAL: State := State(None, false, [], [], [], [], 0, [], [], [], [], 0.0)

  // ---------- the locked sections ----------

  /** The number of refreshes started at `from` or later. */
  function CountFrom(ts: seq<real>, from: real): nat {
    if ts == [] then 0 else CountFrom(ts[..|ts| - 1], from) + (if from <= ts[|ts| - 1] then 1 else 0)
  }

  /** isRefreshExcessive, reading the clock at `now` */
  predicate Excessive(w: Option<RefreshWindow>, ts: seq<real>, now: real) {
    w.Some? && CountFrom(ts, now - w.value.interval) >= w.value.maximumAttempts
  }

  /** handleRefreshFailure: hand everything that waits to a queued job. */
  function FailAll(st: State, error: AuthError): State {
    st.(adaptOperations := [], requestsToRetry := [], isRefreshing := false,
        queue := st.queue + [FailureJob(st.adaptOperations, st.requestsToRetry, error)])
  }

  /** handleRefreshSuccess */
  function SucceedAll(st: State, credential: Credential): State {
    st.(credential := Some(credential), adaptOperations := [], requestsToRetry := [], isRefreshing := false,
        queue := st.queue + [SuccessJob(st.adaptOperations, st.requestsToRetry)])
  }

  /** refresh: the check reads the clock at `t1`, the recorded timestamp at `t2`. */
  function StartRefresh(w: Option<RefreshWindow>, st: State, credential: Credential, t1: real, t2: real): State {
    if Excessive(w, st.refreshTimestamps, t1) then FailAll(st, ExcessiveRefresh)
    else st.(refreshTimestamps := st.refreshTimestamps + [t2], isRefreshing := true,
             queue := st.queue + [RefreshJob(credential)])
  }

  function Fire(st: State, id: Id, outcome: Outcome): State {
    st.(fired := st.fired + [Fired(id, outcome)])
  }

  function Decide(st: State, id: Id, outcome: Outcome, onQueue: bool): State {
    st.(decided := st.decided + [Decision(Fired(id, outcome), onQueue)])
  }

  /** The locked section of adapt: it defers the request, or decides what its completion will be told. */
  function AdaptSection(w: Option<RefreshWindow>, st: State, id: Id, requiresRefresh: bool, t1: real, t2: real,
                        onQueue: bool): State
  {
    if st.isRefreshing then st.(adaptOperations := st.adaptOperations + [id])
    else if st.credential.None? then Decide(st, id, AdaptFailed(MissingCredential), onQueue)
    else if requiresRefresh then
      StartRefresh(w, st.(adaptOperations := st.adaptOperations + [id]), st.credential.value, t1, t2)
    else Decide(st, id, Adapted(st.credential.value), onQueue)
  }

  /** The second half of retry, with the credential read before the lock was taken. */
  function RetrySection(w: Option<RefreshWindow>, st: State, id: Id, credential: Credential, t1: real, t2: real): State
  {
    var st' := st.(requestsToRetry := st.requestsToRetry + [id]);
    if st.isRefreshing then st' else StartRefresh(w, st', credential, t1, t2)
  }

  // ---------- events ----------

  /** What the authenticator and the request say in the first half of retry. */
  datatype Verdict = NoResponse | NotAuthError | OtherCredential | SameCredential

  function VerdictOf(hasResponse: bool, isAuthError: bool, sameCredential: bool): Verdict {
    if !hasResponse then NoResponse
    else if !isAuthError then NotAuthError
    else if !sameCredential then OtherCredential
    else SameCredential
  }

  datatype Event =
    | Adapt(id: Id, requiresRefresh: bool, t1: real, t2: real)
    | RetryCheck(id: Id, verdict: Verdict)
    | RetryLocked(k: nat, t1: real, t2: real)
    | CallDecided(k: nat)
    | RunQueue(requiresRefresh: bool, t1: real, t2: real)
    | RefreshSucceeded(credential: Credential)
    | RefreshFails(code: nat)
    | SetCredential(newCredential: Option<Credential>)

  /** The dispatch queue is inside an item whose completion is still to be called. */
  predicate QueueBusy(st: State) {
    exists k | 0 <= k < |st.decided| :: st.decided[k].onQueue
  }

  /** The clock is monotone; a callback needs a call that has not been answered. */
  predicate Enabled(st: State, e: Event) {
    match e
    case Adapt(_, _, t1, t2) => st.clock <= t1 <= t2
    case RetryCheck(_, _) => true
    case RetryLocked(k, t1, t2) => k < |st.inHand| && st.clock <= t1 <= t2
    case CallDecided(k) => k < |st.decided|
    case RunQueue(_, t1, t2) => st.queue != [] && !QueueBusy(st) && st.clock <= t1 <= t2
    case RefreshSucceeded(_) => st.calls > 0
    case RefreshFails(_) => st.calls > 0
    case SetCredential(_) => true
  }

  function Submit(st: State, id: Id): State {
    st.(submitted := st.submitted + [id])
  }

  function At(st: State, t: real): State {
    st.(clock := t)
  }

  /** The first half of retry, up to its call of the completion: the credential is read without the lock being kept. */
  function CheckRetry(st: State, id: Id, verdict: Verdict): State {
    if verdict.NoResponse? || verdict.NotAuthError? then Decide(st, id, DoNotRetry, false)
    else if st.credential.None? then Decide(st, id, DoNotRetryWithError(MissingCredential), false)
    else if verdict.OtherCredential? then Decide(st, id, Retry, false)
    else st.(inHand := st.inHand + [Pending(id, st.credential.value)])
  }

  /** The completion of the k-th decision is called. */
  function CallNow(st: State, k: nat): State
    requires k < |st.decided|
  {
    st.(decided := st.decided[..k] + st.decided[k + 1..], fired := st.fired + [st.decided[k].told])
  }

  /** One item of the job at the head of the serial queue. */
  function RunJob(w: Option<RefreshWindow>, st: State, requiresRefresh: bool, t1: real, t2: real): State
    requires st.queue != []
  {
    var tail := st.queue[1..];
    match st.queue[0]
    case RefreshJob(_) => st.(queue := tail, calls := st.calls + 1)
    case SuccessJob(adapts, retries) =>
      if adapts != [] then
        AdaptSection(w, st.(queue := [SuccessJob(adapts[1..], retries)] + tail), adapts[0], requiresRefresh, t1, t2,
                     true)
      else if retries != [] then Fire(st.(queue := [SuccessJob([], retries[1..])] + tail), retries[0], Retry)
      else st.(queue := tail)
    case FailureJob(adapts, retries, error) =>
      if adapts != [] then
        Fire(st.(queue := [FailureJob(adapts[1..], retries, error)] + tail), adapts[0], AdaptFailed(error))
      else if retries != [] then
        Fire(st.(queue := [FailureJob([], retries[1..], error)] + tail), retries[0], DoNotRetryWithError(error))
      else st.(queue := tail)
  }

  function Apply(w: Option<RefreshWindow>, st: State, e: Event): State
    requires Enabled(st, e)
  {
    match e
    case Adapt(id, r, t1, t2) => At(AdaptSection(w, Submit(st, id), id, r, t1, t2, false), t2)
    case RetryCheck(id, verdict) => CheckRetry(Submit(st, id), id, verdict)
    case RetryLocked(k, t1, t2) =>
      var p := st.inHand[k];
      At(RetrySection(w, st.(inHand := st.inHand[..k] + st.inHand[k + 1..]), p.id, p.credential, t1, t2), t2)
    case CallDecided(k) => CallNow(st, k)
    case RunQueue(r, t1, t2) => At(RunJob(w, st, r, t1, t2), t2)
    case RefreshSucceeded(c) => SucceedAll(st.(calls := st.calls - 1), c)
    case RefreshFails(code) => FailAll(st.(calls := st.calls - 1), RefreshFailed(code))
    case SetCredential(c) => st.(credential := c)
  }

  /** The state after a run from `start`, if every event in it was enabled when it came. */
  function Exec(w: Option<RefreshWindow>, start: State, events: seq<Event>): Option<State> {
    if events == [] then Some(start)
    else
      match Exec(w, start, events[..|events| - 1])
      case None => None
      case Some(st) => var e := events[|events| - 1]; if Enabled(st, e) then Some(Apply(w, st, e)) else None
  }

  // ---------- where completions are ----------

  function JobIds(j: Job): multiset<Id> {
    if j.RefreshJob? then multiset{} else multiset(j.adapts) + multiset(j.retries)
  }

  function QueueIds(q: seq<Job>): multiset<Id> {
    if q == [] then multiset{} else JobIds(q[0]) + QueueIds(q[1..])
  }

  function FiredIds(fired: seq<Fired>): multiset<Id> {
    if fired == [] then multiset{} else FiredIds(fired[..|fired| - 1]) + multiset{fired[|fired| - 1].id}
  }

  function InHandIds(inHand: seq<Pending>): multiset<Id> {
    if inHand == [] then multiset{} else multiset{inHand[0].id} + InHandIds(inHand[1..])
  }

  function DecidedIds(decided: seq<Decision>): multiset<Id> {
    if decided == [] then multiset{} else multiset{decided[0].told.id} + DecidedIds(decided[1..])
  }

  function Waiting(st: State): multiset<Id> {
    multiset(st.adaptOperations) + multiset(st.requestsToRetry)
  }

  /** Every place a completion can be. */
  function Places(st: State): multiset<Id> {
    FiredIds(st.fired) + Waiting(st) + QueueIds(st.queue) + InHandIds(st.inHand) + DecidedIds(st.decided)
  }

  function RefreshJobs(q: seq<Job>): nat {
    if q == [] then 0 else (if q[0].RefreshJob? then 1 else 0) + RefreshJobs(q[1..])
  }

  /** Refreshes started and not yet answered. */
  function Outstanding(st: State): nat {
    st.calls + RefreshJobs(st.queue)
  }

  ghost predicate Inv(st: State) {
    && (!st.isRefreshing ==> st.adaptOperations == [] && st.requestsToRetry == [])
    && Outstanding(st) == (if st.isRefreshing then 1 else 0)
    && Places(st) == multiset(st.submitted)
  }

  lemma {:induction false} QueueAppend(q: seq<Job>, j: Job)
    ensures QueueIds(q + [j]) == QueueIds(q) + JobIds(j)
    ensures RefreshJobs(q + [j]) == RefreshJobs(q) + (if j.RefreshJob? then 1 else 0)
  {
    if q == [] {
      assert [] + [j] == [j];
    } else {
      assert (q + [j])[1..] == q[1..] + [j];
      QueueAppend(q[1..], j);
    }
  }

  lemma QueueHead(j: Job, tail: seq<Job>)
    ensures QueueIds([j] + tail) == JobIds(j) + QueueIds(tail)
    ensures RefreshJobs([j] + tail) == (if j.RefreshJob? then 1 else 0) + RefreshJobs(tail)
  {
    assert ([j] + tail)[1..] == tail;
  }

  lemma FireAppend(fired: seq<Fired>, f: Fired)
    ensures FiredIds(fired + [f]) == FiredIds(fired) + multiset{f.id}
  {
    assert (fired + [f])[..|fired|] == fired;
  }

  lemma {:induction false} InHandAppend(s: seq<Pending>, p: Pending)
    ensures InHandIds(s + [p]) == InHandIds(s) + multiset{p.id}
  {
    if s == [] {
      assert [] + [p] == [p];
    } else {
      assert (s + [p])[1..] == s[1..] + [p];
      InHandAppend(s[1..], p);
    }
  }

  lemma {:induction false} InHandRemove(s: seq<Pending>, k: nat)
    requires k < |s|
    ensures InHandIds(s) == InHandIds(s[..k] + s[k + 1..]) + multiset{s[k].id}
  {
    if k == 0 {
      assert s[..0] + s[1..] == s[1..];
    } else {
      assert s[1..][..k - 1] + s[1..][k..] == (s[..k] + s[k + 1..])[1..];
      InHandRemove(s[1..], k - 1);
    }
  }

  lemma {:induction false} DecidedAppend(s: seq<Decision>, d: Decision)
    ensures DecidedIds(s + [d]) == DecidedIds(s) + multiset{d.told.id}
  {
    if s == [] {
      assert [] + [d] == [d];
    } else {
      assert (s + [d])[1..] == s[1..] + [d];
      DecidedAppend(s[1..], d);
    }
  }

  lemma {:induction false} DecidedRemove(s: seq<Decision>, k: nat)
    requires k < |s|
    ensures DecidedIds(s) == DecidedIds(s[..k] + s[k + 1..]) + multiset{s[k].told.id}
  {
    if k == 0 {
      assert s[..0] + s[1..] == s[1..];
    } else {
      assert s[1..][..k - 1] + s[1..][k..] == (s[..k] + s[k + 1..])[1..];
      DecidedRemove(s[1..], k - 1);
    }
  }

  lemma HeadOf(s: seq<Id>)
    requires s != []
    ensures multiset(s) == multiset{s[0]} + multiset(s[1..])
  {
    assert s == [s[0]] + s[1..];
  }

  // ---------- every step keeps the invariant ----------

  lemma FireKeeps(st: State, id: Id, outcome: Outcome)
    ensures Places(Fire(st, id, outcome)) == Places(st) + multiset{id}
  {
    FireAppend(st.fired, Fired(id, outcome));
  }

  lemma DecideKeeps(st: State, id: Id, outcome: Outcome, onQueue: bool)
    ensures Places(Decide(st, id, outcome, onQueue)) == Places(st) + multiset{id}
  {
    DecidedAppend(st.decided, Decision(Fired(id, outcome), onQueue));
  }

  lemma CallNowKeeps(st: State, k: nat)
    requires k < |st.decided| && Inv(st)
    ensures Inv(CallNow(st, k))
  {
    DecidedRemove(st.decided, k);
    FireAppend(st.fired, st.decided[k].told);
    Swap(FiredIds(st.fired), Waiting(st) + QueueIds(st.queue) + InHandIds(st.inHand),
         DecidedIds(st.decided[..k] + st.decided[k + 1..]), multiset{st.decided[k].told.id});
  }

  lemma Swap(a: multiset<Id>, b: multiset<Id>, c: multiset<Id>, x: multiset<Id>)
    ensures a + x + b + c == a + b + (c + x)
  {
  }

  lemma FailAllKeeps(st: State, error: AuthError)
    ensures Places(FailAll(st, error)) == Places(st) && Outstanding(FailAll(st, error)) == Outstanding(st)
  {
    QueueAppend(st.queue, FailureJob(st.adaptOperations, st.requestsToRetry, error));
  }

  lemma SucceedAllKeeps(st: State, c: Credential)
    ensures Places(SucceedAll(st, c)) == Places(st) && Outstanding(SucceedAll(st, c)) == Outstanding(st)
  {
    QueueAppend(st.queue, SuccessJob(st.adaptOperations, st.requestsToRetry));
  }

  /** A refresh is started with nothing outstanding; afterwards it is the one, or everything waiting has been failed. */
  lemma StartRefreshKeeps(w: Option<RefreshWindow>, st: State, c: Credential, t1: real, t2: real)
    requires Outstanding(st) == 0 && !st.isRefreshing
    ensures var st' := StartRefresh(w, st, c, t1, t2);
            && Places(st') == Places(st) && st'.submitted == st.submitted
            && Outstanding(st') == (if st'.isRefreshing then 1 else 0)
            && (!st'.isRefreshing ==> st'.adaptOperations == [] && st'.requestsToRetry == [])
  {
    if Excessive(w, st.refreshTimestamps, t1) { FailAllKeeps(st, ExcessiveRefresh); }
    else { QueueAppend(st.queue, RefreshJob(c)); }
  }

  /** `st` satisfies the invariant except that `id` is still to be placed. */
  ghost predicate InvBut(st: State, id: Id) {
    && (!st.isRefreshing ==> st.adaptOperations == [] && st.requestsToRetry == [])
    && Outstanding(st) == (if st.isRefreshing then 1 else 0)
    && Places(st) + multiset{id} == multiset(st.submitted)
  }

  lemma AdaptKeeps(w: Option<RefreshWindow>, st: State, id: Id, r: bool, t1: real, t2: real, onQueue: bool)
    requires InvBut(st, id)
    ensures Inv(AdaptSection(w, st, id, r, t1, t2, onQueue))
  {
    var st' := st.(adaptOperations := st.adaptOperations + [id]);
    assert Places(st') == Places(st) + multiset{id};
    if st.isRefreshing {
    } else if st.credential.None? {
      DecideKeeps(st, id, AdaptFailed(MissingCredential), onQueue);
    } else if r {
      StartRefreshKeeps(w, st', st.credential.value, t1, t2);
    } else {
      DecideKeeps(st, id, Adapted(st.credential.value), onQueue);
    }
  }

  lemma RetryKeeps(w: Option<RefreshWindow>, st: State, id: Id, c: Credential, t1: real, t2: real)
    requires InvBut(st, id)
    ensures Inv(RetrySection(w, st, id, c, t1, t2))
  {
    var st' := st.(requestsToRetry := st.requestsToRetry + [id]);
    assert Places(st') == Places(st) + multiset{id};
    if !st.isRefreshing { StartRefreshKeeps(w, st', c, t1, t2); }
  }

  lemma CheckRetryKeeps(st: State, id: Id, verdict: Verdict)
    requires InvBut(st, id)
    ensures Inv(CheckRetry(st, id, verdict))
  {
    if verdict.NoResponse? || verdict.NotAuthError? { DecideKeeps(st, id, DoNotRetry, false); }
    else if st.credential.None? { DecideKeeps(st, id, DoNotRetryWithError(MissingCredential), false); }
    else if verdict.OtherCredential? { DecideKeeps(st, id, Retry, false); }
    else { InHandAppend(st.inHand, Pending(id, st.credential.value)); }
  }

  /** Taking the first completion out of the head job. */
  lemma TakeFromHead(st: State, j: Job, id: Id)
    requires st.queue != [] && Inv(st) && !j.RefreshJob? && !st.queue[0].RefreshJob?
    requires JobIds(st.queue[0]) == JobIds(j) + multiset{id}
    ensures InvBut(st.(queue := [j] + st.queue[1..]), id)
  {
    QueueHead(j, st.queue[1..]);
  }

  lemma RunRefreshKeeps(st: State)
    requires Inv(st) && st.queue != [] && st.queue[0].RefreshJob?
    ensures Inv(st.(queue := st.queue[1..], calls := st.calls + 1))
  {
  }

  lemma RunDoneKeeps(st: State)
    requires Inv(st) && st.queue != [] && !st.queue[0].RefreshJob? && st.queue[0].adapts == [] == st.queue[0].retries
    ensures Inv(st.(queue := st.queue[1..]))
  {
  }

  lemma FireItemKeeps(st: State, j: Job, id: Id, outcome: Outcome)
    requires st.queue != [] && Inv(st) && !j.RefreshJob? && !st.queue[0].RefreshJob?
    requires JobIds(st.queue[0]) == JobIds(j) + multiset{id}
    ensures Inv(Fire(st.(queue := [j] + st.queue[1..]), id, outcome))
  {
    TakeFromHead(st, j, id);
    FireKeeps(st.(queue := [j] + st.queue[1..]), id, outcome);
  }

  lemma AdaptItemKeeps(w: Option<RefreshWindow>, st: State, j: Job, id: Id, r: bool, t1: real, t2: real)
    requires st.queue != [] && Inv(st) && !j.RefreshJob? && !st.queue[0].RefreshJob?
    requires JobIds(st.queue[0]) == JobIds(j) + multiset{id}
    ensures Inv(AdaptSection(w, st.(queue := [j] + st.queue[1..]), id, r, t1, t2, true))
  {
    TakeFromHead(st, j, id);
    AdaptKeeps(w, st.(queue := [j] + st.queue[1..]), id, r, t1, t2, true);
  }

  lemma PullFirst(s: seq<Id>, other: multiset<Id>)
    requires s != []
    ensures multiset(s) + other == multiset(s[1..]) + other + multiset{s[0]}
    ensures other + multiset(s) == other + multiset(s[1..]) + multiset{s[0]}
  {
    HeadOf(s);
  }

  lemma RunSuccessKeeps(w: Option<RefreshWindow>, st: State, r: bool, t1: real, t2: real)
    requires Inv(st) && st.queue != [] && st.queue[0].SuccessJob?
    ensures Inv(RunJob(w, st, r, t1, t2))
  {
    var adapts, retries := st.queue[0].adapts, st.queue[0].retries;
    if adapts != [] {
      PullFirst(adapts, multiset(retries));
      AdaptItemKeeps(w, st, SuccessJob(adapts[1..], retries), adapts[0], r, t1, t2);
    } else if retries != [] {
      PullFirst(retries, multiset(adapts));
      FireItemKeeps(st, SuccessJob([], retries[1..]), retries[0], Retry);
    } else {
      RunDoneKeeps(st);
    }
  }

  lemma RunFailureKeeps(w: Option<RefreshWindow>, st: State, r: bool, t1: real, t2: real)
    requires Inv(st) && st.queue != [] && st.queue[0].FailureJob?
    ensures Inv(RunJob(w, st, r, t1, t2))
  {
    var adapts, retries, error := st.queue[0].adapts, st.queue[0].retries, st.queue[0].error;
    if adapts != [] {
      PullFirst(adapts, multiset(retries));
      FireItemKeeps(st, FailureJob(adapts[1..], retries, error), adapts[0], AdaptFailed(error));
    } else if retries != [] {
      PullFirst(retries, multiset(adapts));
      FireItemKeeps(st, FailureJob([], retries[1..], error), retries[0], DoNotRetryWithError(error));
    } else {
      RunDoneKeeps(st);
    }
  }

  lemma RunJobKeeps(w: Option<RefreshWindow>, st: State, r: bool, t1: real, t2: real)
    requires Inv(st) && st.queue != []
    ensures Inv(RunJob(w, st, r, t1, t2))
  {
    match st.queue[0]
    case RefreshJob(_) => RunRefreshKeeps(st);
    case SuccessJob(_, _) => RunSuccessKeeps(w, st, r, t1, t2);
    case FailureJob(_, _, _) => RunFailureKeeps(w, st, r, t1, t2);
  }

  lemma SubmitKeeps(st: State, id: Id)
    requires Inv(st)
    ensures InvBut(Submit(st, id), id)
  {
  }

  lemma RetryLockedKeeps(w: Option<RefreshWindow>, st: State, k: nat, t1: real, t2: real)
    requires Inv(st) && k < |st.inHand|
    ensures var p := st.inHand[k];
            Inv(RetrySection(w, st.(inHand := st.inHand[..k] + st.inHand[k + 1..]), p.id, p.credential, t1, t2))
  {
    InHandRemove(st.inHand, k);
    RetryKeeps(w, st.(inHand := st.inHand[..k] + st.inHand[k + 1..]), st.inHand[k].id, st.inHand[k].credential, t1, t2);
  }

  lemma CallbackKeeps(st: State, c: Credential, error: AuthError)
    requires Inv(st) && st.calls > 0
    ensures Inv(SucceedAll(st.(calls := st.calls - 1), c)) && Inv(FailAll(st.(calls := st.calls - 1), error))
  {
    SucceedAllKeeps(st.(calls := st.calls - 1), c);
    FailAllKeeps(st.(calls := st.calls - 1), error);
  }

  lemma ClockKeeps(st: State, t: real)
    ensures Inv(At(st, t)) <==> Inv(st)
  {
  }

  lemma AdaptEventKeeps(w: Option<RefreshWindow>, st: State, id: Id, r: bool, t1: real, t2: real)
    requires Inv(st)
    ensures Inv(At(AdaptSection(w, Submit(st, id), id, r, t1, t2, false), t2))
  {
    SubmitKeeps(st, id);
    AdaptKeeps(w, Submit(st, id), id, r, t1, t2, false);
    ClockKeeps(AdaptSection(w, Submit(st, id), id, r, t1, t2, false), t2);
  }

  lemma RetryEventKeeps(w: Option<RefreshWindow>, st: State, k: nat, t1: real, t2: real)
    requires Inv(st) && k < |st.inHand| && st.clock <= t1 <= t2
    ensures Inv(Apply(w, st, RetryLocked(k, t1, t2)))
  {
    var p, st' := st.inHand[k], st.(inHand := st.inHand[..k] + st.inHand[k + 1..]);
    RetryLockedKeeps(w, st, k, t1, t2);
    ClockKeeps(RetrySection(w, st', p.id, p.credential, t1, t2), t2);
  }

  lemma CredentialKeeps(st: State, c: Option<Credential>)
    requires Inv(st)
    ensures Inv(st.(credential := c))
  {
  }

  lemma StepKeeps(w: Option<RefreshWindow>, st: State, e: Event)
    requires Inv(st) && Enabled(st, e)
    ensures Inv(Apply(w, st, e))
  {
    hide Inv, InvBut, AdaptSection, RetrySection, RunJob, CheckRetry;
    match e
    case Adapt(id, r, t1, t2) => AdaptEventKeeps(w, st, id, r, t1, t2);
    case RetryCheck(id, verdict) => SubmitKeeps(st, id); CheckRetryKeeps(Submit(st, id), id, verdict);
    case RetryLocked(k, t1, t2) => RetryEventKeeps(w, st, k, t1, t2);
    case CallDecided(k) => CallNowKeeps(st, k);
    case RunQueue(r, t1, t2) => RunJobKeeps(w, st, r, t1, t2); ClockKeeps(RunJob(w, st, r, t1, t2), t2);
    case RefreshSucceeded(c) => CallbackKeeps(st, c, MissingCredential);
    case RefreshFails(code) => CallbackKeeps(st, 0, RefreshFailed(code));
    case SetCredential(c) => CredentialKeeps(st, c);
  }

  /** The invariant holds in every reachable state. */
  lemma {:induction false} Safety(w: Option<RefreshWindow>, events: seq<Event>)
    requires Exec(w, INITIAL, events).Some?
    ensures Inv(Exec(w, INITIAL, events).value)
  {
    if events != [] {
      var before := events[..|events| - 1];
      Safety(w, before);
      StepKeeps(w, Exec(w, INITIAL, before).value, events[|events| - 1]);
    }
  }

  /** No completion is lost or duplicated: one submitted once is in exactly one place, and so called at most once. */
  lemma ExactlyOnePlace(w: Option<RefreshWindow>, events: seq<Event>, id: Id)
    requires Exec(w, INITIAL, events).Some? && multiset(Exec(w, INITIAL, events).value.submitted)[id] == 1
    ensures var st := Exec(w, INITIAL, events).value;
            FiredIds(st.fired)[id] + Waiting(st)[id] + QueueIds(st.queue)[id] + InHandIds(st.inHand)[id]
            + DecidedIds(st.decided)[id] == 1
  {
    Safety(w, events);
    var st := Exec(w, INITIAL, events).value;
    assert Places(st)[id] == 1;
  }

  /** Nobody is stranded: with nothing queued, in hand, decided or out for a refresh, every completion was called. */
  lemma NothingStranded(w: Option<RefreshWindow>, events: seq<Event>)
    requires Exec(w, INITIAL, events).Some?
    ensures var st := Exec(w, INITIAL, events).value;
            st.queue == [] && st.calls == 0 && st.inHand == [] && st.decided == []
            ==> FiredIds(st.fired) == multiset(st.submitted)
  {
    Safety(w, events);
  }

  // ---------- the refresh rate ----------

  /** Refreshes started in the closed interval of length `interval` that begins at `from`. */
  function CountWindow(ts: seq<real>, from: real, interval: real): nat {
    if ts == [] then 0
    else CountWindow(ts[..|ts| - 1], from, interval) + (if from <= ts[|ts| - 1] <= from + interval then 1 else 0)
  }

  lemma {:induction false} WindowBound(ts: seq<real>, from: real, interval: real, min: real)
    requires min <= from
    ensures CountWindow(ts, from, interval) <= CountFrom(ts, min)
  {
    if ts != [] { WindowBound(ts[..|ts| - 1], from, interval, min); }
  }

  function Allowed(w: RefreshWindow): int {
    if w.maximumAttempts > 0 then w.maximumAttempts else 0
  }

  ghost predicate RateOk(w: Option<RefreshWindow>, st: State) {
    w.Some? ==> forall from: real :: CountWindow(st.refreshTimestamps, from, w.value.interval) <= Allowed(w.value)
  }

  /** The timestamp is recorded after the check, so it only moves later windows. */
  lemma StartRefreshRate(w: Option<RefreshWindow>, st: State, c: Credential, t1: real, t2: real)
    requires RateOk(w, st) && t1 <= t2
    ensures RateOk(w, StartRefresh(w, st, c, t1, t2))
    ensures var st' := StartRefresh(w, st, c, t1, t2);
            if Excessive(w, st.refreshTimestamps, t1) then st'.refreshTimestamps == st.refreshTimestamps
            else st'.refreshTimestamps == st.refreshTimestamps + [t2] && st'.queue == st.queue + [RefreshJob(c)]
  {
    if w.Some? && !Excessive(w, st.refreshTimestamps, t1) {
      var ts, d := st.refreshTimestamps, w.value.interval;
      assert (ts + [t2])[..|ts|] == ts;
      forall from: real ensures CountWindow(ts + [t2], from, d) <= Allowed(w.value) {
        if from <= t2 <= from + d {
          WindowBound(ts, from, d, t1 - d);
        } else {
          assert CountWindow(ts + [t2], from, d) == CountWindow(ts, from, d);
        }
      }
    }
  }

  lemma AdaptRate(w: Option<RefreshWindow>, st: State, id: Id, r: bool, t1: real, t2: real, onQueue: bool)
    requires RateOk(w, st) && t1 <= t2
    ensures RateOk(w, AdaptSection(w, st, id, r, t1, t2, onQueue))
  {
    if st.credential.Some? {
      StartRefreshRate(w, st.(adaptOperations := st.adaptOperations + [id]), st.credential.value, t1, t2);
    }
  }

  lemma RunJobRate(w: Option<RefreshWindow>, st: State, r: bool, t1: real, t2: real)
    requires RateOk(w, st) && st.queue != [] && t1 <= t2
    ensures RateOk(w, RunJob(w, st, r, t1, t2))
  {
    var job := st.queue[0];
    if job.SuccessJob? && job.adapts != [] {
      var st' := st.(queue := [SuccessJob(job.adapts[1..], job.retries)] + st.queue[1..]);
      AdaptRate(w, st', job.adapts[0], r, t1, t2, true);
    }
  }

  lemma StepRate(w: Option<RefreshWindow>, st: State, e: Event)
    requires RateOk(w, st) && Enabled(st, e)
    ensures RateOk(w, Apply(w, st, e))
  {
    match e
    case Adapt(id, r, t1, t2) => AdaptRate(w, Submit(st, id), id, r, t1, t2, false);
    case RetryLocked(k, t1, t2) =>
      var st' := st.(inHand := st.inHand[..k] + st.inHand[k + 1..]);
      var st'' := st'.(requestsToRetry := st'.requestsToRetry + [st.inHand[k].id]);
      StartRefreshRate(w, st'', st.inHand[k].credential, t1, t2);
    case RunQueue(r, t1, t2) => RunJobRate(w, st, r, t1, t2);
    case _ =>
  }

  lemma {:induction false} RateHolds(w: Option<RefreshWindow>, events: seq<Event>)
    requires Exec(w, INITIAL, events).Some?
    ensures RateOk(w, Exec(w, INITIAL, events).value)
  {
    if events == [] {
      if w.Some? {
        forall from: real ensures CountWindow([], from, w.value.interval) <= Allowed(w.value) { }
      }
    } else {
      var before := events[..|events| - 1];
      RateHolds(w, before);
      StepRate(w, Exec(w, INITIAL, before).value, events[|events| - 1]);
    }
  }

  // ---------- the object ----------

  /**
   The interceptor itself. Its fields are what the lock protects and the dispatch queue; what happens outside it (calls
   to the authenticator, decisions on their way, completions called, the clock) is recorded in ghost fields. Every entry
   method takes the step of its event; what it does under the lock is a method of its own.
   */
  class Interceptor {
    const refreshWindow: Option<RefreshWindow>
    var credential: Option<Credential>
    var isRefreshing: bool
    var refreshTimestamps: seq<real>
    var adaptOperations: seq<Id>
    var requestsToRetry: seq<Id>
    var queue: seq<Job>
    ghost var calls: nat
    ghost var inHand: seq<Pending>
    ghost var decided: seq<Decision>
    ghost var fired: seq<Fired>
    ghost var submitted: seq<Id>
    ghost var clock: real

    ghost function S(): State
      reads this
    {
      State(credential, isRefreshing, refreshTimestamps, adaptOperations, requestsToRetry, queue, calls, inHand,
            decided, fired, submitted, clock)
    }

    ghost predicate Valid()
      reads this
    {
      Inv(S()) && RateOk(refreshWindow, S())
    }

    constructor (credential: Option<Credential>, refreshWindow: Option<RefreshWindow>)
      ensures Valid() && this.refreshWindow == refreshWindow
      ensures S() == Apply(refreshWindow, INITIAL, SetCredential(credential))
    {
      this.refreshWindow := refreshWindow;
      this.credential := credential;
      isRefreshing, refreshTimestamps, adaptOperations, requestsToRetry, queue := false, [], [], [], [];
      calls, inHand, decided, fired, submitted, clock := 0, [], [], [], [], 0.0;
      new;
      NoRefreshYet(refreshWindow, S());
    }

    // ---------- sections ----------

    method IsRefreshExcessive(now: real) returns (excessive: bool)
      ensures excessive <==> Excessive(refreshWindow, refreshTimestamps, now)
    {
      if refreshWindow.None? { return false; }
      var refreshWindowMin := now - refreshWindow.value.interval;
      var attempts, i := 0, 0;
      while i < |refreshTimestamps|
        invariant i <= |refreshTimestamps| && attempts == CountFrom(refreshTimestamps[..i], refreshWindowMin)
      {
        assert refreshTimestamps[..i + 1][..i] == refreshTimestamps[..i];
        if refreshWindowMin <= refreshTimestamps[i] { attempts := attempts + 1; }
        i := i + 1;
      }
      assert refreshTimestamps[..i] == refreshTimestamps;
      excessive := attempts >= refreshWindow.value.maximumAttempts;
    }

    method HandleRefreshSuccess(credential: Credential)
      modifies this
      ensures S() == SucceedAll(old(S()), credential)
    {
      this.credential := Some(credential);
      var adapts, retries := adaptOperations, requestsToRetry;
      adaptOperations, requestsToRetry := [], [];
      isRefreshing := false;
      queue := queue + [SuccessJob(adapts, retries)];
    }

    method HandleRefreshFailure(error: AuthError)
      modifies this
      ensures S() == FailAll(old(S()), error)
    {
      var adapts, retries := adaptOperations, requestsToRetry;
      adaptOperations, requestsToRetry := [], [];
      isRefreshing := false;
      queue := queue + [FailureJob(adapts, retries, error)];
    }

    method Refresh(credential: Credential, t1: real, t2: real)
      modifies this
      ensures S() == StartRefresh(refreshWindow, old(S()), credential, t1, t2)
      ensures isRefreshing <==> !Excessive(refreshWindow, old(refreshTimestamps), t1)
      ensures refreshTimestamps == old(refreshTimestamps) + (if isRefreshing then [t2] else [])
    {
      var excessive := IsRefreshExcessive(t1);
      if excessive {
        HandleRefreshFailure(ExcessiveRefresh);
        return;
      }
      refreshTimestamps := refreshTimestamps + [t2];
      isRefreshing := true;
      queue := queue + [RefreshJob(credential)];
    }

    ghost method Told(id: Id, outcome: Outcome)
      modifies this`fired
      ensures S() == Fire(old(S()), id, outcome)
    {
      fired := fired + [Fired(id, outcome)];
    }

    ghost method ToTell(id: Id, outcome: Outcome, onQueue: bool)
      modifies this`decided
      ensures S() == Decide(old(S()), id, outcome, onQueue)
    {
      decided := decided + [Decision(Fired(id, outcome), onQueue)];
    }

    /** The locked section of adapt. */
    method AdaptLockedSection(id: Id, requiresRefresh: bool, t1: real, t2: real, ghost onQueue: bool)
      modifies this
      ensures S() == AdaptSection(refreshWindow, old(S()), id, requiresRefresh, t1, t2, onQueue)
    {
      if isRefreshing {
        adaptOperations := adaptOperations + [id];
      } else if credential.None? {
        ToTell(id, AdaptFailed(MissingCredential), onQueue);
      } else if requiresRefresh {
        adaptOperations := adaptOperations + [id];
        Refresh(credential.value, t1, t2);
      } else {
        ToTell(id, Adapted(credential.value), onQueue);
      }
    }

    /** The guards of retry, with the request's and the authenticator's answers. */
    method RetryGuards(id: Id, hasResponse: bool, isAuthError: bool, sameCredential: bool)
      modifies this
      ensures S() == CheckRetry(old(S()), id, VerdictOf(hasResponse, isAuthError, sameCredential))
      ensures inHand == old(inHand) + (if hasResponse && isAuthError && credential.Some? && sameCredential
                                       then [Pending(id, credential.value)] else [])
      ensures !hasResponse || !isAuthError ==> decided == old(decided) + [Decision(Fired(id, DoNotRetry), false)]
      ensures hasResponse && isAuthError && credential.None? ==>
        decided == old(decided) + [Decision(Fired(id, DoNotRetryWithError(MissingCredential)), false)]
      ensures hasResponse && isAuthError && credential.Some? && !sameCredential ==>
        decided == old(decided) + [Decision(Fired(id, Retry), false)]
    {
      if !hasResponse {
        ToTell(id, DoNotRetry, false);
      } else if !isAuthError {
        ToTell(id, DoNotRetry, false);
      } else if credential.None? {
        ToTell(id, DoNotRetryWithError(MissingCredential), false);
      } else if !sameCredential {
        ToTell(id, Retry, false);
      } else {
        inHand := inHand + [Pending(id, credential.value)];
      }
    }

    /** The locked section of retry. */
    method RetryLockedSection(id: Id, credential: Credential, t1: real, t2: real)
      modifies this
      ensures S() == RetrySection(refreshWindow, old(S()), id, credential, t1, t2)
    {
      requestsToRetry := requestsToRetry + [id];
      if !isRefreshing { Refresh(credential, t1, t2); }
    }

    /** The next item of the job at the head of the dispatch queue. */
    method RunQueueItem(requiresRefresh: bool, t1: real, t2: real)
      requires queue != []
      modifies this
      ensures S() == RunJob(refreshWindow, old(S()), requiresRefresh, t1, t2)
    {
      var tail := queue[1..];
      match queue[0]
      case RefreshJob(_) =>
        queue := tail;
        calls := calls + 1;
      case SuccessJob(adapts, retries) =>
        if adapts != [] {
          queue := [SuccessJob(adapts[1..], retries)] + tail;
          AdaptLockedSection(adapts[0], requiresRefresh, t1, t2, true);
        } else if retries != [] {
          queue := [SuccessJob([], retries[1..])] + tail;
          Told(retries[0], Retry);
        } else {
          queue := tail;
        }
      case FailureJob(adapts, retries, error) =>
        if adapts != [] {
          queue := [FailureJob(adapts[1..], retries, error)] + tail;
          Told(adapts[0], AdaptFailed(error));
        } else if retries != [] {
          queue := [FailureJob([], retries[1..], error)] + tail;
          Told(retries[0], DoNotRetryWithError(error));
        } else {
          queue := tail;
        }
    }

    // ---------- entries: the events ----------

    /** The setter of `credential` */
    method SetCredentialTo(newCredential: Option<Credential>)
      requires Valid()
      modifies this
      ensures Valid() && S() == Apply(refreshWindow, old(S()), SetCredential(newCredential))
    {
      hide Inv, RateOk;
      EventKeeps(refreshWindow, S(), SetCredential(newCredential));
      credential := newCredential;
    }

    /** adapt, up to the call of its completion */
    method AdaptRequest(id: Id, requiresRefresh: bool, t1: real, t2: real)
      requires Valid() && Enabled(S(), Adapt(id, requiresRefresh, t1, t2))
      modifies this
      ensures Valid() && S() == Apply(refreshWindow, old(S()), Adapt(id, requiresRefresh, t1, t2))
    {
      hide Inv, RateOk;
      EventKeeps(refreshWindow, S(), Adapt(id, requiresRefresh, t1, t2));
      submitted := submitted + [id];
      AdaptLockedSection(id, requiresRefresh, t1, t2, false);
      clock := t2;
    }

    /** retry up to its lock, or to the call of its completion */
    method RetryUnlocked(id: Id, hasResponse: bool, isAuthError: bool, sameCredential: bool)
      requires Valid()
      modifies this
      ensures Valid()
      ensures var verdict := VerdictOf(hasResponse, isAuthError, sameCredential);
              S() == Apply(refreshWindow, old(S()), RetryCheck(id, verdict))
    {
      hide Inv, RateOk;
      EventKeeps(refreshWindow, S(), RetryCheck(id, VerdictOf(hasResponse, isAuthError, sameCredential)));
      submitted := submitted + [id];
      RetryGuards(id, hasResponse, isAuthError, sameCredential);
    }

    /** retry from its lock on, with the credential its guards have read */
    method RetryWithLock(id: Id, credential: Credential, t1: real, t2: real, ghost k: nat)
      requires Valid() && Enabled(S(), RetryLocked(k, t1, t2)) && inHand[k] == Pending(id, credential)
      modifies this
      ensures Valid() && S() == Apply(refreshWindow, old(S()), RetryLocked(k, t1, t2))
    {
      hide Inv, RateOk;
      EventKeeps(refreshWindow, S(), RetryLocked(k, t1, t2));
      inHand := inHand[..k] + inHand[k + 1..];
      RetryLockedSection(id, credential, t1, t2);
      clock := t2;
    }

    /** The completion of a decision is called, after the lock was released. */
    ghost method CallCompletion(k: nat)
      requires Valid() && Enabled(S(), CallDecided(k))
      modifies this
      ensures Valid() && S() == Apply(refreshWindow, old(S()), CallDecided(k))
    {
      hide Inv, RateOk;
      EventKeeps(refreshWindow, S(), CallDecided(k));
      decided, fired := decided[..k] + decided[k + 1..], fired + [decided[k].told];
    }

    /** The dispatch queue goes on. */
    method RunQueueOnce(requiresRefresh: bool, t1: real, t2: real)
      requires Valid() && Enabled(S(), RunQueue(requiresRefresh, t1, t2))
      modifies this
      ensures Valid() && S() == Apply(refreshWindow, old(S()), RunQueue(requiresRefresh, t1, t2))
    {
      hide Inv, RateOk;
      EventKeeps(refreshWindow, S(), RunQueue(requiresRefresh, t1, t2));
      RunQueueItem(requiresRefresh, t1, t2);
      clock := t2;
    }

    /** The authenticator calls back with a credential. */
    method RefreshDidSucceed(credential: Credential)
      requires Valid() && Enabled(S(), RefreshSucceeded(credential))
      modifies this
      ensures Valid() && S() == Apply(refreshWindow, old(S()), RefreshSucceeded(credential))
    {
      hide Inv, RateOk;
      EventKeeps(refreshWindow, S(), RefreshSucceeded(credential));
      calls := calls - 1;
      HandleRefreshSuccess(credential);
    }

    /** The authenticator calls back with an error. */
    method RefreshDidFail(code: nat)
      requires Valid() && Enabled(S(), RefreshFails(code))
      modifies this
      ensures Valid() && S() == Apply(refreshWindow, old(S()), RefreshFails(code))
    {
      hide Inv, RateOk;
      EventKeeps(refreshWindow, S(), RefreshFails(code));
      calls := calls - 1;
      HandleRefreshFailure(RefreshFailed(code));
    }
  }

  lemma EventKeeps(w: Option<RefreshWindow>, st: State, e: Event)
    requires Inv(st) && RateOk(w, st) && Enabled(st, e)
    ensures Inv(Apply(w, st, e)) && RateOk(w, Apply(w, st, e))
  {
    StepKeeps(w, st, e);
    StepRate(w, st, e);
  }

  lemma NoRefreshYet(w: Option<RefreshWindow>, st: State)
    requires st.refreshTimestamps == []
    ensures RateOk(w, st)
  {
  }
}
