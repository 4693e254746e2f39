/**
 What the interceptor tells the completions it was given, step by step and over whole runs: which step decides what a
 completion is told, which callback or refused refresh is behind it, and whether a credential that was decided on, or
 that a refresh starts with, is still the one in force.
 */
module AuthenticationOutcomes {
  import opened Wire
  import opened AuthenticationInterceptor

  // ---------- what a step decides ----------

  function ToldBy(decided: seq<Decision>): multiset<Fired> {
    if decided == [] then multiset{} else multiset{decided[0].told} + ToldBy(decided[1..])
  }

  /** What completions have been told or are going to be told. */
  function Told(st: State): multiset<Fired> {
    multiset(st.fired) + ToldBy(st.decided)
  }

  /** The request whose locked section of adapt runs in this step. */
  function Adapting(st: State, e: Event): Option<Id> {
    match e
    case Adapt(id, _, _, _) => Some(id)
    case RunQueue(_, _, _) =>
      if st.queue != [] && st.queue[0].SuccessJob? && st.queue[0].adapts != [] then Some(st.queue[0].adapts[0])
      else None
    case _ => None
  }

  /** The queue goes on with this request of a job of failures, to be adapted (or to be retried). */
  predicate Failing(st: State, e: Event, id: Id, error: AuthError, adapting: bool) {
    && e.RunQueue? && st.queue != [] && st.queue[0].FailureJob? && st.queue[0].error == error
    && (if adapting then st.queue[0].adapts != [] && st.queue[0].adapts[0] == id
        else st.queue[0].adapts == [] && st.queue[0].retries != [] && st.queue[0].retries[0] == id)
  }

  /** The queue goes on with this request to be retried after a refresh that succeeded. */
  predicate Retrying(st: State, e: Event, id: Id) {
    && e.RunQueue? && st.queue != [] && st.queue[0].SuccessJob?
    && st.queue[0].adapts == [] && st.queue[0].retries != [] && st.queue[0].retries[0] == id
  }

  /** What the request is told fits the state and the step, which is one of that very request. */
  predicate Justified(st: State, e: Event, f: Fired) {
    match f.outcome
    case Adapted(c) =>
      Adapting(st, e) == Some(f.id) && !st.isRefreshing && st.credential == Some(c) && !e.requiresRefresh
    case AdaptFailed(error) =>
      || (error.MissingCredential? && Adapting(st, e) == Some(f.id) && !st.isRefreshing && st.credential.None?)
      || Failing(st, e, f.id, error, true)
    case Retry => Retrying(st, e, f.id) || (e == RetryCheck(f.id, OtherCredential) && st.credential.Some?)
    case DoNotRetry => e == RetryCheck(f.id, NoResponse) || e == RetryCheck(f.id, NotAuthError)
    case DoNotRetryWithError(error) =>
      || (error.MissingCredential? && st.credential.None?
          && (e == RetryCheck(f.id, OtherCredential) || e == RetryCheck(f.id, SameCredential)))
      || Failing(st, e, f.id, error, false)
  }

  lemma {:induction false} ToldByAppend(s: seq<Decision>, d: Decision)
    ensures ToldBy(s + [d]) == ToldBy(s) + multiset{d.told}
  {
    if s == [] {
      assert [] + [d] == [d];
    } else {
      assert (s + [d])[1..] == s[1..] + [d];
      ToldByAppend(s[1..], d);
    }
  }

  lemma {:induction false} ToldByRemove(s: seq<Decision>, k: nat)
    requires k < |s|
    ensures ToldBy(s) == ToldBy(s[..k] + s[k + 1..]) + multiset{s[k].told}
  {
    if k == 0 {
      assert s[..0] + s[1..] == s[1..];
    } else {
      assert s[1..][..k - 1] + s[1..][k..] == (s[..k] + s[k + 1..])[1..];
      ToldByRemove(s[1..], k - 1);
    }
  }

  lemma ToldDecide(st: State, id: Id, outcome: Outcome, onQueue: bool)
    ensures Told(Decide(st, id, outcome, onQueue)) == Told(st) + multiset{Fired(id, outcome)}
  {
    ToldByAppend(st.decided, Decision(Fired(id, outcome), onQueue));
  }

  lemma ToldFire(st: State, id: Id, outcome: Outcome)
    ensures Told(Fire(st, id, outcome)) == Told(st) + multiset{Fired(id, outcome)}
  {
    assert multiset(st.fired + [Fired(id, outcome)]) == multiset(st.fired) + multiset{Fired(id, outcome)};
  }

  lemma ToldCall(st: State, k: nat)
    requires k < |st.decided|
    ensures Told(CallNow(st, k)) == Told(st)
  {
    var told := st.decided[k].told;
    ToldByRemove(st.decided, k);
    assert multiset(st.fired + [told]) == multiset(st.fired) + multiset{told};
  }

  predicate SilentStep(st: State, st': State) {
    st'.fired == st.fired && st'.decided == st.decided
  }

  lemma ToldSilent(st: State, st': State)
    requires SilentStep(st, st')
    ensures Told(st') == Told(st)
  {
  }

  function Only(f: Option<Fired>): multiset<Fired> {
    if f.Some? then multiset{f.value} else multiset{}
  }

  /** What the locked section of adapt decides for `id`. */
  function AdaptDue(st: State, id: Id, requiresRefresh: bool): Option<Fired> {
    if st.isRefreshing then None
    else if st.credential.None? then Some(Fired(id, AdaptFailed(MissingCredential)))
    else if requiresRefresh then None
    else Some(Fired(id, Adapted(st.credential.value)))
  }

  /** What the guards of retry decide for `id`. */
  function CheckDue(st: State, id: Id, verdict: Verdict): Option<Fired> {
    if verdict.NoResponse? || verdict.NotAuthError? then Some(Fired(id, DoNotRetry))
    else if st.credential.None? then Some(Fired(id, DoNotRetryWithError(MissingCredential)))
    else if verdict.OtherCredential? then Some(Fired(id, Retry))
    else None
  }

  /** What the next item of the queue decides. */
  function QueueDue(st: State, requiresRefresh: bool): Option<Fired>
    requires st.queue != []
  {
    match st.queue[0]
    case RefreshJob(_) => None
    case SuccessJob(adapts, retries) =>
      if adapts != [] then AdaptDue(st, adapts[0], requiresRefresh)
      else if retries != [] then Some(Fired(retries[0], Retry))
      else None
    case FailureJob(adapts, retries, error) =>
      if adapts != [] then Some(Fired(adapts[0], AdaptFailed(error)))
      else if retries != [] then Some(Fired(retries[0], DoNotRetryWithError(error)))
      else None
  }

  /** What a step decides. */
  function Due(st: State, e: Event): Option<Fired>
    requires Enabled(st, e)
  {
    match e
    case Adapt(id, r, _, _) => AdaptDue(st, id, r)
    case RetryCheck(id, verdict) => CheckDue(st, id, verdict)
    case RunQueue(r, _, _) => QueueDue(st, r)
    case _ => None
  }

  lemma AdaptTells(w: Option<RefreshWindow>, st: State, id: Id, r: bool, t1: real, t2: real, onQueue: bool)
    ensures Told(AdaptSection(w, st, id, r, t1, t2, onQueue)) == Told(st) + Only(AdaptDue(st, id, r))
  {
    if st.isRefreshing || (st.credential.Some? && r) {
      assert SilentStep(st, AdaptSection(w, st, id, r, t1, t2, onQueue));
    } else {
      ToldDecide(st, id, AdaptDue(st, id, r).value.outcome, onQueue);
    }
  }

  lemma CheckTells(st: State, id: Id, verdict: Verdict)
    ensures Told(CheckRetry(st, id, verdict)) == Told(st) + Only(CheckDue(st, id, verdict))
  {
    var due := CheckDue(st, id, verdict);
    if due.Some? { ToldDecide(st, id, due.value.outcome, false); }
    else { assert SilentStep(st, CheckRetry(st, id, verdict)); }
  }

  lemma QueueTells(w: Option<RefreshWindow>, st: State, r: bool, t1: real, t2: real)
    requires st.queue != []
    ensures Told(RunJob(w, st, r, t1, t2)) == Told(st) + Only(QueueDue(st, r))
  {
    hide Told, AdaptSection;
    var job, tail, due := st.queue[0], st.queue[1..], QueueDue(st, r);
    if job.SuccessJob? && job.adapts != [] {
      var st' := st.(queue := [SuccessJob(job.adapts[1..], job.retries)] + tail);
      AdaptTells(w, st', job.adapts[0], r, t1, t2, true);
      ToldSilent(st, st');
    } else if due.None? {
      NothingTold(Told(st));
      ToldSilent(st, RunJob(w, st, r, t1, t2));
    } else {
      ItemTells(w, st, r, t1, t2, due.value);
    }
  }

  lemma ItemTells(w: Option<RefreshWindow>, st: State, r: bool, t1: real, t2: real, due: Fired)
    requires st.queue != [] && QueueDue(st, r) == Some(due)
    requires st.queue[0].SuccessJob? ==> st.queue[0].adapts == []
    ensures Told(RunJob(w, st, r, t1, t2)) == Told(st) + multiset{due}
  {
    hide Told;
    var job := st.queue[0];
    var left := if job.SuccessJob? then SuccessJob([], job.retries[1..])
                else if job.adapts != [] then FailureJob(job.adapts[1..], job.retries, job.error)
                else FailureJob([], job.retries[1..], job.error);
    var st' := st.(queue := [left] + st.queue[1..]);
    ToldFire(st', due.id, due.outcome);
    ToldSilent(st, st');
  }

  lemma AdaptStepTells(w: Option<RefreshWindow>, st: State, id: Id, r: bool, t1: real, t2: real)
    ensures Told(At(AdaptSection(w, Submit(st, id), id, r, t1, t2, false), t2)) == Told(st) + Only(AdaptDue(st, id, r))
  {
    hide Told, AdaptSection;
    AdaptTells(w, Submit(st, id), id, r, t1, t2, false);
    ToldSilent(st, Submit(st, id));
    ToldSilent(AdaptSection(w, Submit(st, id), id, r, t1, t2, false),
               At(AdaptSection(w, Submit(st, id), id, r, t1, t2, false), t2));
  }

  lemma CheckStepTells(st: State, id: Id, verdict: Verdict)
    ensures Told(CheckRetry(Submit(st, id), id, verdict)) == Told(st) + Only(CheckDue(st, id, verdict))
  {
    hide Told, CheckRetry;
    CheckTells(Submit(st, id), id, verdict);
    ToldSilent(st, Submit(st, id));
  }

  lemma QueueStepTells(w: Option<RefreshWindow>, st: State, r: bool, t1: real, t2: real)
    requires st.queue != []
    ensures Told(At(RunJob(w, st, r, t1, t2), t2)) == Told(st) + Only(QueueDue(st, r))
  {
    hide Told, RunJob;
    QueueTells(w, st, r, t1, t2);
    ToldSilent(RunJob(w, st, r, t1, t2), At(RunJob(w, st, r, t1, t2), t2));
  }

  lemma StepTells(w: Option<RefreshWindow>, st: State, e: Event)
    requires Enabled(st, e)
    ensures Told(Apply(w, st, e)) == Told(st) + Only(Due(st, e))
  {
    hide Told, AdaptSection, RunJob, QueueDue, CheckRetry, Only;
    NothingTold(Told(st));
    match e
    case Adapt(id, r, t1, t2) => AdaptStepTells(w, st, id, r, t1, t2);
    case RetryCheck(id, verdict) => CheckStepTells(st, id, verdict);
    case CallDecided(k) => ToldCall(st, k);
    case RunQueue(r, t1, t2) => QueueStepTells(w, st, r, t1, t2);
    case _ => ToldSilent(st, Apply(w, st, e));
  }

  lemma NothingTold(told: multiset<Fired>)
    ensures told + Only(None) == told
  {
  }

  lemma DueIff(st: State, e: Event, f: Fired)
    requires Enabled(st, e)
    ensures Justified(st, e, f) <==> Due(st, e) == Some(f)
  {
  }

  /** A step decides that a request is told something exactly when that is justified in the step. */
  lemma OutcomeJustified(w: Option<RefreshWindow>, st: State, e: Event, f: Fired)
    requires Enabled(st, e)
    ensures Told(Apply(w, st, e)) == Told(st) + multiset{f} <==> Justified(st, e, f)
    ensures Told(Apply(w, st, e)) == Told(st) <==> forall g :: !Justified(st, e, g)
  {
    hide Justified, Apply, Told, Due;
    StepTells(w, st, e);
    forall g ensures Justified(st, e, g) <==> Due(st, e) == Some(g) { DueIff(st, e, g); }
    OnlyOne(Told(st), Due(st, e), f);
    if Due(st, e).Some? { assert Justified(st, e, Due(st, e).value); }
  }

  lemma OnlyOne(told: multiset<Fired>, only: Option<Fired>, f: Fired)
    ensures told + Only(only) == told + multiset{f} <==> only == Some(f)
    ensures told + Only(only) == told <==> only.None?
  {
    if only == Some(f) {
    } else if only.Some? {
      assert (told + Only(only))[only.value] == told[only.value] + 1;
    } else {
      assert (told + multiset{f})[f] == told[f] + 1;
    }
  }

  // ---------- where queued jobs come from ----------

  /** The step asks for a refresh: the request of this section waits for it, together with those that wait already. */
  predicate AsksRefresh(st: State, e: Event, credential: Credential, adapts: seq<Id>, retries: seq<Id>) {
    && !st.isRefreshing
    && match e
       case RetryLocked(k, _, _) =>
         && k < |st.inHand| && credential == st.inHand[k].credential
         && adapts == st.adaptOperations && retries == st.requestsToRetry + [st.inHand[k].id]
       case _ =>
         && Adapting(st, e).Some? && e.requiresRefresh && st.credential == Some(credential)
         && adapts == st.adaptOperations + [Adapting(st, e).value] && retries == st.requestsToRetry
  }

  /** The step that put a job in the queue, from the state `st`. */
  ghost predicate Origin(w: Option<RefreshWindow>, st: State, e: Event, job: Job) {
    match job
    case SuccessJob(adapts, retries) =>
      e.RefreshSucceeded? && adapts == st.adaptOperations && retries == st.requestsToRetry
    case FailureJob(adapts, retries, error) =>
      (match error
       case RefreshFailed(code) =>
         e == RefreshFails(code) && adapts == st.adaptOperations && retries == st.requestsToRetry
       case ExcessiveRefresh =>
         exists c :: AsksRefresh(st, e, c, adapts, retries) && Excessive(w, st.refreshTimestamps, e.t1)
       case MissingCredential => false)
    case RefreshJob(c) =>
      exists adapts, retries :: AsksRefresh(st, e, c, adapts, retries) && !Excessive(w, st.refreshTimestamps, e.t1)
  }

  predicate Suffix(s: seq<Id>, t: seq<Id>) {
    |s| <= |t| && s == t[|t| - |s|..]
  }

  /** What is left of a job after some of its items. */
  predicate Remnant(left: Job, job: Job) {
    match job
    case RefreshJob(_) => left == job
    case SuccessJob(adapts, retries) =>
      left.SuccessJob? && Suffix(left.adapts, adapts) && Suffix(left.retries, retries)
    case FailureJob(adapts, retries, error) =>
      left.FailureJob? && left.error == error && Suffix(left.adapts, adapts) && Suffix(left.retries, retries)
  }

  lemma RemnantOfRemnant(a: Job, b: Job, c: Job)
    requires Remnant(a, b) && Remnant(b, c)
    ensures Remnant(a, c)
  {
    if !c.RefreshJob? {
      assert b.adapts[|b.adapts| - |a.adapts|..] == c.adapts[|c.adapts| - |a.adapts|..];
      assert b.retries[|b.retries| - |a.retries|..] == c.retries[|c.retries| - |a.retries|..];
    }
  }

  /** The step leaves the queue `q` as it is, or appends a job it is the origin of. */
  ghost predicate Grows(w: Option<RefreshWindow>, st: State, e: Event, q: seq<Job>, q': seq<Job>) {
    q' == q || (q' != [] && q'[..|q'| - 1] == q && Origin(w, st, e, q'[|q'| - 1]))
  }

  /** What the locked sections read is the same in `st'` as in `st`. */
  predicate SameLocked(st: State, st': State) {
    && st'.credential == st.credential && st'.isRefreshing == st.isRefreshing
    && st'.refreshTimestamps == st.refreshTimestamps
    && st'.adaptOperations == st.adaptOperations && st'.requestsToRetry == st.requestsToRetry
  }

  lemma RefreshGrows(w: Option<RefreshWindow>, st: State, e: Event, st': State, c: Credential, t1: real, t2: real)
    requires AsksRefresh(st, e, c, st'.adaptOperations, st'.requestsToRetry)
    requires e.t1 == t1 && st'.refreshTimestamps == st.refreshTimestamps
    ensures Grows(w, st, e, st'.queue, StartRefresh(w, st', c, t1, t2).queue)
  {
  }

  lemma AdaptGrows(w: Option<RefreshWindow>, st: State, e: Event, st': State, t2: real, onQueue: bool)
    requires Adapting(st, e).Some? && SameLocked(st, st')
    ensures Grows(w, st, e, st'.queue,
                  AdaptSection(w, st', Adapting(st, e).value, e.requiresRefresh, e.t1, t2, onQueue).queue)
  {
    hide StartRefresh, Grows;
    SameGrows(w, st, e, st'.queue);
    if !st.isRefreshing && st.credential.Some? && e.requiresRefresh {
      var st'' := st'.(adaptOperations := st'.adaptOperations + [Adapting(st, e).value]);
      RefreshGrows(w, st, e, st'', st.credential.value, e.t1, t2);
    }
  }

  lemma SameGrows(w: Option<RefreshWindow>, st: State, e: Event, q: seq<Job>)
    ensures Grows(w, st, e, q, q)
  {
  }

  lemma RetryGrows(w: Option<RefreshWindow>, st: State, k: nat, t1: real, t2: real)
    requires k < |st.inHand|
    ensures var p, st' := st.inHand[k], st.(inHand := st.inHand[..k] + st.inHand[k + 1..]);
            Grows(w, st, RetryLocked(k, t1, t2), st.queue, RetrySection(w, st', p.id, p.credential, t1, t2).queue)
  {
    hide StartRefresh, Grows;
    var st' := st.(inHand := st.inHand[..k] + st.inHand[k + 1..],
                   requestsToRetry := st.requestsToRetry + [st.inHand[k].id]);
    SameGrows(w, st, RetryLocked(k, t1, t2), st.queue);
    if !st.isRefreshing { RefreshGrows(w, st, RetryLocked(k, t1, t2), st', st.inHand[k].credential, t1, t2); }
  }

  /** The queue once the item at its head was taken, before the item may append a job. */
  function Taken(q: seq<Job>): seq<Job>
    requires q != []
  {
    match q[0]
    case RefreshJob(_) => q[1..]
    case SuccessJob(adapts, retries) =>
      if adapts != [] then [SuccessJob(adapts[1..], retries)] + q[1..]
      else if retries != [] then [SuccessJob([], retries[1..])] + q[1..]
      else q[1..]
    case FailureJob(adapts, retries, error) =>
      if adapts != [] then [FailureJob(adapts[1..], retries, error)] + q[1..]
      else if retries != [] then [FailureJob([], retries[1..], error)] + q[1..]
      else q[1..]
  }

  lemma RunGrows(w: Option<RefreshWindow>, st: State, e: Event)
    requires e.RunQueue? && st.queue != []
    ensures Grows(w, st, e, Taken(st.queue), RunJob(w, st, e.requiresRefresh, e.t1, e.t2).queue)
  {
    hide AdaptSection, Grows;
    SameGrows(w, st, e, Taken(st.queue));
    if Adapting(st, e).Some? { AdaptGrows(w, st, e, st.(queue := Taken(st.queue)), e.t2, true); }
  }

  /** The queue a step starts from: as it was, or without the item the step takes. */
  function Base(st: State, e: Event): seq<Job>
    requires Enabled(st, e)
  {
    if e.RunQueue? then Taken(st.queue) else st.queue
  }

  lemma StepGrows(w: Option<RefreshWindow>, st: State, e: Event)
    requires Enabled(st, e)
    ensures Grows(w, st, e, Base(st, e), Apply(w, st, e).queue)
  {
    hide AdaptSection, RetrySection, RunJob;
    match e
    case Adapt(id, _, _, t2) => AdaptGrows(w, st, e, Submit(st, id), t2, false);
    case RetryLocked(k, t1, t2) => RetryGrows(w, st, k, t1, t2);
    case RunQueue(_, _, _) => RunGrows(w, st, e);
    case _ =>
  }

  /** Taking the item at the head of the queue leaves remnants of the jobs there were. */
  lemma TakenRemnant(q: seq<Job>, i: nat) returns (j: nat)
    requires q != [] && i < |Taken(q)|
    ensures j < |q| && Remnant(Taken(q)[i], q[j])
  {
    if |Taken(q)| == |q| && i == 0 {
      j := 0;
      HeadRemnant(q);
    } else {
      j := i + |q| - |Taken(q)|;
      assert Taken(q)[i] == q[j] by { RestTaken(q, i); }
      WholeRemnant(q[j]);
    }
  }

  lemma RestTaken(q: seq<Job>, i: nat)
    requires q != [] && i < |Taken(q)| && (i > 0 || |Taken(q)| < |q|)
    ensures 0 <= i + |q| - |Taken(q)| < |q| && Taken(q)[i] == q[i + |q| - |Taken(q)|]
  {
  }

  lemma HeadRemnant(q: seq<Job>)
    requires q != [] && |Taken(q)| == |q|
    ensures Remnant(Taken(q)[0], q[0])
  {
  }

  lemma WholeRemnant(job: Job)
    ensures Remnant(job, job)
  {
  }

  lemma BaseRemnant(st: State, e: Event, i: nat) returns (j: nat)
    requires Enabled(st, e) && i < |Base(st, e)|
    ensures j < |st.queue| && Remnant(Base(st, e)[i], st.queue[j])
  {
    hide Taken, Remnant;
    if e.RunQueue? {
      j := TakenRemnant(st.queue, i);
    } else {
      j := i;
      WholeRemnant(st.queue[j]);
    }
  }

  /** Those that wait keep their places: others come behind them, or all go into one job in that order. */
  predicate InOrder(st: State, st': State) {
    || (st.adaptOperations <= st'.adaptOperations && st.requestsToRetry <= st'.requestsToRetry)
    || (st'.queue != [] && !st'.queue[|st'.queue| - 1].RefreshJob?
        && st.adaptOperations <= st'.queue[|st'.queue| - 1].adapts
        && st.requestsToRetry <= st'.queue[|st'.queue| - 1].retries)
  }

  lemma StartRefreshOrder(w: Option<RefreshWindow>, st: State, c: Credential, t1: real, t2: real)
    ensures InOrder(st, StartRefresh(w, st, c, t1, t2))
  {
  }

  lemma OrderThen(st: State, st': State, st'': State)
    requires st.adaptOperations <= st'.adaptOperations && st.requestsToRetry <= st'.requestsToRetry
    requires InOrder(st', st'')
    ensures InOrder(st, st'')
  {
  }

  lemma AdaptOrder(w: Option<RefreshWindow>, st: State, id: Id, r: bool, t1: real, t2: real, onQueue: bool)
    ensures InOrder(st, AdaptSection(w, st, id, r, t1, t2, onQueue))
  {
    hide StartRefresh;
    var st' := st.(adaptOperations := st.adaptOperations + [id]);
    if st.credential.Some? {
      StartRefreshOrder(w, st', st.credential.value, t1, t2);
      OrderThen(st, st', StartRefresh(w, st', st.credential.value, t1, t2));
    }
  }

  lemma RetryOrder(w: Option<RefreshWindow>, st: State, id: Id, c: Credential, t1: real, t2: real)
    ensures InOrder(st, RetrySection(w, st, id, c, t1, t2))
  {
    hide StartRefresh;
    var st' := st.(requestsToRetry := st.requestsToRetry + [id]);
    StartRefreshOrder(w, st', c, t1, t2);
    OrderThen(st, st', StartRefresh(w, st', c, t1, t2));
  }

  /** First come, first served: with JobsHaveOrigins, whoever waits is told in the order of coming. */
  lemma StepInOrder(w: Option<RefreshWindow>, st: State, e: Event)
    requires Enabled(st, e)
    ensures InOrder(st, Apply(w, st, e))
  {
    hide AdaptSection, RetrySection, CheckRetry;
    match e
    case Adapt(id, r, t1, t2) => AdaptOrder(w, Submit(st, id), id, r, t1, t2, false);
    case RetryCheck(id, verdict) => CheckOrder(Submit(st, id), id, verdict);
    case RetryLocked(k, t1, t2) =>
      var st' := st.(inHand := st.inHand[..k] + st.inHand[k + 1..]);
      RetryOrder(w, st', st.inHand[k].id, st.inHand[k].credential, t1, t2);
    case RunQueue(r, t1, t2) => RunOrder(w, st, r, t1, t2);
    case _ =>
  }

  lemma CheckOrder(st: State, id: Id, verdict: Verdict)
    ensures InOrder(st, CheckRetry(st, id, verdict))
  {
  }

  lemma RunOrder(w: Option<RefreshWindow>, st: State, r: bool, t1: real, t2: real)
    requires st.queue != []
    ensures InOrder(st, RunJob(w, st, r, t1, t2))
  {
    hide AdaptSection;
    var job := st.queue[0];
    if job.SuccessJob? && job.adapts != [] {
      AdaptOrder(w, st.(queue := [SuccessJob(job.adapts[1..], job.retries)] + st.queue[1..]), job.adapts[0], r, t1, t2,
                 true);
    }
  }

  /** A completion the queue is to call holds the queue up until it was called; the others never do. */
  lemma StepBusy(w: Option<RefreshWindow>, st: State, e: Event)
    requires Enabled(st, e)
    ensures match e
            case RunQueue(_, _, _) => QueueBusy(Apply(w, st, e)) <==> |Apply(w, st, e).decided| > |st.decided|
            case CallDecided(k) =>
              QueueBusy(Apply(w, st, e)) <==> exists j | 0 <= j < |st.decided| && j != k :: st.decided[j].onQueue
            case _ => QueueBusy(Apply(w, st, e)) <==> QueueBusy(st)
  {
    hide AdaptSection, RunJob, CheckRetry;
    match e
    case Adapt(id, r, t1, t2) => AdaptBusy(w, Submit(st, id), id, r, t1, t2, false);
    case RetryCheck(id, verdict) => CheckBusy(Submit(st, id), id, verdict);
    case CallDecided(k) => CallBusy(st, k);
    case RunQueue(r, t1, t2) => RunBusy(w, st, r, t1, t2);
    case _ =>
  }

  lemma DecideBusy(st: State, id: Id, outcome: Outcome, onQueue: bool)
    ensures QueueBusy(Decide(st, id, outcome, onQueue)) <==> QueueBusy(st) || onQueue
  {
    var d := Decide(st, id, outcome, onQueue).decided;
    assert d[|st.decided|].onQueue == onQueue && forall k | 0 <= k < |st.decided| :: d[k] == st.decided[k];
  }

  lemma AdaptBusy(w: Option<RefreshWindow>, st: State, id: Id, r: bool, t1: real, t2: real, onQueue: bool)
    ensures var st' := AdaptSection(w, st, id, r, t1, t2, onQueue);
            QueueBusy(st') <==> QueueBusy(st) || (onQueue && |st'.decided| > |st.decided|)
  {
    hide QueueBusy;
    if AdaptDue(st, id, r).Some? { DecideBusy(st, id, AdaptDue(st, id, r).value.outcome, onQueue); }
    else { SameBusy(st, AdaptSection(w, st, id, r, t1, t2, onQueue)); }
  }

  lemma SameBusy(st: State, st': State)
    requires st'.decided == st.decided
    ensures QueueBusy(st') <==> QueueBusy(st)
  {
  }

  lemma CheckBusy(st: State, id: Id, verdict: Verdict)
    ensures QueueBusy(CheckRetry(st, id, verdict)) <==> QueueBusy(st)
  {
    hide QueueBusy;
    if CheckDue(st, id, verdict).Some? { DecideBusy(st, id, CheckDue(st, id, verdict).value.outcome, false); }
    else { SameBusy(st, CheckRetry(st, id, verdict)); }
  }

  lemma CallBusy(st: State, k: nat)
    requires k < |st.decided|
    ensures QueueBusy(CallNow(st, k)) <==> exists j | 0 <= j < |st.decided| && j != k :: st.decided[j].onQueue
  {
    var d := CallNow(st, k).decided;
    assert forall j | 0 <= j < k :: d[j] == st.decided[j];
    assert forall j | k < j < |st.decided| :: d[j - 1] == st.decided[j];
    if j :| 0 <= j < |st.decided| && j != k && st.decided[j].onQueue {
      assert d[if j < k then j else j - 1].onQueue;
    }
  }

  lemma RunBusy(w: Option<RefreshWindow>, st: State, r: bool, t1: real, t2: real)
    requires st.queue != [] && !QueueBusy(st)
    ensures var st' := RunJob(w, st, r, t1, t2); QueueBusy(st') <==> |st'.decided| > |st.decided|
  {
    hide AdaptSection, QueueBusy;
    var job := st.queue[0];
    if job.SuccessJob? && job.adapts != [] {
      var st0 := st.(queue := [SuccessJob(job.adapts[1..], job.retries)] + st.queue[1..]);
      SameBusy(st, st0);
      AdaptBusy(w, st0, job.adapts[0], r, t1, t2, true);
    } else {
      SameBusy(st, RunJob(w, st, r, t1, t2));
    }
  }

  // ---------- over whole runs ----------

  /** The n-th step of a run puts this job in the queue. */
  ghost predicate CreatedAt(w: Option<RefreshWindow>, events: seq<Event>, n: nat, job: Job) {
    && n < |events| && Exec(w, INITIAL, events[..n + 1]).Some?
    && var before, after := Exec(w, INITIAL, events[..n]), Exec(w, INITIAL, events[..n + 1]).value;
       before.Some? && Origin(w, before.value, events[n], job)
       && after.queue != [] && after.queue[|after.queue| - 1] == job
  }

  lemma CreatedBefore(w: Option<RefreshWindow>, events: seq<Event>, n: nat, job: Job)
    requires events != [] && CreatedAt(w, events[..|events| - 1], n, job)
    ensures CreatedAt(w, events, n, job)
  {
    hide Origin, Exec;
    assert events[..n] == events[..|events| - 1][..n] && events[..n + 1] == events[..|events| - 1][..n + 1];
  }

  lemma LastStep(w: Option<RefreshWindow>, events: seq<Event>)
    requires events != [] && Exec(w, INITIAL, events).Some?
    ensures var n := |events| - 1;
            && events[..n + 1] == events && Exec(w, INITIAL, events[..n]).Some?
            && Enabled(Exec(w, INITIAL, events[..n]).value, events[n])
            && Exec(w, INITIAL, events).value == Apply(w, Exec(w, INITIAL, events[..n]).value, events[n])
  {
  }

  /** Over every run, a job in the queue is what is left of one that some step put there. */
  lemma {:induction false} JobsHaveOrigins(w: Option<RefreshWindow>, events: seq<Event>, i: nat)
    returns (n: nat, job: Job)
    requires Exec(w, INITIAL, events).Some? && i < |Exec(w, INITIAL, events).value.queue|
    ensures CreatedAt(w, events, n, job) && Remnant(Exec(w, INITIAL, events).value.queue[i], job)
  {
    hide Origin, Remnant, Apply, Base;
    LastStep(w, events);
    var before, e := events[..|events| - 1], events[|events| - 1];
    var st, q := Exec(w, INITIAL, before).value, Exec(w, INITIAL, events).value.queue;
    StepGrows(w, st, e);
    if i < |Base(st, e)| {
      var j := BaseRemnant(st, e, i);
      n, job := JobsHaveOrigins(w, before, j);
      CreatedBefore(w, events, n, job);
      RemnantOfRemnant(q[i], st.queue[j], job);
    } else {
      n, job := |before|, q[i];
      WholeRemnant(job);
    }
  }

  /** The step `n` of the run decided that the request of `f` is told this, and was right. */
  predicate DecidedAt(w: Option<RefreshWindow>, events: seq<Event>, n: nat, f: Fired) {
    && n < |events| && Exec(w, INITIAL, events[..n + 1]).Some?
    && var before, after := Exec(w, INITIAL, events[..n]), Exec(w, INITIAL, events[..n + 1]).value;
       before.Some? && Justified(before.value, events[n], f) && Told(after) == Told(before.value) + multiset{f}
  }

  /** A refresh is asked for, and the window allows none. */
  predicate Refused(w: Option<RefreshWindow>, st: State, e: Event) {
    && !st.isRefreshing
    && (e.RetryLocked? || (Adapting(st, e).Some? && e.requiresRefresh && st.credential.Some?))
    && Excessive(w, st.refreshTimestamps, e.t1)
  }

  /**
   What a request that waited is told of: the authenticator's answer that came while it waited, or the refusal of the
   refresh that it asked for itself.
   */
  predicate Cause(w: Option<RefreshWindow>, st: State, e: Event, f: Fired) {
    match f.outcome
    case Adapted(_) => e.RefreshSucceeded? && f.id in st.adaptOperations
    case Retry => e.RefreshSucceeded? && f.id in st.requestsToRetry
    case DoNotRetry => false
    case AdaptFailed(error) =>
      (match error
       case MissingCredential => e.RefreshSucceeded? && f.id in st.adaptOperations
       case RefreshFailed(code) => e == RefreshFails(code) && f.id in st.adaptOperations
       case ExcessiveRefresh => Refused(w, st, e) && Adapting(st, e) == Some(f.id))
    case DoNotRetryWithError(error) =>
      (match error
       case MissingCredential => false
       case RefreshFailed(code) => e == RefreshFails(code) && f.id in st.requestsToRetry
       case ExcessiveRefresh =>
         Refused(w, st, e) && e.RetryLocked? && e.k < |st.inHand| && st.inHand[e.k].id == f.id)
  }

  predicate CausedAt(w: Option<RefreshWindow>, events: seq<Event>, m: nat, f: Fired) {
    m < |events| && Exec(w, INITIAL, events[..m]).Some? && Cause(w, Exec(w, INITIAL, events[..m]).value, events[m], f)
  }

  /** The request the queue tells something was in the job as it was put there, among those of its kind. */
  lemma ToldFromJob(job: Job, st: State, e: Event, f: Fired)
    requires e.RunQueue? && st.queue != [] && Remnant(st.queue[0], job) && Justified(st, e, f)
    ensures if f.outcome.Adapted? then job.SuccessJob? && f.id in job.adapts
            else if f.outcome.Retry? then job.SuccessJob? && f.id in job.retries
            else if f.outcome.DoNotRetryWithError? then
              job.FailureJob? && job.error == f.outcome.error && f.id in job.retries
            else
              && f.outcome.AdaptFailed? && !job.RefreshJob? && f.id in job.adapts
              && (if job.FailureJob? then job.error == f.outcome.error else f.outcome.error.MissingCredential?)
  {
  }

  /** What the queue tells a request was caused by the step that put the job in the queue. */
  lemma OriginIsCause(w: Option<RefreshWindow>, origin: State, oe: Event, job: Job, st: State, e: Event, f: Fired)
    requires Inv(origin) && Origin(w, origin, oe, job)
    requires e.RunQueue? && st.queue != [] && Remnant(st.queue[0], job) && Justified(st, e, f)
    ensures Cause(w, origin, oe, f)
  {
    hide Outstanding, Places, Justified, Remnant;
    ToldFromJob(job, st, e, f);
  }

  /**
   Over every run, whatever a completion was told or is going to be told was decided by a step of that run, truly; and
   what the queue told was caused by an earlier step of that run.
   */
  lemma {:induction false} RunJustified(w: Option<RefreshWindow>, events: seq<Event>, f: Fired) returns (n: nat, m: nat)
    requires Exec(w, INITIAL, events).Some? && f in Told(Exec(w, INITIAL, events).value)
    ensures DecidedAt(w, events, n, f)
    ensures events[n].RunQueue? ==> m < n && CausedAt(w, events, m, f)
  {
    hide Justified, Apply, Told, Cause, Due;
    assert events != [] by { ToldNobody(); }
    m := 0;
    LastStep(w, events);
    var before, e := events[..|events| - 1], events[|events| - 1];
    var st := Exec(w, INITIAL, before).value;
    StepTells(w, st, e);
    if f in Told(st) {
      n, m := RunJustified(w, before, f);
      DecidedBefore(w, events, n, f);
      if events[n].RunQueue? { CausedBefore(w, events, m, f); }
    } else {
      n := |before|;
      DueIff(st, e, f);
      if e.RunQueue? {
        m := QueueCause(w, before, e, f);
        CausedBefore(w, events, m, f);
      }
    }
  }

  lemma QueueCause(w: Option<RefreshWindow>, before: seq<Event>, e: Event, f: Fired) returns (m: nat)
    requires Exec(w, INITIAL, before).Some? && e.RunQueue? && Enabled(Exec(w, INITIAL, before).value, e)
    requires Justified(Exec(w, INITIAL, before).value, e, f)
    ensures CausedAt(w, before, m, f)
  {
    hide Justified, Apply, Cause, Origin, Inv;
    var job;
    m, job := JobsHaveOrigins(w, before, 0);
    Safety(w, before[..m]);
    OriginIsCause(w, Exec(w, INITIAL, before[..m]).value, before[m], job, Exec(w, INITIAL, before).value, e, f);
  }

  lemma DecidedBefore(w: Option<RefreshWindow>, events: seq<Event>, n: nat, f: Fired)
    requires events != [] && DecidedAt(w, events[..|events| - 1], n, f)
    ensures DecidedAt(w, events, n, f)
  {
    hide Justified, Exec, Told;
    assert events[..n] == events[..|events| - 1][..n] && events[..n + 1] == events[..|events| - 1][..n + 1];
  }

  lemma CausedBefore(w: Option<RefreshWindow>, events: seq<Event>, m: nat, f: Fired)
    requires events != [] && CausedAt(w, events[..|events| - 1], m, f)
    ensures CausedAt(w, events, m, f)
  {
    hide Cause, Exec;
    assert events[..m] == events[..|events| - 1][..m];
  }

  lemma ToldNobody()
    ensures Told(INITIAL) == multiset{}
  {
  }

  // ---------- the credential in force when a completion is called ----------

  /** A completion called with this outcome now is told of the credential in force. */
  predicate Current(st: State, outcome: Outcome) {
    outcome.Adapted? ==> st.credential == Some(outcome.credential)
  }

  /** Every decision that is still to be told is of the credential in force. */
  predicate AllCurrent(st: State) {
    forall k | 0 <= k < |st.decided| :: Current(st, st.decided[k].told.outcome)
  }

  predicate ChangesCredential(e: Event) {
    e.SetCredential? || e.RefreshSucceeded?
  }

  predicate KeepsCredential(events: seq<Event>) {
    forall n | 0 <= n < |events| :: !ChangesCredential(events[n])
  }

  /** Every completion the run from `st` calls is told of the credential in force then. */
  ghost predicate CallsCurrent(w: Option<RefreshWindow>, st: State, events: seq<Event>) {
    forall n | 0 <= n < |events| && events[n].CallDecided? ::
      Exec(w, st, events[..n]).Some? && events[n].k < |Exec(w, st, events[..n]).value.decided|
      ==> Current(Exec(w, st, events[..n]).value, Exec(w, st, events[..n]).value.decided[events[n].k].told.outcome)
  }

  /** The credential may be replaced between the decision and the call. */
  lemma CredentialReplaced(w: Option<RefreshWindow>, id: Id, c: Credential, c': Credential)
    requires c != c'
    ensures var events := [SetCredential(Some(c)), Adapt(id, false, 0.0, 0.0), SetCredential(Some(c')), CallDecided(0)];
            && Exec(w, INITIAL, events).Some?
            && Exec(w, INITIAL, events).value.fired == [Fired(id, Adapted(c))]
            && Exec(w, INITIAL, events).value.credential == Some(c')
            && !CallsCurrent(w, INITIAL, events)
  {
    var events := [SetCredential(Some(c)), Adapt(id, false, 0.0, 0.0), SetCredential(Some(c')), CallDecided(0)];
    assert events[..1] == [SetCredential(Some(c))];
    assert events[..2][..1] == events[..1] && events[..3][..2] == events[..2];
    assert Exec(w, INITIAL, events[..1]) == Some(INITIAL.(credential := Some(c)));
    var told := Decision(Fired(id, Adapted(c)), false);
    assert Exec(w, INITIAL, events[..2]).value.decided == [told];
    assert Exec(w, INITIAL, events[..3]).value.decided == [told];
    assert events[..4] == events && events[3].CallDecided?;
  }

  lemma StepCurrent(w: Option<RefreshWindow>, st: State, e: Event)
    requires Enabled(st, e) && AllCurrent(st) && !ChangesCredential(e)
    ensures AllCurrent(Apply(w, st, e)) && Apply(w, st, e).credential == st.credential
  {
  }

  lemma {:induction false} RunCurrent(w: Option<RefreshWindow>, st: State, events: seq<Event>)
    requires AllCurrent(st) && Exec(w, st, events).Some? && KeepsCredential(events)
    ensures AllCurrent(Exec(w, st, events).value)
  {
    hide AllCurrent, ChangesCredential;
    if events != [] {
      var before, e := events[..|events| - 1], events[|events| - 1];
      assert forall n | 0 <= n < |before| :: before[n] == events[n];
      RunCurrent(w, st, before);
      StepCurrent(w, Exec(w, st, before).value, e);
    }
  }

  lemma {:induction false} PrefixRuns(w: Option<RefreshWindow>, st: State, events: seq<Event>, n: nat)
    requires n <= |events| && Exec(w, st, events).Some?
    ensures Exec(w, st, events[..n]).Some?
  {
    if n < |events| {
      assert events[..|events| - 1][..n] == events[..n];
      PrefixRuns(w, st, events[..|events| - 1], n);
    } else {
      assert events[..n] == events;
    }
  }

  lemma CurrentSuffices(w: Option<RefreshWindow>, st: State, events: seq<Event>)
    requires AllCurrent(st) && Exec(w, st, events).Some? && KeepsCredential(events)
    ensures CallsCurrent(w, st, events)
  {
    hide ChangesCredential;
    forall n | 0 <= n < |events| ensures Exec(w, st, events[..n]).Some? && AllCurrent(Exec(w, st, events[..n]).value) {
      PrefixRuns(w, st, events, n);
      assert forall k | 0 <= k < n :: events[..n][k] == events[k];
      RunCurrent(w, st, events[..n]);
    }
  }

  /**
   Exactly when no decision on its way is of a credential that was replaced, every continuation in which the credential
   is not replaced tells each adapted request of the credential in force when its completion is called.
   */
  lemma CurrentIff(w: Option<RefreshWindow>, st: State)
    ensures AllCurrent(st) <==>
            forall events :: Exec(w, st, events).Some? && KeepsCredential(events) ==> CallsCurrent(w, st, events)
  {
    if AllCurrent(st) {
      forall events | Exec(w, st, events).Some? && KeepsCredential(events)
        ensures CallsCurrent(w, st, events)
      {
        CurrentSuffices(w, st, events);
      }
    } else {
      var k :| 0 <= k < |st.decided| && !Current(st, st.decided[k].told.outcome);
      var events := [CallDecided(k)];
      assert events[..0] == [] && Exec(w, st, []) == Some(st) && Exec(w, st, events).Some?;
      assert events[0].CallDecided? && !CallsCurrent(w, st, events);
    }
  }

  /** The step leaves the credential as it is, or comes when every decision on its way is of the new one. */
  predicate ChangeHarmless(st: State, e: Event) {
    match e
    case SetCredential(c) => AllCurrent(st.(credential := c))
    case RefreshSucceeded(c) => AllCurrent(st.(credential := Some(c)))
    case _ => true
  }

  /** Every decision on its way is of the credential in force, all along the run. */
  ghost predicate CurrentAlong(w: Option<RefreshWindow>, events: seq<Event>) {
    forall n | 0 <= n <= |events| ::
      Exec(w, INITIAL, events[..n]).Some? && AllCurrent(Exec(w, INITIAL, events[..n]).value)
  }

  ghost predicate HarmlessAlong(w: Option<RefreshWindow>, events: seq<Event>) {
    forall n | 0 <= n < |events| ::
      Exec(w, INITIAL, events[..n]).Some? ==> ChangeHarmless(Exec(w, INITIAL, events[..n]).value, events[n])
  }

  lemma StepHarmlessIff(w: Option<RefreshWindow>, st: State, e: Event)
    requires Enabled(st, e) && AllCurrent(st)
    ensures AllCurrent(Apply(w, st, e)) <==> ChangeHarmless(st, e)
  {
    hide AdaptSection, RetrySection, RunJob, CheckRetry, CallNow;
    if !ChangesCredential(e) { StepCurrent(w, st, e); }
  }

  lemma {:induction false} HarmlessCurrent(w: Option<RefreshWindow>, events: seq<Event>, n: nat)
    requires n <= |events| && Exec(w, INITIAL, events).Some? && HarmlessAlong(w, events)
    ensures Exec(w, INITIAL, events[..n]).Some? && AllCurrent(Exec(w, INITIAL, events[..n]).value)
  {
    hide AllCurrent, ChangeHarmless;
    PrefixRuns(w, INITIAL, events, n);
    if n > 0 {
      HarmlessCurrent(w, events, n - 1);
      assert events[..n][..n - 1] == events[..n - 1];
      StepHarmlessIff(w, Exec(w, INITIAL, events[..n - 1]).value, events[n - 1]);
    } else {
      assert AllCurrent(INITIAL) by { NothingDecided(); }
    }
  }

  lemma NothingDecided()
    ensures AllCurrent(INITIAL)
  {
  }

  lemma CurrentHarmless(w: Option<RefreshWindow>, events: seq<Event>, n: nat)
    requires n < |events| && CurrentAlong(w, events)
    ensures ChangeHarmless(Exec(w, INITIAL, events[..n]).value, events[n])
  {
    hide AllCurrent, ChangeHarmless;
    assert events[..n + 1][..n] == events[..n];
    assert Exec(w, INITIAL, events[..n + 1]).Some?;
    StepHarmlessIff(w, Exec(w, INITIAL, events[..n]).value, events[n]);
  }

  /**
   Over every run, the decisions on their way are of the credential in force all along exactly when every change of the
   credential comes without one of another credential on its way; then every adapted completion is called with the
   credential in force.
   */
  lemma RunCurrentIff(w: Option<RefreshWindow>, events: seq<Event>)
    requires Exec(w, INITIAL, events).Some?
    ensures CurrentAlong(w, events) <==> HarmlessAlong(w, events)
    ensures HarmlessAlong(w, events) ==> CallsCurrent(w, INITIAL, events)
  {
    hide AllCurrent, ChangeHarmless;
    if HarmlessAlong(w, events) {
      forall n | 0 <= n <= |events|
        ensures Exec(w, INITIAL, events[..n]).Some? && AllCurrent(Exec(w, INITIAL, events[..n]).value)
      {
        HarmlessCurrent(w, events, n);
      }
      AlongCalls(w, events);
    } else if CurrentAlong(w, events) {
      forall n | 0 <= n < |events| ensures ChangeHarmless(Exec(w, INITIAL, events[..n]).value, events[n]) {
        CurrentHarmless(w, events, n);
      }
      assert false;
    }
  }

  lemma AlongCalls(w: Option<RefreshWindow>, events: seq<Event>)
    requires CurrentAlong(w, events)
    ensures CallsCurrent(w, INITIAL, events)
  {
  }

  /** The credential last set or obtained in a run. */
  function LastCredential(events: seq<Event>): Option<Credential> {
    if events == [] then None
    else
      match events[|events| - 1]
      case SetCredential(c) => c
      case RefreshSucceeded(c) => Some(c)
      case _ => LastCredential(events[..|events| - 1])
  }

  /** The credential in force is always the last one set, or brought by a refresh. */
  lemma {:induction false} CredentialInForce(w: Option<RefreshWindow>, events: seq<Event>)
    requires Exec(w, INITIAL, events).Some?
    ensures Exec(w, INITIAL, events).value.credential == LastCredential(events)
  {
    if events != [] {
      LastStep(w, events);
      var before := events[..|events| - 1];
      CredentialInForce(w, before);
      StepCredential(w, Exec(w, INITIAL, before).value, events[|before|]);
    }
  }

  lemma StepCredential(w: Option<RefreshWindow>, st: State, e: Event)
    requires Enabled(st, e)
    ensures Apply(w, st, e).credential
         == match e case SetCredential(c) => c case RefreshSucceeded(c) => Some(c) case _ => st.credential
  {
  }

  // ---------- the credential a refresh starts with ----------

  predicate StartsRefresh(w: Option<RefreshWindow>, st: State, e: Event)
    requires Enabled(st, e)
  {
    Apply(w, st, e).refreshTimestamps != st.refreshTimestamps
  }

  /** The credential the step refreshes with: retry has read it before it takes the lock. */
  function ToRefresh(st: State, e: Event): Option<Credential>
    requires Enabled(st, e)
  {
    if e.RetryLocked? then Some(st.inHand[e.k].credential) else st.credential
  }

  lemma StartRefreshQueues(w: Option<RefreshWindow>, st: State, c: Credential, t1: real, t2: real)
    requires StartRefresh(w, st, c, t1, t2).refreshTimestamps != st.refreshTimestamps
    ensures StartRefresh(w, st, c, t1, t2).queue == st.queue + [RefreshJob(c)]
  {
  }

  lemma AdaptQueues(w: Option<RefreshWindow>, st: State, id: Id, r: bool, t1: real, t2: real, onQueue: bool)
    requires AdaptSection(w, st, id, r, t1, t2, onQueue).refreshTimestamps != st.refreshTimestamps
    ensures st.credential.Some?
    ensures AdaptSection(w, st, id, r, t1, t2, onQueue).queue == st.queue + [RefreshJob(st.credential.value)]
  {
    hide StartRefresh;
    StartRefreshQueues(w, st.(adaptOperations := st.adaptOperations + [id]), st.credential.value, t1, t2);
  }

  lemma RetryQueues(w: Option<RefreshWindow>, st: State, id: Id, c: Credential, t1: real, t2: real)
    requires RetrySection(w, st, id, c, t1, t2).refreshTimestamps != st.refreshTimestamps
    ensures RetrySection(w, st, id, c, t1, t2).queue == st.queue + [RefreshJob(c)]
  {
    hide StartRefresh;
    StartRefreshQueues(w, st.(requestsToRetry := st.requestsToRetry + [id]), c, t1, t2);
  }

  /** A refresh starts with the credential in force, except that of a retry whose credential was replaced meanwhile. */
  lemma RefreshCredentialIff(w: Option<RefreshWindow>, st: State, e: Event)
    requires Enabled(st, e) && StartsRefresh(w, st, e)
    ensures var q := Apply(w, st, e).queue;
            && q != [] && q[|q| - 1].RefreshJob? && ToRefresh(st, e) == Some(q[|q| - 1].credential)
            && (Some(q[|q| - 1].credential) == st.credential
                <==> !e.RetryLocked? || Some(st.inHand[e.k].credential) == st.credential)
  {
    hide AdaptSection, RetrySection;
    match e
    case Adapt(id, r, t1, t2) => AdaptQueues(w, Submit(st, id), id, r, t1, t2, false);
    case RetryLocked(k, t1, t2) =>
      var st' := st.(inHand := st.inHand[..k] + st.inHand[k + 1..]);
      RetryQueues(w, st', st.inHand[k].id, st.inHand[k].credential, t1, t2);
    case RunQueue(r, t1, t2) =>
      AdaptQueues(w, st.(queue := Taken(st.queue)), st.queue[0].adapts[0], r, t1, t2, true);
    case _ =>
  }

  /** A refresh of a credential that was replaced between the checks of retry and its lock. */
  lemma StaleRefresh(id: Id, c: Credential, c': Credential)
    requires c != c'
    ensures var events := [SetCredential(Some(c)), RetryCheck(id, SameCredential), SetCredential(Some(c')),
                           RetryLocked(0, 0.0, 0.0)];
            && Exec(None, INITIAL, events).Some?
            && Exec(None, INITIAL, events).value.queue == [RefreshJob(c)]
            && Exec(None, INITIAL, events).value.credential == Some(c')
  {
    var events := [SetCredential(Some(c)), RetryCheck(id, SameCredential), SetCredential(Some(c')),
                   RetryLocked(0, 0.0, 0.0)];
    assert events[..1] == [SetCredential(Some(c))];
    assert events[..2][..1] == events[..1] && events[..3][..2] == events[..2] && events[..3] == events[..|events| - 1];
    assert Exec(None, INITIAL, events[..1]) == Some(INITIAL.(credential := Some(c)));
    assert Exec(None, INITIAL, events[..2]).value.inHand == [Pending(id, c)];
    assert Exec(None, INITIAL, events[..3]).value.inHand == [Pending(id, c)];
  }
}
