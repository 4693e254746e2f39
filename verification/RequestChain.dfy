/**
 The life of an Alamofire Request: its state, and the chain that runs the response serializers one after another and
 calls their completions when the last one has reported.

 Every step is one locked section, or one job of a dispatch queue. Between the section that looks for the next
 serializer and the section that clears the lists, any other step may come.
 */
module RequestChain {
  import opened Wire

  /** A response serializer, and the completion it hands in when it reports. */
  type Id = nat

  datatype RequestState = Initialized | Resumed | Suspended | Cancelled | Finished

  predicate CanTransition(from: RequestState, to: RequestState) {
    match (from, to)
    case (Initialized, _) => true
    case (_, Initialized) => false
    case (Cancelled, _) => false
    case (Finished, _) => false
    case (Resumed, Cancelled) => true
    case (Suspended, Cancelled) => true
    case (Resumed, Suspended) => true
    case (Suspended, Resumed) => true
    case (Suspended, Suspended) => false
    case (Resumed, Resumed) => false
    case (_, Finished) => true
  }

  /**
   `checks` and `clears` count the calls of processNextResponseSerializer before their first and between their first
   and second locked section, `resumes` and `finishes` the calls a registration and a cancellation have scheduled;
   `running` are the serializers handed to the serialization queue, `toCall` the completions
   taken and not yet called. The last four fields are the history.
   */
  datatype Chain = Chain(
    state: RequestState, serializers: seq<Id>, completions: seq<Id>, processingFinished: bool, isFinishing: bool,
    checks: nat, clears: nat, resumes: nat, finishes: nat, running: seq<Id>, toCall: seq<Id>,
    registered: seq<Id>, started: seq<Id>, reported: seq<Id>, called: seq<Id>)

  const FRESH: Chain := Chain(Initialized, [], [], false, false, 0, 0, 0, 0, [], [], [], [], [], [])

  function To(st: Chain, to: RequestState): Chain {
    if CanTransition(st.state, to) then st.(state := to) else st
  }

  /** appendResponseSerializer: a finished request is reopened, and resumed later if it can be. */
  function AppendSerializer(st: Chain, id: Id): Chain {
    var state := if st.state.Finished? then Resumed else st.state;
    st.(serializers := st.serializers + [id], registered := st.registered + [id], state := state,
        checks := if st.processingFinished then st.checks + 1 else st.checks,
        resumes := if CanTransition(state, Resumed) then st.resumes + 1 else st.resumes)
  }

  /** cancel; without a task still under way it also schedules finish. */
  function CancelNow(st: Chain, liveTask: bool): Chain {
    if !CanTransition(st.state, Cancelled) then st
    else st.(state := Cancelled, finishes := if liveTask then st.finishes else st.finishes + 1)
  }

  function StartFinishing(st: Chain): Chain {
    if st.isFinishing then st else st.(isFinishing := true, checks := st.checks + 1)
  }

  /** nextResponseSerializer, and what the caller goes on to do with its answer */
  function Check(st: Chain): Chain
    requires st.checks > 0
  {
    var st' := st.(checks := st.checks - 1);
    var index := |st.completions|;
    if index < |st.serializers| then
      st'.(running := st.running + [st.serializers[index]], started := st.started + [st.serializers[index]])
    else st'.(clears := st.clears + 1)
  }

  /** The second locked section of processNextResponseSerializer */
  function Clear(st: Chain): Chain
    requires st.clears > 0
  {
    To(st.(serializers := [], completions := [], processingFinished := true, isFinishing := false,
           clears := st.clears - 1, toCall := st.toCall + st.completions), Finished)
  }

  function Call(st: Chain): Chain
    requires st.toCall != []
  {
    st.(toCall := st.toCall[1..], called := st.called + [st.toCall[0]])
  }

  /** responseSerializerDidComplete, for the k-th running serializer */
  function Report(st: Chain, k: nat): Chain
    requires k < |st.running|
  {
    var id := st.running[k];
    st.(running := st.running[..k] + st.running[k + 1..], completions := st.completions + [id],
        reported := st.reported + [id], checks := st.checks + 1)
  }

  datatype Event =
    | Register(id: Id) | DoFinish | DoCheck | DoClear | DoCall | DoReport(k: nat)
    | Resume | Suspend | Cancel(liveTask: bool) | ScheduledResume(startImmediately: bool) | ScheduledFinish

  predicate Enabled(st: Chain, e: Event) {
    match e
    case DoCheck => st.checks > 0
    case DoClear => st.clears > 0
    case DoCall => st.toCall != []
    case DoReport(k) => k < |st.running|
    case ScheduledResume(_) => st.resumes > 0
    case ScheduledFinish => st.finishes > 0
    case _ => true
  }

  function Apply(st: Chain, e: Event): Chain
    requires Enabled(st, e)
  {
    match e
    case Register(id) => AppendSerializer(st, id)
    case DoFinish => StartFinishing(st)
    case DoCheck => Check(st)
    case DoClear => Clear(st)
    case DoCall => Call(st)
    case DoReport(k) => Report(st, k)
    case Resume => To(st, Resumed)
    case Suspend => To(st, Suspended)
    case Cancel(liveTask) => CancelNow(st, liveTask)
    case ScheduledResume(startImmediately) =>
      var st' := st.(resumes := st.resumes - 1);
      if startImmediately then To(st', Resumed) else st'
    case ScheduledFinish => StartFinishing(st.(finishes := st.finishes - 1))
  }

  /** The state after a run from `st`, if every event in it was enabled when it came. */
  function Exec(st: Chain, events: seq<Event>): Option<Chain> {
    if events == [] then Some(st)
    else
      match Exec(st, events[..|events| - 1])
      case None => None
      case Some(st') => var e := events[|events| - 1]; if Enabled(st', e) then Some(Apply(st', e)) else None
  }

  // ---------- the state, over every run ----------

  /** Every step keeps the state, follows the table, or is a registration that reopens a finished request. */
  lemma StepLegal(st: Chain, e: Event)
    requires Enabled(st, e)
    ensures var to := Apply(st, e).state;
            || to == st.state
            || (CanTransition(st.state, to) && !to.Initialized?)
            || (e.Register? && st.state.Finished? && to.Resumed?)
  {
  }

  /** `Cancelled` is never left and `Initialized` never entered again, whatever happens and however often. */
  lemma {:induction false} CancelledAbsorbs(st: Chain, events: seq<Event>)
    requires Exec(st, events).Some?
    ensures var to := Exec(st, events).value.state;
            (st.state.Cancelled? ==> to.Cancelled?) && (!st.state.Initialized? ==> !to.Initialized?)
  {
    if events != [] {
      var before := events[..|events| - 1];
      CancelledAbsorbs(st, before);
      StepLegal(Exec(st, before).value, events[|events| - 1]);
    }
  }

  /** What an event does to the state, case by case. */
  function StateAfter(s: RequestState, e: Event): RequestState {
    match e
    case Resume => if s.Initialized? || s.Suspended? then Resumed else s
    case ScheduledResume(startImmediately) =>
      if startImmediately && (s.Initialized? || s.Suspended?) then Resumed else s
    case Suspend => if s.Initialized? || s.Resumed? then Suspended else s
    case Cancel(_) => if s.Finished? then s else Cancelled
    case DoClear => if s.Cancelled? then s else Finished
    case Register(_) => if s.Finished? then Resumed else s
    case _ => s
  }

  lemma StepState(st: Chain, e: Event)
    requires Enabled(st, e)
    ensures Apply(st, e).state == StateAfter(st.state, e)
  {
  }

  function StateAfterAll(s: RequestState, events: seq<Event>): RequestState {
    if events == [] then s else StateAfter(StateAfterAll(s, events[..|events| - 1]), events[|events| - 1])
  }

  /** The state after any run is what its events, one by one, make of it; the rest of the request has no part in it. */
  lemma {:induction false} RunState(st: Chain, events: seq<Event>)
    requires Exec(st, events).Some?
    ensures Exec(st, events).value.state == StateAfterAll(st.state, events)
  {
    if events != [] {
      var before := events[..|events| - 1];
      RunState(st, before);
      StepState(Exec(st, before).value, events[|before|]);
    }
  }

  /** A request is cancelled exactly when some `cancel` came while it was not finished. */
  lemma {:induction false} CancelledIff(events: seq<Event>)
    requires Exec(FRESH, events).Some?
    ensures Exec(FRESH, events).value.state.Cancelled?
            <==> exists n | 0 <= n < |events| :: events[n].Cancel? && !StateAfterAll(Initialized, events[..n]).Finished?
  {
    if events != [] {
      var before := events[..|events| - 1];
      CancelledIff(before);
      RunState(FRESH, before);
      StepState(Exec(FRESH, before).value, events[|before|]);
      assert forall n | 0 <= n < |before| :: before[n] == events[n] && before[..n] == events[..n];
    }
  }

  /** A state lasts until an event that changes it. */
  lemma {:induction false} StateLasts(st: Chain, events: seq<Event>)
    requires Exec(st, events).Some? && forall n | 0 <= n < |events| :: StateAfter(st.state, events[n]) == st.state
    ensures Exec(st, events).value.state == st.state
  {
    if events != [] {
      var before := events[..|events| - 1];
      assert forall n | 0 <= n < |before| :: before[n] == events[n];
      StateLasts(st, before);
      StepState(Exec(st, before).value, events[|before|]);
    }
  }

  // ---------- the chain, when serializers are registered in time ----------

  /** No call is past its look for a next serializer, and the lists have not been cleared yet. */
  predicate Timely(st: Chain) {
    st.clears == 0 && !st.processingFinished
  }

  ghost predicate AllTimely(events: seq<Event>)
    requires Exec(FRESH, events).Some?
    decreases |events|
  {
    events == [] ||
    (var before := events[..|events| - 1];
     AllTimely(before) && (events[|events| - 1].Register? ==> Timely(Exec(FRESH, before).value)))
  }

  /** Before the lists are cleared, the chain works through them from the front. */
  ghost predicate Working(st: Chain) {
    var n := |st.completions|;
    && st.registered == st.serializers && n + |st.running| <= |st.serializers|
    && st.completions == st.reported == st.serializers[..n]
    && st.started == st.serializers[..n + |st.running|]
    && st.running == st.serializers[n..n + |st.running|]
    && (st.clears > 0 ==> n == |st.serializers|)
    && st.called == st.toCall == []
  }

  /** Afterwards everything has been run and reported, and is called or about to be. */
  ghost predicate Done(st: Chain) {
    && st.serializers == st.completions == st.running == []
    && st.started == st.reported == st.registered == st.called + st.toCall
  }

  ghost predicate Inv(st: Chain) {
    && st.checks + st.clears + |st.running| == (if st.isFinishing then 1 else 0)
    && (if st.processingFinished then Done(st) else Working(st))
  }

  lemma CheckKeeps(st: Chain)
    requires Inv(st) && st.checks > 0
    ensures Inv(Check(st))
  {
    var n := |st.completions|;
    if n < |st.serializers| {
      assert st.serializers[n..n + 1] == [st.serializers[n]];
      assert st.serializers[..n + 1] == st.serializers[..n] + [st.serializers[n]];
    }
  }

  lemma ReportKeeps(st: Chain, k: nat)
    requires Inv(st) && k < |st.running|
    ensures Inv(Report(st, k))
  {
    var n := |st.completions|;
    assert st.running == [st.serializers[n]];
    assert st.running[..0] + st.running[1..] == [];
    assert st.serializers[..n + 1] == st.serializers[..n] + [st.serializers[n]];
  }

  lemma RegisterKeeps(st: Chain, id: Id)
    requires Inv(st) && Timely(st)
    ensures Inv(AppendSerializer(st, id))
  {
    var n, m := |st.completions|, |st.completions| + |st.running|;
    var more := st.serializers + [id];
    assert more[..n] == st.serializers[..n] && more[..m] == st.serializers[..m] && more[n..m] == st.serializers[n..m];
  }

  lemma ClearKeeps(st: Chain)
    requires Inv(st) && st.clears > 0
    ensures Inv(Clear(st))
  {
    if !st.processingFinished {
      assert st.serializers[..|st.serializers|] == st.serializers;
    }
  }

  lemma FinishKeeps(st: Chain)
    requires Inv(st)
    ensures Inv(StartFinishing(st))
  {
  }

  lemma CallKeeps(st: Chain)
    requires Inv(st) && st.toCall != []
    ensures Inv(Call(st))
  {
    assert st.called + st.toCall == st.called + [st.toCall[0]] + st.toCall[1..];
  }

  /** The state of the request and what is scheduled play no part in the invariant. */
  lemma StateKeeps(st: Chain, state: RequestState, resumes: nat, finishes: nat)
    requires Inv(st)
    ensures Inv(st.(state := state, resumes := resumes, finishes := finishes))
  {
  }

  lemma StepKeeps(st: Chain, e: Event)
    requires Inv(st) && Enabled(st, e) && (e.Register? ==> Timely(st))
    ensures Inv(Apply(st, e))
  {
    hide Inv;
    var st' := Apply(st, e);
    match e
    case Register(id) => RegisterKeeps(st, id);
    case DoFinish => FinishKeeps(st);
    case DoCheck => CheckKeeps(st);
    case DoClear => ClearKeeps(st);
    case DoCall => CallKeeps(st);
    case DoReport(k) => ReportKeeps(st, k);
    case ScheduledFinish =>
      StateKeeps(st, st.state, st.resumes, st.finishes - 1);
      FinishKeeps(st.(finishes := st.finishes - 1));
    case _ => StateKeeps(st, st'.state, st'.resumes, st'.finishes);
  }

  lemma {:induction false} Safety(events: seq<Event>)
    requires Exec(FRESH, events).Some? && AllTimely(events)
    ensures Inv(Exec(FRESH, events).value)
  {
    if events != [] {
      var before := events[..|events| - 1];
      Safety(before);
      StepKeeps(Exec(FRESH, before).value, events[|events| - 1]);
    }
  }

  /** Serializers run at most once and in the order of registration, each after the one before it has reported. */
  lemma RunInOrder(events: seq<Event>)
    requires Exec(FRESH, events).Some? && AllTimely(events)
    ensures var st := Exec(FRESH, events).value;
            && st.reported <= st.started <= st.registered
            && |st.started| <= |st.reported| + 1
  {
    Safety(events);
  }

  /** Completions are called at most once, in order, and only when every serializer has reported. */
  lemma CallInOrder(events: seq<Event>)
    requires Exec(FRESH, events).Some? && AllTimely(events)
    ensures var st := Exec(FRESH, events).value;
            && st.called <= st.registered
            && (st.called != [] ==> st.reported == st.registered)
  {
    Safety(events);
  }

  /** A finish is scheduled or under way, or the lists have been worked off. */
  predicate Ending(st: Chain) {
    st.finishes > 0 || st.isFinishing || st.processingFinished
  }

  /** The event makes a request end: a finish, or a cancellation that is accepted and finds no live task. */
  predicate Ends(s: RequestState, e: Event) {
    || e.DoFinish? || e.ScheduledFinish?
    || (e.Cancel? && !e.liveTask && (s.Initialized? || s.Resumed? || s.Suspended?))
  }

  ghost predicate Ended(events: seq<Event>) {
    exists n | 0 <= n < |events| :: Ends(StateAfterAll(Initialized, events[..n]), events[n])
  }

  lemma StepEnding(st: Chain, e: Event)
    requires Enabled(st, e) && (Ending(st) || Ends(st.state, e))
    ensures Ending(Apply(st, e))
  {
  }

  lemma {:induction false} EndedIsEnding(events: seq<Event>)
    requires Exec(FRESH, events).Some? && Ended(events)
    ensures Ending(Exec(FRESH, events).value)
  {
    hide Apply, Ending, Ends;
    var before := events[..|events| - 1];
    RunState(FRESH, before);
    if !Ends(StateAfterAll(Initialized, before), events[|before|]) {
      var n :| 0 <= n < |events| && Ends(StateAfterAll(Initialized, events[..n]), events[n]);
      assert before[..n] == events[..n] && before[n] == events[n];
      EndedIsEnding(before);
    }
    StepEnding(Exec(FRESH, before).value, events[|before|]);
  }

  /** No step of the chain, no call of a completion and no finish is due. */
  predicate AtRest(st: Chain) {
    st.checks == 0 && st.clears == 0 && st.running == [] && st.toCall == [] && st.finishes == 0
  }

  /**
   Nothing is dropped: while the request is finishing some step is due; and at rest, if it was finished, or cancelled
   without a live task, at any time of the run, every completion registered was called.
   */
  lemma NothingDropped(events: seq<Event>)
    requires Exec(FRESH, events).Some? && AllTimely(events)
    ensures var st := Exec(FRESH, events).value;
            && (st.isFinishing <==> st.checks > 0 || st.clears > 0 || st.running != [])
            && (st.processingFinished && st.toCall == [] ==> st.called == st.registered)
            && (Ended(events) && AtRest(st) ==> st.called == st.registered)
  {
    Safety(events);
    if Ended(events) { EndedIsEnding(events); }
  }

  // ---------- registering later ----------

  predicate NoRegister(events: seq<Event>) {
    forall i | 0 <= i < |events| :: !events[i].Register?
  }

  /** No step of the chain is due. */
  predicate Quiet(st: Chain) {
    st.processingFinished && st.checks == st.clears == 0 && st.running == []
  }

  /** Serializers ran in order and at most once, and once all is quiet each of them has run. */
  predicate Sound(st: Chain) {
    st.started <= st.registered && (Quiet(st) ==> st.started == st.registered)
  }

  lemma {:induction false} ExecKeeps(st: Chain, events: seq<Event>)
    requires Inv(st) && NoRegister(events) && Exec(st, events).Some?
    ensures Inv(Exec(st, events).value)
  {
    if events != [] {
      var before := events[..|events| - 1];
      assert NoRegister(before);
      ExecKeeps(st, before);
      StepKeeps(Exec(st, before).value, events[|events| - 1]);
    }
  }

  lemma ExecMore(st: Chain, events: seq<Event>, e: Event)
    requires Exec(st, events).Some? && Enabled(Exec(st, events).value, e)
    ensures Exec(st, events + [e]) == Some(Apply(Exec(st, events).value, e))
  {
    assert (events + [e])[..|events|] == events;
  }

  /** Registered while a call is past its look: the lists are cleared, and the serializer never runs. */
  lemma Dropped(st: Chain, id: Id) returns (events: seq<Event>)
    requires Inv(st) && st.clears > 0
    ensures NoRegister(events) && Exec(AppendSerializer(st, id), events).Some?
    ensures !Sound(Exec(AppendSerializer(st, id), events).value)
  {
    var st0 := AppendSerializer(st, id);
    assert Exec(st0, []) == Some(st0);
    ExecMore(st0, [], DoClear);
    events := [] + [DoClear];
    var st1 := Clear(st0);
    assert |st1.started| < |st1.registered|;
    if st.processingFinished {
      ExecMore(st0, events, DoCheck);
      ExecMore(st0, events + [DoCheck], DoClear);
      assert Quiet(Clear(Check(st1))) && Clear(Check(st1)).started == st1.started;
      events := events + [DoCheck] + [DoClear];
    }
  }

  /** Two looks in a row find the same serializer, because the first has not reported yet. */
  lemma TwiceFound(st: Chain, id: Id)
    requires st.serializers == [id] && st.completions == [] && st.checks == 2
    ensures var st' := Check(st);
            st'.checks > 0 && Check(st').started == st.started + [id] + [id] && Check(st').registered == st.registered
  {
  }

  /** Registered after the clearing: together with the call under way, or another finish, there are two looks. */
  lemma RunTwice(st: Chain, id: Id) returns (events: seq<Event>)
    requires Inv(st) && st.processingFinished && st.clears == 0
    ensures NoRegister(events) && Exec(AppendSerializer(st, id), events).Some?
    ensures !Sound(Exec(AppendSerializer(st, id), events).value)
  {
    var st0 := AppendSerializer(st, id);
    assert Exec(st0, []) == Some(st0);
    var st1 := if st.checks == 0 then StartFinishing(st0) else st0;
    events := [];
    if st.checks == 0 {
      ExecMore(st0, [], DoFinish);
      events := [] + [DoFinish];
    }
    TwiceFound(st1, id);
    ExecMore(st0, events, DoCheck);
    ExecMore(st0, events + [DoCheck], DoCheck);
    events := events + [DoCheck] + [DoCheck];
    assert |st1.started| == |st.registered| && |st1.registered| == |st.registered| + 1;
  }

  /** A run after which a serializer registered late has been dropped, or has run twice. */
  lemma LateRegistration(st: Chain, id: Id) returns (events: seq<Event>)
    requires Inv(st) && !Timely(st)
    ensures NoRegister(events) && Exec(AppendSerializer(st, id), events).Some?
    ensures !Sound(Exec(AppendSerializer(st, id), events).value)
  {
    if st.clears > 0 { events := Dropped(st, id); } else { events := RunTwice(st, id); }
  }

  /** Registering a serializer is safe in every continuation exactly when it is done in time. */
  lemma TimelyIffSafe(st: Chain, id: Id)
    requires Inv(st)
    ensures Timely(st) <==> forall events | NoRegister(events) && Exec(AppendSerializer(st, id), events).Some?
                                          :: Sound(Exec(AppendSerializer(st, id), events).value)
  {
    if Timely(st) {
      RegisterKeeps(st, id);
      forall events | NoRegister(events) && Exec(AppendSerializer(st, id), events).Some?
        ensures Sound(Exec(AppendSerializer(st, id), events).value)
      {
        ExecKeeps(AppendSerializer(st, id), events);
      }
    } else {
      var events := LateRegistration(st, id);
    }
  }

  // ---------- a late registration that is served ----------

  /** Everything was run, reported and called. */
  ghost predicate Over(st: Chain) {
    Inv(st) && Quiet(st) && st.toCall == []
  }

  /** How far the chain has come with a serializer registered late. */
  datatype Phase = Looking | Running | Reporting | Clearing | Served

  ghost predicate In(p: Phase, st: Chain, id: Id, now: Chain) {
    && now.processingFinished && now.registered == st.registered + [id]
    && now.checks == (if p.Looking? || p.Reporting? then 1 else 0) && now.clears == (if p.Clearing? then 1 else 0)
    && now.serializers == (if p.Served? then [] else [id])
    && now.completions == (if p.Reporting? || p.Clearing? then [id] else [])
    && now.running == (if p.Running? then [id] else [])
    && now.started == (if p.Looking? then st.started else st.started + [id])
    && now.reported == (if p.Looking? || p.Running? then st.reported else st.reported + [id])
    && if p.Served? then now.called + now.toCall == st.called + [id] else now.called == st.called && now.toCall == []
  }

  ghost predicate Serving(st: Chain, id: Id, now: Chain) {
    exists p: Phase :: In(p, st, id, now)
  }

  lemma ServingStarts(st: Chain, id: Id)
    requires Over(st)
    ensures Serving(st, id, AppendSerializer(st, id))
  {
    assert In(Looking, st, id, AppendSerializer(st, id));
  }

  /** Each event keeps the phase or is the step to the next one. */
  lemma PhaseStep(p: Phase, st: Chain, id: Id, now: Chain, e: Event) returns (p': Phase)
    requires In(p, st, id, now) && Enabled(now, e)
    requires !e.Register? && !e.DoFinish? && !e.ScheduledFinish?
    ensures In(p', st, id, Apply(now, e))
  {
    match e
    case DoCheck => p' := if p.Looking? then Running else Clearing;
    case DoReport(k) => p' := Reporting; assert now.running[..k] + now.running[k + 1..] == [];
    case DoClear => p' := Served; assert now.called + (now.toCall + [id]) == st.called + [id];
    case DoCall => p' := Served; assert now.called + [now.toCall[0]] + now.toCall[1..] == now.called + now.toCall;
    case _ => p' := p;
  }

  lemma ServingStep(st: Chain, id: Id, now: Chain, e: Event)
    requires Serving(st, id, now) && Enabled(now, e)
    requires !e.Register? && !e.DoFinish? && !e.ScheduledFinish?
    ensures Serving(st, id, Apply(now, e))
  {
    hide In, Apply;
    var p :| In(p, st, id, now);
    var p' := PhaseStep(p, st, id, now, e);
  }

  predicate NobodyEnds(events: seq<Event>) {
    forall n | 0 <= n < |events| :: !events[n].Register? && !events[n].DoFinish? && !events[n].ScheduledFinish?
  }

  /**
   A serializer registered when everything was over runs once, and its completion is called once, as long as nobody
   finishes the request again.
   */
  lemma {:induction false} LateServed(st: Chain, id: Id, events: seq<Event>)
    requires Over(st) && NobodyEnds(events) && Exec(AppendSerializer(st, id), events).Some?
    ensures Serving(st, id, Exec(AppendSerializer(st, id), events).value)
    ensures var now := Exec(AppendSerializer(st, id), events).value;
            && (now.started == st.started || now.started == st.started + [id])
            && (AtRest(now.(finishes := 0)) ==> now.called == st.called + [id])
  {
    hide Serving, Over;
    if events == [] {
      ServingStarts(st, id);
    } else {
      var before := events[..|events| - 1];
      assert forall n | 0 <= n < |before| :: before[n] == events[n];
      LateServed(st, id, before);
      ServingStep(st, id, Exec(AppendSerializer(st, id), before).value, events[|before|]);
    }
    ServedAtRest(st, id, Exec(AppendSerializer(st, id), events).value);
  }

  lemma ServedAtRest(st: Chain, id: Id, now: Chain)
    requires Over(st) && Serving(st, id, now)
    ensures now.started == st.started || now.started == st.started + [id]
    ensures AtRest(now.(finishes := 0)) ==> now.called == st.called + [id]
  {
    var p :| In(p, st, id, now);
    if AtRest(now.(finishes := 0)) { assert now.called + [] == now.called; }
  }

  /** A registration has the request resumed: at once, or by a job it schedules, unless it was cancelled. */
  lemma RegistrationResumes(st: Chain, id: Id)
    ensures var st' := AppendSerializer(st, id);
            st'.state.Resumed? || st'.state.Cancelled? || st'.resumes == st.resumes + 1
    ensures st.resumes > 0 ==>
            var st' := Apply(st, ScheduledResume(true));
            st'.resumes == st.resumes - 1
            && st'.state == if st.state.Initialized? || st.state.Suspended? then Resumed else st.state
  {
  }

  // ---------- the object ----------

  /** The request. What the dispatch queues and the serializers still owe, and the history, are ghost. */
  class Request {
    var state: RequestState
    var responseSerializers: seq<Id>
    var responseSerializerCompletions: seq<Id>
    var responseSerializerProcessingFinished: bool
    var isFinishing: bool
    ghost var checks: nat
    ghost var clears: nat
    ghost var resumes: nat
    ghost var finishes: nat
    ghost var running: seq<Id>
    ghost var toCall: seq<Id>
    ghost var registered: seq<Id>
    ghost var started: seq<Id>
    ghost var reported: seq<Id>
    ghost var called: seq<Id>

    ghost function S(): Chain
      reads this
    {
      Chain(state, responseSerializers, responseSerializerCompletions, responseSerializerProcessingFinished,
            isFinishing, checks, clears, resumes, finishes, running, toCall, registered, started, reported, called)
    }

    /** All registrations so far were timely, and the chain is in order. */
    ghost predicate Valid()
      reads this
    {
      Inv(S())
    }

    constructor ()
      ensures Valid() && S() == FRESH
    {
      state := Initialized;
      responseSerializers, responseSerializerCompletions := [], [];
      responseSerializerProcessingFinished, isFinishing := false, false;
      checks, clears, resumes, finishes, running, toCall := 0, 0, 0, 0, [], [];
      registered, started, reported, called := [], [], [], [];
    }

    method Finish()
      modifies this
      ensures S() == StartFinishing(old(S())) && (old(Valid()) ==> Valid())
    {
      hide Inv;
      KeepsIfKept(S(), DoFinish);
      if isFinishing { return; }
      isFinishing := true;
      checks := checks + 1;
    }

    method AppendResponseSerializer(id: Id)
      modifies this
      ensures S() == AppendSerializer(old(S()), id) && (old(Valid() && Timely(S())) ==> Valid())
    {
      hide Inv;
      KeepsIfKept(S(), Register(id));
      responseSerializers := responseSerializers + [id];
      registered := registered + [id];
      if state == Finished { state := Resumed; }
      if responseSerializerProcessingFinished { checks := checks + 1; }
      if CanTransition(state, Resumed) { resumes := resumes + 1; }
    }

    method NextResponseSerializer() returns (serializer: Option<Id>)
      ensures serializer.Some? <==> |responseSerializerCompletions| < |responseSerializers|
      ensures serializer.Some? ==> serializer.value == responseSerializers[|responseSerializerCompletions|]
    {
      serializer := None;
      var index := |responseSerializerCompletions|;
      if index < |responseSerializers| { serializer := Some(responseSerializers[index]); }
    }

    /** processNextResponseSerializer up to its second locked section */
    method ProcessNextResponseSerializer()
      requires checks > 0
      modifies this
      ensures S() == Check(old(S())) && (old(Valid()) ==> Valid())
    {
      hide Inv;
      KeepsIfKept(S(), DoCheck);
      checks := checks - 1;
      var serializer := NextResponseSerializer();
      if serializer.None? {
        clears := clears + 1;
      } else {
        running, started := running + [serializer.value], started + [serializer.value];
      }
    }

    method TakeCompletions() returns (completions: seq<Id>)
      requires clears > 0
      modifies this
      ensures S() == Clear(old(S())) && (old(Valid()) ==> Valid())
      ensures completions == old(responseSerializerCompletions) && toCall == old(toCall) + completions
    {
      hide Inv;
      KeepsIfKept(S(), DoClear);
      completions := ClearSection();
    }

    /** The locked section itself */
    method ClearSection() returns (completions: seq<Id>)
      requires clears > 0
      modifies this
      ensures S() == Clear(old(S()))
      ensures completions == old(responseSerializerCompletions) && toCall == old(toCall) + completions
    {
      completions := responseSerializerCompletions;
      ResetLists();
      isFinishing := false;
      clears, toCall := clears - 1, toCall + completions;
      MoveTo(Finished);
    }

    method ResetLists()
      modifies this
      ensures S() == old(S()).(serializers := [], completions := [], processingFinished := true)
    {
      responseSerializers, responseSerializerCompletions := [], [];
      responseSerializerProcessingFinished := true;
    }

    /** The guarded assignment of every section that changes the state */
    method MoveTo(to: RequestState)
      modifies this`state
      ensures S() == To(old(S()), to)
    {
      if CanTransition(state, to) { state := to; }
    }

    ghost method CallCompletion()
      requires toCall != []
      modifies this
      ensures S() == Call(old(S())) && (old(Valid()) ==> Valid())
    {
      hide Inv;
      KeepsIfKept(S(), DoCall);
      toCall, called := toCall[1..], called + [toCall[0]];
    }

    /** The calls of the completions taken, in their order. */
    method CallCompletions(completions: seq<Id>)
      requires toCall == completions
      modifies this
      ensures S() == old(S()).(toCall := [], called := old(called) + completions) && (old(Valid()) ==> Valid())
    {
      hide Inv;
      ghost var st := S();
      for k := 0 to |completions|
        invariant S() == st.(toCall := completions[k..], called := st.called + completions[..k])
        invariant old(Valid()) ==> Valid()
      {
        CallCompletion();
      }
      assert completions[..|completions|] == completions;
    }

    method ResponseSerializerDidComplete(completion: Id, ghost k: nat)
      requires k < |running| && running[k] == completion
      modifies this
      ensures S() == Report(old(S()), k) && (old(Valid()) ==> Valid())
    {
      hide Inv;
      KeepsIfKept(S(), DoReport(k));
      responseSerializerCompletions := responseSerializerCompletions + [completion];
      running, reported := running[..k] + running[k + 1..], reported + [completion];
      checks := checks + 1;
    }

    method DoCancel(liveTask: bool)
      modifies this
      ensures S() == CancelNow(old(S()), liveTask) && (old(Valid()) ==> Valid())
      ensures state == if old(state).Finished? then Finished else Cancelled
      ensures finishes == old(finishes) + (if Ends(old(state), Cancel(liveTask)) then 1 else 0)
    {
      hide Inv;
      KeepsIfKept(S(), Cancel(liveTask));
      if !CanTransition(state, Cancelled) { return; }
      state := Cancelled;
      if !liveTask { finishes := finishes + 1; }
    }

    method DoSuspend()
      modifies this
      ensures S() == To(old(S()), Suspended) && (old(Valid()) ==> Valid())
      ensures state == StateAfter(old(state), Suspend)
    {
      hide Inv;
      KeepsIfKept(S(), Suspend);
      if !CanTransition(state, Suspended) { return; }
      state := Suspended;
    }

    method DoResume()
      modifies this
      ensures S() == To(old(S()), Resumed) && (old(Valid()) ==> Valid())
      ensures state == StateAfter(old(state), Resume)
    {
      hide Inv;
      KeepsIfKept(S(), Resume);
      if !CanTransition(state, Resumed) { return; }
      state := Resumed;
    }

    /** The job a registration scheduled. */
    method RunScheduledResume(startImmediately: bool)
      requires resumes > 0
      modifies this
      ensures S() == Apply(old(S()), ScheduledResume(startImmediately)) && (old(Valid()) ==> Valid())
    {
      hide Inv;
      KeepsIfKept(S(), ScheduledResume(startImmediately));
      resumes := resumes - 1;
      if startImmediately { DoResume(); }
    }

    /** The job a cancellation without a live task scheduled. */
    method RunScheduledFinish()
      requires finishes > 0
      modifies this
      ensures S() == Apply(old(S()), ScheduledFinish) && (old(Valid()) ==> Valid())
    {
      hide Inv;
      KeepsIfKept(S(), ScheduledFinish);
      finishes := finishes - 1;
      Finish();
    }
  }

  lemma KeepsIfKept(st: Chain, e: Event)
    requires Enabled(st, e)
    ensures Inv(st) && (e.Register? ==> Timely(st)) ==> Inv(Apply(st, e))
  {
    if Inv(st) && (e.Register? ==> Timely(st)) { StepKeeps(st, e); }
  }
}
