/**
 Alamofire's DataStreamRequest as a whole: the chain of response serializers and the counter of executing streams.

 responseStream first adds its handler under the lock of the streams, and then registers its completion with the
 chain. When the chain calls that completion it takes the lock of the streams again, and is released or held back.
 Every other step is one of the chain or of the streams alone.
 */
module StreamChain {
  import opened Wire
  import C = RequestChain
  import S = StreamCompletion

  type Id = nat

  /** `between` are the completions whose handler was added and which are not registered yet. */
  datatype Joint = Joint(chain: C.Chain, stream: S.State, between: seq<Id>)

  const START: Joint := Joint(C.FRESH, S.INITIAL, [])

  datatype Event =
    | AddHandler(h: S.Handler, id: Id) | Register(k: nat) | CallNext
    | ChainStep(chainEvent: C.Event) | StreamStep(streamEvent: S.Event)

  predicate Enabled(j: Joint, e: Event) {
    match e
    case AddHandler(_, _) => true
    case Register(k) => k < |j.between|
    case CallNext => j.chain.toCall != [] && j.chain.toCall[0] in j.stream.completions
    case ChainStep(ce) => !ce.Register? && !ce.DoCall? && C.Enabled(j.chain, ce)
    case StreamStep(se) => !se.Stream? && !se.Completion? && S.Enabled(j.stream, se)
  }

  function Apply(j: Joint, e: Event): Joint
    requires Enabled(j, e)
  {
    match e
    case AddHandler(h, id) => j.(stream := S.AddStream(j.stream, h, id), between := j.between + [id])
    case Register(k) =>
      j.(chain := C.AppendSerializer(j.chain, j.between[k]), between := j.between[..k] + j.between[k + 1..])
    case CallNext => j.(chain := C.Call(j.chain), stream := S.Complete(j.stream, j.chain.toCall[0]))
    case ChainStep(ce) => j.(chain := C.Apply(j.chain, ce))
    case StreamStep(se) => j.(stream := S.Apply(j.stream, se))
  }

  /** The state after a run, if every event in it was enabled when it came. */
  function Exec(events: seq<Event>): Option<Joint> {
    if events == [] then Some(START)
    else
      match Exec(events[..|events| - 1])
      case None => None
      case Some(j) => var e := events[|events| - 1]; if Enabled(j, e) then Some(Apply(j, e)) else None
  }

  /** Every registration comes while the chain still takes it (RequestChain.TimelyIffSafe). */
  ghost predicate AllTimely(events: seq<Event>)
    requires Exec(events).Some?
    decreases |events|
  {
    events == [] ||
    (var before := events[..|events| - 1];
     AllTimely(before) && (events[|events| - 1].Register? ==> C.Timely(Exec(before).value.chain)))
  }

  /** What the chain calls is what the streams complete, and nothing else was handed in. */
  predicate Linked(j: Joint) {
    && j.stream.submitted == j.chain.called
    && multiset(j.stream.completions) == multiset(j.chain.registered) + multiset(j.between)
  }

  ghost predicate Inv(j: Joint) {
    C.Inv(j.chain) && S.Inv(j.stream) && Linked(j)
  }

  // ---------- every step keeps both invariants and the link ----------

  lemma TakeOut(s: seq<Id>, k: nat)
    requires k < |s|
    ensures multiset(s) == multiset(s[..k] + s[k + 1..]) + multiset{s[k]}
  {
    assert s == s[..k] + [s[k]] + s[k + 1..];
  }

  lemma RegisterLinked(j: Joint, k: nat)
    requires Linked(j) && k < |j.between|
    ensures Linked(Apply(j, Register(k)))
  {
    TakeOut(j.between, k);
    var id := j.between[k];
    assert multiset(j.chain.registered + [id]) == multiset(j.chain.registered) + multiset{id};
  }

  /** The history of registrations and calls changes by registrations and calls alone. */
  lemma ChainSilent(st: C.Chain, e: C.Event)
    requires C.Enabled(st, e) && !e.Register? && !e.DoCall?
    ensures C.Apply(st, e).registered == st.registered && C.Apply(st, e).called == st.called
  {
  }

  lemma StreamSilent(st: S.State, e: S.Event)
    requires S.Enabled(st, e) && !e.Stream? && !e.Completion?
    ensures S.Apply(st, e).completions == st.completions && S.Apply(st, e).submitted == st.submitted
  {
  }

  lemma StepKeeps(j: Joint, e: Event)
    requires Inv(j) && Enabled(j, e) && (e.Register? ==> C.Timely(j.chain))
    ensures Inv(Apply(j, e))
  {
    hide C.Inv, S.Inv;
    match e
    case AddHandler(h, id) =>
      S.StepKeeps(j.stream, S.Stream(h, id));
      assert multiset(j.stream.completions + [id]) == multiset(j.stream.completions) + multiset{id};
      assert multiset(j.between + [id]) == multiset(j.between) + multiset{id};
    case Register(k) =>
      C.RegisterKeeps(j.chain, j.between[k]);
      RegisterLinked(j, k);
    case CallNext =>
      C.CallKeeps(j.chain);
      S.CompleteKeeps(j.stream, j.chain.toCall[0]);
    case ChainStep(ce) =>
      C.StepKeeps(j.chain, ce);
      ChainSilent(j.chain, ce);
    case StreamStep(se) =>
      S.StepKeeps(j.stream, se);
      StreamSilent(j.stream, se);
  }

  lemma StartHolds()
    ensures Inv(START)
  {
  }

  /** Over every run with timely registrations both invariants hold, and what the chain calls is what is completed. */
  lemma {:induction false} Safety(events: seq<Event>)
    requires Exec(events).Some? && AllTimely(events)
    ensures Inv(Exec(events).value)
  {
    hide Inv;
    StartHolds();
    if events != [] {
      var before := events[..|events| - 1];
      Safety(before);
      StepKeeps(Exec(before).value, events[|events| - 1]);
    }
  }

  // ---------- once, in time and without loss ----------

  lemma CalledFromRegistered(st: C.Chain)
    requires C.Inv(st)
    ensures st.called <= st.registered && multiset(st.called) + multiset(st.toCall) <= multiset(st.registered)
    ensures st.processingFinished ==> st.called + st.toCall == st.registered == st.reported
    ensures !st.processingFinished ==> st.called == st.toCall == []
  {
    if st.processingFinished { assert multiset(st.called + st.toCall) == multiset(st.called) + multiset(st.toCall); }
  }

  /** The chain never calls what the streams do not know: the condition on `CallNext` is no restriction. */
  lemma CallsKnown(events: seq<Event>)
    requires Exec(events).Some? && AllTimely(events)
    ensures var j := Exec(events).value; j.chain.toCall != [] ==> Enabled(j, CallNext)
  {
    Safety(events);
    var j := Exec(events).value;
    CalledFromRegistered(j.chain);
    if j.chain.toCall != [] {
      assert j.chain.toCall[0] in multiset(j.chain.toCall);
      assert j.chain.toCall[0] in multiset(j.stream.completions);
    }
  }

  /**
   Each completion is held back, on its way or released at most as often as it was handed in, and the chain decides
   which: a completion handed in once is released at most once.
   */
  lemma ReleasedAtMostOnce(events: seq<Event>, id: Id)
    requires Exec(events).Some? && AllTimely(events)
    ensures var j := Exec(events).value;
            && multiset(j.stream.enqueued)[id] + S.Flatten(j.stream.releasing)[id] + multiset(j.stream.released)[id]
               == multiset(j.chain.called)[id] <= multiset(j.stream.completions)[id]
            && (multiset(j.stream.completions)[id] == 1 ==> multiset(j.stream.released)[id] <= 1)
  {
    Safety(events);
    var j := Exec(events).value;
    CalledFromRegistered(j.chain);
    assert S.Places(j.stream)[id] == multiset(j.stream.submitted)[id];
  }

  /** No stream completion reaches its queue before every serializer of the request has reported. */
  lemma ReleasedAfterReports(events: seq<Event>)
    requires Exec(events).Some? && AllTimely(events)
    ensures var j := Exec(events).value; j.stream.released != [] ==> j.chain.reported == j.chain.registered
  {
    Safety(events);
    var j := Exec(events).value;
    CalledFromRegistered(j.chain);
    if j.stream.released != [] {
      assert j.stream.released[0] in S.Places(j.stream);
      assert j.chain.called != [];
    }
  }

  /** Nothing is due: the chain has finished, every handler has returned, and every batch has run. */
  predicate Quiet(j: Joint) {
    && j.between == [] && j.chain.processingFinished && j.chain.toCall == []
    && j.stream.outstanding == multiset{} && j.stream.releasing == []
  }

  /** Once nothing is due, every completion handed in was released, each as often as it was handed in. */
  lemma NothingLost(events: seq<Event>)
    requires Exec(events).Some? && AllTimely(events) && Quiet(Exec(events).value)
    ensures var j := Exec(events).value; multiset(j.stream.released) == multiset(j.stream.completions)
  {
    Safety(events);
    var j := Exec(events).value;
    CalledFromRegistered(j.chain);
    assert j.chain.called == j.chain.registered;
    assert j.stream.enqueued == [];
  }
}
