/**
 Alamofire's DataStreamRequest: completions wait until every stream handler has seen every chunk received.

 The lock protects the handlers, a counter of executing streams and the completions held back. What the queues still
 owe (handler invocations, batches of completions on their way) is part of the state.
 */
module StreamCompletion {
  import opened Wire

  type Handler = nat

  /** A stream completion. */
  type Id = nat

  // ---------- the state ----------

  /** One handler at work on one chunk, by its number. */
  datatype Invocation = Invocation(chunk: nat, handler: Handler)

  /**
   `completions` are those handed to the serializer chain and `submitted` the calls the chain has made of them;
   `received` lists, chunk by chunk, the handlers there were when the chunk came.
   */
  datatype State = State(
    streams: seq<Handler>, numberOfExecutingStreams: int, enqueued: seq<Id>, completions: seq<Id>,
    outstanding: multiset<Invocation>, releasing: seq<seq<Id>>, released: seq<Id>,
    handled: multiset<Invocation>, received: seq<seq<Handler>>, submitted: seq<Id>)

  const INITIAL: State := State([], 0, [], [], multiset{}, [], [], multiset{}, [], [])

  function Invocations(chunk: nat, handlers: seq<Handler>): (r: multiset<Invocation>)
    ensures |r| == |handlers|
  {
    if handlers == [] then multiset{}
    else Invocations(chunk, handlers[..|handlers| - 1]) + multiset{Invocation(chunk, handlers[|handlers| - 1])}
  }

  /** Every handler on every chunk received so far. */
  function AllWork(received: seq<seq<Handler>>): multiset<Invocation> {
    if received == [] then multiset{}
    else AllWork(received[..|received| - 1]) + Invocations(|received| - 1, received[|received| - 1])
  }

  function Flatten(batches: seq<seq<Id>>): multiset<Id> {
    if batches == [] then multiset{} else multiset(batches[0]) + Flatten(batches[1..])
  }

  // ---------- the locked sections ----------

  /** responseStream: a handler, and its completion for the serializer chain */
  function AddStream(st: State, h: Handler, c: Id): State {
    st.(streams := st.streams + [h], completions := st.completions + [c])
  }

  /** didReceive */
  function Receive(st: State): State {
    st.(numberOfExecutingStreams := st.numberOfExecutingStreams + |st.streams|,
        outstanding := st.outstanding + Invocations(|st.received|, st.streams),
        received := st.received + [st.streams])
  }

  /** A handler returns: updateAndCompleteIfPossible. */
  function Update(st: State, i: Invocation): State {
    var n := st.numberOfExecutingStreams - 1;
    var st' := st.(numberOfExecutingStreams := n, outstanding := st.outstanding - multiset{i},
                   handled := st.handled + multiset{i});
    if n == 0 && st.enqueued != [] then st'.(releasing := st.releasing + [st.enqueued], enqueued := []) else st'
  }

  /** The completion that appendStreamCompletion hands to the serializer chain is called. */
  function Complete(st: State, c: Id): State {
    var st' := st.(submitted := st.submitted + [c]);
    if st.numberOfExecutingStreams == 0 then st'.(released := st.released + [c])
    else st'.(enqueued := st.enqueued + [c])
  }

  /** The underlying queue runs the oldest batch. */
  function Release(st: State): State
    requires st.releasing != []
  {
    st.(releasing := st.releasing[1..], released := st.released + st.releasing[0])
  }

  datatype Event = Stream(h: Handler, c: Id) | Data | Handled(i: Invocation) | Completion(c: Id) | Batch

  predicate Enabled(st: State, e: Event) {
    match e
    case Handled(i) => i in st.outstanding
    case Completion(c) => c in st.completions
    case Batch => st.releasing != []
    case _ => true
  }

  function Apply(st: State, e: Event): State
    requires Enabled(st, e)
  {
    match e
    case Stream(h, c) => AddStream(st, h, c)
    case Data => Receive(st)
    case Handled(i) => Update(st, i)
    case Completion(c) => Complete(st, c)
    case Batch => Release(st)
  }

  /** The state after a run from `st`, if every event in it was enabled when it came. */
  function Exec(st: State, events: seq<Event>): Option<State> {
    if events == [] then Some(st)
    else
      match Exec(st, events[..|events| - 1])
      case None => None
      case Some(st') => var e := events[|events| - 1]; if Enabled(st', e) then Some(Apply(st', e)) else None
  }

  // ---------- the invariant ----------

  /** Where completions are. */
  function Places(st: State): multiset<Id> {
    multiset(st.enqueued) + Flatten(st.releasing) + multiset(st.released)
  }

  ghost predicate Inv(st: State) {
    && st.numberOfExecutingStreams == |st.outstanding|
    && (st.enqueued != [] ==> st.numberOfExecutingStreams > 0)
    && st.outstanding + st.handled == AllWork(st.received)
    && (forall i :: 0 <= i < |st.releasing| ==> st.releasing[i] != [])
    && Places(st) == multiset(st.submitted)
  }

  lemma {:induction false} FlattenAppend(batches: seq<seq<Id>>, b: seq<Id>)
    ensures Flatten(batches + [b]) == Flatten(batches) + multiset(b)
  {
    if batches == [] {
      assert batches + [b] == [b];
    } else {
      assert (batches + [b])[1..] == batches[1..] + [b];
      FlattenAppend(batches[1..], b);
    }
  }

  lemma ReceiveKeeps(st: State)
    requires Inv(st)
    ensures Inv(Receive(st))
  {
    assert (st.received + [st.streams])[..|st.received|] == st.received;
  }

  lemma MoveOne(from: multiset<Invocation>, to: multiset<Invocation>, i: Invocation)
    requires i in from
    ensures from - multiset{i} + (to + multiset{i}) == from + to && |from - multiset{i}| == |from| - 1
  {
    assert from == from - multiset{i} + multiset{i};
  }

  lemma Regroup(a: multiset<Id>, b: multiset<Id>, c: multiset<Id>)
    ensures multiset{} + (b + a) + c == a + b + c
  {
  }

  lemma UpdatePlaces(st: State, i: Invocation)
    ensures Places(Update(st, i)) == Places(st)
  {
    FlattenAppend(st.releasing, st.enqueued);
    Regroup(multiset(st.enqueued), Flatten(st.releasing), multiset(st.released));
  }

  lemma UpdateKeeps(st: State, i: Invocation)
    requires Inv(st) && i in st.outstanding
    ensures Inv(Update(st, i))
  {
    MoveOne(st.outstanding, st.handled, i);
    UpdatePlaces(st, i);
  }

  lemma CompleteKeeps(st: State, c: Id)
    requires Inv(st)
    ensures Inv(Complete(st, c))
  {
    assert multiset(st.submitted + [c]) == multiset(st.submitted) + multiset{c};
  }

  lemma ReleaseKeeps(st: State)
    requires Inv(st) && st.releasing != []
    ensures Inv(Release(st))
  {
    assert multiset(st.released + st.releasing[0]) == multiset(st.released) + multiset(st.releasing[0]);
  }

  lemma StepKeeps(st: State, e: Event)
    requires Inv(st) && Enabled(st, e)
    ensures Inv(Apply(st, e))
  {
    match e
    case Completion(c) => CompleteKeeps(st, c);
    case Batch => ReleaseKeeps(st);
    case Data => ReceiveKeeps(st);
    case Handled(i) => UpdateKeeps(st, i);
    case _ =>
  }

  lemma {:induction false} ExecKeeps(st: State, events: seq<Event>)
    requires Inv(st) && Exec(st, events).Some?
    ensures Inv(Exec(st, events).value)
  {
    if events != [] {
      var before := events[..|events| - 1];
      ExecKeeps(st, before);
      StepKeeps(Exec(st, before).value, events[|events| - 1]);
    }
  }

  lemma Safety(events: seq<Event>)
    requires Exec(INITIAL, events).Some?
    ensures Inv(Exec(INITIAL, events).value)
  {
    ExecKeeps(INITIAL, events);
  }

  predicate AllHandled(st: State) {
    st.handled == AllWork(st.received)
  }

  lemma ZeroIffAllHandled(st: State)
    requires Inv(st)
    ensures st.numberOfExecutingStreams == |AllWork(st.received)| - |st.handled|
    ensures st.numberOfExecutingStreams == 0 <==> AllHandled(st)
  {
    assert |st.outstanding + st.handled| == |st.outstanding| + |st.handled|;
    if st.numberOfExecutingStreams == 0 { assert st.outstanding == multiset{}; }
  }

  /** The counter counts exactly the invocations not yet handled, and is zero exactly when all work is done. */
  lemma CounterExact(events: seq<Event>)
    requires Exec(INITIAL, events).Some?
    ensures var st := Exec(INITIAL, events).value;
            && st.numberOfExecutingStreams == |AllWork(st.received)| - |st.handled|
            && (st.numberOfExecutingStreams == 0 <==> AllHandled(st))
  {
    Safety(events);
    ZeroIffAllHandled(Exec(INITIAL, events).value);
  }

  /** The handlers added in a run, in order. */
  function Handlers(events: seq<Event>): seq<Handler> {
    if events == [] then []
    else
      var e := events[|events| - 1];
      Handlers(events[..|events| - 1]) + (if e.Stream? then [e.h] else [])
  }

  /** For each chunk of a run, the handlers added before it came. */
  function Chunks(events: seq<Event>): seq<seq<Handler>> {
    if events == [] then []
    else
      var before := events[..|events| - 1];
      Chunks(before) + (if events[|before|].Data? then [Handlers(before)] else [])
  }

  lemma {:induction false} ReceivedExact(events: seq<Event>)
    requires Exec(INITIAL, events).Some?
    ensures var st := Exec(INITIAL, events).value; st.streams == Handlers(events) && st.received == Chunks(events)
  {
    if events != [] { ReceivedExact(events[..|events| - 1]); }
  }

  lemma {:induction false} InvocationsCount(chunk: nat, handlers: seq<Handler>, i: Invocation)
    ensures Invocations(chunk, handlers)[i] == if i.chunk == chunk then multiset(handlers)[i.handler] else 0
  {
    if handlers != [] {
      var before := handlers[..|handlers| - 1];
      InvocationsCount(chunk, before, i);
      assert handlers == before + [handlers[|before|]];
    }
  }

  lemma {:induction false} AllWorkCount(received: seq<seq<Handler>>, i: Invocation)
    ensures AllWork(received)[i] == if i.chunk < |received| then multiset(received[i.chunk])[i.handler] else 0
  {
    if received != [] {
      AllWorkCount(received[..|received| - 1], i);
      InvocationsCount(|received| - 1, received[|received| - 1], i);
    }
  }

  /** Each chunk is handled, or still to be handled, once by every handler that was added before it came. */
  lemma EachHandlerEachChunk(events: seq<Event>, i: Invocation)
    requires Exec(INITIAL, events).Some?
    ensures var st := Exec(INITIAL, events).value;
            st.outstanding[i] + st.handled[i]
            == if i.chunk < |Chunks(events)| then multiset(Chunks(events)[i.chunk])[i.handler] else 0
  {
    Safety(events);
    ReceivedExact(events);
    AllWorkCount(Chunks(events), i);
    var st := Exec(INITIAL, events).value;
    assert (st.outstanding + st.handled)[i] == AllWork(st.received)[i];
  }

  /** A completion called once is held back, on its way or released: in one place, and once. */
  lemma ReleasedOnce(events: seq<Event>, c: Id)
    requires Exec(INITIAL, events).Some? && multiset(Exec(INITIAL, events).value.submitted)[c] == 1
    ensures var st := Exec(INITIAL, events).value;
            multiset(st.enqueued)[c] + Flatten(st.releasing)[c] + multiset(st.released)[c] == 1
  {
    Safety(events);
    assert Places(Exec(INITIAL, events).value)[c] == 1;
  }

  /**
   Completions keep their order on the way: one held back comes behind the others, all go into one batch, the oldest
   batch is released as it is, and what was released stays.
   */
  lemma StepInOrder(st: State, e: Event)
    requires Enabled(st, e)
    ensures var st' := Apply(st, e);
            && st.released <= st'.released
            && (st.enqueued <= st'.enqueued || (st'.enqueued == [] && st'.releasing == st.releasing + [st.enqueued]))
            && (st.releasing <= st'.releasing
                || (st.releasing == [st.releasing[0]] + st'.releasing && st'.released == st.released + st.releasing[0]))
  {
  }

  /** With every handler finished nothing is held back. */
  lemma NothingHeldBack(events: seq<Event>)
    requires Exec(INITIAL, events).Some? && Exec(INITIAL, events).value.outstanding == multiset{}
    ensures var st := Exec(INITIAL, events).value;
            st.enqueued == [] && (st.releasing == [] ==> multiset(st.released) == multiset(st.submitted))
  {
    Safety(events);
  }

  /** A completion let go of: no longer held back, or never held back. */
  function LetGo(st: State): multiset<Id> {
    Flatten(st.releasing) + multiset(st.released)
  }

  lemma ExecMore(st: State, events: seq<Event>, e: Event)
    ensures Exec(st, events + [e]) == if Exec(st, events).Some? && Enabled(Exec(st, events).value, e)
                                      then Some(Apply(Exec(st, events).value, e)) else None
  {
    assert (events + [e])[..|events|] == events;
  }

  /** Whenever a locked section lets a completion go, every handler has handled every chunk received so far. */
  lemma LetGoWhenAllHandled(events: seq<Event>, e: Event)
    requires Exec(INITIAL, events + [e]).Some?
    ensures Exec(INITIAL, events).Some?
    ensures LetGo(Exec(INITIAL, events + [e]).value) != LetGo(Exec(INITIAL, events).value)
            ==> AllHandled(Exec(INITIAL, events + [e]).value)
  {
    ExecMore(INITIAL, events, e);
    var st := Exec(INITIAL, events).value;
    if e.Handled? { FlattenAppend(st.releasing, st.enqueued); }
    CounterExact(events + [e]);
  }

  // ---------- when a completion reaches its queue ----------

  /** In a run from `st`, completions reached their queues only at moments when all work received was done. */
  ghost predicate Clean(st: State, events: seq<Event>)
    requires Exec(st, events).Some?
    decreases |events|
  {
    events == [] ||
    (var before := events[..|events| - 1];
     && Clean(st, before)
     && (Exec(st, events).value.released != Exec(st, before).value.released ==> AllHandled(Exec(st, events).value)))
  }

  predicate NoData(events: seq<Event>) {
    forall i | 0 <= i < |events| :: !events[i].Data?
  }

  /** No batch is on its way while work is outstanding. */
  predicate Prompt(st: State) {
    st.releasing != [] ==> st.numberOfExecutingStreams == 0
  }

  /** A chunk may come: no batch is on its way, or there is neither a handler nor work outstanding. */
  predicate DataHarmless(st: State) {
    st.releasing == [] || (st.streams == [] && st.numberOfExecutingStreams == 0)
  }

  lemma StepPrompt(st: State, e: Event)
    requires Inv(st) && Prompt(st) && Enabled(st, e) && (e.Data? ==> DataHarmless(st))
    ensures Prompt(Apply(st, e))
    ensures Apply(st, e).released != st.released ==> AllHandled(Apply(st, e))
  {
    StepKeeps(st, e);
    ZeroIffAllHandled(Apply(st, e));
  }

  lemma {:induction false} ExecClean(st: State, events: seq<Event>)
    requires Inv(st) && Prompt(st) && NoData(events) && Exec(st, events).Some?
    ensures Clean(st, events) && Prompt(Exec(st, events).value)
  {
    if events != [] {
      var before := events[..|events| - 1];
      assert NoData(before);
      ExecClean(st, before);
      ExecKeeps(st, before);
      StepPrompt(Exec(st, before).value, events[|events| - 1]);
    }
  }

  /** The run that fails: the batch on its way is released at once. */
  lemma BatchTooEarly(st: State)
    requires Inv(st) && !Prompt(st)
    ensures Exec(st, [Batch]).Some? && !Clean(st, [Batch])
  {
    var none: seq<Event> := [];
    ExecMore(st, none, Batch);
    assert none + [Batch] == [Batch] && [Batch][..0] == none;
    assert |Release(st).released| > |st.released|;
    ReleaseKeeps(st);
    ZeroIffAllHandled(Release(st));
  }

  lemma HarmlessIffPrompt(st: State)
    requires Inv(st)
    ensures Inv(Receive(st)) && (DataHarmless(st) <==> Prompt(Receive(st)))
  {
    ReceiveKeeps(st);
  }

  /**
   A chunk is harmless, in every continuation in which no further one comes, exactly when it comes while no batch is on
   its way, or finds no handler and nothing outstanding.
   */
  lemma DataHarmlessIff(st: State)
    requires Inv(st)
    ensures DataHarmless(st)
            <==> forall events | NoData(events) && Exec(Receive(st), events).Some? :: Clean(Receive(st), events)
  {
    hide Inv, Clean;
    HarmlessIffPrompt(st);
    if DataHarmless(st) {
      forall events | NoData(events) && Exec(Receive(st), events).Some? ensures Clean(Receive(st), events) {
        ExecClean(Receive(st), events);
      }
    } else {
      BatchTooEarly(Receive(st));
      assert NoData([Batch]);
    }
  }

  /** Every chunk of the run came when it was harmless. */
  ghost predicate AllHarmless(events: seq<Event>)
    requires Exec(INITIAL, events).Some?
    decreases |events|
  {
    events == [] ||
    (var before := events[..|events| - 1];
     AllHarmless(before) && (events[|events| - 1].Data? ==> DataHarmless(Exec(INITIAL, before).value)))
  }

  /** Over whole runs with harmless chunks every completion reaches its queue with all work done. */
  lemma {:induction false} HarmlessRunsAreClean(events: seq<Event>)
    requires Exec(INITIAL, events).Some? && AllHarmless(events)
    ensures Clean(INITIAL, events) && Prompt(Exec(INITIAL, events).value)
  {
    if events != [] {
      var before := events[..|events| - 1];
      HarmlessRunsAreClean(before);
      Safety(before);
      StepPrompt(Exec(INITIAL, before).value, events[|events| - 1]);
    }
  }

  /** A handler is at work on the first chunk when the chain calls its completion. */
  function HeldBack(h: Handler, c: Id): State {
    Complete(Receive(AddStream(INITIAL, h, c)), c)
  }

  /** The batch of that completion is on its way when the second chunk comes. */
  function Late(h: Handler, c: Id): State {
    Receive(Update(HeldBack(h, c), Invocation(0, h)))
  }

  lemma FailingStates(h: Handler, c: Id)
    ensures HeldBack(h, c).outstanding == multiset{Invocation(0, h)} && c in AddStream(INITIAL, h, c).completions
    ensures Late(h, c).releasing == [[c]] && Late(h, c).released == [] && Late(h, c).numberOfExecutingStreams == 1
  {
    assert Invocations(0, [h]) == Invocations(0, []) + multiset{Invocation(0, h)} by { assert [h][..0] == []; }
    assert HeldBack(h, c).enqueued == [c];
    assert [] + [[c]] == [[c]];
  }

  /** A run in which a completion reaches its queue although a chunk has not been handled. */
  lemma ReleasedBeforeHandled(h: Handler, c: Id)
    ensures var events := [Stream(h, c), Data, Completion(c), Handled(Invocation(0, h)), Data, Batch];
            && Exec(INITIAL, events).Some?
            && Exec(INITIAL, events).value.released == [c] && !AllHandled(Exec(INITIAL, events).value)
  {
    var i := Invocation(0, h);
    var es := [Stream(h, c), Data, Completion(c), Handled(i), Data, Batch];
    hide Apply, Inv;
    FailingRun(h, c);
    CounterExact(es);
  }

  lemma FailingRun(h: Handler, c: Id)
    ensures var events := [Stream(h, c), Data, Completion(c), Handled(Invocation(0, h)), Data, Batch];
            && Exec(INITIAL, events).Some? && Exec(INITIAL, events).value.released == [c]
            && Exec(INITIAL, events).value.numberOfExecutingStreams == 1
  {
    var i := Invocation(0, h);
    FailingStates(h, c);
    var none: seq<Event> := [];
    ExecMore(INITIAL, none, Stream(h, c));
    assert none + [Stream(h, c)] == [Stream(h, c)];
    ExecMore(INITIAL, [Stream(h, c)], Data);
    assert [Stream(h, c)] + [Data] == [Stream(h, c), Data];
    ExecMore(INITIAL, [Stream(h, c), Data], Completion(c));
    assert [Stream(h, c), Data] + [Completion(c)] == [Stream(h, c), Data, Completion(c)];
    var most := [Stream(h, c), Data, Completion(c)];
    assert Exec(INITIAL, most) == Some(HeldBack(h, c));
    ExecMore(INITIAL, most, Handled(i));
    ExecMore(INITIAL, most + [Handled(i)], Data);
    assert Exec(INITIAL, most + [Handled(i)] + [Data]) == Some(Late(h, c));
    ExecMore(INITIAL, most + [Handled(i)] + [Data], Batch);
    assert most + [Handled(i)] + [Data] + [Batch] == [Stream(h, c), Data, Completion(c), Handled(i), Data, Batch];
    assert Late(h, c).released + [c] == [c];
  }

  // ---------- when data comes before completions ----------

  /** No chunk arrives once a completion was called. */
  predicate DataFirst(events: seq<Event>) {
    forall i, j | 0 <= i < j < |events| :: !(events[i].Completion? && events[j].Data?)
  }

  lemma {:induction false} SubmittedByEvent(events: seq<Event>)
    requires Exec(INITIAL, events).Some? && Exec(INITIAL, events).value.submitted != []
    ensures exists i | 0 <= i < |events| :: events[i].Completion?
  {
    var before := events[..|events| - 1];
    if Exec(INITIAL, before).value.submitted != [] {
      SubmittedByEvent(before);
      var i :| 0 <= i < |before| && before[i].Completion?;
      assert events[i].Completion?;
    } else {
      assert events[|events| - 1].Completion?;
    }
  }

  ghost predicate AfterAll(st: State) {
    st.released != [] || st.releasing != [] ==> st.submitted != [] && st.numberOfExecutingStreams == 0
  }

  lemma SubmittedIfEnqueued(st: State)
    requires Inv(st) && st.enqueued != []
    ensures st.submitted != []
  {
    assert st.enqueued[0] in Places(st);
  }

  lemma StepAfterAll(st: State, e: Event)
    requires Inv(st) && AfterAll(st) && Enabled(st, e) && !(e.Data? && st.submitted != [])
    ensures AfterAll(Apply(st, e))
  {
    if e.Handled? && st.enqueued != [] { SubmittedIfEnqueued(st); }
  }

  lemma {:induction false} DataFirstIsHarmless(events: seq<Event>)
    requires Exec(INITIAL, events).Some? && DataFirst(events)
    ensures AllHarmless(events) && AfterAll(Exec(INITIAL, events).value)
  {
    if events != [] {
      var before, e := events[..|events| - 1], events[|events| - 1];
      assert DataFirst(before);
      DataFirstIsHarmless(before);
      Safety(before);
      if e.Data? && Exec(INITIAL, before).value.submitted != [] {
        SubmittedByEvent(before);
        assert false;
      }
      StepAfterAll(Exec(INITIAL, before).value, e);
    }
  }

  /** Then a completion reaches its queue only after every handler has handled every chunk, then and ever after. */
  lemma ReleasedAfterAllHandled(events: seq<Event>)
    requires Exec(INITIAL, events).Some? && DataFirst(events)
    ensures Clean(INITIAL, events)
    ensures Exec(INITIAL, events).value.released != [] ==> AllHandled(Exec(INITIAL, events).value)
  {
    DataFirstIsHarmless(events);
    HarmlessRunsAreClean(events);
    CounterExact(events);
  }

  // ---------- the object ----------

  /** The streaming request. What the queues owe and what has happened is ghost. */
  class DataStreamRequest {
    var streams: seq<Handler>
    var numberOfExecutingStreams: int
    var enqueuedCompletionEvents: seq<Id>
    ghost var completions: seq<Id>
    ghost var outstanding: multiset<Invocation>
    ghost var releasing: seq<seq<Id>>
    ghost var released: seq<Id>
    ghost var handled: multiset<Invocation>
    ghost var received: seq<seq<Handler>>
    ghost var submitted: seq<Id>

    ghost function S(): State
      reads this
    {
      State(streams, numberOfExecutingStreams, enqueuedCompletionEvents, completions, outstanding, releasing, released,
            handled, received, submitted)
    }

    ghost predicate Valid()
      reads this
    {
      Inv(S())
    }

    constructor ()
      ensures Valid() && S() == INITIAL
    {
      streams, numberOfExecutingStreams, enqueuedCompletionEvents := [], 0, [];
      completions, outstanding, releasing, released := [], multiset{}, [], [];
      handled, received, submitted := multiset{}, [], [];
    }

    /** responseStream: the handler, and its completion for the serializer chain. */
    method ResponseStream(h: Handler, ghost c: Id)
      requires Valid()
      modifies this
      ensures Valid() && S() == AddStream(old(S()), h, c)
    {
      hide Inv;
      StepKeeps(S(), Stream(h, c));
      streams := streams + [h];
      completions := completions + [c];
    }

    method DidReceive()
      requires Valid()
      modifies this
      ensures Valid() && S() == Receive(old(S()))
    {
      hide Inv;
      StepKeeps(S(), Data);
      numberOfExecutingStreams := numberOfExecutingStreams + |streams|;
      outstanding := outstanding + Invocations(|received|, streams);
      received := received + [streams];
    }

    method UpdateAndCompleteIfPossible(ghost i: Invocation)
      requires Valid() && i in outstanding
      modifies this
      ensures Valid() && S() == Update(old(S()), i)
    {
      hide Inv;
      StepKeeps(S(), Handled(i));
      UpdateSection(i);
    }

    method ReleaseEnqueued()
      modifies this`releasing, this`enqueuedCompletionEvents
      ensures S() == old(S()).(releasing := old(S()).releasing + [old(S()).enqueued], enqueued := [])
    {
      var completionEvents := enqueuedCompletionEvents;
      releasing := releasing + [completionEvents];
      enqueuedCompletionEvents := [];
    }

    /** Its locked section */
    method UpdateSection(ghost i: Invocation)
      requires i in outstanding
      modifies this
      ensures S() == Update(old(S()), i)
    {
      numberOfExecutingStreams := numberOfExecutingStreams - 1;
      outstanding, handled := outstanding - multiset{i}, handled + multiset{i};
      if !(numberOfExecutingStreams == 0 && enqueuedCompletionEvents != []) { return; }
      ReleaseEnqueued();
    }

    /** The closure appendStreamCompletion hands to the serializer chain. */
    method StreamDidComplete(c: Id)
      requires Valid() && c in completions
      modifies this
      ensures Valid() && S() == Complete(old(S()), c)
    {
      hide Inv;
      StepKeeps(S(), Completion(c));
      submitted := submitted + [c];
      if numberOfExecutingStreams != 0 {
        enqueuedCompletionEvents := enqueuedCompletionEvents + [c];
        return;
      }
      EnqueueCompletion(c);
    }

    /** enqueueCompletion */
    ghost method EnqueueCompletion(c: Id)
      modifies this`released
      ensures released == old(released) + [c]
    {
      released := released + [c];
    }

    /** The job updateAndCompleteIfPossible queued: it enqueues the completions it captured one by one. */
    method RunBatch(completionEvents: seq<Id>)
      requires Valid() && releasing != [] && releasing[0] == completionEvents
      modifies this
      ensures Valid() && S() == Release(old(S()))
    {
      hide Inv;
      StepKeeps(S(), Batch);
      ghost var before := released;
      releasing := releasing[1..];
      for k := 0 to |completionEvents|
        invariant S() == Release(old(S())).(released := before + completionEvents[..k])
      {
        EnqueueCompletion(completionEvents[k]);
      }
      assert completionEvents[..|completionEvents|] == completionEvents;
    }
  }
}
