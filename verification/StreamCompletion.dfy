/** How a DataStreamRequest holds back its completions: a counter of handler runs under way, and the
    completion events that arrive while it is positive (Request.swift, ResponseSerialization.swift). */
module StreamCompletion {
  import opened Basics

  type Data = seq<byte>

  /** Where a handler run is: in the block of received data, with the serializer, with its result on
      the underlying queue, or on the queue of its handler. */
  datatype Stage = Batched | Serializing | Parsed | Queued

  datatype Run = Run(stream: nat, data: Data, stage: Stage)

  /** A completion event let go, and how many runs were under way when that was decided. */
  datatype Release = Release(stream: nat, underWay: nat)

  datatype State = State(
    usesSerializer: seq<bool>,
    numberOfExecutingStreams: int,
    enqueuedCompletionEvents: seq<nat>,
    runs: seq<Run>,
    handled: seq<Run>,
    waiting: set<nat>,
    scheduled: seq<seq<nat>>,
    completions: seq<nat>,
    releases: seq<Release>)

  // ---- The steps -------------------------------------------------------------------------------------

  function Batch(n: nat, data: Data): (runs: seq<Run>)
    ensures |runs| == n
  {
    seq(n, k requires 0 <= k < n => Run(k, data, Batched))
  }

  function Releases(streams: seq<nat>, underWay: nat): (rs: seq<Release>)
    ensures |rs| == |streams|
  {
    seq(|streams|, k requires 0 <= k < |streams| => Release(streams[k], underWay))
  }

  /** Another handler; its completion event is to come. */
  function AppendStream(s: State, usesSerializer: bool): State {
    s.(usesSerializer := s.usesSerializer + [usesSerializer], waiting := s.waiting + {|s.usesSerializer|})
  }

  /** Data: one run of every handler there is. */
  function DidReceive(s: State, data: Data): State {
    s.(numberOfExecutingStreams := s.numberOfExecutingStreams + |s.usesSerializer|,
       runs := s.runs + Batch(|s.usesSerializer|, data))
  }

  function NextStage(usesSerializer: bool, stage: Stage): Stage {
    match stage
    case Batched => if usesSerializer then Serializing else Queued
    case Serializing => Parsed
    case Parsed => Queued
    case Queued => Queued
  }

  function Advance(s: State, k: nat): State
    requires k < |s.runs| && s.runs[k].stream < |s.usesSerializer|
  {
    var run := s.runs[k];
    s.(runs := s.runs[k := run.(stage := NextStage(s.usesSerializer[run.stream], run.stage))])
  }

  /** A handler has returned: the counter goes down, and at zero the deferred events are let go. */
  function HandlerReturns(s: State, k: nat): State
    requires k < |s.runs|
  {
    var runs, n := s.runs[..k] + s.runs[k + 1..], s.numberOfExecutingStreams - 1;
    var next := s.(runs := runs, handled := s.handled + [s.runs[k]], numberOfExecutingStreams := n);
    if n != 0 || s.enqueuedCompletionEvents == [] then next
    else
      next.(scheduled := s.scheduled + [s.enqueuedCompletionEvents], enqueuedCompletionEvents := [],
            releases := s.releases + Releases(s.enqueuedCompletionEvents, |runs|))
  }

  /** The completion event of a handler: let go at once, or deferred. */
  function CompletionArrives(s: State, stream: nat): State {
    var next := s.(waiting := s.waiting - {stream});
    if s.numberOfExecutingStreams != 0 then
      next.(enqueuedCompletionEvents := s.enqueuedCompletionEvents + [stream])
    else
      next.(completions := s.completions + [stream], releases := s.releases + Releases([stream], |s.runs|))
  }

  function BlockRuns(s: State): State
    requires s.scheduled != []
  {
    s.(scheduled := s.scheduled[1..], completions := s.completions + s.scheduled[0])
  }

  datatype Event =
    | StreamAppended(usesSerializer: bool)
    | DataReceived(data: Data)
    | RunAdvances(k: nat)
    | HandlerReturned(k: nat)
    | CompletionArrived(stream: nat)
    | BlockRan

  predicate Enabled(s: State, e: Event) {
    match e
    case StreamAppended(_) => true
    case DataReceived(_) => true
    case RunAdvances(k) => k < |s.runs| && s.runs[k].stream < |s.usesSerializer| && s.runs[k].stage != Queued
    case HandlerReturned(k) => k < |s.runs| && s.runs[k].stage == Queued
    case CompletionArrived(stream) => stream in s.waiting
    case BlockRan => s.scheduled != []
  }

  function Step(s: State, e: Event): State
    requires Enabled(s, e)
  {
    match e
    case StreamAppended(usesSerializer) => AppendStream(s, usesSerializer)
    case DataReceived(data) => DidReceive(s, data)
    case RunAdvances(k) => Advance(s, k)
    case HandlerReturned(k) => HandlerReturns(s, k)
    case CompletionArrived(stream) => CompletionArrives(s, stream)
    case BlockRan => BlockRuns(s)
  }

  const INITIAL: State := State([], 0, [], [], [], {}, [], [], [])

  ghost predicate IsRun(states: seq<State>, events: seq<Event>) {
    && |states| == |events| + 1 && states[0] == INITIAL
    && forall k: nat :: k < |events| ==> Enabled(states[k], events[k]) && states[k + 1] == Step(states[k], events[k])
  }

  // ---- The counter -------------------------------------------------------------------------------------

  /** The counter is the number of runs under way; events are deferred only while it is positive;
      and every event was let go when no run was under way. */
  ghost predicate Counted(s: State) {
    && s.numberOfExecutingStreams == |s.runs|
    && (forall k: nat :: k < |s.runs| ==> s.runs[k].stream < |s.usesSerializer|)
    && (s.enqueuedCompletionEvents != [] ==> s.numberOfExecutingStreams > 0)
    && (forall k: nat :: k < |s.releases| ==> s.releases[k].underWay == 0)
  }

  lemma StepKeepsCount(s: State, e: Event)
    requires Counted(s) && Enabled(s, e)
    ensures Counted(Step(s, e))
  {}

  // ---- Where a completion event is -----------------------------------------------------------------------

  function Occurrences(streams: seq<nat>, stream: nat): nat {
    multiset(streams)[stream]
  }

  function ReleaseCount(releases: seq<Release>, stream: nat): nat {
    if releases == [] then 0
    else ReleaseCount(releases[..|releases| - 1], stream) + (if releases[|releases| - 1].stream == stream then 1 else 0)
  }

  function ScheduledCount(blocks: seq<seq<nat>>, stream: nat): nat {
    if blocks == [] then 0 else Occurrences(blocks[0], stream) + ScheduledCount(blocks[1..], stream)
  }

  /** In how many places the completion event of a handler is: still to come, deferred, or let go. */
  function Places(s: State, stream: nat): nat {
    (if stream in s.waiting then 1 else 0) + Occurrences(s.enqueuedCompletionEvents, stream)
      + ReleaseCount(s.releases, stream)
  }

  /** Each handler's event is in one place, and what was let go is on its way to the handler or there. */
  ghost predicate Conserved(s: State) {
    forall stream: nat :: ConservedAt(s, stream)
  }

  ghost predicate ConservedAt(s: State, stream: nat) {
    && Places(s, stream) == (if stream < |s.usesSerializer| then 1 else 0)
    && ScheduledCount(s.scheduled, stream) + Occurrences(s.completions, stream) == ReleaseCount(s.releases, stream)
  }

  lemma {:induction false} ReleasesCount(releases: seq<Release>, streams: seq<nat>, underWay: nat, stream: nat)
    ensures ReleaseCount(releases + Releases(streams, underWay), stream)
         == ReleaseCount(releases, stream) + Occurrences(streams, stream)
    decreases |streams|
  {
    var all := releases + Releases(streams, underWay);
    if streams == [] {
      assert all == releases;
    } else {
      var init, last := streams[..|streams| - 1], streams[|streams| - 1];
      assert streams == init + [last];
      assert all[..|all| - 1] == releases + Releases(init, underWay);
      ReleasesCount(releases, init, underWay, stream);
    }
  }

  lemma {:induction false} ScheduledCountAppend(blocks: seq<seq<nat>>, block: seq<nat>, stream: nat)
    ensures ScheduledCount(blocks + [block], stream) == ScheduledCount(blocks, stream) + Occurrences(block, stream)
  {
    if blocks == [] {
      assert blocks + [block] == [block];
    } else {
      assert (blocks + [block])[1..] == blocks[1..] + [block];
      ScheduledCountAppend(blocks[1..], block, stream);
    }
  }

  lemma ReturnPlaces(s: State, k: nat, stream: nat)
    requires ConservedAt(s, stream) && k < |s.runs|
    ensures ConservedAt(HandlerReturns(s, k), stream)
  {
    ReleasesCount(s.releases, s.enqueuedCompletionEvents, |s.runs| - 1, stream);
    ScheduledCountAppend(s.scheduled, s.enqueuedCompletionEvents, stream);
    AppendedCount([], 0, stream);
    hide ReleaseCount, ScheduledCount, Releases, Occurrences;
  }

  lemma AppendedCount(streams: seq<nat>, last: nat, stream: nat)
    ensures Occurrences(streams + [last], stream) == Occurrences(streams, stream) + Occurrences([last], stream)
    ensures Occurrences([last], stream) == if stream == last then 1 else 0
    ensures Occurrences([], stream) == 0
  {}

  lemma ArrivalPlaces(s: State, arrived: nat, stream: nat)
    requires ConservedAt(s, stream) && arrived in s.waiting
    ensures ConservedAt(CompletionArrives(s, arrived), stream)
  {
    hide ReleaseCount, ScheduledCount, Releases, Occurrences;
    if s.numberOfExecutingStreams != 0 {
      AppendedCount(s.enqueuedCompletionEvents, arrived, stream);
    } else {
      AppendedCount(s.completions, arrived, stream);
      ReleasesCount(s.releases, [arrived], |s.runs|, stream);
    }
  }

  lemma AppendPlaces(s: State, usesSerializer: bool, stream: nat)
    requires ConservedAt(s, stream)
    ensures ConservedAt(AppendStream(s, usesSerializer), stream)
  {
    hide ReleaseCount, ScheduledCount;
  }

  lemma StepPlaces(s: State, e: Event, stream: nat)
    requires ConservedAt(s, stream) && Enabled(s, e)
    ensures ConservedAt(Step(s, e), stream)
  {
    match e {
      case HandlerReturned(k) =>
        hide ConservedAt;
        ReturnPlaces(s, k, stream);
      case CompletionArrived(arrived) =>
        hide ConservedAt;
        ArrivalPlaces(s, arrived, stream);
      case StreamAppended(usesSerializer) =>
        hide ConservedAt;
        AppendPlaces(s, usesSerializer, stream);
      case DataReceived(_) =>
      case RunAdvances(_) =>
      case BlockRan =>
    }
  }

  lemma StepConserves(s: State, e: Event)
    requires Conserved(s) && Enabled(s, e)
    ensures Conserved(Step(s, e))
  {
    hide Step;
    forall stream: nat
      ensures ConservedAt(Step(s, e), stream)
    {
      assert ConservedAt(s, stream);
      StepPlaces(s, e, stream);
    }
  }

  // ---- All runs --------------------------------------------------------------------------------------------

  lemma {:induction false} RunInvariant(states: seq<State>, events: seq<Event>, k: nat)
    requires IsRun(states, events) && k < |states|
    ensures Counted(states[k]) && Conserved(states[k])
  {
    if k > 0 {
      RunInvariant(states, events, k - 1);
      StepKeepsCount(states[k - 1], events[k - 1]);
      StepConserves(states[k - 1], events[k - 1]);
    }
  }

  /** Over every interleaving: the counter is the number of runs that have not reported back, events
      are deferred only while it is positive, and each event is let go at most once, when no run is
      under way. */
  lemma CompletionsWait(states: seq<State>, events: seq<Event>, k: nat, stream: nat)
    requires IsRun(states, events) && k < |states|
    ensures Counted(states[k]) && ReleaseCount(states[k].releases, stream) <= 1
    ensures states[k].enqueuedCompletionEvents != [] ==> states[k].runs != []
  {
    RunInvariant(states, events, k);
    assert ConservedAt(states[k], stream);
  }

  /** Once every event has arrived and nothing is under way any more, every handler has been given
      its completion, once. */
  lemma EveryHandlerCompletes(states: seq<State>, events: seq<Event>, k: nat, stream: nat)
    requires IsRun(states, events) && k < |states| && stream < |states[k].usesSerializer|
    requires states[k].waiting == {} && states[k].runs == [] && states[k].scheduled == []
    ensures Occurrences(states[k].completions, stream) == 1
  {
    RunInvariant(states, events, k);
    assert ConservedAt(states[k], stream);
  }

  // ---- Which handler sees what ---------------------------------------------------------------------------

  /** The data in a sequence of runs that is for one handler. */
  function Of(runs: seq<Run>, stream: nat): seq<Data> {
    if runs == [] then []
    else (if runs[0].stream == stream then [runs[0].data] else []) + Of(runs[1..], stream)
  }

  /** How many handlers were appended, and the data received once `stream` was among them. */
  function Appended(events: seq<Event>): nat {
    if events == [] then 0
    else
      var last := |events| - 1;
      Appended(events[..last]) + if events[last].StreamAppended? then 1 else 0
  }

  function Received(events: seq<Event>, stream: nat): seq<Data> {
    if events == [] then []
    else
      var last := |events| - 1;
      Received(events[..last], stream)
      + if events[last].DataReceived? && stream < Appended(events[..last]) then [events[last].data] else []
  }

  lemma {:induction false} OfBoth(a: seq<Run>, b: seq<Run>, stream: nat)
    ensures Of(a + b, stream) == Of(a, stream) + Of(b, stream)
  {
    hide *;
    OfFirst(a, stream);
    OfFirst(a + b, stream);
    if a == [] {
      assert a + b == b && [] + Of(b, stream) == Of(b, stream);
    } else {
      assert (a + b)[1..] == a[1..] + b;
      OfBoth(a[1..], b, stream);
      var first: seq<Data> := if a[0].stream == stream then [a[0].data] else [];
      assert first + (Of(a[1..], stream) + Of(b, stream)) == first + Of(a[1..], stream) + Of(b, stream);
    }
  }

  lemma OfFirst(runs: seq<Run>, stream: nat)
    ensures Of(runs, stream)
         == if runs == [] then []
            else (if runs[0].stream == stream then [runs[0].data] else []) + Of(runs[1..], stream)
  {}

  lemma OfOne(run: Run, stream: nat)
    ensures Of([run], stream) == if run.stream == stream then [run.data] else []
  {}

  lemma {:induction false} BatchOf(n: nat, data: Data, stream: nat)
    ensures Of(Batch(n, data), stream) == if stream < n then [data] else []
  {
    if n > 0 {
      BatchOf(n - 1, data, stream);
      assert Batch(n, data) == Batch(n - 1, data) + [Run(n - 1, data, Batched)];
      OfBoth(Batch(n - 1, data), [Run(n - 1, data, Batched)], stream);
      OfOne(Run(n - 1, data, Batched), stream);
    }
  }

  /** A run and what stands around it. */
  lemma OfSplit(runs: seq<Run>, k: nat, stream: nat)
    requires k < |runs|
    ensures Of(runs, stream)
         == Of(runs[..k], stream) + (if runs[k].stream == stream then [runs[k].data] else [])
            + Of(runs[k + 1..], stream)
    ensures Of(runs[..k] + runs[k + 1..], stream) == Of(runs[..k], stream) + Of(runs[k + 1..], stream)
  {
    assert runs == runs[..k] + ([runs[k]] + runs[k + 1..]);
    hide Of;
    OfBoth(runs[..k], [runs[k]] + runs[k + 1..], stream);
    OfBoth([runs[k]], runs[k + 1..], stream);
    OfBoth(runs[..k], runs[k + 1..], stream);
    OfOne(runs[k], stream);
  }

  /** A run moves on with the data it has. */
  lemma OfAdvanced(runs: seq<Run>, k: nat, stage: Stage, stream: nat)
    requires k < |runs|
    ensures Of(runs[k := runs[k].(stage := stage)], stream) == Of(runs, stream)
  {
    var next := runs[k := runs[k].(stage := stage)];
    assert next[..k] == runs[..k] && next[k + 1..] == runs[k + 1..];
    OfSplit(runs, k, stream);
    OfSplit(next, k, stream);
    hide Of;
  }

  lemma StepAppends(s: State, e: Event)
    requires Enabled(s, e)
    ensures |Step(s, e).usesSerializer| == |s.usesSerializer| + if e.StreamAppended? then 1 else 0
  {}

  /** What a step does to the data of a handler: new data is under way, and a run that returns has its
      data handled. */
  lemma StepData(s: State, e: Event, stream: nat)
    requires Enabled(s, e)
    ensures var t := Step(s, e);
            && (e.DataReceived? ==>
                  && Of(t.runs, stream) == Of(s.runs, stream) + (if stream < |s.usesSerializer| then [e.data] else [])
                  && Of(t.handled, stream) == Of(s.handled, stream))
            && (e.HandlerReturned? ==>
                  var run := s.runs[e.k];
                  && Of(t.runs, stream) == Of(s.runs[..e.k], stream) + Of(s.runs[e.k + 1..], stream)
                  && Of(t.handled, stream)
                     == Of(s.handled, stream) + if run.stream == stream then [run.data] else [])
            && (!e.DataReceived? && !e.HandlerReturned? ==>
                  Of(t.runs, stream) == Of(s.runs, stream) && Of(t.handled, stream) == Of(s.handled, stream))
  {
    hide Of, Batch, Releases;
    match e {
      case DataReceived(data) =>
        OfBoth(s.runs, Batch(|s.usesSerializer|, data), stream);
        BatchOf(|s.usesSerializer|, data, stream);
      case RunAdvances(k) =>
        OfAdvanced(s.runs, k, NextStage(s.usesSerializer[s.runs[k].stream], s.runs[k].stage), stream);
      case HandlerReturned(k) =>
        OfSplit(s.runs, k, stream);
        OfBoth(s.handled, [s.runs[k]], stream);
        OfOne(s.runs[k], stream);
      case _ =>
    }
  }

  /** The events of a run, one by one. */
  lemma ReceivedStep(events: seq<Event>, k: nat, stream: nat)
    requires k < |events|
    ensures Appended(events[..k + 1]) == Appended(events[..k]) + if events[k].StreamAppended? then 1 else 0
    ensures Received(events[..k + 1], stream)
         == Received(events[..k], stream)
            + if events[k].DataReceived? && stream < Appended(events[..k]) then [events[k].data] else []
  {
    assert events[..k + 1][..k] == events[..k];
  }

  lemma RunStep(states: seq<State>, events: seq<Event>, k: nat)
    requires IsRun(states, events) && k < |events|
    ensures |states| == |events| + 1 && Enabled(states[k], events[k])
    ensures states[k + 1] == Step(states[k], events[k])
  {
    hide Step, Enabled;
  }

  lemma RunStart(states: seq<State>, events: seq<Event>, stream: nat)
    requires IsRun(states, events)
    ensures |states| == |events| + 1 && states[0].usesSerializer == [] && states[0].runs == []
    ensures Of(states[0].runs, stream) == Of(states[0].handled, stream) == [] == Received(events[..0], stream)
    ensures Appended(events[..0]) == 0
  {
    hide Step, Enabled;
  }

  /** In every state of every run, what a handler has handled and what is under way for it is the data
      received since it was appended, each piece as often as it was received. */
  lemma {:induction false} DataReachesHandlers(states: seq<State>, events: seq<Event>, k: nat, stream: nat)
    requires IsRun(states, events) && k < |states|
    ensures |states[k].usesSerializer| == Appended(events[..k])
    ensures multiset(Of(states[k].handled, stream)) + multiset(Of(states[k].runs, stream))
         == multiset(Received(events[..k], stream))
    decreases k
  {
    hide *;
    RunStart(states, events, stream);
    if k > 0 {
      var s, e := states[k - 1], events[k - 1];
      RunStep(states, events, k - 1);
      DataReachesHandlers(states, events, k - 1, stream);
      ReceivedStep(events, k - 1, stream);
      StepAppends(s, e);
      StepData(s, e, stream);
      if e.HandlerReturned? {
        ReturningRun(s, e);
        OfSplit(s.runs, e.k, stream);
        Handed(Of(s.handled, stream), Of(s.runs[..e.k], stream),
               if s.runs[e.k].stream == stream then [s.runs[e.k].data] else [], Of(s.runs[e.k + 1..], stream));
      }
    }
  }

  lemma Handed<T>(handled: seq<T>, a: seq<T>, b: seq<T>, c: seq<T>)
    ensures multiset(handled) + multiset(a + b + c) == multiset(handled + b) + multiset(a + c)
  {}

  lemma ReturningRun(s: State, e: Event)
    requires Enabled(s, e) && e.HandlerReturned?
    ensures e.k < |s.runs| && s.runs[e.k].stage == Queued
  {}

  /** When it is all over, every handler has handled every piece of data received since it was appended,
      as often as it was received, and been given its completion once. */
  lemma EveryHandlerServed(states: seq<State>, events: seq<Event>, stream: nat)
    requires IsRun(states, events) && stream < Appended(events)
    requires var last := states[|events|]; last.waiting == {} && last.runs == [] && last.scheduled == []
    ensures var last := states[|events|];
            && multiset(Of(last.handled, stream)) == multiset(Received(events, stream))
            && Occurrences(last.completions, stream) == 1
  {
    assert events[..|events|] == events;
    DataReachesHandlers(states, events, |events|, stream);
    hide Step, Enabled, Received, Appended;
    EveryHandlerCompletes(states, events, |events|, stream);
  }

  // ---- In which order --------------------------------------------------------------------------------------

  /** A run takes its turn: no earlier run of its handler is at the same stage. */
  predicate TakesTurn(s: State, k: nat)
    requires k < |s.runs|
  {
    forall i: nat :: i < k ==> !(s.runs[i].stream == s.runs[k].stream && s.runs[i].stage == s.runs[k].stage)
  }

  /** The queues are serial: what enters a queue first leaves it first. */
  ghost predicate Serial(states: seq<State>, events: seq<Event>)
    requires |states| == |events| + 1
  {
    forall k: nat :: k < |events| ==>
      && (events[k].RunAdvances? ==> events[k].k < |states[k].runs| && TakesTurn(states[k], events[k].k))
      && (events[k].HandlerReturned? ==> events[k].k < |states[k].runs| && TakesTurn(states[k], events[k].k))
  }

  function Rank(stage: Stage): nat {
    match stage
    case Batched => 0
    case Serializing => 1
    case Parsed => 2
    case Queued => 3
  }

  /** Earlier runs of a handler are as far as later ones; only those with a serializer pass through it. */
  predicate InLine(s: State) {
    && (forall i: nat :: i < |s.runs| ==>
          s.runs[i].stream < |s.usesSerializer|
          && (s.usesSerializer[s.runs[i].stream] || s.runs[i].stage == Batched || s.runs[i].stage == Queued))
    && (forall i: nat, j: nat :: i < j < |s.runs| && s.runs[i].stream == s.runs[j].stream ==>
          Rank(s.runs[i].stage) >= Rank(s.runs[j].stage))
  }

  lemma StepInLine(s: State, e: Event)
    requires Enabled(s, e) && InLine(s)
    requires e.RunAdvances? ==> TakesTurn(s, e.k)
    ensures InLine(Step(s, e))
  {
    hide InLine, Advance, HandlerReturns, DidReceive, TakesTurn;
    match e {
      case RunAdvances(k) => AdvanceInLine(s, k);
      case HandlerReturned(k) => ReturnInLine(s, k);
      case DataReceived(data) => ReceiveInLine(s, data);
      case StreamAppended(usesSerializer) => AppendInLine(s, usesSerializer);
      case CompletionArrived(_) => SameInLine(s, Step(s, e));
      case BlockRan => SameInLine(s, Step(s, e));
    }
  }

  lemma SameInLine(s: State, t: State)
    requires InLine(s) && t.runs == s.runs && t.usesSerializer == s.usesSerializer
    ensures InLine(t)
  {}

  lemma AppendInLine(s: State, usesSerializer: bool)
    requires InLine(s)
    ensures InLine(AppendStream(s, usesSerializer))
  {}

  lemma ReturnInLine(s: State, k: nat)
    requires InLine(s) && k < |s.runs|
    ensures InLine(HandlerReturns(s, k))
  {
    var t := HandlerReturns(s, k);
    assert t.usesSerializer == s.usesSerializer && t.runs == s.runs[..k] + s.runs[k + 1..];
    hide HandlerReturns, Rank;
    assert forall i: nat :: i < |t.runs| ==> t.runs[i] == s.runs[if i < k then i else i + 1];
  }

  lemma ReceiveInLine(s: State, data: Data)
    requires InLine(s)
    ensures InLine(DidReceive(s, data))
  {
    var n, t := |s.runs|, DidReceive(s, data);
    assert forall i: nat :: i < n ==> t.runs[i] == s.runs[i];
    assert forall i: nat :: n <= i < |t.runs| ==> t.runs[i] == Run(i - n, data, Batched);
    hide Batch;
  }

  lemma AdvanceInLine(s: State, k: nat)
    requires Enabled(s, RunAdvances(k)) && InLine(s) && TakesTurn(s, k)
    ensures InLine(Advance(s, k))
  {}

  /** A run that returns in its turn is the first of its handler. */
  lemma {:induction false} FirstReturns(s: State, k: nat, n: nat)
    requires InLine(s) && n <= k < |s.runs| && s.runs[k].stage == Queued && TakesTurn(s, k)
    ensures Of(s.runs[..n], s.runs[k].stream) == []
  {
    if n > 0 {
      FirstReturns(s, k, n - 1);
      assert s.runs[..n] == s.runs[..n - 1] + [s.runs[n - 1]];
      OfBoth(s.runs[..n - 1], [s.runs[n - 1]], s.runs[k].stream);
      assert Rank(s.runs[n - 1].stage) < 3 || s.runs[n - 1].stage == Queued;
    }
  }

  /** How many queues a run has left behind: the serializer's and the underlying one only count when
      there is a serializer. */
  function Behind(usesSerializer: bool, stage: Stage): Option<nat> {
    match stage
    case Batched => Some(0)
    case Serializing => if usesSerializer then Some(1) else None
    case Parsed => if usesSerializer then Some(2) else None
    case Queued => Some(if usesSerializer then 3 else 1)
  }

  /** A run passes through every queue on its way, skipping none, and no other run moves. */
  lemma AdvancesByOne(s: State, k: nat, i: nat)
    requires Enabled(s, RunAdvances(k)) && InLine(s) && i < |s.runs|
    ensures var t, uses := Step(s, RunAdvances(k)), s.usesSerializer[s.runs[i].stream];
            && |t.runs| == |s.runs| && t.runs[i].stream == s.runs[i].stream && t.runs[i].data == s.runs[i].data
            && Behind(uses, s.runs[i].stage).Some? && Behind(uses, t.runs[i].stage).Some?
            && Behind(uses, t.runs[i].stage).value
               == Behind(uses, s.runs[i].stage).value + if i == k then 1 else 0
  {}

  lemma SerialAt(states: seq<State>, events: seq<Event>, k: nat)
    requires IsRun(states, events) && Serial(states, events) && k < |events|
    ensures events[k].RunAdvances? || events[k].HandlerReturned? ==>
              events[k].k < |states[k].runs| && TakesTurn(states[k], events[k].k)
  {
    hide Step, Enabled, TakesTurn;
  }

  lemma StartInLine(states: seq<State>, events: seq<Event>)
    requires IsRun(states, events)
    ensures InLine(states[0])
  {
    hide Step, Enabled;
  }

  /** When the queues are serial, every handler handles its data in the order in which it was
      received. */
  lemma {:induction false} DataInOrder(states: seq<State>, events: seq<Event>, k: nat, stream: nat)
    requires IsRun(states, events) && Serial(states, events) && k < |states|
    ensures InLine(states[k])
    ensures Of(states[k].handled, stream) + Of(states[k].runs, stream) == Received(events[..k], stream)
    decreases k
  {
    hide *;
    RunStart(states, events, stream);
    StartInLine(states, events);
    if k > 0 {
      var s, e := states[k - 1], events[k - 1];
      RunStep(states, events, k - 1);
      SerialAt(states, events, k - 1);
      DataInOrder(states, events, k - 1, stream);
      DataReachesHandlers(states, events, k - 1, stream);
      ReceivedStep(events, k - 1, stream);
      StepInLine(s, e);
      StepData(s, e, stream);
      if e.HandlerReturned? {
        ReturningRun(s, e);
        OfSplit(s.runs, e.k, stream);
        FirstReturns(s, e.k, e.k);
      }
    }
  }

  // ---- Is the completion the last thing a handler sees? -------------------------------------------------

  /** In no state of the run is a handler at work, or about to be, once an event was let go. */
  ghost predicate CompletionsLast(states: seq<State>) {
    forall k: nat :: k < |states| ==> states[k].releases == [] || states[k].runs == []
  }

  /** No data arrives once an event was let go. */
  ghost predicate NoDataAfterRelease(states: seq<State>, events: seq<Event>)
    requires |states| == |events| + 1
  {
    forall k: nat :: k < |events| && events[k].DataReceived? ==> states[k].releases == []
  }

  lemma StepKeepsLast(s: State, e: Event)
    requires Counted(s) && Enabled(s, e) && (s.releases == [] || s.runs == [])
    requires e.DataReceived? ==> s.releases == []
    ensures Step(s, e).releases == [] || Step(s, e).runs == []
  {}

  /** Something is let go only by handlers there are. */
  lemma ReleaseHasStream(states: seq<State>, events: seq<Event>, k: nat)
    requires IsRun(states, events) && k < |states| && states[k].releases != []
    ensures states[k].usesSerializer != []
  {
    RunInvariant(states, events, k);
    var s := states[k];
    var stream := s.releases[|s.releases| - 1].stream;
    assert ConservedAt(s, stream);
  }

  /** The completion is the last thing that handlers see, in the whole run, if and only if no data
      arrives once an event was let go. */
  lemma {:induction false} CompletionsLastExactly(states: seq<State>, events: seq<Event>)
    requires IsRun(states, events)
    ensures CompletionsLast(states) <==> NoDataAfterRelease(states, events)
  {
    if NoDataAfterRelease(states, events) {
      forall k: nat | k < |states|
        ensures states[k].releases == [] || states[k].runs == []
      {
        LastUpTo(states, events, k);
      }
    }
    if CompletionsLast(states) {
      forall k: nat | k < |events| && events[k].DataReceived?
        ensures states[k].releases == []
      {
        assert states[k + 1] == DidReceive(states[k], events[k].data);
        assert states[k + 1].releases == [] || states[k + 1].runs == [];
        if states[k].releases != [] {
          ReleaseHasStream(states, events, k);
          assert false;
        }
      }
    }
  }

  lemma {:induction false} LastUpTo(states: seq<State>, events: seq<Event>, k: nat)
    requires IsRun(states, events) && k < |states| && NoDataAfterRelease(states, events)
    ensures states[k].releases == [] || states[k].runs == []
  {
    if k > 0 {
      LastUpTo(states, events, k - 1);
      RunInvariant(states, events, k - 1);
      StepKeepsLast(states[k - 1], events[k - 1]);
    }
  }

  /** All data comes before the first completion event. */
  predicate DataFirst(events: seq<Event>) {
    forall j: nat, k: nat :: j < k < |events| && events[j].CompletionArrived? ==> !events[k].DataReceived?
  }

  /** An event that is on its way to a handler, deferred or let go has arrived. */
  lemma {:induction false} OnlyAfterArrival(states: seq<State>, events: seq<Event>, k: nat)
    requires IsRun(states, events) && k < |states|
    requires forall j: nat :: j < k ==> !events[j].CompletionArrived?
    ensures states[k].releases == [] && states[k].enqueuedCompletionEvents == []
    ensures states[k].scheduled == [] && states[k].completions == []
  {
    if k > 0 {
      OnlyAfterArrival(states, events, k - 1);
    }
  }

  /** When all data comes before the first completion event, then at the moment a handler is given its
      completion, and from the moment it is let go, no handler run is under way or to come. */
  lemma DataFirstCompletesLast(states: seq<State>, events: seq<Event>, k: nat)
    requires IsRun(states, events) && DataFirst(events) && k < |states|
    ensures CompletionsLast(states)
    ensures states[k].completions != [] || states[k].scheduled != [] ==> states[k].runs == []
  {
    forall j: nat | j < |events| && events[j].DataReceived?
      ensures states[j].releases == []
    {
      OnlyAfterArrival(states, events, j);
    }
    CompletionsLastExactly(states, events);
    SomethingReleased(states, events, k);
    assert states[k].releases == [] || states[k].runs == [];
  }

  lemma {:induction false} SomethingReleased(states: seq<State>, events: seq<Event>, k: nat)
    requires IsRun(states, events) && k < |states|
    ensures states[k].completions != [] || states[k].scheduled != [] ==> states[k].releases != []
  {
    if k > 0 {
      SomethingReleased(states, events, k - 1);
    }
  }

  /** A run in which data arrives between the decision to let an event go and the block that carries it
      out. */
  function LateEvent(k: nat): Event {
    match k
    case 0 => StreamAppended(false)
    case 1 => DataReceived([])
    case 2 => CompletionArrived(0)
    case 3 => RunAdvances(0)
    case 4 => HandlerReturned(0)
    case 5 => DataReceived([])
    case _ => BlockRan
  }

  function LateState(k: nat): State {
    var waiting := State([false], 0, [], [], [], {0}, [], [], []);
    var one, queued := [Run(0, [], Batched)], [Run(0, [], Queued)];
    match k
    case 0 => INITIAL
    case 1 => waiting
    case 2 => waiting.(runs := one, numberOfExecutingStreams := 1)
    case 3 => State([false], 1, [0], one, [], {}, [], [], [])
    case 4 => State([false], 1, [0], queued, [], {}, [], [], [])
    case 5 => State([false], 0, [], [], queued, {}, [[0]], [], [Release(0, 0)])
    case 6 => State([false], 1, [], one, queued, {}, [[0]], [], [Release(0, 0)])
    case _ => State([false], 1, [], one, queued, {}, [], [0], [Release(0, 0)])
  }

  lemma LateStart(k: nat)
    requires k < 3
    ensures Enabled(LateState(k), LateEvent(k)) && LateState(k + 1) == Step(LateState(k), LateEvent(k))
  {
    assert Batch(1, []) == [Run(0, [], Batched)] && {0} - {0} == {} && {} + {0} == {0};
    hide Batch, Releases;
  }

  lemma LateMiddle(k: nat)
    requires 3 <= k < 5
    ensures Enabled(LateState(k), LateEvent(k)) && LateState(k + 1) == Step(LateState(k), LateEvent(k))
  {
    assert Releases([0], 0) == [Release(0, 0)];
    hide Batch, Releases;
  }

  lemma LateEnd(k: nat)
    requires 5 <= k < 7
    ensures Enabled(LateState(k), LateEvent(k)) && LateState(k + 1) == Step(LateState(k), LateEvent(k))
  {
    assert Batch(1, []) == [Run(0, [], Batched)];
    hide Batch, Releases;
  }

  /** Otherwise it need not be: such data is handled after the completion. */
  lemma LateData() returns (states: seq<State>, events: seq<Event>)
    ensures IsRun(states, events)
    ensures var last := states[|states| - 1]; last.completions == [0] && last.runs != []
  {
    assert LateState(0) == INITIAL && LateState(7).completions == [0] && LateState(7).runs != [];
    hide LateState, LateEvent, Step, Enabled;
    events := seq(7, k requires 0 <= k < 7 => LateEvent(k));
    states := seq(8, k requires 0 <= k < 8 => LateState(k));
    forall k: nat | k < 7
      ensures Enabled(LateState(k), LateEvent(k)) && LateState(k + 1) == Step(LateState(k), LateEvent(k))
    {
      if k < 3 { LateStart(k); } else if k < 5 { LateMiddle(k); } else { LateEnd(k); }
    }
  }
}
