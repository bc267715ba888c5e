/** The credential refresh protocol of AuthenticationInterceptor.swift. Requests that arrive while
    a refresh is under way are queued; one refresh may be in flight, and a sliding time window
    bounds how many are started. Each section under the lock is one atomic step; the blocks that
    the handlers dispatch wait in a serial queue; the authenticator answers each refresh later. */
module Refresh {
  import opened Basics

  type Id = nat
  type Credential = int

  datatype RefreshWindow = RefreshWindow(interval: real, maximumAttempts: int)

  datatype AuthenticationError = MissingCredential | ExcessiveRefresh | RefreshFailed(code: int)

  /** What a completion handler is called with. */
  datatype Answer =
    | Adapted(credential: Credential)
    | AdaptFailed(error: AuthenticationError)
    | Retry
    | DoNotRetry
    | DoNotRetryWithError(error: AuthenticationError)

  datatype Answered = Answered(id: Id, answer: Answer)

  /** A dispatched block, with the queued requests that it still has to see to. */
  datatype Block =
    | Released(adapts: seq<Id>, retries: seq<Id>)
    | Refused(adapts: seq<Id>, retries: seq<Id>, error: AuthenticationError)

  /** The state under the lock, and what is on its way: the refreshes the authenticator has not
      answered, the dispatched blocks, the retries between reading the credential and taking the
      lock, the answers decided but not delivered, and those delivered. */
  datatype State = State(
    credential: Option<Credential>,
    isRefreshing: bool,
    timestamps: seq<real>,
    window: Option<RefreshWindow>,
    adapts: seq<Id>,
    retries: seq<Id>,
    outstanding: seq<Credential>,
    blocks: seq<Block>,
    checked: map<Id, Credential>,
    inHand: map<Id, Answer>,
    answers: seq<Answered>,
    submitted: set<Id>,
    clock: real)

  // ---- The steps -------------------------------------------------------------------------------

  /** The number of refreshes started at or after `low`. */
  function CountFrom(timestamps: seq<real>, low: real): nat {
    if timestamps == [] then 0
    else CountFrom(timestamps[..|timestamps| - 1], low) + (if low <= timestamps[|timestamps| - 1] then 1 else 0)
  }

  predicate IsRefreshExcessive(s: State, now: real) {
    s.window.Some? && CountFrom(s.timestamps, now - s.window.value.interval) >= s.window.value.maximumAttempts
  }

  /** Empties the queues into a block and ends the refresh. */
  function Dispatch(s: State, b: Block): State {
    s.(adapts := [], retries := [], isRefreshing := false, blocks := s.blocks + [b])
  }

  /** Starts a refresh, unless too many were started; the clock reads `now` for the check and
      `stamp` for the timestamp. */
  function StartRefresh(s: State, c: Credential, now: real, stamp: real): State {
    if IsRefreshExcessive(s, now) then
      Dispatch(s.(clock := stamp), Refused(s.adapts, s.retries, ExcessiveRefresh))
    else
      s.(timestamps := s.timestamps + [stamp], isRefreshing := true, outstanding := s.outstanding + [c], clock := stamp)
  }

  function Decide(s: State, id: Id, answer: Answer): State {
    s.(inHand := s.inHand[id := answer])
  }

  function Adapt(s: State, id: Id, requiresRefresh: bool, now: real, stamp: real): State {
    if s.isRefreshing then s.(adapts := s.adapts + [id])
    else if s.credential.None? then Decide(s, id, AdaptFailed(MissingCredential))
    else if requiresRefresh then StartRefresh(s.(adapts := s.adapts + [id]), s.credential.value, now, stamp)
    else Decide(s, id, Adapted(s.credential.value))
  }

  /** The part of a retry in front of the lock: the request is given up, retried at once, or found
      to have failed with the credential it reads. */
  function CheckRetry(s: State, id: Id, hasResponse: bool, isAuthenticationError: bool, isCurrent: bool): State {
    if !hasResponse || !isAuthenticationError then Decide(s, id, DoNotRetry)
    else if s.credential.None? then Decide(s, id, DoNotRetryWithError(MissingCredential))
    else if !isCurrent then Decide(s, id, Retry)
    else s.(checked := s.checked[id := s.credential.value])
  }

  function QueueRetry(s: State, id: Id, now: real, stamp: real): State
    requires id in s.checked
  {
    var queued := s.(checked := s.checked - {id}, retries := s.retries + [id]);
    if s.isRefreshing then queued else StartRefresh(queued, s.checked[id], now, stamp)
  }

  datatype RefreshResult = NewCredential(credential: Credential) | NoCredential(error: AuthenticationError)

  function CompleteRefresh(s: State, result: RefreshResult): State
    requires s.outstanding != []
  {
    var answered := s.(outstanding := s.outstanding[1..]);
    match result
    case NewCredential(c) => Dispatch(answered.(credential := Some(c)), Released(s.adapts, s.retries))
    case NoCredential(e) => Dispatch(answered, Refused(s.adapts, s.retries, e))
  }

  function Reply(s: State, id: Id, answer: Answer): State {
    s.(answers := s.answers + [Answered(id, answer)])
  }

  /** The next request of the block at the head of the serial queue. */
  function RunBlock(s: State, requiresRefresh: bool, now: real, stamp: real): State
    requires s.blocks != []
  {
    var b, others := s.blocks[0], s.blocks[1..];
    if b.adapts != [] then
      var rest := s.(blocks := [b.(adapts := b.adapts[1..])] + others);
      match b
      case Released(_, _) => Adapt(rest, b.adapts[0], requiresRefresh, now, stamp)
      case Refused(_, _, error) => Reply(rest, b.adapts[0], AdaptFailed(error))
    else if b.retries != [] then
      var rest := s.(blocks := [b.(retries := b.retries[1..])] + others);
      Reply(rest, b.retries[0], if b.Released? then Retry else DoNotRetryWithError(b.error))
    else
      s.(blocks := others)
  }

  function Deliver(s: State, id: Id): State
    requires id in s.inHand
  {
    Reply(s.(inHand := s.inHand - {id}), id, s.inHand[id])
  }

  // ---- Runs --------------------------------------------------------------------------------------

  datatype Event =
    | SubmitAdapt(id: Id, requiresRefresh: bool, now: real, stamp: real)
    | SubmitRetry(id: Id, hasResponse: bool, isAuthenticationError: bool, isCurrent: bool)
    | LockRetry(id: Id, now: real, stamp: real)
    | RefreshAnswered(result: RefreshResult)
    | BlockRuns(requiresRefresh: bool, now: real, stamp: real)
    | AnswerDelivered(id: Id)
    | CredentialSet(credential: Option<Credential>)

  /** The clock does not run backwards, new requests are new, and only what is there can go on. */
  predicate Enabled(s: State, e: Event) {
    match e
    case SubmitAdapt(id, _, now, stamp) => id !in s.submitted && s.clock <= now <= stamp
    case SubmitRetry(id, _, _, _) => id !in s.submitted
    case LockRetry(id, now, stamp) => id in s.checked && s.clock <= now <= stamp
    case RefreshAnswered(_) => s.outstanding != []
    case BlockRuns(_, now, stamp) => s.blocks != [] && s.clock <= now <= stamp
    case AnswerDelivered(id) => id in s.inHand
    case CredentialSet(_) => true
  }

  function Step(s: State, e: Event): State
    requires Enabled(s, e)
  {
    match e
    case SubmitAdapt(id, requiresRefresh, now, stamp) =>
      Adapt(s.(submitted := s.submitted + {id}), id, requiresRefresh, now, stamp)
    case SubmitRetry(id, hasResponse, isAuthenticationError, isCurrent) =>
      CheckRetry(s.(submitted := s.submitted + {id}), id, hasResponse, isAuthenticationError, isCurrent)
    case LockRetry(id, now, stamp) => QueueRetry(s, id, now, stamp)
    case RefreshAnswered(result) => CompleteRefresh(s, result)
    case BlockRuns(requiresRefresh, now, stamp) => RunBlock(s, requiresRefresh, now, stamp)
    case AnswerDelivered(id) => Deliver(s, id)
    case CredentialSet(c) => s.(credential := c)
  }

  function Initial(credential: Option<Credential>, window: Option<RefreshWindow>, clock: real): State {
    State(credential, false, [], window, [], [], [], [], map[], map[], [], {}, clock)
  }

  /** The states of a run, from an initial state on. */
  ghost predicate IsRun(states: seq<State>, events: seq<Event>) {
    && |states| == |events| + 1
    && states[0] == Initial(states[0].credential, states[0].window, states[0].clock)
    && forall k: nat :: k < |events| ==> Enabled(states[k], events[k]) && states[k + 1] == Step(states[k], events[k])
  }

  // ---- Where a request is -------------------------------------------------------------------------

  function Occurrences(ids: seq<Id>, id: Id): nat {
    multiset(ids)[id]
  }

  function BlockCount(blocks: seq<Block>, id: Id): nat {
    if blocks == [] then 0
    else Occurrences(blocks[0].adapts, id) + Occurrences(blocks[0].retries, id) + BlockCount(blocks[1..], id)
  }

  function AnswerCount(answers: seq<Answered>, id: Id): nat {
    if answers == [] then 0
    else AnswerCount(answers[..|answers| - 1], id) + (if answers[|answers| - 1].id == id then 1 else 0)
  }

  /** In how many places request `id` is: the queues, the dispatched blocks, between check and lock,
      an answer in hand, or an answer given. */
  function Places(s: State, id: Id): nat {
    Occurrences(s.adapts, id) + Occurrences(s.retries, id) + BlockCount(s.blocks, id)
    + (if id in s.checked then 1 else 0) + (if id in s.inHand then 1 else 0) + AnswerCount(s.answers, id)
  }

  /** Each submitted request is in exactly one place, and nothing else is anywhere. */
  ghost predicate Conserved(s: State) {
    forall id: Id :: Places(s, id) == if id in s.submitted then 1 else 0
  }

  predicate OneRefresh(s: State) {
    && |s.outstanding| <= 1
    && (s.isRefreshing <==> |s.outstanding| == 1)
    && (s.adapts != [] || s.retries != [] ==> s.isRefreshing)
  }

  lemma {:induction false} BlockCountAppend(blocks: seq<Block>, b: Block, id: Id)
    ensures BlockCount(blocks + [b], id)
         == BlockCount(blocks, id) + Occurrences(b.adapts, id) + Occurrences(b.retries, id)
  {
    if blocks != [] {
      BlockCountAppend(blocks[1..], b, id);
      assert (blocks + [b])[1..] == blocks[1..] + [b];
    } else {
      assert blocks + [b] == [b];
    }
  }

  lemma DispatchPlaces(s: State, b: Block, id: Id)
    requires b.adapts == s.adapts && b.retries == s.retries
    ensures Places(Dispatch(s, b), id) == Places(s, id)
  {
    BlockCountAppend(s.blocks, b, id);
  }

  lemma StartRefreshPlaces(s: State, c: Credential, now: real, stamp: real, id: Id)
    ensures Places(StartRefresh(s, c, now, stamp), id) == Places(s, id)
  {
    if IsRefreshExcessive(s, now) {
      DispatchPlaces(s.(clock := stamp), Refused(s.adapts, s.retries, ExcessiveRefresh), id);
    }
  }

  /** Adapting a request that is nowhere puts it in one place. */
  lemma AdaptPlaces(s: State, id: Id, requiresRefresh: bool, now: real, stamp: real, other: Id)
    requires id !in s.inHand
    ensures Places(Adapt(s, id, requiresRefresh, now, stamp), other)
         == Places(s, other) + (if other == id then 1 else 0)
  {
    var queued := s.(adapts := s.adapts + [id]);
    assert Places(queued, other) == Places(s, other) + (if other == id then 1 else 0);
    if !s.isRefreshing && s.credential.Some? && requiresRefresh {
      StartRefreshPlaces(queued, s.credential.value, now, stamp, other);
    }
  }

  lemma ReplyPlaces(s: State, id: Id, answer: Answer, other: Id)
    ensures Places(Reply(s, id, answer), other) == Places(s, other) + (if other == id then 1 else 0)
  {
    var answers := s.answers + [Answered(id, answer)];
    assert answers[..|answers| - 1] == s.answers;
  }

  lemma HeadCount(ids: seq<Id>, id: Id)
    requires ids != []
    ensures Occurrences(ids, id) == Occurrences(ids[1..], id) + (if ids[0] == id then 1 else 0)
  {
    assert ids == [ids[0]] + ids[1..];
  }

  lemma FirstBlockCount(b: Block, others: seq<Block>, id: Id)
    ensures BlockCount([b] + others, id)
         == Occurrences(b.adapts, id) + Occurrences(b.retries, id) + BlockCount(others, id)
  {
    assert ([b] + others)[1..] == others;
  }

  /** Putting another block in the place of the first. */
  lemma ReplaceBlock(s: State, b: Block, id: Id)
    requires s.blocks != []
    ensures Places(s.(blocks := [b] + s.blocks[1..]), id)
         == Places(s, id) - Occurrences(s.blocks[0].adapts, id) - Occurrences(s.blocks[0].retries, id)
            + Occurrences(b.adapts, id) + Occurrences(b.retries, id)
  {
    FirstBlockCount(b, s.blocks[1..], id);
    hide AnswerCount;
  }

  lemma HeadNotInHand(s: State)
    requires s.blocks != [] && s.blocks[0].adapts != [] && Conserved(s)
    ensures s.blocks[0].adapts[0] !in s.inHand
  {
    var id := s.blocks[0].adapts[0];
    assert Places(s, id) <= 1 && id in s.blocks[0].adapts;
    hide AnswerCount;
  }

  lemma RunBlockPlaces(s: State, requiresRefresh: bool, now: real, stamp: real, other: Id)
    requires s.blocks != [] && Conserved(s)
    ensures Places(RunBlock(s, requiresRefresh, now, stamp), other) == Places(s, other)
  {
    var b, others := s.blocks[0], s.blocks[1..];
    hide Places, BlockCount, AnswerCount, StartRefresh, Adapt, Reply, Conserved;
    if b.adapts != [] {
      var id := b.adapts[0];
      var rest := s.(blocks := [b.(adapts := b.adapts[1..])] + others);
      HeadNotInHand(s);
      HeadCount(b.adapts, other);
      ReplaceBlock(s, b.(adapts := b.adapts[1..]), other);
      if b.Released? {
        AdaptPlaces(rest, id, requiresRefresh, now, stamp, other);
      } else {
        ReplyPlaces(rest, id, AdaptFailed(b.error), other);
      }
    } else if b.retries != [] {
      var rest := s.(blocks := [b.(retries := b.retries[1..])] + others);
      HeadCount(b.retries, other);
      ReplaceBlock(s, b.(retries := b.retries[1..]), other);
      ReplyPlaces(rest, b.retries[0], if b.Released? then Retry else DoNotRetryWithError(b.error), other);
    } else {
      DropBlock(s, other);
    }
  }

  lemma DropBlock(s: State, id: Id)
    requires s.blocks != [] && s.blocks[0].adapts == [] && s.blocks[0].retries == []
    ensures Places(s.(blocks := s.blocks[1..]), id) == Places(s, id)
  {
    hide AnswerCount;
  }

  /** Every step keeps every submitted request in exactly one place. */
  lemma StepConserves(s: State, e: Event)
    requires Conserved(s) && Enabled(s, e)
    ensures Conserved(Step(s, e))
  {
    forall other: Id
      ensures Places(Step(s, e), other) == if other in Step(s, e).submitted then 1 else 0
    {
      StepPlaces(s, e, other);
    }
  }

  lemma CheckRetryPlaces(s: State, id: Id, hasResponse: bool, isAuthenticationError: bool, isCurrent: bool, other: Id)
    requires id !in s.inHand && id !in s.checked
    ensures Places(CheckRetry(s, id, hasResponse, isAuthenticationError, isCurrent), other)
         == Places(s, other) + (if other == id then 1 else 0)
  {
    hide BlockCount, AnswerCount, Occurrences;
  }

  lemma QueueRetryPlaces(s: State, id: Id, now: real, stamp: real, other: Id)
    requires id in s.checked
    ensures Places(QueueRetry(s, id, now, stamp), other) == Places(s, other)
  {
    var queued := s.(checked := s.checked - {id}, retries := s.retries + [id]);
    assert Places(queued, other) == Places(s, other);
    hide Places, StartRefresh;
    StartRefreshPlaces(queued, s.checked[id], now, stamp, other);
  }

  lemma CompleteRefreshPlaces(s: State, result: RefreshResult, other: Id)
    requires s.outstanding != []
    ensures Places(CompleteRefresh(s, result), other) == Places(s, other)
  {
    var b := if result.NewCredential? then Released(s.adapts, s.retries)
             else Refused(s.adapts, s.retries, result.error);
    BlockCountAppend(s.blocks, b, other);
  }

  lemma DeliverPlaces(s: State, id: Id, other: Id)
    requires id in s.inHand
    ensures Places(Deliver(s, id), other) == Places(s, other)
  {
    ReplyPlaces(s.(inHand := s.inHand - {id}), id, s.inHand[id], other);
    hide AnswerCount, BlockCount;
  }

  lemma StepPlaces(s: State, e: Event, other: Id)
    requires Conserved(s) && Enabled(s, e)
    ensures Places(Step(s, e), other) == if other in Step(s, e).submitted then 1 else 0
  {
    assert Places(s, other) == if other in s.submitted then 1 else 0;
    hide Adapt, CheckRetry, QueueRetry, CompleteRefresh, RunBlock, Deliver;
    StepSubmits(s, e);
    match e {
      case SubmitAdapt(id, requiresRefresh, now, stamp) =>
        assert Places(s, id) == 0;
        AdaptPlaces(s.(submitted := s.submitted + {id}), id, requiresRefresh, now, stamp, other);
      case SubmitRetry(id, hasResponse, isAuthenticationError, isCurrent) =>
        assert Places(s, id) == 0;
        CheckRetryPlaces(s.(submitted := s.submitted + {id}), id, hasResponse, isAuthenticationError, isCurrent, other);
      case LockRetry(id, now, stamp) => QueueRetryPlaces(s, id, now, stamp, other);
      case RefreshAnswered(result) => CompleteRefreshPlaces(s, result, other);
      case BlockRuns(requiresRefresh, now, stamp) => RunBlockPlaces(s, requiresRefresh, now, stamp, other);
      case AnswerDelivered(id) => DeliverPlaces(s, id, other);
      case CredentialSet(_) =>
    }
  }

  lemma StepSubmits(s: State, e: Event)
    requires Enabled(s, e)
    ensures Step(s, e).submitted == s.submitted + if e.SubmitAdapt? || e.SubmitRetry? then {e.id} else {}
  {}

  /** A refresh is outstanding exactly while isRefreshing, never two, and requests are queued only
      then. */
  lemma StepKeepsOneRefresh(s: State, e: Event)
    requires OneRefresh(s) && Enabled(s, e)
    ensures OneRefresh(Step(s, e))
  {
    hide Adapt, QueueRetry;
    match e {
      case SubmitAdapt(id, requiresRefresh, now, stamp) =>
        AdaptKeepsOneRefresh(s.(submitted := s.submitted + {id}), id, requiresRefresh, now, stamp);
      case LockRetry(id, now, stamp) => QueueRetryKeepsOneRefresh(s, id, now, stamp);
      case BlockRuns(requiresRefresh, now, stamp) =>
        var b := s.blocks[0];
        if b.adapts != [] {
          AdaptKeepsOneRefresh(s.(blocks := [b.(adapts := b.adapts[1..])] + s.blocks[1..]), b.adapts[0],
                               requiresRefresh, now, stamp);
        }
      case _ =>
    }
  }

  lemma AdaptKeepsOneRefresh(s: State, id: Id, requiresRefresh: bool, now: real, stamp: real)
    requires OneRefresh(s)
    ensures OneRefresh(Adapt(s, id, requiresRefresh, now, stamp))
  {
    hide IsRefreshExcessive;
  }

  lemma QueueRetryKeepsOneRefresh(s: State, id: Id, now: real, stamp: real)
    requires OneRefresh(s) && id in s.checked
    ensures OneRefresh(QueueRetry(s, id, now, stamp))
  {
    hide IsRefreshExcessive;
  }

  // ---- The sliding window ----------------------------------------------------------------------------

  predicate Sorted(ts: seq<real>) {
    forall i: nat, j: nat :: i <= j < |ts| ==> ts[i] <= ts[j]
  }

  /** Any `max + 1` refreshes in a row take longer than the interval. */
  predicate Spaced(ts: seq<real>, max: int, interval: real) {
    (max <= 0 ==> ts == []) && forall i: nat :: max > 0 && i + max < |ts| ==> ts[i] + interval < ts[i + max]
  }

  predicate WindowKept(s: State) {
    && Sorted(s.timestamps) && (s.timestamps != [] ==> s.timestamps[|s.timestamps| - 1] <= s.clock)
    && (s.window.Some? ==> Spaced(s.timestamps, s.window.value.maximumAttempts, s.window.value.interval))
  }

  /** In sorted timestamps, if the last but `k - 1` is not before `low` then `k` of them are not. */
  lemma {:induction false} LastOnesCount(ts: seq<real>, low: real, k: nat)
    requires Sorted(ts) && 0 < k <= |ts| && low <= ts[|ts| - k]
    ensures CountFrom(ts, low) >= k
    decreases k
  {
    var init := ts[..|ts| - 1];
    assert ts[|ts| - k] <= ts[|ts| - 1];
    if k > 1 {
      assert init[|init| - (k - 1)] == ts[|ts| - k];
      LastOnesCount(init, low, k - 1);
    }
  }

  /** The check made at `now` keeps the spacing for a refresh stamped later. */
  lemma StampKeepsSpacing(ts: seq<real>, max: int, interval: real, now: real, stamp: real)
    requires Sorted(ts) && Spaced(ts, max, interval) && now <= stamp
    requires CountFrom(ts, now - interval) < max
    ensures Spaced(ts + [stamp], max, interval)
  {
    var next := ts + [stamp];
    forall i: nat | i + max < |next|
      ensures next[i] + interval < next[i + max]
    {
      if i + max == |ts| {
        if now - interval <= ts[|ts| - max] {
          LastOnesCount(ts, now - interval, max);
        }
      } else {
        assert next[i] == ts[i] && next[i + max] == ts[i + max];
      }
    }
  }

  lemma StartRefreshKeepsWindow(s: State, c: Credential, now: real, stamp: real)
    requires WindowKept(s) && s.clock <= now <= stamp
    ensures WindowKept(StartRefresh(s, c, now, stamp))
  {
    if s.window.Some? && !IsRefreshExcessive(s, now) {
      StampKeepsSpacing(s.timestamps, s.window.value.maximumAttempts, s.window.value.interval, now, stamp);
    }
  }

  lemma AdaptKeepsWindow(s: State, id: Id, requiresRefresh: bool, now: real, stamp: real)
    requires WindowKept(s) && s.clock <= now <= stamp
    ensures WindowKept(Adapt(s, id, requiresRefresh, now, stamp))
  {
    var queued := s.(adapts := s.adapts + [id]);
    assert WindowKept(queued);
    if s.credential.Some? {
      hide Spaced, Sorted, StartRefresh;
      StartRefreshKeepsWindow(queued, s.credential.value, now, stamp);
    }
  }

  lemma QueueRetryKeepsWindow(s: State, id: Id, now: real, stamp: real)
    requires WindowKept(s) && id in s.checked && s.clock <= now <= stamp
    ensures WindowKept(QueueRetry(s, id, now, stamp))
  {
    var queued := s.(checked := s.checked - {id}, retries := s.retries + [id]);
    assert WindowKept(queued);
    hide Spaced, Sorted, StartRefresh;
    StartRefreshKeepsWindow(queued, s.checked[id], now, stamp);
  }

  lemma StepKeepsWindow(s: State, e: Event)
    requires WindowKept(s) && Enabled(s, e)
    ensures WindowKept(Step(s, e))
  {
    hide Spaced, Sorted, StartRefresh, Adapt, QueueRetry;
    match e {
      case SubmitAdapt(id, requiresRefresh, now, stamp) =>
        AdaptKeepsWindow(s.(submitted := s.submitted + {id}), id, requiresRefresh, now, stamp);
      case LockRetry(id, now, stamp) =>
        QueueRetryKeepsWindow(s, id, now, stamp);
      case BlockRuns(requiresRefresh, now, stamp) =>
        var b, others := s.blocks[0], s.blocks[1..];
        if b.adapts != [] {
          AdaptKeepsWindow(s.(blocks := [b.(adapts := b.adapts[1..])] + others), b.adapts[0], requiresRefresh, now,
                           stamp);
        }
      case _ =>
    }
  }

  lemma StepKeepsTheWindow(s: State, e: Event)
    requires Enabled(s, e)
    ensures Step(s, e).window == s.window
  {}

  /** The number of refreshes started in the closed interval from `low` to `high`. */
  function CountIn(ts: seq<real>, low: real, high: real): nat {
    if ts == [] then 0 else (if low <= ts[0] <= high then 1 else 0) + CountIn(ts[1..], low, high)
  }

  /** The `k`-th of sorted timestamps is not after `high` when `k` of them are in the interval. */
  lemma {:induction false} KthIsEarly(ts: seq<real>, low: real, high: real, k: nat)
    requires Sorted(ts) && 0 < k <= CountIn(ts, low, high)
    ensures k <= |ts| && ts[k - 1] <= high
    decreases ts
  {
    var tail := ts[1..];
    assert forall i: nat :: i < |tail| ==> tail[i] == ts[i + 1];
    if k > 1 {
      KthIsEarly(tail, low, high, k - 1);
    } else if ts[0] > high {
      KthIsEarly(tail, low, high, 1);
      assert false;
    }
  }

  lemma {:induction false} SpacedCount(ts: seq<real>, max: int, interval: real, low: real)
    requires Sorted(ts) && Spaced(ts, max, interval)
    ensures CountIn(ts, low, low + interval) <= if max > 0 then max else 0
    decreases ts
  {
    if ts != [] {
      var tail := ts[1..];
      assert forall i: nat :: i < |tail| ==> tail[i] == ts[i + 1];
      assert Spaced(tail, max, interval) by {
        forall i: nat | i + max < |tail|
          ensures tail[i] + interval < tail[i + max]
        {
          assert ts[i + 1] + interval < ts[i + 1 + max];
        }
      }
      SpacedCount(tail, max, interval, low);
      if low <= ts[0] && CountIn(ts, low, low + interval) > max {
        KthIsEarly(ts, low, low + interval, max + 1);
      }
    }
  }

  // ---- All runs ----------------------------------------------------------------------------------------

  lemma {:induction false} RunInvariant(states: seq<State>, events: seq<Event>, k: nat)
    requires IsRun(states, events) && k < |states|
    ensures Conserved(states[k]) && OneRefresh(states[k]) && WindowKept(states[k])
    ensures states[k].window == states[0].window
  {
    if k > 0 {
      RunInvariant(states, events, k - 1);
      StepConserves(states[k - 1], events[k - 1]);
      StepKeepsOneRefresh(states[k - 1], events[k - 1]);
      StepKeepsWindow(states[k - 1], events[k - 1]);
      StepKeepsTheWindow(states[k - 1], events[k - 1]);
    }
  }

  /** In every run, every closed time interval of the window's length has at most `maximumAttempts`
      started refreshes, and none at all when that is negative. */
  lemma RefreshesBounded(states: seq<State>, events: seq<Event>, k: nat, low: real)
    requires IsRun(states, events) && k < |states| && states[0].window.Some?
    ensures var w := states[0].window.value;
            CountIn(states[k].timestamps, low, low + w.interval)
              <= if w.maximumAttempts > 0 then w.maximumAttempts else 0
  {
    hide Step, Enabled;
    RunInvariant(states, events, k);
    var w := states[0].window.value;
    SpacedCount(states[k].timestamps, w.maximumAttempts, w.interval, low);
  }

  /** In every state of every run each submitted request is in exactly one place, so none was
      answered twice; requests are queued only while a refresh is outstanding, of which there is at
      most one; and once nothing is on its way any more, every request has its one answer. */
  lemma RequestsAnsweredOnce(states: seq<State>, events: seq<Event>, k: nat, id: Id)
    requires IsRun(states, events) && k < |states|
    ensures Places(states[k], id) == if id in states[k].submitted then 1 else 0
    ensures OneRefresh(states[k])
    ensures states[k].outstanding == [] && states[k].blocks == [] && states[k].checked == map[]
            && states[k].inHand == map[]
            ==> AnswerCount(states[k].answers, id) == if id in states[k].submitted then 1 else 0
  {
    hide Step, Enabled;
    RunInvariant(states, events, k);
    assert Places(states[k], id) == if id in states[k].submitted then 1 else 0;
  }

  // ---- Every request is answered --------------------------------------------------------------------

  /** The steps by which what is under way comes to its end: no new requests, no change of the
      credential from outside, and no adaptation that asks for yet another refresh. */
  predicate Settling(e: Event) {
    match e
    case LockRetry(_, _, _) => true
    case RefreshAnswered(_) => true
    case BlockRuns(requiresRefresh, _, _) => !requiresRefresh
    case AnswerDelivered(_) => true
    case _ => false
  }

  ghost predicate AllAnswered(s: State) {
    forall id: Id :: id in s.submitted ==> AnswerCount(s.answers, id) > 0
  }

  /** What the dispatched blocks still have to do. */
  function BlockWork(blocks: seq<Block>): nat {
    if blocks == [] then 0 else |blocks[0].adapts| + |blocks[0].retries| + 1 + BlockWork(blocks[1..])
  }

  /** Less is under way in `t` than in `s`: fewer retries in front of the lock; or as many, and fewer
      refreshes; or as many, and less in the blocks; or as much, and fewer answers in hand. */
  predicate Less(t: State, s: State) {
    || |t.checked| < |s.checked|
    || (|t.checked| == |s.checked| &&
        (|| |t.outstanding| < |s.outstanding|
         || (|t.outstanding| == |s.outstanding| &&
             (|| BlockWork(t.blocks) < BlockWork(s.blocks)
              || (BlockWork(t.blocks) == BlockWork(s.blocks) && |t.inHand| < |s.inHand|)))))
  }

  lemma Removed<T>(m: map<Id, T>, id: Id)
    requires id in m
    ensures |m - {id}| < |m|
  {
    assert (m - {id}).Keys == m.Keys - {id};
    assert |(m - {id}).Keys| == |m - {id}| && |m.Keys| == |m|;
  }

  lemma SettlingStepLess(s: State, e: Event)
    requires Enabled(s, e) && Settling(e)
    ensures Less(Step(s, e), s)
  {
    match e {
      case LockRetry(id, _, _) => LockRetryLess(s, e);
      case RefreshAnswered(_) =>
        hide BlockWork;
      case BlockRuns(_, _, _) => BlockRunsLess(s, e);
      case AnswerDelivered(id) =>
        hide BlockWork;
        Removed(s.inHand, id);
    }
  }

  lemma LockRetryLess(s: State, e: Event)
    requires Enabled(s, e) && e.LockRetry?
    ensures Less(Step(s, e), s)
  {
    hide BlockWork, IsRefreshExcessive;
    Removed(s.checked, e.id);
  }

  lemma BlockRunsLess(s: State, e: Event)
    requires Enabled(s, e) && e.BlockRuns? && !e.requiresRefresh
    ensures Less(Step(s, e), s)
  {
    var b, others := s.blocks[0], s.blocks[1..];
    assert s.blocks == [b] + others;
    BlockLess(b, others);
    hide BlockWork, StartRefresh;
  }

  lemma BlockLess(b: Block, others: seq<Block>)
    ensures BlockWork([b] + others) == |b.adapts| + |b.retries| + 1 + BlockWork(others)
    ensures b.adapts != [] ==> BlockWork([b.(adapts := b.adapts[1..])] + others) == BlockWork([b] + others) - 1
    ensures b.retries != [] ==> BlockWork([b.(retries := b.retries[1..])] + others) == BlockWork([b] + others) - 1
  {
    assert ([b] + others)[1..] == others;
    if b.adapts != [] { assert ([b.(adapts := b.adapts[1..])] + others)[1..] == others; }
    if b.retries != [] { assert ([b.(retries := b.retries[1..])] + others)[1..] == others; }
  }

  /** While a request waits for its answer, there is a settling step to take. */
  lemma NeverStuck(states: seq<State>, events: seq<Event>, k: nat, id: Id) returns (e: Event)
    requires IsRun(states, events) && k < |states|
    requires id in states[k].submitted && AnswerCount(states[k].answers, id) == 0
    ensures Enabled(states[k], e) && Settling(e)
  {
    RunInvariant(states, events, k);
    var s := states[k];
    assert Places(s, id) == 1;
    if s.outstanding != [] {
      e := RefreshAnswered(NewCredential(0));
    } else if s.blocks != [] {
      e := BlockRuns(false, s.clock, s.clock);
    } else if id in s.checked {
      e := LockRetry(id, s.clock, s.clock);
    } else {
      e := AnswerDelivered(id);
    }
  }

  /** An endless continuation in which, as long as some request has no answer, a settling step is
      taken. */
  ghost predicate SettlesOn(states: nat -> State, events: nat -> Event) {
    forall k: nat :: !AllAnswered(states(k)) ==>
      Enabled(states(k), events(k)) && Settling(events(k)) && states(k + 1) == Step(states(k), events(k))
  }

  /** However the settling steps are chosen, every request is answered in the end. */
  lemma {:induction false} EventuallyAnswered(states: nat -> State, events: nat -> Event, n: nat) returns (k: nat)
    requires SettlesOn(states, events)
    ensures k >= n && AllAnswered(states(k))
    decreases |states(n).checked|, |states(n).outstanding|, BlockWork(states(n).blocks), |states(n).inHand|
  {
    if AllAnswered(states(n)) {
      k := n;
    } else {
      SettlingStepLess(states(n), events(n));
      k := EventuallyAnswered(states, events, n + 1);
    }
  }
}
