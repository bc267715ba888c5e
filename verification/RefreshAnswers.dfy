/** Which answer each request gets. The table of decisions below says at which step an answer is
    decided and what it is; in every run the answers given are those that were decided. */
module RefreshAnswers {
  import opened Basics
  import opened Refresh

  // ---- The table of decisions ------------------------------------------------------------------

  /** So many refreshes were started in the window that ends at `now` that no other may be. */
  ghost predicate TooMany(s: State, now: real) {
    && s.window.Some?
    && var low := now - s.window.value.interval;
    |set i: nat | i < |s.timestamps| && low <= s.timestamps[i]| >= s.window.value.maximumAttempts
  }

  /** At this step the credential for request `id` is looked for: it has just come, or it is the next
      of those that a refresh released. */
  predicate LooksFor(s: State, e: Event, id: Id) {
    || (e.SubmitAdapt? && e.id == id)
    || (e.BlockRuns? && s.blocks != [] && s.blocks[0].Released? && s.blocks[0].adapts != []
        && s.blocks[0].adapts[0] == id)
  }

  /** Whether the step `e` decides that request `id` is answered with `a`. */
  ghost predicate Decides(s: State, e: Event, id: Id, a: Answer) {
    match a
    case Adapted(c) =>
      LooksFor(s, e, id) && !e.requiresRefresh && s.outstanding == [] && s.credential == Some(c)
    case AdaptFailed(error) =>
      || (LooksFor(s, e, id) && s.outstanding == [] && s.credential.None? && error == MissingCredential)
      || (LooksFor(s, e, id) && s.outstanding == [] && s.credential.Some? && e.requiresRefresh && TooMany(s, e.now)
          && error == ExcessiveRefresh)
      || (e == RefreshAnswered(NoCredential(error)) && id in s.adapts)
    case Retry =>
      || (e == SubmitRetry(id, true, true, false) && s.credential.Some?)
      || (e.RefreshAnswered? && e.result.NewCredential? && id in s.retries)
    case DoNotRetry =>
      e.SubmitRetry? && e.id == id && !(e.hasResponse && e.isAuthenticationError)
    case DoNotRetryWithError(error) =>
      || (e.SubmitRetry? && e.id == id && e.hasResponse && e.isAuthenticationError && s.credential.None?
          && error == MissingCredential)
      || (e.LockRetry? && e.id == id && s.outstanding == [] && TooMany(s, e.now) && error == ExcessiveRefresh)
      || (e == RefreshAnswered(NoCredential(error)) && id in s.retries)
  }

  lemma {:induction false} CountFromIs(ts: seq<real>, low: real)
    ensures CountFrom(ts, low) == |set i: nat | i < |ts| && low <= ts[i]|
  {
    var all := set i: nat | i < |ts| && low <= ts[i];
    if ts == [] {
      assert all == {};
    } else {
      var n := |ts| - 1;
      var init := ts[..n];
      CountFromIs(init, low);
      var before := set i: nat | i < |init| && low <= init[i];
      assert all == before + if low <= ts[n] then {n} else {};
    }
  }

  lemma ExcessiveIsTooMany(s: State, now: real)
    ensures IsRefreshExcessive(s, now) <==> TooMany(s, now)
  {
    if s.window.Some? { CountFromIs(s.timestamps, now - s.window.value.interval); }
  }

  // ---- What is on its way ------------------------------------------------------------------------

  /** What a block will answer to a request that it need not adapt again. */
  predicate Due(b: Block, id: Id, a: Answer) {
    || (id in b.retries && a == if b.Released? then Retry else DoNotRetryWithError(b.error))
    || (b.Refused? && id in b.adapts && a == AdaptFailed(b.error))
  }

  ghost predicate DueIn(blocks: seq<Block>, id: Id, a: Answer) {
    exists i: nat :: i < |blocks| && Due(blocks[i], id, a)
  }

  /** The answer `a` is decided for request `id`: due in a block, in hand, or given. */
  ghost predicate OnWay(s: State, id: Id, a: Answer) {
    DueIn(s.blocks, id, a) || (id in s.inHand && s.inHand[id] == a) || Answered(id, a) in s.answers
  }

  lemma DueInMore(blocks: seq<Block>, b: Block, id: Id, a: Answer)
    ensures DueIn(blocks + [b], id, a) <==> DueIn(blocks, id, a) || Due(b, id, a)
  {
    var all := blocks + [b];
    if Due(b, id, a) { assert all[|blocks|] == b; }
    if i: nat :| i < |blocks| && Due(blocks[i], id, a) { assert all[i] == blocks[i]; }
  }

  lemma DueInFirst(b: Block, others: seq<Block>, id: Id, a: Answer)
    ensures DueIn([b] + others, id, a) <==> DueIn(others, id, a) || Due(b, id, a)
  {
    var all := [b] + others;
    if Due(b, id, a) { assert all[0] == b; }
    if i: nat :| i < |others| && Due(others[i], id, a) { assert all[i + 1] == others[i]; }
  }

  // ---- One step ------------------------------------------------------------------------------------

  lemma StartRefreshOnWay(s: State, c: Credential, now: real, stamp: real, id: Id, a: Answer)
    ensures OnWay(StartRefresh(s, c, now, stamp), id, a)
       <==> OnWay(s, id, a) || (TooMany(s, now) && Due(Refused(s.adapts, s.retries, ExcessiveRefresh), id, a))
  {
    hide DueIn, Due, TooMany, IsRefreshExcessive;
    ExcessiveIsTooMany(s, now);
    DueInMore(s.blocks, Refused(s.adapts, s.retries, ExcessiveRefresh), id, a);
  }

  lemma DecideOnWay(s: State, other: Id, b: Answer, id: Id, a: Answer)
    requires other !in s.inHand
    ensures OnWay(Decide(s, other, b), id, a) <==> OnWay(s, id, a) || (id == other && a == b)
  {
    hide DueIn;
  }

  lemma ReplyOnWay(s: State, other: Id, b: Answer, id: Id, a: Answer)
    ensures OnWay(Reply(s, other, b), id, a) <==> OnWay(s, id, a) || (id == other && a == b)
  {
    hide DueIn;
  }

  /** What the adaptation of a request decides in state `s`. */
  ghost predicate AdaptDecides(s: State, requiresRefresh: bool, now: real, a: Answer) {
    s.outstanding == [] &&
    match a
    case Adapted(c) => !requiresRefresh && s.credential == Some(c)
    case AdaptFailed(error) =>
      || (s.credential.None? && error == MissingCredential)
      || (s.credential.Some? && requiresRefresh && TooMany(s, now) && error == ExcessiveRefresh)
    case _ => false
  }

  lemma AdaptOnWay(s: State, other: Id, requiresRefresh: bool, now: real, stamp: real, id: Id, a: Answer)
    requires OneRefresh(s) && other !in s.inHand
    ensures OnWay(Adapt(s, other, requiresRefresh, now, stamp), id, a)
       <==> OnWay(s, id, a) || (id == other && AdaptDecides(s, requiresRefresh, now, a))
  {
    var queued := s.(adapts := s.adapts + [other]);
    assert OnWay(queued, id, a) <==> OnWay(s, id, a);
    assert TooMany(queued, now) <==> TooMany(s, now);
    hide OnWay, TooMany, StartRefresh, Decide;
    if !s.isRefreshing {
      if s.credential.None? {
        DecideOnWay(s, other, AdaptFailed(MissingCredential), id, a);
      } else if requiresRefresh {
        StartRefreshOnWay(queued, s.credential.value, now, stamp, id, a);
      } else {
        DecideOnWay(s, other, Adapted(s.credential.value), id, a);
      }
    }
  }

  lemma SubmitRetryOnWay(s: State, e: Event, id: Id, a: Answer)
    requires Enabled(s, e) && e.SubmitRetry? && e.id !in s.inHand
    ensures OnWay(Step(s, e), id, a) <==> OnWay(s, id, a) || Decides(s, e, id, a)
  {
    hide DueIn, TooMany;
  }

  lemma LockRetryOnWay(s: State, e: Event, id: Id, a: Answer)
    requires OneRefresh(s) && Enabled(s, e) && e.LockRetry?
    ensures OnWay(Step(s, e), id, a) <==> OnWay(s, id, a) || Decides(s, e, id, a)
  {
    var queued := s.(checked := s.checked - {e.id}, retries := s.retries + [e.id]);
    assert OnWay(queued, id, a) <==> OnWay(s, id, a);
    assert TooMany(queued, e.now) <==> TooMany(s, e.now);
    hide OnWay, TooMany, StartRefresh;
    if !s.isRefreshing {
      StartRefreshOnWay(queued, s.checked[e.id], e.now, e.stamp, id, a);
    }
  }

  lemma RefreshAnsweredOnWay(s: State, e: Event, id: Id, a: Answer)
    requires Enabled(s, e) && e.RefreshAnswered?
    ensures OnWay(Step(s, e), id, a) <==> OnWay(s, id, a) || Decides(s, e, id, a)
  {
    var b := if e.result.NewCredential? then Released(s.adapts, s.retries)
             else Refused(s.adapts, s.retries, e.result.error);
    DueInMore(s.blocks, b, id, a);
    hide DueIn, TooMany;
  }

  lemma HeadIn(ids: seq<Id>, id: Id)
    requires ids != []
    ensures id in ids <==> id == ids[0] || id in ids[1..]
  {
    assert ids == [ids[0]] + ids[1..];
  }

  /** What is due in a block, apart from its next request. */
  lemma DueNext(b: Block, id: Id, a: Answer)
    ensures b.adapts != [] ==>
              (Due(b, id, a) <==> Due(b.(adapts := b.adapts[1..]), id, a)
                                  || (b.Refused? && id == b.adapts[0] && a == AdaptFailed(b.error)))
    ensures b.retries != [] ==>
              (Due(b, id, a) <==> Due(b.(retries := b.retries[1..]), id, a)
                                  || (id == b.retries[0]
                                      && a == if b.Released? then Retry else DoNotRetryWithError(b.error)))
    ensures b.adapts == [] && b.retries == [] ==> !Due(b, id, a)
  {
    if b.adapts != [] { HeadIn(b.adapts, id); }
    if b.retries != [] { HeadIn(b.retries, id); }
  }

  /** Replacing or dropping the head block. */
  lemma HeadOnWay(s: State, b: Block, id: Id, a: Answer)
    requires s.blocks != []
    ensures OnWay(s.(blocks := s.blocks[1..]), id, a) || Due(s.blocks[0], id, a) <==> OnWay(s, id, a)
    ensures OnWay(s.(blocks := s.blocks[1..]), id, a) || Due(b, id, a)
       <==> OnWay(s.(blocks := [b] + s.blocks[1..]), id, a)
  {
    assert s.blocks == [s.blocks[0]] + s.blocks[1..];
    hide DueIn, Due;
    DueInFirst(s.blocks[0], s.blocks[1..], id, a);
    DueInFirst(b, s.blocks[1..], id, a);
  }

  lemma AdaptNextOnWay(s: State, requiresRefresh: bool, now: real, stamp: real, id: Id, a: Answer)
    requires OneRefresh(s) && s.blocks != [] && s.blocks[0].adapts != [] && s.blocks[0].adapts[0] !in s.inHand
    ensures OnWay(RunBlock(s, requiresRefresh, now, stamp), id, a)
       <==> OnWay(s, id, a)
            || (s.blocks[0].Released? && id == s.blocks[0].adapts[0] && AdaptDecides(s, requiresRefresh, now, a))
  {
    var b, others := s.blocks[0], s.blocks[1..];
    var less := b.(adapts := b.adapts[1..]);
    var rest := s.(blocks := [less] + others);
    DueNext(b, id, a);
    HeadOnWay(s, less, id, a);
    SameTooMany(s, rest, now);
    hide OnWay, Due, TooMany, Adapt, Reply;
    if b.Released? {
      AdaptOnWay(rest, b.adapts[0], requiresRefresh, now, stamp, id, a);
    } else {
      ReplyOnWay(rest, b.adapts[0], AdaptFailed(b.error), id, a);
    }
  }

  lemma RetryNextOnWay(s: State, requiresRefresh: bool, now: real, stamp: real, id: Id, a: Answer)
    requires s.blocks != [] && s.blocks[0].adapts == []
    ensures OnWay(RunBlock(s, requiresRefresh, now, stamp), id, a) <==> OnWay(s, id, a)
  {
    var b, others := s.blocks[0], s.blocks[1..];
    var less := if b.retries == [] then b else b.(retries := b.retries[1..]);
    DueNext(b, id, a);
    HeadOnWay(s, less, id, a);
    hide OnWay, Due, Adapt, Reply;
    if b.retries != [] {
      ReplyOnWay(s.(blocks := [less] + others), b.retries[0],
                 if b.Released? then Retry else DoNotRetryWithError(b.error), id, a);
    }
  }

  lemma BlockRunsOnWay(s: State, e: Event, id: Id, a: Answer)
    requires OneRefresh(s) && Conserved(s) && Enabled(s, e) && e.BlockRuns?
    ensures OnWay(Step(s, e), id, a) <==> OnWay(s, id, a) || Decides(s, e, id, a)
  {
    hide OnWay, TooMany, RunBlock, Conserved, OneRefresh;
    if s.blocks[0].adapts != [] {
      HeadNotInHand(s);
      AdaptNextOnWay(s, e.requiresRefresh, e.now, e.stamp, id, a);
    } else {
      RetryNextOnWay(s, e.requiresRefresh, e.now, e.stamp, id, a);
    }
  }

  lemma SameTooMany(s: State, t: State, now: real)
    requires s.timestamps == t.timestamps && s.window == t.window
    ensures TooMany(s, now) <==> TooMany(t, now)
  {}

  /** A step decides what the table says, and nothing that was decided is lost or changed. */
  lemma StepOnWay(s: State, e: Event, id: Id, a: Answer)
    requires OneRefresh(s) && Conserved(s) && Enabled(s, e)
    ensures OnWay(Step(s, e), id, a) <==> OnWay(s, id, a) || Decides(s, e, id, a)
  {
    match e {
      case SubmitAdapt(other, requiresRefresh, now, stamp) =>
        assert Places(s, other) == 0;
        var submitted := s.(submitted := s.submitted + {other});
        assert OnWay(submitted, id, a) <==> OnWay(s, id, a);
        assert TooMany(submitted, now) <==> TooMany(s, now);
        hide OnWay, TooMany, Adapt, Conserved;
        AdaptOnWay(submitted, other, requiresRefresh, now, stamp, id, a);
      case SubmitRetry(other, _, _, _) =>
        assert Places(s, other) == 0;
        SubmitRetryOnWay(s, e, id, a);
      case LockRetry(_, _, _) => LockRetryOnWay(s, e, id, a);
      case RefreshAnswered(_) => RefreshAnsweredOnWay(s, e, id, a);
      case BlockRuns(_, _, _) => BlockRunsOnWay(s, e, id, a);
      case AnswerDelivered(_) =>
      case CredentialSet(_) =>
    }
  }

  // ---- All runs ------------------------------------------------------------------------------------

  /** What is on its way in a state of a run was decided before, and what was decided is on its way. */
  lemma {:induction false} OnWayExactly(states: seq<State>, events: seq<Event>, j: nat, id: Id, a: Answer)
    requires IsRun(states, events) && j < |states|
    ensures OnWay(states[j], id, a) <==> exists k: nat :: k < j && Decides(states[k], events[k], id, a)
    decreases j
  {
    hide Step, Enabled, OnWay, Decides, Conserved, OneRefresh, WindowKept;
    if j == 0 {
      NothingOnWay(states[0], id, a);
    } else {
      OnWayExactly(states, events, j - 1, id, a);
      RunInvariant(states, events, j - 1);
      StepOnWay(states[j - 1], events[j - 1], id, a);
    }
  }

  lemma NothingOnWay(s: State, id: Id, a: Answer)
    requires s == Initial(s.credential, s.window, s.clock)
    ensures !OnWay(s, id, a)
  {}

  /** A request in a block, in hand or answered is so once. */
  lemma {:induction false} InBlocks(blocks: seq<Block>, i: nat, id: Id)
    requires i < |blocks| && (id in blocks[i].adapts || id in blocks[i].retries)
    ensures BlockCount(blocks, id) >= 1
  {
    if i > 0 { InBlocks(blocks[1..], i - 1, id); }
  }

  lemma {:induction false} InAnswers(answers: seq<Answered>, id: Id, a: Answer)
    requires Answered(id, a) in answers
    ensures AnswerCount(answers, id) >= 1
  {
    var n := |answers| - 1;
    if answers[n] != Answered(id, a) {
      assert answers == answers[..n] + [answers[n]];
      InAnswers(answers[..n], id, a);
    }
  }

  lemma {:induction false} TwoAnswers(answers: seq<Answered>, id: Id, a: Answer, b: Answer)
    requires Answered(id, a) in answers && Answered(id, b) in answers && a != b
    ensures AnswerCount(answers, id) >= 2
  {
    var n := |answers| - 1;
    var init, last := answers[..n], answers[n];
    assert answers == init + [last];
    if last == Answered(id, a) {
      InAnswers(init, id, b);
    } else if last == Answered(id, b) {
      InAnswers(init, id, a);
    } else {
      TwoAnswers(init, id, a, b);
    }
  }

  /** A request that was answered gets no other answer. */
  lemma AnsweredIsFinal(s: State, id: Id, a: Answer, b: Answer)
    requires Conserved(s) && Answered(id, a) in s.answers && OnWay(s, id, b)
    ensures a == b
  {
    assert Places(s, id) <= 1;
    InAnswers(s.answers, id, a);
    if Answered(id, b) in s.answers {
      if a != b { TwoAnswers(s.answers, id, a, b); }
    } else if DueIn(s.blocks, id, b) {
      var i: nat :| i < |s.blocks| && Due(s.blocks[i], id, b);
      InBlocks(s.blocks, i, id);
    }
  }

  /** In every state of every run, a request was answered only with what some step before decided for
      it; and from a step that decides an answer on, the request gets no other. */
  lemma AnswersAreDecided(states: seq<State>, events: seq<Event>, j: nat, id: Id, a: Answer)
    requires IsRun(states, events) && j < |states| && Answered(id, a) in states[j].answers
    ensures exists k: nat :: k < j && Decides(states[k], events[k], id, a)
    ensures forall k: nat, b: Answer :: k < j && Decides(states[k], events[k], id, b) ==> a == b
  {
    assert OnWay(states[j], id, a);
    hide Step, Enabled, OnWay, Decides;
    OnWayExactly(states, events, j, id, a);
    RunInvariant(states, events, j);
    forall k: nat, b: Answer | k < j && Decides(states[k], events[k], id, b)
      ensures a == b
    {
      OnWayExactly(states, events, j, id, b);
      AnsweredIsFinal(states[j], id, a, b);
    }
  }

  // ---- Requests that wait for a refresh ----------------------------------------------------------

  /** Who waits for a refresh goes on waiting until the authenticator answers. */
  lemma StaysQueued(s: State, e: Event, id: Id)
    requires OneRefresh(s) && Enabled(s, e) && !e.RefreshAnswered?
    ensures id in s.adapts ==> id in Step(s, e).adapts
    ensures id in s.retries ==> id in Step(s, e).retries
  {
    hide IsRefreshExcessive;
  }

  lemma {:induction false} StaysQueuedUntil(states: seq<State>, events: seq<Event>, i: nat, k: nat, id: Id)
    requires IsRun(states, events) && i <= k < |states|
    requires forall m: nat :: i <= m < k ==> !events[m].RefreshAnswered?
    ensures id in states[i].adapts ==> id in states[k].adapts
    ensures id in states[i].retries ==> id in states[k].retries
    decreases k
  {
    hide Step, Enabled, Conserved, OneRefresh, WindowKept;
    if i < k {
      StaysQueuedUntil(states, events, i, k - 1, id);
      RunInvariant(states, events, k - 1);
      StaysQueued(states[k - 1], events[k - 1], id);
    }
  }

  /** A refresh is under way, or nothing keeps one from being started. */
  ghost predicate MayWait(s: State, now: real) {
    s.outstanding != [] || !TooMany(s, now)
  }

  lemma LockRetryQueues(s: State, e: Event)
    requires OneRefresh(s) && Enabled(s, e) && e.LockRetry? && MayWait(s, e.now)
    ensures e.id in Step(s, e).retries
  {
    var queued := s.(checked := s.checked - {e.id}, retries := s.retries + [e.id]);
    ExcessiveIsTooMany(queued, e.now);
    SameTooMany(s, queued, e.now);
    hide TooMany, IsRefreshExcessive;
  }

  lemma AdaptQueues(s: State, e: Event, id: Id)
    requires OneRefresh(s) && Enabled(s, e) && LooksFor(s, e, id) && MayWait(s, e.now)
    requires s.outstanding != [] || (s.credential.Some? && e.requiresRefresh)
    ensures id in Step(s, e).adapts
  {
    forall t: State | t.timestamps == s.timestamps && t.window == s.window
      ensures IsRefreshExcessive(t, e.now) <==> TooMany(s, e.now)
    {
      ExcessiveIsTooMany(t, e.now);
      SameTooMany(s, t, e.now);
    }
    hide TooMany, IsRefreshExcessive;
  }

  /** A failed request that waited for the refresh that step `k` ends is retried if it ended with a
      new credential, and otherwise fails with the error of the refresh. */
  lemma WaitingRetryAnswered(states: seq<State>, events: seq<Event>, i: nat, k: nat, j: nat, id: Id, a: Answer)
    requires IsRun(states, events) && i < k < j < |states|
    requires events[i].LockRetry? && events[i].id == id && MayWait(states[i], events[i].now)
    requires forall m: nat :: i < m < k ==> !events[m].RefreshAnswered?
    requires events[k].RefreshAnswered? && Answered(id, a) in states[j].answers
    ensures events[k].result.NewCredential? ==> a == Retry
    ensures events[k].result.NoCredential? ==> a == DoNotRetryWithError(events[k].result.error)
  {
    hide Step, Enabled, OnWay, Conserved, OneRefresh, WindowKept, MayWait;
    RunInvariant(states, events, i);
    LockRetryQueues(states[i], events[i]);
    StaysQueuedUntil(states, events, i + 1, k, id);
    AnswersAreDecided(states, events, j, id, a);
    var r := events[k].result;
    var b := if r.NewCredential? then Retry else DoNotRetryWithError(r.error);
    assert Decides(states[k], events[k], id, b);
  }

  /** A failed request whose refresh the window refuses fails with that error. */
  lemma RefusedRetryAnswered(states: seq<State>, events: seq<Event>, i: nat, j: nat, id: Id, a: Answer)
    requires IsRun(states, events) && i < j < |states|
    requires events[i].LockRetry? && events[i].id == id && !MayWait(states[i], events[i].now)
    requires Answered(id, a) in states[j].answers
    ensures a == DoNotRetryWithError(ExcessiveRefresh)
  {
    hide Step, Enabled, OnWay, Conserved, OneRefresh, WindowKept;
    AnswersAreDecided(states, events, j, id, a);
    assert Decides(states[i], events[i], id, DoNotRetryWithError(ExcessiveRefresh));
  }

  /** A request that waits for its credential fails with the error of the refresh. */
  lemma WaitingAdaptFails(states: seq<State>, events: seq<Event>, i: nat, k: nat, j: nat, id: Id, a: Answer)
    requires IsRun(states, events) && i < k < j < |states|
    requires LooksFor(states[i], events[i], id) && MayWait(states[i], events[i].now)
    requires states[i].outstanding != [] || (states[i].credential.Some? && events[i].requiresRefresh)
    requires forall m: nat :: i < m < k ==> !events[m].RefreshAnswered?
    requires events[k].RefreshAnswered? && events[k].result.NoCredential? && Answered(id, a) in states[j].answers
    ensures a == AdaptFailed(events[k].result.error)
  {
    hide Step, Enabled, OnWay, Conserved, OneRefresh, WindowKept, MayWait;
    RunInvariant(states, events, i);
    AdaptQueues(states[i], events[i], id);
    StaysQueuedUntil(states, events, i + 1, k, id);
    AnswersAreDecided(states, events, j, id, a);
    assert Decides(states[k], events[k], id, AdaptFailed(events[k].result.error));
  }

  // ---- The credential, and the refreshes that are started -------------------------------------

  /** The credential that was last set or obtained. */
  function LastCredential(first: Option<Credential>, events: seq<Event>): Option<Credential> {
    if events == [] then first
    else
      match events[|events| - 1]
      case CredentialSet(c) => c
      case RefreshAnswered(NewCredential(c)) => Some(c)
      case _ => LastCredential(first, events[..|events| - 1])
  }

  lemma {:induction false} CredentialIsLast(states: seq<State>, events: seq<Event>, k: nat)
    requires IsRun(states, events) && k < |states|
    ensures states[k].credential == LastCredential(states[0].credential, events[..k])
    decreases k
  {
    if k > 0 {
      CredentialIsLast(states, events, k - 1);
      assert events[..k][..k - 1] == events[..k - 1];
      StepCredential(states[k - 1], events[k - 1]);
      hide Step, Enabled;
    }
  }

  lemma StepCredential(s: State, e: Event)
    requires Enabled(s, e)
    ensures Step(s, e).credential ==
              match e
              case CredentialSet(c) => c
              case RefreshAnswered(NewCredential(c)) => Some(c)
              case _ => s.credential
  {
    hide IsRefreshExcessive;
  }

  /** The step `e` asks for a refresh of the credential `c`. */
  predicate AsksFor(s: State, e: Event, c: Credential) {
    || ((e.SubmitAdapt? || (e.BlockRuns? && s.blocks != [] && s.blocks[0].Released? && s.blocks[0].adapts != []))
        && e.requiresRefresh && s.credential == Some(c))
    || (e.LockRetry? && e.id in s.checked && s.checked[e.id] == c)
  }

  /** The refreshes under way and the timestamps are those of `s`, or one refresh of `c` more. */
  predicate Started(s: State, t: State, starts: bool, c: Credential, stamp: real) {
    && t.outstanding == (if starts then s.outstanding + [c] else s.outstanding)
    && t.timestamps == (if starts then s.timestamps + [stamp] else s.timestamps)
  }

  lemma StartRefreshStarts(s: State, c: Credential, now: real, stamp: real)
    ensures Started(s, StartRefresh(s, c, now, stamp), !TooMany(s, now), c, stamp)
  {
    ExcessiveIsTooMany(s, now);
    hide TooMany, IsRefreshExcessive;
  }

  lemma AdaptStarts(s: State, id: Id, requiresRefresh: bool, now: real, stamp: real)
    ensures var starts := !s.isRefreshing && s.credential.Some? && requiresRefresh && !TooMany(s, now);
            var c := if s.credential.Some? then s.credential.value else 0;
            Started(s, Adapt(s, id, requiresRefresh, now, stamp), starts, c, stamp)
  {
    var queued := s.(adapts := s.adapts + [id]);
    SameTooMany(s, queued, now);
    hide TooMany, StartRefresh;
    if s.credential.Some? { StartRefreshStarts(queued, s.credential.value, now, stamp); }
  }

  lemma LockRetryStarts(s: State, id: Id, now: real, stamp: real)
    requires id in s.checked
    ensures Started(s, QueueRetry(s, id, now, stamp), !s.isRefreshing && !TooMany(s, now), s.checked[id], stamp)
  {
    var queued := s.(checked := s.checked - {id}, retries := s.retries + [id]);
    SameTooMany(s, queued, now);
    hide TooMany, StartRefresh;
    StartRefreshStarts(queued, s.checked[id], now, stamp);
  }

  lemma BlockRunsStarts(s: State, requiresRefresh: bool, now: real, stamp: real)
    requires s.blocks != []
    ensures var asks := s.blocks[0].Released? && s.blocks[0].adapts != [] && s.credential.Some? && requiresRefresh;
            var c := if s.credential.Some? then s.credential.value else 0;
            Started(s, RunBlock(s, requiresRefresh, now, stamp), asks && !s.isRefreshing && !TooMany(s, now), c, stamp)
  {
    var b, others := s.blocks[0], s.blocks[1..];
    if b.adapts != [] {
      var rest := s.(blocks := [b.(adapts := b.adapts[1..])] + others);
      SameTooMany(s, rest, now);
      AdaptStarts(rest, b.adapts[0], requiresRefresh, now, stamp);
    }
    hide TooMany, Adapt;
  }

  /** A refresh is started exactly when one is asked for, none is under way, and the window allows it:
      of the credential it is asked for, and with one new timestamp. */
  lemma RefreshStarts(s: State, e: Event)
    requires OneRefresh(s) && Enabled(s, e)
    ensures forall c: Credential :: AsksFor(s, e, c) && s.outstanding == [] && !TooMany(s, e.now) ==>
              Step(s, e).outstanding == [c] && Step(s, e).timestamps == s.timestamps + [e.stamp]
    ensures (forall c: Credential :: AsksFor(s, e, c) ==> s.outstanding != [] || TooMany(s, e.now)) ==>
              && Step(s, e).timestamps == s.timestamps
              && Step(s, e).outstanding == if e.RefreshAnswered? then [] else s.outstanding
  {
    hide TooMany, Adapt, QueueRetry, RunBlock;
    match e {
      case SubmitAdapt(id, requiresRefresh, now, stamp) =>
        if s.credential.Some? && requiresRefresh { assert AsksFor(s, e, s.credential.value); }
        var submitted := s.(submitted := s.submitted + {id});
        SameTooMany(s, submitted, now);
        AdaptStarts(submitted, id, requiresRefresh, now, stamp);
      case LockRetry(id, now, stamp) =>
        assert AsksFor(s, e, s.checked[id]);
        LockRetryStarts(s, id, now, stamp);
      case BlockRuns(requiresRefresh, now, stamp) =>
        if s.blocks[0].Released? && s.blocks[0].adapts != [] && s.credential.Some? && requiresRefresh {
          assert AsksFor(s, e, s.credential.value);
        }
        BlockRunsStarts(s, requiresRefresh, now, stamp);
      case _ =>
    }
  }

  lemma StepChecked(s: State, e: Event, id: Id)
    requires Enabled(s, e)
    ensures id in s.checked && !(e.LockRetry? && e.id == id) ==> id in Step(s, e).checked
    ensures e == SubmitRetry(id, true, true, true) && s.credential.Some? ==> id in Step(s, e).checked
    ensures id in Step(s, e).checked ==>
              || (id in s.checked && !(e.LockRetry? && e.id == id) && Step(s, e).checked[id] == s.checked[id])
              || (e == SubmitRetry(id, true, true, true) && s.credential == Some(Step(s, e).checked[id]))
  {
    hide IsRefreshExcessive;
  }

  /** At step `k` the request `id` failed with the current credential `c`, and it has not taken the lock
      since. */
  ghost predicate CheckedAt(states: seq<State>, events: seq<Event>, k: nat, j: nat, id: Id, c: Credential)
    requires |states| == |events| + 1 && j < |states|
  {
    && k < j && events[k] == SubmitRetry(id, true, true, true) && states[k].credential == Some(c)
    && forall m: nat :: k < m < j ==> !(events[m].LockRetry? && events[m].id == id)
  }

  lemma RunStart(states: seq<State>, events: seq<Event>, id: Id)
    requires IsRun(states, events)
    ensures |states| == |events| + 1 && states[0].checked == map[]
    ensures forall k: nat, c: Credential :: !CheckedAt(states, events, k, 0, id, c)
  {
    hide Step, Enabled;
  }

  lemma RunStep(states: seq<State>, events: seq<Event>, k: nat)
    requires IsRun(states, events) && k < |events|
    ensures Enabled(states[k], events[k]) && states[k + 1] == Step(states[k], events[k])
  {
    hide Step, Enabled;
  }

  lemma CheckedLater(states: seq<State>, events: seq<Event>, k: nat, j: nat, id: Id, c: Credential)
    requires |states| == |events| + 1 && 0 < j < |states|
    ensures CheckedAt(states, events, k, j, id, c) <==>
              || (CheckedAt(states, events, k, j - 1, id, c) && !(events[j - 1].LockRetry? && events[j - 1].id == id))
              || (k == j - 1 && events[k] == SubmitRetry(id, true, true, true) && states[k].credential == Some(c))
  {}

  /** A request is between its check and the lock exactly when it failed with the current credential and
      has not taken the lock since; the refresh that it may ask for is of that credential. */
  lemma {:induction false} CheckedIsCurrent(states: seq<State>, events: seq<Event>, j: nat, id: Id)
    requires IsRun(states, events) && j < |states|
    ensures id in states[j].checked ==> exists k: nat :: CheckedAt(states, events, k, j, id, states[j].checked[id])
    ensures forall k: nat, c: Credential :: CheckedAt(states, events, k, j, id, c) ==> id in states[j].checked
    decreases j
  {
    hide *;
    RunStart(states, events, id);
    if j > 0 {
      var s, e := states[j - 1], events[j - 1];
      RunStep(states, events, j - 1);
      StepChecked(s, e, id);
      CheckedIsCurrent(states, events, j - 1, id);
      if id in states[j].checked {
        var c := states[j].checked[id];
        var k: nat := j - 1;
        if id in s.checked && s.checked[id] == c && !(e.LockRetry? && e.id == id) {
          k :| CheckedAt(states, events, k, j - 1, id, c);
        }
        CheckedLater(states, events, k, j, id, c);
        assert CheckedAt(states, events, k, j, id, c);
      }
      forall k: nat, c: Credential | CheckedAt(states, events, k, j, id, c)
        ensures id in states[j].checked
      {
        CheckedLater(states, events, k, j, id, c);
      }
    }
  }
}
