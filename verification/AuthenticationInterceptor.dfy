/** AuthenticationInterceptor.swift: the object whose lock-protected state the steps of the
    refresh protocol change in place. */
module AuthenticationInterceptor {
  import opened Basics
  import R = Refresh

  type Id = R.Id
  type Credential = R.Credential

  class Interceptor {
    const refreshWindow: Option<R.RefreshWindow>
    var credential: Option<Credential>
    var isRefreshing: bool
    var refreshTimestamps: seq<real>
    var adaptOperations: seq<Id>
    var requestsToRetry: seq<Id>
    // The authenticator's pending refreshes, the dispatch queue, and the callers' threads.
    var outstanding: seq<Credential>
    var queue: seq<R.Block>
    var checked: map<Id, Credential>
    var inHand: map<Id, R.Answer>
    var answers: seq<R.Answered>
    ghost var submitted: set<Id>
    ghost var clock: real

    ghost function View(): R.State
      reads this
    {
      R.State(credential, isRefreshing, refreshTimestamps, refreshWindow, adaptOperations, requestsToRetry,
              outstanding, queue, checked, inHand, answers, submitted, clock)
    }

    /** No request is lost or answered twice, one refresh at most is outstanding, and the started
        refreshes keep to the window. */
    ghost predicate Valid()
      reads this
    {
      R.Conserved(View()) && R.OneRefresh(View()) && R.WindowKept(View())
    }

    constructor (credential: Option<Credential>, refreshWindow: Option<R.RefreshWindow>, ghost clock: real)
      ensures Valid() && View() == R.Initial(credential, refreshWindow, clock)
    {
      this.credential, this.refreshWindow := credential, refreshWindow;
      isRefreshing, refreshTimestamps := false, [];
      adaptOperations, requestsToRetry := [], [];
      outstanding, queue, checked, inHand, answers := [], [], map[], map[], [];
      submitted, this.clock := {}, clock;
    }

    /** The lemmas about one step, for the step that was taken. */
    twostate lemma Kept(e: R.Event)
      requires old(Valid()) && R.Enabled(old(View()), e) && View() == R.Step(old(View()), e)
      ensures Valid()
    {
      R.StepConserves(old(View()), e);
      R.StepKeepsOneRefresh(old(View()), e);
      R.StepKeepsWindow(old(View()), e);
    }

    // ---- Adapt ---------------------------------------------------------------------------------

    /** A request asks for its credential. */
    method Adapt(id: Id, requiresRefresh: bool, now: real, stamp: real)
      requires Valid() && R.Enabled(View(), R.SubmitAdapt(id, requiresRefresh, now, stamp))
      modifies this
      ensures View() == R.Step(old(View()), R.SubmitAdapt(id, requiresRefresh, now, stamp)) && Valid()
    {
      submitted := submitted + {id};
      AdaptLocked(id, requiresRefresh, now, stamp);
      Kept(R.SubmitAdapt(id, requiresRefresh, now, stamp));
    }

    method AdaptLocked(id: Id, requiresRefresh: bool, now: real, stamp: real)
      modifies this
      ensures View() == R.Adapt(old(View()), id, requiresRefresh, now, stamp)
    {
      if isRefreshing {
        adaptOperations := adaptOperations + [id];
        return;
      }
      if credential.None? {
        inHand := inHand[id := R.AdaptFailed(R.MissingCredential)];
        return;
      }
      if requiresRefresh {
        adaptOperations := adaptOperations + [id];
        Refresh(credential.value, now, stamp);
        return;
      }
      inHand := inHand[id := R.Adapted(credential.value)];
    }

    // ---- Retry ---------------------------------------------------------------------------------

    /** A request has failed. The credential is read under the lock, which is then given up. */
    method Retry(id: Id, hasResponse: bool, isAuthenticationError: bool, isCurrent: bool)
      requires Valid() && R.Enabled(View(), R.SubmitRetry(id, hasResponse, isAuthenticationError, isCurrent))
      modifies this
      ensures View() == R.Step(old(View()), R.SubmitRetry(id, hasResponse, isAuthenticationError, isCurrent)) && Valid()
    {
      submitted := submitted + {id};
      if !hasResponse {
        inHand := inHand[id := R.DoNotRetry];
      } else if !isAuthenticationError {
        inHand := inHand[id := R.DoNotRetry];
      } else if credential.None? {
        inHand := inHand[id := R.DoNotRetryWithError(R.MissingCredential)];
      } else if !isCurrent {
        inHand := inHand[id := R.Answer.Retry];
      } else {
        checked := checked[id := credential.value];
      }
      Kept(R.SubmitRetry(id, hasResponse, isAuthenticationError, isCurrent));
    }

    /** The retry takes the lock again, to be queued. */
    method RetryLocked(id: Id, now: real, stamp: real)
      requires Valid() && R.Enabled(View(), R.LockRetry(id, now, stamp))
      modifies this
      ensures View() == R.Step(old(View()), R.LockRetry(id, now, stamp)) && Valid()
    {
      var c := checked[id];
      checked := checked - {id};
      requestsToRetry := requestsToRetry + [id];
      if !isRefreshing {
        Refresh(c, now, stamp);
      }
      Kept(R.LockRetry(id, now, stamp));
    }

    // ---- Refresh -------------------------------------------------------------------------------

    method Refresh(c: Credential, now: real, stamp: real)
      modifies this
      ensures View() == R.StartRefresh(old(View()), c, now, stamp)
    {
      var excessive := IsRefreshExcessive(now);
      if excessive {
        HandleRefreshFailure(R.ExcessiveRefresh);
        clock := stamp;
        return;
      }
      refreshTimestamps := refreshTimestamps + [stamp];
      isRefreshing := true;
      outstanding := outstanding + [c];
      clock := stamp;
    }

    /** Counts the refreshes in the window that ends at `now`. */
    method IsRefreshExcessive(now: real) returns (excessive: bool)
      ensures excessive <==> R.IsRefreshExcessive(View(), now)
    {
      if refreshWindow.None? {
        return false;
      }
      var refreshWindowMin := now - refreshWindow.value.interval;
      var attempts := 0;
      for i := 0 to |refreshTimestamps|
        invariant attempts == R.CountFrom(refreshTimestamps[..i], refreshWindowMin)
      {
        assert refreshTimestamps[..i + 1][..i] == refreshTimestamps[..i];
        if refreshWindowMin <= refreshTimestamps[i] {
          attempts := attempts + 1;
        }
      }
      assert refreshTimestamps[..|refreshTimestamps|] == refreshTimestamps;
      return attempts >= refreshWindow.value.maximumAttempts;
    }

    method HandleRefreshSuccess(c: Credential)
      modifies this
      ensures View() == R.Dispatch(old(View()).(credential := Some(c)),
                                   R.Released(old(adaptOperations), old(requestsToRetry)))
    {
      credential := Some(c);
      var adapts, retries := adaptOperations, requestsToRetry;
      adaptOperations, requestsToRetry := [], [];
      isRefreshing := false;
      queue := queue + [R.Released(adapts, retries)];
    }

    method HandleRefreshFailure(error: R.AuthenticationError)
      modifies this
      ensures View() == R.Dispatch(old(View()), R.Refused(old(adaptOperations), old(requestsToRetry), error))
    {
      var adapts, retries := adaptOperations, requestsToRetry;
      adaptOperations, requestsToRetry := [], [];
      isRefreshing := false;
      queue := queue + [R.Refused(adapts, retries, error)];
    }

    /** The authenticator calls back. */
    method RefreshCompleted(result: R.RefreshResult)
      requires Valid() && R.Enabled(View(), R.RefreshAnswered(result))
      modifies this
      ensures View() == R.Step(old(View()), R.RefreshAnswered(result)) && Valid()
    {
      outstanding := outstanding[1..];
      match result {
        case NewCredential(c) => HandleRefreshSuccess(c);
        case NoCredential(error) => HandleRefreshFailure(error);
      }
      Kept(R.RefreshAnswered(result));
    }

    // ---- What was dispatched ---------------------------------------------------------------------

    /** The serial queue goes on with the request at its head. */
    method RunQueue(requiresRefresh: bool, now: real, stamp: real)
      requires Valid() && R.Enabled(View(), R.BlockRuns(requiresRefresh, now, stamp))
      modifies this
      ensures View() == R.Step(old(View()), R.BlockRuns(requiresRefresh, now, stamp)) && Valid()
    {
      var b, others := queue[0], queue[1..];
      if b.adapts != [] {
        queue := [b.(adapts := b.adapts[1..])] + others;
        match b {
          case Released(_, _) => AdaptLocked(b.adapts[0], requiresRefresh, now, stamp);
          case Refused(_, _, error) => answers := answers + [R.Answered(b.adapts[0], R.AdaptFailed(error))];
        }
      } else if b.retries != [] {
        queue := [b.(retries := b.retries[1..])] + others;
        match b {
          case Released(_, _) => answers := answers + [R.Answered(b.retries[0], R.Answer.Retry)];
          case Refused(_, _, error) => answers := answers + [R.Answered(b.retries[0], R.DoNotRetryWithError(error))];
        }
      } else {
        queue := others;
      }
      Kept(R.BlockRuns(requiresRefresh, now, stamp));
    }

    /** A caller's thread calls the completion handler with the answer it holds. */
    method Deliver(id: Id)
      requires Valid() && R.Enabled(View(), R.AnswerDelivered(id))
      modifies this
      ensures View() == R.Step(old(View()), R.AnswerDelivered(id)) && Valid()
    {
      var answer := inHand[id];
      inHand := inHand - {id};
      answers := answers + [R.Answered(id, answer)];
      Kept(R.AnswerDelivered(id));
    }

    method SetCredential(c: Option<Credential>)
      requires Valid()
      modifies this
      ensures View() == R.Step(old(View()), R.CredentialSet(c)) && Valid()
    {
      credential := c;
      Kept(R.CredentialSet(c));
    }
  }
}
