/** The methods of DataStreamRequest that update StreamMutableState in place, and the queues they
    dispatch to. */
module DataStreamRequest {
  import C = StreamCompletion

  class StreamRequest {
    var streams: seq<bool>
    var numberOfExecutingStreams: int
    var enqueuedCompletionEvents: seq<nat>
    // Runs, events to come, dispatched blocks, and completions handed to the handlers' queues.
    var runs: seq<C.Run>
    ghost var handled: seq<C.Run>
    var waiting: set<nat>
    var scheduled: seq<seq<nat>>
    var completions: seq<nat>
    ghost var releases: seq<C.Release>

    ghost function View(): C.State
      reads this
    {
      C.State(streams, numberOfExecutingStreams, enqueuedCompletionEvents, runs, handled, waiting, scheduled,
              completions, releases)
    }

    ghost predicate Valid()
      reads this
    {
      C.Counted(View()) && C.Conserved(View())
    }

    constructor ()
      ensures Valid() && View() == C.INITIAL
    {
      streams, numberOfExecutingStreams, enqueuedCompletionEvents := [], 0, [];
      runs, handled, waiting, scheduled, completions, releases := [], [], {}, [], [], [];
    }

    twostate lemma Kept(e: C.Event)
      requires old(Valid()) && C.Enabled(old(View()), e) && View() == C.Step(old(View()), e)
      ensures Valid()
    {
      C.StepKeepsCount(old(View()), e);
      C.StepConserves(old(View()), e);
    }

    /** responseStream: another handler, and a response serializer for its completion. */
    method ResponseStream(usesSerializer: bool)
      requires Valid()
      modifies this
      ensures View() == C.Step(old(View()), C.StreamAppended(usesSerializer)) && Valid()
    {
      waiting := waiting + {|streams|};
      streams := streams + [usesSerializer];
      Kept(C.StreamAppended(usesSerializer));
    }

    method DidReceive(data: C.Data)
      requires Valid()
      modifies this
      ensures View() == C.Step(old(View()), C.DataReceived(data)) && Valid()
    {
      numberOfExecutingStreams := numberOfExecutingStreams + |streams|;
      var localState := streams;
      runs := runs + C.Batch(|localState|, data);
      Kept(C.DataReceived(data));
    }

    /** A run moves on to its next queue. */
    method RunAdvances(k: nat)
      requires Valid() && C.Enabled(View(), C.RunAdvances(k))
      modifies this
      ensures View() == C.Step(old(View()), C.RunAdvances(k)) && Valid()
    {
      var run := runs[k];
      runs := runs[k := run.(stage := C.NextStage(streams[run.stream], run.stage))];
      Kept(C.RunAdvances(k));
    }

    /** updateAndCompleteIfPossible, behind the handler of run `k`. */
    method UpdateAndCompleteIfPossible(k: nat)
      requires Valid() && C.Enabled(View(), C.HandlerReturned(k))
      modifies this
      ensures View() == C.Step(old(View()), C.HandlerReturned(k)) && Valid()
    {
      handled := handled + [runs[k]];
      runs := runs[..k] + runs[k + 1..];
      numberOfExecutingStreams := numberOfExecutingStreams - 1;
      if numberOfExecutingStreams == 0 && enqueuedCompletionEvents != [] {
        var completionEvents := enqueuedCompletionEvents;
        scheduled := scheduled + [completionEvents];
        releases := releases + C.Releases(completionEvents, |runs|);
        enqueuedCompletionEvents := [];
      }
      Kept(C.HandlerReturned(k));
    }

    /** The write section of appendStreamCompletion, for the handler `stream`. */
    method StreamCompletes(stream: nat)
      requires Valid() && C.Enabled(View(), C.CompletionArrived(stream))
      modifies this
      ensures View() == C.Step(old(View()), C.CompletionArrived(stream)) && Valid()
    {
      waiting := waiting - {stream};
      if numberOfExecutingStreams != 0 {
        enqueuedCompletionEvents := enqueuedCompletionEvents + [stream];
      } else {
        EnqueueCompletion(stream);
        releases := releases + C.Releases([stream], |runs|);
      }
      Kept(C.CompletionArrived(stream));
    }

    method EnqueueCompletion(stream: nat)
      modifies this`completions
      ensures completions == old(completions) + [stream]
    {
      completions := completions + [stream];
    }

    /** The dispatched block at the head of the underlying queue. */
    method RunBlock()
      requires Valid() && C.Enabled(View(), C.BlockRan)
      modifies this
      ensures View() == C.Step(old(View()), C.BlockRan) && Valid()
    {
      var completionEvents := scheduled[0];
      scheduled := scheduled[1..];
      ghost var was := completions;
      for i := 0 to |completionEvents|
        invariant completions == was + completionEvents[..i]
        invariant scheduled == old(scheduled)[1..]
        modifies this`completions
      {
        EnqueueCompletion(completionEvents[i]);
      }
      assert completionEvents[..|completionEvents|] == completionEvents;
      Kept(C.BlockRan);
    }
  }
}
