/** RequestTaskMap.swift: the struct whose mutating members update the three dictionaries. */
module RequestTaskMap {
  import opened Basics
  import opened TaskMap

  class TwoWayMap {
    var tasksToRequests: map<Task, Request>
    var requestsToTasks: map<Request, Task>
    var taskEvents: map<Task, Events>
    /** The associations that the dictionaries stand for. */
    ghost var table: Table

    ghost function View(): Maps
      reads this
    {
      Maps(tasksToRequests, requestsToTasks, taskEvents)
    }

    ghost predicate Valid()
      reads this
    {
      OneToOne(table) && Represents(View(), table)
    }

    constructor ()
      ensures Valid() && table == map[]
    {
      tasksToRequests, requestsToTasks, taskEvents, table := map[], map[], map[], map[];
    }

    /** Records the operation in the table, when the table permits it. */
    ghost method Record(op: Operation)
      modifies this`table
      ensures table == if old(Valid()) && Permitted(old(table), op) then Ideal(old(table), op) else old(table)
      ensures old(Valid()) && Permitted(old(table), op) ==>
                Step(View(), op).Returned? && Represents(Step(View(), op).maps, table) && OneToOne(table)
      ensures old(Valid()) && Permitted(old(table), op) && (op.MetricsGathered? || op.Completed?) ==>
                (Step(View(), op).disassociated <==> op.task !in table)
    {
      if Valid() && Permitted(table, op) {
        StepRefines(View(), table, op);
        table := Ideal(table, op);
      }
    }

    /** subscript(request), set. Crashes when there is nothing to remove; where the table permits the
        operation it does not, and does to the table what it should. */
    method SetTask(r: Request, newValue: Option<Task>) returns (fatal: bool)
      modifies this
      ensures var op := Operation.SetTask(r, newValue);
              && (fatal <==> Step(old(View()), op).FatalError?)
              && (!fatal ==> View() == Step(old(View()), op).maps)
              && (old(Valid()) && Permitted(old(table), op) ==> !fatal && Valid() && table == Ideal(old(table), op))
    {
      Record(Operation.SetTask(r, newValue));
      hide Permitted, Ideal, Represents, OneToOne;
      if newValue.None? {
        if r !in requestsToTasks {
          return true;
        }
        var t := requestsToTasks[r];
        requestsToTasks := requestsToTasks - {r};
        tasksToRequests := tasksToRequests - {t};
        taskEvents := taskEvents - {t};
        return false;
      }
      requestsToTasks := requestsToTasks[r := newValue.value];
      tasksToRequests := tasksToRequests[newValue.value := r];
      taskEvents := taskEvents[newValue.value := Events(false, false)];
      return false;
    }

    /** subscript(task), set. */
    method SetRequest(t: Task, newValue: Option<Request>) returns (fatal: bool)
      modifies this
      ensures var op := Operation.SetRequest(t, newValue);
              && (fatal <==> Step(old(View()), op).FatalError?)
              && (!fatal ==> View() == Step(old(View()), op).maps)
              && (old(Valid()) && Permitted(old(table), op) ==> !fatal && Valid() && table == Ideal(old(table), op))
    {
      Record(Operation.SetRequest(t, newValue));
      hide Permitted, Ideal, Represents, OneToOne;
      if newValue.None? {
        fatal := RemoveTask(t);
        return;
      }
      tasksToRequests := tasksToRequests[t := newValue.value];
      requestsToTasks := requestsToTasks[newValue.value := t];
      taskEvents := taskEvents[t := Events(false, false)];
      return false;
    }

    method RemoveTask(t: Task) returns (fatal: bool)
      modifies this`tasksToRequests, this`requestsToTasks, this`taskEvents
      ensures fatal <==> SetForTask(old(View()), t, None).FatalError?
      ensures !fatal ==> View() == SetForTask(old(View()), t, None).maps
    {
      if t !in tasksToRequests {
        return true;
      }
      var r := tasksToRequests[t];
      tasksToRequests := tasksToRequests - {t};
      requestsToTasks := requestsToTasks - {r};
      taskEvents := taskEvents - {t};
      return false;
    }

    method DisassociateIfNecessaryAfterGatheringMetricsForTask(t: Task) returns (fatal: bool, disassociated: bool)
      modifies this
      ensures var op := MetricsGathered(t);
              && (fatal <==> Step(old(View()), op).FatalError?)
              && (!fatal ==> Returned(View(), disassociated) == Step(old(View()), op))
              && (old(Valid()) && Permitted(old(table), op) ==>
                    !fatal && Valid() && table == Ideal(old(table), op) && (disassociated <==> t !in table))
    {
      Record(MetricsGathered(t));
      hide Permitted, Ideal, Represents, OneToOne;
      if t !in taskEvents {
        return true, false;
      }
      if taskEvents[t].metricsGathered {
        return true, false;
      } else if !taskEvents[t].completed {
        taskEvents := taskEvents[t := Events(false, true)];
        return false, false;
      } else {
        fatal := RemoveTask(t);
        return fatal, true;
      }
    }

    method DisassociateIfNecessaryAfterCompletingTask(t: Task) returns (fatal: bool, disassociated: bool)
      modifies this
      ensures var op := Completed(t);
              && (fatal <==> Step(old(View()), op).FatalError?)
              && (!fatal ==> Returned(View(), disassociated) == Step(old(View()), op))
              && (old(Valid()) && Permitted(old(table), op) ==>
                    !fatal && Valid() && table == Ideal(old(table), op) && (disassociated <==> t !in table))
    {
      Record(Completed(t));
      hide Permitted, Ideal, Represents, OneToOne;
      if t !in taskEvents {
        return true, false;
      }
      if taskEvents[t].completed {
        return true, false;
      } else if !taskEvents[t].metricsGathered {
        taskEvents := taskEvents[t := Events(true, false)];
        return false, false;
      } else {
        fatal := RemoveTask(t);
        return fatal, true;
      }
    }

    /** The preconditions of the counts never fail while the dictionaries hold a table. */
    lemma CountsOfTable()
      ensures Valid() ==> CountsAgree(View()) && |taskEvents| == |table|
    {
      if Valid() {
        RepresentsCounts(View(), table);
        assert |table.Keys| == |table| && |taskEvents.Keys| == |taskEvents|;
      }
    }

    /** eventCount, which checks count, which checks the two maps against each other. */
    method EventCount() returns (fatal: bool, count: nat)
      ensures fatal <==> !CountsAgree(View())
      ensures Valid() ==> !fatal && count == |table|
    {
      CountsOfTable();
      hide Represents, OneToOne;
      if |tasksToRequests| != |requestsToTasks| {
        return true, 0;
      }
      if |taskEvents| != |tasksToRequests| {
        return true, 0;
      }
      return false, |taskEvents|;
    }

    /** isEventsEmpty, which checks isEmpty. */
    method IsEventsEmpty() returns (fatal: bool, empty: bool)
      ensures fatal <==> !((tasksToRequests == map[]) == (requestsToTasks == map[]) == (taskEvents == map[]))
      ensures !fatal ==> (empty <==> taskEvents == map[])
      ensures Valid() ==> !fatal && (empty <==> table == map[])
    {
      CountsOfTable();
      hide Represents, OneToOne;
      if (|tasksToRequests| == 0) != (|requestsToTasks| == 0) {
        return true, false;
      }
      if (|taskEvents| == 0) != (|tasksToRequests| == 0) {
        return true, false;
      }
      return false, |taskEvents| == 0;
    }
  }
}
