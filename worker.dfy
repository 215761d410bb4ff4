/** The quota-gated work-queue executor of worker.go. The queue and the
    GitHub client are external: what `Q.Get()` yields, what `RateLimits()`
    answers for that iteration and whether the dequeued task returned an
    error come in together as one `Event` per loop iteration. */
module Worker {
  import opened GitHub

  /** The identity of a queued task (the closure itself is opaque). */
  type TaskId = int

  /** What one turn of the loop sees: the queue's shutdown signal, or an
      item with the rate-limit answer obtained for it and the outcome the
      item's task would have if run. */
  datatype Event =
    | Shutdown
    | Item(task: TaskId, rate: RateResult, taskOk: bool)

  datatype Option<T> = None | Some(value: T)

  /** How one turn of the loop ends. */
  datatype Decision = Stop | SkipRateError | SkipNoBudget | Run

  /** The quota class a worker consults. */
  function Budget(isCore: bool, limits: RateLimits): Rate
  {
    if isCore then limits.core else limits.search
  }

  /** One turn of ProcessWorkItem: stop on shutdown, skip on a failed rate
      query, skip when the worker's own class (Core for a core worker,
      Search otherwise) has no calls left, and run the task otherwise. The
      task's own outcome plays no part. */
  function Decide(isCore: bool, ev: Event): (d: Decision)
    ensures d == Stop <==> ev == Shutdown
    ensures d == SkipRateError <==> ev.Item? && ev.rate == RateErr
    ensures d == SkipNoBudget <==>
      (ev.Item? && ev.rate.RateOk? &&
       (if isCore then ev.rate.limits.core.remaining else ev.rate.limits.search.remaining) == 0)
    ensures d == Run <==>
      (ev.Item? && ev.rate.RateOk? &&
       (if isCore then ev.rate.limits.core.remaining else ev.rate.limits.search.remaining) != 0)
  {
    match ev
    case Shutdown => Stop
    case Item(_, rate, _) =>
      match rate
      case RateErr => SkipRateError
      case RateOk(limits) => if Budget(isCore, limits).remaining == 0 then SkipNoBudget else Run
  }

  /** The tasks the loop runs, in the order it runs them. */
  function Executed(isCore: bool, events: seq<Event>): seq<TaskId>
  {
    if events == [] then []
    else match Decide(isCore, events[0])
      case Stop => []
      case Run => [events[0].task] + Executed(isCore, events[1..])
      case _ => Executed(isCore, events[1..])
  }

  /** The number of events the loop takes from the queue. */
  function Taken(events: seq<Event>): (n: nat)
    ensures n <= |events|
    ensures n == 0 <==> events == []
  {
    if events == [] then 0
    else if events[0] == Shutdown then 1
    else 1 + Taken(events[1..])
  }

  ghost predicate NoShutdown(events: seq<Event>)
  {
    forall i :: 0 <= i < |events| ==> events[i] != Shutdown
  }

  lemma NoShutdownTail(events: seq<Event>)
    requires events != [] && NoShutdown(events)
    ensures events[0] != Shutdown && NoShutdown(events[1..])
  {
    forall i | 0 <= i < |events[1..]| ensures events[1..][i] != Shutdown {
      assert events[1..][i] == events[i + 1];
    }
  }

  /** Without a shutdown every queued item is taken, one per turn. */
  lemma {:induction false} TakesEveryItem(events: seq<Event>)
    requires NoShutdown(events)
    ensures Taken(events) == |events|
  {
    if events != [] {
      NoShutdownTail(events);
      TakesEveryItem(events[1..]);
    }
  }

  /** The first shutdown ends the loop: it is the last event taken and no
      task after it runs. */
  lemma {:induction false} ShutdownEndsLoop(isCore: bool, events: seq<Event>, k: nat)
    requires k < |events| && events[k] == Shutdown && NoShutdown(events[..k])
    ensures Taken(events) == k + 1
    ensures Executed(isCore, events) == Executed(isCore, events[..k])
  {
    if k > 0 {
      assert events[0] == events[..k][0];
      assert events[1..][..k - 1] == events[..k][1..];
      NoShutdownTail(events[..k]);
      ShutdownEndsLoop(isCore, events[1..], k - 1);
    } else {
      assert events[..k] == [];
    }
  }

  /** A turn that skips its item drops it: the loop goes on with the next
      event and runs nothing for the skipped one. */
  lemma SkipDropsItem(isCore: bool, ev: Event, rest: seq<Event>)
    requires Decide(isCore, ev) == SkipRateError || Decide(isCore, ev) == SkipNoBudget
    ensures Executed(isCore, [ev] + rest) == Executed(isCore, rest)
    ensures Taken([ev] + rest) == 1 + Taken(rest)
  {
    assert ([ev] + rest)[1..] == rest;
  }

  /** Every task that runs was taken before any shutdown, got an answer to
      its rate query, and found calls left in the worker's own class. */
  lemma {:induction false} RunsOnlyWithBudget(isCore: bool, events: seq<Event>, j: nat)
    requires j < |Executed(isCore, events)|
    ensures exists i ::
      (0 <= i < Taken(events) && events[i].Item? &&
       events[i].task == Executed(isCore, events)[j] && Decide(isCore, events[i]) == Run)
  {
    var d := Decide(isCore, events[0]);
    if d == Run && j == 0 {
      assert events[0].task == Executed(isCore, events)[0];
    } else {
      var j' := if d == Run then j - 1 else j;
      assert Executed(isCore, events)[j] == Executed(isCore, events[1..])[j'];
      RunsOnlyWithBudget(isCore, events[1..], j');
      var i :| 0 <= i < Taken(events[1..]) && events[1..][i].Item? &&
        events[1..][i].task == Executed(isCore, events[1..])[j'] && Decide(isCore, events[1..][i]) == Run;
      assert events[i + 1] == events[1..][i];
    }
  }

  /** Tasks run in queue order: the run of a queue split in two, where the
      first part holds no shutdown, is the first part's run then the
      second's. */
  lemma {:induction false} ExecutedAppend(isCore: bool, a: seq<Event>, b: seq<Event>)
    requires NoShutdown(a)
    ensures Executed(isCore, a + b) == Executed(isCore, a) + Executed(isCore, b)
    ensures Taken(a + b) == |a| + Taken(b)
  {
    if a != [] {
      NoShutdownTail(a);
      assert (a + b)[0] == a[0];
      assert (a + b)[1..] == a[1..] + b;
      ExecutedAppend(isCore, a[1..], b);
    } else {
      assert a + b == b;
    }
  }

  /** Two queues that differ only in whether their tasks fail. */
  ghost predicate SameButOutcomes(events: seq<Event>, events': seq<Event>)
  {
    |events| == |events'| &&
    forall i :: 0 <= i < |events| ==>
      (events[i] == Shutdown <==> events'[i] == Shutdown) &&
      (events[i].Item? ==> events'[i].task == events[i].task && events'[i].rate == events[i].rate)
  }

  /** A task's error does not stop the loop: what is taken and what runs
      does not depend on the tasks' outcomes. */
  lemma {:induction false} OutcomesIrrelevant(isCore: bool, events: seq<Event>, events': seq<Event>)
    requires SameButOutcomes(events, events')
    ensures Executed(isCore, events) == Executed(isCore, events')
    ensures Taken(events) == Taken(events')
  {
    if events != [] {
      assert Decide(isCore, events[0]) == Decide(isCore, events'[0]);
      assert SameButOutcomes(events[1..], events'[1..]) by {
        forall i | 0 <= i < |events[1..]|
          ensures (events[1..][i] == Shutdown <==> events'[1..][i] == Shutdown)
          ensures events[1..][i].Item? ==>
            events'[1..][i].task == events[1..][i].task && events'[1..][i].rate == events[1..][i].rate
        {
          assert events[1..][i] == events[i + 1] && events'[1..][i] == events'[i + 1];
        }
      }
      OutcomesIrrelevant(isCore, events[1..], events'[1..]);
    }
  }

  /** A queue executor bound to one quota class. */
  class GitWorker {
    const name: string
    const isCore: bool
    var msgProcessed: int
    var sleepInterval: int
    var limit: Option<Rate>

    /** NewGitWorker. */
    constructor (name: string, core: bool)
      ensures this.name == name && isCore == core
      ensures msgProcessed == 0 && sleepInterval == 10 && limit == None
    {
      this.name := name;
      isCore := core;
      msgProcessed := 0;
      sleepInterval := 10;
      limit := None;
    }

    /** ProcessWorkItem over the events the queue yields. The loop returns on
        shutdown; when the events run out without one, the worker is blocked
        in `Q.Get()` at the top of its next turn. `taken` counts the events
        consumed and `ran` lists the tasks run. */
    method ProcessWorkItem(events: seq<Event>) returns (taken: nat, ran: seq<TaskId>)
      modifies this`msgProcessed, this`limit
      ensures taken == Taken(events) && taken <= |events|
      ensures ran == Executed(isCore, events)
      ensures msgProcessed == old(msgProcessed) + |ran|
      ensures limit == None
    {
      taken, ran := 0, [];
      while taken < |events|
        invariant taken <= |events|
        invariant Taken(events) == taken + Taken(events[taken..])
        invariant Executed(isCore, events) == ran + Executed(isCore, events[taken..])
        invariant msgProcessed == old(msgProcessed) + |ran|
      {
        limit := None;
        var ev := events[taken];
        assert events[taken..][1..] == events[taken + 1..];
        taken := taken + 1;
        if ev == Shutdown {
          assert ran + [] == ran;
          return;
        }
        if ev.rate.RateErr? {
          continue;
        }
        limit := Some(Budget(isCore, ev.rate.limits));
        if limit.value.remaining == 0 {
          continue;
        }
        msgProcessed := msgProcessed + 1;
        ran := ran + [ev.task];
        // The task runs here; an error it returns is only logged.
      }
      assert events[taken..] == [] && ran + [] == ran;
      limit := None;
    }
  }
}
