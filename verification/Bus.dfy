/**
 The message bus (bus.py, `MessageBus`).

 Every method is one atomic step between two awaits, so any interleaving of callers, consumers and
 dispatch tasks is some sequence of calls; `Valid`, kept by all of them, holds throughout.  Creating
 a dispatch task and its first step are two steps: a task cancelled in between never enters its body.
 */
module Bus {

  datatype Agent = Agent(name: string)

  /** A message's uuid. */
  datatype MsgId = MsgId(uuid: string)

  datatype Message = Message(target: Agent, isRequest: bool, priority: int)

  /** The place of a message in a priority queue: priority first, then send order. */
  datatype Slot = Slot(priority: int, seqNo: nat)

  predicate Before(a: Slot, b: Slot) {
    a.priority < b.priority || (a.priority == b.priority && a.seqNo < b.seqNo)
  }

  /** The order the queue serves in: one of two messages, the smaller priority, the earlier sent of equals. */
  lemma QueueOrder(a: Slot, b: Slot)
    ensures Before(a, b) ==> a.priority <= b.priority && !Before(b, a)
    ensures a.priority < b.priority ==> Before(a, b)
    ensures a.priority == b.priority ==> (Before(a, b) <==> a.seqNo < b.seqNo)
  {
  }

  datatype Future =
    | Waiting
    | Answered            // set_result
    | Failed              // set_exception, at shutdown
    | Abandoned           // cancelled by its own caller: a timeout or a cancellation

  datatype Stage = Created(cancelRequested: bool) | Running | Finished

  /** A dispatch task.  A message is enqueued once and so has at most one, named by the message. */
  datatype Task = Task(agent: Agent, stage: Stage)

  /** `Task.cancel`: one that has not started will never run its body; the rest may be told in their await. */
  function Cancelled(t: Task): Task {
    if t.stage.Created? then t.(stage := Created(true)) else t
  }

  /** `Task.cancel` on each of a set of tasks. */
  function CancelAll(tasks: map<MsgId, Task>, ts: set<MsgId>): (r: map<MsgId, Task>)
    ensures r.Keys == tasks.Keys
    ensures forall t | t in tasks :: r[t].stage.Finished? <==> tasks[t].stage.Finished?
    ensures forall t | t in tasks && (t !in ts || !tasks[t].stage.Created?) :: r[t] == tasks[t]
    ensures forall t | t in tasks && t in ts && tasks[t].stage.Created? :: r[t] == Task(tasks[t].agent, Created(true))
  {
    map t | t in tasks :: if t in ts then Cancelled(tasks[t]) else tasks[t]
  }

  /** How a handler's await ends. */
  datatype Result = Responded | ReturnedNone | RaisedException | WasCancelled

  predicate Live(tasks: map<MsgId, Task>, m: MsgId) {
    m in tasks && !tasks[m].stage.Finished?
  }

  class MessageBus {
    var registered: set<Agent>                  // the names that have a queue
    var queued: map<MsgId, Slot>                // every queued message; its target names the queue
    var handlers: map<Agent, bool>              // registered, and whether with a handler
    var pending: set<MsgId>
    var futures: map<MsgId, Future>
    var messages: map<MsgId, Message>
    var flagged: set<MsgId>                     // msg.cancelled
    var dispatchTasks: set<MsgId>               // the tracked dispatches of requests
    var byAgent: map<Agent, set<MsgId>>
    var tasks: map<MsgId, Task>                 // every dispatch task ever created
    var seqNo: nat
    var shuttingDown: bool

    ghost var sent: seq<MsgId>                  // every message enqueued, in order
    ghost var completions: map<MsgId, nat>      // how often each future was completed
    ghost var handled: set<MsgId>               // messages that reached a handler
    ghost var droppedInQueue: set<MsgId>        // flagged while still queued
    ghost var stranded: set<MsgId>              // requests nobody is left to answer

    predicate WaitingOn(m: MsgId)
      reads `futures
    {
      m in futures && futures[m].Waiting?
    }

    /** A queued message belongs to a registered agent, has its place in the order of sending and no task yet. */
    ghost predicate QueuedWell(m: MsgId)
      reads this
    {
      m in queued ==>
        && m in messages && messages[m].target in registered && m !in tasks
        && queued[m].seqNo < |sent| && sent[queued[m].seqNo] == m
    }

    /** A future is completed at most once; one nobody completed is pending, and
     either somebody has it in hand or it is stranded, exactly one of the two. */
    ghost predicate Answerable(m: MsgId)
      reads this
    {
      && (m in pending ==> m in futures)
      && (m in futures ==>
            && m in messages && messages[m].isRequest
            && m in completions && completions[m] == (if futures[m].Waiting? then 0 else 1))
      && (m in stranded ==> m in messages && m !in queued && !Live(tasks, m))
      && (WaitingOn(m) ==> m in pending && m !in flagged && (m in queued || Live(tasks, m) || m in stranded))
    }

    /** A message flagged in its queue never gets a task and never reaches a handler. */
    ghost predicate Respected(m: MsgId)
      reads this
    {
      && (m in droppedInQueue ==> m in flagged && m !in tasks && m !in handled)
      && (m in flagged || m in tasks ==> m in messages)
      && (m in handled ==> m in tasks)
    }

    ghost predicate Fine(m: MsgId)
      reads this
    {
      QueuedWell(m) && Answerable(m) && Respected(m)
    }

    /** What every step keeps. */
    ghost predicate Valid()
      reads this
    {
      seqNo == |sent| && forall m :: Fine(m)
    }

    constructor ()
      ensures Valid()
      ensures registered == {} && messages == map[] && futures == map[] && tasks == map[] && !shuttingDown
      ensures queued == map[] && handled == {} && flagged == {} && stranded == {} && byAgent == map[]
    {
      registered, queued, handlers, pending, futures, messages := {}, map[], map[], {}, map[], map[];
      flagged, dispatchTasks, byAgent, tasks := {}, {}, map[], map[];
      seqNo, shuttingDown := 0, false;
      sent, completions, handled, droppedInQueue, stranded := [], map[], {}, {}, {};
    }

    // -------------------------------------------------------------------------
    // Registration
    // -------------------------------------------------------------------------

    /** `register`: keep an existing queue, rebind the handler. */
    method Register(name: Agent, hasHandler: bool)
      requires Valid()
      modifies `registered, `handlers
      ensures Valid()
      ensures registered == old(registered) + {name} && handlers == old(handlers)[name := hasHandler]
    {
      registered := registered + {name};
      handlers := handlers[name := hasHandler];
      forall n
        ensures Fine(n)
      {
        assert old(Fine(n));
      }
    }

    /** Pop a request from `pending` and complete its future unless it is already done. */
    method Settle(m: MsgId, how: Future)
      requires Valid() && !how.Waiting?
      modifies `pending, `futures, `completions
      ensures Valid() && !WaitingOn(m)
      ensures futures == if old(WaitingOn(m)) then old(futures)[m := how] else old(futures)
      ensures pending == old(pending) - {m}
    {
      assert Fine(m);
      if m in pending {
        pending := pending - {m};
        if futures[m].Waiting? {
          futures := futures[m := how];
          completions := completions[m := completions[m] + 1];
        }
      }
      forall n
        ensures Fine(n)
      {
        assert old(Fine(n));
      }
    }

    /** The messages waiting in one agent's queue. */
    function QueueOf(name: Agent): set<MsgId>
      reads `queued, `messages
    {
      set m | m in queued && m in messages && messages[m].target == name
    }

    /** `queue.get_nowait`: the least priority value, then the earliest sent. */
    method First(ms: set<MsgId>) returns (m: MsgId)
      requires Valid() && ms != {} && ms <= queued.Keys
      ensures m in ms && forall n | n in ms && n != m :: Before(queued[m], queued[n])
    {
      m :| m in ms;
      var todo := ms - {m};
      while todo != {}
        invariant todo <= ms && m in ms && m !in todo
        invariant forall n | n in ms && n != m && n !in todo :: Before(queued[m], queued[n])
        decreases todo
      {
        var n :| n in todo;
        todo := todo - {n};
        assert Fine(n) && Fine(m);
        if Before(queued[n], queued[m]) {
          m := n;
        }
      }
    }

    /** Take one message out of its queue and settle it. */
    method SettleFirst(m: MsgId)
      requires Valid() && m in queued
      modifies `queued, `pending, `futures, `completions
      ensures Valid() && queued == old(queued) - {m} && !WaitingOn(m)
      ensures futures == if old(WaitingOn(m)) then old(futures)[m := Answered] else old(futures)
    {
      Settle(m, Answered);
      label settled:
      queued := queued - {m};
      forall n
        ensures Fine(n)
      {
        assert old@settled(Fine(n));
      }
    }

    /** Settle every message of an agent's queue, in queue order. */
    method Drain(inbox: set<MsgId>)
      requires Valid() && inbox <= queued.Keys
      modifies `queued, `pending, `futures, `completions
      ensures Valid() && queued == old(queued) - inbox
      ensures forall m | m in inbox :: !WaitingOn(m)
      ensures futures.Keys == old(futures).Keys
      ensures forall m | m in futures && m !in inbox :: futures[m] == old(futures)[m]
    {
      var left := inbox;
      while left != {}
        invariant Valid() && left <= inbox && left <= queued.Keys
        invariant queued == old(queued) - (inbox - left)
        invariant forall m | m in inbox && m !in left :: !WaitingOn(m)
        invariant futures.Keys == old(futures).Keys
        invariant forall m | m in futures && m !in inbox :: futures[m] == old(futures)[m]
        decreases left
      {
        var m := First(left);
        SettleFirst(m);
        assert inbox - (left - {m}) == (inbox - left) + {m};
        left := left - {m};
      }
      assert inbox - left == inbox;
    }

    /** Cancel what the agent's consumer has dispatched. */
    method CancelDispatches(name: Agent)
      requires Valid()
      modifies `tasks, `byAgent
      ensures Valid() && byAgent == old(byAgent) - {name}
      ensures tasks == if name in old(byAgent) then CancelAll(old(tasks), old(byAgent)[name]) else old(tasks)
    {
      if name in byAgent {
        tasks := CancelAll(tasks, byAgent[name]);
      }
      byAgent := byAgent - {name};
      forall n
        ensures Fine(n)
      {
        assert old(Fine(n));
      }
    }

    /** `unregister`: cancel the agent's dispatches, settle what is still queued, drop queue and handler. */
    method Unregister(name: Agent)
      requires Valid()
      modifies `registered, `tasks, `byAgent, `queued, `handlers, `pending, `futures, `completions
      ensures Valid()
      ensures registered == old(registered) - {name} && handlers == old(handlers) - {name} &&
                byAgent == old(byAgent) - {name}
      ensures tasks == if name in old(byAgent) then CancelAll(old(tasks), old(byAgent)[name]) else old(tasks)
      // Every request that was still queued has been answered, and nobody else's future changes.
      ensures queued == old(queued) - old(QueueOf(name)) && forall m | m in old(QueueOf(name)) :: !WaitingOn(m)
      ensures futures.Keys == old(futures).Keys
      ensures forall m | m in futures && m !in old(QueueOf(name)) :: futures[m] == old(futures)[m]
    {
      CancelDispatches(name);
      Drain(QueueOf(name));
      label drained:
      registered := registered - {name};
      handlers := handlers - {name};
      forall n
        ensures Fine(n)
      {
        assert old@drained(Fine(n));
      }
    }

    // -------------------------------------------------------------------------
    // Sending
    // -------------------------------------------------------------------------

    /** `send_checked`: an unknown target drops the message, and says so. */
    method Enqueue(m: MsgId, msg: Message) returns (accepted: bool)
      modifies `queued, `messages, `seqNo, `sent
      ensures accepted <==> msg.target in registered
      ensures messages == old(messages)[m := msg]
      ensures queued == if accepted then old(queued)[m := Slot(msg.priority, old(seqNo))] else old(queued)
      ensures sent == if accepted then old(sent) + [m] else old(sent)
      ensures accepted ==> forall n | n in old(queued) && n != m && old(queued)[n].seqNo < old(seqNo) ::
                queued[n].priority <= msg.priority ==> Before(queued[n], queued[m])
      ensures seqNo == if accepted then old(seqNo) + 1 else old(seqNo)
    {
      messages := messages[m := msg];
      accepted := msg.target in registered;
      if accepted {
        queued := queued[m := Slot(msg.priority, seqNo)];
        seqNo, sent := seqNo + 1, sent + [m];
      }
    }

    /** `send` and `notify`: a message nobody waits for. */
    method Send(m: MsgId, msg: Message) returns (accepted: bool)
      requires Valid() && m !in messages && !msg.isRequest
      modifies `queued, `messages, `seqNo, `sent
      ensures Valid()
      ensures accepted <==> msg.target in registered
      ensures messages == old(messages)[m := msg]
      ensures queued == if accepted then old(queued)[m := Slot(msg.priority, old(seqNo))] else old(queued)
    {
      accepted := Enqueue(m, msg);
      forall n
        ensures Fine(n)
      {
        assert old(Fine(n));
      }
    }

    method OpenFuture(m: MsgId)
      modifies `futures, `completions, `pending
      ensures futures == old(futures)[m := Waiting] && completions == old(completions)[m := 0] &&
                pending == old(pending) + {m}
    {
      futures, completions, pending := futures[m := Waiting], completions[m := 0], pending + {m};
    }

    /** `request`, up to its await: refused at shutdown, else a future and a queued message. */
    method Request(m: MsgId, msg: Message) returns (ok: bool)
      requires Valid() && m !in messages && msg.isRequest
      modifies `queued, `messages, `seqNo, `sent, `pending, `futures, `completions, `stranded
      ensures Valid()
      ensures ok <==> !shuttingDown
      ensures !ok ==>
                queued == old(queued) && futures == old(futures) && messages == old(messages) && pending == old(pending)
      ensures ok ==> pending == old(pending) + {m}
      ensures ok ==> futures == old(futures)[m := Waiting] && messages == old(messages)[m := msg]
      ensures ok && msg.target in registered ==>
                queued == old(queued)[m := Slot(msg.priority, old(seqNo))] && stranded == old(stranded)
      ensures ok && msg.target !in registered ==> queued == old(queued) && stranded == old(stranded) + {m}
    {
      ok := !shuttingDown;
      if ok {
        OpenFuture(m);
        var accepted := Enqueue(m, msg);
        if !accepted {
          stranded := stranded + {m};
        }
        forall n
          ensures Fine(n)
        {
          assert old(Fine(n));
        }
      }
    }

    // -------------------------------------------------------------------------
    // The caller gives up
    // -------------------------------------------------------------------------

    /** The timeout or the cancellation of the caller cancels the future it awaits. */
    method Abandon(m: MsgId)
      requires Valid() && m in futures
      modifies `futures, `completions
      ensures Valid() && !WaitingOn(m)
      ensures futures == if old(WaitingOn(m)) then old(futures)[m := Abandoned] else old(futures)
    {
      assert Fine(m);
      if futures[m].Waiting? {
        futures := futures[m := Abandoned];
        completions := completions[m := completions[m] + 1];
      }
      forall n
        ensures Fine(n)
      {
        assert old(Fine(n));
      }
    }

    /** The caller resumes with a timeout. */
    method TimedOut(m: MsgId)
      requires Valid() && m in futures && !WaitingOn(m)
      modifies `pending
      ensures Valid() && pending == old(pending) - {m}
    {
      pending := pending - {m};
      forall n
        ensures Fine(n)
      {
        assert old(Fine(n));
      }
    }

    /** The caller resumes with its cancellation: stop the dispatch, or flag the queued message. */
    method CallerCancelled(m: MsgId)
      requires Valid() && m in futures && !WaitingOn(m)
      modifies `pending, `tasks, `flagged, `droppedInQueue
      ensures Valid() && pending == old(pending) - {m}
      ensures flagged == if m in dispatchTasks then old(flagged) else old(flagged) + {m}
      ensures droppedInQueue ==
                if m in queued && m !in dispatchTasks then old(droppedInQueue) + {m} else old(droppedInQueue)
      ensures tasks == if m in dispatchTasks then CancelAll(old(tasks), {m}) else old(tasks)
    {
      pending := pending - {m};
      if m in dispatchTasks {
        tasks := CancelAll(tasks, {m});
      } else {
        flagged := flagged + {m};
        if m in queued {
          droppedInQueue := droppedInQueue + {m};
        }
      }
      forall n
        ensures Fine(n)
      {
        assert old(Fine(n));
      }
    }

    // -------------------------------------------------------------------------
    // The consumer and its dispatch tasks
    // -------------------------------------------------------------------------

    /** Create the dispatch task of a message, and the references to it. */
    method Spawn(name: Agent, m: MsgId, isRequest: bool)
      modifies `tasks, `dispatchTasks, `byAgent
      ensures tasks == old(tasks)[m := Task(name, Created(false))]
      ensures dispatchTasks == if isRequest then old(dispatchTasks) + {m} else old(dispatchTasks)
      ensures byAgent == old(byAgent)[name := (if name in old(byAgent) then old(byAgent)[name] else {}) + {m}]
    {
      tasks := tasks[m := Task(name, Created(false))];
      if isRequest {
        dispatchTasks := dispatchTasks + {m};
      }
      byAgent := byAgent[name := (if name in byAgent then byAgent[name] else {}) + {m}];
    }

    /** One turn of the consumer loop: a flagged message is dropped, any other gets a task. */
    method Dequeue(name: Agent) returns (m: MsgId, dropped: bool)
      requires Valid() && QueueOf(name) != {}
      modifies `queued, `tasks, `dispatchTasks, `byAgent
      ensures Valid()
      // The least slot leaves first: among equal priorities, the one sent first.
      ensures m in old(QueueOf(name)) && m in messages && queued == old(queued) - {m}
      ensures forall n | n in old(QueueOf(name)) && n != m :: Before(old(queued)[m], old(queued)[n])
      ensures dropped <==> m in flagged
      ensures m !in old(tasks)
      ensures tasks == if dropped then old(tasks) else old(tasks)[m := Task(name, Created(false))]
      ensures byAgent == if dropped then old(byAgent)
                         else old(byAgent)[name := (if name in old(byAgent) then old(byAgent)[name] else {}) + {m}]
      ensures dispatchTasks ==
                if dropped || !messages[m].isRequest then old(dispatchTasks) else old(dispatchTasks) + {m}
    {
      m := First(QueueOf(name));
      assert Fine(m);
      queued := queued - {m};
      dropped := m in flagged;
      if !dropped {
        Spawn(name, m, messages[m].isRequest);
      }
      forall n
        ensures Fine(n)
      {
        assert old(Fine(n));
      }
    }

    /** A dispatch about to enter its body with a handler to call. */
    predicate Serves(t: Task)
      reads `handlers
    {
      t.stage == Created(false) && t.agent in handlers && handlers[t.agent]
    }

    /** The first step of a dispatch task.  Cancelled before it, or without a handler, it answers nobody. */
    method Start(m: MsgId)
      requires Valid() && m in tasks && tasks[m].stage.Created?
      modifies `tasks, `dispatchTasks, `handled, `stranded
      ensures Valid()
      ensures tasks == old(tasks)[m := old(tasks)[m].(stage := if Serves(old(tasks)[m]) then Running else Finished)]
      ensures handled == if Serves(old(tasks)[m]) then old(handled) + {m} else old(handled)
      ensures Serves(old(tasks)[m]) <==>
                !old(tasks)[m].stage.cancelRequested && old(tasks)[m].agent in handlers && handlers[old(tasks)[m].agent]
      ensures stranded == if Serves(old(tasks)[m]) then old(stranded) else old(stranded) + {m}
      // A task that never entered its body is never untracked either.
      ensures dispatchTasks ==
                if Serves(old(tasks)[m]) || old(tasks)[m].stage.cancelRequested then old(dispatchTasks)
                else old(dispatchTasks) - {m}
    {
      var task := tasks[m];
      if task.stage.cancelRequested {
        tasks := tasks[m := task.(stage := Finished)];       // the body, and its try, never ran
        stranded := stranded + {m};
      } else if task.agent in handlers && handlers[task.agent] {
        tasks := tasks[m := task.(stage := Running)];
        handled := handled + {m};
      } else {
        tasks := tasks[m := task.(stage := Finished)];       // no handler: nothing answers
        dispatchTasks := dispatchTasks - {m};
        stranded := stranded + {m};
      }
      forall n
        ensures Fine(n)
      {
        assert old(Fine(n));
      }
    }

    /** The handler's await ends, in any of its four ways. */
    method Finish(m: MsgId, result: Result)
      requires Valid() && m in tasks && tasks[m].stage.Running?
      modifies `tasks, `dispatchTasks, `pending, `futures, `completions
      ensures Valid()
      // A request that reached a handler is settled, however the handler ended.
      ensures !WaitingOn(m)
      ensures tasks == old(tasks)[m := old(tasks)[m].(stage := Finished)]
      ensures dispatchTasks ==
                if m in messages && messages[m].isRequest then old(dispatchTasks) - {m} else old(dispatchTasks)
      ensures futures == if old(WaitingOn(m)) then old(futures)[m := Answered] else old(futures)
    {
      assert Fine(m);
      match result {
        case Responded =>
          if messages[m].isRequest {
            Settle(m, Answered);
          }
        case ReturnedNone =>
          if messages[m].isRequest && m in pending {
            Settle(m, Answered);
          }
        case RaisedException =>
          if messages[m].isRequest {
            Settle(m, Answered);
          }
        case WasCancelled =>
          Settle(m, Answered);
      }
      label settled:
      if messages[m].isRequest {
        dispatchTasks := dispatchTasks - {m};
      }
      tasks := tasks[m := tasks[m].(stage := Finished)];
      forall n
        ensures Fine(n)
      {
        assert old@settled(Fine(n));
      }
    }

    /** `respond`, called by a handler itself. */
    method Respond(m: MsgId)
      requires Valid()
      modifies `pending, `futures, `completions
      ensures Valid() && !WaitingOn(m)
      ensures futures == if old(WaitingOn(m)) then old(futures)[m := Answered] else old(futures)
    {
      Settle(m, Answered);
    }

    // -------------------------------------------------------------------------
    // Shutdown
    // -------------------------------------------------------------------------

    method BeginShutdown()
      requires Valid()
      modifies `shuttingDown
      ensures Valid() && shuttingDown
    {
      shuttingDown := true;
      forall n
        ensures Fine(n)
      {
        assert old(Fine(n));
      }
    }

    /** `fail_pending`: every request still waiting fails. */
    method FailPending()
      requires Valid()
      modifies `pending, `futures, `completions
      ensures Valid() && pending == {} && forall m :: !WaitingOn(m)
      ensures futures.Keys == old(futures).Keys
      ensures forall m | m in futures :: futures[m] == if old(futures)[m].Waiting? then Failed else old(futures)[m]
    {
      forall m
        ensures WaitingOn(m) ==> m in pending && m in completions && completions[m] == 0
      {
        assert Fine(m);
      }
      completions := map m | m in completions ::
        if m in futures && futures[m].Waiting? then completions[m] + 1 else completions[m];
      futures := map m | m in futures :: if m in pending && futures[m].Waiting? then Failed else futures[m];
      pending := {};
      forall n
        ensures Fine(n)
      {
        assert old(Fine(n));
      }
    }
  }

  /**
   The one gap the accounting leaves to the request timeout: a dispatch task that eviction cancels
   before its first step never enters its body, so the caller it was created for is not answered.
   */
  method EvictedBeforeFirstStep(m: MsgId, agent: Agent) returns (bus: MessageBus)
    ensures bus.Valid() && fresh(bus)
    ensures bus.WaitingOn(m) && m in bus.stranded && m !in bus.handled && m !in bus.queued && !Live(bus.tasks, m)
  {
    bus := Dispatched(m, agent);
    bus.Unregister(agent);
    bus.Start(m);
  }

  /** A bus with one request, whose dispatch task has been created and has not run. */
  method Dispatched(m: MsgId, agent: Agent) returns (bus: MessageBus)
    ensures bus.Valid() && fresh(bus)
    ensures bus.WaitingOn(m) && m !in bus.handled && bus.queued == map[]
    ensures agent in bus.byAgent && m in bus.byAgent[agent]
    ensures m in bus.tasks && bus.tasks[m] == Task(agent, Created(false))
  {
    bus := new MessageBus();
    bus.Register(agent, true);
    var ok := bus.Request(m, Message(agent, true, 1));
    assert bus.queued.Keys == {m} && m in bus.QueueOf(agent);
    var n, dropped := bus.Dequeue(agent);
    assert n == m;
  }
}
