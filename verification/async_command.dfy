/** The command/acknowledgement correlation state machine `AsyncCommand<T, U>`
    of src/autonnic_config.h.

    One command is tracked at a time. `send` arms a single delayed timeout
    reaction in the scheduler; an acknowledgement received while the command
    is pending cancels that reaction and resolves the command; a timeout that
    fires while it is still pending resolves it as timed out.

    The scheduler itself is an external collaborator. The model keeps only its
    slice that concerns one command: the delay reactions of this command that
    are still queued, each with the time at which it falls due, and the
    allocator of fresh reaction handles. */
module AsyncCommand {
  import opened Wrappers

  /** Delay, in milliseconds, of the timeout reaction armed by `send`. */
  const TimeoutMs: nat := 2000

  datatype Status = Ready | Pending | Success | Failure | Timeout

  /** A handle of a delay reaction in the scheduler. */
  type Handle = nat

  /** The state of one command, generic in the payload type `U` it emits. */
  datatype Command<U> = Command(
    status: Status,
    timer: Option<Handle>,        // the stored timeout reaction, or null
    scheduled: map<Handle, nat>,  // this command's queued reactions and their due times
    nextHandle: Handle,           // the scheduler's next unused handle
    sentAt: nat,                  // time of the latest send (the elapsed counter's origin)
    resultMessage: string,
    emitted: seq<U>)              // payloads emitted to consumers, oldest first

  /** The events a command reacts to. */
  datatype Event<U> =
    | OnSend(now: nat)
    | OnTimeout(handle: Handle, now: nat)
    | OnAck(ok: bool, message: string, payload: U)

  /** The invariant every reachable command keeps: it is pending exactly when
      it stores a timeout reaction, that reaction is the only one of its
      reactions the scheduler still holds, it falls due TimeoutMs after the
      latest send, and its handle was allocated before. */
  ghost predicate Valid<U>(c: Command<U>) {
    && (c.status == Pending <==> c.timer.Some?)
    && match c.timer
       case None => c.scheduled == map[]
       case Some(h) => h < c.nextHandle && c.scheduled == map[h := c.sentAt + TimeoutMs]
  }

  /** The number of this command's timeout reactions the scheduler still holds. */
  function LiveTimeouts<U>(c: Command<U>): nat {
    |c.scheduled|
  }

  /** The scheduler runs reaction `h` at time `now` only while it is queued and due. */
  predicate Due<U>(c: Command<U>, h: Handle, now: nat) {
    h in c.scheduled && c.scheduled[h] <= now
  }

  /** A freshly constructed command. */
  function Init<U>(): (c: Command<U>)
    ensures Valid(c)
    ensures c.status == Ready && c.timer == None && LiveTimeouts(c) == 0
    ensures c.resultMessage == "" && c.emitted == []
  {
    Command(Ready, None, map[], 0, 0, "", [])
  }

  /** `send`: restart the elapsed counter, mark the command pending, cancel the
      stored timeout reaction if there is one and arm a new one. */
  function Send<U>(c: Command<U>, now: nat): (c': Command<U>)
    ensures c'.status == Pending && c'.sentAt == now
    ensures c'.resultMessage == c.resultMessage && c'.emitted == c.emitted
    ensures Valid(c) ==> Valid(c') && LiveTimeouts(c') == 1
    ensures Valid(c) ==> c'.timer.Some? && c'.timer.value !in c.scheduled
    ensures Valid(c) ==> c'.scheduled[c'.timer.value] == now + TimeoutMs
    ensures Valid(c) && c.timer.Some? ==> c.timer.value !in c'.scheduled
  {
    var cancelled := if c.timer.Some? then c.scheduled - {c.timer.value} else c.scheduled;
    var h := c.nextHandle;
    c.(status := Pending,
       sentAt := now,
       timer := Some(h),
       scheduled := cancelled[h := now + TimeoutMs],
       nextHandle := h + 1)
  }

  /** The scheduler runs reaction `h` at time `now`: a pending command times
      out, any other status is kept, and the stored reaction is cleared. A
      reaction that is no longer queued, or not yet due, does not run. */
  function Fire<U>(c: Command<U>, h: Handle, now: nat): (c': Command<U>)
    ensures !Due(c, h, now) ==> c' == c
    ensures Due(c, h, now) ==> c'.timer == None && h !in c'.scheduled
    ensures Due(c, h, now) ==> c'.status == (if c.status == Pending then Timeout else c.status)
    ensures c'.resultMessage == c.resultMessage && c'.emitted == c.emitted
    ensures Valid(c) ==> Valid(c')
    ensures Valid(c) && c'.status != c.status ==> c'.status == Timeout && now >= c.sentAt + TimeoutMs
    ensures Valid(c) && c.status == Pending && now >= c.sentAt + TimeoutMs && c.timer == Some(h)
            ==> c'.status == Timeout
  {
    if Due(c, h, now) then
      c.(status := if c.status == Pending then Timeout else c.status,
         timer := None,
         scheduled := c.scheduled - {h})
    else
      c
  }

  /** The result consumer: an acknowledgement is taken only while the command
      is pending. It then cancels the stored timeout reaction, records the
      message, and resolves to success (emitting the payload) or failure. */
  function Ack<U>(c: Command<U>, ok: bool, message: string, payload: U): (c': Command<U>)
    ensures c.status != Pending ==> c' == c
    ensures c.status == Pending ==> c'.timer == None && c'.resultMessage == message
    ensures c.status == Pending && c.timer.Some? ==> c.timer.value !in c'.scheduled
    ensures c.status == Pending && ok ==> c'.status == Success && c'.emitted == c.emitted + [payload]
    ensures c.status == Pending && !ok ==> c'.status == Failure && c'.emitted == c.emitted
    ensures Valid(c) ==> Valid(c')
    ensures Valid(c) && c.status == Pending ==> LiveTimeouts(c') == 0
  {
    if c.status != Pending then
      c
    else
      var cancelled := if c.timer.Some? then c.scheduled - {c.timer.value} else c.scheduled;
      c.(timer := None,
         scheduled := cancelled,
         resultMessage := message,
         status := if ok then Success else Failure,
         emitted := if ok then c.emitted + [payload] else c.emitted)
  }

  function Step<U>(c: Command<U>, e: Event<U>): Command<U> {
    match e
    case OnSend(now) => Send(c, now)
    case OnTimeout(h, now) => Fire(c, h, now)
    case OnAck(ok, message, payload) => Ack(c, ok, message, payload)
  }

  /** The command after the events of `trace`, oldest first. */
  function Run<U>(c: Command<U>, trace: seq<Event<U>>): Command<U>
    decreases |trace|
  {
    if trace == [] then c else Run(Step(c, trace[0]), trace[1..])
  }

  predicate NoSend<U>(trace: seq<Event<U>>) {
    forall i :: 0 <= i < |trace| ==> !trace[i].OnSend?
  }

  /** The number of positive acknowledgements in `trace`. */
  function PositiveAcks<U>(trace: seq<Event<U>>): nat {
    if trace == [] then 0
    else (if trace[0].OnAck? && trace[0].ok then 1 else 0) + PositiveAcks(trace[1..])
  }

  lemma {:induction false} RunPreservesValid<U>(c: Command<U>, trace: seq<Event<U>>)
    requires Valid(c)
    ensures Valid(Run(c, trace))
    decreases |trace|
  {
    if trace != [] {
      RunPreservesValid(Step(c, trace[0]), trace[1..]);
    }
  }

  /** Over any sequence of events, a command holds at most one live timeout,
      and it holds one exactly while it is pending. */
  lemma AtMostOneLiveTimeout<U>(trace: seq<Event<U>>)
    ensures LiveTimeouts(Run(Init(), trace)) <= 1
    ensures Run(Init(), trace).status == Pending <==> LiveTimeouts(Run(Init(), trace)) == 1
  {
    RunPreservesValid(Init<U>(), trace);
  }

  /** A resolved command (success, failure or timeout) is not changed by any
      sequence of events that contains no `send`: stale acknowledgements are
      ignored and no timeout of it is left to fire. */
  lemma {:induction false} ResolvedPersists<U>(c: Command<U>, trace: seq<Event<U>>)
    requires Valid(c) && c.status != Ready && c.status != Pending
    requires NoSend(trace)
    ensures Run(c, trace) == c
    decreases |trace|
  {
    if trace != [] {
      assert !trace[0].OnSend?;
      assert Step(c, trace[0]) == c;
      ResolvedPersists(c, trace[1..]);
    }
  }

  /** An acknowledgement accepted while pending cannot be overturned later,
      in particular not by the timeout armed for the same send. */
  lemma {:induction false} AcceptedAckNotOverturned<U>(c: Command<U>, ok: bool, message: string, payload: U,
                                    trace: seq<Event<U>>)
    requires Valid(c) && c.status == Pending
    requires NoSend(trace)
    ensures Run(Ack(c, ok, message, payload), trace).status == (if ok then Success else Failure)
    ensures Run(Ack(c, ok, message, payload), trace).resultMessage == message
  {
    ResolvedPersists(Ack(c, ok, message, payload), trace);
  }

  /** Once a reaction has been cancelled it never becomes live again, because
      the scheduler only hands out fresh handles. */
  lemma {:induction false} CancelledStaysCancelled<U>(c: Command<U>, h: Handle, trace: seq<Event<U>>)
    requires Valid(c) && h < c.nextHandle && h !in c.scheduled
    ensures h !in Run(c, trace).scheduled
    ensures forall now :: Fire(Run(c, trace), h, now) == Run(c, trace)
    decreases |trace|
  {
    if trace != [] {
      var c1 := Step(c, trace[0]);
      assert c.nextHandle <= c1.nextHandle;
      CancelledStaysCancelled(c1, h, trace[1..]);
    }
  }

  /** A timeout superseded by a new `send` never fires afterwards, whatever
      events follow. */
  lemma {:induction false} SupersededTimeoutNeverFires<U>(c: Command<U>, now: nat, trace: seq<Event<U>>, later: nat)
    requires Valid(c) && c.timer.Some?
    ensures Fire(Run(Send(c, now), trace), c.timer.value, later) == Run(Send(c, now), trace)
  {
    CancelledStaysCancelled(Send(c, now), c.timer.value, trace);
  }

  /** Emitted payloads are only ever appended, at most one per positive
      acknowledgement. */
  lemma {:induction false} EmitsOnlyOnPositiveAcks<U>(c: Command<U>, trace: seq<Event<U>>)
    ensures c.emitted <= Run(c, trace).emitted
    ensures |Run(c, trace).emitted| <= |c.emitted| + PositiveAcks(trace)
    decreases |trace|
  {
    if trace != [] {
      EmitsOnlyOnPositiveAcks(Step(c, trace[0]), trace[1..]);
    }
  }
}
