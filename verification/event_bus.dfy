/** The Python bus: one consumed batch, as a sequence of steps of the delivery protocol. */
module EventBuses {
  import opened Options
  import opened Delivery

  type Body = string

  datatype Output =
    | Published(topic: string, payload: string)
    | DeadLetter(body: Body, sourceTopic: string, error: string, group: string)

  /** An exception of a handler; a delivery error of the bus is none of the data's fault. */
  datatype Raised = Undelivered | Fault(error: string)

  /** What one call of a handler did before it returned or raised. */
  datatype HandlerRun = HandlerRun(outputs: seq<Output>, raised: Option<Raised>)

  datatype Polled = Nothing | Error(fatal: bool) | Found(place: Place)

  datatype Failure = DeliveryError | FatalConsumerError | QueueFull | CommitError

  const MAX_ERROR_HEADER := 500

  /** The text of the exception for a full local queue. */
  const BUFFER_ERROR := "Local: Queue full"

  /** The text of an exception, as a dead letter carries it. */
  function ErrorHeader(error: string): string {
    if |error| <= MAX_ERROR_HEADER then error else error[..MAX_ERROR_HEADER]
  }

  lemma ErrorHeaderIs(error: string)
    ensures ErrorHeader(error) <= error && |ErrorHeader(error)| == if |error| < 500 then |error| else 500
  {
  }

  predicate EndsInDeadLetter(body: Body, q: seq<Output>) {
    q != [] && q[|q| - 1].DeadLetter? && q[|q| - 1].body == body
  }

  /** A message is finished with all of a handler's outputs, or with a dead letter after any of them. */
  function Contract(publishes: (Body, seq<Output>) -> bool): Handler<Body, Output> {
    Handler((m, r) => true, (m, q) => publishes(m, q) || EndsInDeadLetter(m, q))
  }

  /** The consumer's list of handled messages is that of the attempts made. */
  ghost predicate Lists(messages: seq<Origin>, done: seq<Attempt<Output>>) {
    |messages| == |done| && forall i :: 0 <= i < |done| ==> messages[i] == done[i].origin
  }

  lemma NextOffsetsStep<R>(done: seq<Attempt<R>>, i: nat)
    requires i < |done|
    ensures var m := NextOffsets(done[..i]); var o := done[i].origin;
            NextOffsets(done[..i + 1]) == m[o.place := Max(Offset(m, o.place), o.offset + 1)]
  {
    assert done[..i + 1][..i] == done[..i];
  }

  /** `_next_offsets` */
  method NextOffsetsOf(messages: seq<Origin>, ghost done: seq<Attempt<Output>>) returns (next: map<Place, nat>)
    requires Lists(messages, done)
    ensures next == NextOffsets(done)
  {
    hide NextOffsets;
    next := map[];
    NoOffsets<Output>();
    var i := 0;
    while i < |messages|
      invariant 0 <= i <= |messages| && next == NextOffsets(done[..i])
    {
      var o := messages[i];
      NextOffsetsStep(done, i);
      next := next[o.place := Max(Offset(next, o.place), o.offset + 1)];
      i := i + 1;
    }
    assert done[..|done|] == done;
  }

  lemma NothingListed(done: seq<Attempt<Output>>)
    requires Lists([], done)
    ensures done == []
  {
  }

  lemma NoOffsets<R>()
    ensures NextOffsets<R>([]) == map[]
  {
  }

  class EventBus {
    const publishes: (Body, seq<Output>) -> bool
    const group: string
    const maxBatch: nat
    /** The brokers, the consumer and the producer queue. */
    var world: World<Body, Output>
    /** `_batch.errors`: the list the delivery callbacks of the current batch append to. */
    var errors: seq<string>
    /** The steps taken since `start`. */
    ghost const start: World<Body, Output>
    ghost var steps: seq<Step<Body, Output>>
    /** The results of all polls, and the messages among them. */
    ghost var results: seq<Polled>
    ghost var polls: seq<Origin>
    /** How often the local queue refused a record, and the records it refused even after a flush. */
    ghost var refusals: nat
    ghost var unsent: seq<Output>
    /** How often a batch ran out of time, and how often the broker refused a commit. */
    ghost var expiries: nat
    ghost var commitFailures: nat

    constructor (publishes: (Body, seq<Output>) -> bool, group: string, maxBatch: nat, world: World<Body, Output>)
      requires maxBatch >= 1 && Inv(Contract(publishes), world)
      ensures Valid() && this.world == start == world && this.publishes == publishes && this.group == group
    {
      this.publishes, this.group, this.maxBatch := publishes, group, maxBatch;
      this.world, start, errors, steps := world, world, [], [];
      results, polls, refusals, unsent, expiries, commitFailures := [], [], 0, [], 0, 0;
    }

    ghost predicate Valid()
      reads this
    {
      Inv(Contract(publishes), world) && Exec(Contract(publishes), start, steps) == Some(world)
    }

    /** Between batches: nothing in hand, nothing queued, everything handled committed. */
    ghost predicate Idle()
      reads this
    {
      && Valid() && world.session.Up? && world.session.current.None?
      && world.session.pending == [] && world.session.done == [] && world.session.failed == 0
    }

    /** Within a batch: every rejected delivery is on the error list. */
    ghost predicate InBatch()
      reads this
    {
      Valid() && world.session.Up? && world.session.failed == |errors|
    }

    method Do(s: Step<Body, Output>)
      requires Valid() && Enabled(Contract(publishes), world, s)
      modifies this`world, this`steps
      ensures Valid() && world == Apply(Contract(publishes), old(world), s) && steps == old(steps) + [s]
    {
      hide Inv, Apply, Enabled;
      StepKeeps(Contract(publishes), world, s);
      assert (steps + [s])[..|steps|] == steps;
      world := Apply(Contract(publishes), world, s);
      steps := steps + [s];
    }

    /** `Producer.flush`: some deliveries are reported, in any order and with any outcome. */
    method Flush() returns (remaining: nat)
      requires InBatch()
      modifies this`world, this`steps, this`errors
      ensures InBatch() && old(steps) <= steps && remaining == |world.session.pending|
      ensures world.committed == old(world.committed) && world.logs == old(world.logs)
      ensures world.settled == old(world.settled)
      ensures world.session.current == old(world.session.current) && world.session.done == old(world.session.done)
      ensures world.session.position == old(world.session.position)
    {
      hide Inv, Exec;
      while world.session.pending != []
        invariant InBatch() && old(steps) <= steps
        invariant world.committed == old(world.committed) && world.logs == old(world.logs)
        invariant world.settled == old(world.settled)
        invariant world.session.current == old(world.session.current) && world.session.done == old(world.session.done)
        invariant world.session.position == old(world.session.position)
        decreases |world.session.pending|
      {
        if * { break; }
        var i: nat, kept, confirmed := *, *, *;
        if i >= |world.session.pending| { i := 0; }
        if confirmed { kept := true; }
        Do(Report(i, kept, confirmed));
        if !confirmed { errors := errors + ["delivery failed"]; }
      }
      remaining := |world.session.pending|;
    }

    /** `Producer.produce`: the local queue takes the record, or refuses it with a BufferError. */
    method Offer(r: Output) returns (accepted: bool)
      requires InBatch() && world.session.current.Some? && Exists(world, world.session.current.value.origin)
      modifies this`world, this`steps, this`refusals
      ensures InBatch() && old(steps) <= steps
      ensures !accepted ==> refusals == old(refusals) + 1 && world == old(world)
      ensures accepted ==> refusals == old(refusals) && world == Apply(Contract(publishes), old(world), Enqueue(r))
    {
      hide Inv, Exec;
      accepted := *;
      if accepted { Do(Enqueue(r)); } else { refusals := refusals + 1; }
    }

    /** `_produce`: a full local queue is flushed once and tried again. */
    method Produce(r: Output) returns (queued: bool)
      requires InBatch() && world.session.current.Some? && Exists(world, world.session.current.value.origin)
      modifies this`world, this`steps, this`errors, this`refusals, this`unsent
      ensures InBatch() && old(steps) <= steps && world.session.current.Some?
      ensures world.committed == old(world.committed) && world.logs == old(world.logs)
      ensures world.settled == old(world.settled)
      ensures world.session.done == old(world.session.done) && world.session.position == old(world.session.position)
      ensures var a := old(world.session.current.value);
              world.session.current == Some(if queued then a.(outputs := a.outputs + [r]) else a)
      ensures if queued then unsent == old(unsent) && refusals <= old(refusals) + 1
              else unsent == old(unsent) + [r] && refusals == old(refusals) + 2
    {
      hide Inv, Exec;
      queued := Offer(r);
      if !queued {
        var _ := Flush();
        queued := Offer(r);
        if !queued { unsent := unsent + [r]; }
      }
    }

    /** What `_handle` leaves when nothing of it is refused: the outputs, and a dead letter for a fault. */
    function Handled(body: Body, run: HandlerRun, topic: string): seq<Output> {
      run.outputs
      + match run.raised
        case Some(Fault(error)) => [DeadLetter(body, topic, ErrorHeader(error), group)]
        case _ => []
    }

    /**
     `_handle`: runs the handler; any exception sends the message to the dead-letter topic
     instead, but a delivery error is raised again.
     */
    method Handle(body: Body, run: HandlerRun) returns (escaped: Option<Failure>)
      requires InBatch() && world.session.current.Some? && Exists(world, world.session.current.value.origin)
      requires body == Delivery.Message(world, world.session.current.value.origin)
      requires world.session.current.value.outputs == []
      requires run.raised.None? ==> publishes(body, run.outputs)
      requires forall r :: r in run.outputs ==> r.Published?
      modifies this`world, this`steps, this`errors, this`refusals, this`unsent
      ensures InBatch() && old(steps) <= steps && world.session.current.Some?
      ensures world.committed == old(world.committed) && world.logs == old(world.logs)
      ensures world.settled == old(world.settled)
      ensures world.session.done == old(world.session.done) && world.session.position == old(world.session.position)
      ensures world.session.current.value.origin == old(world.session.current.value.origin)
      ensures escaped.None? ==> Contract(publishes).completes(body, world.session.current.value.outputs)
      ensures old(unsent) <= unsent && |unsent| <= |old(unsent)| + 2
      ensures escaped == Some(DeliveryError) <==> run.raised == Some(Undelivered) && unsent == old(unsent)
      ensures escaped == Some(QueueFull) <==> DeadLetterUnsent(old(unsent), unsent)
      ensures escaped.Some? ==> escaped.value == DeliveryError || escaped.value == QueueFull
      ensures unsent == old(unsent) ==>
                world.session.current.value.outputs
                == Handled(body, run, old(world.session.current.value.origin.place.topic))
      ensures unsent == old(unsent) && run.raised.Some? && run.raised.value.Fault? ==>
                && escaped.None?
                && world.session.current.value.outputs
                   == run.outputs + [DeadLetter(body, old(world.session.current.value.origin.place.topic),
                                                ErrorHeader(run.raised.value.error), group)]
      ensures escaped.None? && unsent != old(unsent) ==>
                exists k :: 0 <= k < |run.outputs| && unsent == old(unsent) + [run.outputs[k]]
                  && world.session.current.value.outputs
                     == run.outputs[..k]
                        + [DeadLetter(body, old(world.session.current.value.origin.place.topic),
                                      ErrorHeader(BUFFER_ERROR), group)]
    {
      hide Inv, Exec, DeadLetterUnsent;
      var sent, failure := SendOutputs(run);
      ghost var before := unsent;
      NothingUnsent(old(unsent));
      if sent < |run.outputs| {
        assert run.outputs[sent] in run.outputs;
        OneUnsent(old(unsent), run.outputs[sent]);
      }
      assert !DeadLetterUnsent(old(unsent), before);
      if failure.None? {
        assert run.outputs[..|run.outputs|] == run.outputs;
        return None;
      }
      if failure.value.Undelivered? { return Some(DeliveryError); }
      var error := ErrorHeader(failure.value.error);
      var dead := DeadLetter(body, world.session.current.value.origin.place.topic, error, group);
      ghost var partial := world.session.current.value.outputs;
      var queued := Produce(dead);
      assert queued ==> EndsInDeadLetter(body, partial + [dead]);
      if !queued {
        OneUnsent(before, dead);
        UnsentSoFar(old(unsent), before, unsent);
      }
      escaped := if queued then None else Some(QueueFull);
    }

    /** The outputs of a handler, up to the first that the queue refuses, which raises in the handler. */
    method SendOutputs(run: HandlerRun) returns (sent: nat, failure: Option<Raised>)
      requires InBatch() && world.session.current.Some? && Exists(world, world.session.current.value.origin)
      requires world.session.current.value.outputs == []
      modifies this`world, this`steps, this`errors, this`refusals, this`unsent
      ensures InBatch() && old(steps) <= steps && world.session.current.Some?
      ensures world.committed == old(world.committed) && world.logs == old(world.logs)
      ensures world.settled == old(world.settled)
      ensures world.session.done == old(world.session.done) && world.session.position == old(world.session.position)
      ensures world.session.current.value.origin == old(world.session.current.value.origin)
      ensures sent <= |run.outputs| && world.session.current.value.outputs == run.outputs[..sent]
      ensures if sent == |run.outputs| then failure == run.raised && unsent == old(unsent)
              else failure == Some(Fault(BUFFER_ERROR)) && unsent == old(unsent) + [run.outputs[sent]]
    {
      hide Inv, Exec;
      sent, failure := 0, run.raised;
      while sent < |run.outputs|
        invariant 0 <= sent <= |run.outputs| && InBatch() && old(steps) <= steps && world.session.current.Some?
        invariant world.committed == old(world.committed) && world.logs == old(world.logs)
        invariant world.settled == old(world.settled)
        invariant world.session.done == old(world.session.done) && world.session.position == old(world.session.position)
        invariant world.session.current.value.origin == old(world.session.current.value.origin)
        invariant world.session.current.value.outputs == run.outputs[..sent]
        invariant failure == run.raised && unsent == old(unsent)
      {
        var queued := Produce(run.outputs[sent]);
        if !queued {
          failure := Some(Fault(BUFFER_ERROR));
          break;
        }
        assert run.outputs[..sent + 1] == run.outputs[..sent] + [run.outputs[sent]];
        sent := sent + 1;
      }
    }

    /** One message of the batch, from the consumer's position to the list of handled ones. */
    method HandleNext(o: Origin, run: HandlerRun) returns (escaped: Option<Failure>)
      requires InBatch() && world.session.current.None?
      requires o.offset == Offset(world.session.position, o.place) && Exists(world, o)
      requires run.raised.None? ==> publishes(Delivery.Message(world, o), run.outputs)
      requires forall r :: r in run.outputs ==> r.Published?
      modifies this`world, this`steps, this`errors, this`refusals, this`unsent
      ensures InBatch() && old(steps) <= steps
      ensures world.committed == old(world.committed) && world.logs == old(world.logs)
      ensures world.settled == old(world.settled)
      ensures old(unsent) <= unsent
      ensures escaped == Some(DeliveryError) ==> run.raised == Some(Undelivered)
      ensures escaped == Some(QueueFull) <==> DeadLetterUnsent(old(unsent), unsent)
      ensures escaped.Some? ==> escaped.value == DeliveryError || escaped.value == QueueFull
      ensures escaped.None? ==>
                && world.session.current.None?
                && |world.session.done| == |old(world.session.done)| + 1
                && old(world.session.done) <= world.session.done
                && world.session.done[|old(world.session.done)|].origin == o
      ensures escaped.None? && unsent == old(unsent) ==>
                world.session.done[|old(world.session.done)|].outputs
                == Handled(Delivery.Message(old(world), o), run, o.place.topic)
    {
      hide Inv, Exec, DeadLetterUnsent;
      Do(Take(o.place));
      escaped := Handle(Delivery.Message(world, o), run);
      if escaped.None? { Do(Finish); }
    }

    /** The loop of `_consume_batch`: each message is handled as soon as it was polled. */
    method HandleAvailable(limit: nat, run: (Body, nat) -> HandlerRun)
      returns (polled: nat, done: seq<Origin>, escaped: Option<Failure>)
      requires Idle() && errors == [] && Lawful(run)
      modifies this
      ensures InBatch() && old(steps) <= steps && polled <= limit
      ensures world.committed == old(world.committed) && commitFailures == old(commitFailures)
      ensures old(results) <= results && old(unsent) <= unsent
      ensures GoesOn(results[|old(results)|..], escaped == Some(FatalConsumerError))
      ensures escaped == Some(QueueFull) <==> DeadLetterUnsent(old(unsent), unsent)
      ensures escaped == Some(DeliveryError) ==> exists m, n :: run(m, n).raised == Some(Undelivered)
      ensures escaped.Some? ==> escaped.value != CommitError
      ensures escaped.None? ==>
                && world.session.current.None? && Lists(done, world.session.done)
                && world.settled == old(world.settled) && polls == old(polls) + done
                && (polled == limit || expiries > old(expiries)
                    || (results != old(results) && results[|results| - 1] == Nothing))
    {
      hide Inv, Exec, DeadLetterUnsent;
      polled, done, escaped := 0, [], None;
      var expired := false;
      NothingUnsent(unsent);
      while polled < limit && !expired
        invariant polled <= limit && InBatch() && old(steps) <= steps
        invariant world.session.current.None? && Lists(done, world.session.done)
        invariant world.settled == old(world.settled) && polls == old(polls) + done
        invariant world.committed == old(world.committed) && commitFailures == old(commitFailures)
        invariant escaped.None? && old(unsent) <= unsent && !DeadLetterUnsent(old(unsent), unsent)
        invariant old(results) <= results && AllGoOn(results[|old(results)|..])
        invariant old(expiries) <= expiries && (expired ==> expiries > old(expiries))
        decreases limit - polled
      {
        ghost var before := unsent;
        var message := Poll();
        if message.Nothing? { break; }
        polled := polled + 1;
        expired := DeadlinePassed();
        if message.Error? {
          if message.fatal {
            escaped := Some(FatalConsumerError);
            return;
          }
          continue;
        }
        var o := Origin(message.place, Offset(world.session.position, message.place));
        escaped := HandleNext(o, run(Log(world, o.place)[o.offset], polled));
        UnsentSoFar(old(unsent), before, unsent);
        if escaped.Some? { return; }
        done := done + [o];
      }
    }

    /** What handlers may do: without an exception they have published what they should. */
    ghost predicate Lawful(run: (Body, nat) -> HandlerRun) {
      forall m, n ::
        && (run(m, n).raised.None? ==> publishes(m, run(m, n).outputs))
        && forall r :: r in run(m, n).outputs ==> r.Published?
    }

    /**
     `_consume_batch`: handles what is there, then flushes once and commits once. Nothing is
     committed unless every output of the batch was confirmed, and every failure has its own cause.
     */
    method ConsumeBatch(limit: nat, run: (Body, nat) -> HandlerRun) returns (r: Result<nat, Failure>)
      requires Idle() && Lawful(run)
      modifies this
      ensures Valid() && old(steps) <= steps
      ensures r.Err? && r.error != CommitError ==> world.committed == old(world.committed)
      ensures old(results) <= results && old(unsent) <= unsent
      ensures GoesOn(results[|old(results)|..], r == Err(FatalConsumerError))
      ensures r == Err(QueueFull) <==> DeadLetterUnsent(old(unsent), unsent)
      ensures r == Err(DeliveryError) ==>
                || (exists m, n :: run(m, n).raised == Some(Undelivered))
                || (world.session.Up? && (world.session.failed > 0 || world.session.pending != []))
      ensures r == Err(CommitError) <==> commitFailures > old(commitFailures)
      ensures r.Ok? ==>
                && r.value <= limit && Idle() && SameOffsets(world.committed, world.session.position)
                && old(world.settled) <= world.settled && old(polls) <= polls
                && Lists(polls[|old(polls)|..], world.settled[|old(world.settled)|..])
                && (r.value == limit || expiries > old(expiries)
                    || (results != old(results) && results[|results| - 1] == Nothing))
    {
      hide Inv, Exec, NextOffsets, Lists, DeadLetterUnsent, GoesOn, Lawful;
      errors := [];
      var polled, done, escaped := HandleAvailable(limit, run);
      if escaped.Some? { return Err(escaped.value); }
      ghost var handled := world.session.done;
      var remaining := Flush();
      if errors != [] || remaining > 0 { return Err(DeliveryError); }
      if done != [] {
        var offsets := NextOffsetsOf(done, world.session.done);
        var committed := CommitOffsets(offsets);
        if !committed { return Err(CommitError); }
      } else {
        NothingListed(world.session.done);
      }
      AtCommitted(Contract(publishes), world);
      assert polls[|old(polls)|..] == done && world.settled[|old(world.settled)|..] == handled;
      r := Ok(polled);
    }

    /** `Consumer.commit`: the broker may fail before or after it has stored the offsets. */
    method CommitOffsets(offsets: map<Place, nat>) returns (committed: bool)
      requires Valid() && world.session.Up? && world.session.current.None? && world.session.pending == []
      requires world.session.failed == 0 && offsets == NextOffsets(world.session.done)
      modifies this`world, this`steps, this`commitFailures
      ensures Valid() && old(steps) <= steps
      ensures committed ==> world == Apply(Contract(publishes), old(world), Commit)
      ensures commitFailures == old(commitFailures) + if committed then 0 else 1
    {
      hide Inv, Exec, NextOffsets;
      if * {
        commitFailures := commitFailures + 1;
        return false;
      }
      Do(Commit);
      assert world.committed == old(world.committed) + offsets;
      committed := *;
      if !committed { commitFailures := commitFailures + 1; }
    }

    /** The clock: whether the batch has taken too long. */
    method DeadlinePassed() returns (expired: bool)
      modifies this`expiries
      ensures expiries == old(expiries) + if expired then 1 else 0
    {
      expired := *;
      if expired { expiries := expiries + 1; }
    }

    /** What the consumer hands over next: a message of some partition, an error, or nothing. */
    method Poll() returns (p: Polled)
      requires Valid() && world.session.Up?
      modifies this`polls, this`results
      ensures results == old(results) + [p]
      ensures polls == if p.Found? then old(polls) + [Origin(p.place, Offset(world.session.position, p.place))]
                       else old(polls)
      ensures p.Found? ==> Offset(world.session.position, p.place) < |Log(world, p.place)|
    {
      var place: Place, kind: nat, fatal := *, *, *;
      p := Nothing;
      if kind == 0 {
        p := Error(fatal);
      } else if kind == 1 && Offset(world.session.position, place) < |Log(world, place)| {
        polls := polls + [Origin(place, Offset(world.session.position, place))];
        p := Found(place);
      }
      results := results + [p];
    }
  }

  /** Polls after which the batch goes on: messages and errors that are not fatal. */
  ghost predicate AllGoOn(results: seq<Polled>) {
    forall i :: 0 <= i < |results| ==> results[i] != Nothing && results[i] != Error(true)
  }

  /** The polls of a batch: only the last one can end it, and a fatal error does so in its own way. */
  ghost predicate GoesOn(results: seq<Polled>, fatal: bool) {
    if results == [] then !fatal
    else AllGoOn(results[..|results| - 1]) && (fatal <==> results[|results| - 1] == Error(true))
  }

  /** Among the records refused since, there is a dead letter. */
  ghost predicate DeadLetterUnsent(before: seq<Output>, after: seq<Output>) {
    exists i :: |before| <= i < |after| && after[i].DeadLetter?
  }

  lemma NothingUnsent(unsent: seq<Output>)
    ensures !DeadLetterUnsent(unsent, unsent)
  {
  }

  lemma OneUnsent(before: seq<Output>, r: Output)
    ensures DeadLetterUnsent(before, before + [r]) <==> r.DeadLetter?
  {
    assert (before + [r])[|before|] == r;
  }

  lemma UnsentSoFar(first: seq<Output>, before: seq<Output>, after: seq<Output>)
    requires first <= before <= after && !DeadLetterUnsent(first, before)
    ensures DeadLetterUnsent(first, after) <==> DeadLetterUnsent(before, after)
  {
  }
}
