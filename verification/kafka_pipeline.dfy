/** The Java pipeline: one polled batch, as a sequence of steps of the delivery protocol. */
module KafkaPipelines {
  import opened Options
  import opened Delivery
  import opened RecordProcessing
  import opened RuleMatching
  import EffectivelyOnce

  datatype Failure = SendFailed | NotConfirmed | CommitFailed

  /** The records of one poll: per partition consecutive from the consumer's position. */
  predicate Fetched(logs: map<Place, seq<Input>>, position: map<Place, nat>, records: seq<Origin>)
    decreases |records|
  {
    records != [] ==>
      var o := records[0];
      && o.offset == Offset(position, o.place)
      && o.place in logs && o.offset < |logs[o.place]|
      && Fetched(logs, position[o.place := o.offset + 1], records[1..])
  }

  /** Where the consumer stands after the records of one poll. */
  function Advanced(position: map<Place, nat>, records: seq<Origin>): map<Place, nat>
    decreases |records|
  {
    if records == [] then position
    else Advanced(position[records[0].place := records[0].offset + 1], records[1..])
  }

  /** The batch's offsets.put never moves a partition back: it writes what a maximum would. */
  lemma PutIsMaximum(w: World<Input, Output>, h: Handler<Input, Output>)
    requires Inv(h, w) && w.session.Up? && w.session.current.Some?
    ensures var a := w.session.current.value;
            NextOffsets(w.session.done + [a])
            == NextOffsets(w.session.done)[a.origin.place := a.origin.offset + 1]
  {
    hide At;
    var a := w.session.current.value;
    var chain := w.settled + w.session.done;
    NumberedPrefix(chain, a, w.session.position);
    CommitReachesEnd(w.settled, w.committed, w.session.done, w.session.position[a.origin.place := a.origin.offset]);
    assert Offset(w.committed + NextOffsets(w.session.done), a.origin.place) == a.origin.offset;
    assert (w.session.done + [a])[..|w.session.done|] == w.session.done;
  }

  class KafkaPipeline {
    const role: Role
    /** The rules in force: a change of rules is not part of a run. */
    const rules: RuleSet
    var world: World<Input, Output>
    ghost const start: World<Input, Output>
    ghost var steps: seq<Step<Input, Output>>
    /** How often the producer refused a record, a delivery was not confirmed in time, a commit failed. */
    ghost var sendFailures: nat
    ghost var unconfirmed: nat
    ghost var commitFailures: nat

    constructor (role: Role, rules: RuleSet, world: World<Input, Output>)
      requires Inv(EffectivelyOnce.Contract(role, rules), world)
      ensures Valid() && this.world == start == world && this.role == role && this.rules == rules
    {
      this.role, this.rules, this.world, start, steps := role, rules, world, world, [];
      sendFailures, unconfirmed, commitFailures := 0, 0, 0;
    }

    ghost function Contract(): Handler<Input, Output> { EffectivelyOnce.Contract(role, rules) }

    ghost predicate Valid()
      reads this
    {
      Inv(Contract(), world) && Exec(Contract(), start, steps) == Some(world)
    }

    ghost predicate Idle()
      reads this
    {
      && Valid() && world.session.Up? && world.session.current.None?
      && world.session.pending == [] && world.session.done == [] && world.session.failed == 0
    }

    ghost method Note(s: Step<Input, Output>)
      requires Valid() && Enabled(Contract(), world, s)
      modifies this`steps
      ensures steps == old(steps) + [s]
      ensures Inv(Contract(), Apply(Contract(), world, s))
      ensures Exec(Contract(), start, steps) == Some(Apply(Contract(), world, s))
    {
      hide Inv, Apply, Enabled;
      StepKeeps(Contract(), world, s);
      assert (steps + [s])[..|steps|] == steps;
      steps := steps + [s];
    }

    method Take(o: Origin)
      requires Valid() && world.session.Up? && world.session.current.None?
      requires o.offset == Offset(world.session.position, o.place) && Exists(world, o)
      modifies this`world, this`steps
      ensures Valid() && steps == old(steps) + [Step.Take(o.place)]
      ensures world == old(world).(session := old(world.session).(
                position := old(world.session.position)[o.place := o.offset + 1], current := Some(Attempt(o, []))))
    {
      hide Inv, Exec;
      Note(Step.Take(o.place));
      world := world.(session := world.session.(
        position := world.session.position[o.place := o.offset + 1], current := Some(Attempt(o, []))));
    }

    /** `Producer.send`: takes the record, or throws. */
    method Send(r: Output, ghost m: Input) returns (accepted: bool)
      requires Valid() && world.session.Up? && world.session.current.Some?
      requires Exists(world, world.session.current.value.origin)
      requires m == Message(world, world.session.current.value.origin) && Contract().emits(m, r)
      modifies this`world, this`steps, this`sendFailures
      ensures Valid() && old(steps) <= steps
      ensures !accepted ==> world == old(world) && sendFailures == old(sendFailures) + 1
      ensures accepted ==> sendFailures == old(sendFailures) && world == Apply(Contract(), old(world), Enqueue(r))
    {
      hide Inv, Exec, EffectivelyOnce.Lawful;
      if * {
        sendFailures := sendFailures + 1;
        return false;
      }
      Note(Enqueue(r));
      world := world.(session := world.session.(
        current := Some(world.session.current.value.(outputs := world.session.current.value.outputs + [r])),
        pending := world.session.pending + [Sent(world.session.current.value.origin, r)]));
      accepted := true;
    }

    /** `deliveries.add(producer.send(...))` for each output; a send may fail. */
    method SendAll(outputs: seq<Output>, ghost m: Input, ghost opinion: Opinion) returns (sent: bool)
      requires Valid() && world.session.Up? && world.session.current.Some?
      requires Exists(world, world.session.current.value.origin)
      requires m == Message(world, world.session.current.value.origin) && Possible(opinion, m)
      requires outputs == Outputs(role, rules, m, opinion)
      requires world.session.current.value.outputs == []
      modifies this`world, this`steps, this`sendFailures
      ensures Valid() && old(steps) <= steps && world.session.Up?
      ensures world.committed == old(world.committed) && world.logs == old(world.logs)
      ensures world.settled == old(world.settled)
      ensures world.session.position == old(world.session.position) && world.session.done == old(world.session.done)
      ensures world.session.failed == old(world.session.failed)
      ensures sent ==> world.session.current == Some(old(world.session.current.value).(outputs := outputs))
      ensures sendFailures == old(sendFailures) + if sent then 0 else 1
    {
      hide Inv, Exec, Outputs, Possible, EffectivelyOnce.AttackOf, EffectivelyOnce.Lawful;
      var i := 0;
      while i < |outputs|
        invariant 0 <= i <= |outputs| && Valid() && old(steps) <= steps && world.session.Up?
        invariant world.committed == old(world.committed) && world.logs == old(world.logs)
        invariant world.settled == old(world.settled)
        invariant world.session.position == old(world.session.position) && world.session.done == old(world.session.done)
        invariant world.session.failed == old(world.session.failed)
        invariant world.session.current == Some(old(world.session.current.value).(outputs := outputs[..i]))
        invariant sendFailures == old(sendFailures)
      {
        EffectivelyOnce.ProcessingEmits(role, rules, m, opinion, outputs[i]);
        var accepted := Send(outputs[i], m);
        if !accepted { return false; }
        assert outputs[..i + 1] == outputs[..i] + [outputs[i]];
        i := i + 1;
      }
      assert outputs[..|outputs|] == outputs;
      sent := true;
    }

    /** One `delivery.get(30, SECONDS)`: some delivery is confirmed, or it fails or takes too long. */
    method Await() returns (confirmed: bool)
      requires Valid() && world.session.Up? && world.session.failed == 0 && world.session.pending != []
      modifies this`world, this`steps, this`unconfirmed
      ensures Valid() && old(steps) <= steps && world.session.Up?
      ensures world.committed == old(world.committed) && world.logs == old(world.logs)
      ensures world.settled == old(world.settled)
      ensures world.session.position == old(world.session.position)
      ensures world.session.done == old(world.session.done) && world.session.current == old(world.session.current)
      ensures unconfirmed == old(unconfirmed) + if confirmed then 0 else 1
      ensures confirmed ==>
                world.session.failed == 0 && |world.session.pending| == |old(world.session.pending)| - 1
    {
      hide Inv, Exec;
      if * {
        unconfirmed := unconfirmed + 1;
        return false;
      }
      var i: nat, kept, ok := *, *, *;
      if i >= |world.session.pending| { i := 0; }
      if ok { kept := true; }
      Note(Report(i, kept, ok));
      var q := world.session.pending;
      world := world.(stored := if kept then world.stored + [q[i]] else world.stored,
                      session := world.session.(pending := q[..i] + q[i + 1..],
                                                failed := if ok then 0 else 1));
      if !ok { unconfirmed := unconfirmed + 1; }
      confirmed := ok;
    }

    /** The loop over all deliveries: the first failure or timeout ends the batch. */
    method AwaitAll() returns (confirmed: bool)
      requires Valid() && world.session.Up? && world.session.failed == 0
      modifies this`world, this`steps, this`unconfirmed
      ensures Valid() && old(steps) <= steps && world.session.Up?
      ensures world.committed == old(world.committed) && world.logs == old(world.logs)
      ensures world.settled == old(world.settled)
      ensures world.session.position == old(world.session.position)
      ensures world.session.done == old(world.session.done) && world.session.current == old(world.session.current)
      ensures confirmed ==> world.session.pending == [] && world.session.failed == 0
      ensures unconfirmed == old(unconfirmed) + if confirmed then 0 else 1
    {
      hide Inv, Exec;
      while world.session.pending != []
        invariant Valid() && old(steps) <= steps && world.session.Up? && world.session.failed == 0
        invariant world.committed == old(world.committed) && world.logs == old(world.logs)
        invariant world.settled == old(world.settled)
        invariant world.session.position == old(world.session.position)
        invariant world.session.done == old(world.session.done) && world.session.current == old(world.session.current)
        invariant unconfirmed == old(unconfirmed)
        decreases |world.session.pending|
      {
        var ok := Await();
        if !ok { return false; }
      }
      confirmed := true;
    }

    /** One record of the batch: process it and send its outputs. */
    method HandleRecord(o: Origin, opinion: Opinion) returns (sent: bool)
      requires Valid() && world.session.Up? && world.session.current.None? && world.session.failed == 0
      requires o.offset == Offset(world.session.position, o.place) && Exists(world, o)
      requires Possible(opinion, Message(world, o))
      modifies this`world, this`steps, this`sendFailures
      ensures Valid() && old(steps) <= steps && world.session.Up?
      ensures world.committed == old(world.committed) && world.logs == old(world.logs)
      ensures world.settled == old(world.settled)
      ensures sendFailures == old(sendFailures) + if sent then 0 else 1
      ensures sent ==>
                && world.session.current.None? && world.session.failed == 0
                && world.session.position == old(world.session.position)[o.place := o.offset + 1]
                && NextOffsets(world.session.done) == NextOffsets(old(world.session.done))[o.place := o.offset + 1]
                && world.session.done
                   == old(world.session.done) + [Attempt(o, Outputs(role, rules, Message(old(world), o), opinion))]
    {
      hide Inv, Exec, Outputs, NextOffsets, Possible;
      Take(o);
      var m := Message(world, o);
      var outputs := Process(m, opinion);
      sent := SendAll(outputs, m, opinion);
      if sent {
        PutIsMaximum(world, Contract());
        assert EffectivelyOnce.Lawful(role, rules, m, outputs);
        Note(Finish);
        world := world.(session := world.session.(
          current := None, done := world.session.done + [world.session.current.value]));
      }
    }

    /** `Consumer.commitSync`: the broker may fail before or after it has stored the offsets. */
    method CommitSync(offsets: map<Place, nat>) returns (committed: bool)
      requires Valid() && world.session.Up? && world.session.current.None? && world.session.pending == []
      requires world.session.failed == 0 && offsets == NextOffsets(world.session.done)
      modifies this`world, this`steps, this`commitFailures
      ensures Valid() && old(steps) <= steps
      ensures committed ==> world == Apply(Contract(), old(world), Commit)
      ensures commitFailures == old(commitFailures) + if committed then 0 else 1
    {
      hide Inv, Exec, NextOffsets;
      if * {
        commitFailures := commitFailures + 1;
        return false;
      }
      Note(Commit);
      world := world.(committed := world.committed + offsets, settled := world.settled + world.session.done,
                      session := world.session.(done := []));
      committed := *;
      if !committed { commitFailures := commitFailures + 1; }
    }

    /** Every record was handled in turn, and finished with the outputs of processing it. */
    ghost predicate Treated(
      logs: map<Place, seq<Input>>, records: seq<Origin>, opinions: (Input, nat) -> Opinion,
      done: seq<Attempt<Output>>)
    {
      && |done| == |records|
      && forall i :: 0 <= i < |done| ==>
           var o := records[i];
           && o.place in logs && o.offset < |logs[o.place]|
           && var m := logs[o.place][o.offset];
              && Possible(opinions(m, i), m)
              && done[i] == Attempt(o, Outputs(role, rules, m, opinions(m, i)))
    }

    lemma TreatedStep(
      logs: map<Place, seq<Input>>, records: seq<Origin>, opinions: (Input, nat) -> Opinion,
      done: seq<Attempt<Output>>, o: Origin, m: Input)
      requires Treated(logs, records, opinions, done)
      requires o.place in logs && o.offset < |logs[o.place]| && m == logs[o.place][o.offset]
      requires Possible(opinions(m, |records|), m)
      ensures Treated(logs, records + [o], opinions,
                      done + [Attempt(o, Outputs(role, rules, m, opinions(m, |records|)))])
    {
      hide Possible, Outputs;
    }

    lemma NoneTreated(logs: map<Place, seq<Input>>, opinions: (Input, nat) -> Opinion)
      ensures Treated(logs, [], opinions, [])
    {
    }

    /** The loop over the batch: every record is processed, its outputs are sent, its offset is noted. */
    method HandleAll(records: seq<Origin>, opinions: (Input, nat) -> Opinion)
      returns (sent: bool, offsets: map<Place, nat>)
      requires Idle() && Fetched(world.logs, world.session.position, records)
      requires forall m, n :: Possible(opinions(m, n), m)
      modifies this`world, this`steps, this`sendFailures
      ensures Valid() && old(steps) <= steps && world.session.Up?
      ensures world.committed == old(world.committed) && world.logs == old(world.logs)
      ensures world.settled == old(world.settled)
      ensures sendFailures == old(sendFailures) + if sent then 0 else 1
      ensures sent ==>
                && world.session.current.None? && world.session.failed == 0
                && world.session.position == Advanced(old(world.session.position), records)
                && offsets == NextOffsets(world.session.done)
                && Treated(world.logs, records, opinions, world.session.done)
    {
      hide Inv, Exec, NextOffsets, Possible, Treated, Outputs;
      NoneYet();
      NoneTreated(world.logs, opinions);
      assert records[0..] == records;
      offsets := map[];
      var i := 0;
      while i < |records|
        invariant 0 <= i <= |records| && Valid() && old(steps) <= steps
        invariant world.session.Up? && world.session.current.None? && world.session.failed == 0
        invariant Fetched(world.logs, world.session.position, records[i..])
        invariant Advanced(world.session.position, records[i..]) == Advanced(old(world.session.position), records)
        invariant world.committed == old(world.committed) && offsets == NextOffsets(world.session.done)
        invariant sendFailures == old(sendFailures)
        invariant world.logs == old(world.logs) && world.settled == old(world.settled)
        invariant Treated(world.logs, records[..i], opinions, world.session.done)
      {
        var o := records[i];
        assert records[i..][1..] == records[i + 1..];
        var m := Message(world, o);
        TreatedStep(world.logs, records[..i], opinions, world.session.done, o, m);
        sent := HandleRecord(o, opinions(m, i));
        if !sent { return; }
        assert records[..i + 1] == records[..i] + [o];
        offsets := offsets[o.place := o.offset + 1];
        i := i + 1;
      }
      assert records[..|records|] == records;
      sent := true;
    }

    /**
     One round of `run`: process and send every record, await every delivery, then commit. It fails
     if and only if one of these did.
     */
    method RunBatch(records: seq<Origin>, opinions: (Input, nat) -> Opinion) returns (r: Result<nat, Failure>)
      requires Idle() && Fetched(world.logs, world.session.position, records)
      requires forall m, n :: Possible(opinions(m, n), m)
      modifies this
      ensures Valid() && old(steps) <= steps
      ensures r.Err? && r.error != CommitFailed ==> world.committed == old(world.committed)
      ensures r == Err(SendFailed) <==> sendFailures > old(sendFailures)
      ensures r == Err(NotConfirmed) <==> unconfirmed > old(unconfirmed)
      ensures r == Err(CommitFailed) <==> commitFailures > old(commitFailures)
      ensures r.Ok? ==>
                && r.value == |records| && Idle()
                && world.session.position == Advanced(old(world.session.position), records)
                && SameOffsets(world.committed, world.session.position)
                && old(world.settled) <= world.settled
                && Treated(world.logs, records, opinions, world.settled[|old(world.settled)|..])
    {
      hide Inv, Exec, NextOffsets, Possible, Treated;
      var sent, offsets := HandleAll(records, opinions);
      if !sent { return Err(SendFailed); }
      var confirmed := AwaitAll();
      if !confirmed { return Err(NotConfirmed); }
      ghost var handled := world.session.done;
      var committed := CommitSync(offsets);
      if !committed { return Err(CommitFailed); }
      AtCommitted(Contract(), world);
      assert world.settled[|old(world.settled)|..] == handled;
      r := Ok(|records|);
    }

    /** `process`, by role. */
    method Process(m: Input, opinion: Opinion) returns (out: seq<Output>)
      requires Possible(opinion, m)
      ensures out == Outputs(role, rules, m, opinion)
    {
      hide Hits, Arranges;
      match m.verdict
      case Rejected(error) =>
        var shown := if |error| < 500 then |error| else 500;
        out := [Dead(m.key, OrEmpty(m.value), error[..shown])];
      case OutOfScope => out := [];
      case Admitted(e) =>
        if role == Repartition {
          out := [Forward(OrEmpty(m.value))];
        } else if role == Ddos {
          out := [];
          if opinion.alert { out := [Alert(AlertId(Ddos, e.eventId), e.data, opinion.now)]; }
        } else {
          out := DetectRecords(e, HitsOf(rules, e, opinion.order), opinion);
        }
    }
  }

  lemma NoneYet()
    ensures NextOffsets<Output>([]) == map[]
  {
  }
}
