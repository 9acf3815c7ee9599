/** A run of the delivery protocol without any failure exists for every input. */
module CleanRuns {
  import opened Options
  import opened Delivery

  /** A message appended to the log of a place. */
  datatype Arrival<M> = Arrival(place: Place, message: M)

  function LogOf<M>(arrivals: seq<Arrival<M>>, p: Place): seq<M> {
    if arrivals == [] then []
    else
      var last := arrivals[|arrivals| - 1];
      LogOf(arrivals[..|arrivals| - 1], p) + if last.place == p then [last.message] else []
  }

  /** Everything is consumed and committed, and the process is idle. */
  ghost predicate Drained<M, R>(w: World<M, R>) {
    && w.session.Up? && w.session.current.None?
    && w.session.done == [] && w.session.pending == [] && w.session.failed == 0
    && forall p :: Offset(w.session.position, p) == Offset(w.committed, p) == |Log(w, p)|
  }

  function Sents<R>(o: Origin, q: seq<R>): seq<Sent<R>> { seq(|q|, i requires 0 <= i < |q| => Sent(o, q[i])) }

  /** One more step of a run. */
  lemma Then<M, R>(h: Handler<M, R>, w: World<M, R>, steps: seq<Step<M, R>>, s: Step<M, R>)
    requires Exec(h, w, steps).Some? && Enabled(h, Exec(h, w, steps).value, s)
    ensures Exec(h, w, steps + [s]) == Some(Apply(h, Exec(h, w, steps).value, s))
  {
    assert (steps + [s])[..|steps|] == steps;
  }

  /** Sends all of `q` for the message in hand. */
  lemma {:induction false} EnqueueAll<M, R>(
    h: Handler<M, R>, start: World<M, R>, before: seq<Step<M, R>>, w: World<M, R>, q: seq<R>)
    returns (steps: seq<Step<M, R>>)
    requires Exec(h, start, before) == Some(w)
    requires w.session.Up? && w.session.current.Some? && Exists(w, w.session.current.value.origin)
    requires forall i :: 0 <= i < |q| ==> h.emits(Message(w, w.session.current.value.origin), q[i])
    ensures var a := w.session.current.value;
            Exec(h, start, steps) == Some(w.(session := w.session.(
              current := Some(a.(outputs := a.outputs + q)), pending := w.session.pending + Sents(a.origin, q))))
  {
    var a := w.session.current.value;
    if q == [] {
      steps := before;
      assert a.outputs + q == a.outputs && w.session.pending + Sents(a.origin, q) == w.session.pending;
    } else {
      var n := |q| - 1;
      var rest := EnqueueAll(h, start, before, w, q[..n]);
      Then(h, start, rest, Enqueue(q[n]));
      steps := rest + [Enqueue(q[n])];
      assert (a.outputs + q[..n]) + [q[n]] == a.outputs + q;
      assert (w.session.pending + Sents(a.origin, q[..n])) + [Sent(a.origin, q[n])]
          == w.session.pending + Sents(a.origin, q);
    }
  }

  /** The first queued record is stored and confirmed. */
  lemma ConfirmFirst<M, R>(h: Handler<M, R>, w: World<M, R>)
    requires w.session.Up? && w.session.pending != []
    ensures Enabled(h, w, Report(0, true, true))
    ensures var q := w.session.pending;
            Apply(h, w, Report(0, true, true))
              == w.(stored := w.stored + [q[0]], session := w.session.(pending := q[1..]))
  {
    var q := w.session.pending;
    assert q[..0] + q[1..] == q[1..];
  }

  /** Confirms everything that is queued, in order. */
  lemma {:induction false} ConfirmAll<M, R>(
    h: Handler<M, R>, start: World<M, R>, before: seq<Step<M, R>>, w: World<M, R>)
    returns (steps: seq<Step<M, R>>)
    requires Exec(h, start, before) == Some(w) && w.session.Up?
    ensures Exec(h, start, steps)
         == Some(w.(stored := w.stored + w.session.pending, session := w.session.(pending := [])))
    decreases |w.session.pending|
  {
    hide Exec, Apply, Enabled;
    var q := w.session.pending;
    if q == [] {
      steps := before;
      assert w.stored + q == w.stored;
    } else {
      ConfirmFirst(h, w);
      Then(h, start, before, Report(0, true, true));
      steps := ConfirmAll(h, start, before + [Report(0, true, true)], Apply(h, w, Report(0, true, true)));
      assert (w.stored + [q[0]]) + q[1..] == w.stored + q;
    }
  }

  /** A message arrives at a drained world and is taken. */
  lemma TakeNew<M, R>(h: Handler<M, R>, start: World<M, R>, before: seq<Step<M, R>>, w: World<M, R>, x: Arrival<M>)
    returns (steps: seq<Step<M, R>>)
    requires Exec(h, start, before) == Some(w) && Drained(w)
    ensures Exec(h, start, steps) == Some(Taken(w, x))
  {
    hide Exec;
    var p := x.place;
    Then(h, start, before, Append(p, x.message));
    Then(h, start, before + [Append(p, x.message)], Take(p));
    steps := before + [Append(p, x.message)] + [Take(p)];
  }

  function Taken<M, R>(w: World<M, R>, x: Arrival<M>): World<M, R>
    requires w.session.Up?
  {
    var n := |Log(w, x.place)|;
    w.(logs := w.logs[x.place := Log(w, x.place) + [x.message]],
       session := w.session.(position := w.session.position[x.place := n + 1],
                             current := Some(Attempt(Origin(x.place, n), []))))
  }

  /** From a drained world: one more message arrives, is handled, confirmed and committed. */
  lemma OneMore<M, R>(
    h: Handler<M, R>, start: World<M, R>, before: seq<Step<M, R>>, w: World<M, R>, x: Arrival<M>, q: seq<R>)
    returns (steps: seq<Step<M, R>>, next: World<M, R>)
    requires Exec(h, start, before) == Some(w) && Drained(w)
    requires h.completes(x.message, q) && forall i :: 0 <= i < |q| ==> h.emits(x.message, q[i])
    ensures Exec(h, start, steps) == Some(next) && Drained(next)
    ensures next.logs == w.logs[x.place := Log(w, x.place) + [x.message]]
    ensures next.stored == w.stored + Sents(Origin(x.place, |Log(w, x.place)|), q)
  {
    hide Exec, Sents;
    var o := Origin(x.place, |Log(w, x.place)|);
    var s1 := TakeNew(h, start, before, w, x);
    var w1 := Taken(w, x);
    assert Message(w1, o) == x.message;
    var s2 := EnqueueAll(h, start, s1, w1, q);
    assert [] + q == q && [] + Sents(o, q) == Sents(o, q);
    var w2 := w1.(session := w1.session.(current := Some(Attempt(o, q)), pending := Sents(o, q)));
    steps, next := Settle(h, start, s2, w2, x.place);
    SettledIsDrained(w, x, w2, next);
  }

  /** Finishes the message in hand, confirms what is queued and commits. */
  lemma Settle<M, R>(h: Handler<M, R>, start: World<M, R>, before: seq<Step<M, R>>, w: World<M, R>, p: Place)
    returns (steps: seq<Step<M, R>>, next: World<M, R>)
    requires Exec(h, start, before) == Some(w)
    requires w.session.Up? && w.session.current.Some? && w.session.done == [] && w.session.failed == 0
    requires Exists(w, w.session.current.value.origin)
    requires h.completes(Message(w, w.session.current.value.origin), w.session.current.value.outputs)
    ensures Exec(h, start, steps) == Some(next)
    ensures next == w.(committed := w.committed + NextOffsets([w.session.current.value]),
                       stored := w.stored + w.session.pending, settled := w.settled + [w.session.current.value],
                       session := w.session.(current := None, pending := []))
  {
    hide Exec, NextOffsets;
    var a := w.session.current.value;
    assert [] + [a] == [a];
    Then(h, start, before, Finish);
    var w1 := w.(session := w.session.(current := None, done := [a]));
    var s1 := ConfirmAll(h, start, before + [Finish], w1);
    var w2 := w1.(stored := w1.stored + w1.session.pending, session := w1.session.(pending := []));
    Then(h, start, s1, Commit);
    steps, next := s1 + [Commit], Apply(h, w2, Commit);
  }

  lemma SettledIsDrained<M, R>(w: World<M, R>, x: Arrival<M>, w2: World<M, R>, next: World<M, R>)
    requires Drained(w) && w2.session.Up? && w2.session.current.Some?
    requires w2.session.current.value.origin == Origin(x.place, |Log(w, x.place)|)
    requires w2.committed == w.committed && w2.session.done == [] && w2.session.failed == 0
    requires w2.session.position == w.session.position[x.place := |Log(w, x.place)| + 1]
    requires w2.logs == w.logs[x.place := Log(w, x.place) + [x.message]]
    requires next == w2.(committed := w2.committed + NextOffsets([w2.session.current.value]),
                         stored := w2.stored + w2.session.pending, settled := w2.settled + [w2.session.current.value],
                         session := w2.session.(current := None, pending := []))
    ensures Drained(next)
  {
    hide NextOffsets;
    var p := x.place;
    CommittedNext(w, p, [w2.session.current.value]);
    forall other ensures Offset(next.session.position, other) == Offset(next.committed, other) == |Log(next, other)| {
      if other != p { assert Offset(w.session.position, other) == Offset(w.committed, other) == |Log(w, other)|; }
    }
  }

  lemma CommittedNext<M, R>(w: World<M, R>, p: Place, done: seq<Attempt<R>>)
    requires |done| == 1 && done[0].origin == Origin(p, |Log(w, p)|)
    ensures NextOffsets(done) == map[p := |Log(w, p)| + 1]
  {
    assert done[..0] == [];
  }

  /** Every stored record is an output of the message it came from. */
  ghost predicate Faithful<M, R>(w: World<M, R>, outputs: M -> seq<R>) {
    forall i :: 0 <= i < |w.stored| ==>
      Exists(w, w.stored[i].origin) && w.stored[i].record in outputs(Message(w, w.stored[i].origin))
  }

  lemma StillFaithful<M, R>(
    w: World<M, R>, next: World<M, R>, x: Arrival<M>, outputs: M -> seq<R>)
    requires Faithful(w, outputs)
    requires next.logs == w.logs[x.place := Log(w, x.place) + [x.message]]
    requires next.stored == w.stored + Sents(Origin(x.place, |Log(w, x.place)|), outputs(x.message))
    ensures Faithful(next, outputs)
  {
    var o := Origin(x.place, |Log(w, x.place)|);
    forall i | 0 <= i < |next.stored|
      ensures Exists(next, next.stored[i].origin)
              && next.stored[i].record in outputs(Message(next, next.stored[i].origin))
    {
      var s := next.stored[i];
      if i < |w.stored| {
        assert s == w.stored[i] && Message(next, s.origin) == Message(w, s.origin);
      } else {
        assert s == Sents(o, outputs(x.message))[i - |w.stored|];
        assert Message(next, o) == x.message;
      }
    }
  }

  /** Every sequence of arrivals can be consumed without a failure, each message with the outputs given for it. */
  lemma {:induction false} CleanRun<M, R>(h: Handler<M, R>, arrivals: seq<Arrival<M>>, outputs: M -> seq<R>)
    returns (steps: seq<Step<M, R>>, w: World<M, R>)
    requires forall m :: h.completes(m, outputs(m)) && forall i :: 0 <= i < |outputs(m)| ==> h.emits(m, outputs(m)[i])
    ensures Exec(h, Fresh(), steps) == Some(w) && Drained(w) && Faithful(w, outputs)
    ensures forall p :: Log(w, p) == LogOf(arrivals, p)
  {
    hide Exec, Enabled, Apply;
    if arrivals == [] {
      steps, w := Started(h);
    } else {
      var x := arrivals[|arrivals| - 1];
      var before, w0 := CleanRun(h, arrivals[..|arrivals| - 1], outputs);
      steps, w := OneMore(h, Fresh(), before, w0, x, outputs(x.message));
      StillFaithful(w0, w, x, outputs);
    }
  }

  lemma Started<M, R>(h: Handler<M, R>) returns (steps: seq<Step<M, R>>, w: World<M, R>)
    ensures Exec(h, Fresh<M, R>(), steps) == Some(w) && Drained(w) && w.stored == [] && w.logs == map[]
  {
    Then(h, Fresh<M, R>(), [], Step<M, R>.Start);
    steps := [] + [Step<M, R>.Start];
    w := Apply(h, Fresh<M, R>(), Step<M, R>.Start);
  }
}
