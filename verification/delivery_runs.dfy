/** What holds after every run of the delivery protocol. */
module DeliveryRuns {
  import opened Options
  import opened Delivery

  /** Every reachable world satisfies the invariant. */
  lemma {:induction false} Reachable<M, R>(h: Handler<M, R>, w: World<M, R>, steps: seq<Step<M, R>>)
    requires Inv(h, w) && Exec(h, w, steps).Some?
    ensures Inv(h, Exec(h, w, steps).value)
  {
    hide Inv, Enabled, Apply;
    if steps != [] {
      var n := |steps| - 1;
      Reachable(h, w, steps[..n]);
      StepKeeps(h, Exec(h, w, steps[..n]).value, steps[n]);
    }
  }

  lemma {:induction false} FreshInv<M, R>(h: Handler<M, R>)
    ensures Inv(h, Fresh<M, R>())
  {
  }

  /**
   At-least-once, in every run of polls, sends, deliveries, commits, crashes and restarts:
   each message below its partition's committed offset has been handled to completion, and
   everything that handling sent is in the brokers' hands. Offsets are never skipped.
   */
  lemma {:induction false} AtLeastOnce<M, R>(h: Handler<M, R>, steps: seq<Step<M, R>>, p: Place, o: nat)
    requires Exec(h, Fresh(), steps).Some? && o < Offset(Exec(h, Fresh(), steps).value.committed, p)
    ensures var w := Exec(h, Fresh(), steps).value;
            && o < |Log(w, p)|
            && exists a :: a in w.settled && a.origin == Origin(p, o)
                           && h.completes(Log(w, p)[o], a.outputs) && AllStored(a, w.stored)
  {
    hide Exec;
    FreshInv<M, R>(h);
    Reachable(h, Fresh(), steps);
    var w := Exec(h, Fresh(), steps).value;
    AtMember(w.settled, p);
    var a := At(w.settled, p)[o];
    assert a in w.settled && Complete(h, w, a);
  }

  /** Nothing is ever stored that handling some message of the log could not have sent. */
  lemma {:induction false} NothingInvented<M, R>(h: Handler<M, R>, steps: seq<Step<M, R>>, s: Sent<R>)
    requires Exec(h, Fresh(), steps).Some? && s in Exec(h, Fresh(), steps).value.stored
    ensures var w := Exec(h, Fresh(), steps).value; Exists(w, s.origin) && h.emits(Message(w, s.origin), s.record)
  {
    hide Exec;
    FreshInv<M, R>(h);
    Reachable(h, Fresh(), steps);
  }

  lemma {:induction false} StillFailed<M, R>(h: Handler<M, R>, w: World<M, R>, s: Step<M, R>)
    requires Enabled(h, w, s) && w.session.Up? && w.session.failed > 0 && s != Crash
    ensures var next := Apply(h, w, s); next.session.Up? && next.session.failed > 0 && next.committed == w.committed
  {
  }

  /** Once a delivery has failed, nothing in any partition is committed before the process restarts. */
  lemma {:induction false} FailureBlocksCommit<M, R>(h: Handler<M, R>, w: World<M, R>, steps: seq<Step<M, R>>)
    requires w.session.Up? && w.session.failed > 0 && Crash !in steps && Exec(h, w, steps).Some?
    ensures var next := Exec(h, w, steps).value;
            next.session.Up? && next.session.failed > 0 && next.committed == w.committed
  {
    hide Apply, Enabled;
    if steps != [] {
      var n := |steps| - 1;
      assert steps == steps[..n] + [steps[n]];
      FailureBlocksCommit(h, w, steps[..n]);
      StillFailed(h, Exec(h, w, steps[..n]).value, steps[n]);
    }
  }

  /** Committed offsets never go back, and settled attempts and stored records are never lost. */
  lemma {:induction false} Monotone<M, R>(h: Handler<M, R>, w: World<M, R>, steps: seq<Step<M, R>>, p: Place)
    requires Inv(h, w) && Exec(h, w, steps).Some?
    ensures var next := Exec(h, w, steps).value;
            && Offset(w.committed, p) <= Offset(next.committed, p)
            && w.settled <= next.settled && w.stored <= next.stored && Log(w, p) <= Log(next, p)
  {
    if steps != [] {
      var n := |steps| - 1;
      Monotone(h, w, steps[..n], p);
      Reachable(h, w, steps[..n]);
      StepMonotone(h, Exec(h, w, steps[..n]).value, steps[n], p);
    }
  }

  lemma {:induction false} StepMonotone<M, R>(h: Handler<M, R>, w: World<M, R>, s: Step<M, R>, p: Place)
    requires Inv(h, w) && Enabled(h, w, s)
    ensures var next := Apply(h, w, s);
            && Offset(w.committed, p) <= Offset(next.committed, p)
            && w.settled <= next.settled && w.stored <= next.stored && Log(w, p) <= Log(next, p)
  {
    if s.Commit? {
      CommitKeeps(h, w);
      assert w.settled + w.session.done + [] == w.settled + w.session.done;
      AtPrefix(w.settled, w.session.done, p);
    }
  }

  lemma {:induction false} AtPrefix<R>(xs: seq<Attempt<R>>, ys: seq<Attempt<R>>, p: Place)
    ensures |At(xs, p)| <= |At(xs + ys, p)|
  {
    if ys == [] {
      assert xs + ys == xs;
    } else {
      var n := |ys| - 1;
      AtPrefix(xs, ys[..n], p);
      assert xs + ys == (xs + ys[..n]) + [ys[n]];
      AtAppend(xs + ys[..n], ys[n], p);
    }
  }
}
