/**
 Commit-after-acknowledge consumption as a step machine: a partitioned input log, a consumer
 process that may crash at any point, a producer queue whose deliveries may be confirmed,
 rejected or lost in any order, and committed offsets. Both the Python bus and the Java
 pipeline run this protocol.
 */
module Delivery {
  import opened Options

  datatype Place = Place(topic: string, partition: nat)

  datatype Origin = Origin(place: Place, offset: nat)

  /** A record together with the input message whose handling sent it. */
  datatype Sent<R> = Sent(origin: Origin, record: R)

  /** One handling of an input message, with everything it has sent. */
  datatype Attempt<R> = Attempt(origin: Origin, outputs: seq<R>)

  datatype Session<R> =
    | Down
    | Up(position: map<Place, nat>, current: Option<Attempt<R>>, done: seq<Attempt<R>>,
         pending: seq<Sent<R>>, failed: nat)

  /**
   `stored` is what the brokers hold of the outputs, in order; `settled` is a history
   variable: the attempts whose offsets have been committed.
   */
  datatype World<M, R> = World(
    logs: map<Place, seq<M>>, committed: map<Place, nat>, stored: seq<Sent<R>>,
    settled: seq<Attempt<R>>, session: Session<R>)

  /** What handling a message may send, and what it may have sent when it is finished with it. */
  datatype Handler<!M, !R> = Handler(emits: (M, R) -> bool, completes: (M, seq<R>) -> bool)

  datatype Step<M, R> =
    | Append(place: Place, message: M)
    | Start
    | Take(place: Place)
    | Enqueue(record: R)
    | Finish
    | Report(index: nat, kept: bool, confirmed: bool)
    | Commit
    | Crash

  function Log<M, R>(w: World<M, R>, p: Place): seq<M> { if p in w.logs then w.logs[p] else [] }

  function Offset(m: map<Place, nat>, p: Place): nat { if p in m then m[p] else 0 }

  predicate Exists<M, R>(w: World<M, R>, o: Origin) { o.offset < |Log(w, o.place)| }

  function Message<M, R>(w: World<M, R>, o: Origin): M
    requires Exists(w, o)
  {
    Log(w, o.place)[o.offset]
  }

  /** The offset to commit per partition: the greatest handled offset plus one. */
  function NextOffsets<R>(done: seq<Attempt<R>>): map<Place, nat> {
    if done == [] then map[]
    else
      var m := NextOffsets(done[..|done| - 1]);
      var o := done[|done| - 1].origin;
      m[o.place := Max(Offset(m, o.place), o.offset + 1)]
  }

  function Max(a: nat, b: nat): nat { if a < b then b else a }

  predicate Enabled<M, R>(h: Handler<M, R>, w: World<M, R>, s: Step<M, R>) {
    match s
    case Append(_, _) => true
    case Start => w.session.Down?
    case Take(p) => w.session.Up? && w.session.current.None? && Offset(w.session.position, p) < |Log(w, p)|
    case Enqueue(r) =>
      && w.session.Up? && w.session.current.Some?
      && Exists(w, w.session.current.value.origin)
      && h.emits(Message(w, w.session.current.value.origin), r)
    case Finish =>
      && w.session.Up? && w.session.current.Some?
      && Exists(w, w.session.current.value.origin)
      && h.completes(Message(w, w.session.current.value.origin), w.session.current.value.outputs)
    case Report(i, kept, confirmed) => w.session.Up? && i < |w.session.pending| && (confirmed ==> kept)
    case Commit => w.session.Up? && w.session.current.None? && w.session.pending == [] && w.session.failed == 0
    case Crash => true
  }

  function Apply<M, R>(h: Handler<M, R>, w: World<M, R>, s: Step<M, R>): World<M, R>
    requires Enabled(h, w, s)
  {
    match s
    case Append(p, m) => w.(logs := w.logs[p := Log(w, p) + [m]])
    case Start => w.(session := Up(w.committed, None, [], [], 0))
    case Take(p) =>
      var o := Offset(w.session.position, p);
      w.(session := w.session.(position := w.session.position[p := o + 1],
                               current := Some(Attempt(Origin(p, o), []))))
    case Enqueue(r) =>
      var a := w.session.current.value;
      w.(session := w.session.(current := Some(a.(outputs := a.outputs + [r])),
                               pending := w.session.pending + [Sent(a.origin, r)]))
    case Finish =>
      w.(session := w.session.(current := None, done := w.session.done + [w.session.current.value]))
    case Report(i, kept, confirmed) =>
      var q := w.session.pending;
      w.(stored := if kept then w.stored + [q[i]] else w.stored,
         session := w.session.(pending := q[..i] + q[i + 1..],
                               failed := if confirmed then w.session.failed else w.session.failed + 1))
    case Commit =>
      w.(committed := w.committed + NextOffsets(w.session.done), settled := w.settled + w.session.done,
         session := w.session.(done := []))
    case Crash => w.(session := Down)
  }

  /** The world after a run of steps, or None when some step was not possible. */
  function Exec<M, R>(h: Handler<M, R>, w: World<M, R>, steps: seq<Step<M, R>>): Option<World<M, R>> {
    if steps == [] then Some(w)
    else
      var before := Exec(h, w, steps[..|steps| - 1]);
      if before.Some? && Enabled(h, before.value, steps[|steps| - 1])
      then Some(Apply(h, before.value, steps[|steps| - 1]))
      else None
  }

  function Fresh<M, R>(): World<M, R> { World(map[], map[], [], [], Down) }

  // -------------------------------------------------------------- invariant

  /** The attempts at messages of one partition, in order. */
  function At<R>(xs: seq<Attempt<R>>, p: Place): seq<Attempt<R>> {
    if xs == [] then []
    else if xs[|xs| - 1].origin.place == p then At(xs[..|xs| - 1], p) + [xs[|xs| - 1]]
    else At(xs[..|xs| - 1], p)
  }

  /** Per partition the attempts are at offsets 0, 1, 2, ... up to the given position. */
  ghost predicate Numbered<R>(xs: seq<Attempt<R>>, position: map<Place, nat>) {
    && (forall p :: |At(xs, p)| == Offset(position, p))
    && (forall p, i :: 0 <= i < |At(xs, p)| ==> At(xs, p)[i].origin == Origin(p, i))
  }

  function InHand<R>(s: Session<R>): seq<Attempt<R>>
    requires s.Up?
  {
    if s.current.Some? then [s.current.value] else []
  }

  ghost predicate Complete<M, R>(h: Handler<M, R>, w: World<M, R>, a: Attempt<R>) {
    Exists(w, a.origin) && h.completes(Message(w, a.origin), a.outputs)
  }

  ghost predicate Emitted<M, R>(h: Handler<M, R>, w: World<M, R>, s: Sent<R>) {
    Exists(w, s.origin) && h.emits(Message(w, s.origin), s.record)
  }

  ghost predicate AllStored<R>(a: Attempt<R>, stored: seq<Sent<R>>) {
    forall r :: r in a.outputs ==> Sent(a.origin, r) in stored
  }

  ghost predicate Accounted<R>(a: Attempt<R>, stored: seq<Sent<R>>, s: Session<R>)
    requires s.Up?
  {
    s.failed > 0 || forall r :: r in a.outputs ==> Sent(a.origin, r) in stored || Sent(a.origin, r) in s.pending
  }

  ghost predicate LogsInv<M, R>(h: Handler<M, R>, w: World<M, R>) {
    && (forall a :: a in w.settled ==> Complete(h, w, a) && AllStored(a, w.stored))
    && (forall s :: s in w.stored ==> Emitted(h, w, s))
  }

  ghost predicate SessionInv<M, R>(h: Handler<M, R>, w: World<M, R>)
    requires w.session.Up?
  {
    && Numbered(w.settled + w.session.done + InHand(w.session), w.session.position)
    && (forall a :: a in w.session.done ==> Complete(h, w, a) && Accounted(a, w.stored, w.session))
    && (forall a :: a in InHand(w.session) ==> Exists(w, a.origin) && Accounted(a, w.stored, w.session))
    && (forall s :: s in w.session.pending ==> Emitted(h, w, s))
  }

  ghost predicate Inv<M, R>(h: Handler<M, R>, w: World<M, R>) {
    && Numbered(w.settled, w.committed)
    && LogsInv(h, w)
    && (w.session.Up? ==> SessionInv(h, w))
  }

  lemma {:induction false} AtAppend<R>(xs: seq<Attempt<R>>, a: Attempt<R>, p: Place)
    ensures At(xs + [a], p) == if a.origin.place == p then At(xs, p) + [a] else At(xs, p)
  {
    assert (xs + [a])[..|xs|] == xs;
  }

  lemma {:induction false} NumberedAppend<R>(xs: seq<Attempt<R>>, position: map<Place, nat>, a: Attempt<R>)
    requires Numbered(xs, position) && a.origin.offset == Offset(position, a.origin.place)
    ensures Numbered(xs + [a], position[a.origin.place := a.origin.offset + 1])
  {
    hide At;
    forall p ensures At(xs + [a], p) == if a.origin.place == p then At(xs, p) + [a] else At(xs, p) {
      AtAppend(xs, a, p);
    }
  }

  lemma {:induction false} AtMember<R>(xs: seq<Attempt<R>>, p: Place)
    ensures forall a :: a in At(xs, p) ==> a in xs
  {
    if xs != [] {
      AtMember(xs[..|xs| - 1], p);
      assert xs == xs[..|xs| - 1] + [xs[|xs| - 1]];
    }
  }

  ghost predicate SameOffsets(a: map<Place, nat>, b: map<Place, nat>) {
    forall p :: Offset(a, p) == Offset(b, p)
  }

  /** Committing the next offsets of a batch moves every partition exactly to the end of the batch. */
  lemma {:induction false} CommitReachesEnd<R>(
    settled: seq<Attempt<R>>, committed: map<Place, nat>, done: seq<Attempt<R>>, position: map<Place, nat>)
    requires Numbered(settled, committed)
    requires Numbered(settled + done, position)
    ensures Numbered(settled + done, committed + NextOffsets(done))
    ensures SameOffsets(committed + NextOffsets(done), position)
  {
    hide At;
    if done == [] {
      assert settled + done == settled;
      assert committed + NextOffsets(done) == committed;
    } else {
      var n := |done| - 1;
      var a := done[n];
      var before := settled + done[..n];
      assert settled + done == before + [a];
      NumberedPrefix(before, a, position);
      CommitReachesEnd(settled, committed, done[..n], position[a.origin.place := a.origin.offset]);
      NextOfMore(committed, done, position);
      SamePositions(settled + done, position, committed + NextOffsets(done));
    }
  }

  lemma {:induction false} NextOfMore<R>(committed: map<Place, nat>, done: seq<Attempt<R>>, position: map<Place, nat>)
    requires done != []
    requires var a := done[|done| - 1];
             && Offset(position, a.origin.place) == a.origin.offset + 1
             && SameOffsets(committed + NextOffsets(done[..|done| - 1]), position[a.origin.place := a.origin.offset])
    ensures SameOffsets(committed + NextOffsets(done), position)
  {
    var a := done[|done| - 1];
    var m := NextOffsets(done[..|done| - 1]);
    assert Offset(committed + m, a.origin.place) == a.origin.offset;
    forall p ensures Offset(committed + NextOffsets(done), p) == Offset(position, p) {
      assert Offset(committed + m, p) == Offset(position[a.origin.place := a.origin.offset], p);
    }
  }

  lemma {:induction false} SamePositions<R>(xs: seq<Attempt<R>>, position: map<Place, nat>, other: map<Place, nat>)
    requires Numbered(xs, position) && SameOffsets(other, position)
    ensures Numbered(xs, other)
  {
  }

  lemma {:induction false} NumberedPrefix<R>(before: seq<Attempt<R>>, a: Attempt<R>, position: map<Place, nat>)
    requires Numbered(before + [a], position)
    ensures Numbered(before, position[a.origin.place := a.origin.offset])
    ensures Offset(position, a.origin.place) == a.origin.offset + 1
  {
    var all := before + [a];
    assert all[..|before|] == before;
    forall p ensures At(all, p) == if a.origin.place == p then At(before, p) + [a] else At(before, p) {}
    var p := a.origin.place;
    assert At(all, p)[|At(before, p)|] == a;
    forall q, i | 0 <= i < |At(before, q)| ensures At(before, q)[i].origin == Origin(q, i) {
      assert At(all, q)[i] == At(before, q)[i];
    }
  }

  // ----------------------------------------------------- the invariant holds

  /** Messages already in a log never change. */
  lemma {:induction false} Grows<M, R>(h: Handler<M, R>, w: World<M, R>, p: Place, m: M, o: Origin)
    requires Exists(w, o)
    ensures var next := Apply(h, w, Append(p, m)); Exists(next, o) && Message(next, o) == Message(w, o)
  {
  }

  lemma {:induction false} AppendKeeps<M, R>(h: Handler<M, R>, w: World<M, R>, p: Place, m: M)
    requires Inv(h, w)
    ensures Inv(h, Apply(h, w, Append(p, m)))
  {
    hide Numbered, Exists, Message;
    var next := Apply(h, w, Append(p, m));
    forall o | Exists(w, o) ensures Exists(next, o) && Message(next, o) == Message(w, o) { Grows(h, w, p, m, o); }
  }

  lemma {:induction false} StartKeeps<M, R>(h: Handler<M, R>, w: World<M, R>)
    requires Inv(h, w)
    ensures Inv(h, w.(session := Up(w.committed, None, [], [], 0)))
  {
    hide Numbered;
    assert w.settled + [] + [] == w.settled;
  }

  lemma {:induction false} TakeKeeps<M, R>(h: Handler<M, R>, w: World<M, R>, p: Place)
    requires Inv(h, w) && Enabled(h, w, Take(p))
    ensures Inv(h, Apply(h, w, Take(p)))
  {
    hide Numbered;
    var o := Offset(w.session.position, p);
    var chain := w.settled + w.session.done;
    assert chain + [] == chain;
    NumberedAppend(chain, w.session.position, Attempt(Origin(p, o), []));
  }

  lemma {:induction false} EnqueueKeeps<M, R>(h: Handler<M, R>, w: World<M, R>, r: R)
    requires Inv(h, w) && Enabled(h, w, Enqueue(r))
    ensures Inv(h, Apply(h, w, Enqueue(r)))
  {
    hide Numbered;
    var a := w.session.current.value;
    var b := a.(outputs := a.outputs + [r]);
    var chain := w.settled + w.session.done;
    NumberedReplace(chain, a, b, w.session.position);
    var next := Apply(h, w, Enqueue(r));
    forall x | x in w.session.done ensures Accounted(x, next.stored, next.session) {}
  }

  lemma {:induction false} NumberedReplace<R>(
    chain: seq<Attempt<R>>, a: Attempt<R>, b: Attempt<R>, position: map<Place, nat>)
    requires Numbered(chain + [a], position) && b.origin == a.origin
    ensures Numbered(chain + [b], position)
  {
    hide At;
    forall p
      ensures At(chain + [a], p) == if a.origin.place == p then At(chain, p) + [a] else At(chain, p)
      ensures At(chain + [b], p) == if b.origin.place == p then At(chain, p) + [b] else At(chain, p)
    {
      AtAppend(chain, a, p);
      AtAppend(chain, b, p);
    }
    forall p, i | 0 <= i < |At(chain + [b], p)| ensures At(chain + [b], p)[i].origin == Origin(p, i) {
      assert At(chain + [a], p)[i].origin == Origin(p, i);
    }
  }

  lemma {:induction false} FinishKeeps<M, R>(h: Handler<M, R>, w: World<M, R>)
    requires Inv(h, w) && Enabled(h, w, Finish)
    ensures Inv(h, Apply(h, w, Finish))
  {
    hide Numbered;
    var a := w.session.current.value;
    assert w.settled + w.session.done + [a] == w.settled + (w.session.done + [a]) + [];
  }

  lemma {:induction false} ReportKeeps<M, R>(h: Handler<M, R>, w: World<M, R>, i: nat, kept: bool, confirmed: bool)
    requires Inv(h, w) && Enabled(h, w, Report(i, kept, confirmed))
    ensures Inv(h, Apply(h, w, Report(i, kept, confirmed)))
  {
    hide Numbered;
    var q := w.session.pending;
    var next := Apply(h, w, Report(i, kept, confirmed));
    forall s | s in q ensures s in next.session.pending || s == q[i] {
      var j :| 0 <= j < |q| && q[j] == s;
      if j < i { assert next.session.pending[j] == s; }
      if j > i { assert next.session.pending[j - 1] == s; }
    }
    assert q[i] in q;
    forall s | s in next.stored ensures s in w.stored || s == q[i] {}
    forall s | s in next.session.pending ensures s in q {}
    forall a | Accounted(a, w.stored, w.session) ensures Accounted(a, next.stored, next.session) {}
  }

  lemma {:induction false} CommitKeeps<M, R>(h: Handler<M, R>, w: World<M, R>)
    requires Inv(h, w) && Enabled(h, w, Commit)
    ensures Inv(h, Apply(h, w, Commit))
    ensures SameOffsets(Apply(h, w, Commit).committed, w.session.position)
  {
    hide Numbered, NextOffsets;
    var chain := w.settled + w.session.done;
    assert chain + [] == chain;
    CommitReachesEnd(w.settled, w.committed, w.session.done, w.session.position);
  }

  /** With nothing handled since the last commit, the consumer stands at the committed offsets. */
  lemma {:induction false} AtCommitted<M, R>(h: Handler<M, R>, w: World<M, R>)
    requires Inv(h, w) && w.session.Up? && w.session.current.None? && w.session.done == []
    ensures SameOffsets(w.committed, w.session.position)
  {
    hide At;
    assert w.settled + [] + [] == w.settled;
  }

  lemma {:induction false} StepKeeps<M, R>(h: Handler<M, R>, w: World<M, R>, s: Step<M, R>)
    requires Inv(h, w) && Enabled(h, w, s)
    ensures Inv(h, Apply(h, w, s))
  {
    match s
    case Append(p, m) => AppendKeeps(h, w, p, m);
    case Start => StartKeeps(h, w);
    case Take(p) => TakeKeeps(h, w, p);
    case Enqueue(r) => EnqueueKeeps(h, w, r);
    case Finish => FinishKeeps(h, w);
    case Report(i, kept, confirmed) => ReportKeeps(h, w, i, kept, confirmed);
    case Commit => CommitKeeps(h, w);
    case Crash =>
  }
}
