/** The simulator's pending queue: which (circuit state, link) pairs still
    need propagating, the deferred short circuits and the oscillation guard
    of `stepAll`.

    Propagating one pair touches the circuit states, which the simulator
    does not own; the model keeps them in a world `W` and receives the
    effect of propagating, the liveness test and the short-circuit test as
    functions (`Env`). */
module Simulator {
  import opened Wrappers
  import Netlist
  import OrderedSets

  /** A pending (circuit state, link) pair; states and links are named by
      their identities. */
  datatype Entry = Entry(state: nat, link: nat)

  /** What propagating a pair asks of the queue: `valueChanged` queues a
      pair, `linkRemoved` drops every pair of a link. */
  datatype QueueOp = Enqueue(entry: Entry) | Dequeue(link: nat)

  /** The effect of `propagateSignal` on one pair: the new world, the queue
      requests it made and the exception it threw, if any. */
  datatype Reaction<W> = Reaction(world: W, ops: seq<QueueOp>, fault: Option<Fault>)

  /** The simulator's view of the circuit states:
      `propagate` runs `propagateSignal`;
      `live` is "the link has a circuit and the state still belongs to its circuit";
      `shorted` is "the link has a circuit and is short-circuited in that state". */
  datatype Env<!W> = Env(
    propagate: (W, Entry) -> Reaction<W>,
    live: (W, Entry) -> bool,
    shorted: (W, Entry) -> bool)

  /** The simulator: its circuits, the insertion-ordered pending set, the
      pairs whose last propagation short-circuited, the pending sets seen by
      the running `stepAll`, and whether a step is in progress. */
  datatype Sim = Sim(
    circuits: set<nat>,
    queue: seq<Entry>,
    shorted: set<Entry>,
    history: set<set<Entry>>,
    stepping: bool)

  /** The pending set keeps each pair once. */
  predicate QueueValid(s: Sim)
  {
    OrderedSets.Distinct(s.queue)
  }

  /** The members of a queue, as the set-equality of the source's hash sets sees them. */
  function Members(q: seq<Entry>): (r: set<Entry>)
    ensures forall e :: e in r <==> e in q
  {
    set e | e in q
  }

  /** A simulator with nothing attached. */
  function Initial(): (r: Sim)
    ensures QueueValid(r) && r.circuits == {} && r.queue == [] && !r.stepping
  {
    Sim({}, [], {}, {}, false)
  }

  // ----- circuits -----

  /** `addCircuit`. */
  function AddCircuit(s: Sim, c: nat): (r: Sim)
    ensures r.circuits == s.circuits + {c}
    ensures r.queue == s.queue && r.shorted == s.shorted && r.stepping == s.stepping
  {
    s.(circuits := s.circuits + {c})
  }

  /** `removeCircuit`: the circuit's pending pairs stay queued; `step` skips
      them once their states leave their circuits. */
  function RemoveCircuit(s: Sim, c: nat): (r: Sim)
    ensures r.circuits == s.circuits - {c}
    ensures r.queue == s.queue && r.shorted == s.shorted && r.stepping == s.stepping
  {
    s.(circuits := s.circuits - {c})
  }

  /** Removing a circuit just added undoes the addition. */
  lemma AddThenRemoveCircuit(s: Sim, c: nat)
    requires c !in s.circuits
    ensures RemoveCircuit(AddCircuit(s, c), c) == s
  {
  }

  /** Adding back a circuit just removed restores the simulator, and adding
      a circuit already registered changes nothing: the circuits form a set. */
  lemma RemoveThenAddCircuit(s: Sim, c: nat)
    requires c in s.circuits
    ensures AddCircuit(RemoveCircuit(s, c), c) == s
    ensures AddCircuit(s, c) == s
  {
  }

  /** `clear`: circuits, queue, deferred short circuits and history are
      all emptied. */
  function Clear(s: Sim): (r: Sim)
    ensures r.circuits == {} && r.queue == [] && r.shorted == {} && r.history == {}
    ensures r.stepping == s.stepping && QueueValid(r)
  {
    Sim({}, [], {}, {}, s.stepping)
  }

  // ----- the pending set -----

  /** `linksToUpdate.add(pair)`: a pair already pending keeps its place. */
  function Add(q: seq<Entry>, e: Entry): (r: seq<Entry>)
    ensures OrderedSets.Distinct(q) ==> OrderedSets.Distinct(r)
    ensures forall x :: x in r <==> x in q || x == e
    ensures |q| <= |r| && r[..|q|] == q
  {
    if e in q then q
    else
      assert (q + [e])[..|q|] == q;
      q + [e]
  }

  /** The pairs of q not on link l, in order. */
  function Without(q: seq<Entry>, l: nat): (r: seq<Entry>)
    ensures OrderedSets.Distinct(q) ==> OrderedSets.Distinct(r)
    ensures forall x :: x in r <==> x in q && x.link != l
    ensures |r| <= |q|
  {
    if |q| == 0 then []
    else
      var rest := Without(q[1..], l);
      assert forall x | x in q :: x == q[0] || x in q[1..];
      if q[0].link == l then rest
      else
        assert OrderedSets.Distinct(q) ==> q[0] !in q[1..] by {
          if OrderedSets.Distinct(q) {
            forall j | 0 <= j < |q| - 1
              ensures q[1..][j] != q[0]
            {
              assert q[1..][j] == q[j + 1];
            }
          }
        }
        [q[0]] + rest
  }

  /** `valueChanged(state, link)`: the pair is queued at most once. */
  function ValueChanged(s: Sim, e: Entry): (r: Sim)
    requires QueueValid(s)
    ensures QueueValid(r)
    ensures forall x :: x in r.queue <==> x in s.queue || x == e
    ensures |s.queue| <= |r.queue| && r.queue[..|s.queue|] == s.queue
    ensures r.circuits == s.circuits && r.shorted == s.shorted && r.history == s.history && r.stepping == s.stepping
  {
    s.(queue := Add(s.queue, e))
  }

  /** `linkRemoved(link)`: every pending pair of the link goes, every other
      pair stays. */
  function LinkRemoved(s: Sim, l: nat): (r: Sim)
    requires QueueValid(s)
    ensures QueueValid(r)
    ensures forall x :: x in r.queue <==> x in s.queue && x.link != l
    ensures r.circuits == s.circuits && r.shorted == s.shorted && r.history == s.history && r.stepping == s.stepping
  {
    s.(queue := Without(s.queue, l))
  }

  /** Queueing a pair twice is queueing it once. */
  lemma ValueChangedIdempotent(s: Sim, e: Entry)
    requires QueueValid(s)
    ensures ValueChanged(ValueChanged(s, e), e) == ValueChanged(s, e)
  {
    assert e in ValueChanged(s, e).queue;
  }

  /** Removing a link cancels a pair of it queued just before. */
  lemma {:induction false} RemovedCancelsQueued(q: seq<Entry>, e: Entry)
    requires e !in q
    ensures Without(Add(q, e), e.link) == Without(q, e.link)
    decreases |q|
  {
    if |q| > 0 {
      assert (q + [e])[1..] == q[1..] + [e];
      RemovedCancelsQueued(q[1..], e);
    } else {
      assert [e][1..] == [];
    }
  }

  /** The same, on the simulator: `linkRemoved` after `valueChanged` of a
      fresh pair of that link leaves the queue as `linkRemoved` alone. */
  lemma LinkRemovedAfterValueChanged(s: Sim, e: Entry)
    requires QueueValid(s) && e !in s.queue
    ensures LinkRemoved(ValueChanged(s, e), e.link) == LinkRemoved(s, e.link)
  {
    RemovedCancelsQueued(s.queue, e);
  }

  /** The queue requests of one propagation, applied in order. */
  function Apply(q: seq<Entry>, ops: seq<QueueOp>): (r: seq<Entry>)
    ensures OrderedSets.Distinct(q) ==> OrderedSets.Distinct(r)
    ensures forall x | x in r :: x in q || Enqueue(x) in ops
    decreases |ops|
  {
    if |ops| == 0 then q
    else
      var q' := match ops[0]
        case Enqueue(e) => Add(q, e)
        case Dequeue(l) => Without(q, l);
      var r := Apply(q', ops[1..]);
      assert forall op | op in ops[1..] :: op in ops;
      r
  }

  // ----- step -----

  /** What the loop of `step` carries: the world, the new pending set, the
      short-circuited pairs and the last exception caught. */
  datatype Round<W> = Round(world: W, queue: seq<Entry>, shorted: set<Entry>, exc: Option<Fault>)

  /** The loop of `step` over the snapshot `todo`: dead pairs are skipped; a
      short circuit records the pair; any other exception is remembered,
      the last one winning. */
  function RunRound<W>(todo: seq<Entry>, acc: Round<W>, env: Env<W>): (r: Round<W>)
    ensures OrderedSets.Distinct(acc.queue) ==> OrderedSets.Distinct(r.queue)
    ensures acc.shorted <= r.shorted
    ensures forall e | e in r.shorted :: e in acc.shorted || e in todo
    ensures acc.exc.Some? ==> r.exc.Some?
    ensures (forall f | acc.exc == Some(f) :: f != ShortCircuit) ==> forall f | r.exc == Some(f) :: f != ShortCircuit
    decreases |todo|
  {
    if |todo| == 0 then acc
    else
      var e := todo[0];
      var next :=
        if !env.live(acc.world, e) then acc
        else
          var re := env.propagate(acc.world, e);
          var q := Apply(acc.queue, re.ops);
          match re.fault
          case None => Round(re.world, q, acc.shorted, acc.exc)
          case Some(f) =>
            if f == ShortCircuit then Round(re.world, q, acc.shorted + {e}, acc.exc)
            else Round(re.world, q, acc.shorted, Some(f));
      var r := RunRound(todo[1..], next, env);
      assert forall x | x in todo[1..] :: x in todo;
      r
  }

  /** The outcome of a step: the simulator, the world and the exception
      thrown. */
  datatype Stepped<W> = Stepped(sim: Sim, world: W, fault: Option<Fault>)

  /** Whether any deferred short circuit is still live and shorted. */
  predicate StillShorted<W>(shorted: set<Entry>, w: W, env: Env<W>)
  {
    exists e | e in shorted :: env.shorted(w, e)
  }

  /** `step`: a no-op while stepping. Otherwise the pending set is
      snapshotted and emptied, the snapshot propagated, and pairs queued
      meanwhile wait for the next step. The last component exception is
      thrown first. Deferred short circuits are re-raised only when nothing
      is pending and one of them is still shorted; when nothing is pending
      and none is, they are forgotten. */
  function Step<W>(s: Sim, w: W, env: Env<W>): (r: Stepped<W>)
    requires QueueValid(s)
    ensures QueueValid(r.sim)
    ensures s.stepping ==> r == Stepped(s, w, None)
    ensures r.sim.circuits == s.circuits && r.sim.history == s.history && r.sim.stepping == s.stepping
    ensures !s.stepping ==>
      var round := RunRound(s.queue, Round(w, [], s.shorted, None), env);
      && r.world == round.world && r.sim.queue == round.queue
      && (round.exc.Some? ==> r.fault == round.exc && r.sim.shorted == round.shorted)
      && (round.exc.None? && round.shorted != {} && round.queue == [] && StillShorted(round.shorted, round.world, env) ==>
            r.fault == Some(ShortCircuit) && r.sim.shorted == round.shorted)
      && (round.exc.None? && round.queue == [] && !StillShorted(round.shorted, round.world, env) ==>
            r.fault.None? && r.sim.shorted == {})
      && (round.exc.None? && round.queue != [] ==> r.fault.None? && r.sim.shorted == round.shorted)
    ensures r.fault.Some? && r.fault != Some(ShortCircuit) ==> !s.stepping
    ensures r.fault == Some(ShortCircuit) ==> r.sim.queue == [] && StillShorted(r.sim.shorted, r.world, env)
  {
    if s.stepping then Stepped(s, w, None)
    else
      var round := RunRound(s.queue, Round(w, [], s.shorted, None), env);
      var s' := s.(queue := round.queue, shorted := round.shorted);
      if round.exc.Some? then Stepped(s', round.world, round.exc)
      else if round.shorted != {} && round.queue == [] then
        if StillShorted(round.shorted, round.world, env) then Stepped(s', round.world, Some(ShortCircuit))
        else Stepped(s'.(shorted := {}), round.world, None)
      else Stepped(s', round.world, None)
  }

  /** A step with nothing pending and nothing deferred changes nothing. */
  lemma StepIdle<W>(s: Sim, w: W, env: Env<W>)
    requires QueueValid(s) && s.queue == [] && s.shorted == {}
    ensures Step(s, w, env) == Stepped(s, w, None)
  {
  }

  /** A step throws a short circuit only for pairs of the snapshot or
      pairs deferred before it. */
  lemma StepShortFromKnownPairs<W>(s: Sim, w: W, env: Env<W>)
    requires QueueValid(s) && !s.stepping
    ensures forall e | e in Step(s, w, env).sim.shorted :: e in s.shorted || e in s.queue
  {
    var round := RunRound(s.queue, Round(w, [], s.shorted, None), env);
    assert forall e | e in round.shorted :: e in s.shorted || e in s.queue;
  }

  // ----- stepAll -----

  /** The outcome of `stepAll`; `finished` is false when the model's step
      budget ran out before the source's loop would have ended. */
  datatype Settled<W> = Settled(sim: Sim, world: W, fault: Option<Fault>, finished: bool)

  /** The loop of `stepAll`: until nothing is pending, record the pending
      set, counting recurrences, and step; the tenth recurrence throws an
      oscillation. Exceptions are held until the loop ends: the last
      component exception first, then a short circuit. */
  function StepLoop<W>(s: Sim, w: W, env: Env<W>, repeats: nat, exc: Option<Fault>, short: bool, fuel: nat): (r: Settled<W>)
    requires QueueValid(s) && !s.stepping && repeats < 10 && exc != Some(ShortCircuit)
    ensures QueueValid(r.sim) && !r.sim.stepping && r.sim.circuits == s.circuits
    ensures r.finished && r.fault != Some(Oscillation) ==> r.sim.queue == []
    ensures r.finished && r.fault.None? ==> exc.None? && !short
    ensures r.finished && exc.Some? && r.fault != Some(Oscillation) ==> r.fault.Some? && r.fault != Some(ShortCircuit)
    ensures !r.finished ==> r.fault.None? && r.sim.queue != []
    ensures s.queue == [] ==> r == Settled(s, w, if exc.Some? then exc else if short then Some(ShortCircuit) else None, true)
    decreases fuel
  {
    if |s.queue| == 0 then
      Settled(s, w, if exc.Some? then exc else if short then Some(ShortCircuit) else None, true)
    else if fuel == 0 then Settled(s, w, None, false)
    else
      var seen := Members(s.queue) in s.history;
      var repeats' := if seen then repeats + 1 else repeats;
      if repeats' == 10 then Settled(s, w, Some(Oscillation), true)
      else
        var s1 := s.(history := s.history + {Members(s.queue)});
        var st := Step(s1, w, env);
        var exc' := if st.fault.Some? && st.fault != Some(ShortCircuit) then st.fault else exc;
        var short' := short || st.fault == Some(ShortCircuit);
        StepLoop(st.sim, st.world, env, repeats', exc', short', fuel - 1)
  }

  /** `stepAll`: a no-op while stepping; otherwise the history is cleared
      and the loop runs. */
  function StepAll<W>(s: Sim, w: W, env: Env<W>, fuel: nat): (r: Settled<W>)
    requires QueueValid(s)
    ensures s.stepping ==> r == Settled(s, w, None, true)
    ensures QueueValid(r.sim)
    ensures !s.stepping && r.finished && r.fault != Some(Oscillation) ==> r.sim.queue == []
    ensures !s.stepping && s.queue == [] ==> r == Settled(s.(history := {}), w, None, true)
  {
    if s.stepping then Settled(s, w, None, true)
    else StepLoop(s.(history := {}), w, env, 0, None, false, fuel)
  }

  /** An environment in which pair e is always live and every propagation
      of it queues it again, changing nothing else. */
  ghost predicate SelfRequeuing<W>(env: Env<W>, w: W, e: Entry)
  {
    && env.live(w, e)
    && env.propagate(w, e) == Reaction(w, [Enqueue(e)], None)
  }

  /** A pair that re-queues itself forever is reported as an oscillation:
      the pending set {e} recurs, and its tenth recurrence throws. */
  lemma SelfRequeueOscillates<W>(s: Sim, w: W, env: Env<W>, e: Entry, fuel: nat)
    requires QueueValid(s) && !s.stepping && s.queue == [e] && SelfRequeuing(env, w, e) && fuel >= 11
    ensures StepAll(s, w, env, fuel).fault == Some(Oscillation)
    ensures StepAll(s, w, env, fuel).finished
  {
    LoopOscillates(s.(history := {}), w, env, 0, None, false, fuel, e);
  }

  /** The induction behind `SelfRequeueOscillates`: each round leaves the
      pending set at [e] with the world unchanged and counts one more
      recurrence once {e} is in the history. */
  lemma {:induction false} LoopOscillates<W>(s: Sim, w: W, env: Env<W>, repeats: nat, exc: Option<Fault>, short: bool, fuel: nat, e: Entry)
    requires QueueValid(s) && !s.stepping && s.queue == [e] && SelfRequeuing(env, w, e) && repeats < 10
    requires exc != Some(ShortCircuit)
    requires fuel >= if {e} in s.history then 10 - repeats else 11 - repeats
    ensures StepLoop(s, w, env, repeats, exc, short, fuel).fault == Some(Oscillation)
    ensures StepLoop(s, w, env, repeats, exc, short, fuel).finished
    decreases 10 - repeats, if {e} in s.history then 0 else 1
  {
    assert Members(s.queue) == {e};
    var seen := {e} in s.history;
    var repeats' := if seen then repeats + 1 else repeats;
    if repeats' < 10 {
      var s1 := s.(history := s.history + {{e}});
      var round := RunRound(s1.queue, Round(w, [], s1.shorted, None), env);
      assert Apply([], [Enqueue(e)]) == [e];
      assert [e][1..] == [];
      assert round == RunRound([], Round(w, [e], s1.shorted, None), env);
      var st := Step(s1, w, env);
      assert st.sim.queue == [e] && st.world == w && st.fault.None?;
      assert {e} in st.sim.history;
      LoopOscillates(st.sim, st.world, env, repeats', exc, short, fuel - 1, e);
    }
  }
}
