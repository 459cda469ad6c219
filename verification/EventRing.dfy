/** The event ring (drivers/usb/xhci.c): one segment of 256 blocks that the controller fills and the
    interrupt handler drains. The handler tells the controller how far it is only once, at its end, by
    writing the event ring dequeue pointer; meanwhile the controller goes on producing, bounded by the old
    value of that register (xHCI specification, section 4.9.4). Addresses are places in the segment. */
module EventRing {
  import opened Laps

  const TRBS := 256

  /** An event block: what it says, and its cycle bit. */
  datatype Trb = Event(data: int, c: bool)

  /** The ring; the controller's place and cycle, the dequeue pointer register, the driver's cycle; what was
      produced, handled, and acknowledged through the register so far. */
  datatype Ring = Ring(trbs: seq<Trb>, enqueue: nat, pcs: bool, register: nat, ccs: bool,
                       produced: seq<int>, handled: seq<int>, acked: nat)

  /** Where the driver, the register and the controller are: lap and place. */
  datatype Positions = Positions(lap: nat, round: nat, place: nat, ackedRound: nat)

  /** What was written to place `i` last. */
  function Written(produced: seq<int>, lap: nat, enqueue: nat, i: nat): int
    requires |produced| == TRBS * lap + enqueue && i < TRBS
  {
    if i < enqueue then produced[TRBS * lap + i] else if lap == 0 then 0 else produced[TRBS * (lap - 1) + i]
  }

  ghost predicate Fifo(s: Ring, l: Positions) {
    && |s.trbs| == TRBS && s.enqueue < TRBS && s.register < TRBS && l.place <= TRBS
    && |s.produced| == TRBS * l.lap + s.enqueue && s.pcs == Bit(l.lap)
    && |s.handled| == TRBS * l.round + l.place && s.ccs == Bit(l.round)
    && s.acked == TRBS * l.ackedRound + s.register
    && s.acked <= |s.handled| && s.handled <= s.produced && |s.produced| < s.acked + TRBS
    && forall i :: 0 <= i < TRBS ==>
      s.trbs[i] == Event(Written(s.produced, l.lap, s.enqueue, i), if i < s.enqueue then Bit(l.lap) else !Bit(l.lap))
  }

  /** The controller must not catch up with the dequeue pointer register. */
  predicate Full(s: Ring) { (s.enqueue + 1) % TRBS == s.register }

  function ProduceOne(s: Ring, data: int): Ring
    requires |s.trbs| == TRBS && s.enqueue < TRBS
  {
    if Full(s) then s
    else
      var next := (s.enqueue + 1) % TRBS;
      s.(trbs := s.trbs[s.enqueue := Event(data, s.pcs)], enqueue := next,
         pcs := if next == 0 then !s.pcs else s.pcs, produced := s.produced + [data])
  }

  lemma FullMeans255(s: Ring, l: Positions)
    requires Fifo(s, l)
    ensures Full(s) <==> |s.produced| == s.acked + TRBS - 1
  {
    assert l.lap == l.ackedRound || l.lap == l.ackedRound + 1;
  }

  lemma ProduceInLap(s: Ring, l: Positions, data: int)
    requires Fifo(s, l) && !Full(s) && s.enqueue + 1 < TRBS && |s.produced| < s.acked + TRBS - 1
    ensures Fifo(ProduceOne(s, data), l)
  {
  }

  lemma ProduceLast(s: Ring, l: Positions, data: int)
    requires Fifo(s, l) && !Full(s) && s.enqueue + 1 == TRBS && |s.produced| < s.acked + TRBS - 1
    ensures Fifo(ProduceOne(s, data), l.(lap := l.lap + 1))
  {
    BitAlternates(l.lap);
  }

  lemma ProduceKeepsFifo(s: Ring, l: Positions, data: int) returns (l': Positions)
    requires Fifo(s, l)
    ensures Fifo(ProduceOne(s, data), l') && l'.(lap := l.lap) == l
    ensures ProduceOne(s, data).produced == if Full(s) then s.produced else s.produced + [data]
  {
    FullMeans255(s, l);
    l' := l;
    if !Full(s) {
      if s.enqueue + 1 < TRBS {
        ProduceInLap(s, l, data);
      } else {
        ProduceLast(s, l, data);
        l' := l.(lap := l.lap + 1);
      }
    }
  }

  /** What the driver finds at its place: the cycle bit matches exactly if an event is waiting, and then the
      block is the oldest one waiting. */
  lemma CheckIsExact(s: Ring, l: Positions)
    requires Fifo(s, l) && l.place < TRBS
    ensures s.trbs[l.place].c == s.ccs <==> |s.handled| < |s.produced|
    ensures |s.handled| < |s.produced| ==> s.trbs[l.place].data == s.produced[|s.handled|]
  {
    BitAlternates(l.round);
    assert l.lap == l.round || l.lap == l.round + 1;
  }

  function Handle(s: Ring, place: nat): Ring
    requires place < |s.trbs|
  {
    s.(handled := s.handled + [s.trbs[place].data])
  }

  lemma HandleKeepsFifo(s: Ring, l: Positions)
    requires Fifo(s, l) && l.place < TRBS && s.trbs[l.place].c == s.ccs
    ensures Fifo(Handle(s, l.place), l.(place := l.place + 1))
  {
    CheckIsExact(s, l);
  }

  function Wrap(s: Ring): Ring { s.(ccs := !s.ccs) }

  lemma WrapKeepsFifo(s: Ring, l: Positions)
    requires Fifo(s, l) && l.place == TRBS
    ensures Fifo(Wrap(s), l.(place := 0, round := l.round + 1))
  {
    BitAlternates(l.round);
  }

  /** The end of the interrupt: the register gets the driver's place. */
  function Acknowledge(s: Ring, place: nat): Ring {
    s.(register := place, acked := |s.handled|)
  }

  lemma AcknowledgeKeepsFifo(s: Ring, l: Positions)
    requires Fifo(s, l) && l.place < TRBS
    ensures Fifo(Acknowledge(s, l.place), l.(ackedRound := l.round))
  {
  }

  /** The loop gives up early when it has wrapped and the register holds place 1. Nothing can be waiting
      then: 255 events are handled, and the controller may not produce another. */
  lemma EarlyExitLosesNothing(s: Ring, l: Positions)
    requires Fifo(s, l) && l.place == 0 && l.round == l.ackedRound + 1 && s.register == 1
    ensures s.handled == s.produced && Full(s)
  {
    FullMeans255(s, l);
  }

  /** What the controller gets to produce of `batch`; the rest waits outside. */
  function ProduceAll(s: Ring, batch: seq<int>): (r: Ring)
    requires |s.trbs| == TRBS && s.enqueue < TRBS
    ensures |r.trbs| == TRBS && r.enqueue < TRBS && s.produced <= r.produced
    ensures r.register == s.register && r.handled == s.handled && r.ccs == s.ccs && r.acked == s.acked
    decreases |batch|
  {
    if batch == [] then s else ProduceAll(ProduceOne(s, batch[0]), batch[1..])
  }

  lemma {:induction false} ProduceAllInTwo(s: Ring, a: seq<int>, b: seq<int>)
    requires |s.trbs| == TRBS && s.enqueue < TRBS
    ensures ProduceAll(s, a + b) == ProduceAll(ProduceAll(s, a), b)
    decreases |a|
  {
    if a == [] {
      assert a + b == b;
    } else {
      assert (a + b)[1..] == a[1..] + b;
      ProduceAllInTwo(ProduceOne(s, a[0]), a[1..], b);
    }
  }

  /** The controller does not look at what the driver keeps. */
  lemma {:induction false} ProduceAllIsBlind(s: Ring, batch: seq<int>, handled: seq<int>, ccs: bool)
    requires |s.trbs| == TRBS && s.enqueue < TRBS
    ensures ProduceAll(s.(handled := handled, ccs := ccs), batch)
      == ProduceAll(s, batch).(handled := handled, ccs := ccs)
    decreases |batch|
  {
    if batch != [] {
      ProduceAllIsBlind(ProduceOne(s, batch[0]), batch[1..], handled, ccs);
    }
  }

  function Flat(batches: seq<seq<int>>): seq<int> {
    if batches == [] then [] else Flat(batches[..|batches| - 1]) + batches[|batches| - 1]
  }

  /** The ring after an interrupt before whose last look `seen` arrived, and `late` after it: exactly what was
      produced by then is handled, and place, cycle and register follow from its number. */
  function AfterInterrupt(s: Ring, seen: seq<int>, late: seq<int>): Ring
    requires |s.trbs| == TRBS && s.enqueue < TRBS
  {
    var looked := ProduceAll(s, seen);
    var n := |looked.produced|;
    ProduceAll(looked, late).(handled := looked.produced, acked := n, register := n % TRBS, ccs := Bit(n / TRBS))
  }

  /** What happens on the ring: the controller produces an event, or the handler runs, with what arrives before
      each of its looks and after the last. */
  datatype Happening = Produced(data: int) | Interrupted(arrivals: seq<seq<int>>, late: seq<int>)

  ghost predicate Step(s: Ring, h: Happening, s': Ring) {
    && |s.trbs| == TRBS && s.enqueue < TRBS && |s'.trbs| == TRBS && s'.enqueue < TRBS
    && match h
       case Produced(data) => s' == ProduceOne(s, data)
       case Interrupted(arrivals, late) =>
         exists looks :: 0 <= looks <= |arrivals| && s' == AfterInterrupt(s, Flat(arrivals[..looks]), late)
  }

  ghost predicate IsRun(states: seq<Ring>, script: seq<Happening>) {
    && |states| == |script| + 1
    && forall i :: 0 <= i < |script| ==> Step(states[i], script[i], states[i + 1])
  }

  /** Over any sequence of events and interrupts, what is handled is a prefix of what is produced, and an
      interrupt handles all that was produced before it. */
  lemma {:induction false} RunHandlesInOrder(states: seq<Ring>, script: seq<Happening>, n: nat)
    requires IsRun(states, script) && n <= |script| && states[0].handled <= states[0].produced
    ensures states[0].produced <= states[n].produced && states[0].handled <= states[n].handled <= states[n].produced
    ensures forall i :: 0 <= i < n && script[i].Interrupted? ==> states[i].produced <= states[n].handled
  {
    hide Step;
    if n > 0 {
      RunHandlesInOrder(states, script, n - 1);
      StepHandlesInOrder(states[n - 1], script[n - 1], states[n - 1 + 1]);
    }
  }

  lemma StepHandlesInOrder(s: Ring, h: Happening, s': Ring)
    requires Step(s, h, s') && s.handled <= s.produced
    ensures s.produced <= s'.produced && s.handled <= s'.handled <= s'.produced
    ensures h.Interrupted? ==> s.produced <= s'.handled
  {
  }

  class Driver {
    const ring: array<Trb>
    var enqueue: nat     // the controller's
    var pcs: bool
    var register: nat    // the dequeue pointer register
    var ccs: bool        // `event_ring_ccs`, of which only the lowest bit counts

    ghost var produced: seq<int>
    ghost var handled: seq<int>
    ghost var acked: nat
    ghost var laps: Positions

    ghost function State(): Ring
      reads this, ring
    {
      Ring(ring[..], enqueue, pcs, register, ccs, produced, handled, acked)
    }

    /** Between interrupts the register names the driver's place. */
    ghost predicate Valid()
      reads this, ring
    {
      Fifo(State(), laps) && laps.place == register && laps.round == laps.ackedRound && acked == |handled|
    }

    constructor ()
      ensures Valid() && fresh(ring) && produced == handled == []
    {
      ring := new Trb[TRBS](_ => Event(0, false));
      enqueue, pcs, register, ccs := 0, true, 0, true;
      produced, handled, acked, laps := [], [], 0, Positions(0, 0, 0, 0);
    }

    /** The controller produces one event, if there is room. */
    method Produce(data: int)
      requires Fifo(State(), laps)
      modifies this`enqueue, this`pcs, this`produced, this`laps, ring
      ensures Fifo(State(), laps) && laps.(lap := old(laps.lap)) == old(laps)
      ensures old(State()).enqueue < TRBS && |old(State()).trbs| == TRBS && State() == ProduceOne(old(State()), data)
    {
      hide Fifo;
      ghost var s := State();
      FifoHasShape(s, laps);
      laps := ProduceKeepsFifo(s, laps, data);
      var next := (enqueue + 1) % TRBS;
      if next != register {
        ring[enqueue] := Event(data, pcs);
        enqueue := next;
        pcs := if next == 0 then !pcs else pcs;
        produced := produced + [data];
      }
      assert State() == ProduceOne(s, data);
    }

    /** The controller produces a batch. */
    method Arrive(batch: seq<int>)
      requires Fifo(State(), laps)
      modifies this`enqueue, this`pcs, this`produced, this`laps, ring
      ensures Fifo(State(), laps) && laps.(lap := old(laps.lap)) == old(laps)
      ensures old(State()).enqueue < TRBS && |old(State()).trbs| == TRBS && State() == ProduceAll(old(State()), batch)
      ensures old(produced) <= produced && (batch == [] ==> produced == old(produced))
    {
      hide Fifo;
      hide ProduceOne;
      FifoHasShape(State(), laps);
      for k := 0 to |batch|
        invariant Fifo(State(), laps) && laps.(lap := old(laps.lap)) == old(laps)
        invariant enqueue < TRBS && ring.Length == TRBS
        invariant ProduceAll(State(), batch[k..]) == ProduceAll(old(State()), batch)
      {
        Produce(batch[k]);
        FifoHasShape(State(), laps);
        assert batch[k..][1..] == batch[k + 1..];
      }
    }

    /** One look at the ring, after `batch` has arrived: the block is handled if the driver owns it. */
    method Look(place: nat, batch: seq<int>) returns (found: bool)
      requires Fifo(State(), laps) && place == laps.place < TRBS
      modifies this`enqueue, this`pcs, this`produced, this`handled, this`laps, ring
      ensures Fifo(State(), laps) && laps == old(laps).(lap := laps.lap, place := if found then place + 1 else place)
      ensures old(produced) <= produced && handled <= produced && |produced| < acked + TRBS
      ensures found ==> |handled| == |old(handled)| + 1 && old(handled) <= handled
      ensures !found ==> handled == old(handled) == produced
      ensures old(State()).enqueue < TRBS && |old(State()).trbs| == TRBS
      ensures State() == ProduceAll(old(State()), batch).(handled := handled)
    {
      hide ProduceAll;
      hide Fifo;
      FifoHasShape(State(), laps);
      Arrive(batch);
      ghost var s := State();
      CheckIsExact(s, laps);
      FifoHasShape(s, laps);
      found := ring[place].c == ccs;
      if found {
        HandleKeepsFifo(s, laps);
        handled := handled + [ring[place].data];
        laps := laps.(place := place + 1);
        assert State() == Handle(s, place);
      }
    }

    /** Past the last place: back to the first, with the other cycle. It happens once in an interrupt. */
    method WrapAround()
      requires Fifo(State(), laps) && laps.place == TRBS && laps.round >= laps.ackedRound
      modifies this`ccs, this`laps
      ensures Fifo(State(), laps) && laps == old(laps).(place := 0, round := laps.ackedRound + 1)
      ensures laps.ackedRound == old(laps.ackedRound) && State() == old(State()).(ccs := ccs)
    {
      ghost var s := State();
      WrapKeepsFifo(s, laps);
      assert laps.round == laps.ackedRound;
      hide Fifo;
      ccs := !ccs;
      laps := laps.(place := 0, round := laps.round + 1);
      assert State() == Wrap(s);
    }

    /** `xhci_intr`. Before the `k`-th look at the ring the controller produces `arrivals[k]`, and `late`
        before the register is written; there are arrivals before `looks` of the looks. */
    method Interrupt(arrivals: seq<seq<int>>, late: seq<int>) returns (ghost looks: nat)
      requires Valid()
      modifies this, ring
      ensures Valid() && old(produced) <= handled <= produced && old(handled) <= handled
      ensures late == [] ==> handled == produced
      ensures looks <= |arrivals| && Step(old(State()), Interrupted(arrivals, late), State())
      ensures |old(State()).trbs| == TRBS && old(State()).enqueue < TRBS
      ensures State() == AfterInterrupt(old(State()), Flat(arrivals[..looks]), late)
    {
      hide Fifo;
      hide ProduceAll;
      hide AfterInterrupt;
      ghost var s := State();
      var erdp, last, i, delta, n := register, register, 0, 0, 0;
      FifoHasShape(s, laps);
      NothingArrived(s, arrivals);
      while erdp + 1 != last
        invariant Fifo(State(), laps) && register == last < TRBS && acked == old(acked) && |handled| < acked + TRBS
        invariant laps.place == erdp + i <= TRBS && delta == i && (erdp + 1 == last ==> i == 0)
        invariant laps.round >= laps.ackedRound && (erdp != last ==> erdp == 0 && laps.round == laps.ackedRound + 1)
        invariant old(handled) <= handled <= produced && n <= |arrivals|
        invariant State() == ProduceAll(s, Flat(arrivals[..n])).(handled := handled, ccs := ccs)
        decreases acked + TRBS - |handled|, laps.place
      {
        if erdp + i < TRBS {
          var batch := [];
          ghost var before, m := State(), n;
          if n < |arrivals| {
            batch := arrivals[n];
            n := n + 1;
          }
          var found := Look(erdp + i, batch);
          MoreArrived(s, arrivals, m, n, batch, before.handled, before.ccs);
          if !found {
            break;
          }
          delta := delta + 1;
          i := i + 1;
        } else {
          WrapAround();
          erdp := 0;
          delta := 0;
          i := 0;
        }
      }
      if erdp + 1 == last {
        EarlyExitLosesNothing(State(), laps);
      }
      FifoHasShape(State(), laps);
      looks := n;
      Finish(erdp + delta, late);
      FinishIsAfterInterrupt(s, Flat(arrivals[..n]), late, handled, ccs, State(), laps);
    }

    /** The register is written, after `late` has arrived. */
    method Finish(place: nat, late: seq<int>)
      requires Fifo(State(), laps) && place == laps.place < TRBS
      modifies this, ring
      ensures Valid() && handled == old(handled) && old(produced) <= produced && handled <= produced
      ensures late == [] ==> produced == old(produced)
      ensures old(State()).enqueue < TRBS && |old(State()).trbs| == TRBS
      ensures State() == ProduceAll(old(State()), late).(register := place, acked := |handled|)
    {
      hide Fifo;
      hide ProduceAll;
      Arrive(late);
      ghost var s := State();
      FifoHasShape(s, laps);
      AcknowledgeKeepsFifo(s, laps);
      register := place;
      acked := |handled|;
      laps := laps.(ackedRound := laps.round);
      assert State() == Acknowledge(s, place);
    }

    /** Any sequence of events and interrupts is a run. */
    method Run(script: seq<Happening>) returns (ghost states: seq<Ring>)
      requires Valid()
      modifies this, ring
      ensures Valid() && IsRun(states, script) && states[0] == old(State()) && states[|script|] == State()
      ensures old(handled) <= handled <= produced
    {
      hide Fifo;
      hide Step;
      states := [State()];
      FifoHasShape(State(), laps);
      for k := 0 to |script|
        invariant Valid() && IsRun(states, script[..k]) && states[0] == old(State()) && states[k] == State()
      {
        ghost var s := State();
        match script[k] {
          case Produced(data) =>
            FifoHasShape(State(), laps);
            Produce(data);
            FifoHasShape(State(), laps);
            ProduceIsStep(s, data);
          case Interrupted(arrivals, late) =>
            var _ := Interrupt(arrivals, late);
        }
        assert script[..k + 1] == script[..k] + [script[k]];
        states := states + [State()];
      }
      assert script[..|script|] == script;
      RunHandlesInOrder(states, script, |script|);
    }
  }

  lemma ProduceIsStep(s: Ring, data: int)
    requires |s.trbs| == TRBS && s.enqueue < TRBS
    ensures Step(s, Produced(data), ProduceOne(s, data))
  {
  }

  lemma NothingArrived(s: Ring, arrivals: seq<seq<int>>)
    requires |s.trbs| == TRBS && s.enqueue < TRBS
    ensures ProduceAll(s, Flat(arrivals[..0])) == s
  {
  }

  /** One more batch, seen from the start of the interrupt. */
  lemma MoreArrived(s: Ring, arrivals: seq<seq<int>>, m: nat, n: nat, batch: seq<int>, handled: seq<int>, ccs: bool)
    requires |s.trbs| == TRBS && s.enqueue < TRBS && m <= n <= |arrivals|
    requires if n == m then batch == [] else n == m + 1 && batch == arrivals[m]
    ensures ProduceAll(ProduceAll(s, Flat(arrivals[..m])).(handled := handled, ccs := ccs), batch)
      == ProduceAll(s, Flat(arrivals[..n])).(handled := handled, ccs := ccs)
  {
    var seen := Flat(arrivals[..m]);
    ProduceAllIsBlind(ProduceAll(s, seen), batch, handled, ccs);
    ProduceAllInTwo(s, seen, batch);
    if n == m {
      assert seen + batch == seen;
    } else {
      assert arrivals[..n][..m] == arrivals[..m];
    }
  }

  /** The end of the interrupt in terms of its start. */
  lemma FinishIsAfterInterrupt(s: Ring, seen: seq<int>, late: seq<int>, handled: seq<int>, ccs: bool,
                               end: Ring, l: Positions)
    requires |s.trbs| == TRBS && s.enqueue < TRBS && handled == ProduceAll(s, seen).produced
    requires end == ProduceAll(ProduceAll(s, seen).(handled := handled, ccs := ccs), late)
      .(register := l.place, acked := |handled|)
    requires Fifo(end, l) && l.place < TRBS
    ensures end == AfterInterrupt(s, seen, late)
  {
    hide Fifo;
    hide ProduceAll;
    ProduceAllIsBlind(ProduceAll(s, seen), late, handled, ccs);
    HandledNamesPlace(end, l);
  }

  /** The number of handled events gives the handler's place and cycle state. */
  lemma HandledNamesPlace(s: Ring, l: Positions)
    requires Fifo(s, l) && l.place < TRBS
    ensures |s.handled| % TRBS == l.place && s.ccs == Bit(|s.handled| / TRBS)
  {
    assert |s.handled| == TRBS * l.round + l.place;
  }

  lemma FifoHasShape(s: Ring, l: Positions)
    requires Fifo(s, l)
    ensures |s.trbs| == TRBS && s.enqueue < TRBS && s.register < TRBS && l.place <= TRBS
    ensures s.handled <= s.produced && |s.produced| < s.acked + TRBS
  {
  }
}
