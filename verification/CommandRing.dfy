/** The command ring (drivers/usb/xhci.c). Its cycle bit never changes and its link does not toggle it:
    what stops the controller is the zeroed block the driver puts after each command. */
module CommandRing {
  const TRBS := 256
  const LAST := 255     // the place of the link

  datatype Trb = Command(data: int, c: bool) | Link(c: bool)

  const ZERO: Trb := Command(0, false)

  datatype Ring = Ring(trbs: seq<Trb>, enqueue: nat, dequeue: nat, inserted: seq<int>, executed: seq<int>) {
    predicate Shape() { |trbs| == TRBS && enqueue <= LAST && dequeue <= LAST }

    function Outstanding(): int { |inserted| - |executed| }
  }

  function Start(): Ring { Ring(seq(TRBS, _ => ZERO), 0, 0, [], []) }

  /** `xhci_cmd_ring_insert` up to and including the write of the command. */
  function Put(s: Ring, data: int): Ring
    requires s.Shape()
  {
    var s' := if s.enqueue == LAST then s.(trbs := s.trbs[LAST := Link(true)], enqueue := 0) else s;
    s'.(trbs := s'.trbs[s'.enqueue := Command(data, true)], enqueue := s'.enqueue + 1, inserted := s.inserted + [data])
  }

  /** The whole insertion: the next block is zeroed. */
  function Insert(s: Ring, data: int): Ring
    requires s.Shape()
  {
    var s' := Put(s, data);
    s'.(trbs := s'.trbs[s'.enqueue := ZERO])
  }

  /** One step of the controller, whose cycle state is 1 for good. (It wraps only to make this total.) */
  function Control(s: Ring): (r: Ring)
    requires s.Shape()
    ensures r.Shape()
  {
    match s.trbs[s.dequeue]
    case Link(c) => if c then s.(dequeue := 0) else s
    case Command(data, c) => if c then s.(dequeue := (s.dequeue + 1) % TRBS, executed := s.executed + [data]) else s
  }

  /** The ring is a queue of at most 255 commands, with a zeroed block at its end. */
  ghost predicate Fifo(s: Ring, lap: nat, round: nat) {
    && s.Shape() && round <= lap <= round + 1
    && |s.inserted| == LAST * lap + s.enqueue && |s.executed| == LAST * round + s.dequeue
    && s.executed <= s.inserted && s.Outstanding() <= LAST
    && s.trbs[s.enqueue] == ZERO
    && (forall i :: (if lap == round then s.dequeue else 0) <= i < s.enqueue ==>
      s.trbs[i] == Command(s.inserted[LAST * lap + i], true))
    && (lap > round ==>
      s.enqueue > 0 && s.trbs[LAST] == Link(true) &&
      forall i :: s.dequeue <= i < LAST ==> s.trbs[i] == Command(s.inserted[LAST * round + i], true))
  }

  lemma StartIsFifo()
    ensures Fifo(Start(), 0, 0)
  {
  }

  /** One more command fits: fewer than 254 are outstanding, or exactly that many and none of this lap is
      executed yet, so that the zeroed block can take the place of the link. */
  predicate Room(s: Ring) {
    s.Outstanding() < LAST - 1 || (s.Outstanding() == LAST - 1 && s.dequeue == 0)
  }

  /** Every write of an insertion stays inside the ring, and it keeps the queue in order if there is room. */
  lemma InsertKeepsFifo(s: Ring, data: int, lap: nat, round: nat) returns (lap': nat)
    requires Fifo(s, lap, round) && Room(s)
    ensures Fifo(Insert(s, data), lap', round) && Put(s, data).enqueue < TRBS
    ensures Insert(s, data).inserted == s.inserted + [data] && Insert(s, data).executed == s.executed
  {
    lap' := if s.enqueue == LAST then lap + 1 else lap;
  }

  /** The bound is exact. Without room the insertion destroys a command that is still to be executed: either
      the zeroed block is its, or the link the controller waits at, and the controller stops for good; or the
      command itself is replaced by the new one, which is executed in its place. */
  lemma InsertIsSafeExactly(s: Ring, data: int, lap: nat, round: nat)
    requires Fifo(s, lap, round)
    ensures (exists lap': nat, round': nat :: Fifo(Insert(s, data), lap', round')) <==> Room(s)
    ensures !Room(s) && s.Outstanding() == LAST - 1 ==> Control(Insert(s, data)) == Insert(s, data)
    ensures !Room(s) && s.Outstanding() == LAST ==> Control(Insert(s, data)).executed == s.executed + [data]
  {
    if Room(s) {
      var _ := InsertKeepsFifo(s, data, lap, round);
    } else if s.Outstanding() == LAST - 1 {
      FullInsertStops(s, data, lap, round);
      var s' := Insert(s, data);
      forall lap': nat, round': nat ensures !Fifo(s', lap', round') {
        if Fifo(s', lap', round') {
          var _ := ControlKeepsFifo(s', lap', round');
        }
      }
    } else {
      assert s.enqueue == LAST && s.dequeue == 0;
      assert Insert(s, data).Outstanding() > LAST;
    }
  }

  lemma FullInsertStops(s: Ring, data: int, lap: nat, round: nat)
    requires Fifo(s, lap, round) && s.Outstanding() == LAST - 1 && s.dequeue != 0
    ensures Control(Insert(s, data)) == Insert(s, data)
  {
    assert s.dequeue == if s.enqueue == LAST then 1 else s.enqueue + 1;
  }

  /** The controller executes the oldest command, if there is one, and else stops. */
  lemma ControlKeepsFifo(s: Ring, lap: nat, round: nat) returns (round': nat)
    requires Fifo(s, lap, round)
    ensures Fifo(Control(s), lap, round') && Control(s).inserted == s.inserted
    ensures Control(s) == s <==> s.Outstanding() == 0
    ensures s.dequeue < LAST && s.Outstanding() > 0 ==> Control(s).executed == s.executed + [s.inserted[|s.executed|]]
    ensures s.dequeue == LAST && s.Outstanding() > 0 ==> Control(s) == s.(dequeue := 0)
  {
    round' := if s.dequeue == LAST && Control(s) != s then round + 1 else round;
  }

  /** After the doorbell: the controller runs until it is stopped. */
  ghost function Controls(s: Ring, n: nat): (r: Ring)
    requires s.Shape()
    ensures r.Shape()
    decreases n
  {
    if n == 0 then s else Controls(Control(s), n - 1)
  }

  lemma {:induction false} ControllerDrains(s: Ring, lap: nat, round: nat) returns (n: nat, round': nat)
    requires Fifo(s, lap, round)
    ensures n <= s.Outstanding() + if s.dequeue + s.Outstanding() > LAST then 1 else 0
    ensures Fifo(Controls(s, n), lap, round') && Controls(s, n).inserted == s.inserted
    ensures Controls(s, n).executed == s.inserted && Control(Controls(s, n)) == Controls(s, n)
    decreases s.Outstanding(), s.dequeue
  {
    var next := ControlKeepsFifo(s, lap, round);
    if s.Outstanding() == 0 {
      n, round' := 0, round;
    } else {
      n, round' := ControllerDrains(Control(s), lap, next);
      n := n + 1;
    }
  }

  /** What the driver does: it inserts a command, rings the doorbell, and waits for the completion. */
  lemma OneAtATime(s: Ring, data: int, lap: nat, round: nat) returns (n: nat, lap': nat, round': nat)
    requires Fifo(s, lap, round) && s.Outstanding() == 0
    ensures n <= 2
    ensures var done := Controls(Insert(s, data), n);
      && Fifo(done, lap', round') && done.Outstanding() == 0
      && done.executed == s.executed + [data] && Control(done) == done
  {
    lap' := InsertKeepsFifo(s, data, lap, round);
    n, round' := ControllerDrains(Insert(s, data), lap', round);
  }

  /** Insertions, and steps of the controller between them. */
  datatype Event = Insertion(data: int) | Controller

  predicate Enabled(s: Ring, e: Event) {
    s.Shape() && (e.Insertion? ==> Room(s))
  }

  function Step(s: Ring, e: Event): Ring
    requires s.Shape()
  {
    match e
    case Insertion(data) => Insert(s, data)
    case Controller => Control(s)
  }

  ghost predicate IsRun(states: seq<Ring>, es: seq<Event>) {
    && |states| == |es| + 1 && states[0] == Start()
    && forall i :: 0 <= i < |es| ==> Enabled(states[i], es[i]) && states[i + 1] == Step(states[i], es[i])
  }

  function Inserted(es: seq<Event>): seq<int> {
    if es == [] then []
    else
      var n := |es| - 1;
      Inserted(es[..n]) + if es[n].Insertion? then [es[n].data] else []
  }

  /** In every run the commands are executed in the order of their insertion and once each. */
  lemma {:induction false} RunIsFifo(states: seq<Ring>, es: seq<Event>, n: nat) returns (lap: nat, round: nat)
    requires IsRun(states, es) && n <= |es|
    ensures Fifo(states[n], lap, round) && states[n].inserted == Inserted(es[..n])
    ensures states[n].executed <= Inserted(es[..n])
  {
    hide Insert;
    hide Control;
    if n == 0 {
      StartIsFifo();
      lap, round := 0, 0;
    } else {
      lap, round := RunIsFifo(states, es, n - 1);
      assert states[n - 1 + 1] == Step(states[n - 1], es[n - 1]);
      assert es[..n][..n - 1] == es[..n - 1];
      match es[n - 1] {
        case Insertion(data) => lap := InsertKeepsFifo(states[n - 1], data, lap, round);
        case Controller => round := ControlKeepsFifo(states[n - 1], lap, round);
      }
    }
  }

  /** The zeroing comes after the write of the command. Were the controller not waiting for the doorbell, it
      could get past the new command before the zeroing, and would then run a stale one exactly if there is
      one in the next place. */
  lemma StaleCommandNeedsTheDoorbell(s: Ring, data: int, lap: nat, round: nat)
    requires Fifo(s, lap, round) && s.Outstanding() == 0 && s.enqueue < LAST - 1
    ensures Control(Put(s, data)).executed == s.executed + [data]
    ensures Control(Control(Put(s, data))).executed != s.executed + [data] <==>
      s.trbs[s.enqueue + 1].Command? && s.trbs[s.enqueue + 1].c
  {
    assert s.dequeue == s.enqueue;
    assert |Control(Control(Put(s, data))).executed| == |s.executed| + 1
      || Control(Control(Put(s, data))).executed == s.executed + [data] + [s.trbs[s.enqueue + 1].data];
  }

  /** The ring of `struct xhci` and the controller's place in it. */
  class Host {
    const ring: array<Trb>
    var enqueue: nat
    var dequeue: nat

    ghost var inserted: seq<int>
    ghost var executed: seq<int>
    ghost var lap: nat
    ghost var round: nat

    ghost function State(): Ring
      reads this, ring
    {
      Ring(ring[..], enqueue, dequeue, inserted, executed)
    }

    ghost predicate Valid()
      reads this, ring
    {
      Fifo(State(), lap, round)
    }

    constructor ()
      ensures Valid() && fresh(ring) && State() == Start()
    {
      ring := new Trb[TRBS](_ => ZERO);
      enqueue, dequeue, inserted, executed, lap, round := 0, 0, [], [], 0, 0;
      new;
      assert ring[..] == Start().trbs;
    }

    /** `xhci_cmd_ring_insert` */
    method InsertCommand(data: int) returns (index: nat)
      requires Valid() && Room(State())
      modifies this, ring
      ensures Valid() && old(State()).Shape() && State() == Insert(old(State()), data)
      ensures index == |old(inserted)| % LAST
    {
      ghost var s := State();
      index := enqueue;
      ghost var lap' := InsertKeepsFifo(s, data, lap, round);
      if index == LAST {
        ring[index] := Link(true);
        index := 0;
        enqueue := 0;
      }
      hide Fifo;
      ring[index] := Command(data, true);
      enqueue := enqueue + 1;
      ring[index + 1] := ZERO;
      inserted, lap := inserted + [data], lap';
      assert State() == Insert(s, data);
    }

    /** The doorbell: the controller works until it finds a block that is not its own. */
    method Doorbell()
      requires Valid()
      modifies this
      ensures Valid() && inserted == old(inserted) && executed == inserted && ring[..] == old(ring[..])
    {
      hide Fifo;
      hide Ring.Outstanding;
      FifoHasShape(State(), lap, round);
      while ring[dequeue].c
        invariant Valid() && State().Shape() && inserted == old(inserted) && executed <= inserted
        decreases |inserted| - |executed|, dequeue
      {
        ghost var s := State();
        round := ControlKeepsFifo(s, lap, round);
        match ring[dequeue] {
          case Link(_) => dequeue := 0;
          case Command(data, _) =>
            dequeue := (dequeue + 1) % TRBS;
            executed := executed + [data];
        }
        assert State() == Control(s);
        FifoHasShape(State(), lap, round);
      }
      ghost var _ := ControlKeepsFifo(State(), lap, round);
    }
  }

  lemma FifoHasShape(s: Ring, lap: nat, round: nat)
    requires Fifo(s, lap, round)
    ensures s.Shape() && s.executed <= s.inserted
  {
  }
}
