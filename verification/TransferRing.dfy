/** The transfer ring of an xHCI endpoint (drivers/usb/xhci.c): 255 transfer blocks and a link block in
    the last place, which is written only when the driver comes round to it. The controller follows the
    ring as section 4.9.2 of the xHCI specification says. */
module TransferRing {
  import opened Laps

  const TRBS := 256
  const LAST := 255     // the place of the link
  const SLOTS := 255    // places for transfer blocks

  /** A transfer request block: its cycle bit, and for a link whether following it toggles the cycle. */
  datatype Trb = Transfer(data: int, c: bool) | Link(c: bool, tc: bool)

  /** The ring with the driver's and the controller's place in it, and what went in and came out so far. */
  datatype Ring = Ring(trbs: seq<Trb>, enqueue: nat, dcs: bool, dequeue: nat, ccs: bool,
                         inserted: seq<int>, consumed: seq<int>) {
    predicate Shape() { |trbs| == TRBS && enqueue <= LAST && dequeue <= LAST }

    function Outstanding(): int { |inserted| - |consumed| }
  }

  /** A zeroed ring. */
  function Start(): Ring {
    Ring(seq(TRBS, _ => Transfer(0, false)), 0, true, 0, true, [], [])
  }

  /** Coming to the last place, the driver writes the link and starts the next lap. */
  function WriteLink(s: Ring): Ring
    requires s.Shape()
  {
    s.(trbs := s.trbs[s.enqueue := Link(s.dcs, true)], enqueue := 0, dcs := !s.dcs)
  }

  function WriteTrb(s: Ring, data: int): Ring
    requires s.Shape()
  {
    s.(trbs := s.trbs[s.enqueue := Transfer(data, s.dcs)], enqueue := s.enqueue + 1, inserted := s.inserted + [data])
  }

  /** The controller owns the block at its place if the cycle bits agree; then it follows a link or
      consumes the block. (It wraps only to make this total: `Fifo` has a link, or a block it does not own,
      in the last place.) */
  function Control(s: Ring): (r: Ring)
    requires s.Shape()
    ensures r.Shape()
  {
    var trb := s.trbs[s.dequeue];
    if trb.c != s.ccs then s
    else match trb
      case Link(_, tc) => s.(dequeue := 0, ccs := if tc then !s.ccs else s.ccs)
      case Transfer(data, _) => s.(dequeue := (s.dequeue + 1) % TRBS, consumed := s.consumed + [data])
  }

  /** The data written to place `i` last, by a driver that is at place `enqueue` of lap `lap`. */
  function Written(inserted: seq<int>, lap: nat, enqueue: nat, i: nat): int
    requires |inserted| == SLOTS * lap + enqueue && i < SLOTS && enqueue <= LAST
  {
    if i < enqueue then inserted[SLOTS * lap + i] else if lap == 0 then 0 else inserted[SLOTS * (lap - 1) + i]
  }

  /** The ring is a queue: the driver is in lap `lap`, the controller in lap `round`, at most 255 blocks
      lie between them, and every place holds what was written to it last. */
  ghost predicate Fifo(s: Ring, lap: nat, round: nat) {
    && s.Shape()
    && |s.inserted| == SLOTS * lap + s.enqueue && |s.consumed| == SLOTS * round + s.dequeue
    && round <= lap <= round + 1 && s.dcs == Bit(lap) && s.ccs == Bit(round)
    && s.consumed <= s.inserted && s.Outstanding() <= SLOTS
    && (forall i :: 0 <= i < SLOTS ==>
      s.trbs[i] == Transfer(Written(s.inserted, lap, s.enqueue, i), if i < s.enqueue then Bit(lap) else !Bit(lap)))
    && s.trbs[LAST] == if lap == 0 then Transfer(0, false) else Link(!Bit(lap), true)
  }

  lemma StartIsFifo()
    ensures Fifo(Start(), 0, 0)
  {
  }

  lemma WriteLinkKeepsFifo(s: Ring, lap: nat, round: nat)
    requires Fifo(s, lap, round) && s.enqueue == LAST && s.Outstanding() < SLOTS
    ensures Fifo(WriteLink(s), lap + 1, round)
  {
    BitAlternates(lap);
  }

  lemma WriteTrbKeepsFifo(s: Ring, data: int, lap: nat, round: nat)
    requires Fifo(s, lap, round) && s.enqueue < LAST && s.Outstanding() < SLOTS
    ensures Fifo(WriteTrb(s, data), lap, round)
  {
  }

  /** The controller consumes the oldest block if there is one, after following the link if it is at the
      end of a lap; it stops exactly when nothing is left to do. */
  lemma ControlKeepsFifo(s: Ring, lap: nat, round: nat) returns (round': nat)
    requires Fifo(s, lap, round)
    ensures Fifo(Control(s), lap, round') && Control(s).inserted == s.inserted
    ensures Control(s) == s <==> s.Outstanding() == 0 && !(s.dequeue == LAST && s.enqueue < LAST)
    ensures s.dequeue < LAST && s.Outstanding() > 0 ==>
      Control(s) == s.(dequeue := s.dequeue + 1, consumed := s.consumed + [s.inserted[|s.consumed|]])
    ensures s.dequeue == LAST && s.Outstanding() > 0 ==> Control(s) == s.(dequeue := 0, ccs := !s.ccs)
  {
    BitAlternates(round);
    BitAlternates(lap);
    round' := if s.dequeue == LAST && Control(s) != s then round + 1 else round;
  }

  /** The driver's writes and the controller's steps, in any order. An insertion is one or two writes; it
      is started only while fewer than 255 blocks are outstanding. */
  datatype Event = LinkWrite | TrbWrite(data: int) | Controller

  predicate Enabled(s: Ring, e: Event) {
    s.Shape() && match e
    case LinkWrite => s.enqueue == LAST && s.Outstanding() < SLOTS
    case TrbWrite(_) => s.enqueue < LAST && s.Outstanding() < SLOTS
    case Controller => true
  }

  function Step(s: Ring, e: Event): Ring
    requires Enabled(s, e)
  {
    match e
    case LinkWrite => WriteLink(s)
    case TrbWrite(data) => WriteTrb(s, data)
    case Controller => Control(s)
  }

  /** The states of a run. */
  ghost predicate IsRun(states: seq<Ring>, es: seq<Event>) {
    && |states| == |es| + 1 && states[0] == Start()
    && forall i :: 0 <= i < |es| ==> Enabled(states[i], es[i]) && states[i + 1] == Step(states[i], es[i])
  }

  function Inserted(es: seq<Event>): seq<int> {
    if es == [] then []
    else
      var n := |es| - 1;
      Inserted(es[..n]) + if es[n].TrbWrite? then [es[n].data] else []
  }

  /** In every run, over any number of laps, the controller has consumed a prefix of what was inserted, in
      order and once each. */
  lemma {:induction false} RunIsFifo(states: seq<Ring>, es: seq<Event>, n: nat) returns (lap: nat, round: nat)
    requires IsRun(states, es) && n <= |es|
    ensures Fifo(states[n], lap, round) && states[n].inserted == Inserted(es[..n])
    ensures states[n].consumed <= Inserted(es[..n])
  {
    hide Fifo;
    hide Control;
    StartIsFifo();
    lap, round := 0, 0;
    if n == 0 {
      FifoIsPrefix(states[0], lap, round);
    } else {
      lap, round := RunIsFifo(states, es, n - 1);
      lap, round := StepKeepsFifo(states[n - 1], es[n - 1], lap, round);
      FifoIsPrefix(states[n], lap, round);
      assert es[..n][..n - 1] == es[..n - 1];
      assert states[n - 1 + 1] == Step(states[n - 1], es[n - 1]);
    }
  }

  lemma FifoIsPrefix(s: Ring, lap: nat, round: nat)
    requires Fifo(s, lap, round)
    ensures s.consumed <= s.inserted
  {
  }

  lemma StepKeepsFifo(s: Ring, e: Event, lap: nat, round: nat) returns (lap': nat, round': nat)
    requires Fifo(s, lap, round) && Enabled(s, e)
    ensures Fifo(Step(s, e), lap', round')
    ensures Step(s, e).inserted == s.inserted + if e.TrbWrite? then [e.data] else []
  {
    hide Fifo;
    lap', round' := lap, round;
    match e {
      case LinkWrite =>
        WriteLinkKeepsFifo(s, lap, round);
        lap' := lap + 1;
      case TrbWrite(data) => WriteTrbKeepsFifo(s, data, lap, round);
      case Controller => round' := ControlKeepsFifo(s, lap, round);
    }
  }

  /** `n` steps of the controller. */
  ghost function Controls(s: Ring, n: nat): (r: Ring)
    requires s.Shape()
    ensures r.Shape()
    decreases n
  {
    if n == 0 then s else Controls(Control(s), n - 1)
  }

  lemma {:induction false} ControlsStep(s: Ring, n: nat)
    requires s.Shape()
    ensures Controls(s, n + 1) == Control(Controls(s, n))
    decreases n
  {
    if n > 0 {
      ControlsStep(Control(s), n - 1);
    }
  }

  /** Nothing is left behind: without further writes the controller consumes all that is outstanding, one
      block a step, and one step for the link if that lies ahead. */
  lemma {:induction false} ControllerDrains(s: Ring, lap: nat, round: nat)
    requires Fifo(s, lap, round)
    ensures Controls(s, s.Outstanding() + if s.dequeue + s.Outstanding() > LAST then 1 else 0).consumed == s.inserted
    decreases s.Outstanding(), s.dequeue
  {
    hide Control;
    hide Fifo;
    FifoHasShape(s, lap, round);
    FifoIsPrefix(s, lap, round);
    if s.Outstanding() > 0 {
      var round' := ControlKeepsFifo(s, lap, round);
      ControllerDrains(Control(s), lap, round');
    }
  }

  /** Both writes of an insertion. */
  function Insert(s: Ring, data: int): Ring
    requires s.Shape()
  {
    if s.enqueue == LAST then WriteTrb(WriteLink(s), data) else WriteTrb(s, data)
  }

  /** The limit of 255 is exact: one insertion more, and the controller is stuck with work outstanding. */
  lemma InsertIsSafeExactly(s: Ring, data: int, lap: nat, round: nat)
    requires Fifo(s, lap, round)
    ensures s.Outstanding() < SLOTS <==> Control(Insert(s, data)) != Insert(s, data)
    ensures s.Outstanding() < SLOTS <==> exists lap', round' :: Fifo(Insert(s, data), lap', round')
  {
    BitAlternates(lap);
    BitAlternates(round);
    if s.Outstanding() < SLOTS {
      var lap', s' := lap, s;
      if s.enqueue == LAST {
        WriteLinkKeepsFifo(s, lap, round);
        lap', s' := lap + 1, WriteLink(s);
      }
      WriteTrbKeepsFifo(s', data, lap', round);
      var round' := ControlKeepsFifo(WriteTrb(s', data), lap', round);
    }
  }

  /** The place of the `k`-th block. */
  function Place(k: nat): nat { k % SLOTS }

  /** Outstanding blocks have different places, so the address in a completion names one of them. */
  lemma PlacesDiffer(s: Ring, lap: nat, round: nat, j: nat, k: nat)
    requires Fifo(s, lap, round) && |s.consumed| <= j < k < |s.inserted|
    ensures Place(j) != Place(k)
  {
  }

  /** `struct transfer_ring_status`, and the controller working on the same ring. */
  class Endpoint {
    const ring: array<Trb>
    var enqueue: nat
    var dcs: bool

    var dequeue: nat
    var ccs: bool

    ghost var inserted: seq<int>
    ghost var consumed: seq<int>
    ghost var lap: nat
    ghost var round: nat

    ghost function State(): Ring
      reads this, ring
    {
      Ring(ring[..], enqueue, dcs, dequeue, ccs, inserted, consumed)
    }

    ghost predicate Valid()
      reads this, ring
    {
      Fifo(State(), lap, round)
    }

    constructor ()
      ensures Valid() && fresh(ring) && State() == Start()
    {
      ring := new Trb[TRBS](_ => Transfer(0, false));
      enqueue, dcs, dequeue, ccs := 0, true, 0, true;
      inserted, consumed, lap, round := [], [], 0, 0;
      new;
      assert ring[..] == Start().trbs;
    }

    /** One step of the controller. */
    method Controller()
      requires Valid()
      modifies this
      ensures Valid() && State() == Control(old(State()))
    {
      hide Fifo;
      ghost var s := State();
      FifoHasShape(s, lap, round);
      round := ControlKeepsFifo(s, lap, round);
      var trb := ring[dequeue];
      if trb.c == ccs {
        match trb {
          case Link(_, tc) =>
            dequeue := 0;
            ccs := if tc then !ccs else ccs;
          case Transfer(data, _) =>
            dequeue := (dequeue + 1) % TRBS;
            consumed := consumed + [data];
        }
      }
    }

    /** The last place gets the link, and the next lap starts. */
    method PutLink()
      requires Valid() && enqueue == LAST && State().Outstanding() < SLOTS
      modifies this, ring
      ensures Valid() && State() == WriteLink(old(State()))
    {
      hide Fifo;
      ghost var s := State();
      FifoHasShape(s, lap, round);
      WriteLinkKeepsFifo(s, lap, round);
      ring[enqueue] := Link(dcs, true);
      enqueue := 0;
      dcs := !dcs;
      lap := lap + 1;
      assert State() == WriteLink(s);
    }

    method PutTrb(data: int) returns (index: nat)
      requires Valid() && enqueue < LAST && State().Outstanding() < SLOTS
      modifies this, ring
      ensures Valid() && State() == WriteTrb(old(State()), data)
      ensures index == old(enqueue) == Place(|old(inserted)|)
    {
      ghost var s := State();
      PlaceIsEnqueue(s, lap, round);
      hide Fifo;
      FifoHasShape(s, lap, round);
      WriteTrbKeepsFifo(s, data, lap, round);
      index := enqueue;
      ring[index] := Transfer(data, dcs);
      enqueue := enqueue + 1;
      inserted := inserted + [data];
      assert State() == WriteTrb(s, data);
    }

    /** `xhci_insert_transfer_trb`, with `between` steps of the controller after the link is written. The
        result stands for the address of the block. */
    method InsertTransferTrb(data: int, between: nat) returns (index: nat)
      requires Valid() && State().Outstanding() < SLOTS
      modifies this, ring
      ensures Valid() && index == Place(|old(inserted)|)
      ensures old(enqueue) < LAST ==> State() == WriteTrb(old(State()), data)
      ensures old(enqueue) == LAST ==>
        old(State()).Shape() && State() == WriteTrb(Controls(WriteLink(old(State())), between), data)
    {
      hide Fifo;
      FifoHasShape(State(), lap, round);
      if enqueue == LAST {
        PutLink();
        ghost var s := State();
        for i := 0 to between
          invariant Valid() && State() == Controls(s, i) && s.Shape()
          invariant enqueue == 0 && inserted == s.inserted && s.consumed <= consumed
        {
          ControlsStep(s, i);
          FifoHasShape(State(), lap, round);
          Controller();
          FifoHasShape(State(), lap, round);
        }
      }
      index := PutTrb(data);
    }
  }

  lemma PlaceIsEnqueue(s: Ring, lap: nat, round: nat)
    requires Fifo(s, lap, round) && s.enqueue < LAST
    ensures s.enqueue == Place(|s.inserted|)
  {
  }

  lemma FifoHasShape(s: Ring, lap: nat, round: nat)
    requires Fifo(s, lap, round)
    ensures s.Shape()
  {
  }
}
