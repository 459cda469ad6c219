/** Running a guest and its nested guest (arch/x86_64/kvm/vmx/vmx.c, nested.c): which VMCS is current,
    which are launched, and the `state` and `guest_mode` flags that must agree with the processor
    (Intel SDM Vol. 3C, sections 24.1 and 24.11.3). */
module VmxRun {
  import opened Wrappers

  /** A VMCS pointer; `None` is the all-ones pointer that VMPTRST stores when no VMCS is current. */
  type Pointer = Option<nat>

  const EXCEPTION_NMI: nat := 0
  const EXTERNAL_INTERRUPT: nat := 1
  const TRIPLE_FAULT: nat := 2
  const VMCALL: nat := 18
  const VMCLEAR: nat := 19
  const VMLAUNCH: nat := 20
  const VMPTRLD: nat := 21
  const VMPTRST: nat := 22
  const VMREAD: nat := 23
  const VMRESUME: nat := 24
  const VMWRITE: nat := 25
  const VMOFF: nat := 26
  const VMON: nat := 27
  const EPT_VIOLATION: nat := 48
  const INVEPT: nat := 50
  const INVVPID: nat := 53
  const FAILED_VMENTRY: nat := 0x8000_0000

  type Reason = r: nat | r < FAILED_VMENTRY

  /** How a VM entry on a suitable VMCS ends: rejected for its controls, with the next instruction as
      the error path; failed while loading guest state, which exits with bit 31 of the reason set and
      leaves the launch state alone; or entered, and later exited for `reason`. */
  datatype Outcome = Rejected | Failed(reason: Reason) | Entered(reason: Reason)

  /** What the environment does in one round of the run loop. */
  datatype Round = Round(
    outcome: Outcome,
    shadowLoads: bool,         // whether VMPTRLD accepts the shadow VMCS, whose header L1 can write
    newShadow: Option<nat>,    // the page an L1 VMPTRLD names, if its address translates
    nestedFaultFails: bool,    // whether a nested EPT fault finds no translation
    qualification: u64)        // the exit qualification

  /** One attempted entry, as the processor sees it. */
  datatype Attempt = Attempt(
    launch: bool,      // VMLAUNCH, or else VMRESUME
    vmcs: Pointer,     // the current VMCS
    clear: bool,       // its launch state
    nested: bool,      // guest_mode
    outcome: Outcome)
  {
    predicate Suits() { vmcs.Some? && launch == clear }

    /** The instruction succeeds, with an exit to follow. */
    predicate Enters() { Suits() && !outcome.Rejected? }

    /** The exit reason. */
    function Reason(): nat
      requires !outcome.Rejected?
    {
      outcome.reason + if outcome.Failed? then FAILED_VMENTRY else 0
    }
  }

  /** The VMX state of a processor. */
  class Processor {
    var current: Pointer
    /** The VMCSs whose launch state is "launched"; all others are clear. */
    var launched: set<nat>
    /** Every attempted entry, oldest first. */
    ghost var log: seq<Attempt>

    constructor ()
      ensures current == None && launched == {} && log == []
    {
      current, launched, log := None, {}, [];
    }

    method VmClear(p: Pointer)
      modifies this`current, this`launched
      ensures launched == if p.Some? then old(launched) - {p.value} else old(launched)
      ensures current == if p.Some? && old(current) == p then None else old(current)
    {
      if p.Some? {
        launched := launched - {p.value};
        if current == p {
          current := None;
        }
      }
    }

    /** VMPTRLD; a pointer that is all ones or that the processor does not accept changes nothing. */
    method VmPtrLd(p: Pointer, accepted: bool)
      modifies this`current
      ensures current == if p.Some? && accepted then p else old(current)
    {
      if p.Some? && accepted {
        current := p;
      }
    }

    /** VMLAUNCH or VMRESUME. `exit` is the exit reason, or `None` when the instruction failed. */
    method Enter(launch: bool, outcome: Outcome, ghost nested: bool) returns (exit: Option<nat>)
      modifies this`launched, this`log
      ensures var a := Attempt(launch, current, current.None? || current.value !in old(launched), nested, outcome);
        && log == old(log) + [a]
        && exit == (if a.Enters() then Some(a.Reason()) else None)
        && launched == if a.Enters() && outcome.Entered? then old(launched) + {current.value} else old(launched)
    {
      log := log + [Attempt(launch, current, current.None? || current.value !in launched, nested, outcome)];
      if current.None? || (launch <==> current.value in launched) || outcome.Rejected? {
        return None;
      }
      if outcome.Entered? {
        launched := launched + {current.value};
      }
      exit := Some(outcome.reason + if outcome.Failed? then FAILED_VMENTRY else 0);
    }
  }

  /** `nested_vm_exit_reflected`, on the full exit reason. */
  predicate Reflected(reason: nat, guestMode: bool) {
    if reason == EXTERNAL_INTERRUPT || reason == EPT_VIOLATION then false
    else if reason in {VMCALL, VMCLEAR, VMLAUNCH, VMPTRLD, VMPTRST, VMREAD, VMRESUME, VMWRITE, VMOFF, VMON,
                       INVEPT, INVVPID}
    then guestMode
    else true
  }

  /** Which of L1 and L2 runs after an exit. */
  predicate ModeAfter(nested: bool, reason: nat) {
    if nested && Reflected(reason, nested) then false
    else nested || (reason < FAILED_VMENTRY && (reason % 0x100 == VMLAUNCH || reason % 0x100 == VMRESUME))
  }

  /** An exit that the host answers itself, and does so with an endless loop. */
  predicate Hangs(nested: bool, reason: nat) {
    !(nested && Reflected(reason, nested)) && reason < FAILED_VMENTRY
    && (reason % 0x100 == EXCEPTION_NMI || reason % 0x100 == TRIPLE_FAULT)
  }

  /** An EPT violation of L2 that finds no translation. */
  predicate NestedFails(nested: bool, reason: nat, round: Round) {
    && nested && !Reflected(reason, nested) && reason < FAILED_VMENTRY
    && reason % 0x100 == EPT_VIOLATION && round.nestedFaultFails
  }

  /** Who runs next, and what the host does with an exit itself, by the architecture's exit reasons (Intel SDM
      Vol. 3D, appendix C). The host keeps L2's external interrupts (1) and EPT violations (48), and hands
      everything else over to L1, failed entries included. From L1 only VMLAUNCH (20) and VMRESUME (24) lead
      to L2. Exceptions (0) and triple faults (2) of L1 hang. */
  lemma ExitsByReason(nested: bool, reason: nat, round: Round)
    ensures nested ==> (ModeAfter(nested, reason) <==> reason == 1 || reason == 48)
    ensures !nested ==> (ModeAfter(nested, reason) <==> reason < 0x8000_0000 && reason % 0x100 in {20, 24})
    ensures Hangs(nested, reason) <==> !nested && reason < 0x8000_0000 && reason % 0x100 in {0, 2}
    ensures NestedFails(nested, reason, round) <==> nested && reason == 48 && round.nestedFaultFails
  {
  }

  /** What ends the run loop. */
  predicate Ends(a: Attempt, round: Round) {
    !a.Enters() || Hangs(a.nested, a.Reason()) || NestedFails(a.nested, a.Reason(), round)
  }

  /** The loop goes on after attempt `a`, and then L2 runs, or else L1. */
  predicate Continues(a: Attempt, round: Round, nested: bool) {
    !Ends(a, round) && nested == ModeAfter(a.nested, a.Reason())
  }

  /** The attempts of a run, one for each round, belong together: each used the outcome of its round, and
      was made for whichever of L1 and L2 the exit before it left to run. */
  predicate Follows(log: seq<Attempt>, rounds: seq<Round>, nested: bool) {
    && |log| <= |rounds|
    && (forall k :: 0 <= k < |log| ==> log[k].outcome == rounds[k].outcome)
    && (log != [] ==> log[0].nested == nested)
    && (forall k :: 0 <= k < |log| - 1 ==> Continues(log[k], rounds[k], log[k + 1].nested))
  }

  /** L2 runs after the exit of attempt `a`, by the exit reasons above. */
  predicate L2Next(a: Attempt)
    requires a.Enters()
  {
    if a.nested then a.Reason() in {1, 48} else a.Reason() < 0x8000_0000 && a.Reason() % 0x100 in {20, 24}
  }

  /** An EPT violation of L2. */
  predicate NestedFault(a: Attempt) { a.nested && a.Enters() && a.Reason() == 48 }

  /** In every round the one of L1 and L2 runs that the exit before calls for, and only the last attempt can be a
      nested fault without translation. */
  ghost predicate ByReason(log: seq<Attempt>, rounds: seq<Round>)
    requires |log| <= |rounds|
  {
    && (forall k :: 0 <= k < |log| - 1 ==> log[k].Enters() && log[k + 1].nested == L2Next(log[k]))
    && (forall k :: 0 <= k < |log| - 1 && NestedFault(log[k]) ==> !rounds[k].nestedFaultFails)
  }

  lemma ContinuesByReason(a: Attempt, round: Round, nested: bool)
    requires Continues(a, round, nested)
    ensures a.Enters() && nested == L2Next(a) && (NestedFault(a) ==> !round.nestedFaultFails)
  {
    ExitsByReason(a.nested, a.Reason(), round);
  }

  lemma EndsByReason(a: Attempt, round: Round)
    ensures Ends(a, round) <==>
      || !a.Enters()
      || (!a.nested && a.Reason() < 0x8000_0000 && a.Reason() % 0x100 in {0, 2})
      || (NestedFault(a) && round.nestedFaultFails)
  {
    if a.Enters() {
      ExitsByReason(a.nested, a.Reason(), round);
    }
  }

  lemma FollowsByReason(log: seq<Attempt>, rounds: seq<Round>, nested: bool)
    requires Follows(log, rounds, nested)
    ensures ByReason(log, rounds)
    ensures log != [] && NestedFault(log[|log| - 1]) ==>
      (Ends(log[|log| - 1], rounds[|log| - 1]) <==> rounds[|log| - 1].nestedFaultFails)
  {
    hide Continues;
    hide NestedFault;
    hide L2Next;
    forall k | 0 <= k < |log| - 1
      ensures log[k].Enters() && log[k + 1].nested == L2Next(log[k])
      ensures NestedFault(log[k]) ==> !rounds[k].nestedFaultFails
    {
      ContinuesByReason(log[k], rounds[k], log[k + 1].nested);
    }
    if log != [] {
      LastByReason(log[|log| - 1], rounds[|log| - 1]);
    }
  }

  lemma LastByReason(a: Attempt, round: Round)
    ensures NestedFault(a) ==> (Ends(a, round) <==> round.nestedFaultFails)
  {
    EndsByReason(a, round);
  }

  lemma NothingFollows(rounds: seq<Round>, nested: bool)
    ensures Follows([], rounds, nested)
  {
  }

  lemma FollowsGrows(log: seq<Attempt>, rounds: seq<Round>, nested: bool, a: Attempt)
    requires Follows(log, rounds, nested) && |log| < |rounds| && a.outcome == rounds[|log|].outcome
    requires if log == [] then a.nested == nested else Continues(log[|log| - 1], rounds[|log| - 1], a.nested)
    ensures Follows(log + [a], rounds, nested)
  {
    hide Continues;
  }

  /** A copy between the vmcs12 and the VMCS that is current for VMREAD and VMWRITE: to it, or back from it, whole
      or of the host state alone. */
  datatype Copy = There(vmcs: Pointer) | Back(vmcs: Pointer) | HostBack(vmcs: Pointer)

  class Vcpu {
    const cpu: Processor
    const vmcs01: nat
    const vmcs02: nat
    const shadowVmcsEnabled: bool
    var shadowVmcs: Pointer
    /** The exit reason and qualification in L1's vmcs12. */
    var reported: nat
    var qualified: nat
    /** The copies made so far. */
    ghost var copies: seq<Copy>
    var state: nat
    var guestMode: bool

    /** The VMCS that is current when the loop enters the guest. */
    function Active(): nat
      reads this`guestMode
    {
      if guestMode then vmcs02 else vmcs01
    }

    /** The kernel's two regions are distinct, and the shadow is a page of guest memory. */
    predicate Regions()
      reads this`shadowVmcs
    {
      vmcs01 != vmcs02 && shadowVmcs != Some(vmcs01) && shadowVmcs != Some(vmcs02)
    }

    /** The discipline, except for the launch state of the active VMCS: it is current, and no other VMCS
        is launched. */
    predicate Poised()
      reads this, cpu
    {
      Regions() && cpu.current == Some(Active()) && cpu.launched <= {Active()}
    }

    /** The discipline: `state` is 0 exactly when the active VMCS is clear. */
    predicate Disciplined()
      reads this, cpu
    {
      Poised() && (state == 0 <==> Active() !in cpu.launched)
    }

    /** `vmx_init` */
    constructor (vmcs01: nat, vmcs02: nat, shadowVmcsEnabled: bool)
      requires vmcs01 != vmcs02
      ensures fresh(cpu) && Disciplined() && !guestMode && state == 0
      ensures this.vmcs01 == vmcs01 && this.vmcs02 == vmcs02 && this.shadowVmcsEnabled == shadowVmcsEnabled
    {
      cpu := new Processor();
      this.vmcs01, this.vmcs02, this.shadowVmcsEnabled := vmcs01, vmcs02, shadowVmcsEnabled;
      shadowVmcs, reported, qualified, state, guestMode, copies := None, 0, 0, 0, false, [];
      new;
      cpu.VmClear(Some(vmcs01));
      cpu.VmClear(Some(vmcs02));
      cpu.VmPtrLd(Some(vmcs01), true);
    }

    /** The VMCS that VMREAD and VMWRITE reach once the shadow is loaded: it, and no other. */
    function Reached(shadowLoads: bool): Pointer
      reads this`shadowVmcs
    {
      if shadowLoads then shadowVmcs else None
    }

    /** `copy_shadow_to_vmcs12`, or with `host` `copy_shadow_to_vmcs12_host`, as far as VMCS pointers go. */
    method CopyFromShadow(shadowLoads: bool, host: bool)
      requires Regions() && cpu.current.Some?
      modifies cpu`current, cpu`launched, this`copies
      ensures cpu.current == old(cpu.current)
      ensures forall v :: v in cpu.launched <==>
        v in old(cpu.launched) && Some(v) != old(cpu.current) && Some(v) != shadowVmcs
      ensures copies == old(copies) + [if host then HostBack(Reached(shadowLoads)) else Back(Reached(shadowLoads))]
    {
      var pointer := cpu.current;
      cpu.VmClear(pointer);
      cpu.VmClear(shadowVmcs);
      cpu.VmPtrLd(shadowVmcs, shadowLoads);
      copies := copies + [if host then HostBack(cpu.current) else Back(cpu.current)];
      cpu.VmPtrLd(pointer, true);
    }

    /** `copy_vmcs12_to_shadow`: when no VMCS is current, the pointer to restore is invalid and the
        shadow stays current. */
    method CopyToShadow(shadowLoads: bool)
      requires Regions()
      modifies cpu`current, cpu`launched, this`copies
      ensures cpu.current ==
        if old(cpu.current).Some? then old(cpu.current) else if shadowLoads then shadowVmcs else None
      ensures forall v :: v in cpu.launched <==> v in old(cpu.launched) && Some(v) != old(cpu.current)
      ensures copies == old(copies) + [There(Reached(shadowLoads))]
    {
      var pointer := cpu.current;
      cpu.VmClear(pointer);
      cpu.VmPtrLd(shadowVmcs, shadowLoads);
      copies := copies + [There(cpu.current)];
      cpu.VmPtrLd(pointer, true);
    }

    method PrepareVmcs02()
      modifies cpu`current, cpu`launched, this`state
      ensures state == 0 && cpu.current == Some(vmcs02) && cpu.launched == old(cpu.launched) - {vmcs01}
    {
      cpu.VmClear(Some(vmcs01));
      state := 0;
      cpu.VmPtrLd(Some(vmcs02), true);
    }

    /** `nested_vmx_run`: from L1, ready the processor for L2. */
    method NestedVmxRun(shadowLoads: bool)
      requires Poised() && !guestMode
      modifies cpu`current, cpu`launched, this`state, this`guestMode, this`copies
      ensures Disciplined() && guestMode && state == 0
      ensures copies == old(copies) + if shadowVmcsEnabled then [Back(Reached(shadowLoads))] else []
    {
      if shadowVmcsEnabled {
        CopyFromShadow(shadowLoads, false);
      }
      PrepareVmcs02();
      guestMode := true;
    }

    /** `nested_vmx_vmexit`: from L2, ready the processor for L1, which learns the reason of the exit and the low
        half of its qualification. */
    method NestedVmxVmexit(reason: nat, qualification: u64, shadowLoads: bool)
      requires Poised() && guestMode
      modifies cpu`current, cpu`launched, this`state, this`guestMode, this`reported, this`qualified, this`copies
      ensures Disciplined() && !guestMode && state == 0
      ensures copies == old(copies)
        + if shadowVmcsEnabled then [HostBack(Reached(shadowLoads)), There(Reached(shadowLoads))] else []
      ensures reported == reason && qualified == qualification % 0x1_0000_0000
    {
      if shadowVmcsEnabled {
        CopyFromShadow(shadowLoads, true);
      }
      reported := reason;
      qualified := qualification % 0x1_0000_0000;
      cpu.VmClear(Some(vmcs02));
      if shadowVmcsEnabled {
        CopyToShadow(shadowLoads);
      }
      state := 0;
      guestMode := false;
      cpu.VmPtrLd(Some(vmcs01), true);
    }

    /** `vmx_handle_vmptrld`: with shadowing, L1's new VMCS page becomes the shadow. */
    method HandleVmptrld(page: Option<nat>)
      requires Regions() && page != Some(vmcs01) && page != Some(vmcs02)
      modifies this`shadowVmcs
      ensures Regions() && shadowVmcs == if page.Some? && shadowVmcsEnabled then page else old(shadowVmcs)
    {
      if page.Some? && shadowVmcsEnabled {
        shadowVmcs := page;
      }
    }

    /** `vm_exit_handler`. `hangs` stands for the exits the source answers with an endless loop. */
    method VmExitHandler(reason: nat, round: Round) returns (ret: int, hangs: bool)
      requires Poised() && reason < 2 * FAILED_VMENTRY
      requires round.newShadow != Some(vmcs01) && round.newShadow != Some(vmcs02)
      modifies cpu`current, cpu`launched, this`state, this`guestMode, this`shadowVmcs
      modifies this`reported, this`qualified, this`copies
      ensures guestMode <==> if old(guestMode) then reason == 1 || reason == 48
        else reason < FAILED_VMENTRY && reason % 0x100 in {20, 24}
      ensures old(guestMode) && !guestMode ==>
        reported == reason && qualified == round.qualification % 0x1_0000_0000
      ensures guestMode == old(guestMode) ==>
        && cpu.launched == old(cpu.launched) && state == old(state)
        && reported == old(reported) && qualified == old(qualified)
      ensures copies == old(copies) + (
        if !shadowVmcsEnabled || guestMode == old(guestMode) then []
        else if guestMode then [Back(Reached(round.shadowLoads))]
        else [HostBack(Reached(round.shadowLoads)), There(Reached(round.shadowLoads))])
      ensures hangs <==> !old(guestMode) && reason < FAILED_VMENTRY && reason % 0x100 in {0, 2}
      ensures ret == if old(guestMode) && reason == 48 && round.nestedFaultFails then 1 else 0
      ensures shadowVmcs == if !old(guestMode) && reason < FAILED_VMENTRY && reason % 0x100 == 21
        && shadowVmcsEnabled && round.newShadow.Some? then round.newShadow else old(shadowVmcs)
      ensures guestMode == ModeAfter(old(guestMode), reason) && (hangs <==> Hangs(old(guestMode), reason))
      ensures ret == if NestedFails(old(guestMode), reason, round) then 1 else 0
      ensures Poised() && (old(Disciplined()) ==> Disciplined())
      ensures reason >= FAILED_VMENTRY ==>
        if old(guestMode) then Disciplined() && ret == 0 && !hangs
        else state == old(state) && !guestMode && cpu.launched == old(cpu.launched) && ret == 0 && !hangs
    {
      ret, hangs := 0, false;
      if guestMode && Reflected(reason, guestMode) {
        NestedVmxVmexit(reason, round.qualification, round.shadowLoads);
      } else if reason < FAILED_VMENTRY {
        var basic := reason % 0x100;
        if basic == EXCEPTION_NMI || basic == TRIPLE_FAULT {
          hangs := true;
        } else if basic == VMLAUNCH {
          NestedVmxRun(round.shadowLoads);
        } else if basic == VMPTRLD {
          HandleVmptrld(round.newShadow);
        } else if basic == VMRESUME {
          state := 1;
          NestedVmxRun(round.shadowLoads);
        } else if basic == EPT_VIOLATION && guestMode && round.nestedFaultFails {
          ret := 1;
        }
      }
    }

    /** The one exception to the discipline, which the next attempt turns into the end of the run: L1's
        VMCS is still clear, and `state` says launched. */
    predicate Deceived()
      reads this, cpu
    {
      Poised() && !guestMode && state != 0 && cpu.launched == {}
    }

    /** It comes about when L1's VMLAUNCH failed with bit 31 set. */
    predicate Stranded(log: seq<Attempt>)
      reads this, cpu
    {
      Deceived() && log != [] && FailedL1Launch(log[|log| - 1])
    }

    /** Every attempt was made on the right VMCS in the right launch state, except that a failed L1
        launch may be followed by one last VMRESUME on the VMCS it left clear. */
    predicate Sanctioned(log: seq<Attempt>) {
      forall i :: 0 <= i < |log| ==>
        && log[i].vmcs == Some(if log[i].nested then vmcs02 else vmcs01)
        && (log[i].launch != log[i].clear ==>
              i == |log| - 1 && i > 0 && FailedL1Launch(log[i - 1]) && !log[i].launch && !log[i].nested)
    }

    /** `vmx_run`, for as many rounds as the environment goes along. `log` are the VM entries the processor
        saw. The run ends with an entry that fails, a nested fault without translation, both with -1, or an
        exit that hangs. */
    method Run(rounds: seq<Round>) returns (ret: int, ghost log: seq<Attempt>, ended: bool)
      requires Disciplined()
      requires forall r :: r in rounds ==> r.newShadow != Some(vmcs01) && r.newShadow != Some(vmcs02)
      modifies cpu, this`state, this`guestMode, this`shadowVmcs, this`reported, this`qualified, this`copies
      ensures cpu.log == old(cpu.log) + log && Follows(log, rounds, old(guestMode))
      ensures Sanctioned(log)
      ensures ended <==> log != [] && Ends(log[|log| - 1], rounds[|log| - 1])
      ensures ByReason(log, rounds)
      ensures log != [] && NestedFault(log[|log| - 1]) ==> (ended <==> rounds[|log| - 1].nestedFaultFails)
      ensures !ended ==> |log| == |rounds| && (Disciplined() || Stranded(log))
      ensures ended ==>
        var last := log[|log| - 1];
        ret == if last.Enters() && Hangs(last.nested, last.Reason()) then 0 else -1
    {
      hide Ends;
      hide Hangs;
      hide Poised;
      hide Follows;
      hide Continues;
      hide ByReason;
      hide NestedFault;
      log, ret, ended := [], 0, false;
      NothingFollows(rounds, guestMode);
      var i := 0;
      while i < |rounds|
        invariant 0 <= i <= |rounds| && |log| == i
        invariant cpu.log == old(cpu.log) + log && Follows(log, rounds, old(guestMode))
        invariant if i == 0 then guestMode == old(guestMode)
          else !Ends(log[i - 1], rounds[i - 1]) && Continues(log[i - 1], rounds[i - 1], guestMode)
        invariant Disciplined() || Stranded(log)
        invariant forall k :: 0 <= k < i ==>
          log[k].vmcs == Some(if log[k].nested then vmcs02 else vmcs01) && log[k].launch == log[k].clear
      {
        ghost var attempt;
        ret, ended, attempt := RunRound(rounds[i]);
        FollowsGrows(log, rounds, old(guestMode), attempt);
        log := log + [attempt];
        if ended {
          FollowsByReason(log, rounds, old(guestMode));
          return;
        }
        i := i + 1;
      }
      FollowsByReason(log, rounds, old(guestMode));
      ret := 0;
    }

    /** One round of the loop in `vmx_run`. */
    method RunRound(round: Round) returns (ret: int, ended: bool, ghost a: Attempt)
      requires Disciplined() || Deceived()
      requires round.newShadow != Some(vmcs01) && round.newShadow != Some(vmcs02)
      modifies cpu, this`state, this`guestMode, this`shadowVmcs, this`reported, this`qualified, this`copies
      ensures cpu.log == old(cpu.log) + [a] && a.outcome == round.outcome && a.nested == old(guestMode)
      ensures a.vmcs == Some(if a.nested then vmcs02 else vmcs01)
      ensures if old(Disciplined()) then a.launch == a.clear else !a.launch && a.clear
      ensures ended <==> Ends(a, round)
      ensures ended ==> ret == if a.Enters() && Hangs(a.nested, a.Reason()) then 0 else -1
      ensures !ended ==> a.Suits() && Continues(a, round, guestMode)
      ensures !ended ==> Disciplined() || (Deceived() && FailedL1Launch(a))
    {
      hide Reflected;
      hide ModeAfter;
      hide Hangs;
      hide NestedFails;
      var launch := state == 0;
      a := Attempt(launch, cpu.current, cpu.current.value !in cpu.launched, guestMode, round.outcome);
      var exit := cpu.Enter(launch, round.outcome, guestMode);
      if exit.None? {
        return -1, true, a;
      }
      if launch {
        state := 1;
      }
      var handled, hangs := VmExitHandler(exit.value, round);
      ended := hangs || handled != 0;
      ret := if hangs || handled == 0 then 0 else -1;
    }
  }

  predicate FailedL1Launch(a: Attempt) {
    a.launch && a.outcome.Failed? && !a.nested
  }
}
