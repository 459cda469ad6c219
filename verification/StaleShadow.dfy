/** What the source does not do: when L1 changes an entry of its tables and executes INVEPT, the
    emulation (arch/x86_64/kvm/vmx/nested.c:245-267) returns without touching the shadow. This is a run
    of the code, from an empty machine, that ends with a stale shadow. */
module StaleShadow {
  import opened Wrappers
  import opened BootMemory
  import opened PageTable
  import opened Ept
  import opened NestedEpt
  import opened VcpuMemory

  /** L1 touches its pages 10 to 15, builds tables in pages 10 to 13 that send L2's page 0 to its page 14,
      and enters L2, which touches page 0. Then L1 sends L2's page 0 to its page 15, and executes INVEPT. */
  const SCRIPT: seq<Event> := [
    HostFault(0xa000), HostFault(0xb000), HostFault(0xc000), HostFault(0xd000), HostFault(0xe000), HostFault(0xf000),
    StoreL1(0xa000, Word(11, 0x7)), StoreL1(0xb000, Word(12, 0x7)), StoreL1(0xc000, Word(13, 0x7)),
    StoreL1(0xd000, Word(14, 0x7)), EnterL2(CONTROLS), NestedFault(0), StoreL1(0xd000, Word(15, 0x7)), Invept]

  /** The seven addresses that L1's vmcs12 names before the EPT pointer is looked at. */
  const CONTROLS: seq<nat> := [0xf000, 0xf000, 0xf000, 0xf000, 0xf000, 0xf000, 0xf000]

  /** The host has no translation yet, L2 no tables, and L1's own top table is going to be in its page 10. */
  ghost predicate Fresh(s: Paging) {
    s.Consistent() && s.Sound() && s.shadow == 0 && s.top == 10 && forall q: nat :: EptWalk(s.words, s.root, q).None?
  }

  function Host(s: Paging, page: nat): Option<nat> { EptWalk(s.words, s.root, page) }

  /** The host translates the first `n` of L1's pages from 10 on, to different frames. */
  ghost predicate Mapped(s: Paging, n: nat) {
    && s.Consistent() && s.top == 10
    && (forall p: nat :: 10 <= p < 16 ==> (Host(s, p).Some? <==> p < 10 + n))
    && forall p: nat, q: nat :: 10 <= p < q < 10 + n ==> Host(s, p) != Host(s, q)
  }

  /** The first word of L1's page `page`. */
  function First(s: Paging, page: nat): Word
    requires Host(s, page).Some?
  {
    Read(s.words, Host(s, page).value, 0)
  }

  /** L1's pages are mapped, and its first `n` tables are built. */
  ghost predicate Built(s: Paging, n: nat) {
    Mapped(s, 6) && n <= 6 && forall i: nat :: 10 <= i < 10 + n ==> First(s, i) == Word(i + 1, 0x7)
  }

  /** L1 sends page 0 elsewhere than the shadow does. */
  ghost predicate Stale(s: Paging) {
    && Mapped(s, 6) && s.shadow != 0
    && Composite(s.words, s.root, s.top, 0) == Host(s, 15) != EptWalk(s.words, s.shadow, 0) == Host(s, 14)
  }

  /** Where the script stands after `i` events. */
  ghost predicate Stage(s: Paging, i: nat) {
    if i <= 6 then Mapped(s, i) && s.shadow == 0
    else if i <= 10 then Built(s, i - 6) && s.shadow == 0
    else if i == 11 then Built(s, 4) && s.shadow != 0 && EptWalk(s.words, s.shadow, 0).None?
    else if i == 12 then Built(s, 4) && s.shadow != 0 && EptWalk(s.words, s.shadow, 0) == Host(s, 14)
    else Stale(s)
  }

  lemma FaultMaps(s: Paging, s': Paging, n: nat)
    requires Mapped(s, n) && n < 6 && Step(s, HostFault(0x1000 * (10 + n)), s')
    ensures Mapped(s', n + 1) && s'.shadow == s.shadow
  {
    hide EptWalk;
    hide Tree;
    hide TablesAdded;
    assert Host(s, 10 + n).None?;
    var frame :| HostStep(s, s', 10 + n, frame, true);
    HostMapped(s, s', 10 + n, frame, true);
    assert forall p: nat :: 10 <= p < 16 ==> Host(s', p) == if p == 10 + n then Some(frame) else Host(s, p);
  }

  /** A store of L1 to the first word of one of its pages. */
  lemma StoreWrites(s: Paging, s': Paging, page: nat, value: Word)
    requires Mapped(s, 6) && 10 <= page < 16 && Step(s, StoreL1(0x1000 * page, value), s')
    ensures Mapped(s', 6) && s'.shadow == s.shadow && forall p: nat :: Host(s', p) == Host(s, p)
    ensures s.shadow != 0 ==> forall q: nat :: EptWalk(s'.words, s'.shadow, q) == EptWalk(s.words, s.shadow, q)
    ensures forall p: nat :: 10 <= p < 16 ==> First(s', p) == if p == page then value else First(s, p)
  {
    hide EptWalk;
    hide Composite;
    hide Tree;
    hide Spared;
    assert IndexOf(0x1000 * page) == 0 && 0x1000 * page / 0x1000 == page;
    GuestStored(s, s', Host(s, page).value, 0, value);
    hide Paging.Consistent;
    assert s'.top == s.top && s'.shadow == s.shadow && s'.root == s.root;
    assert forall p: nat :: Host(s', p) == Host(s, p);
    assert Mapped(s', 6);
    assert forall p: nat :: 10 <= p < 16 && p != page ==> Host(s, p) != Host(s, page);
  }

  /** New tables leave L1's pages alone. */
  lemma TablesSpareGuest(s: Paging, s': Paging, was: Owner, now: Owner, n: nat)
    requires TablesAdded(s, s', was, now, {}) && Built(s, n) && s'.Consistent() && s'.root == s.root && s'.top == s.top
    requires was == s.shadowTables && forall p: nat :: Host(s', p) == Host(s, p)
    ensures Built(s', n)
  {
    hide EptWalk;
    hide Tree;
    assert Mapped(s', 6);
    forall p: nat | 10 <= p < 16 ensures First(s', p) == First(s, p) {
      assert s.GuestFrame(Host(s, p).value);
    }
  }

  /** L1 sends page 0 where its lowest entry says. */
  lemma CompositeOfZero(s: Paging, target: nat)
    requires Mapped(s, 6) && 10 <= target < 16 && First(s, 10) == Word(11, 0x7) && First(s, 11) == Word(12, 0x7)
    requires First(s, 12) == Word(13, 0x7) && First(s, 13) == Word(target, 0x7)
    ensures Composite(s.words, s.root, s.top, 0) == Host(s, target)
  {
    hide EptWalk;
    hide Paging.Consistent;
    var entry := L1Entries(s.words, s.root);
    assert entry(10, 0) == L1Entry(s.words, s.root, 10, 0) == Some(Word(11, 0x7));
    assert entry(11, 0) == L1Entry(s.words, s.root, 11, 0) == Some(Word(12, 0x7));
    assert entry(12, 0) == L1Entry(s.words, s.root, 12, 0) == Some(Word(13, 0x7));
    assert entry(13, 0) == L1Entry(s.words, s.root, 13, 0) == Some(Word(target, 0x7));
  }

  lemma EnterMakesShadow(s: Paging, s': Paging)
    requires Built(s, 4) && s.shadow == 0 && Step(s, EnterL2(CONTROLS), s')
    ensures Built(s', 4) && s'.shadow != 0 && EptWalk(s'.words, s'.shadow, 0).None?
  {
    hide EptWalk;
    hide Tree;
    hide TablesAdded;
    assert Host(s, 15).Some?;
    ShadowCreated(s, s');
    TranslationsOfHost(s, s');
    TablesSpareGuest(s, s', s.shadowTables, s'.shadowTables, 4);
  }

  lemma TranslationsOfHost(s: Paging, s': Paging)
    requires s.Consistent() && s'.root == s.root && TablesAdded(s, s', s.shadowTables, s'.shadowTables, {})
    ensures forall p: nat :: Host(s', p) == Host(s, p)
  {
    hide EptWalk;
    hide Tree;
    TranslationsUnchanged(s.words, s'.words, s.root, s.hostTables);
  }

  lemma FaultShadows(s: Paging, s': Paging)
    requires Stage(s, 11) && Step(s, NestedFault(0), s')
    ensures Stage(s', 12)
  {
    hide EptWalk;
    hide Composite;
    hide Tree;
    hide TablesAdded;
    ShadowMapped(s, s', 0, true);
    CompositeOfZero(s, 14);
    TranslationsOfHost(s, s');
    TablesSpareGuest(s, s', s.shadowTables, s'.shadowTables, 4);
  }

  lemma StageStep(s: Paging, s': Paging, i: nat)
    requires i < |SCRIPT| && Stage(s, i) && Step(s, SCRIPT[i], s')
    ensures Stage(s', i + 1)
  {
    hide EptWalk;
    hide Composite;
    hide Step;
    hide Paging.Consistent;
    if i < 6 {
      FaultMaps(s, s', i);
    } else if i < 10 {
      StoreWrites(s, s', i + 4, Word(i + 5, 0x7));
    } else if i == 10 {
      EnterMakesShadow(s, s');
    } else if i == 11 {
      FaultShadows(s, s');
    } else if i == 12 {
      StoreWrites(s, s', 13, Word(15, 0x7));
      CompositeOfZero(s', 15);
    } else {
      InveptDoesNothing(s, s');
    }
  }

  lemma InveptDoesNothing(s: Paging, s': Paging)
    requires Step(s, Invept, s')
    ensures s' == s
  {
  }

  lemma {:induction false} Stages(states: seq<Paging>, n: nat)
    requires n <= |SCRIPT| && IsRun(states, SCRIPT[..n]) && Fresh(states[0])
    ensures forall i :: 0 <= i <= n ==> Stage(states[i], i)
  {
    hide Step;
    hide Stage;
    if n == 0 {
      FreshIsStage(states[0]);
    } else {
      assert SCRIPT[..n][..n - 1] == SCRIPT[..n - 1];
      assert IsRun(states[..n], SCRIPT[..n - 1]);
      Stages(states[..n], n - 1);
      assert Step(states[n - 1], SCRIPT[..n][n - 1], states[n - 1 + 1]);
      StageStep(states[n - 1], states[n], n - 1);
      forall i | 0 <= i <= n ensures Stage(states[i], i) {
        assert i < n ==> states[..n][i] == states[i];
      }
    }
  }

  lemma FreshIsStage(s: Paging)
    requires Fresh(s)
    ensures Stage(s, 0)
  {
    hide EptWalk;
    hide Paging.Consistent;
  }

  /** Every run of the script from a fresh state leaves the shadow stale: it is sound until L1 remaps its page,
      and the INVEPT that follows mends nothing. */
  lemma RemapLeavesShadowStale(states: seq<Paging>)
    requires IsRun(states, SCRIPT) && Fresh(states[0])
    ensures forall i :: 0 <= i <= 12 ==> states[i].Sound()
    ensures Disturbs(states[12], SCRIPT[12]) && !states[13].Sound()
    ensures states[14] == states[13] && states[14].Consistent()
    ensures Stale(states[14])
  {
    hide Step;
    hide Stage;
    hide Stale;
    hide Disturbs;
    hide EptWalk;
    hide Composite;
    hide Paging.Consistent;
    hide Paging.Sound;
    hide Paging.Architectural;
    assert SCRIPT[..14] == SCRIPT;
    Stages(states, 14);
    forall i | 0 <= i < 12 ensures !Disturbs(states[i], SCRIPT[i]) {
      QuietEvent(states[i], i);
    }
    RunIsSound(states, SCRIPT, 12);
    RunIsSound(states, SCRIPT, 13);
    assert Step(states[13], SCRIPT[13], states[13 + 1]);
    InveptDoesNothing(states[13], states[14]);
    LastStages(states[13], 13);
    LastStages(states[14], 14);
  }

  lemma QuietEvent(s: Paging, i: nat)
    requires Stage(s, i) && i < 12
    ensures !Disturbs(s, SCRIPT[i]) && !Fails(s, SCRIPT[i])
  {
    hide EptWalk;
    hide Composite;
    hide Paging.Consistent;
    if i == 11 {
      CompositeOfZero(s, 14);
    }
  }

  lemma NothingFails(s: Paging, i: nat)
    requires Stage(s, i) && i < |SCRIPT|
    ensures !Fails(s, SCRIPT[i])
  {
    hide Stage;
    if i < 12 {
      QuietEvent(s, i);
    }
  }

  lemma LastStages(s: Paging, i: nat)
    requires Stage(s, i) && i >= 13
    ensures Stale(s) && s.Consistent() && !s.Sound() && s.top == 10
  {
    hide EptWalk;
    hide Composite;
  }

  /** Among `2 * n + 2` numbers in a row two neighbours are missing from a set of `n`. */
  lemma {:induction false} FreePair(t: set<nat>, start: nat, n: nat) returns (j: nat)
    requires |t| <= n
    ensures j <= n && start + 2 * j !in t && start + 2 * j + 1 !in t
  {
    if start !in t && start + 1 !in t {
      j := 0;
    } else {
      var x := if start in t then start else start + 1;
      j := FreePair(t - {x}, start + 2, n - 1);
      j := j + 1;
    }
  }

  /** The allocator is not exhausted while it has handed out few frames of a large free area. */
  lemma RoomIsLeft(heap: Bootmem, was: iset<nat>, start: nat, n: nat)
    requires heap.bitmap.Length == BITMAP_BYTES && start + 2 * n + 2 <= PAGES
    requires FewMore(was, heap.Frames(), n) && forall p: nat :: start <= p < start + 2 * n + 2 ==> p !in was
    ensures !heap.Exhausted()
  {
    var now := heap.Frames();
    var t: set<nat> :| |t| <= n && OnlyThese(was, now, t);
    var j := FreePair(t, start, n);
    var page := start + 2 * j;
    assert page !in now && page + 1 !in now;
    assert heap.FreeRun(page, 2);
  }

  /** The code itself, on a machine with 4 GB of memory: the script runs to its end, and the shadow is stale. */
  method Demonstrate() returns (mmu: VcpuMmu)
    ensures fresh(mmu) && mmu.Valid() && Stale(mmu.State()) && !mmu.State().Sound()
  {
    hide EptWalk;
    hide Composite;
    hide Tree;
    hide Step;
    hide Bootmem.Valid;
    hide Bootmem.Exhausted;
    hide FewMore;
    hide Disturbs;
    hide Fails;
    hide Stage;
    hide Stale;
    hide Paging.Consistent;
    hide Paging.Architectural;
    var heap := new Bootmem([]);
    var mem := new PhysMem();
    ghost var before := heap.Frames();
    NoneIsFew(before, 0);
    RoomIsLeft(heap, before, KERNEL_PAGES, 0);
    var root := NewTable(heap, mem);
    OneIsFew(before, heap.Frames(), root.value);
    mmu := new VcpuMmu(heap, mem, root.value, 10);
    assert Fresh(mmu.State());
    var n, states := mmu.Run(SCRIPT);
    assert SCRIPT[..|SCRIPT|] == SCRIPT;
    FewInTwo(before, states[0].used, heap.Frames(), 1, 56);
    RoomIsLeft(heap, before, KERNEL_PAGES, 57);
    Stages(states, n);
    if n < |SCRIPT| {
      NothingFails(states[n], n);
    }
    LastStages(mmu.State(), n);
  }

  lemma OneIsFew(was: iset<nat>, now: iset<nat>, p: nat)
    requires forall q :: q in now ==> q in was || q == p
    ensures FewMore(was, now, 1)
  {
    var t: set<nat> := {p};
    assert |t| <= 1 && OnlyThese(was, now, t);
  }
}
