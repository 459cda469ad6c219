/** Nested paging (arch/x86_64/kvm/vmx/mmu.c, nested.c, vmx.c). The host's tables take an L1 guest's
    physical addresses to host memory; L1's own extended page tables, which live in L1's memory, take an
    L2 guest's addresses to L1's; and the tables the processor uses for L2 shadow the composition of
    the two, filled one page per fault. */
module NestedEpt {
  import opened Wrappers
  import opened PageTable
  import opened Ept

  /** Entry `index` of the L1 table that fills L1 page frame `frame`, read through the host's tables. */
  function L1Entry(w: Words, root: nat, frame: nat, index: nat): Option<Word> {
    var table := EptWalk(w, root, frame);
    if table.None? then None else Some(Read(w, table.value, index))
  }

  type Entries = (nat, nat) -> Option<Word>

  function L1Entries(w: Words, root: nat): Entries {
    (frame: nat, index: nat) => L1Entry(w, root, frame, index)
  }

  predicate Usable(e: Option<Word>, present: bv12) { e.Some? && Present(e.value, present) }

  /** The software walk of tables that lie in a guest's memory, large pages included, from the guest frame
      `top` of the top table: `nested_ept_l2gpa_to_l1gpa` for extended tables, `paging64_gva_to_gpa` for
      ordinary ones. Here too the base of a 2 MB page comes from one level too high. */
  function GuestWalk(entry: Entries, top: nat, page: nat, present: bv12): Option<nat> {
    var pml4e := entry(top, Pml4Index(page));
    if !Usable(pml4e, present) then None else
    var pdpte := entry(pml4e.value.frame, PdptIndex(page));
    if !Usable(pdpte, present) then None else
    if pdpte.value.flags & LARGE_PAGE != 0 then Some(pdpte.value.frame / 0x4_0000 * 0x4_0000 + page % 0x4_0000) else
    var pde := entry(pdpte.value.frame, PdIndex(page));
    if !Usable(pde, present) then None else
    if pde.value.flags & LARGE_PAGE != 0 then Some(pdpte.value.frame / 0x200 * 0x200 + page % 0x200) else
    var pte := entry(pde.value.frame, PtIndex(page));
    if !Usable(pte, present) then None else Some(pte.value.frame)
  }

  /** The walk the architecture defines for the same tables. */
  function ArchitecturalWalk(entry: Entries, top: nat, page: nat, present: bv12): Option<nat> {
    var pml4e := entry(top, Pml4Index(page));
    if !Usable(pml4e, present) then None else
    var pdpte := entry(pml4e.value.frame, PdptIndex(page));
    if !Usable(pdpte, present) then None else
    if pdpte.value.flags & LARGE_PAGE != 0 then Some(pdpte.value.frame / 0x4_0000 * 0x4_0000 + page % 0x4_0000) else
    var pde := entry(pdpte.value.frame, PdIndex(page));
    if !Usable(pde, present) then None else
    if pde.value.flags & LARGE_PAGE != 0 then Some(pde.value.frame / 0x200 * 0x200 + page % 0x200) else
    var pte := entry(pde.value.frame, PtIndex(page));
    if !Usable(pte, present) then None else Some(pte.value.frame)
  }

  /** The walk ends at a 2 MB page whose own base and whose directory's base differ. */
  predicate Misread(entry: Entries, top: nat, page: nat, present: bv12) {
    var pml4e := entry(top, Pml4Index(page));
    Usable(pml4e, present) &&
    var pdpte := entry(pml4e.value.frame, PdptIndex(page));
    Usable(pdpte, present) && pdpte.value.flags & LARGE_PAGE == 0 &&
    var pde := entry(pdpte.value.frame, PdIndex(page));
    Usable(pde, present) && pde.value.flags & LARGE_PAGE != 0 && pde.value.frame / 0x200 != pdpte.value.frame / 0x200
  }

  /** The software walk is right exactly off the misread 2 MB pages. */
  lemma GuestWalkAgreesWithArchitecture(entry: Entries, top: nat, page: nat, present: bv12)
    ensures GuestWalk(entry, top, page, present) == ArchitecturalWalk(entry, top, page, present) <==>
      !Misread(entry, top, page, present)
    ensures GuestWalk(entry, top, page, present).Some? <==> ArchitecturalWalk(entry, top, page, present).Some?
  {
  }

  /** A guest table with a 2 MB page that the software walk gets wrong. */
  lemma GuestWalkMisreads2M()
    ensures var entry := (frame: nat, index: nat) =>
        if frame == 1 then Some(Word(2, 0x7)) else if frame == 2 then Some(Word(3, 0x7)) else Some(Word(0x400, 0x87));
      && GuestWalk(entry, 1, 1, PERMISSIONS) == Some(1)
      && ArchitecturalWalk(entry, 1, 1, PERMISSIONS) == Some(0x401)
  {
    var entry := (frame: nat, index: nat) =>
      if frame == 1 then Some(Word(2, 0x7)) else if frame == 2 then Some(Word(3, 0x7)) else Some(Word(0x400, 0x87));
    assert 0x87 as bv12 & LARGE_PAGE != 0 && 0x7 as bv12 & LARGE_PAGE == 0 && 0x87 as bv12 & PERMISSIONS != 0;
  }

  /** `nested_ept_l2gpa_to_l1gpa` by pages. */
  function NestedWalk(entry: Entries, top: nat, page: nat): Option<nat> {
    GuestWalk(entry, top, page, PERMISSIONS)
  }

  /** What the shadow is meant to hold for an L2 page: the host's walk of the L1 walk. */
  function Composite(w: Words, root: nat, top: nat, page: nat): Option<nat> {
    var l1page := NestedWalk(L1Entries(w, root), top, page);
    if l1page.None? then None else EptWalk(w, root, l1page.value)
  }

  /** What the architecture makes of an L2 page: the processor's walk of the host's tables, after its walk of
      L1's tables, which it reads through the host's tables. */
  function TrueComposite(w: Words, root: nat, top: nat, page: nat): Option<nat> {
    var l1page := ArchitecturalWalk(TrueEntries(w, root), top, page, PERMISSIONS);
    if l1page.None? then None else Walk(w, root, l1page.value, PERMISSIONS)
  }

  function TrueEntries(w: Words, root: nat): Entries {
    (frame: nat, index: nat) =>
      var table := Walk(w, root, frame, PERMISSIONS);
      if table.None? then None else Some(Read(w, table.value, index))
  }

  lemma WalksOfEqualEntries(entry: Entries, entry': Entries, top: nat, page: nat, present: bv12)
    requires forall f: nat, i: nat :: entry'(f, i) == entry(f, i)
    ensures GuestWalk(entry', top, page, present) == GuestWalk(entry, top, page, present)
    ensures ArchitecturalWalk(entry', top, page, present) == ArchitecturalWalk(entry, top, page, present)
  {
  }

  /** The composite the code computes is the one of the architecture exactly if the host maps the L1 page
      found by the code and the one meant to the same frame, as it does off the misread pages. */
  lemma CompositeAgreesWithArchitecture(w: Words, root: nat, owner: Owner, top: nat, page: nat)
    requires Tree(w, root, owner, PERMISSIONS) && Composite(w, root, top, page).Some?
    ensures var entry := L1Entries(w, root);
      && ArchitecturalWalk(entry, top, page, PERMISSIONS).Some?
      && (Composite(w, root, top, page) == TrueComposite(w, root, top, page) <==>
        EptWalk(w, root, NestedWalk(entry, top, page).value)
          == EptWalk(w, root, ArchitecturalWalk(entry, top, page, PERMISSIONS).value))
      && (!Misread(entry, top, page, PERMISSIONS) ==>
        Composite(w, root, top, page) == TrueComposite(w, root, top, page))
  {
    var entry, entry' := L1Entries(w, root), TrueEntries(w, root);
    forall f: nat ensures Walk(w, root, f, PERMISSIONS) == EptWalk(w, root, f) {
      WalkReadsLeaf(w, root, owner, f);
    }
    hide Walk;
    hide EptWalk;
    hide Tree;
    hide GuestWalk;
    hide ArchitecturalWalk;
    hide Misread;
    forall f: nat, i: nat ensures entry'(f, i) == entry(f, i) {
    }
    WalksOfEqualEntries(entry, entry', top, page, PERMISSIONS);
    GuestWalkAgreesWithArchitecture(entry, top, page, PERMISSIONS);
  }

  /** The L1 entries the walk of a page reads, by L1 frame and index. */
  function NestedReads(entry: Entries, top: nat, page: nat): set<Slot> {
    var pml4e := entry(top, Pml4Index(page));
    {Slot(top, Pml4Index(page))} +
    if !Usable(pml4e, PERMISSIONS) then {} else
    var pdpte := entry(pml4e.value.frame, PdptIndex(page));
    {Slot(pml4e.value.frame, PdptIndex(page))} +
    if !Usable(pdpte, PERMISSIONS) || pdpte.value.flags & LARGE_PAGE != 0 then {} else
    var pde := entry(pdpte.value.frame, PdIndex(page));
    {Slot(pdpte.value.frame, PdIndex(page))} +
    if !Usable(pde, PERMISSIONS) || pde.value.flags & LARGE_PAGE != 0 then {} else
    {Slot(pde.value.frame, PtIndex(page))}
  }

  lemma LowPagesAgree(p: nat, q: nat)
    requires SamePage(p, q)
    ensures p % 0x4_0000 == q % 0x4_0000 && p % 0x200 == q % 0x200
  {
    Mod36Mod18(p, p % 0x10_0000_0000, p / 0x10_0000_0000);
    Mod36Mod18(q, q % 0x10_0000_0000, q / 0x10_0000_0000);
    Mod18Mod9(p, p % 0x4_0000, p / 0x4_0000);
    Mod18Mod9(q, q % 0x4_0000, q / 0x4_0000);
  }

  lemma Mod36Mod18(p: nat, m: nat, k: nat)
    requires p == m + 0x4_0000 * (0x4_0000 * k)
    ensures p % 0x4_0000 == m % 0x4_0000
  {
  }

  lemma Mod18Mod9(p: nat, m: nat, k: nat)
    requires p == m + 0x200 * (0x200 * k)
    ensures p % 0x200 == m % 0x200
  {
  }

  /** Page numbers that agree in 36 bits share their walks. */
  lemma CompositeIsPerPage(w: Words, root: nat, top: nat, p: nat, q: nat)
    requires SamePage(p, q)
    ensures NestedWalk(L1Entries(w, root), top, p) == NestedWalk(L1Entries(w, root), top, q)
    ensures Composite(w, root, top, p) == Composite(w, root, top, q)
  {
    SharedWalk(L1Entries(w, root), top, p, q);
  }

  lemma SharedWalk(entry: Entries, top: nat, p: nat, q: nat)
    requires SamePage(p, q)
    ensures NestedWalk(entry, top, p) == NestedWalk(entry, top, q)
  {
    IndicesNamePage(p, q);
    LowPagesAgree(p, q);
    assert PathTo(p)[0] == PathTo(q)[0] && PathTo(p)[1] == PathTo(q)[1] && PathTo(p)[2] == PathTo(q)[2];
  }

  /** `e'` leads a walk that meets it where `e` does: it is present, has the same frame, and is a large page
      if `e` is one. The other bits, as the accessed bit, are not looked at. */
  predicate Alike(e: Word, e': Word) {
    Present(e', PERMISSIONS) && e'.frame == e.frame && e'.flags & LARGE_PAGE == e.flags & LARGE_PAGE
  }

  /** A successful L1 walk notices changes only to the entries it reads, and of these only those to the frame,
      the presence and the large-page bit. */
  lemma NestedWalkSurvives(entry: Entries, entry': Entries, top: nat, page: nat)
    requires NestedWalk(entry, top, page).Some?
    requires forall s :: s in NestedReads(entry, top, page) ==>
      entry'(s.table, s.index) == entry(s.table, s.index) || (
        entry(s.table, s.index).Some? && entry'(s.table, s.index).Some?
        && Alike(entry(s.table, s.index).value, entry'(s.table, s.index).value))
    ensures NestedWalk(entry', top, page) == NestedWalk(entry, top, page)
  {
    var walked := NestedReads(entry, top, page);
    assert Slot(top, Pml4Index(page)) in walked;
    var pml4e := entry(top, Pml4Index(page)).value;
    assert Slot(pml4e.frame, PdptIndex(page)) in walked;
    var pdpte := entry(pml4e.frame, PdptIndex(page)).value;
    if pdpte.flags & LARGE_PAGE == 0 {
      assert Slot(pdpte.frame, PdIndex(page)) in walked;
      var pde := entry(pdpte.frame, PdIndex(page)).value;
      if pde.flags & LARGE_PAGE == 0 {
        assert Slot(pde.frame, PtIndex(page)) in walked;
      }
    }
  }

  /** L1's entries once the word at entry `index` of host frame `frame` is `value`. */
  function Stored(w: Words, root: nat, frame: nat, index: nat, value: Word): Entries {
    (f: nat, i: nat) =>
      var table := EptWalk(w, root, f);
      if table.None? then None
      else Some(if table.value == frame && i == index then value else Read(w, table.value, i))
  }

  /** The entry that `s` names lies in entry `index` of host frame `frame`. */
  predicate LiesAt(w: Words, root: nat, s: Slot, frame: nat, index: nat) {
    EptWalk(w, root, s.table) == Some(frame) && s.index == index
  }

  /** A store of `value` there sends `page` elsewhere, or nowhere: the host's walk of the L1 walk, with the
      value in place, is another one. */
  predicate Redirects(w: Words, root: nat, top: nat, frame: nat, index: nat, value: Word, page: nat) {
    var l1page := NestedWalk(Stored(w, root, frame, index, value), top, page);
    (if l1page.None? then None else EptWalk(w, root, l1page.value)) != Composite(w, root, top, page)
  }

  /** A store that leaves the host's tables alone changes exactly the composites it redirects. */
  lemma RedirectsExactly(w: Words, w': Words, root: nat, top: nat, frame: nat, index: nat, value: Word, page: nat)
    requires w' == w[Slot(frame, index) := value]
    requires forall q: nat :: EptWalk(w', root, q) == EptWalk(w, root, q)
    ensures Composite(w', root, top, page) != Composite(w, root, top, page) <==>
      Redirects(w, root, top, frame, index, value, page)
  {
    var entry, entry' := Stored(w, root, frame, index, value), L1Entries(w', root);
    hide EptWalk;
    forall f: nat, i: nat ensures entry'(f, i) == entry(f, i) {
      assert entry'(f, i) == L1Entry(w', root, f, i);
    }
    WalksOfEqualEntries(entry, entry', top, page, PERMISSIONS);
  }

  /** A page is not redirected by a store it is not walked through, nor by one of an entry alike. */
  lemma SparedPage(w: Words, root: nat, top: nat, frame: nat, index: nat, value: Word, page: nat)
    requires Composite(w, root, top, page).Some?
    requires Alike(Read(w, frame, index), value)
      || forall s :: s in NestedReads(L1Entries(w, root), top, page) ==> !LiesAt(w, root, s, frame, index)
    ensures !Redirects(w, root, top, frame, index, value, page)
  {
    var entry, entry' := L1Entries(w, root), Stored(w, root, frame, index, value);
    hide EptWalk;
    hide Alike;
    forall s | s in NestedReads(entry, top, page)
      ensures entry'(s.table, s.index) == entry(s.table, s.index) || (
        entry(s.table, s.index).Some? && entry'(s.table, s.index).Some?
        && Alike(entry(s.table, s.index).value, entry'(s.table, s.index).value))
    {
      NestedReadsSucceed(entry, top, page, s);
      assert entry(s.table, s.index) == L1Entry(w, root, s.table, s.index);
    }
    hide NestedReads;
    hide NestedWalk;
    NestedWalkSurvives(entry, entry', top, page);
  }

  /** An entry that is no longer present redirects every page walked through it. */
  lemma AbsentEntryRedirects(w: Words, root: nat, top: nat, frame: nat, index: nat, value: Word, page: nat, s: Slot)
    requires Composite(w, root, top, page).Some? && !Present(value, PERMISSIONS)
    requires s in NestedReads(L1Entries(w, root), top, page) && LiesAt(w, root, s, frame, index)
    ensures Redirects(w, root, top, frame, index, value, page)
  {
    var entry, entry' := L1Entries(w, root), Stored(w, root, frame, index, value);
    hide EptWalk;
    assert forall f: nat, i: nat :: entry(f, i) == L1Entry(w, root, f, i);
    assert forall f: nat, i: nat :: entry'(f, i) == entry(f, i) || (entry'(f, i).Some? && entry'(f, i).value == value);
    assert entry'(s.table, s.index) == Some(value);
    AbsentEntryEndsWalk(entry, entry', top, page, value, s);
  }

  lemma AbsentEntryEndsWalk(entry: Entries, entry': Entries, top: nat, page: nat, value: Word, s: Slot)
    requires !Present(value, PERMISSIONS) && s in NestedReads(entry, top, page)
    requires entry'(s.table, s.index) == Some(value)
    requires forall f: nat, i: nat :: entry'(f, i) == entry(f, i) || entry'(f, i) == Some(value)
    ensures NestedWalk(entry', top, page).None?
  {
  }

  /** The entries above the lowest table that the walk of a page reads. */
  function UpperReads(entry: Entries, top: nat, page: nat): set<Slot> {
    var pml4e := entry(top, Pml4Index(page));
    if !Usable(pml4e, PERMISSIONS) then {} else
    var pdpte := entry(pml4e.value.frame, PdptIndex(page));
    if !Usable(pdpte, PERMISSIONS) then {} else
    {Slot(top, Pml4Index(page)), Slot(pml4e.value.frame, PdptIndex(page)), Slot(pdpte.value.frame, PdIndex(page))}
  }

  /** The lowest-level entry the walk of a page reads, if it comes so far. */
  function LowestRead(entry: Entries, top: nat, page: nat): Option<Slot> {
    var pml4e := entry(top, Pml4Index(page));
    if !Usable(pml4e, PERMISSIONS) then None else
    var pdpte := entry(pml4e.value.frame, PdptIndex(page));
    if !Usable(pdpte, PERMISSIONS) || pdpte.value.flags & LARGE_PAGE != 0 then None else
    var pde := entry(pdpte.value.frame, PdIndex(page));
    if !Usable(pde, PERMISSIONS) || pde.value.flags & LARGE_PAGE != 0 then None else
    Some(Slot(pde.value.frame, PtIndex(page)))
  }

  /** A store to the lowest-level entry of a page spares it exactly if the new entry is present and the host
      maps the L1 page it names like the one before. */
  lemma LowestEntryRedirects(w: Words, root: nat, top: nat, frame: nat, index: nat, value: Word, page: nat)
    requires Composite(w, root, top, page).Some?
    requires var last := LowestRead(L1Entries(w, root), top, page);
      last.Some? && LiesAt(w, root, last.value, frame, index)
    requires forall s :: s in UpperReads(L1Entries(w, root), top, page) ==> !LiesAt(w, root, s, frame, index)
    ensures !Redirects(w, root, top, frame, index, value, page) <==>
      Present(value, PERMISSIONS) && EptWalk(w, root, value.frame) == EptWalk(w, root, Read(w, frame, index).frame)
  {
    var entry, entry' := L1Entries(w, root), Stored(w, root, frame, index, value);
    hide EptWalk;
    assert forall f: nat, i: nat :: entry(f, i) == L1Entry(w, root, f, i);
    var last := LowestRead(entry, top, page).value;
    assert entry(last.table, last.index) == Some(Read(w, frame, index));
    var above := UpperReads(entry, top, page);
    assert forall s :: s in above ==> entry'(s.table, s.index) == entry(s.table, s.index);
    LastEntryDecides(entry, entry', top, page);
  }

  lemma LastEntryDecides(entry: Entries, entry': Entries, top: nat, page: nat)
    requires LowestRead(entry, top, page).Some?
    requires forall s :: s in UpperReads(entry, top, page) ==> entry'(s.table, s.index) == entry(s.table, s.index)
    ensures var last := LowestRead(entry, top, page).value;
      && NestedWalk(entry, top, page) == (if Usable(entry(last.table, last.index), PERMISSIONS)
        then Some(entry(last.table, last.index).value.frame) else None)
      && NestedWalk(entry', top, page) == if Usable(entry'(last.table, last.index), PERMISSIONS)
        then Some(entry'(last.table, last.index).value.frame) else None
  {
    var above := UpperReads(entry, top, page);
    var pml4e := entry(top, Pml4Index(page)).value;
    var pdpte := entry(pml4e.frame, PdptIndex(page)).value;
    assert Slot(top, Pml4Index(page)) in above && Slot(pml4e.frame, PdptIndex(page)) in above;
    assert Slot(pdpte.frame, PdIndex(page)) in above;
  }

  /** What all entries on the way of a walk permit together, of reading, writing and executing. */
  function PermittedBy(entry: Entries, top: nat, page: nat): bv12 {
    var pml4e := entry(top, Pml4Index(page));
    if pml4e.None? then 0 else
    var pdpte := entry(pml4e.value.frame, PdptIndex(page));
    if pdpte.None? then 0 else
    var upper := pml4e.value.flags & pdpte.value.flags & PERMISSIONS;
    if pdpte.value.flags & LARGE_PAGE != 0 then upper else
    var pde := entry(pdpte.value.frame, PdIndex(page));
    if pde.None? then 0 else
    if pde.value.flags & LARGE_PAGE != 0 then upper & pde.value.flags else
    var pte := entry(pde.value.frame, PtIndex(page));
    if pte.None? then 0 else upper & pde.value.flags & pte.value.flags
  }

  /** No entry on the way of a walk lacks one of the permissions. */
  ghost predicate EveryEntryGrants(entry: Entries, top: nat, page: nat) {
    forall s :: s in NestedReads(entry, top, page) ==>
      entry(s.table, s.index).Some? && Grants(entry(s.table, s.index).value, PERMISSIONS)
  }

  /** Everything is permitted exactly if no entry on the way lacks a permission. */
  lemma AllPermittedExactly(entry: Entries, top: nat, page: nat)
    requires NestedWalk(entry, top, page).Some?
    ensures PermittedBy(entry, top, page) == PERMISSIONS <==> EveryEntryGrants(entry, top, page)
  {
    var walked := NestedReads(entry, top, page);
    var pml4e := entry(top, Pml4Index(page)).value;
    var pdpte := entry(pml4e.frame, PdptIndex(page)).value;
    assert Slot(top, Pml4Index(page)) in walked && Slot(pml4e.frame, PdptIndex(page)) in walked;
    if pdpte.flags & LARGE_PAGE != 0 {
      MeetOfThree(pml4e.flags, pdpte.flags, PERMISSIONS, PERMISSIONS);
    } else {
      var pde := entry(pdpte.frame, PdIndex(page)).value;
      assert Slot(pdpte.frame, PdIndex(page)) in walked;
      if pde.flags & LARGE_PAGE != 0 {
        MeetOfThree(pml4e.flags, pdpte.flags, pde.flags, PERMISSIONS);
      } else {
        assert Slot(pde.frame, PtIndex(page)) in walked;
        MeetOfThree(pml4e.flags, pdpte.flags, pde.flags, entry(pde.frame, PtIndex(page)).value.flags);
      }
    }
  }

  /** The entries of tables that are read directly. */
  function OwnEntries(w: Words): Entries {
    (table: nat, index: nat) => Some(Read(w, table, index))
  }

  /** A tree of the kernel's own permits what its lowest-level entry permits. */
  lemma TreePermits(w: Words, root: nat, owner: Owner, page: nat)
    requires Tree(w, root, owner, PERMISSIONS) && Leaf(w, root, page) != EMPTY
    ensures PermittedBy(OwnEntries(w), root, page) == Leaf(w, root, page).flags & PERMISSIONS
  {
    var e1 := Read(w, root, Pml4Index(page));
    assert Link(owner, root, Pml4Index(page), e1, PERMISSIONS);
    var e2 := Read(w, e1.frame, PdptIndex(page));
    assert Link(owner, e1.frame, PdptIndex(page), e2, PERMISSIONS);
    var e3 := Read(w, e2.frame, PdIndex(page));
    assert Link(owner, e2.frame, PdIndex(page), e3, PERMISSIONS);
    MeetOfGrants(e1.flags, e2.flags, e3.flags, Leaf(w, root, page).flags);
  }

  /** A page mapped with the attributes all callers use permits everything, and is write-back memory. */
  lemma MappedPermits(w: Words, root: nat, owner: Owner, page: nat, frame: nat, was: Word)
    requires Tree(w, root, owner, PERMISSIONS)
    requires Leaf(w, root, page) == LeafAfter(was, true, frame * 0x1000, GUEST_ATTRIBUTES)
    ensures PermittedBy(OwnEntries(w), root, page) == 0x7 && Leaf(w, root, page).flags & 0x38 == 0x30
  {
    FrameAddress(frame);
    AlignedLowBits(frame * 0x1000);
    TreePermits(w, root, owner, page);
  }

  lemma MeetOfGrants(a: bv12, b: bv12, c: bv12, d: bv12)
    requires a & PERMISSIONS == PERMISSIONS && b & PERMISSIONS == PERMISSIONS && c & PERMISSIONS == PERMISSIONS
    ensures a & b & PERMISSIONS & c & d == d & PERMISSIONS
  {
  }

  lemma MeetOfThree(a: bv12, b: bv12, c: bv12, d: bv12)
    ensures a & b & PERMISSIONS & c & d == PERMISSIONS <==>
      a & PERMISSIONS == PERMISSIONS && b & PERMISSIONS == PERMISSIONS
      && c & PERMISSIONS == PERMISSIONS && d & PERMISSIONS == PERMISSIONS
    ensures a & b & PERMISSIONS & c & PERMISSIONS == a & b & PERMISSIONS & c
    ensures a & b & PERMISSIONS & PERMISSIONS & PERMISSIONS == a & b & PERMISSIONS
  {
  }

  /** Every entry a successful walk reads is there to be read. */
  lemma NestedReadsSucceed(entry: Entries, top: nat, page: nat, s: Slot)
    requires NestedWalk(entry, top, page).Some? && s in NestedReads(entry, top, page)
    ensures entry(s.table, s.index).Some?
  {
  }

  /** A composite translation survives any change of memory that only adds host translations and
      leaves the L1 entries it reads alone. */
  lemma CompositeSurvives(w: Words, w': Words, root: nat, top: nat, page: nat)
    requires Composite(w, root, top, page).Some?
    requires forall g: nat :: EptWalk(w, root, g).Some? ==> EptWalk(w', root, g) == EptWalk(w, root, g)
    requires forall s :: s in NestedReads(L1Entries(w, root), top, page) ==>
      var table := EptWalk(w, root, s.table);
      table.Some? ==> Read(w', table.value, s.index) == Read(w, table.value, s.index)
    ensures Composite(w', root, top, page) == Composite(w, root, top, page)
  {
    var entry, entry' := L1Entries(w, root), L1Entries(w', root);
    forall s | s in NestedReads(entry, top, page) ensures entry'(s.table, s.index) == entry(s.table, s.index) {
      NestedReadsSucceed(entry, top, page, s);
      assert entry(s.table, s.index) == L1Entry(w, root, s.table, s.index);
      assert entry'(s.table, s.index) == L1Entry(w', root, s.table, s.index);
    }
    NestedWalkSurvives(entry, entry', top, page);
  }
}
