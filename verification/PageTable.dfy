/** Four-level page tables in physical memory, as the extended page tables of a virtual machine
    (arch/x86_64/kvm/vmx) and the kernel's own tables (arch/x86_64/mm) use them.

    A 64-bit word is kept as its page frame number and its twelve flag bits, which lose nothing:
    `PT_ENTRY_ADDR` is the frame, and or-ing attribute bits touches the flags. */
module PageTable {
  import opened Wrappers

  datatype Word = Word(frame: nat, flags: bv12)

  /** Entry `index` of the table that fills page frame `table`. */
  datatype Slot = Slot(table: nat, index: nat)

  /** The words of physical memory; a word not listed is zero. */
  type Words = map<Slot, Word>

  const EMPTY: Word := Word(0, 0)
  const LARGE_PAGE: bv12 := 0x80

  function Read(w: Words, table: nat, index: nat): Word {
    if Slot(table, index) in w then w[Slot(table, index)] else EMPTY
  }

  /** `memset` of one page frame to zero. */
  function ZeroPage(w: Words, table: nat): Words {
    map s | s in w && s.table != table :: w[s]
  }

  /** The table indices of a page number, from the top level down. */
  function Pml4Index(page: nat): nat { page / 0x800_0000 % 0x200 }
  function PdptIndex(page: nat): nat { page / 0x4_0000 % 0x200 }
  function PdIndex(page: nat): nat { page / 0x200 % 0x200 }
  function PtIndex(page: nat): nat { page % 0x200 }

  /** The indices that lead to the lowest table of a page. */
  function PathTo(page: nat): seq<nat> { [Pml4Index(page), PdptIndex(page), PdIndex(page)] }

  /** Translation looks at 48 address bits, so page numbers count modulo 2 to the 36. */
  predicate SamePage(p: nat, q: nat) { p % 0x10_0000_0000 == q % 0x10_0000_0000 }

  lemma IndicesNamePage(p: nat, q: nat)
    ensures SamePage(p, q) <==> PathTo(p) == PathTo(q) && PtIndex(p) == PtIndex(q)
  {
    Recompose(p);
    Recompose(q);
    if SamePage(p, q) {
      Decompose(q, Pml4Index(p), PdptIndex(p), PdIndex(p), PtIndex(p), q / 0x10_0000_0000);
    }
  }

  /** A page number below 2 to the 36 is made of its four indices. */
  lemma Recompose(p: nat)
    ensures p == 0x800_0000 * Pml4Index(p) + 0x4_0000 * PdptIndex(p) + 0x200 * PdIndex(p) + PtIndex(p)
              + 0x10_0000_0000 * (p / 0x10_0000_0000)
  {
    Div18(p);
    Div27(p);
    Div36(p);
  }

  lemma Div18(p: nat)
    ensures p / 0x200 / 0x200 == p / 0x4_0000
  {
  }

  lemma Div27(p: nat)
    ensures p / 0x4_0000 / 0x200 == p / 0x800_0000
  {
  }

  lemma Div36(p: nat)
    ensures p / 0x800_0000 / 0x200 == p / 0x10_0000_0000
  {
  }

  lemma Decompose(p: nat, i1: nat, i2: nat, i3: nat, i4: nat, k: nat)
    requires i1 < 0x200 && i2 < 0x200 && i3 < 0x200 && i4 < 0x200
    requires p == 0x800_0000 * i1 + 0x4_0000 * i2 + 0x200 * i3 + i4 + 0x10_0000_0000 * k
    ensures PathTo(p) == [i1, i2, i3] && PtIndex(p) == i4
  {
    var a := i3 + 0x200 * i2 + 0x4_0000 * i1 + 0x800_0000 * k;
    var b := i2 + 0x200 * i1 + 0x4_0000 * k;
    SplitLow(a, i4);
    SplitLow(b, i3);
    SplitLow(i1 + 0x200 * k, i2);
    SplitLow(k, i1);
    Div18(p);
    Div27(p);
  }

  lemma SplitLow(high: nat, low: nat)
    requires low < 0x200
    ensures (0x200 * high + low) / 0x200 == high && (0x200 * high + low) % 0x200 == low
  {
  }

  /** Which page frames hold the tables of a tree, each with the indices that lead to it. */
  type Owner = map<nat, seq<nat>>

  /** The entry has all of the bits `present`. */
  predicate Grants(e: Word, present: bv12) { present != 0 && e.flags & present == present }

  lemma GrantedIsPresent(e: Word, present: bv12)
    requires Grants(e, present)
    ensures Present(e, present)
  {
  }

  /** What an upper-level entry may be: empty, or a link to the table below that grants everything, not a
      large page. */
  ghost predicate Link(owner: Owner, table: nat, index: nat, e: Word, present: bv12)
    requires table in owner
  {
    e == EMPTY ||
    (e.frame in owner && owner[e.frame] == owner[table] + [index]
     && Grants(e, present) && e.flags & LARGE_PAGE == 0)
  }

  /** `owner` describes a well-formed tree at `root`: no table is linked twice, and no large leaves.
      `present` are the flag bits that every linked entry has. */
  ghost predicate Tree(w: Words, root: nat, owner: Owner, present: bv12) {
    && root in owner && owner[root] == []
    && (forall f :: f in owner ==> |owner[f]| <= 3)
    && (forall f, i :: f in owner && |owner[f]| < 3 && 0 <= i < 0x200 ==> Link(owner, f, i, Read(w, f, i), present))
  }

  predicate Present(e: Word, present: bv12) { e.flags & present != 0 }

  /** The processor's walk: the frame of a page, through large pages too. An entry is present when it
      has one of the bits `present`: bit 0 for ordinary paging (Intel SDM Vol. 3A, section 4.5), any of
      the read, write and execute bits for extended paging (Vol. 3C, section 28.2.2). */
  function Walk(w: Words, root: nat, page: nat, present: bv12): Option<nat> {
    var pml4e := Read(w, root, Pml4Index(page));
    if !Present(pml4e, present) then None else
    var pdpte := Read(w, pml4e.frame, PdptIndex(page));
    if !Present(pdpte, present) then None else
    if pdpte.flags & LARGE_PAGE != 0 then Some(pdpte.frame / 0x4_0000 * 0x4_0000 + page % 0x4_0000) else
    var pde := Read(w, pdpte.frame, PdIndex(page));
    if !Present(pde, present) then None else
    if pde.flags & LARGE_PAGE != 0 then Some(pde.frame / 0x200 * 0x200 + page % 0x200) else
    var pte := Read(w, pde.frame, PtIndex(page));
    if !Present(pte, present) then None else Some(pte.frame)
  }

  /** The lowest-level entry of a page, `EMPTY` where a table is missing. */
  function Leaf(w: Words, root: nat, page: nat): Word {
    var pml4e := Read(w, root, Pml4Index(page));
    if pml4e == EMPTY then EMPTY else
    var pdpte := Read(w, pml4e.frame, PdptIndex(page));
    if pdpte == EMPTY then EMPTY else
    var pde := Read(w, pdpte.frame, PdIndex(page));
    if pde == EMPTY then EMPTY else
    Read(w, pde.frame, PtIndex(page))
  }

  /** In a well-formed tree the processor reads the lowest-level entry. */
  lemma WalkIsLeaf(w: Words, root: nat, owner: Owner, present: bv12, page: nat)
    requires Tree(w, root, owner, present)
    ensures Walk(w, root, page, present) ==
      if Present(Leaf(w, root, page), present) then Some(Leaf(w, root, page).frame) else None
  {
    hide Pml4Index;
    hide PdptIndex;
    hide PdIndex;
    hide PtIndex;
    hide Grants;
    IndicesInRange(page);
    forall e: Word | Grants(e, present) ensures Present(e, present) {
      GrantedIsPresent(e, present);
    }
    var e1 := Read(w, root, Pml4Index(page));
    assert Link(owner, root, Pml4Index(page), e1, present);
    if e1 != EMPTY {
      var e2 := Read(w, e1.frame, PdptIndex(page));
      assert Link(owner, e1.frame, PdptIndex(page), e2, present);
      if e2 != EMPTY {
        assert Link(owner, e2.frame, PdIndex(page), Read(w, e2.frame, PdIndex(page)), present);
      }
    }
  }

  lemma IndicesInRange(page: nat)
    ensures Pml4Index(page) < 0x200 && PdptIndex(page) < 0x200 && PdIndex(page) < 0x200 && PtIndex(page) < 0x200
  {
  }

  /** A tree whose links grant more grants less, too. */
  lemma TreeWeakens(w: Words, root: nat, owner: Owner, all: bv12, some: bv12)
    requires Tree(w, root, owner, all) && some != 0 && all & some == some
    ensures Tree(w, root, owner, some)
  {
    hide Grants;
    forall g, j | g in owner && |owner[g]| < 3 && 0 <= j < 0x200
      ensures Link(owner, g, j, Read(w, g, j), some)
    {
      assert Link(owner, g, j, Read(w, g, j), all);
      if Read(w, g, j) != EMPTY {
        GrantsWeaken(Read(w, g, j), all, some);
      }
    }
  }

  lemma GrantsWeaken(e: Word, all: bv12, some: bv12)
    requires Grants(e, all) && some != 0 && all & some == some
    ensures Grants(e, some)
  {
    assert e.flags & (all & some) == (e.flags & all) & some;
  }

  lemma RootInTree(w: Words, root: nat, owner: Owner, present: bv12)
    requires Tree(w, root, owner, present)
    ensures root in owner && owner[root] == []
  {
  }

  /** No two slots of a tree link the same table. */
  lemma NoSharing(w: Words, root: nat, owner: Owner, present: bv12, f: nat, i: nat, g: nat, j: nat)
    requires Tree(w, root, owner, present)
    requires f in owner && |owner[f]| < 3 && i < 0x200 && g in owner && |owner[g]| < 3 && j < 0x200
    requires Read(w, f, i) != EMPTY && Read(w, f, i).frame == Read(w, g, j).frame && Read(w, g, j) != EMPTY
    ensures owner[f] == owner[g] && i == j
  {
    assert Link(owner, f, i, Read(w, f, i), present) && Link(owner, g, j, Read(w, g, j), present);
    var p := owner[Read(w, f, i).frame];
    assert owner[f] == p[..|p| - 1] && owner[g] == p[..|p| - 1] && i == p[|p| - 1] && j == p[|p| - 1];
  }

  /** Linking a fresh, zeroed table into an empty slot changes no translation. */
  lemma AddTable(w: Words, root: nat, owner: Owner, present: bv12, f: nat, i: nat, e: Word)
    requires Tree(w, root, owner, present)
    requires f in owner && |owner[f]| < 3 && i < 0x200 && Read(w, f, i) == EMPTY
    requires e.frame !in owner && Grants(e, present) && e.flags & LARGE_PAGE == 0
    ensures var w' := ZeroPage(w, e.frame)[Slot(f, i) := e];
      && Tree(w', root, owner[e.frame := owner[f] + [i]], present)
      && forall q: nat :: Leaf(w', root, q) == Leaf(w, root, q)
  {
    var w' := ZeroPage(w, e.frame)[Slot(f, i) := e];
    var owner' := owner[e.frame := owner[f] + [i]];
    assert forall g, j :: g in owner ==> Read(w', g, j) == if g == f && j == i then e else Read(w, g, j);
    assert forall j :: Read(w', e.frame, j) == EMPTY;
    forall g, j | g in owner' && |owner'[g]| < 3 && 0 <= j < 0x200
      ensures Link(owner', g, j, Read(w', g, j), present)
    {
      if g in owner {
        assert Link(owner, g, j, Read(w, g, j), present);
      }
    }
    forall q: nat ensures Leaf(w', root, q) == Leaf(w, root, q) {
      LeafAfterAddTable(w, root, owner, present, f, i, e, q);
    }
  }

  lemma LeafAfterAddTable(w: Words, root: nat, owner: Owner, present: bv12, f: nat, i: nat, e: Word, q: nat)
    requires Tree(w, root, owner, present)
    requires f in owner && i < 0x200 && Read(w, f, i) == EMPTY && |owner[f]| < 3
    requires e.frame !in owner
    ensures Leaf(ZeroPage(w, e.frame)[Slot(f, i) := e], root, q) == Leaf(w, root, q)
  {
    var w' := ZeroPage(w, e.frame)[Slot(f, i) := e];
    assert forall g, j :: g in owner ==> Read(w', g, j) == if g == f && j == i then e else Read(w, g, j);
    assert forall j :: Read(w', e.frame, j) == EMPTY;
    TablesOnPath(w, root, owner, present, q);
  }

  /** The tables met on the way to `q` carry the prefixes of its path. */
  lemma TablesOnPath(w: Words, root: nat, owner: Owner, present: bv12, q: nat)
    requires Tree(w, root, owner, present)
    ensures var e1 := Read(w, root, Pml4Index(q)); e1 != EMPTY ==>
      && e1.frame in owner && owner[e1.frame] == PathTo(q)[..1]
      && var e2 := Read(w, e1.frame, PdptIndex(q)); e2 != EMPTY ==>
        && e2.frame in owner && owner[e2.frame] == PathTo(q)[..2]
        && var e3 := Read(w, e2.frame, PdIndex(q)); e3 != EMPTY ==>
          e3.frame in owner && owner[e3.frame] == PathTo(q)
  {
    var e1 := Read(w, root, Pml4Index(q));
    assert Link(owner, root, Pml4Index(q), e1, present);
    if e1 != EMPTY {
      var e2 := Read(w, e1.frame, PdptIndex(q));
      assert Link(owner, e1.frame, PdptIndex(q), e2, present);
      if e2 != EMPTY {
        var e3 := Read(w, e2.frame, PdIndex(q));
        assert Link(owner, e2.frame, PdIndex(q), e3, present);
      }
    }
  }

  /** The lowest table of a page is in place. */
  ghost predicate Reaches(w: Words, root: nat, page: nat, table: nat) {
    var e1 := Read(w, root, Pml4Index(page));
    var e2 := Read(w, e1.frame, PdptIndex(page));
    var e3 := Read(w, e2.frame, PdIndex(page));
    e1 != EMPTY && e2 != EMPTY && e3 != EMPTY && e3.frame == table
  }

  /** Writing a lowest-level entry changes the translation of its own page only. */
  lemma SetLeaf(w: Words, root: nat, owner: Owner, present: bv12, page: nat, table: nat, e: Word)
    requires Tree(w, root, owner, present) && Reaches(w, root, page, table)
    ensures var w' := w[Slot(table, PtIndex(page)) := e];
      && Tree(w', root, owner, present)
      && forall q: nat :: Leaf(w', root, q) == if SamePage(page, q) then e else Leaf(w, root, q)
  {
    var w' := w[Slot(table, PtIndex(page)) := e];
    TablesOnPath(w, root, owner, present, page);
    assert owner[table] == PathTo(page);
    assert forall g, j :: Read(w', g, j) == if g == table && j == PtIndex(page) then e else Read(w, g, j);
    forall g, j | g in owner && |owner[g]| < 3 && 0 <= j < 0x200
      ensures Link(owner, g, j, Read(w', g, j), present)
    {
      assert Link(owner, g, j, Read(w, g, j), present);
    }
    forall q: nat ensures Leaf(w', root, q) == if SamePage(page, q) then e else Leaf(w, root, q) {
      TablesOnPath(w, root, owner, present, q);
      IndicesNamePage(page, q);
    }
  }

  /** A tree lives in the words of its own tables alone. */
  lemma TreeFrame(w: Words, w': Words, root: nat, owner: Owner, present: bv12)
    requires Tree(w, root, owner, present)
    requires forall t, i :: t in owner ==> Read(w', t, i) == Read(w, t, i)
    ensures Tree(w', root, owner, present)
    ensures forall q: nat :: Leaf(w', root, q) == Leaf(w, root, q)
  {
    forall g, j | g in owner && |owner[g]| < 3 && 0 <= j < 0x200
      ensures Link(owner, g, j, Read(w', g, j), present)
    {
      assert Link(owner, g, j, Read(w, g, j), present);
    }
    forall q: nat ensures Leaf(w', root, q) == Leaf(w, root, q) {
      TablesOnPath(w, root, owner, present, q);
    }
  }

  /** A zeroed page is the root of an empty tree. */
  lemma EmptyTree(w: Words, root: nat, present: bv12)
    requires forall i :: Read(w, root, i) == EMPTY
    ensures Tree(w, root, map[root := []], present)
    ensures forall q: nat :: Leaf(w, root, q) == EMPTY
  {
  }
}
