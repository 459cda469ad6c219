/** Extended page tables (arch/x86_64/kvm/vmx/vmx.c and mmu.c): mapping a guest page, walking the
    tables in software, and mapping a guest's memory. Addresses are split into page number and
    offset: page `a / 4096`, offset `a % 4096`. Table frames come from the boot allocator. */
module Ept {
  import opened Wrappers
  import opened BootMemory
  import opened PageTable

  const PERMISSIONS: bv12 := 0x7        // read, write, execute
  const TABLE_ATTRIBUTES: bv12 := 0x107 // read, write, execute, accessed
  const GUEST_ATTRIBUTES: bv12 := 0x37  // read, write, execute, write-back

  class PhysMem {
    var words: Words
    constructor ()
      ensures words == map[]
    {
      words := map[];
    }
  }

  function LowBits(a: nat): bv12 { (a % 0x1000) as bv12 }

  /** `hpa | attribute` as a table entry. */
  function Entry(hpa: nat, attribute: bv12): Word { Word(hpa / 0x1000, LowBits(hpa) | attribute) }

  predicate Permits(e: Word) { Present(e, PERMISSIONS) }

  /** The software walk, large pages included: the host frame of a guest page. As in the source, the
      base of a 2 MB page is taken from the entry one level above its own. */
  function EptWalk(w: Words, root: nat, page: nat): Option<nat> {
    var pml4e := Read(w, root, Pml4Index(page));
    if !Permits(pml4e) then None else
    var pdpte := Read(w, pml4e.frame, PdptIndex(page));
    if !Permits(pdpte) then None else
    if pdpte.flags & LARGE_PAGE != 0 then Some(pdpte.frame / 0x4_0000 * 0x4_0000 + page % 0x4_0000) else
    var pde := Read(w, pdpte.frame, PdIndex(page));
    if !Permits(pde) then None else
    if pde.flags & LARGE_PAGE != 0 then Some(pdpte.frame / 0x200 * 0x200 + page % 0x200) else
    var pte := Read(w, pde.frame, PtIndex(page));
    if !Permits(pte) then None else Some(pte.frame)
  }

  /** The walk ends at a 2 MB page whose own base and whose directory's base differ. */
  predicate MisreadsLargePage(w: Words, root: nat, page: nat) {
    var pml4e := Read(w, root, Pml4Index(page));
    var pdpte := Read(w, pml4e.frame, PdptIndex(page));
    var pde := Read(w, pdpte.frame, PdIndex(page));
    && Permits(pml4e) && Permits(pdpte) && pdpte.flags & LARGE_PAGE == 0
    && Permits(pde) && pde.flags & LARGE_PAGE != 0 && pde.frame / 0x200 != pdpte.frame / 0x200
  }

  /** Software and hardware agree exactly off the misread 2 MB pages. */
  lemma WalkAgreesWithHardware(w: Words, root: nat, page: nat)
    ensures EptWalk(w, root, page) == Walk(w, root, page, PERMISSIONS) <==> !MisreadsLargePage(w, root, page)
  {
  }

  /** A 2 MB page the software walk gets wrong. */
  lemma WalkMisreads2M()
    ensures var w := map[Slot(1, 0) := Word(2, 0x107), Slot(2, 0) := Word(3, 0x107), Slot(3, 0) := Word(0x400, 0xb7)];
      Walk(w, 1, 1, PERMISSIONS) == Some(0x401) && EptWalk(w, 1, 1) == Some(1)
  {
    var w: Words := map[Slot(1, 0) := Word(2, 0x107), Slot(2, 0) := Word(3, 0x107), Slot(3, 0) := Word(0x400, 0xb7)];
    assert Read(w, 1, 0) == Word(2, 0x107) && Read(w, 2, 0) == Word(3, 0x107) && Read(w, 3, 0) == Word(0x400, 0xb7);
  }

  /** `ept_gpa_to_hpa`: the frame of the page plus the offset in the page. */
  function EptGpaToHpa(w: Words, root: nat, gpa: nat): Option<nat> {
    var frame := EptWalk(w, root, gpa / 0x1000);
    if frame.None? then None else Some(frame.value * 0x1000 + gpa % 0x1000)
  }

  /** What a lowest-level entry translates its page to. */
  function Target(e: Word): Option<nat> {
    if Permits(e) then Some(e.frame) else None
  }

  /** In a well-formed tree without large pages, both walks read the lowest-level entry. */
  lemma WalkReadsLeaf(w: Words, root: nat, owner: Owner, page: nat)
    requires Tree(w, root, owner, PERMISSIONS)
    ensures EptWalk(w, root, page) == Target(Leaf(w, root, page)) == Walk(w, root, page, PERMISSIONS)
  {
    var e1 := Read(w, root, Pml4Index(page));
    assert Link(owner, root, Pml4Index(page), e1, PERMISSIONS);
    if e1 != EMPTY {
      var e2 := Read(w, e1.frame, PdptIndex(page));
      assert Link(owner, e1.frame, PdptIndex(page), e2, PERMISSIONS);
      if e2 != EMPTY {
        assert Link(owner, e2.frame, PdIndex(page), Read(w, e2.frame, PdIndex(page)), PERMISSIONS);
      }
    }
  }

  /** A lowest-level entry after it was, or was not, overwritten. */
  function LeafAfter(e: Word, mapped: bool, hpa: nat, attribute: bv12): Word {
    if mapped then Entry(hpa, attribute) else e
  }

  /** All tables of a tree are in frames the allocator has handed out. */
  ghost predicate Backed(heap: Bootmem, owner: Owner)
    reads heap.bitmap
  {
    forall f :: f in owner ==> heap.Used(f)
  }

  /** From `w` to `w'` the tables `owner` became `owner'`: frames were added that were free, which are all the
      allocator has handed out in between, and words outside the tables are as before. */
  ghost predicate Grown(w: Words, w': Words, used: iset<nat>, used': iset<nat>, owner: Owner, owner': Owner) {
    && (forall f :: f in owner ==> f in owner' && owner'[f] == owner[f])
    && (forall f :: f in owner' && f !in owner ==> f !in used)
    && (forall f :: f in used' <==> f in used || f in owner')
    && (forall t, i :: t !in owner' ==> Read(w', t, i) == Read(w, t, i))
  }

  lemma NothingGrown(w: Words, used: iset<nat>, owner: Owner)
    requires forall f :: f in owner ==> f in used
    ensures Grown(w, w, used, used, owner, owner)
  {
  }

  lemma GrownInTwo(w: Words, v: Words, w': Words, used: iset<nat>, usedThen: iset<nat>, used': iset<nat>,
                   owner: Owner, ownerThen: Owner, owner': Owner)
    requires Grown(w, v, used, usedThen, owner, ownerThen) && Grown(v, w', usedThen, used', ownerThen, owner')
    ensures Grown(w, w', used, used', owner, owner')
  {
  }

  /** `kmalloc(0x1000)`: a page frame that was free before. */
  method NewPage(heap: Bootmem) returns (frame: Option<nat>)
    requires heap.Valid()
    modifies heap, heap.bitmap
    ensures heap.Valid() && forall p: nat :: heap.Used(p) <==> old(heap.Used(p)) || frame == Some(p)
    ensures frame.Some? ==> !old(heap.Used(frame.value)) && frame.value >= KERNEL_PAGES
    ensures (frame.None? <==> old(heap.Exhausted())) && (frame.None? ==> heap.Exhausted())
  {
    hide Bootmem.Valid;
    var paddr := heap.Alloc(0x1000);
    if paddr.None? {
      return None;
    }
    frame := Some(paddr.value / 0x1000);
    assert Block(paddr.value, 0x1000).Touches(frame.value);
    InsidePage(Block(paddr.value, 0x1000), frame.value);
  }

  /** A page frame that was free before, set to zero. */
  method NewTable(heap: Bootmem, mem: PhysMem) returns (frame: Option<nat>)
    requires heap.Valid()
    modifies heap, heap.bitmap, mem
    ensures heap.Valid() && forall p: nat :: heap.Used(p) <==> old(heap.Used(p)) || frame == Some(p)
    ensures frame.Some? ==> !old(heap.Used(frame.value)) && frame.value >= KERNEL_PAGES
    ensures mem.words == if frame.Some? then ZeroPage(old(mem.words), frame.value) else old(mem.words)
    ensures (frame.None? <==> old(heap.Exhausted())) && (frame.None? ==> heap.Exhausted())
  {
    frame := NewPage(heap);
    if frame.Some? {
      mem.words := ZeroPage(mem.words, frame.value);
    }
  }

  /** One level of the descent: the table that `table[index]` links, made if there is none. No result
      means that the allocator returned NULL, which the source would go on to write through. */
  method EnsureTable(heap: Bootmem, mem: PhysMem, root: nat, ghost owner: Owner, table: nat, index: nat)
    returns (child: Option<nat>, ghost owner': Owner)
    requires heap.Valid() && Tree(mem.words, root, owner, PERMISSIONS) && Backed(heap, owner)
    requires table in owner && |owner[table]| < 3 && index < 0x200
    modifies heap, heap.bitmap, mem
    ensures heap.Valid() && Tree(mem.words, root, owner', PERMISSIONS) && Backed(heap, owner')
    ensures Grown(old(mem.words), mem.words, old(heap.Frames()), heap.Frames(), owner, owner')
    ensures |owner'.Keys| <= |owner.Keys| + 1
    ensures forall f :: f in owner ==> f in owner'
    ensures forall q: nat :: Leaf(mem.words, root, q) == Leaf(old(mem.words), root, q)
    ensures forall t, i :: Read(old(mem.words), t, i) != EMPTY && t in owner ==>
      Read(mem.words, t, i) == Read(old(mem.words), t, i)
    ensures child.Some? ==>
      && Read(mem.words, table, index) != EMPTY && Read(mem.words, table, index).frame == child.value
      && child.value in owner' && owner'[child.value] == owner[table] + [index]
    ensures child.Some? && old(Read(mem.words, table, index)) == EMPTY ==>
      Read(mem.words, table, index) == Word(child.value, 0x107)
    ensures child.None? ==> heap.Exhausted()
  {
    owner' := owner;
    var entry := Read(mem.words, table, index);
    assert Link(owner, table, index, entry, PERMISSIONS);
    hide Tree;
    hide Leaf;
    hide Bootmem.Valid;
    hide Bootmem.Exhausted;
    hide Bootmem.Used;
    if entry == EMPTY {
      child := NewTable(heap, mem);
      if child.None? {
        return;
      }
      var link := Word(child.value, TABLE_ATTRIBUTES);
      AddTable(old(mem.words), root, owner, PERMISSIONS, table, index, link);
      mem.words := mem.words[Slot(table, index) := link];
      owner' := owner[child.value := owner[table] + [index]];
    } else {
      child := Some(entry.frame);
    }
  }

  /** The descent through the three upper levels to the lowest table of a page. */
  method EnsureTables(heap: Bootmem, mem: PhysMem, root: nat, page: nat, ghost owner: Owner)
    returns (pt: Option<nat>, ghost owner': Owner)
    requires heap.Valid() && Tree(mem.words, root, owner, PERMISSIONS) && Backed(heap, owner)
    modifies heap, heap.bitmap, mem
    ensures heap.Valid() && Tree(mem.words, root, owner', PERMISSIONS) && Backed(heap, owner')
    ensures Grown(old(mem.words), mem.words, old(heap.Frames()), heap.Frames(), owner, owner')
    ensures |owner'.Keys| <= |owner.Keys| + 3
    ensures forall q: nat :: Leaf(mem.words, root, q) == Leaf(old(mem.words), root, q)
    ensures pt.Some? ==> Reaches(mem.words, root, page, pt.value)
    ensures pt.None? ==> heap.Exhausted()
  {
    hide Leaf;
    hide Bootmem.Valid;
    hide Bootmem.Exhausted;
    hide Bootmem.Used;
    hide Tree;
    hide Grown;
    hide Pml4Index;
    hide PdptIndex;
    hide PdIndex;
    RootInTree(mem.words, root, owner, PERMISSIONS);
    IndicesInRange(page);
    ghost var w, used := mem.words, heap.Frames();
    var pdpt, pdt;
    pdpt, owner' := EnsureTable(heap, mem, root, owner, root, Pml4Index(page));
    if pdpt.None? { return None, owner'; }
    ghost var w1, used1, owner1 := mem.words, heap.Frames(), owner';
    pdt, owner' := EnsureTable(heap, mem, root, owner', pdpt.value, PdptIndex(page));
    GrownInTwo(w, w1, mem.words, used, used1, heap.Frames(), owner, owner1, owner');
    if pdt.None? { return None, owner'; }
    ghost var w2, used2, owner2 := mem.words, heap.Frames(), owner';
    pt, owner' := EnsureTable(heap, mem, root, owner', pdt.value, PdIndex(page));
    GrownInTwo(w, w2, mem.words, used, used2, heap.Frames(), owner, owner2, owner');
  }

  /** `ept_map_page` for a 4 KB page. */
  method EptMapPage(heap: Bootmem, mem: PhysMem, root: nat, gpa: nat, hpa: nat, attribute: bv12, ghost owner: Owner)
    returns (ok: bool, ghost owner': Owner)
    requires heap.Valid() && Tree(mem.words, root, owner, PERMISSIONS) && Backed(heap, owner)
    modifies heap, heap.bitmap, mem
    ensures heap.Valid() && Tree(mem.words, root, owner', PERMISSIONS) && Backed(heap, owner')
    ensures Grown(old(mem.words), mem.words, old(heap.Frames()), heap.Frames(), owner, owner')
    ensures |owner'.Keys| <= |owner.Keys| + 3
    ensures forall q: nat ::
      Leaf(mem.words, root, q)
        == LeafAfter(Leaf(old(mem.words), root, q), ok && SamePage(gpa / 0x1000, q), hpa, attribute)
    ensures !ok ==> heap.Exhausted() && forall q: nat :: Leaf(mem.words, root, q) == Leaf(old(mem.words), root, q)
  {
    hide Bootmem.Valid;
    hide Bootmem.Exhausted;
    hide Bootmem.Used;
    var pt;
    pt, owner' := EnsureTables(heap, mem, root, gpa / 0x1000, owner);
    ok := pt.Some?;
    if ok {
      SetLeaf(mem.words, root, owner', PERMISSIONS, gpa / 0x1000, pt.value, Entry(hpa, attribute));
      TablesOnPath(mem.words, root, owner', PERMISSIONS, gpa / 0x1000);
      mem.words := mem.words[Slot(pt.value, PtIndex(gpa / 0x1000)) := Entry(hpa, attribute)];
    }
  }

  /** What mapping a page means to the walk: its addresses translate to `hpa` plus the offset, all
      other addresses as before. */
  lemma MappedWalk(was: Words, now: Words, root: nat, owner: Owner, owner': Owner, gpa: nat, hpa: nat,
                   attribute: bv12, x: nat)
    requires Tree(was, root, owner, PERMISSIONS) && Tree(now, root, owner', PERMISSIONS)
    requires forall q: nat ::
      Leaf(now, root, q) == LeafAfter(Leaf(was, root, q), SamePage(gpa / 0x1000, q), hpa, attribute)
    requires attribute & PERMISSIONS != 0 && hpa % 0x1000 == 0
    ensures EptGpaToHpa(now, root, x) ==
      if SamePage(gpa / 0x1000, x / 0x1000) then Some(hpa + x % 0x1000) else EptGpaToHpa(was, root, x)
  {
    WalkReadsLeaf(was, root, owner, x / 0x1000);
    WalkReadsLeaf(now, root, owner', x / 0x1000);
    AlignedLowBits(hpa);
  }

  lemma AlignedLowBits(hpa: nat)
    requires hpa % 0x1000 == 0
    ensures LowBits(hpa) == 0
  {
  }

  /** An entry with the attributes all callers use permits reading, writing and executing (bits 0 to 2), and makes
      the page write-back memory (6 in bits 3 to 5; Intel SDM Vol. 3C, section 28.2.2). */
  lemma GuestEntryFlags(frame: nat)
    ensures Entry(frame * 0x1000, GUEST_ATTRIBUTES).flags & 0x3f == 0x37
  {
    FrameAddress(frame);
    AlignedLowBits(frame * 0x1000);
  }

  lemma FrameAddress(frame: nat)
    ensures frame * 0x1000 % 0x1000 == 0 && frame * 0x1000 / 0x1000 == frame
  {
  }

  /** The same for whole pages, with the attributes all callers use. */
  lemma WalksAfterMap(was: Words, now: Words, root: nat, owner: Owner, owner': Owner, page: nat, frame: nat,
                      mapped: bool)
    requires Tree(was, root, owner, PERMISSIONS) && Tree(now, root, owner', PERMISSIONS)
    requires forall q: nat ::
      Leaf(now, root, q) == LeafAfter(Leaf(was, root, q), mapped && SamePage(page, q), frame * 0x1000, GUEST_ATTRIBUTES)
    ensures forall q: nat ::
      EptWalk(now, root, q) == if mapped && SamePage(page, q) then Some(frame) else EptWalk(was, root, q)
  {
    FrameAddress(frame);
    AlignedLowBits(frame * 0x1000);
    forall q: nat
      ensures EptWalk(now, root, q) == if mapped && SamePage(page, q) then Some(frame) else EptWalk(was, root, q)
    {
      WalkReadsLeaf(was, root, owner, q);
      WalkReadsLeaf(now, root, owner', q);
    }
  }

  /** The host frame depends on 36 bits of the page number. */
  lemma SharedEptWalk(w: Words, root: nat, owner: Owner, p: nat, q: nat)
    requires Tree(w, root, owner, PERMISSIONS) && SamePage(p, q)
    ensures EptWalk(w, root, p) == EptWalk(w, root, q)
  {
    IndicesNamePage(p, q);
    WalkReadsLeaf(w, root, owner, p);
    WalkReadsLeaf(w, root, owner, q);
  }

  /** How many pages `map_guest_memory` maps: its remaining length is signed. */
  function PagesMapped(len: u64): nat {
    if len < U64 / 2 then PagesIn(len) else 0
  }

  /** A length as the signed number that counts what remains. */
  function Signed(len: u64): int { if len < U64 / 2 then len else len - U64 }

  lemma PagesMappedIs(len: u64)
    ensures PagesMapped(len) == if len < 0x8000_0000_0000_0000 then (len + 0xfff) / 0x1000 else 0
  {
  }

  lemma PagesRemain(len: u64, k: nat)
    requires k == 0 || Signed(len) - 0x1000 * k > -0x1000
    ensures Signed(len) - 0x1000 * k > 0 <==> k < PagesMapped(len)
    ensures Signed(len) - 0x1000 * k <= 0 <==> k == PagesMapped(len)
  {
  }

  /** `a += 0x1000` in 64-bit arithmetic. */
  function NextPage(a: u64): u64 { (a + 0x1000) % U64 }

  function Advance(a: u64, n: nat): u64 {
    if n == 0 then a else NextPage(Advance(a, n - 1))
  }

  lemma {:induction false} AdvanceIsSum(a: u64, n: nat)
    ensures Advance(a, n) == (a + 0x1000 * n) % U64
  {
    if n > 0 {
      AdvanceIsSum(a, n - 1);
      AddThenMod(a + 0x1000 * (n - 1), 0x1000);
    }
  }

  lemma AddThenMod(x: nat, y: nat)
    ensures (x % U64 + y) % U64 == (x + y) % U64
  {
  }

  /** The lowest-level entry of page `q` after the first `n` pages of a range were mapped in turn. */
  function RangeLeaf(e: Word, gpa: u64, hpa: u64, attribute: bv12, n: nat, q: nat): Word {
    if n == 0 then e
    else
      LeafAfter(RangeLeaf(e, gpa, hpa, attribute, n - 1, q),
        SamePage(Advance(gpa, n - 1) / 0x1000, q), Advance(hpa, n - 1), attribute)
  }

  /** `map_guest_memory`: the first `k` pages are mapped, which is all of them unless memory runs out. */
  method MapGuestMemory(heap: Bootmem, mem: PhysMem, root: nat, gpa: u64, hpa: u64, len: u64, attribute: bv12,
                        ghost owner: Owner)
    returns (ok: bool, ghost owner': Owner, ghost k: nat)
    requires heap.Valid() && Tree(mem.words, root, owner, PERMISSIONS) && Backed(heap, owner)
    modifies heap, heap.bitmap, mem
    ensures heap.Valid() && Tree(mem.words, root, owner', PERMISSIONS) && Backed(heap, owner')
    ensures Grown(old(mem.words), mem.words, old(heap.Frames()), heap.Frames(), owner, owner')
    ensures forall q: nat ::
      Leaf(mem.words, root, q) == RangeLeaf(Leaf(old(mem.words), root, q), gpa, hpa, attribute, k, q)
    ensures var pages := if len < 0x8000_0000_0000_0000 then (len + 0xfff) / 0x1000 else 0;
      if ok then k == pages else k < pages && heap.Exhausted()
  {
    hide Tree;
    hide Leaf;
    hide LeafAfter;
    hide SamePage;
    hide Bootmem.Valid;
    hide Bootmem.Exhausted;
    hide Bootmem.Used;
    hide Grown;
    hide PagesMapped;
    hide Signed;
    hide NextPage;
    PagesMappedIs(len);
    NothingGrown(mem.words, heap.Frames(), owner);
    var remain: int := Signed(len);
    var g, h := gpa, hpa;
    ok, owner', k := true, owner, 0;
    while remain > 0
      invariant remain == Signed(len) - 0x1000 * k
      invariant k == 0 || remain > -0x1000
      invariant g == Advance(gpa, k) && h == Advance(hpa, k)
      invariant heap.Valid() && Tree(mem.words, root, owner', PERMISSIONS) && Backed(heap, owner')
      invariant Grown(old(mem.words), mem.words, old(heap.Frames()), heap.Frames(), owner, owner')
      invariant forall q: nat ::
        Leaf(mem.words, root, q) == RangeLeaf(Leaf(old(mem.words), root, q), gpa, hpa, attribute, k, q)
    {
      PagesRemain(len, k);
      ghost var w, used, tables := mem.words, heap.Frames(), owner';
      ok, owner' := EptMapPage(heap, mem, root, g, h, attribute, owner');
      GrownInTwo(old(mem.words), w, mem.words, old(heap.Frames()), used, heap.Frames(), owner, tables, owner');
      if !ok { return; }
      remain := remain - 0x1000;
      g, h := NextPage(g), NextPage(h);
      k := k + 1;
    }
    PagesRemain(len, k);
  }

  /** How far page `q` lies behind page `p`, among the pages the processor tells apart. */
  function Distance(p: nat, q: nat): nat { (q - p) % 0x10_0000_0000 }

  /** Mapping a range maps each of its pages to the matching host page, and no other page. */
  lemma {:induction false} RangeLeafIsContiguous(e: Word, gpa: u64, hpa: u64, attribute: bv12, n: nat, q: nat)
    requires n <= 0x10_0000_0000 && hpa + 0x1000 * n <= U64
    ensures RangeLeaf(e, gpa, hpa, attribute, n, q) ==
      LeafAfter(e, Distance(gpa / 0x1000, q) < n, hpa + 0x1000 * Distance(gpa / 0x1000, q), attribute)
  {
    hide SamePage;
    hide Distance;
    hide Advance;
    if n > 0 {
      RangeLeafIsContiguous(e, gpa, hpa, attribute, n - 1, q);
      SamePageAtDistance(gpa, n - 1, q);
      AdvanceInRange(hpa, n - 1);
    }
  }

  lemma AdvanceInRange(a: u64, n: nat)
    requires a + 0x1000 * n < U64
    ensures Advance(a, n) == a + 0x1000 * n
  {
    AdvanceIsSum(a, n);
  }

  lemma SamePageAtDistance(gpa: u64, k: nat, q: nat)
    requires k < 0x10_0000_0000
    ensures SamePage(Advance(gpa, k) / 0x1000, q) <==> Distance(gpa / 0x1000, q) == k
  {
    PageOfAdvance(gpa, k);
    Congruent(gpa / 0x1000, k, q, if gpa + 0x1000 * k < U64 then 0 else 0x1_0000);
  }

  lemma PageOfAdvance(gpa: u64, k: nat)
    requires k < 0x10_0000_0000
    ensures Advance(gpa, k) / 0x1000 ==
      gpa / 0x1000 + k - 0x10_0000_0000 * if gpa + 0x1000 * k < U64 then 0 else 0x1_0000
  {
    AdvanceIsSum(gpa, k);
    var s := gpa + 0x1000 * k;
    assert s < 2 * U64 && s % U64 == if s < U64 then s else s - U64;
    assert s / 0x1000 == gpa / 0x1000 + k;
  }

  lemma Congruent(p: nat, k: nat, q: nat, wraps: nat)
    requires k < 0x10_0000_0000 && p + k >= 0x10_0000_0000 * wraps
    ensures SamePage(p + k - 0x10_0000_0000 * wraps, q) <==> Distance(p, q) == k
  {
    var m := 0x10_0000_0000;
    var t := p + k - m * wraps;
    assert q - p == m * ((q - p) / m) + Distance(p, q);
    assert t == m * (t / m) + t % m && q == m * (q / m) + q % m;
    if SamePage(t, q) {
      assert q - p == k + m * (q / m - t / m - wraps);
    }
    if Distance(p, q) == k {
      assert q == t + m * ((q - p) / m + wraps);
    }
  }
}
