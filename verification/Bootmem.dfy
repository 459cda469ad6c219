/** The boot-time allocator (mm/bootmem.c): a bitmap with one bit per 4 KB page of the first 64 GB,
    and a bump pointer that carves requests below a page out of one partly used page.
    Addresses are physical; the kernel adds a constant to hand out virtual ones. */
module BootMemory {
  import opened Bits
  import opened Wrappers

  const BITMAP_BYTES: nat := 0x20_0000
  const PAGES: nat := 0x100_0000          // 64 GB of 4 KB pages
  const KERNEL_PAGES: nat := 0x1000       // the reserved 16 MB

  function RoundUp(x: nat, y: nat): nat
    requires y > 0
  {
    (x + (y - 1)) / y * y
  }

  /** Where the next sub-page block starts after `size` bytes at `offset`; 0 when the page is full. */
  function NextOffset(offset: nat, size: nat): (r: nat)
    ensures r % 64 == 0 && r <= 0x1000
    ensures offset + size < 0x1000 ==> offset + size <= r < offset + size + 64
    ensures offset + size == 0x1000 ==> r == 0
  {
    RoundUp((offset + size) % 0x1000, 64)
  }

  /** How many pages a loop `for (a = paddr; a < paddr + size; a += 0x1000)` visits. */
  function PagesIn(size: nat): nat {
    (size + 0xfff) / 0x1000
  }

  /** An entry of the firmware's memory map. */
  datatype Range = Range(base: u64, length: u64, kind: int)

  predicate Accepted(r: Range) {
    r.kind == 1 && (r.base + r.length) % U64 <= 0x10_0000_0000
  }

  /** The pages an accepted range frees. A range whose end wraps around frees nothing. */
  predicate Covers(r: Range, page: nat) {
    r.base + r.length < U64 && InArea(r.base, r.length, page)
  }

  /** The pages the firmware's map offers: its accepted ranges, or the first 4 GB if it is empty. */
  ghost predicate Offered(ranges: seq<Range>, page: nat) {
    if ranges == [] then page < 0x10_0000
    else exists i :: 0 <= i < |ranges| && Accepted(ranges[i]) && Covers(ranges[i], page)
  }

  /** What that means in bytes: a type-1 range (usable memory) that begins on a page boundary and ends below 64 GB
      offers exactly the pages it has bytes in, and no other range offers any. */
  lemma RangeOffersItsPages(r: Range, page: nat)
    requires r.base % 0x1000 == 0 && r.base + r.length <= 0x10_0000_0000
    ensures Accepted(r) && Covers(r, page) <==>
      r.kind == 1 && exists a: nat :: r.base <= a < r.base + r.length && a / 0x1000 == page
  {
    if r.kind == 1 && Covers(r, page) {
      var a := if r.base < 0x1000 * page then 0x1000 * page else r.base;
      assert r.base <= a < r.base + r.length && a / 0x1000 == page;
    }
  }

  lemma OthersOfferNothing(r: Range, page: nat)
    requires r.kind != 1 || r.base + r.length >= U64 || r.base + r.length > 0x10_0000_0000
    ensures !(Accepted(r) && Covers(r, page))
  {
  }

  /** A block handed out to a caller. */
  datatype Block = Block(addr: nat, size: nat) {
    function End(): nat { addr + size }
    function FirstPage(): nat { addr / 0x1000 }
    /** One past the last page the block touches. */
    function EndPage(): nat { (addr + size + 0xfff) / 0x1000 }
    predicate Touches(page: nat) { size > 0 && FirstPage() <= page < EndPage() }
  }

  /** The pages a loop over `[paddr, paddr + size)` visits. */
  predicate InArea(paddr: nat, size: nat, page: nat) {
    paddr / 0x1000 <= page < paddr / 0x1000 + PagesIn(size)
  }

  /** On a page boundary the pages a block touches are those an area loop visits. */
  lemma PagesTouched(addr: nat, size: nat)
    requires addr % 0x1000 == 0
    ensures forall page: nat :: Block(addr, size).Touches(page) <==> InArea(addr, size, page)
  {
  }

  /** A block inside one page touches that page only. */
  lemma InsidePage(b: Block, page: nat)
    requires 0x1000 * page <= b.addr && b.End() <= 0x1000 * page + 0x1000
    ensures forall p :: b.Touches(p) ==> p == page
  {
  }

  lemma ByteIndex(paddr: nat)
    ensures paddr / 0x8000 == paddr / 0x1000 / 8
  {
  }

  predicate Disjoint(b: Block, c: Block) {
    b.size == 0 || c.size == 0 || b.End() <= c.addr || c.End() <= b.addr
  }

  /** The promise made to whoever holds `b`. */
  predicate WellPlaced(b: Block) {
    && b.addr % 64 == 0
    && (b.size >= 0x1000 ==> b.addr % 0x1000 == 0)
    && 0x1000 * KERNEL_PAGES <= b.addr && b.End() <= 0x1000 * PAGES
  }

  /** Two non-empty blocks that overlap touch a common page. */
  lemma OverlapSharesPage(b: Block, c: Block) returns (page: nat)
    requires !Disjoint(b, c)
    ensures b.Touches(page) && c.Touches(page)
  {
    page := (if b.addr < c.addr then c.addr else b.addr) / 0x1000;
  }

  /** Blocks without a common page are disjoint. */
  lemma DisjointIfNoSharedPage(b: Block, c: Block)
    requires forall p :: !(b.Touches(p) && c.Touches(p))
    ensures Disjoint(b, c)
  {
    if !Disjoint(b, c) {
      var p := OverlapSharesPage(b, c);
    }
  }

  /** Where the next sub-page block goes: so far into page `page`, or on a new page if the offset is 0. */
  datatype Mark = Mark(offset: nat, page: nat)

  /** What a request does to the mark. A sub-page block that fits begins at the mark, on its page, and moves it to
      less than 64 bytes behind its own end, or to 0 if it fills the page. One that does not fit, and every
      request of a page or more, gives the rest of the page up. */
  ghost predicate Packs(m: Mark, size: u64, r: Option<nat>, m': Mark) {
    && (size >= 0x1000 ==> m'.offset == 0)
    && (size < 0x1000 && r.None? ==> m' == m)
    && (size < 0x1000 && r.Some? && m.offset + size > 0x1000 ==> m'.offset == 0)
    && (size < 0x1000 && r.Some? && m.offset + size <= 0x1000 ==>
          && r.value == 0x1000 * m'.page + m.offset && (m.offset != 0 ==> m'.page == m.page)
          && if m.offset + size == 0x1000 then m'.offset == 0
             else m.offset + size <= m'.offset < m.offset + size + 64)
  }

  ghost predicate IsPacking(marks: seq<Mark>, requests: seq<u64>, rs: seq<Option<nat>>) {
    && |marks| == |requests| + 1 && |rs| == |requests|
    && forall i :: 0 <= i < |requests| ==> Packs(marks[i], requests[i], rs[i], marks[i + 1])
  }

  lemma StartPacking(m: Mark)
    ensures IsPacking([m], [], [])
  {
  }

  lemma PackingGrows(marks: seq<Mark>, requests: seq<u64>, rs: seq<Option<nat>>, size: u64, r: Option<nat>, m: Mark)
    requires IsPacking(marks, requests, rs) && Packs(marks[|requests|], size, r, m)
    ensures IsPacking(marks + [m], requests + [size], rs + [r])
  {
    hide Packs;
  }

  /** Sub-page blocks are packed: unless the rest of the page was given up for the first, a second one that fits
      behind it begins less than 64 bytes after its end. */
  lemma SmallBlocksPack(marks: seq<Mark>, requests: seq<u64>, rs: seq<Option<nat>>, i: nat)
    requires IsPacking(marks, requests, rs) && i + 1 < |requests| && rs[i].Some? && rs[i + 1].Some?
    requires 0 < requests[i] < 0x1000 && requests[i + 1] < 0x1000
    requires marks[i].offset + requests[i] <= 0x1000
    requires rs[i].value % 0x1000 + requests[i] + 63 + requests[i + 1] <= 0x1000
    ensures rs[i].value + requests[i] <= rs[i + 1].value < rs[i].value + requests[i] + 64
  {
    assert Packs(marks[i], requests[i], rs[i], marks[i + 1]);
    assert Packs(marks[i + 1], requests[i + 1], rs[i + 1], marks[i + 1 + 1]);
  }

  /** The bytes a sub-page block takes from its page, at most. */
  function Footprint(size: nat): nat { size + 63 }

  function Footprints(sizes: seq<u64>): nat {
    if sizes == [] then 0 else Footprints(sizes[..|sizes| - 1]) + Footprint(sizes[|sizes| - 1])
  }

  /** So sub-page requests in a row that together fit a page, slack included, share one. */
  lemma {:induction false} SmallBlocksShare(marks: seq<Mark>, requests: seq<u64>, rs: seq<Option<nat>>, n: nat)
    requires IsPacking(marks, requests, rs) && 0 < n <= |requests| && marks[0].offset == 0
    requires forall i :: 0 <= i < n ==> rs[i].Some? && 0 < requests[i] < 0x1000
    requires Footprints(requests[..n]) < 0x1000
    ensures rs[n - 1].value / 0x1000 == rs[0].value / 0x1000 == marks[n].page
    ensures rs[n - 1].value % 0x1000 + requests[n - 1] <= marks[n].offset <= Footprints(requests[..n])
  {
    assert requests[..n][..n - 1] == requests[..n - 1];
    if n > 1 {
      SmallBlocksShare(marks, requests, rs, n - 1);
    } else {
      assert requests[..n - 1] == [];
    }
    assert Packs(marks[n - 1], requests[n - 1], rs[n - 1], marks[n - 1 + 1]);
  }

  /** Safety of a whole allocation history. */
  ghost predicate Safe(blocks: seq<Block>) {
    && (forall i :: 0 <= i < |blocks| ==> WellPlaced(blocks[i]))
    && (forall i, j :: 0 <= i < j < |blocks| ==> Disjoint(blocks[i], blocks[j]))
  }

  class Bootmem {
    const bitmap: array<Byte>
    var lastAllocOffset: nat
    var lastAllocPfn: nat
    /** Every block handed out so far, oldest first. */
    ghost var blocks: seq<Block>

    predicate Used(page: nat)
      reads bitmap
    {
      page < 8 * bitmap.Length && BitAt(bitmap[..], page)
    }

    /** The frames in use. */
    ghost function Frames(): iset<nat>
      reads bitmap
    {
      iset p: nat | Used(p)
    }

    /** `n` free pages from `start` on, all below 64 GB. */
    ghost predicate FreeRun(start: nat, n: nat)
      requires bitmap.Length == BITMAP_BYTES
      reads bitmap
    {
      start + n <= PAGES && forall p :: start <= p < start + n ==> !Used(p)
    }

    /** No run of `n` free pages starts below page `limit`. */
    ghost predicate NoRunBelow(limit: nat, n: nat)
      requires bitmap.Length == BITMAP_BYTES
      reads bitmap
    {
      forall s: nat :: s < limit ==> !FreeRun(s, n)
    }

    /** What holds of one block: its pages are marked, and it keeps off the free end of the bump page. */
    ghost predicate Held(b: Block)
      requires bitmap.Length == BITMAP_BYTES
      reads this, bitmap
    {
      && WellPlaced(b)
      && (forall p :: b.Touches(p) ==> Used(p))
      && (b.size > 0 && lastAllocOffset != 0 ==>
          b.End() <= 0x1000 * lastAllocPfn + lastAllocOffset || 0x1000 * (lastAllocPfn + 1) <= b.addr)
    }

    /** The allocator's invariant. Its second line is the one the bump path depends on: a bump page
        with room left is marked used. */
    ghost predicate Valid()
      reads this, bitmap
    {
      && bitmap.Length == BITMAP_BYTES && lastAllocPfn < PAGES
      && (lastAllocOffset != 0 ==> KERNEL_PAGES <= lastAllocPfn && Used(lastAllocPfn))
      && lastAllocOffset <= 0x1000 && lastAllocOffset % 64 == 0
      && (forall p :: 0 <= p < KERNEL_PAGES ==> Used(p))
      && (forall i :: 0 <= i < |blocks| ==> Held(blocks[i]))
      && Safe(blocks)
    }

    constructor (ranges: seq<Range>)
      ensures Valid() && fresh(bitmap) && blocks == []
      ensures forall p :: 0 <= p < PAGES ==>
        (!Used(p) <==> KERNEL_PAGES <= p && Offered(ranges, p))
    {
      bitmap := new Byte[BITMAP_BYTES](_ => 0xff);
      lastAllocPfn := 1;
      lastAllocOffset := 0;
      blocks := [];
      new;
      forall p | 0 <= p < PAGES ensures Used(p) {
        SetBitLaw(0xff, p % 8, p % 8);
        assert bitmap[..][p / 8] == 0xff;
      }
      var i := 0;
      while i < |ranges|
        modifies bitmap
        invariant 0 <= i <= |ranges|
        invariant forall p :: 0 <= p < PAGES ==>
          (!Used(p) <==> exists k :: 0 <= k < i && Accepted(ranges[k]) && Covers(ranges[k], p))
      {
        label here:
        if ranges[i].kind == 1 {
          if (ranges[i].base + ranges[i].length) % U64 <= 0x10_0000_0000 {
            ClearArea(ranges[i].base, ranges[i].length);
          }
        }
        assert forall p :: 0 <= p < PAGES ==>
          (Used(p) <==> old@here(Used(p)) && !(Accepted(ranges[i]) && Covers(ranges[i], p)));
        i := i + 1;
      }
      if |ranges| == 0 {
        ClearArea(0, 0x1_0000_0000);
      }
      SetArea(0, 0x100_0000);
    }

    /** The state that marking or freeing the pages of `[paddr, paddr + size)` leads to. */
    twostate predicate OnlyArea(paddr: nat, size: nat, value: bool)
      requires bitmap.Length == BITMAP_BYTES
      reads bitmap
    {
      forall p :: 0 <= p < PAGES ==>
        (Used(p) <==> if InArea(paddr, size, p) then value else old(Used(p)))
    }

    method SetBitmap(paddr: nat)
      requires bitmap.Length == BITMAP_BYTES && paddr / 0x1000 < PAGES
      modifies bitmap
      ensures forall p :: 0 <= p < PAGES ==> (Used(p) <==> p == paddr / 0x1000 || old(Used(p)))
    {
      ghost var before, page := bitmap[..], paddr / 0x1000;
      var index, bit := paddr / 0x8000, paddr / 0x1000 % 8;
      ByteIndex(paddr);
      bitmap[index] := bitmap[index] | Mask(bit);
      assert bitmap[..] == before[page / 8 := before[page / 8] | Mask(page % 8)];
      forall p | 0 <= p < PAGES ensures Used(p) <==> p == page || old(Used(p)) {
        SetBitAt(before, page, p);
      }
    }

    method ClearBitmap(paddr: nat)
      requires bitmap.Length == BITMAP_BYTES && paddr / 0x1000 < PAGES
      modifies bitmap
      ensures forall p :: 0 <= p < PAGES ==> (Used(p) <==> p != paddr / 0x1000 && old(Used(p)))
    {
      ghost var before, page := bitmap[..], paddr / 0x1000;
      var index, bit := paddr / 0x8000, paddr / 0x1000 % 8;
      ByteIndex(paddr);
      bitmap[index] := bitmap[index] & !Mask(bit);
      assert bitmap[..] == before[page / 8 := before[page / 8] & !Mask(page % 8)];
      forall p | 0 <= p < PAGES ensures Used(p) <==> p != page && old(Used(p)) {
        ClearBitAt(before, page, p);
      }
    }

    method GetBitmap(paddr: nat) returns (used: bool)
      requires bitmap.Length == BITMAP_BYTES && paddr / 0x1000 < PAGES
      ensures used <==> Used(paddr / 0x1000)
    {
      used := Bit(bitmap[paddr / 0x8000], paddr / 0x1000 % 8);
    }

    method SetArea(paddr: nat, size: nat)
      requires bitmap.Length == BITMAP_BYTES && paddr + size <= 0x1000 * PAGES
      modifies bitmap
      ensures OnlyArea(paddr, size, true)
    {
      var addr := paddr;
      ghost var k := 0;
      while addr < paddr + size
        invariant addr == paddr + 0x1000 * k && 0 <= k <= PagesIn(size)
        invariant forall p :: 0 <= p < PAGES ==>
          (Used(p) <==> paddr / 0x1000 <= p < paddr / 0x1000 + k || old(Used(p)))
      {
        SetBitmap(addr);
        addr := addr + 0x1000;
        k := k + 1;
      }
    }

    /** The end of the area is computed in 64 bits, so it may wrap around. */
    method ClearArea(paddr: u64, size: u64)
      requires bitmap.Length == BITMAP_BYTES && (paddr + size) % U64 <= 0x1000 * PAGES
      modifies bitmap
      ensures if paddr + size < U64 then OnlyArea(paddr, size, false) else bitmap[..] == old(bitmap[..])
    {
      var addr: nat := paddr;
      ghost var k := 0;
      while addr < (paddr + size) % U64
        invariant addr == paddr + 0x1000 * k && (0 < k ==> paddr + size < U64)
        invariant paddr + size < U64 ==> 0 <= k <= PagesIn(size)
        invariant k == 0 ==> bitmap[..] == old(bitmap[..])
        invariant forall p :: 0 <= p < PAGES ==>
          (Used(p) <==> !(paddr / 0x1000 <= p < paddr / 0x1000 + k) && old(Used(p)))
      {
        ClearBitmap(addr);
        addr := addr + 0x1000;
        k := k + 1;
      }
    }

    /** First fit: the lowest page that starts a free run of `PagesIn(size) + 1` pages, if any. */
    method FindFree(size: nat) returns (r: Option<nat>)
      requires bitmap.Length == BITMAP_BYTES
      ensures r.Some? ==>
        && r.value % 0x1000 == 0 && FreeRun(r.value / 0x1000, PagesIn(size) + 1)
        && NoRunBelow(r.value / 0x1000, PagesIn(size) + 1)
      ensures r.None? ==> NoRunBelow(PAGES, PagesIn(size) + 1)
    {
      hide Used;
      hide BitAt;
      ghost var n, s1 := PagesIn(size) + 1, 0;
      var addr1 := 0;
      while addr1 < 0x1000 * PAGES
        invariant addr1 == 0x1000 * s1 && 0 <= s1 <= PAGES && NoRunBelow(s1, n)
      {
        var used := GetBitmap(addr1);
        if !used {
          var addr2 := addr1;
          ghost var s2 := s1;
          while addr2 < 0x1000 * PAGES
            invariant addr2 == 0x1000 * s2 && s1 <= s2 <= PAGES && s2 - s1 < n
            invariant forall p :: s1 <= p < s2 ==> !Used(p)
          {
            used := GetBitmap(addr2);
            if used {
              assert Used(s2);
              break;
            }
            if addr2 - addr1 >= size {
              assert FreeRun(s1, n) && addr1 / 0x1000 == s1;
              return Some(addr1);
            }
            addr2 := addr2 + 0x1000;
            s2 := s2 + 1;
          }
        }
        assert !FreeRun(s1, n);
        addr1 := addr1 + 0x1000;
        s1 := s1 + 1;
      }
      return None;
    }

    /** `size` bytes fit in what is left of the bump page. */
    predicate BumpServes(size: nat)
      reads this
    {
      size < 0x1000 && lastAllocOffset != 0 && lastAllocOffset + size <= 0x1000
    }

    /** A request for `size` bytes fails: it does not fit the bump page, and no run of pages is free. */
    ghost predicate Refuses(size: nat)
      reads this, bitmap
    {
      && bitmap.Length == BITMAP_BYTES && !BumpServes(size)
      && NoRunBelow(PAGES, PagesIn(if size < 0x1000 then 0x1000 else size) + 1)
    }

    /** No two free pages in a row are left, which is what a request for one page needs. */
    ghost predicate Exhausted()
      reads bitmap
    {
      bitmap.Length == BITMAP_BYTES && NoRunBelow(PAGES, 2)
    }

    /** Handing out a block on free pages, and bumping into its page or giving up the bump page. */
    twostate lemma ValidAfterFreshBlock(c: Block)
      requires old(Valid()) && WellPlaced(c) && blocks == old(blocks) + [c]
      requires forall p :: c.Touches(p) ==> !old(Used(p))
      requires forall p :: Used(p) <==> old(Used(p)) || c.Touches(p)
      requires lastAllocPfn < PAGES && bitmap.Length == BITMAP_BYTES
      requires lastAllocOffset == 0 ||
        (c.addr == 0x1000 * lastAllocPfn && 0 < c.size <= lastAllocOffset <= 0x1000 && lastAllocOffset % 64 == 0)
      ensures Valid()
    {
      ghost var bumpPage := Block(0x1000 * lastAllocPfn, 0x1000);
      if lastAllocOffset != 0 {
        assert c.Touches(lastAllocPfn);
        InsidePage(bumpPage, lastAllocPfn);
      }
      forall i | 0 <= i < |old(blocks)| ensures Held(blocks[i]) && Disjoint(blocks[i], c) {
        var b := old(blocks)[i];
        assert old(Held(b)) && blocks[i] == b;
        DisjointIfNoSharedPage(b, c);
        if lastAllocOffset != 0 {
          DisjointIfNoSharedPage(b, bumpPage);
        }
      }
    }

    /** Carving a block out of the rest of the bump page. */
    twostate lemma ValidAfterBump(c: Block)
      requires old(Valid()) && blocks == old(blocks) + [c] && bitmap[..] == old(bitmap[..])
      requires old(lastAllocOffset) != 0 && c.size < 0x1000 && c.addr == 0x1000 * lastAllocPfn + old(lastAllocOffset)
      requires lastAllocPfn == old(lastAllocPfn) && old(lastAllocOffset) + c.size <= 0x1000
      requires lastAllocOffset == NextOffset(old(lastAllocOffset), c.size)
      ensures Valid() && WellPlaced(c) && forall p :: c.Touches(p) ==> old(Used(p))
    {
      assert forall p :: Used(p) <==> old(Used(p));
      InsidePage(c, lastAllocPfn);
      assert WellPlaced(c);
      forall i | 0 <= i < |old(blocks)| ensures Held(blocks[i]) && Disjoint(blocks[i], c) {
        var b := old(blocks)[i];
        assert old(Held(b)) && blocks[i] == b;
      }
    }

    function Here(): Mark
      reads this
    {
      Mark(lastAllocOffset, lastAllocPfn)
    }

    /** The outcome of a request for `size` bytes: a grown history, exactly the new block's pages
        newly marked, and the invariant kept. */
    twostate predicate Served(size: nat, new r: Option<nat>)
      reads this, bitmap
    {
      && Valid()
      && blocks == (if r.Some? then old(blocks) + [Block(r.value, size)] else old(blocks))
      && (forall p :: Used(p) <==> old(Used(p)) || (r.Some? && Block(r.value, size).Touches(p)))
      && (r.Some? ==> WellPlaced(Block(r.value, size)))
      && (r.Some? && size >= 0x1000 ==> forall p :: Block(r.value, size).Touches(p) ==> !old(Used(p)))
    }

    /** `r` was the first free run that fits `want` bytes, or there was none. */
    twostate predicate FirstFit(want: nat, new r: Option<nat>)
      requires bitmap.Length == BITMAP_BYTES
      reads bitmap
    {
      var n := PagesIn(want) + 1;
      if r.Some?
      then r.value % 0x1000 == 0 && old(FreeRun(r.value / 0x1000, n)) && old(NoRunBelow(r.value / 0x1000, n))
      else old(NoRunBelow(PAGES, n))
    }

    /** Find the first free run that fits `want` bytes and mark it for a block of `size` bytes. */
    method TakeRun(size: u64, want: u64) returns (r: Option<nat>)
      requires Valid() && size <= want
      modifies bitmap
      ensures FirstFit(want, r)
      ensures forall p :: Used(p) <==> old(Used(p)) || (r.Some? && Block(r.value, size).Touches(p))
      ensures r.Some? ==>
        && WellPlaced(Block(r.value, size)) && r.value / 0x1000 < PAGES
        && forall p :: Block(r.value, size).Touches(p) ==> !old(Used(p))
    {
      r := FindFree(want);
      if r.Some? {
        assert !Used(r.value / 0x1000);
        SetArea(r.value, size);
        PagesTouched(r.value, size);
      }
    }

    method AllocPages(size: u64) returns (r: Option<nat>)
      requires Valid()
      modifies this, bitmap
      ensures Served(size, r) && FirstFit(size, r) && lastAllocOffset == 0
    {
      lastAllocOffset := 0;
      r := TakeRun(size, size);
      if r.Some? {
        blocks := blocks + [Block(r.value, size)];
        ValidAfterFreshBlock(Block(r.value, size));
      }
    }

    /** A sub-page block at the start of a new page. The bump page moves there, with `offset` bytes
        of it gone, or with none left if `offset` is 0. */
    method AllocNewPage(size: u64, offset: nat) returns (r: Option<nat>)
      requires Valid() && size < 0x1000
      requires offset != 0 ==> 0 < size <= offset <= 0x1000 && offset % 64 == 0
      modifies this, bitmap
      ensures Served(size, r) && FirstFit(0x1000, r)
      ensures r.None? ==> Here() == old(Here())
      ensures r.Some? ==> lastAllocOffset == offset && r.value == 0x1000 * lastAllocPfn
    {
      r := TakeRun(size, 0x1000);
      if r.Some? {
        lastAllocOffset := offset;
        lastAllocPfn := r.value / 0x1000;
        blocks := blocks + [Block(r.value, size)];
        ValidAfterFreshBlock(Block(r.value, size));
      }
    }

    /** A sub-page block from the rest of the bump page. */
    method AllocBump(size: u64) returns (r: Option<nat>)
      requires Valid() && lastAllocOffset != 0 && lastAllocOffset + size <= 0x1000
      modifies this
      ensures Served(size, r) && r == Some(old(0x1000 * lastAllocPfn + lastAllocOffset))
      ensures Here() == Mark(NextOffset(old(lastAllocOffset), size), old(lastAllocPfn))
    {
      hide WellPlaced;
      hide Block.Touches;
      hide NextOffset;
      hide Held;
      hide Safe;
      r := Some(lastAllocPfn * 0x1000 + lastAllocOffset);
      lastAllocOffset := NextOffset(lastAllocOffset, size);
      blocks := blocks + [Block(r.value, size)];
      ValidAfterBump(Block(r.value, size));
    }

    /** Why a request failed, before and after. */
    twostate lemma FailureIsRefusal(size: nat, new r: Option<nat>)
      requires bitmap.Length == BITMAP_BYTES && !old(BumpServes(size)) && Served(size, r)
      requires FirstFit(if size < 0x1000 then 0x1000 else size, r)
      requires r.None? && size < 0x1000 ==> lastAllocOffset == old(lastAllocOffset)
      ensures (r.None? <==> old(Refuses(size))) && (r.None? ==> Refuses(size))
    {
      hide Valid;
      hide WellPlaced;
      hide Used;
      if r.None? {
        ghost var n := PagesIn(if size < 0x1000 then 0x1000 else size) + 1;
        forall s: nat | s < PAGES ensures !FreeRun(s, n) {
          assert !old(FreeRun(s, n));
          assert forall p :: Used(p) <==> old(Used(p));
        }
      }
    }

    method Alloc(size: u64) returns (r: Option<nat>)
      requires Valid()
      modifies this, bitmap
      ensures Served(size, r)
      ensures old(BumpServes(size)) ==> r == Some(old(0x1000 * lastAllocPfn + lastAllocOffset))
      ensures !old(BumpServes(size)) ==> FirstFit(if size < 0x1000 then 0x1000 else size, r)
      ensures r.None? <==> old(Refuses(size))
      ensures r.None? ==> Refuses(size)
      ensures Packs(old(Here()), size, r, Here())
    {
      hide WellPlaced;
      hide NextOffset;
      hide FreeRun;
      hide NoRunBelow;
      if size >= 0x1000 {
        r := AllocPages(size);
      } else if lastAllocOffset + size > 0x1000 {
        var used := GetBitmap(lastAllocPfn * 0x1000 + size);
        if !used {
          // The bump page has room left over, so it is marked: the source's branch here is dead.
          assert false;
        } else {
          r := AllocNewPage(size, 0);
        }
      } else if lastAllocOffset != 0 {
        r := AllocBump(size);
      } else {
        r := AllocNewPage(size, NextOffset(lastAllocOffset, size));
      }
      if !old(BumpServes(size)) {
        FailureIsRefusal(size, r);
      }
    }

    lemma ValidIsSafe()
      requires Valid()
      ensures Safe(blocks)
    {
    }

    /** A whole run: every request is served in turn, failed ones included. */
    method AllocAll(requests: seq<u64>) returns (rs: seq<Option<nat>>, ghost marks: seq<Mark>)
      requires Valid() && blocks == []
      modifies this, bitmap
      ensures Valid() && |rs| == |requests|
      ensures IsPacking(marks, requests, rs) && |marks| == |requests| + 1 && marks[0] == old(Here())
      ensures marks[|requests|] == Here()
      ensures blocks == Granted(requests, rs) && Safe(Granted(requests, rs))
    {
      hide Packs;
      hide IsPacking;
      hide Valid;
      hide Used;
      hide WellPlaced;
      hide NoRunBelow;
      hide FreeRun;
      hide Safe;
      StartPacking(Here());
      rs, marks := [], [Here()];
      var i := 0;
      while i < |requests|
        invariant 0 <= i <= |requests| && |rs| == i
        invariant Valid() && blocks == Granted(requests[..i], rs)
        invariant IsPacking(marks, requests[..i], rs) && |marks| == i + 1
        invariant marks[0] == old(Here()) && marks[i] == Here()
      {
        var r := Alloc(requests[i]);
        PackingGrows(marks, requests[..i], rs, requests[i], r, Here());
        GrantedSnoc(requests[..i], rs, requests[i], r);
        assert requests[..i + 1] == requests[..i] + [requests[i]];
        rs, marks := rs + [r], marks + [Here()];
        i := i + 1;
      }
      assert requests[..i] == requests;
      ValidIsSafe();
    }
  }

  /** The blocks granted to those requests that did not fail. */
  ghost function Granted(requests: seq<u64>, rs: seq<Option<nat>>): seq<Block>
    requires |rs| == |requests|
  {
    if rs == [] then []
    else
      (if rs[0].Some? then [Block(rs[0].value, requests[0])] else []) + Granted(requests[1..], rs[1..])
  }

  lemma {:induction false} GrantedSnoc(requests: seq<u64>, rs: seq<Option<nat>>, size: u64, r: Option<nat>)
    requires |rs| == |requests|
    ensures Granted(requests + [size], rs + [r])
         == Granted(requests, rs) + if r.Some? then [Block(r.value, size)] else []
  {
    if rs != [] {
      assert (requests + [size])[1..] == requests[1..] + [size] && (rs + [r])[1..] == rs[1..] + [r];
      GrantedSnoc(requests[1..], rs[1..], size, r);
    }
  }
}
