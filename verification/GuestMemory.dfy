/** Guest memory (arch/x86_64/kvm/vmx/vmx.c): allocating a zone, and copying bytes in and out of it.
    Only the first address of a copy is translated; that is sound because a zone is one physically
    contiguous block. `ram` is the byte view of the frames that hold guest memory. */
module GuestMemory {
  import opened Bits
  import opened Wrappers
  import opened BootMemory
  import opened PageTable
  import opened Ept

  type Ram = map<nat, Byte>

  const ZONE_SIZE: u64 := 48  // sizeof(struct guest_memory_zone)

  function ByteIn(ram: Ram, hpa: nat): Byte { if hpa in ram then ram[hpa] else 0 }

  /** `memcpy` of `data` to host address `hpa`. */
  function CopyTo(ram: Ram, hpa: nat, data: seq<Byte>): (r: Ram)
    ensures forall a: nat :: ByteIn(r, a) == if hpa <= a < hpa + |data| then data[a - hpa] else ByteIn(ram, a)
  {
    if data == [] then ram
    else
      var n := |data| - 1;
      var before := CopyTo(ram, hpa, data[..n]);
      assert forall a: nat :: ByteIn(before, a) == if hpa <= a < hpa + n then data[a - hpa] else ByteIn(ram, a);
      var after := before[hpa + n := data[n]];
      assert forall a: nat :: ByteIn(after, a) == if a == hpa + n then data[n] else ByteIn(before, a);
      after
  }

  function CopyFrom(ram: Ram, hpa: nat, size: nat): seq<Byte> {
    seq(size, i requires 0 <= i < size => ByteIn(ram, hpa + i))
  }

  /** A zone: `pages` guest pages from page `gpage` on, backed by as many host frames from `hframe` on. */
  datatype Zone = Zone(gpage: nat, hframe: nat, pages: nat) {
    predicate Holds(page: nat) { Distance(gpage, page) < pages }
  }

  /** The zone's pages are translated one to one in order, and its frames belong to it alone. */
  ghost predicate ZoneMapped(w: Words, root: nat, z: Zone) {
    && (forall q: nat :: z.Holds(q) ==> EptWalk(w, root, q) == Some(z.hframe + Distance(z.gpage, q)))
    && (forall q: nat :: !z.Holds(q) && EptWalk(w, root, q).Some? ==>
          !(z.hframe <= EptWalk(w, root, q).value < z.hframe + z.pages))
  }

  /** The byte a guest finds at one of its addresses. */
  function GuestByte(w: Words, root: nat, ram: Ram, gpa: nat): Option<Byte> {
    var hpa := EptGpaToHpa(w, root, gpa);
    if hpa.None? then None else Some(ByteIn(ram, hpa.value))
  }

  /** Offset of a guest address in a zone. */
  function OffsetIn(z: Zone, gpa: nat): nat { Distance(z.gpage, gpa / 0x1000) * 0x1000 + gpa % 0x1000 }

  lemma ZoneTranslates(w: Words, root: nat, z: Zone, gpa: nat)
    requires ZoneMapped(w, root, z) && z.Holds(gpa / 0x1000)
    ensures EptGpaToHpa(w, root, gpa) == Some(z.hframe * 0x1000 + OffsetIn(z, gpa))
  {
    hide EptWalk;
  }

  /** A copy into a zone reaches exactly the guest bytes it names: those `|data|` zone offsets get the
      data, and every other guest byte, in the zone or outside it, is as before. */
  lemma WriteIsExact(w: Words, root: nat, ram: Ram, z: Zone, gpa: nat, data: seq<Byte>, x: nat)
    requires ZoneMapped(w, root, z) && z.Holds(gpa / 0x1000) && OffsetIn(z, gpa) + |data| <= 0x1000 * z.pages
    ensures EptGpaToHpa(w, root, gpa).Some?
    ensures var ram' := CopyTo(ram, EptGpaToHpa(w, root, gpa).value, data);
      GuestByte(w, root, ram', x) ==
        if z.Holds(x / 0x1000) && OffsetIn(z, gpa) <= OffsetIn(z, x) < OffsetIn(z, gpa) + |data|
        then Some(data[OffsetIn(z, x) - OffsetIn(z, gpa)])
        else GuestByte(w, root, ram, x)
  {
    hide EptWalk;
    ZoneTranslates(w, root, z, gpa);
    if z.Holds(x / 0x1000) {
      ZoneTranslates(w, root, z, x);
    } else if EptWalk(w, root, x / 0x1000).Some? {
      var f := EptWalk(w, root, x / 0x1000).value;
      assert f < z.hframe || z.hframe + z.pages <= f;
      assert f < z.hframe ==> f * 0x1000 + 0x1000 <= z.hframe * 0x1000;
    }
  }

  /** A read returns the guest bytes in order. */
  lemma ReadIsExact(w: Words, root: nat, ram: Ram, z: Zone, gpa: nat, size: nat, x: nat)
    requires ZoneMapped(w, root, z) && z.Holds(gpa / 0x1000) && OffsetIn(z, gpa) + size <= 0x1000 * z.pages
    requires z.Holds(x / 0x1000) && OffsetIn(z, gpa) <= OffsetIn(z, x) < OffsetIn(z, gpa) + size
    ensures EptGpaToHpa(w, root, gpa).Some?
    ensures Some(CopyFrom(ram, EptGpaToHpa(w, root, gpa).value, size)[OffsetIn(z, x) - OffsetIn(z, gpa)])
         == GuestByte(w, root, ram, x)
  {
    hide EptWalk;
    ZoneTranslates(w, root, z, gpa);
    ZoneTranslates(w, root, z, x);
  }

  /** Stepping `k` bytes up inside a zone. */
  lemma OffsetAdd(z: Zone, gpa: nat, k: nat)
    requires z.pages <= 0x10_0000_0000 && z.Holds(gpa / 0x1000) && OffsetIn(z, gpa) + k < 0x1000 * z.pages
    ensures z.Holds((gpa + k) / 0x1000) && OffsetIn(z, gpa + k) == OffsetIn(z, gpa) + k
  {
    var j := (gpa % 0x1000 + k) / 0x1000;
    assert gpa + k == 0x1000 * (gpa / 0x1000 + j) + (gpa % 0x1000 + k) % 0x1000;
    DistanceAdd(z.gpage, gpa / 0x1000, j);
  }

  lemma DistanceAdd(p: nat, q: nat, j: nat)
    requires Distance(p, q) + j < 0x10_0000_0000
    ensures Distance(p, q + j) == Distance(p, q) + j
  {
    assert q + j - p == 0x10_0000_0000 * ((q - p) / 0x10_0000_0000) + Distance(p, q) + j;
  }

  /** Write, then read any sub-range of what was written: the bytes come back. */
  lemma RoundTrip(w: Words, root: nat, ram: Ram, z: Zone, gpa: nat, data: seq<Byte>, from: nat, size: nat)
    requires ZoneMapped(w, root, z) && z.pages <= 0x10_0000_0000 && z.Holds(gpa / 0x1000)
    requires OffsetIn(z, gpa) + |data| <= 0x1000 * z.pages && from < |data| && from + size <= |data|
    ensures EptGpaToHpa(w, root, gpa).Some? && EptGpaToHpa(w, root, gpa + from).Some?
    ensures CopyFrom(CopyTo(ram, EptGpaToHpa(w, root, gpa).value, data), EptGpaToHpa(w, root, gpa + from).value, size)
         == data[from..from + size]
  {
    hide EptWalk;
    ZoneTranslates(w, root, z, gpa);
    OffsetAdd(z, gpa, from);
    ZoneTranslates(w, root, z, gpa + from);
  }

  /** What mapping a block that nothing was mapped to makes of the translations: one zone more. */
  lemma ZoneBuilt(was: Words, now: Words, root: nat, owner: Owner, owner': Owner, gpa: u64, hpa: u64, z: Zone)
    requires Tree(was, root, owner, PERMISSIONS) && Tree(now, root, owner', PERMISSIONS)
    requires z == Zone(gpa / 0x1000, hpa / 0x1000, z.pages) && (z.pages > 0 ==> hpa % 0x1000 == 0)
    requires z.pages <= 0x10_0000_0000 && hpa + 0x1000 * z.pages <= U64
    requires forall q: nat ::
      Leaf(now, root, q) == RangeLeaf(Leaf(was, root, q), gpa, hpa, GUEST_ATTRIBUTES, z.pages, q)
    requires forall q: nat :: EptWalk(was, root, q).Some? ==>
      !(z.hframe <= EptWalk(was, root, q).value < z.hframe + z.pages)
    ensures ZoneMapped(now, root, z)
    ensures forall q: nat :: z.Holds(q) ==> Leaf(now, root, q).flags & 0x3f == 0x37
    ensures forall q: nat :: !z.Holds(q) ==> EptWalk(now, root, q) == EptWalk(was, root, q)
  {
    hide EptWalk;
    hide Tree;
    hide Leaf;
    hide RangeLeaf;
    forall q: nat
      ensures EptWalk(now, root, q) ==
        if z.Holds(q) then Some(z.hframe + Distance(z.gpage, q)) else EptWalk(was, root, q)
      ensures z.Holds(q) ==> Leaf(now, root, q).flags & 0x3f == 0x37
    {
      RangeLeafIsContiguous(Leaf(was, root, q), gpa, hpa, GUEST_ATTRIBUTES, z.pages, q);
      WalkReadsLeaf(was, root, owner, q);
      WalkReadsLeaf(now, root, owner', q);
      EntryTarget(z.hframe + Distance(z.gpage, q));
      GuestEntryFlags(z.hframe + Distance(z.gpage, q));
    }
  }

  lemma EntryTarget(frame: nat)
    ensures Target(Entry(frame * 0x1000, GUEST_ATTRIBUTES)) == Some(frame)
  {
    FrameAddress(frame);
    AlignedLowBits(frame * 0x1000);
  }

  /** A zone none of whose pages `y` covers. */
  ghost predicate Apart(z: Zone, y: Zone) {
    forall q: nat :: !(z.Holds(q) && y.Holds(q))
  }

  ghost predicate ZoneCleared(ram: Ram, z: Zone) {
    forall a: nat :: 0x1000 * z.hframe <= a < 0x1000 * (z.hframe + z.pages) ==> ByteIn(ram, a) == 0
  }

  lemma PartIsApart(z: Zone, k: nat, y: Zone)
    requires Apart(z, y) && k <= z.pages
    ensures Apart(z.(pages := k), y)
  {
    forall q: nat ensures !(z.(pages := k).Holds(q) && y.Holds(q)) {
      assert !(z.Holds(q) && y.Holds(q));
    }
  }

  /** A new zone in frames of its own leaves the other zones as they were. */
  lemma ZoneKept(was: Words, now: Words, root: nat, z: Zone, y: Zone)
    requires ZoneMapped(was, root, y) && ZoneMapped(now, root, z) && Apart(z, y)
    requires forall q: nat :: !z.Holds(q) ==> EptWalk(now, root, q) == EptWalk(was, root, q)
    requires z.hframe + z.pages <= y.hframe || y.hframe + y.pages <= z.hframe
    ensures ZoneMapped(now, root, y)
  {
    hide EptWalk;
    forall q: nat
      ensures y.Holds(q) ==> EptWalk(now, root, q) == Some(y.hframe + Distance(y.gpage, q))
      ensures !y.Holds(q) && EptWalk(now, root, q).Some? ==>
        !(y.hframe <= EptWalk(now, root, q).value < y.hframe + y.pages)
    {
      assert !(z.Holds(q) && y.Holds(q));
    }
  }

  /** A zone in use: mapped, in frames the allocator has handed out. */
  ghost predicate InUse(w: Words, root: nat, used: iset<nat>, z: Zone) {
    ZoneMapped(w, root, z) && forall f :: z.hframe <= f < z.hframe + z.pages ==> f in used
  }

  lemma ZonesKept(was: Words, now: Words, root: nat, z: Zone, used: iset<nat>, used': iset<nat>)
    requires ZoneMapped(now, root, z) && used <= used'
    requires forall f :: z.hframe <= f < z.hframe + z.pages ==> f !in used
    requires forall q: nat :: !z.Holds(q) ==> EptWalk(now, root, q) == EptWalk(was, root, q)
    ensures forall y :: InUse(was, root, used, y) && Apart(z, y) ==> InUse(now, root, used', y)
  {
    hide EptWalk;
    forall y | InUse(was, root, used, y) && Apart(z, y) ensures InUse(now, root, used', y) {
      if y.pages > 0 && z.pages > 0 {
        var f := if y.hframe < z.hframe then z.hframe else y.hframe;
        if f in used { assert !(z.hframe <= f < z.hframe + z.pages); }
        ZoneKept(was, now, root, z, y);
      }
    }
  }

  /** The memory side of a virtual processor before it runs. */
  class GuestRam {
    const heap: Bootmem
    const mem: PhysMem
    const eptpBase: nat
    var ram: Ram
    var zones: seq<Zone>
    ghost var tables: Owner

    ghost predicate Valid()
      reads this, heap, heap.bitmap, mem
    {
      && heap.Valid() && Tree(mem.words, eptpBase, tables, PERMISSIONS) && Backed(heap, tables)
      && (forall q: nat :: EptWalk(mem.words, eptpBase, q).Some? ==>
            heap.Used(EptWalk(mem.words, eptpBase, q).value) && EptWalk(mem.words, eptpBase, q).value !in tables)
    }

    constructor (heap: Bootmem, mem: PhysMem, root: nat)
      requires heap.Valid() && heap.Used(root) && forall i :: Read(mem.words, root, i) == EMPTY
      ensures Valid() && this.heap == heap && this.mem == mem && eptpBase == root && zones == []
    {
      this.heap, this.mem, eptpBase := heap, mem, root;
      ram, zones, tables := map[], [], map[root := []];
      new;
      EmptyTree(mem.words, root, PERMISSIONS);
      forall q: nat ensures EptWalk(mem.words, eptpBase, q) == None {
        WalkReadsLeaf(mem.words, root, tables, q);
      }
    }

    /** The call of `map_guest_memory` for a block nothing was mapped to: the zone's first `k` pages are mapped,
        which are all of them unless memory runs out. */
    method MapZone(gpa: u64, hpa: u64, length: u64, ghost z: Zone) returns (ok: bool, ghost k: nat)
      requires Valid() && length % 0x1000 == 0 && z == Zone(gpa / 0x1000, hpa / 0x1000, length / 0x1000)
      requires (length > 0 ==> hpa % 0x1000 == 0) && z.pages <= 0x10_0000_0000 && hpa + length <= U64 / 2
      requires forall f :: z.hframe <= f < z.hframe + z.pages ==> f in heap.Frames() && f !in tables
      requires forall q: nat :: EptWalk(mem.words, eptpBase, q).Some? ==>
        !(z.hframe <= EptWalk(mem.words, eptpBase, q).value < z.hframe + z.pages)
      modifies this`tables, heap, heap.bitmap, mem
      ensures old(heap.Frames()) <= heap.Frames()
      ensures if ok then k == z.pages else k < z.pages && heap.Exhausted()
      ensures Valid() && ZoneMapped(mem.words, eptpBase, z.(pages := k))
      ensures forall q: nat :: z.(pages := k).Holds(q) ==> Leaf(mem.words, eptpBase, q).flags & 0x3f == 0x37
      ensures forall q: nat :: !z.(pages := k).Holds(q) ==>
        EptWalk(mem.words, eptpBase, q) == old(EptWalk(mem.words, eptpBase, q))
    {
      hide EptWalk;
      hide Leaf;
      hide Tree;
      hide RangeLeaf;
      hide Bootmem.Exhausted;
      ghost var w, was := mem.words, tables;
      ok, tables, k := MapGuestMemory(heap, mem, eptpBase, gpa, hpa, length, GUEST_ATTRIBUTES, tables);
      ghost var part := z.(pages := k);
      ZoneBuilt(w, mem.words, eptpBase, was, tables, gpa, hpa, part);
      forall q: nat | EptWalk(mem.words, eptpBase, q).Some?
        ensures heap.Used(EptWalk(mem.words, eptpBase, q).value) && EptWalk(mem.words, eptpBase, q).value !in tables
      {
        if part.Holds(q) {
          assert part.hframe <= EptWalk(mem.words, eptpBase, q).value < part.hframe + part.pages;
        }
      }
    }

    /** The two allocations and the clearing of a new zone. */
    method NewZone(gpa: u64, size: u64) returns (z: Option<Zone>, hpa: u64)
      requires Valid()
      modifies heap, heap.bitmap, this`ram
      ensures Valid() && old(heap.Frames()) <= heap.Frames()
      ensures z.Some? ==>
        && z.value == Zone(gpa / 0x1000, hpa / 0x1000, (size + 0xfff) % U64 / 0x1000) && z.value.pages <= PAGES
        && (z.value.pages > 0 ==> hpa % 0x1000 == 0) && hpa + 0x1000 * z.value.pages <= 0x1000 * PAGES
        && (forall f :: z.value.hframe <= f < z.value.hframe + z.value.pages ==>
              f in heap.Frames() && f !in old(heap.Frames()))
        && ZoneCleared(ram, z.value)
      ensures z.None? ==> old(heap.Refuses(ZONE_SIZE)) || heap.Refuses(Rounded(size))
      ensures z.Some? ==> !old(heap.Refuses(ZONE_SIZE))
    {
      hide EptWalk;
      hide Tree;
      hide Bootmem.Refuses;
      hide Bootmem.Valid;
      hide Bootmem.FirstFit;
      z, hpa := None, 0;
      var zone := heap.Alloc(ZONE_SIZE);
      if zone.None? {
        return;
      }
      var pages := (size + 0xfff) % U64 / 0x1000;
      RoundedSize(size);
      var block := heap.Alloc(pages * 0x1000);
      if block.None? {
        return;
      }
      FreshFrames(block.value, pages);
      hpa := block.value;
      z := Some(Zone(gpa / 0x1000, hpa / 0x1000, pages));
      ram := CopyTo(ram, hpa, seq(pages * 0x1000, _ => 0));
    }

    /** `alloc_guest_memory`. The result is -1 when memory runs out; `ok` is false when it runs out in the
        middle of the mapping, after `k` pages, which the source does not notice. */
    method AllocGuestMemory(gpa: u64, size: u64) returns (ret: int, ok: bool, ghost k: nat)
      requires Valid()
      modifies this, heap, heap.bitmap, mem
      ensures Valid() && (ret == 0 || ret == -1)
      ensures ret == -1 ==> zones == old(zones) && mem.words == old(mem.words)
      ensures ret == -1 ==> ok && (old(heap.Refuses(ZONE_SIZE)) || heap.Refuses(Rounded(size)))
      ensures ret == 0 ==>
        && |zones| == |old(zones)| + 1 && zones[..|old(zones)|] == old(zones)
        && var z := zones[|old(zones)|];
           && z.gpage == gpa / 0x1000 && z.pages == (size + 0xfff) % U64 / 0x1000 && k <= z.pages
           && ZoneCleared(ram, z) && InUse(mem.words, eptpBase, heap.Frames(), z.(pages := k))
           && (forall q: nat :: z.(pages := k).Holds(q) ==> Leaf(mem.words, eptpBase, q).flags & 0x3f == 0x37)
           && (forall q: nat :: !z.(pages := k).Holds(q) ==>
                EptWalk(mem.words, eptpBase, q) == old(EptWalk(mem.words, eptpBase, q)))
           && (forall y :: InUse(old(mem.words), eptpBase, old(heap.Frames()), y) && Apart(z, y) ==>
                InUse(mem.words, eptpBase, heap.Frames(), y))
           && if ok then k == z.pages else k < z.pages && heap.Exhausted()
      ensures ret == 0 ==> !old(heap.Refuses(ZONE_SIZE))
    {
      hide EptWalk;
      hide Tree;
      hide ZoneMapped;
      hide Apart;
      hide Bootmem.Refuses;
      hide Bootmem.Exhausted;
      ghost var w, used := mem.words, heap.Frames();
      var z, hpa := NewZone(gpa, size);
      if z.None? {
        return -1, true, 0;
      }
      assert forall f :: f in tables ==> f in used;
      assert forall q: nat :: EptWalk(w, eptpBase, q).Some? ==> EptWalk(w, eptpBase, q).value in used;
      ret := 0;
      ok, k := MapZone(gpa, hpa, 0x1000 * z.value.pages, z.value);
      zones := zones + [z.value];
      ghost var part := z.value.(pages := k);
      ZonesKept(w, mem.words, eptpBase, part, used, heap.Frames());
      forall y | Apart(z.value, y) ensures Apart(part, y) {
        PartIsApart(z.value, k, y);
      }
    }

    /** `write_guest_memory_gpa`: only `gpa` itself is translated; `ok` is false on -EINVAL. */
    method WriteGuestMemory(gpa: nat, data: seq<Byte>) returns (ok: bool)
      modifies this`ram
      ensures ok <==> EptGpaToHpa(mem.words, eptpBase, gpa).Some?
      ensures ram == if ok then CopyTo(old(ram), EptGpaToHpa(mem.words, eptpBase, gpa).value, data) else old(ram)
    {
      var hpa := EptGpaToHpa(mem.words, eptpBase, gpa);
      ok := hpa.Some?;
      if ok {
        ram := CopyTo(ram, hpa.value, data);
      }
    }

    /** `read_guest_memory_gpa` */
    method ReadGuestMemory(gpa: nat, size: nat) returns (ok: bool, data: seq<Byte>)
      ensures ok <==> EptGpaToHpa(mem.words, eptpBase, gpa).Some?
      ensures data == if ok then CopyFrom(ram, EptGpaToHpa(mem.words, eptpBase, gpa).value, size) else []
    {
      var hpa := EptGpaToHpa(mem.words, eptpBase, gpa);
      ok := hpa.Some?;
      data := if ok then CopyFrom(ram, hpa.value, size) else [];
    }
  }

  /** A size rounded up to whole pages, in 64-bit arithmetic. */
  function Rounded(size: u64): nat { (size + 0xfff) % U64 / 0x1000 * 0x1000 }

  lemma RoundedSize(size: u64)
    ensures 0 <= (size + 0xfff) % U64 / 0x1000 * 0x1000 < U64
  {
  }

  lemma FreshFrames(addr: nat, pages: nat)
    requires pages > 0 ==> addr % 0x1000 == 0
    ensures forall f :: addr / 0x1000 <= f < addr / 0x1000 + pages ==> Block(addr, pages * 0x1000).Touches(f)
    ensures PagesIn(pages * 0x1000) == pages
  {
  }
}
