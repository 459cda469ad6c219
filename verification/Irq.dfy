/** Regions of a bitmap (include/bitmap.h), and the interrupt vectors of each CPU handed out of one
    (kernel/irq.c). */
module Irq {
  import opened Bits
  import opened Wrappers

  /** A region of `n` bits that are all clear. */
  ghost predicate FreeRegion(bytes: seq<Byte>, start: nat, n: nat) {
    start + n <= 8 * |bytes| && forall k :: start <= k < start + n ==> !BitAt(bytes, k)
  }

  ghost function SetBits(bytes: seq<Byte>): set<nat> {
    set k: nat | k < 8 * |bytes| && BitAt(bytes, k)
  }

  ghost function Region(start: nat, n: nat): set<nat> {
    if n == 0 then {} else Region(start, n - 1) + {start + n - 1}
  }

  lemma {:induction false} RegionIsExact(start: nat, n: nat)
    ensures |Region(start, n)| == n && forall k: nat :: k in Region(start, n) <==> start <= k < start + n
  {
    if n > 0 {
      RegionIsExact(start, n - 1);
    }
  }

  lemma SetBitsAfter(before: seq<Byte>, after: seq<Byte>, bit: nat, value: bool)
    requires |after| == |before| && bit < 8 * |before|
    requires forall k: nat :: k < 8 * |before| ==> (BitAt(after, k) <==> if k == bit then value else BitAt(before, k))
    ensures SetBits(after) == if value then SetBits(before) + {bit} else SetBits(before) - {bit}
  {
    hide BitAt;
  }

  class Bitmap {
    const data: array<Byte>
    const size: nat

    ghost predicate Valid()
      reads data
    {
      size == 8 * data.Length && size < 0x8000_0000
    }

    /** `bitmap_alloc`, for a multiple of eight bits */
    constructor (size: nat)
      requires size % 8 == 0 && size < 0x8000_0000
      ensures Valid() && fresh(data) && this.size == size && SetBits(data[..]) == {}
    {
      data := new Byte[size / 8](_ => 0);
      this.size := size;
    }

    /** `bitmap_get` */
    predicate Get(bit: nat)
      requires size == 8 * data.Length && bit < size
      reads data
    {
      Bit(data[bit / 8], bit % 8)
    }

    /** `bitmap_set` */
    method Set(bit: nat)
      requires Valid() && bit < size
      modifies data
      ensures SetBits(data[..]) == SetBits(old(data[..])) + {bit}
    {
      hide BitAt;
      hide SetBits;
      ghost var before := data[..];
      data[bit / 8] := data[bit / 8] | Mask(bit % 8);
      assert data[..] == before[bit / 8 := before[bit / 8] | Mask(bit % 8)];
      forall k: nat | k < size ensures BitAt(data[..], k) <==> k == bit || BitAt(before, k) {
        SetBitAt(before, bit, k);
      }
      SetBitsAfter(before, data[..], bit, true);
    }

    /** `bitmap_clear` */
    method Clear(bit: nat)
      requires Valid() && bit < size
      modifies data
      ensures SetBits(data[..]) == SetBits(old(data[..])) - {bit}
    {
      hide BitAt;
      hide SetBits;
      ghost var before := data[..];
      data[bit / 8] := data[bit / 8] & !Mask(bit % 8);
      assert data[..] == before[bit / 8 := before[bit / 8] & !Mask(bit % 8)];
      forall k: nat | k < size ensures BitAt(data[..], k) <==> k != bit && BitAt(before, k) {
        ClearBitAt(before, bit, k);
      }
      SetBitsAfter(before, data[..], bit, false);
    }

    /** `bitmap_find_free_region`: the lowest free region of `bits` bits, nothing exactly if there is none;
        and always nothing for no bits at all. The end of the region is computed in 64 bits. */
    method FindFreeRegion(bits: u64) returns (r: Option<nat>)
      requires Valid()
      ensures bits == 0 ==> r == None
      ensures r.Some? ==> bits > 0 && FreeRegion(data[..], r.value, bits)
      ensures r.Some? ==> forall i :: 0 <= i < r.value ==> !FreeRegion(data[..], i, bits)
      ensures r.None? && bits > 0 ==> forall i: nat :: !FreeRegion(data[..], i, bits)
    {
      ghost var bytes := data[..];
      for i := 0 to size
        invariant bits > 0 ==> forall k :: 0 <= k < i ==> !FreeRegion(bytes, k, bits)
      {
        assert Get(i) == BitAt(bytes, i);
        if !Get(i) {
          if (i + bits) % U64 > size {
            return None;
          }
          var j := i;
          while j < (i + bits) % U64
            invariant i <= j && (i < j ==> j < i + bits < U64) && j <= size
            invariant forall k :: i <= k < j ==> !BitAt(bytes, k)
          {
            assert Get(j) == BitAt(bytes, j);
            if Get(j) {
              break;
            }
            if j - i >= bits - 1 {
              return Some(i);
            }
            j := j + 1;
          }
          assert bits > 0 ==> !FreeRegion(bytes, i, bits);
        }
      }
      return None;
    }

    /** `bitmap_allocate_bits`: the lowest free region is claimed and no other bit changes. */
    method AllocateBits(bits: u64) returns (r: Option<nat>)
      requires Valid()
      modifies data
      ensures bits == 0 ==> r == None
      ensures r.Some? ==> bits > 0 && FreeRegion(old(data[..]), r.value, bits)
      ensures r.Some? ==> forall i :: 0 <= i < r.value ==> !FreeRegion(old(data[..]), i, bits)
      ensures r.Some? ==> SetBits(data[..]) == SetBits(old(data[..])) + Region(r.value, bits)
      ensures r.None? ==> data[..] == old(data[..])
      ensures r.None? && bits > 0 ==> forall i: nat :: !FreeRegion(old(data[..]), i, bits)
    {
      hide SetBits;
      r := FindFreeRegion(bits);
      if r.Some? {
        for i := r.value to r.value + bits
          invariant SetBits(data[..]) == SetBits(old(data[..])) + Region(r.value, i - r.value)
        {
          Set(i);
        }
      }
    }
  }

  /** A free region holds none of the bits that are set. */
  lemma FreeRegionIsApart(bytes: seq<Byte>, start: nat, n: nat)
    requires FreeRegion(bytes, start, n)
    ensures start + n <= 8 * |bytes|
    ensures SetBits(bytes) !! Region(start, n) && |SetBits(bytes) + Region(start, n)| == |SetBits(bytes)| + n
  {
    RegionIsExact(start, n);
    assert SetBits(bytes) !! Region(start, n);
    assert |SetBits(bytes) + Region(start, n)| == |SetBits(bytes)| + |Region(start, n)|;
  }

  /** The vectors of one grant. */
  ghost function Granted(start: nat, n: nat, grant: nat): (m: map<nat, nat>)
    ensures m.Keys == Region(start, n) && forall k :: k in m ==> m[k] == grant
  {
    map k | k in Region(start, n) :: grant
  }

  /** `struct cpu`, as far as its vectors go. `holder` says which grant each vector in use belongs to, and
      `spurious` counts the calls of `free_irq` for vectors that were not in use. */
  class Cpu {
    const id: int
    const bitmap: Bitmap
    var irqNr: int

    ghost var holder: map<nat, nat>
    ghost var grants: nat
    ghost var spurious: nat

    /** The counter starts at the size of the bitmap, and is ahead of that by the vectors in use, less one for
        each spurious call. */
    ghost predicate Valid()
      reads this, bitmap.data
    {
      && bitmap.Valid() && holder.Keys == SetBits(bitmap.data[..])
      && irqNr == bitmap.size + |SetBits(bitmap.data[..])| - spurious
      && forall k :: k in holder ==> holder[k] < grants
    }

    constructor (id: int, size: nat)
      requires size % 8 == 0 && size < 0x8000_0000
      ensures Valid() && fresh(bitmap) && fresh(bitmap.data) && this.id == id && bitmap.size == size
      ensures holder == map[] && spurious == 0
    {
      this.id := id;
      irqNr := size;
      bitmap := new Bitmap(size);
      holder, grants, spurious := map[], 0, 0;
    }

    /** What `alloc_irqs_cpu` does at the CPU it finds: a new grant gets `nr` vectors in a row that nobody
        holds, the lowest such, and everybody else keeps theirs. */
    method Alloc(nr: int) returns (r: Option<nat>)
      requires Valid() && -0x8000_0000 <= nr < 0x8000_0000
      modifies this`irqNr, this`holder, this`grants, bitmap.data
      ensures Valid()
      ensures r.None? ==> holder == old(holder) && irqNr == old(irqNr) && grants == old(grants)
      ensures r.None? ==> bitmap.data[..] == old(bitmap.data[..])
      ensures r.None? && nr > 0 ==> forall i: nat :: !FreeRegion(old(bitmap.data[..]), i, nr)
      ensures r.Some? ==> nr > 0 && FreeRegion(old(bitmap.data[..]), r.value, nr)
      ensures r.Some? ==> forall i :: 0 <= i < r.value ==> !FreeRegion(old(bitmap.data[..]), i, nr)
      ensures r.Some? ==> old(holder).Keys !! Region(r.value, nr) && irqNr == old(irqNr) + nr
      ensures r.Some? ==> holder == old(holder) + Granted(r.value, nr, old(grants)) && grants == old(grants) + 1
    {
      hide SetBits;
      hide Region;
      hide FreeRegion;
      hide Granted;
      hide BitAt;
      var bits: u64 := if nr < 0 then nr + U64 else nr;
      r := bitmap.AllocateBits(bits);
      if r.Some? {
        RegionIsExact(r.value, bits);
        FreeRegionIsApart(old(bitmap.data[..]), r.value, bits);
        irqNr := irqNr + nr;
        holder := holder + Granted(r.value, nr, grants);
        grants := grants + 1;
      }
    }

    /** What `free_irq` does at the CPU it finds; it does not look whether the vector is in use. */
    method Free(irq: nat)
      requires Valid() && irq < bitmap.size
      modifies this`irqNr, this`holder, this`spurious, bitmap.data
      ensures Valid() && holder == old(holder) - {irq} && irqNr == old(irqNr) - 1
      ensures spurious == old(spurious) + if irq in old(holder) then 0 else 1
    {
      spurious := spurious + if irq in holder then 0 else 1;
      irqNr := irqNr - 1;
      bitmap.Clear(irq);
      holder := holder - {irq};
    }

    /** Any sequence of calls: it is a run, and the counter moves with the number of vectors in use, less the
        calls that freed a vector not in use. */
    method Run(calls: seq<Call>) returns (ghost holders: seq<map<nat, nat>>)
      requires Valid() && forall c :: c in calls ==> c.Possible(bitmap.size)
      modifies this, bitmap.data
      ensures Valid() && IsRun(holders, calls, bitmap.size)
      ensures holders[0] == old(holder) && holders[|calls|] == holder
      ensures irqNr == old(irqNr) + |holder.Keys| - |old(holder).Keys| - Misuses(holders, calls)
    {
      hide SetBits;
      hide IsRun;
      hide Step;
      holders := [holder];
      NoCalls(holder, bitmap.size);
      for n := 0 to |calls|
        invariant Valid() && |holders| == n + 1 && IsRun(holders, calls[..n], bitmap.size)
        invariant holders[0] == old(holder) && holders[n] == holder
        invariant spurious == old(spurious) + Misuses(holders, calls[..n])
      {
        Handle(calls[n]);
        RunGrows(holders, calls[..n], bitmap.size, calls[n], holder);
        assert calls[..n + 1] == calls[..n] + [calls[n]];
        holders := holders + [holder];
      }
      assert calls[..|calls|] == calls;
    }

    method Handle(call: Call)
      requires Valid() && call.Possible(bitmap.size)
      modifies this, bitmap.data
      ensures Valid() && Step(old(holder), call, holder, bitmap.size)
      ensures spurious == old(spurious) + if Misused(old(holder), call) then 1 else 0
    {
      hide FreeRegion;
      hide SetBits;
      hide Granted;
      hide Region;
      hide BitAt;
      hide Fits;
      ghost var bytes, h := bitmap.data[..], holder;
      match call
      case AllocIrqs(nr) =>
        var r := Alloc(nr);
        forall i: nat | nr > 0 ensures FreeRegion(bytes, i, nr) <==> Fits(h, bitmap.size, i, nr) {
          FreeRegionFits(bytes, h, i, nr);
        }
        AllocSteps(h, nr, holder, bitmap.size, r, old(grants));
      case FreeIrq(irq) =>
        Free(irq);
    }
  }

  datatype Call = AllocIrqs(nr: int) | FreeIrq(irq: int) {
    predicate Possible(size: nat) {
      match this
      case AllocIrqs(nr) => -0x8000_0000 <= nr < 0x8000_0000
      case FreeIrq(irq) => 0 <= irq < size
    }
  }

  /** `n` vectors in a row that nobody holds. */
  ghost predicate Fits(h: map<nat, nat>, size: nat, start: nat, n: nat) {
    start + n <= size && forall k :: start <= k < start + n ==> k !in h
  }

  lemma FreeRegionFits(bytes: seq<Byte>, h: map<nat, nat>, start: nat, n: nat)
    requires h.Keys == SetBits(bytes)
    ensures FreeRegion(bytes, start, n) <==> Fits(h, 8 * |bytes|, start, n)
  {
    hide BitAt;
    if start + n <= 8 * |bytes| {
      forall k: nat | start <= k < start + n ensures BitAt(bytes, k) <==> k in h {
        assert k in SetBits(bytes) <==> k in h.Keys;
      }
    }
  }

  predicate Misused(h: map<nat, nat>, call: Call) { call.FreeIrq? && (call.irq < 0 || call.irq !in h) }

  /** Who holds which vector after a call: a new grant takes the lowest vectors in a row that are free, if there
      are any, and a freed vector has no holder. */
  ghost predicate Step(h: map<nat, nat>, call: Call, h': map<nat, nat>, size: nat) {
    match call
    case AllocIrqs(nr) =>
      if nr > 0 && exists i: nat :: Fits(h, size, i, nr) then
        exists start: nat, grant: nat ::
          && Fits(h, size, start, nr) && (forall i: nat :: i < start ==> !Fits(h, size, i, nr))
          && grant !in h.Values && h' == h + Granted(start, nr, grant)
      else h' == h
    case FreeIrq(irq) => h' == if irq < 0 then h else h - {irq}
  }

  lemma AllocSteps(h: map<nat, nat>, nr: int, h': map<nat, nat>, size: nat, r: Option<nat>, grant: nat)
    requires r.Some? ==>
      && nr > 0 && Fits(h, size, r.value, nr) && (forall i: nat :: i < r.value ==> !Fits(h, size, i, nr))
      && (forall k :: k in h ==> h[k] < grant) && h' == h + Granted(r.value, nr, grant)
    requires r.None? ==> h' == h && (nr > 0 ==> forall i: nat :: !Fits(h, size, i, nr))
    ensures Step(h, AllocIrqs(nr), h', size)
  {
    hide Fits;
    hide Granted;
    if r.Some? {
      assert grant !in h.Values;
    }
  }

  ghost predicate IsRun(hs: seq<map<nat, nat>>, calls: seq<Call>, size: nat) {
    |hs| == |calls| + 1 && forall i :: 0 <= i < |calls| ==> Step(hs[i], calls[i], hs[i + 1], size)
  }

  lemma NoCalls(h: map<nat, nat>, size: nat)
    ensures IsRun([h], [], size)
  {
  }

  lemma RunGrows(hs: seq<map<nat, nat>>, calls: seq<Call>, size: nat, call: Call, h: map<nat, nat>)
    requires IsRun(hs, calls, size) && Step(hs[|calls|], call, h, size)
    ensures IsRun(hs + [h], calls + [call], size)
    ensures Misuses(hs + [h], calls + [call]) == Misuses(hs, calls) + if Misused(hs[|calls|], call) then 1 else 0
  {
    hide Step;
    assert (hs + [h])[..|hs|] == hs && (calls + [call])[..|calls|] == calls;
  }

  /** How many calls of a run free a vector that is not in use. */
  ghost function Misuses(hs: seq<map<nat, nat>>, calls: seq<Call>): nat
    requires |hs| == |calls| + 1
  {
    if calls == [] then 0
    else
      var n := |calls| - 1;
      Misuses(hs[..|hs| - 1], calls[..n]) + if Misused(hs[n], calls[n]) then 1 else 0
  }

  /** In any run a grant keeps its vectors until they are freed, so no two live grants share one. */
  lemma {:induction false} GrantsKeepVectors(hs: seq<map<nat, nat>>, calls: seq<Call>, size: nat,
                                             i: nat, j: nat, k: nat)
    requires IsRun(hs, calls, size) && i <= j <= |calls| && k in hs[i]
    requires forall n :: i <= n < j ==> calls[n] != FreeIrq(k)
    ensures k in hs[j] && hs[j][k] == hs[i][k]
    decreases j - i
  {
    if i < j {
      GrantsKeepVectors(hs, calls, size, i, j - 1, k);
      StepKeepsVector(hs[j - 1], calls[j - 1], hs[j - 1 + 1], size, k);
    }
  }

  lemma StepKeepsVector(h: map<nat, nat>, call: Call, h': map<nat, nat>, size: nat, k: nat)
    requires Step(h, call, h', size) && k in h && call != FreeIrq(k)
    ensures k in h' && h'[k] == h[k]
  {
    hide Granted;
    if call.AllocIrqs? && h' != h {
      var start: nat, grant: nat :| Fits(h, size, start, call.nr) && h' == h + Granted(start, call.nr, grant);
      RegionIsExact(start, call.nr);
      hide Region;
      assert k !in Granted(start, call.nr, grant).Keys;
    }
  }

  /** CPUs with numbers and bitmaps of their own. */
  ghost predicate Separate(cpus: seq<Cpu>)
    reads cpus, set c | c in cpus :: c.bitmap.data
  {
    && (forall c :: 0 <= c < |cpus| ==> cpus[c].Valid())
    && forall c, d :: 0 <= c < d < |cpus| ==> cpus[c].id != cpus[d].id && cpus[c].bitmap.data != cpus[d].bitmap.data
  }

  twostate predicate Untouched(c: Cpu)
    reads c, c.bitmap.data
  {
    && c.irqNr == old(c.irqNr) && c.holder == old(c.holder) && c.grants == old(c.grants)
    && c.spurious == old(c.spurious) && c.bitmap.data[..] == old(c.bitmap.data[..])
  }

  /** The CPU with number `id`, or the number of CPUs if there is none. */
  function Find(cpus: seq<Cpu>, id: int): (at: nat)
    ensures at <= |cpus| && (at < |cpus| ==> cpus[at].id == id)
    ensures forall c :: 0 <= c < at ==> cpus[c].id != id
  {
    if cpus == [] then 0 else if cpus[0].id == id then 0 else 1 + Find(cpus[1..], id)
  }

  /** `alloc_irqs_cpu`: the CPUs in the order the nested lists of nodes and CPUs visit them. The one with the
      number asked for is asked; all others, and all of them on failure, are left alone. */
  method AllocIrqsCpu(cpus: seq<Cpu>, cpu: int, nr: int) returns (r: Option<nat>)
    requires Separate(cpus) && -0x8000_0000 <= nr < 0x8000_0000
    modifies cpus, set c | c in cpus :: c.bitmap.data
    ensures Separate(cpus)
    ensures forall c :: 0 <= c < |cpus| && (r.None? || c != Find(cpus, cpu)) ==> Untouched(cpus[c])
    ensures r.Some? ==>
      var at := Find(cpus, cpu);
      && at < |cpus| && nr > 0 && old(cpus[at].holder).Keys !! Region(r.value, nr)
      && FreeRegion(old(cpus[at].bitmap.data[..]), r.value, nr)
      && (forall i :: 0 <= i < r.value ==> !FreeRegion(old(cpus[at].bitmap.data[..]), i, nr))
      && cpus[at].holder == old(cpus[at].holder) + Granted(r.value, nr, old(cpus[at].grants))
      && cpus[at].irqNr == old(cpus[at].irqNr) + nr && cpus[at].grants == old(cpus[at].grants) + 1
    ensures r.None? && Find(cpus, cpu) < |cpus| && nr > 0 ==>
      forall i: nat :: !FreeRegion(old(cpus[Find(cpus, cpu)].bitmap.data[..]), i, nr)
  {
    hide SetBits;
    hide Region;
    hide FreeRegion;
    hide Granted;
    hide Find;
    hide Cpu.Valid;
    r := None;
    for c := 0 to |cpus|
      invariant Separate(cpus) && r == None
      invariant forall d :: 0 <= d < |cpus| ==> Untouched(cpus[d])
      invariant Find(cpus, cpu) < c && nr > 0 ==>
        forall i: nat :: !FreeRegion(old(cpus[Find(cpus, cpu)].bitmap.data[..]), i, nr)
    {
      if cpus[c].id == cpu {
        assert c == Find(cpus, cpu);
        r := cpus[c].Alloc(nr);
        if r.Some? {
          return;
        }
      }
    }
  }

  /** `free_irq`: the vector goes back at the first CPU with the number; false if there is none. */
  method FreeIrqOfCpu(cpus: seq<Cpu>, cpu: int, irq: nat) returns (found: bool)
    requires Separate(cpus) && forall c :: 0 <= c < |cpus| ==> irq < cpus[c].bitmap.size
    modifies cpus, set c | c in cpus :: c.bitmap.data
    ensures Separate(cpus) && (found <==> Find(cpus, cpu) < |cpus|)
    ensures forall c :: 0 <= c < |cpus| && c != Find(cpus, cpu) ==> Untouched(cpus[c])
    ensures found ==>
      var at := Find(cpus, cpu);
      && cpus[at].holder == old(cpus[at].holder) - {irq} && cpus[at].irqNr == old(cpus[at].irqNr) - 1
      && cpus[at].spurious == old(cpus[at].spurious) + if irq in old(cpus[at].holder) then 0 else 1
  {
    hide Region;
    hide FreeRegion;
    hide BitAt;
    hide Bitmap.Valid;
    hide SetBits;
    hide Find;
    hide Cpu.Valid;
    for c := 0 to |cpus|
      invariant Separate(cpus) && c <= Find(cpus, cpu)
      invariant forall d :: 0 <= d < |cpus| ==> Untouched(cpus[d])
    {
      if cpus[c].id == cpu {
        assert c == Find(cpus, cpu);
        cpus[c].Free(irq);
        return true;
      }
    }
    return false;
  }

  /** A bitmap has a clear bit exactly if fewer bits are set than it has. */
  lemma CountTellsRoom(bytes: seq<Byte>)
    ensures |SetBits(bytes)| <= 8 * |bytes|
    ensures |SetBits(bytes)| < 8 * |bytes| <==> exists k: nat :: FreeRegion(bytes, k, 1)
  {
    hide BitAt;
    var n := 8 * |bytes|;
    var all := Region(0, n);
    RegionIsExact(0, n);
    SubsetIsSmaller(SetBits(bytes), all);
    if k: nat :| k < n && !BitAt(bytes, k) {
      assert k in all && k !in SetBits(bytes);
      assert FreeRegion(bytes, k, 1);
    } else {
      assert SetBits(bytes) == all;
      forall k: nat ensures !FreeRegion(bytes, k, 1) {
        assert k < n ==> BitAt(bytes, k);
      }
    }
  }

  lemma {:induction false} SubsetIsSmaller(s: set<nat>, t: set<nat>)
    requires s <= t
    ensures |s| <= |t| && (|s| == |t| <==> s == t)
  {
    if s != {} {
      var x :| x in s;
      SubsetIsSmaller(s - {x}, t - {x});
    } else if t != {} {
      assert |t| > 0;
    }
  }

  /** The choice of `alloc_irq_from_smp` among the CPUs, in the order the nested lists of nodes and CPUs
      visit them: the first of those with the smallest counter. */
  method LeastLoaded(cpus: seq<Cpu>) returns (r: Option<nat>)
    ensures r.Some? ==> r.value < |cpus| && cpus[r.value].irqNr < 0xffff
    ensures r.Some? ==> forall c :: 0 <= c < |cpus| ==> cpus[r.value].irqNr <= cpus[c].irqNr
    ensures r.Some? ==> forall c :: 0 <= c < r.value ==> cpus[r.value].irqNr < cpus[c].irqNr
    ensures r.None? <==> forall c :: 0 <= c < |cpus| ==> cpus[c].irqNr >= 0xffff
  {
    r := None;
    var minIrqs := 0xffff;
    for c := 0 to |cpus|
      invariant r.Some? ==> r.value < c && cpus[r.value].irqNr == minIrqs < 0xffff
      invariant r.None? ==> minIrqs == 0xffff
      invariant forall d :: 0 <= d < c ==> minIrqs <= cpus[d].irqNr
      invariant r.Some? ==> forall d :: 0 <= d < r.value ==> minIrqs < cpus[d].irqNr
    {
      if cpus[c].irqNr < minIrqs {
        minIrqs := cpus[c].irqNr;
        r := Some(c);
      }
    }
  }

  /** The counters are a sound guide: among bitmaps of one size the least loaded CPU has a vector to give
      unless no CPU has one. */
  lemma LeastLoadedHasRoom(cpus: seq<Cpu>, r: nat)
    requires r < |cpus| && forall c :: 0 <= c < |cpus| ==>
      && cpus[c].Valid() && cpus[c].bitmap.size == cpus[r].bitmap.size && cpus[c].spurious == cpus[r].spurious
      && cpus[r].irqNr <= cpus[c].irqNr
    ensures (exists k: nat :: FreeRegion(cpus[r].bitmap.data[..], k, 1)) <==>
      exists c :: 0 <= c < |cpus| && exists k: nat :: FreeRegion(cpus[c].bitmap.data[..], k, 1)
  {
    hide FreeRegion;
    hide SetBits;
    forall c | 0 <= c < |cpus|
      ensures (exists k: nat :: FreeRegion(cpus[c].bitmap.data[..], k, 1)) <==>
        |SetBits(cpus[c].bitmap.data[..])| < cpus[r].bitmap.size
    {
      CountTellsRoom(cpus[c].bitmap.data[..]);
    }
  }
}
