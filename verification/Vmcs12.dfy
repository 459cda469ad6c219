/** The VMCS that the guest hypervisor keeps for its guest (arch/x86_64/kvm/vmx/vmcs12.h, vmcs12.c), and
    the copies between it and the shadow VMCS (arch/x86_64/kvm/vmx/nested.c). */
module Vmcs12 {
  import opened Wrappers

  type byte = x: int | 0 <= x < 0x100

  /** A field encoding. */
  type Field = x: int | 0 <= x < 0x1_0000

  datatype Width = U16Wide | U64Wide | U32Wide | NaturalWide {
    function Bytes(): nat {
      match this
      case U16Wide => 2
      case U32Wide => 4
      case _ => 8
    }
  }

  /** `vmcs_field_width`: the upper half of a 64-bit field has an odd encoding. */
  function WidthOf(f: Field): Width {
    if f % 2 == 1 then U32Wide
    else
      match f / 0x2000 % 4
      case 0 => U16Wide
      case 1 => U64Wide
      case 2 => U32Wide
      case _ => NaturalWide
  }

  /** Where the groups of `struct vmcs12` start, with the alignment its header of eight bytes brings. */
  const GROUP64 := 48
  const GROUP_NATURAL := 352
  const GROUP32 := 752
  const GROUP16 := 968
  const SIZE := 1008

  /** The place of an even field in its group, in the order of the members of the structure. */
  function PlaceOf(f: Field): Option<nat>
    requires f % 2 == 0
  {
    // 16 bits
    if f == 0x0000 || f == 0x0002 then Some(f / 2)
    else if 0x0800 <= f <= 0x0810 then Some(2 + (f - 0x0800) / 2)
    else if 0x0c00 <= f <= 0x0c0c then Some(11 + (f - 0x0c00) / 2)
    else if f == 0x0812 then Some(18)
    // 64 bits
    else if 0x2000 <= f <= 0x200a then Some((f - 0x2000) / 2)
    else if 0x2010 <= f <= 0x2016 then Some(6 + (f - 0x2010) / 2)
    else if 0x201a <= f <= 0x2022 then Some(10 + (f - 0x201a) / 2)
    else if f == 0x202c then Some(15)
    else if f == 0x2400 then Some(16)
    else if 0x2800 <= f <= 0x2812 then Some(17 + (f - 0x2800) / 2)
    else if 0x2c00 <= f <= 0x2c04 then Some(27 + (f - 0x2c00) / 2)
    else if f == 0x2026 then Some(30)
    else if f == 0x2028 then Some(31)
    else if f == 0x2018 then Some(32)
    else if f == 0x2024 then Some(33)
    else if f == 0x200e then Some(34)
    // 32 bits
    else if 0x4000 <= f <= 0x401e then Some((f - 0x4000) / 2)
    else if 0x4400 <= f <= 0x440e then Some(16 + (f - 0x4400) / 2)
    else if 0x4800 <= f <= 0x4826 then Some(24 + (f - 0x4800) / 2)
    else if f == 0x482a then Some(44)
    else if f == 0x4c00 then Some(45)
    else if f == 0x482e then Some(46)
    // natural width
    else if 0x6000 <= f <= 0x600e then Some((f - 0x6000) / 2)
    else if f == 0x6400 then Some(8)
    else if f == 0x640a then Some(9)
    else if 0x6800 <= f <= 0x6826 then Some(10 + (f - 0x6800) / 2)
    else if 0x6c00 <= f <= 0x6c16 then Some(30 + (f - 0x6c00) / 2)
    else None
  }

  function Group(w: Width): nat {
    match w
    case U16Wide => GROUP16
    case U64Wide => GROUP64
    case U32Wide => GROUP32
    case NaturalWide => GROUP_NATURAL
  }

  /** The offset a member has in the structure; the upper half of a 64-bit one lies four bytes further. */
  function OffsetOf(f: Field): Option<nat> {
    if f % 2 == 0 then
      match PlaceOf(f)
      case None => None
      case Some(k) => Some(Group(WidthOf(f)) + WidthOf(f).Bytes() * k)
    else if WidthOf(f - 1) != U64Wide then None
    else
      match PlaceOf(f - 1)
      case None => None
      case Some(k) => Some(GROUP64 + 8 * k + 4)
  }

  lemma PlaceFits(f: Field)
    requires f % 2 == 0 && PlaceOf(f).Some?
    ensures f < 0x8000
    ensures PlaceOf(f).value <
      match WidthOf(f) case U16Wide => 19 case U64Wide => 35 case U32Wide => 47 case NaturalWide => 42
  {
  }

  /** The other way round: the even field at a place. */
  function FieldAt(w: Width, k: nat): int {
    match w
    case U16Wide =>
      if k < 2 then 2 * k else if k < 11 then 0x0800 + 2 * (k - 2) else if k < 18 then 0x0c00 + 2 * (k - 11) else 0x0812
    case U64Wide =>
      if k < 6 then 0x2000 + 2 * k
      else if k < 10 then 0x2010 + 2 * (k - 6)
      else if k < 15 then 0x201a + 2 * (k - 10)
      else if k == 15 then 0x202c
      else if k == 16 then 0x2400
      else if k < 27 then 0x2800 + 2 * (k - 17)
      else if k < 30 then 0x2c00 + 2 * (k - 27)
      else if k == 30 then 0x2026
      else if k == 31 then 0x2028
      else if k == 32 then 0x2018
      else if k == 33 then 0x2024
      else 0x200e
    case U32Wide =>
      if k < 16 then 0x4000 + 2 * k
      else if k < 24 then 0x4400 + 2 * (k - 16)
      else if k < 44 then 0x4800 + 2 * (k - 24)
      else if k == 44 then 0x482a
      else if k == 45 then 0x4c00
      else 0x482e
    case NaturalWide =>
      if k < 8 then 0x6000 + 2 * k
      else if k == 8 then 0x6400
      else if k == 9 then 0x640a
      else if k < 30 then 0x6800 + 2 * (k - 10)
      else 0x6c00 + 2 * (k - 30)
  }

  lemma FieldAtPlace(f: Field)
    requires f % 2 == 0 && PlaceOf(f).Some?
    ensures FieldAt(WidthOf(f), PlaceOf(f).value) == f
  {
    hide FieldAt;
    hide PlaceOf;
    hide WidthOf;
    if f < 0x4000 {
      NarrowFieldAtPlace(f);
    } else {
      WideFieldAtPlace(f);
    }
  }

  /** and every place of a group is taken. */
  lemma PlaceOfFieldAt(w: Width, k: nat)
    requires k < match w case U16Wide => 19 case U64Wide => 35 case U32Wide => 47 case NaturalWide => 42
    ensures 0 <= FieldAt(w, k) < 0x8000 && FieldAt(w, k) % 2 == 0
    ensures WidthOf(FieldAt(w, k)) == w && PlaceOf(FieldAt(w, k)) == Some(k)
  {
    hide WidthOf;
    WidthOfFieldAt(w, k);
  }

  lemma WidthOfFieldAt(w: Width, k: nat)
    requires k < match w case U16Wide => 19 case U64Wide => 35 case U32Wide => 47 case NaturalWide => 42
    ensures 0 <= FieldAt(w, k) < 0x8000 && FieldAt(w, k) % 2 == 0 && WidthOf(FieldAt(w, k)) == w
  {
  }

  lemma NarrowFieldAtPlace(f: Field)
    requires f % 2 == 0 && f < 0x4000 && PlaceOf(f).Some?
    ensures FieldAt(WidthOf(f), PlaceOf(f).value) == f
  {
  }

  lemma WideFieldAtPlace(f: Field)
    requires f % 2 == 0 && f >= 0x4000 && PlaceOf(f).Some?
    ensures FieldAt(WidthOf(f), PlaceOf(f).value) == f
  {
  }

  /** Two members never share a byte, whatever their widths. */
  lemma SlotsAreDisjoint(f: Field, g: Field)
    requires f % 2 == 0 && g % 2 == 0 && f != g && OffsetOf(f).Some? && OffsetOf(g).Some?
    ensures OffsetOf(f).value + WidthOf(f).Bytes() <= OffsetOf(g).value ||
      OffsetOf(g).value + WidthOf(g).Bytes() <= OffsetOf(f).value
  {
    hide PlaceOf;
    hide WidthOf;
    hide FieldAt;
    PlaceFits(f);
    PlaceFits(g);
    FieldAtPlace(f);
    FieldAtPlace(g);
  }

  lemma SlotIsInside(f: Field)
    requires f % 2 == 0 && OffsetOf(f).Some?
    ensures f < 0x8000 && 0 < OffsetOf(f).value && OffsetOf(f).value + WidthOf(f).Bytes() <= SIZE
  {
    hide PlaceOf;
    hide WidthOf;
    PlaceFits(f);
  }

  /** `ROL16(f, 6)` on 16-bit words: the two shifted parts have no bit in common, so their union is a sum. */
  lemma RotationIsSum(v: bv16)
    ensures (v << 6) | (v >> 10) == v % 0x400 * 0x40 + v / 0x400
  {
  }

  /** The same sum on encodings. */
  function Rol6(f: Field): int { f % 0x400 * 0x40 + f / 0x400 }

  function Ror6(i: int): int { i % 0x40 * 0x400 + i / 0x40 }

  lemma RotationIsInjective(f: Field)
    ensures Ror6(Rol6(f)) == f
  {
    var high, low := f / 0x400, f % 0x400;
    assert Rol6(f) == 0x40 * low + high;
    assert (0x40 * low + high) / 0x40 == low && (0x40 * low + high) % 0x40 == high;
  }

  /** The table that a list of initializers makes: a later one for the same index would win. */
  function Table(fs: seq<Field>): map<int, nat>
    requires forall k :: 0 <= k < |fs| ==> OffsetOf(fs[k]).Some?
  {
    if fs == [] then map[]
    else
      var n := |fs| - 1;
      Table(fs[..n])[Rol6(fs[n]) := OffsetOf(fs[n]).value]
  }

  lemma {:induction false} TableIsExact(fs: seq<Field>, f: Field)
    requires forall k :: 0 <= k < |fs| ==> OffsetOf(fs[k]).Some?
    ensures Rol6(f) in Table(fs) <==> f in fs
    ensures f in fs ==> OffsetOf(f) == Some(Table(fs)[Rol6(f)])
  {
    hide OffsetOf;
    hide Rol6;
    if fs != [] {
      var n := |fs| - 1;
      TableIsExact(fs[..n], f);
      assert fs == fs[..n] + [fs[n]];
      RotationIsInjective(f);
      RotationIsInjective(fs[n]);
    }
  }

  /** The initializers of `vmcs_field_to_offset_table`, in whatever order, are the members. */
  ghost predicate Lists(fs: seq<Field>) {
    && (forall k :: 0 <= k < |fs| ==> OffsetOf(fs[k]).Some?)
    && forall f: Field :: OffsetOf(f).Some? ==> f in fs
  }

  /** There is such a list. */
  lemma {:induction false} MembersUpTo(n: nat) returns (fs: seq<Field>)
    requires n <= 0x1_0000
    ensures forall k :: 0 <= k < |fs| ==> OffsetOf(fs[k]).Some?
    ensures forall f: Field :: f < n && OffsetOf(f).Some? ==> f in fs
    ensures n == 0x1_0000 ==> Lists(fs)
  {
    hide OffsetOf;
    fs := [];
    if n > 0 {
      fs := MembersUpTo(n - 1);
      if OffsetOf(n - 1).Some? {
        var before := fs;
        fs := fs + [n - 1];
        assert fs[|before|] == n - 1 && forall f :: f in before ==> f in fs;
      }
    }
  }

  /** `vmcs_field_to_offset`: an index past the table, or without an initializer, gives nothing. */
  function FieldToOffset(fs: seq<Field>, field: u64): Option<nat>
    requires forall k :: 0 <= k < |fs| ==> OffsetOf(fs[k]).Some?
  {
    if field / 0x8000 != 0 || Rol6(field) !in Table(fs) || Table(fs)[Rol6(field)] == 0 then None
    else Some(Table(fs)[Rol6(field)])
  }

  /** The rotated index loses nothing: every member is found at its offset, and nothing else is found. */
  lemma FieldToOffsetIsExact(fs: seq<Field>, field: u64)
    requires Lists(fs)
    ensures FieldToOffset(fs, field) == if field < 0x1_0000 then OffsetOf(field) else None
  {
    if field < 0x1_0000 {
      TableIsExact(fs, field);
      if OffsetOf(field).Some? {
        OffsetIsPositive(field);
      }
    }
  }

  lemma OffsetIsPositive(f: Field)
    requires OffsetOf(f).Some?
    ensures f < 0x8000 && OffsetOf(f).value > 0
  {
    if f % 2 == 0 {
      SlotIsInside(f);
    } else {
      SlotIsInside(f - 1);
    }
  }

  /** A little-endian load of `n` bytes. */
  function Load(bytes: seq<byte>, off: nat, n: nat): nat
    requires off + n <= |bytes|
    decreases n
  {
    if n == 0 then 0 else bytes[off] + 0x100 * Load(bytes, off + 1, n - 1)
  }

  function Store(bytes: seq<byte>, off: nat, n: nat, value: nat): (r: seq<byte>)
    requires off + n <= |bytes|
    ensures |r| == |bytes|
    decreases n
  {
    if n == 0 then bytes else Store(bytes[off := value % 0x100], off + 1, n - 1, value / 0x100)
  }

  function Modulus(n: nat): (m: nat)
    ensures m > 0
  {
    if n == 0 then 1 else 0x100 * Modulus(n - 1)
  }

  /** A value cut to the width of a field. */
  function Cut(f: Field, value: nat): nat { value % Modulus(WidthOf(f).Bytes()) }

  /** In numbers: bits 13 and 14 of an encoding give the width, and upper halves have 32 bits. */
  lemma CutByEncoding(f: Field, value: nat)
    ensures Cut(f, value) == value % (
      if f % 2 == 1 then 0x1_0000_0000
      else if f / 0x2000 % 4 == 0 then 0x1_0000
      else if f / 0x2000 % 4 == 2 then 0x1_0000_0000
      else 0x1_0000_0000_0000_0000)
  {
    assert Modulus(2) == 0x1_0000;
    assert Modulus(4) == 0x1_0000_0000;
    assert Modulus(8) == 0x1_0000_0000_0000_0000;
  }

  lemma {:induction false} StoreIsLocal(bytes: seq<byte>, off: nat, n: nat, value: nat, k: nat)
    requires off + n <= |bytes| && k < |bytes| && !(off <= k < off + n)
    ensures Store(bytes, off, n, value)[k] == bytes[k]
    decreases n
  {
    if n > 0 {
      StoreIsLocal(bytes[off := value % 0x100], off + 1, n - 1, value / 0x100, k);
    }
  }

  lemma {:induction false} LoadIsLocal(bytes: seq<byte>, bytes': seq<byte>, off: nat, n: nat)
    requires off + n <= |bytes| == |bytes'| && forall k :: off <= k < off + n ==> bytes'[k] == bytes[k]
    ensures Load(bytes', off, n) == Load(bytes, off, n)
    decreases n
  {
    if n > 0 {
      LoadIsLocal(bytes, bytes', off + 1, n - 1);
    }
  }

  lemma {:induction false} LoadFits(bytes: seq<byte>, off: nat, n: nat)
    requires off + n <= |bytes|
    ensures Load(bytes, off, n) < Modulus(n)
    decreases n
  {
    if n > 0 {
      LoadFits(bytes, off + 1, n - 1);
    }
  }

  /** What was stored is loaded, cut to the width. */
  lemma {:induction false} LoadStore(bytes: seq<byte>, off: nat, n: nat, value: nat)
    requires off + n <= |bytes| && value < Modulus(n)
    ensures Load(Store(bytes, off, n, value), off, n) == value
    decreases n
  {
    if n > 0 {
      var bytes' := bytes[off := value % 0x100];
      LoadStore(bytes', off + 1, n - 1, value / 0x100);
      StoreIsLocal(bytes', off + 1, n - 1, value / 0x100, off);
    }
  }

  /** Storing what is there changes nothing. */
  lemma {:induction false} StoreLoad(bytes: seq<byte>, off: nat, n: nat)
    requires off + n <= |bytes|
    ensures Store(bytes, off, n, Load(bytes, off, n)) == bytes
    decreases n
  {
    if n > 0 {
      var rest := Load(bytes, off + 1, n - 1);
      assert (bytes[off] + 0x100 * rest) % 0x100 == bytes[off] && (bytes[off] + 0x100 * rest) / 0x100 == rest;
      assert bytes[off := bytes[off]] == bytes;
      StoreLoad(bytes, off + 1, n - 1);
    }
  }

  /** `vmcs12_read_any`: the value, zero-extended, or nothing. */
  function ReadAny(bytes: seq<byte>, f: Field): Option<nat>
    requires |bytes| == SIZE
  {
    match OffsetOf(f)
    case None => None
    case Some(off) => SlotOfAnyIsInside(f); Some(Load(bytes, off, WidthOf(f).Bytes()))
  }

  /** `vmcs12_write_any`: the value is cut to the width of the field. */
  function WriteAny(bytes: seq<byte>, f: Field, value: nat): (r: seq<byte>)
    requires |bytes| == SIZE
    ensures |r| == SIZE
  {
    match OffsetOf(f)
    case None => bytes
    case Some(off) => SlotOfAnyIsInside(f); Store(bytes, off, WidthOf(f).Bytes(), Cut(f, value))
  }

  lemma SlotOfAnyIsInside(f: Field)
    requires OffsetOf(f).Some?
    ensures OffsetOf(f).value + WidthOf(f).Bytes() <= SIZE
  {
    if f % 2 == 0 {
      SlotIsInside(f);
    } else {
      SlotIsInside(f - 1);
    }
  }

  lemma SmallModulo(x: nat, m: nat)
    requires x < m
    ensures x % m == x
  {
  }

  /** What is read fits the width of the field. */
  lemma ReadIsCut(bytes: seq<byte>, f: Field)
    requires |bytes| == SIZE && OffsetOf(f).Some?
    ensures ReadAny(bytes, f).Some? && Cut(f, ReadAny(bytes, f).value) == ReadAny(bytes, f).value
  {
    hide OffsetOf;
    hide WidthOf;
    SlotOfAnyIsInside(f);
    var n := WidthOf(f).Bytes();
    hide Load;
    hide Modulus;
    LoadFits(bytes, OffsetOf(f).value, n);
    SmallModulo(Load(bytes, OffsetOf(f).value, n), Modulus(n));
  }

  lemma WriteThenRead(bytes: seq<byte>, f: Field, value: nat)
    requires |bytes| == SIZE && OffsetOf(f).Some?
    ensures ReadAny(WriteAny(bytes, f, value), f) == Some(Cut(f, value))
  {
    hide OffsetOf;
    hide WidthOf;
    SlotOfAnyIsInside(f);
    LoadStore(bytes, OffsetOf(f).value, WidthOf(f).Bytes(), Cut(f, value));
  }

  lemma WriteLeavesOthers(bytes: seq<byte>, f: Field, value: nat, g: Field)
    requires |bytes| == SIZE && f % 2 == 0 && g % 2 == 0 && f != g
    ensures ReadAny(WriteAny(bytes, f, value), g) == ReadAny(bytes, g)
  {
    hide OffsetOf;
    hide WidthOf;
    if OffsetOf(f).Some? && OffsetOf(g).Some? {
      SlotOfAnyIsInside(f);
      SlotOfAnyIsInside(g);
      SlotsAreDisjoint(f, g);
      var off, n := OffsetOf(f).value, WidthOf(f).Bytes();
      var bytes' := WriteAny(bytes, f, value);
      forall k: nat | k < SIZE && !(off <= k < off + n) ensures bytes'[k] == bytes[k] {
        StoreIsLocal(bytes, off, n, Cut(f, value), k);
      }
      LoadIsLocal(bytes, bytes', OffsetOf(g).value, WidthOf(g).Bytes());
    }
  }

  lemma WriteBack(bytes: seq<byte>, f: Field, value: nat)
    requires |bytes| == SIZE && OffsetOf(f).Some? && ReadAny(bytes, f) == Some(Cut(f, value))
    ensures WriteAny(bytes, f, value) == bytes
  {
    hide OffsetOf;
    hide WidthOf;
    SlotOfAnyIsInside(f);
    StoreLoad(bytes, OffsetOf(f).value, WidthOf(f).Bytes());
  }

  lemma HighIsFourBytesOn(f: Field)
    requires f % 2 == 0 && OffsetOf(f).Some? && WidthOf(f) == U64Wide
    ensures f + 1 < 0x1_0000 && OffsetOf(f + 1) == Some(OffsetOf(f).value + 4) && WidthOf(f + 1) == U32Wide
  {
    hide PlaceOf;
  }

  /** The odd encoding after a 64-bit field reads its upper half. */
  lemma HighReadsUpperHalf(bytes: seq<byte>, f: Field)
    requires |bytes| == SIZE && f % 2 == 0 && OffsetOf(f).Some? && WidthOf(f) == U64Wide
    ensures f + 1 < 0x1_0000 && ReadAny(bytes, f + 1) == Some(ReadAny(bytes, f).value / 0x1_0000_0000)
  {
    hide OffsetOf;
    hide WidthOf;
    hide Load;
    SlotOfAnyIsInside(f);
    HighIsFourBytesOn(f);
    LoadHalves(bytes, OffsetOf(f).value);
  }

  /** and writes it, without touching the lower one. */
  lemma HighWritesUpperHalf(bytes: seq<byte>, f: Field, value: nat)
    requires |bytes| == SIZE && f % 2 == 0 && OffsetOf(f).Some? && WidthOf(f) == U64Wide && f + 1 < 0x1_0000
    ensures ReadAny(WriteAny(bytes, f + 1, value), f) ==
      Some(ReadAny(bytes, f).value % 0x1_0000_0000 + 0x1_0000_0000 * (value % 0x1_0000_0000))
  {
    hide OffsetOf;
    hide WidthOf;
    hide Load;
    hide Store;
    SlotOfAnyIsInside(f);
    HighIsFourBytesOn(f);
    CutByEncoding(f + 1, value);
    StoreHigh(bytes, OffsetOf(f).value, value % 0x1_0000_0000);
  }

  lemma StoreHigh(bytes: seq<byte>, off: nat, high: nat)
    requires off + 8 <= |bytes| && high < 0x1_0000_0000
    ensures Load(Store(bytes, off + 4, 4, high), off, 8) == Load(bytes, off, 8) % 0x1_0000_0000 + 0x1_0000_0000 * high
  {
    hide Load;
    hide Store;
    var bytes' := Store(bytes, off + 4, 4, high);
    assert Modulus(4) == 0x1_0000_0000;
    LoadStore(bytes, off + 4, 4, high);
    forall k: nat | off <= k < off + 4 ensures bytes'[k] == bytes[k] {
      StoreIsLocal(bytes, off + 4, 4, high, k);
    }
    LoadIsLocal(bytes, bytes', off, 4);
    LoadLowHalf(bytes, off);
    LoadLowHalf(bytes', off);
    LoadHalves(bytes', off);
  }

  lemma LoadLowHalf(bytes: seq<byte>, off: nat)
    requires off + 8 <= |bytes|
    ensures Load(bytes, off, 8) % 0x1_0000_0000 == Load(bytes, off, 4)
  {
    var high := Load(bytes, off + 4, 4);
    assert Load(bytes, off + 3, 5) == bytes[off + 3] + 0x100 * high;
    assert Load(bytes, off + 2, 6) == bytes[off + 2] + 0x100 * Load(bytes, off + 3, 5);
    assert Load(bytes, off + 1, 7) == bytes[off + 1] + 0x100 * Load(bytes, off + 2, 6);
    assert Load(bytes, off, 8) == bytes[off] + 0x100 * Load(bytes, off + 1, 7);
    assert Load(bytes, off + 3, 1) == bytes[off + 3];
    assert Load(bytes, off + 2, 2) == bytes[off + 2] + 0x100 * Load(bytes, off + 3, 1);
    assert Load(bytes, off + 1, 3) == bytes[off + 1] + 0x100 * Load(bytes, off + 2, 2);
    assert Load(bytes, off, 4) == bytes[off] + 0x100 * Load(bytes, off + 1, 3);
  }

  lemma LoadHalves(bytes: seq<byte>, off: nat)
    requires off + 8 <= |bytes|
    ensures Load(bytes, off, 8) / 0x1_0000_0000 == Load(bytes, off + 4, 4)
  {
    var high := Load(bytes, off + 4, 4);
    assert Load(bytes, off + 3, 5) == bytes[off + 3] + 0x100 * high;
    assert Load(bytes, off + 2, 6) == bytes[off + 2] + 0x100 * Load(bytes, off + 3, 5);
    assert Load(bytes, off + 1, 7) == bytes[off + 1] + 0x100 * Load(bytes, off + 2, 6);
    assert Load(bytes, off, 8) == bytes[off] + 0x100 * Load(bytes, off + 1, 7);
  }

  /** The shadow VMCS as the processor holds it: a value for each field, and the fields VMWRITE accepts. */
  datatype Shadow = Shadow(values: Field -> nat, writable: set<Field>) {
    function Write(f: Field, value: nat): Shadow {
      if f !in writable then this
      else
        var before, cut := values, Cut(f, value);
        Shadow((g: Field) => if g == f then cut else before(g), writable)
    }
  }

  /** `copy_vmcs12_to_shadow` over a list of fields. The local `value` starts as `value` and keeps what it
      had when a field is not in the table. */
  ghost function ToShadow(bytes: seq<byte>, s: Shadow, value: nat, fs: seq<Field>): (r: (Shadow, nat))
    requires |bytes| == SIZE
    ensures r.0.writable == s.writable
  {
    if fs == [] then (s, value)
    else
      var n := |fs| - 1;
      var before := ToShadow(bytes, s, value, fs[..n]);
      var read := ReadAny(bytes, fs[n]).GetOr(before.1);
      (before.0.Write(fs[n], read), read)
  }

  /** Every field of the list that the processor accepts and the table knows arrives in the shadow; fields
      outside the list, or refused, keep their values there. */
  lemma {:induction false} ToShadowIsExact(bytes: seq<byte>, s: Shadow, value: nat, fs: seq<Field>, f: Field)
    requires |bytes| == SIZE
    ensures f in fs && f in s.writable && OffsetOf(f).Some? ==>
      ReadAny(bytes, f) == Some(ToShadow(bytes, s, value, fs).0.values(f))
    ensures f !in fs || f !in s.writable ==> ToShadow(bytes, s, value, fs).0.values(f) == s.values(f)
  {
    hide OffsetOf;
    hide WidthOf;
    hide ReadAny;
    hide WriteAny;
    hide Cut;
    if fs != [] {
      var n := |fs| - 1;
      assert fs == fs[..n] + [fs[n]];
      ToShadowIsExact(bytes, s, value, fs[..n], f);
      if f == fs[n] && OffsetOf(f).Some? {
        ReadIsCut(bytes, f);
      }
    }
  }

  /** A field the table does not know gets the value of the last field before it that it does. */
  lemma {:induction false} StaleValue(bytes: seq<byte>, s: Shadow, value: nat, fs: seq<Field>, k: nat)
    requires |bytes| == SIZE && k < |fs| && OffsetOf(fs[k]).Some?
    requires forall j :: k < j < |fs| ==> OffsetOf(fs[j]).None?
    ensures ReadAny(bytes, fs[k]) == Some(ToShadow(bytes, s, value, fs).1)
    ensures k < |fs| - 1 && fs[|fs| - 1] in s.writable ==>
      var last := fs[|fs| - 1];
      ToShadow(bytes, s, value, fs).0.values(last) == Cut(last, ToShadow(bytes, s, value, fs).1)
  {
    hide OffsetOf;
    hide WidthOf;
    hide WriteAny;
    hide Cut;
    if k < |fs| - 1 {
      StaleValue(bytes, s, value, fs[..|fs| - 1], k);
    }
  }

  /** `copy_shadow_to_vmcs12` over a list of fields. */
  ghost function FromShadow(bytes: seq<byte>, s: Shadow, fs: seq<Field>): (r: seq<byte>)
    requires |bytes| == SIZE
    ensures |r| == SIZE
  {
    if fs == [] then bytes
    else
      var n := |fs| - 1;
      WriteAny(FromShadow(bytes, s, fs[..n]), fs[n], s.values(fs[n]))
  }

  ghost predicate FullFields(fs: seq<Field>) {
    forall k :: 0 <= k < |fs| ==> fs[k] % 2 == 0
  }

  /** Every field of the list comes back with the shadow's value; all other fields keep theirs. */
  lemma {:induction false} FromShadowIsExact(bytes: seq<byte>, s: Shadow, fs: seq<Field>, f: Field)
    requires |bytes| == SIZE && FullFields(fs) && f % 2 == 0 && OffsetOf(f).Some?
    ensures ReadAny(FromShadow(bytes, s, fs), f) == if f in fs then Some(Cut(f, s.values(f))) else ReadAny(bytes, f)
  {
    hide OffsetOf;
    hide WidthOf;
    hide ReadAny;
    hide WriteAny;
    hide Cut;
    if fs != [] {
      var n := |fs| - 1;
      assert fs == fs[..n] + [fs[n]];
      FromShadowIsExact(bytes, s, fs[..n], f);
      if fs[n] == f {
        WriteThenRead(FromShadow(bytes, s, fs[..n]), f, s.values(f));
      } else {
        WriteLeavesOthers(FromShadow(bytes, s, fs[..n]), fs[n], s.values(fs[n]), f);
      }
    }
  }

  /** The shadow agrees with the structure on the fields of a list. */
  ghost predicate Agree(bytes: seq<byte>, s: Shadow, fs: seq<Field>)
    requires |bytes| == SIZE
  {
    forall k :: 0 <= k < |fs| && OffsetOf(fs[k]).Some? ==>
      ReadAny(bytes, fs[k]) == Some(Cut(fs[k], s.values(fs[k])))
  }

  /** The copy back changes no byte of the structure exactly if the shadow agrees with it. */
  lemma {:induction false} FromShadowKeepsExactly(bytes: seq<byte>, s: Shadow, fs: seq<Field>)
    requires |bytes| == SIZE && FullFields(fs)
    ensures FromShadow(bytes, s, fs) == bytes <==> Agree(bytes, s, fs)
  {
    hide OffsetOf;
    hide WidthOf;
    hide ReadAny;
    hide WriteAny;
    forall k | 0 <= k < |fs| && OffsetOf(fs[k]).Some? && FromShadow(bytes, s, fs) == bytes
      ensures ReadAny(bytes, fs[k]) == Some(Cut(fs[k], s.values(fs[k])))
    {
      FromShadowIsExact(bytes, s, fs, fs[k]);
    }
    if Agree(bytes, s, fs) {
      AgreeingShadowKeeps(bytes, s, fs);
    }
  }

  lemma {:induction false} AgreeingShadowKeeps(bytes: seq<byte>, s: Shadow, fs: seq<Field>)
    requires |bytes| == SIZE && FullFields(fs) && Agree(bytes, s, fs)
    ensures FromShadow(bytes, s, fs) == bytes
  {
    hide OffsetOf;
    hide WidthOf;
    hide ReadAny;
    if fs != [] {
      var n := |fs| - 1;
      AgreeingShadowKeeps(bytes, s, fs[..n]);
      if OffsetOf(fs[n]).Some? {
        WriteBack(bytes, fs[n], s.values(fs[n]));
      }
    }
  }

  /** Round trip: what is copied to the shadow and back leaves the structure as it was, byte for byte, if
      the processor accepts the fields that come back. */
  lemma RoundTrip(bytes: seq<byte>, s: Shadow, value: nat, there: seq<Field>, back: seq<Field>)
    requires |bytes| == SIZE && FullFields(back)
    requires forall k :: 0 <= k < |back| && OffsetOf(back[k]).Some? ==> back[k] in there && back[k] in s.writable
    ensures FromShadow(bytes, ToShadow(bytes, s, value, there).0, back) == bytes
  {
    hide OffsetOf;
    hide WidthOf;
    hide ReadAny;
    hide WriteAny;
    hide Cut;
    var s' := ToShadow(bytes, s, value, there).0;
    forall k | 0 <= k < |back| && OffsetOf(back[k]).Some?
      ensures ReadAny(bytes, back[k]) == Some(Cut(back[k], s'.values(back[k])))
    {
      ToShadowIsExact(bytes, s, value, there, back[k]);
      ReadIsCut(bytes, back[k]);
    }
    FromShadowKeepsExactly(bytes, s', back);
  }

  /** `count` even encodings from `first`. */
  function Evens(first: nat, count: nat): (fs: seq<Field>)
    requires first % 2 == 0 && first + 2 * count <= 0x1_0000
    ensures |fs| == count && (forall k :: 0 <= k < count ==> fs[k] == first + 2 * k) && FullFields(fs)
  {
    if count == 0 then [] else Evens(first, count - 1) + [first + 2 * (count - 1)]
  }

  // The lists of fields in nested.c.
  function Guest16(): (fs: seq<Field>) ensures FullFields(fs) { Evens(0x0800, 10) }
  function Guest32(): (fs: seq<Field>) ensures FullFields(fs) { Evens(0x4800, 20) + [0x482a, 0x482e] }
  function Guest64(): (fs: seq<Field>) ensures FullFields(fs) { Evens(0x2800, 10) }
  function GuestNatural(): (fs: seq<Field>) ensures FullFields(fs) { Evens(0x6800, 20) }
  function Control16(): (fs: seq<Field>) ensures FullFields(fs) { Evens(0x0000, 3) }
  function Control32(): (fs: seq<Field>) ensures FullFields(fs) { Evens(0x4000, 18) }
  function Control64(): (fs: seq<Field>) ensures FullFields(fs) { Control64Low() + Control64High() }
  function Control64Low(): (fs: seq<Field>) ensures FullFields(fs) { Evens(0x2000, 6) + [0x200e] }
  function Control64High(): (fs: seq<Field>) ensures FullFields(fs) { Evens(0x2010, 13) + [0x202c, 0x202e, 0x2032] }
  function ControlNatural(): (fs: seq<Field>) ensures FullFields(fs) { Evens(0x6000, 8) }
  function Readonly32(): (fs: seq<Field>) ensures FullFields(fs) { Evens(0x4400, 8) }
  function Readonly64(): (fs: seq<Field>) ensures FullFields(fs) { [0x2400] }
  function ReadonlyNatural(): (fs: seq<Field>) ensures FullFields(fs) { Evens(0x6400, 6) }

  /** The loops of the copy back, without the last one, which walks the 64-bit list with the length of the
      natural-width one. */
  function Back(): seq<seq<Field>> {
    [Guest16(), Guest32(), Guest64(), GuestNatural(),
     Control16(), Control32(), Control64(), ControlNatural(), Readonly32(), Readonly64()]
  }

  function There(): seq<seq<Field>> { Back() + [ReadonlyNatural()] }

  function Flat(lists: seq<seq<Field>>): seq<Field> {
    if lists == [] then [] else Flat(lists[..|lists| - 1]) + lists[|lists| - 1]
  }

  lemma {:induction false} InFlat(lists: seq<seq<Field>>, f: Field)
    ensures f in Flat(lists) <==> exists k :: 0 <= k < |lists| && f in lists[k]
  {
    if lists != [] {
      var n := |lists| - 1;
      InFlat(lists[..n], f);
      assert lists == lists[..n] + [lists[n]];
      assert forall k :: 0 <= k < n ==> lists[..n][k] == lists[k];
    }
  }

  lemma InEvens(first: nat, count: nat, f: Field)
    requires first % 2 == 0 && first + 2 * count <= 0x1_0000
    ensures f in Evens(first, count) <==> f % 2 == 0 && first <= f < first + 2 * count
  {
    var fs := Evens(first, count);
    if f % 2 == 0 && first <= f < first + 2 * count {
      assert fs[(f - first) / 2] == f;
    }
  }

  /** The encodings in the lists of the copy back. */
  lemma InBack(f: Field)
    ensures f in Flat(Back()) <==>
      f % 2 == 0 && (
      || 0x0000 <= f <= 0x0004 || 0x0800 <= f <= 0x0812
      || 0x2000 <= f <= 0x200a || 0x200e <= f <= 0x2028 || f in {0x202c, 0x202e, 0x2032, 0x2400}
      || 0x2800 <= f <= 0x2812 || 0x4000 <= f <= 0x4022 || 0x4400 <= f <= 0x440e
      || 0x4800 <= f <= 0x4826 || f in {0x482a, 0x482e} || 0x6000 <= f <= 0x600e || 0x6800 <= f <= 0x6826)
  {
    hide Flat;
    hide Evens;
    InFlat(Back(), f);
    assert Back()[0] == Guest16() && Back()[1] == Guest32() && Back()[2] == Guest64() && Back()[3] == GuestNatural();
    assert Back()[4] == Control16() && Back()[5] == Control32() && Back()[6] == Control64();
    assert Back()[7] == ControlNatural() && Back()[8] == Readonly32() && Back()[9] == Readonly64();
    InEvens(0x0800, 10, f);
    InEvens(0x4800, 20, f);
    InEvens(0x2800, 10, f);
    InEvens(0x6800, 20, f);
    InEvens(0x0000, 3, f);
    InEvens(0x4000, 18, f);
    InEvens(0x2000, 6, f);
    InEvens(0x2010, 13, f);
    InEvens(0x6000, 8, f);
    InEvens(0x4400, 8, f);
  }

  /** The copies are complete: bits 10 and 11 of an encoding give its kind, and of the members of the structure
      everything that is not host state goes to the shadow, and comes back but for EXIT_QUALIFICATION and
      GUEST_LINEAR_ADDRESS. */
  lemma CopiesAreComplete(f: Field)
    requires f % 2 == 0 && OffsetOf(f).Some?
    ensures f in Flat(There()) <==> f / 0x400 % 4 != 3
    ensures f in Flat(Back()) <==> f / 0x400 % 4 != 3 && f != 0x6400 && f != 0x640a
  {
    hide Flat;
    hide Evens;
    hide Back;
    ThereHasBack();
    InBack(f);
    InEvens(0x6400, 6, f);
  }

  /** Which fields go to the shadow without being members: they get what `value` holds. */
  lemma StaleFields(f: Field)
    requires f % 2 == 1 || OffsetOf(f).None?
    ensures f in Flat(There()) <==>
      f in {0x0004, 0x4020, 0x4022, 0x202e, 0x2032, 0x6402, 0x6404, 0x6406, 0x6408}
  {
    hide Flat;
    hide Evens;
    hide Back;
    ThereHasBack();
    InBack(f);
    InEvens(0x6400, 6, f);
  }

  lemma {:induction false} FlatIsFull(lists: seq<seq<Field>>)
    requires forall k :: 0 <= k < |lists| ==> FullFields(lists[k])
    ensures FullFields(Flat(lists))
  {
    if lists != [] {
      FlatIsFull(lists[..|lists| - 1]);
    }
  }

  lemma BackIsFull()
    ensures FullFields(Flat(Back()))
  {
    hide Guest16;
    hide Guest32;
    hide Guest64;
    hide GuestNatural;
    hide Control16;
    hide Control32;
    hide Control64;
    hide ControlNatural;
    hide Readonly32;
    hide Readonly64;
    hide FullFields;
    FlatIsFull(Back());
  }

  lemma ThereHasBack()
    ensures Flat(There()) == Flat(Back()) + ReadonlyNatural()
  {
    hide Evens;
    assert There()[..|Back()|] == Back();
  }

  /** The round trip of the nested hypervisor's own lists. */
  lemma ShadowRoundTrip(bytes: seq<byte>, s: Shadow, value: nat)
    requires |bytes| == SIZE
    requires forall k :: 0 <= k < |Flat(Back())| && OffsetOf(Flat(Back())[k]).Some? ==> Flat(Back())[k] in s.writable
    ensures FromShadow(bytes, ToShadow(bytes, s, value, Flat(There())).0, Flat(Back())) == bytes
  {
    hide OffsetOf;
    hide ToShadow;
    hide FromShadow;
    hide Flat;
    hide Evens;
    hide Back;
    hide There;
    BackIsFull();
    ThereHasBack();
    RoundTrip(bytes, s, value, Flat(There()), Flat(Back()));
  }

  /** What the copy to the shadow does to a field: non-host members arrive where the processor accepts them, and
      host state and upper halves are not touched. */
  lemma Arrives(bytes: seq<byte>, s: Shadow, value: nat, f: Field)
    requires |bytes| == SIZE && f % 2 == 0 && OffsetOf(f).Some? && f / 0x400 % 4 != 3 && f in s.writable
    ensures ReadAny(bytes, f) == Some(ToShadow(bytes, s, value, Flat(There())).0.values(f))
  {
    hide OffsetOf;
    hide Flat;
    hide There;
    hide ToShadow;
    hide ReadAny;
    CopiesAreComplete(f);
    ToShadowIsExact(bytes, s, value, Flat(There()), f);
  }

  lemma StaleIsNotHost(f: Field)
    requires f in {0x0004, 0x4020, 0x4022, 0x202e, 0x2032, 0x6402, 0x6404, 0x6406, 0x6408}
    ensures f % 2 == 0 && f / 0x400 % 4 != 3
  {
  }

  lemma HostIsNotCopied(f: Field)
    requires f / 0x400 % 4 == 3
    ensures f !in Flat(There())
  {
    hide OffsetOf;
    hide Flat;
    hide There;
    if f % 2 == 0 && OffsetOf(f).Some? {
      CopiesAreComplete(f);
    } else if f in Flat(There()) {
      StaleFields(f);
      StaleIsNotHost(f);
    }
  }

  lemma HalfIsNotCopied(f: Field)
    requires f % 2 == 1
    ensures f !in Flat(There())
  {
    hide OffsetOf;
    hide Flat;
    hide There;
    StaleFields(f);
  }

  lemma StaysInShadow(bytes: seq<byte>, s: Shadow, value: nat, f: Field)
    requires |bytes| == SIZE && (f % 2 == 1 || f / 0x400 % 4 == 3 || f !in s.writable)
    ensures ToShadow(bytes, s, value, Flat(There())).0.values(f) == s.values(f)
  {
    hide OffsetOf;
    hide Flat;
    hide There;
    hide ToShadow;
    hide ReadAny;
    if f % 2 == 1 {
      HalfIsNotCopied(f);
    } else if f in s.writable {
      HostIsNotCopied(f);
    }
    ToShadowIsExact(bytes, s, value, Flat(There()), f);
  }

  lemma {:induction false} ToShadowInTwo(bytes: seq<byte>, s: Shadow, value: nat, fs: seq<Field>, gs: seq<Field>)
    requires |bytes| == SIZE
    ensures var first := ToShadow(bytes, s, value, fs);
      ToShadow(bytes, s, value, fs + gs) == ToShadow(bytes, first.0, first.1, gs)
  {
    if gs == [] {
      assert fs + gs == fs;
    } else {
      assert (fs + gs)[..|fs + gs| - 1] == fs + gs[..|gs| - 1];
      ToShadowInTwo(bytes, s, value, fs, gs[..|gs| - 1]);
    }
  }

  lemma {:induction false} FromShadowInTwo(bytes: seq<byte>, s: Shadow, fs: seq<Field>, gs: seq<Field>)
    requires |bytes| == SIZE
    ensures FromShadow(bytes, s, fs + gs) == FromShadow(FromShadow(bytes, s, fs), s, gs)
  {
    if gs == [] {
      assert fs + gs == fs;
    } else {
      assert (fs + gs)[..|fs + gs| - 1] == fs + gs[..|gs| - 1];
      FromShadowInTwo(bytes, s, fs, gs[..|gs| - 1]);
    }
  }

  /** The structure in memory, its table of offsets, and the shadow VMCS. */
  class NestedVcpu {
    const vmcs12: array<byte>
    const initializers: seq<Field>
    var shadow: Shadow

    ghost predicate Valid()
      reads this
    {
      vmcs12.Length == SIZE && Lists(initializers)
    }

    /** `vmcs12_read_any` */
    method Read(f: Field) returns (r: Option<nat>)
      requires Valid()
      ensures r == ReadAny(vmcs12[..], f)
    {
      hide OffsetOf;
      hide WidthOf;
      FieldToOffsetIsExact(initializers, f);
      var offset := FieldToOffset(initializers, f);
      if offset.None? {
        return None;
      }
      SlotOfAnyIsInside(f);
      return Some(Load(vmcs12[..], offset.value, WidthOf(f).Bytes()));
    }

    /** `vmcs12_write_any` */
    method Write(f: Field, value: nat)
      requires Valid()
      modifies vmcs12
      ensures vmcs12[..] == WriteAny(old(vmcs12[..]), f, value)
    {
      hide OffsetOf;
      hide WidthOf;
      FieldToOffsetIsExact(initializers, f);
      var offset := FieldToOffset(initializers, f);
      if offset.None? {
        return;
      }
      SlotOfAnyIsInside(f);
      var n := WidthOf(f).Bytes();
      var v := Cut(f, value);
      for k := 0 to n
        invariant Store(vmcs12[..], offset.value + k, n - k, v) == WriteAny(old(vmcs12[..]), f, value)
      {
        ghost var now := vmcs12[..];
        vmcs12[offset.value + k] := v % 0x100;
        assert vmcs12[..] == now[offset.value + k := v % 0x100];
        v := v / 0x100;
      }
    }

    /** One loop of `copy_vmcs12_to_shadow`. */
    method CopyListToShadow(fs: seq<Field>, value: nat) returns (last: nat)
      requires Valid()
      modifies this`shadow
      ensures (shadow, last) == ToShadow(vmcs12[..], old(shadow), value, fs)
    {
      last := value;
      for i := 0 to |fs|
        invariant (shadow, last) == ToShadow(vmcs12[..], old(shadow), value, fs[..i])
      {
        assert fs[..i + 1][..i] == fs[..i];
        var read := Read(fs[i]);
        last := read.GetOr(last);
        shadow := shadow.Write(fs[i], last);
      }
      assert fs[..|fs|] == fs;
    }

    /** `copy_vmcs12_to_shadow`; `value` is what the uninitialized local holds. */
    method CopyToShadow(value: nat)
      requires Valid()
      modifies this`shadow
      ensures shadow == ToShadow(vmcs12[..], old(shadow), value, Flat(There())).0
      ensures shadow.writable == old(shadow.writable)
      ensures forall f: Field :: f % 2 == 0 && OffsetOf(f).Some? && f / 0x400 % 4 != 3 && f in shadow.writable ==>
        ReadAny(vmcs12[..], f) == Some(shadow.values(f))
      ensures forall f: Field :: f % 2 == 1 || f / 0x400 % 4 == 3 || f !in shadow.writable ==>
        shadow.values(f) == old(shadow).values(f)
    {
      hide There;
      hide Flat;
      hide OffsetOf;
      hide ToShadow;
      hide ReadAny;
      var _ := CopyListsToShadow(There(), value);
      forall f: Field | f % 2 == 0 && OffsetOf(f).Some? && f / 0x400 % 4 != 3 && f in shadow.writable
        ensures ReadAny(vmcs12[..], f) == Some(shadow.values(f))
      {
        Arrives(vmcs12[..], old(shadow), value, f);
      }
      forall f: Field | f % 2 == 1 || f / 0x400 % 4 == 3 || f !in shadow.writable
        ensures shadow.values(f) == old(shadow).values(f)
      {
        StaysInShadow(vmcs12[..], old(shadow), value, f);
      }
    }

    method CopyListsToShadow(lists: seq<seq<Field>>, value: nat) returns (last: nat)
      requires Valid()
      modifies this`shadow
      ensures (shadow, last) == ToShadow(vmcs12[..], old(shadow), value, Flat(lists))
    {
      last := value;
      for i := 0 to |lists|
        invariant (shadow, last) == ToShadow(vmcs12[..], old(shadow), value, Flat(lists[..i]))
      {
        assert lists[..i + 1][..i] == lists[..i];
        ToShadowInTwo(vmcs12[..], old(shadow), value, Flat(lists[..i]), lists[i]);
        last := CopyListToShadow(lists[i], last);
      }
      assert lists[..|lists|] == lists;
    }

    /** One loop of `copy_shadow_to_vmcs12`. */
    method CopyListFromShadow(fs: seq<Field>)
      requires Valid()
      modifies vmcs12
      ensures vmcs12[..] == FromShadow(old(vmcs12[..]), shadow, fs)
    {
      for i := 0 to |fs|
        invariant vmcs12[..] == FromShadow(old(vmcs12[..]), shadow, fs[..i])
      {
        assert fs[..i + 1][..i] == fs[..i];
        Write(fs[i], shadow.values(fs[i]));
      }
      assert fs[..|fs|] == fs;
    }

    /** `copy_shadow_to_vmcs12`, without its last loop */
    method CopyFromShadow()
      requires Valid()
      modifies vmcs12
      ensures vmcs12[..] == FromShadow(old(vmcs12[..]), shadow, Flat(Back()))
      ensures forall f: Field :: f % 2 == 0 && OffsetOf(f).Some? ==>
        ReadAny(vmcs12[..], f) == if f / 0x400 % 4 != 3 && f != 0x6400 && f != 0x640a
          then Some(Cut(f, shadow.values(f))) else ReadAny(old(vmcs12[..]), f)
    {
      hide Back;
      hide OffsetOf;
      hide FromShadow;
      hide ReadAny;
      CopyListsFromShadow(Back());
      BackIsFull();
      forall f: Field | f % 2 == 0 && OffsetOf(f).Some?
        ensures ReadAny(vmcs12[..], f) == if f / 0x400 % 4 != 3 && f != 0x6400 && f != 0x640a
          then Some(Cut(f, shadow.values(f))) else ReadAny(old(vmcs12[..]), f)
      {
        FromShadowIsExact(old(vmcs12[..]), shadow, Flat(Back()), f);
        CopiesAreComplete(f);
      }
    }

    /** `copy_shadow_to_vmcs12_host`: RIP, RSP, CR0, CR3, CR4, and the bases of GDTR and IDTR. */
    method CopyHostFromShadow()
      requires Valid()
      modifies vmcs12
      ensures forall f: Field :: f % 2 == 0 && OffsetOf(f).Some? ==>
        ReadAny(vmcs12[..], f) == if f in {0x6c16, 0x6c14, 0x6c00, 0x6c02, 0x6c04, 0x6c0c, 0x6c0e}
          then Some(Cut(f, shadow.values(f))) else ReadAny(old(vmcs12[..]), f)
    {
      hide OffsetOf;
      hide FromShadow;
      hide ReadAny;
      var fields: seq<Field> := [0x6c16, 0x6c14, 0x6c00, 0x6c02, 0x6c04, 0x6c0c, 0x6c0e];
      CopyListFromShadow(fields);
      forall f: Field | f % 2 == 0 && OffsetOf(f).Some?
        ensures ReadAny(vmcs12[..], f) == if f in {0x6c16, 0x6c14, 0x6c00, 0x6c02, 0x6c04, 0x6c0c, 0x6c0e}
          then Some(Cut(f, shadow.values(f))) else ReadAny(old(vmcs12[..]), f)
      {
        FromShadowIsExact(old(vmcs12[..]), shadow, fields, f);
      }
    }

    method CopyListsFromShadow(lists: seq<seq<Field>>)
      requires Valid()
      modifies vmcs12
      ensures vmcs12[..] == FromShadow(old(vmcs12[..]), shadow, Flat(lists))
    {
      for i := 0 to |lists|
        invariant vmcs12[..] == FromShadow(old(vmcs12[..]), shadow, Flat(lists[..i]))
      {
        assert lists[..i + 1][..i] == lists[..i];
        FromShadowInTwo(old(vmcs12[..]), shadow, Flat(lists[..i]), lists[i]);
        CopyListFromShadow(lists[i]);
      }
      assert lists[..|lists|] == lists;
    }
  }
}
