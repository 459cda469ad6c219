/** Demand paging (arch/x86_64/mm/fault.c, arch/x86_64/kernel/task.c). Every task has its own top-level
    table. Its upper 256 entries are copied from the creating context and lead to the kernel's shared
    tables; its lower 256 entries lead to tables of its own, filled one page per fault. */
module Paging {
  import opened Wrappers
  import opened BootMemory
  import opened PageTable
  import opened Ept

  const PG_PRESENT: bv12 := 0x1
  const PG_READ_WRITE: bv12 := 0x2
  const PG_USER: bv12 := 0x4
  const PG_TABLE: bv12 := 0x7 // present, read-write, user
  const LOWER: nat := 0x100   // entries 0 to 255 of a top-level table

  /** Memory as the lower half of the tables at `pgd` sees it. */
  function LowerHalf(w: Words, pgd: nat): Words {
    map s | s in w && !(s.table == pgd && s.index >= LOWER) :: w[s]
  }

  lemma LowerReads(w: Words, pgd: nat)
    ensures forall t: nat, i: nat :: (
      Read(LowerHalf(w, pgd), t, i) == if t == pgd && i >= LOWER then EMPTY else Read(w, t, i))
  {
  }

  /** A table entry as a 64-bit number, and back. */
  function Number(e: Word): nat { e.frame * 0x1000 + e.flags as nat }
  function WordOf(n: nat): Word { Word(n / 0x1000, (n % 0x1000) as bv12) }

  /** A number without its `r` low bytes, those bytes, and a number moved up by `r` bytes. */
  function Upper(n: nat, r: nat): nat { if r == 0 then n else Upper(n / 0x100, r - 1) }
  function Lower(n: nat, r: nat): nat { if r == 0 then 0 else n % 0x100 + 0x100 * Lower(n / 0x100, r - 1) }
  function Raised(n: nat, r: nat): nat { if r == 0 then n else 0x100 * Raised(n, r - 1) }

  /** The 64-bit word at byte address `a`, which may lie across two entries. */
  function WordAt(w: Words, a: nat): Word {
    var low, r := Read(w, a / 0x1000, a % 0x1000 / 8), a % 8;
    if r == 0 then low else Joined(low, Read(w, (a + 8) / 0x1000, (a + 8) % 0x1000 / 8), r)
  }

  /** The upper bytes of one entry, from byte `r` on, and the lower `r` bytes of the next. */
  function Joined(low: Word, high: Word, r: nat): Word
    requires r < 8
  {
    WordOf(JoinedNumber(low, high, r))
  }

  function JoinedNumber(low: Word, high: Word, r: nat): nat
    requires r < 8
  {
    Upper(Number(low), r) + Raised(Lower(Number(high), r), 8 - r)
  }

  /** Byte `j` of a number, and the byte at an address. */
  function Byte(n: nat, j: nat): nat { if j == 0 then n % 0x100 else Byte(n / 0x100, j - 1) }
  function ByteAt(w: Words, a: nat): nat { Byte(Number(Read(w, a / 0x1000, a % 0x1000 / 8)), a % 8) }

  /** The number has `s` bytes. */
  predicate Fits(n: nat, s: nat) { if s == 0 then n == 0 else Fits(n / 0x100, s - 1) }

  /** A word that lies across two entries is made of the eight bytes from its address on. */
  lemma WordIsItsBytes(w: Words, a: nat) returns (n: nat)
    requires a % 8 != 0 && forall t: nat, i: nat :: Fits(Number(Read(w, t, i)), 8)
    ensures WordAt(w, a) == WordOf(n) && forall j: nat :: j < 8 ==> Byte(n, j) == ByteAt(w, a + j)
  {
    hide Number;
    hide WordOf;
    hide Fits;
    hide JoinedNumber;
    hide Byte;
    var low, r := Read(w, a / 0x1000, a % 0x1000 / 8), a % 8;
    var high := Read(w, (a + 8) / 0x1000, (a + 8) % 0x1000 / 8);
    n := JoinedNumber(low, high, r);
    forall j: nat | j < 8 ensures Byte(n, j) == ByteAt(w, a + j) {
      BytesFurther(a / 0x1000, a % 0x1000 / 8, r, j);
      AddressSplit(a);
      JoinedBytes(low, high, r, j);
    }
  }

  lemma AddressSplit(a: nat)
    ensures a == 0x1000 * (a / 0x1000) + 8 * (a % 0x1000 / 8) + a % 8
  {
  }

  lemma BytesFurther(frame: nat, k: nat, r: nat, j: nat)
    requires r < 8 && j < 8
    ensures var a, next := 0x1000 * frame + 8 * k + r, k + 1;
      && (a + 8) / 0x1000 == frame + next / 0x200 && (a + 8) % 0x1000 / 8 == next % 0x200
      && (a + j) % 8 == (if r + j < 8 then r + j else r + j - 8)
      && (a + j) / 0x1000 == frame + (if r + j < 8 then k else next) / 0x200
      && (a + j) % 0x1000 / 8 == (if r + j < 8 then k else next) % 0x200
  {
    AddressOf(frame, k + 1, r);
    assert 0x1000 * frame + 8 * k + r + 8 == 0x1000 * frame + 8 * (k + 1) + r;
    if r + j < 8 {
      AddressOf(frame, k, r + j);
    } else {
      AddressOf(frame, k + 1, r + j - 8);
      assert 0x1000 * frame + 8 * k + r + j == 0x1000 * frame + 8 * (k + 1) + (r + j - 8);
    }
  }

  lemma JoinedBytes(low: Word, high: Word, r: nat, j: nat)
    requires 0 < r < 8 && j < 8 && Fits(Number(low), 8)
    ensures Byte(JoinedNumber(low, high, r), j) ==
      if r + j < 8 then Byte(Number(low), r + j) else Byte(Number(high), r + j - 8)
  {
    hide Upper;
    hide Lower;
    hide Raised;
    hide Byte;
    hide Fits;
    var l, h := Number(low), Number(high);
    UpperFits(l, r, 8 - r);
    SumBytes(Upper(l, r), Lower(h, r), 8 - r, j);
    if r + j < 8 {
      UpperBytes(l, r, j);
    } else {
      LowerBytes(h, r, j - (8 - r));
    }
  }

  lemma {:induction false} UpperFits(n: nat, r: nat, s: nat)
    requires Fits(n, r + s)
    ensures Fits(Upper(n, r), s)
  {
    if r > 0 {
      UpperFits(n / 0x100, r - 1, s);
    }
  }

  lemma {:induction false} UpperBytes(n: nat, r: nat, j: nat)
    ensures Byte(Upper(n, r), j) == Byte(n, r + j)
  {
    if r > 0 {
      UpperBytes(n / 0x100, r - 1, j);
    }
  }

  lemma {:induction false} LowerBytes(n: nat, r: nat, j: nat)
    requires j < r
    ensures Byte(Lower(n, r), j) == Byte(n, j)
  {
    if j > 0 {
      LowerBytes(n / 0x100, r - 1, j - 1);
    }
  }

  lemma {:induction false} SumBytes(a: nat, b: nat, s: nat, j: nat)
    requires Fits(a, s)
    ensures Byte(a + Raised(b, s), j) == if j < s then Byte(a, j) else Byte(b, j - s)
  {
    if s > 0 {
      assert (a + 0x100 * Raised(b, s - 1)) / 0x100 == a / 0x100 + Raised(b, s - 1);
      if j > 0 {
        SumBytes(a / 0x100, b, s - 1, j - 1);
      }
    }
  }

  /** The `i`th word from address `a` on. */
  function Nth(w: Words, a: nat, i: nat): Word { WordAt(w, a + 8 * i) }

  lemma AlignedWord(w: Words, frame: nat, i: nat)
    requires i < 0x200
    ensures Nth(w, 0x1000 * frame, i) == Read(w, frame, i)
  {
  }

  /** `memcpy` of 4096 bytes from address `from` to a page frame that they do not touch. */
  function CopyPage(w: Words, from: nat, to: nat): Words {
    (map s | s in w && s.table != to :: w[s]) + (map i: nat | i < 0x200 :: Slot(to, i) := Nth(w, from, i))
  }

  lemma CopyReads(w: Words, from: nat, to: nat)
    ensures forall t: nat, i: nat :: t != to ==> Read(CopyPage(w, from, to), t, i) == Read(w, t, i)
    ensures forall i: nat :: i < 0x200 ==> Read(CopyPage(w, from, to), to, i) == Nth(w, from, i)
    ensures forall i: nat :: i >= 0x200 ==> Read(CopyPage(w, from, to), to, i) == EMPTY
  {
    forall i: nat | i < 0x200 ensures Read(CopyPage(w, from, to), to, i) == Nth(w, from, i) {
      assert Slot(to, i) in CopyPage(w, from, to);
    }
  }

  /** The 2048 bytes at `a`, which become the lower half of a copied table, are zero. */
  ghost predicate LowerZero(w: Words, a: nat) {
    forall i: nat :: i < LOWER ==> Nth(w, a, i) == EMPTY
  }

  lemma WordIsEmpty(w: Words, frame: nat, k: nat, r: nat)
    requires 0 < r < 8
    ensures WordAt(w, 0x1000 * frame + 8 * k + r) == EMPTY <==>
      Upper(Number(WordAt(w, 0x1000 * frame + 8 * k)), r) == 0
      && Lower(Number(WordAt(w, 0x1000 * frame + 8 * (k + 1))), r) == 0
  {
    hide Joined;
    AddressOf(frame, k, 0);
    AddressOf(frame, k, r);
    AddressOf(frame, k + 1, 0);
    AddressOf(frame, k + 1, r);
    assert 0x1000 * frame + 8 * (k + 1) + r == 0x1000 * frame + 8 * k + r + 8;
    JoinedIsEmpty(WordAt(w, 0x1000 * frame + 8 * k), WordAt(w, 0x1000 * frame + 8 * (k + 1)), r);
  }

  lemma JoinedIsEmpty(low: Word, high: Word, r: nat)
    requires r < 8
    ensures Joined(low, high, r) == EMPTY <==> Upper(Number(low), r) == 0 && Lower(Number(high), r) == 0
  {
    hide Upper;
    hide Lower;
    NumberIsEmpty(Upper(Number(low), r) + Raised(Lower(Number(high), r), 8 - r));
    RaisedZero(Lower(Number(high), r), 8 - r);
  }

  lemma {:induction false} RaisedZero(n: nat, r: nat)
    ensures Raised(n, r) == 0 <==> n == 0
  {
    if r > 0 {
      RaisedZero(n, r - 1);
    }
  }

  /** Frame, entry and byte of an address. */
  lemma AddressOf(frame: nat, k: nat, r: nat)
    requires r < 8
    ensures var a := 0x1000 * frame + 8 * k + r;
      a / 0x1000 == frame + k / 0x200 && a % 0x1000 / 8 == k % 0x200 && a % 8 == r
  {
    AddressInFrame(frame + k / 0x200, k % 0x200, r, 0x1000 * frame + 8 * k + r);
  }

  lemma AddressInFrame(f: nat, i: nat, r: nat, a: nat)
    requires i < 0x200 && r < 8 && a == 0x1000 * f + 8 * i + r
    ensures a / 0x1000 == f && a % 0x1000 / 8 == i && a % 8 == r
  {
    assert a % 0x1000 == 8 * i + r;
    LastByte(0x200 * f + i, r, a);
  }

  lemma LastByte(q: nat, r: nat, a: nat)
    requires r < 8 && a == 8 * q + r
    ensures a % 8 == r
  {
  }

  lemma NumberIsEmpty(n: nat)
    ensures WordOf(n) == EMPTY <==> n == 0
  {
  }

  /** What a tag in CR3, which is an address for `memcpy`, does to the copy of a table: with `8 * k + r` as the
      tag the new lower half is empty exactly if the rest of entry `k`, the 255 entries after it, and the first
      `r` bytes of the next are zero. */
  lemma TaggedCopyIsExact(w: Words, frame: nat, k: nat, r: nat)
    requires 0 < r < 8
    ensures var table := 0x1000 * frame;
      LowerZero(w, table + 8 * k + r) <==>
        && Upper(Number(Nth(w, table, k)), r) == 0
        && (forall i: nat :: k < i < k + LOWER ==> Nth(w, table, i) == EMPTY)
        && Lower(Number(Nth(w, table, k + LOWER)), r) == 0
  {
    var table, a := 0x1000 * frame, 0x1000 * frame + 8 * k + r;
    hide WordAt;
    hide Upper;
    hide Lower;
    hide Number;
    forall i: nat
      ensures Nth(w, a, i) == EMPTY <==>
        Upper(Number(Nth(w, table, k + i)), r) == 0 && Lower(Number(Nth(w, table, k + i + 1)), r) == 0
    {
      WordIsEmpty(w, frame, k + i, r);
      assert table + 8 * (k + i) + r == a + 8 * i;
    }
    forall i: nat
      ensures Nth(w, table, i) == EMPTY <==>
        Upper(Number(Nth(w, table, i)), r) == 0 && Lower(Number(Nth(w, table, i)), r) == 0
    {
      ZeroInParts(Nth(w, table, i), r);
    }
    hide Nth;
    if LowerZero(w, a) {
      assert Nth(w, a, 0) == EMPTY == Nth(w, a, LOWER - 1);
      forall i: nat | k < i < k + LOWER ensures Nth(w, table, i) == EMPTY {
        var j := i - k;
        assert Nth(w, a, j) == EMPTY == Nth(w, a, j - 1);
        assert k + (j - 1) + 1 == i && k + j == i;
      }
    }
  }

  lemma ZeroInParts(e: Word, r: nat)
    ensures e == EMPTY <==> Upper(Number(e), r) == 0 && Lower(Number(e), r) == 0
  {
    assert Number(e) == 0 <==> e.frame == 0 && e.flags as nat == 0;
    ZeroInBytes(Number(e), r);
  }

  lemma {:induction false} ZeroInBytes(n: nat, r: nat)
    ensures n == 0 <==> Upper(n, r) == 0 && Lower(n, r) == 0
  {
    if r > 0 {
      ZeroInBytes(n / 0x100, r - 1);
    }
  }

  /** With whole entries as the tag the copy is shifted by `k` entries. */
  lemma ShiftedCopyIsExact(w: Words, table: nat, k: nat)
    ensures LowerZero(w, table + 8 * k) <==> forall i: nat :: k <= i < k + LOWER ==> Nth(w, table, i) == EMPTY
  {
    hide Nth;
    if LowerZero(w, table + 8 * k) {
      forall i: nat | k <= i < k + LOWER ensures Nth(w, table, i) == EMPTY {
        NthFurther(w, table, k, i - k);
      }
    } else {
      var i: nat :| i < LOWER && Nth(w, table + 8 * k, i) != EMPTY;
      NthFurther(w, table, k, i);
    }
  }

  lemma NthFurther(w: Words, table: nat, k: nat, i: nat)
    ensures Nth(w, table + 8 * k, i) == Nth(w, table, k + i)
  {
    assert table + 8 * (k + i) == table + 8 * k + 8 * i;
  }

  /** So a tag of 1 to 2048 puts kernel entries into the lower half as soon as the first entry of the kernel's
      half has one of its low eight bits. */
  lemma TagSpoilsCopy(w: Words, frame: nat, tag: nat)
    requires 0 < tag <= 8 * LOWER && Number(Read(w, frame, LOWER)) % 0x100 != 0
    ensures !LowerZero(w, 0x1000 * frame + tag)
  {
    var k, r := tag / 8, tag % 8;
    assert 0x1000 * frame + tag == 0x1000 * frame + 8 * k + r;
    AlignedWord(w, frame, LOWER);
    assert Nth(w, 0x1000 * frame, LOWER) != EMPTY;
    hide LowerZero;
    hide Nth;
    if r == 0 {
      ShiftedCopyIsExact(w, 0x1000 * frame, k);
    } else {
      LowByte(Number(Read(w, frame, LOWER)), r);
      hide Lower;
      hide Upper;
      TaggedCopyIsExact(w, frame, k, r);
    }
  }

  lemma LowByte(n: nat, r: nat)
    requires n % 0x100 != 0 && r > 0
    ensures Lower(n, r) != 0
  {
  }

  /** What a frame that belongs to a task holds: the table at a path, or the data of a page. */
  datatype Role = Table(task: nat, path: seq<nat>) | Data(task: nat, page: nat)

  /** The frames that hold the tables of task `k`. */
  function TablesOf(roles: map<nat, Role>, k: nat): Owner {
    map f | f in roles && roles[f].Table? && roles[f].task == k :: roles[f].path
  }

  lemma TablesOfUpdate(roles: map<nat, Role>, f: nat, r: Role, k: nat)
    requires f !in roles
    ensures TablesOf(roles[f := r], k) ==
      if r.Table? && r.task == k then TablesOf(roles, k)[f := r.path] else TablesOf(roles, k)
  {
  }

  /** All tasks' lower halves: their top-level tables, and the role of every frame below them. */
  datatype Space = Space(words: Words, pgds: seq<nat>, roles: map<nat, Role>, used: iset<nat>)
  {
    /** The lowest-level entry of a lower-half page of task `k`. */
    function Entry(k: nat, page: nat): Word
      requires k < |pgds|
    {
      Leaf(LowerHalf(words, pgds[k]), pgds[k], page)
    }

    ghost predicate TreeOf(k: nat)
      requires k < |pgds|
    {
      Tree(LowerHalf(words, pgds[k]), pgds[k], TablesOf(roles, k), PG_TABLE)
    }

    /** `e` maps page `page` of task `k`, to a frame that belongs there. */
    ghost predicate Maps(e: Word, k: nat, page: nat) {
      e.flags & PG_PRESENT != 0 && e.frame in roles && roles[e.frame] == Data(k, page % 0x10_0000_0000)
    }

    ghost predicate Consistent() {
      && 0 !in roles
      && (forall f :: f in roles ==> f in used && roles[f].task < |pgds|)
      && (forall k :: 0 <= k < |pgds| ==> TreeOf(k))
      && (forall k, q: nat :: 0 <= k < |pgds| && Entry(k, q) != EMPTY ==> Maps(Entry(k, q), k, q))
    }
  }

  /** The processor, which walks the whole table, finds a lower-half page where its entry says. */
  lemma HardwareFindsEntry(s: Space, k: nat, page: nat)
    requires s.Consistent() && k < |s.pgds| && Pml4Index(page) < LOWER
    ensures Walk(s.words, s.pgds[k], page, PG_PRESENT) ==
      if s.Entry(k, page) == EMPTY then None else Some(s.Entry(k, page).frame)
  {
    var pgd := s.pgds[k];
    assert s.TreeOf(k);
    LowerReads(s.words, pgd);
    TablesOnPath(LowerHalf(s.words, pgd), pgd, TablesOf(s.roles, k), PG_TABLE, page);
    TreeWeakens(LowerHalf(s.words, pgd), pgd, TablesOf(s.roles, k), PG_TABLE, PG_PRESENT);
    WalkIsLeaf(LowerHalf(s.words, pgd), pgd, TablesOf(s.roles, k), PG_PRESENT, page);
    hide Tree;
    hide LowerHalf;
    hide TablesOf;
    if s.Entry(k, page) != EMPTY {
      assert s.Maps(s.Entry(k, page), k, page);
    }
    assert Walk(s.words, pgd, page, PG_PRESENT) == Walk(LowerHalf(s.words, pgd), pgd, page, PG_PRESENT);
  }

  /** The flags that all four entries on the way to a page have in common, as the processor takes them for its
      permissions (Intel SDM Vol. 3A, section 4.6). */
  function Permissions(w: Words, pgd: nat, page: nat): bv12 {
    var pml4e := Read(w, pgd, Pml4Index(page));
    var pdpte := Read(w, pml4e.frame, PdptIndex(page));
    var pde := Read(w, pdpte.frame, PdIndex(page));
    var pte := Read(w, pde.frame, PtIndex(page));
    pml4e.flags & pdpte.flags & pde.flags & pte.flags & 0x7
  }

  /** Whether a lower-half page is present, writable and open to the user is decided by its lowest-level entry. */
  lemma EntryDecides(s: Space, k: nat, page: nat)
    requires s.Consistent() && k < |s.pgds| && Pml4Index(page) < LOWER && s.Entry(k, page) != EMPTY
    ensures Permissions(s.words, s.pgds[k], page) == s.Entry(k, page).flags & 0x7
  {
    var pgd, owner := s.pgds[k], TablesOf(s.roles, k);
    assert s.TreeOf(k);
    LowerReads(s.words, pgd);
    IndicesInRange(page);
    TablesOnPath(LowerHalf(s.words, pgd), pgd, owner, PG_TABLE, page);
    var e1 := Read(s.words, pgd, Pml4Index(page));
    assert Link(owner, pgd, Pml4Index(page), Read(LowerHalf(s.words, pgd), pgd, Pml4Index(page)), PG_TABLE);
    var e2 := Read(s.words, e1.frame, PdptIndex(page));
    assert Link(owner, e1.frame, PdptIndex(page), Read(LowerHalf(s.words, pgd), e1.frame, PdptIndex(page)), PG_TABLE);
    var e3 := Read(s.words, e2.frame, PdIndex(page));
    assert Link(owner, e2.frame, PdIndex(page), Read(LowerHalf(s.words, pgd), e2.frame, PdIndex(page)), PG_TABLE);
    FullLinksDecideNothing(e1.flags, e2.flags, e3.flags, s.Entry(k, page).flags);
  }

  lemma FullLinksDecideNothing(a: bv12, b: bv12, c: bv12, d: bv12)
    requires a & 0x7 == 0x7 && b & 0x7 == 0x7 && c & 0x7 == 0x7
    ensures a & b & c & d & 0x7 == d & 0x7
  {
  }

  /** Every task of `s` has its top-level table still, with the same upper half. */
  ghost predicate UpperKept(s: Space, s': Space) {
    && s.pgds <= s'.pgds
    && forall l, i: nat :: 0 <= l < |s.pgds| && LOWER <= i < 0x200 ==>
         Read(s'.words, s.pgds[l], i) == Read(s.words, s.pgds[l], i)
  }

  lemma RootRoles(s: Space)
    requires s.Consistent()
    ensures forall l :: 0 <= l < |s.pgds| ==> s.pgds[l] in s.roles && s.roles[s.pgds[l]] == Table(l, [])
  {
    hide Tree;
    hide LowerHalf;
    forall l | 0 <= l < |s.pgds| ensures s.pgds[l] in s.roles && s.roles[s.pgds[l]] == Table(l, []) {
      assert s.TreeOf(l);
      RootRole(s, l);
    }
  }

  /** No frame is mapped twice, in one task or in two. */
  lemma FramesAreExclusive(s: Space, k: nat, l: nat, p: nat, q: nat)
    requires s.Consistent() && k < |s.pgds| && l < |s.pgds|
    requires s.Entry(k, p) != EMPTY && s.Entry(l, q) != EMPTY && s.Entry(k, p).frame == s.Entry(l, q).frame
    ensures k == l && SamePage(p, q)
  {
    assert s.Maps(s.Entry(k, p), k, p) && s.Maps(s.Entry(l, q), l, q);
  }

  /** Writes outside the lower tables of a task leave its lower half alone. */
  lemma TaskUnaffected(s: Space, w': Words, k: nat)
    requires k < |s.pgds| && s.TreeOf(k)
    requires forall t: nat, i: nat :: t in TablesOf(s.roles, k) && !(t == s.pgds[k] && i >= LOWER) ==>
      Read(w', t, i) == Read(s.words, t, i)
    ensures Tree(LowerHalf(w', s.pgds[k]), s.pgds[k], TablesOf(s.roles, k), PG_TABLE)
    ensures forall q: nat :: Leaf(LowerHalf(w', s.pgds[k]), s.pgds[k], q) == s.Entry(k, q)
  {
    LowerReads(s.words, s.pgds[k]);
    LowerReads(w', s.pgds[k]);
    TreeFrame(LowerHalf(s.words, s.pgds[k]), LowerHalf(w', s.pgds[k]), s.pgds[k], TablesOf(s.roles, k), PG_TABLE);
  }

  /** Masking the upper half commutes with linking a fresh table below it. */
  lemma LinkLower(w: Words, pgd: nat, table: nat, index: nat, e: Word)
    requires e.frame != pgd && (table == pgd ==> index < LOWER)
    ensures LowerHalf(ZeroPage(w, e.frame)[Slot(table, index) := e], pgd)
         == ZeroPage(LowerHalf(w, pgd), e.frame)[Slot(table, index) := e]
  {
  }

  lemma StoreLower(w: Words, pgd: nat, table: nat, index: nat, e: Word)
    requires table == pgd ==> index < LOWER
    ensures LowerHalf(w[Slot(table, index) := e], pgd) == LowerHalf(w, pgd)[Slot(table, index) := e]
  {
  }

  /** `table` is an upper-level table of task `k`, and `index` a lower-half entry of it. */
  ghost predicate UpperSlot(s: Space, k: nat, table: nat, index: nat) {
    && k < |s.pgds| && table in s.roles && s.roles[table].Table? && s.roles[table].task == k
    && |s.roles[table].path| < 3 && index < (if table == s.pgds[k] then LOWER else 0x200)
  }

  /** `s'` is `s` with a fresh, zeroed table linked into an empty slot of task `k`'s lower half. */
  ghost predicate TableStep(s: Space, s': Space, k: nat, table: nat, index: nat, child: nat) {
    && s.Consistent() && UpperSlot(s, k, table, index) && Read(s.words, table, index) == EMPTY
    && child !in s.used && child != 0 && s.used + iset{child} <= s'.used
    && s' == s.(words := ZeroPage(s.words, child)[Slot(table, index) := Word(child, PG_TABLE)],
                roles := s.roles[child := Table(k, s.roles[table].path + [index])], used := s'.used)
  }

  /** A new table changes no translation of any task. */
  lemma TableAdded(s: Space, s': Space, k: nat, table: nat, index: nat, child: nat)
    requires TableStep(s, s', k, table, index, child)
    ensures s'.Consistent() && UpperKept(s, s')
    ensures forall l, q: nat :: 0 <= l < |s.pgds| ==> s'.Entry(l, q) == s.Entry(l, q)
  {
    hide Tree;
    hide Leaf;
    hide LowerHalf;
    hide TablesOf;
    TableSparesUpper(s, s', k, table, index, child);
    forall l | 0 <= l < |s.pgds| ensures s'.TreeOf(l) {
      TableAddedSomewhere(s, s', k, table, index, child, l);
    }
    forall l, q: nat | 0 <= l < |s.pgds| ensures s'.Entry(l, q) == s.Entry(l, q) {
      TableAddedSomewhere(s, s', k, table, index, child, l);
    }
  }

  lemma TableSparesUpper(s: Space, s': Space, k: nat, table: nat, index: nat, child: nat)
    requires TableStep(s, s', k, table, index, child)
    ensures UpperKept(s, s')
  {
    hide Tree;
    hide LowerHalf;
    hide Leaf;
    RootRoles(s);
  }

  lemma TableAddedHere(s: Space, s': Space, k: nat, table: nat, index: nat, child: nat)
    requires TableStep(s, s', k, table, index, child)
    ensures s'.TreeOf(k) && forall q: nat :: s'.Entry(k, q) == s.Entry(k, q)
  {
    var pgd, e := s.pgds[k], Word(child, PG_TABLE);
    assert s.TreeOf(k) && pgd in TablesOf(s.roles, k);
    TablesOfUpdate(s.roles, child, s'.roles[child], k);
    LowerReads(s.words, pgd);
    LinkLower(s.words, pgd, table, index, e);
    hide Tree;
    hide LowerHalf;
    AddTable(LowerHalf(s.words, pgd), pgd, TablesOf(s.roles, k), PG_TABLE, table, index, e);
  }

  lemma TableAddedSomewhere(s: Space, s': Space, k: nat, table: nat, index: nat, child: nat, l: nat)
    requires TableStep(s, s', k, table, index, child) && l < |s.pgds|
    ensures s'.TreeOf(l) && forall q: nat :: s'.Entry(l, q) == s.Entry(l, q)
  {
    hide Tree;
    hide LowerHalf;
    hide Leaf;
    if l == k {
      TableAddedHere(s, s', k, table, index, child);
    } else {
      assert s.TreeOf(l);
      TablesOfUpdate(s.roles, child, s'.roles[child], l);
      TaskUnaffected(s, s'.words, l);
    }
  }

  /** `s'` is `s` with a fresh, zeroed page mapped for page `page` of task `k`, whose lowest table is
      `table`. */
  ghost predicate PageStep(s: Space, s': Space, k: nat, table: nat, page: nat, e: Word) {
    && s.Consistent() && k < |s.pgds| && Pml4Index(page) < LOWER && e.flags & PG_PRESENT != 0
    && e.frame !in s.used && e.frame != 0 && s.used + iset{e.frame} <= s'.used
    && Reaches(LowerHalf(s.words, s.pgds[k]), s.pgds[k], page, table) && s.Entry(k, page) == EMPTY
    && s' == s.(words := ZeroPage(s.words, e.frame)[Slot(table, PtIndex(page)) := e],
                roles := s.roles[e.frame := Data(k, page % 0x10_0000_0000)], used := s'.used)
  }

  /** A demand fault maps exactly its page, to a zeroed frame of its own, in exactly its task. */
  lemma PageAdded(s: Space, s': Space, k: nat, table: nat, page: nat, e: Word)
    requires PageStep(s, s', k, table, page, e)
    ensures s'.Consistent() && UpperKept(s, s')
    ensures forall l, q: nat :: 0 <= l < |s.pgds| ==>
      s'.Entry(l, q) == if l == k && SamePage(page, q) then e else s.Entry(l, q)
    ensures forall i: nat :: Read(s'.words, e.frame, i) == EMPTY
  {
    hide Tree;
    hide Leaf;
    hide LowerHalf;
    hide TablesOf;
    hide Reaches;
    assert s.TreeOf(k);
    TableOfPage(s, k, page, table);
    RootRoles(s);
    forall l | 0 <= l < |s.pgds| ensures s'.TreeOf(l) {
      PageAddedSomewhere(s, s', k, table, page, e, l);
    }
    forall l, q: nat | 0 <= l < |s.pgds|
      ensures s'.Entry(l, q) == if l == k && SamePage(page, q) then e else s.Entry(l, q)
    {
      PageAddedSomewhere(s, s', k, table, page, e, l);
    }
  }

  /** The lowest table on the way to a page. */
  lemma TableOfPage(s: Space, k: nat, page: nat, table: nat)
    requires k < |s.pgds| && s.TreeOf(k) && Reaches(LowerHalf(s.words, s.pgds[k]), s.pgds[k], page, table)
    ensures table in s.roles && s.roles[table] == Table(k, PathTo(page)) && table != s.pgds[k]
  {
    TablesOnPath(LowerHalf(s.words, s.pgds[k]), s.pgds[k], TablesOf(s.roles, k), PG_TABLE, page);
  }

  lemma PageAddedHere(s: Space, s': Space, k: nat, table: nat, page: nat, e: Word)
    requires PageStep(s, s', k, table, page, e) && table in s.roles && table != s.pgds[k]
    ensures s'.TreeOf(k)
    ensures forall q: nat :: s'.Entry(k, q) == if SamePage(page, q) then e else s.Entry(k, q)
  {
    var pgd, zeroed, owner := s.pgds[k], ZeroPage(s.words, e.frame), TablesOf(s.roles, k);
    assert s.TreeOf(k);
    TaskUnaffected(s, zeroed, k);
    StoreLower(zeroed, pgd, table, PtIndex(page), e);
    ReachesAfterZero(s, k, page, table, e.frame);
    TablesOfUpdate(s.roles, e.frame, s'.roles[e.frame], k);
    hide Tree;
    hide LowerHalf;
    SetLeaf(LowerHalf(zeroed, pgd), pgd, owner, PG_TABLE, page, table, e);
  }

  lemma PageAddedSomewhere(s: Space, s': Space, k: nat, table: nat, page: nat, e: Word, l: nat)
    requires PageStep(s, s', k, table, page, e) && l < |s.pgds|
    ensures s'.TreeOf(l)
    ensures forall q: nat :: s'.Entry(l, q) == if l == k && SamePage(page, q) then e else s.Entry(l, q)
  {
    assert s.TreeOf(k) && s.TreeOf(l);
    TableOfPage(s, k, page, table);
    hide Tree;
    hide LowerHalf;
    hide Leaf;
    if l == k {
      PageAddedHere(s, s', k, table, page, e);
    } else {
      TablesOfUpdate(s.roles, e.frame, s'.roles[e.frame], l);
      TaskUnaffected(s, s'.words, l);
    }
  }

  lemma ReachesAfterZero(s: Space, k: nat, page: nat, table: nat, frame: nat)
    requires k < |s.pgds| && s.TreeOf(k) && frame !in TablesOf(s.roles, k)
    requires Reaches(LowerHalf(s.words, s.pgds[k]), s.pgds[k], page, table)
    ensures Reaches(LowerHalf(ZeroPage(s.words, frame), s.pgds[k]), s.pgds[k], page, table)
  {
    TablesOnPath(LowerHalf(s.words, s.pgds[k]), s.pgds[k], TablesOf(s.roles, k), PG_TABLE, page);
    LowerReads(s.words, s.pgds[k]);
    LowerReads(ZeroPage(s.words, frame), s.pgds[k]);
    assert forall t: nat, i: nat :: t != frame ==> Read(ZeroPage(s.words, frame), t, i) == Read(s.words, t, i);
    hide LowerHalf;
    hide ZeroPage;
  }

  /** `s'` is `s` with one task more, whose top-level table is a copy of what lies at address `source`. */
  ghost predicate TaskStep(s: Space, s': Space, source: nat, pgd: nat) {
    && s.Consistent() && pgd !in s.used && pgd != 0 && s.used + iset{pgd} <= s'.used
    && s' == s.(words := CopyPage(s.words, source, pgd), pgds := s.pgds + [pgd],
                roles := s.roles[pgd := Table(|s.pgds|, [])], used := s'.used)
  }

  /** A task created from an empty lower half starts with an empty one, apart from all others. */
  lemma TaskAdded(s: Space, s': Space, source: nat, pgd: nat)
    requires TaskStep(s, s', source, pgd) && LowerZero(s.words, source)
    ensures s'.Consistent() && UpperKept(s, s')
    ensures forall l, q: nat :: 0 <= l < |s.pgds| ==> s'.Entry(l, q) == s.Entry(l, q)
    ensures forall q: nat :: s'.Entry(|s.pgds|, q) == EMPTY
    ensures forall i: nat :: i < 0x200 ==> Read(s'.words, pgd, i) == Nth(s.words, source, i)
  {
    hide Tree;
    hide Leaf;
    hide LowerHalf;
    hide CopyPage;
    hide TablesOf;
    hide LowerZero;
    CopiedTableIsEmpty(s.words, source, pgd);
    NewTaskOwnsItsRoot(s, pgd);
    CopyReads(s.words, source, pgd);
    RootRoles(s);
    forall l | 0 <= l < |s.pgds| ensures s'.TreeOf(l) {
      OldTaskUnaffected(s, s', source, pgd, l);
    }
    forall l, q: nat | 0 <= l < |s.pgds| ensures s'.Entry(l, q) == s.Entry(l, q) {
      OldTaskUnaffected(s, s', source, pgd, l);
    }
    assert s'.pgds[|s.pgds|] == pgd && s'.TreeOf(|s.pgds|);
  }

  /** The new task shares the kernel's half: the processor translates a page there as through the table that CR3
      named. */
  lemma UpperWalkIsShared(w: Words, frame: nat, pgd: nat, page: nat)
    requires frame != pgd && Pml4Index(page) >= LOWER
    ensures var w' := CopyPage(w, 0x1000 * frame, pgd);
      Walk(w', pgd, page, PG_PRESENT) == Walk(w', frame, page, PG_PRESENT)
  {
    hide CopyPage;
    hide Nth;
    hide Pml4Index;
    hide PdptIndex;
    hide PdIndex;
    hide PtIndex;
    CopyReads(w, 0x1000 * frame, pgd);
    IndicesInRange(page);
    AlignedWord(w, frame, Pml4Index(page));
  }

  lemma OldTaskUnaffected(s: Space, s': Space, source: nat, pgd: nat, l: nat)
    requires TaskStep(s, s', source, pgd) && l < |s.pgds|
    ensures s'.TreeOf(l) && forall q: nat :: s'.Entry(l, q) == s.Entry(l, q)
  {
    hide Tree;
    hide LowerHalf;
    hide Leaf;
    hide CopyPage;
    assert s.TreeOf(l) && s'.pgds[l] == s.pgds[l];
    CopyReads(s.words, source, pgd);
    TablesOfUpdate(s.roles, pgd, s'.roles[pgd], l);
    TaskUnaffected(s, s'.words, l);
  }

  lemma NewTaskOwnsItsRoot(s: Space, pgd: nat)
    requires s.Consistent() && pgd !in s.roles
    ensures TablesOf(s.roles[pgd := Table(|s.pgds|, [])], |s.pgds|) == map[pgd := []]
  {
  }

  lemma CopiedTableIsEmpty(w: Words, source: nat, pgd: nat)
    requires LowerZero(w, source)
    ensures Tree(LowerHalf(CopyPage(w, source, pgd), pgd), pgd, map[pgd := []], PG_TABLE)
    ensures forall q: nat :: Leaf(LowerHalf(CopyPage(w, source, pgd), pgd), pgd, q) == EMPTY
  {
    CopyReads(w, source, pgd);
    LowerReads(CopyPage(w, source, pgd), pgd);
    hide CopyPage;
    hide LowerHalf;
    hide Nth;
    EmptyTree(LowerHalf(CopyPage(w, source, pgd), pgd), pgd, PG_TABLE);
  }

  /** Why the copied lower half must be empty: a copied link is a shared subtree. If page `page` of the
      copied table `from` already has its lowest table, a fault that stores entry `e` for the one task
      gives the other task the same translation. */
  lemma CopiedLinkIsShared(w: Words, from: nat, to: nat, owner: Owner, page: nat, table: nat, e: Word)
    requires Tree(LowerHalf(w, from), from, owner, PG_PRESENT) && to !in owner && Pml4Index(page) < LOWER
    requires Reaches(LowerHalf(w, from), from, page, table)
    ensures var w' := CopyPage(w, 0x1000 * from, to)[Slot(table, PtIndex(page)) := e];
      && Leaf(LowerHalf(CopyPage(w, 0x1000 * from, to), to), to, page) == Leaf(LowerHalf(w, from), from, page)
      && Leaf(LowerHalf(w', from), from, page) == e == Leaf(LowerHalf(w', to), to, page)
  {
    TablesOnPath(LowerHalf(w, from), from, owner, PG_PRESENT, page);
    var copied := CopyPage(w, 0x1000 * from, to);
    var w' := copied[Slot(table, PtIndex(page)) := e];
    CopyReads(w, 0x1000 * from, to);
    forall i: nat | i < 0x200 ensures Read(copied, to, i) == Read(w, from, i) {
      AlignedWord(w, from, i);
    }
    LowerReads(w, from);
    LowerReads(copied, to);
    LowerReads(w', from);
    LowerReads(w', to);
    hide CopyPage;
    hide LowerHalf;
    hide Tree;
    hide Nth;
  }

  const KERNEL_SPACE: u64 := 0xffff_8000_0000_0000
  const EINVAL: int := 22

  /** `address_check`; the subtraction is in 64 bits. */
  function AddressCheck(addr: u64, cpl: nat): int {
    if cpl != 0 && (addr - KERNEL_SPACE) % U64 > addr then -EINVAL
    else if addr == 0xffff_ffff_0000_0000 then -EINVAL
    else 0
  }

  /** As written the check refuses a user fault exactly below the kernel's half, so every lower-half page
      is faulted in by kernel code, and it lets user faults on kernel addresses through. */
  lemma AddressCheckRefuses(addr: u64, cpl: nat)
    ensures AddressCheck(addr, cpl) != 0 <==> (cpl != 0 && addr < KERNEL_SPACE) || addr == 0xffff_ffff_0000_0000
  {
    assert (addr - KERNEL_SPACE) % U64
        == if addr < KERNEL_SPACE then addr - KERNEL_SPACE + U64 else addr - KERNEL_SPACE;
  }

  /** Attributes of a page: user or supervisor, writable or not. */
  function PageAttributes(cpl: nat, rdOnly: bool): bv12 {
    PG_PRESENT | (if cpl == 0 then 0 else PG_USER) | (if rdOnly then 0 else PG_READ_WRITE)
  }

  /** What the attributes say: present, open to the user unless a supervisor asked, and writable unless read-only. */
  lemma AttributesMean(cpl: nat, rdOnly: bool)
    ensures PageAttributes(cpl, rdOnly) & 0x1 != 0
    ensures PageAttributes(cpl, rdOnly) & 0x4 != 0 <==> cpl != 0
    ensures PageAttributes(cpl, rdOnly) & 0x2 != 0 <==> !rdOnly
  {
  }

  /** An upper-level entry in a lower half is empty exactly when its frame number is zero. */
  lemma LowerLink(s: Space, k: nat, table: nat, index: nat)
    requires s.Consistent() && UpperSlot(s, k, table, index)
    ensures var e := Read(s.words, table, index);
      && (e == EMPTY <==> e.frame == 0)
      && (e != EMPTY ==> e.frame in s.roles && s.roles[e.frame] == Table(k, s.roles[table].path + [index]))
  {
    LowerReads(s.words, s.pgds[k]);
    assert s.TreeOf(k);
    var e := Read(s.words, table, index);
    assert Read(LowerHalf(s.words, s.pgds[k]), table, index) == e;
    assert Link(TablesOf(s.roles, k), table, index, e, PG_TABLE);
  }

  lemma RootRole(s: Space, k: nat)
    requires k < |s.pgds| && s.TreeOf(k)
    ensures s.pgds[k] in s.roles && s.roles[s.pgds[k]] == Table(k, [])
  {
    assert s.pgds[k] in TablesOf(s.roles, k);
  }

  /** The descent in memory is the descent in the lower half. */
  lemma ReachesByReading(s: Space, k: nat, page: nat, pt: nat)
    requires k < |s.pgds| && s.TreeOf(k) && Pml4Index(page) < LOWER && Reaches(s.words, s.pgds[k], page, pt)
    ensures Reaches(LowerHalf(s.words, s.pgds[k]), s.pgds[k], page, pt)
  {
    LowerReads(s.words, s.pgds[k]);
    TablesOnPath(LowerHalf(s.words, s.pgds[k]), s.pgds[k], TablesOf(s.roles, k), PG_TABLE, page);
  }

  /** The lowest-level entry of a page whose tables are in place, where the source reads it. */
  lemma EntryIsRead(s: Space, k: nat, page: nat, table: nat)
    requires s.Consistent() && k < |s.pgds| && Reaches(LowerHalf(s.words, s.pgds[k]), s.pgds[k], page, table)
    ensures s.Entry(k, page) == Read(s.words, table, PtIndex(page))
    ensures s.Entry(k, page) == EMPTY <==> s.Entry(k, page).frame == 0
  {
    assert s.TreeOf(k);
    TableOfPage(s, k, page, table);
    LowerReads(s.words, s.pgds[k]);
    hide LowerHalf;
    assert s.Entry(k, page) == Read(LowerHalf(s.words, s.pgds[k]), table, PtIndex(page));
    if s.Entry(k, page) != EMPTY {
      assert s.Maps(s.Entry(k, page), k, page);
    }
  }

  lemma EntryIsPerPage(s: Space, k: nat, page: nat, q: nat)
    requires k < |s.pgds| && SamePage(page, q)
    ensures s.Entry(k, q) == s.Entry(k, page)
  {
    IndicesNamePage(page, q);
    assert PathTo(q)[0] == PathTo(page)[0] && PathTo(q)[1] == PathTo(page)[1] && PathTo(q)[2] == PathTo(page)[2];
  }

  /** What a demand fault on a lower-half page of task `k` does: an unmapped page gets a zeroed frame
      that nothing used before; no other page of this task, and no page of another, changes. */
  ghost predicate FaultedIn(s: Space, s': Space, k: nat, page: nat, attributes: bv12) {
    && k < |s.pgds| && s'.pgds == s.pgds && UpperKept(s, s') && s'.Entry(k, page) != EMPTY
    && (s.Entry(k, page) == EMPTY ==>
          s'.Entry(k, page).flags == attributes && s'.Entry(k, page).frame !in s.used
          && forall i: nat :: Read(s'.words, s'.Entry(k, page).frame, i) == EMPTY)
    && (s.Entry(k, page) != EMPTY ==> s'.Entry(k, page) == s.Entry(k, page))
    && (forall l, q: nat :: 0 <= l < |s.pgds| && !(l == k && SamePage(page, q)) ==> s'.Entry(l, q) == s.Entry(l, q))
  }

  /** A page that a fault mapped may be used by whom the fault was for: by the user exactly if it was the user's,
      and for writing unless it was to be read-only. */
  predicate GrantedFor(permissions: bv12, cpl: nat, rdOnly: bool) {
    permissions & 0x1 != 0 && (permissions & 0x4 != 0 <==> cpl != 0) && (permissions & 0x2 != 0 <==> !rdOnly)
  }

  lemma FaultGrants(s: Space, s': Space, k: nat, page: nat, cpl: nat, rdOnly: bool)
    requires s'.Consistent() && FaultedIn(s, s', k, page, PageAttributes(cpl, rdOnly)) && Pml4Index(page) < LOWER
    requires s.Entry(k, page) == EMPTY
    ensures GrantedFor(Permissions(s'.words, s'.pgds[k], page), cpl, rdOnly)
  {
    hide Permissions;
    hide Space.Entry;
    hide Space.Consistent;
    EntryDecides(s', k, page);
  }

  /** Every task of `s` translates its lower half in `s'` as before, and has the same upper half. */
  ghost predicate Kept(s: Space, s': Space) {
    && UpperKept(s, s') && s.used <= s'.used
    && forall l, q: nat :: 0 <= l < |s.pgds| ==> s'.Entry(l, q) == s.Entry(l, q)
  }

  lemma KeptThenFaulted(s: Space, s': Space, s'': Space, k: nat, page: nat, attributes: bv12)
    requires Kept(s, s') && |s'.pgds| == |s.pgds| && FaultedIn(s', s'', k, page, attributes)
    ensures FaultedIn(s, s'', k, page, attributes)
  {
    hide Space.Entry;
    hide SamePage;
  }

  /** What happens to the tasks: one is created while CR3 is `cr3`, or task `k`
      faults on a lower-half address. */
  datatype Event = NewTask(cr3: nat) | Fault(k: nat, addr: u64, cpl: nat) {
    predicate FaultsOn(l: nat, page: nat) { Fault? && k == l && SamePage(addr / 0x1000, page) }
  }

  /** The 4096 bytes at `a` lie in frames that are in use. */
  ghost predicate PageInUse(used: iset<nat>, a: nat) {
    a / 0x1000 in used && (a % 0x1000 != 0 ==> a / 0x1000 + 1 in used)
  }

  ghost predicate Enabled(s: Space, e: Event) {
    match e
    case NewTask(cr3) => PageInUse(s.used, cr3) && LowerZero(s.words, cr3)
    case Fault(k, addr, _) => k < |s.pgds| && Pml4Index(addr / 0x1000) < LOWER
  }

  ghost predicate Step(s: Space, e: Event, s': Space) {
    s'.Consistent() &&
    match e
    case NewTask(cr3) =>
      && Kept(s, s') && |s'.pgds| == |s.pgds| + 1 && (forall q: nat :: s'.Entry(|s.pgds|, q) == EMPTY)
      && forall i: nat :: i < 0x200 ==> Read(s'.words, s'.pgds[|s.pgds|], i) == Nth(s.words, cr3, i)
    case Fault(k, addr, cpl) =>
      if AddressCheck(addr, cpl) != 0 then Kept(s, s') && |s'.pgds| == |s.pgds|
      else FaultedIn(s, s', k, addr / 0x1000, PageAttributes(cpl, false))
  }

  ghost predicate IsRun(states: seq<Space>, es: seq<Event>) {
    && |states| == |es| + 1 && states[0].Consistent()
    && forall i :: 0 <= i < |es| ==> Enabled(states[i], es[i]) && Step(states[i], es[i], states[i + 1])
  }

  lemma StepKeepsEntry(s: Space, e: Event, s': Space, l: nat, q: nat)
    requires Step(s, e, s') && l < |s.pgds| && (s.Entry(l, q) != EMPTY || !e.FaultsOn(l, q))
    ensures l < |s'.pgds| && s'.Entry(l, q) == s.Entry(l, q)
  {
    hide Space.Consistent;
    hide Space.Entry;
    hide SamePage;
    if e.FaultsOn(l, q) {
      EntryIsPerPage(s, l, e.addr / 0x1000, q);
      EntryIsPerPage(s', l, e.addr / 0x1000, q);
    }
  }

  /** Isolation over any run of creations and faults: a lower-half page of a task never changes its
      translation once it has one, and gets one by a fault of that task on that page only. */
  lemma {:induction false} RunKeepsEntries(states: seq<Space>, es: seq<Event>, i: nat, j: nat, l: nat, q: nat)
    requires IsRun(states, es) && i <= j <= |es| && l < |states[i].pgds|
    requires states[i].Entry(l, q) != EMPTY || forall k :: i <= k < j ==> !es[k].FaultsOn(l, q)
    ensures l < |states[j].pgds| && states[j].Entry(l, q) == states[i].Entry(l, q)
    decreases j - i
  {
    hide Step;
    hide Enabled;
    hide Space.Entry;
    hide Space.Consistent;
    if i < j {
      RunKeepsEntries(states, es, i, j - 1, l, q);
      assert states[j] == states[j - 1 + 1];
      StepKeepsEntry(states[j - 1], es[j - 1], states[j], l, q);
    }
  }

  /** and its upper half never changes at all: what it shares with the kernel at its creation it shares for good. */
  lemma {:induction false} RunKeepsUpper(states: seq<Space>, es: seq<Event>, i: nat, j: nat)
    requires IsRun(states, es) && i <= j <= |es|
    ensures UpperKept(states[i], states[j])
    decreases j - i
  {
    hide Step;
    hide Enabled;
    hide Space.Consistent;
    if i < j {
      RunKeepsUpper(states, es, i, j - 1);
      assert states[j] == states[j - 1 + 1];
      StepKeepsUpper(states[j - 1], es[j - 1], states[j]);
    }
  }

  lemma StepKeepsUpper(s: Space, e: Event, s': Space)
    requires Step(s, e, s')
    ensures UpperKept(s, s')
  {
    hide Space.Entry;
    hide Space.Consistent;
  }

  /** Memory management of the tasks that exist so far. */
  class TaskMemory {
    const heap: Bootmem
    const mem: PhysMem
    /** Frames of the tasks' top-level tables, `mm.pgd`. */
    var pgds: seq<nat>
    ghost var roles: map<nat, Role>

    ghost function State(): Space
      reads this, heap.bitmap, mem
    {
      Space(mem.words, pgds, roles, heap.Frames())
    }

    ghost predicate Valid()
      reads this, heap, heap.bitmap, mem
    {
      heap.Valid() && State().Consistent()
    }

    /** All tasks translate their lower halves as before. */
    twostate predicate TranslationsKept()
      reads this, heap.bitmap, mem
    {
      Kept(old(State()), State())
    }

    constructor (heap: Bootmem, mem: PhysMem)
      requires heap.Valid()
      ensures Valid() && this.heap == heap && this.mem == mem && pgds == []
    {
      this.heap, this.mem := heap, mem;
      pgds, roles := [], map[];
    }

    /** `arch_init_mm` for a new task. It takes CR3, with the tag of the running task in its low bits, for the
        address of the top-level table. The source does not notice a failed allocation, which is `ok` false
        here. */
    method ArchInitMm(cr3: nat) returns (ok: bool)
      requires Valid() && PageInUse(State().used, cr3) && LowerZero(mem.words, cr3)
      modifies this, heap, heap.bitmap, mem
      ensures Valid() && TranslationsKept()
      ensures |pgds| == |old(pgds)| + if ok then 1 else 0
      ensures ok ==> forall q: nat :: State().Entry(|old(pgds)|, q) == EMPTY
      ensures ok ==> forall i: nat :: i < 0x200 ==>
        Read(mem.words, pgds[|old(pgds)|], i) == Nth(old(mem.words), cr3, i)
      ensures (!ok <==> old(heap.Exhausted())) && (!ok ==> heap.Exhausted())
    {
      hide Tree;
      hide Leaf;
      hide LowerHalf;
      hide LowerZero;
      hide CopyPage;
      hide Bootmem.Valid;
      hide Bootmem.Exhausted;
      hide Bootmem.Used;
      ghost var s := State();
      var pgd := NewPage(heap);
      ok := pgd.Some?;
      if ok {
        mem.words := CopyPage(mem.words, cr3, pgd.value);
        roles := roles[pgd.value := Table(|pgds|, [])];
        pgds := pgds + [pgd.value];
        assert TaskStep(s, State(), cr3, pgd.value);
        TaskAdded(s, State(), cr3, pgd.value);
      } else {
        assert State() == s;
      }
    }

    /** One level of `alloc_new_page`: the table that `table[index]` links, made if there is none. */
    method EnsureLowerTable(k: nat, table: nat, index: nat) returns (child: Option<nat>)
      requires Valid() && UpperSlot(State(), k, table, index)
      modifies this`roles, heap, heap.bitmap, mem
      ensures Valid() && TranslationsKept()
      ensures forall f :: f in old(roles) ==> f in roles && roles[f] == old(roles)[f]
      ensures forall t, i :: t in old(roles) && Read(old(mem.words), t, i) != EMPTY ==>
        Read(mem.words, t, i) == Read(old(mem.words), t, i)
      ensures child.Some? ==>
        && Read(mem.words, table, index) != EMPTY && Read(mem.words, table, index).frame == child.value
        && child.value in roles && roles[child.value] == Table(k, old(roles)[table].path + [index])
      ensures child.None? ==> heap.Exhausted()
    {
      hide Tree;
      hide Leaf;
      hide LowerHalf;
      hide Bootmem.Valid;
      ghost var s := State();
      var entry := Read(mem.words, table, index);
      LowerLink(s, k, table, index);
      if entry.frame == 0 {
        child := NewTable(heap, mem);
        if child.None? {
          assert State() == s;
          return;
        }
        mem.words := mem.words[Slot(table, index) := Word(child.value, PG_TABLE)];
        roles := roles[child.value := Table(k, roles[table].path + [index])];
        TableAdded(s, State(), k, table, index, child.value);
      } else {
        child := Some(entry.frame);
      }
    }

    /** The descent of `alloc_new_page` to the lowest table of a page. */
    method EnsureLowerTables(k: nat, page: nat) returns (pt: Option<nat>)
      requires Valid() && k < |pgds| && Pml4Index(page) < LOWER
      modifies this`roles, heap, heap.bitmap, mem
      ensures Valid() && TranslationsKept()
      ensures pt.Some? ==> Reaches(LowerHalf(mem.words, pgds[k]), pgds[k], page, pt.value)
      ensures pt.None? ==> heap.Exhausted()
    {
      hide Tree;
      hide Leaf;
      hide LowerHalf;
      hide Bootmem.Valid;
      hide Bootmem.Exhausted;
      hide Bootmem.Used;
      IndicesInRange(page);
      RootRole(State(), k);
      var pdpt := EnsureLowerTable(k, pgds[k], Pml4Index(page));
      if pdpt.None? { return None; }
      var pdt := EnsureLowerTable(k, pdpt.value, PdptIndex(page));
      if pdt.None? { return None; }
      pt := EnsureLowerTable(k, pdt.value, PdIndex(page));
      if pt.None? { return None; }
      ReachesByReading(State(), k, page, pt.value);
    }

    /** `alloc_new_page` for a 4 KB page, executable, while task `k` runs; `ok` is false when the
        allocator returned NULL, which the source would go on to write through. */
    method AllocNewPage(k: nat, addr: nat, cpl: nat, rdOnly: bool) returns (ok: bool)
      requires Valid() && k < |pgds| && Pml4Index(addr / 0x1000) < LOWER
      modifies this`roles, heap, heap.bitmap, mem
      ensures Valid()
      ensures if ok then FaultedIn(old(State()), State(), k, addr / 0x1000, PageAttributes(cpl, rdOnly))
        else TranslationsKept()
      ensures ok && old(State().Entry(k, addr / 0x1000)) == EMPTY ==>
        GrantedFor(Permissions(mem.words, pgds[k], addr / 0x1000), cpl, rdOnly)
      ensures !ok ==> heap.Exhausted()
    {
      hide Tree;
      hide Leaf;
      hide LowerHalf;
      hide Bootmem.Valid;
      hide Bootmem.Exhausted;
      hide Bootmem.Used;
      hide FaultedIn;
      hide GrantedFor;
      hide Permissions;
      ghost var s := State();
      ok := false;
      var pt := EnsureLowerTables(k, addr / 0x1000);
      ghost var s' := State();
      if pt.Some? {
        ok := MapZeroedPage(k, addr / 0x1000, pt.value, PageAttributes(cpl, rdOnly));
        if ok {
          KeptThenFaulted(s, s', State(), k, addr / 0x1000, PageAttributes(cpl, rdOnly));
          if s.Entry(k, addr / 0x1000) == EMPTY {
            FaultGrants(s, State(), k, addr / 0x1000, cpl, rdOnly);
          }
        }
      }
    }

    /** `page_fault_mm` on a lower-half address: refused faults kill the task and touch no table. */
    method PageFaultMm(k: nat, addr: u64, cpl: nat) returns (ret: int, killed: bool, ok: bool)
      requires Valid() && k < |pgds| && Pml4Index(addr / 0x1000) < LOWER
      modifies this`roles, heap, heap.bitmap, mem
      ensures Valid()
      ensures killed <==> AddressCheck(addr, cpl) != 0
      ensures ret == AddressCheck(addr, cpl)
      ensures killed || !ok ==> TranslationsKept()
      ensures !killed && ok ==> FaultedIn(old(State()), State(), k, addr / 0x1000, PageAttributes(cpl, false))
      ensures !killed && ok && old(State().Entry(k, addr / 0x1000)) == EMPTY ==>
        GrantedFor(Permissions(mem.words, pgds[k], addr / 0x1000), cpl, false)
      ensures !ok ==> !killed && heap.Exhausted()
    {
      hide FaultedIn;
      hide GrantedFor;
      hide Permissions;
      hide Space.Entry;
      hide Bootmem.Valid;
      ret := AddressCheck(addr, cpl);
      killed, ok := ret != 0, true;
      if !killed {
        ok := AllocNewPage(k, addr, cpl, false);
      }
    }

    /** The last level of `alloc_new_page`. */
    method MapZeroedPage(k: nat, page: nat, pt: nat, attributes: bv12) returns (ok: bool)
      requires Valid() && k < |pgds| && Pml4Index(page) < LOWER && attributes & PG_PRESENT != 0
      requires Reaches(LowerHalf(mem.words, pgds[k]), pgds[k], page, pt)
      modifies this`roles, heap, heap.bitmap, mem
      ensures Valid()
      ensures if ok then FaultedIn(old(State()), State(), k, page, attributes) else TranslationsKept()
      ensures !ok ==> heap.Exhausted()
    {
      hide Tree;
      hide Leaf;
      hide LowerHalf;
      hide Bootmem.Valid;
      ghost var s := State();
      var pte := Read(mem.words, pt, PtIndex(page));
      EntryIsRead(s, k, page, pt);
      ok := true;
      if pte.frame == 0 {
        var frame := NewTable(heap, mem);
        if frame.None? {
          assert State() == s;
          return false;
        }
        mem.words := mem.words[Slot(pt, PtIndex(page)) := Word(frame.value, attributes)];
        roles := roles[frame.value := Data(k, page % 0x10_0000_0000)];
        PageAdded(s, State(), k, pt, page, Word(frame.value, attributes));
      }
    }

    /** Any run of events: the first `n` take place, which is all of them unless one is not possible or
        memory runs out. */
    method Run(es: seq<Event>) returns (n: nat, ghost states: seq<Space>)
      requires Valid()
      modifies this, heap, heap.bitmap, mem
      ensures Valid() && n <= |es| && IsRun(states, es[..n]) && states[0] == old(State())
      ensures Kept(states[n], State()) && (n == |es| ==> State() == states[n])
      ensures n < |es| ==> !Enabled(states[n], es[n]) || heap.Exhausted()
    {
      n, states := 0, [State()];
      while n < |es|
        invariant n <= |es| && Valid() && IsRun(states, es[..n]) && states[0] == old(State()) && states[n] == State()
      {
        hide Step;
        hide Bootmem.Valid;
        hide Space.Consistent;
        hide Space.Entry;
        var ok := Handle(es[n]);
        if !ok {
          return;
        }
        assert es[..n + 1][..n] == es[..n];
        states := states + [State()];
        n := n + 1;
      }
    }

    /** One event, if it is possible. */
    method Handle(e: Event) returns (ok: bool)
      requires Valid()
      modifies this, heap, heap.bitmap, mem
      ensures Valid() && if ok then Enabled(old(State()), e) && Step(old(State()), e, State()) else TranslationsKept()
      ensures !ok ==> !Enabled(old(State()), e) || heap.Exhausted()
    {
      hide Bootmem.Valid;
      hide Space.Consistent;
      hide Space.Entry;
      hide Nth;
      hide Bootmem.Exhausted;
      match e
      case NewTask(cr3) =>
        ok := heap.Used(cr3 / 0x1000) && (cr3 % 0x1000 != 0 ==> heap.Used(cr3 / 0x1000 + 1))
          && forall i: nat :: i < LOWER ==> Nth(mem.words, cr3, i) == EMPTY;
        if ok {
          ok := ArchInitMm(cr3);
        }
      case Fault(k, addr, cpl) =>
        ok := k < |pgds| && Pml4Index(addr / 0x1000) < LOWER;
        if ok {
          var _, _, served := PageFaultMm(k, addr, cpl);
          ok := served;
        }
    }
  }
}
